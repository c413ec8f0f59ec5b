/** Flattening an index and building from the rows again, in whatever order they come back. */
module RoundTrip {
  import opened Lists
  import opened Text
  import opened Source
  import opened Indexes
  import opened IndexReads

  /** Every member with orgs names github-org among its sources, so flattening keeps the orgs. */
  ghost predicate OrgsCarried(idx: Index) {
    forall t, k :: idx.Has(t, k) ==> MemberCarriesOrgs(idx.At(t, k))
  }

  ghost predicate MemberCarriesOrgs(m: Member) {
    m.orgs != [] ==> GITHUB_ORG in m.sources
  }

  lemma {:induction false} SharedName(g: seq<Membership>, name: string)
    requires g != [] && forall m :: m in g ==> m.name == name
    ensures FirstName(g) == name
  {
    assert g[0] in g;
    if |g| == 1 {
    } else {
      SharedName(g[1..], name);
    }
  }

  /** The rows of one member, once flattened, restore its presence, handle and name. */
  lemma MemberSurvives(idx: Index, rows: seq<Membership>, t: string, k: string)
    requires Valid(idx) && forall r :: r in rows <==> RowOf(idx, r)
    ensures Built(rows).Has(t, k) <==> idx.Has(t, k)
    ensures idx.Has(t, k) ==>
              var m, n := idx.At(t, k), Resolve(rows, t, k); n.handle == m.handle && n.name == m.name
  {
    var g := Group(rows, t, k);
    GroupExists(rows, t, k);
    if g != [] {
      GroupElems(rows, t, k, g[0]);
    }
    if idx.Has(t, k) {
      var m := idx.At(t, k);
      assert ValidMember(t, k, m);
      forall r | r in g ensures r.handle == m.handle && r.name == m.name {
        GroupElems(rows, t, k, r);
      }
      var src := m.sources[0];
      var row := Membership(m.handle, t, src, if src == GITHUB_ORG && m.orgs != [] then m.orgs[0] else "", m.name);
      assert RowOf(idx, row);
      GroupElems(rows, t, k, row);
      SharedName(g, m.name);
    }
  }

  lemma SourcesSurvive(idx: Index, rows: seq<Membership>, t: string, k: string)
    requires Valid(idx) && forall r :: r in rows <==> RowOf(idx, r)
    requires idx.Has(t, k)
    ensures SourcesAt(rows, t, k) == Elems(idx.At(t, k).sources)
  {
    var m := idx.At(t, k);
    assert ValidMember(t, k, m);
    forall src | src in m.sources ensures src in SourcesAt(rows, t, k) {
      var row := Membership(m.handle, t, src, if src == GITHUB_ORG && m.orgs != [] then m.orgs[0] else "", m.name);
      assert RowOf(idx, row) && row in rows && row.At(t, k);
    }
  }

  lemma OrgsSurvive(idx: Index, rows: seq<Membership>, t: string, k: string)
    requires Valid(idx) && forall r :: r in rows <==> RowOf(idx, r)
    requires idx.Has(t, k)
    ensures OrgsAt(rows, t, k) == if GITHUB_ORG in idx.At(t, k).sources then Elems(idx.At(t, k).orgs) else {}
  {
    var m := idx.At(t, k);
    assert ValidMember(t, k, m);
    if GITHUB_ORG in m.sources {
      forall org | org in m.orgs ensures org in OrgsAt(rows, t, k) {
        var row := Membership(m.handle, t, GITHUB_ORG, org, m.name);
        assert RowOf(idx, row) && row in rows && row.At(t, k);
      }
    }
  }

  lemma MemberRoundTrip(idx: Index, rows: seq<Membership>, t: string, k: string)
    requires Valid(idx) && forall r :: r in rows <==> RowOf(idx, r)
    requires idx.Has(t, k)
    ensures Resolve(rows, t, k) == idx.At(t, k) <==> MemberCarriesOrgs(idx.At(t, k))
  {
    var m := idx.At(t, k);
    assert ValidMember(t, k, m);
    MemberSurvives(idx, rows, t, k);
    SourcesSurvive(idx, rows, t, k);
    OrgsSurvive(idx, rows, t, k);
    AscendingUnique(Sorted(SourcesAt(rows, t, k)), m.sources);
    if MemberCarriesOrgs(m) {
      EmptyElems(m.orgs);
      AscendingUnique(Sorted(OrgsAt(rows, t, k)), m.orgs);
    } else {
      EmptyElems(Sorted(OrgsAt(rows, t, k)));
    }
  }

  lemma FlattenedRows(idx: Index, rows: seq<Membership>)
    requires Valid(idx) && Elems(rows) == Elems(Flatten(idx))
    ensures forall r :: r in rows <==> RowOf(idx, r)
  {
    forall r ensures r in rows <==> RowOf(idx, r) {
      FlattenElems(idx, r);
      assert r in rows <==> r in Elems(rows);
      assert r in Flatten(idx) <==> r in Elems(Flatten(idx));
    }
  }

  /**
   Rebuilding from the flattened rows of a valid index, in any order and with any repetitions,
   gives the index back - handles and names included - exactly when no member carries orgs
   without github-org among its sources.
   */
  lemma FlattenRoundTrip(idx: Index, rows: seq<Membership>)
    requires Valid(idx) && Elems(rows) == Elems(Flatten(idx))
    ensures Built(rows) == idx <==> OrgsCarried(idx)
  {
    FlattenedRows(idx, rows);
    BuiltValid(rows);
    forall t, k
      ensures Built(rows).Has(t, k) <==> idx.Has(t, k)
      ensures idx.Has(t, k) ==> (Built(rows).At(t, k) == idx.At(t, k) <==> MemberCarriesOrgs(idx.At(t, k)))
    {
      MemberSurvives(idx, rows, t, k);
      if idx.Has(t, k) { MemberRoundTrip(idx, rows, t, k); }
    }
    if OrgsCarried(idx) {
      IndexExtensional(Built(rows), idx);
    }
  }

  lemma CarriedWhenOrgsAreGithubs(ms: seq<Membership>)
    requires forall m :: m in ms && m.org != "" ==> m.source == GITHUB_ORG
    ensures OrgsCarried(Built(ms))
  {
    var idx := Built(ms);
    forall t, k | idx.Has(t, k) && idx.At(t, k).orgs != [] ensures GITHUB_ORG in idx.At(t, k).sources {
      EmptyElems(idx.At(t, k).orgs);
      var org :| org in OrgsAt(ms, t, k);
      SortedMember(SourcesAt(ms, t, k), GITHUB_ORG);
    }
  }

  /** The restart path of the shipped sources: any permutation of the flattened rows rebuilds the index. */
  lemma BuildFlattenBuild(ms: seq<Membership>, p: seq<Membership>)
    requires forall m :: m in ms && m.org != "" ==> m.source == GITHUB_ORG
    requires multiset(p) == multiset(Flatten(Built(ms)))
    ensures Built(p) == Built(ms)
  {
    BuiltValid(ms);
    PermutationElems(p, Flatten(Built(ms)));
    CarriedWhenOrgsAreGithubs(ms);
    FlattenRoundTrip(Built(ms), p);
  }
}
