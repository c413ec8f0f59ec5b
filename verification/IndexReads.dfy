/** The read side of the index: the flat, per-team and per-handle views. */
module IndexReads {
  import opened Lists
  import opened Text
  import opened Source
  import opened Indexes

  /** The values of a map in ascending key order. */
  ghost function Listing<T>(at: map<string, T>): seq<T> {
    var ks := Sorted(at.Keys);
    seq(|ks|, i requires 0 <= i < |ks| => SortedMember(at.Keys, ks[i]); at[ks[i]])
  }

  lemma ListingElems<T>(at: map<string, T>, x: T)
    ensures x in Listing(at) <==> exists k :: k in at && at[k] == x
  {
    var ks := Sorted(at.Keys);
    if k :| k in at && at[k] == x {
      SortedMember(at.Keys, k);
      var i :| 0 <= i < |ks| && ks[i] == k;
      assert Listing(at)[i] == x;
    }
    if x in Listing(at) {
      var i :| 0 <= i < |ks| && Listing(at)[i] == x;
      SortedMember(at.Keys, ks[i]);
    }
  }

  /** Range over a map in any order, append every value, sort by a key no two values share. */
  method SortedValues<T>(at: map<string, T>, key: T -> string) returns (ys: seq<T>)
    requires forall k :: k in at ==> key(at[k]) == k
    ensures ys == Listing(at)
  {
    var out: seq<T> := [];
    var todo := at.Keys;
    while todo != {}
      invariant todo <= at.Keys
      invariant forall k :: k in at && k !in todo ==> at[k] in out
      invariant forall y :: y in out ==> key(y) in at && key(y) !in todo && y == at[key(y)]
      invariant Distinct(out)
    {
      var k :| k in todo;
      assert at[k] !in out;
      out := out + [at[k]];
      todo := todo - {k};
    }
    ys := SortBy(out, key);
    PermutationElems(ys, out);
    PermutationDistinct(ys, out);
    assert forall y :: y in ys <==> y in Elems(out);
    SortedByUniqueKey(ys, key, at.Keys, at);
  }

  /** TeamSlugs: range over the team map in any order, then sort.Strings. */
  method SortedKeys<T>(at: map<string, T>) returns (slugs: seq<string>)
    ensures slugs == Sorted(at.Keys)
  {
    slugs := [];
    var todo := at.Keys;
    while todo != {}
      invariant todo <= at.Keys
      invariant Elems(slugs) == at.Keys - todo
      invariant Distinct(slugs)
    {
      var slug :| slug in todo;
      assert slug !in Elems(slugs);
      assert Elems(slugs + [slug]) == Elems(slugs) + {slug};
      slugs := slugs + [slug];
      todo := todo - {slug};
    }
    assert Elems(slugs) == at.Keys;
    slugs := SortStrings(slugs);
  }

  // ----- Members -----

  predicate Selects(filter: string, m: Member) {
    filter == "" || filter in m.sources
  }

  ghost function MembersOf(idx: Index, team: string, filter: string): seq<Member> {
    if team !in idx.teams then []
    else
      var members := idx.teams[team].members;
      Listing(map k | k in members && Selects(filter, members[k]) :: members[k])
  }

  /** Members: the members of a team a source contributed to, by ascending lowercased handle. */
  method Members(idx: Index, team: string, filter: string) returns (out: seq<Member>)
    requires Valid(idx)
    ensures out == MembersOf(idx, team, filter)
  {
    if team !in idx.teams {
      return [];
    }
    var members := idx.teams[team].members;
    var kept := map k | k in members && Selects(filter, members[k]) :: members[k];
    assert forall k :: k in members ==> idx.Has(team, k);
    out := SortedValues(kept, (m: Member) => ToLower(m.handle));
  }

  /** A member is listed exactly when the filter is empty or one of its sources; handles strictly ascend. */
  lemma MembersOfIff(idx: Index, team: string, filter: string, x: Member)
    requires Valid(idx)
    ensures x in MembersOf(idx, team, filter) <==>
            exists k :: idx.Has(team, k) && x == idx.At(team, k) && (filter == "" || filter in x.sources)
    ensures var out := MembersOf(idx, team, filter);
            forall i, j :: 0 <= i < j < |out| ==> Lt(ToLower(out[i].handle), ToLower(out[j].handle))
  {
    if team in idx.teams {
      var members := idx.teams[team].members;
      var kept := map k | k in members && Selects(filter, members[k]) :: members[k];
      ListingElems(kept, x);
      if k :| idx.Has(team, k) && x == idx.At(team, k) && (filter == "" || filter in x.sources) {
        assert k in kept && kept[k] == x;
      }
      ListingKeys(idx, team, kept);
    }
  }

  lemma ListingKeys(idx: Index, team: string, kept: map<string, Member>)
    requires Valid(idx) && forall k :: k in kept ==> idx.Has(team, k) && kept[k] == idx.At(team, k)
    ensures var out := Listing(kept);
            forall i, j :: 0 <= i < j < |out| ==> Lt(ToLower(out[i].handle), ToLower(out[j].handle))
  {
    var ks := Sorted(kept.Keys);
    forall i | 0 <= i < |ks| ensures ToLower(Listing(kept)[i].handle) == ks[i] {
      SortedMember(kept.Keys, ks[i]);
      assert ValidMember(team, ks[i], idx.At(team, ks[i]));
    }
  }

  // ----- Lookup -----

  ghost function TeamsWith(idx: Index, k: string): set<string> {
    set t | t in idx.teams && k in idx.teams[t].members
  }

  /** Lookup: every team the handle is on, in any casing, with its member record there. */
  method Lookup(idx: Index, handle: string) returns (out: map<string, Member>)
    ensures out.Keys == TeamsWith(idx, ToLower(handle))
    ensures forall t :: t in out ==> out[t] == idx.teams[t].members[ToLower(handle)]
  {
    var key := ToLower(handle);
    out := map[];
    var todo := idx.teams.Keys;
    while todo != {}
      invariant todo <= idx.teams.Keys
      invariant out.Keys == TeamsWith(idx, key) - todo
      invariant forall t :: t in out ==> out[t] == idx.teams[t].members[key]
    {
      var slug :| slug in todo;
      if key in idx.teams[slug].members {
        out := out[slug := idx.teams[slug].members[key]];
      }
      todo := todo - {slug};
    }
  }

  /** Looking a handle up finds the teams on which somebody has it in some casing, and that record. */
  lemma LookupPlainly(idx: Index, handle: string, t: string)
    requires Valid(idx)
    ensures t in TeamsWith(idx, ToLower(handle)) <==>
            exists k :: idx.Has(t, k) && SameUpToCase(idx.At(t, k).handle, handle)
    ensures t in TeamsWith(idx, ToLower(handle)) ==>
            SameUpToCase(idx.teams[t].members[ToLower(handle)].handle, handle)
  {
    if idx.Has(t, ToLower(handle)) {
      var x := idx.At(t, ToLower(handle));
      assert ValidMember(t, ToLower(handle), x);
      FoldIff(x.handle, handle);
    }
    if k :| idx.Has(t, k) && SameUpToCase(idx.At(t, k).handle, handle) {
      assert ValidMember(t, k, idx.At(t, k));
      FoldIff(idx.At(t, k).handle, handle);
    }
  }

  /** The spelling a handle is looked up under does not matter. */
  lemma RecasingFindsTheSame(idx: Index, a: string, b: string)
    requires SameUpToCase(a, b)
    ensures TeamsWith(idx, ToLower(a)) == TeamsWith(idx, ToLower(b)) && ToLower(a) == ToLower(b)
  {
    FoldIff(a, b);
  }

  // ----- Memberships -----

  ghost function OrgRow(t: string, m: Member, src: string): string -> seq<Membership> {
    org => [Membership(m.handle, t, src, org, m.name)]
  }

  ghost function SourceRows(t: string, m: Member): string -> seq<Membership> {
    src => if src == GITHUB_ORG && m.orgs != [] then FlatMap(m.orgs, OrgRow(t, m, src))
           else [Membership(m.handle, t, src, "", m.name)]
  }

  ghost function MemberRows(t: string): Member -> seq<Membership> {
    (m: Member) => FlatMap(m.sources, SourceRows(t, m))
  }

  ghost function TeamRows(idx: Index): string -> seq<Membership> {
    t => FlatMap(MembersOf(idx, t, ""), MemberRows(t))
  }

  /** The rows of an index: one per member and source, or per member and org for github-org. */
  ghost function Flatten(idx: Index): seq<Membership> {
    FlatMap(Sorted(idx.teams.Keys), TeamRows(idx))
  }

  method RowsOfOrgs(slug: string, m: Member, src: string) returns (out: seq<Membership>)
    ensures out == FlatMap(m.orgs, OrgRow(slug, m, src))
  {
    out := [];
    for l := 0 to |m.orgs|
      invariant out == FlatMap(m.orgs[..l], OrgRow(slug, m, src))
    {
      FlatMapSnoc(m.orgs, l, OrgRow(slug, m, src));
      out := out + [Membership(m.handle, slug, src, m.orgs[l], m.name)];
    }
    assert m.orgs[..|m.orgs|] == m.orgs;
  }

  method RowsOfMember(slug: string, m: Member) returns (out: seq<Membership>)
    ensures out == MemberRows(slug)(m)
  {
    out := [];
    for k := 0 to |m.sources|
      invariant out == FlatMap(m.sources[..k], SourceRows(slug, m))
    {
      var src := m.sources[k];
      FlatMapSnoc(m.sources, k, SourceRows(slug, m));
      if src == GITHUB_ORG && |m.orgs| > 0 {
        var rows := RowsOfOrgs(slug, m, src);
        out := out + rows;
        continue;
      }
      out := out + [Membership(m.handle, slug, src, "", m.name)];
    }
    assert m.sources[..|m.sources|] == m.sources;
  }

  method RowsOfMembers(slug: string, members: seq<Member>) returns (out: seq<Membership>)
    ensures out == FlatMap(members, MemberRows(slug))
  {
    out := [];
    for j := 0 to |members|
      invariant out == FlatMap(members[..j], MemberRows(slug))
    {
      FlatMapSnoc(members, j, MemberRows(slug));
      var rows := RowsOfMember(slug, members[j]);
      out := out + rows;
    }
    assert members[..|members|] == members;
  }

  method RowsOfTeam(idx: Index, slug: string) returns (out: seq<Membership>)
    requires Valid(idx)
    ensures out == TeamRows(idx)(slug)
  {
    var members := Members(idx, slug, "");
    out := RowsOfMembers(slug, members);
  }

  method RowsOfTeams(idx: Index, slugs: seq<string>) returns (out: seq<Membership>)
    requires Valid(idx)
    ensures out == FlatMap(slugs, TeamRows(idx))
  {
    out := [];
    for i := 0 to |slugs|
      invariant out == FlatMap(slugs[..i], TeamRows(idx))
    {
      var rows := RowsOfTeam(idx, slugs[i]);
      FlatMapSnoc(slugs, i, TeamRows(idx));
      out := out + rows;
    }
    assert slugs[..|slugs|] == slugs;
  }

  /** Memberships: flatten the index, slug by slug and member by member. */
  method Memberships(idx: Index) returns (out: seq<Membership>)
    requires Valid(idx)
    ensures out == Flatten(idx)
  {
    var slugs := SortedKeys(idx.teams);
    out := RowsOfTeams(idx, slugs);
  }

  // ----- What a flattened row is -----

  ghost predicate RowOf(idx: Index, r: Membership) {
    && idx.Has(r.team, r.Key())
    && var m := idx.At(r.team, r.Key());
       && r.handle == m.handle && r.name == m.name && r.source in m.sources
       && if r.source == GITHUB_ORG && m.orgs != [] then r.org in m.orgs else r.org == ""
  }

  lemma MemberRowsElems(t: string, m: Member, r: Membership)
    ensures r in MemberRows(t)(m) <==>
            && r.handle == m.handle && r.name == m.name && r.team == t && r.source in m.sources
            && if r.source == GITHUB_ORG && m.orgs != [] then r.org in m.orgs else r.org == ""
  {
    FlatMapElems(m.sources, SourceRows(t, m), r);
    forall src | src in m.sources
      ensures r in SourceRows(t, m)(src) <==>
              && r.handle == m.handle && r.name == m.name && r.team == t && r.source == src
              && if src == GITHUB_ORG && m.orgs != [] then r.org in m.orgs else r.org == ""
    {
      if src == GITHUB_ORG && m.orgs != [] {
        FlatMapElems(m.orgs, OrgRow(t, m, src), r);
        assert forall org :: r in OrgRow(t, m, src)(org) <==> r == Membership(m.handle, t, src, org, m.name);
      }
    }
  }

  /** Membership in the flattened list, without reference to the nested loops. */
  lemma FlattenElems(idx: Index, r: Membership)
    requires Valid(idx)
    ensures r in Flatten(idx) <==> RowOf(idx, r)
  {
    var slugs := Sorted(idx.teams.Keys);
    FlatMapElems(slugs, TeamRows(idx), r);
    SortedMember(idx.teams.Keys, r.team);
    forall t | t in slugs
      ensures r in TeamRows(idx)(t) <==> r.team == t && RowOf(idx, r)
    {
      SortedMember(idx.teams.Keys, t);
      TeamRowsElems(idx, t, r);
    }
  }

  lemma AllMembers(idx: Index, t: string)
    requires t in idx.teams
    ensures MembersOf(idx, t, "") == Listing(idx.teams[t].members)
  {
    var members := idx.teams[t].members;
    assert (map k | k in members && Selects("", members[k]) :: members[k]) == members;
  }

  lemma TeamRowHasMember(idx: Index, t: string, r: Membership)
    requires Valid(idx) && t in idx.teams
    requires r in FlatMap(Listing(idx.teams[t].members), MemberRows(t))
    ensures r.team == t && RowOf(idx, r)
  {
    var members := idx.teams[t].members;
    FlatMapElems(Listing(members), MemberRows(t), r);
    var m :| m in Listing(members) && r in MemberRows(t)(m);
    ListingElems(members, m);
    var k :| k in members && members[k] == m;
    assert idx.Has(t, k) && ValidMember(t, k, idx.At(t, k));
    MemberRowsElems(t, m, r);
  }

  lemma MemberHasTeamRow(idx: Index, t: string, r: Membership)
    requires r.team == t && RowOf(idx, r)
    ensures r in FlatMap(Listing(idx.teams[t].members), MemberRows(t))
  {
    var m := idx.At(t, r.Key());
    ListingElems(idx.teams[t].members, m);
    MemberRowsElems(t, m, r);
    FlatMapElems(Listing(idx.teams[t].members), MemberRows(t), r);
  }

  lemma TeamRowsElems(idx: Index, t: string, r: Membership)
    requires Valid(idx) && t in idx.teams
    ensures r in TeamRows(idx)(t) <==> r.team == t && RowOf(idx, r)
  {
    AllMembers(idx, t);
    if r in TeamRows(idx)(t) { TeamRowHasMember(idx, t, r); }
    if r.team == t && RowOf(idx, r) { MemberHasTeamRow(idx, t, r); }
  }

  // ----- The order of flattened rows -----

  /** By team, then lowercased handle, then source, then org. */
  ghost predicate RowBefore(r: Membership, r': Membership) {
    || Lt(r.team, r'.team)
    || (r.team == r'.team &&
        (|| Lt(ToLower(r.handle), ToLower(r'.handle))
         || (ToLower(r.handle) == ToLower(r'.handle) &&
             (Lt(r.source, r'.source) || (r.source == r'.source && Lt(r.org, r'.org))))))
  }

  lemma SourceRowsOrdered(t: string, m: Member, src: string)
    requires Ascending(m.orgs)
    ensures Ordered(SourceRows(t, m)(src), RowBefore)
  {
    if src == GITHUB_ORG && m.orgs != [] {
      forall i | 0 <= i < |m.orgs| ensures Ordered(OrgRow(t, m, src)(m.orgs[i]), RowBefore) {}
      forall i, j | 0 <= i < j < |m.orgs|
        ensures AllBefore(OrgRow(t, m, src)(m.orgs[i]), OrgRow(t, m, src)(m.orgs[j]), RowBefore)
      {}
      FlatMapOrdered(m.orgs, OrgRow(t, m, src), RowBefore);
    }
  }

  lemma SourceRowsOf(t: string, m: Member, src: string, r: Membership)
    requires r in SourceRows(t, m)(src)
    ensures r.team == t && r.handle == m.handle && r.source == src
  {
    if src == GITHUB_ORG && m.orgs != [] {
      FlatMapElems(m.orgs, OrgRow(t, m, src), r);
    }
  }

  lemma MemberRowsOrdered(t: string, m: Member)
    requires Ascending(m.sources) && Ascending(m.orgs)
    ensures Ordered(MemberRows(t)(m), RowBefore)
  {
    forall i | 0 <= i < |m.sources| ensures Ordered(SourceRows(t, m)(m.sources[i]), RowBefore) {
      SourceRowsOrdered(t, m, m.sources[i]);
    }
    forall i, j | 0 <= i < j < |m.sources|
      ensures AllBefore(SourceRows(t, m)(m.sources[i]), SourceRows(t, m)(m.sources[j]), RowBefore)
    {
      forall x, y | x in SourceRows(t, m)(m.sources[i]) && y in SourceRows(t, m)(m.sources[j])
        ensures RowBefore(x, y)
      {
        SourceRowsOf(t, m, m.sources[i], x);
        SourceRowsOf(t, m, m.sources[j], y);
      }
    }
    FlatMapOrdered(m.sources, SourceRows(t, m), RowBefore);
  }

  lemma TeamRowsOrdered(idx: Index, t: string)
    requires Valid(idx) && t in idx.teams
    ensures Ordered(TeamRows(idx)(t), RowBefore)
  {
    var ms := MembersOf(idx, t, "");
    forall i | 0 <= i < |ms| ensures Ordered(MemberRows(t)(ms[i]), RowBefore) {
      MembersOfIff(idx, t, "", ms[i]);
      var k :| idx.Has(t, k) && ms[i] == idx.At(t, k);
      assert ValidMember(t, k, ms[i]);
      MemberRowsOrdered(t, ms[i]);
    }
    forall i, j | 0 <= i < j < |ms| ensures AllBefore(MemberRows(t)(ms[i]), MemberRows(t)(ms[j]), RowBefore) {
      MembersOfIff(idx, t, "", ms[i]);
      forall r { MemberRowsElems(t, ms[i], r); }
      forall r { MemberRowsElems(t, ms[j], r); }
    }
    FlatMapOrdered(ms, MemberRows(t), RowBefore);
  }

  lemma TeamsBefore(idx: Index, t: string, t': string)
    requires Valid(idx) && t in idx.teams && t' in idx.teams && Lt(t, t')
    ensures AllBefore(TeamRows(idx)(t), TeamRows(idx)(t'), RowBefore)
  {
    forall x, y | x in TeamRows(idx)(t) && y in TeamRows(idx)(t') ensures RowBefore(x, y) {
      TeamRowsElems(idx, t, x);
      TeamRowsElems(idx, t', y);
    }
  }

  /** The flattened rows strictly ascend, so which rows there are says it all. */
  lemma FlattenAscends(idx: Index)
    requires Valid(idx)
    ensures Ordered(Flatten(idx), RowBefore)
  {
    var ts := Sorted(idx.teams.Keys);
    forall i | 0 <= i < |ts| ensures Ordered(TeamRows(idx)(ts[i]), RowBefore) {
      SortedMember(idx.teams.Keys, ts[i]);
      TeamRowsOrdered(idx, ts[i]);
    }
    forall i, j | 0 <= i < j < |ts| ensures AllBefore(TeamRows(idx)(ts[i]), TeamRows(idx)(ts[j]), RowBefore) {
      SortedMember(idx.teams.Keys, ts[i]);
      SortedMember(idx.teams.Keys, ts[j]);
      TeamsBefore(idx, ts[i], ts[j]);
    }
    FlatMapOrdered(ts, TeamRows(idx), RowBefore);
  }
}
