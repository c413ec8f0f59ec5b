/** The people-centric view: every developer once, aggregated across teams. */
module People {
  import opened Lists
  import opened Text
  import opened Indexes
  import opened IndexBuild
  import opened IndexReads

  datatype User = User(handle: string, name: string, teams: seq<string>, sources: seq<string>, orgs: seq<string>)

  // ----- What a user is -----

  ghost function KeysIn(idx: Index): set<string> {
    set t, k | t in idx.teams && k in idx.teams[t].members :: k
  }

  ghost predicate AllHave(idx: Index, ts: seq<string>, k: string) {
    forall t :: t in ts ==> idx.Has(t, k)
  }

  /** The first display name among the member's records on `ts`, "" if none has one. */
  ghost function NameOver(idx: Index, ts: seq<string>, k: string): string
    requires AllHave(idx, ts, k)
  {
    if ts == [] then ""
    else if idx.At(ts[0], k).name != "" then idx.At(ts[0], k).name
    else NameOver(idx, ts[1..], k)
  }

  ghost function SourcesOver(idx: Index, ts: set<string>, k: string): set<string> {
    set t, s | t in ts && idx.Has(t, k) && s in idx.At(t, k).sources :: s
  }

  ghost function OrgsOver(idx: Index, ts: set<string>, k: string): set<string> {
    set t, o | t in ts && idx.Has(t, k) && o in idx.At(t, k).orgs :: o
  }

  lemma TeamsWithHave(idx: Index, k: string)
    ensures AllHave(idx, Sorted(TeamsWith(idx, k)), k)
    ensures k in KeysIn(idx) <==> Sorted(TeamsWith(idx, k)) != []
  {
    forall t { SortedMember(TeamsWith(idx, k), t); }
    EmptyElems(Sorted(TeamsWith(idx, k)));
    if k in KeysIn(idx) {
      var t :| t in idx.teams && k in idx.teams[t].members;
      assert t in TeamsWith(idx, k);
    }
  }

  /** The least team decides the casing, the least team with a name the name. */
  ghost function UserOf(idx: Index, k: string): User
    requires k in KeysIn(idx)
  {
    TeamsWithHave(idx, k);
    var teams := TeamsWith(idx, k);
    var ts := Sorted(teams);
    User(idx.At(ts[0], k).handle, NameOver(idx, ts, k), ts,
         Sorted(SourcesOver(idx, teams, k)), Sorted(OrgsOver(idx, teams, k)))
  }

  ghost function UsersOf(idx: Index): seq<User> {
    Listing(map k | k in KeysIn(idx) :: UserOf(idx, k))
  }

  // ----- The state of the fold after some teams -----

  /** The teams of `slugs` the handle is on, in order. */
  ghost function On(idx: Index, slugs: seq<string>, k: string): seq<string> {
    if slugs == [] then []
    else
      var t := slugs[|slugs| - 1];
      On(idx, slugs[..|slugs| - 1], k) + if idx.Has(t, k) then [t] else []
  }

  lemma {:induction false} OnElems(idx: Index, slugs: seq<string>, k: string)
    ensures forall t :: t in On(idx, slugs, k) <==> t in slugs && idx.Has(t, k)
  {
    if slugs == [] {
    } else {
      var front, last := slugs[..|slugs| - 1], slugs[|slugs| - 1];
      OnElems(idx, front, k);
      assert slugs == front + [last];
    }
  }

  lemma {:induction false} OnAscending(idx: Index, slugs: seq<string>, k: string)
    requires Ascending(slugs)
    ensures Ascending(On(idx, slugs, k))
  {
    if slugs == [] {
    } else {
      var front, last := slugs[..|slugs| - 1], slugs[|slugs| - 1];
      OnAscending(idx, front, k);
      OnElems(idx, front, k);
      var rest := On(idx, front, k);
      forall i | 0 <= i < |rest| ensures Lt(rest[i], last) {
        assert rest[i] in front;
      }
    }
  }

  /** Walking all slugs in order meets exactly the user's teams, sorted. */
  lemma OnAll(idx: Index, k: string)
    ensures On(idx, Sorted(idx.teams.Keys), k) == Sorted(TeamsWith(idx, k))
  {
    var slugs := Sorted(idx.teams.Keys);
    OnAscending(idx, slugs, k);
    OnElems(idx, slugs, k);
    forall t { SortedMember(idx.teams.Keys, t); }
    AscendingUnique(On(idx, slugs, k), Sorted(TeamsWith(idx, k)));
  }

  ghost predicate DraftUser(u: User, idx: Index, ts: seq<string>, k: string) {
    && ts != [] && AllHave(idx, ts, k)
    && u.handle == idx.At(ts[0], k).handle
    && u.name == NameOver(idx, ts, k)
    && u.teams == ts
    && Distinct(u.sources) && Elems(u.sources) == SourcesOver(idx, Elems(ts), k)
    && Distinct(u.orgs) && Elems(u.orgs) == OrgsOver(idx, Elems(ts), k)
  }

  lemma {:induction false} NameOverSnoc(idx: Index, ts: seq<string>, t: string, k: string)
    requires AllHave(idx, ts, k) && idx.Has(t, k)
    ensures AllHave(idx, ts + [t], k)
    ensures NameOver(idx, ts + [t], k) ==
            if NameOver(idx, ts, k) != "" then NameOver(idx, ts, k) else idx.At(t, k).name
  {
    if ts == [] {
    } else {
      assert (ts + [t])[1..] == ts[1..] + [t];
      NameOverSnoc(idx, ts[1..], t, k);
    }
  }

  lemma OverSnoc(idx: Index, ts: seq<string>, t: string, k: string)
    requires idx.Has(t, k)
    ensures SourcesOver(idx, Elems(ts + [t]), k) == SourcesOver(idx, Elems(ts), k) + Elems(idx.At(t, k).sources)
    ensures OrgsOver(idx, Elems(ts + [t]), k) == OrgsOver(idx, Elems(ts), k) + Elems(idx.At(t, k).orgs)
  {
    assert Elems(ts + [t]) == Elems(ts) + {t};
  }

  lemma DraftUserStep(u: User, u': User, idx: Index, ts: seq<string>, t: string, k: string)
    requires idx.Has(t, k) && t !in ts
    requires if ts == [] then u == User(idx.At(t, k).handle, idx.At(t, k).name, [], [], [])
             else DraftUser(u, idx, ts, k)
    requires u'.handle == u.handle
    requires u'.name == if u.name == "" then idx.At(t, k).name else u.name
    requires u'.teams == AppendUnique(u.teams, t)
    requires Distinct(u'.sources) && Elems(u'.sources) == Elems(u.sources) + Elems(idx.At(t, k).sources)
    requires Distinct(u'.orgs) && Elems(u'.orgs) == Elems(u.orgs) + Elems(idx.At(t, k).orgs)
    ensures DraftUser(u', idx, ts + [t], k)
  {
    OverSnoc(idx, ts, t, k);
    if ts != [] {
      NameOverSnoc(idx, ts, t, k);
      assert u.teams == ts;
    } else {
      assert ts + [t] == [t];
      assert AllHave(idx, [t], k);
      assert NameOver(idx, [], k) == "";
    }
  }

  // ----- The loops -----

  method AppendAllUnique(s: seq<string>, vs: seq<string>) returns (r: seq<string>)
    requires Distinct(s)
    ensures Distinct(r) && Elems(r) == Elems(s) + Elems(vs)
  {
    r := s;
    for i := 0 to |vs|
      invariant Distinct(r) && Elems(r) == Elems(s) + Elems(vs[..i])
    {
      assert Elems(vs[..i + 1]) == Elems(vs[..i]) + {vs[i]};
      r := AppendUnique(r, vs[i]);
    }
    assert vs[..|vs|] == vs;
  }

  /** One team's contribution to a handle's user, creating the user on first sight. */
  method FoldHandle(agg: map<string, User>, idx: Index, slug: string, key: string, ghost ts: seq<string>)
    returns (agg': map<string, User>)
    requires idx.Has(slug, key) && slug !in ts
    requires key in agg <==> ts != []
    requires key in agg ==> DraftUser(agg[key], idx, ts, key)
    ensures agg'.Keys == agg.Keys + {key}
    ensures forall k :: k in agg && k != key ==> agg'[k] == agg[k]
    ensures DraftUser(agg'[key], idx, ts + [slug], key)
  {
    var m := idx.At(slug, key);
    var u := if key in agg then agg[key] else User(m.handle, m.name, [], [], []);
    ghost var before := u;
    if u.name == "" && m.name != "" {
      u := u.(name := m.name);
    }
    u := u.(teams := AppendUnique(u.teams, slug));
    var sources := AppendAllUnique(u.sources, m.sources);
    u := u.(sources := sources);
    var orgs := AppendAllUnique(u.orgs, m.orgs);
    u := u.(orgs := orgs);
    DraftUserStep(before, u, idx, ts, slug, key);
    agg' := agg[key := u];
  }

  ghost predicate Aggregated(agg: map<string, User>, idx: Index, slugs: seq<string>, k: string) {
    && (k in agg <==> On(idx, slugs, k) != [])
    && (k in agg ==> DraftUser(agg[k], idx, On(idx, slugs, k), k))
  }

  lemma OnSnoc(idx: Index, slugs: seq<string>, slug: string, k: string)
    ensures On(idx, slugs + [slug], k) == if idx.Has(slug, k) then On(idx, slugs, k) + [slug] else On(idx, slugs, k)
  {
    assert (slugs + [slug])[..|slugs|] == slugs;
  }

  method FoldTeam(agg: map<string, User>, idx: Index, ghost before: seq<string>, slug: string)
    returns (agg': map<string, User>)
    requires slug in idx.teams && slug !in before
    requires forall k :: Aggregated(agg, idx, before, k)
    ensures forall k :: Aggregated(agg', idx, before + [slug], k)
  {
    ghost var after := before + [slug];
    agg' := agg;
    var todo := idx.teams[slug].members.Keys;
    while todo != {}
      invariant todo <= idx.teams[slug].members.Keys
      invariant forall k :: k in todo || !idx.Has(slug, k) ==> Aggregated(agg', idx, before, k)
      invariant forall k :: idx.Has(slug, k) && k !in todo ==> Aggregated(agg', idx, after, k)
    {
      var key :| key in todo;
      assert Aggregated(agg', idx, before, key);
      OnElems(idx, before, key);
      OnSnoc(idx, before, slug, key);
      ghost var last := agg';
      agg' := FoldHandle(agg', idx, slug, key, On(idx, before, key));
      todo := todo - {key};
      forall k | k != key
        ensures Aggregated(last, idx, before, k) ==> Aggregated(agg', idx, before, k)
        ensures Aggregated(last, idx, after, k) ==> Aggregated(agg', idx, after, k)
      {
      }
    }
    forall k ensures Aggregated(agg', idx, after, k) {
      if !idx.Has(slug, k) {
        OnSnoc(idx, before, slug, k);
        assert Aggregated(agg', idx, before, k);
      }
    }
  }

  method Aggregate(idx: Index, slugs: seq<string>) returns (agg: map<string, User>)
    requires Distinct(slugs) && forall t :: t in slugs ==> t in idx.teams
    ensures forall k :: Aggregated(agg, idx, slugs, k)
  {
    agg := map[];
    for i := 0 to |slugs|
      invariant forall k :: Aggregated(agg, idx, slugs[..i], k)
    {
      agg := FoldTeam(agg, idx, slugs[..i], slugs[i]);
      assert slugs[..i + 1] == slugs[..i] + [slugs[i]];
    }
    assert slugs[..|slugs|] == slugs;
  }

  ghost predicate DistinctFields(u: User) {
    Distinct(u.teams) && Distinct(u.sources) && Distinct(u.orgs)
  }

  ghost function Tidy(u: User): User {
    u.(teams := Sorted(Elems(u.teams)), sources := Sorted(Elems(u.sources)), orgs := Sorted(Elems(u.orgs)))
  }

  method SortUser(draft: User) returns (u: User)
    requires DistinctFields(draft)
    ensures u == Tidy(draft)
  {
    var teams := SortStrings(draft.teams);
    var sources := SortStrings(draft.sources);
    var orgs := SortStrings(draft.orgs);
    u := draft.(teams := teams, sources := sources, orgs := orgs);
  }

  method SortUsers(drafts: map<string, User>) returns (agg: map<string, User>)
    requires forall k :: k in drafts ==> DistinctFields(drafts[k])
    ensures agg.Keys == drafts.Keys
    ensures forall k :: k in agg ==> agg[k] == Tidy(drafts[k])
  {
    agg := drafts;
    var todo := agg.Keys;
    while todo != {}
      invariant todo <= agg.Keys == drafts.Keys
      invariant forall k :: k in todo ==> agg[k] == drafts[k]
      invariant forall k :: k in agg && k !in todo ==> agg[k] == Tidy(drafts[k])
    {
      var k :| k in todo;
      var u := SortUser(agg[k]);
      agg := agg[k := u];
      todo := todo - {k};
    }
  }

  lemma TidyDraft(draft: User, idx: Index, k: string)
    requires k in KeysIn(idx) && DraftUser(draft, idx, Sorted(TeamsWith(idx, k)), k)
    ensures DistinctFields(draft) && Tidy(draft) == UserOf(idx, k)
  {
    AscendingDistinct(draft.teams);
  }

  lemma AggregatedAll(agg: map<string, User>, idx: Index, k: string)
    requires Aggregated(agg, idx, Sorted(idx.teams.Keys), k)
    ensures k in agg <==> k in KeysIn(idx)
    ensures k in agg ==> DistinctFields(agg[k]) && Tidy(agg[k]) == UserOf(idx, k)
  {
    OnAll(idx, k);
    TeamsWithHave(idx, k);
    if k in agg { TidyDraft(agg[k], idx, k); }
  }

  /** Users: teams in slug order, the members of each team in any order. */
  method Users(idx: Index) returns (out: seq<User>)
    requires Valid(idx)
    ensures out == UsersOf(idx)
  {
    var slugs := SortedKeys(idx.teams);
    AscendingDistinct(slugs);
    forall t { SortedMember(idx.teams.Keys, t); }
    var agg := Aggregate(idx, slugs);
    forall k { AggregatedAll(agg, idx, k); }
    agg := SortUsers(agg);
    assert agg == map k | k in KeysIn(idx) :: UserOf(idx, k);
    forall k | k in agg { UserHandle(idx, k); }
    out := SortedValues(agg, (u: User) => ToLower(u.handle));
  }

  // ----- Agreement with the per-team views -----

  lemma UserHandle(idx: Index, k: string)
    requires Valid(idx) && k in KeysIn(idx)
    ensures ToLower(UserOf(idx, k).handle) == k
  {
    TeamsWithHave(idx, k);
    var ts := Sorted(TeamsWith(idx, k));
    assert idx.Has(ts[0], k) && ValidMember(ts[0], k, idx.At(ts[0], k));
  }

  /** Exactly one user per lowercased handle, in strictly ascending order of it. */
  lemma UsersStrictlySorted(idx: Index)
    requires Valid(idx)
    ensures |UsersOf(idx)| == |Sorted(KeysIn(idx))|
    ensures forall i :: 0 <= i < |UsersOf(idx)| ==> ToLower(UsersOf(idx)[i].handle) == Sorted(KeysIn(idx))[i]
    ensures forall i, j :: 0 <= i < j < |UsersOf(idx)| ==>
              Lt(ToLower(UsersOf(idx)[i].handle), ToLower(UsersOf(idx)[j].handle))
  {
    var at := map k | k in KeysIn(idx) :: UserOf(idx, k);
    var ks, us := Sorted(KeysIn(idx)), UsersOf(idx);
    assert at.Keys == KeysIn(idx) && us == Listing(at);
    forall i | 0 <= i < |us| ensures ToLower(us[i].handle) == ks[i] {
      SortedMember(KeysIn(idx), ks[i]);
      UserHandle(idx, ks[i]);
    }
  }

  lemma {:induction false} NameOverFirst(idx: Index, ts: seq<string>, k: string)
    requires AllHave(idx, ts, k)
    ensures NameOver(idx, ts, k) == "" ==> forall t :: t in ts ==> idx.At(t, k).name == ""
    ensures NameOver(idx, ts, k) != "" ==>
              exists i :: 0 <= i < |ts| && idx.At(ts[i], k).name == NameOver(idx, ts, k)
                && forall j :: 0 <= j < i ==> idx.At(ts[j], k).name == ""
  {
    if ts == [] || idx.At(ts[0], k).name != "" {
    } else {
      NameOverFirst(idx, ts[1..], k);
      if NameOver(idx, ts, k) != "" {
        var i :| 0 <= i < |ts[1..]| && idx.At(ts[1..][i], k).name == NameOver(idx, ts, k)
                 && forall j :: 0 <= j < i ==> idx.At(ts[1..][j], k).name == "";
        assert ts[i + 1] == ts[1..][i];
        forall j | 0 <= j < i + 1 ensures idx.At(ts[j], k).name == "" {
          if j > 0 { assert ts[j] == ts[1..][j - 1]; }
        }
      }
    }
  }

  /**
   A user's record says what looking its handle up says team by team: its teams are the sorted
   keys of the lookup, its provenance the union, its casing that of the least team and its name
   that of the least team with one.
   */
  lemma UserAgreesWithLookup(idx: Index, u: User, found: map<string, Member>)
    requires Valid(idx) && u in UsersOf(idx)
    requires found == map t | t in TeamsWith(idx, ToLower(u.handle)) :: idx.teams[t].members[ToLower(u.handle)]
    ensures u.teams == Sorted(found.Keys) && u.teams != []
    ensures Ascending(u.sources) && Ascending(u.orgs)
    ensures forall s :: s in u.sources <==> exists t :: t in found && s in found[t].sources
    ensures forall o :: o in u.orgs <==> exists t :: t in found && o in found[t].orgs
    ensures forall t :: t in u.teams ==> t in found
    ensures u.handle == found[u.teams[0]].handle
    ensures u.name == "" ==> forall t :: t in found ==> found[t].name == ""
    ensures u.name != "" ==> exists i :: 0 <= i < |u.teams| && found[u.teams[i]].name == u.name
                               && forall j :: 0 <= j < i ==> found[u.teams[j]].name == ""
  {
    var k := UserKey(idx, u);
    TeamsWithHave(idx, k);
    assert found.Keys == TeamsWith(idx, k);
    forall t { SortedMember(TeamsWith(idx, k), t); }
    forall t | t in found ensures idx.Has(t, k) && found[t] == idx.At(t, k) {}
    NameOverFirst(idx, u.teams, k);
    UserProvenance(idx, k);
  }

  lemma UserKey(idx: Index, u: User) returns (k: string)
    requires Valid(idx) && u in UsersOf(idx)
    ensures k in KeysIn(idx) && u == UserOf(idx, k) && k == ToLower(u.handle)
  {
    var at := map j | j in KeysIn(idx) :: UserOf(idx, j);
    ListingElems(at, u);
    k :| k in at && at[k] == u;
    UserHandle(idx, k);
  }

  lemma UserProvenance(idx: Index, k: string)
    requires k in KeysIn(idx)
    ensures forall s :: s in UserOf(idx, k).sources <==>
              exists t :: t in TeamsWith(idx, k) && s in idx.teams[t].members[k].sources
    ensures forall o :: o in UserOf(idx, k).orgs <==>
              exists t :: t in TeamsWith(idx, k) && o in idx.teams[t].members[k].orgs
  {
    var ts := TeamsWith(idx, k);
    assert forall t :: t in ts ==> idx.Has(t, k);
    forall x ensures x in UserOf(idx, k).sources <==> exists t :: t in ts && x in idx.teams[t].members[k].sources {
      SortedMember(SourcesOver(idx, ts, k), x);
      if t :| t in ts && x in idx.teams[t].members[k].sources {
        assert idx.Has(t, k) && x in idx.At(t, k).sources;
      }
    }
    forall x ensures x in UserOf(idx, k).orgs <==> exists t :: t in ts && x in idx.teams[t].members[k].orgs {
      SortedMember(OrgsOver(idx, ts, k), x);
      if t :| t in ts && x in idx.teams[t].members[k].orgs {
        assert idx.Has(t, k) && x in idx.At(t, k).orgs;
      }
    }
  }
}
