/**
 The index of internal/index/index.go, and a declarative account of what it holds:
 every member is described straight from the rows of its team and lowercased handle,
 with no reference to the loop that folds them.
 */
module Indexes {
  import opened Lists
  import opened Text
  import opened Source

  datatype Member = Member(handle: string, name: string, sources: seq<string>, orgs: seq<string>)
  datatype Team = Team(slug: string, members: map<string, Member>)
  datatype Index = Index(teams: map<string, Team>) {
    predicate Has(t: string, k: string) {
      t in teams && k in teams[t].members
    }

    function At(t: string, k: string): Member
      requires Has(t, k)
    {
      teams[t].members[k]
    }
  }

  // ----- What the rows say about one member -----

  /** The rows of team `t` and lowercased handle `k`, in order. */
  ghost function Group(ms: seq<Membership>, t: string, k: string): seq<Membership> {
    if ms == [] then []
    else
      var m := ms[|ms| - 1];
      Group(ms[..|ms| - 1], t, k) + if m.At(t, k) then [m] else []
  }

  /** The first display name among the rows, "" if none has one. */
  ghost function FirstName(g: seq<Membership>): string {
    if g == [] then "" else if g[0].name != "" then g[0].name else FirstName(g[1..])
  }

  ghost function FirstHandle(g: seq<Membership>): string {
    if g == [] then "" else g[0].handle
  }

  ghost function SourcesAt(ms: seq<Membership>, t: string, k: string): set<string> {
    set m | m in ms && m.At(t, k) :: m.source
  }

  ghost function OrgsAt(ms: seq<Membership>, t: string, k: string): set<string> {
    set m | m in ms && m.At(t, k) && m.org != "" :: m.org
  }

  ghost function TeamsOf(ms: seq<Membership>): set<string> {
    set m | m in ms && m.Usable() :: m.team
  }

  ghost function KeysOf(ms: seq<Membership>, t: string): set<string> {
    set m | m in ms && m.Usable() && m.team == t :: m.Key()
  }

  ghost function Resolve(ms: seq<Membership>, t: string, k: string): Member {
    var g := Group(ms, t, k);
    Member(FirstHandle(g), FirstName(g), Sorted(SourcesAt(ms, t, k)), Sorted(OrgsAt(ms, t, k)))
  }

  ghost function BuiltTeam(ms: seq<Membership>, t: string): Team {
    Team(t, map k | k in KeysOf(ms, t) :: Resolve(ms, t, k))
  }

  /** The index that the rows determine. */
  ghost function Built(ms: seq<Membership>): Index {
    Index(map t | t in TeamsOf(ms) :: BuiltTeam(ms, t))
  }

  lemma {:induction false} GroupElems(ms: seq<Membership>, t: string, k: string, m: Membership)
    ensures m in Group(ms, t, k) <==> m in ms && m.At(t, k)
  {
    if ms == [] {
    } else {
      var front, last := ms[..|ms| - 1], ms[|ms| - 1];
      GroupElems(front, t, k, m);
      assert ms == front + [last];
    }
  }

  lemma {:induction false} FirstNameAppend(g: seq<Membership>, h: seq<Membership>)
    ensures FirstName(g + h) == if FirstName(g) != "" then FirstName(g) else FirstName(h)
  {
    if g == [] {
      assert g + h == h;
    } else {
      assert (g + h)[1..] == g[1..] + h;
      FirstNameAppend(g[1..], h);
    }
  }

  lemma {:induction false} GroupAppend(ms: seq<Membership>, ns: seq<Membership>, t: string, k: string)
    ensures Group(ms + ns, t, k) == Group(ms, t, k) + Group(ns, t, k)
  {
    if ns == [] {
      assert ms + ns == ms;
    } else {
      assert (ms + ns)[..|ms + ns| - 1] == ms + ns[..|ns| - 1];
      GroupAppend(ms, ns[..|ns| - 1], t, k);
    }
  }

  lemma MemberExists(ms: seq<Membership>, t: string, k: string)
    ensures Built(ms).Has(t, k) <==> exists m :: m in ms && m.At(t, k)
  {
    if m :| m in ms && m.At(t, k) {
      assert m.team in TeamsOf(ms) && m.Key() in KeysOf(ms, t);
    }
  }

  // ----- The same, spelt out row by row -----

  /** The row is of team `t` and of the developer whose handle is `h` in some casing. */
  ghost predicate Speaks(m: Membership, t: string, h: string) {
    m.handle != "" && m.team != "" && m.team == t && SameUpToCase(m.handle, h)
  }

  lemma SpeaksIff(m: Membership, t: string, h: string)
    ensures m.At(t, ToLower(h)) <==> Speaks(m, t, h)
  {
    FoldIff(m.handle, h);
  }

  ghost predicate FirstSpeaker(ms: seq<Membership>, t: string, h: string, i: nat) {
    i < |ms| && Speaks(ms[i], t, h) && forall j :: 0 <= j < i ==> !Speaks(ms[j], t, h)
  }

  ghost predicate FirstNamer(ms: seq<Membership>, t: string, h: string, i: nat) {
    && i < |ms| && Speaks(ms[i], t, h) && ms[i].name != ""
    && forall j :: 0 <= j < i && Speaks(ms[j], t, h) ==> ms[j].name == ""
  }

  lemma {:induction false} GroupStarts(ms: seq<Membership>, t: string, h: string, i: nat)
    requires FirstSpeaker(ms, t, h, i)
    ensures Group(ms, t, ToLower(h)) != [] && Group(ms, t, ToLower(h))[0] == ms[i]
  {
    var front := ms[..|ms| - 1];
    SpeaksIff(ms[|ms| - 1], t, h);
    if i < |front| {
      GroupStarts(front, t, h, i);
    } else {
      forall m | m in front ensures !m.At(t, ToLower(h)) {
        var j :| 0 <= j < |front| && front[j] == m;
        SpeaksIff(ms[j], t, h);
      }
      NoGroup(front, t, ToLower(h));
    }
  }

  lemma NoGroup(ms: seq<Membership>, t: string, k: string)
    requires forall m :: m in ms ==> !m.At(t, k)
    ensures Group(ms, t, k) == []
  {
    if Group(ms, t, k) != [] { GroupElems(ms, t, k, Group(ms, t, k)[0]); }
  }

  lemma {:induction false} GroupName(ms: seq<Membership>, t: string, h: string)
    ensures FirstName(Group(ms, t, ToLower(h))) == "" ==>
              forall i :: 0 <= i < |ms| && Speaks(ms[i], t, h) ==> ms[i].name == ""
    ensures FirstName(Group(ms, t, ToLower(h))) != "" ==>
              exists i: nat :: FirstNamer(ms, t, h, i) && FirstName(Group(ms, t, ToLower(h))) == ms[i].name
  {
    if ms == [] {
    } else {
      var front, m, k := ms[..|ms| - 1], ms[|ms| - 1], ToLower(h);
      GroupName(front, t, h);
      SpeaksIff(m, t, h);
      FirstNameAppend(Group(front, t, k), if m.At(t, k) then [m] else []);
      assert forall i :: 0 <= i < |front| ==> front[i] == ms[i];
      if FirstName(Group(front, t, k)) != "" {
        var i: nat :| FirstNamer(front, t, h, i) && FirstName(Group(front, t, k)) == front[i].name;
        assert FirstNamer(ms, t, h, i);
      } else if FirstName(Group(ms, t, k)) != "" {
        assert FirstNamer(ms, t, h, |front|);
      }
    }
  }

  /**
   What Build makes of its rows, developer by developer and handle by handle in any casing: there is a member
   exactly when some row speaks of it; its handle is the first row's, its name the first non-empty one; it has
   the sources of its rows and their non-blank orgs, each once and in order.
   */
  lemma BuiltPlainly(ms: seq<Membership>, t: string, h: string)
    ensures Built(ms).Has(t, ToLower(h)) <==> exists i :: 0 <= i < |ms| && Speaks(ms[i], t, h)
    ensures Built(ms).Has(t, ToLower(h)) ==>
              var x := Built(ms).At(t, ToLower(h));
              && (exists i: nat :: FirstSpeaker(ms, t, h, i) && x.handle == ms[i].handle)
              && (x.name == "" ==> forall i :: 0 <= i < |ms| && Speaks(ms[i], t, h) ==> ms[i].name == "")
              && (x.name != "" ==> exists i: nat :: FirstNamer(ms, t, h, i) && x.name == ms[i].name)
    ensures Built(ms).Has(t, ToLower(h)) ==>
              var x := Built(ms).At(t, ToLower(h));
              && Ascending(x.sources) && Ascending(x.orgs)
              && (forall s :: s in x.sources <==> exists i :: 0 <= i < |ms| && Speaks(ms[i], t, h) && ms[i].source == s)
              && (forall o :: o in x.orgs <==>
                    o != "" && exists i :: 0 <= i < |ms| && Speaks(ms[i], t, h) && ms[i].org == o)
  {
    var k := ToLower(h);
    MemberExists(ms, t, k);
    forall i | 0 <= i < |ms| ensures ms[i].At(t, k) <==> Speaks(ms[i], t, h) { SpeaksIff(ms[i], t, h); }
    if Built(ms).Has(t, k) {
      var i := FirstSpeakerExists(ms, t, h);
      GroupStarts(ms, t, h, i);
      GroupName(ms, t, h);
      BuiltProvenance(ms, t, h);
    }
  }

  lemma FirstSpeakerExists(ms: seq<Membership>, t: string, h: string) returns (i: nat)
    requires exists i :: 0 <= i < |ms| && Speaks(ms[i], t, h)
    ensures FirstSpeaker(ms, t, h, i)
  {
    i := 0;
    while !Speaks(ms[i], t, h)
      invariant i < |ms| && forall j :: 0 <= j < i ==> !Speaks(ms[j], t, h)
      decreases |ms| - i
    {
      i := i + 1;
    }
  }

  lemma BuiltProvenance(ms: seq<Membership>, t: string, h: string)
    requires Built(ms).Has(t, ToLower(h))
    ensures var x := Built(ms).At(t, ToLower(h));
            && Ascending(x.sources) && Ascending(x.orgs)
            && (forall s :: s in x.sources <==> exists i :: 0 <= i < |ms| && Speaks(ms[i], t, h) && ms[i].source == s)
            && (forall o :: o in x.orgs <==>
                  o != "" && exists i :: 0 <= i < |ms| && Speaks(ms[i], t, h) && ms[i].org == o)
  {
    var k := ToLower(h);
    var x := Built(ms).At(t, k);
    forall i | 0 <= i < |ms| ensures ms[i].At(t, k) <==> Speaks(ms[i], t, h) { SpeaksIff(ms[i], t, h); }
    forall s ensures s in x.sources <==> exists i :: 0 <= i < |ms| && Speaks(ms[i], t, h) && ms[i].source == s {
      SortedMember(SourcesAt(ms, t, k), s);
    }
    forall o ensures o in x.orgs <==> o != "" && exists i :: 0 <= i < |ms| && Speaks(ms[i], t, h) && ms[i].org == o {
      SortedMember(OrgsAt(ms, t, k), o);
    }
  }

  // ----- Which indexes can arise -----

  ghost predicate ValidMember(t: string, k: string, m: Member) {
    && t != "" && m.handle != "" && ToLower(m.handle) == k
    && m.sources != [] && Ascending(m.sources)
    && Ascending(m.orgs) && "" !in m.orgs
  }

  ghost predicate Valid(idx: Index) {
    && (forall t :: t in idx.teams ==> idx.teams[t].slug == t && idx.teams[t].members != map[])
    && (forall t, k :: idx.Has(t, k) ==> ValidMember(t, k, idx.At(t, k)))
  }

  /** A built index has no empty team or member and lists all provenance canonically. */
  lemma BuiltValid(ms: seq<Membership>)
    ensures Valid(Built(ms))
  {
    var idx := Built(ms);
    forall t | t in idx.teams ensures idx.teams[t].members != map[] {
      var m :| m in ms && m.Usable() && m.team == t;
      assert m.Key() in idx.teams[t].members;
    }
    forall t, k | idx.Has(t, k) ensures ValidMember(t, k, idx.At(t, k)) {
      MemberExists(ms, t, k);
      var m :| m in ms && m.At(t, k);
      var g := Group(ms, t, k);
      GroupElems(ms, t, k, m);
      GroupElems(ms, t, k, g[0]);
      assert m.source in SourcesAt(ms, t, k);
      EmptyElems(Sorted(SourcesAt(ms, t, k)));
      SortedMember(OrgsAt(ms, t, k), "");
    }
  }

  /** In a valid index one developer has one member of a team, however the handle is spelt. */
  lemma MembersApart(idx: Index, t: string, k: string, k': string)
    requires Valid(idx) && idx.Has(t, k) && idx.Has(t, k')
    ensures SameUpToCase(idx.At(t, k).handle, idx.At(t, k').handle) <==> k == k'
  {
    assert ValidMember(t, k, idx.At(t, k)) && ValidMember(t, k', idx.At(t, k'));
    FoldIff(idx.At(t, k).handle, idx.At(t, k').handle);
  }

  /** Two rows of a team share a member exactly when their handles agree letter by letter up to case. */
  lemma RowsShareIff(ms: seq<Membership>, i: nat, j: nat, t: string)
    requires i < |ms| && j < |ms| && t != "" && ms[i].team == t == ms[j].team
    requires ms[i].handle != "" && ms[j].handle != ""
    ensures SameUpToCase(ms[i].handle, ms[j].handle) <==>
            exists k :: Built(ms).Has(t, k) && SameUpToCase(Built(ms).At(t, k).handle, ms[i].handle)
                          && SameUpToCase(Built(ms).At(t, k).handle, ms[j].handle)
  {
    BuiltValid(ms);
    FoldIff(ms[i].handle, ms[j].handle);
    if SameUpToCase(ms[i].handle, ms[j].handle) {
      FoldIff(ms[i].handle, ms[i].handle);
      BuiltPlainly(ms, t, ms[i].handle);
      var k := ToLower(ms[i].handle);
      assert Speaks(ms[i], t, ms[i].handle) && ValidMember(t, k, Built(ms).At(t, k));
      FoldIff(Built(ms).At(t, k).handle, ms[i].handle);
      FoldIff(Built(ms).At(t, k).handle, ms[j].handle);
      FoldIsSmall(ms[i].handle);
    }
    if k :| Built(ms).Has(t, k) && SameUpToCase(Built(ms).At(t, k).handle, ms[i].handle)
            && SameUpToCase(Built(ms).At(t, k).handle, ms[j].handle) {
      FoldIff(Built(ms).At(t, k).handle, ms[i].handle);
      FoldIff(Built(ms).At(t, k).handle, ms[j].handle);
    }
  }

  // ----- The provenance view -----

  datatype Provenance = Provenance(sources: seq<string>, orgs: seq<string>)

  /** Teams, lowercased handles, sources and orgs: an index without display casing and names. */
  ghost function View(idx: Index): map<string, map<string, Provenance>> {
    map t | t in idx.teams :: TeamView(idx.teams[t])
  }

  ghost function TeamView(team: Team): map<string, Provenance> {
    map k | k in team.members :: Provenance(team.members[k].sources, team.members[k].orgs)
  }

  ghost predicate SamePresence(ms: seq<Membership>, ns: seq<Membership>, t: string, k: string) {
    && (Built(ms).Has(t, k) <==> Built(ns).Has(t, k))
    && SourcesAt(ms, t, k) == SourcesAt(ns, t, k)
    && OrgsAt(ms, t, k) == OrgsAt(ns, t, k)
  }

  /** Two row lists that agree on who is where, and through which sources and orgs. */
  ghost predicate SameProvenance(ms: seq<Membership>, ns: seq<Membership>) {
    forall t, k :: SamePresence(ms, ns, t, k)
  }

  lemma SameTeams(idx: Index, other: Index)
    requires Valid(idx) && Valid(other)
    requires forall t, k :: idx.Has(t, k) <==> other.Has(t, k)
    ensures idx.teams.Keys == other.teams.Keys
    ensures forall t :: t in idx.teams ==> idx.teams[t].members.Keys == other.teams[t].members.Keys
  {
    forall t ensures t in idx.teams <==> t in other.teams {
      if t in idx.teams {
        var k :| k in idx.teams[t].members;
        assert idx.Has(t, k);
      }
      if t in other.teams {
        var k :| k in other.teams[t].members;
        assert other.Has(t, k);
      }
    }
    forall t, k | t in idx.teams ensures k in idx.teams[t].members <==> k in other.teams[t].members {
      assert idx.Has(t, k) <==> other.Has(t, k);
    }
  }

  /** Two valid indexes that agree member by member are the same index. */
  lemma IndexExtensional(idx: Index, other: Index)
    requires Valid(idx) && Valid(other)
    requires forall t, k :: idx.Has(t, k) <==> other.Has(t, k)
    requires forall t, k :: idx.Has(t, k) ==> idx.At(t, k) == other.At(t, k)
    ensures idx == other
  {
    SameTeams(idx, other);
    forall t | t in idx.teams ensures idx.teams[t] == other.teams[t] {
      forall k | k in idx.teams[t].members ensures idx.teams[t].members[k] == other.teams[t].members[k] {
        assert idx.Has(t, k);
      }
    }
  }

  ghost predicate SameMember(idx: Index, other: Index, t: string, k: string) {
    && (idx.Has(t, k) <==> other.Has(t, k))
    && (idx.Has(t, k) ==> idx.At(t, k).sources == other.At(t, k).sources && idx.At(t, k).orgs == other.At(t, k).orgs)
  }

  lemma ViewGivesMember(idx: Index, other: Index, t: string, k: string)
    requires View(idx) == View(other)
    ensures SameMember(idx, other, t, k)
  {
    assert t in idx.teams <==> t in View(idx);
    assert t in other.teams <==> t in View(other);
    if t in idx.teams {
      var p, q := TeamView(idx.teams[t]), TeamView(other.teams[t]);
      assert p == View(idx)[t] == View(other)[t] == q;
      assert k in idx.teams[t].members <==> k in p;
      assert k in other.teams[t].members <==> k in q;
    }
  }

  lemma MembersGiveView(idx: Index, other: Index)
    requires Valid(idx) && Valid(other)
    requires forall t, k :: SameMember(idx, other, t, k)
    ensures View(idx) == View(other)
  {
    forall t, k ensures idx.Has(t, k) <==> other.Has(t, k) {
      assert SameMember(idx, other, t, k);
    }
    SameTeams(idx, other);
    forall t | t in idx.teams ensures TeamView(idx.teams[t]) == TeamView(other.teams[t]) {
      forall k | k in idx.teams[t].members ensures TeamView(idx.teams[t])[k] == TeamView(other.teams[t])[k] {
        assert SameMember(idx, other, t, k) && idx.Has(t, k);
      }
    }
  }

  lemma SameMemberIffProvenance(ms: seq<Membership>, ns: seq<Membership>, t: string, k: string)
    ensures SameMember(Built(ms), Built(ns), t, k) <==> SamePresence(ms, ns, t, k)
  {
    NothingAt(ms, t, k);
    NothingAt(ns, t, k);
    if Sorted(SourcesAt(ms, t, k)) == Sorted(SourcesAt(ns, t, k)) {
      SortedInjective(SourcesAt(ms, t, k), SourcesAt(ns, t, k));
    }
    if Sorted(OrgsAt(ms, t, k)) == Sorted(OrgsAt(ns, t, k)) {
      SortedInjective(OrgsAt(ms, t, k), OrgsAt(ns, t, k));
    }
  }

  /** The provenance view of an index is exactly the provenance of the rows it was built from. */
  lemma ViewIffProvenance(ms: seq<Membership>, ns: seq<Membership>)
    ensures View(Built(ms)) == View(Built(ns)) <==> SameProvenance(ms, ns)
  {
    BuiltValid(ms);
    BuiltValid(ns);
    if SameProvenance(ms, ns) {
      forall t, k ensures SameMember(Built(ms), Built(ns), t, k) {
        assert SamePresence(ms, ns, t, k);
        SameMemberIffProvenance(ms, ns, t, k);
      }
      MembersGiveView(Built(ms), Built(ns));
    }
    if View(Built(ms)) == View(Built(ns)) {
      forall t, k ensures SamePresence(ms, ns, t, k) {
        ViewGivesMember(Built(ms), Built(ns), t, k);
        SameMemberIffProvenance(ms, ns, t, k);
      }
    }
  }

  lemma NothingAt(ms: seq<Membership>, t: string, k: string)
    ensures !Built(ms).Has(t, k) ==> SourcesAt(ms, t, k) == {} == OrgsAt(ms, t, k)
  {
    MemberExists(ms, t, k);
  }

  // ----- Order-insensitivity -----

  /** Reordering the rows, or repeating some, changes no team, handle, source or org. */
  lemma ProvenanceIgnoresOrder(ms: seq<Membership>, ns: seq<Membership>)
    requires Elems(ms) == Elems(ns)
    ensures View(Built(ms)) == View(Built(ns))
  {
    assert forall m :: m in ms <==> m in Elems(ms);
    assert forall m :: m in ns <==> m in Elems(ns);
    forall t, k ensures SamePresence(ms, ns, t, k) {
      MemberExists(ms, t, k);
      MemberExists(ns, t, k);
    }
    ViewIffProvenance(ms, ns);
  }

  /** A member's provenance can be read off its own rows. */
  lemma GroupProvenance(ms: seq<Membership>, t: string, k: string)
    ensures SourcesAt(ms, t, k) == set m | m in Group(ms, t, k) :: m.source
    ensures OrgsAt(ms, t, k) == set m | m in Group(ms, t, k) && m.org != "" :: m.org
  {
    var g := Group(ms, t, k);
    forall m ensures m in g <==> m in ms && m.At(t, k) { GroupElems(ms, t, k, m); }
    assert forall x :: x in SourcesAt(ms, t, k) <==> exists m :: m in g && m.source == x;
    assert forall x :: x in OrgsAt(ms, t, k) <==> exists m :: m in g && m.org != "" && m.org == x;
  }

  lemma GroupExists(ms: seq<Membership>, t: string, k: string)
    ensures Built(ms).Has(t, k) <==> Group(ms, t, k) != []
  {
    MemberExists(ms, t, k);
    var g := Group(ms, t, k);
    if g != [] {
      GroupElems(ms, t, k, g[0]);
    }
    if m :| m in ms && m.At(t, k) {
      GroupElems(ms, t, k, m);
    }
  }

  lemma SameGroupSameMember(ms: seq<Membership>, ns: seq<Membership>, t: string, k: string)
    requires Group(ms, t, k) == Group(ns, t, k)
    ensures Built(ms).Has(t, k) <==> Built(ns).Has(t, k)
    ensures Resolve(ms, t, k) == Resolve(ns, t, k)
  {
    GroupExists(ms, t, k);
    GroupExists(ns, t, k);
    GroupProvenance(ms, t, k);
    GroupProvenance(ns, t, k);
  }

  /** A reordering that keeps each member's own rows in order gives the identical index. */
  lemma BuildIgnoresInterleaving(ms: seq<Membership>, ns: seq<Membership>)
    requires forall t, k :: Group(ms, t, k) == Group(ns, t, k)
    ensures Built(ms) == Built(ns)
  {
    BuiltValid(ms);
    BuiltValid(ns);
    forall t, k { SameGroupSameMember(ms, ns, t, k); }
    IndexExtensional(Built(ms), Built(ns));
  }
}
