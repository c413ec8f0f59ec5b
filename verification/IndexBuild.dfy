/** The loop that folds membership rows into an index, proved to compute `Indexes.Built`. */
module IndexBuild {
  import opened Lists
  import opened Text
  import opened Source
  import opened Indexes

  function AppendUnique(s: seq<string>, v: string): (r: seq<string>)
    ensures Elems(r) == Elems(s) + {v}
    ensures Distinct(s) ==> Distinct(r)
  {
    if v in s then s else s + [v]
  }

  // ----- The state of the fold: provenance lists are duplicate-free but not yet sorted -----

  ghost predicate DraftMember(m: Member, ms: seq<Membership>, t: string, k: string) {
    && m.handle == FirstHandle(Group(ms, t, k))
    && m.name == FirstName(Group(ms, t, k))
    && Distinct(m.sources) && Elems(m.sources) == SourcesAt(ms, t, k)
    && Distinct(m.orgs) && Elems(m.orgs) == OrgsAt(ms, t, k)
  }

  ghost predicate DraftTeam(team: Team, ms: seq<Membership>, t: string) {
    && team.slug == t
    && team.members.Keys == KeysOf(ms, t)
    && forall k :: k in team.members ==> DraftMember(team.members[k], ms, t, k)
  }

  ghost predicate Draft(teams: map<string, Team>, ms: seq<Membership>) {
    && teams.Keys == TeamsOf(ms)
    && forall t :: t in teams ==> DraftTeam(teams[t], ms, t)
  }

  /** How one more row changes what the rows say about member `k` of team `t`. */
  lemma RowEffect(ms: seq<Membership>, m: Membership, t: string, k: string)
    ensures TeamsOf(ms + [m]) == if m.Usable() then TeamsOf(ms) + {m.team} else TeamsOf(ms)
    ensures KeysOf(ms + [m], t) == if m.Usable() && m.team == t then KeysOf(ms, t) + {m.Key()} else KeysOf(ms, t)
    ensures Group(ms + [m], t, k) == if m.At(t, k) then Group(ms, t, k) + [m] else Group(ms, t, k)
    ensures SourcesAt(ms + [m], t, k) == if m.At(t, k) then SourcesAt(ms, t, k) + {m.source} else SourcesAt(ms, t, k)
    ensures OrgsAt(ms + [m], t, k) ==
            if m.At(t, k) && m.org != "" then OrgsAt(ms, t, k) + {m.org} else OrgsAt(ms, t, k)
  {
    assert (ms + [m])[..|ms|] == ms;
    assert forall x :: x in ms + [m] <==> x in ms || x == m;
  }

  lemma NameEffect(g: seq<Membership>, m: Membership)
    ensures FirstName(g + [m]) == if FirstName(g) != "" then FirstName(g) else m.name
    ensures FirstHandle(g + [m]) == if g != [] then FirstHandle(g) else m.handle
  {
    FirstNameAppend(g, [m]);
  }

  lemma AbsentMember(ms: seq<Membership>, t: string, k: string)
    requires k !in KeysOf(ms, t)
    ensures Group(ms, t, k) == [] && SourcesAt(ms, t, k) == {} && OrgsAt(ms, t, k) == {}
  {
    GroupExists(ms, t, k);
    NothingAt(ms, t, k);
  }

  lemma DraftMemberStep(old': Member, new': Member, ms: seq<Membership>, m: Membership)
    requires m.Usable()
    requires if m.Key() in KeysOf(ms, m.team) then DraftMember(old', ms, m.team, m.Key())
             else old' == Member(m.handle, "", [], [])
    requires new'.handle == old'.handle
    requires new'.name == if old'.name == "" then m.name else old'.name
    requires new'.sources == AppendUnique(old'.sources, m.source)
    requires new'.orgs == if m.org != "" then AppendUnique(old'.orgs, m.org) else old'.orgs
    ensures DraftMember(new', ms + [m], m.team, m.Key())
  {
    var t, k := m.team, m.Key();
    RowEffect(ms, m, t, k);
    NameEffect(Group(ms, t, k), m);
    GroupExists(ms, t, k);
    if k !in KeysOf(ms, t) { AbsentMember(ms, t, k); }
  }

  /** The members a row does not name are untouched by it. */
  lemma DraftElsewhere(member: Member, ms: seq<Membership>, m: Membership, t: string, k: string)
    requires DraftMember(member, ms, t, k)
    requires !m.At(t, k)
    ensures DraftMember(member, ms + [m], t, k)
  {
    RowEffect(ms, m, t, k);
  }

  lemma DraftSkip(teams: map<string, Team>, ms: seq<Membership>, m: Membership)
    requires Draft(teams, ms) && !m.Usable()
    ensures Draft(teams, ms + [m])
  {
    RowEffect(ms, m, "", "");
    forall t | t in teams ensures DraftTeam(teams[t], ms + [m], t) {
      RowEffect(ms, m, t, "");
      forall k | k in teams[t].members { DraftElsewhere(teams[t].members[k], ms, m, t, k); }
    }
  }

  lemma DraftStep(teams: map<string, Team>, ms: seq<Membership>, m: Membership, team: Team, member: Member)
    requires Draft(teams, ms) && m.Usable()
    requires team == if m.team in teams then teams[m.team] else Team(m.team, map[])
    requires DraftMember(member, ms + [m], m.team, m.Key())
    ensures Draft(teams[m.team := Team(team.slug, team.members[m.Key() := member])], ms + [m])
  {
    var teams' := teams[m.team := Team(team.slug, team.members[m.Key() := member])];
    RowEffect(ms, m, m.team, m.Key());
    if m.team !in teams {
      assert KeysOf(ms, m.team) == {};
    }
    forall t | t in teams' ensures DraftTeam(teams'[t], ms + [m], t) {
      RowEffect(ms, m, t, "");
      forall k | k in teams'[t].members ensures DraftMember(teams'[t].members[k], ms + [m], t, k) {
        if !m.At(t, k) { DraftElsewhere(teams[t].members[k], ms, m, t, k); }
      }
    }
  }

  // ----- sortProvenance -----

  ghost predicate DistinctLists(m: Member) {
    Distinct(m.sources) && Distinct(m.orgs)
  }

  ghost function Canonical(m: Member): Member {
    m.(sources := Sorted(Elems(m.sources)), orgs := Sorted(Elems(m.orgs)))
  }

  method SortMember(draft: Member) returns (m: Member)
    requires DistinctLists(draft)
    ensures m == Canonical(draft)
  {
    m := draft;
    var sources := SortStrings(m.sources);
    m := m.(sources := sources);
    var orgs := SortStrings(m.orgs);
    m := m.(orgs := orgs);
  }

  method SortTeam(draft: Team) returns (team: Team)
    requires forall k :: k in draft.members ==> DistinctLists(draft.members[k])
    ensures team.slug == draft.slug && team.members.Keys == draft.members.Keys
    ensures forall k :: k in draft.members ==> team.members[k] == Canonical(draft.members[k])
  {
    var members := draft.members;
    var todo := members.Keys;
    while todo != {}
      invariant todo <= members.Keys == draft.members.Keys
      invariant forall k :: k in todo ==> members[k] == draft.members[k]
      invariant forall k :: k in members && k !in todo ==> members[k] == Canonical(draft.members[k])
    {
      var k :| k in todo;
      var sorted := SortMember(members[k]);
      members := members[k := sorted];
      todo := todo - {k};
    }
    team := Team(draft.slug, members);
  }

  lemma CanonicalMember(draft: Member, ms: seq<Membership>, t: string, k: string)
    requires DraftMember(draft, ms, t, k)
    ensures Canonical(draft) == Resolve(ms, t, k)
  {}

  lemma CanonicalTeam(draft: Team, team: Team, ms: seq<Membership>, t: string)
    requires DraftTeam(draft, ms, t)
    requires team.slug == draft.slug && team.members.Keys == draft.members.Keys
    requires forall k :: k in draft.members ==> team.members[k] == Canonical(draft.members[k])
    ensures team == BuiltTeam(ms, t)
  {
    var built := BuiltTeam(ms, t);
    forall k | k in built.members ensures team.members[k] == built.members[k] {
      CanonicalMember(draft.members[k], ms, t, k);
    }
    assert team.members == built.members;
  }

  /** Build: every loop over a map visits its keys in an arbitrary order. */
  method Build(memberships: seq<Membership>) returns (idx: Index)
    ensures idx == Built(memberships)
  {
    var teams: map<string, Team> := map[];
    for i := 0 to |memberships|
      invariant Draft(teams, memberships[..i])
    {
      var m := memberships[i];
      assert memberships[..i + 1] == memberships[..i] + [m];
      if m.handle == "" || m.team == "" {
        DraftSkip(teams, memberships[..i], m);
        continue;
      }
      var team := if m.team in teams then teams[m.team] else Team(m.team, map[]);
      var key := ToLower(m.handle);
      var member := if key in team.members then team.members[key] else Member(m.handle, "", [], []);
      ghost var before := member;
      if member.name == "" && m.name != "" {
        member := member.(name := m.name);
      }
      member := member.(sources := AppendUnique(member.sources, m.source));
      if m.org != "" {
        member := member.(orgs := AppendUnique(member.orgs, m.org));
      }
      DraftMemberStep(before, member, memberships[..i], m);
      DraftStep(teams, memberships[..i], m, team, member);
      team := team.(members := team.members[key := member]);
      teams := teams[m.team := team];
    }
    assert memberships[..|memberships|] == memberships;

    var todo := teams.Keys;
    ghost var drafted := teams;
    while todo != {}
      invariant todo <= teams.Keys == drafted.Keys
      invariant forall t :: t in todo ==> teams[t] == drafted[t]
      invariant forall t :: t in teams && t !in todo ==> teams[t] == BuiltTeam(memberships, t)
    {
      var t :| t in todo;
      assert DraftTeam(teams[t], memberships, t);
      var sorted := SortTeam(teams[t]);
      CanonicalTeam(teams[t], sorted, memberships, t);
      teams := teams[t := sorted];
      todo := todo - {t};
    }
    idx := Index(teams);
    assert teams == Built(memberships).teams;
  }
}
