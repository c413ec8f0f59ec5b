/** The github-org and manual datasources: pagination, and expansion into membership rows. */
module GithubOrg {
  import opened Lists
  import opened Text
  import opened Source
  import opened IndexReads
  import opened Syncing

  const PAGE_SIZE: nat := 100

  /** An organisation as the API lists it: logins, some possibly blank, and the pages whose request fails. */
  datatype Upstream = Upstream(logins: seq<string>, failing: set<nat>)

  function Least(a: nat, b: nat): nat {
    if a < b then a else b
  }

  /** What the API serves as page `page`, counted from 1. */
  function Page(logins: seq<string>, page: nat): seq<string>
    requires page >= 1
  {
    logins[Least((page - 1) * PAGE_SIZE, |logins|)..Least(page * PAGE_SIZE, |logins|)]
  }

  /** Page p is the p-th hundred. */
  lemma PageIs(logins: seq<string>, page: nat, i: nat)
    requires page >= 1
    ensures |Page(logins, page)| <= 100
    ensures i < 100 && 100 * page - 100 + i < |logins| ==>
              i < |Page(logins, page)| && Page(logins, page)[i] == logins[100 * page - 100 + i]
    ensures i < |Page(logins, page)| ==> 100 * page - 100 + i < |logins|
  {
    assert (page - 1) * PAGE_SIZE == 100 * page - 100;
  }

  method FetchPage(up: Upstream, page: nat) returns (batch: Outcome<seq<string>>)
    requires page >= 1
    ensures batch == if page in up.failing then Failed("page failed") else Rows(Page(up.logins, page))
  {
    batch := if page in up.failing then Failed("page failed") else Rows(Page(up.logins, page));
  }

  ghost function NonBlank(logins: seq<string>): seq<string> {
    if logins == [] then []
    else
      var last := logins[|logins| - 1];
      NonBlank(logins[..|logins| - 1]) + if last != "" then [last] else []
  }

  lemma {:induction false} NonBlankAppend(a: seq<string>, b: seq<string>)
    ensures NonBlank(a + b) == NonBlank(a) + NonBlank(b)
  {
    if b == [] {
      assert a + b == a;
    } else {
      assert (a + b)[..|a + b| - 1] == a + b[..|b| - 1];
      NonBlankAppend(a, b[..|b| - 1]);
    }
  }

  lemma {:induction false} NonBlankElems(logins: seq<string>, x: string)
    ensures x in NonBlank(logins) <==> x in logins && x != ""
  {
    if logins == [] {
    } else {
      NonBlankElems(logins[..|logins| - 1], x);
      assert logins == logins[..|logins| - 1] + [logins[|logins| - 1]];
    }
  }

  method AppendLogins(logins: seq<string>, batch: seq<string>) returns (out: seq<string>)
    ensures out == logins + NonBlank(batch)
  {
    out := logins;
    for i := 0 to |batch|
      invariant out == logins + NonBlank(batch[..i])
    {
      assert batch[..i + 1][..i] == batch[..i];
      if batch[i] != "" {
        out := out + [batch[i]];
      }
    }
    assert batch[..|batch|] == batch;
  }

  /** The number of requests a complete listing takes: the last page is the first short one. */
  function Requests(logins: seq<string>): nat {
    |logins| / PAGE_SIZE + 1
  }

  /** The unread suffix shrinks by a full page, or the page is the last. */
  lemma PageStep(logins: seq<string>, page: nat, read: nat)
    requires page >= 1 && read == (page - 1) * PAGE_SIZE <= |logins|
    ensures NonBlank(logins[..read]) + NonBlank(Page(logins, page)) ==
            NonBlank(logins[..Least(read + PAGE_SIZE, |logins|)])
    ensures |Page(logins, page)| < PAGE_SIZE ==>
              page == Requests(logins) && NonBlank(logins[..read]) + NonBlank(Page(logins, page)) == NonBlank(logins)
    ensures |Page(logins, page)| >= PAGE_SIZE ==> page < Requests(logins) && read + PAGE_SIZE <= |logins|
  {
    NonBlankAppend(logins[..read], Page(logins, page));
    assert logins[..read] + Page(logins, page) == logins[..Least(read + PAGE_SIZE, |logins|)];
    assert logins[..|logins|] == logins;
  }

  /** Unless one of the pages it needs fails, the listing is complete. */
  ghost predicate Complete(up: Upstream) {
    forall p :: 1 <= p <= Requests(up.logins) ==> p !in up.failing
  }

  /**
   PublicMembers: follow pagination until a short page. It returns every non-blank login in order,
   with exactly one request per page up to the first short one, or fails at the first failing page.
   */
  method PublicMembers(up: Upstream) returns (result: Outcome<seq<string>>, requests: nat)
    ensures Complete(up) ==> result == Rows(NonBlank(up.logins)) && requests == |up.logins| / 100 + 1
    ensures !Complete(up) ==> result.Failed? && requests in up.failing && requests <= Requests(up.logins)
    ensures !Complete(up) ==> forall p :: 1 <= p < requests ==> p !in up.failing
  {
    var logins: seq<string> := [];
    var page := 1;
    requests := 0;
    ghost var read: nat := 0;
    while true
      invariant page >= 1 && requests == page - 1 && read == (page - 1) * PAGE_SIZE
      invariant read <= |up.logins| && page <= Requests(up.logins)
      invariant logins == NonBlank(up.logins[..read])
      invariant forall p :: 1 <= p < page ==> p !in up.failing
      decreases |up.logins| - read
    {
      var batch := FetchPage(up, page);
      requests := requests + 1;
      if batch.Failed? {
        return Failed(batch.error), requests;
      }
      logins := AppendLogins(logins, batch.rows);
      PageStep(up.logins, page, read);
      if |batch.rows| < PAGE_SIZE {
        return Rows(logins), requests;
      }
      page := page + 1;
      read := read + PAGE_SIZE;
    }
  }

  // ----- Expansion into rows -----

  ghost function TeamRow(org: string, login: string): string -> seq<Membership> {
    team => [Membership(login, team, GITHUB_ORG, org, "")]
  }

  ghost function LoginRows(org: string, teams: seq<string>): string -> seq<Membership> {
    login => FlatMap(teams, TeamRow(org, login))
  }

  /** One org's rows: none if its listing fails. */
  ghost function OrgRows(ups: map<string, Upstream>, orgTeams: map<string, seq<string>>): string -> seq<Membership> {
    org =>
      if org in ups && org in orgTeams && Complete(ups[org])
      then FlatMap(NonBlank(ups[org].logins), LoginRows(org, orgTeams[org])) else []
  }

  /** Every org's rows, in sorted order. */
  ghost function FetchedRows(ups: map<string, Upstream>, orgTeams: map<string, seq<string>>): seq<Membership> {
    FlatMap(Sorted(orgTeams.Keys), OrgRows(ups, orgTeams))
  }

  method RowsOfLogin(org: string, login: string, teams: seq<string>) returns (out: seq<Membership>)
    ensures out == LoginRows(org, teams)(login)
  {
    out := [];
    for i := 0 to |teams|
      invariant out == FlatMap(teams[..i], TeamRow(org, login))
    {
      FlatMapSnoc(teams, i, TeamRow(org, login));
      out := out + [Membership(login, teams[i], GITHUB_ORG, org, "")];
    }
    assert teams[..|teams|] == teams;
  }

  method RowsOfOrg(org: string, logins: seq<string>, teams: seq<string>) returns (out: seq<Membership>)
    ensures out == FlatMap(logins, LoginRows(org, teams))
  {
    out := [];
    for i := 0 to |logins|
      invariant out == FlatMap(logins[..i], LoginRows(org, teams))
    {
      FlatMapSnoc(logins, i, LoginRows(org, teams));
      var rows := RowsOfLogin(org, logins[i], teams);
      out := out + rows;
    }
    assert logins[..|logins|] == logins;
  }

  /** Fetch: every configured org in sorted order; an org that fails is skipped, never the whole fetch. */
  method Fetch(ups: map<string, Upstream>, orgTeams: map<string, seq<string>>)
    returns (outcome: Outcome<seq<Membership>>)
    requires orgTeams.Keys <= ups.Keys
    ensures outcome == Rows(FetchedRows(ups, orgTeams))
  {
    var orgs := SortedKeys(orgTeams);
    forall org ensures org in orgs ==> org in orgTeams { SortedMember(orgTeams.Keys, org); }
    var memberships := FetchOrgs(ups, orgTeams, orgs);
    outcome := Rows(memberships);
  }

  method FetchOrgs(ups: map<string, Upstream>, orgTeams: map<string, seq<string>>, orgs: seq<string>)
    returns (memberships: seq<Membership>)
    requires orgTeams.Keys <= ups.Keys && forall org :: org in orgs ==> org in orgTeams
    ensures memberships == FlatMap(orgs, OrgRows(ups, orgTeams))
  {
    memberships := [];
    for i := 0 to |orgs|
      invariant memberships == FlatMap(orgs[..i], OrgRows(ups, orgTeams))
    {
      var org := orgs[i];
      FlatMapSnoc(orgs, i, OrgRows(ups, orgTeams));
      var logins, requests := PublicMembers(ups[org]);
      if logins.Failed? {
        continue;
      }
      var rows := RowsOfOrg(org, logins.rows, orgTeams[org]);
      memberships := memberships + rows;
    }
    assert orgs[..|orgs|] == orgs;
  }

  /** Exactly one row per reachable org, login listed there and team the org is wired into. */
  lemma FetchedIff(ups: map<string, Upstream>, orgTeams: map<string, seq<string>>, m: Membership)
    requires orgTeams.Keys <= ups.Keys
    ensures m in FetchedRows(ups, orgTeams) <==>
            && m.org in orgTeams && Complete(ups[m.org])
            && m.handle in ups[m.org].logins && m.handle != "" && m.team in orgTeams[m.org]
            && m.source == "github-org" && m.name == ""
  {
    FlatMapElems(Sorted(orgTeams.Keys), OrgRows(ups, orgTeams), m);
    SortedMember(orgTeams.Keys, m.org);
    forall org | org in Sorted(orgTeams.Keys)
      ensures m in OrgRows(ups, orgTeams)(org) <==>
              Complete(ups[org]) && m.handle in ups[org].logins && m.handle != ""
              && m.team in orgTeams[org] && m == Membership(m.handle, m.team, GITHUB_ORG, org, "")
    {
      SortedMember(orgTeams.Keys, org);
      OrgRowsElems(ups[org].logins, org, orgTeams[org], m);
    }
  }

  lemma OrgRowsElems(logins: seq<string>, org: string, teams: seq<string>, m: Membership)
    ensures m in FlatMap(NonBlank(logins), LoginRows(org, teams)) <==>
            m.handle in logins && m.handle != "" && m.team in teams
            && m == Membership(m.handle, m.team, GITHUB_ORG, org, "")
  {
    FlatMapElems(NonBlank(logins), LoginRows(org, teams), m);
    NonBlankElems(logins, m.handle);
    forall login ensures m in LoginRows(org, teams)(login) <==>
                         m.team in teams && m == Membership(login, m.team, GITHUB_ORG, org, "")
    {
      FlatMapElems(teams, TeamRow(org, login), m);
      assert forall team :: m in TeamRow(org, login)(team) <==> m == Membership(login, team, GITHUB_ORG, org, "");
    }
  }

  lemma FetchedFromSource(ups: map<string, Upstream>, orgTeams: map<string, seq<string>>)
    requires orgTeams.Keys <= ups.Keys
    ensures FromSource(GITHUB_ORG, FetchedRows(ups, orgTeams))
  {
    forall m | m in FetchedRows(ups, orgTeams) ensures m.source == GITHUB_ORG {
      FetchedIff(ups, orgTeams, m);
    }
  }

  /** When every org fails the fetch still succeeds, with no rows at all. */
  lemma TotalOutageIsEmptySuccess(ups: map<string, Upstream>, orgTeams: map<string, seq<string>>)
    requires orgTeams.Keys <= ups.Keys
    requires forall org :: org in orgTeams ==> !Complete(ups[org])
    ensures FetchedRows(ups, orgTeams) == []
  {
    var rows := FetchedRows(ups, orgTeams);
    if rows != [] {
      FetchedIff(ups, orgTeams, rows[0]);
    }
  }

  // ----- The manual source -----

  ghost function HandleRow(team: string): string -> seq<Membership> {
    handle => if handle == "" then [] else [Membership(handle, team, MANUAL, "", "")]
  }

  ghost function ManualRows(teamHandles: map<string, seq<string>>): string -> seq<Membership> {
    team => if team in teamHandles then FlatMap(teamHandles[team], HandleRow(team)) else []
  }

  method RowsOfTeam(team: string, handles: seq<string>) returns (out: seq<Membership>)
    ensures out == FlatMap(handles, HandleRow(team))
  {
    out := [];
    for i := 0 to |handles|
      invariant out == FlatMap(handles[..i], HandleRow(team))
    {
      FlatMapSnoc(handles, i, HandleRow(team));
      if handles[i] == "" {
        continue;
      }
      out := out + [Membership(handles[i], team, MANUAL, "", "")];
    }
    assert handles[..|handles|] == handles;
  }

  /** The manual source's Fetch: the configured handles, team by team; it never fails. */
  method FetchManual(teamHandles: map<string, seq<string>>) returns (outcome: Outcome<seq<Membership>>)
    ensures outcome == Rows(FlatMap(Sorted(teamHandles.Keys), ManualRows(teamHandles)))
  {
    var teams := SortedKeys(teamHandles);
    forall t ensures t in teams ==> t in teamHandles { SortedMember(teamHandles.Keys, t); }
    var rows := FetchTeams(teamHandles, teams);
    outcome := Rows(rows);
  }

  method FetchTeams(teamHandles: map<string, seq<string>>, teams: seq<string>) returns (memberships: seq<Membership>)
    requires forall t :: t in teams ==> t in teamHandles
    ensures memberships == FlatMap(teams, ManualRows(teamHandles))
  {
    memberships := [];
    for i := 0 to |teams|
      invariant memberships == FlatMap(teams[..i], ManualRows(teamHandles))
    {
      FlatMapSnoc(teams, i, ManualRows(teamHandles));
      var rows := RowsOfTeam(teams[i], teamHandles[teams[i]]);
      memberships := memberships + rows;
    }
    assert teams[..|teams|] == teams;
  }

  lemma ManualFromSource(teamHandles: map<string, seq<string>>)
    ensures FromSource(MANUAL, FlatMap(Sorted(teamHandles.Keys), ManualRows(teamHandles)))
  {
    forall m | m in FlatMap(Sorted(teamHandles.Keys), ManualRows(teamHandles))
      ensures m.source == MANUAL && m.org == ""
    {
      FlatMapElems(Sorted(teamHandles.Keys), ManualRows(teamHandles), m);
      var team :| team in Sorted(teamHandles.Keys) && m in ManualRows(teamHandles)(team);
      FlatMapElems(teamHandles[team], HandleRow(team), m);
    }
  }

  /** Exactly one row per configured team and non-blank handle of it. */
  lemma ManualIff(teamHandles: map<string, seq<string>>, m: Membership)
    ensures m in FlatMap(Sorted(teamHandles.Keys), ManualRows(teamHandles)) <==>
            && m.team in teamHandles && m.handle in teamHandles[m.team] && m.handle != ""
            && m.source == "manual" && m.org == "" && m.name == ""
  {
    FlatMapElems(Sorted(teamHandles.Keys), ManualRows(teamHandles), m);
    SortedMember(teamHandles.Keys, m.team);
    forall t | t in Sorted(teamHandles.Keys)
      ensures m in ManualRows(teamHandles)(t) <==>
              m.handle in teamHandles[t] && m.handle != "" && m == Membership(m.handle, t, "manual", "", "")
    {
      SortedMember(teamHandles.Keys, t);
      FlatMapElems(teamHandles[t], HandleRow(t), m);
      assert forall h :: m in HandleRow(t)(h) <==> h != "" && m == Membership(h, t, "manual", "", "");
    }
  }
}
