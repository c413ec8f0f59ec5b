/** What one sync does to each source and to what is served, spelt out in counts and lists. */
module Floors {
  import opened Lists
  import opened Text
  import opened Source
  import opened Indexes
  import opened IndexReads
  import opened Syncing
  import opened SyncRuns

  // ----- Counting teams -----

  /** Different teams, each of which some row carries. */
  ghost predicate Names(rows: seq<Membership>, teams: seq<string>) {
    Distinct(teams) && forall i :: 0 <= i < |teams| ==> exists j :: 0 <= j < |rows| && rows[j].team == teams[i]
  }

  /** The rows carry exactly k different teams. */
  ghost predicate CountsTeams(rows: seq<Membership>, k: nat) {
    exists teams :: Names(rows, teams) && |teams| == k && forall j :: 0 <= j < |rows| ==> rows[j].team in teams
  }

  lemma {:induction false} SubsetSize<T>(s: set<T>, t: set<T>)
    requires s <= t
    ensures |s| <= |t|
  {
    if s == {} {
    } else {
      var x :| x in s;
      SubsetSize(s - {x}, t - {x});
    }
  }

  lemma NamedTeams(rows: seq<Membership>, teams: seq<string>)
    requires Names(rows, teams)
    ensures Elems(teams) <= TeamNames(rows) && |teams| <= |TeamNames(rows)|
  {
    forall x | x in Elems(teams) ensures x in TeamNames(rows) {
      var i :| 0 <= i < |teams| && teams[i] == x;
      var j :| 0 <= j < |rows| && rows[j].team == teams[i];
      assert rows[j] in rows;
    }
    DistinctSize(teams);
    SubsetSize(Elems(teams), TeamNames(rows));
  }

  lemma SomeTeams(rows: seq<Membership>, k: nat)
    requires k <= |TeamNames(rows)|
    ensures exists teams :: Names(rows, teams) && |teams| == k
    ensures k == |TeamNames(rows)| ==> CountsTeams(rows, k)
  {
    var all := Sorted(TeamNames(rows));
    AscendingDistinct(all);
    DistinctSize(all);
    var teams := all[..k];
    forall i | 0 <= i < |teams| ensures exists j :: 0 <= j < |rows| && rows[j].team == teams[i] {
      SortedMember(TeamNames(rows), all[i]);
      var m :| m in rows && m.team == all[i];
      var j :| 0 <= j < |rows| && rows[j] == m;
    }
    assert Names(rows, teams);
    if k == |TeamNames(rows)| {
      assert teams == all;
      forall j | 0 <= j < |rows| ensures rows[j].team in teams {
        assert rows[j] in rows && rows[j].team in TeamNames(rows);
        SortedMember(TeamNames(rows), rows[j].team);
      }
    }
  }

  /** A team count is unique, and is the one statuses record. */
  lemma CountsTeamsIff(rows: seq<Membership>, k: nat)
    ensures CountsTeams(rows, k) <==> k == |TeamNames(rows)|
  {
    SomeTeams(rows, |TeamNames(rows)|);
    if CountsTeams(rows, k) {
      var teams :| Names(rows, teams) && |teams| == k && forall j :: 0 <= j < |rows| ==> rows[j].team in teams;
      NamedTeams(rows, teams);
      forall x | x in TeamNames(rows) ensures x in Elems(teams) {
        var m :| m in rows && m.team == x;
        var j :| 0 <= j < |rows| && rows[j] == m;
      }
      SubsetSize(TeamNames(rows), Elems(teams));
      DistinctSize(teams);
    }
  }

  // ----- Floors in numbers -----

  ghost predicate TooFew(cfg: Config, n: string, rows: seq<Membership>) {
    n in cfg.floors && cfg.floors[n].minMembers > 0 && |rows| < cfg.floors[n].minMembers
  }

  ghost predicate TooNarrow(cfg: Config, n: string, rows: seq<Membership>) {
    && n in cfg.floors && cfg.floors[n].minTeams > 0
    && !exists teams :: Names(rows, teams) && |teams| == cfg.floors[n].minTeams
  }

  lemma TooNarrowIff(cfg: Config, n: string, rows: seq<Membership>)
    ensures TooNarrow(cfg, n, rows) <==>
            n in cfg.floors && cfg.floors[n].minTeams > 0 && |TeamNames(rows)| < cfg.floors[n].minTeams
  {
    if n in cfg.floors && 0 < cfg.floors[n].minTeams {
      if cfg.floors[n].minTeams <= |TeamNames(rows)| { SomeTeams(rows, cfg.floors[n].minTeams); }
      if teams :| Names(rows, teams) && |teams| == cfg.floors[n].minTeams { NamedTeams(rows, teams); }
    }
  }

  /** The fetch succeeded, with as many rows and teams as the source's floor asks for, if it has one. */
  ghost predicate Took(cfg: Config, n: string, f: RowFetch) {
    f.outcome.Rows? && !TooFew(cfg, n, f.outcome.rows) && !TooNarrow(cfg, n, f.outcome.rows)
  }

  lemma TookIff(cfg: Config, n: string, f: RowFetch)
    ensures Took(cfg, n, f) <==> Accepts(cfg, n, f.outcome)
  {
    if f.outcome.Rows? { TooNarrowIff(cfg, n, f.outcome.rows); }
  }

  // ----- One source in one sync -----

  ghost function Before(s: State, n: string): Status {
    if n in s.status then s.status[n] else Status(n, 0, 0, NoProblem, 0, 0, [])
  }

  /** What went wrong with a fetch, with its counts. */
  ghost predicate Explains(cfg: Config, n: string, f: RowFetch, p: Problem) {
    match f.outcome
    case Failed(e) => p == FetchError(e)
    case Rows(rows) =>
      if TooFew(cfg, n, rows) then p == BelowMembers(|rows|, cfg.floors[n].minMembers)
      else if TooNarrow(cfg, n, rows) then
        p.BelowTeams? && p.members == |rows| && CountsTeams(rows, p.teams) && p.floor == cfg.floors[n].minTeams
      else p == NoProblem
  }

  /** What a status says after a fetch, given what it said before. */
  ghost predicate Recorded(cfg: Config, n: string, f: RowFetch, was: Status, now: Status) {
    && now.name == was.name && now.lastAttempt == f.attemptedAt && now.warnings == f.warnings
    && Explains(cfg, n, f, now.problem)
    && if Took(cfg, n, f) then
         && now.lastSuccess == f.finishedAt && now.members == |f.outcome.rows|
         && CountsTeams(f.outcome.rows, now.teams)
       else now.lastSuccess == was.lastSuccess && now.members == was.members && now.teams == was.teams
  }

  lemma VerdictExplains(cfg: Config, n: string, f: RowFetch)
    ensures Explains(cfg, n, f, Verdict(FloorOf(cfg, n), f.outcome))
  {
    if f.outcome.Rows? {
      TooNarrowIff(cfg, n, f.outcome.rows);
      CountsTeamsIff(f.outcome.rows, |TeamNames(f.outcome.rows)|);
    }
  }

  lemma StatusRecorded(cfg: Config, n: string, f: RowFetch, was: Status)
    ensures Recorded(cfg, n, f, was, StatusAfter(cfg, was, n, f))
  {
    VerdictExplains(cfg, n, f);
    TookIff(cfg, n, f);
    if f.outcome.Rows? { CountsTeamsIff(f.outcome.rows, |TeamNames(f.outcome.rows)|); }
  }

  lemma StatusIs(cfg: Config, s: State, t: Tick, n: string)
    requires TickOk(cfg, t) && n in cfg.sources
    ensures n in TickNext(cfg, s, t).status
    ensures TickNext(cfg, s, t).status[n] == StatusAfter(cfg, Before(s, n), n, t.fetches[n])
  {
    assert n in Elems(cfg.sources);
    assert StatusOf(s.status, n) == Before(s, n);
    assert TickNext(cfg, s, t).status == NextStatus(cfg, s.status, t.fetches);
  }

  /**
   One source in one sync. A fetch below its floor, or failed, leaves the last good rows and their counts as
   they were, and the status says why; any other replaces them. The attempt and its warnings are always recorded.
   */
  lemma SourceAfterSync(cfg: Config, s: State, t: Tick, n: string)
    requires TickOk(cfg, t) && n in cfg.sources
    ensures var s', f := TickNext(cfg, s, t), t.fetches[n];
            && HeldOf(s'.held, n) == (if Took(cfg, n, f) then f.outcome.rows else HeldOf(s.held, n))
            && n in s'.status && Recorded(cfg, n, f, Before(s, n), s'.status[n])
  {
    TookIff(cfg, n, t.fetches[n]);
    NextHeldOf(cfg, s.held, t.fetches, n);
    StatusIs(cfg, s, t, n);
    StatusRecorded(cfg, n, t.fetches[n], Before(s, n));
  }

  /** Sources that are not configured are not touched. */
  lemma OthersAfterSync(cfg: Config, s: State, t: Tick, n: string)
    requires TickOk(cfg, t) && n !in cfg.sources
    ensures var s' := TickNext(cfg, s, t);
            && HeldOf(s'.held, n) == HeldOf(s.held, n)
            && (n in s'.status <==> n in s.status) && (n in s.status ==> s'.status[n] == s.status[n])
  {
    assert n !in Elems(cfg.sources);
  }

  /** In every reachable state a source that ever succeeded stands on rows its floor would let through. */
  lemma ReachableFloors(cfg: Config, lives: seq<Life>, n: string)
    requires forall l :: l in lives ==> LifeOk(cfg, l)
    ensures var s := AfterLives(cfg, lives);
            n in s.status && s.status[n].lastSuccess != 0 ==>
              && n in s.held && !TooFew(cfg, n, s.held[n]) && !TooNarrow(cfg, n, s.held[n])
              && s.status[n].name == n && s.status[n].members == |s.held[n]|
              && CountsTeams(s.held[n], s.status[n].teams)
  {
    var s := AfterLives(cfg, lives);
    ReachableSound(cfg, lives);
    assert Counted(cfg, s, n);
    if n in s.status && s.status[n].lastSuccess != 0 {
      TooNarrowIff(cfg, n, s.held[n]);
      CountsTeamsIff(s.held[n], s.status[n].teams);
    }
  }

  // ----- What a sync serves and saves -----

  /** The source got nothing from this sync and has nothing to fall back on. */
  ghost predicate Starves(cfg: Config, s: State, t: Tick, n: string) {
    n in cfg.sources && n in t.fetches && !Took(cfg, n, t.fetches[n]) && HeldOf(s.held, n) == []
  }

  lemma StarvesIff(cfg: Config, s: State, t: Tick, n: string)
    requires TickOk(cfg, t)
    ensures n in Starved(cfg, NextHeld(cfg, s.held, t.fetches), t.fetches) <==> Starves(cfg, s, t, n)
  {
    if n in cfg.sources {
      TookIff(cfg, n, t.fetches[n]);
      NextHeldOf(cfg, s.held, t.fetches, n);
    }
  }

  /**
   A sync serves its merge unless something is served already and some source starves or the merge is empty;
   and it saves the merge exactly when some fetch was taken, no source starves, the merge is not empty and
   the write succeeds.
   */
  lemma SyncPlainly(cfg: Config, s: State, t: Tick)
    requires TickOk(cfg, t)
    ensures var s' := TickNext(cfg, s, t); var merged := Merged(cfg, s'.held, t.order);
            var starving := exists n :: Starves(cfg, s, t, n);
            var fetched := exists n :: n in cfg.sources && Took(cfg, n, t.fetches[n]);
            && s'.served == (if s.served.Some? && (starving || merged.teams == map[]) then s.served else Some(merged))
            && s'.disk ==
               if fetched && !starving && merged.teams != map[] && t.saved then Some(merged) else s.disk
  {
    var starved := Starved(cfg, NextHeld(cfg, s.held, t.fetches), t.fetches);
    forall n ensures n in starved <==> Starves(cfg, s, t, n) { StarvesIff(cfg, s, t, n); }
    assert starved != {} <==> exists n :: n in starved;
    var accepted := Accepted(cfg, t.fetches);
    forall n | n in cfg.sources ensures n in accepted <==> Took(cfg, n, t.fetches[n]) { TookIff(cfg, n, t.fetches[n]); }
    assert accepted != {} <==> exists n :: n in accepted;
  }

  /** A row of some configured source's last good rows, whose handle is not excluded in any casing. */
  ghost predicate Merges(cfg: Config, held: Rowsets, m: Membership) {
    ToLower(m.handle) !in cfg.exclude && exists n :: n in cfg.sources && m in HeldOf(held, n)
  }

  /** The merge has a developer on a team exactly when such a row says so, from exactly the sources that do. */
  lemma MergedPlainly(cfg: Config, held: Rowsets, order: seq<string>, t: string, h: string, x: string)
    requires Schedule(cfg, order)
    ensures Merged(cfg, held, order).Has(t, ToLower(h)) <==> exists m :: Merges(cfg, held, m) && Speaks(m, t, h)
    ensures Merged(cfg, held, order).Has(t, ToLower(h)) ==>
              (x in Merged(cfg, held, order).At(t, ToLower(h)).sources <==>
                 exists m :: Merges(cfg, held, m) && Speaks(m, t, h) && m.source == x)
  {
    var rows := Surviving(cfg.exclude, Gathered(held, order));
    BuiltPlainly(rows, t, h);
    forall m ensures m in rows <==> Merges(cfg, held, m) {
      MergedRows(cfg, held, order, m);
      forall n ensures n in order <==> n in cfg.sources {
        assert n in order <==> n in Elems(order);
        assert n in cfg.sources <==> n in Elems(cfg.sources);
      }
    }
    MergedSpeaks(cfg, held, rows, t, h);
    MergedSource(cfg, held, rows, t, h, x);
  }

  lemma MergedSpeaks(cfg: Config, held: Rowsets, rows: seq<Membership>, t: string, h: string)
    requires forall m :: m in rows <==> Merges(cfg, held, m)
    ensures (exists i :: 0 <= i < |rows| && Speaks(rows[i], t, h)) <==>
            exists m :: Merges(cfg, held, m) && Speaks(m, t, h)
  {
    forall i | 0 <= i < |rows| ensures Merges(cfg, held, rows[i]) { assert rows[i] in rows; }
    forall m | Merges(cfg, held, m) ensures exists i :: 0 <= i < |rows| && rows[i] == m { assert m in rows; }
  }

  lemma MergedSource(cfg: Config, held: Rowsets, rows: seq<Membership>, t: string, h: string, x: string)
    requires forall m :: m in rows <==> Merges(cfg, held, m)
    ensures (exists i :: 0 <= i < |rows| && Speaks(rows[i], t, h) && rows[i].source == x) <==>
            exists m :: Merges(cfg, held, m) && Speaks(m, t, h) && m.source == x
  {
    forall i | 0 <= i < |rows| ensures Merges(cfg, held, rows[i]) { assert rows[i] in rows; }
    forall m | Merges(cfg, held, m) ensures exists i :: 0 <= i < |rows| && rows[i] == m { assert m in rows; }
  }

  // ----- What a process starts from -----

  /** A row of some source that the index gives back. */
  ghost predicate GivesBack(idx: Index, n: string) {
    exists m :: RowOf(idx, m) && m.source == n
  }

  lemma HeldFrom(held: Rowsets, rows: seq<Membership>, n: string)
    ensures HeldOf(held + BySource(rows), n) ==
            if exists r :: r in rows && r.source == n then RowsFrom(rows, n) else HeldOf(held, n)
  {}

  lemma GivesBackIff(idx: Index, n: string)
    requires Valid(idx)
    ensures GivesBack(idx, n) <==> exists r :: r in Flatten(idx) && r.source == n
  {
    forall r ensures r in Flatten(idx) <==> RowOf(idx, r) { FlattenElems(idx, r); }
  }

  /** An index given back is served, and its rows replace the last good rows of each source it has rows of. */
  lemma RestoredPlainly(s: State, idx: Index, n: string, m: Membership)
    requires Valid(idx)
    ensures Restored(s, idx).served == Some(idx)
    ensures Restored(s, idx).disk == s.disk && Restored(s, idx).status == s.status
    ensures m in HeldOf(Restored(s, idx).held, n) <==>
            if GivesBack(idx, n) then RowOf(idx, m) && m.source == n else m in HeldOf(s.held, n)
  {
    var rows := Flatten(idx);
    GivesBackIff(idx, n);
    HeldFrom(s.held, rows, n);
    RowsFromElems(rows, n, m);
    FlattenElems(idx, m);
  }
}
