/**
 The syncer of internal/syncer/syncer.go as a transition system: what each source's fetch is
 judged to be, what a source's last good rows become, and what is served and saved.
 A fetch is an input, and so is the order in which the source goroutines finish.
 */
module Syncing {
  import opened Lists
  import opened Text
  import opened Source
  import opened Indexes
  import opened IndexReads

  // ----- Inputs -----

  datatype Floor = Floor(minMembers: int, minTeams: int)
  datatype Config = Config(sources: seq<string>, floors: map<string, Floor>, exclude: set<string>)

  datatype Outcome<R> = Rows(rows: R) | Failed(error: string)
  datatype Fetch<R> = Fetch(attemptedAt: nat, finishedAt: nat, warnings: seq<string>, outcome: Outcome<R>)

  type RowFetch = Fetch<seq<Membership>>
  type Fetches = map<string, RowFetch>
  type Rowsets = map<string, seq<Membership>>

  // ----- State -----

  datatype Problem =
    | NoProblem
    | FetchError(error: string)
    | BelowMembers(members: nat, floor: int)
    | BelowTeams(members: nat, teams: nat, floor: int)

  /** Times are 0 until they are first recorded. */
  datatype Status = Status(
    name: string, lastAttempt: nat, lastSuccess: nat, problem: Problem,
    members: nat, teams: nat, warnings: seq<string>)

  /** `held` is lastGood, `disk` the snapshot file. */
  datatype State = State(held: Rowsets, status: map<string, Status>, served: Option<Index>, disk: Option<Index>)

  // ----- Judging one fetch -----

  function TeamNames(rows: seq<Membership>): set<string> {
    set m | m in rows :: m.team
  }

  function FloorOf(cfg: Config, n: string): Floor {
    if n in cfg.floors then cfg.floors[n] else Floor(0, 0)
  }

  predicate MeetsFloors(floor: Floor, rows: seq<Membership>) {
    && (floor.minMembers > 0 ==> |rows| >= floor.minMembers)
    && (floor.minTeams > 0 ==> |TeamNames(rows)| >= floor.minTeams)
  }

  predicate Accepts(cfg: Config, n: string, o: Outcome<seq<Membership>>) {
    o.Rows? && MeetsFloors(FloorOf(cfg, n), o.rows)
  }

  function Verdict(floor: Floor, o: Outcome<seq<Membership>>): Problem {
    match o
    case Failed(e) => FetchError(e)
    case Rows(rows) =>
      if floor.minMembers > 0 && |rows| < floor.minMembers then BelowMembers(|rows|, floor.minMembers)
      else if floor.minTeams > 0 && |TeamNames(rows)| < floor.minTeams then
        BelowTeams(|rows|, |TeamNames(rows)|, floor.minTeams)
      else NoProblem
  }

  function StatusOf(status: map<string, Status>, n: string): Status {
    if n in status then status[n] else Status(n, 0, 0, NoProblem, 0, 0, [])
  }

  function StatusAfter(cfg: Config, old': Status, n: string, f: RowFetch): Status {
    var tried := old'.(lastAttempt := f.attemptedAt, warnings := f.warnings,
                       problem := Verdict(FloorOf(cfg, n), f.outcome));
    if Accepts(cfg, n, f.outcome) then
      tried.(lastSuccess := f.finishedAt, members := |f.outcome.rows|, teams := |TeamNames(f.outcome.rows)|)
    else tried
  }

  // ----- One sync -----

  ghost predicate WellFormed(cfg: Config, fetches: Fetches) {
    Distinct(cfg.sources) && forall n :: n in cfg.sources ==> n in fetches
  }

  ghost function Accepted(cfg: Config, fetches: Fetches): set<string> {
    set n | n in cfg.sources && n in fetches && Accepts(cfg, n, fetches[n].outcome)
  }

  function HeldOf(held: Rowsets, n: string): seq<Membership> {
    if n in held then held[n] else []
  }

  /** Last good rows once every source has been fetched: an accepted fetch replaces, a rejected one keeps. */
  ghost function NextHeld(cfg: Config, held: Rowsets, fetches: Fetches): Rowsets {
    var accepted := Accepted(cfg, fetches);
    map n | n in held.Keys + accepted :: if n in accepted then fetches[n].outcome.rows else held[n]
  }

  ghost function NextStatus(cfg: Config, status: map<string, Status>, fetches: Fetches): map<string, Status>
    requires WellFormed(cfg, fetches)
  {
    map n | n in status.Keys + Elems(cfg.sources) ::
      if n in cfg.sources then StatusAfter(cfg, StatusOf(status, n), n, fetches[n]) else status[n]
  }

  lemma NextHeldOf(cfg: Config, held: Rowsets, fetches: Fetches, n: string)
    requires n in cfg.sources && n in fetches
    ensures HeldOf(NextHeld(cfg, held, fetches), n) ==
            if Accepts(cfg, n, fetches[n].outcome) then fetches[n].outcome.rows else HeldOf(held, n)
  {}

  ghost function RowsHeld(held: Rowsets): string -> seq<Membership> {
    n => HeldOf(held, n)
  }

  /** Every source's rows, appended in the order the sources finished. */
  ghost function Gathered(held: Rowsets, order: seq<string>): seq<Membership> {
    FlatMap(order, RowsHeld(held))
  }

  /** The ordered subsequence of rows whose handle is not excluded. */
  ghost function Surviving(exclude: set<string>, rows: seq<Membership>): seq<Membership> {
    if rows == [] then []
    else
      var m := rows[|rows| - 1];
      Surviving(exclude, rows[..|rows| - 1]) + if m.Key() in exclude then [] else [m]
  }

  ghost function Merged(cfg: Config, held: Rowsets, order: seq<string>): Index {
    Built(Surviving(cfg.exclude, Gathered(held, order)))
  }

  /** The sources that failed with nothing to fall back on. */
  ghost function Starved(cfg: Config, held: Rowsets, fetches: Fetches): set<string> {
    set n | n in cfg.sources && n !in Accepted(cfg, fetches) && HeldOf(held, n) == []
  }

  ghost predicate Schedule(cfg: Config, order: seq<string>) {
    Distinct(order) && Elems(order) == Elems(cfg.sources)
  }

  /**
   One Sync. `saved` says that the snapshot, if Sync decides to write it, reaches the disk.
   */
  ghost function SyncNext(cfg: Config, s: State, fetches: Fetches, order: seq<string>, saved: bool): State
    requires WellFormed(cfg, fetches)
  {
    var held := NextHeld(cfg, s.held, fetches);
    var status := NextStatus(cfg, s.status, fetches);
    var idx := Merged(cfg, held, order);
    var starved := Starved(cfg, held, fetches);
    if starved != {} && s.served.Some? then
      State(held, status, s.served, s.disk)
    else
      State(held, status,
            if idx.teams != map[] || s.served.None? then Some(idx) else s.served,
            if Accepted(cfg, fetches) != {} && idx.teams != map[] && starved == {} && saved then Some(idx) else s.disk)
  }

  // ----- Restoring last good rows from an index -----

  ghost function RowsFrom(rows: seq<Membership>, n: string): seq<Membership> {
    if rows == [] then []
    else
      var m := rows[|rows| - 1];
      RowsFrom(rows[..|rows| - 1], n) + if m.source == n then [m] else []
  }

  ghost function BySource(rows: seq<Membership>): Rowsets {
    map n | n in (set m | m in rows :: m.source) :: RowsFrom(rows, n)
  }

  ghost function Restored(s: State, idx: Index): State {
    s.(held := s.held + BySource(Flatten(idx)), served := Some(idx))
  }

  /** Seed ignores a missing or team-less index. */
  ghost function SeedNext(s: State, idx: Option<Index>): State {
    if idx.None? || idx.value.teams == map[] then s else Restored(s, idx.value)
  }

  /** The snapshot file, if it can be read, overrides whatever was seeded. */
  ghost function LoadNext(s: State, readable: bool): State {
    if readable && s.disk.Some? then Restored(s, s.disk.value) else s
  }

  /** A crash keeps only the disk, and not even that when it is ephemeral. */
  ghost function CrashNext(s: State, diskLost: bool): State {
    State(map[], map[], None, if diskLost then None else s.disk)
  }

  // ----- What the rows of a sync are -----

  lemma {:induction false} SurvivingElems(exclude: set<string>, rows: seq<Membership>, m: Membership)
    ensures m in Surviving(exclude, rows) <==> m in rows && m.Key() !in exclude
  {
    if rows == [] {
    } else {
      var front, last := rows[..|rows| - 1], rows[|rows| - 1];
      SurvivingElems(exclude, front, m);
      assert rows == front + [last];
    }
  }

  lemma {:induction false} RowsFromElems(rows: seq<Membership>, n: string, m: Membership)
    ensures m in RowsFrom(rows, n) <==> m in rows && m.source == n
  {
    if rows == [] {
    } else {
      var front, last := rows[..|rows| - 1], rows[|rows| - 1];
      RowsFromElems(front, n, m);
      assert rows == front + [last];
    }
  }

  /** Which rows take part in a sync does not depend on the order in which sources finish. */
  lemma MergedRows(cfg: Config, held: Rowsets, order: seq<string>, m: Membership)
    ensures m in Surviving(cfg.exclude, Gathered(held, order)) <==>
            m.Key() !in cfg.exclude && exists n :: n in order && m in HeldOf(held, n)
  {
    SurvivingElems(cfg.exclude, Gathered(held, order), m);
    FlatMapElems(order, RowsHeld(held), m);
    if n :| n in order && m in HeldOf(held, n) {
      assert m in RowsHeld(held)(n);
    }
  }

  // ----- Listing statuses -----

  /** `out` holds the statuses of `names`, in that order. */
  ghost predicate ListedAs(status: map<string, Status>, names: seq<string>, out: seq<Status>) {
    && Distinct(names) && Elems(names) == status.Keys && |out| == |names|
    && forall i :: 0 <= i < |names| ==> names[i] in status && out[i] == status[names[i]]
  }

  /** Every status once, in the order some iteration over the map yields them. */
  ghost predicate StatusListing(status: map<string, Status>, out: seq<Status>) {
    exists names :: ListedAs(status, names, out)
  }

  ghost predicate SortedByName(out: seq<Status>) {
    forall i, j :: 0 <= i < j < |out| ==> !Lt(out[j].name, out[i].name)
  }

  ghost predicate Named(status: map<string, Status>) {
    forall n :: n in status ==> status[n].name == n
  }

  /** Two statuses can always be listed the wrong way round. */
  lemma UnsortedListing(status: map<string, Status>, a: string, b: string)
    requires Named(status) && a in status && b in status && Lt(a, b)
    ensures exists out :: StatusListing(status, out) && !SortedByName(out)
  {
    LtIrreflexive(a);
    var rest := Sorted(status.Keys - {a, b});
    var names := [b, a] + rest;
    forall x ensures x in rest <==> x in status.Keys - {a, b} { SortedMember(status.Keys - {a, b}, x); }
    AscendingDistinct(rest);
    assert forall x :: x in names <==> x == b || x == a || x in rest;
    assert Elems(names) == status.Keys;
    var out := seq(|names|, i requires 0 <= i < |names| && names[i] in status => status[names[i]]);
    assert ListedAs(status, names, out);
    assert Lt(out[1].name, out[0].name) && 0 <= 0 < 1 < |out|;
    assert StatusListing(status, out) && !SortedByName(out);
  }

  /** Statuses promises its result sorted by name. It is, whatever the map order, only when there is nothing to sort. */
  lemma StatusesSortedIff(status: map<string, Status>)
    requires Named(status)
    ensures (forall out :: StatusListing(status, out) ==> SortedByName(out)) <==> |status| <= 1
  {
    if |status| <= 1 {
      forall out | StatusListing(status, out) ensures SortedByName(out) {
        var names :| ListedAs(status, names, out);
        DistinctSize(names);
        assert |status.Keys| == |status|;
      }
    } else {
      var a :| a in status;
      assert |status.Keys - {a}| == |status| - 1;
      var b :| b in status.Keys - {a};
      LtTotal(a, b);
      if Lt(a, b) { UnsortedListing(status, a, b); } else { UnsortedListing(status, b, a); }
    }
  }
}
