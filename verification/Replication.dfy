/**
 The publisher, the single snapshot row and the pollers of cmd/coredevs/cluster.go, step by step:
 a publish may land between a poller's two queries, and a request between any two of its swaps.
 */
module Replication {
  import opened Lists
  import opened Indexes
  import opened Keys
  import opened Syncing

  datatype Snapshot = Snapshot(
    generatedAt: nat, index: Option<Index>, keys: map<string, Entry>, sources: seq<Status>)

  datatype Row = Row(generation: int, snap: Snapshot)

  /** Everything a reader pod serves from. */
  datatype Shown = Shown(
    index: Option<Index>, keys: map<string, Entry>, keysAt: nat, warmed: bool, statuses: seq<Status>)

  // ----- Readers, one micro-step at a time -----

  /**
   Where a poller is in load. Versions count publishes: version v of a component is the v-th
   published row, 0 none. They are bookkeeping; the pollers themselves only know generations.
   */
  datatype Pc =
    | Idle
    | GotGeneration(generation: int, seen: nat)
    | GotRow(generation: int, seen: nat, snap: Snapshot, version: nat)
    | IndexSet(generation: int, seen: nat, snap: Snapshot, version: nat)
    | KeysSet(generation: int, seen: nat, snap: Snapshot, version: nat)
    | StatusesSet(generation: int, seen: nat, version: nat)

  datatype Reader = Reader(
    shown: Shown, lastGen: int, pc: Pc,
    indexVersion: nat, keysVersion: nat, statusesVersion: nat, lastVersion: nat)

  const FRESH := Reader(Shown(None, map[], 0, false, []), 0, Idle, 0, 0, 0, 0)

  datatype Step = ReadGeneration | ReadRow | SetIndex | ReplaceKeys | SetStatuses | Finish | Fail

  /** What a step does to a reader when the rows published so far are `log`; a step out of place does nothing. */
  ghost function ReaderNext(r: Reader, log: seq<Row>, step: Step): Reader {
    match (r.pc, step)
    case (Idle, ReadGeneration) =>
      if log == [] || log[|log| - 1].generation == r.lastGen then r
      else r.(pc := GotGeneration(log[|log| - 1].generation, |log|))
    case (GotGeneration(g, seen), ReadRow) =>
      if log == [] then r.(pc := Idle)
      else r.(pc := GotRow(g, seen, log[|log| - 1].snap, |log|))
    case (GotGeneration(g, seen), Fail) => r.(pc := Idle)
    case (GotRow(g, seen, snap, v), Fail) => r.(pc := Idle)
    case (GotRow(g, seen, snap, v), SetIndex) =>
      if snap.index.Some? then
        r.(shown := r.shown.(index := snap.index), indexVersion := v, pc := IndexSet(g, seen, snap, v))
      else r.(pc := IndexSet(g, seen, snap, v))
    case (IndexSet(g, seen, snap, v), ReplaceKeys) =>
      r.(shown := r.shown.(keys := snap.keys, keysAt := snap.generatedAt, warmed := true), keysVersion := v,
         pc := KeysSet(g, seen, snap, v))
    case (KeysSet(g, seen, snap, v), SetStatuses) =>
      r.(shown := r.shown.(statuses := snap.sources), statusesVersion := v, pc := StatusesSet(g, seen, v))
    case (StatusesSet(g, seen, v), Finish) => r.(lastGen := g, lastVersion := seen, pc := Idle)
    case _ => r
  }

  // ----- The cluster's replication state -----

  datatype World = World(log: seq<Row>, readers: seq<Reader>)

  datatype Event = Publish(row: Row) | Move(reader: nat, step: Step)

  /** publish does nothing without an index to publish. */
  ghost function Next(w: World, e: Event): World {
    match e
    case Publish(row) => if row.snap.index.None? then w else w.(log := w.log + [row])
    case Move(i, step) =>
      if i < |w.readers| then w.(readers := w.readers[i := ReaderNext(w.readers[i], w.log, step)]) else w
  }

  // ----- The invariant of a reader -----

  ghost predicate Verbatim(log: seq<Row>, r: Reader) {
    && r.indexVersion <= |log| && r.keysVersion <= |log| && r.statusesVersion <= |log|
    && r.shown.index == (if r.indexVersion == 0 then None else log[r.indexVersion - 1].snap.index)
    && r.shown.keys == (if r.keysVersion == 0 then map[] else log[r.keysVersion - 1].snap.keys)
    && r.shown.keysAt == (if r.keysVersion == 0 then 0 else log[r.keysVersion - 1].snap.generatedAt)
    && r.shown.warmed == (r.keysVersion > 0)
    && r.shown.statuses == (if r.statusesVersion == 0 then [] else log[r.statusesVersion - 1].snap.sources)
  }

  ghost predicate Level(r: Reader) {
    r.indexVersion == r.keysVersion == r.statusesVersion
  }

  ghost predicate Seen(log: seq<Row>, r: Reader, g: int, seen: nat) {
    r.lastVersion < seen <= |log| && log[seen - 1].generation == g
  }

  ghost predicate Located(log: seq<Row>, r: Reader) {
    match r.pc
    case Idle => Level(r)
    case GotGeneration(g, seen) => Level(r) && Seen(log, r, g, seen) && r.indexVersion <= seen
    case GotRow(g, seen, snap, v) =>
      Level(r) && Seen(log, r, g, seen) && r.indexVersion <= seen <= v <= |log| && log[v - 1].snap == snap
    case IndexSet(g, seen, snap, v) =>
      && Seen(log, r, g, seen) && seen <= v <= |log| && log[v - 1].snap == snap
      && r.indexVersion == v && r.keysVersion == r.statusesVersion <= v
    case KeysSet(g, seen, snap, v) =>
      && Seen(log, r, g, seen) && seen <= v <= |log| && log[v - 1].snap == snap
      && r.indexVersion == r.keysVersion == v && r.statusesVersion <= v
    case StatusesSet(g, seen, v) => Seen(log, r, g, seen) && seen <= v && Level(r) && r.indexVersion == v
  }

  ghost predicate ReaderOk(log: seq<Row>, r: Reader) {
    && Verbatim(log, r) && Located(log, r)
    && r.lastVersion <= r.statusesVersion <= r.keysVersion <= r.indexVersion
    && r.lastGen == (if r.lastVersion == 0 then 0 else log[r.lastVersion - 1].generation)
  }

  /** publish never writes a row without an index. */
  ghost predicate Indexed(log: seq<Row>) {
    forall i :: 0 <= i < |log| ==> log[i].snap.index.Some?
  }

  ghost predicate WorldOk(w: World) {
    && Indexed(w.log)
    && (forall i :: 0 <= i < |w.readers| ==> ReaderOk(w.log, w.readers[i]))
  }

  lemma QueryStepOk(log: seq<Row>, r: Reader, step: Step)
    requires ReaderOk(log, r) && (r.pc.Idle? || r.pc.GotGeneration?)
    ensures ReaderOk(log, ReaderNext(r, log, step))
  {
    if r.pc.Idle? && step == ReadGeneration && log != [] && log[|log| - 1].generation != r.lastGen {
      assert r.lastVersion < |log|;
    }
  }

  lemma SwapStepOk(log: seq<Row>, r: Reader, step: Step)
    requires ReaderOk(log, r) && !r.pc.Idle? && !r.pc.GotGeneration?
    requires Indexed(log)
    ensures ReaderOk(log, ReaderNext(r, log, step))
  {}

  lemma ReaderStepOk(log: seq<Row>, r: Reader, step: Step)
    requires ReaderOk(log, r) && Indexed(log)
    ensures ReaderOk(log, ReaderNext(r, log, step))
  {
    if r.pc.Idle? || r.pc.GotGeneration? { QueryStepOk(log, r, step); } else { SwapStepOk(log, r, step); }
  }

  lemma PublishKeepsReader(log: seq<Row>, r: Reader, row: Row)
    requires ReaderOk(log, r)
    ensures ReaderOk(log + [row], r)
  {
    assert forall i :: 0 <= i < |log| ==> (log + [row])[i] == log[i];
  }

  lemma StepKeepsWorld(w: World, e: Event)
    requires WorldOk(w)
    ensures WorldOk(Next(w, e))
  {
    match e {
      case Publish(row) =>
        forall i | 0 <= i < |w.readers| { PublishKeepsReader(w.log, w.readers[i], row); }
      case Move(i, step) =>
        if i < |w.readers| { ReaderStepOk(w.log, w.readers[i], step); }
    }
  }

  // ----- Runs -----

  ghost function Run(w: World, events: seq<Event>): World {
    Fold(Next, w, events)
  }

  /** n readers, before anything is published. */
  ghost function Start(n: nat): World {
    World([], seq(n, _ => FRESH))
  }

  ghost function After(n: nat, events: seq<Event>): World {
    Run(Start(n), events)
  }

  lemma {:induction false} RunKeepsWorld(w: World, events: seq<Event>)
    requires WorldOk(w)
    ensures WorldOk(Run(w, events)) && |Run(w, events).readers| == |w.readers|
  {
    if events == [] {
    } else {
      RunKeepsWorld(w, events[..|events| - 1]);
      StepKeepsWorld(Run(w, events[..|events| - 1]), events[|events| - 1]);
    }
  }

  /** Whatever generations are published: repeated, zero or going backwards. */
  lemma ReachableOk(n: nat, events: seq<Event>)
    ensures WorldOk(After(n, events)) && |After(n, events).readers| == n
  {
    RunKeepsWorld(Start(n), events);
  }

  // ----- What every reader shows, at every instant of every run -----

  /**
   Coherence: each component is verbatim from some published row; the index is never older than the
   keys nor the keys than the statuses, and between loads all three are from the same row.
   */
  lemma ReadersCoherent(n: nat, events: seq<Event>, i: nat)
    requires i < n
    ensures |After(n, events).readers| == n
    ensures var w, r := After(n, events), After(n, events).readers[i];
            && Verbatim(w.log, r)
            && r.statusesVersion <= r.keysVersion <= r.indexVersion
            && (r.pc.Idle? || r.pc.GotGeneration? || r.pc.GotRow? ==> Level(r))
  {
    ReachableOk(n, events);
    assert ReaderOk(After(n, events).log, After(n, events).readers[i]);
  }

  ghost predicate NotOlder(r: Reader, r': Reader) {
    && r.indexVersion <= r'.indexVersion && r.keysVersion <= r'.keysVersion
    && r.statusesVersion <= r'.statusesVersion && r.lastVersion <= r'.lastVersion
  }

  lemma StepNotOlder(log: seq<Row>, r: Reader, step: Step)
    requires ReaderOk(log, r)
    ensures NotOlder(r, ReaderNext(r, log, step))
  {}

  lemma {:induction false} RunNotOlder(w: World, events: seq<Event>, i: nat)
    requires WorldOk(w) && i < |w.readers|
    ensures |Run(w, events).readers| == |w.readers|
    ensures NotOlder(w.readers[i], Run(w, events).readers[i])
  {
    if events == [] {
    } else {
      var front, e := events[..|events| - 1], events[|events| - 1];
      RunNotOlder(w, front, i);
      RunKeepsWorld(w, front);
      if e.Move? && e.reader == i {
        StepNotOlder(Run(w, front).log, Run(w, front).readers[i], e.step);
      }
    }
  }

  /** Monotonicity: over every run, no component of any reader ever goes back to an older row. */
  lemma ReadersMonotone(n: nat, events: seq<Event>, k: nat, i: nat)
    requires k <= |events| && i < n
    ensures |After(n, events[..k]).readers| == |After(n, events).readers| == n
    ensures NotOlder(After(n, events[..k]).readers[i], After(n, events).readers[i])
  {
    assert events == events[..k] + events[k..];
    FoldAppend(Next, Start(n), events[..k], events[k..]);
    ReachableOk(n, events[..k]);
    RunNotOlder(After(n, events[..k]), events[k..], i);
  }

  // ----- When skipping a load is sound -----

  /** The reader shows exactly the published row. */
  ghost predicate UpToDate(r: Reader, snap: Snapshot) {
    r.shown == Shown(snap.index, snap.keys, snap.generatedAt, true, snap.sources)
  }

  /** The next poll of an idle reader would skip the load. */
  ghost predicate Skips(log: seq<Row>, r: Reader) {
    r.pc.Idle? && log != [] && r.lastGen == log[|log| - 1].generation
  }

  ghost predicate SkipsSoundly(log: seq<Row>, r: Reader) {
    Skips(log, r) ==> UpToDate(r, log[|log| - 1].snap)
  }

  /**
   The last row's generation is not the readers' initial 0, and no row from the first that carries
   that generation on differs from the last row. An earlier row of the same generation is harmful
   even when it equals the last: a load may read its generation and then the row after it.
   */
  ghost predicate Distinguished(log: seq<Row>) {
    log != [] ==>
      && log[|log| - 1].generation != 0
      && forall i, v :: 0 <= i <= v < |log| && log[i].generation == log[|log| - 1].generation ==>
           log[v].snap == log[|log| - 1].snap
  }

  /** Every idle reader of every run that publishes exactly this log skips only what it already shows. */
  ghost predicate AllSkipsSound(log: seq<Row>) {
    forall n: nat, events: seq<Event>, i: nat :: i < |After(n, events).readers| && After(n, events).log == log ==>
      SkipsSoundly(log, After(n, events).readers[i])
  }

  lemma SkipMeansUpToDate(log: seq<Row>, r: Reader)
    requires ReaderOk(log, r) && Distinguished(log)
    ensures SkipsSoundly(log, r)
  {
    if Skips(log, r) {
      assert r.lastVersion > 0;
      assert log[r.lastVersion - 1].generation == log[|log| - 1].generation;
      assert log[r.indexVersion - 1].snap == log[|log| - 1].snap;
    }
  }

  // A run in which reader 0 takes the generation of row i, but the content of row v.

  ghost function Published(rows: seq<Row>): seq<Event> {
    seq(|rows|, i requires 0 <= i < |rows| => Publish(rows[i]))
  }

  lemma {:induction false} PublishAll(w: World, rows: seq<Row>)
    requires Indexed(rows)
    ensures Run(w, Published(rows)) == World(w.log + rows, w.readers)
  {
    if rows == [] {
    } else {
      var front := rows[..|rows| - 1];
      assert Published(rows)[..|rows| - 1] == Published(front);
      PublishAll(w, front);
      assert w.log + front + [rows[|rows| - 1]] == w.log + rows;
    }
  }

  const REST := [Move(0, ReadRow), Move(0, SetIndex), Move(0, ReplaceKeys), Move(0, SetStatuses), Move(0, Finish)]

  /** Publish up to row i, read its generation, publish up to row v, load that, publish the rest. */
  ghost function Overtaken(log: seq<Row>, i: nat, v: nat): seq<Event>
    requires i <= v < |log|
  {
    Published(log[..i + 1]) + [Move(0, ReadGeneration)] + Published(log[i + 1..v + 1]) + REST + Published(log[v + 1..])
  }

  lemma RestOfLoad(w: World)
    requires |w.readers| == 1 && w.readers[0].pc.GotGeneration? && w.log != [] && w.log[|w.log| - 1].snap.index.Some?
    ensures var w', g := Run(w, REST), w.readers[0].pc.generation;
            && w'.log == w.log && |w'.readers| == 1
            && w'.readers[0].pc.Idle? && w'.readers[0].lastGen == g
            && UpToDate(w'.readers[0], w.log[|w.log| - 1].snap)
  {
    var w1 := Next(w, Move(0, ReadRow));
    var w2 := Next(w1, Move(0, SetIndex));
    var w3 := Next(w2, Move(0, ReplaceKeys));
    var w4 := Next(w3, Move(0, SetStatuses));
    var w5 := Next(w4, Move(0, Finish));
    ChainIsFold(Next, [w, w1, w2, w3, w4, w5], REST);
  }

  /** The first half: the reader holds row i's generation when the log ends in row v. */
  ghost function Halfway(log: seq<Row>, i: nat, v: nat): World
    requires i <= v < |log|
  {
    Run(Run(Run(Start(1), Published(log[..i + 1])), [Move(0, ReadGeneration)]), Published(log[i + 1..v + 1]))
  }

  lemma HalfwayIs(log: seq<Row>, i: nat, v: nat)
    requires Indexed(log) && i <= v < |log| && log[i].generation != 0
    ensures Halfway(log, i, v) == World(log[..v + 1], [FRESH.(pc := GotGeneration(log[i].generation, i + 1))])
  {
    var w1 := World(log[..i + 1], [FRESH]);
    PublishAll(Start(1), log[..i + 1]);
    assert Run(Start(1), Published(log[..i + 1])) == w1;
    FoldOne(Next, w1, Move(0, ReadGeneration));
    var w2 := World(log[..i + 1], [FRESH.(pc := GotGeneration(log[i].generation, i + 1))]);
    assert Next(w1, Move(0, ReadGeneration)) == w2;
    PublishAll(w2, log[i + 1..v + 1]);
    assert log[..i + 1] + log[i + 1..v + 1] == log[..v + 1];
  }

  lemma OvertakenRun(log: seq<Row>, i: nat, v: nat)
    requires Indexed(log) && i <= v < |log| && log[i].generation != 0
    ensures var w := After(1, Overtaken(log, i, v));
            && w.log == log && |w.readers| == 1
            && w.readers[0].pc.Idle? && w.readers[0].lastGen == log[i].generation
            && UpToDate(w.readers[0], log[v].snap)
  {
    var w := Halfway(log, i, v);
    HalfwayIs(log, i, v);
    RestOfLoad(w);
    PublishAll(Run(w, REST), log[v + 1..]);
    assert log[..v + 1] + log[v + 1..] == log;
    OvertakenParts(log, i, v);
  }

  lemma OvertakenParts(log: seq<Row>, i: nat, v: nat)
    requires i <= v < |log|
    ensures After(1, Overtaken(log, i, v)) == Run(Run(Halfway(log, i, v), REST), Published(log[v + 1..]))
  {
    var a, b, c := Published(log[..i + 1]), [Move(0, ReadGeneration)], Published(log[i + 1..v + 1]);
    FoldAppend(Next, Start(1), a, b);
    FoldAppend(Next, Start(1), a + b, c);
    FoldAppend(Next, Start(1), a + b + c, REST);
    FoldAppend(Next, Start(1), a + b + c + REST, Published(log[v + 1..]));
  }

  /** A run of one reader that has not loaded anything. */
  lemma UnreadRun(log: seq<Row>)
    requires Indexed(log)
    ensures After(1, Published(log)) == World(log, [FRESH])
  {
    PublishAll(Start(1), log);
    assert Start(1).readers == [FRESH];
  }

  lemma SoundSkipsDistinguish(log: seq<Row>)
    requires Indexed(log) && AllSkipsSound(log)
    ensures Distinguished(log)
  {
    if log != [] {
      var last := log[|log| - 1];
      UnreadRun(log);
      assert SkipsSoundly(log, After(1, Published(log)).readers[0]);
      forall i, v | 0 <= i <= v < |log| && log[i].generation == last.generation
        ensures log[v].snap == last.snap
      {
        OvertakenRun(log, i, v);
        assert SkipsSoundly(log, After(1, Overtaken(log, i, v)).readers[0]);
      }
    }
  }

  /**
   Poll-skip soundness, exactly. Whatever was published, readers skip only rows they already show,
   in every run that publishes it, if and only if the log distinguishes its last row.
   */
  lemma SkipsSoundIff(log: seq<Row>)
    requires Indexed(log)
    ensures AllSkipsSound(log) <==> Distinguished(log)
  {
    if Distinguished(log) {
      forall n: nat, events: seq<Event>, i: nat | i < |After(n, events).readers| && After(n, events).log == log
        ensures SkipsSoundly(log, After(n, events).readers[i])
      {
        ReachableOk(n, events);
        SkipMeansUpToDate(log, After(n, events).readers[i]);
      }
    }
    if AllSkipsSound(log) {
      SoundSkipsDistinguish(log);
    }
  }

  /** A generation used twice for different rows: a reader of the first never loads the second. */
  lemma RepeatedGenerationIsStale(a: Row, b: Row)
    requires a.generation == b.generation != 0 && a.snap != b.snap && a.snap.index.Some? && b.snap.index.Some?
    ensures var w := After(1, Overtaken([a, b], 0, 0));
            w.log == [a, b] && |w.readers| == 1 && Skips(w.log, w.readers[0]) && !UpToDate(w.readers[0], b.snap)
  {
    OvertakenRun([a, b], 0, 0);
  }

  /** No generation is 0 and no two rows share one; they need not increase. */
  ghost predicate Unambiguous(log: seq<Row>) {
    && (forall i :: 0 <= i < |log| ==> log[i].generation != 0)
    && forall i, j :: 0 <= i < j < |log| ==> log[i].generation != log[j].generation
  }

  /**
   With unambiguous generations more is true: even in the middle of a load, a reader whose last
   generation is the published one shows the published row.
   */
  lemma SkipSound(n: nat, events: seq<Event>, i: nat)
    requires Unambiguous(After(n, events).log) && i < n && After(n, events).log != []
    ensures |After(n, events).readers| == n
    ensures var w, r := After(n, events), After(n, events).readers[i]; var row := w.log[|w.log| - 1];
            r.lastGen == row.generation ==> UpToDate(r, row.snap)
  {
    ReachableOk(n, events);
    var log, r := After(n, events).log, After(n, events).readers[i];
    assert ReaderOk(log, r);
    if r.lastGen == log[|log| - 1].generation {
      assert r.lastVersion == |log|;
    }
  }

  // ----- A whole load -----

  /** How a load ends: at either query, at parsing, or with everything swapped in. */
  datatype Ending = GenerationFails | RowFails | ParseFails | Succeeds

  ghost function Swapped(r: Reader, log: seq<Row>): Reader {
    ReaderNext(ReaderNext(ReaderNext(ReaderNext(r, log, SetIndex), log, ReplaceKeys), log, SetStatuses), log, Finish)
  }

  /** The steps of a load in a row, with the log as it is at each of the two queries. */
  ghost function AfterLoad(r: Reader, log: seq<Row>, log': seq<Row>, ending: Ending): Reader {
    match ending
    case GenerationFails => r
    case RowFails => ReaderNext(ReaderNext(r, log, ReadGeneration), log', Fail)
    case ParseFails => ReaderNext(ReaderNext(ReaderNext(r, log, ReadGeneration), log', ReadRow), log', Fail)
    case Succeeds => Swapped(ReaderNext(ReaderNext(r, log, ReadGeneration), log', ReadRow), log')
  }

  lemma LoadUnlessSkipped(r: Reader, log: seq<Row>)
    requires r.pc.Idle? && log != [] && log[|log| - 1].snap.index.Some?
    ensures Skips(log, r) ==> AfterLoad(r, log, log, Succeeds) == r
    ensures !Skips(log, r) ==> UpToDate(AfterLoad(r, log, log, Succeeds), log[|log| - 1].snap)
  {
    var got := ReaderNext(r, log, ReadGeneration);
    if Skips(log, r) {
      assert got == r;
    } else {
      var row := ReaderNext(got, log, ReadRow);
      assert row.pc == GotRow(log[|log| - 1].generation, |log|, log[|log| - 1].snap, |log|);
    }
  }

  ghost predicate Converges(log: seq<Row>, r: Reader)
    requires log != []
  {
    r.pc.Idle? ==> UpToDate(AfterLoad(r, log, log, Succeeds), log[|log| - 1].snap)
  }

  ghost predicate AllConverge(log: seq<Row>)
    requires log != []
  {
    forall n: nat, events: seq<Event>, i: nat :: i < |After(n, events).readers| && After(n, events).log == log ==>
      Converges(log, After(n, events).readers[i])
  }

  lemma ConvergesIffSkipsSoundly(log: seq<Row>, r: Reader)
    requires log != [] && log[|log| - 1].snap.index.Some?
    ensures Converges(log, r) <==> SkipsSoundly(log, r)
  {
    if r.pc.Idle? { LoadUnlessSkipped(r, log); }
  }

  /**
   Convergence, exactly. Once publishing has stopped, one load - or skip - brings every idle reader
   of every run up to date, if and only if the log distinguishes its last row.
   */
  lemma OneLoadConvergesIff(log: seq<Row>)
    requires Indexed(log) && log != []
    ensures AllConverge(log) <==> Distinguished(log)
  {
    forall n: nat, events: seq<Event>, i: nat | i < |After(n, events).readers| && After(n, events).log == log
      ensures Converges(log, After(n, events).readers[i]) <==> SkipsSoundly(log, After(n, events).readers[i])
    {
      ConvergesIffSkipsSoundly(log, After(n, events).readers[i]);
    }
    SkipsSoundIff(log);
  }

  // ----- Loads that fail -----

  ghost predicate Untouched(r: Reader, r': Reader) {
    r' == r.(pc := r'.pc) && (r'.pc.Idle? || r'.pc.GotGeneration? || r'.pc.GotRow?)
  }

  /**
   A reader whose loads all fail before the first swap - at either query or at parsing, any number
   of times, whatever is published meanwhile - shows what it showed and asks again for what it
   missed. Right after a failure it is the very reader it was.
   */
  lemma {:induction false} FailedLoadsChangeNothing(w: World, events: seq<Event>, i: nat)
    requires i < |w.readers| && w.readers[i].pc.Idle?
    requires Move(i, SetIndex) !in events
    ensures |Run(w, events).readers| == |w.readers| && Untouched(w.readers[i], Run(w, events).readers[i])
    ensures events != [] && events[|events| - 1] == Move(i, Fail) ==> Run(w, events).readers[i] == w.readers[i]
  {
    if events == [] {
    } else {
      var front, e := events[..|events| - 1], events[|events| - 1];
      assert e in events;
      FailedLoadsChangeNothing(w, front, i);
      if e.Move? && e.reader == i {
        assert e.step != SetIndex;
      }
    }
  }
}
