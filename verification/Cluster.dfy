/**
 The whole cluster: one writer that syncs, caches keys, publishes and may crash at any moment, the row it
 publishes to, and readers that poll it - and exactly when a source is erased from what they serve.
 */
module Cluster {
  import opened Lists
  import opened Source
  import opened Indexes
  import opened IndexReads
  import Keys
  import opened Syncing
  import opened SyncRuns
  import opened Restart
  import opened Coverage
  import R = Replication

  // ----- The state machine -----

  /** Startup order: seed from the published row, load the disk, sync, start the key cache, and only then publish. */
  datatype Phase = Down | Seeded | DiskLoaded | Synced | Up

  /** What a publish under way has read so far: the served index, then the cached keys. */
  datatype Pending = Nothing | HasIndex(index: Index) | HasKeys(index: Index, keys: map<string, Keys.Entry>, mark: nat)

  /**
   `keyLog` is everything that ever happened to the key cache, and `dirLost` whether its directory was lost
   since it last started; `marks[i]` is how much of that log the i-th row's keys come from. Every process
   has a configuration of its own.
   */
  datatype Cluster = Cluster(
    cfg: Config, phase: Phase, writer: State, dirLost: bool, keyLog: seq<Keys.Event>, pending: Pending, marks: seq<nat>,
    world: R.World)

  datatype Event =
    | Crash(diskLost: bool, dirLost: bool, cfg: Config)
    | Seed(reachable: bool)
    | LoadDisk(readable: bool)
    | Sync(tick: Tick)
    | StartKeys(readable: bool)
    | KeyStep(event: Keys.Event)
    | Collect
    | CollectKeys
    | Publish(generation: int, at: nat, statuses: seq<Status>, saved: bool)
    | Move(reader: nat, step: R.Step)

  ghost function LastIndex(log: seq<R.Row>): Option<Index> {
    if log == [] then None else log[|log| - 1].snap.index
  }

  /** loadPublishedIndex: no row, and any error, look the same. */
  ghost function PublishedIndex(log: seq<R.Row>, reachable: bool): Option<Index> {
    if reachable then LastIndex(log) else None
  }

  ghost predicate Syncs(c: Cluster, e: Event) {
    e.Sync? && (c.phase == DiskLoaded || c.phase == Synced || c.phase == Up) && TickOk(c.cfg, e.tick)
  }

  ghost function PendingRow(p: Pending, generation: int, at: nat, statuses: seq<Status>): R.Row
    requires p.HasKeys?
  {
    R.Row(generation, R.Snapshot(at, Some(p.index), p.keys, statuses))
  }

  /** Events out of phase do not happen, and a tick fetches every source once. */
  ghost function Next(c: Cluster, e: Event): Cluster {
    match e
    case Crash(diskLost, dirLost, cfg) =>
      c.(cfg := cfg, phase := Down, writer := CrashNext(c.writer, diskLost), dirLost := c.dirLost || dirLost,
         pending := Nothing)
    case Seed(reachable) =>
      if c.phase != Down then c
      else c.(phase := Seeded, writer := SeedNext(c.writer, PublishedIndex(c.world.log, reachable)))
    case LoadDisk(readable) =>
      if c.phase != Seeded then c else c.(phase := DiskLoaded, writer := LoadNext(c.writer, readable))
    case Sync(t) =>
      if !Syncs(c, e) then c
      else c.(phase := if c.phase == DiskLoaded then Synced else c.phase, writer := TickNext(c.cfg, c.writer, t))
    case StartKeys(readable) =>
      if c.phase != Synced then c
      else c.(phase := Up, dirLost := false, keyLog := c.keyLog + [Keys.Restart(c.dirLost, readable)])
    case KeyStep(k) => if c.phase != Up || k.Restart? then c else c.(keyLog := c.keyLog + [k])
    case Collect =>
      if c.phase != Up || !c.pending.Nothing? || c.writer.served.None? then c
      else c.(pending := HasIndex(c.writer.served.value))
    case CollectKeys =>
      if !c.pending.HasIndex? then c
      else c.(pending := HasKeys(c.pending.index, Keys.After(c.keyLog).entries, |c.keyLog|))
    case Publish(generation, at, statuses, saved) =>
      if !c.pending.HasKeys? then c
      else if !saved then c.(pending := Nothing)
      else c.(pending := Nothing, marks := c.marks + [c.pending.mark],
              world := R.Next(c.world, R.Publish(PendingRow(c.pending, generation, at, statuses))))
    case Move(i, step) => c.(world := R.Next(c.world, R.Move(i, step)))
  }

  ghost function Run(c: Cluster, events: seq<Event>): Cluster {
    Fold(Next, c, events)
  }

  ghost function Start(cfg: Config, readers: nat): Cluster {
    Cluster(cfg, Down, State(map[], map[], None, None), false, [], Nothing, [], R.Start(readers))
  }

  ghost function After(cfg: Config, readers: nat, events: seq<Event>): Cluster {
    Run(Start(cfg, readers), events)
  }

  lemma AfterSnoc(cfg: Config, readers: nat, events: seq<Event>)
    requires events != []
    ensures After(cfg, readers, events) == Next(After(cfg, readers, events[..|events| - 1]), events[|events| - 1])
  {}

  // ----- What holds of every index in sight -----

  /** The one thing asked of sources: whatever they return is their own. Every configuration lists a source once. */
  ghost predicate EventOk(e: Event) {
    (e.Sync? ==> OwnRows(e.tick.fetches)) && (e.Crash? ==> Distinct(e.cfg.sources))
  }

  ghost predicate RunOk(cfg: Config, events: seq<Event>) {
    Distinct(cfg.sources) && forall i :: 0 <= i < |events| ==> EventOk(events[i])
  }

  ghost predicate WriterOk(cfg: Config, s: State) {
    && Distinct(cfg.sources) && Hygienic(cfg, s.held)
    && (s.served.Some? ==> Valid(s.served.value))
    && (s.disk.Some? ==> Valid(s.disk.value))
  }

  ghost predicate LogOk(log: seq<R.Row>) {
    forall i :: 0 <= i < |log| ==> log[i].snap.index.Some? && Valid(log[i].snap.index.value)
  }

  /** A process that has served nothing has nothing to fall back on. */
  ghost predicate Blank(s: State) {
    s.held == map[] && s.served == None
  }

  ghost predicate PhaseOk(c: Cluster) {
    && (c.phase == Down ==> Blank(c.writer))
    && (c.phase == Seeded || c.phase == DiskLoaded ==> c.writer.served.None? ==> Blank(c.writer))
    && (c.phase == Synced || c.phase == Up ==> c.writer.served.Some?)
    && (!c.pending.Nothing? ==> c.phase == Up)
  }

  ghost predicate Ok(c: Cluster) {
    && WriterOk(c.cfg, c.writer) && LogOk(c.world.log) && PhaseOk(c)
    && (!c.pending.Nothing? ==> Valid(c.pending.index))
  }

  lemma RestoreOk(cfg: Config, s: State, idx: Index)
    requires WriterOk(cfg, s) && Valid(idx)
    ensures WriterOk(cfg, Restored(s, idx))
  {
    var rows := BySource(Flatten(idx));
    forall n | n in cfg.sources ensures FromSource(n, HeldOf(Restored(s, idx).held, n)) {
      RestoredSource(cfg, idx, n);
      assert HeldOf(s.held + rows, n) == if n in rows then HeldOf(rows, n) else HeldOf(s.held, n);
    }
  }

  lemma SyncOk(cfg: Config, s: State, t: Tick)
    requires WriterOk(cfg, s) && TickOk(cfg, t) && OwnRows(t.fetches)
    ensures WriterOk(cfg, TickNext(cfg, s, t)) && TickNext(cfg, s, t).served.Some?
  {
    OwnRowsAreHygienic(cfg, t.fetches);
    StaysHygienic(cfg, s, t);
    MergeClean(cfg, NextHeld(cfg, s.held, t.fetches), t.order);
    SyncRefines(cfg, s, t);
  }

  lemma SeedOk(cfg: Config, s: State, idx: Option<Index>)
    requires WriterOk(cfg, s) && Blank(s) && (idx.Some? ==> Valid(idx.value))
    ensures WriterOk(cfg, SeedNext(s, idx)) && (SeedNext(s, idx).served.None? ==> Blank(SeedNext(s, idx)))
  {
    if idx.Some? && idx.value.teams != map[] { RestoreOk(cfg, s, idx.value); }
  }

  lemma LoadOk(cfg: Config, s: State, readable: bool)
    requires WriterOk(cfg, s)
    ensures WriterOk(cfg, LoadNext(s, readable))
  {
    if readable && s.disk.Some? { RestoreOk(cfg, s, s.disk.value); }
  }

  lemma NextOk(c: Cluster, e: Event)
    requires Ok(c) && EventOk(e)
    ensures Ok(Next(c, e))
  {
    match e {
      case Seed(reachable) =>
        if c.phase == Down { SeedOk(c.cfg, c.writer, PublishedIndex(c.world.log, reachable)); }
      case LoadDisk(readable) => if c.phase == Seeded { LoadOk(c.cfg, c.writer, readable); }
      case Sync(t) => if Syncs(c, e) { SyncOk(c.cfg, c.writer, t); }
      case _ =>
    }
  }

  lemma {:induction false} RunKeepsOk(c: Cluster, events: seq<Event>)
    requires Ok(c) && forall i :: 0 <= i < |events| ==> EventOk(events[i])
    ensures Ok(Run(c, events))
  {
    if events == [] {
    } else {
      RunKeepsOk(c, events[..|events| - 1]);
      NextOk(Run(c, events[..|events| - 1]), events[|events| - 1]);
    }
  }

  /** In every reachable state everything served, saved, pending or published is a valid index. */
  lemma ReachableOk(cfg: Config, readers: nat, events: seq<Event>)
    requires RunOk(cfg, events)
    ensures Ok(After(cfg, readers, events))
  {
    RunKeepsOk(Start(cfg, readers), events);
  }

  // ----- Being at risk -----

  ghost function PendingIndex(p: Pending): Option<Index> {
    if p.Nothing? then None else Some(p.index)
  }

  /** The row shows the source, or is about to. */
  ghost predicate Owed(c: Cluster, n: string) {
    Shows(LastIndex(c.world.log), n) || Shows(PendingIndex(c.pending), n)
  }

  ghost predicate Running(c: Cluster) {
    c.phase == Synced || c.phase == Up
  }

  /** Whatever a running writer publishes next, and after that, keeps the source. */
  ghost predicate Safe(c: Cluster, n: string) {
    Running(c) ==>
      && (!c.pending.Nothing? && Shows(LastIndex(c.world.log), n) ==> Shows(PendingIndex(c.pending), n))
      && (Owed(c, n) ==> Shows(c.writer.served, n))
  }

  /** Every published row keeps the source once one has it. */
  ghost predicate Kept(log: seq<R.Row>, n: string) {
    forall i, j :: 0 <= i <= j < |log| && Shows(log[i].snap.index, n) ==> Shows(log[j].snap.index, n)
  }

  /** The check a sync must pass: it leaves alone what shows the source, or has a row of it that gets through. */
  ghost predicate SyncPasses(c: Cluster, t: Tick, n: string) {
    Owed(c, n) ==>
      if Withholds(c.cfg, c.writer, t) then Shows(c.writer.served, n)
      else n in c.cfg.sources && Alive(c.cfg, RowsAfter(c.cfg, c.writer, t, n))
  }

  ghost predicate StepPasses(c: Cluster, e: Event, n: string) {
    Syncs(c, e) ==> SyncPasses(c, e.tick, n)
  }

  lemma SyncSafeIff(c: Cluster, e: Event, n: string)
    requires Ok(c) && EventOk(e) && Syncs(c, e) && Safe(c, n)
    ensures Safe(Next(c, e), n) <==> SyncPasses(c, e.tick, n)
  {
    OwnRowsAreHygienic(c.cfg, e.tick.fetches);
    SyncShowsIff(c.cfg, c.writer, e.tick, n);
  }

  lemma StepSafeIff(c: Cluster, e: Event, n: string)
    requires Ok(c) && EventOk(e) && Safe(c, n)
    ensures Safe(Next(c, e), n) <==> StepPasses(c, e, n)
  {
    if Syncs(c, e) { SyncSafeIff(c, e, n); }
  }

  ghost predicate AllSafe(cfg: Config, readers: nat, events: seq<Event>, n: string) {
    forall k :: 0 <= k <= |events| ==> Safe(After(cfg, readers, events[..k]), n)
  }

  ghost predicate AllPass(cfg: Config, readers: nat, events: seq<Event>, n: string) {
    forall k :: 0 <= k < |events| ==> StepPasses(After(cfg, readers, events[..k]), events[k], n)
  }

  lemma PrefixState(cfg: Config, readers: nat, events: seq<Event>, k: nat)
    requires k < |events|
    ensures After(cfg, readers, events[..k + 1]) == Next(After(cfg, readers, events[..k]), events[k])
  {
    assert events[..k + 1][..k] == events[..k];
    AfterSnoc(cfg, readers, events[..k + 1]);
  }

  lemma {:induction false} PassingIsSafe(cfg: Config, readers: nat, events: seq<Event>, n: string, k: nat)
    requires RunOk(cfg, events) && AllPass(cfg, readers, events, n) && k <= |events|
    ensures Safe(After(cfg, readers, events[..k]), n)
  {
    if k == 0 {
    } else {
      PassingIsSafe(cfg, readers, events, n, k - 1);
      PrefixState(cfg, readers, events, k - 1);
      ReachableOk(cfg, readers, events[..k - 1]);
      StepSafeIff(After(cfg, readers, events[..k - 1]), events[k - 1], n);
    }
  }

  /**
   No source is ever at risk, at any instant of a run, if and only if every sync of the run passes its check -
   whatever fetches return, whatever a restarted writer could read, and however its configuration changed.
   */
  lemma NeverAtRiskIff(cfg: Config, readers: nat, events: seq<Event>, n: string)
    requires RunOk(cfg, events)
    ensures AllSafe(cfg, readers, events, n) <==> AllPass(cfg, readers, events, n)
  {
    if AllPass(cfg, readers, events, n) {
      forall k | 0 <= k <= |events| ensures Safe(After(cfg, readers, events[..k]), n) {
        PassingIsSafe(cfg, readers, events, n, k);
      }
    }
    if AllSafe(cfg, readers, events, n) {
      forall k | 0 <= k < |events| ensures StepPasses(After(cfg, readers, events[..k]), events[k], n) {
        PrefixState(cfg, readers, events, k);
        ReachableOk(cfg, readers, events[..k]);
        assert Safe(After(cfg, readers, events[..k + 1]), n);
        StepSafeIff(After(cfg, readers, events[..k]), events[k], n);
      }
    }
  }

  /** Finish the publish under way, if any, and publish once more. */
  ghost function Flushed(c: Cluster, e: Event, e': Event): Cluster {
    var once := Next(Next(c, CollectKeys), e);
    Next(Next(Next(once, Collect), CollectKeys), e')
  }

  /** Start publishing, if the writer has synced but not yet started its keys, and then flush. */
  ghost function Finished(c: Cluster, e: Event, e': Event): Cluster {
    Flushed(Next(c, StartKeys(true)), e, e')
  }

  ghost predicate Publishes(e: Event) {
    e.Publish? && e.saved
  }

  lemma FlushedLog(c: Cluster, e: Event, e': Event)
    requires Ok(c) && c.phase == Up && Publishes(e) && Publishes(e')
    ensures var pending, log := PendingIndex(c.pending), Flushed(c, e, e').world.log;
            exists p: R.Row, r: R.Row :: r.snap.index == c.writer.served
              && if pending.None? then log == c.world.log + [r]
                 else p.snap.index == pending && log == c.world.log + [p] + [r]
  {
    var c1 := Next(c, CollectKeys);
    var once := Next(c1, e);
    assert once.pending == Nothing && once.phase == Up && once.writer == c.writer;
    var c3 := Next(Next(once, Collect), CollectKeys);
    assert c3.pending.HasKeys? && Some(c3.pending.index) == c.writer.served;
    var r := PendingRow(c3.pending, e'.generation, e'.at, e'.statuses);
    assert Flushed(c, e, e').world.log == once.world.log + [r];
    if c1.pending.HasKeys? {
      var p := PendingRow(c1.pending, e.generation, e.at, e.statuses);
      assert once.world.log == c.world.log + [p];
    }
  }

  /** One more row keeps the source exactly when it shows it if the last one did. */
  lemma KeptSnoc(log: seq<R.Row>, row: R.Row, n: string)
    ensures Kept(log + [row], n) <==> Kept(log, n) && (Shows(LastIndex(log), n) ==> Shows(row.snap.index, n))
  {
    var log' := log + [row];
    assert forall i :: 0 <= i < |log| ==> log'[i] == log[i];
    if Kept(log', n) && Shows(LastIndex(log), n) {
      assert Shows(log'[|log| - 1].snap.index, n) && Shows(log'[|log|].snap.index, n);
    }
    if Kept(log, n) && (Shows(LastIndex(log), n) ==> Shows(row.snap.index, n)) {
      forall i, j | 0 <= i <= j < |log'| && Shows(log'[i].snap.index, n) ensures Shows(log'[j].snap.index, n) {
        if i < |log| { assert Shows(log[|log| - 1].snap.index, n); }
      }
    }
  }

  /** Being at risk is what it says: publishing now, once or twice, erases the source exactly when it is. */
  lemma AtRiskIff(c: Cluster, e: Event, e': Event, n: string)
    requires Ok(c) && c.phase == Up && Publishes(e) && Publishes(e')
    ensures Kept(Flushed(c, e, e').world.log, n) <==> Kept(c.world.log, n) && Safe(c, n)
  {
    FlushedLog(c, e, e');
    var pending, log := PendingIndex(c.pending), Flushed(c, e, e').world.log;
    var p: R.Row, r: R.Row :| r.snap.index == c.writer.served
      && if pending.None? then log == c.world.log + [r]
         else p.snap.index == pending && log == c.world.log + [p] + [r];
    if pending.None? {
      KeptSnoc(c.world.log, r, n);
    } else {
      KeptSnoc(c.world.log, p, n);
      KeptSnoc(c.world.log + [p], r, n);
    }
  }

  /** A writer that is not running publishes nothing. */
  lemma FinishedIff(c: Cluster, e: Event, e': Event, n: string)
    requires Ok(c) && Publishes(e) && Publishes(e')
    ensures Kept(Finished(c, e, e').world.log, n) <==> Kept(c.world.log, n) && Safe(c, n)
  {
    var c' := Next(c, StartKeys(true));
    NextOk(c, StartKeys(true));
    if Running(c) {
      AtRiskIff(c', e, e', n);
    } else {
      assert c' == c && c.pending == Nothing && c.phase != Up;
      assert Flushed(c, e, e') == c;
    }
  }

  // ----- No erasure -----

  lemma SafePublish(c: Cluster, e: Event, n: string)
    requires Kept(c.world.log, n) && Safe(c, n) && PhaseOk(c)
    ensures Kept(Next(c, e).world.log, n)
  {
    if e.Publish? && c.pending.HasKeys? && e.saved {
      KeptSnoc(c.world.log, PendingRow(c.pending, e.generation, e.at, e.statuses), n);
    }
  }

  lemma {:induction false} SafeRunKeeps(cfg: Config, readers: nat, events: seq<Event>, n: string, k: nat)
    requires RunOk(cfg, events) && AllSafe(cfg, readers, events, n) && k <= |events|
    ensures Kept(After(cfg, readers, events[..k]).world.log, n)
  {
    if k == 0 {
    } else {
      SafeRunKeeps(cfg, readers, events, n, k - 1);
      PrefixState(cfg, readers, events, k - 1);
      ReachableOk(cfg, readers, events[..k - 1]);
      SafePublish(After(cfg, readers, events[..k - 1]), events[k - 1], n);
    }
  }

  /**
   No erasure, exactly. Publishing at any instant of the run keeps every source in the published rows once one
   has it, if and only if every sync of the run passes its check for it.
   */
  lemma NothingErasedIff(cfg: Config, readers: nat, events: seq<Event>, e: Event, e': Event, n: string)
    requires RunOk(cfg, events) && Publishes(e) && Publishes(e')
    ensures AllPass(cfg, readers, events, n) <==>
            forall k :: 0 <= k <= |events| ==> Kept(Finished(After(cfg, readers, events[..k]), e, e').world.log, n)
  {
    NeverAtRiskIff(cfg, readers, events, n);
    forall k | 0 <= k <= |events|
      ensures Kept(Finished(After(cfg, readers, events[..k]), e, e').world.log, n) <==>
              Kept(After(cfg, readers, events[..k]).world.log, n) && Safe(After(cfg, readers, events[..k]), n)
    {
      ReachableOk(cfg, readers, events[..k]);
      FinishedIff(After(cfg, readers, events[..k]), e, e', n);
    }
    if AllSafe(cfg, readers, events, n) {
      forall k | 0 <= k <= |events| ensures Kept(After(cfg, readers, events[..k]).world.log, n) {
        SafeRunKeeps(cfg, readers, events, n, k);
      }
    }
  }

  /** So once a published row contains a member from the source every later row does, and so does a running writer. */
  lemma NothingErased(cfg: Config, readers: nat, events: seq<Event>, n: string)
    requires RunOk(cfg, events) && AllPass(cfg, readers, events, n)
    ensures var c := After(cfg, readers, events);
            && Kept(c.world.log, n)
            && forall a :: 0 <= a < |c.world.log| && Shows(c.world.log[a].snap.index, n) && Running(c) ==>
                 Shows(c.writer.served, n)
  {
    var c := After(cfg, readers, events);
    assert events[..|events|] == events;
    NeverAtRiskIff(cfg, readers, events, n);
    SafeRunKeeps(cfg, readers, events, n, |events|);
    assert Safe(c, n);
    if c.world.log != [] { assert LastIndex(c.world.log) == c.world.log[|c.world.log| - 1].snap.index; }
  }

  /** Readers keep their protocol's invariant in every run of the cluster. */
  lemma {:induction false} ReachableWorld(cfg: Config, readers: nat, events: seq<Event>)
    ensures R.WorldOk(After(cfg, readers, events).world)
    ensures |After(cfg, readers, events).world.readers| == readers
  {
    if events == [] {
      R.ReachableOk(readers, []);
    } else {
      ReachableWorld(cfg, readers, events[..|events| - 1]);
      AfterSnoc(cfg, readers, events);
      WorldStep(After(cfg, readers, events[..|events| - 1]), events[|events| - 1]);
    }
  }

  lemma WorldStep(c: Cluster, e: Event)
    requires R.WorldOk(c.world)
    ensures R.WorldOk(Next(c, e).world) && |Next(c, e).world.readers| == |c.world.readers|
  {
    match e {
      case Publish(generation, at, statuses, saved) =>
        if c.pending.HasKeys? {
          R.StepKeepsWorld(c.world, R.Publish(PendingRow(c.pending, generation, at, statuses)));
        }
      case Move(i, step) => R.StepKeepsWorld(c.world, R.Move(i, step));
      case _ =>
    }
  }

  /**
   The same for readers: once a row contains a member from the source, every reader index loaded from
   that row or a later one does, at every instant of every run, whatever the generations.
   */
  lemma NothingErasedAtReaders(cfg: Config, readers: nat, events: seq<Event>, n: string, i: nat, a: nat)
    requires RunOk(cfg, events) && AllPass(cfg, readers, events, n)
    requires i < |After(cfg, readers, events).world.readers|
    requires a < After(cfg, readers, events).world.readers[i].indexVersion
    ensures var w := After(cfg, readers, events).world;
            && a < |w.log|
            && (Shows(w.log[a].snap.index, n) ==> Shows(w.readers[i].shown.index, n))
  {
    ReachableWorld(cfg, readers, events);
    NothingErased(cfg, readers, events, n);
    var w := After(cfg, readers, events).world;
    assert R.ReaderOk(w.log, w.readers[i]);
  }

  // ----- Excluded handles -----

  /** Nothing a running writer serves, or is about to publish, has a handle its configuration excludes. */
  ghost predicate Compliant(c: Cluster) {
    Running(c) ==>
      && c.writer.served.Some? && FreeOfExcluded(c.cfg, c.writer.served.value)
      && (!c.pending.Nothing? ==> FreeOfExcluded(c.cfg, c.pending.index))
  }

  /** A sync replaces what it would leave alone, or that is free of excluded handles. */
  ghost predicate StepComplies(c: Cluster, e: Event) {
    Syncs(c, e) && Withholds(c.cfg, c.writer, e.tick) ==> FreeOfExcluded(c.cfg, c.writer.served.value)
  }

  lemma StepCompliantIff(c: Cluster, e: Event)
    requires Ok(c) && Compliant(c)
    ensures Compliant(Next(c, e)) <==> StepComplies(c, e)
  {
    if Syncs(c, e) { SyncExcludesIff(c.cfg, c.writer, e.tick); }
  }

  lemma {:induction false} ComplyingRun(cfg: Config, readers: nat, events: seq<Event>, k: nat)
    requires RunOk(cfg, events) && k <= |events|
    requires forall j :: 0 <= j < |events| ==> StepComplies(After(cfg, readers, events[..j]), events[j])
    ensures Compliant(After(cfg, readers, events[..k]))
  {
    if k == 0 {
    } else {
      ComplyingRun(cfg, readers, events, k - 1);
      PrefixState(cfg, readers, events, k - 1);
      ReachableOk(cfg, readers, events[..k - 1]);
      StepCompliantIff(After(cfg, readers, events[..k - 1]), events[k - 1]);
    }
  }

  /**
   A handle excluded by a process's configuration is never served or about to be published by it, if and
   only if no sync leaves alone an index that has one - as a starved first sync may leave the row of a
   process that did not exclude it yet.
   */
  lemma ExclusionIff(cfg: Config, readers: nat, events: seq<Event>)
    requires RunOk(cfg, events)
    ensures (forall k :: 0 <= k <= |events| ==> Compliant(After(cfg, readers, events[..k]))) <==>
            (forall k :: 0 <= k < |events| ==> StepComplies(After(cfg, readers, events[..k]), events[k]))
  {
    if forall k :: 0 <= k < |events| ==> StepComplies(After(cfg, readers, events[..k]), events[k]) {
      forall k | 0 <= k <= |events| ensures Compliant(After(cfg, readers, events[..k])) {
        ComplyingRun(cfg, readers, events, k);
      }
    }
    if forall k :: 0 <= k <= |events| ==> Compliant(After(cfg, readers, events[..k])) {
      forall k | 0 <= k < |events| ensures StepComplies(After(cfg, readers, events[..k]), events[k]) {
        PrefixState(cfg, readers, events, k);
        ReachableOk(cfg, readers, events[..k]);
        assert Compliant(After(cfg, readers, events[..k + 1]));
        StepCompliantIff(After(cfg, readers, events[..k]), events[k]);
      }
    }
  }

  // ----- Honest sources pass -----

  /** Whatever the source has rows of, one gets through; the disk, and what is served, it stands behind. */
  ghost predicate Backed(cfg: Config, s: State, n: string) {
    && (HeldOf(s.held, n) != [] ==> Alive(cfg, HeldOf(s.held, n)))
    && (Shows(s.served, n) ==> HeldOf(s.held, n) != [])
    && (s.disk.Some? ==> Covers(s.disk.value, n))
  }

  /** What a starting process serves, if anything, shows the source whenever the row does. */
  ghost predicate StartsWell(c: Cluster, n: string) {
    (c.phase == Seeded || c.phase == DiskLoaded) && c.writer.served.Some? && Shows(LastIndex(c.world.log), n) ==>
      Shows(c.writer.served, n)
  }

  /** The configuration does not exclude all the members an index has of the source. */
  ghost predicate StillOffers(cfg: Config, idx: Option<Index>, n: string) {
    Shows(idx, n) ==> Offers(cfg, idx.value, n)
  }

  /**
   The source is honest: a row of each accepted fetch gets through. A process that could read neither the row
   nor a snapshot gets it from its first sync, if the row has it. And every configuration still has it.
   */
  ghost predicate HonestStep(c: Cluster, e: Event, n: string) {
    && (Syncs(c, e) ==>
          && n in c.cfg.sources
          && (n in Accepted(c.cfg, e.tick.fetches) ==> Alive(c.cfg, e.tick.fetches[n].outcome.rows))
          && (c.writer.served.None? && Shows(LastIndex(c.world.log), n) ==> n in Accepted(c.cfg, e.tick.fetches)))
    && (e.Seed? ==> StillOffers(c.cfg, LastIndex(c.world.log), n))
    && (e.LoadDisk? ==> StillOffers(c.cfg, c.writer.disk, n))
  }

  ghost predicate HonestRun(cfg: Config, readers: nat, events: seq<Event>, n: string) {
    forall k :: 0 <= k < |events| ==> HonestStep(After(cfg, readers, events[..k]), events[k], n)
  }

  ghost predicate HonestOk(c: Cluster, n: string) {
    Backed(c.cfg, c.writer, n) && StartsWell(c, n) && Safe(c, n)
  }

  lemma RestoreBacked(cfg: Config, s: State, idx: Index, n: string)
    requires Backed(cfg, s, n) && Valid(idx) && StillOffers(cfg, Some(idx), n)
    ensures Backed(cfg, Restored(s, idx), n)
  {
    RestoredOver(cfg, s.held, idx, n);
  }

  lemma HonestSync(c: Cluster, e: Event, n: string)
    requires Ok(c) && EventOk(e) && Syncs(c, e)
    requires HonestOk(c, n) && HonestStep(c, e, n)
    ensures SyncPasses(c, e.tick, n)
    ensures Backed(c.cfg, TickNext(c.cfg, c.writer, e.tick), n)
  {
    var cfg, s, t := c.cfg, c.writer, e.tick;
    OwnRowsAreHygienic(cfg, t.fetches);
    RowsAfterIs(cfg, s, t, n);
    SyncShowsIff(cfg, s, t, n);
    SyncRefines(cfg, s, t);
    TickServes(cfg, s, t);
    HonestSave(cfg, s, t, n);
  }

  lemma HonestSave(cfg: Config, s: State, t: Tick, n: string)
    requires WriterOk(cfg, s) && TickOk(cfg, t) && HygienicFetches(cfg, t.fetches) && n in cfg.sources
    requires Backed(cfg, s, n) && (n in Accepted(cfg, t.fetches) ==> Alive(cfg, t.fetches[n].outcome.rows))
    ensures TickNext(cfg, s, t).disk.Some? ==> Covers(TickNext(cfg, s, t).disk.value, n)
  {
    var held := NextHeld(cfg, s.held, t.fetches);
    RowsAfterIs(cfg, s, t, n);
    StaysHygienic(cfg, s, t);
    TickServes(cfg, s, t);
    MergeCovers(cfg, held, t.order, n);
    assert HeldOf(held, n) == [] ==> n !in Accepted(cfg, t.fetches) ==> n in Starved(cfg, held, t.fetches);
  }

  lemma SeedBacked(cfg: Config, s: State, idx: Option<Index>, n: string)
    requires Backed(cfg, s, n) && (idx.Some? ==> Valid(idx.value)) && StillOffers(cfg, idx, n)
    ensures Backed(cfg, SeedNext(s, idx), n)
  {
    if idx.Some? && idx.value.teams != map[] { RestoreBacked(cfg, s, idx.value, n); }
  }

  lemma LoadBacked(cfg: Config, s: State, readable: bool, n: string)
    requires Backed(cfg, s, n) && (s.disk.Some? ==> Valid(s.disk.value)) && StillOffers(cfg, s.disk, n)
    ensures Backed(cfg, LoadNext(s, readable), n)
  {
    if readable && s.disk.Some? { RestoreBacked(cfg, s, s.disk.value, n); }
  }

  /** What a process serves after seeding is the row's index; after loading its disk, the snapshot or that. */
  lemma SeedServes(s: State, idx: Option<Index>)
    requires s.served == None
    ensures SeedNext(s, idx).served == None || SeedNext(s, idx).served == idx
  {}

  lemma LoadServes(s: State, readable: bool)
    ensures LoadNext(s, readable).served == s.served
            || (s.disk.Some? && LoadNext(s, readable).served == s.disk)
  {}

  lemma HonestSeed(c: Cluster, reachable: bool, n: string)
    requires Ok(c) && HonestOk(c, n) && c.phase == Down && HonestStep(c, Seed(reachable), n)
    ensures HonestOk(Next(c, Seed(reachable)), n)
  {
    var idx := PublishedIndex(c.world.log, reachable);
    assert idx.Some? ==> Valid(idx.value);
    assert StillOffers(c.cfg, idx, n);
    SeedBacked(c.cfg, c.writer, idx, n);
    SeedServes(c.writer, idx);
    StartsFrom(c, Next(c, Seed(reachable)), n);
  }

  lemma HonestLoad(c: Cluster, readable: bool, n: string)
    requires Ok(c) && HonestOk(c, n) && c.phase == Seeded && HonestStep(c, LoadDisk(readable), n)
    ensures HonestOk(Next(c, LoadDisk(readable)), n)
  {
    LoadBacked(c.cfg, c.writer, readable, n);
    LoadServes(c.writer, readable);
    StartsFrom(c, Next(c, LoadDisk(readable)), n);
  }

  /** A starting process that serves the row, what it served before, or a disk that covers the source. */
  lemma StartsFrom(c: Cluster, c': Cluster, n: string)
    requires StartsWell(c, n) && c'.world == c.world
    requires (c.phase == Down || c.phase == Seeded) && (c'.phase == Seeded || c'.phase == DiskLoaded)
    requires || c'.writer.served == None || c'.writer.served == LastIndex(c.world.log)
             || (c.phase == Seeded && c'.writer.served == c.writer.served)
             || (c'.writer.disk.Some? && c'.writer.served == c'.writer.disk && Covers(c'.writer.disk.value, n))
    ensures StartsWell(c', n) && Safe(c', n)
  {}

  lemma HonestNext(c: Cluster, e: Event, n: string)
    requires Ok(c) && EventOk(e) && HonestOk(c, n) && HonestStep(c, e, n)
    ensures StepPasses(c, e, n) && HonestOk(Next(c, e), n)
  {
    match e {
      case Seed(reachable) => if c.phase == Down { HonestSeed(c, reachable, n); }
      case LoadDisk(readable) => if c.phase == Seeded { HonestLoad(c, readable, n); }
      case Sync(t) =>
        if Syncs(c, e) {
          HonestSync(c, e, n);
          SyncSafeIff(c, e, n);
        }
      case _ =>
    }
  }

  lemma {:induction false} HonestReachable(cfg: Config, readers: nat, events: seq<Event>, n: string, k: nat)
    requires RunOk(cfg, events) && HonestRun(cfg, readers, events, n) && k <= |events|
    ensures HonestOk(After(cfg, readers, events[..k]), n)
  {
    if k == 0 {
    } else {
      HonestReachable(cfg, readers, events, n, k - 1);
      PrefixState(cfg, readers, events, k - 1);
      ReachableOk(cfg, readers, events[..k - 1]);
      HonestNext(After(cfg, readers, events[..k - 1]), events[k - 1], n);
    }
  }

  /** Every sync passes its check for an honest source, however dishonest or starved the others are. */
  lemma HonestSourcePasses(cfg: Config, readers: nat, events: seq<Event>, n: string)
    requires RunOk(cfg, events) && HonestRun(cfg, readers, events, n)
    ensures AllPass(cfg, readers, events, n)
  {
    forall k | 0 <= k < |events| ensures StepPasses(After(cfg, readers, events[..k]), events[k], n) {
      HonestReachable(cfg, readers, events, n, k);
      ReachableOk(cfg, readers, events[..k]);
      HonestNext(After(cfg, readers, events[..k]), events[k], n);
    }
  }
}
