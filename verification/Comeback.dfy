/** A writer crashes, restarts, syncs once and publishes: exactly what that first row shows. */
module Comeback {
  import opened Lists
  import opened Source
  import opened Indexes
  import opened IndexReads
  import Keys
  import opened Syncing
  import opened SyncRuns
  import opened Restart
  import opened Recovery
  import opened Coverage
  import opened Cluster
  import R = Replication

  /**
   How one restart goes: the new configuration, what is lost, what can be read, the first sync, what happens
   to keys, and the publish.
   */
  datatype Comeback = Comeback(
    cfg: Config, diskLost: bool, dirLost: bool, reachable: bool, readable: bool, tick: Tick,
    keysReadable: bool, fetched: seq<Keys.Event>, generation: int, at: nat, statuses: seq<Status>)

  ghost function KeySteps(es: seq<Keys.Event>): seq<Event> {
    seq(|es|, i requires 0 <= i < |es| => KeyStep(es[i]))
  }

  ghost function BootSteps(b: Comeback): seq<Event> {
    [Crash(b.diskLost, b.dirLost, b.cfg), Seed(b.reachable), LoadDisk(b.readable), Sync(b.tick),
     StartKeys(b.keysReadable)]
  }

  ghost function PublishSteps(generation: int, at: nat, statuses: seq<Status>): seq<Event> {
    [Collect, CollectKeys, Publish(generation, at, statuses, true)]
  }

  ghost function Steps(b: Comeback): seq<Event> {
    BootSteps(b) + KeySteps(b.fetched) + PublishSteps(b.generation, b.at, b.statuses)
  }

  ghost function Recovered(c: Cluster, b: Comeback): Cluster {
    Run(c, Steps(b))
  }

  ghost predicate ComebackOk(b: Comeback) {
    TickOk(b.cfg, b.tick) && forall i :: 0 <= i < |b.fetched| ==> !b.fetched[i].Restart?
  }

  // ----- The row a comeback publishes -----

  /** The process that starts, as the syncer sees it. */
  ghost function LifeOf(c: Cluster, b: Comeback): Life {
    Life(b.diskLost, PublishedIndex(c.world.log, b.reachable), b.readable, [])
  }

  ghost function Reborn(c: Cluster, b: Comeback): State {
    Booted(c.writer, LifeOf(c, b))
  }

  ghost function FirstSync(c: Cluster, b: Comeback): State
    requires TickOk(b.cfg, b.tick)
  {
    TickNext(b.cfg, Reborn(c, b), b.tick)
  }

  ghost function KeyHistory(c: Cluster, b: Comeback): seq<Keys.Event> {
    c.keyLog + [Keys.Restart(c.dirLost || b.dirLost, b.keysReadable)] + b.fetched
  }

  ghost function Rebooted(c: Cluster, b: Comeback): Cluster
    requires TickOk(b.cfg, b.tick)
  {
    c.(cfg := b.cfg, phase := Up, writer := FirstSync(c, b), dirLost := false, pending := Nothing,
       keyLog := c.keyLog + [Keys.Restart(c.dirLost || b.dirLost, b.keysReadable)])
  }

  lemma RebootIs(c: Cluster, b: Comeback)
    requires TickOk(b.cfg, b.tick)
    ensures Run(c, BootSteps(b)) == Rebooted(c, b)
  {
    var c1 := Next(c, Crash(b.diskLost, b.dirLost, b.cfg));
    var c2 := Next(c1, Seed(b.reachable));
    var c3 := Next(c2, LoadDisk(b.readable));
    var c4 := Next(c3, Sync(b.tick));
    var c5 := Next(c4, StartKeys(b.keysReadable));
    ChainIsFold(Next, [c, c1, c2, c3, c4, c5], BootSteps(b));
  }

  lemma {:induction false} KeyStepsAre(c: Cluster, es: seq<Keys.Event>)
    requires c.phase == Up && forall i :: 0 <= i < |es| ==> !es[i].Restart?
    ensures Run(c, KeySteps(es)) == c.(keyLog := c.keyLog + es)
  {
    if es == [] {
      assert c.keyLog + [] == c.keyLog;
    } else {
      var front, e := es[..|es| - 1], es[|es| - 1];
      assert KeySteps(es)[..|es| - 1] == KeySteps(front);
      KeyStepsAre(c, front);
      assert c.keyLog + front + [e] == c.keyLog + es;
    }
  }

  /** An undisturbed publish adds one row, of what is served and cached. */
  lemma PublishIs(c: Cluster, generation: int, at: nat, statuses: seq<Status>)
    requires c.phase == Up && c.pending == Nothing && c.writer.served.Some?
    ensures var row := R.Row(generation, R.Snapshot(at, c.writer.served, Keys.After(c.keyLog).entries, statuses));
            Run(c, PublishSteps(generation, at, statuses)) ==
            c.(marks := c.marks + [|c.keyLog|], world := R.World(c.world.log + [row], c.world.readers))
  {
    var c1 := Next(c, Collect);
    var c2 := Next(c1, CollectKeys);
    var c3 := Next(c2, Publish(generation, at, statuses, true));
    ChainIsFold(Next, [c, c1, c2, c3], PublishSteps(generation, at, statuses));
  }

  lemma RecoveredIs(c: Cluster, b: Comeback)
    requires ComebackOk(b)
    ensures var c', served := Recovered(c, b), FirstSync(c, b).served;
            && served.Some? && c'.phase == Up && c'.pending == Nothing && c'.writer == FirstSync(c, b)
            && c'.cfg == b.cfg && c'.world.readers == c.world.readers
            && c'.world.log == c.world.log +
                 [R.Row(b.generation, R.Snapshot(b.at, served, Keys.After(KeyHistory(c, b)).entries, b.statuses))]
  {
    var c1 := Rebooted(c, b);
    var c2 := c1.(keyLog := KeyHistory(c, b));
    RebootIs(c, b);
    KeyStepsAre(c1, b.fetched);
    SyncRefines(b.cfg, Reborn(c, b), b.tick);
    PublishIs(c2, b.generation, b.at, b.statuses);
    FoldAppend(Next, c, BootSteps(b), KeySteps(b.fetched));
    FoldAppend(Next, c, BootSteps(b) + KeySteps(b.fetched), PublishSteps(b.generation, b.at, b.statuses));
  }

  // ----- What it shows -----

  /** The snapshot, if it survived and can be read. */
  ghost function DiskFound(c: Cluster, b: Comeback): Option<Index> {
    if !b.diskLost && b.readable then c.writer.disk else None
  }

  /** What the restarted process could read shows the source. */
  ghost predicate Found(c: Cluster, b: Comeback, n: string) {
    Shows(PublishedIndex(c.world.log, b.reachable), n) || Shows(DiskFound(c, b), n)
  }

  /** And some of those members - the snapshot's if it shows the source - are not excluded now. */
  ghost predicate FoundAlive(c: Cluster, b: Comeback, n: string) {
    var row, disk := PublishedIndex(c.world.log, b.reachable), DiskFound(c, b);
    if Shows(disk, n) then Offers(b.cfg, disk.value, n) else row.Some? && Offers(b.cfg, row.value, n)
  }

  /** The first sync has a row of the source that gets through. */
  ghost predicate Regains(c: Cluster, b: Comeback, n: string) {
    && n in b.cfg.sources
    && if n in Accepted(b.cfg, b.tick.fetches) then Alive(b.cfg, b.tick.fetches[n].outcome.rows)
       else FoundAlive(c, b, n)
  }

  /** The index the process starts from. */
  ghost function Base(c: Cluster, b: Comeback): Option<Index> {
    StartIndex(c.writer, LifeOf(c, b))
  }

  /**
   The first sync leaves alone what the process started from: some source failed and was not found, or
   no source at all has a row that gets through.
   */
  ghost predicate Stays(c: Cluster, b: Comeback) {
    && Base(c, b).Some?
    && ((exists m :: m in b.cfg.sources && m !in Accepted(b.cfg, b.tick.fetches) && !Found(c, b, m))
        || forall m :: m in b.cfg.sources ==> !Regains(c, b, m))
  }

  lemma RebornOk(c: Cluster, b: Comeback)
    requires Ok(c) && Distinct(b.cfg.sources)
    ensures var seed := LifeOf(c, b).seed; seed.Some? ==> Valid(seed.value)
    ensures WriterOk(b.cfg, Reborn(c, b))
    ensures Reborn(c, b).served == Base(c, b) && Reborn(c, b).held == StartRows(c.writer, LifeOf(c, b))
  {
    var crashed := CrashNext(c.writer, b.diskLost);
    SeedOk(b.cfg, crashed, LifeOf(c, b).seed);
    LoadOk(b.cfg, SeedNext(crashed, LifeOf(c, b).seed), b.readable);
    BootedIs(c.writer, LifeOf(c, b));
  }

  lemma NothingAlive(cfg: Config)
    ensures !Alive(cfg, [])
  {}

  ghost function SeedRows(seed: Option<Index>): Rowsets {
    if seed.Some? then BySource(Flatten(seed.value)) else map[]
  }

  lemma SeedRowsFound(cfg: Config, seed: Option<Index>, n: string)
    requires seed.Some? ==> Valid(seed.value)
    ensures var rows := HeldOf(SeedRows(seed), n);
            && (rows != [] <==> Shows(seed, n))
            && (Alive(cfg, rows) <==> seed.Some? && Offers(cfg, seed.value, n))
  {
    NothingAlive(cfg);
    if seed.Some? { RestoredSource(cfg, seed.value, n); }
  }

  lemma LayeredRowsFound(cfg: Config, seed: Option<Index>, disk: Index, n: string)
    requires (seed.Some? ==> Valid(seed.value)) && Valid(disk)
    ensures var rows := HeldOf(SeedRows(seed) + BySource(Flatten(disk)), n);
            && (rows != [] <==> Shows(seed, n) || Covers(disk, n))
            && (Alive(cfg, rows) <==>
                  if Covers(disk, n) then Offers(cfg, disk, n) else seed.Some? && Offers(cfg, seed.value, n))
  {
    SeedRowsFound(cfg, seed, n);
    RestoredOver(cfg, SeedRows(seed), disk, n);
  }

  /** A source has rows to fall back on exactly when it was found. */
  lemma StartRowsFound(c: Cluster, b: Comeback, n: string)
    requires Ok(c) && Distinct(b.cfg.sources)
    ensures HeldOf(Reborn(c, b).held, n) != [] <==> Found(c, b, n)
    ensures Alive(b.cfg, HeldOf(Reborn(c, b).held, n)) <==> FoundAlive(c, b, n)
  {
    var seed, disk := LifeOf(c, b).seed, c.writer.disk;
    RebornOk(c, b);
    if DiskFound(c, b).Some? {
      assert StartRows(c.writer, LifeOf(c, b)) == SeedRows(seed) + BySource(Flatten(disk.value));
      LayeredRowsFound(b.cfg, seed, disk.value, n);
    } else {
      assert StartRows(c.writer, LifeOf(c, b)) == SeedRows(seed);
      SeedRowsFound(b.cfg, seed, n);
    }
  }

  lemma RegainsIff(c: Cluster, b: Comeback, n: string)
    requires Ok(c) && TickOk(b.cfg, b.tick) && n in b.cfg.sources
    ensures Alive(b.cfg, RowsAfter(b.cfg, Reborn(c, b), b.tick, n)) <==> Regains(c, b, n)
  {
    RowsAfterIs(b.cfg, Reborn(c, b), b.tick, n);
    StartRowsFound(c, b, n);
  }

  lemma StarvesIff(c: Cluster, b: Comeback, n: string)
    requires Ok(c) && TickOk(b.cfg, b.tick) && n in b.cfg.sources
    ensures n in Starved(b.cfg, NextHeld(b.cfg, Reborn(c, b).held, b.tick.fetches), b.tick.fetches) <==>
            n !in Accepted(b.cfg, b.tick.fetches) && !Found(c, b, n)
  {
    RowsAfterIs(b.cfg, Reborn(c, b), b.tick, n);
    StartRowsFound(c, b, n);
  }

  lemma SomeStarvesIff(c: Cluster, b: Comeback)
    requires Ok(c) && TickOk(b.cfg, b.tick)
    ensures Starved(b.cfg, NextHeld(b.cfg, Reborn(c, b).held, b.tick.fetches), b.tick.fetches) != {} <==>
            exists m :: m in b.cfg.sources && m !in Accepted(b.cfg, b.tick.fetches) && !Found(c, b, m)
  {
    var starved := Starved(b.cfg, NextHeld(b.cfg, Reborn(c, b).held, b.tick.fetches), b.tick.fetches);
    if m :| m in starved { StarvesIff(c, b, m); }
    if m :| m in b.cfg.sources && m !in Accepted(b.cfg, b.tick.fetches) && !Found(c, b, m) { StarvesIff(c, b, m); }
  }

  lemma NoneRegainsIff(c: Cluster, b: Comeback)
    requires Ok(c) && TickOk(b.cfg, b.tick) && OwnRows(b.tick.fetches)
    ensures var held := NextHeld(b.cfg, Reborn(c, b).held, b.tick.fetches);
            Merged(b.cfg, held, b.tick.order).teams == map[] <==> forall m :: m in b.cfg.sources ==> !Regains(c, b, m)
  {
    var reborn := Reborn(c, b);
    var held := NextHeld(b.cfg, reborn.held, b.tick.fetches);
    RebornOk(c, b);
    OwnRowsAreHygienic(b.cfg, b.tick.fetches);
    StaysHygienic(b.cfg, reborn, b.tick);
    TickServes(b.cfg, reborn, b.tick);
    NothingMergedIff(b.cfg, held, b.tick.order);
    forall m | m in b.cfg.sources ensures Alive(b.cfg, HeldOf(held, m)) <==> Regains(c, b, m) {
      RegainsIff(c, b, m);
    }
  }

  lemma StaysIff(c: Cluster, b: Comeback)
    requires Ok(c) && TickOk(b.cfg, b.tick) && OwnRows(b.tick.fetches)
    ensures Withholds(b.cfg, Reborn(c, b), b.tick) <==> Stays(c, b)
  {
    RebornOk(c, b);
    SomeStarvesIff(c, b);
    NoneRegainsIff(c, b);
  }

  /**
   Exactly which sources the first row published after a crash shows, in terms of the new configuration, what was
   lost, what could be read and what the first fetches returned - any fetches, empty or failed.
   */
  lemma RecoveryShowsIff(c: Cluster, b: Comeback, n: string)
    requires Ok(c) && ComebackOk(b) && OwnRows(b.tick.fetches)
    ensures Shows(LastIndex(Recovered(c, b).world.log), n) <==>
            if Stays(c, b) then Shows(Base(c, b), n) else Regains(c, b, n)
  {
    RecoveredIs(c, b);
    RebornOk(c, b);
    OwnRowsAreHygienic(b.cfg, b.tick.fetches);
    SyncShowsIff(b.cfg, Reborn(c, b), b.tick, n);
    StaysIff(c, b);
    if n in b.cfg.sources { RegainsIff(c, b, n); }
  }

  /**
   And exactly when that row is free of the handles the new configuration excludes: unless the first sync leaves
   alone an index that has one.
   */
  lemma RecoveryExcludesIff(c: Cluster, b: Comeback)
    requires Ok(c) && ComebackOk(b) && OwnRows(b.tick.fetches)
    ensures var idx := LastIndex(Recovered(c, b).world.log);
            idx.Some? && (FreeOfExcluded(b.cfg, idx.value) <==> Stays(c, b) ==> FreeOfExcluded(b.cfg, Base(c, b).value))
  {
    RecoveredIs(c, b);
    RebornOk(c, b);
    StaysIff(c, b);
    SyncExcludesIff(b.cfg, Reborn(c, b), b.tick);
  }

  lemma OfferingHasTeams(cfg: Config, idx: Index, n: string)
    requires Offers(cfg, idx, n)
    ensures Covers(idx, n) && idx.teams != map[]
  {
    var t, k :| idx.Has(t, k) && n in idx.At(t, k).sources && k !in cfg.exclude;
    assert t in idx.teams;
  }

  /**
   For an honest source that the new configuration still has the condition is simple: if the last row had it, the
   next one has if and only if the restarted writer could read that row, or still had a snapshot it could read, or
   the source's first fetch is accepted.
   */
  lemma RecoveryKeepsIff(c: Cluster, b: Comeback, n: string)
    requires Ok(c) && n in b.cfg.sources && ComebackOk(b) && OwnRows(b.tick.fetches)
    requires HonestOk(c, n) && Shows(LastIndex(c.world.log), n)
    requires StillOffers(b.cfg, LastIndex(c.world.log), n) && StillOffers(b.cfg, c.writer.disk, n)
    requires n in Accepted(b.cfg, b.tick.fetches) ==> Alive(b.cfg, b.tick.fetches[n].outcome.rows)
    ensures Shows(LastIndex(Recovered(c, b).world.log), n) <==>
            b.reachable || (!b.diskLost && b.readable && c.writer.disk.Some?) || n in Accepted(b.cfg, b.tick.fetches)
  {
    RecoveryShowsIff(c, b, n);
    OfferingHasTeams(b.cfg, LastIndex(c.world.log).value, n);
    assert Base(c, b).Some? ==> Shows(Base(c, b), n);
  }

  // ----- Runs that erase a source, or publish an excluded handle -----

  const ALICE := Membership("alice", "core", MANUAL, "", "")

  const BOB := Membership("bob", "core", GITHUB_ORG, "ethereum", "")

  /** The two sources, as the shipped configuration has them: without floors. */
  const DUO := Config([MANUAL, GITHUB_ORG], map[], {})

  function Answers(manual: Outcome<seq<Membership>>, github: Outcome<seq<Membership>>): Tick {
    Tick(map[MANUAL := Fetch(1, 1, [], manual), GITHUB_ORG := Fetch(1, 1, [], github)], [MANUAL, GITHUB_ORG], true)
  }

  const BOTH_WORK := Answers(Rows([ALICE]), Rows([BOB]))

  /** Every GitHub org is unreachable, which the source reports as success. */
  const GITHUB_OUT := Answers(Rows([ALICE]), Rows([]))

  lemma DuoIs()
    ensures Distinct(DUO.sources) && MANUAL in DUO.sources && GITHUB_ORG in DUO.sources && MANUAL != GITHUB_ORG
    ensures forall n :: n in DUO.sources ==> n == MANUAL || n == GITHUB_ORG
    ensures forall n :: !PositiveFloor(FloorOf(DUO, n))
    ensures Alive(DUO, [ALICE]) && Alive(DUO, [BOB])
  {
    assert |MANUAL| != |GITHUB_ORG|;
    assert ALICE in [ALICE] && ALICE.Usable() && ALICE.Key() !in DUO.exclude;
    assert BOB in [BOB] && BOB.Usable() && BOB.Key() !in DUO.exclude;
  }

  lemma AnswersAre(t: Tick, github: seq<Membership>)
    requires t == Answers(Rows([ALICE]), Rows(github)) && (github == [] || github == [BOB])
    ensures TickOk(DUO, t) && OwnRows(t.fetches)
    ensures t.fetches[MANUAL].outcome == Rows([ALICE]) && t.fetches[GITHUB_ORG].outcome == Rows(github)
    ensures MANUAL in Accepted(DUO, t.fetches) && GITHUB_ORG in Accepted(DUO, t.fetches)
  {
    DuoIs();
    forall n | n in t.fetches && t.fetches[n].outcome.Rows? ensures FromSource(n, t.fetches[n].outcome.rows) {
      assert n == MANUAL || n == GITHUB_ORG;
    }
  }

  const FIRST_BOOT := Comeback(DUO, false, false, true, true, BOTH_WORK, true, [], 1, 1, [])

  /** Nothing is there to start from. */
  lemma FirstBootIs()
    ensures TickOk(DUO, BOTH_WORK) && ComebackOk(FIRST_BOOT)
    ensures Reborn(Start(DUO, 0), FIRST_BOOT) == State(map[], map[], None, None)
  {
    AnswersAre(BOTH_WORK, [BOB]);
  }

  lemma FirstSyncHolds(s: State)
    requires s == State(map[], map[], None, None)
    ensures TickOk(DUO, BOTH_WORK) && Hygienic(DUO, TickNext(DUO, s, BOTH_WORK).held)
    ensures HeldOf(TickNext(DUO, s, BOTH_WORK).held, GITHUB_ORG) == [BOB]
    ensures Shows(TickNext(DUO, s, BOTH_WORK).served, GITHUB_ORG)
  {
    DuoIs();
    AnswersAre(BOTH_WORK, [BOB]);
    RowsAfterIs(DUO, s, BOTH_WORK, GITHUB_ORG);
    TickServes(DUO, s, BOTH_WORK);
    StaysHygienic(DUO, s, BOTH_WORK);
    SyncShowsIff(DUO, s, BOTH_WORK, GITHUB_ORG);
  }

  lemma FirstBootOk()
    ensures Ok(Recovered(Start(DUO, 0), FIRST_BOOT))
  {
    DuoIs();
    AnswersAre(BOTH_WORK, [BOB]);
    RunKeepsOk(Start(DUO, 0), Steps(FIRST_BOOT));
  }

  /** Both sources answer, and the first row shows both. */
  lemma FirstRow()
    ensures var c := Recovered(Start(DUO, 0), FIRST_BOOT);
            && Ok(c) && c.cfg == DUO && |c.world.log| == 1 && c.phase == Up && c.pending == Nothing
            && Shows(c.world.log[0].snap.index, GITHUB_ORG) && LastIndex(c.world.log) == c.writer.served
            && HeldOf(c.writer.held, GITHUB_ORG) == [BOB] && Hygienic(DUO, c.writer.held)
  {
    FirstBootIs();
    FirstSyncHolds(State(map[], map[], None, None));
    FirstBootOk();
    RecoveredIs(Start(DUO, 0), FIRST_BOOT);
  }

  /** One more sync and publish. */
  ghost function Continued(t: Tick): seq<Event> {
    [Sync(t)] + PublishSteps(2, 2, [])
  }

  lemma ContinuedIs(c: Cluster, t: Tick)
    requires c.phase == Up && c.pending == Nothing && TickOk(c.cfg, t)
    ensures var log := Run(c, Continued(t)).world.log;
            && |log| == |c.world.log| + 1 && log[..|c.world.log|] == c.world.log
            && LastIndex(log) == TickNext(c.cfg, c.writer, t).served
  {
    var c' := Next(c, Sync(t));
    SyncRefines(c.cfg, c.writer, t);
    FoldOne(Next, c, Sync(t));
    FoldAppend(Next, c, [Sync(t)], PublishSteps(2, 2, []));
    PublishIs(c', 2, 2, []);
  }

  /** Every org fails: the running writer stops serving the source. */
  lemma OutageDrops(s: State)
    requires Hygienic(DUO, s.held) && Shows(s.served, GITHUB_ORG) && HeldOf(s.held, GITHUB_ORG) == [BOB]
    ensures TickOk(DUO, GITHUB_OUT) && !Shows(TickNext(DUO, s, GITHUB_OUT).served, GITHUB_ORG)
  {
    DuoIs();
    AnswersAre(GITHUB_OUT, []);
    RowsAfterIs(DUO, s, GITHUB_OUT, MANUAL);
    EmptySuccessKeepsIff(DUO, s, GITHUB_OUT, GITHUB_ORG);
  }

  /**
   A total GitHub outage while the writer is running and everything else works: the next row has lost the
   source, though nothing failed, nothing was starved and the source's last good rows were at hand.
   */
  lemma GithubOutageErases()
    ensures var log := Run(Start(DUO, 0), Steps(FIRST_BOOT) + Continued(GITHUB_OUT)).world.log;
            |log| == 2 && Shows(log[0].snap.index, GITHUB_ORG) && !Shows(log[1].snap.index, GITHUB_ORG)
  {
    var c := Recovered(Start(DUO, 0), FIRST_BOOT);
    FirstRow();
    OutageDrops(c.writer);
    ContinuedIs(c, GITHUB_OUT);
    FoldAppend(Next, Start(DUO, 0), Steps(FIRST_BOOT), Continued(GITHUB_OUT));
    var log := Run(c, Continued(GITHUB_OUT)).world.log;
    assert log[0] == log[..1][0];
  }

  /** A restart on a new disk cannot reach the row, and the source's first fetch fails. */
  const SECOND_BOOT := Comeback(
    DUO, true, true, false, true, Answers(Rows([ALICE]), Failed("down")), true, [], 2, 2, [])

  /** The writer then publishes a row without the source every reader was serving. */
  lemma UnreachableRowErases()
    ensures var log := Run(Start(DUO, 0), Steps(FIRST_BOOT) + Steps(SECOND_BOOT)).world.log;
            |log| == 2 && Shows(log[0].snap.index, GITHUB_ORG) && !Shows(log[1].snap.index, GITHUB_ORG)
  {
    var c, t := Recovered(Start(DUO, 0), FIRST_BOOT), SECOND_BOOT.tick;
    FirstRow();
    DuoIs();
    assert GITHUB_ORG !in Accepted(DUO, t.fetches);
    forall n | n in t.fetches && t.fetches[n].outcome.Rows? ensures FromSource(n, t.fetches[n].outcome.rows) {
      assert n == MANUAL;
    }
    FoldAppend(Next, Start(DUO, 0), Steps(FIRST_BOOT), Steps(SECOND_BOOT));
    RecoveredIs(c, SECOND_BOOT);
    RecoveryShowsIff(c, SECOND_BOOT, GITHUB_ORG);
  }

  /** GitHub is down from the start. */
  const GITHUB_DOWN := Answers(Rows([ALICE]), Failed("down"))

  const PARTIAL_BOOT := Comeback(DUO, false, false, true, true, GITHUB_DOWN, true, [], 1, 1, [])

  /** A redeploy that excludes alice. */
  const EXCLUDING := Config([MANUAL, GITHUB_ORG], map[], {"alice"})

  const EXCLUDING_BOOT := Comeback(EXCLUDING, true, true, true, true, GITHUB_DOWN, true, [], 2, 2, [])

  lemma GithubDownIs(cfg: Config)
    requires cfg == DUO || cfg == EXCLUDING
    ensures TickOk(cfg, GITHUB_DOWN) && OwnRows(GITHUB_DOWN.fetches) && GITHUB_ORG in cfg.sources
    ensures GITHUB_ORG !in Accepted(cfg, GITHUB_DOWN.fetches) && GITHUB_DOWN.fetches[GITHUB_ORG].outcome.Failed?
    ensures MANUAL in cfg.sources && Accepts(cfg, MANUAL, GITHUB_DOWN.fetches[MANUAL].outcome)
    ensures GITHUB_DOWN.fetches[MANUAL].outcome == Rows([ALICE])
  {
    DuoIs();
  }

  lemma PartialBootIs()
    ensures ComebackOk(PARTIAL_BOOT) && OwnRows(PARTIAL_BOOT.tick.fetches)
    ensures Reborn(Start(DUO, 0), PARTIAL_BOOT) == State(map[], map[], None, None)
  {
    GithubDownIs(DUO);
  }

  lemma PartialBootOk()
    ensures Ok(Recovered(Start(DUO, 0), PARTIAL_BOOT))
  {
    PartialBootIs();
    DuoIs();
    RunKeepsOk(Start(DUO, 0), Steps(PARTIAL_BOOT));
  }

  lemma PartialHas(s: State)
    requires s == State(map[], map[], None, None)
    ensures TickOk(DUO, GITHUB_DOWN) && TickNext(DUO, s, GITHUB_DOWN).served.Some?
    ensures TickNext(DUO, s, GITHUB_DOWN).served.value.Has("core", "alice")
  {
    GithubDownIs(DUO);
    assert ALICE in [ALICE] && ALICE.Usable() && ALICE.Key() == "alice";
    StarvedFirstSyncIsServed(DUO, GITHUB_DOWN, MANUAL, GITHUB_ORG, ALICE);
  }

  /** A first sync does not show a source that failed. */
  lemma FirstSyncLacks(cfg: Config, s: State, t: Tick, n: string)
    requires s == State(map[], map[], None, None) && TickOk(cfg, t) && OwnRows(t.fetches)
    requires n in cfg.sources && n !in Accepted(cfg, t.fetches)
    ensures !Shows(TickNext(cfg, s, t).served, n)
  {
    OwnRowsAreHygienic(cfg, t.fetches);
    RowsAfterIs(cfg, s, t, n);
    SyncShowsIff(cfg, s, t, n);
    NothingAlive(cfg);
  }

  /** The first row has alice, and nobody from GitHub. */
  lemma PartialRow()
    ensures var log := Recovered(Start(DUO, 0), PARTIAL_BOOT).world.log;
            && |log| == 1 && LastIndex(log).Some? && LastIndex(log).value.Has("core", "alice")
            && !Shows(LastIndex(log), GITHUB_ORG)
  {
    PartialBootIs();
    GithubDownIs(DUO);
    PartialHas(State(map[], map[], None, None));
    FirstSyncLacks(DUO, State(map[], map[], None, None), GITHUB_DOWN, GITHUB_ORG);
    RecoveredIs(Start(DUO, 0), PARTIAL_BOOT);
  }

  /**
   A process on a new disk reads a row with a member it excludes. If some source's first fetch fails and the row
   has nothing of it, the first sync leaves the row alone, and the excluded member is published again.
   */
  lemma StarvedRestartIgnoresExclusion(c: Cluster, b: Comeback, n: string, t: string, k: string)
    requires Ok(c) && ComebackOk(b) && OwnRows(b.tick.fetches) && b.diskLost && b.reachable
    requires LastIndex(c.world.log).Some? && LastIndex(c.world.log).value.Has(t, k) && k in b.cfg.exclude
    requires n in b.cfg.sources && n !in Accepted(b.cfg, b.tick.fetches) && !Shows(LastIndex(c.world.log), n)
    ensures LastIndex(Recovered(c, b).world.log).Some?
    ensures !FreeOfExcluded(b.cfg, LastIndex(Recovered(c, b).world.log).value)
  {
    assert t in LastIndex(c.world.log).value.teams;
    assert Base(c, b) == LastIndex(c.world.log);
    assert !Found(c, b, n);
    RecoveryExcludesIff(c, b);
  }

  lemma PublishedAgain(c: Cluster, b: Comeback, b': Comeback, n: string, t: string, k: string)
    requires Ok(Recovered(c, b)) && |Recovered(c, b).world.log| == 1
    requires var idx := LastIndex(Recovered(c, b).world.log); idx.Some? && idx.value.Has(t, k) && !Shows(idx, n)
    requires ComebackOk(b') && OwnRows(b'.tick.fetches) && b'.diskLost && b'.reachable && k in b'.cfg.exclude
    requires n in b'.cfg.sources && n !in Accepted(b'.cfg, b'.tick.fetches)
    ensures var log := Run(c, Steps(b) + Steps(b')).world.log;
            |log| == 2 && LastIndex(log).Some? && !FreeOfExcluded(b'.cfg, LastIndex(log).value)
  {
    FoldAppend(Next, c, Steps(b), Steps(b'));
    RecoveredIs(Recovered(c, b), b');
    StarvedRestartIgnoresExclusion(Recovered(c, b), b', n, t, k);
  }

  /** The writer is redeployed with alice excluded, and GitHub is still down: it publishes alice again. */
  lemma ExcludedHandleIsPublished()
    ensures var log := Run(Start(DUO, 0), Steps(PARTIAL_BOOT) + Steps(EXCLUDING_BOOT)).world.log;
            |log| == 2 && LastIndex(log).Some? && !FreeOfExcluded(EXCLUDING, LastIndex(log).value)
  {
    PartialBootOk();
    PartialRow();
    GithubDownIs(EXCLUDING);
    PublishedAgain(Start(DUO, 0), PARTIAL_BOOT, EXCLUDING_BOOT, GITHUB_ORG, "core", "alice");
  }
}
