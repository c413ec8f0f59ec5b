/** What every run of a syncer keeps, over any number of process lifetimes. */
module SyncRuns {
  import opened Lists
  import opened Source
  import opened Indexes
  import opened Syncing

  // ----- Runs -----

  datatype Tick = Tick(fetches: Fetches, order: seq<string>, saved: bool)

  /** One process: it starts after a crash, may be seeded, loads its disk, then syncs for as long as it lives. */
  datatype Life = Life(diskLost: bool, seed: Option<Index>, readable: bool, ticks: seq<Tick>)

  ghost predicate TickOk(cfg: Config, t: Tick) {
    WellFormed(cfg, t.fetches) && Schedule(cfg, t.order)
  }

  ghost predicate TicksOk(cfg: Config, ticks: seq<Tick>) {
    forall t :: t in ticks ==> TickOk(cfg, t)
  }

  ghost predicate LifeOk(cfg: Config, l: Life) {
    TicksOk(cfg, l.ticks) && (l.seed.Some? ==> Valid(l.seed.value))
  }

  ghost function TickNext(cfg: Config, s: State, t: Tick): State
    requires TickOk(cfg, t)
  {
    SyncNext(cfg, s, t.fetches, t.order, t.saved)
  }

  ghost function AfterTicks(cfg: Config, s: State, ticks: seq<Tick>): State
    requires TicksOk(cfg, ticks)
  {
    if ticks == [] then s
    else TickNext(cfg, AfterTicks(cfg, s, ticks[..|ticks| - 1]), ticks[|ticks| - 1])
  }

  ghost function Booted(s: State, l: Life): State {
    LoadNext(SeedNext(CrashNext(s, l.diskLost), l.seed), l.readable)
  }

  ghost function AfterLives(cfg: Config, lives: seq<Life>): State
    requires forall l :: l in lives ==> LifeOk(cfg, l)
  {
    if lives == [] then State(map[], map[], None, None)
    else
      var l := lives[|lives| - 1];
      assert l in lives && LifeOk(cfg, l);
      AfterTicks(cfg, Booted(AfterLives(cfg, lives[..|lives| - 1]), l), l.ticks)
  }

  // ----- One sync against its simple specification -----

  /**
   A sync that serves anything new serves the merge of every source's last good rows; a starved
   sync never reaches the disk, and is served exactly when nothing was served before; whatever
   reaches the disk is what is served.
   */
  lemma SyncRefines(cfg: Config, s: State, t: Tick)
    requires TickOk(cfg, t)
    ensures var s' := TickNext(cfg, s, t); var merged := Some(Merged(cfg, s'.held, t.order));
            && (s'.served == s.served || s'.served == merged)
            && (Starved(cfg, s'.held, t.fetches) != {} ==> s'.disk == s.disk)
            && (Starved(cfg, s'.held, t.fetches) != {} ==> s'.served == if s.served.None? then merged else s.served)
            && (s'.disk != s.disk ==> s'.disk.Some? && s'.disk == s'.served && Starved(cfg, s'.held, t.fetches) == {})
            && s'.served.Some?
  {}

  /**
   A process that has served nothing yet serves whatever its first sync merges, even when some source
   is starved: one usable row of another source is enough to serve a partial index, which is not saved.
   */
  lemma StarvedFirstSyncIsServed(cfg: Config, t: Tick, n: string, down: string, m: Membership)
    requires TickOk(cfg, t) && n in cfg.sources && down in cfg.sources
    requires Accepts(cfg, n, t.fetches[n].outcome) && m in t.fetches[n].outcome.rows
    requires m.Usable() && m.Key() !in cfg.exclude && t.fetches[down].outcome.Failed?
    ensures var s := TickNext(cfg, State(map[], map[], None, None), t);
            && down in Starved(cfg, s.held, t.fetches)
            && s.served.Some? && s.served.value.Has(m.team, m.Key()) && s.disk == None
  {
    var held := NextHeld(cfg, map[], t.fetches);
    NextHeldOf(cfg, map[], t.fetches, n);
    NextHeldOf(cfg, map[], t.fetches, down);
    assert down in Starved(cfg, held, t.fetches);
    assert n in Elems(t.order) && m in HeldOf(held, n);
    MergedRows(cfg, held, t.order, m);
    MemberExists(Surviving(cfg.exclude, Gathered(held, t.order)), m.team, m.Key());
    assert m.At(m.team, m.Key());
  }

  const PAIR := Config([MANUAL, PROTOCOL_GUILD], map[], {})

  /** The first source answers, the second is down. */
  const PARTIAL := Tick(
    map[MANUAL := Fetch(1, 1, [], Rows([Membership("alice", "core", MANUAL, "", "")])),
        PROTOCOL_GUILD := Fetch(1, 1, [], Failed("down"))],
    [MANUAL, PROTOCOL_GUILD], true)

  lemma PartialTick()
    ensures TickOk(PAIR, PARTIAL) && MANUAL in PAIR.sources && PROTOCOL_GUILD in PAIR.sources
    ensures Accepts(PAIR, MANUAL, PARTIAL.fetches[MANUAL].outcome)
    ensures PARTIAL.fetches[MANUAL].outcome == Rows([Membership("alice", "core", MANUAL, "", "")])
    ensures PARTIAL.fetches[PROTOCOL_GUILD].outcome.Failed?
  {
    assert |MANUAL| != |PROTOCOL_GUILD|;
  }

  /** Such a first sync. */
  lemma StarvedColdStart()
    ensures TickOk(PAIR, PARTIAL)
    ensures var s := TickNext(PAIR, State(map[], map[], None, None), PARTIAL);
            && PROTOCOL_GUILD in Starved(PAIR, s.held, PARTIAL.fetches)
            && s.served.Some? && s.served.value.Has("core", "alice") && s.disk == None
  {
    var m := Membership("alice", "core", MANUAL, "", "");
    PartialTick();
    assert m.Key() == "alice" && m in [m];
    StarvedFirstSyncIsServed(PAIR, PARTIAL, MANUAL, PROTOCOL_GUILD, m);
  }

  /** The provenance a sync serves does not depend on the order in which its sources finish. */
  lemma ScheduleIrrelevant(cfg: Config, held: Rowsets, order: seq<string>, other: seq<string>)
    requires Schedule(cfg, order) && Schedule(cfg, other)
    ensures View(Merged(cfg, held, order)) == View(Merged(cfg, held, other))
  {
    var ms, ns := Surviving(cfg.exclude, Gathered(held, order)), Surviving(cfg.exclude, Gathered(held, other));
    forall n ensures n in order <==> n in other {
      assert n in order <==> n in Elems(order);
      assert n in other <==> n in Elems(other);
    }
    forall m ensures m in ms <==> m in ns {
      MergedRows(cfg, held, order, m);
      MergedRows(cfg, held, other, m);
    }
    assert Elems(ms) == Elems(ns);
    ProvenanceIgnoresOrder(ms, ns);
  }

  // ----- Floors and statuses -----

  /** A source with a recorded success stands on rows that passed both floors and that its status counts. */
  ghost predicate Counted(cfg: Config, s: State, n: string) {
    n in s.status && s.status[n].lastSuccess != 0 ==>
      && n in s.held
      && MeetsFloors(FloorOf(cfg, n), s.held[n])
      && s.status[n].members == |s.held[n]|
      && s.status[n].teams == |TeamNames(s.held[n])|
  }

  ghost predicate Sound(cfg: Config, s: State) {
    && (forall n :: Counted(cfg, s, n)) && Named(s.status)
    && (s.disk.Some? ==> Valid(s.disk.value) && s.disk.value.teams != map[])
    && (s.served.Some? ==> Valid(s.served.value))
  }

  lemma TickKeepsCounted(cfg: Config, s: State, t: Tick, n: string)
    requires Counted(cfg, s, n) && TickOk(cfg, t)
    ensures Counted(cfg, TickNext(cfg, s, t), n)
  {
    assert n in cfg.sources <==> n in Elems(cfg.sources);
  }

  lemma TickKeepsNamed(cfg: Config, s: State, t: Tick)
    requires Named(s.status) && TickOk(cfg, t)
    ensures Named(TickNext(cfg, s, t).status)
  {}

  lemma TickKeepsSound(cfg: Config, s: State, t: Tick)
    requires Sound(cfg, s) && TickOk(cfg, t)
    ensures Sound(cfg, TickNext(cfg, s, t))
  {
    var s' := TickNext(cfg, s, t);
    BuiltValid(Surviving(cfg.exclude, Gathered(s'.held, t.order)));
    TickKeepsNamed(cfg, s, t);
    forall n ensures Counted(cfg, s', n) {
      assert Counted(cfg, s, n);
      TickKeepsCounted(cfg, s, t, n);
    }
  }

  lemma {:induction false} TicksKeepSound(cfg: Config, s: State, ticks: seq<Tick>)
    requires Sound(cfg, s) && TicksOk(cfg, ticks)
    ensures Sound(cfg, AfterTicks(cfg, s, ticks))
  {
    if ticks == [] {
    } else {
      TicksKeepSound(cfg, s, ticks[..|ticks| - 1]);
      TickKeepsSound(cfg, AfterTicks(cfg, s, ticks[..|ticks| - 1]), ticks[|ticks| - 1]);
    }
  }

  /** In every reachable state. */
  lemma {:induction false} ReachableSound(cfg: Config, lives: seq<Life>)
    requires forall l :: l in lives ==> LifeOk(cfg, l)
    ensures Sound(cfg, AfterLives(cfg, lives))
  {
    if lives == [] {
    } else {
      var l := lives[|lives| - 1];
      assert l in lives && LifeOk(cfg, l);
      ReachableSound(cfg, lives[..|lives| - 1]);
      TicksKeepSound(cfg, Booted(AfterLives(cfg, lives[..|lives| - 1]), l), l.ticks);
    }
  }

  // ----- Starvation -----

  ghost predicate PositiveFloor(f: Floor) {
    f.minMembers > 0 || f.minTeams > 0
  }

  /** A floor keeps empty fetches out exactly when one of its bounds is enabled. */
  lemma FloorRejectsEmptyIff(f: Floor)
    ensures PositiveFloor(f) <==> forall rows :: MeetsFloors(f, rows) ==> rows != []
  {
    assert TeamNames([]) == {};
    if !PositiveFloor(f) {
      assert MeetsFloors(f, []);
    }
  }

  /** A source behind a positive floor never loses its last good rows again. */
  lemma {:induction false} FlooredSourceKeepsRows(cfg: Config, s: State, ticks: seq<Tick>, n: string)
    requires TicksOk(cfg, ticks) && n in cfg.sources
    requires PositiveFloor(FloorOf(cfg, n)) && HeldOf(s.held, n) != []
    ensures HeldOf(AfterTicks(cfg, s, ticks).held, n) != []
  {
    if ticks == [] {
    } else {
      var before, t := AfterTicks(cfg, s, ticks[..|ticks| - 1]), ticks[|ticks| - 1];
      assert t in ticks && TickOk(cfg, t);
      FlooredSourceKeepsRows(cfg, s, ticks[..|ticks| - 1], n);
      NextHeldOf(cfg, before.held, t.fetches, n);
      FloorRejectsEmptyIff(FloorOf(cfg, n));
    }
  }

  /**
   No later sync is starved while every source either has rows behind a positive floor, or is accepted
   by that sync, as sources are that never fail and have no floor.
   */
  lemma NeverStarvedAgain(cfg: Config, s: State, ticks: seq<Tick>, t: Tick)
    requires TicksOk(cfg, ticks) && TickOk(cfg, t)
    requires forall n :: n in cfg.sources ==>
               (PositiveFloor(FloorOf(cfg, n)) && HeldOf(s.held, n) != []) || n in Accepted(cfg, t.fetches)
    ensures Starved(cfg, TickNext(cfg, AfterTicks(cfg, s, ticks), t).held, t.fetches) == {}
  {
    forall x | x in ticks + [t] ensures TickOk(cfg, x) {}
    assert (ticks + [t])[..|ticks|] == ticks;
    forall n | n in cfg.sources && n !in Accepted(cfg, t.fetches)
      ensures HeldOf(TickNext(cfg, AfterTicks(cfg, s, ticks), t).held, n) != []
    {
      FlooredSourceKeepsRows(cfg, s, ticks + [t], n);
    }
  }

  /**
   A source that can fail and has both bounds disabled: an empty success erases its rows, and its next
   failure starves the sync, which leaves what is served and saved as the first one left it.
   */
  lemma UnflooredSourceStarves(cfg: Config, s: State, t: Tick, next: Tick, n: string)
    requires TickOk(cfg, t) && TickOk(cfg, next) && n in cfg.sources
    requires !PositiveFloor(FloorOf(cfg, n))
    requires t.fetches[n].outcome == Rows([]) && next.fetches[n].outcome.Failed?
    ensures var first, second := TickNext(cfg, s, t), TickNext(cfg, TickNext(cfg, s, t), next);
            && n in Starved(cfg, second.held, next.fetches)
            && second.served == first.served && second.disk == first.disk
  {
    NextHeldOf(cfg, s.held, t.fetches, n);
    NextHeldOf(cfg, TickNext(cfg, s, t).held, next.fetches, n);
    SyncRefines(cfg, s, t);
    SyncRefines(cfg, TickNext(cfg, s, t), next);
  }

  // ----- Never empty -----

  ghost predicate Populated(idx: Option<Index>) {
    idx.Some? && idx.value.teams != map[]
  }

  /** Within a process, a populated index is never replaced by a team-less one... */
  lemma {:induction false} PopulatedStays(cfg: Config, s: State, ticks: seq<Tick>)
    requires TicksOk(cfg, ticks) && Populated(s.served)
    ensures Populated(AfterTicks(cfg, s, ticks).served)
  {
    if ticks == [] {
    } else {
      PopulatedStays(cfg, s, ticks[..|ticks| - 1]);
    }
  }

  /** ... not even when the snapshot on disk overrides the index the process was seeded with. */
  lemma SnapshotOverridesSeed(cfg: Config, lives: seq<Life>, l: Life)
    requires forall x :: x in lives ==> LifeOk(cfg, x)
    requires LifeOk(cfg, l)
    ensures var seeded := SeedNext(CrashNext(AfterLives(cfg, lives), l.diskLost), l.seed);
            Populated(seeded.served) ==> Populated(Booted(AfterLives(cfg, lives), l).served)
    ensures Booted(AfterLives(cfg, lives), l).served.Some? ==> Populated(Booted(AfterLives(cfg, lives), l).served)
  {
    ReachableSound(cfg, lives);
  }
}
