/** Crashes at any point of a run, and restarts during a total upstream outage. */
module Recovery {
  import opened Lists
  import opened Text
  import opened Source
  import opened Indexes
  import opened IndexReads
  import opened RoundTrip
  import opened Syncing
  import opened SyncRuns
  import opened Restart

  // ----- The disk keeps up with the last good rows -----

  /** An accepted fetch carries the source's own rows, at least one of which reaches the index. */
  ghost predicate HonestFetches(cfg: Config, fetches: Fetches) {
    forall n :: n in Accepted(cfg, fetches) ==>
      FromSource(n, fetches[n].outcome.rows) && Alive(cfg, fetches[n].outcome.rows)
  }

  ghost predicate AllAlive(cfg: Config, held: Rowsets) {
    forall n :: n in cfg.sources ==> Alive(cfg, HeldOf(held, n))
  }

  /** Both the served index and the snapshot show what the last good rows merge to. */
  ghost predicate InStep(cfg: Config, s: State) {
    && Distinct(cfg.sources) && Hygienic(cfg, s.held) && AllAlive(cfg, s.held)
    && s.disk.Some? && Records(cfg, s.disk.value, s.held)
    && s.served.Some? && View(s.served.value) == View(s.disk.value)
  }

  lemma HonestFetchKeeps(cfg: Config, held: Rowsets, fetches: Fetches)
    requires WellFormed(cfg, fetches) && HonestFetches(cfg, fetches)
    requires Hygienic(cfg, held) && AllAlive(cfg, held)
    ensures Hygienic(cfg, NextHeld(cfg, held, fetches)) && AllAlive(cfg, NextHeld(cfg, held, fetches))
    ensures Starved(cfg, NextHeld(cfg, held, fetches), fetches) == {}
  {
    var next := NextHeld(cfg, held, fetches);
    forall n | n in cfg.sources
      ensures FromSource(n, HeldOf(next, n)) && Alive(cfg, HeldOf(next, n)) && HeldOf(next, n) != []
    {
      NextHeldOf(cfg, held, fetches, n);
      assert n in Accepted(cfg, fetches) <==> Accepts(cfg, n, fetches[n].outcome);
    }
  }

  lemma NothingAccepted(cfg: Config, held: Rowsets, fetches: Fetches)
    requires Accepted(cfg, fetches) == {}
    ensures NextHeld(cfg, held, fetches) == held
  {}

  /** A merge recorded under one schedule is recorded under all of them. */
  lemma MergeRecords(cfg: Config, held: Rowsets, order: seq<string>)
    requires Distinct(cfg.sources) && Schedule(cfg, order)
    ensures Records(cfg, Merged(cfg, held, order), held)
  {
    BuiltValid(Surviving(cfg.exclude, Gathered(held, order)));
    ScheduleIrrelevant(cfg, held, order, cfg.sources);
  }

  /** With every source alive, a merge has a team unless there are no sources at all. */
  lemma AliveMergePopulated(cfg: Config, held: Rowsets, order: seq<string>)
    requires Schedule(cfg, order) && AllAlive(cfg, held) && cfg.sources != []
    ensures Merged(cfg, held, order).teams != map[]
  {
    var n := cfg.sources[0];
    assert Alive(cfg, HeldOf(held, n));
    var m :| m in HeldOf(held, n) && m.Usable() && m.Key() !in cfg.exclude;
    ContributionElems(cfg, held, n, m);
    MergedIsUnion(cfg, held, order, m);
    MemberExists(Surviving(cfg.exclude, Gathered(held, order)), m.team, m.Key());
    assert m.At(m.team, m.Key());
  }

  lemma NoSourcesNoTeams(cfg: Config, held: Rowsets, order: seq<string>)
    requires Schedule(cfg, order) && cfg.sources == []
    ensures Merged(cfg, held, order).teams == map[]
  {
    EmptyElems(order);
  }

  lemma TickInStep(cfg: Config, s: State, t: Tick)
    requires InStep(cfg, s) && TickOk(cfg, t) && HonestFetches(cfg, t.fetches) && t.saved
    ensures InStep(cfg, TickNext(cfg, s, t))
  {
    var held := NextHeld(cfg, s.held, t.fetches);
    HonestFetchKeeps(cfg, s.held, t.fetches);
    MergeRecords(cfg, held, t.order);
    if cfg.sources == [] {
      NoSourcesNoTeams(cfg, held, t.order);
    } else {
      AliveMergePopulated(cfg, held, t.order);
    }
    if Accepted(cfg, t.fetches) == {} {
      NothingAccepted(cfg, s.held, t.fetches);
    }
  }

  /** The first complete sync that reaches the disk brings everything in step. */
  lemma SavedSyncInStep(cfg: Config, s: State, t: Tick)
    requires TickOk(cfg, t) && t.saved && cfg.sources != [] && Accepted(cfg, t.fetches) != {}
    requires var held := NextHeld(cfg, s.held, t.fetches); Hygienic(cfg, held) && AllAlive(cfg, held)
    ensures InStep(cfg, TickNext(cfg, s, t))
  {
    var held := NextHeld(cfg, s.held, t.fetches);
    MergeRecords(cfg, held, t.order);
    AliveMergePopulated(cfg, held, t.order);
    forall n | n in cfg.sources ensures HeldOf(held, n) != [] {
      assert Alive(cfg, HeldOf(held, n));
    }
  }

  ghost predicate Honest(cfg: Config, ticks: seq<Tick>) {
    TicksOk(cfg, ticks) && forall t :: t in ticks ==> HonestFetches(cfg, t.fetches) && t.saved
  }

  lemma {:induction false} TicksInStep(cfg: Config, s: State, ticks: seq<Tick>)
    requires InStep(cfg, s) && Honest(cfg, ticks)
    ensures InStep(cfg, AfterTicks(cfg, s, ticks))
  {
    if ticks == [] {
    } else {
      var front, t := ticks[..|ticks| - 1], ticks[|ticks| - 1];
      assert t in ticks && forall x :: x in front ==> x in ticks;
      TicksInStep(cfg, s, front);
      TickInStep(cfg, AfterTicks(cfg, s, front), t);
    }
  }

  lemma {:induction false} TicksCompose(cfg: Config, s: State, before: seq<Tick>, after: seq<Tick>)
    requires TicksOk(cfg, before) && TicksOk(cfg, after)
    ensures TicksOk(cfg, before + after)
    ensures AfterTicks(cfg, s, before + after) == AfterTicks(cfg, AfterTicks(cfg, s, before), after)
  {
    if after == [] {
      assert before + after == before;
    } else {
      var front, t := after[..|after| - 1], after[|after| - 1];
      assert t in after;
      TicksCompose(cfg, s, before, front);
      assert (before + after)[..|before + after| - 1] == before + front;
      forall x | x in before + after ensures TickOk(cfg, x) {}
    }
  }

  /** The index a new process first serves: the snapshot if it can be read, otherwise a populated seed. */
  ghost function StartIndex(s: State, l: Life): Option<Index> {
    if !l.diskLost && l.readable && s.disk.Some? then s.disk
    else if l.seed.Some? && l.seed.value.teams != map[] then l.seed
    else None
  }

  /** The rows it first falls back on: the snapshot's over the seed's. */
  ghost function StartRows(s: State, l: Life): Rowsets {
    var seeded := if l.seed.Some? then BySource(Flatten(l.seed.value)) else map[];
    if !l.diskLost && l.readable && s.disk.Some? then seeded + BySource(Flatten(s.disk.value)) else seeded
  }

  lemma NothingToFlatten(idx: Index)
    requires Valid(idx) && idx.teams == map[]
    ensures BySource(Flatten(idx)) == map[]
  {
    forall m ensures m !in Flatten(idx) { FlattenElems(idx, m); }
    assert BySource(Flatten(idx)).Keys == {};
  }

  lemma SeededIs(s: State, l: Life)
    requires l.seed.Some? ==> Valid(l.seed.value)
    ensures var seeded := SeedNext(CrashNext(s, l.diskLost), l.seed);
            && seeded.held == (if l.seed.Some? then BySource(Flatten(l.seed.value)) else map[])
            && seeded.served == (if l.seed.Some? && l.seed.value.teams != map[] then l.seed else None)
            && seeded.disk == if l.diskLost then None else s.disk
  {
    if l.seed.Some? {
      if l.seed.value.teams == map[] {
        NothingToFlatten(l.seed.value);
      } else {
        RestoredFromNothing(s, l.seed.value, l.diskLost);
      }
    }
  }

  lemma BootedIs(s: State, l: Life)
    requires l.seed.Some? ==> Valid(l.seed.value)
    ensures Booted(s, l).served == StartIndex(s, l) && Booted(s, l).held == StartRows(s, l)
    ensures Booted(s, l).disk == if l.diskLost then None else s.disk
  {
    SeededIs(s, l);
    var seeded := SeedNext(CrashNext(s, l.diskLost), l.seed);
    assert Booted(s, l) == LoadNext(seeded, l.readable);
  }

  /** Whatever the new process starts from records the last good rows; a snapshot that is in step does. */
  ghost predicate StartsFromRecord(cfg: Config, s: State, l: Life) {
    if !l.diskLost && l.readable then true
    else l.seed.Some? && l.seed.value.teams != map[] && Records(cfg, l.seed.value, s.held)
  }

  /** Rows seeded before the snapshot was loaded do not show: the snapshot covers every source. */
  lemma SnapshotCovers(cfg: Config, s: State, idx: Index, held: Rowsets, n: string)
    requires InStep(cfg, s) && Records(cfg, idx, s.held) && n in cfg.sources
    ensures HeldOf(held + BySource(Flatten(idx)), n) == HeldOf(BySource(Flatten(idx)), n)
  {
    assert Alive(cfg, HeldOf(s.held, n));
    FallbackIff(cfg, s.held, idx, n);
    assert n in BySource(Flatten(idx));
  }

  lemma RestoredTwin(cfg: Config, s: State, idx: Index, before: State)
    requires InStep(cfg, s) && Records(cfg, idx, s.held)
    ensures Twins(cfg, s, Restored(before, idx))
  {
    var held := BySource(Flatten(idx));
    RestartTwins(cfg, s, idx, State(held, map[], Some(idx), None));
    forall n | n in cfg.sources
      ensures SameProvenance(Contribution(cfg, s.held, n), Contribution(cfg, before.held + held, n))
      ensures HeldOf(s.held, n) == [] <==> HeldOf(before.held + held, n) == []
    {
      SnapshotCovers(cfg, s, idx, before.held, n);
      assert SameProvenance(Contribution(cfg, s.held, n), Contribution(cfg, held, n));
    }
  }

  lemma BootedTwin(cfg: Config, s: State, l: Life)
    requires InStep(cfg, s) && StartsFromRecord(cfg, s, l)
    ensures Twins(cfg, s, Booted(s, l))
  {
    var seeded := SeedNext(CrashNext(s, l.diskLost), l.seed);
    assert seeded.disk == if l.diskLost then None else s.disk;
    if !l.diskLost && l.readable {
      RestoredTwin(cfg, s, s.disk.value, seeded);
    } else {
      RestoredTwin(cfg, s, l.seed.value, CrashNext(s, l.diskLost));
      assert Booted(s, l) == seeded;
    }
  }

  /**
   Crash anywhere. From a state in which disk and memory are in step, run any number of honest
   syncs whose snapshots reach the disk, crash, start again - from the disk whatever was seeded before
   it, or from a seed alone that records as much - and run on: every sync after the restart serves the
   provenance it would have served without the crash.
   */
  lemma CrashAnywhere(cfg: Config, s: State, before: seq<Tick>, l: Life, after: seq<Tick>, after': seq<Tick>)
    requires InStep(cfg, s) && Honest(cfg, before) && Parallel(cfg, after, after')
    requires StartsFromRecord(cfg, AfterTicks(cfg, s, before), l)
    ensures TicksOk(cfg, before + after)
    ensures var uncrashed := AfterTicks(cfg, s, before + after);
            var restarted := AfterTicks(cfg, Booted(AfterTicks(cfg, s, before), l), after');
            && uncrashed.served.Some? && restarted.served.Some?
            && View(uncrashed.served.value) == View(restarted.served.value)
  {
    var mid := AfterTicks(cfg, s, before);
    TicksInStep(cfg, s, before);
    TicksCompose(cfg, s, before, after);
    BootedTwin(cfg, mid, l);
    TwinsForever(cfg, mid, Booted(mid, l), after, after');
  }

  // ----- Restarting while every upstream is down -----

  /** No member of the index is excluded, and all its sources are still configured. */
  ghost predicate StillConfigured(cfg: Config, idx: Index) {
    forall t, k :: idx.Has(t, k) ==> k !in cfg.exclude && Elems(idx.At(t, k).sources) <= Elems(cfg.sources)
  }

  lemma RowStillConfigured(cfg: Config, idx: Index, r: Membership)
    requires StillConfigured(cfg, idx) && RowOf(idx, r)
    ensures r.Key() !in cfg.exclude && r.source in cfg.sources
  {
    assert r.source in Elems(idx.At(r.team, r.Key()).sources);
    assert r.source in Elems(cfg.sources);
  }

  /** The rows a source falls back on when every source fails. */
  lemma StartRowsOf(s: State, l: Life, n: string)
    requires StartIndex(s, l).Some?
    ensures var base := BySource(Flatten(StartIndex(s, l).value));
            HeldOf(StartRows(s, l), n) ==
            if n in base then HeldOf(base, n)
            else if l.seed.Some? then HeldOf(BySource(Flatten(l.seed.value)), n) else []
  {}

  /** Some configured source has rows that get through in the seed, but is not in the index the process starts from. */
  ghost predicate SeedAdds(cfg: Config, s: State, l: Life)
    requires StartIndex(s, l).Some?
  {
    exists n :: n in cfg.sources && n !in BySource(Flatten(StartIndex(s, l).value))
      && l.seed.Some? && Alive(cfg, HeldOf(BySource(Flatten(l.seed.value)), n))
  }

  /** A row of the index the process starts from takes part in the merge. */
  lemma StartRowMerged(cfg: Config, s: State, l: Life, order: seq<string>, r: Membership)
    requires StartIndex(s, l).Some? && Valid(StartIndex(s, l).value) && Schedule(cfg, order)
    requires StillConfigured(cfg, StartIndex(s, l).value) && r in Flatten(StartIndex(s, l).value)
    ensures r in Surviving(cfg.exclude, Gathered(StartRows(s, l), order))
  {
    var idx := StartIndex(s, l).value;
    FlattenElems(idx, r);
    RowStillConfigured(cfg, idx, r);
    RowsFromElems(Flatten(idx), r.source, r);
    StartRowsOf(s, l, r.source);
    ContributionElems(cfg, StartRows(s, l), r.source, r);
    MergedIsUnion(cfg, StartRows(s, l), order, r);
  }

  /** Any other row of the merge is one the seed adds. */
  lemma OtherRowMerged(cfg: Config, s: State, l: Life, order: seq<string>, r: Membership)
    requires StartIndex(s, l).Some? && Schedule(cfg, order) && (l.seed.Some? ==> Valid(l.seed.value))
    requires r in Surviving(cfg.exclude, Gathered(StartRows(s, l), order)) && r !in Flatten(StartIndex(s, l).value)
    ensures SeedAdds(cfg, s, l)
  {
    var idx := StartIndex(s, l).value;
    MergedIsUnion(cfg, StartRows(s, l), order, r);
    var n :| n in cfg.sources && r in Contribution(cfg, StartRows(s, l), n);
    ContributionElems(cfg, StartRows(s, l), n, r);
    StartRowsOf(s, l, n);
    RowsFromElems(Flatten(idx), n, r);
    var seed := l.seed.value;
    RowsFromElems(Flatten(seed), n, r);
    FlattenElems(seed, r);
    assert ValidMember(r.team, r.Key(), seed.At(r.team, r.Key()));
    assert Alive(cfg, HeldOf(BySource(Flatten(seed)), n));
  }

  lemma SeedRowMerged(cfg: Config, s: State, l: Life, order: seq<string>, n: string, m: Membership)
    requires StartIndex(s, l).Some? && Schedule(cfg, order) && l.seed.Some?
    requires n in cfg.sources && n !in BySource(Flatten(StartIndex(s, l).value))
    requires m in HeldOf(BySource(Flatten(l.seed.value)), n) && m.Key() !in cfg.exclude
    ensures m in Surviving(cfg.exclude, Gathered(StartRows(s, l), order)) && m.source == n
  {
    RowsFromElems(Flatten(l.seed.value), n, m);
    StartRowsOf(s, l, n);
    ContributionElems(cfg, StartRows(s, l), n, m);
    MergedIsUnion(cfg, StartRows(s, l), order, m);
  }

  /** What the seed adds is a row of the merge. */
  lemma AddedRow(cfg: Config, s: State, l: Life, order: seq<string>) returns (m: Membership)
    requires StartIndex(s, l).Some? && Schedule(cfg, order) && SeedAdds(cfg, s, l)
    ensures m in Surviving(cfg.exclude, Gathered(StartRows(s, l), order)) && m.Usable()
    ensures m.source !in BySource(Flatten(StartIndex(s, l).value))
  {
    var n :| n in cfg.sources && n !in BySource(Flatten(StartIndex(s, l).value))
             && Alive(cfg, HeldOf(BySource(Flatten(l.seed.value)), n));
    m :| m in HeldOf(BySource(Flatten(l.seed.value)), n) && m.Usable() && m.Key() !in cfg.exclude;
    SeedRowMerged(cfg, s, l, order, n, m);
  }

  lemma RowShows(rows: seq<Membership>, m: Membership)
    requires m in rows && m.Usable()
    ensures Built(rows).Has(m.team, m.Key()) && m.source in Built(rows).At(m.team, m.Key()).sources
    ensures Built(rows).teams != map[]
  {
    assert m.At(m.team, m.Key());
    MemberExists(rows, m.team, m.Key());
    SortedMember(SourcesAt(rows, m.team, m.Key()), m.source);
    assert m.team in Built(rows).teams;
  }

  /** It shows in the merge, and not in the index the process started from. */
  lemma AddedSourceShows(cfg: Config, s: State, l: Life, order: seq<string>)
    requires StartIndex(s, l).Some? && Valid(StartIndex(s, l).value) && Schedule(cfg, order) && SeedAdds(cfg, s, l)
    ensures Merged(cfg, StartRows(s, l), order) != StartIndex(s, l).value
    ensures Merged(cfg, StartRows(s, l), order).teams != map[]
  {
    var m := AddedRow(cfg, s, l, order);
    RowShows(Surviving(cfg.exclude, Gathered(StartRows(s, l), order)), m);
    if Merged(cfg, StartRows(s, l), order) == StartIndex(s, l).value {
      SourceFlattens(StartIndex(s, l).value, m.team, m.Key(), m.source);
      assert false;
    }
  }

  /** A source of some member has a row in the flattened index. */
  lemma SourceFlattens(idx: Index, t: string, k: string, n: string)
    requires Valid(idx) && idx.Has(t, k) && n in idx.At(t, k).sources
    ensures n in BySource(Flatten(idx))
  {
    var x := idx.At(t, k);
    assert ValidMember(t, k, x);
    var row := Membership(x.handle, t, n, if n == GITHUB_ORG && x.orgs != [] then x.orgs[0] else "", x.name);
    assert RowOf(idx, row);
    FlattenElems(idx, row);
  }

  /** What the first sync of a new process merges when every source fails. */
  lemma OutageMergeIff(cfg: Config, s: State, l: Life, order: seq<string>)
    requires StartIndex(s, l).Some? && Schedule(cfg, order) && (l.seed.Some? ==> Valid(l.seed.value))
    requires var idx := StartIndex(s, l).value; Valid(idx) && OrgsCarried(idx) && StillConfigured(cfg, idx)
    ensures Merged(cfg, StartRows(s, l), order) == StartIndex(s, l).value <==> !SeedAdds(cfg, s, l)
    ensures SeedAdds(cfg, s, l) ==> Merged(cfg, StartRows(s, l), order).teams != map[]
  {
    if SeedAdds(cfg, s, l) {
      AddedSourceShows(cfg, s, l, order);
    } else {
      var idx := StartIndex(s, l).value;
      var rows := Surviving(cfg.exclude, Gathered(StartRows(s, l), order));
      forall r ensures r in rows <==> r in Flatten(idx) {
        if r in Flatten(idx) { StartRowMerged(cfg, s, l, order, r); }
        if r in rows && r !in Flatten(idx) { OtherRowMerged(cfg, s, l, order, r); }
      }
      assert Elems(rows) == Elems(Flatten(idx));
      FlattenRoundTrip(idx, rows);
    }
  }

  /**
   A restart in which every source fails, from the snapshot, from a seed, or from one over the other. It
   goes on serving exactly the index it started from - names and casing included - as long as exclusions
   and sources still cover that index, if and only if some source has nothing to fall back on, or the seed
   adds no source the index lacks. The disk stays as it was.
   */
  lemma OutageServesStartIff(cfg: Config, s: State, l: Life, t: Tick)
    requires TickOk(cfg, t) && Accepted(cfg, t.fetches) == {} && (l.seed.Some? ==> Valid(l.seed.value))
    requires StartIndex(s, l).Some?
    requires var idx := StartIndex(s, l).value; Valid(idx) && OrgsCarried(idx) && StillConfigured(cfg, idx)
    ensures var s' := TickNext(cfg, Booted(s, l), t);
            && (s'.served == StartIndex(s, l) <==>
                  (exists n :: n in cfg.sources && HeldOf(StartRows(s, l), n) == []) || !SeedAdds(cfg, s, l))
            && s'.disk == if l.diskLost then None else s.disk
  {
    var booted := Booted(s, l);
    BootedIs(s, l);
    NothingAccepted(cfg, booted.held, t.fetches);
    OutageMergeIff(cfg, s, l, t.order);
    TickServes(cfg, booted, t);
    if n :| n in cfg.sources && HeldOf(StartRows(s, l), n) == [] {
      assert n in Starved(cfg, booted.held, t.fetches);
    }
  }

  /** With no seed, or no snapshot to read, there is nothing to add: the snapshot, or the seed, is served. */
  lemma OutageServesSnapshot(cfg: Config, s: State, l: Life, t: Tick)
    requires TickOk(cfg, t) && Accepted(cfg, t.fetches) == {} && (l.seed.Some? ==> Valid(l.seed.value))
    requires StartIndex(s, l).Some? && (l.seed == None || StartIndex(s, l) == l.seed)
    requires var idx := StartIndex(s, l).value; Valid(idx) && OrgsCarried(idx) && StillConfigured(cfg, idx)
    ensures TickNext(cfg, Booted(s, l), t).served == StartIndex(s, l)
  {
    OutageServesStartIff(cfg, s, l, t);
  }
}
