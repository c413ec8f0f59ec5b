/**
 Crash and restart: a syncer that recovers from a snapshot serves, after every later sync, the
 same provenance as one that never crashed.
 */
module Restart {
  import opened Lists
  import opened Source
  import opened Indexes
  import opened IndexReads
  import opened Syncing
  import opened SyncRuns

  // ----- What one source contributes -----

  ghost function Contribution(cfg: Config, held: Rowsets, n: string): seq<Membership> {
    Surviving(cfg.exclude, HeldOf(held, n))
  }

  /** Each configured source's rows carry its own name, and orgs only if it is github-org. */
  ghost predicate Hygienic(cfg: Config, held: Rowsets) {
    forall n :: n in cfg.sources ==> FromSource(n, HeldOf(held, n))
  }

  /** The source has a row that reaches the index. */
  ghost predicate Alive(cfg: Config, rows: seq<Membership>) {
    exists m :: m in rows && m.Usable() && m.Key() !in cfg.exclude
  }

  lemma ContributionElems(cfg: Config, held: Rowsets, n: string, m: Membership)
    ensures m in Contribution(cfg, held, n) <==> m in HeldOf(held, n) && m.Key() !in cfg.exclude
  {
    SurvivingElems(cfg.exclude, HeldOf(held, n), m);
  }

  /** The merged rows are the union of the contributions, whatever the schedule. */
  lemma MergedIsUnion(cfg: Config, held: Rowsets, order: seq<string>, m: Membership)
    requires Schedule(cfg, order)
    ensures m in Surviving(cfg.exclude, Gathered(held, order)) <==>
            exists n :: n in cfg.sources && m in Contribution(cfg, held, n)
  {
    MergedRows(cfg, held, order, m);
    if n :| n in order && m in HeldOf(held, n) {
      ContributionElems(cfg, held, n, m);
      assert n in Elems(order);
      if m.Key() !in cfg.exclude { assert n in cfg.sources && m in Contribution(cfg, held, n); }
    }
    if n :| n in cfg.sources && m in Contribution(cfg, held, n) {
      ContributionElems(cfg, held, n, m);
      assert n in Elems(cfg.sources);
      assert n in order && m in HeldOf(held, n);
    }
  }

  /** With the same contributions, what one merge has at (t, k) the other has too. */
  lemma UnionWithin(cfg: Config, held: Rowsets, held': Rowsets, order: seq<string>, order': seq<string>,
                    t: string, k: string)
    requires Schedule(cfg, order) && Schedule(cfg, order')
    requires forall n :: n in cfg.sources ==>
               SamePresence(Contribution(cfg, held, n), Contribution(cfg, held', n), t, k)
    ensures var ms := Surviving(cfg.exclude, Gathered(held, order));
            var ns := Surviving(cfg.exclude, Gathered(held', order'));
            && (Built(ms).Has(t, k) ==> Built(ns).Has(t, k))
            && SourcesAt(ms, t, k) <= SourcesAt(ns, t, k)
            && OrgsAt(ms, t, k) <= OrgsAt(ns, t, k)
  {
    var ms, ns := Surviving(cfg.exclude, Gathered(held, order)), Surviving(cfg.exclude, Gathered(held', order'));
    MemberExists(ms, t, k);
    MemberExists(ns, t, k);
    forall m | m in ms && m.At(t, k)
      ensures exists m' :: m' in ns && m'.At(t, k)
      ensures m.source in SourcesAt(ns, t, k)
      ensures m.org != "" ==> m.org in OrgsAt(ns, t, k)
    {
      MergedIsUnion(cfg, held, order, m);
      var n :| n in cfg.sources && m in Contribution(cfg, held, n);
      assert SamePresence(Contribution(cfg, held, n), Contribution(cfg, held', n), t, k);
      assert m.source in SourcesAt(Contribution(cfg, held, n), t, k);
      var w :| w in Contribution(cfg, held', n) && w.At(t, k) && w.source == m.source;
      MergedIsUnion(cfg, held', order', w);
      if m.org != "" {
        assert m.org in OrgsAt(Contribution(cfg, held, n), t, k);
        var v :| v in Contribution(cfg, held', n) && v.At(t, k) && v.org != "" && v.org == m.org;
        MergedIsUnion(cfg, held', order', v);
      }
    }
  }

  ghost predicate SameContributions(cfg: Config, held: Rowsets, held': Rowsets) {
    forall n :: n in cfg.sources ==> SameProvenance(Contribution(cfg, held, n), Contribution(cfg, held', n))
  }

  /** Sources with the same contributions merge to the same provenance, under any two schedules. */
  lemma SameMerge(cfg: Config, held: Rowsets, held': Rowsets, order: seq<string>, order': seq<string>)
    requires Schedule(cfg, order) && Schedule(cfg, order') && SameContributions(cfg, held, held')
    ensures View(Merged(cfg, held, order)) == View(Merged(cfg, held', order'))
  {
    var ms, ns := Surviving(cfg.exclude, Gathered(held, order)), Surviving(cfg.exclude, Gathered(held', order'));
    forall t, k ensures SamePresence(ms, ns, t, k) {
      forall n | n in cfg.sources
        ensures SamePresence(Contribution(cfg, held, n), Contribution(cfg, held', n), t, k)
        ensures SamePresence(Contribution(cfg, held', n), Contribution(cfg, held, n), t, k)
      {
        assert SameProvenance(Contribution(cfg, held, n), Contribution(cfg, held', n));
      }
      UnionWithin(cfg, held, held', order, order', t, k);
      UnionWithin(cfg, held', held, order', order, t, k);
    }
    ViewIffProvenance(ms, ns);
  }

  // ----- What a source's rows become through a snapshot -----

  /** A source's contribution can be read off the merged rows, because rows carry their source's name. */
  lemma ContributionFromMerge(cfg: Config, held: Rowsets, order: seq<string>, n: string, t: string, k: string)
    requires Schedule(cfg, order) && Hygienic(cfg, held) && n in cfg.sources
    ensures var ms, c := Surviving(cfg.exclude, Gathered(held, order)), Contribution(cfg, held, n);
            && (Built(c).Has(t, k) <==> n in SourcesAt(ms, t, k))
            && SourcesAt(c, t, k) == (if n in SourcesAt(ms, t, k) then {n} else {})
            && OrgsAt(c, t, k) == (if n == GITHUB_ORG then OrgsAt(ms, t, k) else {})
  {
    var ms, c := Surviving(cfg.exclude, Gathered(held, order)), Contribution(cfg, held, n);
    MemberExists(c, t, k);
    forall m ensures m in c ==> m in ms && m.source == n && (m.org != "" ==> n == GITHUB_ORG) {
      ContributionElems(cfg, held, n, m);
      MergedIsUnion(cfg, held, order, m);
    }
    forall m | m in ms && (m.source == n || (m.org != "" && n == GITHUB_ORG)) ensures m in c {
      MergedIsUnion(cfg, held, order, m);
      var w :| w in cfg.sources && m in Contribution(cfg, held, w);
      ContributionElems(cfg, held, w, m);
    }
    ContributionSources(c, ms, n, t, k);
    if n == GITHUB_ORG {
      forall o ensures o in OrgsAt(c, t, k) <==> o in OrgsAt(ms, t, k) {
        if o in OrgsAt(ms, t, k) {
          var m :| m in ms && m.At(t, k) && m.org != "" && m.org == o;
          assert m in c;
        }
      }
    }
  }

  lemma ContributionSources(c: seq<Membership>, ms: seq<Membership>, n: string, t: string, k: string)
    requires forall m :: m in c ==> m in ms && m.source == n
    requires forall m :: m in ms && m.source == n ==> m in c
    ensures (exists m :: m in c && m.At(t, k)) <==> n in SourcesAt(ms, t, k)
    ensures SourcesAt(c, t, k) == (if n in SourcesAt(ms, t, k) then {n} else {})
  {
    if n in SourcesAt(ms, t, k) {
      var m :| m in ms && m.At(t, k) && m.source == n;
      assert m in c;
    }
  }

  /** The rows restored for a source, straight from the index they were restored from. */
  lemma RestoredContribution(cfg: Config, idx: Index, c: seq<Membership>, n: string, t: string, k: string)
    requires Valid(idx) && (idx.Has(t, k) ==> k !in cfg.exclude)
    requires forall m :: m in c <==> RowOf(idx, m) && m.source == n && m.Key() !in cfg.exclude
    ensures var present := idx.Has(t, k) && n in idx.At(t, k).sources;
            && (Built(c).Has(t, k) <==> present)
            && SourcesAt(c, t, k) == (if present then {n} else {})
            && OrgsAt(c, t, k) == (if present && n == GITHUB_ORG then Elems(idx.At(t, k).orgs) else {})
  {
    MemberExists(c, t, k);
    if idx.Has(t, k) && n in idx.At(t, k).sources {
      var x := idx.At(t, k);
      assert ValidMember(t, k, x);
      var row := Membership(x.handle, t, n, if n == GITHUB_ORG && x.orgs != [] then x.orgs[0] else "", x.name);
      assert RowOf(idx, row) && row in c && row.At(t, k);
      RestoredOrgs(cfg, idx, c, n, t, k);
    }
  }

  lemma RestoredOrgs(cfg: Config, idx: Index, c: seq<Membership>, n: string, t: string, k: string)
    requires Valid(idx) && k !in cfg.exclude
    requires forall m :: m in c <==> RowOf(idx, m) && m.source == n && m.Key() !in cfg.exclude
    requires idx.Has(t, k) && n in idx.At(t, k).sources
    ensures OrgsAt(c, t, k) == if n == GITHUB_ORG then Elems(idx.At(t, k).orgs) else {}
  {
    var x := idx.At(t, k);
    assert ValidMember(t, k, x);
    if n == GITHUB_ORG {
      forall o | o in x.orgs ensures o in OrgsAt(c, t, k) {
        var m := Membership(x.handle, t, n, o, x.name);
        assert RowOf(idx, m) && m in c && m.At(t, k);
      }
    }
  }

  lemma RestoredElems(cfg: Config, idx: Index, n: string, m: Membership)
    requires Valid(idx)
    ensures m in Contribution(cfg, BySource(Flatten(idx)), n) <==>
            RowOf(idx, m) && m.source == n && m.Key() !in cfg.exclude
  {
    var rows := Flatten(idx);
    ContributionElems(cfg, BySource(rows), n, m);
    RowsFromElems(rows, n, m);
    FlattenElems(idx, m);
  }

  /** The snapshot shows what the last good rows merge to. */
  ghost predicate Records(cfg: Config, idx: Index, held: Rowsets) {
    && Valid(idx)
    && View(idx) == View(Merged(cfg, held, cfg.sources))
  }

  lemma RecordedAt(cfg: Config, held: Rowsets, idx: Index, t: string, k: string)
    requires Records(cfg, idx, held)
    ensures var ms := Surviving(cfg.exclude, Gathered(held, cfg.sources));
            && (idx.Has(t, k) ==> k !in cfg.exclude && Elems(idx.At(t, k).sources) == SourcesAt(ms, t, k))
            && (idx.Has(t, k) ==> Elems(idx.At(t, k).orgs) == OrgsAt(ms, t, k))
            && (!idx.Has(t, k) ==> SourcesAt(ms, t, k) == {} == OrgsAt(ms, t, k))
  {
    var ms := Surviving(cfg.exclude, Gathered(held, cfg.sources));
    ViewGivesMember(idx, Built(ms), t, k);
    NothingAt(ms, t, k);
    if idx.Has(t, k) {
      MemberExists(ms, t, k);
      var m :| m in ms && m.At(t, k);
      SurvivingElems(cfg.exclude, Gathered(held, cfg.sources), m);
    }
  }

  /** Restoring a source from a snapshot that records its rows preserves its contribution. */
  lemma RestorePreserves(cfg: Config, held: Rowsets, idx: Index, n: string, t: string, k: string)
    requires Distinct(cfg.sources) && Hygienic(cfg, held) && Records(cfg, idx, held) && n in cfg.sources
    ensures SamePresence(Contribution(cfg, held, n), Contribution(cfg, BySource(Flatten(idx)), n), t, k)
  {
    var c := Contribution(cfg, BySource(Flatten(idx)), n);
    RecordedAt(cfg, held, idx, t, k);
    assert idx.Has(t, k) ==> (n in idx.At(t, k).sources <==> n in Elems(idx.At(t, k).sources));
    ContributionFromMerge(cfg, held, cfg.sources, n, t, k);
    forall m ensures m in c <==> RowOf(idx, m) && m.source == n && m.Key() !in cfg.exclude {
      RestoredElems(cfg, idx, n, m);
    }
    RestoredContribution(cfg, idx, c, n, t, k);
    OrgsNeedGithub(cfg, held, t, k);
  }

  lemma OrgsNeedGithub(cfg: Config, held: Rowsets, t: string, k: string)
    requires Distinct(cfg.sources) && Hygienic(cfg, held)
    ensures var ms := Surviving(cfg.exclude, Gathered(held, cfg.sources));
            OrgsAt(ms, t, k) != {} ==> GITHUB_ORG in SourcesAt(ms, t, k)
  {
    var ms := Surviving(cfg.exclude, Gathered(held, cfg.sources));
    if o :| o in OrgsAt(ms, t, k) {
      var m :| m in ms && m.At(t, k) && m.org != "" && m.org == o;
      MergedIsUnion(cfg, held, cfg.sources, m);
      var n :| n in cfg.sources && m in Contribution(cfg, held, n);
      ContributionElems(cfg, held, n, m);
    }
  }

  // ----- The simulation -----

  /** A syncer that never crashed and one that was restarted from a snapshot. */
  ghost predicate Twins(cfg: Config, s: State, s': State) {
    && SameContributions(cfg, s.held, s'.held)
    && (forall n :: n in cfg.sources ==> (HeldOf(s.held, n) == [] <==> HeldOf(s'.held, n) == []))
    && s.served.Some? && s'.served.Some? && View(s.served.value) == View(s'.served.value)
  }

  ghost predicate SameOutcomes(cfg: Config, t: Tick, t': Tick) {
    forall n :: n in cfg.sources && n in t.fetches && n in t'.fetches ==> t.fetches[n].outcome == t'.fetches[n].outcome
  }

  lemma TwinsFetch(cfg: Config, s: State, s': State, t: Tick, t': Tick)
    requires Twins(cfg, s, s') && TickOk(cfg, t) && TickOk(cfg, t') && SameOutcomes(cfg, t, t')
    ensures var h, h' := NextHeld(cfg, s.held, t.fetches), NextHeld(cfg, s'.held, t'.fetches);
            && SameContributions(cfg, h, h')
            && (forall n :: n in cfg.sources ==> (HeldOf(h, n) == [] <==> HeldOf(h', n) == []))
            && Accepted(cfg, t.fetches) == Accepted(cfg, t'.fetches)
            && Starved(cfg, h, t.fetches) == Starved(cfg, h', t'.fetches)
  {
    var h, h' := NextHeld(cfg, s.held, t.fetches), NextHeld(cfg, s'.held, t'.fetches);
    assert Accepted(cfg, t.fetches) == Accepted(cfg, t'.fetches);
    forall n | n in cfg.sources
      ensures SameProvenance(Contribution(cfg, h, n), Contribution(cfg, h', n))
      ensures HeldOf(h, n) == [] <==> HeldOf(h', n) == []
    {
      NextHeldOf(cfg, s.held, t.fetches, n);
      NextHeldOf(cfg, s'.held, t'.fetches, n);
      assert SameProvenance(Contribution(cfg, s.held, n), Contribution(cfg, s'.held, n));
    }
  }

  lemma SameViewSameTeams(idx: Index, other: Index)
    requires View(idx) == View(other)
    ensures idx.teams == map[] <==> other.teams == map[]
  {
    assert idx.teams.Keys == View(idx).Keys && other.teams.Keys == View(other).Keys;
    assert idx.teams == map[] <==> idx.teams.Keys == {};
    assert other.teams == map[] <==> other.teams.Keys == {};
  }

  ghost function Serves(served: Option<Index>, idx: Index, starving: bool): Option<Index> {
    if starving && served.Some? then served
    else if idx.teams != map[] || served.None? then Some(idx) else served
  }

  lemma TickServes(cfg: Config, s: State, t: Tick)
    requires TickOk(cfg, t)
    ensures var h := NextHeld(cfg, s.held, t.fetches);
            && TickNext(cfg, s, t).held == h
            && TickNext(cfg, s, t).served == Serves(s.served, Merged(cfg, h, t.order), Starved(cfg, h, t.fetches) != {})
  {}

  lemma TwinsTick(cfg: Config, s: State, s': State, t: Tick, t': Tick)
    requires Twins(cfg, s, s') && TickOk(cfg, t) && TickOk(cfg, t') && SameOutcomes(cfg, t, t')
    ensures Twins(cfg, TickNext(cfg, s, t), TickNext(cfg, s', t'))
  {
    var h, h' := NextHeld(cfg, s.held, t.fetches), NextHeld(cfg, s'.held, t'.fetches);
    var idx, idx' := Merged(cfg, h, t.order), Merged(cfg, h', t'.order);
    TickServes(cfg, s, t);
    TickServes(cfg, s', t');
    TwinsFetch(cfg, s, s', t, t');
    assert View(idx) == View(idx') by { SameMerge(cfg, h, h', t.order, t'.order); }
    SameViewSameTeams(idx, idx');
  }

  /** The same fetch outcomes, sync by sync; schedules and disk writes may differ. */
  ghost predicate Parallel(cfg: Config, ticks: seq<Tick>, ticks': seq<Tick>) {
    && TicksOk(cfg, ticks) && TicksOk(cfg, ticks') && |ticks| == |ticks'|
    && forall i :: 0 <= i < |ticks| ==> SameOutcomes(cfg, ticks[i], ticks'[i])
  }

  lemma {:induction false} TwinsForever(cfg: Config, s: State, s': State, ticks: seq<Tick>, ticks': seq<Tick>)
    requires Twins(cfg, s, s') && Parallel(cfg, ticks, ticks')
    ensures Twins(cfg, AfterTicks(cfg, s, ticks), AfterTicks(cfg, s', ticks'))
  {
    if ticks == [] {
    } else {
      var i := |ticks| - 1;
      assert ticks[i] in ticks && ticks'[i] in ticks';
      TwinsForever(cfg, s, s', ticks[..i], ticks'[..i]);
      TwinsTick(cfg, AfterTicks(cfg, s, ticks[..i]), AfterTicks(cfg, s', ticks'[..i]), ticks[i], ticks'[i]);
    }
  }

  lemma AliveBuilt(cfg: Config, held: Rowsets, n: string)
    ensures Alive(cfg, HeldOf(held, n)) <==> exists t, k :: Built(Contribution(cfg, held, n)).Has(t, k)
  {
    var c := Contribution(cfg, held, n);
    if m :| m in HeldOf(held, n) && m.Usable() && m.Key() !in cfg.exclude {
      ContributionElems(cfg, held, n, m);
      MemberExists(c, m.team, m.Key());
      assert m.At(m.team, m.Key());
    }
    if t, k :| Built(c).Has(t, k) {
      MemberExists(c, t, k);
      var m :| m in c && m.At(t, k);
      ContributionElems(cfg, held, n, m);
    }
  }

  /** Restored rows are usable and not excluded, so a source that has any is alive. */
  lemma RestoredAlive(cfg: Config, held: Rowsets, idx: Index, n: string)
    requires Records(cfg, idx, held)
    ensures HeldOf(BySource(Flatten(idx)), n) != [] <==> Alive(cfg, HeldOf(BySource(Flatten(idx)), n))
  {
    var rows := HeldOf(BySource(Flatten(idx)), n);
    if rows != [] {
      var m := rows[0];
      RowsFromElems(Flatten(idx), n, m);
      FlattenElems(idx, m);
      RecordedAt(cfg, held, idx, m.team, m.Key());
      assert ValidMember(m.team, m.Key(), idx.At(m.team, m.Key()));
      assert m in rows;
    }
  }

  /** A source has rows to fall back on after a restart exactly when a row of it had reached the snapshot. */
  lemma FallbackIff(cfg: Config, held: Rowsets, idx: Index, n: string)
    requires Distinct(cfg.sources) && Hygienic(cfg, held) && Records(cfg, idx, held) && n in cfg.sources
    ensures HeldOf(BySource(Flatten(idx)), n) != [] <==> Alive(cfg, HeldOf(held, n))
  {
    var restored := BySource(Flatten(idx));
    RestoredAlive(cfg, held, idx, n);
    forall t, k ensures SamePresence(Contribution(cfg, held, n), Contribution(cfg, restored, n), t, k) {
      RestorePreserves(cfg, held, idx, n, t, k);
    }
    SameAlive(cfg, held, restored, n);
  }

  lemma SameAlive(cfg: Config, held: Rowsets, held': Rowsets, n: string)
    requires SameProvenance(Contribution(cfg, held, n), Contribution(cfg, held', n))
    ensures Alive(cfg, HeldOf(held, n)) <==> Alive(cfg, HeldOf(held', n))
  {
    AliveBuilt(cfg, held, n);
    AliveBuilt(cfg, held', n);
    if t, k :| Built(Contribution(cfg, held, n)).Has(t, k) {
      assert SamePresence(Contribution(cfg, held, n), Contribution(cfg, held', n), t, k);
    }
    if t, k :| Built(Contribution(cfg, held', n)).Has(t, k) {
      assert SamePresence(Contribution(cfg, held, n), Contribution(cfg, held', n), t, k);
    }
  }

  lemma RestorePreservesAll(cfg: Config, held: Rowsets, idx: Index)
    requires Distinct(cfg.sources) && Hygienic(cfg, held) && Records(cfg, idx, held)
    ensures SameContributions(cfg, held, BySource(Flatten(idx)))
  {
    forall n | n in cfg.sources
      ensures SameProvenance(Contribution(cfg, held, n), Contribution(cfg, BySource(Flatten(idx)), n))
    {
      forall t, k ensures SamePresence(Contribution(cfg, held, n), Contribution(cfg, BySource(Flatten(idx)), n), t, k) {
        RestorePreserves(cfg, held, idx, n, t, k);
      }
    }
  }

  lemma RestartTwins(cfg: Config, s: State, idx: Index, s': State)
    requires Distinct(cfg.sources) && Hygienic(cfg, s.held) && Records(cfg, idx, s.held)
    requires s.served.Some? && View(s.served.value) == View(idx)
    requires forall n :: n in cfg.sources && HeldOf(s.held, n) != [] ==> Alive(cfg, HeldOf(s.held, n))
    requires s'.held == BySource(Flatten(idx)) && s'.served == Some(idx)
    ensures Twins(cfg, s, s')
  {
    RestorePreservesAll(cfg, s.held, idx);
    forall n | n in cfg.sources ensures HeldOf(s.held, n) == [] <==> HeldOf(s'.held, n) == [] {
      FallbackIff(cfg, s.held, idx, n);
    }
  }

  lemma RestoredFromNothing(s: State, idx: Index, diskLost: bool)
    ensures Restored(CrashNext(s, diskLost), idx).held == BySource(Flatten(idx))
    ensures Restored(CrashNext(s, diskLost), idx).served == Some(idx)
  {
    FromNothing(BySource(Flatten(idx)));
  }

  lemma FromNothing(held: Rowsets)
    ensures map[] + held == held
  {}

  /**
   Crash-restart simulation. Let the snapshot record the last good rows, each non-empty list of
   which has a row that reaches the index. Then the syncer restarted from the snapshot and the one
   that never crashed serve the same provenance after every later sequence of the same fetch
   outcomes, whatever the schedules and disk writes on either side.
   */
  lemma RestartIsInvisible(cfg: Config, s: State, idx: Index, diskLost: bool, ticks: seq<Tick>, ticks': seq<Tick>)
    requires Distinct(cfg.sources) && Hygienic(cfg, s.held) && Records(cfg, idx, s.held)
    requires s.served.Some? && View(s.served.value) == View(idx)
    requires forall n :: n in cfg.sources && HeldOf(s.held, n) != [] ==> Alive(cfg, HeldOf(s.held, n))
    requires Parallel(cfg, ticks, ticks')
    ensures var a, b := AfterTicks(cfg, s, ticks), AfterTicks(cfg, Restored(CrashNext(s, diskLost), idx), ticks');
            a.served.Some? && b.served.Some? && View(a.served.value) == View(b.served.value)
  {
    var s' := Restored(CrashNext(s, diskLost), idx);
    RestoredFromNothing(s, idx, diskLost);
    RestartTwins(cfg, s, idx, s');
    TwinsForever(cfg, s, s', ticks, ticks');
  }
}
