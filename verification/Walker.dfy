/** The paced walk of internal/keys/keys.go: when fetches start, over any number of passes. */
module Walker {
  import opened Lists
  import opened Keys

  /** Durations are in nanoseconds; `minDelay` is the inverse of the request ceiling. */
  datatype Pacing = Pacing(refreshInterval: nat, minDelay: nat)

  const IDLE: nat := 60_000_000_000

  function Max(a: nat, b: nat): nat {
    if a < b then b else a
  }

  /** paceFor: the handle set spread over the refresh interval, never above the request ceiling. */
  function PaceFor(p: Pacing, n: nat): (delay: nat)
    ensures delay >= p.minDelay
  {
    if n == 0 then p.minDelay else Max(p.refreshInterval / n, p.minDelay)
  }

  // ----- Passes -----

  /** One handle's turn: how long its fetch and its timer's lateness take, and how the fetch ends. */
  datatype Visit = Visit(handle: string, took: nat, result: Result, written: bool)

  datatype Start = Start(handle: string, at: nat)

  datatype Walk = Walk(clock: nat, warmed: bool, starts: seq<Start>)

  function Handles(visits: seq<Visit>): seq<string> {
    seq(|visits|, i requires 0 <= i < |visits| => visits[i].handle)
  }

  /** The delay a pass uses: the request ceiling alone while warming, the steady pace afterwards. */
  function DelayOf(p: Pacing, warmed: bool, n: nat): (delay: nat)
    ensures delay >= p.minDelay
  {
    if warmed then PaceFor(p, n) else p.minDelay
  }

  /** Fetch, then sleep, for each of the first handles of a pass. */
  ghost function Fetched(w: Walk, delay: nat, visits: seq<Visit>): Walk {
    if visits == [] then w
    else
      var before, v := Fetched(w, delay, visits[..|visits| - 1]), visits[|visits| - 1];
      before.(starts := before.starts + [Start(v.handle, before.clock)], clock := before.clock + v.took + delay)
  }

  ghost function AfterPass(p: Pacing, w: Walk, pass: seq<Visit>): Walk {
    if pass == [] then w.(warmed := true, clock := w.clock + IDLE)
    else Fetched(w, DelayOf(p, w.warmed, |pass|), pass).(warmed := true)
  }

  ghost function AfterPasses(p: Pacing, w: Walk, passes: seq<seq<Visit>>): Walk {
    if passes == [] then w
    else AfterPass(p, AfterPasses(p, w, passes[..|passes| - 1]), passes[|passes| - 1])
  }

  /** What the fetches of a pass do to the cache. */
  ghost function FetchEvents(w: Walk, delay: nat, visits: seq<Visit>): seq<Event> {
    if visits == [] then []
    else
      var front, v := visits[..|visits| - 1], visits[|visits| - 1];
      FetchEvents(w, delay, front) + [Keys.Fetch(v.handle, Fetched(w, delay, front).clock, v.result, v.written)]
  }

  ghost function PassEvents(p: Pacing, w: Walk, pass: seq<Visit>, stuck: set<string>): seq<Event> {
    [Keys.Prune(Handles(pass), stuck)] + FetchEvents(w, DelayOf(p, w.warmed, |pass|), pass)
  }

  lemma PassEventsSnoc(prune: Event, w: Walk, delay: nat, visits: seq<Visit>, i: nat, s: State)
    requires i < |visits|
    ensures var v := visits[i];
            Run(s, [prune] + FetchEvents(w, delay, visits[..i + 1])) ==
            Next(Run(s, [prune] + FetchEvents(w, delay, visits[..i])),
                 Keys.Fetch(v.handle, Fetched(w, delay, visits[..i]).clock, v.result, v.written))
  {
    var front, all := FetchEvents(w, delay, visits[..i]), FetchEvents(w, delay, visits[..i + 1]);
    assert visits[..i + 1][..i] == visits[..i];
    assert ([prune] + all)[..|[prune] + all| - 1] == [prune] + front;
  }

  /** With nothing to fetch the walker is warm at once, and looks again after a minute. */
  lemma EmptyPass(p: Pacing, w: Walk)
    ensures AfterPass(p, w, []) == Walk(w.clock + 60 * 1_000_000_000, true, w.starts)
  {}

  // ----- The walker object: one iteration of the walk loop -----

  class WalkerState {
    const pacing: Pacing
    const cache: Cache
    var clock: nat
    var lastCycle: nat
    var pace: nat
    ghost var starts: seq<Start>

    constructor (pacing: Pacing, cache: Cache)
      ensures this.pacing == pacing && this.cache == cache && clock == 0 && starts == []
    {
      this.pacing, this.cache, clock, lastCycle, pace := pacing, cache, 0, 0, 0;
      starts := [];
    }

    ghost function Now(): Walk
      reads this, cache
    {
      Walk(clock, cache.warmed, starts)
    }

    ghost function Stored(): State
      reads cache, cache.dir
    {
      State(cache.entries, cache.dir.files)
    }

    /** The cache has been through these events; so has its directory, when there is one. */
    ghost predicate Reached(s: State)
      reads cache, cache.dir
    {
      cache.entries == s.entries && (cache.dir.enabled ==> cache.dir.files == s.files)
    }

    /** One handle's turn of the loop: fetch, then sleep. */
    method Turn(v: Visit, delay: nat, ghost s: State)
      requires Reached(s)
      modifies this, cache, cache.dir
      ensures clock == old(clock) + v.took + delay && starts == old(starts) + [Start(v.handle, old(clock))]
      ensures cache.warmed == old(cache.warmed) && pace == old(pace)
      ensures Reached(Next(s, Keys.Fetch(v.handle, old(clock), v.result, v.written)))
    {
      starts := starts + [Start(v.handle, clock)];
      var e := cache.FetchOne(v.handle, clock, v.result, v.written);
      clock := clock + v.took;
      clock := clock + delay;
    }

    /** One pass: prune, pick the pace, then fetch and sleep handle by handle. */
    method WalkOnce(pass: seq<Visit>, stuck: set<string>)
      modifies this, cache, cache.dir
      ensures Now() == AfterPass(pacing, old(Now()), pass)
      ensures Reached(Run(old(Stored()), PassEvents(pacing, old(Now()), pass, stuck)))
      ensures pass != [] ==> pace == DelayOf(pacing, old(cache.warmed), |pass|) && lastCycle == clock
    {
      ghost var was, w := Stored(), Now();
      ghost var prune := Keys.Prune(Handles(pass), stuck);
      cache.Prune(Handles(pass), stuck);
      FoldOne(Next, was, prune);
      assert [prune] + [] == [prune];
      if |pass| == 0 {
        cache.warmed := true;
        clock := clock + IDLE;
        return;
      }
      var warming := !cache.warmed;
      var delay := PaceFor(pacing, |pass|);
      if warming {
        delay := pacing.minDelay;
      }
      pace := delay;
      for i := 0 to |pass|
        invariant pace == delay && cache.warmed == !warming
        invariant Now() == Fetched(w, delay, pass[..i])
        invariant Reached(Run(was, [prune] + FetchEvents(w, delay, pass[..i])))
      {
        assert pass[..i + 1][..i] == pass[..i];
        PassEventsSnoc(prune, w, delay, pass, i, was);
        Turn(pass[i], delay, Run(was, [prune] + FetchEvents(w, delay, pass[..i])));
      }
      assert pass[..|pass|] == pass;
      lastCycle := clock;
      cache.warmed := true;
    }
  }

  // ----- Never faster than the ceiling -----

  /** Every fetch starts at least minDelay after the one before, and the walker is idle until the next may start. */
  ghost predicate Spaced(w: Walk, minDelay: nat) {
    && (forall i :: 0 <= i < |w.starts| - 1 ==> w.starts[i].at + minDelay <= w.starts[i + 1].at)
    && (w.starts != [] ==> w.starts[|w.starts| - 1].at + minDelay <= w.clock)
  }

  lemma {:induction false} FetchedSpaced(w: Walk, delay: nat, visits: seq<Visit>, minDelay: nat)
    requires Spaced(w, minDelay) && minDelay <= delay
    ensures Spaced(Fetched(w, delay, visits), minDelay)
  {
    if visits == [] {
    } else {
      FetchedSpaced(w, delay, visits[..|visits| - 1], minDelay);
    }
  }

  lemma {:induction false} PassesSpaced(p: Pacing, passes: seq<seq<Visit>>, warmed: bool)
    ensures Spaced(AfterPasses(p, Walk(0, warmed, []), passes), p.minDelay)
  {
    if passes == [] {
    } else {
      var before := AfterPasses(p, Walk(0, warmed, []), passes[..|passes| - 1]);
      var pass := passes[|passes| - 1];
      PassesSpaced(p, passes[..|passes| - 1], warmed);
      FetchedSpaced(before, DelayOf(p, before.warmed, |pass|), pass, p.minDelay);
    }
  }

  lemma {:induction false} SpacedSpan(w: Walk, minDelay: nat, i: nat, k: nat)
    requires Spaced(w, minDelay) && i + k < |w.starts|
    ensures w.starts[i].at + k * minDelay <= w.starts[i + k].at
  {
    if k == 0 {
    } else {
      SpacedSpan(w, minDelay, i, k - 1);
      assert k * minDelay == (k - 1) * minDelay + minDelay;
    }
  }

  /** Over every run, across passes and changing handle sets, k consecutive fetches span at least (k-1)*minDelay. */
  lemma RateCeiling(p: Pacing, passes: seq<seq<Visit>>, warmed: bool, i: nat, k: nat)
    requires k >= 1 && i + k - 1 < |AfterPasses(p, Walk(0, warmed, []), passes).starts|
    ensures var starts := AfterPasses(p, Walk(0, warmed, []), passes).starts;
            starts[i + k - 1].at - starts[i].at >= (k - 1) * p.minDelay
  {
    PassesSpaced(p, passes, warmed);
    SpacedSpan(AfterPasses(p, Walk(0, warmed, []), passes), p.minDelay, i, k - 1);
  }

  // ----- Slow enough, and no slower -----

  ghost function Working(visits: seq<Visit>): nat {
    if visits == [] then 0 else Working(visits[..|visits| - 1]) + visits[|visits| - 1].took
  }

  lemma {:induction false} FetchedClock(w: Walk, delay: nat, visits: seq<Visit>)
    ensures Fetched(w, delay, visits).clock == w.clock + Working(visits) + |visits| * delay
  {
    if visits == [] {
    } else {
      FetchedClock(w, delay, visits[..|visits| - 1]);
      NextMultiple(|visits| - 1, delay);
    }
  }

  /** The time a pass spends asleep. */
  ghost function Slept(p: Pacing, w: Walk, pass: seq<Visit>): int {
    AfterPass(p, w, pass).clock - w.clock - Working(pass)
  }

  lemma PaceBounds(p: Pacing, n: nat)
    requires n > 0
    ensures p.refreshInterval / n >= p.minDelay ==>
              p.refreshInterval - n < n * PaceFor(p, n) <= p.refreshInterval
    ensures p.refreshInterval / n < p.minDelay ==>
              n * PaceFor(p, n) == n * p.minDelay && p.refreshInterval < n * p.minDelay
    ensures n * PaceFor(p, n) <= Max(p.refreshInterval, n * p.minDelay)
  {
    var q, r := p.refreshInterval / n, p.refreshInterval % n;
    assert p.refreshInterval == n * q + r;
    if q < p.minDelay {
      assert n * (q + 1) <= n * p.minDelay;
      assert n * (q + 1) == n * q + n;
    }
  }

  /**
   A steady pass over n handles sleeps for the refresh interval, short by less than n nanoseconds,
   or for exactly n*minDelay when the ceiling takes over - and it takes over only when that is longer.
   The first, warming pass sleeps exactly n*minDelay.
   */
  lemma PassSleep(p: Pacing, w: Walk, pass: seq<Visit>)
    requires pass != []
    ensures var n := |pass|;
            if !w.warmed then Slept(p, w, pass) == n * p.minDelay
            else if p.refreshInterval / n >= p.minDelay then
              p.refreshInterval - n < Slept(p, w, pass) <= p.refreshInterval
            else Slept(p, w, pass) == n * p.minDelay > p.refreshInterval
  {
    FetchedClock(w, DelayOf(p, w.warmed, |pass|), pass);
    PaceBounds(p, |pass|);
  }

  ghost predicate Bounded(visits: seq<Visit>, most: nat) {
    forall i :: 0 <= i < |visits| ==> visits[i].took <= most
  }

  /** `w` has come a steady way from `from`: since then, fetches start at most `gap` apart. */
  ghost predicate Regular(from: Walk, w: Walk, gap: nat) {
    && |from.starts| <= |w.starts| && from.clock <= w.clock
    && (forall i :: |from.starts| <= i < |w.starts| - 1 ==> w.starts[i + 1].at <= w.starts[i].at + gap)
    && (|w.starts| > |from.starts| ==> w.clock <= w.starts[|w.starts| - 1].at + gap)
  }

  lemma {:induction false} FetchedRegular(from: Walk, w: Walk, delay: nat, visits: seq<Visit>, most: nat)
    requires Regular(from, w, delay + most) && Bounded(visits, most)
    ensures Regular(from, Fetched(w, delay, visits), delay + most)
  {
    if visits == [] {
    } else {
      FetchedRegular(from, w, delay, visits[..|visits| - 1], most);
    }
  }

  /** A pass adds one start for each of its handles, in order. */
  lemma {:induction false} FetchedStarts(w: Walk, delay: nat, visits: seq<Visit>)
    ensures var starts := Fetched(w, delay, visits).starts;
            && |starts| == |w.starts| + |visits| && starts[..|w.starts|] == w.starts
            && forall j :: 0 <= j < |visits| ==> starts[|w.starts| + j].handle == visits[j].handle
  {
    if visits == [] {
    } else {
      FetchedStarts(w, delay, visits[..|visits| - 1]);
    }
  }

  ghost predicate Steady(passes: seq<seq<Visit>>, handles: seq<string>, most: nat) {
    forall i :: 0 <= i < |passes| ==> Handles(passes[i]) == handles && Bounded(passes[i], most)
  }

  lemma {:induction false} SteadyRegular(p: Pacing, w: Walk, passes: seq<seq<Visit>>, handles: seq<string>, most: nat)
    requires w.warmed && handles != [] && Steady(passes, handles, most)
    ensures AfterPasses(p, w, passes).warmed
    ensures Regular(w, AfterPasses(p, w, passes), PaceFor(p, |handles|) + most)
    ensures |AfterPasses(p, w, passes).starts| == |w.starts| + |passes| * |handles|
  {
    if passes == [] {
    } else {
      var front, pass := passes[..|passes| - 1], passes[|passes| - 1];
      SteadyRegular(p, w, front, handles, most);
      assert |pass| == |Handles(pass)|;
      FetchedRegular(w, AfterPasses(p, w, front), PaceFor(p, |handles|), pass, most);
      FetchedStarts(AfterPasses(p, w, front), PaceFor(p, |handles|), pass);
      NextMultiple(|front|, |handles|);
    }
  }

  /** A pass leaves the earlier starts alone, and its own are of its handles. */
  lemma PassStarts(p: Pacing, w: Walk, pass: seq<Visit>, handles: seq<string>, i: nat)
    requires w.warmed && Handles(pass) == handles != [] && i < |w.starts| + |handles|
    ensures var starts := AfterPass(p, w, pass).starts;
            && |starts| == |w.starts| + |handles|
            && starts[i].handle == if i < |w.starts| then w.starts[i].handle else handles[i - |w.starts|]
  {
    assert |pass| == |Handles(pass)|;
    FetchedStarts(w, PaceFor(p, |pass|), pass);
    if i >= |w.starts| {
      assert Handles(pass)[i - |w.starts|] == pass[i - |w.starts|].handle;
    } else {
      assert w.starts[i] == Fetched(w, PaceFor(p, |pass|), pass).starts[..|w.starts|][i];
    }
  }

  /** The j-th fetch of every steady pass is of the j-th handle. */
  lemma {:induction false} SteadyHandles(p: Pacing, w: Walk, passes: seq<seq<Visit>>, handles: seq<string>, most: nat,
                                         pass: nat, j: nat, i: nat)
    requires w.warmed && Steady(passes, handles, most) && j < |handles| && pass < |passes|
    requires i == |w.starts| + pass * |handles| + j
    ensures i < |AfterPasses(p, w, passes).starts| && AfterPasses(p, w, passes).starts[i].handle == handles[j]
  {
    var front, last := passes[..|passes| - 1], passes[|passes| - 1];
    SteadyRegular(p, w, front, handles, most);
    if pass < |front| {
      SteadyHandles(p, w, front, handles, most, pass, j, i);
    }
    PassStarts(p, AfterPasses(p, w, front), last, handles, i);
  }

  lemma {:induction false} RegularSpan(from: Walk, w: Walk, gap: nat, i: nat, k: nat)
    requires Regular(from, w, gap) && |from.starts| <= i && i + k < |w.starts|
    ensures w.starts[i + k].at <= w.starts[i].at + k * gap
  {
    if k == 0 {
    } else {
      RegularSpan(from, w, gap, i, k - 1);
      assert k * gap == (k - 1) * gap + gap;
    }
  }

  /**
   With a stable set of n handles and fetches bounded by F, the handle fetched as the j-th of one pass
   is fetched again, in the next pass, within max(refreshInterval, n*minDelay) + n*F.
   */
  lemma Freshness(p: Pacing, w: Walk, passes: seq<seq<Visit>>, handles: seq<string>, most: nat, pass: nat, j: nat)
    requires w.warmed && Steady(passes, handles, most) && j < |handles| && pass + 1 < |passes|
    ensures var starts, n := AfterPasses(p, w, passes).starts, |handles|;
            var i := |w.starts| + pass * n + j;
            && i + n < |starts|
            && starts[i].handle == starts[i + n].handle == handles[j]
            && starts[i + n].at - starts[i].at <= Max(p.refreshInterval, n * p.minDelay) + n * most
  {
    var n := |handles|;
    var after, i := AfterPasses(p, w, passes), |w.starts| + pass * n + j;
    SteadyRegular(p, w, passes, handles, most);
    IndexFits(n, pass, |passes|, j);
    SteadyHandles(p, w, passes, handles, most, pass, j, i);
    NextMultiple(pass, n);
    SteadyHandles(p, w, passes, handles, most, pass + 1, j, i + n);
    RegularSpan(w, after, PaceFor(p, n) + most, i, n);
    GapBound(p, n, most);
  }

  lemma IndexFits(n: nat, pass: nat, passes: nat, j: nat)
    requires j < n && pass + 1 < passes
    ensures pass * n + j + n < passes * n
  {
    NextMultiple(pass, n);
    NextMultiple(pass + 1, n);
    FewerMultiples(pass + 2, passes, n);
  }

  lemma GapBound(p: Pacing, n: nat, most: nat)
    requires n > 0
    ensures n * (PaceFor(p, n) + most) <= Max(p.refreshInterval, n * p.minDelay) + n * most
  {
    PaceBounds(p, n);
    Distribute(n, PaceFor(p, n), most);
  }

  lemma NextMultiple(a: nat, n: nat)
    ensures (a + 1) * n == a * n + n
  {}

  lemma FewerMultiples(a: nat, b: nat, n: nat)
    requires a <= b
    ensures a * n <= b * n
  {}

  lemma Distribute(n: nat, a: nat, b: nat)
    ensures n * (a + b) == n * a + n * b
  {}
}
