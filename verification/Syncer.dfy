/**
 The Syncer object. Row lists are real arrays: `lastGood` aliases whatever array a source handed
 out, and the only arrays ever written are the ones Sync allocates for itself.
 */
module Syncer {
  import opened Lists
  import opened Text
  import opened Source
  import opened Indexes
  import opened IndexBuild
  import opened IndexReads
  import opened Syncing

  /** The atomic pointer readers of this process serve from. */
  class IndexStore {
    var current: Option<Index>

    constructor ()
      ensures current == None
    {
      current := None;
    }

    method Get() returns (idx: Option<Index>)
      ensures idx == current
    {
      idx := current;
    }

    method Set(idx: Index)
      modifies this
      ensures current == Some(idx)
    {
      current := Some(idx);
    }
  }

  /** The snapshot file; disabled when no path is configured. Writes and reads may fail. */
  class SnapshotFile {
    const enabled: bool
    var content: Option<Index>

    constructor (enabled: bool)
      ensures this.enabled == enabled && content == None
    {
      this.enabled := enabled;
      content := None;
    }

    method Save(idx: Index, written: bool)
      modifies this
      ensures content == if enabled && written then Some(idx) else old(content)
    {
      if enabled && written {
        content := Some(idx);
      }
    }

    method Load(readable: bool) returns (idx: Option<Index>)
      ensures idx == if enabled && readable then content else None
    {
      idx := if enabled && readable then content else None;
    }
  }

  type ArrayFetch = Fetch<array<Membership>>

  ghost function ArraysOf(fetches: map<string, ArrayFetch>): set<array<Membership>> {
    set n | n in fetches && fetches[n].outcome.Rows? :: fetches[n].outcome.rows
  }

  ghost function ReadOutcome(o: Outcome<array<Membership>>): Outcome<seq<Membership>>
    reads if o.Rows? then {o.rows} else {}
  {
    match o
    case Rows(rows) => Rows(rows[..])
    case Failed(e) => Failed(e)
  }

  ghost function ReadFetch(f: ArrayFetch): RowFetch
    reads if f.outcome.Rows? then {f.outcome.rows} else {}
  {
    Fetch(f.attemptedAt, f.finishedAt, f.warnings, ReadOutcome(f.outcome))
  }

  ghost function ReadAll(fetches: map<string, ArrayFetch>): Fetches
    reads ArraysOf(fetches)
  {
    map n | n in fetches :: ReadFetch(fetches[n])
  }

  /** What fetchOne hands to `x`'s append, once it has run. */
  ghost function Expected(x: string, goal: Standing): Fetched {
    Fetched(if x in goal.arrays then goal.arrays[x] else null, x in goal.accepted)
  }

  /** The variables the goroutines share under the mutex. */
  datatype Gathering = Gathering(all: array<Membership>, n: nat, anyFresh: bool, starved: seq<string>)

  /** The shared variables after the sources in `order` have appended, in that order. */
  ghost predicate Collected(
    g: Gathering, order: seq<string>, goal: Standing, contents: map<array<Membership>, seq<Membership>>)
    requires goal.arrays.Values <= contents.Keys
    reads g.all
  {
    && g.n <= g.all.Length && g.all[..g.n] == Gathered(Contents(goal.arrays, contents), order)
    && (g.anyFresh <==> exists x :: x in order && x in goal.accepted)
    && forall x :: x in g.starved <==> x in order && Starves(x, goal, contents)
  }

  /** The fan-out between two steps of its goroutines. */
  datatype Fanout = Fanout(todo: set<string>, inFlight: map<string, Fetched>, g: Gathering) {
    function Remaining(): set<string> {
      todo + inFlight.Keys
    }

    ghost function Steps(): nat {
      2 * |todo| + |inFlight.Keys|
    }
  }

  ghost predicate AsExpected(inFlight: map<string, Fetched>, goal: Standing) {
    forall x :: x in inFlight ==> inFlight[x] == Expected(x, goal)
  }

  ghost predicate Partition(all: set<string>, todo: set<string>, flying: set<string>, order: seq<string>) {
    todo <= all && flying <= all - todo && Distinct(order) && Elems(order) == all - todo - flying
  }

  lemma FetchedFanout(all: set<string>, f: Fanout, order: seq<string>, x: string, fetched: Fetched)
    requires Partition(all, f.todo, f.inFlight.Keys, order) && x in f.todo
    ensures var f' := Fanout(f.todo - {x}, f.inFlight[x := fetched], f.g);
            && Partition(all, f'.todo, f'.inFlight.Keys, order)
            && all - f'.todo == all - f.todo + {x} && f'.Steps() < f.Steps()
  {
    var f' := Fanout(f.todo - {x}, f.inFlight[x := fetched], f.g);
    assert f'.inFlight.Keys == f.inFlight.Keys + {x};
    assert all - f'.todo - f'.inFlight.Keys == all - f.todo - f.inFlight.Keys;
  }

  lemma AppendedFanout(all: set<string>, f: Fanout, order: seq<string>, x: string, g: Gathering)
    requires Partition(all, f.todo, f.inFlight.Keys, order) && x in f.inFlight
    ensures var f' := Fanout(f.todo, f.inFlight - {x}, g);
            Partition(all, f'.todo, f'.inFlight.Keys, order + [x]) && f'.Steps() < f.Steps()
  {
    var f' := Fanout(f.todo, f.inFlight - {x}, g);
    assert f'.inFlight.Keys == f.inFlight.Keys - {x};
    DistinctSnoc(order, x);
    assert all - f'.todo - f'.inFlight.Keys == all - f.todo - f.inFlight.Keys + {x};
  }

  lemma Everyone(cfg: Config, f: Fanout, order: seq<string>)
    requires f.Remaining() == {} && Partition(Elems(cfg.sources), f.todo, f.inFlight.Keys, order)
    ensures Schedule(cfg, order) && Elems(order) == Elems(cfg.sources) - f.todo
  {
    assert f.todo == {} && f.inFlight.Keys == {};
  }

  /** The rows of a possibly nil slice. */
  ghost function Content(rows: array?<Membership>): seq<Membership>
    reads rows
  {
    if rows == null then [] else rows[..]
  }

  /** What a source's goroutine carries from fetchOne to its append. */
  datatype Fetched = Fetched(rows: array?<Membership>, isFresh: bool)

  /** Where every source stands before or after a sync, and which fetches were accepted. */
  datatype Standing = Standing(
    arrays: map<string, array<Membership>>, status: map<string, Status>, accepted: set<string>)

  /** Source `x` stands as `s` says. */
  ghost predicate Agree(x: string, arrays: map<string, array<Membership>>, status: map<string, Status>, s: Standing) {
    && (x in arrays <==> x in s.arrays) && (x in arrays ==> arrays[x] == s.arrays[x])
    && (x in status <==> x in s.status) && (x in status ==> status[x] == s.status[x])
  }

  /** What fetching `x` alone must achieve, whatever the other sources are doing. */
  ghost predicate Settles(cfg: Config, x: string, f: ArrayFetch, given: RowFetch, before: Standing, goal: Standing) {
    && (x in goal.accepted <==> Accepts(cfg, x, given.outcome))
    && (x in goal.accepted ==> f.outcome.Rows?)
    && (x in goal.arrays <==> x in goal.accepted || x in before.arrays)
    && (x in goal.arrays ==> goal.arrays[x] == if x in goal.accepted then f.outcome.rows else before.arrays[x])
    && x in goal.status && goal.status[x] == StatusAfter(cfg, StatusOf(before.status, x), x, given)
  }

  /** The fetch `given`, with its rows in an array of known content. */
  ghost predicate Matches(f: ArrayFetch, given: RowFetch, contents: map<array<Membership>, seq<Membership>>) {
    && given.attemptedAt == f.attemptedAt && given.finishedAt == f.finishedAt && given.warnings == f.warnings
    && match f.outcome
       case Failed(e) => given.outcome == Failed(e)
       case Rows(rows) => rows in contents && given.outcome == Rows(contents[rows])
  }

  ghost predicate Planned(
    cfg: Config, x: string, fetches: map<string, ArrayFetch>, given: Fetches,
    contents: map<array<Membership>, seq<Membership>>, before: Standing, goal: Standing)
  {
    && x in fetches && x in given
    && Matches(fetches[x], given[x], contents) && Settles(cfg, x, fetches[x], given[x], before, goal)
  }

  /** `goal` is where `before` goes when every source is fetched once. */
  ghost predicate Plan(
    cfg: Config, fetches: map<string, ArrayFetch>, given: Fetches,
    contents: map<array<Membership>, seq<Membership>>, before: Standing, goal: Standing)
  {
    forall x {:trigger Planned(cfg, x, fetches, given, contents, before, goal)} ::
      x in cfg.sources ==> Planned(cfg, x, fetches, given, contents, before, goal)
  }

  ghost function Contents(arrays: map<string, array<Membership>>, contents: map<array<Membership>, seq<Membership>>)
    : Rowsets
    requires arrays.Values <= contents.Keys
  {
    map n | n in arrays :: contents[arrays[n]]
  }

  ghost predicate Starves(x: string, goal: Standing, contents: map<array<Membership>, seq<Membership>>)
    requires goal.arrays.Values <= contents.Keys
  {
    x !in goal.accepted && HeldOf(Contents(goal.arrays, contents), x) == []
  }

  // ----- Slices of rows -----

  /** append(all, rows...): in place when the capacity suffices, into a new array otherwise. */
  method Append(all: array<Membership>, n: nat, rows: array?<Membership>) returns (all': array<Membership>, n': nat)
    requires n <= all.Length && all != rows
    modifies all
    ensures all' == all || fresh(all')
    ensures n' <= all'.Length && all'[..n'] == old(all[..n]) + old(Content(rows))
  {
    all', n' := all, n;
    if rows == null {
      return;
    }
    n' := n + rows.Length;
    if n' > all.Length {
      all' := new Membership[2 * n'];
      for i := 0 to n
        invariant all'[..i] == all[..i]
        invariant rows[..] == old(rows[..]) && all[..] == old(all[..])
      {
        all'[i] := all[i];
      }
    }
    for i := 0 to rows.Length
      invariant all'[..n] == old(all[..n])
      invariant all'[n..n + i] == rows[..i]
      invariant rows[..] == old(rows[..])
    {
      all'[n + i] := rows[i];
    }
    assert all'[..n'] == all'[..n] + all'[n..n'];
    assert rows[..rows.Length] == rows[..];
  }

  /** kept := all[:0]: compact the rows in place, keeping those whose handle is not excluded. */
  method DropExcluded(all: array<Membership>, n: nat, exclude: set<string>) returns (k: nat)
    requires n <= all.Length
    modifies all
    ensures k <= n && all[..k] == Surviving(exclude, old(all[..n]))
    ensures all[n..] == old(all[n..])
  {
    k := 0;
    ghost var rows := all[..n];
    for i := 0 to n
      invariant k <= i
      invariant all[..k] == Surviving(exclude, rows[..i])
      invariant forall j :: i <= j < all.Length ==> all[j] == old(all[j])
    {
      assert rows[..i + 1][..i] == rows[..i];
      assert all[i] == rows[i];
      if ToLower(all[i].handle) in exclude {
        continue;
      }
      all[k] := all[i];
      k := k + 1;
    }
    assert rows[..n] == rows;
  }

  /** Rows of one source, as restoreLastGood groups them. */
  lemma BySourceSnoc(rows: seq<Membership>, m: Membership)
    ensures BySource(rows + [m]) ==
            BySource(rows)[m.source := (if m.source in BySource(rows) then BySource(rows)[m.source] else []) + [m]]
  {
    var all := rows + [m];
    assert all[..|rows|] == rows;
    if m.source !in BySource(rows) { NoRowsFrom(rows, m.source); }
    var next := BySource(rows)[m.source := (if m.source in BySource(rows) then BySource(rows)[m.source] else []) + [m]];
    assert forall x :: x in all <==> x in rows || x == m;
    assert BySource(all).Keys == next.Keys;
    forall n | n in next ensures BySource(all)[n] == next[n] {}
  }

  lemma {:induction false} NoRowsFrom(rows: seq<Membership>, n: string)
    requires forall m :: m in rows ==> m.source != n
    ensures RowsFrom(rows, n) == []
  {
    if rows == [] {
    } else {
      NoRowsFrom(rows[..|rows| - 1], n);
    }
  }

  /** The grouping loop of restoreLastGood. */
  method GroupBySource(rows: seq<Membership>) returns (bySource: Rowsets)
    ensures bySource == BySource(rows)
  {
    bySource := map[];
    for i := 0 to |rows|
      invariant bySource == BySource(rows[..i])
    {
      var m := rows[i];
      BySourceSnoc(rows[..i], m);
      assert rows[..i + 1] == rows[..i] + [m];
      bySource := bySource[m.source := (if m.source in bySource then bySource[m.source] else []) + [m]];
    }
    assert rows[..|rows|] == rows;
  }

  /** A goroutine's second step: the append under the mutex. */
  method AppendStep(g: Gathering, x: string, fetched: Fetched, ghost order: seq<string>, ghost goal: Standing,
                    ghost contents: map<array<Membership>, seq<Membership>>)
    returns (g': Gathering)
    requires goal.arrays.Values <= contents.Keys
    requires forall a :: a in contents ==> a[..] == contents[a] && a != g.all
    requires Collected(g, order, goal, contents) && fetched == Expected(x, goal)
    modifies g.all
    ensures g'.all == g.all || fresh(g'.all)
    ensures Collected(g', order + [x], goal, contents)
  {
    ghost var held := Contents(goal.arrays, contents);
    assert Content(fetched.rows) == HeldOf(held, x);
    var all, n := Append(g.all, g.n, fetched.rows);
    var anyFresh := g.anyFresh || fetched.isFresh;
    var starved := g.starved;
    if !fetched.isFresh && (fetched.rows == null || fetched.rows.Length == 0) {
      starved := starved + [x];
    }
    OrderStep(held, order, x);
    g' := Gathering(all, n, anyFresh, starved);
  }

  class Syncer {
    const cfg: Config
    const store: IndexStore
    const snapshot: SnapshotFile
    var lastGood: map<string, array<Membership>>
    var status: map<string, Status>

    constructor (cfg: Config, store: IndexStore, snapshot: SnapshotFile)
      ensures this.cfg == cfg && this.store == store && this.snapshot == snapshot
      ensures lastGood == map[] && status == map[]
    {
      this.cfg, this.store, this.snapshot := cfg, store, snapshot;
      lastGood, status := map[], map[];
    }

    ghost function Held(): Rowsets
      reads this, lastGood.Values
    {
      map n | n in lastGood :: lastGood[n][..]
    }

    ghost function Now(): State
      reads this, lastGood.Values, store, snapshot
    {
      State(Held(), status, store.current, if snapshot.enabled then snapshot.content else None)
    }

    /** Statuses: one per source, in whatever order the map yields them. */
    method Statuses() returns (out: seq<Status>)
      ensures StatusListing(status, out)
    {
      out := [];
      ghost var names: seq<string> := [];
      var todo := status.Keys;
      while todo != {}
        invariant todo <= status.Keys && Distinct(names) && Elems(names) == status.Keys - todo
        invariant |out| == |names|
        invariant forall i :: 0 <= i < |names| ==> names[i] in status && out[i] == status[names[i]]
      {
        var n :| n in todo;
        DistinctSnoc(names, n);
        out := out + [status[n]];
        names := names + [n];
        todo := todo - {n};
      }
      assert ListedAs(status, names, out);
    }

    /** fetchOne: judge one fetch, record it, and return the rows the source now stands on. */
    method FetchOne(n: string, f: ArrayFetch) returns (rows: array?<Membership>, fresh': bool)
      modifies this
      ensures fresh' <==> Accepts(cfg, n, old(ReadOutcome(f.outcome)))
      ensures lastGood == if fresh' then old(lastGood)[n := f.outcome.rows] else old(lastGood)
      ensures status == old(status)[n := StatusAfter(cfg, StatusOf(old(status), n), n, old(ReadFetch(f)))]
      ensures rows == if n in lastGood then lastGood[n] else null
    {
      var st := StatusOf(status, n);
      st := st.(lastAttempt := f.attemptedAt);
      st := st.(warnings := f.warnings);
      fresh' := false;
      if f.outcome.Failed? {
        st := st.(problem := FetchError(f.outcome.error));
      } else {
        var fetched := f.outcome.rows[..];
        var floor := FloorOf(cfg, n);
        if floor.minMembers > 0 && |fetched| < floor.minMembers {
          st := st.(problem := BelowMembers(|fetched|, floor.minMembers));
        } else if floor.minTeams > 0 && |TeamNames(fetched)| < floor.minTeams {
          st := st.(problem := BelowTeams(|fetched|, |TeamNames(fetched)|, floor.minTeams));
        } else {
          st := st.(problem := NoProblem, lastSuccess := f.finishedAt);
          st := st.(members := |fetched|, teams := |TeamNames(fetched)|);
          lastGood := lastGood[n := f.outcome.rows];
          fresh' := true;
        }
      }
      status := status[n := st];
      rows := if n in lastGood then lastGood[n] else null;
    }

    /** Give each group an array of its own and make it the source's last good rows. */
    method Adopt(bySource: Rowsets)
      modifies this
      ensures Held() == old(Held()) + bySource
      ensures status == old(status)
    {
      var todo := bySource.Keys;
      while todo != {}
        invariant todo <= bySource.Keys
        invariant lastGood.Keys == old(lastGood).Keys + (bySource.Keys - todo)
        invariant forall n :: n in bySource && n !in todo ==> fresh(lastGood[n]) && lastGood[n][..] == bySource[n]
        invariant forall n :: n in old(lastGood) && (n !in bySource || n in todo) ==> lastGood[n] == old(lastGood)[n]
        invariant status == old(status)
      {
        var n :| n in todo;
        var group := bySource[n];
        var held := new Membership[|group|](i requires 0 <= i < |group| => group[i]);
        assert held[..] == group;
        lastGood := lastGood[n := held];
        todo := todo - {n};
      }
      forall n | n in lastGood ensures lastGood[n][..] == (old(Held()) + bySource)[n] {
        if n !in bySource { assert lastGood[n] == old(lastGood)[n]; }
      }
    }

    /** restoreLastGood: a snapshot's rows, regrouped by source, become the last good rows. */
    method RestoreLastGood(snap: Index)
      requires Valid(snap)
      modifies this
      ensures Held() == old(Held()) + BySource(Flatten(snap))
      ensures status == old(status)
    {
      var rows := Memberships(snap);
      var bySource := GroupBySource(rows);
      Adopt(bySource);
    }

    /** Serve an index the syncer did not build, and fall back on its rows. */
    method Serve(idx: Index)
      requires Valid(idx)
      modifies this, store
      ensures Held() == old(Held()) + BySource(Flatten(idx))
      ensures status == old(status) && store.current == Some(idx)
    {
      store.Set(idx);
      assert Held() == old(Held());
      RestoreLastGood(idx);
    }

    method Seed(idx: Option<Index>)
      requires idx.Some? ==> Valid(idx.value)
      modifies this, store
      ensures Now() == SeedNext(old(Now()), idx)
    {
      if idx.None? || idx.value.teams == map[] {
        return;
      }
      ghost var was := Now();
      Serve(idx.value);
      RestoredIs(was, Now(), idx.value);
    }

    /** A goroutine's first step: fetchOne, whose effect does not depend on who fetched before. */
    method FetchStep(x: string, f: ArrayFetch, ghost given: RowFetch, ghost before: Standing, ghost goal: Standing)
      returns (fetched: Fetched)
      requires ReadFetch(f) == given && Settles(cfg, x, f, given, before, goal)
      requires Agree(x, lastGood, status, before)
      modifies this
      ensures Agree(x, lastGood, status, goal)
      ensures forall y :: y != x && old(Agree(y, lastGood, status, before)) ==> Agree(y, lastGood, status, before)
      ensures forall y :: y != x && old(Agree(y, lastGood, status, goal)) ==> Agree(y, lastGood, status, goal)
      ensures fetched == Expected(x, goal)
    {
      var rows, isFresh := FetchOne(x, f);
      fetched := Fetched(rows, isFresh);
    }

    /** The sources of `done` have been fetched, the others not. */
    ghost predicate Settled(done: set<string>, before: Standing, goal: Standing)
      reads this
    {
      && (forall x :: x in done ==> Agree(x, lastGood, status, goal))
      && (forall x :: x !in done ==> Agree(x, lastGood, status, before))
    }

    /** The goroutines of `todo` have not fetched, those of `inFlight` not appended; `order` lists the rest. */
    ghost predicate Underway(f: Fanout, order: seq<string>, contents: map<array<Membership>, seq<Membership>>,
                             before: Standing, goal: Standing)
      requires goal.arrays.Values <= contents.Keys
      reads this, f.g.all
    {
      && Partition(Elems(cfg.sources), f.todo, f.inFlight.Keys, order)
      && Settled(Elems(cfg.sources) - f.todo, before, goal)
      && AsExpected(f.inFlight, goal) && Collected(f.g, order, goal, contents)
    }

    /** Some goroutine's fetchOne, in terms of who has been fetched. */
    method FetchPlanned(x: string, fetches: map<string, ArrayFetch>, ghost given: Fetches, ghost done: set<string>,
                        ghost contents: map<array<Membership>, seq<Membership>>,
                        ghost before: Standing, ghost goal: Standing)
      returns (fetched: Fetched)
      requires forall a :: a in contents ==> a[..] == contents[a]
      requires x in cfg.sources && Plan(cfg, fetches, given, contents, before, goal)
      requires x !in done && Settled(done, before, goal)
      modifies this
      ensures Settled(done + {x}, before, goal) && fetched == Expected(x, goal)
    {
      assert Planned(cfg, x, fetches, given, contents, before, goal);
      fetched := FetchStep(x, fetches[x], given[x], before, goal);
    }

    method FetchNext(f: Fanout, x: string, fetches: map<string, ArrayFetch>, ghost given: Fetches,
                     ghost order: seq<string>, ghost contents: map<array<Membership>, seq<Membership>>,
                     ghost before: Standing, ghost goal: Standing)
      returns (f': Fanout)
      requires goal.arrays.Values <= contents.Keys
      requires forall a :: a in contents ==> a[..] == contents[a]
      requires Plan(cfg, fetches, given, contents, before, goal)
      requires x in f.todo && Underway(f, order, contents, before, goal)
      modifies this
      ensures f'.g == f.g && f'.Steps() < f.Steps()
      ensures Underway(f', order, contents, before, goal)
    {
      ghost var sources := Elems(cfg.sources);
      var fetched := FetchPlanned(x, fetches, given, sources - f.todo, contents, before, goal);
      f' := Fanout(f.todo - {x}, f.inFlight[x := fetched], f.g);
      FetchedFanout(sources, f, order, x, fetched);
    }

    /** Some goroutine's append, under the mutex. */
    method AppendNext(f: Fanout, x: string, ghost order: seq<string>,
                      ghost contents: map<array<Membership>, seq<Membership>>,
                      ghost before: Standing, ghost goal: Standing)
      returns (f': Fanout)
      requires goal.arrays.Values <= contents.Keys
      requires forall a :: a in contents ==> a[..] == contents[a] && a != f.g.all
      requires x in f.inFlight && Underway(f, order, contents, before, goal)
      modifies f.g.all
      ensures (f'.g.all == f.g.all || fresh(f'.g.all)) && f'.Steps() < f.Steps()
      ensures Underway(f', order + [x], contents, before, goal)
    {
      var g := AppendStep(f.g, x, f.inFlight[x], order, goal, contents);
      f' := Fanout(f.todo, f.inFlight - {x}, g);
      AppendedFanout(Elems(cfg.sources), f, order, x, g);
    }

    /** All goroutines are about to fetch. */
    method Launch(ghost contents: map<array<Membership>, seq<Membership>>, ghost before: Standing, ghost goal: Standing)
      returns (f: Fanout)
      requires goal.arrays.Values <= contents.Keys
      requires before == Standing(lastGood, status, {})
      ensures fresh(f.g.all) && Underway(f, [], contents, before, goal)
    {
      var empty := new Membership[0];
      f := Fanout(set x | x in cfg.sources, map[], Gathering(empty, 0, false, []));
    }

    /** Whichever goroutine is scheduled next takes its step. */
    method Advance(f: Fanout, fetches: map<string, ArrayFetch>, ghost given: Fetches, ghost order: seq<string>,
                   ghost contents: map<array<Membership>, seq<Membership>>,
                   ghost before: Standing, ghost goal: Standing)
      returns (f': Fanout, ghost order': seq<string>)
      requires goal.arrays.Values <= contents.Keys
      requires forall a :: a in contents ==> a[..] == contents[a] && a != f.g.all
      requires Plan(cfg, fetches, given, contents, before, goal)
      requires f.Remaining() != {} && Underway(f, order, contents, before, goal)
      modifies this, f.g.all
      ensures f'.g.all == f.g.all || fresh(f'.g.all)
      ensures Underway(f', order', contents, before, goal) && f'.Steps() < f.Steps()
    {
      var x :| x in f.Remaining();
      if x in f.todo {
        f' := FetchNext(f, x, fetches, given, order, contents, before, goal);
        order' := order;
      } else {
        f' := AppendNext(f, x, order, contents, before, goal);
        order' := order + [x];
      }
    }

    /**
     The fan-out of Sync. Goroutines interleave: any number of sources may have been fetched without
     having appended their rows yet, and both steps happen in an arbitrary order across sources.
     */
    method Gather(fetches: map<string, ArrayFetch>, ghost given: Fetches,
                  ghost contents: map<array<Membership>, seq<Membership>>, ghost before: Standing, ghost goal: Standing)
      returns (g: Gathering, ghost order: seq<string>)
      requires forall a :: a in contents ==> a[..] == contents[a]
      requires goal.arrays.Values <= contents.Keys
      requires before == Standing(lastGood, status, {})
      requires Plan(cfg, fetches, given, contents, before, goal)
      modifies this
      ensures Schedule(cfg, order)
      ensures Settled(Elems(order), before, goal)
      ensures fresh(g.all) && Collected(g, order, goal, contents)
    {
      var f := Launch(contents, before, goal);
      order := [];
      while f.Remaining() != {}
        invariant fresh(f.g.all) && forall a :: a in contents ==> a[..] == contents[a] && a != f.g.all
        invariant Underway(f, order, contents, before, goal)
        decreases f.Steps()
      {
        f, order := Advance(f, fetches, given, order, contents, before, goal);
      }
      g := f.g;
      Everyone(cfg, f, order);
    }

    lemma HeldIs(contents: map<array<Membership>, seq<Membership>>)
      requires lastGood.Values <= contents.Keys
      requires forall a :: a in contents ==> a[..] == contents[a]
      ensures Held() == Contents(lastGood, contents)
    {
      forall n | n in lastGood ensures lastGood[n][..] == contents[lastGood[n]] {
        assert lastGood[n] in lastGood.Values;
      }
    }

    /** The part of Sync that changes last good rows and statuses, in terms of row lists. */
    method Refresh(fetches: map<string, ArrayFetch>) returns (g: Gathering, ghost order: seq<string>)
      requires WellFormed(cfg, ReadAll(fetches))
      modifies this
      ensures Schedule(cfg, order)
      ensures Held() == NextHeld(cfg, old(Held()), old(ReadAll(fetches)))
      ensures status == NextStatus(cfg, old(status), old(ReadAll(fetches)))
      ensures fresh(g.all) && g.n <= g.all.Length && g.all[..g.n] == Gathered(Held(), order)
      ensures g.all !in lastGood.Values
      ensures g.anyFresh <==> Accepted(cfg, old(ReadAll(fetches))) != {}
      ensures g.starved != [] <==> Starved(cfg, Held(), old(ReadAll(fetches))) != {}
    {
      ghost var given := ReadAll(fetches);
      ghost var contents := map a | a in lastGood.Values + ArraysOf(fetches) :: a[..];
      ghost var before := Standing(lastGood, status, {});
      ghost var goal := GoalOf(cfg, fetches, given, before);
      assert Described(cfg, fetches, given, contents, before);
      PlanHolds(cfg, fetches, given, contents, before);
      HeldIs(contents);
      g, order := Gather(fetches, given, contents, before, goal);
      GoalReached(cfg, fetches, given, before, order, lastGood, status);
      GoalContents(cfg, fetches, given, contents, before);
      HeldIs(contents);
      StarvedIff(cfg, given, goal, contents, Held(), order, g.starved);
      AcceptedIff(cfg, given, goal, order, g.anyFresh);
    }

    /** Exclusion and build: the compaction overwrites only the array Sync gathered into. */
    method Merge(all: array<Membership>, n: nat) returns (idx: Index)
      requires n <= all.Length
      modifies all
      ensures idx == Built(Surviving(cfg.exclude, old(all[..n])))
    {
      var k := n;
      if cfg.exclude != {} {
        k := DropExcluded(all, n, cfg.exclude);
      } else {
        NoneExcluded(all[..n]);
      }
      idx := Build(all[..k]);
    }

    /** The publish guards of Sync. */
    method Publish(idx: Index, starving: bool, anyFresh: bool, written: bool)
      modifies store, snapshot
      ensures store.current ==
              if starving && old(store.current).Some? then old(store.current)
              else if idx.teams != map[] || old(store.current).None? then Some(idx) else old(store.current)
      ensures snapshot.content ==
              if !starving && anyFresh && idx.teams != map[] && snapshot.enabled && written then Some(idx)
              else old(snapshot.content)
    {
      var current := store.Get();
      if starving && current.Some? {
        return;
      }
      if idx.teams != map[] || current.None? {
        store.Set(idx);
      }
      if anyFresh && idx.teams != map[] && !starving {
        snapshot.Save(idx, written);
      }
    }

    /** The rest of Sync, once every source has finished: it touches no last good rows. */
    method MergeAndPublish(g: Gathering, ghost held: Rowsets, written: bool) returns (idx: Index)
      requires g.n <= g.all.Length && g.all !in lastGood.Values && held == Held()
      modifies g.all, store, snapshot
      ensures Held() == held && idx == Built(Surviving(cfg.exclude, old(g.all[..g.n])))
      ensures store.current ==
              if g.starved != [] && old(store.current).Some? then old(store.current)
              else if idx.teams != map[] || old(store.current).None? then Some(idx) else old(store.current)
      ensures snapshot.content ==
              if g.starved == [] && g.anyFresh && idx.teams != map[] && snapshot.enabled && written then Some(idx)
              else old(snapshot.content)
    {
      idx := Merge(g.all, g.n);
      assert Held() == held;
      Publish(idx, |g.starved| > 0, g.anyFresh, written);
      assert Held() == held;
    }

    /**
     Sync. `written` says whether a snapshot write would succeed; `order` is the order in which the
     source goroutines happened to finish.
     */
    method Sync(fetches: map<string, ArrayFetch>, written: bool) returns (idx: Index, ghost order: seq<string>)
      requires WellFormed(cfg, ReadAll(fetches))
      modifies this, store, snapshot
      ensures Schedule(cfg, order)
      ensures Now() == SyncNext(cfg, old(Now()), old(ReadAll(fetches)), order, snapshot.enabled && written)
      ensures idx == Merged(cfg, Held(), order)
    {
      ghost var given, was := ReadAll(fetches), Now();
      var g: Gathering;
      g, order := Refresh(fetches);
      ghost var held := Held();
      idx := MergeAndPublish(g, held, written);
      SyncNextIs(cfg, was, given, order, snapshot.enabled && written, Now(), idx, g.starved, g.anyFresh);
    }

    /** Start: serve the snapshot if there is one, then sync once. */
    method Start(fetches: map<string, ArrayFetch>, readable: bool, written: bool) returns (ghost order: seq<string>)
      requires WellFormed(cfg, ReadAll(fetches))
      requires snapshot.content.Some? ==> Valid(snapshot.content.value)
      modifies this, store, snapshot
      ensures Schedule(cfg, order)
      ensures Now() == SyncNext(cfg, LoadNext(old(Now()), readable), old(ReadAll(fetches)), order,
                                snapshot.enabled && written)
    {
      LoadSnapshot(readable);
      assert ReadAll(fetches) == old(ReadAll(fetches));
      var idx;
      idx, order := Sync(fetches, written);
    }

    method LoadSnapshot(readable: bool)
      requires snapshot.content.Some? ==> Valid(snapshot.content.value)
      modifies this, store
      ensures Now() == LoadNext(old(Now()), readable)
    {
      ghost var was := Now();
      var snap := snapshot.Load(readable);
      if snap.Some? {
        Serve(snap.value);
        RestoredIs(was, Now(), snap.value);
      }
    }
  }

  lemma RestoredIs(was: State, now: State, idx: Index)
    requires now.held == was.held + BySource(Flatten(idx)) && now.status == was.status
    requires now.served == Some(idx) && now.disk == was.disk
    ensures now == Restored(was, idx)
  {}

  lemma SyncNextIs(cfg: Config, was: State, given: Fetches, order: seq<string>, saved: bool, now: State, idx: Index,
                   starved: seq<string>, anyFresh: bool)
    requires WellFormed(cfg, given)
    requires now.held == NextHeld(cfg, was.held, given)
    requires now.status == NextStatus(cfg, was.status, given)
    requires idx == Merged(cfg, now.held, order)
    requires starved != [] <==> Starved(cfg, now.held, given) != {}
    requires anyFresh <==> Accepted(cfg, given) != {}
    requires now.served ==
             if starved != [] && was.served.Some? then was.served
             else if idx.teams != map[] || was.served.None? then Some(idx) else was.served
    requires now.disk == if starved == [] && anyFresh && idx.teams != map[] && saved then Some(idx) else was.disk
    ensures now == SyncNext(cfg, was, given, order, saved)
  {}

  lemma {:induction false} NoneExcluded(rows: seq<Membership>)
    ensures Surviving({}, rows) == rows
  {
    if rows == [] {
    } else {
      NoneExcluded(rows[..|rows| - 1]);
    }
  }

  // ----- The standing a sync leads to -----

  ghost predicate Described(cfg: Config, fetches: map<string, ArrayFetch>, given: Fetches,
                            contents: map<array<Membership>, seq<Membership>>, before: Standing)
  {
    && WellFormed(cfg, given) && given.Keys == fetches.Keys
    && (forall x {:trigger Matches(fetches[x], given[x], contents)} ::
          x in fetches ==> Matches(fetches[x], given[x], contents))
    && before.arrays.Values <= contents.Keys
  }

  ghost function GoalOf(cfg: Config, fetches: map<string, ArrayFetch>, given: Fetches, before: Standing): Standing
    requires WellFormed(cfg, given)
  {
    var accepted := Accepted(cfg, given);
    var replaced := set n | n in accepted && n in fetches && fetches[n].outcome.Rows?;
    Standing(
      map n | n in before.arrays.Keys + replaced :: if n in replaced then fetches[n].outcome.rows else before.arrays[n],
      NextStatus(cfg, before.status, given),
      accepted)
  }

  lemma PlanHolds(cfg: Config, fetches: map<string, ArrayFetch>, given: Fetches,
                  contents: map<array<Membership>, seq<Membership>>, before: Standing)
    requires Described(cfg, fetches, given, contents, before)
    ensures Plan(cfg, fetches, given, contents, before, GoalOf(cfg, fetches, given, before))
    ensures GoalOf(cfg, fetches, given, before).arrays.Values <= contents.Keys
  {
    var goal := GoalOf(cfg, fetches, given, before);
    forall x | x in cfg.sources ensures Planned(cfg, x, fetches, given, contents, before, goal) {
      assert Matches(fetches[x], given[x], contents);
    }
    forall x | x in goal.arrays ensures goal.arrays[x] in contents {
      if x in goal.accepted && fetches[x].outcome.Rows? {
        assert Matches(fetches[x], given[x], contents);
      }
    }
  }

  /** A source that is not configured stands where it stood. */
  lemma GoalElsewhere(cfg: Config, fetches: map<string, ArrayFetch>, given: Fetches, before: Standing, x: string)
    requires WellFormed(cfg, given) && x !in cfg.sources
    ensures Agree(x, before.arrays, before.status, GoalOf(cfg, fetches, given, before))
  {}

  lemma GoalReached(cfg: Config, fetches: map<string, ArrayFetch>, given: Fetches, before: Standing,
                    order: seq<string>, arrays: map<string, array<Membership>>, status: map<string, Status>)
    requires WellFormed(cfg, given) && Schedule(cfg, order)
    requires forall x :: x in order ==> Agree(x, arrays, status, GoalOf(cfg, fetches, given, before))
    requires forall x :: x !in order ==> Agree(x, arrays, status, before)
    ensures arrays == GoalOf(cfg, fetches, given, before).arrays
    ensures status == GoalOf(cfg, fetches, given, before).status
  {
    var goal := GoalOf(cfg, fetches, given, before);
    forall x ensures Agree(x, arrays, status, goal) {
      assert x in order <==> x in Elems(order);
      assert x in cfg.sources <==> x in Elems(cfg.sources);
      if x !in order {
        assert Agree(x, arrays, status, before);
        GoalElsewhere(cfg, fetches, given, before, x);
      }
    }
    AgreeEverywhere(arrays, status, goal);
  }

  lemma AgreeEverywhere(arrays: map<string, array<Membership>>, status: map<string, Status>, s: Standing)
    requires forall x :: Agree(x, arrays, status, s)
    ensures arrays == s.arrays && status == s.status
  {
    forall x ensures x in arrays <==> x in s.arrays { assert Agree(x, arrays, status, s); }
    forall x ensures x in status <==> x in s.status { assert Agree(x, arrays, status, s); }
    forall x | x in arrays ensures arrays[x] == s.arrays[x] { assert Agree(x, arrays, status, s); }
    forall x | x in status ensures status[x] == s.status[x] { assert Agree(x, arrays, status, s); }
  }

  lemma GoalContents(cfg: Config, fetches: map<string, ArrayFetch>, given: Fetches,
                     contents: map<array<Membership>, seq<Membership>>, before: Standing)
    requires Described(cfg, fetches, given, contents, before)
    ensures GoalOf(cfg, fetches, given, before).arrays.Values <= contents.Keys
    ensures Contents(GoalOf(cfg, fetches, given, before).arrays, contents) ==
            NextHeld(cfg, Contents(before.arrays, contents), given)
  {
    PlanHolds(cfg, fetches, given, contents, before);
    var goal := GoalOf(cfg, fetches, given, before);
    var next := NextHeld(cfg, Contents(before.arrays, contents), given);
    forall x ensures x in next <==> x in goal.arrays {
      if x in goal.accepted { assert Matches(fetches[x], given[x], contents) && x in Elems(cfg.sources); }
    }
    forall x | x in next ensures next[x] == contents[goal.arrays[x]] {
      if x in goal.accepted { assert Matches(fetches[x], given[x], contents) && x in Elems(cfg.sources); }
    }
  }

  lemma OrderStep(held: Rowsets, order: seq<string>, x: string)
    ensures Gathered(held, order + [x]) == Gathered(held, order) + HeldOf(held, x)
    ensures Elems(order + [x]) == Elems(order) + {x}
  {
    assert (order + [x])[..|order|] == order;
  }

  lemma StarvedIff(cfg: Config, given: Fetches, goal: Standing, contents: map<array<Membership>, seq<Membership>>,
                   held: Rowsets, order: seq<string>, starved: seq<string>)
    requires goal.arrays.Values <= contents.Keys && held == Contents(goal.arrays, contents)
    requires goal.accepted == Accepted(cfg, given) && Schedule(cfg, order)
    requires forall x :: x in starved <==> x in order && Starves(x, goal, contents)
    ensures starved != [] <==> Starved(cfg, held, given) != {}
  {
    assert forall x :: x in order <==> x in Elems(order);
    if starved != [] {
      assert starved[0] in starved;
      assert starved[0] in Starved(cfg, held, given);
    }
    if x :| x in Starved(cfg, held, given) {
      assert x in Elems(cfg.sources);
      assert x in starved;
    }
  }

  lemma AcceptedIff(cfg: Config, given: Fetches, goal: Standing, order: seq<string>, anyFresh: bool)
    requires goal.accepted == Accepted(cfg, given) && Schedule(cfg, order)
    requires anyFresh <==> exists x :: x in order && x in goal.accepted
    ensures anyFresh <==> Accepted(cfg, given) != {}
  {
    if x :| x in goal.accepted {
      assert x in Elems(cfg.sources) && x in Elems(order);
    }
  }
}
