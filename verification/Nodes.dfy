/** The writer's and readers' objects: the snapshot row, the publisher and the poller. */
module Nodes {
  import opened Lists
  import opened Text
  import opened Keys
  import opened Syncing
  import opened Syncer
  import opened Replication

  /** The outcome of a query against the row: no row yet is an answer, not an error. */
  datatype Query<T> = Answer(value: Option<T>) | QueryError

  ghost function LastOf(log: seq<Row>): Option<Row> {
    if log == [] then None else Some(log[|log| - 1])
  }

  /** The single-row, last-write-wins table. `log` is every row ever saved; the table keeps only the latest. */
  class RowStore {
    var row: Option<Row>
    ghost var log: seq<Row>

    ghost predicate Valid()
      reads this
    {
      row == LastOf(log)
    }

    constructor ()
      ensures Valid() && log == []
    {
      row := None;
      log := [];
    }

    method Save(generation: int, snap: Snapshot, succeeds: bool) returns (ok: bool)
      requires Valid()
      modifies this
      ensures Valid() && ok == succeeds
      ensures log == old(log) + if succeeds then [Row(generation, snap)] else []
    {
      if succeeds {
        row := Some(Row(generation, snap));
        log := log + [Row(generation, snap)];
      }
      ok := succeeds;
    }

    /** The generation of the row saved last. */
    method Generation(reachable: bool) returns (q: Query<int>)
      requires Valid()
      ensures q.QueryError? <==> !reachable
      ensures q.Answer? ==> (q.value == None <==> log == [])
      ensures q.Answer? && log != [] ==> q.value == Some(log[|log| - 1].generation)
    {
      if !reachable {
        return QueryError;
      }
      q := Answer(if row.Some? then Some(row.value.generation) else None);
    }

    /** The row saved last. */
    method Load(reachable: bool) returns (q: Query<Row>)
      requires Valid()
      ensures q.QueryError? <==> !reachable
      ensures q.Answer? ==> q.value == LastOf(log)
    {
      q := if reachable then Answer(row) else QueryError;
    }
  }

  /** The key cache after these events, as far as it has a directory to keep. */
  ghost predicate CacheReached(cache: Cache, s: Keys.State)
    reads cache, cache.dir
  {
    cache.entries == s.entries && (cache.dir.enabled ==> cache.dir.files == s.files)
  }

  ghost function ReadSome(fetches: Option<map<string, ArrayFetch>>): Option<Fetches>
    reads if fetches.Some? then ArraysOf(fetches.value) else {}
  {
    if fetches.Some? then Some(ReadAll(fetches.value)) else None
  }

  /** A syncer after one sync, or none. */
  ghost function Resynced(cfg: Config, was: Syncing.State, given: Option<Fetches>, order: seq<string>, saved: bool)
    : Syncing.State
  {
    if given.Some? && WellFormed(cfg, given.value) then SyncNext(cfg, was, given.value, order, saved) else was
  }

  class Publisher {
    const rows: RowStore
    const syncer: Syncer
    const keys: Cache?

    constructor (rows: RowStore, syncer: Syncer, keys: Cache?)
      ensures this.rows == rows && this.syncer == syncer && this.keys == keys
    {
      this.rows, this.syncer, this.keys := rows, syncer, keys;
    }

    /** What the walker does to the cache while a publish is under way. */
    method WalkerMoves(cache: Cache, events: seq<Keys.Event>)
      requires forall i :: 0 <= i < |events| ==> !events[i].Restart?
      modifies cache, cache.dir
      ensures CacheReached(cache, Keys.Run(old(Keys.State(cache.entries, cache.dir.files)), events))
    {
      ghost var s := Keys.State(cache.entries, cache.dir.files);
      for i := 0 to |events|
        invariant CacheReached(cache, Keys.Run(s, events[..i]))
      {
        assert events[..i + 1][..i] == events[..i];
        match events[i] {
          case Fetch(h, at, result, written) => var e := cache.FetchOne(h, at, result, written);
          case Prune(hs, stuck) => cache.Prune(hs, stuck);
        }
      }
      assert events[..|events|] == events;
    }

    /** The keys a publish reads, after whatever the walker did first; none when there is no key cache. */
    method CollectKeys(walked: seq<Keys.Event>) returns (entries: map<string, Entry>)
      requires forall i :: 0 <= i < |walked| ==> !walked[i].Restart?
      modifies if keys == null then {} else {keys, keys.dir}
      ensures keys == null ==> entries == map[]
      ensures keys != null ==>
                && entries == keys.entries
                && CacheReached(keys, Keys.Run(old(Keys.State(keys.entries, keys.dir.files)), walked))
    {
      entries := map[];
      if keys != null {
        WalkerMoves(keys, walked);
        entries := keys.Snapshot();
      }
    }

    /** A sync that may run while a publish is under way. */
    method OtherSync(fetches: Option<map<string, ArrayFetch>>, written: bool) returns (ghost order: seq<string>)
      requires fetches.Some? ==> WellFormed(syncer.cfg, ReadAll(fetches.value))
      modifies syncer, syncer.store, syncer.snapshot
      ensures fetches.Some? ==> Schedule(syncer.cfg, order)
      ensures syncer.Now() == Resynced(syncer.cfg, old(syncer.Now()), old(ReadSome(fetches)), order,
                                       syncer.snapshot.enabled && written)
    {
      order := [];
      if fetches.Some? {
        var idx;
        idx, order := syncer.Sync(fetches.value, written);
      }
    }

    /** The keys, after any walker activity, and then the statuses. The syncer is not touched. */
    method ReadKeysAndStatuses(walked: seq<Keys.Event>) returns (entries: map<string, Entry>, statuses: seq<Status>)
      requires forall i :: 0 <= i < |walked| ==> !walked[i].Restart?
      modifies if keys == null then {} else {keys, keys.dir}
      ensures entries == if keys == null then map[] else keys.entries
      ensures StatusListing(syncer.status, statuses)
      ensures syncer.Now() == old(syncer.Now())
    {
      ghost var now := syncer.Now();
      entries := CollectKeys(walked);
      assert syncer.Held() == now.held;
      statuses := syncer.Statuses();
      assert syncer.Held() == now.held;
    }

    /** What a publish reads after the index, with walker activity and perhaps a whole sync on the way. */
    method ReadRest(walked: seq<Keys.Event>, fetches: Option<map<string, ArrayFetch>>, written: bool)
      returns (entries: map<string, Entry>, statuses: seq<Status>, ghost order: seq<string>)
      requires forall i :: 0 <= i < |walked| ==> !walked[i].Restart?
      requires fetches.Some? ==> WellFormed(syncer.cfg, ReadAll(fetches.value))
      modifies syncer, syncer.store, syncer.snapshot, if keys == null then {} else {keys, keys.dir}
      ensures entries == if keys == null then map[] else keys.entries
      ensures StatusListing(syncer.status, statuses)
      ensures fetches.Some? ==> Schedule(syncer.cfg, order)
      ensures syncer.Now() == Resynced(syncer.cfg, old(syncer.Now()), old(ReadSome(fetches)), order,
                                       syncer.snapshot.enabled && written)
    {
      order := OtherSync(fetches, written);
      entries, statuses := ReadKeysAndStatuses(walked);
    }

    /**
     publish: the index served when it began, the keys cached after that, and the statuses after that. Any
     walker activity and a whole sync may run in between: the row then has the old index, with the keys and
     statuses as they are at the end.
     */
    method Publish(generation: int, at: nat, walked: seq<Keys.Event>,
                   fetches: Option<map<string, ArrayFetch>>, written: bool, saved: bool)
      returns (ghost row: Row, ghost order: seq<string>)
      requires rows.Valid()
      requires forall i :: 0 <= i < |walked| ==> !walked[i].Restart?
      requires fetches.Some? ==> WellFormed(syncer.cfg, ReadAll(fetches.value))
      modifies rows, syncer, syncer.store, syncer.snapshot, if keys == null then {} else {keys, keys.dir}
      ensures rows.Valid()
      ensures row.generation == generation && row.snap.generatedAt == at
      ensures row.snap.index == old(syncer.store.current)
      ensures row.snap.index.Some? ==>
                && row.snap.keys == (if keys == null then map[] else keys.entries)
                && StatusListing(syncer.status, row.snap.sources)
                && (fetches.Some? ==> Schedule(syncer.cfg, order))
                && syncer.Now() == Resynced(syncer.cfg, old(syncer.Now()), old(ReadSome(fetches)), order,
                                            syncer.snapshot.enabled && written)
      ensures row.snap.index.None? ==> syncer.Now() == old(syncer.Now())
      ensures rows.log == old(rows.log) + if row.snap.index.Some? && saved then [row] else []
    {
      ghost var was, given := syncer.Now(), ReadSome(fetches);
      var idx := syncer.store.Get();
      assert syncer.Held() == was.held;
      if fetches.Some? {
        assert ReadAll(fetches.value) == given.value;
      }
      row, order := Row(generation, Snapshot(at, idx, map[], [])), [];
      if idx.None? {
        return;
      }
      var entries, statuses;
      entries, statuses, order := ReadRest(walked, fetches, written);
      ghost var now := syncer.Now();
      row := Row(generation, Snapshot(at, idx, entries, statuses));
      var ok := rows.Save(generation, Snapshot(at, idx, entries, statuses), saved);
      assert syncer.Held() == now.held;
    }
  }

  /** keys.Reader: the keys of the last loaded snapshot. */
  class KeyReader {
    var entries: map<string, Entry>
    var generatedAt: nat
    var loaded: bool

    constructor ()
      ensures entries == map[] && generatedAt == 0 && !loaded
    {
      entries, generatedAt, loaded := map[], 0, false;
    }

    method Replace(entries: map<string, Entry>, at: nat)
      modifies this
      ensures this.entries == entries && generatedAt == at && loaded
    {
      this.entries := entries;
      generatedAt := at;
      loaded := true;
    }

    method Get(handle: string) returns (e: Option<Entry>)
      ensures e == if ToLower(handle) in entries then Some(entries[ToLower(handle)]) else None
    {
      var key := ToLower(handle);
      e := if key in entries then Some(entries[key]) else None;
    }

    method Warmed() returns (b: bool)
      ensures b == loaded
    {
      b := loaded;
    }
  }

  class StatusBox {
    var statuses: seq<Status>

    constructor ()
      ensures statuses == []
    {
      statuses := [];
    }

    method Set(statuses: seq<Status>)
      modifies this
      ensures this.statuses == statuses
    {
      this.statuses := statuses;
    }
  }

  /** What load makes of the answers to its two queries. */
  ghost function LoadEffect(shown: Shown, lastGen: int, first: Query<int>, second: Query<Row>, parses: bool)
    : (Shown, int)
  {
    if first.QueryError? || first.value.None? || first.value.value == lastGen then (shown, lastGen)
    else if second.QueryError? || second.value.None? || !parses then (shown, lastGen)
    else
      var snap := second.value.value.snap;
      (Shown(if snap.index.Some? then snap.index else shown.index, snap.keys, snap.generatedAt, true, snap.sources),
       first.value.value)
  }

  ghost function GenerationIn(log: seq<Row>, reachable: bool): Query<int> {
    if !reachable then QueryError else Answer(if log == [] then None else Some(log[|log| - 1].generation))
  }

  ghost function RowIn(log: seq<Row>, reachable: bool): Query<Row> {
    if !reachable then QueryError else Answer(LastOf(log))
  }

  /** The first query is answered with a generation the poller has not loaded. */
  ghost predicate Proceeds(log: seq<Row>, lastGen: int, ending: Ending) {
    !ending.GenerationFails? && log != [] && log[|log| - 1].generation != lastGen
  }

  /** The micro-steps of a load, however it ends and whatever is published between its queries, add up. */
  lemma LoadIsItsSteps(r: Reader, log: seq<Row>, log': seq<Row>, ending: Ending)
    requires r.pc.Idle? && log <= log'
    ensures AfterLoad(r, log, log', ending).pc.Idle?
    ensures (AfterLoad(r, log, log', ending).shown, AfterLoad(r, log, log', ending).lastGen) ==
            LoadEffect(r.shown, r.lastGen, GenerationIn(log, !ending.GenerationFails?),
                       RowIn(log', !ending.RowFails?), !ending.ParseFails?)
  {
    var got := ReaderNext(r, log, ReadGeneration);
    if got.pc.GotGeneration? {
      assert log' != [];
      var row := ReaderNext(got, log', ReadRow);
      assert row.pc == GotRow(got.pc.generation, |log|, log'[|log'| - 1].snap, |log'|);
    } else {
      assert got == r;
    }
  }

  class Poller {
    const rows: RowStore
    const index: IndexStore
    const keys: KeyReader
    const statuses: StatusBox
    var lastGen: int

    constructor (rows: RowStore, index: IndexStore, keys: KeyReader, statuses: StatusBox)
      ensures this.rows == rows && this.index == index && this.keys == keys && this.statuses == statuses && lastGen == 0
    {
      this.rows, this.index, this.keys, this.statuses, lastGen := rows, index, keys, statuses, 0;
    }

    ghost function Now(): Shown
      reads index, keys, statuses
    {
      Shown(index.current, keys.entries, keys.generatedAt, keys.loaded, statuses.statuses)
    }

    /** Serve a loaded row. */
    method Swap(snap: Snapshot, generation: int)
      modifies this, index, keys, statuses
      ensures lastGen == generation
      ensures Now() == Shown(if snap.index.Some? then snap.index else old(index.current),
                             snap.keys, snap.generatedAt, true, snap.sources)
    {
      if snap.index.Some? {
        index.Set(snap.index.value);
      }
      keys.Replace(snap.keys, snap.generatedAt);
      statuses.Set(snap.sources);
      lastGen := generation;
    }

    /**
     load: any number of rows may be `saved` by the writer between the two queries. Whatever happens,
     this is the load of the reader protocol, from the log before those saves to the log after them.
     */
    method Load(saved: seq<Row>, ending: Ending, ghost r: Reader) returns (failed: bool)
      requires rows.Valid()
      requires r.pc.Idle? && r.shown == Now() && r.lastGen == lastGen
      modifies this, rows, index, keys, statuses
      ensures rows.Valid()
      ensures rows.log == old(rows.log) + if Proceeds(old(rows.log), old(lastGen), ending) then saved else []
      ensures failed <==>
              ending.GenerationFails? || (!ending.Succeeds? && Proceeds(old(rows.log), old(lastGen), ending))
      ensures Now() == AfterLoad(r, old(rows.log), rows.log, ending).shown
      ensures lastGen == AfterLoad(r, old(rows.log), rows.log, ending).lastGen
      ensures failed ==> Now() == old(Now()) && lastGen == old(lastGen)
    {
      var first := rows.Generation(!ending.GenerationFails?);
      LoadIsItsSteps(r, rows.log, rows.log, ending);
      if first.QueryError? {
        return true;
      }
      if first.value.None? || first.value.value == lastGen {
        return false;
      }
      OtherSaves(saved);
      ghost var log := old(rows.log);
      LoadIsItsSteps(r, log, rows.log, ending);
      var second := rows.Load(!ending.RowFails?);
      if second.QueryError? {
        return true;
      }
      if second.value.None? {
        return false;
      }
      if ending.ParseFails? {
        return true;
      }
      Swap(second.value.value.snap, first.value.value);
      return false;
    }

    /** What the writer saves while this poller is between its two queries. */
    method OtherSaves(saved: seq<Row>)
      requires rows.Valid()
      modifies rows
      ensures rows.Valid() && rows.log == old(rows.log) + saved
    {
      for i := 0 to |saved|
        invariant rows.Valid() && rows.log == old(rows.log) + saved[..i]
      {
        var ok := rows.Save(saved[i].generation, saved[i].snap, true);
        assert saved[..i + 1] == saved[..i] + [saved[i]];
      }
      assert saved[..|saved|] == saved;
    }
  }
}
