/** The keys the cluster publishes, across syncs, prunes, crashes and restarts of the writer. */
module ClusterKeys {
  import opened Keys
  import opened Syncing
  import opened SyncRuns
  import C = Cluster
  import opened Comeback
  import R = Replication

  // ----- Where a row's keys come from -----

  /** The keys of row i are those of the cache when `marks[i]` of its events had happened. */
  ghost predicate Marked(keyLog: seq<Keys.Event>, row: R.Row, mark: nat) {
    mark <= |keyLog| && row.snap.keys == After(keyLog[..mark]).entries
  }

  ghost predicate MarksOk(c: C.Cluster) {
    && |c.marks| == |c.world.log|
    && (forall i :: 0 <= i < |c.marks| ==> Marked(c.keyLog, c.world.log[i], c.marks[i]))
    && (forall i, j :: 0 <= i <= j < |c.marks| ==> c.marks[i] <= c.marks[j])
    && (c.pending.HasKeys? ==>
          && c.pending.mark <= |c.keyLog| && c.pending.keys == After(c.keyLog[..c.pending.mark]).entries
          && forall i :: 0 <= i < |c.marks| ==> c.marks[i] <= c.pending.mark)
  }

  lemma LongerLog(keyLog: seq<Keys.Event>, e: Keys.Event, mark: nat)
    requires mark <= |keyLog|
    ensures (keyLog + [e])[..mark] == keyLog[..mark]
  {}

  lemma LogGrowsOk(c: C.Cluster, c': C.Cluster, e: Keys.Event)
    requires MarksOk(c) && c'.keyLog == c.keyLog + [e]
    requires c'.marks == c.marks && c'.world == c.world && (c'.pending == c.pending || c'.pending.Nothing?)
    ensures MarksOk(c')
  {
    forall mark: nat | mark <= |c.keyLog| ensures c'.keyLog[..mark] == c.keyLog[..mark] {
      LongerLog(c.keyLog, e, mark);
    }
  }

  lemma PublishMarksOk(c: C.Cluster, e: C.Event)
    requires MarksOk(c) && e.Publish?
    ensures MarksOk(C.Next(c, e))
  {
    if c.pending.HasKeys? && e.saved {
      var row := C.PendingRow(c.pending, e.generation, e.at, e.statuses);
      var c' := C.Next(c, e);
      assert c'.world.log == c.world.log + [row] && c'.marks == c.marks + [c.pending.mark];
      assert Marked(c.keyLog, row, c.pending.mark);
    }
  }

  lemma MarkStep(c: C.Cluster, e: C.Event)
    requires MarksOk(c)
    ensures MarksOk(C.Next(c, e))
  {
    match e {
      case StartKeys(readable) =>
        if c.phase == C.Synced { LogGrowsOk(c, C.Next(c, e), Keys.Restart(c.dirLost, readable)); }
      case KeyStep(k) =>
        if c.phase == C.Up && !k.Restart? { LogGrowsOk(c, C.Next(c, e), k); }
      case CollectKeys => assert c.keyLog[..|c.keyLog|] == c.keyLog;
      case Publish(_, _, _, _) => PublishMarksOk(c, e);
      case Move(_, _) => assert C.Next(c, e).world.log == c.world.log;
      case _ =>
    }
  }

  /** In every reachable state, each row's keys are the cache's at one moment, and later rows' at no earlier one. */
  lemma {:induction false} ReachableMarks(cfg: Config, readers: nat, events: seq<C.Event>)
    ensures MarksOk(C.After(cfg, readers, events))
  {
    if events == [] {
    } else {
      ReachableMarks(cfg, readers, events[..|events| - 1]);
      C.AfterSnoc(cfg, readers, events);
      MarkStep(C.After(cfg, readers, events[..|events| - 1]), events[|events| - 1]);
    }
  }

  // ----- What published keys are -----

  lemma ClockedPrefix(keyLog: seq<Keys.Event>, k: string, mark: nat)
    requires mark <= |keyLog| && Clocked(keyLog, k)
    ensures Clocked(keyLog[..mark], k)
  {
    assert forall i :: 0 <= i < mark ==> keyLog[..mark][i] == keyLog[i];
  }

  /**
   Over any number of writer restarts, lost directories and failed disk operations: a published row carries
   a handle's latest success, as of the moment its keys were read, if and only if it was remembered then.
   */
  lemma PublishedKeysIff(cfg: Config, readers: nat, events: seq<C.Event>, k: string, a: nat)
    requires var c := C.After(cfg, readers, events); Clocked(c.keyLog, k) && a < |c.world.log|
    ensures var c := C.After(cfg, readers, events);
            && a < |c.marks| && c.marks[a] <= |c.keyLog|
            && (Latest(c.keyLog[..c.marks[a]], k).Some? ==>
                  (Current(c.world.log[a].snap.keys, k, Latest(c.keyLog[..c.marks[a]], k)) <==>
                     Remembered(c.keyLog[..c.marks[a]], k)))
  {
    var c := C.After(cfg, readers, events);
    ReachableMarks(cfg, readers, events);
    assert Marked(c.keyLog, c.world.log[a], c.marks[a]);
    ClockedPrefix(c.keyLog, k, c.marks[a]);
    if Latest(c.keyLog[..c.marks[a]], k).Some? { RememberedIff(c.keyLog[..c.marks[a]], k); }
  }

  /** The row has a handle's latest success as of when its keys were read. */
  ghost predicate RowCurrent(c: C.Cluster, k: string, a: nat)
    requires a < |c.world.log| && a < |c.marks| && c.marks[a] <= |c.keyLog|
  {
    var latest := Latest(c.keyLog[..c.marks[a]], k);
    latest.Some? && Current(c.world.log[a].snap.keys, k, latest)
  }

  /**
   From a row on whose keys were both remembered and persisted, and as long as from then on the operations on
   the key's own file succeed and every prune wants it, every row is current - whatever happened before.
   */
  lemma KeysNotErased(cfg: Config, readers: nat, events: seq<C.Event>, k: string, a: nat, b: nat)
    requires var c := C.After(cfg, readers, events);
             && Clocked(c.keyLog, k) && a <= b < |c.world.log|
             && a < |c.marks| && c.marks[a] <= |c.keyLog| && SparedFrom(c.keyLog, k, c.marks[a])
             && RowCurrent(c, k, a) && Persisted(c.keyLog[..c.marks[a]], k)
    ensures var c := C.After(cfg, readers, events);
            b < |c.marks| && c.marks[b] <= |c.keyLog| && RowCurrent(c, k, b)
  {
    var c := C.After(cfg, readers, events);
    ReachableMarks(cfg, readers, events);
    PublishedKeysIff(cfg, readers, events, k, a);
    PublishedKeysIff(cfg, readers, events, k, b);
    var later := c.keyLog[..c.marks[b]];
    assert later[..c.marks[a]] == c.keyLog[..c.marks[a]];
    assert SparedFrom(later, k, c.marks[a]) by {
      assert forall i :: 0 <= i < |later| ==> later[i] == c.keyLog[i];
    }
    RememberedStays(later, k, c.marks[a]);
    PersistedIsLatest(later, k);
  }

  /** A reader's keys are those of some row. */
  lemma ReaderShowsRow(cfg: Config, readers: nat, events: seq<C.Event>, i: nat)
    requires i < |C.After(cfg, readers, events).world.readers|
    ensures var w := C.After(cfg, readers, events).world; var v := w.readers[i].keysVersion;
            v <= |w.log| && (v > 0 ==> w.readers[i].shown.keys == w.log[v - 1].snap.keys)
  {
    C.ReachableWorld(cfg, readers, events);
    assert R.ReaderOk(C.After(cfg, readers, events).world.log, C.After(cfg, readers, events).world.readers[i]);
  }

  /** And so is every reader that has loaded such a row or a later one. */
  lemma KeysNotErasedAtReaders(cfg: Config, readers: nat, events: seq<C.Event>, k: string, i: nat, a: nat)
    requires var c := C.After(cfg, readers, events);
             && Clocked(c.keyLog, k) && a < |c.world.log|
             && a < |c.marks| && c.marks[a] <= |c.keyLog| && SparedFrom(c.keyLog, k, c.marks[a])
             && RowCurrent(c, k, a) && Persisted(c.keyLog[..c.marks[a]], k)
             && i < |c.world.readers| && a < c.world.readers[i].keysVersion
    ensures var c := C.After(cfg, readers, events); var v := c.world.readers[i].keysVersion - 1;
            && v < |c.marks| && c.marks[v] <= |c.keyLog|
            && Latest(c.keyLog[..c.marks[v]], k).Some?
            && Current(c.world.readers[i].shown.keys, k, Latest(c.keyLog[..c.marks[v]], k))
  {
    ReaderShowsRow(cfg, readers, events, i);
    KeysNotErased(cfg, readers, events, k, a, C.After(cfg, readers, events).world.readers[i].keysVersion - 1);
  }

  /** At any instant, a reader's keys are current for their row if and only if they were remembered when read. */
  lemma ReaderKeysIff(cfg: Config, readers: nat, events: seq<C.Event>, k: string, i: nat)
    requires var c := C.After(cfg, readers, events);
             Clocked(c.keyLog, k) && i < |c.world.readers| && c.world.readers[i].keysVersion > 0
    ensures var c := C.After(cfg, readers, events); var v := c.world.readers[i].keysVersion - 1;
            && v < |c.marks| && c.marks[v] <= |c.keyLog|
            && (Latest(c.keyLog[..c.marks[v]], k).Some? ==>
                  (Current(c.world.readers[i].shown.keys, k, Latest(c.keyLog[..c.marks[v]], k)) <==>
                     Remembered(c.keyLog[..c.marks[v]], k)))
  {
    ReaderShowsRow(cfg, readers, events, i);
    PublishedKeysIff(cfg, readers, events, k, C.After(cfg, readers, events).world.readers[i].keysVersion - 1);
  }

  // ----- When a restart erases published keys -----

  lemma LeavingAloneIsComeback(b: Comeback, k: string)
    requires TickOk(b.cfg, b.tick) && AllLeaveAlone(b.fetched, k)
    ensures ComebackOk(b)
  {
    forall i | 0 <= i < |b.fetched| ensures !b.fetched[i].Restart? {
      assert LeavesAlone(b.fetched[i], k);
    }
  }

  /**
   The first row after a writer restart, published before the handle is fetched again, still carries its last
   good keys if and only if the cache directory survived and could be read, and they had been persisted.
   */
  lemma KeysRecoverIff(c: C.Cluster, b: Comeback, k: string)
    requires Clocked(c.keyLog, k) && Latest(c.keyLog, k).Some?
    requires TickOk(b.cfg, b.tick) && AllLeaveAlone(b.fetched, k)
    ensures var log := Recovered(c, b).world.log;
            && log != []
            && (Current(log[|log| - 1].snap.keys, k, Latest(c.keyLog, k)) <==>
                  !c.dirLost && !b.dirLost && b.keysReadable && Persisted(c.keyLog, k))
  {
    LeavingAloneIsComeback(b, k);
    RecoveredIs(c, b);
    RestartRecoversIff(c.keyLog, k, c.dirLost || b.dirLost, b.keysReadable, b.fetched);
  }

  /** A reader that loads that row takes over exactly those keys, or their absence. */
  lemma KeysRecoverAtReadersIff(c: C.Cluster, b: Comeback, k: string, r: R.Reader)
    requires Clocked(c.keyLog, k) && Latest(c.keyLog, k).Some?
    requires TickOk(b.cfg, b.tick) && AllLeaveAlone(b.fetched, k)
    requires r.pc.Idle? && r.lastGen != b.generation
    ensures var log := Recovered(c, b).world.log;
            Current(R.AfterLoad(r, log, log, R.Succeeds).shown.keys, k, Latest(c.keyLog, k)) <==>
              !c.dirLost && !b.dirLost && b.keysReadable && Persisted(c.keyLog, k)
  {
    var log := Recovered(c, b).world.log;
    KeysRecoverIff(c, b, k);
    LeavingAloneIsComeback(b, k);
    RecoveredIs(c, b);
    R.LoadUnlessSkipped(r, log);
    assert !R.Skips(log, r);
  }

  /** On a new directory, publishing before the first fetch replaces everybody's keys by none. */
  lemma NewDirectoryErasesKeys(c: C.Cluster, b: Comeback)
    requires TickOk(b.cfg, b.tick) && b.dirLost && b.fetched == []
    ensures var log := Recovered(c, b).world.log; log != [] && log[|log| - 1].snap.keys == map[]
  {
    RecoveredIs(c, b);
    var restarted := c.keyLog + [Keys.Restart(c.dirLost || b.dirLost, b.keysReadable)];
    assert KeyHistory(c, b) == restarted;
    assert restarted[..|c.keyLog|] == c.keyLog;
    LoadedKeys(map[]);
  }
}
