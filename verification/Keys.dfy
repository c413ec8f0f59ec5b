/** The GitHub key cache of internal/keys: last-good retention and its per-handle files. */
module Keys {
  import opened Lists
  import opened Text

  /** Times are 0 until first recorded. */
  datatype Entry = Entry(handle: string, keys: seq<string>, fetchedAt: nat, lastAttempt: nat, lastError: string)

  datatype Result = Got(keys: seq<string>) | Failed(error: string)

  // ----- File names -----

  const EXTENSION := ".json"

  predicate SafeChar(c: char) {
    'a' <= c <= 'z' || '0' <= c <= '9' || c == '-' || c == '_'
  }

  predicate Safe(key: string) {
    key != "" && forall i :: 0 <= i < |key| ==> SafeChar(key[i])
  }

  predicate HasExtension(name: string) {
    |name| >= |EXTENSION| && name[|name| - |EXTENSION|..] == EXTENSION
  }

  function Stem(name: string): string
    requires HasExtension(name)
  {
    name[..|name| - |EXTENSION|]
  }

  /** Small letters, digits, hyphens and underscores, by their ASCII codes. */
  lemma SafeIff(key: string)
    ensures Safe(key) <==>
            key != "" && forall i :: 0 <= i < |key| ==>
                           var c := key[i] as int; 97 <= c <= 122 || 48 <= c <= 57 || c == 45 || c == 95
  {}

  lemma StemOfFile(key: string)
    ensures HasExtension(key + EXTENSION) && Stem(key + EXTENSION) == key
  {}

  /** entryFileName: a plain login-shaped key names a file, anything else is refused. */
  method EntryFileName(key: string) returns (name: string, ok: bool)
    ensures ok <==> Safe(key)
    ensures ok ==> name == key + ".json"
  {
    if key == "" {
      return "", false;
    }
    for i := 0 to |key|
      invariant forall j :: 0 <= j < i ==> SafeChar(key[j])
    {
      if !SafeChar(key[i]) {
        return "", false;
      }
    }
    return key + EXTENSION, true;
  }

  // ----- The cache as a transition system -----

  datatype State = State(entries: map<string, Entry>, files: map<string, Entry>)

  /** Each with how its disk operations go: whether the entry is written, whose files cannot be removed. */
  datatype Event =
    | Fetch(handle: string, at: nat, result: Result, written: bool)
    | Prune(handles: seq<string>, stuck: set<string>)
    | Restart(diskLost: bool, readable: bool)

  function Refreshed(entries: map<string, Entry>, handle: string, at: nat, result: Result): Entry {
    var key := ToLower(handle);
    var e := if key in entries then entries[key] else Entry(handle, [], 0, 0, "");
    match result
    case Failed(error) => e.(lastAttempt := at, lastError := error)
    case Got(keys) => e.(lastAttempt := at, keys := keys, fetchedAt := at, lastError := "")
  }

  ghost function Wanted(handles: seq<string>): set<string> {
    set h | h in handles :: ToLower(h)
  }

  /** The files of a directory, as loadCache reads them back. */
  ghost function Loaded(files: map<string, Entry>): map<string, Entry> {
    map k | k in (set n | n in files && HasExtension(n) :: Stem(n)) && k + EXTENSION in files :: files[k + EXTENSION]
  }

  ghost function Dropped(entries: map<string, Entry>, handles: seq<string>): set<string> {
    entries.Keys - Wanted(handles)
  }

  ghost function FileOf(keys: set<string>): set<string> {
    set k | k in keys && Safe(k) :: k + EXTENSION
  }

  ghost function Next(s: State, e: Event): State {
    match e
    case Fetch(h, at, result, written) =>
      var key, entry := ToLower(h), Refreshed(s.entries, h, at, result);
      State(s.entries[key := entry],
            if result.Got? && Safe(key) && written then s.files[key + EXTENSION := entry] else s.files)
    case Prune(hs, stuck) =>
      State(s.entries - Dropped(s.entries, hs), s.files - FileOf(Dropped(s.entries, hs) - stuck))
    case Restart(diskLost, readable) =>
      var files := if diskLost then map[] else s.files;
      State(if readable then Loaded(files) else map[], files)
  }

  ghost function Run(s: State, events: seq<Event>): State {
    Fold(Next, s, events)
  }

  ghost function After(events: seq<Event>): State {
    Run(State(map[], map[]), events)
  }

  // ----- The directory and the cache object -----

  /** The cache directory; disabled when none is configured. */
  class Directory {
    const enabled: bool
    var files: map<string, Entry>

    constructor (enabled: bool)
      ensures this.enabled == enabled && files == map[]
    {
      this.enabled, files := enabled, map[];
    }

    /** writeEntry: temp file and rename, so all or nothing. */
    method Write(key: string, e: Entry, succeeds: bool)
      modifies this
      ensures files == if enabled && Safe(key) && succeeds then old(files)[key + EXTENSION := e] else old(files)
    {
      if !enabled {
        return;
      }
      var name, ok := EntryFileName(key);
      if ok && succeeds {
        files := files[name := e];
      }
    }

    /** removeEntry: a missing file is not an error. */
    method Remove(key: string, succeeds: bool)
      modifies this
      ensures files == if enabled && Safe(key) && succeeds then old(files) - {key + EXTENSION} else old(files)
    {
      if !enabled {
        return;
      }
      var name, ok := EntryFileName(key);
      if ok && succeeds {
        files := files - {name};
      }
    }

    /** loadCache: read every entry file, in any order. */
    method Load() returns (out: map<string, Entry>)
      ensures out == if enabled then Loaded(files) else map[]
    {
      out := map[];
      if !enabled {
        return;
      }
      var todo := files.Keys;
      while todo != {}
        invariant todo <= files.Keys
        invariant forall k :: k in out <==> k + EXTENSION in files && k + EXTENSION !in todo
        invariant forall k :: k in out ==> out[k] == files[k + EXTENSION]
      {
        var name :| name in todo;
        if HasExtension(name) {
          assert Stem(name) + EXTENSION == name;
          out := out[Stem(name) := files[name]];
        }
        forall k ensures k + EXTENSION == name <==> HasExtension(name) && Stem(name) == k { StemOfFile(k); }
        todo := todo - {name};
      }
      LoadedKeys(files);
    }
  }

  lemma LoadedKeys(files: map<string, Entry>)
    ensures forall k :: k in Loaded(files) <==> k + EXTENSION in files
  {
    forall k ensures k in Loaded(files) <==> k + EXTENSION in files {
      StemOfFile(k);
    }
  }

  class Cache {
    const dir: Directory
    var entries: map<string, Entry>
    var lastFetch: nat
    var warmed: bool

    constructor (dir: Directory)
      ensures this.dir == dir && entries == map[] && !warmed
    {
      this.dir, entries, lastFetch, warmed := dir, map[], 0, false;
    }

    /** The part of Start that seeds the cache from disk. */
    method Seed(readable: bool)
      modifies this
      ensures entries ==
              if readable && dir.enabled && Loaded(dir.files) != map[] then Loaded(dir.files) else old(entries)
      ensures warmed == (old(warmed) || (readable && dir.enabled && Loaded(dir.files) != map[]))
    {
      if !readable {
        return;
      }
      var cached := dir.Load();
      if |cached| > 0 {
        entries := cached;
        warmed := true;
      }
    }

    method Get(handle: string) returns (e: Option<Entry>)
      ensures e == if ToLower(handle) in entries then Some(entries[ToLower(handle)]) else None
    {
      var key := ToLower(handle);
      e := if key in entries then Some(entries[key]) else None;
    }

    /** fetchOne: a failure keeps the last good keys, a success replaces and persists them. */
    method FetchOne(handle: string, at: nat, result: Result, written: bool) returns (e: Entry)
      modifies this, dir
      ensures entries == old(entries)[ToLower(handle) := e] && warmed == old(warmed)
      ensures e == Refreshed(old(entries), handle, at, result)
      ensures lastFetch == if result.Got? then at else old(lastFetch)
      ensures dir.files == if result.Got? && dir.enabled && Safe(ToLower(handle)) && written
                           then old(dir.files)[ToLower(handle) + EXTENSION := e] else old(dir.files)
    {
      var key := ToLower(handle);
      e := if key in entries then entries[key] else Entry(handle, [], 0, 0, "");
      e := e.(lastAttempt := at);
      if result.Failed? {
        e := e.(lastError := result.error);
        entries := entries[key := e];
        return;
      }
      e := e.(keys := result.keys);
      e := e.(fetchedAt := at);
      e := e.(lastError := "");
      entries := entries[key := e];
      lastFetch := at;
      dir.Write(key, e, written);
    }

    /** prune: forget handles that left the desired set; removing the files of `stuck` fails. */
    method Prune(handles: seq<string>, stuck: set<string>)
      modifies this, dir
      ensures entries == old(entries) - Dropped(old(entries), handles) && warmed == old(warmed)
      ensures dir.files == if dir.enabled then old(dir.files) - FileOf(Dropped(old(entries), handles) - stuck)
                           else old(dir.files)
    {
      var want := set h | h in handles :: ToLower(h);
      var removed: set<string> := {};
      var todo := entries.Keys;
      while todo != {}
        invariant todo <= old(entries).Keys && removed == (old(entries).Keys - todo) - want
        invariant entries == old(entries) - removed && warmed == old(warmed)
        invariant dir.files == old(dir.files)
      {
        var key :| key in todo;
        if key !in want {
          entries := entries - {key};
          removed := removed + {key};
        }
        todo := todo - {key};
      }
      RemoveFiles(removed, stuck);
    }

    method RemoveFiles(removed: set<string>, stuck: set<string>)
      modifies dir
      ensures dir.files == if dir.enabled then old(dir.files) - FileOf(removed - stuck) else old(dir.files)
    {
      var todo := removed;
      while todo != {}
        invariant todo <= removed
        invariant dir.files == if dir.enabled then old(dir.files) - FileOf(removed - todo - stuck) else old(dir.files)
      {
        var key :| key in todo;
        dir.Remove(key, key !in stuck);
        FileOfAdd(removed - todo - stuck, key);
        assert removed - (todo - {key}) - stuck ==
               if key in stuck then removed - todo - stuck else removed - todo - stuck + {key};
        todo := todo - {key};
      }
      assert removed - {} - stuck == removed - stuck;
    }

    /** Snapshot: a copy of every entry, for the publisher. */
    method Snapshot() returns (out: map<string, Entry>)
      ensures out == entries
    {
      out := map[];
      var todo := entries.Keys;
      while todo != {}
        invariant todo <= entries.Keys && out.Keys == entries.Keys - todo
        invariant forall k :: k in out ==> out[k] == entries[k]
      {
        var k :| k in todo;
        out := out[k := entries[k]];
        todo := todo - {k};
      }
    }
  }

  lemma FileOfAdd(keys: set<string>, key: string)
    ensures FileOf(keys + {key}) == FileOf(keys) + (if Safe(key) then {key + EXTENSION} else {})
  {}

  /** The object's methods are the transitions. */
  method Step(c: Cache, e: Event) returns (c': Cache)
    requires c.dir.enabled
    modifies c, c.dir
    ensures c'.dir.enabled && (c' == c || fresh(c')) && (c'.dir == c.dir || fresh(c'.dir))
    ensures State(c'.entries, c'.dir.files) == Next(old(State(c.entries, c.dir.files)), e)
  {
    c' := c;
    match e {
      case Fetch(h, at, result, written) =>
        var entry := c.FetchOne(h, at, result, written);
      case Prune(hs, stuck) =>
        c.Prune(hs, stuck);
      case Restart(diskLost, readable) =>
        var dir := c.dir;
        if diskLost {
          dir := new Directory(true);
        }
        c' := new Cache(dir);
        c'.Seed(readable);
    }
  }

  // ----- What the events do, spelt out -----

  /** Some handle of the list is this key, in some casing. */
  ghost predicate Includes(handles: seq<string>, k: string) {
    exists i :: 0 <= i < |handles| && SameUpToCase(handles[i], k)
  }

  lemma WantedIff(handles: seq<string>, h: string)
    ensures ToLower(h) in Wanted(handles) <==> Includes(handles, h)
  {
    if x :| x in handles && ToLower(x) == ToLower(h) {
      var i :| 0 <= i < |handles| && handles[i] == x;
      FoldIff(handles[i], h);
    }
    if i :| 0 <= i < |handles| && SameUpToCase(handles[i], h) {
      FoldIff(handles[i], h);
      assert handles[i] in handles;
    }
  }

  /**
   A prune keeps exactly the entries some listed handle is for, in any casing, as they were; and it removes
   exactly the files of the others that are safe and can be removed.
   */
  lemma PrunePlainly(s: State, handles: seq<string>, stuck: set<string>, h: string)
    ensures var s', k := Next(s, Prune(handles, stuck)), ToLower(h);
            && (k in s'.entries <==> k in s.entries && Includes(handles, h))
            && (k in s'.entries ==> s'.entries[k] == s.entries[k])
            && (k + ".json" in s'.files <==>
                  k + ".json" in s.files && (Includes(handles, h) || k !in s.entries || k in stuck || !Safe(k)))
            && (k + ".json" in s'.files ==> s'.files[k + ".json"] == s.files[k + ".json"])
  {
    var k := ToLower(h);
    WantedIff(handles, h);
    if k + EXTENSION in FileOf(Dropped(s.entries, handles) - stuck) {
      var j :| j in Dropped(s.entries, handles) - stuck && Safe(j) && j + EXTENSION == k + EXTENSION;
      FilesApart(j, k);
    }
  }

  /** The entry of a developer before its first fetch. */
  ghost function EntryBefore(s: State, h: string): Entry {
    if ToLower(h) in s.entries then s.entries[ToLower(h)] else Entry(h, [], 0, 0, "")
  }

  /**
   A fetch touches the entry of its own developer only, however the handle is spelt: a success replaces keys and
   time and clears the error, a failure keeps them and records it, and the attempt is recorded either way.
   */
  lemma FetchPlainly(s: State, h: string, at: nat, result: Result, written: bool, other: string)
    ensures var s', k := Next(s, Fetch(h, at, result, written)), ToLower(h);
            && k in s'.entries && s'.entries[k].handle == EntryBefore(s, h).handle && s'.entries[k].lastAttempt == at
            && match result
               case Got(keys) =>
                 s'.entries[k].keys == keys && s'.entries[k].fetchedAt == at && s'.entries[k].lastError == ""
               case Failed(error) =>
                 && s'.entries[k].keys == EntryBefore(s, h).keys
                 && s'.entries[k].fetchedAt == EntryBefore(s, h).fetchedAt && s'.entries[k].lastError == error
    ensures var s' := Next(s, Fetch(h, at, result, written));
            !SameUpToCase(other, h) ==>
              && (ToLower(other) in s'.entries <==> ToLower(other) in s.entries)
              && (ToLower(other) in s.entries ==> s'.entries[ToLower(other)] == s.entries[ToLower(other)])
    ensures var s', k := Next(s, Fetch(h, at, result, written)), ToLower(h);
            s'.files == if result.Got? && written && Safe(k) then s.files[k + ".json" := s'.entries[k]] else s.files
  {
    FoldIff(other, h);
  }

  /** A restart reads back exactly the files with the extension, each under its name without it. */
  lemma RestartPlainly(s: State, diskLost: bool, readable: bool, k: string)
    ensures var s' := Next(s, Restart(diskLost, readable));
            && s'.files == (if diskLost then map[] else s.files)
            && (k in s'.entries <==> readable && !diskLost && k + ".json" in s.files)
            && (k in s'.entries ==> s'.entries[k] == s.files[k + ".json"])
  {
    StemOfFile(k);
  }

  /** The event is a success of the developer, however the handle is spelt. */
  ghost predicate FetchedAs(e: Event, h: string) {
    e.Fetch? && e.result.Got? && SameUpToCase(e.handle, h)
  }

  /**
   The walker's promise: while every pass lists a developer, in any casing, the entry carries the keys of the
   latest successful fetch, and its time - for any number of passes and failures, until the process ends.
   */
  lemma {:induction false} ListedKeepsKeys(events: seq<Event>, h: string, i: nat)
    requires i < |events| && FetchedAs(events[i], h)
    requires forall j :: i < j < |events| ==>
               && !events[j].Restart? && !FetchedAs(events[j], h)
               && (events[j].Prune? ==> Includes(events[j].handles, h))
    ensures var m := After(events).entries;
            && ToLower(h) in m && m[ToLower(h)].keys == events[i].result.keys && m[ToLower(h)].fetchedAt == events[i].at
  {
    var front, e := events[..|events| - 1], events[|events| - 1];
    if i == |front| {
      FoldIff(e.handle, h);
    } else {
      assert events[i] == front[i];
      forall j | i < j < |front| ensures front[j] == events[j] {}
      ListedKeepsKeys(front, h, i);
      match e {
        case Fetch(x, at, result, written) => FoldIff(x, h);
        case Prune(hs, stuck) => WantedIff(hs, h);
        case Restart(_, _) =>
      }
    }
  }

  // ----- Last good keys, and their files -----

  datatype Success = Success(keys: seq<string>, at: nat)

  /** The latest successful fetch of a key since it was last dropped from the desired set. */
  ghost function Latest(events: seq<Event>, k: string): Option<Success> {
    if events == [] then None
    else
      var before := Latest(events[..|events| - 1], k);
      match events[|events| - 1]
      case Fetch(h, at, result, _) => if ToLower(h) == k && result.Got? then Some(Success(result.keys, at)) else before
      case Prune(hs, _) => if k in Wanted(hs) then before else None
      case Restart(_, _) => before
  }

  ghost predicate Timed(events: seq<Event>) {
    forall i :: 0 <= i < |events| && events[i].Fetch? ==> events[i].at != 0
  }

  /** No disk operation on this key's file fails, and the directory survives and can be read at every restart. */
  ghost predicate Spared(e: Event, k: string) {
    match e
    case Fetch(h, _, _, written) => ToLower(h) == k ==> written
    case Prune(_, stuck) => k !in stuck
    case Restart(diskLost, readable) => !diskLost && readable
  }

  ghost predicate AllSpared(events: seq<Event>, k: string) {
    forall i :: 0 <= i < |events| ==> Spared(events[i], k)
  }

  ghost predicate Current(m: map<string, Entry>, k: string, latest: Option<Success>) {
    && (latest.Some? <==> k in m && m[k].fetchedAt != 0)
    && (latest.Some? ==> m[k].keys == latest.value.keys && m[k].fetchedAt == latest.value.at)
  }

  ghost predicate OnDisk(files: map<string, Entry>, k: string, latest: Option<Success>) {
    && (latest.Some? <==> k + EXTENSION in files)
    && (latest.Some? ==>
          && files[k + EXTENSION].keys == latest.value.keys
          && files[k + EXTENSION].fetchedAt == latest.value.at)
  }

  lemma FilesApart(j: string, k: string)
    ensures j + EXTENSION == k + EXTENSION <==> j == k
  {
    StemOfFile(j);
    StemOfFile(k);
  }

  lemma DroppedFile(keys: set<string>, k: string)
    requires Safe(k)
    ensures k + EXTENSION in FileOf(keys) <==> k in keys
  {
    if k + EXTENSION in FileOf(keys) {
      var j :| j in keys && Safe(j) && j + EXTENSION == k + EXTENSION;
      FilesApart(j, k);
    }
  }

  /**
   In every run in which the operations on a safe key's own file succeed - restarts included, whatever
   happens to other files - its entry carries its latest success since it was last absent, a file
   exists exactly when there is one, and the file agrees on keys and time.
   */
  lemma {:induction false} MemoryAndDiskAgree(events: seq<Event>, k: string)
    requires Timed(events) && Safe(k) && AllSpared(events, k)
    ensures Current(After(events).entries, k, Latest(events, k))
    ensures OnDisk(After(events).files, k, Latest(events, k))
  {
    if events == [] {
    } else {
      var front, e := events[..|events| - 1], events[|events| - 1];
      MemoryAndDiskAgree(front, k);
      var s := After(front);
      assert Spared(e, k);
      match e {
        case Fetch(h, at, result, written) => FilesApart(ToLower(h), k);
        case Prune(hs, stuck) => DroppedFile(Dropped(s.entries, hs) - stuck, k);
        case Restart(diskLost, readable) => LoadedKeys(s.files);
      }
    }
  }

  /** Only safe keys ever reach the disk. */
  lemma {:induction false} OnlySafeKeysOnDisk(events: seq<Event>, k: string)
    ensures k + EXTENSION in After(events).files ==> Safe(k)
  {
    if events == [] {
    } else {
      OnlySafeKeysOnDisk(events[..|events| - 1], k);
      if events[|events| - 1].Fetch? { FilesApart(ToLower(events[|events| - 1].handle), k); }
    }
  }

  /** Without restarts memory keeps the last good keys of every key, safe or not, whatever the disk does. */
  lemma {:induction false} LastGoodKept(events: seq<Event>, k: string)
    requires Timed(events) && forall i :: 0 <= i < |events| ==> !events[i].Restart?
    ensures Current(After(events).entries, k, Latest(events, k))
  {
    if events == [] {
    } else {
      LastGoodKept(events[..|events| - 1], k);
    }
  }

  /** Some fetch of the key returned exactly these keys at this time. */
  ghost predicate Once(events: seq<Event>, k: string, e: Entry) {
    exists i :: 0 <= i < |events| && events[i].Fetch? && ToLower(events[i].handle) == k
      && events[i].result == Got(e.keys) && events[i].at == e.fetchedAt
  }

  lemma OnceStill(events: seq<Event>, k: string, e: Entry)
    requires events != [] && Once(events[..|events| - 1], k, e)
    ensures Once(events, k, e)
  {
    var front := events[..|events| - 1];
    var i :| 0 <= i < |front| && front[i].Fetch? && ToLower(front[i].handle) == k
      && front[i].result == Got(e.keys) && front[i].at == e.fetchedAt;
    assert events[i] == front[i];
  }

  /**
   Whatever disk operations fail, nothing is ever made up or mixed: a file holds what one fetch of its
   key returned, and so does an entry - unless the key has never been fetched, when it has no keys.
   */
  lemma {:induction false} OnlyWhatWasFetched(events: seq<Event>, k: string)
    ensures k + EXTENSION in After(events).files ==> Once(events, k, After(events).files[k + EXTENSION])
    ensures k in After(events).entries ==>
              Once(events, k, After(events).entries[k])
              || (After(events).entries[k].keys == [] && After(events).entries[k].fetchedAt == 0)
  {
    if events == [] {
    } else {
      var front, e := events[..|events| - 1], events[|events| - 1];
      var s := After(front);
      OnlyWhatWasFetched(front, k);
      if k + EXTENSION in s.files && Once(front, k, s.files[k + EXTENSION]) {
        OnceStill(events, k, s.files[k + EXTENSION]);
      }
      if k in s.entries && Once(front, k, s.entries[k]) {
        OnceStill(events, k, s.entries[k]);
      }
      match e {
        case Fetch(h, at, result, written) =>
          FilesApart(ToLower(h), k);
          FetchedOnce(events, k, s.entries);
        case Prune(hs, stuck) =>
        case Restart(diskLost, readable) => LoadedKeys(s.files);
      }
    }
  }

  /** The entry a fetch of the key leaves is what it returned, or what was there before with a new error. */
  lemma FetchedOnce(events: seq<Event>, k: string, entries: map<string, Entry>)
    requires events != [] && events[|events| - 1].Fetch?
    requires k in entries ==> Once(events, k, entries[k]) || (entries[k].keys == [] && entries[k].fetchedAt == 0)
    ensures var e := events[|events| - 1]; var entry := Refreshed(entries, e.handle, e.at, e.result);
            ToLower(e.handle) == k ==>
              && (e.result.Got? ==> Once(events, k, entry))
              && (Once(events, k, entry) || (entry.keys == [] && entry.fetchedAt == 0))
  {
    var e := events[|events| - 1];
    var entry := Refreshed(entries, e.handle, e.at, e.result);
    if ToLower(e.handle) == k && e.result.Failed? && k in entries && Once(events, k, entries[k]) {
      var i :| 0 <= i < |events| && events[i].Fetch? && ToLower(events[i].handle) == k
        && events[i].result == Got(entries[k].keys) && events[i].at == entries[k].fetchedAt;
      assert events[i].result == Got(entry.keys);
    }
  }

  /** The event neither fetches the key successfully nor forgets it. */
  ghost predicate LeavesAlone(e: Event, k: string) {
    match e
    case Fetch(h, _, result, _) => ToLower(h) == k ==> result.Failed?
    case Prune(hs, _) => k in Wanted(hs)
    case Restart(_, _) => false
  }

  ghost predicate AllLeaveAlone(events: seq<Event>, k: string) {
    forall i :: 0 <= i < |events| ==> LeavesAlone(events[i], k)
  }

  lemma {:induction false} StillShows(s: State, events: seq<Event>, k: string, x: Success)
    requires AllLeaveAlone(events, k)
    ensures Current(Run(s, events).entries, k, Some(x)) <==> Current(s.entries, k, Some(x))
  {
    if events == [] {
    } else {
      StillShows(s, events[..|events| - 1], k, x);
      assert LeavesAlone(events[|events| - 1], k);
    }
  }

  // ----- Exactly when last good keys are remembered -----

  ghost predicate Succeeds(e: Event, k: string) {
    e.Fetch? && ToLower(e.handle) == k && e.result.Got?
  }

  /** Successful fetches of the key happen at increasing times. */
  ghost predicate Clocked(events: seq<Event>, k: string) {
    && (forall i :: 0 <= i < |events| && Succeeds(events[i], k) ==> events[i].at != 0)
    && forall i, j :: 0 <= i < j < |events| && Succeeds(events[i], k) && Succeeds(events[j], k) ==>
         events[i].at < events[j].at
  }

  /** The latest success was written to a file that nothing has removed since. */
  ghost predicate Persisted(events: seq<Event>, k: string) {
    if events == [] then false
    else
      var before := Persisted(events[..|events| - 1], k);
      match events[|events| - 1]
      case Fetch(h, _, result, written) => if ToLower(h) == k && result.Got? then Safe(k) && written else before
      case Prune(hs, _) => k in Wanted(hs) && before
      case Restart(diskLost, _) => !diskLost && before
  }

  /** The cache has the latest success: it was fetched since the last restart, or read back then. */
  ghost predicate Remembered(events: seq<Event>, k: string) {
    if events == [] then false
    else
      var front := events[..|events| - 1];
      match events[|events| - 1]
      case Fetch(h, _, result, _) => (ToLower(h) == k && result.Got?) || Remembered(front, k)
      case Prune(hs, _) => k in Wanted(hs) && Remembered(front, k)
      case Restart(diskLost, readable) => !diskLost && readable && Persisted(front, k)
  }

  /** The event supersedes no file of the key, drops none, and does not lose the directory. */
  ghost predicate Undisturbed(e: Event, k: string) {
    match e
    case Fetch(_, _, _, _) => !Succeeds(e, k)
    case Prune(hs, _) => k in Wanted(hs)
    case Restart(diskLost, _) => !diskLost
  }

  /** The i-th event wrote the key's file, and nothing has disturbed it since. */
  ghost predicate WrittenAt(events: seq<Event>, k: string, i: nat)
    requires i < |events|
  {
    && Succeeds(events[i], k) && Safe(k) && events[i].written
    && forall j :: i < j < |events| ==> Undisturbed(events[j], k)
  }

  /** Persisted, written out. */
  lemma {:induction false} PersistedIff(events: seq<Event>, k: string)
    ensures Persisted(events, k) <==> exists i: nat :: i < |events| && WrittenAt(events, k, i)
  {
    if events == [] {
    } else {
      var front, e := events[..|events| - 1], events[|events| - 1];
      PersistedIff(front, k);
      assert forall i :: 0 <= i < |front| ==> front[i] == events[i];
      forall i: nat | i < |front| ensures WrittenAt(events, k, i) <==> WrittenAt(front, k, i) && Undisturbed(e, k) {
        if WrittenAt(events, k, i) { assert Undisturbed(events[|front|], k); }
      }
      if Succeeds(e, k) {
        assert WrittenAt(events, k, |front|) <==> Safe(k) && e.written;
      }
    }
  }

  lemma ClockedFront(events: seq<Event>, k: string)
    requires events != [] && Clocked(events, k)
    ensures Clocked(events[..|events| - 1], k)
  {
    var front := events[..|events| - 1];
    assert forall i :: 0 <= i < |front| ==> front[i] == events[i];
  }

  /** What was fetched before is older than a new success. */
  lemma OlderThanLast(events: seq<Event>, k: string, e: Entry)
    requires events != [] && Clocked(events, k) && Succeeds(events[|events| - 1], k)
    requires Once(events[..|events| - 1], k, e)
    ensures e.fetchedAt < events[|events| - 1].at
  {
    var front := events[..|events| - 1];
    var i :| 0 <= i < |front| && front[i].Fetch? && ToLower(front[i].handle) == k
      && front[i].result == Got(e.keys) && front[i].at == e.fetchedAt;
    assert events[i] == front[i] && Succeeds(events[i], k);
  }

  /** The file of the key, if there is one, is of the latest success. */
  ghost predicate FileCurrent(files: map<string, Entry>, k: string, x: Success) {
    k + EXTENSION in files && files[k + EXTENSION].keys == x.keys && files[k + EXTENSION].fetchedAt == x.at
  }

  lemma RememberStep(events: seq<Event>, k: string)
    requires events != [] && Clocked(events, k) && Latest(events, k).Some?
    requires var front := events[..|events| - 1];
             Latest(front, k).Some? ==>
               && (Current(After(front).entries, k, Latest(front, k)) <==> Remembered(front, k))
               && (FileCurrent(After(front).files, k, Latest(front, k).value) <==> Persisted(front, k))
    ensures Current(After(events).entries, k, Latest(events, k)) <==> Remembered(events, k)
    ensures FileCurrent(After(events).files, k, Latest(events, k).value) <==> Persisted(events, k)
  {
    var front, e := events[..|events| - 1], events[|events| - 1];
    var s := After(front);
    OnlyWhatWasFetched(front, k);
    match e {
      case Fetch(h, at, result, written) =>
        FilesApart(ToLower(h), k);
        if Succeeds(e, k) && k + EXTENSION in s.files { OlderThanLast(events, k, s.files[k + EXTENSION]); }
        if Succeeds(e, k) { OnlySafeKeysOnDisk(events, k); }
      case Prune(hs, stuck) =>
        if k + EXTENSION in FileOf(Dropped(s.entries, hs) - stuck) {
          var j :| j in Dropped(s.entries, hs) && Safe(j) && j + EXTENSION == k + EXTENSION;
          FilesApart(j, k);
        }
      case Restart(diskLost, readable) =>
        LatestTimed(front, k);
        LoadedKeys(s.files);
    }
  }

  lemma {:induction false} LatestTimed(events: seq<Event>, k: string)
    requires Clocked(events, k)
    ensures Latest(events, k).Some? ==> Latest(events, k).value.at != 0
  {
    if events == [] {
    } else {
      ClockedFront(events, k);
      LatestTimed(events[..|events| - 1], k);
      assert Succeeds(events[|events| - 1], k) ==> events[|events| - 1].at != 0;
    }
  }

  /**
   In every run, whatever is lost or fails: memory has a handle's latest success exactly when it is
   remembered, and its file exactly when it is persisted.
   */
  lemma {:induction false} RememberedIff(events: seq<Event>, k: string)
    requires Clocked(events, k) && Latest(events, k).Some?
    ensures Current(After(events).entries, k, Latest(events, k)) <==> Remembered(events, k)
    ensures FileCurrent(After(events).files, k, Latest(events, k).value) <==> Persisted(events, k)
  {
    if events == [] {
    } else {
      var front := events[..|events| - 1];
      ClockedFront(events, k);
      if Latest(front, k).Some? { RememberedIff(front, k); }
      RememberStep(events, k);
    }
  }

  /**
   A restart recovers a handle's last good keys exactly when the directory survives and can be read, and
   the latest success was persisted; until the handle is fetched again, nothing changes that.
   */
  lemma RestartRecoversIff(events: seq<Event>, k: string, diskLost: bool, readable: bool, later: seq<Event>)
    requires Clocked(events, k) && Latest(events, k).Some? && AllLeaveAlone(later, k)
    ensures Current(After(events + [Restart(diskLost, readable)] + later).entries, k, Latest(events, k)) <==>
            !diskLost && readable && Persisted(events, k)
  {
    var restarted := events + [Restart(diskLost, readable)];
    assert restarted[..|events|] == events;
    assert Clocked(restarted, k) by {
      assert forall i :: 0 <= i < |restarted| && Succeeds(restarted[i], k) ==>
                           i < |events| && restarted[i] == events[i];
    }
    RememberedIff(restarted, k);
    FoldAppend(Next, State(map[], map[]), restarted, later);
    StillShows(After(restarted), later, k, Latest(events, k).value);
  }

  /** When the operations on a safe key's file succeed, its latest success is always persisted. */
  lemma {:induction false} SparedPersists(events: seq<Event>, k: string)
    requires Safe(k) && AllSpared(events, k)
    ensures Latest(events, k).Some? <==> Persisted(events, k)
  {
    if events == [] {
    } else {
      SparedPersists(events[..|events| - 1], k);
      assert Spared(events[|events| - 1], k);
    }
  }

  lemma {:induction false} PersistedIsLatest(events: seq<Event>, k: string)
    ensures Persisted(events, k) ==> Latest(events, k).Some? && Safe(k)
    ensures Remembered(events, k) ==> Latest(events, k).Some?
  {
    if events == [] {
    } else {
      PersistedIsLatest(events[..|events| - 1], k);
    }
  }

  /** From the n-th event on the key is wanted, and no operation on its file fails. */
  ghost predicate SparedFrom(events: seq<Event>, k: string, n: nat) {
    forall i :: n <= i < |events| ==>
      Spared(events[i], k) && (events[i].Prune? ==> k in Wanted(events[i].handles))
  }

  /** Whatever happened before. */
  lemma {:induction false} RememberedStays(events: seq<Event>, k: string, n: nat)
    requires n <= |events| && SparedFrom(events, k, n)
    requires Remembered(events[..n], k) && Persisted(events[..n], k)
    ensures Remembered(events, k) && Persisted(events, k)
  {
    if n == |events| {
      assert events[..n] == events;
    } else {
      var front := events[..|events| - 1];
      assert front[..n] == events[..n];
      assert SparedFrom(front, k, n) by { assert forall i :: 0 <= i < |front| ==> front[i] == events[i]; }
      RememberedStays(front, k, n);
      PersistedIsLatest(front, k);
      assert Spared(events[|events| - 1], k);
    }
  }

  /** A handle GitHub gives to an app, which the manual list accepts. */
  const BOT := "dependabot[bot]"

  lemma BotIsForgotten(keys: seq<string>, at: nat)
    requires at != 0
    ensures var events := [Fetch(BOT, at, Got(keys), true)];
            && BOT in After(events).entries && After(events).entries[BOT].keys == keys
            && BOT !in After(events + [Restart(false, true)]).entries
  {
    var events := [Fetch(BOT, at, Got(keys), true)];
    assert ToLower(BOT) == BOT;
    assert !SafeChar(BOT[10]);
    assert events[..0] == [];
    assert (events + [Restart(false, true)])[..1] == events;
    OnlySafeKeysOnDisk(events, BOT);
    LoadedKeys(After(events).files);
  }

  /** A failed write is logged and forgotten: the handle is cached, safe and readable, and lost at the restart. */
  lemma FailedWriteIsForgotten(keys: seq<string>, at: nat)
    requires at != 0
    ensures var events := [Fetch("alice", at, Got(keys), false)];
            && Safe("alice") && "alice" in After(events).entries && After(events).entries["alice"].keys == keys
            && "alice" !in After(events + [Restart(false, true)]).entries
  {
    var events := [Fetch("alice", at, Got(keys), false)];
    assert ToLower("alice") == "alice";
    FoldOne(Next, State(map[], map[]), events[0]);
    assert (events + [Restart(false, true)])[..1] == events;
    assert After(events).files == map[];
    LoadedKeys(After(events).files);
  }
}
