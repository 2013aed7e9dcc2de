/**
 * `JumpListCache`: the SQLite cache of normalised events, one entry per JumpList directory.
 * The two tables are modelled as values: `source_files` as a map from file path (UNIQUE) to
 * its row, `events` as the sequence of its rows in row-id order, with the AUTOINCREMENT
 * counters. A directory's entry is filed under the synthetic path `CacheKey(dir)`; its
 * fingerprint is a digest of the sorted (name, mtime) pairs of the directory's JumpList files.
 */
module Cache {
  import opened Wrappers
  import opened Text
  import opened Paths
  import opened Sorting
  import opened Events

  // ---- The directory being cached ----

  /** A directory entry: the file name and its modification time in whole seconds. */
  datatype FileEntry = FileEntry(name: string, mtime: int)

  /** The file system: each directory, under its `Canon` spelling, lists its files in `scandir` order. */
  type FileSystem = map<string, seq<FileEntry>>

  /** `os.path.isdir(dir)`. */
  predicate IsDir(fs: FileSystem, dir: string) {
    Canon(dir) in fs
  }

  const AutoSuffix: string := ".automaticDestinations-ms"
  const CustomSuffix: string := ".customDestinations-ms"

  /** The pattern `"*" + suffix` matches the name, ignoring case. */
  predicate Matches(e: FileEntry, suffix: string) {
    EndsWith(Lower(e.name), Lower(suffix))
  }

  /** `Path(dir).glob("*" + suffix)` on Windows: the entries whose name ends in `suffix`, ignoring case, in listing order. */
  function Glob(entries: seq<FileEntry>, suffix: string): (r: seq<FileEntry>)
    ensures |r| <= |entries|
    ensures forall e :: e in r <==> e in entries && Matches(e, suffix)
  {
    if entries == [] then []
    else
      var last := entries[|entries| - 1];
      var init := Glob(entries[..|entries| - 1], suffix);
      assert entries == entries[..|entries| - 1] + [last];
      if Matches(last, suffix) then init + [last] else init
  }

  /** The glob works entry by entry and keeps the listing order: it distributes over concatenation. */
  lemma {:induction false} GlobAppend(a: seq<FileEntry>, b: seq<FileEntry>, suffix: string)
    ensures Glob(a + b, suffix) == Glob(a, suffix) + Glob(b, suffix)
  {
    if b == [] {
      assert a + b == a;
    } else {
      var b0 := b[..|b| - 1];
      assert (a + b)[..|a + b| - 1] == a + b0;
      GlobAppend(a, b0, suffix);
    }
  }

  /** The JumpList files of `dir`: automatic destinations first, then custom ones; none when `dir` is not a directory. */
  function JumpListFiles(fs: FileSystem, dir: string): seq<FileEntry> {
    if !IsDir(fs, dir) then []
    else Glob(fs[Canon(dir)], AutoSuffix) + Glob(fs[Canon(dir)], CustomSuffix)
  }

  /** A JumpList file of `dir` is a file listed in `dir` whose name ends in one of the two suffixes. */
  lemma JumpListFilesMembers(fs: FileSystem, dir: string, e: FileEntry)
    ensures e in JumpListFiles(fs, dir) <==>
              IsDir(fs, dir) && e in fs[Canon(dir)] && (Matches(e, AutoSuffix) || Matches(e, CustomSuffix))
  {
  }

  /** Python's `<` on `(name, mtime)` tuples. */
  predicate StampLt(a: FileEntry, b: FileEntry) {
    LexLt(a.name, b.name) || (a.name == b.name && a.mtime < b.mtime)
  }

  function Stamp(e: FileEntry): FileEntry {
    e
  }

  lemma StampOrderIsTotal()
    ensures StrictTotalOrder(StampLt)
  {
    forall a: FileEntry
      ensures !StampLt(a, a)
    {
      LexLtIrreflexive(a.name);
    }
    forall a: FileEntry, b: FileEntry, c: FileEntry | StampLt(a, b) && StampLt(b, c)
      ensures StampLt(a, c)
    {
      if LexLt(a.name, b.name) && LexLt(b.name, c.name) {
        LexLtTransitive(a.name, b.name, c.name);
      }
    }
    forall a: FileEntry, b: FileEntry | a != b
      ensures StampLt(a, b) || StampLt(b, a)
    {
      if a.name != b.name {
        LexLtTotal(a.name, b.name);
      }
    }
  }

  /** `sorted([(f.name, f.mtime) for f in files])`: what the MD5 fingerprint is taken of. */
  function FingerprintInput(files: seq<FileEntry>): (r: seq<FileEntry>)
    ensures multiset(r) == multiset(files)
  {
    InsertionSort(files, Stamp, StampLt)
  }

  /** The fingerprint input is sorted by name, then by time. */
  lemma FingerprintInputSorted(files: seq<FileEntry>)
    ensures Sorted(FingerprintInput(files), Stamp, StampLt)
  {
    StampOrderIsTotal();
    SortSorted(files, Stamp, StampLt);
  }

  /** The fingerprint does not depend on the order the directory lists its files in. */
  lemma FingerprintOrderFree(a: seq<FileEntry>, b: seq<FileEntry>)
    requires multiset(a) == multiset(b)
    ensures FingerprintInput(a) == FingerprintInput(b)
  {
    StampOrderIsTotal();
    SortPermutationInvariant(a, b, Stamp, StampLt);
  }

  /** Any change to the files (a new, removed, renamed or touched file) changes the fingerprint input. */
  lemma FingerprintSeesChange(a: seq<FileEntry>, b: seq<FileEntry>)
    requires multiset(a) != multiset(b)
    ensures FingerprintInput(a) != FingerprintInput(b)
  {
  }

  /** `max(f.mtime for f in files)`. */
  function LatestMtime(files: seq<FileEntry>): (m: int)
    requires files != []
    ensures forall e | e in files :: e.mtime <= m
    ensures exists e | e in files :: e.mtime == m
  {
    if |files| == 1 then files[0].mtime
    else
      var rest := LatestMtime(files[1..]);
      assert forall e | e in files[1..] :: e in files;
      if files[0].mtime >= rest then files[0].mtime else rest
  }

  // ---- The tables ----

  /** A `source_files` row; the file path is the map key. */
  datatype SourceFile = SourceFile(id: nat, fileHash: string, fileMtime: int, parsedAt: string)

  /** An `events` row: its id, the `source_files` id it was saved under, and the event's columns. */
  datatype EventRow = EventRow(id: nat, sourceFileId: nat, event: JumpListEvent)

  /** The database: both tables and the AUTOINCREMENT counter of each. */
  datatype Db = Db(sourceFiles: map<string, SourceFile>, events: seq<EventRow>,
                   lastSourceId: nat, lastEventId: nat)

  const EmptyDb: Db := Db(map[], [], 0, 0)

  /**
   * What the schema and AUTOINCREMENT guarantee: ids never exceed their counter, source ids are
   * distinct, event ids increase with row order, and `app_id` is never NULL.
   */
  ghost predicate WellFormed(db: Db) {
    && (forall k | k in db.sourceFiles :: db.sourceFiles[k].id <= db.lastSourceId)
    && (forall k, k' | k in db.sourceFiles && k' in db.sourceFiles && k != k' ::
          db.sourceFiles[k].id != db.sourceFiles[k'].id)
    && (forall i | 0 <= i < |db.events| ::
          && db.events[i].id <= db.lastEventId
          && db.events[i].sourceFileId <= db.lastSourceId
          && db.events[i].event.appId.Some?)
    && (forall i, j | 0 <= i < j < |db.events| :: db.events[i].id < db.events[j].id)
  }

  /** The events of the rows saved under source id `sid`, in row order. */
  function RowsOf(rows: seq<EventRow>, sid: nat): (r: seq<JumpListEvent>)
    ensures |r| <= |rows|
    ensures forall e :: e in r <==> exists i | 0 <= i < |rows| :: rows[i].sourceFileId == sid && rows[i].event == e
  {
    if rows == [] then []
    else
      var init := RowsOf(rows[..|rows| - 1], sid);
      if rows[|rows| - 1].sourceFileId == sid then init + [rows[|rows| - 1].event] else init
  }

  /**
   * `get_cached_events`: the events joined to the `source_files` row of `key`; `None` when
   * there is no such row or it has no events.
   */
  function CachedEvents(db: Db, key: string): (r: Option<seq<JumpListEvent>>)
    ensures r.Some? ==> r.value != [] && key in db.sourceFiles
  {
    if key !in db.sourceFiles then None
    else
      var rows := RowsOf(db.events, db.sourceFiles[key].id);
      if rows == [] then None else Some(rows)
  }

  /** `_is_file_cached`: the directory has JumpList files and its entry carries their current fingerprint. */
  function IsCached(db: Db, digest: seq<FileEntry> -> string, fs: FileSystem, dir: string): (b: bool)
    ensures b ==> JumpListFiles(fs, dir) != [] && CacheKey(dir) in db.sourceFiles
  {
    var files := JumpListFiles(fs, dir);
    && files != []
    && CacheKey(dir) in db.sourceFiles
    && db.sourceFiles[CacheKey(dir)].fileHash == digest(FingerprintInput(files))
  }

  /** The rows `save_events` inserts for `evs` under source id `sid`, ids from `firstId + 1`. */
  function NewRows(firstId: nat, sid: nat, evs: seq<JumpListEvent>): (r: seq<EventRow>)
    ensures |r| == |evs|
    ensures forall i | 0 <= i < |r| :: r[i] == EventRow(firstId + 1 + i, sid, evs[i])
  {
    seq(|evs|, i requires 0 <= i < |evs| => EventRow(firstId + 1 + i, sid, evs[i]))
  }

  /** An integer SQLite can store: `sqlite3` raises `OverflowError` for one outside signed 64 bits. */
  predicate InInt64(n: int) {
    -0x8000_0000_0000_0000 <= n < 0x8000_0000_0000_0000
  }

  /** An optional integer column binds: `None` becomes NULL, an integer must fit in 64 bits. */
  predicate Binds(n: Option<int>) {
    n.None? || InInt64(n.value)
  }

  /**
   * The `events` insert of one event succeeds: `app_id` is `NOT NULL`, and `file_size` and
   * `entry_number` fit in a SQLite integer.
   */
  predicate Insertable(e: JumpListEvent) {
    e.appId.Some? && Binds(e.fileSize) && Binds(e.entryNumber)
  }

  /**
   * `save_events` commits: the directory has JumpList `files`, their latest mtime binds, and
   * every event's insert succeeds.
   */
  predicate SaveCommits(files: seq<FileEntry>, evs: seq<JumpListEvent>) {
    files != [] && InInt64(LatestMtime(files)) && forall i | 0 <= i < |evs| :: Insertable(evs[i])
  }

  /**
   * `save_events(key, evs)`: replace the `source_files` row of `key` (its old events stay, no
   * longer joined to any row) and insert `evs`; when the directory has no JumpList files or an
   * insert fails (a NULL `app_id`, an integer beyond 64 bits), the transaction rolls back and
   * nothing changes.
   */
  function Save(db: Db, digest: seq<FileEntry> -> string, files: seq<FileEntry>, key: string,
                evs: seq<JumpListEvent>, now: string): (r: Db)
    ensures !SaveCommits(files, evs) ==> r == db
  {
    if !SaveCommits(files, evs) then db
    else Committed(db, NewEntry(digest, files, db.lastSourceId + 1, now), key, evs)
  }

  /** The `source_files` row `save_events` inserts: the fingerprint and latest mtime of `files`. */
  function NewEntry(digest: seq<FileEntry> -> string, files: seq<FileEntry>, sid: nat, now: string): (r: SourceFile)
    requires files != []
    ensures r.id == sid
  {
    SourceFile(sid, digest(FingerprintInput(files)), LatestMtime(files), now)
  }

  /** The tables after a committed save of `evs` under `key` with the new row `entry`. */
  function Committed(db: Db, entry: SourceFile, key: string, evs: seq<JumpListEvent>): (r: Db)
    ensures r.lastSourceId == entry.id
  {
    Db(db.sourceFiles[key := entry], db.events + NewRows(db.lastEventId, entry.id, evs),
       entry.id, db.lastEventId + |evs|)
  }

  /** The shape of a committed save. */
  lemma SaveIsCommitted(db: Db, digest: seq<FileEntry> -> string, files: seq<FileEntry>, key: string,
                        evs: seq<JumpListEvent>, now: string)
    requires SaveCommits(files, evs)
    ensures var entry := NewEntry(digest, files, db.lastSourceId + 1, now);
      Save(db, digest, files, key, evs, now) == Committed(db, entry, key, evs)
  {
  }

  /** `clear_cache`: both tables emptied; the AUTOINCREMENT counters are kept. */
  function Clear(db: Db): (r: Db)
    ensures r.sourceFiles == map[] && r.events == []
    ensures r.lastSourceId == db.lastSourceId && r.lastEventId == db.lastEventId
  {
    db.(sourceFiles := map[], events := [])
  }

  /** The counts `get_statistics` reports (the database file size is not modelled). */
  datatype CacheStats = CacheStats(totalEvents: nat, totalFiles: nat, uniqueApps: nat)

  /**
   * The distinct `app_id` values of the events table. `COUNT(DISTINCT app_id)` skips NULL,
   * which this set would count; the two agree because no stored row has a NULL `app_id`
   * (`WellFormed`).
   */
  function AppIds(rows: seq<EventRow>): set<Option<string>> {
    set i | 0 <= i < |rows| :: rows[i].event.appId
  }

  /** `get_statistics`: every event row counts, including those no `source_files` row joins any more. */
  function Stats(db: Db): (s: CacheStats)
    ensures s.uniqueApps <= s.totalEvents
  {
    CardinalityOfImage(db.events);
    CacheStats(|db.events|, |db.sourceFiles|, |AppIds(db.events)|)
  }

  lemma {:induction false} CardinalityOfImage(rows: seq<EventRow>)
    ensures |AppIds(rows)| <= |rows|
  {
    if rows != [] {
      var init := rows[..|rows| - 1];
      CardinalityOfImage(init);
      assert AppIds(rows) == AppIds(init) + {rows[|rows| - 1].event.appId} by {
        forall a | a in AppIds(rows) ensures a in AppIds(init) + {rows[|rows| - 1].event.appId} {
          var i :| 0 <= i < |rows| && rows[i].event.appId == a;
          if i < |rows| - 1 {
            assert init[i] == rows[i];
          }
        }
      }
    }
  }

  // ---- Properties of the tables ----

  lemma {:induction false} RowsOfAppend(a: seq<EventRow>, b: seq<EventRow>, sid: nat)
    ensures RowsOf(a + b, sid) == RowsOf(a, sid) + RowsOf(b, sid)
  {
    if b == [] {
      assert a + b == a;
    } else {
      var b0 := b[..|b| - 1];
      assert (a + b)[..|a + b| - 1] == a + b0;
      RowsOfAppend(a, b0, sid);
    }
  }

  lemma {:induction false} RowsOfNone(rows: seq<EventRow>, sid: nat)
    requires forall i | 0 <= i < |rows| :: rows[i].sourceFileId != sid
    ensures RowsOf(rows, sid) == []
  {
    if rows != [] {
      RowsOfNone(rows[..|rows| - 1], sid);
    }
  }

  lemma {:induction false} RowsOfNew(firstId: nat, sid: nat, evs: seq<JumpListEvent>)
    ensures RowsOf(NewRows(firstId, sid, evs), sid) == evs
  {
    if evs != [] {
      var init := evs[..|evs| - 1];
      assert NewRows(firstId, sid, evs)[..|evs| - 1] == NewRows(firstId, sid, init);
      RowsOfNew(firstId, sid, init);
    }
  }

  lemma {:induction false} RowsOfOther(firstId: nat, sid: nat, other: nat, evs: seq<JumpListEvent>)
    requires other != sid
    ensures RowsOf(NewRows(firstId, sid, evs), other) == []
  {
    RowsOfNone(NewRows(firstId, sid, evs), other);
  }

  /** Inserting a row with a fresh source id and events with fresh ids keeps the tables well formed. */
  lemma CommittedWellFormed(db: Db, entry: SourceFile, key: string, evs: seq<JumpListEvent>)
    requires WellFormed(db) && entry.id == db.lastSourceId + 1
    requires forall i | 0 <= i < |evs| :: evs[i].appId.Some?
    ensures WellFormed(Committed(db, entry, key, evs))
  {
    var r := Committed(db, entry, key, evs);
    var added := NewRows(db.lastEventId, entry.id, evs);
    assert r.events == db.events + added;
    forall i, j | 0 <= i < j < |r.events|
      ensures r.events[i].id < r.events[j].id
    {
      if j >= |db.events| && i < |db.events| {
        assert r.events[i] == db.events[i];
      }
    }
  }

  /** The tables `save_events` stages before committing are those `Save` describes. */
  lemma StagedIsSave(db: Db, digest: seq<FileEntry> -> string, files: seq<FileEntry>, key: string,
                     evs: seq<JumpListEvent>, now: string, entry: SourceFile,
                     rows: seq<EventRow>, last: nat)
    requires WellFormed(db) && SaveCommits(files, evs)
    requires entry == NewEntry(digest, files, db.lastSourceId + 1, now)
    requires rows == db.events + NewRows(db.lastEventId, entry.id, evs) && last == db.lastEventId + |evs|
    ensures Db(db.sourceFiles[key := entry], rows, entry.id, last) == Save(db, digest, files, key, evs, now)
    ensures WellFormed(Save(db, digest, files, key, evs, now))
  {
    SaveIsCommitted(db, digest, files, key, evs, now);
    CommittedWellFormed(db, entry, key, evs);
  }

  /** A save keeps the tables well formed. */
  lemma SavePreservesWellFormed(db: Db, digest: seq<FileEntry> -> string, files: seq<FileEntry>,
                                key: string, evs: seq<JumpListEvent>, now: string)
    requires WellFormed(db)
    ensures WellFormed(Save(db, digest, files, key, evs, now))
  {
    if SaveCommits(files, evs) {
      SaveIsCommitted(db, digest, files, key, evs, now);
      var entry := NewEntry(digest, files, db.lastSourceId + 1, now);
      CommittedWellFormed(db, entry, key, evs);
    }
  }

  /** The events a committed save reads back under its key: exactly `evs`. */
  lemma CommittedRows(db: Db, entry: SourceFile, key: string, evs: seq<JumpListEvent>)
    requires WellFormed(db) && entry.id == db.lastSourceId + 1
    ensures var r := Committed(db, entry, key, evs);
      key in r.sourceFiles && RowsOf(r.events, r.sourceFiles[key].id) == evs
  {
    var sid := entry.id;
    var added := NewRows(db.lastEventId, sid, evs);
    RowsOfAppend(db.events, added, sid);
    RowsOfNone(db.events, sid);
    RowsOfNew(db.lastEventId, sid, evs);
    assert RowsOf(db.events, sid) + evs == evs;
  }

  /** After a committed save of a non-empty list, `get_cached_events` returns exactly that list. */
  lemma SaveThenGet(db: Db, digest: seq<FileEntry> -> string, files: seq<FileEntry>,
                    key: string, evs: seq<JumpListEvent>, now: string)
    requires WellFormed(db) && SaveCommits(files, evs) && evs != []
    ensures CachedEvents(Save(db, digest, files, key, evs, now), key) == Some(evs)
  {
    SaveIsCommitted(db, digest, files, key, evs, now);
    var entry := NewEntry(digest, files, db.lastSourceId + 1, now);
    CommittedRows(db, entry, key, evs);
  }

  /** Saving an empty list files the entry, yet reads back as a miss. */
  lemma SaveEmptyIsMiss(db: Db, digest: seq<FileEntry> -> string, files: seq<FileEntry>,
                        key: string, now: string)
    requires WellFormed(db) && SaveCommits(files, [])
    ensures key in Save(db, digest, files, key, [], now).sourceFiles
    ensures CachedEvents(Save(db, digest, files, key, [], now), key) == None
  {
    SaveIsCommitted(db, digest, files, key, [], now);
    var entry := NewEntry(digest, files, db.lastSourceId + 1, now);
    CommittedRows(db, entry, key, []);
  }

  /** A committed save under `key` does not change what another key reads back. */
  lemma CommittedKeepsOther(db: Db, entry: SourceFile, key: string, other: string, evs: seq<JumpListEvent>)
    requires WellFormed(db) && entry.id == db.lastSourceId + 1 && other != key
    ensures CachedEvents(Committed(db, entry, key, evs), other) == CachedEvents(db, other)
  {
    if other in db.sourceFiles {
      var oid := db.sourceFiles[other].id;
      RowsOfAppend(db.events, NewRows(db.lastEventId, entry.id, evs), oid);
      RowsOfOther(db.lastEventId, entry.id, oid, evs);
      assert RowsOf(db.events, oid) + [] == RowsOf(db.events, oid);
    }
  }

  /** A save under one key leaves what every other key reads back unchanged. */
  lemma SaveKeepsOtherKeys(db: Db, digest: seq<FileEntry> -> string, files: seq<FileEntry>,
                           key: string, other: string, evs: seq<JumpListEvent>, now: string)
    requires WellFormed(db) && other != key
    ensures CachedEvents(Save(db, digest, files, key, evs, now), other) == CachedEvents(db, other)
  {
    if SaveCommits(files, evs) {
      SaveIsCommitted(db, digest, files, key, evs, now);
      var entry := NewEntry(digest, files, db.lastSourceId + 1, now);
      CommittedKeepsOther(db, entry, key, other, evs);
    }
  }

  /**
   * Replacing an entry orphans its old events: they are no longer read back, but the event
   * count of `get_statistics` still includes them.
   */
  lemma SaveCounts(db: Db, digest: seq<FileEntry> -> string, files: seq<FileEntry>,
                   key: string, evs: seq<JumpListEvent>, now: string)
    requires SaveCommits(files, evs)
    ensures Stats(Save(db, digest, files, key, evs, now)).totalEvents == Stats(db).totalEvents + |evs|
    ensures Stats(Save(db, digest, files, key, evs, now)).totalFiles
            == Stats(db).totalFiles + (if key in db.sourceFiles then 0 else 1)
  {
    SaveIsCommitted(db, digest, files, key, evs, now);
  }

  /** After a committed save under the cache key of `dir`, the cache check for `dir` succeeds. */
  lemma SaveThenIsCached(db: Db, digest: seq<FileEntry> -> string, fs: FileSystem,
                         dir: string, evs: seq<JumpListEvent>, now: string)
    requires SaveCommits(JumpListFiles(fs, dir), evs)
    ensures IsCached(Save(db, digest, JumpListFiles(fs, DirName(CacheKey(dir))), CacheKey(dir), evs, now),
                     digest, fs, dir)
  {
    DirNameOfCacheKey(dir);
    CanonIdempotent(dir);
    var files := JumpListFiles(fs, dir);
    assert JumpListFiles(fs, DirName(CacheKey(dir))) == files;
    SaveIsCommitted(db, digest, files, CacheKey(dir), evs, now);
  }

  /**
   * With a collision-free digest, a cached directory stops being cached once its JumpList files
   * change in any way; listing the same files in another order does not matter.
   */
  lemma ChangedFilesNotCached(db: Db, digest: seq<FileEntry> -> string, fs: FileSystem,
                              fs': FileSystem, dir: string)
    requires forall a, b :: digest(a) == digest(b) ==> a == b
    requires IsCached(db, digest, fs, dir)
    ensures IsCached(db, digest, fs', dir) <==>
              JumpListFiles(fs', dir) != []
              && multiset(JumpListFiles(fs', dir)) == multiset(JumpListFiles(fs, dir))
  {
    var a, b := JumpListFiles(fs, dir), JumpListFiles(fs', dir);
    if multiset(a) == multiset(b) {
      FingerprintOrderFree(a, b);
    }
  }

  /** After `clear_cache` no key reads back and the cache check fails everywhere. */
  lemma ClearForgetsAll(db: Db, digest: seq<FileEntry> -> string, fs: FileSystem, dir: string)
    ensures CachedEvents(Clear(db), CacheKey(dir)) == None
    ensures !IsCached(Clear(db), digest, fs, dir)
    ensures Stats(Clear(db)) == CacheStats(0, 0, 0)
    ensures WellFormed(Clear(db))
  {
    assert AppIds([]) == {};
  }

  // ---- The cache object ----

  /** The cache object: the two tables, their counters, and the digest function (MD5 as hex). */
  class JumpListCache {
    var sourceFiles: map<string, SourceFile>
    var events: seq<EventRow>
    var lastSourceId: nat
    var lastEventId: nat
    const digest: seq<FileEntry> -> string

    /** The database the fields hold. */
    function State(): Db
      reads this
    {
      Db(sourceFiles, events, lastSourceId, lastEventId)
    }

    ghost predicate Valid()
      reads this
    {
      WellFormed(State())
    }

    /** `__init__` on a new database file: both tables are created empty. */
    constructor (digest: seq<FileEntry> -> string)
      ensures Valid() && State() == EmptyDb && this.digest == digest
    {
      sourceFiles := map[];
      events := [];
      lastSourceId := 0;
      lastEventId := 0;
      this.digest := digest;
    }

    /** The JumpList files of `dir`, as the two `glob` calls collect them. */
    static method DirectoryFiles(fs: FileSystem, dir: string) returns (files: seq<FileEntry>)
      ensures files == JumpListFiles(fs, dir)
    {
      files := [];
      if IsDir(fs, dir) {
        var entries := fs[Canon(dir)];
        files := Glob(entries, AutoSuffix) + Glob(entries, CustomSuffix);
      }
    }

    /** `_is_file_cached(dir)`. */
    method IsFileCached(fs: FileSystem, dir: string) returns (cached: bool)
      ensures cached == IsCached(State(), digest, fs, dir)
    {
      var files := JumpListFiles(fs, dir);
      if files == [] {
        return false;
      }
      var key := CacheKey(dir);
      var hash := digest(FingerprintInput(files));
      cached := key in sourceFiles && sourceFiles[key].fileHash == hash;
    }

    /** `get_cached_events(dir)`: the joined rows are read one by one into events. */
    method GetCachedEvents(dir: string) returns (r: Option<seq<JumpListEvent>>)
      ensures r == CachedEvents(State(), CacheKey(dir))
    {
      var key := CacheKey(dir);
      if key !in sourceFiles {
        return None;
      }
      var sid := sourceFiles[key].id;
      var found: seq<JumpListEvent> := [];
      var i := 0;
      while i < |events|
        invariant 0 <= i <= |events|
        invariant found == RowsOf(events[..i], sid)
      {
        assert events[..i + 1][..i] == events[..i];
        if events[i].sourceFileId == sid {
          found := found + [events[i].event];
        }
        i := i + 1;
      }
      assert events[..i] == events;
      r := if found == [] then None else Some(found);
    }

    /**
     * `save_events(key, evs)` at time `now`: delete the old row of `key`, insert the new one,
     * then each event; an event with a NULL `app_id` fails its insert and the transaction rolls
     * back.
     */
    method SaveEvents(fs: FileSystem, key: string, evs: seq<JumpListEvent>, now: string)
      requires Valid()
      modifies this
      ensures Valid()
      ensures State() == Save(old(State()), digest, JumpListFiles(fs, DirName(key)), key, evs, now)
    {
      var files := DirectoryFiles(fs, DirName(key));
      SaveFiles(files, key, evs, now);
    }

    /** The body of `save_events` once the JumpList files of the key's directory are listed. */
    method SaveFiles(files: seq<FileEntry>, key: string, evs: seq<JumpListEvent>, now: string)
      requires Valid()
      modifies this
      ensures Valid()
      ensures State() == Save(old(State()), digest, files, key, evs, now)
    {
      if files != [] {
        // The transaction: the old row of `key` is deleted and the new one inserted, then the
        // events; nothing of it reaches the tables unless every insert succeeds.
        var entry := NewEntry(digest, files, lastSourceId + 1, now);
        if InInt64(entry.fileMtime) {
          var ok, rows, last := InsertEvents(events, lastEventId, entry.id, evs);
          if ok {
            Commit(files, key, evs, now, entry, rows, last);
          }
        }
      }
    }

    /** The commit of `save_events`: the staged row and events become the tables. */
    method Commit(files: seq<FileEntry>, key: string, evs: seq<JumpListEvent>, now: string,
                  entry: SourceFile, rows: seq<EventRow>, last: nat)
      requires Valid() && SaveCommits(files, evs)
      requires entry == NewEntry(digest, files, lastSourceId + 1, now)
      requires rows == events + NewRows(lastEventId, entry.id, evs) && last == lastEventId + |evs|
      modifies this
      ensures Valid()
      ensures State() == Save(old(State()), digest, files, key, evs, now)
    {
      StagedIsSave(State(), digest, files, key, evs, now, entry, rows, last);
      sourceFiles, events, lastSourceId, lastEventId := sourceFiles[key := entry], rows, entry.id, last;
    }

    /**
     * The insert loop of `save_events`: one row per event under source id `sid`, appended to
     * `rows` with ids after `lastId`; it stops with `false` at the first event whose insert
     * raises (a NULL `app_id`, or a size or entry number beyond 64 bits).
     */
    static method InsertEvents(rows: seq<EventRow>, lastId: nat, sid: nat, evs: seq<JumpListEvent>)
      returns (ok: bool, rows': seq<EventRow>, lastId': nat)
      ensures ok <==> forall j | 0 <= j < |evs| :: Insertable(evs[j])
      ensures ok ==> rows' == rows + NewRows(lastId, sid, evs) && lastId' == lastId + |evs|
    {
      rows', lastId' := rows, lastId;
      var i := 0;
      while i < |evs|
        invariant 0 <= i <= |evs|
        invariant forall j | 0 <= j < i :: Insertable(evs[j])
        invariant rows' == rows + NewRows(lastId, sid, evs[..i])
        invariant lastId' == lastId + i
      {
        if !Insertable(evs[i]) {
          return false, rows', lastId';
        }
        lastId' := lastId' + 1;
        rows' := rows' + [EventRow(lastId', sid, evs[i])];
        assert NewRows(lastId, sid, evs[..i + 1])
               == NewRows(lastId, sid, evs[..i]) + [EventRow(lastId', sid, evs[i])];
        i := i + 1;
      }
      assert evs[..i] == evs;
      ok := true;
    }

    /** `get_statistics`. */
    method GetStatistics() returns (s: CacheStats)
      ensures s == Stats(State())
    {
      s := Stats(State());
    }

    /** `clear_cache`. */
    method ClearCache()
      requires Valid()
      modifies this
      ensures Valid()
      ensures State() == Clear(old(State()))
    {
      events := [];
      sourceFiles := map[];
    }
  }
}
