/**
 The persistent per-package cache: one session from opening the cache file to persisting it,
 and whole runs of sessions, interleaved in any way, over one cache file.
 */
module PackageCache {
  import opened Arithmetic
  import opened OptionalValues
  import opened Utf8

  type Path = seq<byte>

  /** File metadata that a cached entry must still match. */
  datatype FileCacheKey = FileCacheKey(
    lastModifiedNs: nat,
    createdNs: Option<nat>,
    statusChangedNs: Option<nat>,
    deviceId: Option<nat>,
    fileId: Option<nat>,
    permissionsMode: nat,
    sizeBytes: nat)

  datatype CachedFile<T> = CachedFile(key: FileCacheKey, lastSeenMs: nat, data: T)

  datatype StoredPackage<T> = StoredPackage(projectRoot: Path, files: map<Path, CachedFile<T>>)

  datatype Change<T> = Change(key: FileCacheKey, data: T)

  /** What is at the path of the cache file. */
  datatype CacheFile<T> = NoFile | Undecodable | Stored(package: StoredPackage<T>)

  const MAX_LAST_SEEN_AGE_MS := 30 * 24 * 60 * 60 * 1000

  // One session, as values

  datatype Session<T> = Session(
    projectRoot: Path,
    files: map<Path, CachedFile<T>>,
    seenPaths: set<Path>,
    changes: map<Path, Change<T>>,
    lastSeenMs: nat)
  {
    predicate Valid() {
      changes.Keys <= seenPaths
    }
  }

  /** Missing, undecodable and root-mismatched files open as empty caches. */
  function Opened<T>(file: CacheFile<T>, root: Path, now: nat): (s: Session<T>)
    ensures s.Valid()
  {
    var files := if file.Stored? && file.package.projectRoot == root then file.package.files else map[];
    Session(root, files, {}, map[], now)
  }

  function Hit<T>(s: Session<T>, path: Path, key: FileCacheKey): Option<T> {
    if path in s.files && s.files[path].key == key then Some(s.files[path].data) else None
  }

  function AfterGet<T>(s: Session<T>, path: Path, key: FileCacheKey): Session<T> {
    if Hit(s, path, key).Some? then s.(seenPaths := s.seenPaths + {path}) else s
  }

  function AfterInsert<T>(s: Session<T>, path: Path, key: FileCacheKey, data: T): Session<T> {
    s.(seenPaths := s.seenPaths + {path}, changes := s.changes[path := Change(key, data)])
  }

  predicate IsRetained<T>(now: nat, file: CachedFile<T>) {
    SaturatingSub(now, file.lastSeenMs) <= MAX_LAST_SEEN_AGE_MS
  }

  /** Retention comes first: only what it keeps can be stamped again. */
  function SavedFiles<T>(s: Session<T>): map<Path, CachedFile<T>> {
    map path |
      path in s.changes.Keys + s.files.Keys && (path in s.changes || IsRetained(s.lastSeenMs, s.files[path])) ::
      if path in s.changes then CachedFile(s.changes[path].key, s.lastSeenMs, s.changes[path].data)
      else if path in s.seenPaths then s.files[path].(lastSeenMs := s.lastSeenMs)
      else s.files[path]
  }

  predicate HasWork<T>(s: Session<T>) {
    s.seenPaths != {} || s.changes != map[]
  }

  /** The cache file after a session has been persisted. */
  function Persisted<T>(file: CacheFile<T>, s: Session<T>): CacheFile<T> {
    if HasWork(s) then Stored(StoredPackage(s.projectRoot, SavedFiles(s))) else file
  }

  // The cache object

  class PackageCache<T> {
    var projectRoot: Path
    var files: map<Path, CachedFile<T>>
    var seenPaths: set<Path>
    var changes: map<Path, Change<T>>
    var lastSeenMs: nat

    ghost function View(): Session<T>
      reads this
    {
      Session(projectRoot, files, seenPaths, changes, lastSeenMs)
    }

    constructor Open(file: CacheFile<T>, canonicalRoot: Path, now: nat)
      ensures View() == Opened(file, canonicalRoot, now)
    {
      projectRoot := canonicalRoot;
      files := map[];
      seenPaths := {};
      changes := map[];
      lastSeenMs := now;
      new;
      match file {
        case Stored(package) =>
          if package.projectRoot == canonicalRoot {
            files := package.files;
          }
        case NoFile =>
        case Undecodable =>
      }
    }

    method Get(path: Path, key: FileCacheKey) returns (data: Option<T>)
      modifies this`seenPaths
      ensures data == Hit(old(View()), path, key)
      ensures View() == AfterGet(old(View()), path, key)
      ensures old(View()).Valid() ==> View().Valid()
    {
      if path !in files {
        return None;
      }
      var file := files[path];
      if file.key != key {
        return None;
      }
      seenPaths := seenPaths + {path};
      return Some(file.data);
    }

    method Insert(path: Path, key: FileCacheKey, data: T)
      modifies this`seenPaths, this`changes
      ensures View() == AfterInsert(old(View()), path, key, data)
      ensures old(View()).Valid() ==> View().Valid()
    {
      seenPaths := seenPaths + {path};
      changes := changes[path := Change(key, data)];
    }

    /** `flushed` are the changed paths that only the last loop writes. */
    method Save() returns (saved: bool, ghost flushed: set<Path>)
      modifies this`files, this`changes
      ensures saved <==> HasWork(old(View()))
      ensures saved ==> files == SavedFiles(old(View())) && changes == map[]
      ensures !saved ==> View() == old(View())
      ensures flushed == old(changes).Keys - old(seenPaths)
    {
      flushed := changes.Keys - seenPaths;
      if seenPaths == {} && changes == map[] {
        return false, flushed;
      }
      hide IsSavedFor;
      ghost var before := View();
      RetentionComesFirst(before);
      files := map path | path in files && IsRetained(lastSeenMs, files[path]) :: files[path];

      StampSeenPaths(before);
      var rest := changes;
      changes := map[];
      FlushChanges(rest, before, before.seenPaths);
      AllStamped(before, before.seenPaths + rest.Keys, files);
      return true, flushed;
    }

    /** The first loop of saving: seen paths take their change, or a new time stamp. */
    method StampSeenPaths(ghost before: Session<T>)
      requires IsSavedFor(before, {}, files)
      requires changes == before.changes && seenPaths == before.seenPaths && lastSeenMs == before.lastSeenMs
      modifies this`files, this`changes
      ensures IsSavedFor(before, seenPaths, files)
      ensures changes.Keys == before.changes.Keys - seenPaths
      ensures forall path :: path in changes ==> changes[path] == before.changes[path]
    {
      hide IsSavedFor;
      ghost var done: set<Path> := {};
      var pending := seenPaths;
      while pending != {}
        invariant done + pending == seenPaths && done !! pending
        invariant changes.Keys == before.changes.Keys - done
        invariant forall path :: path in changes ==> changes[path] == before.changes[path]
        invariant IsSavedFor(before, done, files)
        decreases pending
      {
        var path :| path in pending;
        StampOne(before, done, files, path);
        if path in changes {
          var change := changes[path];
          changes := map other | other in changes && other != path :: changes[other];
          files := files[path := CachedFile(change.key, lastSeenMs, change.data)];
        } else if path in files {
          files := files[path := files[path].(lastSeenMs := lastSeenMs)];
        }
        pending := pending - {path};
        done := done + {path};
      }
      assert done == seenPaths;
    }

    /** The last loop of saving: whatever is still in `rest`. */
    method FlushChanges(rest: map<Path, Change<T>>, ghost before: Session<T>, ghost done: set<Path>)
      requires IsSavedFor(before, done, files) && lastSeenMs == before.lastSeenMs
      requires rest.Keys <= before.changes.Keys && rest.Keys !! done
      requires forall path :: path in rest ==> rest[path] == before.changes[path]
      modifies this`files
      ensures IsSavedFor(before, done + rest.Keys, files)
    {
      hide IsSavedFor;
      var pending := rest.Keys;
      ghost var stamped := done;
      while pending != {}
        invariant stamped + pending == done + rest.Keys && stamped !! pending && pending <= rest.Keys
        invariant IsSavedFor(before, stamped, files)
        decreases pending
      {
        var path :| path in pending;
        StampOne(before, stamped, files, path);
        files := files[path := CachedFile(rest[path].key, lastSeenMs, rest[path].data)];
        pending := pending - {path};
        stamped := stamped + {path};
      }
      assert stamped == done + rest.Keys;
    }

    method Persist(file: CacheFile<T>) returns (written: CacheFile<T>)
      modifies this`files, this`changes
      ensures written == Persisted(file, old(View()))
    {
      ghost var flushed;
      var saved;
      saved, flushed := Save();
      return if saved then Stored(StoredPackage(projectRoot, files)) else file;
    }
  }

  /** `files` are the retained files of `s`, with the paths in `done` already brought up to date. */
  ghost predicate IsSavedFor<T>(s: Session<T>, done: set<Path>, files: map<Path, CachedFile<T>>) {
    && (forall path :: path in files <==>
          (path in s.files && IsRetained(s.lastSeenMs, s.files[path])) || (path in done && path in s.changes))
    && forall path :: path in files ==>
         files[path] ==
         if path in done && path in s.changes then CachedFile(s.changes[path].key, s.lastSeenMs, s.changes[path].data)
         else if path in done && path in s.seenPaths then s.files[path].(lastSeenMs := s.lastSeenMs)
         else s.files[path]
  }

  lemma RetentionComesFirst<T>(s: Session<T>)
    ensures IsSavedFor(s, {}, map path | path in s.files && IsRetained(s.lastSeenMs, s.files[path]) :: s.files[path])
  {
  }

  /** One round of the stamping loops. */
  lemma StampOne<T>(s: Session<T>, done: set<Path>, files: map<Path, CachedFile<T>>, path: Path)
    requires IsSavedFor(s, done, files) && path !in done && path in s.seenPaths + s.changes.Keys
    ensures path in s.changes ==>
              IsSavedFor(s, done + {path},
                         files[path := CachedFile(s.changes[path].key, s.lastSeenMs, s.changes[path].data)])
    ensures path !in s.changes && path in files ==>
              IsSavedFor(s, done + {path}, files[path := files[path].(lastSeenMs := s.lastSeenMs)])
    ensures path !in s.changes && path !in files ==> IsSavedFor(s, done + {path}, files)
  {
  }

  lemma AllStamped<T>(s: Session<T>, done: set<Path>, files: map<Path, CachedFile<T>>)
    requires IsSavedFor(s, done, files) && s.seenPaths + s.changes.Keys <= done
    ensures files == SavedFiles(s)
  {
    assert files.Keys == SavedFiles(s).Keys;
  }
}
