/**
 Whole runs of cache sessions over one cache file: any number of sessions, interleaved in any way,
 with lost or damaged files and with sessions that are never persisted.
 */
module CacheRuns {
  import opened OptionalValues
  import opened PackageCache

  // One session from open to persist

  datatype Op<T> =
    | Getting(path: Path, key: FileCacheKey)
    | Inserting(path: Path, key: FileCacheKey, data: T)

  function AfterOps<T>(s: Session<T>, ops: seq<Op<T>>): Session<T>
    decreases |ops|
  {
    if ops == [] then s else
      match ops[0]
      case Getting(path, key) => AfterOps(AfterGet(s, path, key), ops[1..])
      case Inserting(path, key, data) => AfterOps(AfterInsert(s, path, key, data), ops[1..])
  }

  /** The last insertion of `path` among `ops`. */
  function LastInsert<T>(ops: seq<Op<T>>, path: Path): Option<Change<T>> {
    if ops == [] then None
    else
      var last := ops[|ops| - 1];
      if last.Inserting? && last.path == path then Some(Change(last.key, last.data))
      else LastInsert(ops[..|ops| - 1], path)
  }

  ghost predicate IsHitBy<T>(ops: seq<Op<T>>, path: Path, key: FileCacheKey) {
    exists i :: 0 <= i < |ops| && ops[i] == Getting(path, key)
  }

  lemma {:induction false} AfterOpsSplits<T>(s: Session<T>, ops: seq<Op<T>>, last: Op<T>)
    ensures AfterOps(s, ops + [last]) == AfterOps(AfterOps(s, ops), [last])
    decreases |ops|
  {
    if ops == [] {
      assert ops + [last] == [last];
    } else {
      assert (ops + [last])[1..] == ops[1..] + [last];
      var next := match ops[0]
        case Getting(path, key) => AfterGet(s, path, key)
        case Inserting(path, key, data) => AfterInsert(s, path, key, data);
      AfterOpsSplits(next, ops[1..], last);
    }
  }

  /** What a session remembers: its loaded files, what it hit or inserted, and the last insertion of each path. */
  lemma {:induction false} SessionRemembers<T>(s: Session<T>, ops: seq<Op<T>>)
    requires s.Valid() && s.seenPaths == {} && s.changes == map[]
    ensures var t := AfterOps(s, ops);
      && t.Valid()
      && t == s.(seenPaths := t.seenPaths, changes := t.changes)
      && forall path ::
           && (path in t.changes <==> LastInsert(ops, path).Some?)
           && (path in t.changes ==> LastInsert(ops, path) == Some(t.changes[path]))
           && (path in t.seenPaths <==>
                 LastInsert(ops, path).Some? || (path in s.files && IsHitBy(ops, path, s.files[path].key)))
    decreases |ops|
  {
    if ops != [] {
      var front, last := ops[..|ops| - 1], ops[|ops| - 1];
      assert ops == front + [last];
      SessionRemembers(s, front);
      AfterOpsSplits(s, front, last);
      assert [last][1..] == [];
      forall path, key
        ensures IsHitBy(ops, path, key) <==> IsHitBy(front, path, key) || last == Getting(path, key)
      {
        HitsSplit(front, last, path, key);
      }
    }
  }

  lemma HitsSplit<T>(front: seq<Op<T>>, last: Op<T>, path: Path, key: FileCacheKey)
    ensures IsHitBy(front + [last], path, key) <==> IsHitBy(front, path, key) || last == Getting(path, key)
  {
    var ops := front + [last];
    if IsHitBy(front, path, key) {
      var i :| 0 <= i < |front| && front[i] == Getting(path, key);
      assert ops[i] == Getting(path, key);
    }
    if last == Getting(path, key) {
      assert ops[|front|] == Getting(path, key);
    }
  }

  /**
   What one whole session does to each entry of the cache file. An entry that is not inserted again
   survives exactly when its old time stamp is at most 30 days old, hit or not; a hit only
   decides whether a surviving entry is stamped anew.
   */
  lemma SessionOutcome<T>(file: CacheFile<T>, root: Path, now: nat, ops: seq<Op<T>>, path: Path)
    ensures var before := Opened(file, root, now);
      var s := AfterOps(before, ops);
      var after := Persisted(file, s);
      && (!HasWork(s) ==> after == file)
      && (HasWork(s) ==>
            && after.Stored?
            && after.package.projectRoot == root
            && match LastInsert(ops, path)
               case Some(change) =>
                 path in after.package.files && after.package.files[path] == CachedFile(change.key, now, change.data)
               case None =>
                 && (path in after.package.files <==>
                       path in before.files && now <= before.files[path].lastSeenMs + 2_592_000_000)
                 && (path in after.package.files ==>
                       after.package.files[path] ==
                       if IsHitBy(ops, path, before.files[path].key) then before.files[path].(lastSeenMs := now)
                       else before.files[path]))
  {
    SessionRemembers(Opened(file, root, now), ops);
  }

  /** A touched entry can still be lost: the age test looks at the time stamp from before the touch. */
  lemma TouchedEntryIsPruned()
    ensures exists package: StoredPackage<int>, now, path, key ::
              && Hit(Opened(Stored(package), package.projectRoot, now), path, key).Some?
              && var s := AfterOps(Opened(Stored(package), package.projectRoot, now), [Getting(path, key)]);
                 && path in s.seenPaths
                 && HasWork(s)
                 && path !in SavedFiles(s)
  {
    var key := FileCacheKey(0, None, None, None, None, 0, 0);
    var path: Path := [97];
    var package: StoredPackage<int> := StoredPackage([], map[path := CachedFile(key, 0, 7)]);
    var now := MAX_LAST_SEEN_AGE_MS + 1;
    var loaded := Opened(Stored(package), package.projectRoot, now);
    var ops: seq<Op<int>> := [Getting(path, key)];
    assert Hit(loaded, path, key).Some?;
    assert ops[1..] == [];
    assert AfterOps(loaded, ops) == AfterGet(loaded, path, key);
  }

  // Interleaved sessions

  /** What one persisted session inserted. */
  datatype Commit<T> = Commit(root: Path, changes: map<Path, Change<T>>)

  /** A session in progress; `base` is how many commits there were when it was opened. */
  datatype Live<T> = Live(session: Session<T>, base: nat)

  datatype World<T> = World(disk: CacheFile<T>, sessions: map<nat, Live<T>>, log: seq<Commit<T>>)

  datatype Event<T> =
    | Open(id: nat, root: Path, now: nat)
    | Get(id: nat, path: Path, key: FileCacheKey)
    | Insert(id: nat, path: Path, key: FileCacheKey, data: T)
    | Persist(id: nat)
    | Abandon(id: nat)
    | Lose
    | Damage

  function Start<T>(): World<T> {
    World(NoFile, map[], [])
  }

  function Updated<T>(w: World<T>, id: nat, s: Session<T>): World<T>
    requires id in w.sessions
  {
    w.(sessions := w.sessions[id := w.sessions[id].(session := s)])
  }

  function AfterPersist<T>(w: World<T>, id: nat): World<T>
    requires id in w.sessions
  {
    var s := w.sessions[id].session;
    World(
      Persisted(w.disk, s),
      w.sessions - {id},
      if HasWork(s) then w.log + [Commit(s.projectRoot, s.changes)] else w.log)
  }

  function Step<T>(w: World<T>, e: Event<T>): World<T> {
    match e
    case Open(id, root, now) => w.(sessions := w.sessions[id := Live(Opened(w.disk, root, now), |w.log|)])
    case Get(id, path, key) =>
      if id in w.sessions then Updated(w, id, AfterGet(w.sessions[id].session, path, key)) else w
    case Insert(id, path, key, data) =>
      if id in w.sessions then Updated(w, id, AfterInsert(w.sessions[id].session, path, key, data)) else w
    case Persist(id) => if id in w.sessions then AfterPersist(w, id) else w
    case Abandon(id) => w.(sessions := w.sessions - {id})
    case Lose => w.(disk := NoFile)
    case Damage => w.(disk := Undecodable)
  }

  function Run<T>(w: World<T>, events: seq<Event<T>>): World<T>
    decreases |events|
  {
    if events == [] then w else Run(Step(w, events[0]), events[1..])
  }

  // Nothing is invented

  ghost predicate WasInserted<T>(log: seq<Commit<T>>, root: Path, path: Path, change: Change<T>) {
    exists i :: 0 <= i < |log| && log[i].root == root && path in log[i].changes && log[i].changes[path] == change
  }

  ghost predicate AllInserted<T>(log: seq<Commit<T>>, root: Path, files: map<Path, CachedFile<T>>) {
    forall path :: path in files ==> WasInserted(log, root, path, Change(files[path].key, files[path].data))
  }

  ghost predicate NothingInvented<T>(w: World<T>) {
    && (w.disk.Stored? ==> AllInserted(w.log, w.disk.package.projectRoot, w.disk.package.files))
    && forall id :: id in w.sessions ==>
         && w.sessions[id].base <= |w.log|
         && w.sessions[id].session.Valid()
         && AllInserted(w.log[..w.sessions[id].base], w.sessions[id].session.projectRoot, w.sessions[id].session.files)
  }

  lemma InsertedStays<T>(log: seq<Commit<T>>, more: seq<Commit<T>>, root: Path, path: Path, change: Change<T>)
    requires WasInserted(log, root, path, change)
    ensures WasInserted(log + more, root, path, change)
  {
    var i :| 0 <= i < |log| && log[i].root == root && path in log[i].changes && log[i].changes[path] == change;
    assert (log + more)[i] == log[i];
  }

  lemma SavedWereInserted<T>(log: seq<Commit<T>>, s: Session<T>)
    requires AllInserted(log, s.projectRoot, s.files)
    ensures AllInserted(log + [Commit(s.projectRoot, s.changes)], s.projectRoot, SavedFiles(s))
  {
    var commit := Commit(s.projectRoot, s.changes);
    var saved := SavedFiles(s);
    forall path | path in saved
      ensures WasInserted(log + [commit], s.projectRoot, path, Change(saved[path].key, saved[path].data))
    {
      if path in s.changes {
        assert (log + [commit])[|log|] == commit;
      } else {
        InsertedStays(log, [commit], s.projectRoot, path, Change(saved[path].key, saved[path].data));
      }
    }
  }

  lemma StepInventsNothing<T>(w: World<T>, e: Event<T>)
    requires NothingInvented(w)
    ensures NothingInvented(Step(w, e))
  {
    hide AllInserted;
    if e.Open? {
      assert w.log[..|w.log|] == w.log;
      NothingLoadedIsInvented(w.log, w.disk, e.root, e.now);
    } else if e.Persist? && e.id in w.sessions && HasWork(w.sessions[e.id].session) {
      var live := w.sessions[e.id];
      var commit := Commit(live.session.projectRoot, live.session.changes);
      InsertedByLonger(w.log, live.base, live.session.projectRoot, live.session.files);
      SavedWereInserted(w.log, live.session);
      forall id | id in w.sessions
        ensures (w.log + [commit])[..w.sessions[id].base] == w.log[..w.sessions[id].base]
      {
      }
    }
  }

  lemma NothingLoadedIsInvented<T>(log: seq<Commit<T>>, disk: CacheFile<T>, root: Path, now: nat)
    requires disk.Stored? ==> AllInserted(log, disk.package.projectRoot, disk.package.files)
    ensures AllInserted(log, root, Opened(disk, root, now).files)
  {
  }

  lemma InsertedByLonger<T>(log: seq<Commit<T>>, base: nat, root: Path, files: map<Path, CachedFile<T>>)
    requires base <= |log| && AllInserted(log[..base], root, files)
    ensures AllInserted(log, root, files)
  {
    forall path | path in files
      ensures WasInserted(log, root, path, Change(files[path].key, files[path].data))
    {
      InsertedStays(log[..base], log[base..], root, path, Change(files[path].key, files[path].data));
      assert log[..base] + log[base..] == log;
    }
  }

  lemma {:induction false} RunInventsNothing<T>(w: World<T>, events: seq<Event<T>>)
    requires NothingInvented(w)
    ensures NothingInvented(Run(w, events))
    decreases |events|
  {
    if events != [] {
      StepInventsNothing(w, events[0]);
      RunInventsNothing(Step(w, events[0]), events[1..]);
    }
  }

  /**
   After any run whatsoever: what a session gets for a path and key was inserted for exactly that path
   and key, under the same project root, by a session persisted before this one was opened.
   */
  lemma EveryHitWasPersisted<T>(events: seq<Event<T>>, id: nat, path: Path, key: FileCacheKey, data: T)
    requires var w := Run(Start(), events);
      id in w.sessions && Hit(w.sessions[id].session, path, key) == Some(data)
    ensures var w := Run(Start(), events);
      && w.sessions[id].base <= |w.log|
      && WasInserted(w.log[..w.sessions[id].base], w.sessions[id].session.projectRoot, path, Change(key, data))
  {
    RunInventsNothing(Start<T>(), events);
  }

  /**
   After any run, the changed paths of a session are among its seen paths, so the last loop of saving it
   never has anything to write.
   */
  lemma FlushLoopIsIdle<T>(events: seq<Event<T>>, id: nat)
    requires id in Run(Start<T>(), events).sessions
    ensures var s := Run(Start<T>(), events).sessions[id].session;
      s.changes.Keys - s.seenPaths == {}
  {
    RunInventsNothing(Start<T>(), events);
  }

  // Nothing is stale, as long as no session overwrites newer entries

  /** The newest insertion of `path` under `root`. */
  function Latest<T>(log: seq<Commit<T>>, root: Path, path: Path): Option<Change<T>> {
    if log == [] then None
    else
      var last := log[|log| - 1];
      if last.root == root && path in last.changes then Some(last.changes[path])
      else Latest(log[..|log| - 1], root, path)
  }

  ghost predicate AllLatest<T>(log: seq<Commit<T>>, root: Path, files: map<Path, CachedFile<T>>) {
    forall path :: path in files ==> Latest(log, root, path) == Some(Change(files[path].key, files[path].data))
  }

  ghost predicate NothingStale<T>(w: World<T>) {
    && (w.disk.Stored? ==> AllLatest(w.log, w.disk.package.projectRoot, w.disk.package.files))
    && forall id :: id in w.sessions ==>
         && w.sessions[id].base <= |w.log|
         && AllLatest(w.log[..w.sessions[id].base], w.sessions[id].session.projectRoot, w.sessions[id].session.files)
  }

  /**
   The session would write back an entry that another session has replaced since it was opened: an
   entry it loaded and did not insert itself.
   */
  ghost predicate Overwrites<T>(log: seq<Commit<T>>, live: Live<T>)
    requires live.base <= |log|
  {
    exists path ::
      && path in live.session.files && path !in live.session.changes
      && IsRetained(live.session.lastSeenMs, live.session.files[path])
      && var newer := Latest(log[live.base..], live.session.projectRoot, path);
         newer.Some? && newer.value != Change(live.session.files[path].key, live.session.files[path].data)
  }

  lemma {:induction false} LatestOfTwoLogs<T>(older: seq<Commit<T>>, newer: seq<Commit<T>>, root: Path, path: Path)
    ensures Latest(older + newer, root, path) ==
            if Latest(newer, root, path).Some? then Latest(newer, root, path) else Latest(older, root, path)
    decreases |newer|
  {
    if newer == [] {
      assert older + newer == older;
    } else {
      var front := newer[..|newer| - 1];
      assert (older + newer)[..|older + newer| - 1] == older + front;
      LatestOfTwoLogs(older, front, root, path);
    }
  }

  /**
   The exact condition: persisting a session that loaded only latest entries leaves only latest entries
   in the file if and only if it does not overwrite.
   */
  lemma PersistLeavesLatestIffNotOverwriting<T>(log: seq<Commit<T>>, live: Live<T>)
    requires live.base <= |log| && AllLatest(log[..live.base], live.session.projectRoot, live.session.files)
    ensures var s := live.session;
      AllLatest(log + [Commit(s.projectRoot, s.changes)], s.projectRoot, SavedFiles(s)) <==> !Overwrites(log, live)
  {
    var s := live.session;
    var root := s.projectRoot;
    var commit := Commit(root, s.changes);
    var saved := SavedFiles(s);
    forall path | path in saved
      ensures path in s.changes ==>
                Latest(log + [commit], root, path) == Some(Change(saved[path].key, saved[path].data))
      ensures path !in s.changes ==>
                Latest(log + [commit], root, path) ==
                var newer := Latest(log[live.base..], root, path);
                if newer.Some? then newer else Some(Change(s.files[path].key, s.files[path].data))
    {
      assert (log + [commit])[..|log|] == log;
      assert log[..live.base] + log[live.base..] == log;
      LatestOfTwoLogs(log[..live.base], log[live.base..], root, path);
    }
    if Overwrites(log, live) {
      var path :|
        && path in s.files && path !in s.changes && IsRetained(s.lastSeenMs, s.files[path])
        && var newer := Latest(log[live.base..], root, path);
           newer.Some? && newer.value != Change(s.files[path].key, s.files[path].data);
      assert path in saved;
    }
  }

  ghost predicate IsCarefulStep<T>(w: World<T>, e: Event<T>) {
    e.Persist? && e.id in w.sessions && HasWork(w.sessions[e.id].session) ==>
      w.sessions[e.id].base <= |w.log| && !Overwrites(w.log, w.sessions[e.id])
  }

  ghost predicate IsCarefulRun<T>(w: World<T>, events: seq<Event<T>>)
    decreases |events|
  {
    events == [] || (IsCarefulStep(w, events[0]) && IsCarefulRun(Step(w, events[0]), events[1..]))
  }

  lemma CarefulStepKeepsLatest<T>(w: World<T>, e: Event<T>)
    requires NothingStale(w) && IsCarefulStep(w, e)
    ensures NothingStale(Step(w, e))
  {
    hide AllLatest, Overwrites;
    if e.Open? {
      assert w.log[..|w.log|] == w.log;
      LoadedIsLatest(w.log, w.disk, e.root, e.now);
    } else if e.Persist? && e.id in w.sessions && HasWork(w.sessions[e.id].session) {
      var s := w.sessions[e.id].session;
      PersistLeavesLatestIffNotOverwriting(w.log, w.sessions[e.id]);
      forall id | id in w.sessions
        ensures (w.log + [Commit(s.projectRoot, s.changes)])[..w.sessions[id].base] == w.log[..w.sessions[id].base]
      {
      }
    }
  }

  lemma LoadedIsLatest<T>(log: seq<Commit<T>>, disk: CacheFile<T>, root: Path, now: nat)
    requires disk.Stored? ==> AllLatest(log, disk.package.projectRoot, disk.package.files)
    ensures AllLatest(log, root, Opened(disk, root, now).files)
  {
  }

  lemma {:induction false} CarefulRunKeepsLatest<T>(w: World<T>, events: seq<Event<T>>)
    requires NothingStale(w) && IsCarefulRun(w, events)
    ensures NothingStale(Run(w, events))
    decreases |events|
  {
    if events != [] {
      CarefulStepKeepsLatest(w, events[0]);
      CarefulRunKeepsLatest(Step(w, events[0]), events[1..]);
    }
  }

  /** Without overwriting, what a session gets is the latest insertion persisted before it was opened. */
  lemma EveryHitIsLatest<T>(events: seq<Event<T>>, id: nat, path: Path, key: FileCacheKey, data: T)
    requires IsCarefulRun(Start(), events)
    requires var w := Run(Start(), events);
      id in w.sessions && Hit(w.sessions[id].session, path, key) == Some(data)
    ensures var w := Run(Start(), events);
      && w.sessions[id].base <= |w.log|
      && Latest(w.log[..w.sessions[id].base], w.sessions[id].session.projectRoot, path) == Some(Change(key, data))
      && (w.sessions[id].base == |w.log| ==>
            Latest(w.log, w.sessions[id].session.projectRoot, path) == Some(Change(key, data)))
  {
    CarefulRunKeepsLatest(Start<T>(), events);
    var w := Run(Start<T>(), events);
    assert w.log[..|w.log|] == w.log;
  }

  /** No session is persisted that was opened before the last write. */
  ghost predicate IsSerialRun<T>(w: World<T>, events: seq<Event<T>>)
    decreases |events|
  {
    events == [] ||
    (var e := events[0];
     && (e.Persist? && e.id in w.sessions && HasWork(w.sessions[e.id].session) ==> w.sessions[e.id].base == |w.log|)
     && IsSerialRun(Step(w, e), events[1..]))
  }

  /** Sessions that do not overlap a write of another session never overwrite anything. */
  lemma {:induction false} SerialRunIsCareful<T>(w: World<T>, events: seq<Event<T>>)
    requires IsSerialRun(w, events)
    ensures IsCarefulRun(w, events)
    decreases |events|
  {
    if events != [] {
      assert w.log[|w.log|..] == [];
      SerialRunIsCareful(Step(w, events[0]), events[1..]);
    }
  }

  lemma {:induction false} RunSplits<T>(w: World<T>, first: seq<Event<T>>, rest: seq<Event<T>>)
    ensures Run(w, first + rest) == Run(Run(w, first), rest)
    decreases |first|
  {
    if first == [] {
      assert first + rest == rest;
    } else {
      assert (first + rest)[1..] == first[1..] + rest;
      RunSplits(Step(w, first[0]), first[1..], rest);
    }
  }

  lemma RunOfOne<T>(w: World<T>, e: Event<T>, rest: seq<Event<T>>)
    ensures Run(w, [e] + rest) == Run(Step(w, e), rest)
  {
    assert ([e] + rest)[1..] == rest;
  }

  lemma RunOfThree<T>(w: World<T>, a: Event<T>, b: Event<T>, c: Event<T>)
    ensures Run(w, [a, b, c]) == Step(Step(Step(w, a), b), c)
  {
    RunOfOne(w, a, [b, c]);
    RunOfOne(Step(w, a), b, [c]);
    RunOfOne(Step(Step(w, a), b), c, []);
    assert [a] + [b, c] == [a, b, c] && [b] + [c] == [b, c] && [c] + [] == [c];
  }

  const NO_KEY := FileCacheKey(0, None, None, None, None, 0, 0)

  /** A session that inserts one entry and is then persisted. */
  lemma WriteOne(w: World<int>, id: nat, path: Path, data: int)
    requires w.disk == NoFile && w.log == [] && w.sessions == map[]
    ensures Run(w, [Open(id, [], 0), Insert(id, path, NO_KEY, data), Persist(id)]) ==
            World(Stored(StoredPackage([], map[path := CachedFile(NO_KEY, 0, data)])), map[],
                  [Commit([], map[path := Change(NO_KEY, data)])])
  {
    RunOfThree(w, Open(id, [], 0), Insert(id, path, NO_KEY, data), Persist(id));
    var s := AfterInsert(Opened(w.disk, [], 0), path, NO_KEY, data);
    assert s.changes == map[path := Change(NO_KEY, data)];
    assert path in s.seenPaths;
    assert SavedFiles(s) == map[path := CachedFile(NO_KEY, 0, data)];
  }

  /** The file as one session left it, and as seen by sessions opened afterwards. */
  function Written(path: Path, data: int): CacheFile<int> {
    Stored(StoredPackage([], map[path := CachedFile(NO_KEY, 0, data)]))
  }

  function Inserted(path: Path, data: int): Commit<int> {
    Commit([], map[path := Change(NO_KEY, data)])
  }

  function Reader(path: Path): Session<int> {
    Session([], map[path := CachedFile(NO_KEY, 0, 1)], {path}, map[], 0)
  }

  function Writer(path: Path): Session<int> {
    Session([], map[path := CachedFile(NO_KEY, 0, 1)], {}, map[], 0)
  }

  function BothOpen(path: Path): map<nat, Live<int>> {
    map[1 := Live(Reader(path), 1), 2 := Live(Writer(path), 1)]
  }

  /** A session hits the entry, and a second session is opened beside it. */
  lemma OpenBoth(path: Path)
    ensures var w := World(Written(path, 1), map[], [Inserted(path, 1)]);
      Run(w, [Open(1, [], 0), Get(1, path, NO_KEY), Open(2, [], 0)]) == w.(sessions := BothOpen(path))
  {
    var w := World(Written(path, 1), map[], [Inserted(path, 1)]);
    RunOfThree(w, Open(1, [], 0), Get(1, path, NO_KEY), Open(2, [], 0));
    assert AfterGet(Opened(w.disk, [], 0), path, NO_KEY) == Reader(path);
  }

  /** The second session replaces the entry, and the first one then writes the old entry back. */
  lemma PersistBoth(path: Path)
    ensures var w := World(Written(path, 1), BothOpen(path), [Inserted(path, 1)]);
      Run(w, [Insert(2, path, NO_KEY, 2), Persist(2), Persist(1)]) ==
      World(Written(path, 1), map[], [Inserted(path, 1), Inserted(path, 2), Commit([], map[])])
  {
    var w := World(Written(path, 1), BothOpen(path), [Inserted(path, 1)]);
    RunOfThree(w, Insert(2, path, NO_KEY, 2), Persist(2), Persist(1));
    var writer := AfterInsert(Writer(path), path, NO_KEY, 2);
    assert path in writer.seenPaths && path in Reader(path).seenPaths;
    assert SavedFiles(Reader(path)) == map[path := CachedFile(NO_KEY, 0, 1)];
    assert writer.changes == map[path := Change(NO_KEY, 2)];
  }

  /** Two overlapping sessions are enough to bring back a replaced entry. */
  lemma OverlappingSessionsCanServeStale()
    ensures exists events: seq<Event<int>>, path, key ::
              var w := Run(Start(), events);
              && 3 in w.sessions && w.sessions[3].base == |w.log|
              && Hit(w.sessions[3].session, path, key) == Some(1)
              && Latest(w.log, w.sessions[3].session.projectRoot, path) == Some(Change(key, 2))
  {
    var path: Path := [97];
    var setup: seq<Event<int>> := [Open(0, [], 0), Insert(0, path, NO_KEY, 1), Persist(0)];
    var overlap: seq<Event<int>> := [Open(1, [], 0), Get(1, path, NO_KEY), Open(2, [], 0)];
    var finish: seq<Event<int>> := [Insert(2, path, NO_KEY, 2), Persist(2), Persist(1)];
    var again: Event<int> := Open(3, [], 0);
    WriteOne(Start(), 0, path, 1);
    OpenBoth(path);
    PersistBoth(path);
    var w := Run(Run(Run(Start(), setup), overlap), finish);
    NewestIsSecond(w.log, path);
    var events := setup + overlap + finish + [again];
    assert Run(Start(), events) == Step(w, again) by {
      RunSplits(Start(), setup, overlap);
      RunSplits(Start(), setup + overlap, finish);
      RunSplits(Start(), setup + overlap + finish, [again]);
      RunOfOne(w, again, []);
      assert [again] + [] == [again];
    }
    assert Hit(Step(w, again).sessions[3].session, path, NO_KEY) == Some(1);
  }

  lemma NewestIsSecond(log: seq<Commit<int>>, path: Path)
    requires |log| == 3
    requires log[1] == Commit([], map[path := Change(NO_KEY, 2)]) && log[2] == Commit([], map[])
    ensures Latest(log, [], path) == Some(Change(NO_KEY, 2))
  {
    assert log[..2][1] == log[1];
  }
}
