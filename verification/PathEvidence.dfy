/**
 Evidence about commands on the execution PATH, for hosts other than Windows: a bounded index
 of every PATH directory answers lookups, and is compared with the exact filesystem probe.
 */
module PathEvidence {
  import opened OptionalValues
  import opened Utf8

  // The filesystem

  const SLASH: byte := 0x2F

  datatype Access = Granted | Denied | AccessFails(detail: string)

  /** What asking for a file's metadata gives. */
  datatype Stat =
    | Absent
    | StatFails(detail: string)
    | Found(isFile: bool, executeBits: bool, size: nat, modified: Option<nat>, access: Access)

  /** A directory entry; reading it from a listing may fail, which hides its name there. */
  datatype Entry = Entry(name: seq<byte>, stat: Stat, readError: Option<string>)

  datatype Directory =
    | NoDirectory
    | Readable(entries: seq<Entry>)
    | Unreadable(detail: string, entries: seq<Entry>)

  /**
   Directories by absolute path, files named by an explicit path, and how names are folded. Asking for a
   name that a directory does not hold may fail instead of finding nothing, as for a name that is too long
   or in a directory that may not be searched; `unlistedError` gives that error by directory and name.
   */
  datatype Filesystem = Filesystem(
    directories: map<seq<byte>, Directory>,
    explicit: seq<byte> -> Stat,
    fold: seq<byte> -> seq<byte>,
    unlistedError: (seq<byte>, seq<byte>) -> Option<string>)
  {
    function DirectoryAt(path: seq<byte>): Directory {
      if path in directories then directories[path] else NoDirectory
    }

    function EntriesAt(path: seq<byte>): seq<Entry> {
      match DirectoryAt(path)
      case NoDirectory => []
      case Readable(entries) => entries
      case Unreadable(_, entries) => entries
    }

    /** No two entries of a directory answer to one name. */
    ghost predicate Valid() {
      forall path, i, j :: 0 <= i < j < |EntriesAt(path)| ==>
        fold(EntriesAt(path)[i].name) != fold(EntriesAt(path)[j].name)
    }

    /** The error of asking for `name` in a directory that does not hold it. */
    function StatError(path: seq<byte>, name: seq<byte>): Option<string> {
      if EntryStat(EntriesAt(path), fold, name).Some? then None else unlistedError(path, name)
    }

    function StatAt(path: seq<byte>, name: seq<byte>): Stat {
      var listed, error := EntryStat(EntriesAt(path), fold, name), StatError(path, name);
      if listed.Some? then listed.value else if error.Some? then StatFails(error.value) else Absent
    }
  }

  /** The metadata of the entry that answers to `name`. */
  function EntryStat(entries: seq<Entry>, fold: seq<byte> -> seq<byte>, name: seq<byte>): (stat: Option<Stat>)
    ensures match stat
            case Some(found) =>
              exists i :: 0 <= i < |entries| && fold(entries[i].name) == fold(name) && found == entries[i].stat
            case None => forall i :: 0 <= i < |entries| ==> fold(entries[i].name) != fold(name)
  {
    if entries == [] then None
    else if fold(entries[0].name) == fold(name) then Some(entries[0].stat)
    else EntryStat(entries[1..], fold, name)
  }

  // Evidence

  datatype Executable = Executable(path: seq<byte>, size: nat, modified: Option<nat>)

  /** Why something is unknown; a message of the host in one case each. */
  datatype Detail =
    | StaleEvidence | StaleSnapshot | BelongsToAnotherTarget | CapturedTargetCannotQuery | PathIsUnknown
    | NameIsNoPath | ExplicitPathNotCaptured | WindowsNeedsProbe | CaseMatchingNeedsProbe | IncompleteInventory
    | RelativePathNeedsLaunchDirectory | RelativeEntryNeedsLaunchDirectory
    | ExceedsDirectoryScanLimit | ExceedsExactLookupLimit | ExceedsEntryScanLimit
    | CannotInspectDirectory(error: string) | CannotInspectEntry(error: string)
    | CannotInspectExecutable(error: string) | CannotDetermineAccess(error: string)

  datatype LookupEvidence = Present(executable: Executable) | Missing | Unknown(detail: Detail)

  datatype Platform = Unix | Windows

  datatype Policy = Workspace | Portable | Captured | Session

  datatype ExecutionContext = ExecutionContext(
    targetId: string, policy: Policy, cwd: Option<seq<byte>>, cwdKnown: bool)

  datatype SearchDirectory = SearchDirectory(
    path: seq<byte>, commands: map<seq<byte>, Executable>, complete: bool, failure: Option<Detail>)

  /** Commands are looked up under their name as written, or in lower case when the target ignores case. */
  datatype Casing = Sensitive | Insensitive(toLowercase: seq<byte> -> seq<byte>) {
    function Key(name: seq<byte>): seq<byte> {
      if Sensitive? then name else toLowercase(name)
    }
  }

  /** The value of an environment snapshot, as far as lookups read it. */
  datatype Snapshot = Snapshot(
    targetId: string,
    platform: Platform,
    isFresh: bool,
    pathKnown: bool,
    casing: Casing,
    searchPath: seq<SearchDirectory>,
    exactLookups: map<seq<byte>, LookupEvidence>)

  const MAX_DIRECTORIES := 256
  const MAX_ENTRIES_PER_DIRECTORY := 40_000
  const MAX_REFRESHED_NAMES := 4096
  const MAX_NAME_LENGTH := 4096

  /** A relative path below a directory, with one separator between them. */
  function Join(directory: seq<byte>, path: seq<byte>): seq<byte> {
    if directory == [] || directory[|directory| - 1] == SLASH then directory + path else directory + [SLASH] + path
  }

  predicate IsAbsolute(path: seq<byte>) {
    path != [] && path[0] == SLASH
  }

  function AbsolutePath(context: ExecutionContext, path: seq<byte>): Option<seq<byte>> {
    if IsAbsolute(path) then Some(path)
    else if context.cwdKnown && context.cwd.Some? && IsAbsolute(context.cwd.value) then
      Some(Join(context.cwd.value, path))
    else None
  }

  function InspectOne(stat: Stat, path: seq<byte>): LookupEvidence {
    match stat
    case Absent => Missing
    case StatFails(detail) => Unknown(CannotInspectExecutable(detail))
    case Found(isFile, executeBits, size, modified, access) =>
      if !isFile || !executeBits then Missing
      else match access
        case Granted => Present(Executable(path, size, modified))
        case Denied => Missing
        case AccessFails(detail) => Unknown(CannotDetermineAccess(detail))
  }

  // The exact probe

  predicate IsProbeable(name: seq<byte>) {
    name != [] && 0 !in name && |name| <= MAX_NAME_LENGTH
  }

  function ProbeDirectory(fs: Filesystem, path: seq<byte>, name: seq<byte>): LookupEvidence {
    InspectOne(fs.StatAt(path, name), Join(path, name))
  }

  /** The probe of the PATH entries from the `i`-th on. */
  function ProbeFrom(fs: Filesystem, context: ExecutionContext, dirs: seq<SearchDirectory>, i: nat, name: seq<byte>):
      LookupEvidence
    decreases |dirs| - i
  {
    if |dirs| <= i then Missing
    else if MAX_DIRECTORIES <= i then Unknown(ExceedsExactLookupLimit)
    else
      var path := AbsolutePath(context, dirs[i].path);
      if path.None? then Unknown(RelativeEntryNeedsLaunchDirectory)
      else
        var evidence := ProbeDirectory(fs, path.value, name);
        if evidence.Missing? then ProbeFrom(fs, context, dirs, i + 1, name) else evidence
  }

  function ExactEvidence(fs: Filesystem, context: ExecutionContext, s: Snapshot, name: seq<byte>): LookupEvidence {
    if context.targetId != s.targetId then Unknown(BelongsToAnotherTarget)
    else if context.policy.Captured? then Unknown(CapturedTargetCannotQuery)
    else if !s.isFresh then Unknown(StaleSnapshot)
    else if !IsProbeable(name) then Unknown(NameIsNoPath)
    else if SLASH in name then
      var path := AbsolutePath(context, name);
      if path.None? then Unknown(RelativePathNeedsLaunchDirectory)
      else InspectOne(fs.explicit(path.value), path.value)
    else if !s.pathKnown then Unknown(PathIsUnknown)
    else ProbeFrom(fs, context, s.searchPath, 0, name)
  }

  // The lookup

  function AsciiLower(b: byte): byte {
    if 0x41 <= b <= 0x5A then b + 0x20 else b
  }

  predicate EqIgnoreAsciiCase(a: seq<byte>, b: seq<byte>) {
    |a| == |b| && forall k :: 0 <= k < |a| ==> AsciiLower(a[k]) == AsciiLower(b[k])
  }

  predicate HasCaseVariant(commands: map<seq<byte>, Executable>, name: seq<byte>) {
    exists candidate :: candidate in commands && EqIgnoreAsciiCase(candidate, name)
  }

  /** The lookup does not go on to the next directory. */
  predicate StopsAt(d: SearchDirectory, key: seq<byte>) {
    key in d.commands || HasCaseVariant(d.commands, key) || !d.complete
  }

  function LookupFrom(dirs: seq<SearchDirectory>, i: nat, key: seq<byte>): LookupEvidence
    decreases |dirs| - i
  {
    if |dirs| <= i then Missing
    else if key in dirs[i].commands then Present(dirs[i].commands[key])
    else if HasCaseVariant(dirs[i].commands, key) then
      Unknown(CaseMatchingNeedsProbe)
    else if !dirs[i].complete then
      Unknown(if dirs[i].failure.Some? then dirs[i].failure.value else IncompleteInventory)
    else LookupFrom(dirs, i + 1, key)
  }

  function LookupEvidenceOf(s: Snapshot, name: seq<byte>): LookupEvidence {
    if !s.isFresh then Unknown(StaleEvidence)
    else if name in s.exactLookups then s.exactLookups[name]
    else if s.platform.Windows? then
      Unknown(WindowsNeedsProbe)
    else if SLASH in name then Unknown(ExplicitPathNotCaptured)
    else if !s.pathKnown then Unknown(PathIsUnknown)
    else LookupFrom(s.searchPath, 0, s.casing.Key(name))
  }

  // What a capture guarantees

  /** The evidence that listing an entry contributes. */
  function EntryEvidence(path: seq<byte>, e: Entry): LookupEvidence {
    InspectOne(e.stat, Join(path, e.name))
  }

  predicate IsListed(e: Entry) {
    e.readError.None? && ValidUtf8(e.name)
  }

  /** The entries that reading the directory yields. */
  function ListingOf(directory: Directory): seq<Entry> {
    if directory.Readable? then directory.entries else []
  }

  /** Every command of `d` is an executable entry among the first `n`. */
  ghost predicate CommandsAreListed(path: seq<byte>, entries: seq<Entry>, n: nat, d: SearchDirectory) {
    forall name :: name in d.commands ==>
      exists i :: 0 <= i < |entries| && i < n && IsListed(entries[i]) && entries[i].name == name
                  && EntryEvidence(path, entries[i]) == Present(d.commands[name])
  }

  /** Every executable entry among the first `n` is a command of `d`. */
  ghost predicate ExecutablesAreIndexed(path: seq<byte>, entries: seq<Entry>, n: nat, d: SearchDirectory) {
    forall i :: 0 <= i < |entries| && i < n && IsListed(entries[i]) && EntryEvidence(path, entries[i]).Present? ==>
      entries[i].name in d.commands
  }

  /** None of the first `n` entries leaves doubt about what the directory holds. */
  ghost predicate IsWithoutDoubt(path: seq<byte>, entries: seq<Entry>, n: nat) {
    forall i :: 0 <= i < |entries| && i < n ==>
      entries[i].readError.None? && (IsListed(entries[i]) ==> !EntryEvidence(path, entries[i]).Unknown?)
  }

  /** The last doubt among the first `n` entries, which is the one that is kept. */
  function LastDoubt(path: seq<byte>, entries: seq<Entry>, n: nat): (doubt: Option<Detail>)
    requires n <= |entries|
    ensures doubt.None? <==> IsWithoutDoubt(path, entries, n)
  {
    if n == 0 then None
    else
      var entry := entries[n - 1];
      if entry.readError.Some? then Some(CannotInspectEntry(entry.readError.value))
      else if IsListed(entry) && EntryEvidence(path, entry).Unknown? then Some(EntryEvidence(path, entry).detail)
      else LastDoubt(path, entries, n - 1)
  }

  /** Why a scan is incomplete, if it is. */
  function ScanFailure(directory: Directory, path: seq<byte>): Option<Detail> {
    if directory.Unreadable? then Some(CannotInspectDirectory(directory.detail))
    else
      var entries := ListingOf(directory);
      if MAX_ENTRIES_PER_DIRECTORY < |entries| then Some(ExceedsEntryScanLimit)
      else LastDoubt(path, entries, |entries|)
  }

  /** `d` is what scanning the directory at `path` leaves behind. */
  ghost predicate IsScan(fs: Filesystem, path: seq<byte>, d: SearchDirectory) {
    var entries := ListingOf(fs.DirectoryAt(path));
    && CommandsAreListed(path, entries, MAX_ENTRIES_PER_DIRECTORY, d)
    && ExecutablesAreIndexed(path, entries, MAX_ENTRIES_PER_DIRECTORY, d)
    && (d.complete <==>
          && !fs.DirectoryAt(path).Unreadable?
          && |entries| <= MAX_ENTRIES_PER_DIRECTORY
          && IsWithoutDoubt(path, entries, |entries|))
    && d.failure == ScanFailure(fs.DirectoryAt(path), path)
  }

  /** The `i`-th PATH entry of a capture. */
  ghost predicate IsCapturedEntry(fs: Filesystem, context: ExecutionContext, i: nat, d: SearchDirectory) {
    var path := AbsolutePath(context, d.path);
    if i < MAX_DIRECTORIES && path.Some? then IsScan(fs, path.value, d)
    else
      && !d.complete && d.commands == map[]
      && d.failure ==
         Some(if MAX_DIRECTORIES <= i then ExceedsDirectoryScanLimit else RelativeEntryNeedsLaunchDirectory)
  }

  ghost predicate IsCapture(fs: Filesystem, context: ExecutionContext, s: Snapshot) {
    && s.targetId == context.targetId
    && s.casing == Sensitive
    && (context.policy.Captured? ==> !s.pathKnown)
    && forall i :: 0 <= i < |s.searchPath| ==> IsCapturedEntry(fs, context, i, s.searchPath[i])
  }

  /** Every recorded exact answer is what the probe answers. */
  ghost predicate ExactAnswersHold(fs: Filesystem, context: ExecutionContext, s: Snapshot) {
    forall name :: name in s.exactLookups ==> s.exactLookups[name] == ExactEvidence(fs, context, s, name)
  }

  /** Whatever the first answer says definitely, the second one says too. */
  predicate Agrees(answer: LookupEvidence, exact: LookupEvidence) {
    answer.Unknown? || answer == exact
  }

  /** Both answers are definite and different. */
  predicate Contradicts(answer: LookupEvidence, exact: LookupEvidence) {
    !answer.Unknown? && !exact.Unknown? && answer != exact
  }

  // Agreement

  /** A text that names a command to be searched on the PATH. */
  predicate IsCommandName(name: seq<byte>) {
    ValidUtf8(name) && IsProbeable(name) && SLASH !in name
  }

  /** The volume identifies a command name only with names that differ from it in ASCII case. */
  ghost predicate FoldsOnlyAsciiCase(fold: seq<byte> -> seq<byte>) {
    forall a, b :: IsCommandName(b) && fold(a) == fold(b) ==> EqIgnoreAsciiCase(a, b)
  }

  lemma {:induction false} AsciiCaseKeepsValid(a: seq<byte>, b: seq<byte>, i: nat)
    requires EqIgnoreAsciiCase(a, b) && i <= |b| && ValidFrom(b, i)
    ensures ValidFrom(a, i)
    decreases |b| - i
  {
    assert forall k :: 0 <= k < |a| ==> (a[k] == b[k] || (a[k] < 0x80 && b[k] < 0x80));
    if i < |b| {
      AsciiCaseKeepsValid(a, b, i + Width(b[i]));
    }
  }

  /** A command found in the index is what the probe finds in that directory. */
  lemma CommandIsProbed(fs: Filesystem, path: seq<byte>, d: SearchDirectory, name: seq<byte>)
    requires fs.Valid() && IsScan(fs, path, d) && name in d.commands
    ensures ProbeDirectory(fs, path, name) == Present(d.commands[name])
  {
    var entries := ListingOf(fs.DirectoryAt(path));
    var i :| 0 <= i < |entries| && IsListed(entries[i]) && entries[i].name == name
             && EntryEvidence(path, entries[i]) == Present(d.commands[name]);
    StatOfEntry(fs, path, i);
  }

  lemma StatOfEntry(fs: Filesystem, path: seq<byte>, i: nat)
    requires fs.Valid() && i < |fs.EntriesAt(path)|
    ensures fs.StatAt(path, fs.EntriesAt(path)[i].name) == fs.EntriesAt(path)[i].stat
  {
    StatOfUnique(fs.EntriesAt(path), fs.fold, i);
  }

  lemma {:induction false} StatOfUnique(entries: seq<Entry>, fold: seq<byte> -> seq<byte>, i: nat)
    requires i < |entries|
    requires forall j, k :: 0 <= j < k < |entries| ==> fold(entries[j].name) != fold(entries[k].name)
    ensures EntryStat(entries, fold, entries[i].name) == Some(entries[i].stat)
  {
    if 0 < i {
      StatOfUnique(entries[1..], fold, i - 1);
    }
  }

  /** In a complete directory without the name, in any ASCII case, the probe finds nothing, unless asking fails. */
  lemma AbsenceIsProbed(fs: Filesystem, path: seq<byte>, d: SearchDirectory, name: seq<byte>)
    requires FoldsOnlyAsciiCase(fs.fold) && IsCommandName(name)
    requires IsScan(fs, path, d) && d.complete && !HasCaseVariant(d.commands, name)
    ensures ProbeDirectory(fs, path, name) ==
            match fs.StatError(path, name)
            case None => Missing
            case Some(error) => Unknown(CannotInspectExecutable(error))
  {
    var entries := fs.EntriesAt(path);
    var stat := EntryStat(entries, fs.fold, name);
    if stat.Some? {
      var i :| 0 <= i < |entries| && fs.fold(entries[i].name) == fs.fold(name) && stat.value == entries[i].stat;
      assert EqIgnoreAsciiCase(entries[i].name, name);
      AsciiCaseKeepsValid(entries[i].name, name, 0);
      assert IsListed(entries[i]);
    }
  }

  /** One captured PATH entry: what its index says, the probe of its directory says too, unless asking fails. */
  lemma EntryAgrees(fs: Filesystem, context: ExecutionContext, i: nat, d: SearchDirectory, name: seq<byte>)
    requires fs.Valid() && FoldsOnlyAsciiCase(fs.fold) && IsCommandName(name)
    requires IsCapturedEntry(fs, context, i, d)
    ensures var path := AbsolutePath(context, d.path);
            if MAX_DIRECTORIES <= i || path.None? then
              name !in d.commands && !d.complete
            else if name in d.commands then
              ProbeDirectory(fs, path.value, name) == Present(d.commands[name])
            else if StopsAt(d, name) then
              true
            else match fs.StatError(path.value, name)
              case None => ProbeDirectory(fs, path.value, name) == Missing
              case Some(error) => ProbeDirectory(fs, path.value, name) == Unknown(CannotInspectExecutable(error))
  {
    hide IsScan, HasCaseVariant, ProbeDirectory, FoldsOnlyAsciiCase, Filesystem.Valid, Filesystem.StatError;
    var path := AbsolutePath(context, d.path);
    if i < MAX_DIRECTORIES && path.Some? {
      if name in d.commands {
        CommandIsProbed(fs, path.value, d, name);
      } else if !StopsAt(d, name) {
        AbsenceIsProbed(fs, path.value, d, name);
      }
    }
  }

  /** Asking for the name does not fail in any directory that the lookup passes over, from the `i`-th on. */
  predicate NoStatFails(fs: Filesystem, context: ExecutionContext, dirs: seq<SearchDirectory>, i: nat, name: seq<byte>)
    decreases |dirs| - i
  {
    if |dirs| <= i || StopsAt(dirs[i], name) then true
    else
      var path := AbsolutePath(context, dirs[i].path);
      (path.Some? ==> fs.StatError(path.value, name).None?) && NoStatFails(fs, context, dirs, i + 1, name)
  }

  lemma {:induction false} LookupAgreesFrom(
      fs: Filesystem, context: ExecutionContext, dirs: seq<SearchDirectory>, i: nat, name: seq<byte>)
    requires fs.Valid() && FoldsOnlyAsciiCase(fs.fold) && IsCommandName(name)
    requires forall k :: 0 <= k < |dirs| ==> IsCapturedEntry(fs, context, k, dirs[k])
    ensures var answer, exact := LookupFrom(dirs, i, name), ProbeFrom(fs, context, dirs, i, name);
      && !Contradicts(answer, exact)
      && (Agrees(answer, exact) <==> answer.Unknown? || NoStatFails(fs, context, dirs, i, name))
    decreases |dirs| - i
  {
    hide IsCapturedEntry, HasCaseVariant, ProbeDirectory, FoldsOnlyAsciiCase, Filesystem.Valid, Filesystem.StatError;
    if i < |dirs| {
      EntryAgrees(fs, context, i, dirs[i], name);
      if !StopsAt(dirs[i], name) {
        LookupAgreesFrom(fs, context, dirs, i + 1, name);
      }
    }
  }

  /** A snapshot captured from this filesystem, with exact answers recorded from it at most. */
  ghost predicate IsLive(fs: Filesystem, context: ExecutionContext, s: Snapshot) {
    fs.Valid() && IsCapture(fs, context, s) && ExactAnswersHold(fs, context, s)
  }

  /** A captured index never contradicts the exact probe, for any name the probe accepts, failing stats or not. */
  lemma LookupNeverContradictsProbe(fs: Filesystem, context: ExecutionContext, s: Snapshot, name: seq<byte>)
    requires FoldsOnlyAsciiCase(fs.fold) && IsLive(fs, context, s)
    requires ValidUtf8(name) && IsProbeable(name)
    ensures !Contradicts(LookupEvidenceOf(s, name), ExactEvidence(fs, context, s, name))
  {
    if SLASH !in name {
      LookupAgreesFrom(fs, context, s.searchPath, 0, name);
    }
  }

  /**
   What the index says definitely the probe says too, if and only if asking for the name fails in none of the
   directories that the lookup passes over.
   */
  lemma LookupAgreesIffNoStatFails(fs: Filesystem, context: ExecutionContext, s: Snapshot, name: seq<byte>)
    requires FoldsOnlyAsciiCase(fs.fold) && IsLive(fs, context, s)
    requires ValidUtf8(name) && IsProbeable(name)
    ensures var answer := LookupEvidenceOf(s, name);
      Agrees(answer, ExactEvidence(fs, context, s, name)) <==>
      answer.Unknown? || name in s.exactLookups || NoStatFails(fs, context, s.searchPath, 0, name)
  {
    if SLASH !in name {
      LookupAgreesFrom(fs, context, s.searchPath, 0, name);
    }
  }

  /**
   Limits within which asking for a name that is not there finds nothing: the length of names and of paths, and
   the directories that may be searched.
   */
  ghost predicate IsAbsentWithin(fs: Filesystem, nameLimit: nat, pathLimit: nat, searchable: set<seq<byte>>) {
    forall path, name ::
      path in searchable && |name| <= nameLimit && |Join(path, name)| <= pathLimit ==>
        fs.unlistedError(path, name).None?
  }

  lemma {:induction false} NoStatFailsWithin(
      fs: Filesystem, context: ExecutionContext, dirs: seq<SearchDirectory>, i: nat, name: seq<byte>,
      nameLimit: nat, pathLimit: nat, searchable: set<seq<byte>>)
    requires IsAbsentWithin(fs, nameLimit, pathLimit, searchable) && |name| <= nameLimit
    requires forall d :: d in dirs ==>
               var path := AbsolutePath(context, d.path);
               path.Some? ==> path.value in searchable && |Join(path.value, name)| <= pathLimit
    ensures NoStatFails(fs, context, dirs, i, name)
    decreases |dirs| - i
  {
    if i < |dirs| {
      assert dirs[i] in dirs;
      NoStatFailsWithin(fs, context, dirs, i + 1, name, nameLimit, pathLimit, searchable);
    }
  }

  /** Names and PATH directories within the limits of the volume are answered as the probe answers them. */
  lemma LookupAgreesWithinLimits(
      fs: Filesystem, context: ExecutionContext, s: Snapshot, name: seq<byte>,
      nameLimit: nat, pathLimit: nat, searchable: set<seq<byte>>)
    requires FoldsOnlyAsciiCase(fs.fold) && IsLive(fs, context, s)
    requires ValidUtf8(name) && IsProbeable(name)
    requires IsAbsentWithin(fs, nameLimit, pathLimit, searchable) && |name| <= nameLimit
    requires forall d :: d in s.searchPath ==>
               var path := AbsolutePath(context, d.path);
               path.Some? ==> path.value in searchable && |Join(path.value, name)| <= pathLimit
    ensures Agrees(LookupEvidenceOf(s, name), ExactEvidence(fs, context, s, name))
  {
    NoStatFailsWithin(fs, context, s.searchPath, 0, name, nameLimit, pathLimit, searchable);
    LookupAgreesIffNoStatFails(fs, context, s, name);
  }

  /** After capture, a name without doubt on the way gets a definite answer. */
  lemma {:induction false} CompleteIndexIsDefinite(dirs: seq<SearchDirectory>, i: nat, name: seq<byte>)
    requires forall k :: 0 <= k < |dirs| ==>
               dirs[k].complete && (HasCaseVariant(dirs[k].commands, name) ==> name in dirs[k].commands)
    ensures !LookupFrom(dirs, i, name).Unknown?
    decreases |dirs| - i
  {
    if i < |dirs| && name !in dirs[i].commands {
      CompleteIndexIsDefinite(dirs, i + 1, name);
    }
  }

  /** A captured index denies a command, and the probe answers `exact` instead. */
  ghost predicate DeniesWhatProbeAnswers(
      fs: Filesystem, context: ExecutionContext, s: Snapshot, name: seq<byte>, exact: LookupEvidence)
  {
    && IsLive(fs, context, s) && IsCommandName(name)
    && LookupEvidenceOf(s, name) == Missing && ExactEvidence(fs, context, s, name) == exact
  }

  /** On a volume that identifies two names apart from ASCII case, some index denies a command the probe finds. */
  lemma WiderFoldingContradicts(
      fold: seq<byte> -> seq<byte>, unlistedError: (seq<byte>, seq<byte>) -> Option<string>, a: seq<byte>, b: seq<byte>)
    returns (fs: Filesystem, context: ExecutionContext, s: Snapshot)
    requires fold(a) == fold(b) && !EqIgnoreAsciiCase(a, b) && IsCommandName(b)
    ensures fs.fold == fold && fs.unlistedError == unlistedError
    ensures DeniesWhatProbeAnswers(fs, context, s, b, Present(Executable(Join([SLASH], b), 0, None)))
  {
    var path: seq<byte> := [SLASH];
    var entry := Entry(a, Found(true, true, 0, None, Granted), None);
    var executable := Executable(Join(path, a), 0, None);
    var d := SearchDirectory(path, if ValidUtf8(a) then map[a := executable] else map[], true, None);
    fs := Filesystem(map[path := Readable([entry])], _ => Absent, fold, unlistedError);
    context := ExecutionContext("", Workspace, None, false);
    s := Snapshot("", Unix, true, true, Sensitive, [d], map[]);
    var entries := ListingOf(fs.DirectoryAt(path));
    assert entries == [entry] && IsListed(entry) == ValidUtf8(a);
    assert forall p :: fs.EntriesAt(p) == if p == path then [entry] else [];
    assert IsScan(fs, path, d) by {
      assert entries[0].name == a && EntryEvidence(path, entries[0]) == Present(executable);
    }
    assert IsCapturedEntry(fs, context, 0, d);
    assert EntryStat([entry], fold, b) == Some(entry.stat);
    assert ProbeFrom(fs, context, s.searchPath, 0, b) == Present(Executable(Join(path, b), 0, None));
    assert !HasCaseVariant(d.commands, b);
    assert LookupFrom(s.searchPath, 1, b) == Missing;
  }

  /** Where asking for a name that is not there fails, some index denies a command the probe knows nothing about. */
  lemma FailingStatIsDenied(
      fold: seq<byte> -> seq<byte>, unlistedError: (seq<byte>, seq<byte>) -> Option<string>,
      path: seq<byte>, name: seq<byte>)
    returns (fs: Filesystem, context: ExecutionContext, s: Snapshot)
    requires IsAbsolute(path) && IsCommandName(name) && unlistedError(path, name).Some?
    ensures fs.fold == fold && fs.unlistedError == unlistedError
    ensures fs.DirectoryAt(path) == Readable([]) && |s.searchPath| == 1 && s.searchPath[0].path == path
    ensures DeniesWhatProbeAnswers(
              fs, context, s, name, Unknown(CannotInspectExecutable(unlistedError(path, name).value)))
  {
    var d := SearchDirectory(path, map[], true, None);
    fs := Filesystem(map[path := Readable([])], _ => Absent, fold, unlistedError);
    context := ExecutionContext("", Workspace, None, false);
    s := Snapshot("", Unix, true, true, Sensitive, [d], map[]);
    assert forall p :: fs.EntriesAt(p) == [];
    assert IsScan(fs, path, d);
    assert IsCapturedEntry(fs, context, 0, d);
    assert LookupFrom(s.searchPath, 1, name) == Missing;
  }

  /** Asking for a command name that a directory does not hold never fails on the volume. */
  ghost predicate UnlistedNamesAreAbsent(unlistedError: (seq<byte>, seq<byte>) -> Option<string>) {
    forall path, name :: IsAbsolute(path) && IsCommandName(name) ==> unlistedError(path, name).None?
  }

  /** A captured index contradicts the probe nowhere exactly when volumes fold at most ASCII case. */
  lemma NoContradictionIffAsciiFolding(fold: seq<byte> -> seq<byte>)
    ensures FoldsOnlyAsciiCase(fold) <==>
            forall fs: Filesystem, context, s, name ::
              fs.fold == fold && IsLive(fs, context, s) && IsCommandName(name) ==>
              !Contradicts(LookupEvidenceOf(s, name), ExactEvidence(fs, context, s, name))
  {
    hide LookupEvidenceOf, ExactEvidence, IsLive;
    if FoldsOnlyAsciiCase(fold) {
      forall fs: Filesystem, context, s, name | fs.fold == fold && IsLive(fs, context, s) && IsCommandName(name)
        ensures !Contradicts(LookupEvidenceOf(s, name), ExactEvidence(fs, context, s, name))
      {
        LookupNeverContradictsProbe(fs, context, s, name);
      }
    } else {
      var a, b :| IsCommandName(b) && fold(a) == fold(b) && !EqIgnoreAsciiCase(a, b);
      var fs, context, s := WiderFoldingContradicts(fold, (_, _) => None, a, b);
      assert Contradicts(LookupEvidenceOf(s, b), ExactEvidence(fs, context, s, b));
    }
  }

  /**
   The index agrees with the probe everywhere exactly when volumes fold at most ASCII case and asking for an
   unlisted command name never fails.
   */
  lemma AgreementIff(fold: seq<byte> -> seq<byte>, unlistedError: (seq<byte>, seq<byte>) -> Option<string>)
    ensures FoldsOnlyAsciiCase(fold) && UnlistedNamesAreAbsent(unlistedError) <==>
            forall fs: Filesystem, context, s, name ::
              fs.fold == fold && fs.unlistedError == unlistedError && IsLive(fs, context, s) && IsCommandName(name) ==>
              Agrees(LookupEvidenceOf(s, name), ExactEvidence(fs, context, s, name))
  {
    hide LookupEvidenceOf, ExactEvidence, IsLive, NoStatFails;
    if !FoldsOnlyAsciiCase(fold) {
      var a, b :| IsCommandName(b) && fold(a) == fold(b) && !EqIgnoreAsciiCase(a, b);
      var fs, context, s := WiderFoldingContradicts(fold, unlistedError, a, b);
      assert !Agrees(LookupEvidenceOf(s, b), ExactEvidence(fs, context, s, b));
    } else if !UnlistedNamesAreAbsent(unlistedError) {
      var path, name :| IsAbsolute(path) && IsCommandName(name) && unlistedError(path, name).Some?;
      var fs, context, s := FailingStatIsDenied(fold, unlistedError, path, name);
      assert !Agrees(LookupEvidenceOf(s, name), ExactEvidence(fs, context, s, name));
    } else {
      forall fs: Filesystem, context, s, name |
        fs.fold == fold && fs.unlistedError == unlistedError && IsLive(fs, context, s) && IsCommandName(name)
        ensures Agrees(LookupEvidenceOf(s, name), ExactEvidence(fs, context, s, name))
      {
        NoStatFailsOn(fs, context, s.searchPath, 0, name);
        LookupAgreesIffNoStatFails(fs, context, s, name);
      }
    }
  }

  lemma {:induction false} NoStatFailsOn(
      fs: Filesystem, context: ExecutionContext, dirs: seq<SearchDirectory>, i: nat, name: seq<byte>)
    requires UnlistedNamesAreAbsent(fs.unlistedError) && IsCommandName(name)
    ensures NoStatFails(fs, context, dirs, i, name)
    decreases |dirs| - i
  {
    if i < |dirs| {
      NoStatFailsOn(fs, context, dirs, i + 1, name);
    }
  }

  function AsWritten(name: seq<byte>): seq<byte> {
    name
  }

  /** Two ways in which asking fails: names longer than the volume allows, and directories that may only be listed. */
  function LimitError(nameLimit: nat, listedOnly: set<seq<byte>>): (seq<byte>, seq<byte>) -> Option<string> {
    (path, name) =>
      if path in listedOnly then Some("Permission denied")
      else if nameLimit < |name| then Some("File name too long")
      else None
  }

  /** Every name beyond the limit of the volume, in a directory that may be searched. */
  lemma LongNameIsDenied(nameLimit: nat, name: seq<byte>)
    returns (fs: Filesystem, context: ExecutionContext, s: Snapshot)
    requires IsCommandName(name) && nameLimit < |name|
    ensures fs.fold == AsWritten && fs.unlistedError == LimitError(nameLimit, {})
    ensures DeniesWhatProbeAnswers(fs, context, s, name, Unknown(CannotInspectExecutable("File name too long")))
  {
    fs, context, s := FailingStatIsDenied(AsWritten, LimitError(nameLimit, {}), [SLASH], name);
  }

  /** Every name in a directory that may be listed and not searched. */
  lemma NameInListedOnlyDirectoryIsDenied(nameLimit: nat, path: seq<byte>, name: seq<byte>)
    returns (fs: Filesystem, context: ExecutionContext, s: Snapshot)
    requires IsAbsolute(path) && IsCommandName(name)
    ensures fs.fold == AsWritten && fs.unlistedError == LimitError(nameLimit, {path})
    ensures DeniesWhatProbeAnswers(fs, context, s, name, Unknown(CannotInspectExecutable("Permission denied")))
  {
    fs, context, s := FailingStatIsDenied(AsWritten, LimitError(nameLimit, {path}), path, name);
  }

  const LONG_NAME: seq<byte> := seq(300, _ => 0x61)

  /** One such name: 300 letters where a volume allows 255. */
  lemma LongNameExample()
    returns (fs: Filesystem, context: ExecutionContext, s: Snapshot)
    ensures fs.fold == AsWritten && fs.unlistedError == LimitError(255, {})
    ensures LookupEvidenceOf(s, LONG_NAME) == Missing && ExactEvidence(fs, context, s, LONG_NAME).Unknown?
  {
    AsciiIsValid(LONG_NAME, 0);
    fs, context, s := LongNameIsDenied(255, LONG_NAME);
  }

  lemma {:induction false} AsciiIsValid(text: seq<byte>, i: nat)
    requires i <= |text| && forall k :: i <= k < |text| ==> text[k] < 0x80
    ensures ValidFrom(text, i)
    decreases |text| - i
  {
    if i < |text| {
      AsciiIsValid(text, i + 1);
    }
  }

  // The host

  /** Scanning fills one search directory, entry by entry. */
  method ScanDirectory(fs: Filesystem, path: seq<byte>, initial: SearchDirectory) returns (directory: SearchDirectory)
    requires initial.commands == map[] && !initial.complete && initial.failure.None?
    ensures IsScan(fs, path, directory) && directory.path == initial.path
  {
    directory := initial;
    var listing := fs.DirectoryAt(path);
    if listing.NoDirectory? {
      directory := directory.(complete := true);
      return;
    }
    if listing.Unreadable? {
      directory := directory.(failure := Some(CannotInspectDirectory(listing.detail)));
      return;
    }
    directory := directory.(complete := true);
    var entries := listing.entries;
    for index := 0 to |entries|
      invariant index <= MAX_ENTRIES_PER_DIRECTORY
      invariant directory.path == initial.path
      invariant CommandsAreListed(path, entries, index, directory)
      invariant ExecutablesAreIndexed(path, entries, index, directory)
      invariant directory.complete <==> IsWithoutDoubt(path, entries, index)
      invariant directory.failure == LastDoubt(path, entries, index)
    {
      if MAX_ENTRIES_PER_DIRECTORY <= index {
        directory := directory.(complete := false, failure := Some(ExceedsEntryScanLimit));
        break;
      }
      var entry := entries[index];
      if entry.readError.Some? {
        directory := directory.(
          complete := false, failure := Some(CannotInspectEntry(entry.readError.value)));
        continue;
      }
      if !ValidUtf8(entry.name) {
        continue;
      }
      match InspectOne(entry.stat, Join(path, entry.name)) {
        case Present(executable) =>
          directory := directory.(commands := directory.commands[entry.name := executable]);
        case Unknown(detail) =>
          directory := directory.(complete := false, failure := Some(detail));
        case Missing =>
      }
    }
  }

  class EnvironmentSnapshot {
    var targetId: string
    var platform: Platform
    var generation: nat
    var isFresh: bool
    var pathKnown: bool
    var casing: Casing
    var searchPath: seq<SearchDirectory>
    var exactLookups: map<seq<byte>, LookupEvidence>

    function View(): Snapshot
      reads this
    {
      Snapshot(targetId, platform, isFresh, pathKnown, casing, searchPath, exactLookups)
    }

    /** Index exactly these PATH entries. */
    constructor Capture(
        fs: Filesystem, context: ExecutionContext, paths: seq<seq<byte>>, generation: nat)
      ensures IsCapture(fs, context, View())
      ensures exactLookups == map[] && isFresh && platform == Unix && this.generation == generation
      ensures pathKnown <==> !context.policy.Captured?
      ensures |searchPath| == if context.policy.Captured? then 0 else |paths|
      ensures forall i :: 0 <= i < |searchPath| ==> searchPath[i].path == paths[i]
    {
      targetId := context.targetId;
      platform := Unix;
      this.generation := generation;
      isFresh := true;
      pathKnown := false;
      casing := Sensitive;
      searchPath := [];
      exactLookups := map[];
      new;
      if context.policy.Captured? {
        return;
      }
      pathKnown := true;
      for index := 0 to |paths|
        invariant IsCapture(fs, context, View()) && pathKnown
        invariant exactLookups == map[] && isFresh && platform == Unix && this.generation == generation
        invariant |searchPath| == index
        invariant forall i :: 0 <= i < |searchPath| ==> searchPath[i].path == paths[i]
      {
        var directory := SearchDirectory(paths[index], map[], false, None);
        var absolute := AbsolutePath(context, paths[index]);
        if MAX_DIRECTORIES <= index {
          directory := directory.(failure := Some(ExceedsDirectoryScanLimit));
        } else if absolute.Some? {
          directory := ScanDirectory(fs, absolute.value, directory);
        } else {
          directory := directory.(failure := Some(RelativeEntryNeedsLaunchDirectory));
        }
        assert IsCapturedEntry(fs, context, index, directory);
        searchPath := searchPath + [directory];
      }
    }

    method Lookup(name: seq<byte>) returns (evidence: LookupEvidence)
      ensures evidence == LookupEvidenceOf(View(), name)
    {
      if !isFresh {
        return Unknown(StaleEvidence);
      }
      if name in exactLookups {
        return exactLookups[name];
      }
      if platform.Windows? {
        return Unknown(WindowsNeedsProbe);
      }
      if SLASH in name {
        return Unknown(ExplicitPathNotCaptured);
      }
      if !pathKnown {
        return Unknown(PathIsUnknown);
      }
      var key := casing.Key(name);
      for index := 0 to |searchPath|
        invariant LookupFrom(searchPath, index, key) == LookupFrom(searchPath, 0, key)
      {
        var directory := searchPath[index];
        if key in directory.commands {
          return Present(directory.commands[key]);
        }
        if exists candidate :: candidate in directory.commands && EqIgnoreAsciiCase(candidate, key) {
          return Unknown(CaseMatchingNeedsProbe);
        }
        if !directory.complete {
          return Unknown(if directory.failure.Some? then directory.failure.value
                         else IncompleteInventory);
        }
      }
      return Missing;
    }

    method ExactLookup(fs: Filesystem, context: ExecutionContext, name: seq<byte>) returns (evidence: LookupEvidence)
      ensures evidence == ExactEvidence(fs, context, View(), name)
    {
      if context.targetId != targetId {
        return Unknown(BelongsToAnotherTarget);
      }
      if context.policy.Captured? {
        return Unknown(CapturedTargetCannotQuery);
      }
      if !isFresh {
        return Unknown(StaleSnapshot);
      }
      if name == [] || 0 in name || MAX_NAME_LENGTH < |name| {
        return Unknown(NameIsNoPath);
      }
      if SLASH in name {
        var path := AbsolutePath(context, name);
        if path.None? {
          return Unknown(RelativePathNeedsLaunchDirectory);
        }
        return InspectOne(fs.explicit(path.value), path.value);
      }
      if !pathKnown {
        return Unknown(PathIsUnknown);
      }
      for index := 0 to |searchPath|
        invariant ProbeFrom(fs, context, searchPath, index, name) == ProbeFrom(fs, context, searchPath, 0, name)
      {
        if MAX_DIRECTORIES <= index {
          return Unknown(ExceedsExactLookupLimit);
        }
        var path := AbsolutePath(context, searchPath[index].path);
        if path.None? {
          return Unknown(RelativeEntryNeedsLaunchDirectory);
        }
        evidence := ProbeDirectory(fs, path.value, name);
        if !evidence.Missing? {
          return;
        }
      }
      return Missing;
    }

    /** Record exact answers for live targets. */
    method RefreshExact(fs: Filesystem, context: ExecutionContext, names: seq<seq<byte>>)
      modifies this`exactLookups
      ensures View() == old(View()).(exactLookups := RefreshedLookups(fs, context, old(View()), names))
    {
      if context.targetId != targetId || context.policy.Captured? {
        return;
      }
      hide ExactEvidence;
      ghost var before := View();
      var count := if |names| < MAX_REFRESHED_NAMES then |names| else MAX_REFRESHED_NAMES;
      for index := 0 to count
        invariant exactLookups == RecordAnswers(fs, context, before, names, index)
      {
        var evidence := ExactLookup(fs, context, names[index]);
        ExactIgnoresRecorded(fs, context, before, exactLookups, names[index]);
        exactLookups := exactLookups[names[index] := evidence];
      }
    }
  }

  /** The recorded answers after the first `n` names have been refreshed. */
  function RecordAnswers(
      fs: Filesystem, context: ExecutionContext, s: Snapshot, names: seq<seq<byte>>, n: nat):
      map<seq<byte>, LookupEvidence>
    requires n <= |names|
  {
    if n == 0 then s.exactLookups
    else RecordAnswers(fs, context, s, names, n - 1)[names[n - 1] := ExactEvidence(fs, context, s, names[n - 1])]
  }

  /** Only live targets are refreshed, and at most 4096 names at a time. */
  function RefreshedLookups(fs: Filesystem, context: ExecutionContext, s: Snapshot, names: seq<seq<byte>>):
      map<seq<byte>, LookupEvidence>
  {
    if context.targetId != s.targetId || context.policy.Captured? then s.exactLookups
    else RecordAnswers(fs, context, s, names, if |names| < MAX_REFRESHED_NAMES then |names| else MAX_REFRESHED_NAMES)
  }

  /** A name refreshed among the first `n` has the probe's answer; any other keeps what it had. */
  lemma {:induction false} RecordedAnswersAreExact(
      fs: Filesystem, context: ExecutionContext, s: Snapshot, names: seq<seq<byte>>, n: nat, name: seq<byte>)
    requires n <= |names|
    ensures var recorded := RecordAnswers(fs, context, s, names, n);
            if name in names[..n] then
              name in recorded && recorded[name] == ExactEvidence(fs, context, s, name)
            else
              (name in recorded <==> name in s.exactLookups)
              && (name in recorded ==> recorded[name] == s.exactLookups[name])
  {
    hide ExactEvidence;
    if 0 < n {
      assert names[..n] == names[..n - 1] + [names[n - 1]];
      RecordedAnswersAreExact(fs, context, s, names, n - 1, name);
    }
  }

  lemma ExactIgnoresRecorded(
      fs: Filesystem, context: ExecutionContext, s: Snapshot, recorded: map<seq<byte>, LookupEvidence>, name: seq<byte>)
    ensures ExactEvidence(fs, context, s.(exactLookups := recorded), name) == ExactEvidence(fs, context, s, name)
  {
  }

  /** Refreshing keeps every recorded answer right, and a refreshed name answers exactly as the probe does. */
  lemma RefreshedNamesAnswerAsProbe(
      fs: Filesystem, context: ExecutionContext, s: Snapshot, names: seq<seq<byte>>, name: seq<byte>)
    requires ExactAnswersHold(fs, context, s)
    ensures var after := s.(exactLookups := RefreshedLookups(fs, context, s, names));
            && ExactAnswersHold(fs, context, after)
            && ExactEvidence(fs, context, after, name) == ExactEvidence(fs, context, s, name)
            && (context.targetId == s.targetId && !context.policy.Captured? && s.isFresh
                && name in names[..if |names| < 4096 then |names| else 4096] ==>
                  LookupEvidenceOf(after, name) == ExactEvidence(fs, context, after, name))
            && (name !in names ==> LookupEvidenceOf(after, name) == LookupEvidenceOf(s, name))
  {
    hide ExactEvidence, LookupFrom;
    var after := s.(exactLookups := RefreshedLookups(fs, context, s, names));
    var count := if |names| < MAX_REFRESHED_NAMES then |names| else MAX_REFRESHED_NAMES;
    forall n
      ensures ExactEvidence(fs, context, after, n) == ExactEvidence(fs, context, s, n)
      ensures n in after.exactLookups ==> after.exactLookups[n] == ExactEvidence(fs, context, s, n)
    {
      ExactIgnoresRecorded(fs, context, s, after.exactLookups, n);
      RecordedAnswersAreExact(fs, context, s, names, count, n);
    }
    RecordedAnswersAreExact(fs, context, s, names, count, name);
  }
}
