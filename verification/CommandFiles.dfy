/**
 Which files are commands, spelled out on their metadata: what the exact probe answers, and what scanning a
 directory puts into its index.
 */
module CommandFiles {
  import opened OptionalValues
  import opened PathEvidence
  import opened Utf8

  /** A regular file with an execute bit that the caller may execute. */
  predicate IsCommandFile(stat: Stat) {
    stat.Found? && stat.isFile && stat.executeBits && stat.access.Granted?
  }

  /** Nobody can tell whether this is a command: asking failed, or asking for access to an executable file did. */
  predicate IsDoubtful(stat: Stat) {
    stat.StatFails? || (stat.Found? && stat.isFile && stat.executeBits && stat.access.AccessFails?)
  }

  /** Nothing there, or nothing that could be executed. */
  predicate IsNoCommand(stat: Stat) {
    !IsCommandFile(stat) && !IsDoubtful(stat)
  }

  /** The message about a doubtful file. */
  function DoubtOf(stat: Stat): Detail
    requires IsDoubtful(stat)
  {
    if stat.StatFails? then CannotInspectExecutable(stat.detail) else CannotDetermineAccess(stat.access.detail)
  }

  /** The evidence that names this file, with its own size and time. */
  predicate Names(x: Executable, path: seq<byte>, stat: Stat) {
    stat.Found? && x.path == path && x.size == stat.size && x.modified == stat.modified
  }

  /** Each kind of metadata has one kind of evidence. */
  lemma EvidenceOfStat(stat: Stat, path: seq<byte>)
    ensures InspectOne(stat, path).Present? <==> IsCommandFile(stat)
    ensures InspectOne(stat, path).Present? ==> Names(InspectOne(stat, path).executable, path, stat)
    ensures InspectOne(stat, path) == Missing <==> IsNoCommand(stat)
    ensures InspectOne(stat, path).Unknown? <==> IsDoubtful(stat)
    ensures IsDoubtful(stat) ==> InspectOne(stat, path).detail == DoubtOf(stat)
  {
  }

  // Paths

  predicate StartsWithSlash(path: seq<byte>) {
    path != [] && path[0] == '/' as int
  }

  /** An absolute path stands for itself; a relative one needs a known and absolute launch directory. */
  lemma PathIsAbsolute(context: ExecutionContext, path: seq<byte>)
    ensures var absolute := AbsolutePath(context, path);
      if StartsWithSlash(path) then absolute == Some(path)
      else if !context.cwdKnown || context.cwd.None? || !StartsWithSlash(context.cwd.value) then absolute == None
      else
        && absolute.Some?
        && var cwd := context.cwd.value;
           absolute.value == if cwd[|cwd| - 1] == '/' as int then cwd + path else cwd + ['/' as int] + path
  {
  }

  // The probe

  /** The metadata of `name` in the `i`-th PATH directory, if that directory can be placed. */
  function StatOf(fs: Filesystem, context: ExecutionContext, dirs: seq<SearchDirectory>, i: nat, name: seq<byte>):
      Option<Stat>
    requires i < |dirs|
  {
    var path := AbsolutePath(context, dirs[i].path);
    if path.None? then None else Some(fs.StatAt(path.value, name))
  }

  /** The `i`-th directory is within the limit of 256, can be placed, and holds no command of that name. */
  predicate Passes(fs: Filesystem, context: ExecutionContext, dirs: seq<SearchDirectory>, i: nat, name: seq<byte>)
    requires i < |dirs|
  {
    i < 256 && var stat := StatOf(fs, context, dirs, i, name); stat.Some? && IsNoCommand(stat.value)
  }

  /** All directories from the `i`-th up to the `j`-th pass. */
  ghost predicate AllPass(
      fs: Filesystem, context: ExecutionContext, dirs: seq<SearchDirectory>, i: nat, j: nat, name: seq<byte>)
    requires j <= |dirs|
  {
    forall k :: i <= k < j ==> Passes(fs, context, dirs, k, name)
  }

  /** The probe stops at the `j`-th directory, the first that does not pass, with this evidence. */
  predicate StopsWith(
      fs: Filesystem, context: ExecutionContext, dirs: seq<SearchDirectory>, j: nat, name: seq<byte>,
      evidence: LookupEvidence)
    requires j < |dirs|
  {
    var path, stat := AbsolutePath(context, dirs[j].path), StatOf(fs, context, dirs, j, name);
    if 256 <= j then evidence == Unknown(ExceedsExactLookupLimit)
    else if stat.None? then evidence == Unknown(RelativeEntryNeedsLaunchDirectory)
    else if IsDoubtful(stat.value) then evidence == Unknown(DoubtOf(stat.value))
    else
      && IsCommandFile(stat.value)
      && evidence.Present? && Names(evidence.executable, Join(path.value, name), stat.value)
  }

  lemma {:induction false} ProbeStops(
      fs: Filesystem, context: ExecutionContext, dirs: seq<SearchDirectory>, i: nat, name: seq<byte>)
    requires i <= |dirs|
    ensures var evidence := ProbeFrom(fs, context, dirs, i, name);
      || (evidence == Missing && AllPass(fs, context, dirs, i, |dirs|, name))
      || (evidence != Missing && exists j: nat ::
            i <= j < |dirs| && AllPass(fs, context, dirs, i, j, name) && !Passes(fs, context, dirs, j, name)
            && StopsWith(fs, context, dirs, j, name, evidence))
    decreases |dirs| - i
  {
    hide Filesystem.StatAt, AbsolutePath, InspectOne, Join;
    if i < |dirs| {
      var path := AbsolutePath(context, dirs[i].path);
      if path.Some? {
        EvidenceOfStat(fs.StatAt(path.value, name), Join(path.value, name));
      }
      if Passes(fs, context, dirs, i, name) {
        ProbeStops(fs, context, dirs, i + 1, name);
      } else {
        assert StopsWith(fs, context, dirs, i, name, ProbeFrom(fs, context, dirs, i, name));
      }
    }
  }

  /** The target is live: the answer comes from the filesystem. */
  predicate IsAsked(context: ExecutionContext, s: Snapshot, name: seq<byte>) {
    && context.targetId == s.targetId && !context.policy.Captured? && s.isFresh
    && name != [] && 0 !in name && |name| <= 4096
  }

  /** The first directory that does not pass is the `j`-th one. */
  ghost predicate StopsAtFirst(
      fs: Filesystem, context: ExecutionContext, dirs: seq<SearchDirectory>, j: nat, name: seq<byte>)
  {
    j < |dirs| && AllPass(fs, context, dirs, 0, j, name) && !Passes(fs, context, dirs, j, name)
  }

  /** The `j`-th directory is within the limit of 256 and holds a command file of that name. */
  predicate HoldsCommand(
      fs: Filesystem, context: ExecutionContext, dirs: seq<SearchDirectory>, j: nat, name: seq<byte>)
    requires j < |dirs|
  {
    j < 256 && var stat := StatOf(fs, context, dirs, j, name); stat.Some? && IsCommandFile(stat.value)
  }

  /**
   For a name to be searched on a known PATH, the probe answers Missing exactly when all directories pass. Otherwise it
   tells what the first one that does not pass holds: it answers Present exactly when that is a command file, with the
   path, size and time of that file, and Unknown exactly when that directory leaves doubt, cannot be placed or lies
   beyond the limit.
   */
  lemma ProbeFindsFirstCommandFile(fs: Filesystem, context: ExecutionContext, s: Snapshot, name: seq<byte>)
    requires IsAsked(context, s, name) && s.pathKnown && '/' as int !in name
    ensures var evidence, dirs := ExactEvidence(fs, context, s, name), s.searchPath;
      && (evidence == Missing <==> AllPass(fs, context, dirs, 0, |dirs|, name))
      && (evidence.Present? <==>
            exists j: nat :: StopsAtFirst(fs, context, dirs, j, name) && HoldsCommand(fs, context, dirs, j, name))
      && (evidence.Unknown? <==>
            exists j: nat :: StopsAtFirst(fs, context, dirs, j, name) && !HoldsCommand(fs, context, dirs, j, name))
      && forall j: nat :: StopsAtFirst(fs, context, dirs, j, name) ==>
           StopsWith(fs, context, dirs, j, name, evidence)
  {
    ProbeStops(fs, context, s.searchPath, 0, name);
    FirstStopDecides(fs, context, s.searchPath, name, ProbeFrom(fs, context, s.searchPath, 0, name));
  }

  lemma FirstStopDecides(
      fs: Filesystem, context: ExecutionContext, dirs: seq<SearchDirectory>, name: seq<byte>, evidence: LookupEvidence)
    requires
      || (evidence == Missing && AllPass(fs, context, dirs, 0, |dirs|, name))
      || (evidence != Missing && exists j: nat ::
            0 <= j < |dirs| && AllPass(fs, context, dirs, 0, j, name) && !Passes(fs, context, dirs, j, name)
            && StopsWith(fs, context, dirs, j, name, evidence))
    ensures evidence == Missing <==> AllPass(fs, context, dirs, 0, |dirs|, name)
    ensures evidence.Present? <==>
            exists j: nat :: StopsAtFirst(fs, context, dirs, j, name) && HoldsCommand(fs, context, dirs, j, name)
    ensures evidence.Unknown? <==>
            exists j: nat :: StopsAtFirst(fs, context, dirs, j, name) && !HoldsCommand(fs, context, dirs, j, name)
    ensures forall j: nat :: StopsAtFirst(fs, context, dirs, j, name) ==>
              StopsWith(fs, context, dirs, j, name, evidence)
  {
    hide StopsWith, Passes, HoldsCommand;
    if evidence != Missing {
      var j: nat :|
        j < |dirs| && AllPass(fs, context, dirs, 0, j, name) && !Passes(fs, context, dirs, j, name)
        && StopsWith(fs, context, dirs, j, name, evidence);
      assert StopsAtFirst(fs, context, dirs, j, name);
      StopIsPresentIff(fs, context, dirs, j, name, evidence);
    }
  }

  lemma StopIsPresentIff(
      fs: Filesystem, context: ExecutionContext, dirs: seq<SearchDirectory>, j: nat, name: seq<byte>,
      evidence: LookupEvidence)
    requires j < |dirs| && !Passes(fs, context, dirs, j, name) && StopsWith(fs, context, dirs, j, name, evidence)
    ensures evidence.Present? <==> HoldsCommand(fs, context, dirs, j, name)
  {
    hide Filesystem.StatAt, AbsolutePath, Join;
  }

  /** A path to a file is inspected where it points, from the launch directory if it is relative. */
  lemma ExplicitPathIsInspected(fs: Filesystem, context: ExecutionContext, s: Snapshot, name: seq<byte>)
    requires IsAsked(context, s, name) && '/' as int in name
    ensures var evidence, path := ExactEvidence(fs, context, s, name), AbsolutePath(context, name);
      if path.None? then evidence == Unknown(RelativePathNeedsLaunchDirectory)
      else
        var stat := fs.explicit(path.value);
        && (evidence.Present? <==> IsCommandFile(stat))
        && (evidence.Present? ==> Names(evidence.executable, path.value, stat))
        && (evidence == Missing <==> IsNoCommand(stat))
        && (evidence.Unknown? <==> IsDoubtful(stat))
        && (IsDoubtful(stat) ==> evidence == Unknown(DoubtOf(stat)))
  {
    var path := AbsolutePath(context, name);
    if path.Some? {
      EvidenceOfStat(fs.explicit(path.value), path.value);
    }
  }

  // Scanning

  /** The `i`-th entry is among those that are read, and its name is text. */
  predicate IsNamedEntry(entries: seq<Entry>, i: nat) {
    i < |entries| && i < 40_000 && entries[i].readError.None? && ValidUtf8(entries[i].name)
  }

  /** The directory could be listed to its end, and no entry failed to be read or leaves doubt. */
  ghost predicate IsFullyKnown(directory: Directory) {
    match directory
    case NoDirectory => true
    case Unreadable(_, _) => false
    case Readable(entries) =>
      && |entries| <= 40_000
      && forall i: nat :: i < |entries| ==>
           entries[i].readError.None? && (IsNamedEntry(entries, i) ==> !IsDoubtful(entries[i].stat))
  }

  /** The entries that a listing yields. */
  function Listed(directory: Directory): seq<Entry> {
    match directory
    case Readable(entries) => entries
    case _ => []
  }

  /**
   The index of a scanned directory holds exactly the names of command files among the first 40000 entries, each with
   the path, size and time of such a file; it is complete exactly when nothing about the directory is unknown.
   */
  lemma IndexHoldsCommandFiles(fs: Filesystem, path: seq<byte>, d: SearchDirectory)
    requires IsScan(fs, path, d)
    ensures var entries := Listed(fs.DirectoryAt(path));
      forall name ::
        && (name in d.commands <==>
              exists i: nat :: IsNamedEntry(entries, i) && entries[i].name == name && IsCommandFile(entries[i].stat))
        && (name in d.commands ==>
              exists i: nat ::
                && IsNamedEntry(entries, i) && entries[i].name == name && IsCommandFile(entries[i].stat)
                && Names(d.commands[name], Join(path, name), entries[i].stat))
    ensures d.complete <==> IsFullyKnown(fs.DirectoryAt(path))
  {
    hide Filesystem.DirectoryAt, Join, ValidUtf8;
    var entries := Listed(fs.DirectoryAt(path));
    assert entries == ListingOf(fs.DirectoryAt(path));
    forall i: nat | i < |entries|
      ensures var e := entries[i];
        && (EntryEvidence(path, e).Present? <==> IsCommandFile(e.stat))
        && (EntryEvidence(path, e).Present? ==>
              Names(EntryEvidence(path, e).executable, Join(path, e.name), e.stat))
        && (EntryEvidence(path, e).Unknown? <==> IsDoubtful(e.stat))
    {
      EvidenceOfStat(entries[i].stat, Join(path, entries[i].name));
    }
    IndexNamesAreCommands(path, entries, d);
    assert IsWithoutDoubt(path, entries, |entries|) <==>
           forall i: nat :: i < |entries| ==>
             entries[i].readError.None? && (ValidUtf8(entries[i].name) ==> !IsDoubtful(entries[i].stat));
  }

  lemma IndexNamesAreCommands(path: seq<byte>, entries: seq<Entry>, d: SearchDirectory)
    requires CommandsAreListed(path, entries, 40_000, d) && ExecutablesAreIndexed(path, entries, 40_000, d)
    requires forall i: nat :: i < |entries| ==>
      var e := entries[i];
      && (EntryEvidence(path, e).Present? <==> IsCommandFile(e.stat))
      && (EntryEvidence(path, e).Present? ==> Names(EntryEvidence(path, e).executable, Join(path, e.name), e.stat))
    ensures forall name ::
      && (name in d.commands <==>
            exists i: nat :: IsNamedEntry(entries, i) && entries[i].name == name && IsCommandFile(entries[i].stat))
      && (name in d.commands ==>
            exists i: nat ::
              && IsNamedEntry(entries, i) && entries[i].name == name && IsCommandFile(entries[i].stat)
              && Names(d.commands[name], Join(path, name), entries[i].stat))
  {
    hide EntryEvidence, IsCommandFile, Names, Join, ValidUtf8;
    forall name | name in d.commands
      ensures exists i: nat ::
                && IsNamedEntry(entries, i) && entries[i].name == name && IsCommandFile(entries[i].stat)
                && Names(d.commands[name], Join(path, name), entries[i].stat)
    {
      var i: nat :|
        i < |entries| && i < 40_000 && IsListed(entries[i]) && entries[i].name == name
        && EntryEvidence(path, entries[i]) == Present(d.commands[name]);
      assert IsNamedEntry(entries, i);
    }
  }

  // When nothing can be said

  /** Anything but a live target with a known PATH and a name that fits leaves the probe without an answer. */
  lemma ProbeDeclines(fs: Filesystem, context: ExecutionContext, s: Snapshot, name: seq<byte>)
    ensures !IsAsked(context, s, name) ==> ExactEvidence(fs, context, s, name).Unknown?
    ensures !s.pathKnown && '/' as int !in name ==> ExactEvidence(fs, context, s, name).Unknown?
  {
    hide ProbeFrom;
  }

  /** A stale index answers nothing, and beyond what was recorded one of another platform or for paths does not. */
  lemma LookupDeclines(s: Snapshot, name: seq<byte>)
    ensures !s.isFresh ==> LookupEvidenceOf(s, name) == Unknown(StaleEvidence)
    ensures s.isFresh && name in s.exactLookups ==> LookupEvidenceOf(s, name) == s.exactLookups[name]
    ensures name !in s.exactLookups && (s.platform.Windows? || '/' as int in name || !s.pathKnown) ==>
              LookupEvidenceOf(s, name).Unknown?
  {
    hide LookupFrom;
  }

  /** Names that differ in ASCII case only: each byte is the same, or the other case of one letter. */
  lemma CaseVariantsDifferInLetters(a: seq<byte>, b: seq<byte>)
    ensures EqIgnoreAsciiCase(a, b) <==>
            && |a| == |b|
            && forall k :: 0 <= k < |a| ==>
                 || a[k] == b[k]
                 || ('A' as int <= a[k] <= 'Z' as int && b[k] == a[k] + 32)
                 || ('A' as int <= b[k] <= 'Z' as int && a[k] == b[k] + 32)
  {
  }

  /** The index of the directory is complete and knows no such name, in any ASCII case. */
  ghost predicate IsPassed(d: SearchDirectory, name: seq<byte>) {
    d.complete && forall candidate :: candidate in d.commands ==> !EqIgnoreAsciiCase(candidate, name)
  }

  /** The first directory from the `i`-th on that is not passed is the `j`-th one. */
  ghost predicate IsFirstNotPassed(dirs: seq<SearchDirectory>, i: nat, j: nat, name: seq<byte>) {
    i <= j < |dirs| && !IsPassed(dirs[j], name) && forall k :: i <= k < j ==> IsPassed(dirs[k], name)
  }

  /** The lookup answers Present exactly when the first directory that is not passed has the name itself. */
  lemma {:induction false} LookupFindsFirstIndexed(dirs: seq<SearchDirectory>, i: nat, name: seq<byte>)
    requires i <= |dirs|
    ensures LookupFrom(dirs, i, name) == Missing <==> forall k :: i <= k < |dirs| ==> IsPassed(dirs[k], name)
    ensures forall j: nat :: IsFirstNotPassed(dirs, i, j, name) ==>
              if name in dirs[j].commands then LookupFrom(dirs, i, name) == Present(dirs[j].commands[name])
              else LookupFrom(dirs, i, name).Unknown?
    decreases |dirs| - i
  {
    hide EqIgnoreAsciiCase;
    if i < |dirs| {
      assert EqIgnoreAsciiCase(name, name) by {
        CaseVariantsDifferInLetters(name, name);
      }
      LookupFindsFirstIndexed(dirs, i + 1, name);
    }
  }
}
