/**
 The option groups of wrappers, spelled out in bytes: which words each wrapper reads before its target, where
 the target is, and which names are wrappers at all.
 */
module CommandOptions {
  import opened CommandResolution
  import opened CommandScan
  import opened CommandWords
  import opened OptionalValues
  import opened Utf8

  /** A word that is a target itself: it expands at run time, does not start with a dash, or is a lone dash. */
  predicate IsTargetWord(w: Word) {
    var text := StaticText(w);
    text.None? || text.value == [] || text.value[0] != '-' as int || |text.value| == 1
  }

  predicate IsDoubleDash(w: Word) {
    StaticText(w) == Some(['-' as int, '-' as int])
  }

  /** The options end before word `i`, and the target is that word, or the next one after `--`. */
  predicate TargetIs(args: seq<Word>, i: nat, t: nat) {
    i <= t < |args| && if IsTargetWord(args[i]) then t == i else IsDoubleDash(args[i]) && t == i + 1
  }

  /** `command` reads `-p`, `-pp` and so on. */
  predicate IsCommandGroup(arg: seq<byte>, n: nat) {
    n == 1 && 1 < |arg| && arg[0] == '-' as int && forall k :: 1 <= k < |arg| ==> arg[k] == 'p' as int
  }

  /** `k` letters `c` or `l`, and then the end, or an `a` whose name is the rest of the word or the next word. */
  predicate IsCluster(options: seq<byte>, k: nat, n: nat) {
    && k <= |options|
    && (forall j :: 0 <= j < k ==> options[j] == 'c' as int || options[j] == 'l' as int)
    && (k < |options| ==> options[k] == 'a' as int)
    && n == if k + 1 == |options| then 2 else 1
  }

  /** `exec` reads a dash and a cluster of options. */
  ghost predicate IsExecGroup(arg: seq<byte>, n: nat) {
    1 < |arg| && arg[0] == '-' as int && exists k: nat :: IsCluster(arg[1..], k, n)
  }

  /** The options of `sudo` whose value is attached, or is the next word. */
  predicate IsValueLetter(b: byte) {
    b == 'u' as int || b == 'g' as int || b == 'h' as int || b == 'p' as int || b == 'C' as int || b == 'D' as int ||
    b == 'R' as int || b == 'T' as int || b == 'r' as int || b == 't' as int
  }

  /** `sudo` also reads other short options but `-l`, `-v` and `-V`, and two long ones. */
  predicate IsSudoGroup(arg: seq<byte>, n: nat) {
    && 1 < |arg| && arg[0] == '-' as int
    && if IsValueLetter(arg[1]) then n == if |arg| == 2 then 2 else 1
       else
         && n == 1
         && !(|arg| == 2 && (arg[1] == 'l' as int || arg[1] == 'v' as int || arg[1] == 'V' as int))
         && (arg[1] == '-' as int ==> arg == Ascii("--preserve-env") || arg == Ascii("--login"))
  }

  ghost predicate IsGroup(parser: OptionParser, arg: seq<byte>, n: nat) {
    match parser
    case CommandOptions => IsCommandGroup(arg, n)
    case ExecOptions => IsExecGroup(arg, n)
    case SudoOptions => IsSudoGroup(arg, n)
  }

  /** The first `i` words are option groups. */
  ghost predicate AreGroups(parser: OptionParser, args: seq<Word>, i: nat)
    decreases i
  {
    i == 0 ||
    exists n: nat ::
      && 1 <= n <= i <= |args|
      && StaticText(args[0]).Some? && IsGroup(parser, StaticText(args[0]).value, n)
      && AreGroups(parser, args[n..], i - n)
  }

  /** The target of a wrapper among the words that follow it. */
  ghost predicate IsTargetOf(parser: OptionParser, args: seq<Word>, t: nat) {
    exists i: nat :: AreGroups(parser, args, i) && TargetIs(args, i, t)
  }

  // The parsers read exactly these groups

  lemma {:induction false} ClusterIsRead(options: seq<byte>, n: nat)
    ensures ExecOptionUse(options) == Uses(n) <==> exists k: nat :: IsCluster(options, k, n)
    decreases |options|
  {
    if options == [] {
      assert n == 1 ==> IsCluster(options, 0, n);
    } else if options[0] == 'c' as int || options[0] == 'l' as int {
      ClusterIsRead(options[1..], n);
      if k: nat :| IsCluster(options[1..], k, n) {
        assert forall j :: 1 <= j < k + 1 ==> options[j] == options[1..][j - 1];
        assert IsCluster(options, k + 1, n);
      }
      if k: nat :| IsCluster(options, k, n) {
        assert IsCluster(options[1..], k - 1, n);
      }
    } else {
      assert forall k: nat :: IsCluster(options, k, n) ==> k == 0;
      assert IsCluster(options, 0, n) <==> options[0] == 'a' as int && n == if |options| == 1 then 2 else 1;
    }
  }

  lemma SudoGroupIsRead(arg: seq<byte>, n: nat)
    requires 1 < |arg| && arg[0] == '-' as int && arg != ['-' as int, '-' as int]
    ensures SudoOptionUse(arg) == Uses(n) <==> IsSudoGroup(arg, n)
  {
    assert DASHES <= arg <==> arg[1] == '-' as int;
    assert Ascii("--preserve-env")[1] == '-' as int && Ascii("--login")[1] == '-' as int;
  }

  /** Each parser takes as one option group exactly what is spelled out above. */
  lemma GroupIsRead(parser: OptionParser, arg: seq<byte>, n: nat)
    requires 1 < |arg| && arg[0] == '-' as int && arg != ['-' as int, '-' as int]
    ensures OptionUseOf(parser, arg) == Uses(n) <==> IsGroup(parser, arg, n)
  {
    match parser {
      case CommandOptions =>
      case ExecOptions => ClusterIsRead(arg[1..], n);
      case SudoOptions => SudoGroupIsRead(arg, n);
    }
  }

  lemma GroupIsNoTarget(parser: OptionParser, w: Word, n: nat)
    requires StaticText(w).Some? && IsGroup(parser, StaticText(w).value, n)
    ensures !IsTargetWord(w) && !IsDoubleDash(w)
    ensures 1 <= n <= 2
  {
    var arg := StaticText(w).value;
    assert IsDoubleDash(w) ==> |arg| == 2 && arg[1] == '-' as int;
    if parser.ExecOptions? {
      var k: nat :| IsCluster(arg[1..], k, n);
      assert arg[1..][0] == arg[1];
    } else if parser.SudoOptions? {
      assert |Ascii("--preserve-env")| > 2 && |Ascii("--login")| > 2;
    }
  }

  /** One unfolding of option reading in these terms. */
  lemma OptionsAreRead(parser: OptionParser, args: seq<Word>)
    ensures args == [] ==> OptionsTarget(parser, args) == None
    ensures args != [] && IsTargetWord(args[0]) ==> OptionsTarget(parser, args) == Some(0)
    ensures args != [] && IsDoubleDash(args[0]) ==> OptionsTarget(parser, args) == if 1 < |args| then Some(1) else None
    ensures args != [] && !IsTargetWord(args[0]) && !IsDoubleDash(args[0]) ==>
              var use := OptionUseOf(parser, StaticText(args[0]).value);
              OptionsTarget(parser, args) ==
              if use.Bad? || |args| < use.words then None
              else Shift(OptionsTarget(parser, args[use.words..]), use.words)
  {
    hide StaticText;
  }

  lemma NoGroupAtFront(parser: OptionParser, args: seq<Word>, i: nat)
    requires args != [] && 0 < i
    requires StaticText(args[0]).None? || forall n: nat :: !IsGroup(parser, StaticText(args[0]).value, n)
    ensures !AreGroups(parser, args, i)
  {
  }

  /** Without a group at the front, only the first word can end the options. */
  lemma TargetAtFront(parser: OptionParser, args: seq<Word>, t: nat)
    requires args != []
    requires StaticText(args[0]).None? || forall n: nat :: !IsGroup(parser, StaticText(args[0]).value, n)
    ensures IsTargetOf(parser, args, t) <==> TargetIs(args, 0, t)
  {
    hide IsGroup, StaticText;
    forall i: nat | 0 < i
      ensures !AreGroups(parser, args, i)
    {
      NoGroupAtFront(parser, args, i);
    }
    assert AreGroups(parser, args, 0);
  }

  lemma TargetMoves(args: seq<Word>, n: nat, i: nat, t: nat)
    requires n <= i && n <= t && n <= |args|
    ensures TargetIs(args, i, t) <==> TargetIs(args[n..], i - n, t - n)
  {
    hide IsTargetWord, IsDoubleDash;
  }

  lemma GroupsMove(parser: OptionParser, args: seq<Word>, n: nat, i: nat)
    requires args != [] && StaticText(args[0]).Some? && IsGroup(parser, StaticText(args[0]).value, n)
    requires forall m: nat :: IsGroup(parser, StaticText(args[0]).value, m) ==> m == n
    requires 1 <= n <= |args| && n <= i
    ensures AreGroups(parser, args, i) <==> i <= |args| && AreGroups(parser, args[n..], i - n)
  {
    hide IsGroup, StaticText;
  }

  lemma GroupsStartWithGroup(parser: OptionParser, args: seq<Word>, n: nat, i: nat)
    requires args != [] && StaticText(args[0]).Some?
    requires forall m: nat :: IsGroup(parser, StaticText(args[0]).value, m) ==> m == n
    ensures AreGroups(parser, args, i) ==> i == 0 || n <= i
  {
    hide IsGroup, StaticText;
  }

  /** Behind a group, the options and the target are those of the words that follow it. */
  lemma TargetBehindGroup(parser: OptionParser, args: seq<Word>, n: nat, t: nat)
    requires args != [] && StaticText(args[0]).Some? && IsGroup(parser, StaticText(args[0]).value, n)
    requires forall m: nat :: IsGroup(parser, StaticText(args[0]).value, m) ==> m == n
    requires n <= |args|
    ensures IsTargetOf(parser, args, t) <==> n <= t && IsTargetOf(parser, args[n..], t - n)
  {
    GroupIsNoTarget(parser, args[0], n);
    hide IsGroup, StaticText, IsTargetWord, IsDoubleDash, AreGroups;
    if IsTargetOf(parser, args, t) {
      var i: nat :| AreGroups(parser, args, i) && TargetIs(args, i, t);
      GroupsStartWithGroup(parser, args, n, i);
      GroupsMove(parser, args, n, i);
      TargetMoves(args, n, i, t);
    }
    if n <= t && IsTargetOf(parser, args[n..], t - n) {
      var i: nat :| AreGroups(parser, args[n..], i) && TargetIs(args[n..], i, t - n);
      GroupsMove(parser, args, n, i + n);
      TargetMoves(args, n, i + n, t);
    }
  }

  lemma NoGroupIsBigger(parser: OptionParser, args: seq<Word>, n: nat, t: nat)
    requires args != [] && StaticText(args[0]).Some? && IsGroup(parser, StaticText(args[0]).value, n)
    requires forall m: nat :: IsGroup(parser, StaticText(args[0]).value, m) ==> m == n
    requires |args| < n
    ensures !IsTargetOf(parser, args, t)
  {
    GroupIsNoTarget(parser, args[0], n);
    hide IsGroup, StaticText, IsTargetWord, IsDoubleDash;
    forall i: nat | AreGroups(parser, args, i)
      ensures !TargetIs(args, i, t)
    {
    }
  }

  lemma TargetsAreNoGroups(parser: OptionParser, w: Word)
    requires IsTargetWord(w) || IsDoubleDash(w)
    ensures StaticText(w).None? || forall n: nat :: !IsGroup(parser, StaticText(w).value, n)
    ensures !(IsTargetWord(w) && IsDoubleDash(w))
  {
    hide StaticText;
    if StaticText(w).Some? {
      forall n: nat
        ensures !IsGroup(parser, StaticText(w).value, n)
      {
        if IsGroup(parser, StaticText(w).value, n) {
          GroupIsNoTarget(parser, w, n);
        }
      }
    }
  }

  /** The target of a wrapper is the first word after its option groups, or after `--`, if there is one. */
  lemma {:induction false} TargetIsAfterGroups(parser: OptionParser, args: seq<Word>, t: nat)
    ensures OptionsTarget(parser, args) == Some(t) <==> IsTargetOf(parser, args, t)
    decreases |args|
  {
    OptionsAreRead(parser, args);
    if args != [] && (IsTargetWord(args[0]) || IsDoubleDash(args[0])) {
      hide OptionsTarget, OptionUseOf, StaticText, IsGroup, IsTargetOf;
      TargetsAreNoGroups(parser, args[0]);
      TargetAtFront(parser, args, t);
    } else if args != [] {
      var arg := StaticText(args[0]).value;
      var use := OptionUseOf(parser, arg);
      forall n: nat
        ensures use == Uses(n) <==> IsGroup(parser, arg, n)
      {
        GroupIsRead(parser, arg, n);
      }
      hide OptionsTarget, OptionUseOf, StaticText, IsGroup, IsTargetOf;
      if use.Bad? {
        TargetAtFront(parser, args, t);
      } else if |args| < use.words {
        NoGroupIsBigger(parser, args, use.words, t);
      } else {
        TargetBehindGroup(parser, args, use.words, t);
        if use.words <= t {
          TargetIsAfterGroups(parser, args[use.words..], t - use.words);
        }
      }
    }
  }

  /** `builtin` reads no options: its target is the next word, or the one after `--`. */
  lemma BuiltinTargetIsNext(args: seq<Word>, t: nat)
    ensures BuiltinTarget(args) == Some(t) <==> TargetIs(args, 0, t)
  {
    hide StaticText;
  }

  predicate RunsInPlace(w: Word) {
    IsText(w, Ascii("-exec")) || IsText(w, Ascii("-ok")) || IsText(w, Ascii("-okdir"))
  }

  /** `find` runs the word after its first `-execdir`, or else the one after its first other exec flag. */
  lemma FindTargetIsAfterFlag(args: seq<Word>, kind: WrapperKind, t: nat)
    ensures FindTarget(args) == Some((kind, t)) <==>
            && 0 < t < |args|
            && if kind == FindExecDir then IsFirst(args, t - 1, w => IsText(w, Ascii("-execdir")))
               else
                 && kind == FindExec
                 && (forall i :: 0 <= i < |args| ==> !IsText(args[i], Ascii("-execdir")))
                 && IsFirst(args, t - 1, w => RunsInPlace(w))
  {
    hide StaticText, Ascii;
  }

  /** Word `i` is the first that `matches`. */
  ghost predicate IsFirst(args: seq<Word>, i: int, matches: Word -> bool) {
    0 <= i < |args| && matches(args[i]) && forall k :: 0 <= k < i ==> !matches(args[k])
  }

  // Names

  /** Names of one length differ in their first or third letter. */
  lemma NamesDiffer()
    ensures |Ascii("noglob")| == 6 && |Ascii("git")| == 3 && |Ascii("mumps")| == 5
    ensures |Ascii("busybox")| == |Ascii("command")| == |Ascii("builtin")| == 7
    ensures Ascii("busybox")[2] == 's' as int && Ascii("command")[2] == 'm' as int && Ascii("builtin")[2] == 'i' as int
    ensures |Ascii("exec")| == |Ascii("sudo")| == |Ascii("doas")| == |Ascii("run0")| == |Ascii("find")| == 4
    ensures Ascii("exec")[0] == 'e' as int && Ascii("sudo")[0] == 's' as int && Ascii("doas")[0] == 'd' as int
    ensures Ascii("run0")[0] == 'r' as int && Ascii("find")[0] == 'f' as int
  {
  }

  /** Which command names are wrappers, of which kind, and which words are aliased. */
  lemma NamesAreResolved(words: seq<Word>, name: seq<byte>)
    requires words != []
    ensures var r, args := Resolve(words, name), words[1..];
      var next := if 1 < |words| then Some(1) else None;
      && (name == Ascii("noglob") ==> r == Some(Wrapper(Noglob, next)))
      && (name == Ascii("busybox") ==> r == Some(Wrapper(Busybox, next)))
      && (name == Ascii("command") ==>
            r == Some(Wrapper(CommandWrapper, Shift(OptionsTarget(CommandOptions, args), 1))))
      && (name == Ascii("builtin") ==> r == Some(Wrapper(Builtin, Shift(BuiltinTarget(args), 1))))
      && (name == Ascii("exec") ==> r == Some(Wrapper(Exec, Shift(OptionsTarget(ExecOptions, args), 1))))
      && (name in {Ascii("sudo"), Ascii("doas"), Ascii("run0")} ==>
            r == Some(Wrapper(SudoFamily, Shift(OptionsTarget(SudoOptions, args), 1))))
      && (name == Ascii("find") ==>
            r == if FindTarget(args).None? then None
                 else Some(Wrapper(FindTarget(args).value.0, Some(FindTarget(args).value.1 + 1))))
      && (r.Some? && r.value.Wrapper? ==> name in {
              Ascii("noglob"), Ascii("busybox"), Ascii("command"), Ascii("builtin"), Ascii("exec"), Ascii("sudo"),
              Ascii("doas"), Ascii("run0"), Ascii("find")})
  {
    hide StaticText, OptionsTarget, BuiltinTarget, FindTarget;
    NamesDiffer();
    hide Ascii;
  }

  // Wrappers in front of a command

  /** The words start like `sudo -u name`, with any wrapper of the family and any option that takes a value. */
  predicate StartsWithSudoValue(words: seq<Word>) {
    && 3 <= |words|
    && StaticCommandName(words[0]) in {Some(Ascii("sudo")), Some(Ascii("doas")), Some(Ascii("run0"))}
    && var flag := StaticText(words[1]);
       flag.Some? && |flag.value| == 2 && flag.value[0] == '-' as int && IsValueLetter(flag.value[1])
  }

  lemma SudoValueIsGroup(words: seq<Word>, t: nat)
    requires StartsWithSudoValue(words)
    ensures OptionsTarget(SudoOptions, words[1..]) == Some(t + 2) <==> IsTargetOf(SudoOptions, words[3..], t)
  {
    var args, flag := words[1..], StaticText(words[1]).value;
    assert args[2..] == words[3..];
    forall n: nat
      ensures IsGroup(SudoOptions, flag, n) <==> n == 2
    {
    }
    hide StaticText, IsGroup, IsTargetOf, OptionsTarget;
    TargetBehindGroup(SudoOptions, args, 2, t + 2);
    TargetIsAfterGroups(SudoOptions, args, t + 2);
  }

  /** Behind `sudo -u name`, whatever the name, peeling goes on with what `sudo` would run without them. */
  lemma SudoValueIsSkipped(words: seq<Word>, t: nat)
    requires StartsWithSudoValue(words) && IsTargetOf(SudoOptions, words[3..], t)
    ensures 3 + t < |words| && Peel(words) == Under(SudoFamily, 3 + t, Peel(words[3 + t..]))
  {
    SudoValueIsGroup(words, t);
    NamesAreResolved(words, StaticCommandName(words[0]).value);
    hide StaticText, StaticCommandName, IsTargetOf, OptionsTarget, Peel, Resolve, Ascii, IsValueLetter;
    WrapperPeelsToTarget(words, SudoFamily, 3 + t);
  }

  /** Normalizing `sudo -u name command ...` is normalizing `command ...` below one more wrapper. */
  lemma SudoValueIsNormalizedAway(words: seq<Word>)
    requires StartsWithSudoValue(words) && 3 < |words| && IsTargetWord(words[3])
    ensures var outer, inner := NormalizedOf(words).value, NormalizedOf(words[3..]).value;
      && outer.bodyWords == inner.bodyWords
      && outer.scan.effectiveName == inner.scan.effectiveName
      && outer.scan.wrappers == [SudoFamily] + inner.scan.wrappers
      && outer.scan.bodySpan == inner.scan.bodySpan
  {
    var rest := words[3..];
    assert AreGroups(SudoOptions, rest, 0) && TargetIs(rest, 0, 0);
    SudoValueIsSkipped(words, 0);
    hide Peel, StartsWithSudoValue, StaticCommandName;
    Suffixes(words, 3, Peel(rest).at);
  }
}
