/**
 Normalization of simple commands: wrappers such as `sudo`, `exec -a x`, `command -p` and
 `find -exec` are peeled off a word list until the command that runs is at the front.

 Every target is defined on the words that follow the wrapper; the index loops of `CommandScan`
 are proved equal to it at any position.
 */
module CommandResolution {
  import opened CommandWords
  import opened OptionalValues
  import opened Utf8

  datatype WrapperKind = Noglob | CommandWrapper | Builtin | Exec | Busybox | FindExec | FindExecDir | SudoFamily

  /** The bytes of an ASCII text. */
  function Ascii(s: string): (b: seq<byte>)
    ensures |b| == |s|
    ensures forall i :: 0 <= i < |s| && s[i] < 128 as char ==> b[i] == s[i] as int
  {
    seq(|s|, i requires 0 <= i < |s| => if s[i] < 128 as char then s[i] as int else 0x3F)
  }

  const DASH: byte := 0x2D
  const DASHES := [DASH, DASH]

  predicate StartsWithDash(arg: seq<byte>) {
    arg != [] && arg[0] == DASH
  }

  function Shift(target: Option<nat>, offset: nat): Option<nat> {
    if target.None? then None else Some(target.value + offset)
  }

  /** The word after the first of `args`, if there is one. */
  function NextWord(args: seq<Word>): Option<nat> {
    if 1 < |args| then Some(1) else None
  }

  // Targets, as offsets into the words after the wrapper

  /** The wrappers whose options are read word by word up to the target. */
  datatype OptionParser = CommandOptions | ExecOptions | SudoOptions

  /** How many words an option group takes, or that it leaves no target. */
  datatype OptionUse = Bad | Uses(words: nat)

  function OptionUseOf(parser: OptionParser, arg: seq<byte>): (use: OptionUse)
    ensures use.Uses? ==> 1 <= use.words <= 2
  {
    match parser
    case CommandOptions => if IsPortablePathOption(arg) then Uses(1) else Bad
    case ExecOptions => if arg == [] then Bad else ExecOptionUse(arg[1..])
    case SudoOptions => SudoOptionUse(arg)
  }

  /** `command` runs its target only under `-p`, `-pp`, ...; `-v` and `-V` look it up instead. */
  predicate IsPortablePathOption(arg: seq<byte>) {
    1 < |arg| && arg[0] == DASH && forall k :: 1 <= k < |arg| ==> arg[k] == 0x70
  }

  /** `exec` takes `-c` and `-l`; `-a` takes the next word unless a name is attached. */
  function ExecOptionUse(options: seq<byte>): (use: OptionUse)
    ensures use.Uses? ==> 1 <= use.words <= 2
  {
    if options == [] then Uses(1)
    else if options[0] == 0x63 || options[0] == 0x6C then ExecOptionUse(options[1..])
    else if options[0] != 0x61 then Bad
    else if |options| == 1 then Uses(2)
    else Uses(1)
  }

  predicate SudoListsOnly(arg: seq<byte>) {
    arg == [DASH, 0x6C] || arg == [DASH, 0x76] || arg == [DASH, 0x56]
  }

  predicate SudoOptionTakesValue(arg: seq<byte>) {
    1 < |arg| && arg[1] in {0x75, 0x67, 0x68, 0x70, 0x43, 0x44, 0x52, 0x54, 0x72, 0x74}
  }

  function SudoOptionUse(arg: seq<byte>): (use: OptionUse)
    ensures use.Uses? ==> 1 <= use.words <= 2
  {
    if SudoListsOnly(arg) then Bad
    else if SudoOptionTakesValue(arg) then Uses(if |arg| == 2 then 2 else 1)
    else if DASHES <= arg && arg != Ascii("--preserve-env") && arg != Ascii("--login") then Bad
    else Uses(1)
  }

  /** A word that ends the options by being the target itself: dynamic, no option, or a lone dash. */
  predicate IsPlainTarget(w: Word) {
    StaticText(w).None? || !StartsWithDash(StaticText(w).value) || |StaticText(w).value| == 1
  }

  function OptionsTarget(parser: OptionParser, args: seq<Word>): (target: Option<nat>)
    ensures target.Some? ==> target.value < |args|
  {
    if args == [] then None
    else if IsPlainTarget(args[0]) then Some(0)
    else if StaticText(args[0]).value == DASHES then NextWord(args)
    else
      var use := OptionUseOf(parser, StaticText(args[0]).value);
      if use.Bad? || |args| < use.words then None
      else Shift(OptionsTarget(parser, args[use.words..]), use.words)
  }

  predicate IsSkippedByCommand(w: Word) {
    StaticText(w).Some? && IsPortablePathOption(StaticText(w).value)
  }

  /** The first word that is no `-p` option ends the options of `command`, at position `i`. */
  predicate CommandOptionsEnd(args: seq<Word>, i: nat, t: nat) {
    && i <= t < |args|
    && (forall k :: 0 <= k < i ==> IsSkippedByCommand(args[k]))
    && if IsPlainTarget(args[i]) then t == i else StaticText(args[i]) == Some(DASHES) && t == i + 1
  }

  /** The target of `command` is the word where its options end, or the one after a closing `--`. */
  lemma {:induction false} CommandTargetIsWhereOptionsEnd(args: seq<Word>, t: nat)
    ensures OptionsTarget(CommandOptions, args) == Some(t) <==> exists i: nat :: CommandOptionsEnd(args, i, t)
  {
    hide StaticText;
    if args != [] && IsSkippedByCommand(args[0]) {
      assert StaticText(args[0]).value[1] == 0x70 && DASHES[1] != 0x70;
      assert !CommandOptionsEnd(args, 0, t);
      if 0 < t {
        var rest, u: nat := args[1..], t - 1;
        CommandTargetIsWhereOptionsEnd(rest, u);
        if i: nat :| CommandOptionsEnd(args, i, t) {
          assert CommandOptionsEnd(rest, i - 1, u);
        }
        if i: nat :| CommandOptionsEnd(rest, i, u) {
          assert forall k :: 0 < k < i + 1 ==> args[k] == rest[k - 1];
          assert CommandOptionsEnd(args, i + 1, t);
        }
      }
    } else if args != [] {
      assert forall i: nat :: CommandOptionsEnd(args, i, t) ==> i == 0;
      assert OptionsTarget(CommandOptions, args) == Some(t) <==> CommandOptionsEnd(args, 0, t);
    }
  }

  function BuiltinTarget(args: seq<Word>): (target: Option<nat>)
    ensures target.Some? ==> target.value < |args|
  {
    if args == [] then None
    else
      var text := StaticText(args[0]);
      if text.None? then Some(0)
      else if text.value == DASHES then NextWord(args)
      else if StartsWithDash(text.value) && |text.value| != 1 then None
      else Some(0)
  }

  predicate IsText(w: Word, text: seq<byte>) {
    StaticText(w) == Some(text)
  }

  /** The flags of `find` that run a command in place, and the one that runs it in each directory. */
  predicate IsExecFlag(w: Word, inDirectory: bool) {
    if inDirectory then IsText(w, Ascii("-execdir"))
    else IsText(w, Ascii("-exec")) || IsText(w, Ascii("-ok")) || IsText(w, Ascii("-okdir"))
  }

  function FirstExecFlag(args: seq<Word>, inDirectory: bool): (first: Option<nat>)
    ensures first.Some? ==> first.value < |args| && IsExecFlag(args[first.value], inDirectory)
                            && forall k :: 0 <= k < first.value ==> !IsExecFlag(args[k], inDirectory)
    ensures first.None? ==> forall k :: 0 <= k < |args| ==> !IsExecFlag(args[k], inDirectory)
  {
    if args == [] then None
    else if IsExecFlag(args[0], inDirectory) then Some(0)
    else Shift(FirstExecFlag(args[1..], inDirectory), 1)
  }

  /** The first `-execdir` decides, even when it has no command; otherwise the first other exec flag. */
  function FindTarget(args: seq<Word>): (target: Option<(WrapperKind, nat)>)
    ensures target.Some? ==> target.value.1 < |args|
  {
    var inDirectory := FirstExecFlag(args, true);
    var first := if inDirectory.Some? then inDirectory else FirstExecFlag(args, false);
    if first.None? || |args| <= first.value + 1 then None
    else Some((if inDirectory.Some? then FindExecDir else FindExec, first.value + 1))
  }

  // One step of resolution, on words that start with the current command word

  datatype Resolution =
    | Alias(name: seq<byte>, body: nat)
    | Wrapper(kind: WrapperKind, target: Option<nat>)

  function Resolve(words: seq<Word>, name: seq<byte>): (r: Option<Resolution>)
    requires words != []
    ensures r.Some? && r.value.Alias? ==> 0 < r.value.body < |words|
    ensures r.Some? && r.value.Wrapper? && r.value.target.Some? ==> 0 < r.value.target.value < |words|
  {
    var args := words[1..];
    if name == Ascii("noglob") then Some(Wrapper(Noglob, NextWord(words)))
    else if name == Ascii("command") then Some(Wrapper(CommandWrapper, Shift(OptionsTarget(CommandOptions, args), 1)))
    else if name == Ascii("builtin") then Some(Wrapper(Builtin, Shift(BuiltinTarget(args), 1)))
    else if name == Ascii("exec") then Some(Wrapper(Exec, Shift(OptionsTarget(ExecOptions, args), 1)))
    else if name == Ascii("busybox") then Some(Wrapper(Busybox, NextWord(words)))
    else if name == Ascii("find") then
      var target := FindTarget(args);
      if target.None? then None else Some(Wrapper(target.value.0, Some(target.value.1 + 1)))
    else if name == Ascii("sudo") || name == Ascii("doas") || name == Ascii("run0") then
      Some(Wrapper(SudoFamily, Shift(OptionsTarget(SudoOptions, args), 1)))
    else if name == Ascii("git") then
      if 1 < |words| && IsText(words[1], Ascii("filter-branch")) then Some(Alias(Ascii("git filter-branch"), 1))
      else None
    else if name == Ascii("mumps") then
      if 2 < |words| && IsText(words[1], Ascii("-run"))
         && (IsText(words[2], Ascii("%XCMD")) || IsText(words[2], Ascii("LOOP%XCMD")))
      then Some(Alias(Ascii("mumps -run ") + StaticText(words[2]).value, 2))
      else None
    else None
  }

  // Peeling

  /**
   The outcome of normalizing a word list. `at` is the word the body span covers, `bodyWord`
   says whether that span is a body word's, and `aliased` whether an alias ended the peeling.
   */
  datatype Peeled = Peeled(
    name: Option<seq<byte>>,
    wrappers: seq<WrapperKind>,
    at: nat,
    bodyWord: bool,
    bodyStart: Option<nat>,
    aliased: bool)

  function Under(kind: WrapperKind, offset: nat, p: Peeled): Peeled {
    p.(wrappers := [kind] + p.wrappers, at := p.at + offset, bodyStart := Shift(p.bodyStart, offset))
  }

  function Peel(words: seq<Word>): (p: Peeled)
    requires words != []
    ensures p.at < |words|
    ensures p.name.Some? <==> p.bodyStart.Some?
    ensures p.bodyStart.Some? ==> p.bodyWord && p.bodyStart.value == p.at
    decreases |words|
  {
    var name := StaticCommandName(words[0]);
    if name.None? then Peeled(None, [], 0, true, None, false)
    else
      match Resolve(words, name.value)
      case None => Peeled(name, [], 0, true, Some(0), false)
      case Some(Alias(alias, body)) => Peeled(Some(alias), [], body, true, Some(body), true)
      case Some(Wrapper(kind, None)) => Peeled(None, [kind], 0, false, None, false)
      case Some(Wrapper(kind, Some(target))) => Under(kind, target, Peel(words[target..]))
  }

  lemma Suffixes(words: seq<Word>, i: nat, k: nat)
    requires i <= |words| && i + k <= |words|
    ensures words[i..][k..] == words[i + k..]
  {
  }

  /** Peeling is compositional: a wrapper adds itself and its offset to what its target gives. */
  lemma WrapperPeelsToTarget(words: seq<Word>, kind: WrapperKind, target: nat)
    requires words != [] && StaticCommandName(words[0]).Some? && target < |words|
    requires Resolve(words, StaticCommandName(words[0]).value) == Some(Wrapper(kind, Some(target)))
    ensures Peel(words) == Under(kind, target, Peel(words[target..]))
  {
    hide Resolve;
  }

  /** The outcome of a word list at whose front nothing can be peeled off. */
  predicate IsNormalForm(words: seq<Word>, name: Option<seq<byte>>)
    requires words != []
  {
    Peel(words) == Peeled(name, [], 0, true, Some(0), false)
  }

  /** A body that no alias ended is in normal form: nothing more can be peeled off it. */
  lemma {:induction false} BodyIsInNormalForm(words: seq<Word>)
    requires words != []
    ensures var p := Peel(words); p.bodyStart.Some? && !p.aliased ==> IsNormalForm(words[p.at..], p.name)
    decreases |words|
  {
    hide Resolve, StaticCommandName;
    var name := StaticCommandName(words[0]);
    var r := if name.Some? then Resolve(words, name.value) else None;
    if r.Some? && r.value.Wrapper? && r.value.target.Some? {
      hide Peel;
      var target := r.value.target.value;
      BodyIsInNormalForm(words[target..]);
      WrapperPeelsToTarget(words, r.value.kind, target);
      Suffixes(words, target, Peel(words[target..]).at);
    } else {
      assert words[0..] == words;
    }
  }

  /** Wrappers come off one word or more at a time. */
  lemma {:induction false} WrappersLieBeforeBody(words: seq<Word>)
    requires words != []
    ensures var p := Peel(words); |p.wrappers| <= if p.bodyWord then p.at else p.at + 1
    decreases |words|
  {
    var name := StaticCommandName(words[0]);
    if name.Some? {
      match Resolve(words, name.value) {
        case Some(Wrapper(_, Some(target))) => WrappersLieBeforeBody(words[target..]);
        case _ =>
      }
    }
  }
}
