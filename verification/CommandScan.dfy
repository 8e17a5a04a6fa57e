/**
 The loops that normalize commands: they move an index through the whole word list, and are proved equal to
 what `CommandResolution` defines on the words that follow a wrapper.
 */
module CommandScan {
  import opened CommandResolution
  import opened CommandWords
  import opened OptionalValues
  import opened Utf8

  method NextWordIndex(words: seq<Word>, current: nat) returns (target: Option<nat>)
    requires current < |words|
    ensures target == Shift(NextWord(words[current..]), current)
  {
    var index := current + 1;
    return if index < |words| then Some(index) else None;
  }

  /** One round of option reading, at a position in the whole word list. */
  lemma OptionsRound(parser: OptionParser, words: seq<Word>, index: nat)
    requires index < |words|
    ensures var goal := Shift(OptionsTarget(parser, words[index..]), index); var text := StaticText(words[index]);
            if IsPlainTarget(words[index]) then goal == Some(index)
            else if text.value == DASHES then goal == Shift(NextWord(words[index..]), index)
            else
              var use := OptionUseOf(parser, text.value);
              if use.Bad? || |words| < index + use.words then goal == None
              else goal == Shift(OptionsTarget(parser, words[index + use.words..]), index + use.words)
  {
    hide StaticText, OptionUseOf, StartsWithDash;
    if !IsPlainTarget(words[index]) && StaticText(words[index]).value != DASHES {
      var use := OptionUseOf(parser, StaticText(words[index]).value);
      if use.Uses? && index + use.words <= |words| {
        Suffixes(words, index, use.words);
      }
    }
  }

  method CommandWrapperTargetIndex(words: seq<Word>, current: nat) returns (target: Option<nat>)
    requires current < |words|
    ensures target == Shift(OptionsTarget(CommandOptions, words[current + 1..]), current + 1)
  {
    hide StaticText, OptionsTarget;
    var index := current + 1;
    while index < |words|
      invariant current < index <= |words|
      invariant Shift(OptionsTarget(CommandOptions, words[current + 1..]), current + 1) ==
                Shift(OptionsTarget(CommandOptions, words[index..]), index)
    {
      OptionsRound(CommandOptions, words, index);
      var text := StaticText(words[index]);
      if text.None? {
        return Some(index);
      }
      var arg := text.value;
      if arg == DASHES {
        target := NextWordIndex(words, index);
        return;
      }
      if !StartsWithDash(arg) || |arg| == 1 {
        return Some(index);
      }
      var lookupMode := false;
      for k := 1 to |arg|
        invariant lookupMode <==> exists j :: 1 <= j < k && arg[j] != 0x70
      {
        if arg[k] == 0x76 || arg[k] == 0x56 {
          lookupMode := true;
        } else if arg[k] != 0x70 {
          return None;
        }
      }
      if lookupMode {
        return None;
      }
      index := index + 1;
    }
    return None;
  }

  method BuiltinWrapperTargetIndex(words: seq<Word>, current: nat) returns (target: Option<nat>)
    requires current < |words|
    ensures target == Shift(BuiltinTarget(words[current + 1..]), current + 1)
  {
    hide StaticText, Ascii;
    var index := current + 1;
    if |words| <= index {
      return None;
    }
    var text := StaticText(words[index]);
    if text.None? {
      return Some(index);
    }
    if text.value == DASHES {
      target := NextWordIndex(words, index);
      return;
    }
    if StartsWithDash(text.value) && |text.value| != 1 {
      return None;
    }
    return Some(index);
  }

  method ExecWrapperTargetIndex(words: seq<Word>, current: nat) returns (target: Option<nat>)
    requires current < |words|
    ensures target == Shift(OptionsTarget(ExecOptions, words[current + 1..]), current + 1)
  {
    hide StaticText, OptionsTarget;
    var index := current + 1;
    while index < |words|
      invariant current < index <= |words|
      invariant Shift(OptionsTarget(ExecOptions, words[current + 1..]), current + 1) ==
                Shift(OptionsTarget(ExecOptions, words[index..]), index)
    {
      OptionsRound(ExecOptions, words, index);
      var text := StaticText(words[index]);
      if text.None? {
        return Some(index);
      }
      var arg := text.value;
      if arg == DASHES {
        target := NextWordIndex(words, index);
        return;
      }
      if !StartsWithDash(arg) || |arg| == 1 {
        return Some(index);
      }
      var consumedWords := 1;
      var k := 1;
      while k < |arg|
        invariant 1 <= k <= |arg| && consumedWords == 1
        invariant ExecOptionUse(arg[1..]) == ExecOptionUse(arg[k..])
      {
        assert arg[k..][1..] == arg[k + 1..];
        if arg[k] == 0x61 {
          var hasAttachedName := k + 1 < |arg|;
          if !hasAttachedName {
            if |words| <= index + consumedWords {
              return None;
            }
            consumedWords := consumedWords + 1;
          }
          break;
        } else if arg[k] != 0x63 && arg[k] != 0x6C {
          return None;
        }
        k := k + 1;
      }
      assert ExecOptionUse(arg[1..]) == Uses(consumedWords);
      index := index + consumedWords;
    }
    return None;
  }

  method SudoFamilyTargetIndex(words: seq<Word>, current: nat) returns (target: Option<nat>)
    requires current < |words|
    ensures target == Shift(OptionsTarget(SudoOptions, words[current + 1..]), current + 1)
  {
    hide StaticText, OptionsTarget, Ascii, SudoOptionTakesValue;
    var index := current + 1;
    while index < |words|
      invariant current < index <= |words|
      invariant Shift(OptionsTarget(SudoOptions, words[current + 1..]), current + 1) ==
                Shift(OptionsTarget(SudoOptions, words[index..]), index)
    {
      OptionsRound(SudoOptions, words, index);
      var text := StaticText(words[index]);
      if text.None? {
        return Some(index);
      }
      var arg := text.value;
      if arg == DASHES {
        target := NextWordIndex(words, index);
        return;
      }
      if !StartsWithDash(arg) || |arg| == 1 {
        return Some(index);
      }
      if |arg| == 2 && SudoListsOnly(arg) {
        return None;
      }
      if SudoOptionTakesValue(arg) {
        if |arg| == 2 {
          if |words| <= index + 1 {
            return None;
          }
          index := index + 2;
        } else {
          index := index + 1;
        }
        continue;
      }
      if DASHES <= arg && arg != Ascii("--preserve-env") && arg != Ascii("--login") {
        return None;
      }
      index := index + 1;
    }
    return None;
  }

  method FindExecTargetIndex(words: seq<Word>, current: nat) returns (target: Option<(WrapperKind, nat)>)
    requires current < |words|
    ensures var t := FindTarget(words[current + 1..]);
            target == if t.None? then None else Some((t.value.0, t.value.1 + current + 1))
  {
    hide StaticText, Ascii;
    var fallback: Option<(WrapperKind, nat)> := None;
    for index := current + 1 to |words|
      invariant forall k :: current < k < index ==> !IsExecFlag(words[k], true)
      invariant fallback.None? ==>
                  forall k :: current < k < index && k + 1 < |words| ==> !IsExecFlag(words[k], false)
      invariant fallback.Some? ==>
                  && fallback.value.0 == FindExec && current + 1 < fallback.value.1 <= index < |words| + 1
                  && fallback.value.1 < |words| && IsExecFlag(words[fallback.value.1 - 1], false)
                  && forall k :: current < k < fallback.value.1 - 1 ==> !IsExecFlag(words[k], false)
    {
      var word := words[index];
      if IsText(word, Ascii("-execdir")) {
        FirstExecFlagIs(words, current, true, Some(index));
        return if index + 1 < |words| then Some((FindExecDir, index + 1)) else None;
      }
      if IsText(word, Ascii("-exec")) || IsText(word, Ascii("-ok")) || IsText(word, Ascii("-okdir")) {
        if fallback.None? && index + 1 < |words| {
          fallback := Some((FindExec, index + 1));
        }
      }
    }
    FirstExecFlagIs(words, current, true, None);
    if fallback.Some? {
      FirstExecFlagIs(words, current, false, Some(fallback.value.1 - 1));
    } else if current + 1 < |words| && IsExecFlag(words[|words| - 1], false) {
      FirstExecFlagIs(words, current, false, Some(|words| - 1));
    } else {
      FirstExecFlagIs(words, current, false, None);
    }
    return fallback;
  }

  /** The first exec flag after `current` in the whole list is the first among the words that follow. */
  lemma FirstExecFlagIs(words: seq<Word>, current: nat, inDirectory: bool, first: Option<nat>)
    requires current < |words|
    requires first.Some? ==> current < first.value < |words| && IsExecFlag(words[first.value], inDirectory)
    requires forall k :: current < k < (if first.Some? then first.value else |words|) ==>
               !IsExecFlag(words[k], inDirectory)
    ensures FirstExecFlag(words[current + 1..], inDirectory)
            == if first.Some? then Some(first.value - current - 1) else None
  {
    hide IsExecFlag;
    var args := words[current + 1..];
    var found := FirstExecFlag(args, inDirectory);
    assert forall k :: 0 <= k < |args| ==> args[k] == words[current + 1 + k];
    if found.Some? {
      assert args[found.value] == words[current + 1 + found.value];
    }
    if first.Some? {
      assert args[first.value - current - 1] == words[first.value];
    }
  }

  method ResolveCommand(words: seq<Word>, current: nat, name: seq<byte>) returns (r: Option<Resolution>)
    requires current < |words|
    ensures r == Advance(Resolve(words[current..], name), current)
  {
    hide StaticText, OptionsTarget, BuiltinTarget, FindTarget;
    ghost var args := words[current..][1..];
    Suffixes(words, current, 1);
    if name == Ascii("noglob") {
      var target := NextWordIndex(words, current);
      return Some(Wrapper(Noglob, target));
    } else if name == Ascii("command") {
      var target := CommandWrapperTargetIndex(words, current);
      return Some(Wrapper(CommandWrapper, target));
    } else if name == Ascii("builtin") {
      var target := BuiltinWrapperTargetIndex(words, current);
      return Some(Wrapper(Builtin, target));
    } else if name == Ascii("exec") {
      var target := ExecWrapperTargetIndex(words, current);
      return Some(Wrapper(Exec, target));
    } else if name == Ascii("busybox") {
      return Some(Wrapper(Busybox, if current + 1 < |words| then Some(current + 1) else None));
    } else if name == Ascii("find") {
      var target := FindExecTargetIndex(words, current);
      return if target.None? then None else Some(Wrapper(target.value.0, Some(target.value.1)));
    } else if name == Ascii("sudo") || name == Ascii("doas") || name == Ascii("run0") {
      var target := SudoFamilyTargetIndex(words, current);
      return Some(Wrapper(SudoFamily, target));
    } else if name == Ascii("git") {
      if current + 1 < |words| && IsText(words[current + 1], Ascii("filter-branch")) {
        return Some(Alias(Ascii("git filter-branch"), current + 1));
      }
    } else if name == Ascii("mumps") {
      if current + 2 < |words| && IsText(words[current + 1], Ascii("-run")) {
        var entrypoint := StaticText(words[current + 2]);
        if entrypoint == Some(Ascii("%XCMD")) || entrypoint == Some(Ascii("LOOP%XCMD")) {
          return Some(Alias(Ascii("mumps -run ") + entrypoint.value, current + 2));
        }
      }
    }
    return None;
  }

  /** A resolution on a suffix, as indexes into the whole word list. */
  function Advance(r: Option<Resolution>, offset: nat): Option<Resolution> {
    match r
    case None => None
    case Some(Alias(name, body)) => Some(Alias(name, body + offset))
    case Some(Wrapper(kind, target)) => Some(Wrapper(kind, Shift(target, offset)))
  }

  // The scan

  datatype WordScan = WordScan(
    literalName: Option<seq<byte>>,
    effectiveName: Option<seq<byte>>,
    wrappers: seq<WrapperKind>,
    bodySpan: Span,
    bodyWordSpan: Option<Span>,
    bodyStart: Option<nat>)

  /** The scan of a word list is its peeling, with offsets turned into spans. */
  function ScanOf(words: seq<Word>): WordScan
    requires words != []
  {
    var p := Peel(words);
    var span := words[p.at].span;
    var bodyWordSpan := if p.bodyWord then Some(span) else None;
    WordScan(StaticCommandName(words[0]), p.name, p.wrappers, span, bodyWordSpan, p.bodyStart)
  }

  /** What is left to peel from `current` on, below the wrappers already found. */
  function Below(wrappers: seq<WrapperKind>, current: nat, p: Peeled): Peeled {
    p.(wrappers := wrappers + p.wrappers, at := p.at + current, bodyStart := Shift(p.bodyStart, current))
  }

  /** One round of peeling, at a position in the whole word list and below the wrappers found so far. */
  lemma PeelRound(words: seq<Word>, current: nat, wrappers: seq<WrapperKind>)
    requires current < |words|
    ensures var p := Below(wrappers, current, Peel(words[current..]));
            var name := StaticCommandName(words[current]);
            if name.None? then
              p == Peeled(None, wrappers, current, true, None, false)
            else
              match Advance(Resolve(words[current..], name.value), current)
              case None => p == Peeled(name, wrappers, current, true, Some(current), false)
              case Some(Alias(alias, body)) =>
                body < |words| && p == Peeled(Some(alias), wrappers, body, true, Some(body), true)
              case Some(Wrapper(kind, None)) =>
                p == Peeled(None, wrappers + [kind], current, false, None, false)
              case Some(Wrapper(kind, Some(target))) =>
                current < target < |words| && p == Below(wrappers + [kind], target, Peel(words[target..]))
  {
    hide Resolve, StaticCommandName;
    assert wrappers + [] == wrappers;
    var suffix, name := words[current..], StaticCommandName(words[current]);
    var r := if name.Some? then Resolve(suffix, name.value) else None;
    if r.Some? && r.value.Wrapper? && r.value.target.Some? {
      hide Peel;
      var offset := r.value.target.value;
      Suffixes(words, current, offset);
      WrapperPeelsToTarget(suffix, r.value.kind, offset);
      BelowUnder(wrappers, r.value.kind, current, offset, Peel(words[current + offset..]));
    }
  }

  lemma BelowUnder(wrappers: seq<WrapperKind>, kind: WrapperKind, current: nat, offset: nat, p: Peeled)
    ensures Below(wrappers, current, Under(kind, offset, p)) == Below(wrappers + [kind], current + offset, p)
  {
    assert wrappers + ([kind] + p.wrappers) == wrappers + [kind] + p.wrappers;
  }

  lemma PeelFromStart(words: seq<Word>)
    requires words != []
    ensures Below([], 0, Peel(words[0..])) == Peel(words)
  {
    assert words[0..] == words && [] + Peel(words).wrappers == Peel(words).wrappers;
  }

  method NormalizeCommandWordsScan(words: seq<Word>) returns (scan: Option<WordScan>)
    ensures scan == if words == [] then None else Some(ScanOf(words))
  {
    hide Peel, Resolve, Advance, Below, StaticCommandName;
    if words == [] {
      return None;
    }
    var literalName := StaticCommandName(words[0]);
    var effectiveName := literalName;
    var wrappers: seq<WrapperKind> := [];
    var bodySpan := words[0].span;
    var bodyWordSpan := Some(bodySpan);
    var bodyStart := if literalName.Some? then Some(0) else None;
    var current := 0;
    PeelFromStart(words);
    PeelRound(words, 0, []);
    while effectiveName.Some?
      invariant current < |words|
      invariant effectiveName.Some? ==>
                  && effectiveName == StaticCommandName(words[current]) && bodyStart == Some(current)
                  && bodySpan == words[current].span && bodyWordSpan == Some(bodySpan)
                  && Peel(words) == Below(wrappers, current, Peel(words[current..]))
      invariant effectiveName.None? ==>
                  WordScan(literalName, None, wrappers, bodySpan, bodyWordSpan, bodyStart) == ScanOf(words)
      decreases effectiveName.Some?, |words| - current
    {
      var resolution := ResolveCommand(words, current, effectiveName.value);
      PeelRound(words, current, wrappers);
      if resolution.None? {
        break;
      }
      match resolution.value {
        case Alias(name, body) =>
          bodySpan := words[body].span;
          bodyWordSpan := Some(words[body].span);
          bodyStart := Some(body);
          effectiveName := Some(name);
          break;
        case Wrapper(kind, target) =>
          wrappers := wrappers + [kind];
          if target.None? {
            effectiveName := None;
            bodyWordSpan := None;
            bodyStart := None;
            break;
          }
          PeelRound(words, target.value, wrappers);
          bodySpan := words[target.value].span;
          bodyWordSpan := Some(bodySpan);
          effectiveName := StaticCommandName(words[target.value]);
          bodyStart := if effectiveName.Some? then target else None;
          current := target.value;
      }
    }
    return Some(WordScan(literalName, effectiveName, wrappers, bodySpan, bodyWordSpan, bodyStart));
  }

  datatype NormalizedCommand = NormalizedCommand(scan: WordScan, bodyWords: seq<Word>)

  /** The normal form keeps the words from the body on. */
  function NormalizedOf(words: seq<Word>): Option<NormalizedCommand> {
    if words == [] then None
    else
      var scan := ScanOf(words);
      Some(NormalizedCommand(scan, if scan.bodyStart.Some? then words[scan.bodyStart.value..] else []))
  }

  method NormalizeCommandWords(words: seq<Word>) returns (normalized: Option<NormalizedCommand>)
    ensures normalized == NormalizedOf(words)
  {
    var scan := NormalizeCommandWordsScan(words);
    if scan.None? {
      return None;
    }
    var bodyWords := if scan.value.bodyStart.Some? then words[scan.value.bodyStart.value..] else [];
    return Some(NormalizedCommand(scan.value, bodyWords));
  }

  /** The owning form drops the words before the body from the caller's vector, one at a time. */
  method NormalizeCommandWordsOwned(owned: seq<Word>) returns (normalized: Option<NormalizedCommand>)
    ensures normalized == NormalizedOf(owned)
  {
    var words := owned;
    var scan := NormalizeCommandWordsScan(words);
    if scan.None? {
      return None;
    }
    if scan.value.bodyStart.None? {
      words := [];
    } else {
      var drained := 0;
      while drained < scan.value.bodyStart.value
        invariant drained <= scan.value.bodyStart.value < |owned|
        invariant words == owned[drained..]
      {
        words := words[1..];
        drained := drained + 1;
      }
    }
    return Some(NormalizedCommand(scan.value, words));
  }

  /** Normalizing the body of a normalized command again finds no wrappers and the same name. */
  lemma NormalizingAgainFindsNothing(words: seq<Word>)
    requires words != []
    ensures ScanOf(words).bodyStart.Some? && !Peel(words).aliased ==>
              var body := NormalizedOf(words).value.bodyWords;
              && body != []
              && ScanOf(body).wrappers == []
              && ScanOf(body).effectiveName == ScanOf(words).effectiveName
              && NormalizedOf(body).value.bodyWords == body
              && ScanOf(body).bodySpan == ScanOf(words).bodySpan
  {
    BodyIsInNormalForm(words);
  }
}
