/** Which words make an alias end the peeling of wrappers, and what that means for normalizing again. */
module CommandAliases {
  import opened CommandResolution
  import opened CommandScan
  import opened CommandWords
  import opened OptionalValues
  import opened Utf8

  /** The last word that is looked at as a command word: every wrapper before it has a target. */
  function LastCommandWord(words: seq<Word>): (last: nat)
    requires words != []
    ensures last < |words|
    decreases |words|
  {
    var name := StaticCommandName(words[0]);
    if name.None? then 0
    else
      match Resolve(words, name.value)
      case Some(Wrapper(_, Some(target))) => target + LastCommandWord(words[target..])
      case _ => 0
  }

  /** `git filter-branch`, or `mumps -run` with one of its two entry points. */
  predicate IsAliasCommand(words: seq<Word>)
    requires words != []
  {
    || (StaticCommandName(words[0]) == Some(Ascii("git")) && 1 < |words| && IsText(words[1], Ascii("filter-branch")))
    || (StaticCommandName(words[0]) == Some(Ascii("mumps")) && 2 < |words| && IsText(words[1], Ascii("-run"))
        && (IsText(words[2], Ascii("%XCMD")) || IsText(words[2], Ascii("LOOP%XCMD"))))
  }

  lemma AliasesAreResolved(words: seq<Word>)
    requires words != [] && StaticCommandName(words[0]).Some?
    ensures var r := Resolve(words, StaticCommandName(words[0]).value);
      && (r.Some? && r.value.Alias? <==> IsAliasCommand(words))
      && (IsAliasCommand(words) ==>
            if StaticCommandName(words[0]) == Some(Ascii("git")) then r == Some(Alias(Ascii("git filter-branch"), 1))
            else r == Some(Alias(Ascii("mumps -run ") + StaticText(words[2]).value, 2)))
  {
    hide StaticText, StaticCommandName, OptionsTarget, BuiltinTarget, FindTarget;
    var name := StaticCommandName(words[0]).value;
    assert name == Ascii("git") ==> |name| == 3;
    assert name == Ascii("mumps") ==> |name| == 5;
  }

  /** An alias ends the peeling exactly when the last command word starts an aliased command. */
  lemma {:induction false} AliasedIffAliasCommand(words: seq<Word>)
    requires words != []
    ensures Peel(words).aliased <==> IsAliasCommand(words[LastCommandWord(words)..])
    decreases |words|
  {
    hide Resolve, StaticCommandName, IsAliasCommand;
    assert words[0..] == words;
    var name := StaticCommandName(words[0]);
    if name.None? {
      NamelessIsNoAlias(words);
    } else {
      AliasesAreResolved(words);
      var r := Resolve(words, name.value);
      if r.Some? && r.value.Wrapper? && r.value.target.Some? {
        var target := r.value.target.value;
        AliasedIffAliasCommand(words[target..]);
        Suffixes(words, target, LastCommandWord(words[target..]));
      }
    }
  }

  /**
   Where peeling ends: at a word without a static name, at a command that is no wrapper, which gives its name, at an
   aliased command, or at a wrapper without a target.
   */
  lemma {:induction false} PeelingEndsAt(words: seq<Word>)
    requires words != []
    ensures var p := Peel(words);
      var name := StaticCommandName(words[p.at]);
      if p.bodyStart.Some? then !p.aliased ==> p.name == name && Resolve(words[p.at..], name.value) == None
      else
        && p.name.None?
        && if p.bodyWord then name.None?
           else
             && name.Some? && p.wrappers != []
             && Resolve(words[p.at..], name.value) == Some(Wrapper(p.wrappers[|p.wrappers| - 1], None))
    decreases |words|
  {
    hide Resolve, StaticCommandName;
    assert words[0..] == words;
    var name := StaticCommandName(words[0]);
    var r := if name.Some? then Resolve(words, name.value) else None;
    if r.Some? && r.value.Wrapper? && r.value.target.Some? {
      var target := r.value.target.value;
      PeelingEndsAt(words[target..]);
      Suffixes(words, target, Peel(words[target..]).at);
    }
  }

  /** An aliased command that nothing wraps is known by its alias, and its body starts at the last word of that name. */
  lemma AliasNamesCommand(words: seq<Word>)
    requires words != [] && IsAliasCommand(words)
    ensures var p := Peel(words);
      p == if StaticCommandName(words[0]) == Some(Ascii("git")) then
             Peeled(Some(Ascii("git filter-branch")), [], 1, true, Some(1), true)
           else Peeled(Some(Ascii("mumps -run ") + StaticText(words[2]).value), [], 2, true, Some(2), true)
  {
    AliasesAreResolved(words);
    hide Resolve, StaticText, StaticCommandName, Ascii;
  }

  lemma NamelessIsNoAlias(words: seq<Word>)
    requires words != [] && StaticCommandName(words[0]).None?
    ensures !IsAliasCommand(words)
  {
  }

  lemma AliasWordIsNoWrapper(w: Word, text: seq<byte>, words: seq<Word>)
    requires words != [] && words[0] == w
    requires text == Ascii("filter-branch") || text == Ascii("%XCMD") || text == Ascii("LOOP%XCMD")
    requires IsText(w, text)
    ensures Peel(words) == Peeled(Some(text), [], 0, true, Some(0), false)
  {
    assert BACKSLASH !in text;
    WordTextAndName(w);
    assert Ascii("mumps")[0] == 0x6D && Ascii("%XCMD")[0] == 0x25;
    assert Resolve(words, text) == None;
  }

  /** The body is in normal form, with the same name, exactly when no alias ended the peeling. */
  lemma {:induction false} SameNameIffNotAliased(words: seq<Word>)
    requires words != []
    ensures var p := Peel(words);
            p.bodyStart.Some? ==> (Peel(words[p.at..]).name == p.name <==> !p.aliased)
    decreases |words|
  {
    var p := Peel(words);
    BodyIsInNormalForm(words);
    if p.aliased {
      var resolved := Resolve(words, StaticCommandName(words[0]).value).value;
      if resolved.Wrapper? {
        var target := resolved.target.value;
        SameNameIffNotAliased(words[target..]);
        assert words[target..][Peel(words[target..]).at..] == words[p.at..];
      } else {
        AliasWordIsNoWrapper(words[p.at], StaticText(words[p.at]).value, words[p.at..]);
      }
    }
  }

  /** The body keeps its name when it is normalized again, exactly when no aliased command is peeled down to. */
  lemma SameNameIffNoAliasCommand(words: seq<Word>)
    requires words != []
    ensures var p := Peel(words);
      p.bodyStart.Some? ==>
        (Peel(words[p.at..]).name == p.name <==> !IsAliasCommand(words[LastCommandWord(words)..]))
  {
    hide Peel, IsAliasCommand, LastCommandWord;
    SameNameIffNotAliased(words);
    AliasedIffAliasCommand(words);
  }

  /** Such a command apart, normalizing the body of a command again finds no wrappers and the same name. */
  lemma NormalizingAgainUnlessAliasCommand(words: seq<Word>)
    requires words != []
    ensures ScanOf(words).bodyStart.Some? && !IsAliasCommand(words[LastCommandWord(words)..]) ==>
              var body := NormalizedOf(words).value.bodyWords;
              body != [] && ScanOf(body).wrappers == [] && ScanOf(body).effectiveName == ScanOf(words).effectiveName
  {
    hide IsAliasCommand, LastCommandWord, ScanOf, NormalizedOf;
    AliasedIffAliasCommand(words);
    NormalizingAgainFindsNothing(words);
  }
}
