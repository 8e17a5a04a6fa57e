/** What the static text and the static command name of a word are, part by part. */
module WordMeaning {
  import CommandLiteral
  import opened CommandWords
  import opened OptionalValues
  import opened Utf8

  /** Two texts one after the other, if both are known. */
  function Joined(first: Option<seq<byte>>, second: Option<seq<byte>>): Option<seq<byte>> {
    if first.None? || second.None? then None else Some(first.value + second.value)
  }

  lemma {:induction false} PartsInTurn(first: seq<WordPart>, second: seq<WordPart>, r: Reading)
    ensures Collect(first + second, r) == Joined(Collect(first, r), Collect(second, r))
  {
    if first == [] {
      assert first + second == second;
      assert Collect(second, r).Some? ==> [] + Collect(second, r).value == Collect(second, r).value;
    } else {
      assert (first + second)[1..] == first[1..] + second;
      PartsInTurn(first[1..], second, r);
      var head, rest, tail := CollectPart(first[0], r), Collect(first[1..], r), Collect(second, r);
      assert head.Some? && rest.Some? && tail.Some? ==>
        head.value + (rest.value + tail.value) == head.value + rest.value + tail.value;
    }
  }

  /** The text and the name of a word are those of its parts, one after the other. */
  lemma WordsJoinTheirParts(first: seq<WordPart>, second: seq<WordPart>, span: Span)
    ensures StaticText(Word(first + second, span)) ==
            Joined(StaticText(Word(first, span)), StaticText(Word(second, span)))
    ensures StaticCommandName(Word(first + second, span)) ==
            Joined(StaticCommandName(Word(first, span)), StaticCommandName(Word(second, span)))
    ensures StaticText(Word([], span)) == StaticCommandName(Word([], span)) == Some([])
  {
    hide Collect, TryParts;
    CollectedOnly(first, span);
    CollectedOnly(second, span);
    CollectedOnly(first + second, span);
    CollectedOnly([], span);
    PartsInTurn(first, second, AsText);
    PartsInTurn(first, second, AsName(CommandLiteral.Unquoted));
    NothingCollected();
  }

  lemma CollectedOnly(parts: seq<WordPart>, span: Span)
    ensures StaticText(Word(parts, span)) == Collect(parts, AsText)
    ensures StaticCommandName(Word(parts, span)) == Collect(parts, AsName(CommandLiteral.Unquoted))
  {
    ShortcutAgrees(parts, AsText);
    ShortcutAgrees(parts, AsName(CommandLiteral.Unquoted));
  }

  lemma NothingCollected()
    ensures forall r :: Collect([], r) == Some([])
  {
  }

  lemma OnePart(part: WordPart, r: Reading)
    ensures Collect([part], r) == CollectPart(part, r)
  {
    assert [part][1..] == [];
    var head := CollectPart(part, r);
    assert head.Some? ==> head.value + [] == head.value;
  }

  /**
   A literal reads as it is, and names what is left without its backslashes; single quotes keep everything, and a
   runtime expansion leaves neither text nor name.
   */
  lemma PlainPartIsRead(text: seq<byte>, span: Span)
    ensures var literal, quoted := Word([LiteralPart(text)], span), Word([SingleQuotedPart(text)], span);
      && StaticText(literal) == Some(text)
      && StaticCommandName(literal) == Some(CommandLiteral.Decode(text, CommandLiteral.Unquoted))
      && StaticText(quoted) == StaticCommandName(quoted) == Some(text)
    ensures StaticText(Word([Expansion], span)) == StaticCommandName(Word([Expansion], span)) == None
  {
    hide Collect, TryParts;
    forall part
      ensures StaticText(Word([part], span)) == CollectPart(part, AsText)
      ensures StaticCommandName(Word([part], span)) == CollectPart(part, AsName(CommandLiteral.Unquoted))
    {
      CollectedOnly([part], span);
      OnePart(part, AsText);
      OnePart(part, AsName(CommandLiteral.Unquoted));
    }
  }

  /** The text of one double-quoted part. */
  function Quoted(parts: seq<WordPart>, span: Span): Word {
    Word([DoubleQuotedPart(parts)], span)
  }

  /** Double quotes join their parts too, and inside them literals lose fewer backslashes. */
  lemma QuotedPartIsRead(first: seq<WordPart>, second: seq<WordPart>, text: seq<byte>, span: Span)
    ensures StaticText(Quoted(first, span)) == StaticText(Word(first, span))
    ensures StaticCommandName(Quoted(first + second, span)) ==
            Joined(StaticCommandName(Quoted(first, span)), StaticCommandName(Quoted(second, span)))
    ensures StaticCommandName(Quoted([LiteralPart(text)], span)) ==
            Some(CommandLiteral.Decode(text, CommandLiteral.DoubleQuoted))
    ensures StaticCommandName(Quoted([SingleQuotedPart(text)], span)) == Some(text)
    ensures StaticCommandName(Quoted([Expansion], span)) == None
  {
    hide Collect, TryParts;
    var inner := AsName(CommandLiteral.DoubleQuoted);
    forall parts
      ensures StaticCommandName(Quoted(parts, span)) == Collect(parts, inner)
      ensures StaticText(Quoted(parts, span)) == Collect(parts, AsText)
    {
      CollectedOnly([DoubleQuotedPart(parts)], span);
      OnePart(DoubleQuotedPart(parts), AsText);
      OnePart(DoubleQuotedPart(parts), AsName(CommandLiteral.Unquoted));
    }
    CollectedOnly(first, span);
    PartsInTurn(first, second, inner);
    OnePart(LiteralPart(text), inner);
    OnePart(SingleQuotedPart(text), inner);
    OnePart(Expansion, inner);
  }

  /** A written text between double quotes is a word whose command name is that text. */
  lemma WrittenTextIsNamed(name: seq<byte>, span: Span)
    ensures StaticCommandName(Quoted([LiteralPart(CommandLiteral.EscapeText(name))], span)) == Some(name)
  {
    QuotedPartIsRead([], [], CommandLiteral.EscapeText(name), span);
    CommandLiteral.DecodeUndoesEscape(name);
  }
}
