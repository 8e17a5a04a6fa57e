/**
 Source positions: line, column and byte offset, advanced over text and rebased from a nested
 source onto the source around it.
 */
module Positions {
  import opened Arithmetic
  import opened OptionalValues
  import opened Utf8

  datatype Pos = Pos(line: nat, column: nat, offset: nat) {
    /** Lines and columns count from one. */
    predicate IsOneBased() {
      1 <= line && 1 <= column
    }
  }

  const ORIGIN := Pos(1, 1, 0)

  /** The characters that the bytes from `i` on encode. */
  function Chars(text: seq<byte>, i: nat): (chars: seq<scalar>)
    requires i <= |text| && ValidFrom(text, i)
    decreases |text| - i
  {
    if i == |text| then [] else [CharAt(text, i)] + Chars(text, i + Width(text[i]))
  }

  function Advanced(p: Pos, ch: scalar): Pos {
    if ch == NEWLINE as scalar then Pos(p.line + 1, 1, p.offset + 1)
    else Pos(p.line, p.column + 1, p.offset + LenUtf8(ch))
  }

  /** Advancing over one character after the other. */
  function Folded(p: Pos, chars: seq<scalar>): Pos
    decreases |chars|
  {
    if chars == [] then p else Folded(Advanced(p, chars[0]), chars[1..])
  }

  /** The position after `text`, which starts at `p`. */
  function After(p: Pos, text: seq<byte>): Pos
    requires ValidUtf8(text)
  {
    Folded(p, Chars(text, 0))
  }

  function Rebased(p: Pos, base: Pos): Pos {
    Pos(
      base.line + SaturatingSub(p.line, 1),
      if p.line <= 1 then base.column + SaturatingSub(p.column, 1) else p.column,
      base.offset + p.offset)
  }

  // The position object

  class Position {
    var line: nat
    var column: nat
    var offset: nat

    function View(): Pos
      reads this
    {
      Pos(line, column, offset)
    }

    constructor At(line: nat, column: nat, offset: nat)
      ensures View() == Pos(line, column, offset)
    {
      this.line, this.column, this.offset := line, column, offset;
    }

    method Advance(ch: scalar)
      modifies this
      ensures View() == Advanced(old(View()), ch)
    {
      offset := offset + LenUtf8(ch);
      if ch == NEWLINE as scalar {
        line := line + 1;
        column := 1;
      } else {
        column := column + 1;
      }
    }

    /** Counts newlines while the text is ASCII, and falls back to advancing over every character. */
    method AdvancedBy(text: seq<byte>) returns (moved: Position)
      requires ValidUtf8(text)
      ensures fresh(moved) && moved.View() == After(View(), text)
    {
      moved := new Position.At(line, column, offset);
      var newlineCount := 0;
      var lastNewline: Option<nat> := None;
      for i := 0 to |text|
        invariant moved.View() == View()
        invariant forall k :: 0 <= k < i ==> text[k] < 0x80
        invariant lastNewline.Some? ==> lastNewline.value < i
        invariant Folded(View(), text[..i]) ==
                  Pos(line + newlineCount,
                      if lastNewline.Some? then i - lastNewline.value else column + i,
                      offset + i)
      {
        if text[i] >= 0x80 {
          moved.AdvanceOverAll(text);
          return;
        }
        FoldedOneMore(View(), text[..i], text[i]);
        assert text[..i + 1] == text[..i] + [text[i]];
        if text[i] == NEWLINE {
          newlineCount := newlineCount + 1;
          lastNewline := Some(i);
        }
      }
      var length := |text|;
      assert text[..length] == text == text[0..];
      AsciiChars(text, 0);
      moved.offset := moved.offset + length;
      moved.line := moved.line + newlineCount;
      moved.column := match lastNewline
        case Some(index) => length - index
        case None => moved.column + length;
    }

    method AdvanceOverAll(text: seq<byte>)
      requires ValidUtf8(text)
      modifies this
      ensures View() == After(old(View()), text)
    {
      var i := 0;
      while i < |text|
        invariant i <= |text| && ValidFrom(text, i)
        invariant Folded(View(), Chars(text, i)) == After(old(View()), text)
        decreases |text| - i
      {
        Advance(CharAt(text, i));
        i := i + Width(text[i]);
      }
    }
  }

  // What advancing means

  /** ASCII bytes are their own characters. */
  lemma {:induction false} AsciiChars(text: seq<byte>, i: nat)
    requires i <= |text| && ValidFrom(text, i) && forall k :: i <= k < |text| ==> text[k] < 0x80
    ensures Chars(text, i) == text[i..]
    decreases |text| - i
  {
    if i < |text| {
      AsciiChars(text, i + 1);
    }
  }

  lemma {:induction false} FoldedSplits(p: Pos, a: seq<scalar>, b: seq<scalar>)
    ensures Folded(p, a + b) == Folded(Folded(p, a), b)
    decreases |a|
  {
    if a == [] {
      assert a + b == b;
    } else {
      assert (a + b)[1..] == a[1..] + b;
      FoldedSplits(Advanced(p, a[0]), a[1..], b);
    }
  }

  lemma FoldedOneMore(p: Pos, chars: seq<scalar>, ch: scalar)
    ensures Folded(p, chars + [ch]) == Advanced(Folded(p, chars), ch)
  {
    FoldedSplits(p, chars, [ch]);
    assert [ch][1..] == [];
  }

  lemma NextChar(text: seq<byte>, i: nat)
    requires i < |text| && ValidFrom(text, i)
    ensures WellFormedAt(text, i) && 0 < Width(text[i])
    ensures var next := i + Width(text[i]);
      next <= |text| && ValidFrom(text, next) && Chars(text, i) == [CharAt(text, i)] + Chars(text, next)
  {
  }

  lemma NoCharsLeft(text: seq<byte>)
    ensures ValidFrom(text, |text|) && Chars(text, |text|) == []
  {
  }

  lemma CharStays(a: seq<byte>, b: seq<byte>, i: nat)
    requires i < |a| && WellFormedAt(a, i)
    ensures WellFormedAt(a + b, i) && CharAt(a + b, i) == CharAt(a, i)
    ensures Width((a + b)[i]) == Width(a[i])
  {
  }

  lemma {:induction false} CharsOfPrefix(a: seq<byte>, b: seq<byte>, i: nat)
    requires i <= |a| && ValidFrom(a, i) && ValidUtf8(b)
    ensures ValidFrom(a + b, i) && Chars(a + b, i) == Chars(a, i) + Chars(b, 0)
    decreases |a| - i
  {
    hide Width, WellFormedAt, CharAt, ValidFrom, Chars;
    ValidConcat(a, b, i);
    if i == |a| {
      CharsOfSuffix(a, b, 0);
      NoCharsLeft(a);
    } else {
      NextChar(a, i);
      NextChar(a + b, i);
      CharStays(a, b, i);
      CharsOfPrefix(a, b, i + Width(a[i]));
    }
  }

  /** The character does not depend on where in a text its bytes are. */
  lemma CharMoves(a: seq<byte>, b: seq<byte>, i: nat)
    requires i < |b| && WellFormedAt(b, i) && WellFormedAt(a + b, |a| + i)
    ensures CharAt(a + b, |a| + i) == CharAt(b, i)
    ensures Width((a + b)[|a| + i]) == Width(b[i])
  {
    assert forall k :: 0 <= k < |b| ==> (a + b)[|a| + k] == b[k];
  }

  lemma {:induction false} CharsOfSuffix(a: seq<byte>, b: seq<byte>, i: nat)
    requires i <= |b| && ValidFrom(b, i)
    ensures ValidFrom(a + b, |a| + i) && Chars(a + b, |a| + i) == Chars(b, i)
    decreases |b| - i
  {
    hide Width, WellFormedAt, CharAt, ValidFrom, Chars;
    ValidSuffix(a, b, i);
    if i == |b| {
      NoCharsLeft(b);
      NoCharsLeft(a + b);
    } else {
      NextChar(b, i);
      NextChar(a + b, |a| + i);
      CharMoves(a, b, i);
      CharsOfSuffix(a, b, i + Width(b[i]));
    }
  }

  /** Advancing over two texts in turn is advancing over their concatenation. */
  lemma AdvancingDistributes(p: Pos, a: seq<byte>, b: seq<byte>)
    requires ValidUtf8(a) && ValidUtf8(b)
    ensures ValidUtf8(a + b) && After(p, a + b) == After(After(p, a), b)
  {
    CharsOfPrefix(a, b, 0);
    FoldedSplits(p, Chars(a, 0), Chars(b, 0));
  }

  function Newlines(chars: seq<scalar>): nat {
    if chars == [] then 0 else (if chars[0] == '\n' as scalar then 1 else 0) + Newlines(chars[1..])
  }

  /** The characters after the last newline. */
  function LastLine(chars: seq<scalar>): seq<scalar> {
    if '\n' as scalar in chars then LastLine(chars[1..]) else chars
  }

  function EncodedLength(chars: seq<scalar>): nat {
    if chars == [] then 0 else LenUtf8(chars[0]) + EncodedLength(chars[1..])
  }

  /** Lines count newlines, columns count characters, offsets count bytes. */
  lemma {:induction false} FoldedCounts(p: Pos, chars: seq<scalar>)
    ensures Folded(p, chars) ==
            Pos(p.line + Newlines(chars),
                if '\n' as scalar in chars then 1 + |LastLine(chars)| else p.column + |chars|,
                p.offset + EncodedLength(chars))
    ensures '\n' as scalar in chars <==> Newlines(chars) > 0
    decreases |chars|
  {
    if chars != [] {
      FoldedCounts(Advanced(p, chars[0]), chars[1..]);
      assert '\n' as scalar in chars <==> chars[0] == '\n' as scalar || '\n' as scalar in chars[1..];
    }
  }

  lemma {:induction false} CharsEncodeAllBytes(text: seq<byte>, i: nat)
    requires i <= |text| && ValidFrom(text, i)
    ensures EncodedLength(Chars(text, i)) == |text| - i
    decreases |text| - i
  {
    if i < |text| {
      CharsEncodeAllBytes(text, i + Width(text[i]));
    }
  }

  /** The offset after a text is the offset before it plus its length in bytes. */
  lemma OffsetCountsBytes(p: Pos, text: seq<byte>)
    requires ValidUtf8(text)
    ensures After(p, text).offset == p.offset + |text|
  {
    FoldedCounts(p, Chars(text, 0));
    CharsEncodeAllBytes(text, 0);
  }

  lemma {:induction false} EncodedLengthOfAscii(chars: seq<scalar>)
    ensures |chars| <= EncodedLength(chars)
    ensures |chars| == EncodedLength(chars) <==> forall ch :: ch in chars ==> ch < 0x80
  {
    if chars != [] {
      var rest := chars[1..];
      EncodedLengthOfAscii(rest);
      assert forall ch :: ch in rest ==> ch in chars;
      if chars[0] < 0x80 && forall ch :: ch in rest ==> ch < 0x80 {
        assert forall ch :: ch in chars ==> ch == chars[0] || ch in rest;
      } else {
        assert chars[0] in chars;
      }
    }
  }

  /**
   The column is documented as a byte offset within the line. It is one exactly when the
   line is ASCII so far, since every other character takes more than one byte and one column.
   */
  lemma ColumnIsByteOffsetIffAscii(text: seq<byte>)
    requires ValidUtf8(text)
    ensures var line := LastLine(Chars(text, 0));
      After(ORIGIN, text).column == 1 + EncodedLength(line) <==> forall ch :: ch in line ==> ch < 0x80
  {
    FoldedCounts(ORIGIN, Chars(text, 0));
    EncodedLengthOfAscii(LastLine(Chars(text, 0)));
  }

  /** One two-byte character takes one column and two bytes. */
  lemma TwoByteCharacterTakesOneColumn()
    ensures ValidUtf8([0xC3, 0xA9])
    ensures After(ORIGIN, [0xC3, 0xA9]) == Pos(1, 2, 2)
  {
    var text: seq<byte> := [0xC3, 0xA9];
    assert WellFormedAt(text, 0) && Width(text[0]) == 2;
    assert Chars(text, 2) == [];
    assert Chars(text, 0) == [CharAt(text, 0)];
    FoldedOneMore(ORIGIN, [], CharAt(text, 0));
    assert [] + [CharAt(text, 0)] == [CharAt(text, 0)];
  }

  // What rebasing means

  /** A position reached inside a nested text is the position reached from where that text starts. */
  lemma RebasingIsAdvancingTheBase(base: Pos, text: seq<byte>)
    requires ValidUtf8(text)
    ensures Rebased(After(ORIGIN, text), base) == After(base, text)
  {
    FoldedCounts(ORIGIN, Chars(text, 0));
    FoldedCounts(base, Chars(text, 0));
  }

  /** Nesting twice: only the position in the middle has to be one-based for the grouping not to matter. */
  lemma RebasingIsAssociativeIff(inner: Pos, middle: Pos, outer: Pos)
    ensures Rebased(Rebased(inner, middle), outer) == Rebased(inner, Rebased(middle, outer)) <==>
            (if inner.line <= 1 then middle.line <= 1 && inner.column > 1 ==> 1 <= middle.column else 1 <= middle.line)
    ensures middle.IsOneBased() ==>
              Rebased(Rebased(inner, middle), outer) == Rebased(inner, Rebased(middle, outer))
  {
  }

  lemma OneBasedIsKept(p: Pos, base: Pos, text: seq<byte>)
    requires p.IsOneBased() && base.IsOneBased() && ValidUtf8(text)
    ensures After(p, text).IsOneBased() && Rebased(p, base).IsOneBased()
  {
    FoldedCounts(p, Chars(text, 0));
  }
}
