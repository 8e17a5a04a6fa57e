/**
 UTF-8 text as byte sequences (RFC 3629, sections 3 and 4), with the character
 boundaries on which source text may be sliced.
 */
module Utf8 {

  type byte = b: int | 0 <= b < 256

  /** A Unicode code point, as held by one decoded character. */
  type scalar = c: int | 0 <= c < 0x11_0000

  // The ASCII characters that shell scanning distinguishes.
  const NEWLINE: byte := 0x0A
  const DOUBLE_QUOTE: byte := 0x22
  const HASH: byte := 0x23
  const DOLLAR: byte := 0x24
  const AMPERSAND: byte := 0x26
  const SINGLE_QUOTE: byte := 0x27
  const OPEN_PAREN: byte := 0x28
  const CLOSE_PAREN: byte := 0x29
  const SEMICOLON: byte := 0x3B
  const LESS: byte := 0x3C
  const GREATER: byte := 0x3E
  const BACKSLASH: byte := 0x5C
  const BACKTICK: byte := 0x60
  const OPEN_BRACE: byte := 0x7B
  const PIPE: byte := 0x7C
  const CLOSE_BRACE: byte := 0x7D

  predicate IsContinuation(b: byte) {
    0x80 <= b < 0xC0
  }

  /** The length of the encoding that `lead` starts, or 0 when it starts none. */
  function Width(lead: byte): nat {
    if lead < 0x80 then 1
    else if 0xC2 <= lead < 0xE0 then 2
    else if 0xE0 <= lead < 0xF0 then 3
    else if 0xF0 <= lead < 0xF5 then 4
    else 0
  }

  /** The second byte excludes overlong forms, surrogates and values past U+10FFFF. */
  predicate SecondByteFits(lead: byte, second: byte) {
    && IsContinuation(second)
    && (lead == 0xE0 ==> 0xA0 <= second)
    && (lead == 0xED ==> second < 0xA0)
    && (lead == 0xF0 ==> 0x90 <= second)
    && (lead == 0xF4 ==> second < 0x90)
  }

  predicate WellFormedAt(s: seq<byte>, i: nat)
    requires i < |s|
  {
    var w := Width(s[i]);
    && 0 < w
    && i + w <= |s|
    && (2 <= w ==> SecondByteFits(s[i], s[i + 1]))
    && (3 <= w ==> IsContinuation(s[i + 2]))
    && (4 <= w ==> IsContinuation(s[i + 3]))
  }

  predicate ValidFrom(s: seq<byte>, i: nat)
    requires i <= |s|
    decreases |s| - i
  {
    i == |s| || (WellFormedAt(s, i) && ValidFrom(s, i + Width(s[i])))
  }

  predicate ValidUtf8(s: seq<byte>) {
    ValidFrom(s, 0)
  }

  /** The offsets at which a text may be sliced. */
  predicate IsBoundary(s: seq<byte>, i: nat) {
    i == 0 || i == |s| || (i < |s| && !IsContinuation(s[i]))
  }

  /** The code point encoded at `i`. */
  function CharAt(s: seq<byte>, i: nat): (c: scalar)
    requires i < |s| && WellFormedAt(s, i)
    ensures (c < 0x80) == (s[i] < 0x80)
    ensures c < 0x80 ==> c == s[i]
    ensures LenUtf8(c) == Width(s[i])
  {
    var w := Width(s[i]);
    var lead: int := s[i];
    if w == 1 then lead
    else if w == 2 then (lead - 0xC0) * 0x40 + Low6(s[i + 1])
    else if w == 3 then (lead - 0xE0) * 0x1000 + Low6(s[i + 1]) * 0x40 + Low6(s[i + 2])
    else (lead - 0xF0) * 0x4_0000 + Low6(s[i + 1]) * 0x1000 + Low6(s[i + 2]) * 0x40 + Low6(s[i + 3])
  }

  /** The six payload bits of a continuation byte. */
  function Low6(b: byte): int {
    b as int - 0x80
  }

  /** The encoded length of one character. */
  function LenUtf8(c: scalar): nat {
    if c < 0x80 then 1 else if c < 0x800 then 2 else if c < 0x1_0000 then 3 else 4
  }

  /** The characters with the Unicode White_Space property. */
  predicate IsWhitespace(c: scalar) {
    || 0x09 <= c <= 0x0D || c == 0x20 || c == 0x85 || c == 0xA0 || c == 0x1680
    || 0x2000 <= c <= 0x200A || c == 0x2028 || c == 0x2029 || c == 0x202F
    || c == 0x205F || c == 0x3000
  }

  predicate IsAsciiWhitespace(b: byte) {
    b == 0x20 || b == 0x09 || b == 0x0A || b == 0x0C || b == 0x0D
  }

  /** Every boundary starts a valid text: slicing there gives text again. */
  lemma {:induction false} ValidFromBoundary(s: seq<byte>, start: nat, i: nat)
    requires start <= i <= |s| && ValidFrom(s, start)
    requires i == start || IsBoundary(s, i)
    ensures ValidFrom(s, i)
    decreases |s| - start
  {
    if i != start {
      var w := Width(s[start]);
      assert WellFormedAt(s, start);
      assert start + w <= i;
      ValidFromBoundary(s, start + w, i);
    }
  }

  /** At a boundary before the end a whole character follows, and it ends at the next boundary. */
  lemma BoundaryStep(s: seq<byte>, i: nat)
    requires ValidUtf8(s) && i < |s| && IsBoundary(s, i)
    ensures WellFormedAt(s, i)
    ensures i + Width(s[i]) <= |s| && IsBoundary(s, i + Width(s[i]))
    ensures forall k :: i < k < i + Width(s[i]) ==> IsContinuation(s[k])
  {
    ValidFromBoundary(s, 0, i);
    var j := i + Width(s[i]);
    assert ValidFrom(s, j);
    assert j < |s| ==> WellFormedAt(s, j);
  }

  /** No boundary lies inside a character. */
  lemma NoBoundaryInside(s: seq<byte>, i: nat, k: nat)
    requires ValidUtf8(s) && i < |s| && IsBoundary(s, i)
    requires i < k <= |s| && IsBoundary(s, k)
    ensures WellFormedAt(s, i) && i + Width(s[i]) <= k
  {
    BoundaryStep(s, i);
  }

  /** Validity is compositional: a text followed by a text is a text. */
  lemma {:induction false} ValidConcat(s: seq<byte>, t: seq<byte>, i: nat)
    requires i <= |s| && ValidFrom(s, i) && ValidUtf8(t)
    ensures ValidFrom(s + t, i)
    decreases |s| - i
  {
    if i == |s| {
      ValidSuffix(s, t, 0);
    } else {
      ValidConcat(s, t, i + Width(s[i]));
    }
  }

  lemma {:induction false} ValidSuffix(p: seq<byte>, t: seq<byte>, i: nat)
    requires i <= |t| && ValidFrom(t, i)
    ensures ValidFrom(p + t, |p| + i)
    decreases |t| - i
  {
    if i < |t| {
      ValidSuffix(p, t, i + Width(t[i]));
      assert forall k :: i <= k < |t| ==> (p + t)[|p| + k] == t[k];
    }
  }

  /** The last boundary before `i`: where the character that ends at `i` starts. */
  function PreviousBoundary(s: seq<byte>, i: nat): (p: nat)
    requires 0 < i <= |s|
    ensures p < i && IsBoundary(s, p)
    ensures forall k :: p < k < i ==> !IsBoundary(s, k)
  {
    if IsBoundary(s, i - 1) then i - 1 else PreviousBoundary(s, i - 1)
  }

  /** The previous boundary starts the character that ends at `i`. */
  lemma PreviousCharEndsHere(s: seq<byte>, i: nat)
    requires ValidUtf8(s) && 0 < i <= |s| && IsBoundary(s, i)
    ensures var p := PreviousBoundary(s, i); WellFormedAt(s, p) && p + Width(s[p]) == i
  {
    var p := PreviousBoundary(s, i);
    BoundaryStep(s, p);
    NoBoundaryInside(s, p, i);
  }
}
