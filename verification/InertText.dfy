/**
 Written text is inert, spelled out in bytes: between double quotes nothing in it closes the quote, expands or
 runs. And the decoder drops exactly the backslashes that the writer adds, and those before a newline.
 */
module InertText {
  import opened CommandLiteral
  import opened QuoteStates
  import opened ShellGrammar
  import opened Utf8

  /** The characters that are special between double quotes. */
  predicate IsSpecial(b: byte) {
    b == '"' as int || b == '$' as int || b == '`' as int || b == '\\' as int
  }

  // The written bytes

  lemma WrittenByte(b: byte)
    ensures EscapeByte(b) == if IsSpecial(b) then ['\\' as int, b] else [b]
  {
  }

  lemma {:induction false} PrefixCarriesEscape(a: seq<byte>, b: seq<byte>, k: nat)
    requires k <= |b| && !CarriedEscape(a, |a|)
    ensures CarriedEscape(a + b, |a| + k) == CarriedEscape(b, k)
    decreases k
  {
    if k == 0 {
      SameCarriedEscape(a, a + b, |a|);
    } else {
      PrefixCarriesEscape(a, b, k - 1);
    }
  }

  lemma {:induction false} SameCarriedEscape(s: seq<byte>, t: seq<byte>, i: nat)
    requires i <= |s| && i <= |t| && forall k :: 0 <= k < i ==> s[k] == t[k]
    ensures CarriedEscape(s, i) == CarriedEscape(t, i)
  {
    if 0 < i {
      SameCarriedEscape(s, t, i - 1);
    }
  }

  /** Byte `k` is plain, or a backslash that escapes the special character behind it, or that character. */
  predicate IsInertAt(text: seq<byte>, k: nat)
    requires k < |text|
  {
    if CarriedEscape(text, k) then IsSpecial(text[k])
    else if text[k] == '\\' as int then k + 1 < |text| && IsSpecial(text[k + 1])
    else !IsSpecial(text[k])
  }

  /** In a written text every special character is escaped, nothing else is, and no escape is left open. */
  lemma {:induction false} WrittenTextIsInert(s: seq<byte>)
    ensures var text := EscapeText(s);
      !CarriedEscape(text, |text|) && forall k :: 0 <= k < |text| ==> IsInertAt(text, k)
    decreases |s|
  {
    hide EscapeText;
    if s == [] {
      EmptyText();
    } else {
      var head, tail := EscapeByte(s[0]), EscapeText(s[1..]);
      WrittenByte(s[0]);
      WrittenTextIsInert(s[1..]);
      EscapeTextCons(s[0], s[1..]);
      assert s == [s[0]] + s[1..];
      var text := head + tail;
      assert !CarriedEscape(head, |head|) by {
        assert !CarriedEscape(head, 0);
        assert CarriedEscape(head, 1) == (head[0] == '\\' as int);
      }
      PrefixCarriesEscape(head, tail, |tail|);
      forall k | 0 <= k < |text|
        ensures IsInertAt(text, k)
      {
        if k < |head| {
          SameCarriedEscape(head, text, k);
          assert CarriedEscape(head, k) == (k == 1);
        } else {
          PrefixCarriesEscape(head, tail, k - |head|);
          assert IsInertAt(tail, k - |head|);
        }
      }
    }
  }

  // The written text as shell text

  /** A run of plain and escaped characters only: nothing is nested, quoted or grouped. */
  predicate IsFlat(xs: Items) {
    xs.Cons? ==> (xs.head.Plain? || xs.head.Escaped?) && IsFlat(xs.tail)
  }

  /** The items of a written text that starts at `p`, one for every character. */
  ghost function ItemsOf(s: seq<byte>, i: nat, p: nat): Items
    requires i <= |s| && ValidFrom(s, i)
    decreases |s| - i
  {
    if i == |s| then Nil
    else if IsSpecial(s[i]) then Cons(Escaped, p + 2, ItemsOf(s, i + 1, p + 2))
    else Cons(Plain, p + Width(s[i]), ItemsOf(s, i + Width(s[i]), p + Width(s[i])))
  }

  lemma {:induction false} ItemsAreFlat(s: seq<byte>, i: nat, p: nat)
    requires i <= |s| && ValidFrom(s, i)
    ensures IsFlat(ItemsOf(s, i, p))
    decreases |s| - i
  {
    if i < |s| {
      if IsSpecial(s[i]) {
        ItemsAreFlat(s, i + 1, p + 2);
      } else {
        ItemsAreFlat(s, i + Width(s[i]), p + Width(s[i]));
      }
    }
  }

  /** What the character at `i` is written as. */
  lemma CharIsWritten(s: seq<byte>, i: nat)
    requires i < |s| && ValidFrom(s, i)
    ensures var next := i + Width(s[i]);
      EscapeText(s[i..]) ==
      (if IsSpecial(s[i]) then ['\\' as int, s[i]] else s[i..next]) + EscapeText(s[next..])
  {
    var next := i + Width(s[i]);
    assert s[i..] == s[i..next] + s[next..];
    WrittenByte(s[i]);
    if Width(s[i]) == 1 {
      assert s[i..next] == [s[i]];
      EscapeTextCons(s[i], s[next..]);
    } else {
      EscapeTextConcat(s[i..next], s[next..]);
      EscapeTextPlain(s[i..next]);
    }
  }

  lemma PlainFits(source: seq<byte>, upper: nat, p: nat, w: nat, scope: Scope)
    requires p + w < upper <= |source| && w == CharWidth(source, p) && !IsSpecial(source[p])
    ensures ItemAt(Plain, source, upper, p, p + w, true, scope)
  {
  }

  lemma EscapedFits(source: seq<byte>, upper: nat, p: nat, scope: Scope)
    requires p + 2 < upper <= |source| && source[p] == '\\' as int && IsSpecial(source[p + 1])
    ensures ItemAt(Escaped, source, upper, p, p + 2, true, scope)
  {
  }

  /** The items of a written text derive it, wherever it stands before a further byte. */
  lemma {:induction false} ItemsFit(source: seq<byte>, upper: nat, s: seq<byte>, i: nat, p: nat, scope: Scope)
    requires i <= |s| && ValidFrom(s, i) && p + |EscapeText(s[i..])| < upper <= |source|
    requires source[p..p + |EscapeText(s[i..])|] == EscapeText(s[i..])
    ensures ItemsAt(ItemsOf(s, i, p), source, upper, p, p + |EscapeText(s[i..])|, true, scope)
    decreases |s| - i
  {
    hide EscapeText, ItemAt;
    if i == |s| {
      assert s[i..] == [];
      EmptyText();
    } else {
      CharIsWritten(s, i);
      var next := i + Width(s[i]);
      var written, tail := EscapeText(s[i..]), EscapeText(s[next..]);
      var w := |written| - |tail|;
      assert source[p + w..p + w + |tail|] == source[p..p + |written|][w..] == tail;
      assert source[p] == source[p..p + |written|][0];
      if IsSpecial(s[i]) {
        assert source[p + 1] == source[p..p + |written|][1];
        EscapedFits(source, upper, p, scope);
      } else {
        PlainFits(source, upper, p, w, scope);
      }
      ItemsFit(source, upper, s, next, p + w, scope);
    }
  }

  /** A quote, the written text and a quote are one double-quoted item of plain and escaped characters. */
  lemma WrittenTextIsOneItem(before: seq<byte>, s: seq<byte>, rest: seq<byte>, scope: Scope)
    requires ValidUtf8(s)
    ensures var source := before + ['"' as int] + EscapeText(s) + ['"' as int] + rest;
      exists xs ::
        && IsFlat(xs)
        && ItemAt(Item.DoubleQuoted(xs), source, |source|, |before|, |before| + |EscapeText(s)| + 2, false, scope)
  {
    var text := EscapeText(s);
    var source := before + ['"' as int] + text + ['"' as int] + rest;
    var p := |before| + 1;
    assert s[0..] == s && source[p..p + |text|] == text;
    var xs := ItemsOf(s, 0, p);
    ItemsAreFlat(s, 0, p);
    ItemsFit(source, |source|, s, 0, p, scope);
    assert source[|before|] == '"' as int && source[p + |text|] == '"' as int;
    assert ItemAt(Item.DoubleQuoted(xs), source, |source|, |before|, |before| + |text| + 2, false, scope);
  }

  // Decoding

  lemma DecodeTail(head: seq<byte>, rest: seq<byte>, context: Context)
    ensures DecodeFrom(head + rest, |head|, context) == Decode(rest, context)
  {
    DecodeReadsSuffix(head + rest, |head|, rest, 0, context);
  }

  /** Any character but a backslash stands for itself, and so does a backslash at the end. */
  lemma PlainByteIsKept(b: byte, rest: seq<byte>, context: Context)
    requires b != '\\' as int
    ensures Decode([b] + rest, context) == [b] + Decode(rest, context)
    ensures Decode(['\\' as int], context) == ['\\' as int]
  {
    DecodeTail([b], rest, context);
  }

  /**
   In double quotes a backslash is dropped exactly before `$`, a backtick, a quote, a backslash and a newline, and the
   newline with it; outside quotes it is dropped before everything, and before a newline with it.
   */
  lemma BackslashIsDropped(b: byte, rest: seq<byte>)
    ensures Decode(['\\' as int, b] + rest, Context.DoubleQuoted) ==
            (if b == '\n' as int then []
             else if b == '$' as int || b == '`' as int || b == '"' as int || b == '\\' as int then [b]
             else ['\\' as int, b]) + Decode(rest, Context.DoubleQuoted)
    ensures Decode(['\\' as int, b] + rest, Unquoted) == (if b == '\n' as int then [] else [b]) + Decode(rest, Unquoted)
  {
    DecodeTail(['\\' as int, b], rest, Context.DoubleQuoted);
    DecodeTail(['\\' as int, b], rest, Unquoted);
  }
}
