/**
 Literal command text: the double-quote escape writer, the decoder of backslash escapes in a
 command name, and the trimming of unescaped trailing white space.
 */
module CommandLiteral {
  import opened OptionalValues
  import opened QuoteScan
  import opened QuoteStates
  import opened Utf8

  datatype Context = Unquoted | DoubleQuoted

  /** A slice of a text, taken at character boundaries. */
  function Slice(s: seq<byte>, i: nat, j: nat): seq<byte>
    requires ValidUtf8(s) && i <= j <= |s| && IsBoundary(s, i) && IsBoundary(s, j)
  {
    s[i..j]
  }

  // Writing

  predicate NeedsEscape(b: byte) {
    b == DOUBLE_QUOTE || b == BACKSLASH || b == DOLLAR || b == BACKTICK
  }

  function EscapeByte(b: byte): seq<byte> {
    if NeedsEscape(b) then [BACKSLASH, b] else [b]
  }

  /** The text between double quotes that stands for `s`. */
  function EscapeText(s: seq<byte>): seq<byte> {
    if s == [] then [] else EscapeByte(s[0]) + EscapeText(s[1..])
  }

  lemma EmptyText()
    ensures EscapeText([]) == []
  {
  }

  lemma EscapeTextCons(b: byte, s: seq<byte>)
    ensures EscapeText([b] + s) == EscapeByte(b) + EscapeText(s)
  {
    assert ([b] + s)[1..] == s;
  }

  lemma {:induction false} EscapeTextConcat(a: seq<byte>, b: seq<byte>)
    ensures EscapeText(a + b) == EscapeText(a) + EscapeText(b)
  {
    hide EscapeByte;
    if a == [] {
      assert a + b == b;
    } else {
      EscapeTextConcat(a[1..], b);
      EscapeTextCons(a[0], a[1..]);
      EscapeTextCons(a[0], a[1..] + b);
      assert a + b == [a[0]] + (a[1..] + b) && a == [a[0]] + a[1..];
    }
  }

  /** Bytes outside ASCII are written as they are. */
  lemma {:induction false} EscapeTextPlain(s: seq<byte>)
    requires forall k :: 0 <= k < |s| ==> 0x80 <= s[k]
    ensures EscapeText(s) == s
  {
    if s != [] {
      EscapeTextPlain(s[1..]);
    }
  }

  method WriteDoubleQuotedLiteral(rendered: seq<byte>) returns (out: seq<byte>)
    requires ValidUtf8(rendered)
    ensures out == EscapeText(rendered)
  {
    out := [];
    var index := 0;
    while index < |rendered|
      invariant index <= |rendered| && IsBoundary(rendered, index)
      invariant out == EscapeText(rendered[..index])
    {
      BoundaryStep(rendered, index);
      var ch := CharAt(rendered, index);
      var next := index + Width(rendered[index]);
      if ch == DOUBLE_QUOTE || ch == BACKSLASH || ch == DOLLAR || ch == BACKTICK {
        out := out + [BACKSLASH];
      }
      out := out + Slice(rendered, index, next);
      EscapeTextConcat(rendered[..index], rendered[index..next]);
      assert rendered[..next] == rendered[..index] + rendered[index..next];
      if ch < 0x80 {
        assert rendered[index..next] == [rendered[index]];
      } else {
        EscapeTextPlain(rendered[index..next]);
      }
      index := next;
    }
    assert rendered[..index] == rendered;
  }

  // Decoding

  /** Decoding from byte `i` on, one escape or character at a time. */
  function DecodeFrom(s: seq<byte>, i: nat, context: Context): seq<byte>
    decreases |s| - i
  {
    if |s| <= i then []
    else if s[i] != BACKSLASH then [s[i]] + DecodeFrom(s, i + 1, context)
    else if i + 1 == |s| then [BACKSLASH]
    else if s[i + 1] == NEWLINE then DecodeFrom(s, i + 2, context)
    else if context.Unquoted? || NeedsEscape(s[i + 1]) then [s[i + 1]] + DecodeFrom(s, i + 2, context)
    else [BACKSLASH, s[i + 1]] + DecodeFrom(s, i + 2, context)
  }

  function Decode(s: seq<byte>, context: Context): seq<byte> {
    DecodeFrom(s, 0, context)
  }

  /** The text up to the first escape is copied. */
  lemma {:induction false} DecodeCopies(s: seq<byte>, i: nat, k: nat, context: Context)
    requires i <= k <= |s| && forall m :: i <= m < k ==> s[m] != BACKSLASH
    ensures DecodeFrom(s, i, context) == s[i..k] + DecodeFrom(s, k, context)
    decreases k - i
  {
    if i < k {
      DecodeCopies(s, i + 1, k, context);
      assert s[i..k] == [s[i]] + s[i + 1..k];
    }
  }

  /** One escape at `i`: what it adds, and that reading goes on after it. */
  lemma DecodeEscape(s: seq<byte>, i: nat, context: Context)
    requires i + 1 < |s| && s[i] == BACKSLASH
    ensures var keep := context.DoubleQuoted? && s[i + 1] != NEWLINE && !NeedsEscape(s[i + 1]);
            DecodeFrom(s, i, context)
            == (if keep then [BACKSLASH] else [])
               + ((if s[i + 1] == NEWLINE then [] else [s[i + 1]]) + DecodeFrom(s, i + 2, context))
  {
  }

  /** What the copy-window loop still owes: the open window, then the decoding of the rest. */
  function Pending(text: seq<byte>, copyStart: nat, index: nat, context: Context): seq<byte>
    requires copyStart <= index <= |text|
  {
    text[copyStart..index] + DecodeFrom(text, index, context)
  }

  lemma WindowGrows(text: seq<byte>, copyStart: nat, index: nat, context: Context)
    requires copyStart <= index < |text| && text[index] != BACKSLASH
    ensures Pending(text, copyStart, index, context) == Pending(text, copyStart, index + 1, context)
  {
    hide DecodeFrom;
    DecodeCopies(text, index, index + 1, context);
    assert text[copyStart..index + 1] == text[copyStart..index] + text[index..index + 1];
  }

  lemma WindowFlushes(out: seq<byte>, text: seq<byte>, copyStart: nat, index: nat, context: Context)
    requires copyStart <= index && index + 1 < |text| && text[index] == BACKSLASH
    ensures var next := text[index + 1];
            var kept := context.DoubleQuoted? && next != NEWLINE && !NeedsEscape(next);
            var flushed := out + text[copyStart..index];
            out + Pending(text, copyStart, index, context)
            == (if kept then flushed + [BACKSLASH] else flushed)
               + Pending(text, if next == NEWLINE then index + 2 else index + 1, index + 2, context)
  {
    hide DecodeFrom;
    DecodeEscape(text, index, context);
  }

  /** The copy-window loop: text is appended in whole windows between escapes. */
  method AppendDecodedLiteral(text: seq<byte>, firstEscape: nat, context: Context, prefix: seq<byte>)
    returns (out: seq<byte>)
    requires ValidUtf8(text) && firstEscape <= |text|
    requires forall k :: 0 <= k < firstEscape ==> text[k] != BACKSLASH
    ensures out == prefix + Decode(text, context)
  {
    out := prefix;
    var copyStart, index := 0, firstEscape;
    DecodeCopies(text, 0, firstEscape, context);
    ghost var goal := prefix + Decode(text, context);
    while index < |text|
      invariant copyStart <= index <= |text| && IsBoundary(text, copyStart)
      invariant goal == out + Pending(text, copyStart, index, context)
    {
      hide DecodeFrom, Pending;
      if text[index] != BACKSLASH {
        WindowGrows(text, copyStart, index, context);
        index := index + 1;
        continue;
      }
      BoundaryStep(text, index);
      if index + 1 < |text| {
        WindowFlushes(out, text, copyStart, index, context);
        BoundaryStep(text, index + 1);
      } else {
        WindowCloses(out, text, copyStart, context);
      }
      out := out + Slice(text, copyStart, index);
      index := index + 1;
      if index == |text| {
        out := out + [BACKSLASH];
        return;
      }
      var next := text[index];
      match context {
        case Unquoted =>
          copyStart := if next == NEWLINE then index + 1 else index;
        case DoubleQuoted =>
          if next == DOLLAR || next == BACKTICK || next == DOUBLE_QUOTE || next == BACKSLASH {
            copyStart := index;
          } else if next == NEWLINE {
            copyStart := index + 1;
          } else {
            out := out + [BACKSLASH];
            copyStart := index;
          }
      }
      index := index + 1;
    }
    out := out + Slice(text, copyStart, |text|);
  }

  lemma WindowCloses(out: seq<byte>, text: seq<byte>, copyStart: nat, context: Context)
    requires copyStart < |text| && text[|text| - 1] == BACKSLASH
    ensures out + Pending(text, copyStart, |text| - 1, context)
            == out + text[copyStart..|text| - 1] + [BACKSLASH]
  {
    DecodeLoneBackslash(text, context);
  }

  lemma DecodeLoneBackslash(s: seq<byte>, context: Context)
    requires s != [] && s[|s| - 1] == BACKSLASH
    ensures DecodeFrom(s, |s| - 1, context) == [BACKSLASH]
  {
  }

  /** Decoding of one literal, on top of what earlier parts gave. */
  method AppendStaticCommandLiteral(text: seq<byte>, context: Context, prefix: seq<byte>) returns (out: seq<byte>)
    requires ValidUtf8(text)
    ensures out == prefix + Decode(text, context)
  {
    var firstEscape := 0;
    while firstEscape < |text| && text[firstEscape] != BACKSLASH
      invariant firstEscape <= |text|
      invariant forall k :: 0 <= k < firstEscape ==> text[k] != BACKSLASH
    {
      firstEscape := firstEscape + 1;
    }
    if firstEscape == |text| {
      DecodeCopies(text, 0, |text|, context);
      return prefix + text;
    }
    out := AppendDecodedLiteral(text, firstEscape, context, prefix);
  }

  // Writing, decoding and scanning fit together

  /** Decoding from an offset depends only on the rest of the text. */
  lemma {:induction false} DecodeReadsSuffix(s: seq<byte>, i: nat, t: seq<byte>, j: nat, context: Context)
    requires i <= |s| && j <= |t| && |s| - i == |t| - j
    requires forall k :: i <= k < |s| ==> s[k] == t[k - i + j]
    ensures DecodeFrom(s, i, context) == DecodeFrom(t, j, context)
    decreases |s| - i
  {
    if i < |s| {
      if s[i] != BACKSLASH {
        DecodeReadsSuffix(s, i + 1, t, j + 1, context);
      } else if i + 1 < |s| {
        DecodeReadsSuffix(s, i + 2, t, j + 2, context);
      }
    }
  }

  /** Decoding what was written gives back every text. */
  lemma {:induction false} DecodeUndoesEscape(s: seq<byte>)
    ensures Decode(EscapeText(s), DoubleQuoted) == s
  {
    if s != [] {
      DecodeUndoesEscape(s[1..]);
      var head := EscapeByte(s[0]);
      DecodeReadsSuffix(head + EscapeText(s[1..]), |head|, EscapeText(s[1..]), 0, DoubleQuoted);
    }
  }

  /** Inside double quotes, the written text never closes the quote and leaves no escape open. */
  lemma {:induction false} EscapedStaysQuoted(source: seq<byte>, start: nat, s: seq<byte>, k: nat)
    requires start + |EscapeText(s)| <= |source|
    requires source[start..start + |EscapeText(s)|] == EscapeText(s)
    requires k <= |EscapeText(s)|
    ensures QuoteFrom(source, start, start + k, Quoting(Some(Double), false)).quote == Some(Double)
    ensures k == |EscapeText(s)| ==>
              QuoteFrom(source, start, start + k, Quoting(Some(Double), false)) == Quoting(Some(Double), false)
    decreases |s|
  {
    var open := Quoting(Some(Double), false);
    hide EscapeText;
    if s == [] {
      EmptyText();
    } else {
      EscapeTextCons(s[0], s[1..]);
      assert s == [s[0]] + s[1..];
      var rest := EscapeText(s[1..]);
      var head := |EscapeText(s)| - |rest|;
      assert source[start..start + |EscapeText(s)|][0] == source[start];
      assert NeedsEscape(s[0]) ==> source[start..start + |EscapeText(s)|][1] == source[start + 1];
      assert source[start + head..start + head + |rest|] == source[start..start + |EscapeText(s)|][head..] == rest;
      assert QuoteFrom(source, start, start + 1, open) == RawStep(open, source[start], false).0;
      if NeedsEscape(s[0]) {
        assert QuoteFrom(source, start, start + 2, open)
               == RawStep(QuoteFrom(source, start, start + 1, open), source[start + 1], false).0;
      }
      assert QuoteFrom(source, start, start + head, open) == open;
      if head <= k {
        EscapedStaysQuoted(source, start + head, s[1..], k - head);
        QuoteFromSplits(source, start, start + head, start + k, open);
      }
    }
  }

  /** A scan of the written text, a quote and any rest stops exactly after that quote. */
  lemma ScanStopsAfterWrittenText(before: seq<byte>, s: seq<byte>, rest: seq<byte>, end: nat)
    requires var source := before + EscapeText(s) + [DOUBLE_QUOTE] + rest;
             QuotedBodyEnds(source, |source|, |before|, Double, end)
    ensures end == |before| + |EscapeText(s)| + 1
  {
    var source := before + EscapeText(s) + [DOUBLE_QUOTE] + rest;
    var start, close := |before|, |before| + |EscapeText(s)|;
    assert source[start..close] == EscapeText(s);
    assert source[close] == DOUBLE_QUOTE;
    forall k | start <= k <= close
      ensures QuoteFrom(source, start, k, Quoting(Some(Double), false)).quote == Some(Double)
    {
      EscapedStaysQuoted(source, start, s, k - start);
    }
    EscapedStaysQuoted(source, start, s, |EscapeText(s)|);
    assert QuoteFrom(source, start, close + 1, Quoting(Some(Double), false)) == UNQUOTED;
  }

  // Trimming

  /** The character that starts at `p` may be trimmed from the end of a text. */
  predicate IsTrimmable(s: seq<byte>, p: nat)
    requires p < |s| && WellFormedAt(s, p)
  {
    IsWhitespace(CharAt(s, p)) && !ParityEscaped(s, p)
  }

  /** The end of `s[..n]` without its unescaped trailing white space. */
  function TrimmedEnd(s: seq<byte>, n: nat): (end: nat)
    requires ValidUtf8(s) && n <= |s| && IsBoundary(s, n)
    ensures end <= n && IsBoundary(s, end)
  {
    if n == 0 then 0
    else
      var p := PreviousBoundary(s, n);
      PreviousCharEndsHere(s, n);
      if IsTrimmable(s, p) then TrimmedEnd(s, p) else n
  }

  method TrimUnescapedTrailingWhitespace(text: seq<byte>) returns (end: nat)
    requires ValidUtf8(text)
    ensures end == TrimmedEnd(text, |text|)
  {
    end := |text|;
    while 0 < end
      invariant end <= |text| && IsBoundary(text, end)
      invariant TrimmedEnd(text, end) == TrimmedEnd(text, |text|)
    {
      var whitespaceStart := PreviousBoundary(text, end);
      PreviousCharEndsHere(text, end);
      if !IsWhitespace(CharAt(text, whitespaceStart)) {
        break;
      }
      var escaped := ByteIsBackslashEscaped(text, whitespaceStart);
      ParityIsCarriedEscape(text, whitespaceStart);
      if escaped {
        break;
      }
      end := whitespaceStart;
    }
  }

  /** Every character from `e` to the end may be trimmed. */
  ghost predicate IsTrimmableFrom(s: seq<byte>, e: nat)
    requires ValidUtf8(s)
  {
    forall p :: e <= p < |s| && IsBoundary(s, p) ==> WellFormedAt(s, p) && IsTrimmable(s, p)
  }

  lemma {:induction false} TrimmedTailIsTrimmable(s: seq<byte>, n: nat, p: nat)
    requires ValidUtf8(s) && n <= |s| && IsBoundary(s, n)
    requires TrimmedEnd(s, n) <= p < n && IsBoundary(s, p)
    ensures WellFormedAt(s, p) && IsTrimmable(s, p)
  {
    var q := PreviousBoundary(s, n);
    PreviousCharEndsHere(s, n);
    if p < q {
      TrimmedTailIsTrimmable(s, q, p);
    }
  }

  lemma {:induction false} NothingMoreIsTrimmable(s: seq<byte>, n: nat, e: nat)
    requires ValidUtf8(s) && e <= n <= |s| && IsBoundary(s, n) && IsBoundary(s, e)
    requires forall p :: e <= p < n && IsBoundary(s, p) ==> WellFormedAt(s, p) && IsTrimmable(s, p)
    ensures TrimmedEnd(s, n) <= e
  {
    if e < n {
      NothingMoreIsTrimmable(s, PreviousBoundary(s, n), e);
    }
  }

  /** Trimming removes exactly the longest run of unescaped white space at the end. */
  lemma TrimmingIsMaximal(s: seq<byte>, e: nat)
    requires ValidUtf8(s) && e <= |s| && IsBoundary(s, e)
    ensures IsTrimmableFrom(s, e) <==> TrimmedEnd(s, |s|) <= e
  {
    if TrimmedEnd(s, |s|) <= e {
      forall p | e <= p < |s| && IsBoundary(s, p) ensures WellFormedAt(s, p) && IsTrimmable(s, p) {
        TrimmedTailIsTrimmable(s, |s|, p);
      }
    }
    if IsTrimmableFrom(s, e) {
      NothingMoreIsTrimmable(s, |s|, e);
    }
  }

  lemma {:induction false} PrefixIsValid(s: seq<byte>, e: nat, i: nat)
    requires ValidUtf8(s) && i <= e <= |s| && IsBoundary(s, e) && IsBoundary(s, i)
    ensures ValidFrom(s[..e], i)
    decreases e - i
  {
    if i < e {
      BoundaryStep(s, i);
      NoBoundaryInside(s, i, e);
      PrefixIsValid(s, e, i + Width(s[i]));
    }
  }

  lemma {:induction false} PrefixKeepsEscapes(s: seq<byte>, e: nat, i: nat)
    requires i <= e <= |s|
    ensures TrailingBackslashes(s[..e], i) == TrailingBackslashes(s, i)
  {
    if 0 < i && s[i - 1] == BACKSLASH {
      PrefixKeepsEscapes(s, e, i - 1);
    }
  }

  lemma PrefixKeepsLastChar(s: seq<byte>, e: nat)
    requires ValidUtf8(s) && 0 < e <= |s| && IsBoundary(s, e)
    ensures var p := PreviousBoundary(s, e);
            PreviousBoundary(s[..e], e) == p && ParityEscaped(s[..e], p) == ParityEscaped(s, p)
  {
    var t, p := s[..e], PreviousBoundary(s, e);
    assert forall k :: 0 <= k < e ==> IsBoundary(t, k) == IsBoundary(s, k);
    PrefixKeepsEscapes(s, e, p);
  }

  /** Trimming again changes nothing. */
  lemma TrimmingIsIdempotent(s: seq<byte>)
    requires ValidUtf8(s)
    ensures var t := s[..TrimmedEnd(s, |s|)]; ValidUtf8(t) && TrimmedEnd(t, |t|) == |t|
  {
    var e := TrimmedEnd(s, |s|);
    PrefixIsValid(s, e, 0);
    if e != 0 {
      PrefixKeepsLastChar(s, e);
      PreviousCharEndsHere(s, e);
      TrimStopsAt(s, |s|);
    }
  }

  lemma {:induction false} TrimStopsAt(s: seq<byte>, n: nat)
    requires ValidUtf8(s) && n <= |s| && IsBoundary(s, n)
    ensures var e := TrimmedEnd(s, n); 0 < e ==>
              var p := PreviousBoundary(s, e); WellFormedAt(s, p) && !IsTrimmable(s, p)
  {
    if n != 0 {
      var p := PreviousBoundary(s, n);
      PreviousCharEndsHere(s, n);
      TrimStopsAt(s, p);
    }
  }

  /** No white space character holds a backslash byte. */
  lemma TrimmedTailHasNoBackslash(s: seq<byte>, k: nat)
    requires ValidUtf8(s) && TrimmedEnd(s, |s|) <= k < |s|
    ensures s[k] != BACKSLASH
  {
    if s[k] == BACKSLASH {
      TrimmedTailIsTrimmable(s, |s|, k);
    }
  }

  lemma {:induction false} DecodeSplitsAt(s: seq<byte>, i: nat, e: nat, context: Context)
    requires i <= e <= |s| && !CarriedEscape(s, i) && !CarriedEscape(s, e)
    requires forall k :: e <= k < |s| ==> s[k] != BACKSLASH
    ensures DecodeFrom(s, i, context) == DecodeFrom(s[..e], i, context) + s[e..]
    decreases e - i
  {
    if i == e {
      DecodeCopies(s, e, |s|, context);
      assert s[e..|s|] == s[e..];
    } else if s[i] != BACKSLASH {
      DecodeSplitsAt(s, i + 1, e, context);
    } else {
      assert CarriedEscape(s, i + 1);
      DecodeSplitsAt(s, i + 2, e, context);
    }
  }

  /** Decoding a text is decoding its trimmed form, followed by what was trimmed, unchanged. */
  lemma DecodeKeepsTrimmedTail(s: seq<byte>, context: Context)
    requires ValidUtf8(s)
    ensures var e := TrimmedEnd(s, |s|); Decode(s, context) == Decode(s[..e], context) + s[e..]
  {
    var e := TrimmedEnd(s, |s|);
    if e == |s| {
      assert s[..e] == s;
    } else {
      TrimmedTailIsTrimmable(s, |s|, e);
      ParityIsCarriedEscape(s, e);
      forall k | e <= k < |s| ensures s[k] != BACKSLASH {
        TrimmedTailHasNoBackslash(s, k);
      }
      DecodeSplitsAt(s, 0, e, context);
    }
  }
}
