/**
 What the quote readers do, on the bytes of the text: which quotes are open, what closes them, where comments may
 start, and when the reader of one line sees the same quotes as the reader of raw text.
 */
module QuoteMeaning {
  import opened OptionalValues
  import opened QuoteScan
  import opened QuoteStates
  import opened Utf8

  /** The state after reading all of `text`. */
  function StateAfter(text: seq<byte>, q: Quoting, includeBackticks: bool): Quoting {
    if text == [] then q
    else RawStep(StateAfter(text[..|text| - 1], q, includeBackticks), text[|text| - 1], includeBackticks).0
  }

  /** The text ends in an odd number of backslashes. */
  predicate EndsEscaping(text: seq<byte>) {
    text != [] && text[|text| - 1] == '\\' as int && !EndsEscaping(text[..|text| - 1])
  }

  /** Somewhere in the text is this byte, with an even number of backslashes before it. */
  ghost predicate HasUnescaped(text: seq<byte>, b: char) {
    exists i :: 0 <= i < |text| && text[i] == b as int && !EndsEscaping(text[..i])
  }

  lemma UnescapedInFront(text: seq<byte>, b: char)
    requires text != [] && !HasUnescaped(text, b)
    ensures !HasUnescaped(text[..|text| - 1], b)
    ensures text[|text| - 1] == b as int ==> EndsEscaping(text[..|text| - 1])
  {
    var front := text[..|text| - 1];
    forall i | 0 <= i < |front|
      ensures front[..i] == text[..i]
    {
    }
  }

  /** A single quote stays open up to the next apostrophe, whatever comes before it. */
  lemma {:induction false} SingleQuoteRuns(body: seq<byte>, includeBackticks: bool)
    requires '\'' as int !in body
    ensures var open := Quoting(Some(Single), false);
      && StateAfter(body, open, includeBackticks) == open
      && StateAfter(body + ['\'' as int], open, includeBackticks) == Quoting(None, false)
  {
    assert (body + ['\'' as int])[..|body|] == body;
    if body != [] {
      assert body[|body| - 1] in body;
      SingleQuoteRuns(body[..|body| - 1], includeBackticks);
    }
  }

  /** A double quote, and a backtick where those count, stays open up to the next one that is not escaped. */
  lemma {:induction false} DelimiterRuns(body: seq<byte>, kind: RawQuoteKind, b: char, includeBackticks: bool)
    requires (kind == Double && b == '"') || (kind == Backtick && b == '`' && includeBackticks)
    requires !HasUnescaped(body, b)
    ensures var open := Quoting(Some(kind), false);
      && StateAfter(body, open, includeBackticks) == Quoting(Some(kind), EndsEscaping(body))
      && (!EndsEscaping(body) ==>
            StateAfter(body + [b as int], open, includeBackticks) == Quoting(None, false))
  {
    assert (body + [b as int])[..|body|] == body;
    if body != [] {
      UnescapedInFront(body, b);
      DelimiterRuns(body[..|body| - 1], kind, b, includeBackticks);
    }
  }

  /** Outside quotes nothing opens one but the first quote that is not escaped. */
  lemma {:induction false} QuoteOpens(before: seq<byte>, kind: RawQuoteKind, b: char, includeBackticks: bool)
    requires !HasUnescaped(before, '\'') && !HasUnescaped(before, '"')
    requires includeBackticks ==> !HasUnescaped(before, '`')
    requires (kind == Single && b == '\'') || (kind == Double && b == '"')
             || (kind == Backtick && b == '`' && includeBackticks)
    ensures StateAfter(before, UNQUOTED, includeBackticks) == Quoting(None, EndsEscaping(before))
    ensures !EndsEscaping(before) ==>
              StateAfter(before + [b as int], UNQUOTED, includeBackticks) == Quoting(Some(kind), false)
  {
    assert (before + [b as int])[..|before|] == before;
    if before != [] {
      UnescapedInFront(before, '\'');
      UnescapedInFront(before, '"');
      if includeBackticks {
        UnescapedInFront(before, '`');
      }
      QuoteOpens(before[..|before| - 1], kind, b, includeBackticks);
    }
  }

  /** The quote states of scans are those of this reader. */
  lemma {:induction false} ScansReadThis(s: seq<byte>, start: nat, i: nat, q: Quoting)
    requires start <= i <= |s|
    ensures QuoteFrom(s, start, i, q) == StateAfter(s[start..i], q, false)
  {
    if start < i {
      assert s[start..i][..i - 1 - start] == s[start..i - 1];
      ScansReadThis(s, start, i - 1, q);
    }
  }

  /** Only characters outside quotes and escapes that are no quote or escape syntax go unreported. */
  lemma SyntaxIsReported(q: Quoting, ch: int, includeBackticks: bool)
    ensures !RawStep(q, ch, includeBackticks).1 <==>
            && !q.escaped && (q.quote.None? || (q.quote == Some(Backtick) && !includeBackticks))
            && ch != '\\' as int && ch != '\'' as int && ch != '"' as int && (includeBackticks ==> ch != '`' as int)
  {
    match q.quote {
      case None =>
      case Some(Single) =>
      case Some(Double) =>
      case Some(Backtick) =>
    }
  }

  // Comments

  /** The last two bytes before `i`. */
  predicate FollowsTwo(s: seq<byte>, i: nat, first: byte, second: byte)
    requires i <= |s|
  {
    2 <= i && s[i - 2] == first && s[i - 1] == second
  }

  /** The last three bytes before `i`. */
  predicate FollowsThree(s: seq<byte>, i: nat, first: byte, second: byte, third: byte)
    requires i <= |s|
  {
    3 <= i && s[i - 3] == first && s[i - 2] == second && s[i - 1] == third
  }

  /** The text before `i` ends in a white-space character, all of them spelled out in UTF-8. */
  predicate FollowsBlank(s: seq<byte>, i: nat)
    requires i <= |s|
  {
    && 0 < i
    && (|| 0x09 <= s[i - 1] <= 0x0D || s[i - 1] == 0x20
        || FollowsTwo(s, i, 0xC2, 0x85) || FollowsTwo(s, i, 0xC2, 0xA0) || FollowsThree(s, i, 0xE1, 0x9A, 0x80)
        || (FollowsThree(s, i, 0xE2, 0x80, s[i - 1]) && 0x80 <= s[i - 1] <= 0x8A)
        || FollowsThree(s, i, 0xE2, 0x80, 0xA8) || FollowsThree(s, i, 0xE2, 0x80, 0xA9)
        || FollowsThree(s, i, 0xE2, 0x80, 0xAF)
        || FollowsThree(s, i, 0xE2, 0x81, 0x9F) || FollowsThree(s, i, 0xE3, 0x80, 0x80))
  }

  /** A comment may start at the start of the text, and behind white space or one of three separators. */
  predicate IsCommentPlace(s: seq<byte>, i: nat)
    requires i <= |s|
  {
    i == 0 || FollowsBlank(s, i) || s[i - 1] == ';' as int || s[i - 1] == '&' as int || s[i - 1] == '|' as int
  }

  lemma CommentPlaces(s: seq<byte>, i: nat)
    requires ValidUtf8(s) && i <= |s| && IsBoundary(s, i)
    ensures CommentCanStart(s, i) <==> IsCommentPlace(s, i)
  {
    if 0 < i {
      PreviousCharEndsHere(s, i);
      hide ValidUtf8;
      BlankIsSpelled(s, PreviousBoundary(s, i), i);
      AsciiIsSpelled(s, PreviousBoundary(s, i), i);
    }
  }

  /** The encodings of the white-space characters. */
  lemma BlankIsSpelled(s: seq<byte>, p: nat, i: nat)
    requires p < i <= |s| && WellFormedAt(s, p) && p + Width(s[p]) == i
    ensures IsWhitespace(CharAt(s, p)) <==> FollowsBlank(s, i)
  {
    if i == p + 3 {
      ThreeByteBlanks(s, p);
    }
  }

  /** An ASCII character is its own encoding, and no other encoding ends in it. */
  lemma AsciiIsSpelled(s: seq<byte>, p: nat, i: nat)
    requires p < i <= |s| && WellFormedAt(s, p) && p + Width(s[p]) == i
    ensures CharAt(s, p) < 0x80 || s[i - 1] < 0x80 ==> CharAt(s, p) == s[i - 1]
  {
    hide CharAt;
  }

  lemma ThreeByteBlanks(s: seq<byte>, p: nat)
    requires p + 3 <= |s| && WellFormedAt(s, p) && Width(s[p]) == 3
    ensures IsWhitespace(CharAt(s, p)) <==> FollowsBlank(s, p + 3)
  {
    var high, low := Low6(s[p + 1]), Low6(s[p + 2]);
    assert 0 <= high < 0x40 && 0 <= low < 0x40;
    assert CharAt(s, p) == (s[p] as int - 0xE0) * 0x1000 + high * 0x40 + low;
  }

  // The reader of one line

  /** The quote that the reader of a line has at `i`, if no comment starts before. */
  function LineAt(line: seq<byte>, i: nat, quote: Option<RawQuoteKind>): Option<RawQuoteKind>
    requires i <= |line|
  {
    if i == 0 then quote else LineStep(line, i - 1, LineAt(line, i - 1, quote))
  }

  /** The state of the reader of raw text at `i`. */
  function RawAt(line: seq<byte>, i: nat, quote: Option<RawQuoteKind>): Quoting
    requires i <= |line|
  {
    QuoteFrom(line, 0, i, Quoting(quote, false))
  }

  /** Byte `i` is an apostrophe that an escape outside quotes takes its meaning from. */
  predicate IsEscapedApostrophe(line: seq<byte>, i: nat, quote: Option<RawQuoteKind>)
    requires i < |line|
  {
    line[i] == '\'' as int && RawAt(line, i, quote).escaped && RawAt(line, i, quote).quote != Some(Double)
  }

  /** At `i`, outside quotes for the reader of raw text, a comment starts. */
  predicate IsComment(line: seq<byte>, i: nat, quote: Option<RawQuoteKind>)
    requires i < |line|
  {
    && RawAt(line, i, quote).quote != Some(Single) && RawAt(line, i, quote).quote != Some(Double)
    && line[i] == '#' as int && IsCommentPlace(line, i)
  }

  lemma {:induction false} LinesAgreeUpTo(line: seq<byte>, n: nat, quote: Option<RawQuoteKind>)
    requires n <= |line| && forall i: nat :: i < n ==> !IsEscapedApostrophe(line, i, quote)
    ensures LineAt(line, n, quote) == RawAt(line, n, quote).quote
    ensures RawAt(line, n, quote).escaped <==> RawAt(line, n, quote).quote != Some(Single) && CarriedEscape(line, n)
  {
    if 0 < n {
      LinesAgreeUpTo(line, n - 1, quote);
      ParityIsCarriedEscape(line, n - 1);
      assert !IsEscapedApostrophe(line, n - 1, quote);
      match RawAt(line, n - 1, quote).quote {
        case None =>
        case Some(Single) =>
        case Some(Double) =>
        case Some(Backtick) =>
      }
    }
  }

  /** Both readers see the same quote at every place exactly if no apostrophe is escaped outside quotes. */
  lemma LineReaderAgreesIff(line: seq<byte>, n: nat, quote: Option<RawQuoteKind>)
    requires n <= |line|
    ensures (forall i: nat :: i <= n ==> LineAt(line, i, quote) == RawAt(line, i, quote).quote) <==>
            (forall i: nat :: i < n ==> !IsEscapedApostrophe(line, i, quote))
  {
    if forall i: nat :: i < n ==> !IsEscapedApostrophe(line, i, quote) {
      forall i: nat | i <= n
        ensures LineAt(line, i, quote) == RawAt(line, i, quote).quote
      {
        LinesAgreeUpTo(line, i, quote);
      }
    } else {
      var i: nat :| i < n && IsEscapedApostrophe(line, i, quote);
      EscapedApostropheOpens(line, i, quote);
    }
  }

  /** The reader of a line opens a quote at such an apostrophe, unless the readers differ there already. */
  lemma EscapedApostropheOpens(line: seq<byte>, i: nat, quote: Option<RawQuoteKind>)
    requires i < |line| && IsEscapedApostrophe(line, i, quote)
    ensures LineAt(line, i, quote) != RawAt(line, i, quote).quote
            || LineAt(line, i + 1, quote) != RawAt(line, i + 1, quote).quote
  {
    EscapesAreOutside(line, i, quote);
  }

  lemma {:induction false} EscapesAreOutside(line: seq<byte>, i: nat, quote: Option<RawQuoteKind>)
    requires i <= |line| && RawAt(line, i, quote).escaped
    ensures RawAt(line, i, quote).quote != Some(Single)
  {
  }

  /**
   Scanning a line leaves the quote that the reader of raw text has where the comment starts or the line ends, if no
   apostrophe before that is escaped outside quotes.
   */
  lemma ScanLineReadsQuotes(line: seq<byte>, end: nat, quote: Option<RawQuoteKind>)
    requires ValidUtf8(line) && end <= |line|
    requires forall i: nat :: i < end ==> !IsEscapedApostrophe(line, i, quote) && !IsComment(line, i, quote)
    requires end < |line| ==> IsComment(line, end, quote)
    ensures LineQuote(line, 0, quote) == RawAt(line, end, quote).quote
  {
    forall i: nat | i <= end
      ensures LineAt(line, i, quote) == RawAt(line, i, quote).quote
    {
      LinesAgreeUpTo(line, i, quote);
    }
    forall i: nat | i < |line| && i <= end
      ensures CommentStartsAt(line, i, LineAt(line, i, quote)) <==> IsComment(line, i, quote)
    {
      if line[i] == '#' as int {
        CommentPlaces(line, i);
      }
    }
    LineQuoteReaches(line, 0, end, quote);
  }

  lemma {:induction false} LineQuoteReaches(line: seq<byte>, i: nat, end: nat, quote: Option<RawQuoteKind>)
    requires ValidUtf8(line) && i <= end <= |line|
    requires forall k: nat :: k < end ==> !CommentStartsAt(line, k, LineAt(line, k, quote))
    requires end < |line| ==> CommentStartsAt(line, end, LineAt(line, end, quote))
    ensures LineQuote(line, i, LineAt(line, i, quote)) == LineAt(line, end, quote)
    decreases end - i
  {
    hide CommentStartsAt, LineStep;
    if i < end {
      LineQuoteReaches(line, i + 1, end, quote);
    }
  }
}
