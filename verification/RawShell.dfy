/**
 The scanners over raw shell text. Each reads UTF-8 text, steps by characters except inside
 single quotes, and is proved against the prefix meanings of `QuoteScan` or the grammar of
 `ShellGrammar`. The preconditions are the character boundaries at which the text is sliced.
 */
module RawShell {
  import opened Arithmetic
  import opened OptionalValues
  import opened QuoteScan
  import opened QuoteStates
  import opened ShellGrammar
  import opened Utf8

  function AdvanceShellChar(text: seq<byte>, index: nat): (next: nat)
    requires ValidUtf8(text) && index <= |text| && IsBoundary(text, index)
    ensures index < |text| ==>
              index < next <= |text| && IsBoundary(text, next) && next == index + CharWidth(text, index)
    ensures index == |text| ==> next == index + 1
  {
    if index < |text| then
      BoundaryStep(text, index);
      index + Width(text[index])
    else index + 1
  }

  function AdvanceEscapedShellChar(text: seq<byte>, index: nat): (next: nat)
    requires ValidUtf8(text) && index <= |text| && IsBoundary(text, index)
    ensures index < |text| ==>
              var second := index + CharWidth(text, index);
              && index < next <= |text| && IsBoundary(text, next)
              && second <= |text|
              && next == if second < |text| then second + CharWidth(text, second) else second
    ensures index == |text| ==> next == index + 1
  {
    var next := AdvanceShellChar(text, index);
    if next < |text| then AdvanceShellChar(text, next) else next
  }

  lemma AsciiStep(s: seq<byte>, i: nat)
    requires ValidUtf8(s) && i < |s|
    ensures s[i] < 0x80 ==> IsBoundary(s, i) && IsBoundary(s, i + 1)
  {
    if s[i] < 0x80 {
      BoundaryStep(s, i);
    }
  }

  lemma EscapeStep(s: seq<byte>, upper: nat, i: nat)
    requires ValidUtf8(s) && i < upper <= |s| && IsBoundary(s, i) && IsBoundary(s, upper)
    requires s[i] == BACKSLASH
    ensures Min(AdvanceEscapedShellChar(s, i), upper) == i + EscapeWidth(s, upper, i)
    ensures IsBoundary(s, i + EscapeWidth(s, upper, i))
  {
    BoundaryStep(s, i);
    if i + 1 < upper {
      NoBoundaryInside(s, i + 1, upper);
    }
  }

  lemma OrdinaryStep(s: seq<byte>, upper: nat, i: nat)
    requires ValidUtf8(s) && i < upper <= |s| && IsBoundary(s, i) && IsBoundary(s, upper)
    ensures Min(AdvanceShellChar(s, i), upper) == i + OrdinaryWidth(s, upper, i)
    ensures IsBoundary(s, i + OrdinaryWidth(s, upper, i))
  {
    NoBoundaryInside(s, i, upper);
  }

  /** The scan mode that the two quote flags of a loop stand for. */
  function FlagMode(inSingleQuote: bool, inDoubleQuote: bool): Mode {
    if inSingleQuote then InSingle else if inDoubleQuote then InDouble else Bare
  }

  datatype RawShellScanner = RawShellScanner(source: seq<byte>, upper: nat) {

    static function Bounded(source: seq<byte>, upper: nat): RawShellScanner {
      RawShellScanner(source, Min(upper, |source|))
    }

    /** The source is text, and the bound does not split a character. */
    predicate Valid() {
      ValidUtf8(source) && upper <= |source| && IsBoundary(source, upper)
    }

    method SkipSingleQuotedBody(start: nat) returns (offset: nat)
      requires Valid() && (start < upper ==> IsBoundary(source, start))
      ensures start <= |source| ==> QuotedBodyEnds(source, upper, start, Single, offset)
      ensures if start < upper then offset <= upper && IsBoundary(source, offset) else offset == start
    {
      ghost var open := Quoting(Some(Single), false);
      offset := start;
      while offset < upper
        invariant if start < upper then start <= offset <= upper && IsBoundary(source, offset) else offset == start
        invariant start <= |source| ==> forall k :: start <= k <= offset ==> QuoteFrom(source, start, k, open) == open
      {
        BoundaryStep(source, offset);
        NoBoundaryInside(source, offset, upper);
        var ch := CharAt(source, offset);
        var next := offset + Width(source[offset]);
        forall k | offset < k <= next { QuoteAfterChar(source, start, offset, open, k); }
        offset := next;
        if ch == SINGLE_QUOTE {
          break;
        }
      }
    }

    /** The result is one escaped character past the bound. */
    predicate PassesByOneEscape(offset: nat)
      requires upper <= |source|
    {
      && 0 < upper < |source| && source[upper - 1] == BACKSLASH
      && offset == upper + Width(source[upper])
    }

    method SkipDoubleQuotedBody(start: nat) returns (offset: nat)
      requires Valid() && (start < upper ==> IsBoundary(source, start))
      ensures start <= |source| ==> QuotedBodyEnds(source, upper, start, Double, offset)
      ensures if start < upper then IsBoundary(source, offset) else offset == start
      ensures start < upper < offset ==> PassesByOneEscape(offset)
    {
      ghost var open := Quoting(Some(Double), false);
      offset := start;
      while offset < upper
        invariant if start < upper then start <= offset <= |source| && IsBoundary(source, offset) else offset == start
        invariant start < upper < offset ==> PassesByOneEscape(offset)
        invariant start <= |source| ==>
                    && (forall k :: start <= k < offset ==> QuoteFrom(source, start, k, open).quote == Some(Double))
                    && (QuoteFrom(source, start, offset, open) == open
                        || (offset == |source| && QuoteFrom(source, start, offset, open).quote == Some(Double)))
      {
        BoundaryStep(source, offset);
        NoBoundaryInside(source, offset, upper);
        var ch := CharAt(source, offset);
        var next := offset + Width(source[offset]);
        forall k | offset < k <= next { QuoteAfterChar(source, start, offset, open, k); }
        offset := next;
        if ch == BACKSLASH {
          if offset < |source| {
            BoundaryStep(source, offset);
            if offset < upper { NoBoundaryInside(source, offset, upper); }
            var escaped := offset + Width(source[offset]);
            forall k | offset < k <= escaped { QuoteAfterChar(source, start, offset, open, k); }
            offset := escaped;
          }
        } else if ch == DOUBLE_QUOTE {
          break;
        }
      }
    }

    /** The end of an escape or quoted body at `offset`: inside it no byte is read unquoted. */
    method SkipEscapedOrQuotedAt(offset: nat) returns (skipped: Option<nat>)
      requires Valid() && offset <= |source| && IsBoundary(source, offset)
      requires offset < |source| && source[offset] == BACKSLASH ==> offset < upper
      ensures skipped.Some? <==>
                offset < |source| && source[offset] in {BACKSLASH, SINGLE_QUOTE, DOUBLE_QUOTE}
      ensures skipped.Some? ==> StaysQuoted(offset, skipped.value)
    {
      if offset == |source| {
        return None;
      }
      BoundaryStep(source, offset);
      var ch := CharAt(source, offset);
      var next := offset + Width(source[offset]);
      QuoteAfterChar(source, offset, offset, UNQUOTED, next);
      if ch == BACKSLASH {
        if next < upper {
          BoundaryStep(source, next);
          var escaped := next + Width(source[next]);
          forall k | next < k <= escaped { QuoteAfterChar(source, offset, next, UNQUOTED, k); }
          return Some(escaped);
        }
        return Some(next);
      } else if ch == SINGLE_QUOTE {
        var end := SkipSingleQuotedBody(next);
        forall k | next <= k <= end { QuoteFromSplits(source, offset, next, k, UNQUOTED); }
        return Some(end);
      } else if ch == DOUBLE_QUOTE {
        var end := SkipDoubleQuotedBody(next);
        forall k | next <= k <= end { QuoteFromSplits(source, offset, next, k, UNQUOTED); }
        return Some(end);
      }
      return None;
    }

    /** Read from `offset`, every character before `end` is quoted or escaped; the quote ends there or at the bound. */
    ghost predicate StaysQuoted(offset: nat, end: nat) {
      && offset < end <= |source| && IsBoundary(source, end)
      && (forall k :: offset < k < end ==>
            IsContinuation(source[k]) || QuoteFrom(source, offset, k, UNQUOTED) != UNQUOTED)
      && (QuoteFrom(source, offset, end, UNQUOTED) == UNQUOTED || upper <= end)
    }

    method FindComment(start: nat, limit: nat) returns (found: Option<nat>)
      requires Valid() && IsBoundary(source, Min(start, upper))
      ensures match found
              case Some(j) =>
                && Min(start, upper) <= j < Min(limit, upper) && CommentAt(source, Min(start, upper), j)
                && forall k :: Min(start, upper) <= k < j ==> !CommentAt(source, Min(start, upper), k)
              case None =>
                forall k :: Min(start, upper) <= k < Min(limit, upper) ==> !CommentAt(source, Min(start, upper), k)
    {
      var first := Min(start, upper);
      var last := Min(limit, upper);
      var offset := first;
      while offset < last
        invariant first <= offset <= |source| && IsBoundary(source, offset)
        invariant QuoteFrom(source, first, offset, UNQUOTED) == UNQUOTED || upper <= offset
        invariant forall k :: first <= k < offset ==> !CommentAt(source, first, k)
      {
        var skipped := SkipEscapedOrQuotedAt(offset);
        if skipped.Some? {
          forall k | offset <= k <= skipped.value { QuoteFromSplits(source, first, offset, k, UNQUOTED); }
          offset := skipped.value;
          continue;
        }
        BoundaryStep(source, offset);
        var ch := CharAt(source, offset);
        if ch == HASH && CommentCanStart(source, offset) {
          return Some(offset);
        }
        var next := offset + Width(source[offset]);
        QuoteAfterChar(source, first, offset, UNQUOTED, next);
        offset := next;
      }
      return None;
    }

    method MatchingCommandSubstitutionClose(bodyStart: nat) returns (close: Option<nat>)
      requires Valid() && IsBoundary(source, Min(bodyStart, upper))
      ensures IsFirstClose(source, upper, Min(bodyStart, upper), close)
    {
      var quote := new QuoteState();
      var parenDepth := 0;
      var start := Min(bodyStart, upper);
      var index := start;
      while index < upper
        invariant start <= index <= upper && IsBoundary(source, index)
        invariant quote.View() == QuoteFrom(source, start, index, UNQUOTED)
        invariant 0 <= parenDepth == ParenDepth(source, start, index)
        invariant forall k :: start <= k < index ==> !ClosesAt(source, start, k)
      {
        BoundaryStep(source, index);
        NoBoundaryInside(source, index, upper);
        var ch := CharAt(source, index);
        var nextIndex := index + Width(source[index]);
        QuoteAfterChar(source, start, index, UNQUOTED, nextIndex);
        DepthAfterChar(source, start, index, nextIndex);
        var handled := quote.ConsumeRawChar(ch, false);
        if handled {
          index := nextIndex;
          continue;
        }
        if ch == OPEN_PAREN {
          parenDepth := parenDepth + 1;
        } else if ch == CLOSE_PAREN {
          if parenDepth == 0 {
            return Some(index);
          }
          parenDepth := parenDepth - 1;
        }
        index := nextIndex;
      }
      return None;
    }

    method NextCommandSubstitution(start: nat) returns (found: Option<(nat, nat)>)
      requires Valid() && (start + 1 < upper ==> IsBoundary(source, start))
      ensures IsNextSubstitution(source, upper, start, found)
    {
      var quote := new QuoteState();
      var index := start;
      while index + 1 < upper
        invariant if start + 1 < upper then start <= index <= |source| && IsBoundary(source, index) else index == start
        invariant start <= |source| ==> quote.View() == QuoteFrom(source, start, index, UNQUOTED)
        invariant forall k :: start <= k < index && OpensAt(source, upper, start, k) ==>
                    IsFirstClose(source, upper, k + 2, None)
      {
        BoundaryStep(source, index);
        var ch := CharAt(source, index);
        var nextIndex := index + Width(source[index]);
        QuoteAfterChar(source, start, index, UNQUOTED, nextIndex);
        ReadersAgree(quote.View(), ch);
        var handled := quote.ConsumeShellWordChar(ch);
        if handled {
          index := nextIndex;
          continue;
        }
        if !quote.InSingleQuotes() && source[index] == DOLLAR && source[index + 1] == OPEN_PAREN
           && (index + 2 >= |source| || source[index + 2] != OPEN_PAREN) {
          BoundaryStep(source, index + 1);
          var close := MatchingCommandSubstitutionClose(index + 2);
          if close.Some? {
            return Some((index, close.value));
          }
        }
        index := nextIndex;
      }
      return None;
    }

    /** The end of the word at `start`, when its quotes and constructs are closed there. */
    method ShellWordEnd(start: nat) returns (end: Option<nat>)
      requires Valid() && IsBoundary(source, Min(start, upper))
      ensures end == Scan(source, upper, Min(start, upper), 1, Bare, Word)
      ensures IsDerivedWordEnd(source, upper, Min(start, upper), end)
      ensures end.Some? ==> end.value <= upper && IsBoundary(source, end.value)
    {
      hide Scan, EscapeWidth, OrdinaryWidth, IsDerivedEnd, IsDerivedWordEnd, WellFormedAt, ValidFrom;
      hide AdvanceShellChar, AdvanceEscapedShellChar;
      var first := Min(start, upper);
      WordScanMeaning(source, upper, first);
      ghost var goal := Scan(source, upper, first, 1, Bare, Word);
      var index := first;
      var inSingleQuote, inDoubleQuote := false, false;
      while index < upper
        invariant first <= index && index <= upper && !(inSingleQuote && inDoubleQuote)
        invariant index <= upper && !inSingleQuote ==> IsBoundary(source, index)
        invariant goal == Scan(source, upper, index, 1, FlagMode(inSingleQuote, inDoubleQuote), Word)
      {
        var b := source[index];
        ghost var mode := FlagMode(inSingleQuote, inDoubleQuote);
        SyntaxIsScanned(source, upper, index, 1, mode, Word);
        if inSingleQuote {
          if b == SINGLE_QUOTE {
            AsciiStep(source, index);
            inSingleQuote := false;
          }
          index := index + 1;
          continue;
        }
        AsciiStep(source, index);
        if b == BACKSLASH {
          EscapeStep(source, upper, index);
          index := Min(AdvanceEscapedShellChar(source, index), upper);
          continue;
        }
        if !inDoubleQuote && IsAsciiWhitespace(b) {
          break;
        }
        if b == SINGLE_QUOTE && !inDoubleQuote {
          inSingleQuote := true;
          index := index + 1;
        } else if b == DOUBLE_QUOTE {
          inDoubleQuote := !inDoubleQuote;
          index := index + 1;
        } else if NestsAt(index, inDoubleQuote) {
          var nested := SkipNestedConstruct(index, inDoubleQuote);
          if nested.None? { return None; }
          index := nested.value;
        } else {
          OrdinaryStep(source, upper, index);
          CharacterIsScanned(source, upper, index, 1, mode, Word);
          index := Min(AdvanceShellChar(source, index), upper);
        }
      }
      if index == upper {
        FinishIsScanned(source, upper, index, 1, FlagMode(inSingleQuote, inDoubleQuote), Word);
      }
      return if !inSingleQuote && !inDoubleQuote then Some(index) else None;
    }

    /** A nested construct starts at `index`, outside single quotes. */
    predicate NestsAt(index: nat, inDoubleQuote: bool)
      requires index < |source|
    {
      || (source[index] == DOLLAR && (FollowedBy(source, index, OPEN_PAREN) || FollowedBy(source, index, OPEN_BRACE)))
      || ((source[index] == LESS || source[index] == GREATER) && !inDoubleQuote
          && FollowedBy(source, index, OPEN_PAREN))
      || source[index] == BACKTICK
    }

    /** The arms that words and constructs share: the byte after the nested construct at `index`. */
    method SkipNestedConstruct(index: nat, inDoubleQuote: bool) returns (end: Option<nat>)
      requires Valid() && index < upper && IsBoundary(source, index) && NestsAt(index, inDoubleQuote)
      ensures var token := TokenAt(source, index, inDoubleQuote, PARENS);
              end == Scan(source, upper, index + OpenerLength(token), 1, Bare, InnerScope(token))
      ensures end.Some? ==> index < end.value <= upper && IsBoundary(source, end.value)
      decreases upper - index, 0
    {
      hide Scan, IsDerivedEnd;
      AsciiStep(source, index);
      if source[index] == BACKTICK {
        end := SkipLegacyBacktickConstruct(index + 1);
      } else {
        AsciiStep(source, index + 1);
        if source[index] == DOLLAR && FollowedBy(source, index, OPEN_BRACE) {
          end := SkipBalancedShellConstruct(index + 2, OPEN_BRACE, CLOSE_BRACE);
        } else {
          end := SkipBalancedShellConstruct(index + 2, OPEN_PAREN, CLOSE_PAREN);
        }
      }
    }

    /** The byte after the close of a construct whose body is at `start`. */
    method SkipBalancedShellConstruct(start: nat, open: byte, close: byte) returns (end: Option<nat>)
      requires Valid() && (start <= upper ==> IsBoundary(source, start))
      requires open < 0x80 && close < 0x80
      ensures end == Scan(source, upper, start, 1, Bare, Construct(open, close))
      ensures IsDerivedEnd(source, upper, start, Construct(open, close), end)
      ensures end.Some? ==> start < end.value <= upper && IsBoundary(source, end.value)
      decreases upper - start, 1
    {
      hide Scan, EscapeWidth, OrdinaryWidth, IsDerivedEnd, IsDerivedWordEnd, WellFormedAt, ValidFrom;
      hide AdvanceShellChar, AdvanceEscapedShellChar;
      ghost var scope := Construct(open, close);
      ConstructScanMeaning(source, upper, start, scope);
      ghost var goal := Scan(source, upper, start, 1, Bare, scope);
      var index := start;
      var depth := 1;
      var inSingleQuote, inDoubleQuote := false, false;
      while index < upper
        invariant start <= index && !(inSingleQuote && inDoubleQuote)
        invariant index <= upper && !inSingleQuote ==> IsBoundary(source, index)
        invariant 0 < depth
        invariant goal == Scan(source, upper, index, depth, FlagMode(inSingleQuote, inDoubleQuote), scope)
      {
        var b := source[index];
        ghost var mode := FlagMode(inSingleQuote, inDoubleQuote);
        SyntaxIsScanned(source, upper, index, depth, mode, scope);
        if inSingleQuote {
          if b == SINGLE_QUOTE {
            AsciiStep(source, index);
            inSingleQuote := false;
          }
          index := index + 1;
          continue;
        }
        AsciiStep(source, index);
        if b == BACKSLASH {
          EscapeStep(source, upper, index);
          index := Min(AdvanceEscapedShellChar(source, index), upper);
          continue;
        }
        if b == SINGLE_QUOTE && !inDoubleQuote {
          inSingleQuote := true;
          index := index + 1;
        } else if b == DOUBLE_QUOTE {
          inDoubleQuote := !inDoubleQuote;
          index := index + 1;
        } else if NestsAt(index, inDoubleQuote) {
          var nested := SkipNestedConstruct(index, inDoubleQuote);
          if nested.None? { return None; }
          index := nested.value;
        } else if b == open && !inDoubleQuote {
          CharacterIsScanned(source, upper, index, depth, mode, scope);
          depth := depth + 1;
          index := index + 1;
        } else if b == close && !inDoubleQuote {
          CharacterIsScanned(source, upper, index, depth, mode, scope);
          depth := depth - 1;
          index := index + 1;
          if depth == 0 {
            return Some(index);
          }
        } else {
          OrdinaryStep(source, upper, index);
          CharacterIsScanned(source, upper, index, depth, mode, scope);
          index := Min(AdvanceShellChar(source, index), upper);
        }
      }
      FinishIsScanned(source, upper, index, depth, FlagMode(inSingleQuote, inDoubleQuote), scope);
      return None;
    }

    /** The byte after the close of a backtick construct whose body is at `start`. */
    method SkipLegacyBacktickConstruct(start: nat) returns (end: Option<nat>)
      requires Valid() && (start <= upper ==> IsBoundary(source, start))
      ensures end == Scan(source, upper, start, 1, Bare, Legacy)
      ensures IsDerivedEnd(source, upper, start, Legacy, end)
      ensures end.Some? ==> start < end.value <= upper && IsBoundary(source, end.value)
      decreases upper - start, 0
    {
      hide Scan, EscapeWidth, OrdinaryWidth, IsDerivedEnd, IsDerivedWordEnd, WellFormedAt, ValidFrom;
      hide AdvanceShellChar, AdvanceEscapedShellChar;
      ConstructScanMeaning(source, upper, start, Legacy);
      ghost var goal := Scan(source, upper, start, 1, Bare, Legacy);
      var index := start;
      var inSingleQuote, inDoubleQuote := false, false;
      while index < upper
        invariant start <= index && !(inSingleQuote && inDoubleQuote)
        invariant index <= upper && !inSingleQuote ==> IsBoundary(source, index)
        invariant goal == Scan(source, upper, index, 1, FlagMode(inSingleQuote, inDoubleQuote), Legacy)
      {
        var b := source[index];
        ghost var mode := FlagMode(inSingleQuote, inDoubleQuote);
        SyntaxIsScanned(source, upper, index, 1, mode, Legacy);
        if inSingleQuote {
          if b == SINGLE_QUOTE {
            AsciiStep(source, index);
            inSingleQuote := false;
          }
          index := index + 1;
          continue;
        }
        AsciiStep(source, index);
        if b == BACKSLASH {
          EscapeStep(source, upper, index);
          index := Min(AdvanceEscapedShellChar(source, index), upper);
          continue;
        }
        if b == SINGLE_QUOTE && !inDoubleQuote {
          inSingleQuote := true;
          index := index + 1;
        } else if b == DOUBLE_QUOTE {
          inDoubleQuote := !inDoubleQuote;
          index := index + 1;
        } else if b == BACKTICK && !inDoubleQuote {
          CharacterIsScanned(source, upper, index, 1, mode, Legacy);
          return Some(index + 1);
        } else {
          OrdinaryStep(source, upper, index);
          CharacterIsScanned(source, upper, index, 1, mode, Legacy);
          index := Min(AdvanceShellChar(source, index), upper);
        }
      }
      FinishIsScanned(source, upper, index, 1, FlagMode(inSingleQuote, inDoubleQuote), Legacy);
      return None;
    }

    /** Recovery scanning: quotes are ignored, and the first unescaped backtick closes. */
    method SkipLegacyBacktickSubstitutionBody(start: nat) returns (end: Option<nat>)
      requires Valid() && (start <= upper ==> IsBoundary(source, start))
      ensures match end
              case Some(j) => start < j <= upper && IsBoundary(source, j) && TickAt(start, j - 1)
                              && forall k :: start <= k < j - 1 ==> !TickAt(start, k)
              case None => forall k :: start <= k < upper ==> !TickAt(start, k)
    {
      hide ValidFrom, AdvanceShellChar, AdvanceEscapedShellChar;
      var index := start;
      while index < upper
        invariant start <= index && (index <= upper ==> IsBoundary(source, index))
        invariant index < upper ==> !CarriedFrom(start, index)
        invariant forall k :: start <= k < index && k < upper ==> !TickAt(start, k)
      {
        BoundaryStep(source, index);
        if source[index] == BACKSLASH {
          EscapeStep(source, upper, index);
          var next := Min(AdvanceEscapedShellChar(source, index), upper);
          AsciiStep(source, index);
          if index + 1 < next {
            BoundaryStep(source, index + 1);
            assert CarriedFrom(start, index + 1);
          }
          assert index + 2 < next ==> IsContinuation(source[next - 1]);
          index := next;
        } else if source[index] == BACKTICK {
          return Some(index + 1);
        } else {
          BoundaryStep(source, index);
          OrdinaryStep(source, upper, index);
          var next := Min(AdvanceShellChar(source, index), upper);
          assert index + 1 < next ==> IsContinuation(source[next - 1]);
          index := next;
        }
      }
      return None;
    }

    /** The escape bit at `i` of a left-to-right reading that starts unescaped at `start`. */
    predicate CarriedFrom(start: nat, i: nat)
      requires start <= i <= |source|
    {
      start < i && source[i - 1] == BACKSLASH && !CarriedFrom(start, i - 1)
    }

    predicate TickAt(start: nat, i: nat)
      requires start <= i && upper <= |source|
    {
      i < upper && source[i] == BACKTICK && !CarriedFrom(start, i)
    }
  }
}
