/**
 Two readers of `$(...)` bodies agree: the parenthesis counter over a quote state, and the recursive
 scanner of balanced constructs, on bodies in which only parentheses nest: outside single quotes there
 is no unescaped backtick or `${`, and inside double quotes no unescaped `$(`.
 */
module ScannerAgreement {
  import opened OptionalValues
  import opened QuoteScan
  import opened QuoteStates
  import opened ShellGrammar
  import opened Utf8

  /** The counter as a reader from byte `i` on, in quote state `q`. */
  function CounterClose(s: seq<byte>, upper: nat, i: nat, q: Quoting, depth: nat): Option<nat>
    requires upper <= |s|
    decreases upper - i
  {
    if upper <= i then None
    else
      var (next, handled) := RawStep(q, s[i], false);
      if handled then CounterClose(s, upper, i + 1, next, depth)
      else if s[i] == OPEN_PAREN then CounterClose(s, upper, i + 1, q, depth + 1)
      else if s[i] != CLOSE_PAREN then CounterClose(s, upper, i + 1, q, depth)
      else if depth == 0 then Some(i)
      else CounterClose(s, upper, i + 1, q, depth - 1)
  }

  lemma {:induction false} CounterFindsFirstClose(s: seq<byte>, upper: nat, start: nat, i: nat)
    requires start <= i <= upper <= |s| && 0 <= ParenDepth(s, start, i)
    ensures match CounterClose(s, upper, i, QuoteFrom(s, start, i, UNQUOTED), ParenDepth(s, start, i))
            case Some(j) => i <= j < upper && ClosesAt(s, start, j) && forall k :: i <= k < j ==> !ClosesAt(s, start, k)
            case None => forall k :: i <= k < upper ==> !ClosesAt(s, start, k)
    decreases upper - i
  {
    if i < upper && !ClosesAt(s, start, i) {
      CounterFindsFirstClose(s, upper, start, i + 1);
    }
  }

  /** A quote state in which the counter reads on character by character. */
  predicate IsSteady(q: Quoting) {
    q == UNQUOTED || q == Quoting(Some(Double), false)
  }

  lemma {:induction false} TailIsSkipped(s: seq<byte>, upper: nat, i: nat, k: nat, q: Quoting, depth: nat)
    requires i <= k <= upper <= |s| && forall m :: i <= m < k ==> 0x80 <= s[m]
    requires IsSteady(q)
    ensures CounterClose(s, upper, i, q, depth) == CounterClose(s, upper, k, q, depth)
    ensures IsPlainFrom(s, upper, i, q) ==> IsPlainFrom(s, upper, k, q)
    decreases k - i
  {
    if i < k {
      TailIsSkipped(s, upper, i + 1, k, q, depth);
    }
  }

  lemma UnhandledIsUnquoted(q: Quoting, ch: int)
    requires !RawStep(q, ch, false).1 && q.quote != Some(Backtick)
    ensures q == UNQUOTED
  {
    match q.quote
    case None =>
    case Some(Single) =>
    case Some(Double) =>
    case Some(Backtick) =>
  }

  /** A deeper count passes the inner close and goes on one level up. */
  lemma {:induction false} InnerCloseIsPassed(s: seq<byte>, upper: nat, i: nat, q: Quoting, inner: nat, outer: nat)
    requires upper <= |s| && q.quote != Some(Backtick)
    ensures var deep := CounterClose(s, upper, i, q, inner + 1 + outer);
            match CounterClose(s, upper, i, q, inner)
            case None => deep == None
            case Some(c) =>
              i <= c < upper && s[c] == CLOSE_PAREN && deep == CounterClose(s, upper, c + 1, UNQUOTED, outer)
    decreases upper - i
  {
    if i < upper {
      var (next, handled) := RawStep(q, s[i], false);
      if handled {
        InnerCloseIsPassed(s, upper, i + 1, next, inner, outer);
      } else if s[i] == OPEN_PAREN {
        InnerCloseIsPassed(s, upper, i + 1, q, inner + 1, outer);
      } else if s[i] != CLOSE_PAREN {
        InnerCloseIsPassed(s, upper, i + 1, q, inner, outer);
      } else if inner == 0 {
        UnhandledIsUnquoted(q, s[i]);
      } else {
        InnerCloseIsPassed(s, upper, i + 1, q, inner - 1, outer);
      }
    }
  }

  /** What opens at `i` for the scanner and not for the counter, which has read up to it in state `q`. */
  predicate NestsOnlyForScanner(s: seq<byte>, upper: nat, i: nat, q: Quoting)
    requires i < upper <= |s|
  {
    && !q.escaped && q.quote != Some(Single)
    && (|| s[i] == BACKTICK
        || (s[i] == DOLLAR && i + 1 < upper && s[i + 1] == OPEN_BRACE)
        || (s[i] == DOLLAR && i + 1 < upper && s[i + 1] == OPEN_PAREN && q.quote == Some(Double)))
  }

  /** Only parentheses nest in the body from `start`. */
  predicate IsPlainBody(s: seq<byte>, upper: nat, start: nat)
    requires upper <= |s|
  {
    forall k :: start <= k < upper ==> !NestsOnlyForScanner(s, upper, k, QuoteFrom(s, start, k, UNQUOTED))
  }

  /** The same for a reader that is at `i` in state `q`. */
  predicate IsPlainFrom(s: seq<byte>, upper: nat, i: nat, q: Quoting)
    requires upper <= |s|
    decreases upper - i
  {
    i < upper ==> !NestsOnlyForScanner(s, upper, i, q) && IsPlainFrom(s, upper, i + 1, RawStep(q, s[i], false).0)
  }

  lemma {:induction false} PlainBodyIsPlainFrom(s: seq<byte>, upper: nat, start: nat, i: nat)
    requires start <= i <= upper <= |s| && IsPlainBody(s, upper, start)
    ensures IsPlainFrom(s, upper, i, QuoteFrom(s, start, i, UNQUOTED))
    decreases upper - i
  {
    if i < upper {
      PlainBodyIsPlainFrom(s, upper, start, i + 1);
    }
  }

  /** After the counter's close the reader is outside quotes, and the rest is plain as well. */
  lemma {:induction false} PlainAfterClose(s: seq<byte>, upper: nat, i: nat, q: Quoting, depth: nat)
    requires upper <= |s| && q.quote != Some(Backtick) && IsPlainFrom(s, upper, i, q)
    ensures var close := CounterClose(s, upper, i, q, depth);
      close.Some? ==> i <= close.value < upper && IsPlainFrom(s, upper, close.value + 1, UNQUOTED)
    decreases upper - i
  {
    if i < upper {
      var (next, handled) := RawStep(q, s[i], false);
      if handled {
        PlainAfterClose(s, upper, i + 1, next, depth);
      } else if s[i] == OPEN_PAREN {
        PlainAfterClose(s, upper, i + 1, q, depth + 1);
      } else if s[i] != CLOSE_PAREN {
        PlainAfterClose(s, upper, i + 1, q, depth);
      } else if depth == 0 {
        UnhandledIsUnquoted(q, s[i]);
      } else {
        PlainAfterClose(s, upper, i + 1, q, depth - 1);
      }
    }
  }

  /** The state in which the counter reads what the scan reads in `mode`. */
  function QuotingOf(mode: Mode): Quoting {
    match mode
    case Bare => UNQUOTED
    case InSingle => Quoting(Some(Single), false)
    case InDouble => Quoting(Some(Double), false)
  }

  /** The scan ends one past the counter's close, or neither finds an end. */
  predicate Agree(end: Option<nat>, close: Option<nat>) {
    match end
    case Some(j) => 0 < j && close == Some(j - 1)
    case None => close == None
  }

  lemma {:induction false} ReadersAgreeFrom(s: seq<byte>, upper: nat, i: nat, depth: nat, mode: Mode)
    requires ValidUtf8(s) && upper <= |s| && IsBoundary(s, upper)
    requires !mode.InSingle? && i <= upper ==> IsBoundary(s, i)
    requires IsPlainFrom(s, upper, i, QuotingOf(mode))
    ensures Agree(Scan(s, upper, i, depth + 1, mode, PARENS), CounterClose(s, upper, i, QuotingOf(mode), depth))
    decreases upper - i, 2
  {
    hide Scan;
    if upper <= i {
      FinishIsScanned(s, upper, i, depth + 1, mode, PARENS);
    } else if mode.InSingle? {
      SyntaxIsScanned(s, upper, i, depth + 1, mode, PARENS);
      if s[i] == SINGLE_QUOTE { BoundaryStep(s, i); }
      ReadersAgreeFrom(s, upper, i + 1, depth, if s[i] == SINGLE_QUOTE then Bare else InSingle);
    } else {
      ReadersAgreeOn(s, upper, i, depth, mode);
    }
  }

  /** One round outside single quotes. */
  lemma {:induction false} ReadersAgreeOn(s: seq<byte>, upper: nat, i: nat, depth: nat, mode: Mode)
    requires ValidUtf8(s) && i < upper <= |s| && IsBoundary(s, upper) && IsBoundary(s, i)
    requires !mode.InSingle? && IsPlainFrom(s, upper, i, QuotingOf(mode))
    ensures Agree(Scan(s, upper, i, depth + 1, mode, PARENS), CounterClose(s, upper, i, QuotingOf(mode), depth))
    decreases upper - i, 1
  {
    hide Scan, CounterClose;
    BoundaryStep(s, i);
    var token := TokenAt(s, i, mode.InDouble?, PARENS);
    if token.Escape? {
      EscapeAgrees(s, upper, i, depth, mode);
    } else if token.SingleQuote? || token.DoubleQuote? {
      QuoteAgrees(s, upper, i, depth, mode);
    } else if token.Parameter? || (token.Command? && mode.InDouble?) {
      NestingAtBoundAgrees(s, upper, i, depth, mode);
    } else if IsNesting(token) {
      NestedAgrees(s, upper, i, depth);
    } else {
      CharacterAgrees(s, upper, i, depth, mode);
    }
  }

  lemma {:induction false} QuoteAgrees(s: seq<byte>, upper: nat, i: nat, depth: nat, mode: Mode)
    requires ValidUtf8(s) && i < upper <= |s| && IsBoundary(s, upper) && IsBoundary(s, i)
    requires !mode.InSingle? && IsPlainFrom(s, upper, i, QuotingOf(mode))
    requires TokenAt(s, i, mode.InDouble?, PARENS) in {SingleQuote, DoubleQuote}
    ensures Agree(Scan(s, upper, i, depth + 1, mode, PARENS), CounterClose(s, upper, i, QuotingOf(mode), depth))
    decreases upper - i, 0
  {
    hide Scan;
    BoundaryStep(s, i);
    SyntaxIsScanned(s, upper, i, depth + 1, mode, PARENS);
    ReadersAgreeFrom(
      s, upper, i + 1, depth, if s[i] == SINGLE_QUOTE then InSingle else if mode.Bare? then InDouble else Bare);
  }

  /** An opener cut by the bound: neither reader finds an end. */
  lemma NestingAtBoundAgrees(s: seq<byte>, upper: nat, i: nat, depth: nat, mode: Mode)
    requires i < upper <= |s| && !mode.InSingle? && IsPlainFrom(s, upper, i, QuotingOf(mode))
    requires var token := TokenAt(s, i, mode.InDouble?, PARENS); token.Parameter? || (token.Command? && mode.InDouble?)
    ensures Agree(Scan(s, upper, i, depth + 1, mode, PARENS), CounterClose(s, upper, i, QuotingOf(mode), depth))
  {
    hide Scan;
    SyntaxIsScanned(s, upper, i, depth + 1, mode, PARENS);
    assert i + 1 == upper;
    FinishIsScanned(s, upper, i + 2, 1, Bare, BRACES);
    FinishIsScanned(s, upper, i + 2, 1, Bare, PARENS);
  }

  lemma {:induction false} CharacterAgrees(s: seq<byte>, upper: nat, i: nat, depth: nat, mode: Mode)
    requires ValidUtf8(s) && i < upper <= |s| && IsBoundary(s, upper) && IsBoundary(s, i)
    requires !mode.InSingle? && IsPlainFrom(s, upper, i, QuotingOf(mode))
    requires TokenAt(s, i, mode.InDouble?, PARENS) in {Open, Close, Ordinary}
    ensures Agree(Scan(s, upper, i, depth + 1, mode, PARENS), CounterClose(s, upper, i, QuotingOf(mode), depth))
    decreases upper - i, 0
  {
    hide Scan;
    BoundaryStep(s, i);
    CharacterIsScanned(s, upper, i, depth + 1, mode, PARENS);
    if s[i] == OPEN_PAREN && mode.Bare? {
      ReadersAgreeFrom(s, upper, i + 1, depth + 1, Bare);
    } else if s[i] == CLOSE_PAREN && mode.Bare? {
      if depth != 0 { ReadersAgreeFrom(s, upper, i + 1, depth - 1, Bare); }
    } else {
      NoBoundaryInside(s, i, upper);
      var next := i + OrdinaryWidth(s, upper, i);
      TailIsSkipped(s, upper, i + 1, next, QuotingOf(mode), depth);
      ReadersAgreeFrom(s, upper, next, depth, mode);
    }
  }

  lemma {:induction false} EscapeAgrees(s: seq<byte>, upper: nat, i: nat, depth: nat, mode: Mode)
    requires ValidUtf8(s) && i < upper <= |s| && IsBoundary(s, upper) && IsBoundary(s, i)
    requires !mode.InSingle? && IsPlainFrom(s, upper, i, QuotingOf(mode)) && s[i] == BACKSLASH
    ensures Agree(Scan(s, upper, i, depth + 1, mode, PARENS), CounterClose(s, upper, i, QuotingOf(mode), depth))
    decreases upper - i, 0
  {
    hide Scan;
    SyntaxIsScanned(s, upper, i, depth + 1, mode, PARENS);
    var next := i + EscapeWidth(s, upper, i);
    if i + 1 < upper {
      BoundaryStep(s, i);
      BoundaryStep(s, i + 1);
      NoBoundaryInside(s, i + 1, upper);
      TailIsSkipped(s, upper, i + 2, next, QuotingOf(mode), depth);
    }
    ReadersAgreeFrom(s, upper, next, depth, mode);
  }

  /** A nested `$(`, `<(` or `>(` is one more level for the counter and a recursive call for the scan. */
  lemma {:induction false} NestedAgrees(s: seq<byte>, upper: nat, i: nat, depth: nat)
    requires ValidUtf8(s) && i < upper <= |s| && IsBoundary(s, upper) && IsBoundary(s, i)
    requires IsPlainFrom(s, upper, i, UNQUOTED)
    requires TokenAt(s, i, false, PARENS) in {Command, Process}
    ensures Agree(Scan(s, upper, i, depth + 1, Bare, PARENS), CounterClose(s, upper, i, UNQUOTED, depth))
    decreases upper - i, 0
  {
    hide Scan;
    SyntaxIsScanned(s, upper, i, depth + 1, Bare, PARENS);
    BoundaryStep(s, i + 1);
    ReadersAgreeFrom(s, upper, i + 2, 0, Bare);
    if i + 1 < upper {
      InnerCloseIsPassed(s, upper, i + 2, UNQUOTED, 0, depth);
    }
    var nested := Scan(s, upper, i + 2, 1, Bare, PARENS);
    if nested.Some? {
      PlainAfterClose(s, upper, i + 2, UNQUOTED, 0);
      BoundaryStep(s, nested.value - 1);
      ReadersAgreeFrom(s, upper, nested.value, depth, Bare);
    }
  }

  /**
   On a plain body the counter's first close is at `j` exactly when the recursive scanner
   derives a construct that ends at `j + 1`.
   */
  lemma MatcherAgreesWithScanner(s: seq<byte>, upper: nat, body: nat, close: Option<nat>, end: Option<nat>)
    requires ValidUtf8(s) && upper <= |s| && IsBoundary(s, upper)
    requires body <= upper && IsBoundary(s, body) && IsPlainBody(s, upper, body)
    requires IsFirstClose(s, upper, body, close) && IsDerivedEnd(s, upper, body, PARENS, end)
    ensures Agree(end, close)
  {
    hide Scan;
    PlainBodyIsPlainFrom(s, upper, body, body);
    ReadersAgreeFrom(s, upper, body, 0, Bare);
    CounterFindsFirstClose(s, upper, body, body);
    FirstCloseIsUnique(s, upper, body, close, CounterClose(s, upper, body, UNQUOTED, 0));
    var scanned := Scan(s, upper, body, 1, Bare, PARENS);
    if end.Some? {
      ConstructScanIffDerived(s, upper, body, PARENS, end.value);
    } else if scanned.Some? {
      ConstructScanIffDerived(s, upper, body, PARENS, scanned.value);
    }
  }

  /** The body `"$(")")")`: a nested command inside double quotes, with a quoted parenthesis in it. */
  const QUOTED_COMMAND: seq<byte> := [
    DOUBLE_QUOTE, DOLLAR, OPEN_PAREN, DOUBLE_QUOTE, CLOSE_PAREN, DOUBLE_QUOTE, CLOSE_PAREN, DOUBLE_QUOTE, CLOSE_PAREN
  ]

  /** They can disagree on other bodies: the counter does not look for commands inside double quotes. */
  lemma ReadersDisagreeOnQuotedCommand()
    ensures IsFirstClose(QUOTED_COMMAND, 9, 0, Some(4))
    ensures IsDerivedEnd(QUOTED_COMMAND, 9, 0, PARENS, Some(9))
  {
    CounterClosesEarly();
    ScannerClosesLate();
  }

  lemma CounterClosesEarly()
    ensures IsFirstClose(QUOTED_COMMAND, 9, 0, Some(4))
  {
    var s := QUOTED_COMMAND;
    var open := Quoting(Some(Double), false);
    assert QuoteFrom(s, 0, 0, UNQUOTED) == UNQUOTED;
    assert QuoteFrom(s, 0, 1, UNQUOTED) == open;
    assert QuoteFrom(s, 0, 2, UNQUOTED) == open;
    assert QuoteFrom(s, 0, 3, UNQUOTED) == open;
    assert QuoteFrom(s, 0, 4, UNQUOTED) == UNQUOTED;
    assert ParenDepth(s, 0, 1) == 0;
    assert ParenDepth(s, 0, 2) == 0;
    assert ParenDepth(s, 0, 3) == 0;
    assert ParenDepth(s, 0, 4) == 0;
  }

  lemma ScannerClosesLate()
    ensures IsDerivedEnd(QUOTED_COMMAND, 9, 0, PARENS, Some(9))
  {
    var s := QUOTED_COMMAND;
    var inQuotes := Cons(Plain, 5, Nil);
    var command := Cons(DoubleQuoted(inQuotes), 6, Nil);
    var quoted := Cons(Nested(Command, command), 7, Nil);
    var body := Cons(DoubleQuoted(quoted), 8, Nil);
    assert ItemsAt(inQuotes, s, 9, 4, 5, true, PARENS);
    assert ItemsAt(command, s, 9, 3, 6, false, PARENS);
    assert ItemsAt(quoted, s, 9, 1, 7, true, PARENS);
    assert BodyAt(body, s, 9, 0, PARENS, 9);
  }
}
