/**
 What raw shell scans mean, stated over prefixes of the text: the quote state before
 each byte, the running parenthesis depth, and the positions they make special.
 */
module QuoteScan {
  import opened OptionalValues
  import opened QuoteStates
  import opened Utf8

  /** The quote state before byte `i` of a scan that starts at `start` in state `q`. */
  function QuoteFrom(s: seq<byte>, start: nat, i: nat, q: Quoting): Quoting
    requires start <= i <= |s|
  {
    if i == start then q else RawStep(QuoteFrom(s, start, i - 1, q), s[i - 1], false).0
  }

  lemma {:induction false} QuoteFromSplits(s: seq<byte>, start: nat, mid: nat, i: nat, q: Quoting)
    requires start <= mid <= i <= |s|
    ensures QuoteFrom(s, start, i, q) == QuoteFrom(s, mid, i, QuoteFrom(s, start, mid, q))
  {
    if mid < i {
      QuoteFromSplits(s, start, mid, i - 1, q);
    }
  }

  /** Both readers move through the same quote states; only what they report differs. */
  lemma ReadersAgree(q: Quoting, ch: int)
    ensures WordStep(q, ch).0 == RawStep(q, ch, false).0
    ensures WordStep(q, ch).1 != RawStep(q, ch, false).1 <==>
            !q.escaped && q.quote == Some(Double) && ch != DOUBLE_QUOTE && ch != BACKSLASH
  {
  }

  /** The tail of a character leaves the quote state alone. */
  lemma {:induction false} QuoteAfterChar(s: seq<byte>, start: nat, i: nat, q: Quoting, k: nat)
    requires ValidUtf8(s) && start <= i < |s| && IsBoundary(s, i)
    requires WellFormedAt(s, i) && i < k <= i + Width(s[i])
    ensures QuoteFrom(s, start, k, q) == RawStep(QuoteFrom(s, start, i, q), s[i], false).0
    ensures RawStep(QuoteFrom(s, start, i, q), s[i], false)
            == RawStep(QuoteFrom(s, start, i, q), CharAt(s, i), false)
  {
    BoundaryStep(s, i);
    if i + 1 < k {
      QuoteAfterChar(s, start, i, q, k - 1);
      assert IsContinuation(s[k - 1]);
    }
  }

  // Quoted bodies

  /**
   A quoted body read from `start` ends at `end`: the quote is open throughout, and at
   `end` it has just been closed, or it is still open and the bound has been reached.
   */
  ghost predicate QuotedBodyEnds(s: seq<byte>, upper: nat, start: nat, kind: RawQuoteKind, end: nat)
    requires start <= |s|
  {
    var open := Quoting(Some(kind), false);
    && start <= end <= |s|
    && (forall k :: start <= k < end ==> QuoteFrom(s, start, k, open).quote == Some(kind))
    && var last := QuoteFrom(s, start, end, open);
       last == UNQUOTED || (upper <= end && last.quote == Some(kind))
  }

  // Comments

  /** Byte `i` starts a comment outside quotes and escapes, for a scan from `start`. */
  ghost predicate CommentAt(s: seq<byte>, start: nat, i: nat) {
    && ValidUtf8(s) && start <= i < |s|
    && s[i] == HASH
    && QuoteFrom(s, start, i, UNQUOTED) == UNQUOTED
    && CommentCanStart(s, i)
  }

  // Command substitutions

  /** Byte `i` is neither quoted nor escaped, nor quote syntax itself. */
  predicate IsActive(s: seq<byte>, start: nat, i: nat)
    requires start <= i < |s|
  {
    !RawStep(QuoteFrom(s, start, i, UNQUOTED), s[i], false).1
  }

  /** Active `(` minus active `)` in `s[start..i]`. */
  function ParenDepth(s: seq<byte>, start: nat, i: nat): int
    requires start <= i <= |s|
  {
    if i == start then 0
    else
      ParenDepth(s, start, i - 1) +
      (if !IsActive(s, start, i - 1) then 0
       else if s[i - 1] == OPEN_PAREN then 1
       else if s[i - 1] == CLOSE_PAREN then -1
       else 0)
  }

  /** At `i` an active `)` takes the running depth below zero. */
  predicate ClosesAt(s: seq<byte>, start: nat, i: nat)
    requires start <= i < |s|
  {
    s[i] == CLOSE_PAREN && IsActive(s, start, i) && ParenDepth(s, start, i) == 0
  }

  /** `close` is the first position below `upper` that closes the body at `start`, if any does. */
  ghost predicate IsFirstClose(s: seq<byte>, upper: nat, start: nat, close: Option<nat>)
    requires upper <= |s|
  {
    match close
    case Some(j) =>
      start <= j < upper && ClosesAt(s, start, j) && forall k :: start <= k < j ==> !ClosesAt(s, start, k)
    case None =>
      forall k :: start <= k < upper ==> !ClosesAt(s, start, k)
  }

  /** Until the close is reached the running depth never is negative. */
  lemma {:induction false} DepthStaysNonNegative(s: seq<byte>, upper: nat, start: nat, close: Option<nat>, i: nat)
    requires upper <= |s| && IsFirstClose(s, upper, start, close)
    requires start <= i <= (if close.Some? then close.value else upper)
    ensures 0 <= ParenDepth(s, start, i)
  {
    if start < i {
      DepthStaysNonNegative(s, upper, start, close, i - 1);
      assert !ClosesAt(s, start, i - 1);
    }
  }

  /** The tail of a character neither moves the depth nor closes anything. */
  lemma {:induction false} DepthAfterChar(s: seq<byte>, start: nat, i: nat, k: nat)
    requires ValidUtf8(s) && start <= i < |s| && IsBoundary(s, i)
    requires WellFormedAt(s, i) && i < k <= i + Width(s[i])
    ensures ParenDepth(s, start, k) == ParenDepth(s, start, i + 1)
    ensures forall m :: i < m < k ==> !ClosesAt(s, start, m)
  {
    BoundaryStep(s, i);
    if i + 1 < k {
      DepthAfterChar(s, start, i, k - 1);
      assert IsContinuation(s[k - 1]);
    }
  }

  lemma FirstCloseIsUnique(s: seq<byte>, upper: nat, start: nat, a: Option<nat>, b: Option<nat>)
    requires upper <= |s| && IsFirstClose(s, upper, start, a) && IsFirstClose(s, upper, start, b)
    ensures a == b
  {
  }

  /** A non-arithmetic `$(` that the word scan from `start` sees at `i`. */
  predicate OpensAt(s: seq<byte>, upper: nat, start: nat, i: nat)
    requires upper <= |s|
  {
    && start <= i && i + 1 < upper
    && s[i] == DOLLAR && s[i + 1] == OPEN_PAREN
    && (i + 2 < |s| ==> s[i + 2] != OPEN_PAREN)
    && var q := QuoteFrom(s, start, i, UNQUOTED); !q.escaped && q.quote != Some(Single)
  }

  /** `found` is the leftmost `$(` with a close, paired with that close, if there is one. */
  ghost predicate IsNextSubstitution(s: seq<byte>, upper: nat, start: nat, found: Option<(nat, nat)>)
    requires upper <= |s|
  {
    match found
    case Some((i, close)) =>
      && OpensAt(s, upper, start, i) && IsFirstClose(s, upper, i + 2, Some(close))
      && forall k :: start <= k < i && OpensAt(s, upper, start, k) ==> IsFirstClose(s, upper, k + 2, None)
    case None =>
      forall k :: start <= k < upper && OpensAt(s, upper, start, k) ==> IsFirstClose(s, upper, k + 2, None)
  }
}
