/**
 Quote and escape tracking over raw shell text, and the backslash-parity test.
 */
module QuoteStates {
  import opened OptionalValues
  import opened Utf8

  datatype RawQuoteKind = Single | Double | Backtick

  /** The abstract value of a `QuoteState`. */
  datatype Quoting = Quoting(quote: Option<RawQuoteKind>, escaped: bool)

  const UNQUOTED := Quoting(None, false)

  /** One character of raw text: the next state, and whether it was quote or escape syntax. */
  function RawStep(q: Quoting, ch: int, includeBackticks: bool): (Quoting, bool) {
    if q.escaped then (q.(escaped := false), true)
    else if q.quote == Some(Single) then
      (if ch == SINGLE_QUOTE then q.(quote := None) else q, true)
    else if q.quote == Some(Double) then
      (if ch == DOUBLE_QUOTE then q.(quote := None) else q.(escaped := ch == BACKSLASH), true)
    else if q.quote == Some(Backtick) && includeBackticks then
      (if ch == BACKTICK then q.(quote := None) else q.(escaped := ch == BACKSLASH), true)
    else if ch == BACKSLASH then (q.(escaped := true), true)
    else if ch == SINGLE_QUOTE then (q.(quote := Some(Single)), true)
    else if ch == DOUBLE_QUOTE then (q.(quote := Some(Double)), true)
    else if ch == BACKTICK && includeBackticks then (q.(quote := Some(Backtick)), true)
    else (q, false)
  }

  /** One character of a shell word: ordinary characters in double quotes stay visible. */
  function WordStep(q: Quoting, ch: int): (Quoting, bool) {
    if q.escaped then (q.(escaped := false), true)
    else if q.quote == Some(Single) then
      (if ch == SINGLE_QUOTE then q.(quote := None) else q, true)
    else if q.quote == Some(Double) then
      if ch == DOUBLE_QUOTE then (q.(quote := None), true)
      else if ch == BACKSLASH then (q.(escaped := true), true)
      else (q, false)
    else if ch == BACKSLASH then (q.(escaped := true), true)
    else if ch == SINGLE_QUOTE then (q.(quote := Some(Single)), true)
    else if ch == DOUBLE_QUOTE then (q.(quote := Some(Double)), true)
    else (q, false)
  }

  /** The length of the run of backslashes that ends before `i`. */
  function TrailingBackslashes(s: seq<byte>, i: nat): nat
    requires i <= |s|
  {
    if 0 < i && s[i - 1] == BACKSLASH then 1 + TrailingBackslashes(s, i - 1) else 0
  }

  /** The parity view of escaping: an odd run of backslashes ends before `i`. */
  predicate ParityEscaped(s: seq<byte>, i: nat)
    requires i <= |s|
  {
    TrailingBackslashes(s, i) % 2 == 1
  }

  /** The forward view of escaping: the bit a left-to-right scan carries to `i`. */
  predicate CarriedEscape(s: seq<byte>, i: nat)
    requires i <= |s|
  {
    0 < i && s[i - 1] == BACKSLASH && !CarriedEscape(s, i - 1)
  }

  lemma {:induction false} ParityIsCarriedEscape(s: seq<byte>, i: nat)
    requires i <= |s|
    ensures ParityEscaped(s, i) == CarriedEscape(s, i)
  {
    if 0 < i && s[i - 1] == BACKSLASH {
      ParityIsCarriedEscape(s, i - 1);
    }
  }

  /** The parity test as the source runs it, counting backwards from `index`. */
  method ByteIsBackslashEscaped(bytes: seq<byte>, index: nat) returns (escaped: bool)
    ensures escaped == CarriedEscape(bytes, if index < |bytes| then index else |bytes|)
  {
    var end := if index < |bytes| then index else |bytes|;
    var cursor := end;
    var backslashes := 0;
    while 0 < cursor && bytes[cursor - 1] == BACKSLASH
      invariant 0 <= cursor <= end
      invariant backslashes + TrailingBackslashes(bytes, cursor) == TrailingBackslashes(bytes, end)
    {
      backslashes := backslashes + 1;
      cursor := cursor - 1;
    }
    ParityIsCarriedEscape(bytes, end);
    return backslashes % 2 == 1;
  }

  /** A comment marker at `offset` follows the start, whitespace, or a separator. */
  predicate CommentCanStart(s: seq<byte>, offset: nat)
    requires ValidUtf8(s) && offset <= |s| && IsBoundary(s, offset)
  {
    if offset == 0 then true
    else
      PreviousCharEndsHere(s, offset);
      var ch := CharAt(s, PreviousBoundary(s, offset));
      IsWhitespace(ch) || ch == SEMICOLON || ch == AMPERSAND || ch == PIPE
  }

  /** What a quote reader sees at byte `i` of a line, when no escape bit is carried along. */
  function LineStep(s: seq<byte>, i: nat, quote: Option<RawQuoteKind>): Option<RawQuoteKind>
    requires i < |s|
  {
    var escaped := ParityEscaped(s, i);
    if quote == Some(Single) then
      if s[i] == SINGLE_QUOTE then None else quote
    else if quote == Some(Double) then
      if s[i] == DOUBLE_QUOTE && !escaped then None else quote
    else if s[i] == SINGLE_QUOTE then Some(Single)
    else if s[i] == DOUBLE_QUOTE && !escaped then Some(Double)
    else quote
  }

  predicate CommentStartsAt(s: seq<byte>, i: nat, quote: Option<RawQuoteKind>)
    requires ValidUtf8(s) && i < |s|
  {
    quote != Some(Single) && quote != Some(Double) && s[i] == HASH && CommentCanStart(s, i)
  }

  /** The quote left open at the end of a line, or where its comment starts: escapes by parity. */
  function LineQuote(s: seq<byte>, i: nat, quote: Option<RawQuoteKind>): Option<RawQuoteKind>
    requires ValidUtf8(s) && i <= |s|
    decreases |s| - i
  {
    if i == |s| || CommentStartsAt(s, i, quote) then quote
    else LineQuote(s, i + 1, LineStep(s, i, quote))
  }

  /** Bytes outside ASCII never change the quote. */
  lemma {:induction false} LineQuoteSkips(s: seq<byte>, i: nat, k: nat, quote: Option<RawQuoteKind>)
    requires ValidUtf8(s) && i <= k <= |s|
    requires forall m :: i <= m < k ==> 0x80 <= s[m]
    ensures LineQuote(s, i, quote) == LineQuote(s, k, quote)
    decreases k - i
  {
    if i < k {
      LineQuoteSkips(s, i + 1, k, quote);
    }
  }

  class QuoteState {
    var quote: Option<RawQuoteKind>
    var escaped: bool

    constructor ()
      ensures View() == UNQUOTED
    {
      quote, escaped := None, false;
    }

    ghost function View(): Quoting
      reads this
    {
      Quoting(quote, escaped)
    }

    predicate InSingleQuotes()
      reads this
    {
      quote == Some(Single)
    }

    method ConsumeRawChar(ch: scalar, includeBackticks: bool) returns (handled: bool)
      modifies this
      ensures (View(), handled) == RawStep(old(View()), ch, includeBackticks)
    {
      if escaped {
        escaped := false;
        return true;
      }
      if quote == Some(Single) {
        if ch == SINGLE_QUOTE { quote := None; }
        return true;
      } else if quote == Some(Double) {
        if ch == DOUBLE_QUOTE {
          quote := None;
        } else if ch == BACKSLASH {
          escaped := true;
        }
        return true;
      } else if quote == Some(Backtick) && includeBackticks {
        if ch == BACKTICK {
          quote := None;
        } else if ch == BACKSLASH {
          escaped := true;
        }
        return true;
      } else if ch == BACKSLASH {
        escaped := true;
        return true;
      } else if ch == SINGLE_QUOTE {
        quote := Some(Single);
        return true;
      } else if ch == DOUBLE_QUOTE {
        quote := Some(Double);
        return true;
      } else if includeBackticks && ch == BACKTICK {
        quote := Some(Backtick);
        return true;
      }
      return false;
    }

    method ConsumeShellWordChar(ch: scalar) returns (handled: bool)
      modifies this
      ensures (View(), handled) == WordStep(old(View()), ch)
    {
      if escaped {
        escaped := false;
        return true;
      }
      if quote == Some(Single) {
        if ch == SINGLE_QUOTE { quote := None; }
        return true;
      } else if quote == Some(Double) {
        if ch == DOUBLE_QUOTE {
          quote := None;
          return true;
        }
        if ch == BACKSLASH {
          escaped := true;
          return true;
        }
        return false;
      } else if ch == BACKSLASH {
        escaped := true;
        return true;
      } else if ch == SINGLE_QUOTE {
        quote := Some(Single);
        return true;
      } else if ch == DOUBLE_QUOTE {
        quote := Some(Double);
        return true;
      }
      return false;
    }

    /** The bit carried through the loop is replaced by the parity test in the result. */
    method ScanLine(line: seq<byte>)
      requires ValidUtf8(line)
      modifies this
      ensures View() == Quoting(LineQuote(line, 0, old(quote)), false)
    {
      escaped := false;
      var index := 0;
      while index < |line|
        invariant index <= |line| && IsBoundary(line, index)
        invariant escaped == CarriedEscape(line, index)
        invariant LineQuote(line, index, quote) == LineQuote(line, 0, old(quote))
      {
        BoundaryStep(line, index);
        ParityIsCarriedEscape(line, index);
        var ch := CharAt(line, index);
        var next := index + Width(line[index]);
        ghost var before := quote;
        if quote == Some(Single) {
          if ch == SINGLE_QUOTE { quote := None; }
        } else if quote == Some(Double) {
          if ch == DOUBLE_QUOTE && !escaped { quote := None; }
        } else {
          if ch == HASH && CommentCanStart(line, index) { break; }
          if ch == SINGLE_QUOTE || (ch == DOUBLE_QUOTE && !escaped) {
            quote := Some(if ch == SINGLE_QUOTE then Single else Double);
          }
        }
        assert LineQuote(line, index, before) == LineQuote(line, index + 1, quote);
        LineQuoteSkips(line, index + 1, next, quote);
        escaped := ch == BACKSLASH && !escaped;
        if ch != BACKSLASH { escaped := false; }
        index := next;
      }
      escaped := false;
    }
  }
}
