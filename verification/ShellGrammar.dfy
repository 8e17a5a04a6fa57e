/**
 Balanced shell text: a grammar of quoted strings, escapes, nested constructs and matched
 delimiters, the scan with a depth counter and quote flags, and the proof that the scan
 stops exactly where the grammar says a body or a word ends.
 */
module ShellGrammar {
  import opened OptionalValues
  import opened Utf8

  /** What is being read: a shell word, a delimited construct, or a backtick construct. */
  datatype Scope = Word | Construct(open: byte, close: byte) | Legacy

  datatype Token =
    | Escape
    | SingleQuote
    | DoubleQuote
    | Command
    | Parameter
    | Process
    | Tick
    | Open
    | Close
    | Blank
    | Ordinary

  const PARENS := Construct(OPEN_PAREN, CLOSE_PAREN)
  const BRACES := Construct(OPEN_BRACE, CLOSE_BRACE)

  predicate FollowedBy(s: seq<byte>, i: nat, b: byte) {
    i + 1 < |s| && s[i + 1] == b
  }

  /** What byte `i` starts, inside or outside double quotes. */
  function TokenAt(s: seq<byte>, i: nat, quoted: bool, scope: Scope): Token
    requires i < |s|
  {
    var b := s[i];
    if b == BACKSLASH then Escape
    else if scope.Word? && !quoted && IsAsciiWhitespace(b) then Blank
    else if b == SINGLE_QUOTE && !quoted then SingleQuote
    else if b == DOUBLE_QUOTE then DoubleQuote
    else if !scope.Legacy? && b == DOLLAR && FollowedBy(s, i, OPEN_PAREN) then Command
    else if !scope.Legacy? && b == DOLLAR && FollowedBy(s, i, OPEN_BRACE) then Parameter
    else if !scope.Legacy? && (b == LESS || b == GREATER) && !quoted && FollowedBy(s, i, OPEN_PAREN) then Process
    else if b == BACKTICK && !scope.Legacy? then Tick
    else if b == BACKTICK && !quoted then Close
    else if scope.Construct? && b == scope.open && !quoted then Open
    else if scope.Construct? && b == scope.close && !quoted then Close
    else Ordinary
  }

  predicate IsNesting(t: Token) {
    t.Command? || t.Parameter? || t.Process? || t.Tick?
  }

  function OpenerLength(t: Token): nat {
    if t.Tick? then 1 else 2
  }

  function InnerScope(t: Token): Scope {
    if t.Tick? then Legacy else if t.Parameter? then BRACES else PARENS
  }

  function CharWidth(s: seq<byte>, i: nat): (w: nat)
    requires i < |s|
    ensures 0 < w
  {
    if Width(s[i]) == 0 then 1 else Width(s[i])
  }

  /** A backslash and the character after it, cut at the bound. */
  function EscapeWidth(s: seq<byte>, upper: nat, i: nat): (w: nat)
    requires i < upper <= |s|
    ensures 0 < w && i + w <= upper
  {
    var end := if i + 1 < |s| then i + 1 + CharWidth(s, i + 1) else i + 1;
    if end < upper then end - i else upper - i
  }

  /** One ordinary character, cut at the bound. */
  function OrdinaryWidth(s: seq<byte>, upper: nat, i: nat): (w: nat)
    requires i < upper <= |s|
    ensures 0 < w && i + w <= upper
  {
    if i + CharWidth(s, i) < upper then CharWidth(s, i) else upper - i
  }

  // The grammar

  /** Derivations; each item of a run records where the next one starts. */
  datatype Item =
    | Plain
    | Escaped
    | SingleQuoted
    | DoubleQuoted(items: Items)
    | Nested(token: Token, items: Items)
    | Group(items: Items)

  datatype Items = Nil | Cons(head: Item, next: nat, tail: Items)

  /** A single-quoted body from `i` closes at `close`. */
  predicate SingleBodyAt(s: seq<byte>, upper: nat, i: nat, close: nat)
    requires upper <= |s|
  {
    && i <= close < upper
    && s[close] == SINGLE_QUOTE
    && forall k :: i <= k < close ==> s[k] != SINGLE_QUOTE
  }

  predicate CloseAt(s: seq<byte>, upper: nat, i: nat, scope: Scope)
    requires upper <= |s|
  {
    i < upper && TokenAt(s, i, false, scope) == Close
  }

  predicate QuoteCloseAt(s: seq<byte>, upper: nat, i: nat)
    requires upper <= |s|
  {
    i < upper && s[i] == DOUBLE_QUOTE
  }

  /** The text `s[i..j]` is the item `x`. */
  predicate ItemAt(x: Item, s: seq<byte>, upper: nat, i: nat, j: nat, quoted: bool, scope: Scope)
    requires upper <= |s|
    decreases x
  {
    && i < upper && 0 < j
    && var token := TokenAt(s, i, quoted, scope);
       match x
       case Plain =>
         token == Ordinary && j == i + OrdinaryWidth(s, upper, i)
       case Escaped =>
         token == Escape && j == i + EscapeWidth(s, upper, i)
       case SingleQuoted =>
         token == SingleQuote && SingleBodyAt(s, upper, i + 1, j - 1)
       case DoubleQuoted(items) =>
         && token == DoubleQuote && !quoted
         && ItemsAt(items, s, upper, i + 1, j - 1, true, scope)
         && QuoteCloseAt(s, upper, j - 1)
       case Nested(t, items) =>
         && token == t && IsNesting(t)
         && ItemsAt(items, s, upper, i + OpenerLength(t), j - 1, false, InnerScope(t))
         && CloseAt(s, upper, j - 1, InnerScope(t))
       case Group(items) =>
         && token == Open
         && ItemsAt(items, s, upper, i + 1, j - 1, false, scope)
         && CloseAt(s, upper, j - 1, scope)
  }

  /** The text `s[i..j]` is the run of items `xs`. */
  predicate ItemsAt(xs: Items, s: seq<byte>, upper: nat, i: nat, j: nat, quoted: bool, scope: Scope)
    requires upper <= |s|
    decreases xs
  {
    match xs
    case Nil => i == j
    case Cons(x, next, rest) =>
      ItemAt(x, s, upper, i, next, quoted, scope) && ItemsAt(rest, s, upper, next, j, quoted, scope)
  }

  /** `xs` is the body of a construct opened just before `i`, closed at `j - 1`. */
  predicate BodyAt(xs: Items, s: seq<byte>, upper: nat, i: nat, scope: Scope, j: nat)
    requires upper <= |s|
  {
    0 < j && ItemsAt(xs, s, upper, i, j - 1, false, scope) && CloseAt(s, upper, j - 1, scope)
  }

  /** `xs` is the word at `i`: it ends at unquoted white space or at the bound. */
  predicate WordAt(xs: Items, s: seq<byte>, upper: nat, i: nat, j: nat)
    requires upper <= |s|
  {
    && ItemsAt(xs, s, upper, i, j, false, Word)
    && (j == upper || (j < upper && TokenAt(s, j, false, Word) == Blank))
  }

  // The scan

  datatype Mode = Bare | InSingle | InDouble

  /** What one round of the loop does: finish, read on with new flags, or read a nested construct. */
  datatype Move =
    | Finish(end: Option<nat>)
    | Read(next: nat, depth: nat, mode: Mode)
    | Descend(start: nat, inner: Scope)

  function MoveAt(s: seq<byte>, upper: nat, i: nat, depth: nat, mode: Mode, scope: Scope): (m: Move)
    requires upper <= |s| && 0 < depth
    ensures m.Read? ==> i < m.next <= upper && 0 < m.depth
    ensures m.Descend? ==> i < m.start && i < upper && !m.inner.Word?
    ensures m.Finish? && m.end.Some? ==>
              if scope.Word? then i <= m.end.value && (i <= upper ==> m.end.value <= upper)
              else i < m.end.value <= upper
  {
    if upper <= i then
      Finish(if scope.Word? && mode.Bare? then Some(i) else None)
    else if mode.InSingle? then
      Read(i + 1, depth, if s[i] == SINGLE_QUOTE then Bare else InSingle)
    else
      var token := TokenAt(s, i, mode.InDouble?, scope);
      if IsNesting(token) then Descend(i + OpenerLength(token), InnerScope(token))
      else if token.Escape? then Read(i + EscapeWidth(s, upper, i), depth, mode)
      else if token.Ordinary? then Read(i + OrdinaryWidth(s, upper, i), depth, mode)
      else if token.SingleQuote? then Read(i + 1, depth, InSingle)
      else if token.DoubleQuote? then Read(i + 1, depth, if mode.Bare? then InDouble else Bare)
      else if token.Open? then Read(i + 1, depth + 1, mode)
      else if token.Blank? then Finish(Some(i))
      else if depth == 1 then Finish(Some(i + 1))
      else Read(i + 1, depth - 1, mode)
  }

  /** The scan with its depth counter and quote flags, from byte `i` on. */
  function Scan(s: seq<byte>, upper: nat, i: nat, depth: nat, mode: Mode, scope: Scope): (end: Option<nat>)
    requires upper <= |s| && 0 < depth
    ensures end.Some? ==> i <= end.value && (i <= upper ==> end.value <= upper)
    ensures end.Some? && !scope.Word? ==> i < end.value <= upper
    decreases upper - i
  {
    match MoveAt(s, upper, i, depth, mode, scope)
    case Finish(end) => end
    case Read(next, d, m) => Scan(s, upper, next, d, m, scope)
    case Descend(start, inner) =>
      var nested := Scan(s, upper, start, 1, Bare, inner);
      if nested.None? then None else Scan(s, upper, nested.value, depth, mode, scope)
  }

  // The grammar is what the scan reads

  function ModeOf(quoted: bool): Mode {
    if quoted then InDouble else Bare
  }

  lemma {:induction false} SingleBodyIsSkipped(
      s: seq<byte>, upper: nat, i: nat, close: nat, depth: nat, scope: Scope)
    requires upper <= |s| && 0 < depth && SingleBodyAt(s, upper, i, close)
    ensures Scan(s, upper, i, depth, InSingle, scope) == Scan(s, upper, close + 1, depth, Bare, scope)
    decreases close - i
  {
    var after := if i < close then InSingle else Bare;
    assert MoveAt(s, upper, i, depth, InSingle, scope) == Read(i + 1, depth, after);
    if i < close {
      SingleBodyIsSkipped(s, upper, i + 1, close, depth, scope);
    }
  }

  /** The scan passes over a derived item without changing its counter or flags. */
  lemma {:induction false} ItemIsSkipped(
      x: Item, s: seq<byte>, upper: nat, i: nat, j: nat, quoted: bool, depth: nat, scope: Scope)
    requires upper <= |s| && 0 < depth && ItemAt(x, s, upper, i, j, quoted, scope)
    ensures Scan(s, upper, i, depth, ModeOf(quoted), scope) == Scan(s, upper, j, depth, ModeOf(quoted), scope)
    decreases x
  {
    hide Scan;
    match x {
      case Plain =>
        CharIsSkipped(x, s, upper, i, j, quoted, depth, scope);
      case Escaped =>
        CharIsSkipped(x, s, upper, i, j, quoted, depth, scope);
      case SingleQuoted =>
        SingleIsSkipped(s, upper, i, j, depth, scope);
      case DoubleQuoted(items) =>
        ItemsAreSkipped(items, s, upper, i + 1, j - 1, true, depth, scope);
        QuotedIsSkipped(s, upper, i, j, depth, scope);
      case Group(items) =>
        ItemsAreSkipped(items, s, upper, i + 1, j - 1, false, depth + 1, scope);
        GroupIsSkipped(s, upper, i, j, depth, scope);
      case Nested(token, items) =>
        ItemsAreSkipped(items, s, upper, i + OpenerLength(token), j - 1, false, 1, InnerScope(token));
        NestedIsSkipped(s, upper, i, j, depth, ModeOf(quoted), token, scope);
    }
  }

  lemma CharIsSkipped(
      x: Item, s: seq<byte>, upper: nat, i: nat, j: nat, quoted: bool, depth: nat, scope: Scope)
    requires upper <= |s| && 0 < depth && (x.Plain? || x.Escaped?) && ItemAt(x, s, upper, i, j, quoted, scope)
    ensures Scan(s, upper, i, depth, ModeOf(quoted), scope) == Scan(s, upper, j, depth, ModeOf(quoted), scope)
  {
    hide Scan;
    ReadIsScanned(s, upper, i, depth, ModeOf(quoted), scope, Read(j, depth, ModeOf(quoted)));
  }

  lemma SingleIsSkipped(s: seq<byte>, upper: nat, i: nat, j: nat, depth: nat, scope: Scope)
    requires i < upper <= |s| && 0 < depth && 0 < j
    requires TokenAt(s, i, false, scope) == SingleQuote && SingleBodyAt(s, upper, i + 1, j - 1)
    ensures Scan(s, upper, i, depth, Bare, scope) == Scan(s, upper, j, depth, Bare, scope)
  {
    hide Scan;
    SingleBodyIsSkipped(s, upper, i + 1, j - 1, depth, scope);
    ReadIsScanned(s, upper, i, depth, Bare, scope, Read(i + 1, depth, InSingle));
  }

  // One unfolding of the scan for each kind of move.

  lemma ReadIsScanned(s: seq<byte>, upper: nat, i: nat, depth: nat, mode: Mode, scope: Scope, m: Move)
    requires upper <= |s| && 0 < depth && m.Read? && 0 < m.depth
    requires MoveAt(s, upper, i, depth, mode, scope) == m
    ensures Scan(s, upper, i, depth, mode, scope) == Scan(s, upper, m.next, m.depth, m.mode, scope)
  {
  }

  lemma FinishIsScanned(s: seq<byte>, upper: nat, i: nat, depth: nat, mode: Mode, scope: Scope)
    requires upper <= |s| && 0 < depth
    ensures var m := MoveAt(s, upper, i, depth, mode, scope);
            m.Finish? ==> Scan(s, upper, i, depth, mode, scope) == m.end
  {
  }

  lemma DescentIsScanned(
      s: seq<byte>, upper: nat, i: nat, depth: nat, mode: Mode, scope: Scope, start: nat, inner: Scope)
    requires upper <= |s| && 0 < depth
    requires MoveAt(s, upper, i, depth, mode, scope) == Descend(start, inner)
    ensures var nested := Scan(s, upper, start, 1, Bare, inner);
            Scan(s, upper, i, depth, mode, scope)
            == if nested.None? then None else Scan(s, upper, nested.value, depth, mode, scope)
  {
  }

  /** What the scan does after a nested construct that ended at `nested`. */
  function After(nested: Option<nat>, s: seq<byte>, upper: nat, depth: nat, mode: Mode, scope: Scope): Option<nat>
    requires upper <= |s| && 0 < depth
  {
    if nested.None? then None else Scan(s, upper, nested.value, depth, mode, scope)
  }

  /** One round of the scan, byte by byte, for the quote and escape syntax and nested constructs. */
  lemma SyntaxIsScanned(s: seq<byte>, upper: nat, i: nat, depth: nat, mode: Mode, scope: Scope)
    requires i < upper <= |s| && 0 < depth
    ensures var b := s[i]; var goal := Scan(s, upper, i, depth, mode, scope);
            if mode.InSingle? then
              goal == Scan(s, upper, i + 1, depth, if b == SINGLE_QUOTE then Bare else InSingle, scope)
            else if b == BACKSLASH then
              goal == Scan(s, upper, i + EscapeWidth(s, upper, i), depth, mode, scope)
            else if b == DOUBLE_QUOTE then
              goal == Scan(s, upper, i + 1, depth, if mode.Bare? then InDouble else Bare, scope)
            else if b == SINGLE_QUOTE && mode.Bare? then
              goal == Scan(s, upper, i + 1, depth, InSingle, scope)
            else if scope.Word? && mode.Bare? && IsAsciiWhitespace(b) then
              goal == Some(i)
            else if !scope.Legacy? && IsNesting(TokenAt(s, i, mode.InDouble?, PARENS)) then
              var token := TokenAt(s, i, mode.InDouble?, PARENS);
              goal == After(Scan(s, upper, i + OpenerLength(token), 1, Bare, InnerScope(token)),
                            s, upper, depth, mode, scope)
            else
              true
  {
    hide Scan;
    var m := MoveAt(s, upper, i, depth, mode, scope);
    if m.Read? {
      ReadIsScanned(s, upper, i, depth, mode, scope, m);
    } else if m.Descend? {
      DescentIsScanned(s, upper, i, depth, mode, scope, m.start, m.inner);
    } else {
      FinishIsScanned(s, upper, i, depth, mode, scope);
    }
  }

  /** One round of the scan at any other byte: a delimiter of the construct, or an ordinary character. */
  lemma CharacterIsScanned(s: seq<byte>, upper: nat, i: nat, depth: nat, mode: Mode, scope: Scope)
    requires i < upper <= |s| && 0 < depth && !mode.InSingle?
    requires TokenAt(s, i, mode.InDouble?, scope) in {Open, Close, Ordinary}
    ensures var b := s[i]; var goal := Scan(s, upper, i, depth, mode, scope);
            if scope.Construct? && b == scope.open && mode.Bare? then
              goal == Scan(s, upper, i + 1, depth + 1, mode, scope)
            else if mode.Bare? && (if scope.Construct? then b == scope.close else scope.Legacy? && b == BACKTICK) then
              goal == if depth == 1 then Some(i + 1) else Scan(s, upper, i + 1, depth - 1, mode, scope)
            else
              goal == Scan(s, upper, i + OrdinaryWidth(s, upper, i), depth, mode, scope)
  {
    hide Scan;
    var m := MoveAt(s, upper, i, depth, mode, scope);
    if m.Read? {
      ReadIsScanned(s, upper, i, depth, mode, scope, m);
    } else {
      FinishIsScanned(s, upper, i, depth, mode, scope);
    }
  }

  lemma QuotedIsSkipped(s: seq<byte>, upper: nat, i: nat, j: nat, depth: nat, scope: Scope)
    requires i < upper <= |s| && 0 < depth && 0 < j
    requires TokenAt(s, i, false, scope) == DoubleQuote && QuoteCloseAt(s, upper, j - 1)
    requires Scan(s, upper, i + 1, depth, InDouble, scope) == Scan(s, upper, j - 1, depth, InDouble, scope)
    ensures Scan(s, upper, i, depth, Bare, scope) == Scan(s, upper, j, depth, Bare, scope)
  {
    hide Scan;
    ReadIsScanned(s, upper, i, depth, Bare, scope, Read(i + 1, depth, InDouble));
    ReadIsScanned(s, upper, j - 1, depth, InDouble, scope, Read(j, depth, Bare));
  }

  lemma GroupIsSkipped(s: seq<byte>, upper: nat, i: nat, j: nat, depth: nat, scope: Scope)
    requires i < upper <= |s| && 0 < depth && 0 < j
    requires TokenAt(s, i, false, scope) == Open && CloseAt(s, upper, j - 1, scope)
    requires Scan(s, upper, i + 1, depth + 1, Bare, scope) == Scan(s, upper, j - 1, depth + 1, Bare, scope)
    ensures Scan(s, upper, i, depth, Bare, scope) == Scan(s, upper, j, depth, Bare, scope)
  {
    hide Scan;
    ReadIsScanned(s, upper, i, depth, Bare, scope, Read(i + 1, depth + 1, Bare));
    ReadIsScanned(s, upper, j - 1, depth + 1, Bare, scope, Read(j, depth, Bare));
  }

  lemma NestedIsSkipped(
      s: seq<byte>, upper: nat, i: nat, j: nat, depth: nat, mode: Mode, token: Token, scope: Scope)
    requires i < upper <= |s| && 0 < depth && 0 < j && !mode.InSingle? && IsNesting(token)
    requires TokenAt(s, i, mode.InDouble?, scope) == token
    requires Scan(s, upper, i + OpenerLength(token), 1, Bare, InnerScope(token))
             == Scan(s, upper, j - 1, 1, Bare, InnerScope(token))
    requires CloseAt(s, upper, j - 1, InnerScope(token))
    ensures Scan(s, upper, i, depth, mode, scope) == Scan(s, upper, j, depth, mode, scope)
  {
    hide Scan;
    var start, inner := i + OpenerLength(token), InnerScope(token);
    DescentIsScanned(s, upper, i, depth, mode, scope, start, inner);
    FinishIsScanned(s, upper, j - 1, 1, Bare, inner);
  }

  lemma {:induction false} ItemsAreSkipped(
      xs: Items, s: seq<byte>, upper: nat, i: nat, j: nat, quoted: bool, depth: nat, scope: Scope)
    requires upper <= |s| && 0 < depth && ItemsAt(xs, s, upper, i, j, quoted, scope)
    ensures Scan(s, upper, i, depth, ModeOf(quoted), scope) == Scan(s, upper, j, depth, ModeOf(quoted), scope)
    decreases xs
  {
    if xs.Cons? {
      ItemIsSkipped(xs.head, s, upper, i, xs.next, quoted, depth, scope);
      ItemsAreSkipped(xs.tail, s, upper, xs.next, j, quoted, depth, scope);
    }
  }

  // What the scan reads is in the grammar

  /** After a run of items that ends at `e`, a scan of the given depth goes on to end at `j`. */
  predicate GoesOn(s: seq<byte>, upper: nat, e: nat, quoted: bool, depth: nat, scope: Scope, j: nat)
    requires upper <= |s| && 0 < depth
  {
    if quoted then
      QuoteCloseAt(s, upper, e) && Scan(s, upper, e + 1, depth, Bare, scope) == Some(j)
    else if scope.Word? then
      j == e && (e == upper || (e < upper && TokenAt(s, e, false, Word) == Blank))
    else
      CloseAt(s, upper, e, scope) &&
      if depth == 1 then j == e + 1 else Scan(s, upper, e + 1, depth - 1, Bare, scope) == Some(j)
  }

  lemma {:induction false} SingleBodyIsFound(
      s: seq<byte>, upper: nat, i: nat, depth: nat, scope: Scope) returns (close: nat)
    requires upper <= |s| && 0 < depth && Scan(s, upper, i, depth, InSingle, scope).Some?
    ensures SingleBodyAt(s, upper, i, close)
    decreases upper - i
  {
    if s[i] == SINGLE_QUOTE {
      return i;
    }
    close := SingleBodyIsFound(s, upper, i + 1, depth, scope);
  }

  /** A scan that ends has read a run of items up to the close of its innermost level. */
  lemma {:induction false} ItemsAreFound(
      s: seq<byte>, upper: nat, i: nat, quoted: bool, depth: nat, scope: Scope, j: nat)
    returns (xs: Items, e: nat)
    requires upper <= |s| && (i <= upper || !scope.Word?)
    requires 0 < depth && (depth == 1 || scope.Construct?)
    requires Scan(s, upper, i, depth, ModeOf(quoted), scope) == Some(j)
    ensures ItemsAt(xs, s, upper, i, e, quoted, scope) && i <= e
    ensures GoesOn(s, upper, e, quoted, depth, scope, j)
    decreases upper - i, 2
  {
    hide Scan;
    if EndsRun(s, upper, i, quoted, scope) {
      RunGoesOn(s, upper, i, quoted, depth, scope, j);
      xs, e := Nil, i;
    } else {
      var x, next := ItemIsFound(s, upper, i, quoted, depth, scope, j);
      ItemIsSkipped(x, s, upper, i, next, quoted, depth, scope);
      xs, e := ItemsAreFound(s, upper, next, quoted, depth, scope, j);
      xs := Cons(x, next, xs);
    }
  }

  /** No item starts at `i`. */
  predicate EndsRun(s: seq<byte>, upper: nat, i: nat, quoted: bool, scope: Scope)
    requires upper <= |s|
  {
    upper <= i || TokenAt(s, i, quoted, scope) in {Blank, Close} || (quoted && s[i] == DOUBLE_QUOTE)
  }

  lemma RunGoesOn(s: seq<byte>, upper: nat, i: nat, quoted: bool, depth: nat, scope: Scope, j: nat)
    requires upper <= |s| && (i <= upper || !scope.Word?)
    requires 0 < depth && (depth == 1 || scope.Construct?)
    requires Scan(s, upper, i, depth, ModeOf(quoted), scope) == Some(j)
    requires EndsRun(s, upper, i, quoted, scope)
    ensures GoesOn(s, upper, i, quoted, depth, scope, j)
  {
    hide Scan;
    var move := MoveAt(s, upper, i, depth, ModeOf(quoted), scope);
    if move.Read? {
      ReadIsScanned(s, upper, i, depth, ModeOf(quoted), scope, move);
    } else {
      FinishIsScanned(s, upper, i, depth, ModeOf(quoted), scope);
    }
  }

  lemma {:induction false} ItemIsFound(
      s: seq<byte>, upper: nat, i: nat, quoted: bool, depth: nat, scope: Scope, j: nat)
    returns (x: Item, next: nat)
    requires i < upper <= |s|
    requires 0 < depth && (depth == 1 || scope.Construct?)
    requires Scan(s, upper, i, depth, ModeOf(quoted), scope) == Some(j)
    requires !EndsRun(s, upper, i, quoted, scope)
    ensures ItemAt(x, s, upper, i, next, quoted, scope) && i < next <= upper
    decreases upper - i, 1
  {
    var token := TokenAt(s, i, quoted, scope);
    if token.Escape? {
      x, next := Escaped, i + EscapeWidth(s, upper, i);
    } else if token.Ordinary? {
      x, next := Plain, i + OrdinaryWidth(s, upper, i);
    } else if token.SingleQuote? || token.DoubleQuote? {
      x, next := QuotedIsFound(s, upper, i, depth, scope, j);
    } else if token.Open? {
      x, next := GroupIsFound(s, upper, i, depth, scope, j);
    } else {
      x, next := NestedIsFound(s, upper, i, quoted, depth, scope, j, token);
    }
  }

  lemma {:induction false} QuotedIsFound(s: seq<byte>, upper: nat, i: nat, depth: nat, scope: Scope, j: nat)
    returns (x: Item, next: nat)
    requires i < upper <= |s| && 0 < depth && (depth == 1 || scope.Construct?)
    requires Scan(s, upper, i, depth, Bare, scope) == Some(j)
    requires TokenAt(s, i, false, scope) in {SingleQuote, DoubleQuote}
    ensures ItemAt(x, s, upper, i, next, false, scope) && i < next <= upper
    decreases upper - i, 0
  {
    hide Scan;
    if TokenAt(s, i, false, scope).SingleQuote? {
      ReadIsScanned(s, upper, i, depth, Bare, scope, Read(i + 1, depth, InSingle));
      var close := SingleBodyIsFound(s, upper, i + 1, depth, scope);
      x, next := SingleQuoted, close + 1;
    } else {
      ReadIsScanned(s, upper, i, depth, Bare, scope, Read(i + 1, depth, InDouble));
      var items, e := ItemsAreFound(s, upper, i + 1, true, depth, scope, j);
      x, next := DoubleQuoted(items), e + 1;
    }
  }

  lemma {:induction false} GroupIsFound(s: seq<byte>, upper: nat, i: nat, depth: nat, scope: Scope, j: nat)
    returns (x: Item, next: nat)
    requires i < upper <= |s| && 0 < depth
    requires Scan(s, upper, i, depth, Bare, scope) == Some(j)
    requires TokenAt(s, i, false, scope) == Open
    ensures ItemAt(x, s, upper, i, next, false, scope) && i < next <= upper
    decreases upper - i, 0
  {
    hide Scan;
    ReadIsScanned(s, upper, i, depth, Bare, scope, Read(i + 1, depth + 1, Bare));
    var items, e := ItemsAreFound(s, upper, i + 1, false, depth + 1, scope, j);
    assert CloseAt(s, upper, e, scope);
    x, next := Group(items), e + 1;
  }

  lemma {:induction false} NestedIsFound(
      s: seq<byte>, upper: nat, i: nat, quoted: bool, depth: nat, scope: Scope, j: nat, token: Token)
    returns (x: Item, next: nat)
    requires i < upper <= |s| && 0 < depth
    requires Scan(s, upper, i, depth, ModeOf(quoted), scope) == Some(j)
    requires TokenAt(s, i, quoted, scope) == token && IsNesting(token)
    ensures ItemAt(x, s, upper, i, next, quoted, scope) && i < next <= upper
    decreases upper - i, 0
  {
    hide Scan;
    var start, inner := i + OpenerLength(token), InnerScope(token);
    DescentIsScanned(s, upper, i, depth, ModeOf(quoted), scope, start, inner);
    var end := Scan(s, upper, start, 1, Bare, inner).value;
    var items, e := ItemsAreFound(s, upper, start, false, 1, inner, end);
    assert CloseAt(s, upper, e, inner);
    x, next := Nested(token, items), e + 1;
  }

  lemma {:induction false} ConstructBodyIsScanned(xs: Items, s: seq<byte>, upper: nat, i: nat, scope: Scope, j: nat)
    requires upper <= |s| && !scope.Word? && BodyAt(xs, s, upper, i, scope, j)
    ensures Scan(s, upper, i, 1, Bare, scope) == Some(j)
  {
    ItemsAreSkipped(xs, s, upper, i, j - 1, false, 1, scope);
  }

  /** The scan of a construct ends at `j` exactly when the text up to `j` derives from the grammar. */
  lemma ConstructScanIffDerived(s: seq<byte>, upper: nat, i: nat, scope: Scope, j: nat)
    requires upper <= |s| && !scope.Word?
    ensures Scan(s, upper, i, 1, Bare, scope) == Some(j) <==> exists xs :: BodyAt(xs, s, upper, i, scope, j)
  {
    hide Scan;
    if Scan(s, upper, i, 1, Bare, scope) == Some(j) {
      var xs, e := ItemsAreFound(s, upper, i, false, 1, scope, j);
      assert BodyAt(xs, s, upper, i, scope, j);
    }
    forall xs | BodyAt(xs, s, upper, i, scope, j)
      ensures Scan(s, upper, i, 1, Bare, scope) == Some(j)
    {
      ConstructBodyIsScanned(xs, s, upper, i, scope, j);
    }
  }

  /** The scan of a word ends at `j` exactly when the text up to `j` is a run of items. */
  lemma WordScanIffDerived(s: seq<byte>, upper: nat, i: nat, j: nat)
    requires i <= upper <= |s|
    ensures Scan(s, upper, i, 1, Bare, Word) == Some(j) <==> exists xs :: WordAt(xs, s, upper, i, j)
  {
    hide Scan;
    if Scan(s, upper, i, 1, Bare, Word) == Some(j) {
      var xs, e := ItemsAreFound(s, upper, i, false, 1, Word, j);
      assert WordAt(xs, s, upper, i, j);
    }
    forall xs | WordAt(xs, s, upper, i, j)
      ensures Scan(s, upper, i, 1, Bare, Word) == Some(j)
    {
      ItemsAreSkipped(xs, s, upper, i, j, false, 1, Word);
      FinishIsScanned(s, upper, j, 1, Bare, Word);
    }
  }

  /** `end` is where a derivation of the construct at `i` ends, and there is none when it is `None`. */
  ghost predicate IsDerivedEnd(s: seq<byte>, upper: nat, i: nat, scope: Scope, end: Option<nat>)
    requires upper <= |s|
  {
    match end
    case Some(j) => exists xs :: BodyAt(xs, s, upper, i, scope, j)
    case None => forall xs, j :: !BodyAt(xs, s, upper, i, scope, j)
  }

  ghost predicate IsDerivedWordEnd(s: seq<byte>, upper: nat, i: nat, end: Option<nat>)
    requires upper <= |s|
  {
    match end
    case Some(j) => exists xs :: WordAt(xs, s, upper, i, j)
    case None => forall xs, j :: !WordAt(xs, s, upper, i, j)
  }

  lemma ConstructScanMeaning(s: seq<byte>, upper: nat, i: nat, scope: Scope)
    requires upper <= |s| && !scope.Word?
    ensures IsDerivedEnd(s, upper, i, scope, Scan(s, upper, i, 1, Bare, scope))
  {
    hide Scan;
    var end := Scan(s, upper, i, 1, Bare, scope);
    if end.Some? {
      ConstructScanIffDerived(s, upper, i, scope, end.value);
    } else {
      forall xs, j ensures !BodyAt(xs, s, upper, i, scope, j) {
        ConstructScanIffDerived(s, upper, i, scope, j);
      }
    }
  }

  lemma WordScanMeaning(s: seq<byte>, upper: nat, i: nat)
    requires i <= upper <= |s|
    ensures IsDerivedWordEnd(s, upper, i, Scan(s, upper, i, 1, Bare, Word))
  {
    hide Scan;
    var end := Scan(s, upper, i, 1, Bare, Word);
    if end.Some? {
      WordScanIffDerived(s, upper, i, end.value);
    } else {
      forall xs, j ensures !WordAt(xs, s, upper, i, j) {
        WordScanIffDerived(s, upper, i, j);
      }
    }
  }

  /** Derivations from one start agree on where the construct ends. */
  lemma ConstructEndIsUnique(s: seq<byte>, upper: nat, i: nat, scope: Scope, xs: Items, ys: Items, j: nat, k: nat)
    requires upper <= |s| && !scope.Word?
    requires BodyAt(xs, s, upper, i, scope, j) && BodyAt(ys, s, upper, i, scope, k)
    ensures j == k && i < j <= upper
  {
    ConstructBodyIsScanned(xs, s, upper, i, scope, j);
    ConstructBodyIsScanned(ys, s, upper, i, scope, k);
  }
}
