/**
 What every byte means to the scan of a word or construct, spelled out in bytes: which of them open a nested
 construct and of what kind, and how the scan goes on behind it.
 */
module ShellOpeners {
  import opened OptionalValues
  import opened ShellGrammar
  import opened Utf8

  /** Byte `i` is `b`, and the byte behind it in the text is `next`. */
  predicate IsPair(s: seq<byte>, i: nat, b: char, next: char) {
    i + 1 < |s| && s[i] == b as int && s[i + 1] == next as int
  }

  /** A construct that is delimited by these two characters. */
  function Delimited(open: char, close: char): Scope
    requires open < 128 as char && close < 128 as char
  {
    Construct(open as int, close as int)
  }

  /**
   The result `end` of a scan goes on behind the nested construct whose body is at `start`: exactly where the
   derivation of that body ends, and nowhere if there is none.
   */
  ghost predicate GoesOnBehind(
      s: seq<byte>, upper: nat, start: nat, inner: Scope, depth: nat, mode: Mode, scope: Scope, end: Option<nat>)
    requires upper <= |s| && 0 < depth && !inner.Word?
  {
    forall nested :: IsDerivedEnd(s, upper, start, inner, nested) ==>
      end == if nested.None? then None else Scan(s, upper, nested.value, depth, mode, scope)
  }

  /** The body at `start` has one end, which is where the scan of it ends. */
  lemma DerivedEndIsScanned(s: seq<byte>, upper: nat, start: nat, inner: Scope, nested: Option<nat>)
    requires upper <= |s| && !inner.Word? && IsDerivedEnd(s, upper, start, inner, nested)
    ensures nested == Scan(s, upper, start, 1, Bare, inner)
  {
    hide Scan;
    var scanned := Scan(s, upper, start, 1, Bare, inner);
    if nested.Some? {
      ConstructScanIffDerived(s, upper, start, inner, nested.value);
    } else if scanned.Some? {
      ConstructScanIffDerived(s, upper, start, inner, scanned.value);
    }
  }

  lemma ScanGoesOnBehind(
      s: seq<byte>, upper: nat, i: nat, start: nat, inner: Scope, depth: nat, mode: Mode, scope: Scope)
    requires i < upper <= |s| && 0 < depth && !inner.Word?
    requires MoveAt(s, upper, i, depth, mode, scope) == Descend(start, inner)
    ensures GoesOnBehind(s, upper, start, inner, depth, mode, scope, Scan(s, upper, i, depth, mode, scope))
  {
    DescentIsScanned(s, upper, i, depth, mode, scope, start, inner);
    hide Scan, IsDerivedEnd;
    forall nested | IsDerivedEnd(s, upper, start, inner, nested)
      ensures nested == Scan(s, upper, start, 1, Bare, inner)
    {
      DerivedEndIsScanned(s, upper, start, inner, nested);
    }
  }

  /** Byte `i` opens a nested construct, outside single quotes: what is nested there, and where its body starts. */
  predicate Opens(s: seq<byte>, i: nat, mode: Mode, start: nat, inner: Scope)
    requires i < |s|
  {
    || (IsPair(s, i, '$', '(') && start == i + 2 && inner == Delimited('(', ')'))
    || (IsPair(s, i, '$', '{') && start == i + 2 && inner == Delimited('{', '}'))
    || (mode.Bare? && (IsPair(s, i, '<', '(') || IsPair(s, i, '>', '('))
        && start == i + 2 && inner == Delimited('(', ')'))
    || (s[i] == '`' as int && start == i + 1 && inner == Legacy)
  }

  /** In a word or a delimited construct, an opener makes the scan go on behind what it opens. */
  lemma OpenersNest(s: seq<byte>, upper: nat, i: nat, start: nat, inner: Scope, depth: nat, mode: Mode, scope: Scope)
    requires i < upper <= |s| && 0 < depth && !mode.InSingle? && !scope.Legacy?
    requires Opens(s, i, mode, start, inner)
    ensures GoesOnBehind(s, upper, start, inner, depth, mode, scope, Scan(s, upper, i, depth, mode, scope))
  {
    ScanGoesOnBehind(s, upper, i, start, inner, depth, mode, scope);
  }

  /** How the scan goes on when nothing is nested at `i`: after an escape, a quote, a delimiter or a character. */
  ghost predicate GoesOnFlat(
      s: seq<byte>, upper: nat, i: nat, depth: nat, mode: Mode, scope: Scope, end: Option<nat>)
    requires i < upper <= |s| && 0 < depth
  {
    var b := s[i];
    if mode.InSingle? then end == Scan(s, upper, i + 1, depth, if b == '\'' as int then Bare else InSingle, scope)
    else if b == '\\' as int then end == Scan(s, upper, i + EscapeWidth(s, upper, i), depth, mode, scope)
    else if scope.Word? && mode.Bare? && b in {0x20, 0x09, 0x0A, 0x0C, 0x0D} then end == Some(i)
    else if b == '\'' as int && mode.Bare? then end == Scan(s, upper, i + 1, depth, InSingle, scope)
    else if b == '"' as int then end == Scan(s, upper, i + 1, depth, if mode.Bare? then InDouble else Bare, scope)
    else if scope.Legacy? && b == '`' as int && mode.Bare? then
      end == if depth == 1 then Some(i + 1) else Scan(s, upper, i + 1, depth - 1, mode, scope)
    else if scope.Construct? && b == scope.open && mode.Bare? then
      end == Scan(s, upper, i + 1, depth + 1, mode, scope)
    else if scope.Construct? && b == scope.close && mode.Bare? then
      end == if depth == 1 then Some(i + 1) else Scan(s, upper, i + 1, depth - 1, mode, scope)
    else end == Scan(s, upper, i + OrdinaryWidth(s, upper, i), depth, mode, scope)
  }

  /** No other byte nests, and inside single quotes and backticks none does. */
  lemma OtherBytesDoNotNest(s: seq<byte>, upper: nat, i: nat, depth: nat, mode: Mode, scope: Scope)
    requires i < upper <= |s| && 0 < depth
    requires mode.InSingle? || scope.Legacy? || forall start, inner :: !Opens(s, i, mode, start, inner)
    ensures GoesOnFlat(s, upper, i, depth, mode, scope, Scan(s, upper, i, depth, mode, scope))
  {
    hide Scan, EscapeWidth, OrdinaryWidth;
    if !mode.InSingle? && !scope.Legacy? {
      assert !Opens(s, i, mode, i + 2, Delimited('(', ')')) && !Opens(s, i, mode, i + 2, Delimited('{', '}'));
      assert !Opens(s, i, mode, i + 1, Legacy);
    }
    var m := MoveAt(s, upper, i, depth, mode, scope);
    if m.Read? {
      ReadIsScanned(s, upper, i, depth, mode, scope, m);
    } else {
      FinishIsScanned(s, upper, i, depth, mode, scope);
    }
  }

  /** At the bound a word ends, if no quote is open, and a construct has no end. */
  lemma ScanEndsAtBound(s: seq<byte>, upper: nat, i: nat, depth: nat, mode: Mode, scope: Scope)
    requires upper <= |s| && upper <= i && 0 < depth
    ensures Scan(s, upper, i, depth, mode, scope) == if scope.Word? && mode.Bare? then Some(i) else None
  {
    FinishIsScanned(s, upper, i, depth, mode, scope);
  }

  /** An escape is a backslash and one character, and an ordinary character ends at the next boundary. */
  lemma WidthsAreCharacters(s: seq<byte>, upper: nat, i: nat)
    requires ValidUtf8(s) && i < upper <= |s| && IsBoundary(s, i) && IsBoundary(s, upper)
    ensures var next := i + OrdinaryWidth(s, upper, i);
      IsBoundary(s, next) && forall k :: i < k < next ==> !IsBoundary(s, k)
    ensures s[i] == '\\' as int ==>
              var next := i + EscapeWidth(s, upper, i);
              && IsBoundary(s, next)
              && (i + 1 == upper ==> next == upper)
              && (i + 1 < upper ==> i + 1 < next && forall k :: i + 1 < k < next ==> !IsBoundary(s, k))
  {
    BoundaryStep(s, i);
    NoBoundaryInside(s, i, upper);
    if s[i] == '\\' as int && i + 1 < upper {
      BoundaryStep(s, i + 1);
      NoBoundaryInside(s, i + 1, upper);
    }
  }

  const PARAMETER_WORD: seq<byte> := [
    '$' as int, '{' as int, 'x' as int, ':' as int, '-' as int, 'a' as int, ' ' as int, 'b' as int, '}' as int
  ]

  /** The word `${x:-a b}`: the blank inside the braces does not end it. */
  lemma ParameterKeepsBlank()
    ensures IsDerivedWordEnd(PARAMETER_WORD, 9, 0, Some(9))
  {
    var s := PARAMETER_WORD;
    var body := Cons(Plain, 3, Cons(Plain, 4, Cons(Plain, 5, Cons(Plain, 6, Cons(Plain, 7, Cons(Plain, 8, Nil))))));
    assert ItemsAt(body, s, 9, 2, 8, false, BRACES);
    assert WordAt(Cons(Nested(Parameter, body), 9, Nil), s, 9, 0, 9);
  }
}
