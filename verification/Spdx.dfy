/**
 Recognizing licence expressions: a subset of Annex D of the SPDX 2.3 specification, read by
 recursive descent with one cursor that all levels share.
 */
module Spdx {
  import opened OptionalValues

  type Token = string

  const OPEN: Token := "("
  const CLOSE: Token := ")"
  const AND: Token := "AND"
  const OR: Token := "OR"
  const WITH: Token := "WITH"
  const NOASSERTION := "NOASSERTION"

  const MAX_DEPTH := 32

  /** The licences and exceptions that may be named. */
  datatype Identifiers = Identifiers(licenses: set<Token>, exceptions: set<Token>)

  // The grammar

  datatype Expr = Only(atom: Atom) | Chain(atom: Atom, operator: Token, rest: Expr)

  datatype Atom = License(name: Token) | LicenseWith(name: Token, exception: Token) | Group(inner: Expr)

  predicate IsOperator(t: Token) {
    t == AND || t == OR
  }

  predicate IsExpr(ids: Identifiers, e: Expr) {
    IsAtom(ids, e.atom) && (e.Chain? ==> (e.operator == "AND" || e.operator == "OR") && IsExpr(ids, e.rest))
  }

  predicate IsAtom(ids: Identifiers, a: Atom) {
    match a
    case License(name) => name in ids.licenses && name != "("
    case LicenseWith(name, exception) => name in ids.licenses && name != "(" && exception in ids.exceptions
    case Group(inner) => IsExpr(ids, inner)
  }

  function Printed(e: Expr): seq<Token> {
    match e
    case Only(atom) => PrintedAtom(atom)
    case Chain(atom, operator, rest) => PrintedAtom(atom) + [operator] + Printed(rest)
  }

  function PrintedAtom(a: Atom): (tokens: seq<Token>)
    ensures tokens != []
  {
    match a
    case License(name) => [name]
    case LicenseWith(name, exception) => [name, "WITH", exception]
    case Group(inner) => ["("] + Printed(inner) + [")"]
  }

  /** How deep groups are nested. */
  function Depth(e: Expr): nat {
    match e
    case Only(atom) => AtomDepth(atom)
    case Chain(atom, _, rest) => if AtomDepth(atom) < Depth(rest) then Depth(rest) else AtomDepth(atom)
  }

  function AtomDepth(a: Atom): nat {
    if a.Group? then 1 + Depth(a.inner) else 0
  }

  // Reading by recursive descent

  /** A tree read from the tokens, and the cursor behind it. */
  datatype Parsed<T> = Failed | Parsed(tree: T, end: nat) {
    function End(): Option<nat> {
      if Parsed? then Some(end) else None
    }
  }

  function ParseAtom(ids: Identifiers, ts: seq<Token>, pos: nat, depth: nat): (r: Parsed<Atom>)
    requires pos <= |ts|
    ensures r.Parsed? ==> pos < r.end <= |ts|
    decreases |ts| - pos, 0
  {
    if depth > MAX_DEPTH || pos >= |ts| then Failed
    else if ts[pos] == OPEN then
      var inner := ParseExpr(ids, ts, pos + 1, depth + 1);
      if inner.Parsed? && inner.end < |ts| && ts[inner.end] == CLOSE then Parsed(Group(inner.tree), inner.end + 1)
      else Failed
    else if ts[pos] !in ids.licenses then Failed
    else if pos + 1 < |ts| && ts[pos + 1] == WITH then
      if pos + 2 < |ts| && ts[pos + 2] in ids.exceptions then Parsed(LicenseWith(ts[pos], ts[pos + 2]), pos + 3)
      else Failed
    else Parsed(License(ts[pos]), pos + 1)
  }

  function ParseExpr(ids: Identifiers, ts: seq<Token>, pos: nat, depth: nat): (r: Parsed<Expr>)
    requires pos <= |ts|
    ensures r.Parsed? ==> pos < r.end <= |ts|
    decreases |ts| - pos, 1
  {
    var first := ParseAtom(ids, ts, pos, depth);
    if first.Failed? then Failed
    else if first.end < |ts| && IsOperator(ts[first.end]) then
      var rest := ParseExpr(ids, ts, first.end + 1, depth);
      if rest.Failed? then Failed else Parsed(Chain(first.tree, ts[first.end], rest.tree), rest.end)
    else Parsed(Only(first.tree), first.end)
  }

  /** Where an expression ends whose last atom so far ended at `pos`. */
  function TailEnd(ids: Identifiers, ts: seq<Token>, pos: nat, depth: nat): Option<nat>
    requires pos <= |ts|
  {
    if pos < |ts| && IsOperator(ts[pos]) then ParseExpr(ids, ts, pos + 1, depth).End() else Some(pos)
  }

  /** The recognizer: `position` is the cursor that every level of the descent moves on. */
  class Recognizer {
    const ids: Identifiers
    const tokens: seq<Token>
    var position: nat

    constructor (ids: Identifiers, tokens: seq<Token>)
      ensures this.ids == ids && this.tokens == tokens && position == 0
    {
      this.ids, this.tokens, position := ids, tokens, 0;
    }

    /** False stands for the raised error. */
    method Atom(depth: nat) returns (ok: bool)
      requires position <= |tokens|
      modifies this
      ensures old(position) <= position <= |tokens|
      ensures ok ==> ParseAtom(ids, tokens, old(position), depth).End() == Some(position)
      ensures !ok ==> ParseAtom(ids, tokens, old(position), depth).Failed?
      decreases |tokens| - position, 0
    {
      if depth > MAX_DEPTH || position >= |tokens| {
        return false;
      }
      var token := tokens[position];
      position := position + 1;
      if token == OPEN {
        ok := Expression(depth + 1);
        if !ok || position >= |tokens| || tokens[position] != CLOSE {
          return false;
        }
        position := position + 1;
      } else {
        if token !in ids.licenses {
          return false;
        }
        if position < |tokens| && tokens[position] == WITH {
          position := position + 1;
          if position >= |tokens| || tokens[position] !in ids.exceptions {
            return false;
          }
          position := position + 1;
        }
      }
      return true;
    }

    method Expression(depth: nat) returns (ok: bool)
      requires position <= |tokens|
      modifies this
      ensures old(position) <= position <= |tokens|
      ensures ok ==> ParseExpr(ids, tokens, old(position), depth).End() == Some(position)
      ensures !ok ==> ParseExpr(ids, tokens, old(position), depth).Failed?
      decreases |tokens| - position, 1
    {
      ok := Atom(depth);
      if !ok {
        return;
      }
      while position < |tokens| && IsOperator(tokens[position])
        invariant old(position) < position <= |tokens|
        invariant TailEnd(ids, tokens, position, depth) == ParseExpr(ids, tokens, old(position), depth).End()
        decreases |tokens| - position
      {
        position := position + 1;
        ok := Atom(depth);
        if !ok {
          return;
        }
      }
      return true;
    }
  }

  /** Whether the recognizer takes all of the tokens. */
  predicate Accepts(ids: Identifiers, ts: seq<Token>) {
    ParseExpr(ids, ts, 0, 0).End() == Some(|ts|)
  }

  // The recognizer takes exactly the grammar

  /** What is read is in the grammar, prints as the tokens between the cursors, and is not nested too deeply. */
  lemma {:induction false} ParsedExprIsPrinted(ids: Identifiers, ts: seq<Token>, pos: nat, depth: nat)
    requires pos <= |ts| && ParseExpr(ids, ts, pos, depth).Parsed?
    ensures var r := ParseExpr(ids, ts, pos, depth);
      IsExpr(ids, r.tree) && Printed(r.tree) == ts[pos..r.end] && depth + Depth(r.tree) <= MAX_DEPTH
    decreases |ts| - pos, 1
  {
    var first := ParseAtom(ids, ts, pos, depth);
    ParsedAtomIsPrinted(ids, ts, pos, depth);
    if first.end < |ts| && IsOperator(ts[first.end]) {
      ParsedExprIsPrinted(ids, ts, first.end + 1, depth);
    }
  }

  lemma {:induction false} ParsedAtomIsPrinted(ids: Identifiers, ts: seq<Token>, pos: nat, depth: nat)
    requires pos <= |ts| && ParseAtom(ids, ts, pos, depth).Parsed?
    ensures var r := ParseAtom(ids, ts, pos, depth);
      IsAtom(ids, r.tree) && PrintedAtom(r.tree) == ts[pos..r.end] && depth + AtomDepth(r.tree) <= MAX_DEPTH
    decreases |ts| - pos, 0
  {
    if ts[pos] == OPEN {
      ParsedExprIsPrinted(ids, ts, pos + 1, depth + 1);
    }
  }

  /** Every printed tree is read back as itself, wherever it stands, if nothing follows that could continue it. */
  lemma {:induction false} PrintedExprIsParsed(
      ids: Identifiers, before: seq<Token>, e: Expr, after: seq<Token>, depth: nat)
    requires IsExpr(ids, e) && depth + Depth(e) <= MAX_DEPTH
    requires after != [] ==> after[0] == CLOSE
    ensures ParseExpr(ids, before + Printed(e) + after, |before|, depth) == Parsed(e, |before + Printed(e)|)
    decreases e
  {
    hide ParseAtom, IsAtom, PrintedAtom, AtomDepth;
    match e {
      case Only(atom) => PrintedAtomIsParsed(ids, before, atom, after, depth);
      case Chain(atom, operator, rest) =>
        Regroup(before, PrintedAtom(atom), operator, Printed(rest), after);
        PrintedAtomIsParsed(ids, before, atom, [operator] + Printed(rest) + after, depth);
        PrintedExprIsParsed(ids, before + PrintedAtom(atom) + [operator], rest, after, depth);
    }
  }

  lemma Regroup(before: seq<Token>, first: seq<Token>, operator: Token, rest: seq<Token>, after: seq<Token>)
    ensures var ts := before + (first + [operator] + rest) + after;
      && ts == before + first + ([operator] + rest + after)
      && ts == before + first + [operator] + rest + after
      && |before + (first + [operator] + rest)| == |before + first + [operator] + rest|
      && ts[|before + first|] == operator
  {
  }

  lemma {:induction false} PrintedAtomIsParsed(
      ids: Identifiers, before: seq<Token>, a: Atom, after: seq<Token>, depth: nat)
    requires IsAtom(ids, a) && depth + AtomDepth(a) <= MAX_DEPTH
    requires after != [] ==> after[0] != WITH
    ensures ParseAtom(ids, before + PrintedAtom(a) + after, |before|, depth) == Parsed(a, |before + PrintedAtom(a)|)
    decreases a
  {
    if a.Group? {
      var ts := before + PrintedAtom(a) + after;
      assert ts == (before + [OPEN]) + Printed(a.inner) + ([CLOSE] + after);
      PrintedExprIsParsed(ids, before + [OPEN], a.inner, [CLOSE] + after, depth + 1);
    }
  }

  /** The recognizer takes a token list exactly when some tree of the grammar, nested at most 32 deep, prints as it. */
  lemma AcceptsIffPrinted(ids: Identifiers, ts: seq<Token>)
    ensures Accepts(ids, ts) <==> exists e :: IsExpr(ids, e) && Depth(e) <= 32 && Printed(e) == ts
  {
    if Accepts(ids, ts) {
      ParsedExprIsPrinted(ids, ts, 0, 0);
      assert Printed(ParseExpr(ids, ts, 0, 0).tree) == ts;
    }
    forall e | IsExpr(ids, e) && Depth(e) <= MAX_DEPTH && Printed(e) == ts
      ensures Accepts(ids, ts)
    {
      PrintedExprIsParsed(ids, [], e, [], 0);
      assert [] + Printed(e) + [] == ts;
    }
  }

  /** The grammar is unambiguous: no two of these trees print alike. */
  lemma PrintingIsInjective(ids: Identifiers, d: Expr, e: Expr)
    requires IsExpr(ids, d) && IsExpr(ids, e) && Depth(d) <= MAX_DEPTH && Depth(e) <= MAX_DEPTH
    requires Printed(d) == Printed(e)
    ensures d == e
  {
    PrintedExprIsParsed(ids, [], d, [], 0);
    PrintedExprIsParsed(ids, [], e, [], 0);
  }
}
