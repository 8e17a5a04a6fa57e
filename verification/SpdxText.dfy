/** Licence expressions as text: splitting into tokens, and the declared value. */
module SpdxText {
  import opened Spdx
  import Utf8

  predicate IsWordChar(c: char) {
    'A' <= c <= 'Z' || 'a' <= c <= 'z' || '0' <= c <= '9' || c == '.' || c == '+' || c == '-'
  }

  predicate IsParen(c: char) {
    c == '(' || c == ')'
  }

  predicate IsTokenChar(c: char) {
    IsWordChar(c) || IsParen(c)
  }

  /** The characters that the regular-expression class for white space matches in text. */
  predicate IsSpace(c: char) {
    var n := c as int;
    || 0x09 <= n <= 0x0D || 0x1C <= n <= 0x20 || n == 0x85 || n == 0xA0 || n == 0x1680
    || 0x2000 <= n <= 0x200A || n == 0x2028 || n == 0x2029 || n == 0x202F || n == 0x205F || n == 0x3000
  }

  /** The end of the longest run of word characters from `i` on. */
  function WordEnd(value: string, i: nat): (end: nat)
    requires i <= |value|
    ensures i <= end <= |value|
    ensures forall k :: i <= k < end ==> IsWordChar(value[k])
    ensures end < |value| ==> !IsWordChar(value[end])
    decreases |value| - i
  {
    if i < |value| && IsWordChar(value[i]) then WordEnd(value, i + 1) else i
  }

  /** All tokens from `i` on; characters that are in no token are skipped. */
  function FindAll(value: string, i: nat): seq<Token>
    requires i <= |value|
    decreases |value| - i
  {
    if i == |value| then []
    else if IsWordChar(value[i]) then [value[i..WordEnd(value, i)]] + FindAll(value, WordEnd(value, i))
    else if IsParen(value[i]) then [[value[i]]] + FindAll(value, i + 1)
    else FindAll(value, i + 1)
  }

  function Joined(tokens: seq<Token>): string {
    if tokens == [] then "" else tokens[0] + Joined(tokens[1..])
  }

  function WithoutSpace(value: string): string {
    if value == "" then "" else (if IsSpace(value[0]) then "" else [value[0]]) + WithoutSpace(value[1..])
  }

  function Declared(ids: Identifiers, value: string): string {
    if Joined(FindAll(value, 0)) == WithoutSpace(value) && Accepts(ids, FindAll(value, 0)) then value
    else NOASSERTION
  }

  method SpdxDeclared(ids: Identifiers, value: string) returns (declared: string)
    ensures declared == Declared(ids, value)
  {
    var tokens := FindAll(value, 0);
    if Joined(tokens) != WithoutSpace(value) {
      return NOASSERTION;
    }
    var recognizer := new Recognizer(ids, tokens);
    var ok := recognizer.Expression(0);
    return if ok && recognizer.position == |tokens| then value else NOASSERTION;
  }

  // The comparison with the text without white space

  /** The characters of `value` that are in tokens. */
  function TokenChars(value: string): string {
    if value == "" then "" else (if IsTokenChar(value[0]) then [value[0]] else "") + TokenChars(value[1..])
  }

  lemma {:induction false} TokenCharsOfWord(value: string, i: nat)
    requires i <= |value|
    ensures TokenChars(value[i..]) == value[i..WordEnd(value, i)] + TokenChars(value[WordEnd(value, i)..])
    decreases |value| - i
  {
    if i < |value| && IsWordChar(value[i]) {
      TokenCharsOfWord(value, i + 1);
      assert value[i..][1..] == value[i + 1..];
      assert value[i..WordEnd(value, i)] == [value[i]] + value[i + 1..WordEnd(value, i)];
    }
  }

  lemma {:induction false} TokensHoldTheirChars(value: string, i: nat)
    requires i <= |value|
    ensures Joined(FindAll(value, i)) == TokenChars(value[i..])
    decreases |value| - i
  {
    if i < |value| {
      assert value[i..][1..] == value[i + 1..];
      if IsWordChar(value[i]) {
        TokensHoldTheirChars(value, WordEnd(value, i));
        TokenCharsOfWord(value, i);
      } else {
        TokensHoldTheirChars(value, i + 1);
      }
    }
  }

  /** Tokens drop a visible character exactly when they are shorter than the text without white space. */
  lemma {:induction false} TokenCharsAreVisible(value: string)
    ensures |TokenChars(value)| <= |WithoutSpace(value)|
    ensures TokenChars(value) == WithoutSpace(value) <==> forall c :: c in value ==> IsTokenChar(c) || IsSpace(c)
    ensures |TokenChars(value)| == |WithoutSpace(value)| ==> TokenChars(value) == WithoutSpace(value)
  {
    if value != "" {
      var rest := value[1..];
      TokenCharsAreVisible(rest);
      assert forall c :: c in value <==> c == value[0] || c in rest;
    }
  }

  /** Letters, digits, three marks and parentheses. */
  predicate IsLicenseChar(c: char) {
    || 'a' <= c <= 'z' || 'A' <= c <= 'Z' || '0' <= c <= '9'
    || c in {'.', '+', '-', '(', ')'}
  }

  /** White space is that of Unicode and four control characters that separate information. */
  lemma SpacesAreWhitespace(c: char)
    ensures IsSpace(c) <==> Utf8.IsWhitespace(c as int) || 0x1C <= c as int <= 0x1F
  {
  }

  /** Every token is a word or a parenthesis. */
  lemma {:induction false} FoundAreTokens(value: string, i: nat)
    requires i <= |value|
    ensures forall t :: t in FindAll(value, i) ==> IsToken(t)
    decreases |value| - i
  {
    if i < |value| {
      if IsWordChar(value[i]) {
        FoundAreTokens(value, WordEnd(value, i));
      } else {
        FoundAreTokens(value, i + 1);
      }
    }
  }

  /** A value is declared as it is exactly when it is spaced-out tokens that print a tree of the grammar. */
  lemma DeclaredIff(ids: Identifiers, value: string)
    requires value != NOASSERTION
    ensures Declared(ids, value) == value <==>
            && (forall c :: c in value ==> IsLicenseChar(c) || IsSpace(c))
            && exists e :: IsExpr(ids, e) && Depth(e) <= 32 && Printed(e) == FindAll(value, 0)
  {
    assert forall c :: IsTokenChar(c) <==> IsLicenseChar(c);
    TokensHoldTheirChars(value, 0);
    assert value[0..] == value;
    TokenCharsAreVisible(value);
    AcceptsIffPrinted(ids, FindAll(value, 0));
  }

  // Printed trees as text

  /** The tokens with a space behind each. */
  function Spaced(tokens: seq<Token>): string {
    if tokens == [] then "" else tokens[0] + [' '] + Spaced(tokens[1..])
  }

  predicate IsWord(t: Token) {
    t != "" && forall k :: 0 <= k < |t| ==> IsWordChar(t[k])
  }

  predicate IsToken(t: Token) {
    IsWord(t) || t == OPEN || t == CLOSE
  }

  ghost predicate AreWords(ids: Identifiers) {
    forall t :: t in ids.licenses || t in ids.exceptions ==> IsWord(t)
  }

  /** A token with a space behind it is found as it is. */
  lemma SpacedTokenIsFound(value: string, i: nat, t: Token)
    requires IsToken(t) && i + |t| < |value| && value[i..i + |t|] == t && value[i + |t|] == ' '
    ensures FindAll(value, i) == [t] + FindAll(value, i + |t| + 1)
  {
    if IsWord(t) {
      forall k | i <= k < i + |t|
        ensures IsWordChar(value[k])
      {
        assert value[k] == t[k - i];
      }
      WordEndsAt(value, i, i + |t|);
    }
  }

  /** Splitting undoes spacing. */
  lemma {:induction false} SpacedIsSplit(before: string, tokens: seq<Token>)
    requires forall k :: 0 <= k < |tokens| ==> IsToken(tokens[k])
    ensures FindAll(before + Spaced(tokens), |before|) == tokens
    decreases |tokens|
  {
    hide IsToken, WordEnd;
    if tokens != [] {
      var next := before + tokens[0] + [' '];
      assert before + Spaced(tokens) == next + Spaced(tokens[1..]);
      SpacedIsSplit(next, tokens[1..]);
      SpacedTokenIsFound(next + Spaced(tokens[1..]), |before|, tokens[0]);
    }
  }

  lemma {:induction false} WordEndsAt(value: string, i: nat, end: nat)
    requires i <= end < |value| && !IsWordChar(value[end])
    requires forall k :: i <= k < end ==> IsWordChar(value[k])
    ensures WordEnd(value, i) == end
    decreases end - i
  {
    if i < end {
      WordEndsAt(value, i + 1, end);
    }
  }

  lemma {:induction false} SpacedHasNoOtherChars(tokens: seq<Token>)
    requires forall k :: 0 <= k < |tokens| ==> IsToken(tokens[k])
    ensures forall c :: c in Spaced(tokens) ==> IsTokenChar(c) || IsSpace(c)
  {
    if tokens != [] {
      SpacedHasNoOtherChars(tokens[1..]);
    }
  }

  lemma {:induction false} PrintedAreTokens(ids: Identifiers, e: Expr)
    requires AreWords(ids) && IsExpr(ids, e)
    ensures forall t :: t in Printed(e) ==> IsToken(t)
    decreases e
  {
    match e.atom {
      case Group(inner) => PrintedAreTokens(ids, inner);
      case _ =>
    }
    if e.Chain? {
      PrintedAreTokens(ids, e.rest);
    }
  }

  /** Every tree of the grammar, nested at most 32 deep and written out with spaces, is declared as it is. */
  lemma PrintedTreeIsDeclared(ids: Identifiers, e: Expr)
    requires AreWords(ids) && IsExpr(ids, e) && Depth(e) <= 32
    ensures Declared(ids, Spaced(Printed(e))) == Spaced(Printed(e))
  {
    var tokens := Printed(e);
    PrintedAreTokens(ids, e);
    SpacedIsSplit("", tokens);
    SpacedHasNoOtherChars(tokens);
    assert "" + Spaced(tokens) == Spaced(tokens);
    if Spaced(tokens) != NOASSERTION {
      assert forall c :: IsTokenChar(c) <==> IsLicenseChar(c);
      DeclaredIff(ids, Spaced(tokens));
    }
  }
}
