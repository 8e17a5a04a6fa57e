/**
 Shell words and their fully static text: as written, and as a decoded command name.
 */
module CommandWords {
  import CommandLiteral
  import opened OptionalValues
  import opened Utf8

  datatype Span = Span(start: nat, end: nat)

  /** A word part; every runtime expansion is an `Expansion`. */
  datatype WordPart =
    | LiteralPart(text: seq<byte>)
    | SingleQuotedPart(value: seq<byte>)
    | DoubleQuotedPart(parts: seq<WordPart>)
    | Expansion

  datatype Word = Word(parts: seq<WordPart>, span: Span)

  /** How literals are read: as plain text, or with the backslash decoding of a command name. */
  datatype Reading = AsText | AsName(context: CommandLiteral.Context)

  function ReadLiteral(text: seq<byte>, r: Reading): seq<byte> {
    if r.AsText? then text else CommandLiteral.Decode(text, r.context)
  }

  function Inner(r: Reading): Reading {
    if r.AsText? then r else AsName(CommandLiteral.DoubleQuoted)
  }

  /** The entry point, with its shortcut for a word of one part. */
  function TryParts(parts: seq<WordPart>, r: Reading): Option<seq<byte>>
    decreases parts, 1
  {
    if |parts| == 1 then TryPart(parts[0], r) else Collect(parts, r)
  }

  function TryPart(part: WordPart, r: Reading): Option<seq<byte>>
    decreases part
  {
    match part
    case LiteralPart(text) => Some(ReadLiteral(text, r))
    case SingleQuotedPart(value) => Some(value)
    case DoubleQuotedPart(parts) => TryParts(parts, Inner(r))
    case Expansion => None
  }

  /** The texts of all parts in order, or nothing when one of them expands at run time. */
  function Collect(parts: seq<WordPart>, r: Reading): Option<seq<byte>>
    decreases parts, 0
  {
    if parts == [] then Some([])
    else
      var head := CollectPart(parts[0], r);
      var tail := Collect(parts[1..], r);
      if head.None? || tail.None? then None else Some(head.value + tail.value)
  }

  function CollectPart(part: WordPart, r: Reading): Option<seq<byte>>
    decreases part
  {
    match part
    case LiteralPart(text) => Some(ReadLiteral(text, r))
    case SingleQuotedPart(value) => Some(value)
    case DoubleQuotedPart(parts) => Collect(parts, Inner(r))
    case Expansion => None
  }

  /** The shortcut gives what collecting gives. */
  lemma {:induction false} ShortcutAgrees(parts: seq<WordPart>, r: Reading)
    ensures TryParts(parts, r) == Collect(parts, r)
    decreases parts
  {
    if |parts| == 1 {
      if parts[0].DoubleQuotedPart? {
        ShortcutAgrees(parts[0].parts, Inner(r));
      }
      var head := CollectPart(parts[0], r);
      assert parts[1..] == [];
      assert head.Some? ==> head.value + [] == head.value;
    }
  }

  /** A word has a static text exactly when it has a static command name. */
  lemma {:induction false} TextAndNameGoTogether(parts: seq<WordPart>, r: Reading, q: Reading)
    ensures Collect(parts, r).Some? == Collect(parts, q).Some?
    decreases parts
  {
    if parts != [] {
      if parts[0].DoubleQuotedPart? {
        TextAndNameGoTogether(parts[0].parts, Inner(r), Inner(q));
      }
      TextAndNameGoTogether(parts[1..], r, q);
    }
  }

  /** A text without backslashes is its own command name. */
  lemma {:induction false} PlainTextIsName(parts: seq<WordPart>, r: Reading)
    requires Collect(parts, AsText).Some? && BACKSLASH !in Collect(parts, AsText).value
    ensures Collect(parts, r) == Collect(parts, AsText)
    decreases parts
  {
    if parts != [] {
      var head, tail := CollectPart(parts[0], AsText).value, Collect(parts[1..], AsText).value;
      assert Collect(parts, AsText).value == head + tail;
      assert forall k :: 0 <= k < |head| ==> head[k] == (head + tail)[k];
      assert forall k :: 0 <= k < |tail| ==> tail[k] == (head + tail)[|head| + k];
      match parts[0] {
        case LiteralPart(text) =>
          if r.AsName? {
            CommandLiteral.DecodeCopies(text, 0, |text|, r.context);
            assert text[0..|text|] + [] == text;
          }
        case DoubleQuotedPart(inner) =>
          PlainTextIsName(inner, Inner(r));
        case _ =>
      }
      PlainTextIsName(parts[1..], r);
    }
  }

  /** The collecting loop, appending to a buffer that the caller drops on failure. */
  method CollectParts(parts: seq<WordPart>, r: Reading, prefix: seq<byte>) returns (ok: bool, out: seq<byte>)
    ensures ok == Collect(parts, r).Some?
    ensures ok ==> out == prefix + Collect(parts, r).value
    decreases parts
  {
    out := prefix;
    for k := 0 to |parts|
      invariant Collect(parts, r).Some? == Collect(parts[k..], r).Some?
      invariant Collect(parts, r).Some? ==>
                  prefix + Collect(parts, r).value == out + Collect(parts[k..], r).value
    {
      assert parts[k..][1..] == parts[k + 1..];
      match parts[k] {
        case LiteralPart(text) =>
          out := out + ReadLiteral(text, r);
        case SingleQuotedPart(value) =>
          out := out + value;
        case DoubleQuotedPart(inner) =>
          var innerOk;
          innerOk, out := CollectParts(inner, Inner(r), out);
          if !innerOk { return false, out; }
        case Expansion =>
          return false, out;
      }
    }
    ok := true;
  }

  function StaticText(w: Word): Option<seq<byte>> {
    TryParts(w.parts, AsText)
  }

  function StaticCommandName(w: Word): Option<seq<byte>> {
    TryParts(w.parts, AsName(CommandLiteral.Unquoted))
  }

  lemma WordTextAndName(w: Word)
    ensures StaticText(w).Some? == StaticCommandName(w).Some?
    ensures StaticText(w).Some? && BACKSLASH !in StaticText(w).value ==> StaticCommandName(w) == StaticText(w)
  {
    ShortcutAgrees(w.parts, AsText);
    ShortcutAgrees(w.parts, AsName(CommandLiteral.Unquoted));
    TextAndNameGoTogether(w.parts, AsText, AsName(CommandLiteral.Unquoted));
    if StaticText(w).Some? && BACKSLASH !in StaticText(w).value {
      PlainTextIsName(w.parts, AsName(CommandLiteral.Unquoted));
    }
  }
}
