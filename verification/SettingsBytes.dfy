/** The bytes of the cache key of format settings, one after the other. */
module SettingsBytes {
  import opened CacheKey
  import opened FormatSettings
  import opened Utf8

  const TAG_TEXT := "effective-format-settings"

  predicate IsTag(bytes: seq<byte>) {
    |bytes| == 25 && forall i :: 0 <= i < 25 ==> TAG_TEXT[i] as int == bytes[i]
  }

  function Bit(b: bool): byte {
    if b then 1 else 0
  }

  lemma TagIsText()
    ensures IsTag(TAG)
    ensures Encode(Bytes(TAG), Text) == [25, 0, 0, 0, 0, 0, 0, 0] + TAG
  {
    LengthOfTag();
    assert |TAG_TEXT| == 25;
    assert IsTag(TAG);
  }

  lemma LengthOfTag()
    ensures LittleEndian(25, 8) == [25, 0, 0, 0, 0, 0, 0, 0]
    ensures HasShape(Bytes(TAG), Text)
  {
    assert LittleEndian(0, 4) == [0, 0, 0, 0];
    assert LittleEndian(0, 7) == [0, 0, 0] + LittleEndian(0, 4);
    TagHasShape();
  }

  lemma OneByteIsItself(n: byte)
    ensures HasShape(Number(n), Unsigned(1)) && Encode(Number(n), Unsigned(1)) == [n]
  {
    OneByte(n);
    assert LittleEndian(n / 0x100, 0) == [];
  }

  lemma HeadBytes(o: Options)
    ensures Encode(HeadValue(o), HEAD) == [
              match o.dialect { case Auto => 0 case Bash => 1 case Posix => 2 case Mksh => 3 case Zsh => 4 },
              match o.indentStyle { case Space => 0 case Tab => 1 },
              o.indentWidth]
  {
    hide HasShape, Encode;
    var dialect, style := ShellDialectKey(o.dialect), IndentStyleKey(o.indentStyle);
    OneByteIsItself(dialect);
    OneByteIsItself(style);
    OneByteIsItself(o.indentWidth);
    EncodeBoth(Number(style), Unsigned(1), Number(o.indentWidth), Unsigned(1));
    var rest := Both(Number(style), Number(o.indentWidth));
    EncodeBoth(Number(dialect), Unsigned(1), rest, Pair(Unsigned(1), Unsigned(1)));
  }

  lemma FourBits(a: bool, b: bool, c: bool, d: bool)
    ensures Encode(Flags4(a, b, c, d), FLAGS4) == [Bit(a), Bit(b), Bit(c), Bit(d)]
  {
    assert Encode(Flags2(a, b), FLAGS2) == [Bit(a), Bit(b)] && Encode(Flags2(c, d), FLAGS2) == [Bit(c), Bit(d)];
    EncodeBoth(Flags2(a, b), FLAGS2, Flags2(c, d), FLAGS2);
  }

  lemma FlagBytes(o: Options)
    ensures Encode(FlagsValue(o), FLAGS8) == [
              Bit(o.binaryNextLine), Bit(o.switchCaseIndent), Bit(o.spaceRedirects), Bit(o.keepPadding),
              Bit(o.functionNextLine), Bit(o.neverSplit), Bit(o.simplify), Bit(o.minify)]
  {
    hide HasShape, Encode, Flags4;
    var left := Flags4(o.binaryNextLine, o.switchCaseIndent, o.spaceRedirects, o.keepPadding);
    var right := Flags4(o.functionNextLine, o.neverSplit, o.simplify, o.minify);
    EncodeBoth(left, FLAGS4, right, FLAGS4);
    FourBits(o.binaryNextLine, o.switchCaseIndent, o.spaceRedirects, o.keepPadding);
    FourBits(o.functionNextLine, o.neverSplit, o.simplify, o.minify);
  }

  /** The patterns, and then the shells by pattern. */
  function ListBytes(s: Settings): seq<byte>
    requires IsWritable(s)
  {
    ListsHaveShape(s);
    Encode(PatternsValue(s.patterns), PATTERNS) + Encode(ShellsValue(s.perFileShell), SHELLS)
  }

  /**
   A settings key is the length and the text of its tag, one byte each for dialect, indentation style and indentation
   width, one byte for each of eight flags, and then both lists.
   */
  lemma SettingsAreWritten(s: Settings)
    requires IsWritable(s)
    ensures var o := s.options;
      SettingsStream(s) ==
      [25, 0, 0, 0, 0, 0, 0, 0] + TAG +
      ([match o.dialect { case Auto => 0 case Bash => 1 case Posix => 2 case Mksh => 3 case Zsh => 4 },
        match o.indentStyle { case Space => 0 case Tab => 1 },
        o.indentWidth] +
       [Bit(o.binaryNextLine), Bit(o.switchCaseIndent), Bit(o.spaceRedirects), Bit(o.keepPadding),
        Bit(o.functionNextLine), Bit(o.neverSplit), Bit(o.simplify), Bit(o.minify)] +
       ListBytes(s))
    ensures IsTag(TAG)
  {
    hide HasShape, Encode, HeadValue, FlagsValue, PatternsValue, ShellsValue;
    var o := s.options;
    TagIsText();
    TagHasShape();
    ListsHaveShape(s);
    HeadBytes(o);
    FlagBytes(o);
    EncodeBoth(PatternsValue(s.patterns), PATTERNS, ShellsValue(s.perFileShell), SHELLS);
    EncodeBoth(HeadValue(o), HEAD, FlagsValue(o), FLAGS8);
    EncodeBoth(OptionsValue(o), OPTIONS, ListsValue(s), LISTS);
    EncodeBoth(Bytes(TAG), Text, Both(OptionsValue(o), ListsValue(s)), Pair(OPTIONS, LISTS));
  }
}
