/**
 The cache key of resolved format settings: the byte stream tells any two of them apart.
 */
module FormatSettings {
  import opened CacheKey
  import opened Utf8

  datatype Dialect = Auto | Bash | Posix | Mksh | Zsh

  datatype IndentStyle = Space | Tab

  datatype Options = Options(
    dialect: Dialect,
    indentStyle: IndentStyle,
    indentWidth: byte,
    binaryNextLine: bool,
    switchCaseIndent: bool,
    spaceRedirects: bool,
    keepPadding: bool,
    functionNextLine: bool,
    neverSplit: bool,
    simplify: bool,
    minify: bool)

  datatype EffectivePerFileShell = EffectivePerFileShell(pattern: seq<byte>, shell: seq<byte>)

  /** What the cache key reads of resolved settings. */
  datatype Settings = Settings(
    options: Options,
    patterns: seq<seq<byte>>,
    perFileShell: seq<EffectivePerFileShell>)

  const TAG: seq<byte> :=
    [0x65, 0x66, 0x66, 0x65, 0x63, 0x74, 0x69, 0x76, 0x65, 0x2D, 0x66, 0x6F, 0x72, 0x6D, 0x61, 0x74, 0x2D,
     0x73, 0x65, 0x74, 0x74, 0x69, 0x6E, 0x67, 0x73]

  function ShellDialectKey(d: Dialect): byte {
    match d
    case Auto => 0
    case Bash => 1
    case Posix => 2
    case Mksh => 3
    case Zsh => 4
  }

  function IndentStyleKey(s: IndentStyle): byte {
    if s.Space? then 0 else 1
  }

  // Lengths that fit the 64-bit length prefix

  predicate Fits<T>(s: seq<T>) {
    |s| < Capacity(LENGTH_WIDTH)
  }

  predicate IsWritable(s: Settings) {
    && Fits(s.patterns) && (forall p :: p in s.patterns ==> Fits(p))
    && Fits(s.perFileShell) && (forall e :: e in s.perFileShell ==> Fits(e.pattern) && Fits(e.shell))
  }

  // The stream, as one structured value

  const HEAD := Pair(Unsigned(1), Pair(Unsigned(1), Unsigned(1)))
  const FLAGS2 := Pair(Bool, Bool)
  const FLAGS4 := Pair(FLAGS2, FLAGS2)
  const FLAGS8 := Pair(FLAGS4, FLAGS4)
  const PATTERNS := List(Text)
  const SHELLS := List(Pair(Text, Text))

  lemma OneByte(n: byte)
    ensures Capacity(1) == 0x100 && HasShape(Number(n), Unsigned(1))
  {
  }

  function HeadValue(o: Options): (v: Value)
    ensures HasShape(v, HEAD)
  {
    OneByte(0);
    Both(Number(ShellDialectKey(o.dialect)), Both(Number(IndentStyleKey(o.indentStyle)), Number(o.indentWidth)))
  }

  function Flags2(a: bool, b: bool): (v: Value)
    ensures HasShape(v, FLAGS2)
  {
    Both(Flag(a), Flag(b))
  }

  function Flags4(a: bool, b: bool, c: bool, d: bool): (v: Value)
    ensures HasShape(v, FLAGS4)
  {
    Both(Flags2(a, b), Flags2(c, d))
  }

  function FlagsValue(o: Options): (v: Value)
    ensures HasShape(v, FLAGS8)
  {
    Both(Flags4(o.binaryNextLine, o.switchCaseIndent, o.spaceRedirects, o.keepPadding),
         Flags4(o.functionNextLine, o.neverSplit, o.simplify, o.minify))
  }

  function PatternsValue(patterns: seq<seq<byte>>): Value {
    Elements(seq(|patterns|, i requires 0 <= i < |patterns| => Bytes(patterns[i])))
  }

  function PerFileValue(e: EffectivePerFileShell): Value {
    Both(Bytes(e.pattern), Bytes(e.shell))
  }

  function ShellsValue(entries: seq<EffectivePerFileShell>): Value {
    Elements(seq(|entries|, i requires 0 <= i < |entries| => PerFileValue(entries[i])))
  }

  lemma ListsHaveShape(s: Settings)
    requires IsWritable(s)
    ensures HasShape(PatternsValue(s.patterns), PATTERNS)
    ensures HasShape(ShellsValue(s.perFileShell), SHELLS)
  {
    hide Capacity;
    forall w | w in PatternsValue(s.patterns).values ensures HasShape(w, Text) {
      var i :| 0 <= i < |s.patterns| && w == Bytes(s.patterns[i]);
      assert s.patterns[i] in s.patterns;
    }
    forall w | w in ShellsValue(s.perFileShell).values ensures HasShape(w, Pair(Text, Text)) {
      var i :| 0 <= i < |s.perFileShell| && w == PerFileValue(s.perFileShell[i]);
      assert s.perFileShell[i] in s.perFileShell;
    }
  }

  lemma TagHasShape()
    ensures HasShape(Bytes(TAG), Text)
  {
  }

  const OPTIONS := Pair(HEAD, FLAGS8)
  const LISTS := Pair(PATTERNS, SHELLS)
  const SETTINGS := Pair(Text, Pair(OPTIONS, LISTS))

  function OptionsValue(o: Options): (v: Value)
    ensures HasShape(v, OPTIONS)
  {
    Both(HeadValue(o), FlagsValue(o))
  }

  function ListsValue(s: Settings): (v: Value)
    requires IsWritable(s)
    ensures HasShape(v, LISTS)
  {
    ListsHaveShape(s);
    Both(PatternsValue(s.patterns), ShellsValue(s.perFileShell))
  }

  /** The tag, the options, then both lists. */
  function SettingsValue(s: Settings): (v: Value)
    requires IsWritable(s)
    ensures HasShape(v, SETTINGS)
  {
    TagHasShape();
    Both(Bytes(TAG), Both(OptionsValue(s.options), ListsValue(s)))
  }

  lemma OptionsAreInjective(a: Options, b: Options)
    requires OptionsValue(a) == OptionsValue(b)
    ensures a == b
  {
    assert HeadValue(a) == HeadValue(b) && FlagsValue(a) == FlagsValue(b);
  }

  lemma PatternsAreInjective(a: seq<seq<byte>>, b: seq<seq<byte>>)
    requires PatternsValue(a) == PatternsValue(b)
    ensures a == b
  {
    var v, w := PatternsValue(a).values, PatternsValue(b).values;
    assert |v| == |a| && |w| == |b|;
    assert forall i :: 0 <= i < |a| ==> v[i] == w[i] && v[i].bytes == a[i] && w[i].bytes == b[i];
  }

  lemma ShellsAreInjective(a: seq<EffectivePerFileShell>, b: seq<EffectivePerFileShell>)
    requires ShellsValue(a) == ShellsValue(b)
    ensures a == b
  {
    var v, w := ShellsValue(a).values, ShellsValue(b).values;
    assert |v| == |a| && |w| == |b|;
    forall i | 0 <= i < |a| ensures a[i] == b[i] {
      assert v[i] == w[i] && v[i] == PerFileValue(a[i]) && w[i] == PerFileValue(b[i]);
    }
  }

  /** The bytes that the settings write. */
  function SettingsStream(s: Settings): seq<byte>
    requires IsWritable(s)
  {
    Encode(SettingsValue(s), SETTINGS)
  }

  /** Two settings write one stream, whatever follows it, only if they are equal in every part. */
  lemma EqualStreamsMeanEqualSettings(a: Settings, b: Settings, s: seq<byte>, t: seq<byte>)
    requires IsWritable(a) && IsWritable(b)
    requires SettingsStream(a) + s == SettingsStream(b) + t
    ensures a == b && s == t
  {
    hide HasShape, Encode, OptionsValue, PatternsValue, ShellsValue;
    EncodingIsUniquelyDecodable(SETTINGS, SettingsValue(a), SettingsValue(b), s, t);
    assert ListsValue(a) == ListsValue(b);
    OptionsAreInjective(a.options, b.options);
    PatternsAreInjective(a.patterns, b.patterns);
    ShellsAreInjective(a.perFileShell, b.perFileShell);
  }

  method WriteFlags4(state: CacheKeyHasher, a: bool, b: bool, c: bool, d: bool)
    modifies state
    ensures state.stream == old(state.stream) + Encode(Flags4(a, b, c, d), FLAGS4)
  {
    hide HasShape;
    ghost var start := state.stream;
    state.WriteBool(a);
    state.WriteBool(b);
    assert state.stream == start + Encode(Flags2(a, b), FLAGS2);
    ghost var middle := state.stream;
    state.WriteBool(c);
    state.WriteBool(d);
    assert state.stream == middle + Encode(Flags2(c, d), FLAGS2);
  }

  method WriteHead(state: CacheKeyHasher, o: Options)
    modifies state
    ensures state.stream == old(state.stream) + Encode(HeadValue(o), HEAD)
  {
    hide HasShape, LittleEndian, Capacity;
    OneByte(0);
    var dialect, style := ShellDialectKey(o.dialect), IndentStyleKey(o.indentStyle);
    hide ShellDialectKey, IndentStyleKey;
    state.WriteUnsigned(dialect, 1);
    state.WriteUnsigned(style, 1);
    state.WriteUnsigned(o.indentWidth, 1);
    OneByte(dialect);
    OneByte(style);
    OneByte(o.indentWidth);
    EncodeBoth(Number(style), Unsigned(1), Number(o.indentWidth), Unsigned(1));
    var rest := Both(Number(style), Number(o.indentWidth));
    EncodeBoth(Number(dialect), Unsigned(1), rest, Pair(Unsigned(1), Unsigned(1)));
  }

  method WriteOptions(state: CacheKeyHasher, o: Options)
    modifies state
    ensures state.stream == old(state.stream) + Encode(OptionsValue(o), OPTIONS)
  {
    hide HasShape, HeadValue, Flags4, Encode;
    var left := Flags4(o.binaryNextLine, o.switchCaseIndent, o.spaceRedirects, o.keepPadding);
    var right := Flags4(o.functionNextLine, o.neverSplit, o.simplify, o.minify);
    WriteHead(state, o);
    WriteFlags4(state, o.binaryNextLine, o.switchCaseIndent, o.spaceRedirects, o.keepPadding);
    WriteFlags4(state, o.functionNextLine, o.neverSplit, o.simplify, o.minify);
    EncodeOptions(o, left, right);
  }

  lemma EncodeOptions(o: Options, left: Value, right: Value)
    requires HasShape(left, FLAGS4) && HasShape(right, FLAGS4) && FlagsValue(o) == Both(left, right)
    ensures Encode(OptionsValue(o), OPTIONS)
            == Encode(HeadValue(o), HEAD) + (Encode(left, FLAGS4) + Encode(right, FLAGS4))
  {
    hide HasShape, HeadValue, Flags4, Encode;
    EncodeBoth(left, FLAGS4, right, FLAGS4);
    EncodeBoth(HeadValue(o), HEAD, FlagsValue(o), FLAGS8);
  }

  method WriteCacheKey(state: CacheKeyHasher, s: Settings)
    requires IsWritable(s)
    modifies state
    ensures state.stream == old(state.stream) + SettingsStream(s)
  {
    hide HasShape, OptionsValue, PatternsValue, ShellsValue, LittleEndian, EncodeAll;
    ListsHaveShape(s);
    TagHasShape();
    state.WriteBytes(TAG);
    WriteOptions(state, s.options);
    ghost var middle := state.stream;
    state.WriteValue(PatternsValue(s.patterns), PATTERNS);
    state.WriteValue(ShellsValue(s.perFileShell), SHELLS);
    assert state.stream == middle + Encode(ListsValue(s), LISTS);
    ghost var options, lists := Encode(OptionsValue(s.options), OPTIONS), Encode(ListsValue(s), LISTS);
    EncodeBoth(OptionsValue(s.options), OPTIONS, ListsValue(s), LISTS);
    EncodeBoth(Bytes(TAG), Text, Both(OptionsValue(s.options), ListsValue(s)), Pair(OPTIONS, LISTS));
    assert SettingsStream(s) == Encode(Bytes(TAG), Text) + (options + lists);
  }

  // Per-file shells

  datatype LinterShell = UnknownShell | Sh | BashShell | Dash | Ksh | MkshShell | ZshShell

  datatype PerFileShell = PerFileShell(pattern: seq<byte>, shell: LinterShell)

  function ShellName(shell: LinterShell): seq<byte> {
    match shell
    case UnknownShell => [0x75, 0x6E, 0x6B, 0x6E, 0x6F, 0x77, 0x6E]
    case Sh => [0x73, 0x68]
    case BashShell => [0x62, 0x61, 0x73, 0x68]
    case Dash => [0x64, 0x61, 0x73, 0x68]
    case Ksh => [0x6B, 0x73, 0x68]
    case MkshShell => [0x6D, 0x6B, 0x73, 0x68]
    case ZshShell => [0x7A, 0x73, 0x68]
  }

  lemma ShellNameIsInjective(a: LinterShell, b: LinterShell)
    requires ShellName(a) == ShellName(b)
    ensures a == b
  {
    assert |ShellName(a)| == |ShellName(b)| && ShellName(a)[0] == ShellName(b)[0];
  }

  /** The names, spelled out. */
  function NameText(shell: LinterShell): string {
    match shell
    case UnknownShell => "unknown"
    case Sh => "sh"
    case BashShell => "bash"
    case Dash => "dash"
    case Ksh => "ksh"
    case MkshShell => "mksh"
    case ZshShell => "zsh"
  }

  lemma ShellNamesAreText(shell: LinterShell)
    ensures |ShellName(shell)| == |NameText(shell)|
    ensures forall i :: 0 <= i < |ShellName(shell)| ==> NameText(shell)[i] as int == ShellName(shell)[i]
  {
  }

  function EffectiveShells(entries: seq<PerFileShell>): seq<EffectivePerFileShell> {
    seq(|entries|, i requires 0 <= i < |entries| =>
      EffectivePerFileShell(entries[i].pattern, ShellName(entries[i].shell)))
  }

  /** The names in the key tell the configured shells apart. */
  lemma EffectiveShellsAreInjective(a: seq<PerFileShell>, b: seq<PerFileShell>)
    requires EffectiveShells(a) == EffectiveShells(b)
    ensures a == b
  {
    assert |EffectiveShells(a)| == |EffectiveShells(b)|;
    forall i | 0 <= i < |a| ensures a[i] == b[i] {
      assert EffectiveShells(a)[i] == EffectiveShells(b)[i];
      ShellNameIsInjective(a[i].shell, b[i].shell);
    }
  }
}
