/**
 Structured cache keys: the byte stream that values write into the hasher, a decoder for it,
 and the unique decodability that makes equal streams mean equal values.
 */
module CacheKey {
  import opened OptionalValues
  import opened Utf8

  // Fixed-width integers

  /** 256 to the power of `width`. */
  function Capacity(width: nat): (c: nat)
    ensures 0 < c
  {
    if width == 0 then 1 else 0x100 * Capacity(width - 1)
  }

  function LittleEndian(n: nat, width: nat): (b: seq<byte>)
    ensures |b| == width
  {
    if width == 0 then [] else [n % 0x100] + LittleEndian(n / 0x100, width - 1)
  }

  function FromLittleEndian(b: seq<byte>): nat {
    if b == [] then 0 else b[0] + 0x100 * FromLittleEndian(b[1..])
  }

  lemma {:induction false} LittleEndianRoundTrip(n: nat, width: nat)
    requires n < Capacity(width)
    ensures FromLittleEndian(LittleEndian(n, width)) == n
  {
    if width != 0 {
      assert n / 0x100 < Capacity(width - 1);
      LittleEndianRoundTrip(n / 0x100, width - 1);
    }
  }

  /** Every byte weighs 256 times as much as the one before it. */
  lemma {:induction false} LaterBytesWeighMore(b: seq<byte>, last: byte)
    ensures FromLittleEndian(b + [last]) == FromLittleEndian(b) + Capacity(|b|) * last
  {
    if b == [] {
      assert b + [last] == [last] && [last][1..] == [];
    } else {
      assert (b + [last])[1..] == b[1..] + [last];
      LaterBytesWeighMore(b[1..], last);
      var c: int := Capacity(|b| - 1);
      assert 0x100 * (c * last) == (0x100 * c) * last;
    }
  }

  /** The widths in use: bytes, and lengths of 64 bits. */
  lemma CapacitiesInUse()
    ensures Capacity(1) == 0x100 && Capacity(4) == 0x1_0000_0000
    ensures Capacity(8) == 0x1_0000_0000_0000_0000
  {
  }

  // Shapes and values

  /**
   The types that implement cache keys. A map is written as the list of its pairs in key
   order, and a structure as its fields one after the other.
   */
  datatype Shape =
    | Unsigned(width: nat)
    | Bool
    | Text
    | Optional(some: Shape)
    | List(element: Shape)
    | Pair(first: Shape, second: Shape)

  datatype Value =
    | Number(n: nat)
    | Flag(b: bool)
    | Bytes(bytes: seq<byte>)
    | Nothing
    | Just(value: Value)
    | Elements(values: seq<Value>)
    | Both(left: Value, right: Value)

  const LENGTH_WIDTH := 8

  function MapShape(key: Shape, value: Shape): Shape {
    List(Pair(key, value))
  }

  predicate HasShape(v: Value, shape: Shape) {
    match (v, shape)
    case (Number(n), Unsigned(width)) => n < Capacity(width)
    case (Flag(_), Bool) => true
    case (Bytes(bytes), Text) => |bytes| < Capacity(LENGTH_WIDTH)
    case (Nothing, Optional(_)) => true
    case (Just(some), Optional(inner)) => HasShape(some, inner)
    case (Elements(values), List(element)) =>
      |values| < Capacity(LENGTH_WIDTH) && forall w :: w in values ==> HasShape(w, element)
    case (Both(left, right), Pair(first, second)) => HasShape(left, first) && HasShape(right, second)
    case _ => false
  }

  function Encode(v: Value, shape: Shape): seq<byte>
    requires HasShape(v, shape)
    decreases v, 0
  {
    match v
    case Number(n) => LittleEndian(n, shape.width)
    case Flag(b) => [if b then 1 else 0]
    case Bytes(bytes) => LittleEndian(|bytes|, LENGTH_WIDTH) + bytes
    case Nothing => [0]
    case Just(some) => [1] + Encode(some, shape.some)
    case Elements(values) => LittleEndian(|values|, LENGTH_WIDTH) + EncodeAll(values, shape.element)
    case Both(left, right) => Encode(left, shape.first) + Encode(right, shape.second)
  }

  function EncodeAll(values: seq<Value>, element: Shape): seq<byte>
    requires forall w :: w in values ==> HasShape(w, element)
    decreases values
  {
    if values == [] then [] else Encode(values[0], element) + EncodeAll(values[1..], element)
  }

  lemma EncodeBoth(left: Value, first: Shape, right: Value, second: Shape)
    requires HasShape(left, first) && HasShape(right, second)
    ensures HasShape(Both(left, right), Pair(first, second))
    ensures Encode(Both(left, right), Pair(first, second)) == Encode(left, first) + Encode(right, second)
  {
  }

  // Decoding

  /** The first `n` bytes as an integer, and the rest. */
  function TakeNumber(s: seq<byte>, width: nat): Option<(nat, seq<byte>)> {
    if |s| < width then None else Some((FromLittleEndian(s[..width]), s[width..]))
  }

  function Decode(shape: Shape, s: seq<byte>): Option<(Value, seq<byte>)>
    decreases shape, 0
  {
    match shape
    case Unsigned(width) =>
      var n := TakeNumber(s, width);
      if n.None? then None else Some((Number(n.value.0), n.value.1))
    case Bool =>
      if s == [] || 1 < s[0] then None else Some((Flag(s[0] == 1), s[1..]))
    case Text =>
      var n := TakeNumber(s, 8);
      if n.None? || |n.value.1| < n.value.0 then None
      else Some((Bytes(n.value.1[..n.value.0]), n.value.1[n.value.0..]))
    case Optional(some) =>
      if s == [] then None
      else if s[0] == 0 then Some((Nothing, s[1..]))
      else if s[0] != 1 then None
      else
        var v := Decode(some, s[1..]);
        if v.None? then None else Some((Just(v.value.0), v.value.1))
    case List(element) =>
      var n := TakeNumber(s, 8);
      if n.None? then None
      else
        var values := DecodeAll(element, n.value.0, n.value.1);
        if values.None? then None else Some((Elements(values.value.0), values.value.1))
    case Pair(first, second) =>
      var left := Decode(first, s);
      if left.None? then None
      else
        var right := Decode(second, left.value.1);
        if right.None? then None else Some((Both(left.value.0, right.value.0), right.value.1))
  }

  function DecodeAll(element: Shape, count: nat, s: seq<byte>): Option<(seq<Value>, seq<byte>)>
    decreases element, 1, count
  {
    if count == 0 then Some(([], s))
    else
      var head := Decode(element, s);
      if head.None? then None
      else
        var tail := DecodeAll(element, count - 1, head.value.1);
        if tail.None? then None else Some(([head.value.0] + tail.value.0, tail.value.1))
  }

  lemma TakeNumberWritten(n: nat, width: nat, tail: seq<byte>)
    requires n < Capacity(width)
    ensures TakeNumber(LittleEndian(n, width) + tail, width) == Some((n, tail))
  {
    LittleEndianRoundTrip(n, width);
    var s := LittleEndian(n, width) + tail;
    assert s[..width] == LittleEndian(n, width) && s[width..] == tail;
  }

  lemma ScalarRoundTrip(v: Value, shape: Shape, tail: seq<byte>)
    requires HasShape(v, shape) && (v.Number? || v.Flag? || v.Bytes? || v.Nothing?)
    ensures Decode(shape, Encode(v, shape) + tail) == Some((v, tail))
  {
    hide LittleEndian, FromLittleEndian, TakeNumber, Capacity;
    var s := Encode(v, shape) + tail;
    if v.Number? {
      TakeNumberWritten(v.n, shape.width, tail);
    } else if v.Bytes? {
      assert s == LittleEndian(|v.bytes|, LENGTH_WIDTH) + (v.bytes + tail);
      TakeNumberWritten(|v.bytes|, LENGTH_WIDTH, v.bytes + tail);
    } else {
      assert s[1..] == tail;
    }
  }

  /** Decoding reads back the value that was written, and stops exactly where it ended. */
  lemma {:induction false} DecodeReadsEncoded(v: Value, shape: Shape, tail: seq<byte>)
    requires HasShape(v, shape)
    ensures Decode(shape, Encode(v, shape) + tail) == Some((v, tail))
    decreases v, 0
  {
    hide LittleEndian, FromLittleEndian, TakeNumber, Capacity;
    var s := Encode(v, shape) + tail;
    match v {
      case Just(some) =>
        assert s[1..] == Encode(some, shape.some) + tail;
        DecodeReadsEncoded(some, shape.some, tail);
      case Elements(values) =>
        var rest := EncodeAll(values, shape.element) + tail;
        assert s == LittleEndian(|values|, LENGTH_WIDTH) + rest;
        TakeNumberWritten(|values|, LENGTH_WIDTH, rest);
        DecodeReadsAll(values, shape.element, tail);
      case Both(left, right) =>
        assert s == Encode(left, shape.first) + (Encode(right, shape.second) + tail);
        DecodeReadsEncoded(left, shape.first, Encode(right, shape.second) + tail);
        DecodeReadsEncoded(right, shape.second, tail);
      case _ =>
        ScalarRoundTrip(v, shape, tail);
    }
  }

  lemma {:induction false} DecodeReadsAll(values: seq<Value>, element: Shape, tail: seq<byte>)
    requires forall w :: w in values ==> HasShape(w, element)
    ensures DecodeAll(element, |values|, EncodeAll(values, element) + tail) == Some((values, tail))
    decreases values
  {
    hide Encode, Decode;
    if values != [] {
      var rest := EncodeAll(values[1..], element) + tail;
      assert EncodeAll(values, element) + tail == Encode(values[0], element) + rest;
      DecodeReadsEncoded(values[0], element, rest);
      DecodeReadsAll(values[1..], element, tail);
      assert [values[0]] + values[1..] == values;
    } else {
      assert EncodeAll(values, element) + tail == tail;
    }
  }

  /** Equal streams, with whatever follows them, come from equal values and equal tails. */
  lemma EncodingIsUniquelyDecodable(shape: Shape, v: Value, w: Value, s: seq<byte>, t: seq<byte>)
    requires HasShape(v, shape) && HasShape(w, shape)
    requires Encode(v, shape) + s == Encode(w, shape) + t
    ensures v == w && s == t
  {
    DecodeReadsEncoded(v, shape, s);
    DecodeReadsEncoded(w, shape, t);
  }

  lemma LittleEndianTag()
    ensures LittleEndian(0, 1) == [0] && LittleEndian(1, 1) == [1] && Capacity(1) == 0x100
  {
  }

  // The hasher

  /** The hasher is an opaque function of the bytes it was given, in order. */
  class CacheKeyHasher {
    var stream: seq<byte>

    constructor ()
      ensures stream == []
    {
      stream := [];
    }

    method WriteBool(value: bool)
      modifies this
      ensures stream == old(stream) + Encode(Flag(value), Bool)
    {
      stream := stream + [if value then 1 else 0];
    }

    method WriteUnsigned(value: nat, width: nat)
      requires value < Capacity(width)
      modifies this
      ensures stream == old(stream) + Encode(Number(value), Unsigned(width))
    {
      stream := stream + LittleEndian(value, width);
    }

    method WriteUsize(value: nat)
      requires value < Capacity(LENGTH_WIDTH)
      modifies this
      ensures stream == old(stream) + Encode(Number(value), Unsigned(LENGTH_WIDTH))
    {
      WriteUnsigned(value, LENGTH_WIDTH);
    }

    method WriteBytes(bytes: seq<byte>)
      requires |bytes| < Capacity(LENGTH_WIDTH)
      modifies this
      ensures stream == old(stream) + Encode(Bytes(bytes), Text)
    {
      WriteUsize(|bytes|);
      stream := stream + bytes;
    }

    /** Every value writes itself: the tag or length first, then its parts in order. */
    method WriteValue(v: Value, shape: Shape)
      requires HasShape(v, shape)
      modifies this
      ensures stream == old(stream) + Encode(v, shape)
      decreases v, 0
    {
      hide LittleEndian, EncodeAll, Capacity;
      LittleEndianTag();
      match v {
        case Number(n) =>
          WriteUnsigned(n, shape.width);
        case Flag(b) =>
          WriteBool(b);
        case Bytes(bytes) =>
          WriteBytes(bytes);
        case Nothing =>
          WriteUnsigned(0, 1);
        case Just(some) =>
          WriteUnsigned(1, 1);
          WriteValue(some, shape.some);
        case Elements(values) =>
          WriteUsize(|values|);
          WriteAll(values, shape.element);
        case Both(left, right) =>
          WriteValue(left, shape.first);
          WriteValue(right, shape.second);
      }
    }

    method WriteAll(values: seq<Value>, element: Shape)
      requires forall w :: w in values ==> HasShape(w, element)
      modifies this
      ensures stream == old(stream) + EncodeAll(values, element)
      decreases values
    {
      ghost var goal := stream + EncodeAll(values, element);
      for k := 0 to |values|
        invariant goal == stream + EncodeAll(values[k..], element)
      {
        assert values[k..][1..] == values[k + 1..];
        assert values[k] in values;
        WriteValue(values[k], element);
      }
      assert values[|values|..] == [];
    }
  }
}
