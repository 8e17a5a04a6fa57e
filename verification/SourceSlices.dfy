/** Byte ranges of a source text, and slicing that never cuts through a character. */
module SourceSlices {
  import opened OptionalValues
  import opened Utf8

  /** A half-open byte range. */
  datatype TextRange = TextRange(start: nat, end: nat)

  function OffsetBy(range: TextRange, base: nat): TextRange {
    TextRange(range.start + base, range.end + base)
  }

  /** Checked slicing, as the standard library offers it for text. */
  function Get(source: seq<byte>, start: nat, end: nat): Option<seq<byte>> {
    if start <= end <= |source| && IsBoundary(source, start) && IsBoundary(source, end) then Some(source[start..end])
    else None
  }

  /** The last boundary up to `offset`. */
  function FloorBoundary(source: seq<byte>, offset: nat): (floor: nat)
    requires offset <= |source|
    ensures floor <= offset && IsBoundary(source, floor)
    ensures forall b :: floor < b <= offset ==> !IsBoundary(source, b)
  {
    if IsBoundary(source, offset) then offset else FloorBoundary(source, offset - 1)
  }

  /** The first boundary from `offset` on. */
  function CeilBoundary(source: seq<byte>, offset: nat): (ceil: nat)
    requires offset <= |source|
    ensures offset <= ceil <= |source| && IsBoundary(source, ceil)
    ensures forall b :: offset <= b < ceil ==> !IsBoundary(source, b)
    decreases |source| - offset
  {
    if IsBoundary(source, offset) then offset else CeilBoundary(source, offset + 1)
  }

  /** The text a range stands for; ranges that do not fit stand for no text. */
  function Slice(source: seq<byte>, range: TextRange): seq<byte> {
    if range.start <= range.end <= |source| then
      source[FloorBoundary(source, range.start)..CeilBoundary(source, range.end)]
    else []
  }

  method FloorCharBoundary(source: seq<byte>, offset: nat) returns (floor: nat)
    ensures floor == FloorBoundary(source, if offset <= |source| then offset else |source|)
  {
    floor := if offset <= |source| then offset else |source|;
    ghost var clamped := floor;
    while floor > 0 && !IsBoundary(source, floor)
      invariant floor <= |source|
      invariant FloorBoundary(source, floor) == FloorBoundary(source, clamped)
    {
      floor := floor - 1;
    }
  }

  method CeilCharBoundary(source: seq<byte>, offset: nat) returns (ceil: nat)
    ensures ceil == CeilBoundary(source, if offset <= |source| then offset else |source|)
  {
    ceil := if offset <= |source| then offset else |source|;
    ghost var clamped := ceil;
    while ceil < |source| && !IsBoundary(source, ceil)
      invariant ceil <= |source|
      invariant CeilBoundary(source, ceil) == CeilBoundary(source, clamped)
    {
      ceil := ceil + 1;
    }
  }

  method SliceWithByteOffsets(source: seq<byte>, start: nat, end: nat) returns (slice: seq<byte>)
    ensures slice == Slice(source, TextRange(start, end))
  {
    var direct := Get(source, start, end);
    if direct.Some? {
      return direct.value;
    }
    slice := SliceWithClampedByteOffsets(source, start, end);
  }

  method SliceWithClampedByteOffsets(source: seq<byte>, start: nat, end: nat) returns (slice: seq<byte>)
    ensures slice == Slice(source, TextRange(start, end))
  {
    if start > end || end > |source| {
      return [];
    }
    var floor := FloorCharBoundary(source, start);
    var ceil := CeilCharBoundary(source, end);
    return match Get(source, floor, ceil)
      case Some(text) => text
      case None => [];
  }

  /** `source[a..b]` is character-aligned text that covers the range. */
  ghost predicate Covers(source: seq<byte>, a: nat, b: nat, range: TextRange) {
    a <= range.start && range.end <= b <= |source| && IsBoundary(source, a) && IsBoundary(source, b)
  }

  /** For a range that fits, slicing gives the smallest character-aligned text covering it, which is valid text. */
  lemma SliceIsSmallestCover(source: seq<byte>, range: TextRange)
    requires ValidUtf8(source) && range.start <= range.end <= |source|
    ensures exists a: nat, b: nat ::
              && Covers(source, a, b, range)
              && a <= b
              && Slice(source, range) == source[a..b]
              && ValidUtf8(source[a..b])
              && forall c: nat, d: nat :: Covers(source, c, d, range) ==> c <= a && b <= d
  {
    var a, b := FloorBoundary(source, range.start), CeilBoundary(source, range.end);
    AlignedSliceIsValid(source, a, b);
    assert Covers(source, a, b, range);
    forall c: nat, d: nat | Covers(source, c, d, range)
      ensures c <= a && b <= d
    {
    }
  }

  lemma AlignedSliceIsValid(source: seq<byte>, a: nat, b: nat)
    requires ValidUtf8(source) && a <= b <= |source| && IsBoundary(source, a) && IsBoundary(source, b)
    ensures ValidUtf8(source[a..b])
  {
    SliceValidFrom(source, a, b, a);
  }

  lemma {:induction false} SliceValidFrom(source: seq<byte>, a: nat, b: nat, i: nat)
    requires ValidUtf8(source) && a <= i <= b <= |source| && IsBoundary(source, i) && IsBoundary(source, b)
    ensures ValidFrom(source[a..b], i - a)
    decreases b - i
  {
    if i < b {
      NoBoundaryInside(source, i, b);
      BoundaryStep(source, i);
      SliceValidFrom(source, a, b, i + Width(source[i]));
      CharInSlice(source, a, b, i);
    }
  }

  lemma CharInSlice(source: seq<byte>, a: nat, b: nat, i: nat)
    requires a <= i < b <= |source| && WellFormedAt(source, i) && i + Width(source[i]) <= b
    ensures WellFormedAt(source[a..b], i - a) && source[a..b][i - a] == source[i]
  {
  }

  lemma BoundaryMoves(prefix: seq<byte>, source: seq<byte>, i: nat)
    requires ValidUtf8(source) && i <= |source|
    ensures IsBoundary(prefix + source, |prefix| + i) <==> IsBoundary(source, i)
  {
    if i == 0 && source != [] {
      assert WellFormedAt(source, 0);
    }
  }

  lemma {:induction false} FloorMoves(prefix: seq<byte>, source: seq<byte>, i: nat)
    requires ValidUtf8(source) && i <= |source|
    ensures FloorBoundary(prefix + source, |prefix| + i) == |prefix| + FloorBoundary(source, i)
    decreases i
  {
    BoundaryMoves(prefix, source, i);
    if !IsBoundary(source, i) {
      FloorMoves(prefix, source, i - 1);
    }
  }

  lemma {:induction false} CeilMoves(prefix: seq<byte>, source: seq<byte>, i: nat)
    requires ValidUtf8(source) && i <= |source|
    ensures CeilBoundary(prefix + source, |prefix| + i) == |prefix| + CeilBoundary(source, i)
    decreases |source| - i
  {
    BoundaryMoves(prefix, source, i);
    if !IsBoundary(source, i) {
      CeilMoves(prefix, source, i + 1);
    }
  }

  /** A range shifted by the length of a prefix slices the same text out of the longer source, in range or not. */
  lemma SliceMoves(prefix: seq<byte>, source: seq<byte>, range: TextRange)
    requires ValidUtf8(source)
    ensures Slice(prefix + source, OffsetBy(range, |prefix|)) == Slice(source, range)
  {
    if range.start <= range.end <= |source| {
      hide FloorBoundary, CeilBoundary, ValidUtf8;
      FloorMoves(prefix, source, range.start);
      CeilMoves(prefix, source, range.end);
      var a, b := FloorBoundary(source, range.start), CeilBoundary(source, range.end);
      assert (prefix + source)[|prefix| + a..|prefix| + b] == source[a..b];
    }
  }
}
