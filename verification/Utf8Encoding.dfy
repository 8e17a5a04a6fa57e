/** Reading characters undoes encoding them (RFC 3629, section 3). */
module Utf8Encoding {
  import opened Utf8

  /** The code points that have no encoding. */
  predicate IsSurrogate(c: scalar) {
    0xD800 <= c <= 0xDFFF
  }

  /** The table of the standard: a lead byte with the length, and six bits in each further byte. */
  function Encoded(c: scalar): (b: seq<byte>)
    ensures |b| == LenUtf8(c)
  {
    var last, high := c % 0x40, c / 0x40;
    if c < 0x80 then [c]
    else if c < 0x800 then [0xC0 + high, 0x80 + last]
    else if c < 0x1_0000 then [0xE0 + high / 0x40, 0x80 + high % 0x40, 0x80 + last]
    else [0xF0 + high / 0x40 / 0x40, 0x80 + high / 0x40 % 0x40, 0x80 + high % 0x40, 0x80 + last]
  }

  lemma SixBits(high: int, low: int)
    requires 0 <= low < 0x40
    ensures (high * 0x40 + low) / 0x40 == high && (high * 0x40 + low) % 0x40 == low
  {
  }

  /** Every character but a surrogate is read back from its encoding, which is text. */
  lemma EncodedIsRead(c: scalar)
    requires !IsSurrogate(c)
    ensures var b := Encoded(c); ValidUtf8(b) && WellFormedAt(b, 0) && CharAt(b, 0) == c && Width(b[0]) == |b|
  {
    var b := Encoded(c);
    assert WellFormedAt(b, 0);
    assert ValidFrom(b, |b|);
  }

  /** Every well-formed character is the encoding of what is read, and no surrogate. */
  lemma ReadIsEncoded(s: seq<byte>, i: nat)
    requires i < |s| && WellFormedAt(s, i)
    ensures !IsSurrogate(CharAt(s, i)) && Encoded(CharAt(s, i)) == s[i..i + Width(s[i])]
  {
    var w, lead := Width(s[i]), s[i] as int;
    if w == 2 {
      SixBits(lead - 0xC0, Low6(s[i + 1]));
      assert s[i..i + w] == [s[i], s[i + 1]];
    } else if w == 3 {
      var high := (lead - 0xE0) * 0x40 + Low6(s[i + 1]);
      SixBits(lead - 0xE0, Low6(s[i + 1]));
      SixBits(high, Low6(s[i + 2]));
      assert CharAt(s, i) == high * 0x40 + Low6(s[i + 2]);
      assert s[i..i + w] == [s[i], s[i + 1], s[i + 2]];
    } else if w == 4 {
      var top := (lead - 0xF0) * 0x40 + Low6(s[i + 1]);
      var high := top * 0x40 + Low6(s[i + 2]);
      SixBits(lead - 0xF0, Low6(s[i + 1]));
      SixBits(top, Low6(s[i + 2]));
      SixBits(high, Low6(s[i + 3]));
      assert CharAt(s, i) == high * 0x40 + Low6(s[i + 3]);
      assert s[i..i + w] == [s[i], s[i + 1], s[i + 2], s[i + 3]];
    }
  }
}
