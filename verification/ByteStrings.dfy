/** Byte strings, and the 8-byte big-endian counter that heads every transport datagram. */
module ByteStrings {
  import Bits

  type byte = x: int | 0 <= x < 256
  type Bytes = seq<byte>

  const TWO_TO_THE_64: int := 0x1_0000_0000_0000_0000

  /** The big-endian value of `b`, read left to right. */
  function BigEndian(b: Bytes): (v: nat) {
    if b == [] then 0 else BigEndian(b[..|b| - 1]) * 256 + b[|b| - 1]
  }

  /** `width` big-endian bytes holding `v` modulo 256^width. */
  function ToBigEndian(v: nat, width: nat): (b: Bytes)
    ensures |b| == width
  {
    if width == 0 then [] else ToBigEndian(v / 256, width - 1) + [v % 256]
  }

  function Pow256(k: nat): (p: nat)
    ensures p > 0
  {
    if k == 0 then 1 else 256 * Pow256(k - 1)
  }

  /** Writing a counter that fits and reading it back is the identity. */
  lemma {:induction false} ToBigEndianRoundTrip(v: nat, width: nat)
    requires v < Pow256(width)
    ensures BigEndian(ToBigEndian(v, width)) == v
  {
    if width > 0 {
      ToBigEndianRoundTrip(v / 256, width - 1);
      var b := ToBigEndian(v, width);
      assert b[..|b| - 1] == ToBigEndian(v / 256, width - 1);
    }
  }

  /** Reading bytes and writing them back at the same width is the identity. */
  lemma {:induction false} BigEndianRoundTrip(b: Bytes)
    ensures BigEndian(b) < Pow256(|b|)
    ensures ToBigEndian(BigEndian(b), |b|) == b
  {
    if b != [] {
      var front := b[..|b| - 1];
      BigEndianRoundTrip(front);
      var v := BigEndian(b);
      assert v / 256 == BigEndian(front) && v % 256 == b[|b| - 1];
      assert b == front + [b[|b| - 1]];
    }
  }

  lemma EightBytes()
    ensures Pow256(8) == TWO_TO_THE_64
  {
    assert Pow256(2) == 0x1_0000;
    assert Pow256(4) == 0x1_0000_0000;
    assert Pow256(6) == 0x1_0000_0000_0000;
  }

  /** `Buffer.writeBigUInt64BE`. */
  function WriteUint64(n: nat): (b: Bytes)
    requires n < TWO_TO_THE_64
    ensures |b| == 8
    ensures ReadUint64(b) == n
  {
    EightBytes();
    ToBigEndianRoundTrip(n, 8);
    ToBigEndian(n, 8)
  }

  /** `Buffer.readBigUInt64BE`. */
  function ReadUint64(b: Bytes): (n: nat)
    requires |b| == 8
    ensures n < TWO_TO_THE_64
  {
    EightBytes();
    BigEndianRoundTrip(b);
    BigEndian(b)
  }

  /** The most significant byte is first. */
  lemma {:induction false} BytesAreBigEndian(v: nat, width: nat, i: nat)
    requires i < width
    ensures ToBigEndian(v, width)[i] == v / Pow256(width - 1 - i) % 256
  {
    if i < width - 1 {
      BytesAreBigEndian(v / 256, width - 1, i);
      DividesTwice(v, Pow256(width - 2 - i));
    }
  }

  lemma DividesTwice(v: nat, d: nat)
    requires d > 0
    ensures v / 256 / d == v / (256 * d)
  {
    var (q, r) := (v / 256 / d, v / 256 % d);
    assert v / 256 == q * d + r;
    assert v == q * (256 * d) + (256 * r + v % 256);
    Bits.QuotientIs(v, 256 * d, q, 256 * r + v % 256);
  }

  /** The header is the counter and nothing else: eight bytes are the encoding of what they read as. */
  lemma Uint64IsCanonical(b: Bytes)
    requires |b| == 8
    ensures WriteUint64(ReadUint64(b)) == b
  {
    BigEndianRoundTrip(b);
  }
}
