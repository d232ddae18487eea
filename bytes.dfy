/** Fixed-width big-endian two's-complement reads over a byte buffer,
    as Node's `Buffer.readIntBE(offset, byteLength)` performs them. */
module Bytes {

  /** One octet of the input buffer. */
  type byte = b: int | 0 <= b < 0x100

  /** The field widths the decoder reads: int8, int16 and int32. */
  type Width = w: nat | w == 1 || w == 2 || w == 4 witness 1

  /** The outcome of a read at a cursor: the value and the cursor just after
      it, or the RangeError a read past either end of the buffer raises. */
  datatype Parsed<+T> = Parsed(value: T, next: int) | OutOfBounds

  function Pow256(n: nat): (p: int)
    ensures p >= 1
  {
    if n == 0 then 1 else 0x100 * Pow256(n - 1)
  }

  /** The unsigned value of `bs`, most significant byte first. */
  function BigEndian(bs: seq<byte>): (u: nat)
    ensures u < Pow256(|bs|)
  {
    if bs == [] then 0 else BigEndian(bs[..|bs| - 1]) * 0x100 + bs[|bs| - 1]
  }

  /** Two's-complement reinterpretation of an unsigned `width`-byte value. */
  function ToSigned(u: int, width: nat): int
  {
    if u < Pow256(width) / 2 then u else u - Pow256(width)
  }

  predicate InBounds(buf: seq<byte>, at: int, width: nat)
  {
    0 <= at && at + width <= |buf|
  }

  /** The signed big-endian integer of `width` bytes starting at `at`. */
  function SignedBE(buf: seq<byte>, at: int, width: Width): (v: int)
    requires InBounds(buf, at, width)
    ensures -Pow256(width) / 2 <= v < Pow256(width) / 2
  {
    assert Pow256(width) == 0x100 * Pow256(width - 1);
    ToSigned(BigEndian(buf[at..at + width]), width)
  }

  /** `buf.readIntBE(at, width)`: fails when the field does not lie wholly
      inside the buffer, otherwise yields the field and the cursor after it. */
  function IntAt(buf: seq<byte>, at: int, width: Width): Parsed<int>
  {
    if InBounds(buf, at, width) then Parsed(SignedBE(buf, at, width), at + width)
    else OutOfBounds
  }

  /** The `n` bytes of `u`, most significant first (the inverse of BigEndian). */
  function UnsignedBytes(u: nat, n: nat): (bs: seq<byte>)
    ensures |bs| == n
  {
    if n == 0 then [] else UnsignedBytes(u / 0x100, n - 1) + [u % 0x100]
  }

  /** The wire form of a signed `width`-byte integer. */
  function EncodeBE(v: int, width: Width): (bs: seq<byte>)
    requires -Pow256(width) / 2 <= v < Pow256(width) / 2
    ensures |bs| == width
  {
    UnsignedBytes(if v < 0 then v + Pow256(width) else v, width)
  }

  lemma {:induction false} BigEndianOfUnsigned(u: nat, n: nat)
    requires u < Pow256(n)
    ensures BigEndian(UnsignedBytes(u, n)) == u
  {
    if n > 0 {
      assert u / 0x100 < Pow256(n - 1);
      BigEndianOfUnsigned(u / 0x100, n - 1);
      var bs := UnsignedBytes(u, n);
      assert bs[..n - 1] == UnsignedBytes(u / 0x100, n - 1);
    }
  }

  /** Reading back an encoded field anywhere in a buffer yields the encoded
      value and advances the cursor by exactly the field's width. */
  lemma ReadEncoded(pre: seq<byte>, v: int, width: Width, post: seq<byte>)
    requires -Pow256(width) / 2 <= v < Pow256(width) / 2
    ensures IntAt(pre + EncodeBE(v, width) + post, |pre|, width) == Parsed(v, |pre| + width)
  {
    var buf := pre + EncodeBE(v, width) + post;
    assert buf[|pre|..|pre| + width] == EncodeBE(v, width);
    var u := if v < 0 then v + Pow256(width) else v;
    assert Pow256(width) == 0x100 * Pow256(width - 1);
    BigEndianOfUnsigned(u, width);
  }

  /** The three widths the decoder uses, written out byte by byte. */
  lemma SignedBEDigits(buf: seq<byte>, at: int, width: Width)
    requires InBounds(buf, at, width)
    ensures width == 1 ==> SignedBE(buf, at, 1) == ToSigned(buf[at], 1)
    ensures width == 2 ==>
      SignedBE(buf, at, 2) == ToSigned(buf[at] as int * 0x100 + buf[at + 1], 2)
    ensures width == 4 ==>
      SignedBE(buf, at, 4) == ToSigned(((buf[at] as int * 0x100 + buf[at + 1]) * 0x100 + buf[at + 2]) * 0x100 + buf[at + 3], 4)
  {
    var bs := buf[at..at + width];
    var b1 := bs[..1];
    assert b1[..0] == [];
    assert BigEndian(b1) == buf[at];
    if width == 2 {
      assert bs[..1] == b1;
    } else if width == 4 {
      var b3 := bs[..3];
      var b2 := b3[..2];
      assert b2[..1] == b1;
      assert b2[1] == buf[at + 1];
      assert BigEndian(b2) == buf[at] as int * 0x100 + buf[at + 1];
      assert BigEndian(b3) == (buf[at] as int * 0x100 + buf[at + 1]) * 0x100 + buf[at + 2];
    }
  }

  /** A signed byte read: -1 exactly for 0xFF, 0 exactly for 0x00, and the
      buffer byte again when taken modulo 256. */
  lemma SignedByte(buf: seq<byte>, at: int)
    requires InBounds(buf, at, 1)
    ensures SignedBE(buf, at, 1) == if buf[at] < 0x80 then buf[at] as int else buf[at] as int - 0x100
    ensures SignedBE(buf, at, 1) == -1 <==> buf[at] == 0xFF
    ensures SignedBE(buf, at, 1) == 0 <==> buf[at] == 0
    ensures SignedBE(buf, at, 1) % 0x100 == buf[at]
  {
  }
}
