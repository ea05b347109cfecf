/**
 * Bytes as java.io.RandomAccessFile reads and writes them: `writeLong` and
 * `writeInt` store the two's complement value big-endian in 8 and 4 bytes,
 * `readLong` and `readInt` give it back signed.  Java's `long` and `int`
 * arithmetic wraps around; `WrapLong` and `WrapInt` write that out.
 */
module Bytes {

  newtype byte = x: int | 0 <= x < 256

  const TWO_16: int := 0x1_0000
  const TWO_31: int := 0x8000_0000
  const TWO_32: int := 0x1_0000_0000
  const TWO_63: int := 0x8000_0000_0000_0000
  const TWO_64: int := 0x1_0000_0000_0000_0000

  /** Integer.MAX_VALUE */
  const INT_MAX: int := TWO_31 - 1

  predicate IsLong(x: int) { -TWO_63 <= x < TWO_63 }

  predicate IsInt(x: int) { -TWO_31 <= x < TWO_31 }

  /** The Java `long` that the mathematical value x wraps around to. */
  function WrapLong(x: int): (r: int)
    ensures IsLong(r) && (x - r) % TWO_64 == 0
    ensures IsLong(x) ==> r == x
  {
    var m := x % TWO_64;
    if m < TWO_63 then m else m - TWO_64
  }

  /** The Java `int` that x wraps around to (what an `(int)` cast gives). */
  function WrapInt(x: int): (r: int)
    ensures IsInt(r) && (x - r) % TWO_32 == 0
    ensures IsInt(x) ==> r == x
  {
    var m := x % TWO_32;
    if m < TWO_31 then m else m - TWO_32
  }

  function Pow256(n: nat): (r: nat)
    ensures r > 0
  {
    if n == 0 then 1 else 256 * Pow256(n - 1)
  }

  lemma Pow256Values()
    ensures Pow256(2) == TWO_16 && Pow256(4) == TWO_32 && Pow256(8) == TWO_64
  {
    assert Pow256(1) == 256;
    assert Pow256(2) == 65536;
    assert Pow256(3) == 16777216;
    assert Pow256(4) == 4294967296;
    assert Pow256(5) == 1099511627776;
    assert Pow256(6) == 281474976710656;
    assert Pow256(7) == 72057594037927936;
  }

  /** The n-byte big-endian representation of x (its low n bytes). */
  function BigEndian(x: nat, n: nat): (r: seq<byte>)
    ensures |r| == n
  {
    if n == 0 then [] else BigEndian(x / 256, n - 1) + [(x % 256) as byte]
  }

  /** The value of a big-endian byte sequence read as an unsigned number. */
  function Unsigned(s: seq<byte>): (r: nat)
    ensures r < Pow256(|s|)
  {
    if |s| == 0 then 0 else Unsigned(s[..|s| - 1]) * 256 + s[|s| - 1] as int
  }

  lemma {:induction false} UnsignedOfBigEndian(x: nat, n: nat)
    requires x < Pow256(n)
    ensures Unsigned(BigEndian(x, n)) == x
  {
    if n > 0 {
      assert x / 256 < Pow256(n - 1);
      UnsignedOfBigEndian(x / 256, n - 1);
      var s := BigEndian(x, n);
      assert s[..n - 1] == BigEndian(x / 256, n - 1);
    }
  }

  lemma {:induction false} BigEndianOfUnsigned(s: seq<byte>)
    ensures BigEndian(Unsigned(s), |s|) == s
  {
    if |s| > 0 {
      var init, last := s[..|s| - 1], s[|s| - 1];
      BigEndianOfUnsigned(init);
      var u := Unsigned(init) * 256 + last as int;
      assert u / 256 == Unsigned(init) && u % 256 == last as int;
      assert s == init + [last];
    }
  }

  /** RandomAccessFile.writeLong: 8 bytes, big-endian, two's complement. */
  function EncodeLong(x: int): (r: seq<byte>)
    ensures |r| == 8
  {
    BigEndian(x % TWO_64, 8)
  }

  /** RandomAccessFile.readLong */
  function DecodeLong(s: seq<byte>): (r: int)
    requires |s| == 8
    ensures IsLong(r)
  {
    Pow256Values();
    var u := Unsigned(s);
    if u < TWO_63 then u else u - TWO_64
  }

  /** RandomAccessFile.writeInt: 4 bytes, big-endian, two's complement. */
  function EncodeInt(x: int): (r: seq<byte>)
    ensures |r| == 4
  {
    BigEndian(x % TWO_32, 4)
  }

  /** RandomAccessFile.readInt */
  function DecodeInt(s: seq<byte>): (r: int)
    requires |s| == 4
    ensures IsInt(r)
  {
    Pow256Values();
    var u := Unsigned(s);
    if u < TWO_31 then u else u - TWO_32
  }

  /** Reading back a written long gives the long the value wraps to. */
  lemma LongRoundTrip(x: int)
    ensures DecodeLong(EncodeLong(x)) == WrapLong(x)
  {
    Pow256Values();
    UnsignedOfBigEndian(x % TWO_64, 8);
  }

  /** Any 8 bytes are the encoding of the long they decode to. */
  lemma LongBytesRoundTrip(s: seq<byte>)
    requires |s| == 8
    ensures EncodeLong(DecodeLong(s)) == s
  {
    Pow256Values();
    BigEndianOfUnsigned(s);
    var u := Unsigned(s);
    assert DecodeLong(s) % TWO_64 == u;
  }

  lemma IntRoundTrip(x: int)
    ensures DecodeInt(EncodeInt(x)) == WrapInt(x)
  {
    Pow256Values();
    UnsignedOfBigEndian(x % TWO_32, 4);
  }

  lemma IntBytesRoundTrip(s: seq<byte>)
    requires |s| == 4
    ensures EncodeInt(DecodeInt(s)) == s
  {
    Pow256Values();
    BigEndianOfUnsigned(s);
    var u := Unsigned(s);
    assert DecodeInt(s) % TWO_32 == u;
  }

  /** writeShort of an unsigned 16-bit length, as writeUTF emits its header. */
  function EncodeU16(n: nat): (r: seq<byte>)
    ensures |r| == 2
  {
    BigEndian(n, 2)
  }

  lemma U16RoundTrip(n: nat)
    requires n < TWO_16
    ensures Unsigned(EncodeU16(n)) == n
  {
    Pow256Values();
    UnsignedOfBigEndian(n, 2);
  }
}
