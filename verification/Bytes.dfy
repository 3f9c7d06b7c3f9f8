/** Bytes and the fixed-width numbers that the driver and the image tools store in them. */
module Bytes {

  type byte = bv8

  const TWO_POW_24: int := 0x100_0000
  const TWO_POW_32: int := 0x1_0000_0000

  // The unsigned value of a byte.
  function Val(b: byte): (n: int)
    ensures 0 <= n < 256
  {
    b as int
  }

  lemma ValSuccessor(b: byte)
    requires b != 0xFF
    ensures Val(b + 1) == Val(b) + 1
  {
  }

  // The byte whose value is n.
  function ByteOf(n: int): (b: byte)
    requires 0 <= n < 256
    ensures Val(b) == n
  {
    if n == 0 then 0
    else
      assert Val(ByteOf(n - 1)) == n - 1;
      assert Val(0xFF) == 255;
      ValSuccessor(ByteOf(n - 1));
      ByteOf(n - 1) + 1
  }

  // Byte k (counted from the least significant) of a 32-bit word.
  function ByteAt(v: int, unit: int): byte
    requires unit > 0
  {
    ByteOf(v / unit % 256)
  }

  function ToLE16(v: int): (s: seq<byte>)
    ensures |s| == 2
  {
    [ByteAt(v, 1), ByteAt(v, 0x100)]
  }

  function LE16(s: seq<byte>): int
    requires |s| == 2
  {
    Val(s[0]) + 0x100 * Val(s[1])
  }

  lemma LE16RoundTrip(v: int)
    requires 0 <= v < 0x1_0000
    ensures LE16(ToLE16(v)) == v
  {
    Digits(v);
    assert v / 1 == v && v / 0x1_0000 == 0 && v / 0x100_0000 == 0;
  }

  function ToLE32(v: int): (s: seq<byte>)
    ensures |s| == 4
  {
    [ByteAt(v, 1), ByteAt(v, 0x100), ByteAt(v, 0x1_0000), ByteAt(v, 0x100_0000)]
  }

  function LE32(s: seq<byte>): (v: int)
    requires |s| == 4
    ensures 0 <= v < TWO_POW_32
  {
    Val(s[0]) + 0x100 * Val(s[1]) + 0x1_0000 * Val(s[2]) + 0x100_0000 * Val(s[3])
  }

  // The four base-256 digits of a 32-bit word, as plain arithmetic.
  lemma Digits(v: int)
    requires 0 <= v < TWO_POW_32
    ensures v == v % 256 + 0x100 * (v / 0x100 % 256) + 0x1_0000 * (v / 0x1_0000 % 256)
                 + 0x100_0000 * (v / 0x100_0000 % 256)
  {
    var a := v / 0x100;
    var b := a / 0x100;
    assert v / 0x1_0000 == b && v / 0x100_0000 == b / 0x100;
  }

  lemma LE32RoundTrip(v: int)
    requires 0 <= v < TWO_POW_32
    ensures LE32(ToLE32(v)) == v
  {
    Digits(v);
    assert v / 1 == v;
  }

  // Big-endian 24-bit numbers: flash addresses and the JEDEC identifier.
  function ToBE24(v: int): (s: seq<byte>)
    ensures |s| == 3
  {
    [ByteAt(v, 0x1_0000), ByteAt(v, 0x100), ByteAt(v, 1)]
  }

  function BE24(s: seq<byte>): (v: int)
    requires |s| == 3
    ensures 0 <= v < TWO_POW_24
  {
    0x1_0000 * Val(s[0]) + 0x100 * Val(s[1]) + Val(s[2])
  }

  // A 24-bit field keeps exactly the low 24 bits.
  lemma BE24Truncates(v: int)
    ensures BE24(ToBE24(v)) == v % TWO_POW_24
  {
    var w := v % TWO_POW_24;
    Digits(w);
    assert v == w + TWO_POW_24 * (v / TWO_POW_24);
    LowDigits(v, w, v / TWO_POW_24);
    assert v / 1 == v;
  }

  lemma LowDigits(v: int, w: int, high: int)
    requires 0 <= w < TWO_POW_24 && v == w + TWO_POW_24 * high
    ensures v % 256 == w % 256 && v / 0x100 % 256 == w / 0x100 % 256 && v / 0x1_0000 % 256 == w / 0x1_0000 % 256
    ensures w / 0x100_0000 == 0
  {
    assert v / 0x100 == w / 0x100 + 0x1_0000 * high;
    assert v / 0x1_0000 == w / 0x1_0000 + 0x100 * high;
  }

  // A byte string up to its first zero byte.
  function UntilZero(s: seq<byte>): (r: seq<byte>)
    ensures |r| <= |s|
  {
    if s == [] || s[0] == 0 then [] else [s[0]] + UntilZero(s[1..])
  }
}
