/** Byte strings as the core handles them (`bytes`, `bytearray`), the text
    encoding that turns a `str` into bytes, and fixed-width little-endian
    integers as `struct` packs them. */
module Bytes {

  type byte = bv8
  type Bytes = seq<byte>

  datatype Option<+T> = None | Some(value: T)

  function Min(a: int, b: int): int { if a <= b then a else b }
  function Max(a: int, b: int): int { if a >= b then a else b }

  /** The characters of Python's `string.punctuation` */
  const Punctuation: string := "!\"#$%&'()*+,-./:;<=>?@[\\]^_`{|}~"
  /** The characters of Python's `string.digits` */
  const Digits: string := "0123456789"

  /** The byte whose unsigned value is `x`, counted up from zero (this keeps
      the conversion from integers to bit-vectors out of the proofs) */
  function ByteOf(x: int): (b: byte)
    requires 0 <= x < 256
    ensures b as int == x
    decreases x
  {
    if x == 0 then 0 else ByteOf(x - 1) + 1
  }

  /** Every byte is the byte of its own value */
  lemma ByteOfValue(b: byte)
    ensures ByteOf(b as int) == b
  {
    assert (ByteOf(b as int) as int) as bv8 == ByteOf(b as int);
    assert (b as int) as bv8 == b;
  }

  predicate IsAscii(s: string) {
    forall i :: 0 <= i < |s| ==> s[i] as int < 0x80
  }

  /** The UTF-8 encoding of one Unicode scalar value */
  function Utf8Char(c: char): (r: Bytes)
    ensures 1 <= |r| <= 4
    ensures c as int < 0x80 ==> r == [ByteOf(c as int)]
  {
    var v := c as int;
    if v < 0x80 then [ByteOf(v)]
    else if v < 0x800 then
      [ByteOf(0xC0 + v / 0x40), ByteOf(0x80 + v % 0x40)]
    else if v < 0x1_0000 then
      [ByteOf(0xE0 + v / 0x1000), ByteOf(0x80 + (v / 0x40) % 0x40), ByteOf(0x80 + v % 0x40)]
    else
      [ByteOf(0xF0 + v / 0x4_0000), ByteOf(0x80 + (v / 0x1000) % 0x40),
       ByteOf(0x80 + (v / 0x40) % 0x40), ByteOf(0x80 + v % 0x40)]
  }

  /** `s.encode('utf-8')`: every character takes at least one byte */
  function Utf8Encode(s: string): (r: Bytes)
    ensures |s| <= |r|
  {
    if |s| == 0 then [] else Utf8Char(s[0]) + Utf8Encode(s[1..])
  }

  /** ASCII text encodes to one byte per character, its code point */
  lemma {:induction false} AsciiEncoding(s: string)
    requires IsAscii(s)
    ensures |Utf8Encode(s)| == |s|
    ensures forall i :: 0 <= i < |s| ==> Utf8Encode(s)[i] as int == s[i] as int
  {
    if |s| > 0 {
      assert IsAscii(s[1..]) by {
        assert forall i :: 0 <= i < |s[1..]| ==> s[1..][i] == s[i + 1];
      }
      AsciiEncoding(s[1..]);
      assert Utf8Encode(s) == [ByteOf(s[0] as int)] + Utf8Encode(s[1..]);
    }
  }

  // ---------------------------------------------------------------------
  // Little-endian unsigned integers (`struct.pack('<Q', n)` for width 8)

  function Pow256(width: nat): (r: nat)
    ensures r >= 1
  {
    if width == 0 then 1 else 256 * Pow256(width - 1)
  }

  /** 2^64: `struct.pack('<Q', n)` accepts exactly the n below this */
  const U64Limit: nat := 0x1_0000_0000_0000_0000

  lemma Pow256Of8()
    ensures Pow256(8) == U64Limit
  {
  }

  /** The `width` low-order bytes of `n`, least significant first */
  function EncodeLE(n: nat, width: nat): (r: Bytes)
    ensures |r| == width
  {
    if width == 0 then [] else [ByteOf(n % 256)] + EncodeLE(n / 256, width - 1)
  }

  /** The unsigned value of a little-endian byte string */
  function DecodeLE(b: Bytes): (n: nat)
    ensures n < Pow256(|b|)
  {
    if |b| == 0 then 0
    else
      var rest := DecodeLE(b[1..]);
      assert rest <= Pow256(|b| - 1) - 1;
      assert 256 * rest <= 256 * Pow256(|b| - 1) - 256;
      b[0] as int + 256 * rest
  }

  lemma {:induction false} DecodeEncodeLE(n: nat, width: nat)
    requires n < Pow256(width)
    ensures DecodeLE(EncodeLE(n, width)) == n
  {
    if width > 0 {
      var e := EncodeLE(n, width);
      assert e[1..] == EncodeLE(n / 256, width - 1);
      DecodeEncodeLE(n / 256, width - 1);
      calc {
        DecodeLE(e);
        e[0] as int + 256 * DecodeLE(e[1..]);
        n % 256 + 256 * (n / 256);
        n;
      }
    }
  }

  lemma {:induction false} EncodeDecodeLE(b: Bytes)
    ensures EncodeLE(DecodeLE(b), |b|) == b
  {
    if |b| > 0 {
      var n := DecodeLE(b);
      var rest := DecodeLE(b[1..]);
      var low := b[0] as int;
      assert n == low + 256 * rest;
      assert 0 <= low < 256;
      assert n % 256 == low && n / 256 == rest by {
        LowHigh(low, rest);
      }
      EncodeDecodeLE(b[1..]);
      ByteOfValue(b[0]);
      assert EncodeLE(n, |b|) == [ByteOf(low)] + EncodeLE(rest, |b| - 1);
    }
  }

  lemma LowHigh(low: int, high: nat)
    requires 0 <= low < 256
    ensures (low + 256 * high) % 256 == low && (low + 256 * high) / 256 == high
  {
  }

  /** `struct.pack('<Q', n)`: eight bytes, least significant first */
  function PackU64(n: nat): (r: Bytes)
    requires n < U64Limit
    ensures |r| == 8
  {
    EncodeLE(n, 8)
  }

  /** `struct.unpack('<Q', b)[0]` */
  function UnpackU64(b: Bytes): (n: nat)
    requires |b| == 8
    ensures n < U64Limit
  {
    Pow256Of8();
    DecodeLE(b)
  }

  /** Unpacking what was packed recovers the size, and packing what was
      unpacked recovers the eight bytes. */
  lemma U64RoundTrip(n: nat, b: Bytes)
    requires n < U64Limit && |b| == 8
    ensures UnpackU64(PackU64(n)) == n
    ensures PackU64(UnpackU64(b)) == b
  {
    Pow256Of8();
    DecodeEncodeLE(n, 8);
    EncodeDecodeLE(b);
  }
}
