/**
  Bytes as the Go source sees them: octets, the string view of a byte slice,
  and the little-endian integer decoding of `encoding/binary`.
*/
module Bytes {

  /** One octet of a Go `[]byte`. */
  type byte = x: int | 0 <= x < 256

  /** 2^32, 2^63 and 2^64, written out so that no proof has to evaluate `Pow2` on them. */
  const TWO_32: nat := 0x1_0000_0000
  const TWO_63: nat := 0x8000_0000_0000_0000
  const TWO_64: nat := 0x1_0000_0000_0000_0000

  function Pow2(n: nat): (r: nat)
    ensures r >= 1
  {
    if n == 0 then 1 else 2 * Pow2(n - 1)
  }

  lemma {:induction false} Pow2Add(a: nat, b: nat)
    ensures Pow2(a + b) == Pow2(a) * Pow2(b)
  {
    if b > 0 {
      Pow2Add(a, b - 1);
      assert Pow2(a + b) == 2 * Pow2(a + b - 1);
    }
  }

  lemma {:induction false} Pow2Monotonic(a: nat, b: nat)
    requires a <= b
    ensures Pow2(a) <= Pow2(b)
  {
    if a < b {
      Pow2Monotonic(a, b - 1);
    }
  }

  /** Seven more bits: one more base-128 group. */
  lemma Pow2Step7(n: nat)
    ensures Pow2(n + 7) == 0x80 * Pow2(n)
  {
    Pow2Add(n, 7);
    assert Pow2(7) == 0x80 by {
      assert Pow2(1) == 2 by { assert Pow2(0) == 1; }
      assert Pow2(2) == 4;
      assert Pow2(4) == 16;
    }
  }

  /** The powers of two that the decoders use. */
  lemma Pow2Values()
    ensures Pow2(7) == 0x80
    ensures Pow2(8) == 0x100
    ensures Pow2(32) == 0x1_0000_0000
    ensures Pow2(63) == 0x8000_0000_0000_0000
    ensures Pow2(64) == 0x1_0000_0000_0000_0000
  {
    Pow2Small();
    Pow2Wide();
  }

  /**
    The power that a 64-bit value's last group starts at. The exponent is a
    parameter fixed by the requires, so that `Pow2` is not unfolded on a literal.
  */
  lemma {:induction false} Pow2Of63(n: nat)
    requires n == 63
    ensures Pow2(n) == TWO_63 && 2 * Pow2(n) == TWO_64
  {
    Pow2Values();
  }

  /** Every power up to the 63rd is at most 2^63. */
  lemma {:induction false} Pow2UpTo63(n: nat)
    requires n <= 63
    ensures Pow2(n) <= TWO_63
  {
    Pow2Monotonic(n, 63);
    Pow2Values();
  }

  lemma Pow2Small()
    ensures Pow2(7) == 0x80 && Pow2(8) == 0x100 && Pow2(16) == 0x1_0000
  {
    Pow2Step7(0);
    Pow2Step7(1);
    assert Pow2(1) == 2 by { assert Pow2(0) == 1; }
    Pow2Add(8, 8);
  }

  lemma Pow2Wide()
    requires Pow2(16) == 0x1_0000
    ensures Pow2(32) == 0x1_0000_0000
    ensures Pow2(63) == 0x8000_0000_0000_0000
    ensures Pow2(64) == 0x1_0000_0000_0000_0000
  {
    Pow2Add(16, 16);
    Pow2Add(32, 32);
    assert Pow2(64) == 2 * Pow2(63);
  }

  /**
    A Go string is a sequence of bytes; the model keeps a string as a
    sequence of characters, one per byte, the character whose code is the byte.
  */
  function ToChar(b: byte): char
  {
    b as char
  }

  /** The string that shares its bytes with `bs` (Go's `string(bs)`). */
  function ToString(bs: seq<byte>): (s: string)
    ensures |s| == |bs|
    ensures forall i :: 0 <= i < |bs| ==> s[i] as int == bs[i]
  {
    seq(|bs|, i requires 0 <= i < |bs| => ToChar(bs[i]))
  }

  /** Reading bytes as a string loses nothing. */
  lemma ToStringInjective(a: seq<byte>, b: seq<byte>)
    requires ToString(a) == ToString(b)
    ensures a == b
  {
    assert |a| == |b|;
    forall i | 0 <= i < |a|
      ensures a[i] == b[i]
    {
      assert ToString(a)[i] as int == a[i];
      assert ToString(b)[i] as int == b[i];
    }
  }

  /** The unsigned integer whose little-endian encoding is `bs`: the first byte is its lowest. */
  function LittleEndian(bs: seq<byte>): (n: nat)
    ensures |bs| > 0 ==> n % 256 == bs[0]
  {
    if |bs| == 0 then 0 else bs[0] + 256 * LittleEndian(bs[1..])
  }

  /** `|bs|` bytes hold less than 2^(8 |bs|). */
  lemma {:induction false} LittleEndianBound(bs: seq<byte>)
    ensures LittleEndian(bs) < Pow2(8 * |bs|)
  {
    if |bs| > 0 {
      var rest, p := LittleEndian(bs[1..]), Pow2(8 * (|bs| - 1));
      LittleEndianBound(bs[1..]);
      Pow2Add(8, 8 * (|bs| - 1));
      Pow2Small();
      assert 8 * |bs| == 8 + 8 * (|bs| - 1);
      assert 256 * rest <= 256 * (p - 1);
    }
  }

  /** The `width`-byte little-endian encoding of `n` (Go's `binary.LittleEndian.PutUint*`). */
  function EncodeLittleEndian(n: nat, width: nat): (bs: seq<byte>)
    ensures |bs| == width
  {
    if width == 0 then [] else [n % 256] + EncodeLittleEndian(n / 256, width - 1)
  }

  lemma {:induction false} LittleEndianRoundTrip(n: nat, width: nat)
    requires n < Pow2(8 * width)
    ensures LittleEndian(EncodeLittleEndian(n, width)) == n
  {
    if width > 0 {
      Pow2Add(8, 8 * (width - 1));
      assert 8 * width == 8 + 8 * (width - 1);
      assert n / 256 < Pow2(8 * (width - 1));
      LittleEndianRoundTrip(n / 256, width - 1);
      var bs := EncodeLittleEndian(n, width);
      assert bs[1..] == EncodeLittleEndian(n / 256, width - 1);
    }
  }

  /** `binary.LittleEndian.Uint32`. */
  function Uint32(bs: seq<byte>): (n: nat)
    requires |bs| == 4
    ensures n < 0x1_0000_0000
  {
    LittleEndianBound(bs);
    Pow2Values();
    LittleEndian(bs)
  }

  /** `Uint32` puts the first byte lowest: byte k is worth 256^k. */
  lemma Uint32Bytes(bs: seq<byte>)
    requires |bs| == 4
    ensures Uint32(bs) == bs[0] as int + 0x100 * bs[1] as int + 0x1_0000 * bs[2] as int + 0x100_0000 * bs[3] as int
  {
    assert bs[1..][1..] == bs[2..];
    assert bs[2..][1..] == bs[3..];
    assert LittleEndian(bs[3..]) == bs[3] + 256 * LittleEndian(bs[3..][1..]);
    assert LittleEndian(bs[3..][1..]) == 0;
    assert LittleEndian(bs[2..]) == bs[2] + 256 * LittleEndian(bs[3..]);
    assert LittleEndian(bs[1..]) == bs[1] + 256 * LittleEndian(bs[2..]);
  }

  /** `binary.LittleEndian.Uint64`, kept as raw bits. */
  function Uint64(bs: seq<byte>): (n: nat)
    requires |bs| == 8
    ensures n < 0x1_0000_0000_0000_0000
  {
    LittleEndianBound(bs);
    Pow2Values();
    LittleEndian(bs)
  }

  /** Go's conversion `int32(u)` of a `uint32`: the same 32 bits read as two's complement. */
  function Int32(u: nat): (r: int)
    requires u < 0x1_0000_0000
    ensures -0x8000_0000 <= r < 0x8000_0000
    ensures u < 0x8000_0000 <==> r >= 0
  {
    if u < 0x8000_0000 then u else u - 0x1_0000_0000
  }

  /** `Int32` keeps the bits: the result is congruent to its argument modulo 2^32. */
  lemma Int32Bits(u: nat)
    requires u < 0x1_0000_0000
    ensures Int32(u) % 0x1_0000_0000 == u
  {
  }
}
