/**
 * Bytes and the integer reads of LASfile/LidarData.cs: `BitConverter.ToUInt16/32/64`
 * fixed to little-endian (the byte order LAS prescribes), `BitArray` bit access and the
 * unchecked C# `(int)` cast of a `ulong` buffer position.
 */
module Bytes {

  type byte = b: int | 0 <= b < 256

  /** int.MaxValue: a C# array never has more elements. */
  const INT32_MAX := 0x7FFF_FFFF

  /** A C# `byte[]`. */
  type ByteArray = s: seq<byte> | |s| <= INT32_MAX

  function Pow256(w: nat): (r: int)
    ensures r > 0
  {
    if w == 0 then 1 else 256 * Pow256(w - 1)
  }

  /** Byte `j` (0 = least significant) of the base-256 expansion of `v`. */
  function Digit(v: int, j: nat): byte
    decreases j
  {
    if j == 0 then v % 256 else Digit(v / 256, j - 1)
  }

  /** The unsigned little-endian integer stored in data[at..at + w]. */
  function LE(data: seq<byte>, at: int, w: nat): int
    requires 0 <= at && at + w <= |data|
    decreases w
  {
    if w == 0 then 0 else data[at] + 256 * LE(data, at + 1, w - 1)
  }

  /** BitConverter.ToUInt16, little-endian. */
  function U16(data: seq<byte>, at: int): int
    requires 0 <= at && at + 2 <= |data|
  {
    LE(data, at, 2)
  }

  /** BitConverter.ToUInt32, little-endian. */
  function U32(data: seq<byte>, at: int): int
    requires 0 <= at && at + 4 <= |data|
  {
    LE(data, at, 4)
  }

  /** BitConverter.ToUInt64, little-endian. */
  function U64(data: seq<byte>, at: int): int
    requires 0 <= at && at + 8 <= |data|
  {
    LE(data, at, 8)
  }

  /** A w-byte read is an unsigned w-byte number. */
  lemma {:induction false} LEBound(data: seq<byte>, at: int, w: nat)
    requires 0 <= at && at + w <= |data|
    ensures 0 <= LE(data, at, w) < Pow256(w)
    decreases w
  {
    if w > 0 {
      LEBound(data, at + 1, w - 1);
    }
  }

  /** Reading back the little-endian bytes of a number that fits gives the number. */
  lemma {:induction false} LEOfDigits(data: seq<byte>, at: int, w: nat, v: int)
    requires 0 <= at && at + w <= |data| && 0 <= v < Pow256(w)
    requires forall j :: 0 <= j < w ==> data[at + j] == Digit(v, j)
    ensures LE(data, at, w) == v
    decreases w
  {
    if w > 0 {
      assert data[at] == v % 256 by { assert data[at + 0] == Digit(v, 0); }
      forall j | 0 <= j < w - 1
        ensures data[at + 1 + j] == Digit(v / 256, j)
      {
        assert data[at + (j + 1)] == Digit(v, j + 1);
      }
      LEOfDigits(data, at + 1, w - 1, v / 256);
    }
  }

  /** The bytes of a read number are the bytes it was read from. */
  lemma {:induction false} DigitOfLE(data: seq<byte>, at: int, w: nat, j: nat)
    requires 0 <= at && at + w <= |data| && j < w
    ensures Digit(LE(data, at, w), j) == data[at + j]
    decreases w
  {
    LEBound(data, at + 1, w - 1);
    var rest := LE(data, at + 1, w - 1);
    assert LE(data, at, w) == data[at] + 256 * rest;
    assert LE(data, at, w) / 256 == rest;
    if j > 0 {
      DigitOfLE(data, at + 1, w - 1, j - 1);
    }
  }

  function Pow2(n: nat): (r: int)
    ensures r > 0
  {
    if n == 0 then 1 else 2 * Pow2(n - 1)
  }

  /** Bit `i` of `b`, bit 0 being the least significant. */
  function Bit(b: int, i: nat): bool
    decreases i
  {
    if i == 0 then b % 2 == 1 else Bit(b / 2, i - 1)
  }

  /** The low `n` bits of `b`, least significant first. */
  function Bits(b: int, n: nat): (r: seq<bool>)
    ensures |r| == n
  {
    seq(n, i requires 0 <= i => Bit(b, i))
  }

  function BitValue(bit: bool): int {
    if bit then 1 else 0
  }

  /** The number whose bits, least significant first, are `bits`. */
  function FromBits(bits: seq<bool>): int
    decreases |bits|
  {
    if |bits| == 0 then 0 else BitValue(bits[0]) + 2 * FromBits(bits[1..])
  }

  lemma {:induction false} FromBitsBound(bits: seq<bool>)
    ensures 0 <= FromBits(bits) < Pow2(|bits|)
    decreases |bits|
  {
    if |bits| > 0 {
      FromBitsBound(bits[1..]);
    }
  }

  /** A number below 2^n is the number of its low n bits. */
  lemma {:induction false} FromBitsOfBits(b: int, n: nat)
    requires 0 <= b < Pow2(n)
    ensures FromBits(Bits(b, n)) == b
    decreases n
  {
    if n > 0 {
      FromBitsOfBits(b / 2, n - 1);
      assert Bits(b, n)[1..] == Bits(b / 2, n - 1);
    }
  }

  /** Bit i of the number made from `bits` is bits[i]. */
  lemma {:induction false} BitOfFromBits(bits: seq<bool>, i: nat)
    requires i < |bits|
    ensures Bit(FromBits(bits), i) == bits[i]
    decreases i
  {
    var rest := FromBits(bits[1..]);
    assert (BitValue(bits[0]) + 2 * rest) / 2 == rest;
    if i > 0 {
      BitOfFromBits(bits[1..], i - 1);
    }
  }

  /** The bits of the number made from `bits` are `bits`. */
  lemma BitsOfFromBits(bits: seq<bool>)
    ensures Bits(FromBits(bits), |bits|) == bits
  {
    forall i | 0 <= i < |bits|
      ensures Bits(FromBits(bits), |bits|)[i] == bits[i]
    {
      BitOfFromBits(bits, i);
    }
  }

  /**
   * The unchecked C# cast `(int)` of a non-negative `ulong`: its low 32 bits read as a
   * two's-complement number.
   */
  function ToInt32(v: int): (r: int)
    requires v >= 0
  {
    var low := v % 0x1_0000_0000;
    if low <= INT32_MAX then low else low - 0x1_0000_0000
  }

  /** The cast keeps a value that fits in an int and makes one in [2^31, 2^32) negative. */
  lemma ToInt32Range(v: int)
    requires 0 <= v < 0x1_0000_0000
    ensures v <= INT32_MAX ==> ToInt32(v) == v
    ensures v > INT32_MAX ==> ToInt32(v) < 0
  {
  }
}
