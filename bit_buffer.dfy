/** The MSB-first bit cursor every RTCM decoder reads through
    (rtcm/BitBuffer.kt). The pure functions `Bit` and `Value` say what a read
    returns; the class `BitBuffer` is the cursor itself. */
module Bits {
  import opened Basics

  /** Reading past the last bit (the IndexOutOfBoundsException of readBit). */
  datatype DecodeError = OutOfBits

  /** b shifted right by s places (`shr` on a non-negative value). */
  function ShiftRight(b: nat, s: nat): nat
  {
    if s == 0 then b else ShiftRight(b / 2, s - 1)
  }

  /** Bit k of byte b, counting from the most significant bit (k = 0). */
  function BitOfByte(b: Byte, k: nat): (r: nat)
    requires k < 8
    ensures r < 2
  {
    ShiftRight(b, 7 - k) % 2
  }

  /** Bit i of the payload, bits numbered MSB-first across byte boundaries:
      the first eight bits are those of the first byte, the rest are the bits
      of the bytes after it. */
  function Bit(p: seq<Byte>, i: nat): (r: nat)
    requires i < 8 * |p|
    ensures r < 2
  {
    if i < 8 then BitOfByte(p[0], i) else Bit(p[1..], i - 8)
  }

  /** Bit i is bit i % 8 of byte i / 8, as readBit indexes it. */
  lemma {:induction false} BitAt(p: seq<Byte>, i: nat)
    requires i < 8 * |p|
    ensures Bit(p, i) == BitOfByte(p[i / 8], i % 8)
  {
    if i >= 8 {
      BitAt(p[1..], i - 8);
      DivUnique(i, 8, (i - 8) / 8 + 1, (i - 8) % 8);
    } else {
      DivUnique(i, 8, 0, i);
    }
  }

  /** The unsigned big-endian value of bits [start, start + n) of p. */
  function Value(p: seq<Byte>, start: nat, n: nat): (v: nat)
    requires start + n <= 8 * |p|
    ensures v < Pow2(n)
  {
    if n == 0 then 0 else 2 * Value(p, start, n - 1) + Bit(p, start + n - 1)
  }

  /** For u < 2^n, bit n-1 of u is clear exactly when u < 2^(n-1). */
  lemma SignBit(u: nat, n: nat)
    requires 1 <= n && u < Pow2(n)
    ensures (u / Pow2(n - 1)) % 2 == 0 <==> u < Pow2(n - 1)
  {
    var half := Pow2(n - 1);
    if u < half {
      DivUnique(u, half, 0, u);
    } else {
      DivUnique(u, half, 1, u - half);
    }
  }

  /** Two's-complement reading of an n-bit unsigned value: the value itself
      when the sign bit n-1 is clear, the value minus 2^n when it is set. */
  function ToSigned(u: nat, n: nat): (s: int)
    requires 1 <= n && u < Pow2(n)
    ensures -(Pow2(n - 1) as int) <= s < Pow2(n - 1)
    ensures s >= 0 <==> u < Pow2(n - 1)
    ensures s == u || s == u - Pow2(n)
  {
    if u < Pow2(n - 1) then u else u - Pow2(n)
  }

  /** The n-bit two's-complement pattern of s (the inverse of ToSigned). */
  function FromSigned(s: int, n: nat): (u: nat)
    requires 1 <= n && -(Pow2(n - 1) as int) <= s < Pow2(n - 1)
    ensures u < Pow2(n)
  {
    if s < 0 then Pow2(n) + s else s
  }

  lemma SignedRoundTrip(s: int, n: nat)
    requires 1 <= n && -(Pow2(n - 1) as int) <= s < Pow2(n - 1)
    ensures ToSigned(FromSigned(s, n), n) == s
  {
  }

  lemma UnsignedRoundTrip(u: nat, n: nat)
    requires 1 <= n && u < Pow2(n)
    ensures FromSigned(ToSigned(u, n), n) == u
  {
  }

  /** The cursor. `payload` is a constant: no operation writes it. */
  class BitBuffer {
    const payload: seq<Byte>
    var bitIndex: nat

    ghost predicate Valid()
      reads this
    {
      bitIndex <= 8 * |payload|
    }

    constructor (payload: seq<Byte>)
      ensures this.payload == payload && bitIndex == 0 && Valid()
    {
      this.payload := payload;
      bitIndex := 0;
    }

    function BitsRemaining(): (r: int)
      reads this
      ensures Valid() ==> 0 <= r <= 8 * |payload|
      ensures Valid() && r == 0 ==> bitIndex == 8 * |payload|
    {
      8 * |payload| - bitIndex
    }

    method ReadBit() returns (bit: nat)
      requires Valid() && bitIndex < 8 * |payload|
      modifies this
      ensures Valid() && bitIndex == old(bitIndex) + 1
      ensures bit == Bit(payload, old(bitIndex))
    {
      BitAt(payload, bitIndex);
      var byteIndex := bitIndex / 8;
      var shift := 7 - bitIndex % 8;
      bitIndex := bitIndex + 1;
      bit := ShiftRight(payload[byteIndex], shift) % 2;
    }

    method ReadUnsigned(bitCount: nat) returns (value: nat)
      requires Valid() && 1 <= bitCount <= 64 && bitCount <= BitsRemaining()
      modifies this
      ensures Valid() && bitIndex == old(bitIndex) + bitCount
      ensures value == Value(payload, old(bitIndex), bitCount)
      ensures value < Pow2(bitCount)
    {
      value := 0;
      var i := 0;
      while i < bitCount
        invariant 0 <= i <= bitCount
        invariant bitIndex == old(bitIndex) + i
        invariant value == Value(payload, old(bitIndex), i)
      {
        var b := ReadBit();
        assert Value(payload, old(bitIndex), i + 1) == 2 * value + b;
        value := 2 * value + b;
        i := i + 1;
      }
    }

    method ReadSigned(bitCount: nat) returns (value: int)
      requires Valid() && 1 <= bitCount <= 63 && bitCount <= BitsRemaining()
      modifies this
      ensures Valid() && bitIndex == old(bitIndex) + bitCount
      ensures value == ToSigned(Value(payload, old(bitIndex), bitCount), bitCount)
      ensures -(Pow2(bitCount - 1) as int) <= value < Pow2(bitCount - 1)
    {
      var unsigned := ReadUnsigned(bitCount);
      var signBit := Pow2(bitCount - 1);
      SignBit(unsigned, bitCount);
      if (unsigned / signBit) % 2 == 0 {
        value := unsigned;
      } else {
        value := unsigned - Pow2(bitCount);
      }
    }
  }
}
