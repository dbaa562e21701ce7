/** CRC-24Q, the checksum of the RTCM 10403 transport layer (chapter 4 of
    RTCM Standard 10403.x): polynomial 0x1864CFB, register initialised to 0, no
    final XOR, bytes fed most significant bit first (rtcm/Crc24Q.kt).

    The register is a `bv32`, the bit pattern of the Kotlin `Int`. */
module Crc24Q {
  import opened Basics

  const POLY: bv32 := 0x1864CFB

  /** One turn of `repeat(8)`: shift left; when bit 24 comes up, XOR the polynomial. */
  function Shift(crc: bv32): bv32
  {
    if (crc << 1) & 0x1000000 != 0 then (crc << 1) ^ POLY else crc << 1
  }

  /** Shift, stated in terms of the already shifted register. */
  lemma ShiftOfShifted(crc: bv32, shifted: bv32)
    requires shifted == crc << 1
    ensures Shift(crc) == if shifted & 0x1000000 != 0 then shifted ^ POLY else shifted
  {
  }

  /** k turns of Shift. */
  function Shifts(crc: bv32, k: nat): bv32
  {
    if k == 0 then crc else Shift(Shifts(crc, k - 1))
  }

  /** The per-byte step: XOR the byte into the top 8 of the 24 bits, then 8 shifts. */
  function Step(crc: bv32, b: Byte): bv32
  {
    StepBits(crc, ByteBits(b))
  }

  function StepBits(crc: bv32, x: bv32): bv32
  {
    Shifts(crc ^ (x << 16), 8)
  }

  /** The left fold of Step over the bytes, starting from register value crc. */
  function Fold(crc: bv32, bytes: seq<Byte>): bv32
  {
    if bytes == [] then crc else Step(Fold(crc, bytes[..|bytes| - 1]), bytes[|bytes| - 1])
  }

  /** The bit pattern of a byte in the low 8 bits of the register
      (`buffer[index].toInt() and 0xFF`). */
  function ByteBits(b: Byte): (r: bv32)
    ensures r < 256
  {
    (if (b / 128) % 2 == 1 then 0x80 else 0) | (if (b / 64) % 2 == 1 then 0x40 else 0) |
    (if (b / 32) % 2 == 1 then 0x20 else 0) | (if (b / 16) % 2 == 1 then 0x10 else 0) |
    (if (b / 8) % 2 == 1 then 0x08 else 0) | (if (b / 4) % 2 == 1 then 0x04 else 0) |
    (if (b / 2) % 2 == 1 then 0x02 else 0) | (if b % 2 == 1 then 0x01 else 0)
  }

  /** XOR-ing a byte into bits 16..23 keeps the register within 24 bits. */
  lemma XorByteBounded(crc: bv32, b: bv32)
    requires crc < 0x1000000 && b < 256
    ensures crc ^ (b << 16) < 0x1000000
  {
  }

  lemma MaskIsNoop(crc: bv32)
    requires crc < 0x1000000
    ensures crc & 0xFFFFFF == crc
  {
  }

  lemma ShiftBounded(crc: bv32)
    requires crc < 0x1000000
    ensures Shift(crc) < 0x1000000
  {
  }

  lemma {:induction false} ShiftsBounded(crc: bv32, k: nat)
    requires crc < 0x1000000
    ensures Shifts(crc, k) < 0x1000000
  {
    if k > 0 {
      ShiftsBounded(crc, k - 1);
      ShiftBounded(Shifts(crc, k - 1));
    }
  }

  lemma StepBitsBounded(crc: bv32, x: bv32)
    requires crc < 0x1000000 && x < 256
    ensures StepBits(crc, x) < 0x1000000
  {
    XorByteBounded(crc, x);
    ShiftsBounded(crc ^ (x << 16), 8);
  }

  lemma StepBounded(crc: bv32, b: Byte)
    requires crc < 0x1000000
    ensures Step(crc, b) < 0x1000000
  {
    StepBitsBounded(crc, ByteBits(b));
  }

  /** The register never leaves 24 bits, so the 32-bit Int cannot overflow. */
  lemma {:induction false} FoldBounded(crc: bv32, bytes: seq<Byte>)
    requires crc < 0x1000000
    ensures Fold(crc, bytes) < 0x1000000
  {
    if bytes != [] {
      FoldBounded(crc, bytes[..|bytes| - 1]);
      StepBounded(Fold(crc, bytes[..|bytes| - 1]), bytes[|bytes| - 1]);
    }
  }

  /** Folding over a + b is folding over b from the CRC of a. */
  lemma {:induction false} FoldAppend(crc: bv32, a: seq<Byte>, b: seq<Byte>)
    ensures Fold(crc, a + b) == Fold(Fold(crc, a), b)
  {
    if b == [] {
      assert a + b == a;
    } else {
      var last := b[|b| - 1];
      assert (a + b)[..|a + b| - 1] == a + b[..|b| - 1];
      FoldAppend(crc, a, b[..|b| - 1]);
    }
  }

  /** CRC-24Q of a byte string as the 24-bit value that `calculate` returns. */
  function Crc24(bytes: seq<Byte>): (r: int)
    ensures 0 <= r < 0x1000000
    ensures bytes == [] ==> r == 0
  {
    FoldBounded(0, bytes);
    Fold(0, bytes) as int
  }

  /** The CRC of a + b continues the fold from the CRC of a. */
  lemma CrcOfConcat(a: seq<Byte>, b: seq<Byte>)
    ensures Crc24(a + b) == Fold(Crc24(a) as bv32, b) as int
  {
    FoldAppend(0, a, b);
    FoldBounded(0, a);
  }

  /** The final `and 0xFFFFFF` leaves the folded register as it is. */
  lemma MaskedFold(c: bv32, bytes: seq<Byte>)
    requires c == Fold(0, bytes)
    ensures (c & 0xFFFFFF) as int == Crc24(bytes)
  {
    FoldBounded(0, bytes);
    MaskIsNoop(c);
  }

  /** Eight turns from the XOR-ed register are one Step. */
  lemma ShiftsIsStep(before: bv32, b: Byte, x: bv32, start: bv32, k: nat)
    requires x == ByteBits(b) && k == 8 && start == before ^ (x << 16)
    ensures Shifts(start, k) == Step(before, b)
  {
  }

  /** The fold over a one-longer slice takes one more Step. */
  lemma FoldSnoc(buffer: seq<Byte>, offset: nat, index: nat)
    requires offset <= index < |buffer|
    ensures Fold(0, buffer[offset .. index + 1]) == Step(Fold(0, buffer[offset .. index]), buffer[index])
  {
    assert buffer[offset .. index + 1][..index - offset] == buffer[offset .. index];
  }

  /** One pass of the outer loop of `calculate` extends the fold by one byte. */
  lemma FoldOneMore(buffer: seq<Byte>, offset: nat, index: nat, before: bv32, start: bv32, k: nat, c: bv32)
    requires offset <= index < |buffer| && k == 8
    requires before == Fold(0, buffer[offset .. index])
    requires start == before ^ (ByteBits(buffer[index]) << 16)
    requires c == Shifts(start, k)
    ensures c == Fold(0, buffer[offset .. index + 1])
  {
    ShiftsIsStep(before, buffer[index], ByteBits(buffer[index]), start, k);
    FoldSnoc(buffer, offset, index);
  }

  // Error detection: a change to one byte always changes the CRC. Each step
  // is stated as "different inputs give different outputs" and makes one or
  // two calls, which keeps the bit-vector reasoning of each proof small.

  lemma ShiftLeftDiffers(a: bv32, b: bv32)
    requires a < 0x1000000 && b < 0x1000000 && a != b
    ensures a << 1 != b << 1
  {
  }

  lemma LowBitClear(a: bv32)
    ensures (a << 1) & 1 == 0
  {
  }

  /** With bit 0 of both clear, the conditional XOR of POLY (whose bit 0 is
      set) can only map equal registers to equal results. */
  lemma ReductionInjective(s: bv32, t: bv32)
    requires s & 1 == 0 && t & 1 == 0
    ensures (if s & 0x1000000 != 0 then s ^ POLY else s) == (if t & 0x1000000 != 0 then t ^ POLY else t) ==> s == t
  {
  }

  /** Shift is one-to-one on 24-bit registers. */
  lemma ShiftDiffers(a: bv32, b: bv32)
    requires a < 0x1000000 && b < 0x1000000 && a != b
    ensures Shift(a) != Shift(b)
  {
    var sa, sb := a << 1, b << 1;
    ShiftOfShifted(a, sa);
    ShiftOfShifted(b, sb);
    ShiftLeftDiffers(a, b);
    LowBitClear(a);
    LowBitClear(b);
    ReductionInjective(sa, sb);
  }

  lemma {:induction false} ShiftsDiffer(a: bv32, b: bv32, k: nat)
    requires a < 0x1000000 && b < 0x1000000 && a != b
    ensures Shifts(a, k) != Shifts(b, k)
  {
    if k > 0 {
      ShiftsDiffer(a, b, k - 1);
      ShiftsBounded(a, k - 1);
      ShiftsBounded(b, k - 1);
      ShiftDiffers(Shifts(a, k - 1), Shifts(b, k - 1));
    }
  }

  /** Eight shifts of two different XOR-ed registers give different StepBits. */
  lemma StepBitsOfApart(a: bv32, b: bv32, x: bv32, y: bv32, sa: bv32, sb: bv32, k: nat)
    requires k == 8 && sa == a ^ (x << 16) && sb == b ^ (y << 16)
    requires sa < 0x1000000 && sb < 0x1000000 && sa != sb
    ensures StepBits(a, x) != StepBits(b, y)
  {
    ShiftsDiffer(sa, sb, k);
  }

  lemma XorSameDiffers(a: bv32, b: bv32, x: bv32)
    requires a < 0x1000000 && b < 0x1000000 && a != b && x < 256
    ensures a ^ (x << 16) != b ^ (x << 16)
    ensures a ^ (x << 16) < 0x1000000 && b ^ (x << 16) < 0x1000000
  {
    XorByteBounded(a, x);
    XorByteBounded(b, x);
  }

  lemma XorDifferentDiffers(crc: bv32, x: bv32, y: bv32)
    requires crc < 0x1000000 && x < 256 && y < 256 && x != y
    ensures crc ^ (x << 16) != crc ^ (y << 16)
    ensures crc ^ (x << 16) < 0x1000000 && crc ^ (y << 16) < 0x1000000
  {
    XorByteBounded(crc, x);
    XorByteBounded(crc, y);
  }

  lemma StepBitsSeparatesStates(a: bv32, b: bv32, x: bv32)
    requires a < 0x1000000 && b < 0x1000000 && a != b && x < 256
    ensures StepBits(a, x) != StepBits(b, x)
  {
    XorSameDiffers(a, b, x);
    StepBitsOfApart(a, b, x, x, a ^ (x << 16), b ^ (x << 16), 8);
  }

  lemma StepBitsSeparatesBytes(crc: bv32, x: bv32, y: bv32)
    requires crc < 0x1000000 && x < 256 && y < 256 && x != y
    ensures StepBits(crc, x) != StepBits(crc, y)
  {
    XorDifferentDiffers(crc, x, y);
    StepBitsOfApart(crc, crc, x, y, crc ^ (x << 16), crc ^ (y << 16), 8);
  }

  /** Two different registers stay different after the same byte. */
  lemma StepSeparatesStates(a: bv32, b: bv32, x: Byte)
    requires a < 0x1000000 && b < 0x1000000 && a != b
    ensures Step(a, x) != Step(b, x)
  {
    StepBitsSeparatesStates(a, b, ByteBits(x));
  }

  /** Two different registers stay different after the same bytes. */
  lemma {:induction false} FoldSeparatesStates(a: bv32, b: bv32, bytes: seq<Byte>)
    requires a < 0x1000000 && b < 0x1000000 && a != b
    ensures Fold(a, bytes) != Fold(b, bytes)
  {
    if bytes != [] {
      var front := bytes[..|bytes| - 1];
      FoldSeparatesStates(a, b, front);
      FoldBounded(a, front);
      FoldBounded(b, front);
      StepSeparatesStates(Fold(a, front), Fold(b, front), bytes[|bytes| - 1]);
    }
  }

  lemma HalfOfDouble(x: nat, d: nat)
    requires d > 0
    ensures x / (2 * d) == (x / d) / 2
  {
    var q, r := x / d, x % d;
    assert x == (q / 2) * (2 * d) + ((q % 2) * d + r);
    DivUnique(x, 2 * d, q / 2, (q % 2) * d + r);
  }

  /** A byte is the sum of its eight binary digits. */
  lemma ByteDigits(x: Byte)
    ensures x == 128 * ((x / 128) % 2) + 64 * ((x / 64) % 2) + 32 * ((x / 32) % 2) + 16 * ((x / 16) % 2)
      + 8 * ((x / 8) % 2) + 4 * ((x / 4) % 2) + 2 * ((x / 2) % 2) + x % 2
  {
    HalfOfDouble(x, 1);
    HalfOfDouble(x, 2);
    HalfOfDouble(x, 4);
    HalfOfDouble(x, 8);
    HalfOfDouble(x, 16);
    HalfOfDouble(x, 32);
    HalfOfDouble(x, 64);
  }

  /** Bytes with the same eight binary digits are equal. */
  lemma SameDigits(x: Byte, y: Byte)
    requires (x / 128) % 2 == (y / 128) % 2 && (x / 64) % 2 == (y / 64) % 2
    requires (x / 32) % 2 == (y / 32) % 2 && (x / 16) % 2 == (y / 16) % 2
    requires (x / 8) % 2 == (y / 8) % 2 && (x / 4) % 2 == (y / 4) % 2
    requires (x / 2) % 2 == (y / 2) % 2 && x % 2 == y % 2
    ensures x == y
  {
    ByteDigits(x);
    ByteDigits(y);
  }

  /** Each bit of ByteBits(b) is the matching binary digit of b. */
  lemma ByteBitsDigits(b: Byte)
    ensures (ByteBits(b) & 0x80 != 0 <==> (b / 128) % 2 == 1) && (ByteBits(b) & 0x40 != 0 <==> (b / 64) % 2 == 1)
    ensures (ByteBits(b) & 0x20 != 0 <==> (b / 32) % 2 == 1) && (ByteBits(b) & 0x10 != 0 <==> (b / 16) % 2 == 1)
    ensures (ByteBits(b) & 0x08 != 0 <==> (b / 8) % 2 == 1) && (ByteBits(b) & 0x04 != 0 <==> (b / 4) % 2 == 1)
    ensures (ByteBits(b) & 0x02 != 0 <==> (b / 2) % 2 == 1) && (ByteBits(b) & 0x01 != 0 <==> b % 2 == 1)
  {
  }

  /** Equal bit patterns have equal binary digits. */
  lemma SameBits(x: Byte, y: Byte)
    requires ByteBits(x) == ByteBits(y)
    ensures (x / 128) % 2 == (y / 128) % 2 && (x / 64) % 2 == (y / 64) % 2
    ensures (x / 32) % 2 == (y / 32) % 2 && (x / 16) % 2 == (y / 16) % 2
    ensures (x / 8) % 2 == (y / 8) % 2 && (x / 4) % 2 == (y / 4) % 2
    ensures (x / 2) % 2 == (y / 2) % 2 && x % 2 == y % 2
  {
    ByteBitsDigits(x);
    ByteBitsDigits(y);
  }

  /** Different bytes have different bit patterns. */
  lemma ByteBitsDiffer(x: Byte, y: Byte)
    requires x != y
    ensures ByteBits(x) != ByteBits(y)
  {
    if ByteBits(x) == ByteBits(y) {
      SameBits(x, y);
      SameDigits(x, y);
      assert false;
    }
  }

  /** From the same register, two different bytes lead to different registers. */
  lemma StepSeparatesBytes(crc: bv32, x: Byte, y: Byte)
    requires crc < 0x1000000 && x != y
    ensures Step(crc, x) != Step(crc, y)
  {
    ByteBitsDiffer(x, y);
    StepBitsSeparatesBytes(crc, ByteBits(x), ByteBits(y));
  }

  /** The registers after a + [x] and after a + [y] (x != y) differ. */
  lemma FoldSeparatesBytes(a: seq<Byte>, x: Byte, y: Byte)
    requires x != y
    ensures Fold(0, a + [x]) != Fold(0, a + [y])
    ensures Fold(0, a + [x]) < 0x1000000 && Fold(0, a + [y]) < 0x1000000
  {
    assert (a + [x])[..|a|] == a && (a + [y])[..|a|] == a;
    FoldBounded(0, a);
    StepSeparatesBytes(Fold(0, a), x, y);
    StepBounded(Fold(0, a), x);
    StepBounded(Fold(0, a), y);
  }

  lemma FoldDetectsByteChange(a: seq<Byte>, x: Byte, y: Byte, c: seq<Byte>)
    requires x != y
    ensures Fold(0, a + [x] + c) != Fold(0, a + [y] + c)
  {
    FoldAppend(0, a + [x], c);
    FoldAppend(0, a + [y], c);
    FoldSeparatesBytes(a, x, y);
    FoldSeparatesStates(Fold(0, a + [x]), Fold(0, a + [y]), c);
  }

  lemma AsIntRoundTrip(u: bv32)
    ensures (u as int) as bv32 == u
  {
  }

  lemma AsIntDiffers(u: bv32, v: bv32)
    requires u != v
    ensures u as int != v as int
  {
    AsIntRoundTrip(u);
    AsIntRoundTrip(v);
  }

  /** Different registers give different checksums. */
  lemma CrcOfDifferentFolds(p: seq<Byte>, q: seq<Byte>)
    requires Fold(0, p) != Fold(0, q)
    ensures Crc24(p) != Crc24(q)
  {
    AsIntDiffers(Fold(0, p), Fold(0, q));
  }

  /** The CRC detects every change confined to one byte: a + [x] + c and
      a + [y] + c have different checksums whenever x != y. In particular it
      detects every single-bit error. */
  lemma CrcDetectsByteChange(a: seq<Byte>, x: Byte, y: Byte, c: seq<Byte>)
    requires x != y
    ensures Crc24(a + [x] + c) != Crc24(a + [y] + c)
  {
    FoldDetectsByteChange(a, x, y, c);
    CrcOfDifferentFolds(a + [x] + c, a + [y] + c);
  }

  /** Crc24Q.calculate(buffer, offset, length). A length of zero or less is an
      empty range: the loop body never runs, nothing is read and the result
      is 0. */
  method Calculate(buffer: seq<Byte>, offset: int, length: int) returns (crc: int)
    requires length > 0 ==> 0 <= offset && offset + length <= |buffer|
    ensures length > 0 ==> crc == Crc24(buffer[offset .. offset + length])
    ensures length <= 0 ==> crc == 0
    ensures 0 <= crc < 0x1000000
  {
    if length <= 0 {
      return 0;
    }
    var c: bv32 := 0;
    var index := offset;
    while index < offset + length
      invariant offset <= index <= offset + length
      invariant c == Fold(0, buffer[offset .. index])
      invariant c < 0x1000000
    {
      var b := ByteBits(buffer[index]);
      XorByteBounded(c, b);
      ghost var before := c;
      c := c ^ (b << 16);
      ghost var start := c;
      var k := 0;
      while k < 8
        invariant 0 <= k <= 8
        invariant c == Shifts(start, k)
        invariant c < 0x1000000
      {
        ShiftBounded(c);
        ghost var previous := c;
        c := c << 1;
        ShiftOfShifted(previous, c);
        if c & 0x1000000 != 0 {
          c := c ^ POLY;
        }
        k := k + 1;
      }
      FoldOneMore(buffer, offset, index, before, start, k, c);
      index := index + 1;
    }
    MaskedFold(c, buffer[offset .. offset + length]);
    crc := (c & 0xFFFFFF) as int;
  }
}
