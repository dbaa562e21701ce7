/** The bit-string builder that the decoder tests use to write payloads
    (RtcmDecoderTests.kt, class BitPayloadBuilder), and the round trip: a value
    written MSB-first at some width is read back by `Bits.Value` unchanged. */
module BitPayloadBuilder {
  import opened Basics
  import opened Bits

  /** The low `width` bits of v, most significant first (appendUnsigned).
      Unlike the test builder, which demands `width > 0` and masks any Long,
      this takes width 0 (the empty string) and only non-negative values. */
  function UnsignedBits(v: nat, width: nat): (r: seq<bool>)
    ensures |r| == width
  {
    if width == 0 then [] else UnsignedBits(v / 2, width - 1) + [v % 2 == 1]
  }

  /** appendSigned: a negative value is written as 2^width + value. The test
      builder wraps a value outside the width's two's-complement range; here
      the value must lie in that range. */
  function SignedBits(v: int, width: nat): (r: seq<bool>)
    requires 1 <= width <= 63 && -(Pow2(width - 1) as int) <= v < Pow2(width - 1)
    ensures |r| == width
  {
    UnsignedBits(FromSigned(v, width), width)
  }

  function BitValue(b: bool): nat { if b then 1 else 0 }

  /** The MSB-first value of a bit string (`String.toInt(2)`). */
  function NatOfBits(bs: seq<bool>): (v: nat)
    ensures v < Pow2(|bs|)
  {
    if |bs| == 0 then 0 else 2 * NatOfBits(bs[..|bs| - 1]) + BitValue(bs[|bs| - 1])
  }

  /** The zero bits toByteArray appends to n bits to fill the last byte. */
  function PaddingBits(n: nat): (pad: nat)
    ensures pad < 8 && (n + pad) % 8 == 0
  {
    (8 - n % 8) % 8
  }

  /** A whole number of bytes needs no padding. */
  lemma NoPadding(n: nat, k: nat)
    requires n == 8 * k
    ensures PaddingBits(n) == 0
  {
    DivUnique(n, 8, k, 0);
  }

  /** toByteArray: pad with zero bits to a whole byte, then pack 8 bits per byte. */
  function ToByteArray(bits: seq<bool>): (p: seq<Byte>)
    ensures |p| == (|bits| + 7) / 8
    ensures 8 * |p| == |bits| + PaddingBits(|bits|)
  {
    var pad := PaddingBits(|bits|);
    DivUnique(|bits| + pad, 8, (|bits| + pad) / 8, 0);
    DivUnique(|bits| + 7, 8, (|bits| + pad) / 8, 7 - pad);
    PackBytes(bits + seq(pad, _ => false))
  }

  function PackBytes(bs: seq<bool>): (p: seq<Byte>)
    requires |bs| % 8 == 0
    ensures |p| == |bs| / 8
  {
    if |bs| == 0 then [] else
      Pow2Monotonic(8, 8);
      [NatOfBits(bs[..8]) as Byte] + PackBytes(bs[8..])
  }

  lemma {:induction false} NatOfUnsignedBits(v: nat, width: nat)
    requires v < Pow2(width)
    ensures NatOfBits(UnsignedBits(v, width)) == v
  {
    if width > 0 {
      var r := UnsignedBits(v, width);
      assert r[..width - 1] == UnsignedBits(v / 2, width - 1);
      NatOfUnsignedBits(v / 2, width - 1);
    }
  }

  /** Bit k of a bit string's value is the k-th element (MSB-first). */
  lemma {:induction false} NatOfBitsAt(g: seq<bool>, k: nat)
    requires k < |g|
    ensures ShiftRight(NatOfBits(g), |g| - 1 - k) % 2 == BitValue(g[k])
  {
    var n := |g|;
    var init, last := g[..n - 1], BitValue(g[n - 1]);
    assert NatOfBits(g) == 2 * NatOfBits(init) + last;
    DivUnique(NatOfBits(g), 2, NatOfBits(init), last);
    if k < n - 1 {
      NatOfBitsAt(init, k);
      assert init[k] == g[k];
    }
  }

  lemma {:induction false} PackBytesAt(bs: seq<bool>, j: nat)
    requires |bs| % 8 == 0 && j < |bs| / 8
    ensures PackBytes(bs)[j] == NatOfBits(bs[8 * j .. 8 * j + 8])
  {
    if j > 0 {
      var rest := bs[8..];
      PackBytesAt(rest, j - 1);
      var a := 8 * (j - 1);
      assert a + 8 == 8 * j && a + 16 == 8 * j + 8;
      var s, t := rest[a .. a + 8], bs[a + 8 .. a + 16];
      forall k | 0 <= k < 8
        ensures s[k] == t[k]
      {
      }
      assert s == t;
    }
  }

  /** Every written bit is read back at its position. */
  lemma BitOfByteArray(bits: seq<bool>, i: nat)
    requires i < |bits|
    ensures i < 8 * |ToByteArray(bits)|
    ensures Bit(ToByteArray(bits), i) == BitValue(bits[i])
  {
    var padded := bits + seq((8 - |bits| % 8) % 8, _ => false);
    var j, k := i / 8, i % 8;
    BitAt(ToByteArray(bits), i);
    PackBytesAt(padded, j);
    var g := padded[8 * j .. 8 * j + 8];
    NatOfBitsAt(g, k);
    assert g[k] == bits[i];
  }

  /** p carries a bit string: its first |bits| bits are those bits, in order. */
  predicate Carries(p: seq<Byte>, bits: seq<bool>)
  {
    |bits| <= 8 * |p| && forall i {:trigger CarriedBit(p, i)} :: 0 <= i < |bits| ==> BitValue(bits[i]) == CarriedBit(p, i)
  }

  /** Bit i of p, as Carries compares it (a name of its own, so that the
      comparison is only drawn on where a proof asks for it). */
  function CarriedBit(p: seq<Byte>, i: nat): (r: nat)
    requires i < 8 * |p|
    ensures r == Bit(p, i)
  {
    Bit(p, i)
  }

  /** s matches p from `start`: each of its bits is the bit of p at that offset. */
  predicate MatchesAt(p: seq<Byte>, start: nat, s: seq<bool>)
  {
    start + |s| <= 8 * |p| && forall i :: 0 <= i < |s| ==> BitValue(s[i]) == Bit(p, start + i)
  }

  /** The bits of p from `start` that match s read as s's value. */
  lemma {:induction false} ValueOfMatchingBits(p: seq<Byte>, start: nat, s: seq<bool>)
    requires MatchesAt(p, start, s)
    decreases |s|
    ensures Value(p, start, |s|) == NatOfBits(s)
  {
    var n := |s|;
    if n > 0 {
      var init := s[..n - 1];
      assert BitValue(s[n - 1]) == Bit(p, start + n - 1);
      forall i | 0 <= i < n - 1
        ensures BitValue(init[i]) == Bit(p, start + i)
      {
        assert init[i] == s[i];
      }
      assert MatchesAt(p, start, init);
      ValueOfMatchingBits(p, start, init);
    }
  }

  /** A byte string that carries a bit string reads back its values. */
  lemma ValueOfCarriedBits(p: seq<Byte>, bits: seq<bool>, start: nat, n: nat)
    requires Carries(p, bits) && start + n <= |bits|
    ensures Value(p, start, n) == NatOfBits(bits[start .. start + n])
  {
    var s := bits[start .. start + n];
    forall i | 0 <= i < n
      ensures BitValue(s[i]) == Bit(p, start + i)
    {
      assert s[i] == bits[start + i];
      assert BitValue(bits[start + i]) == CarriedBit(p, start + i);
    }
    assert MatchesAt(p, start, s);
    ValueOfMatchingBits(p, start, s);
  }

  /** toByteArray carries the bits it packs. */
  lemma ByteArrayCarries(bits: seq<bool>)
    ensures Carries(ToByteArray(bits), bits)
  {
    var p := ToByteArray(bits);
    forall i | 0 <= i < |bits|
      ensures BitValue(bits[i]) == CarriedBit(p, i)
    {
      BitOfByteArray(bits, i);
    }
  }

  lemma ValueOfByteArray(bits: seq<bool>, start: nat, n: nat)
    requires start + n <= |bits|
    ensures start + n <= 8 * |ToByteArray(bits)|
    ensures Value(ToByteArray(bits), start, n) == NatOfBits(bits[start .. start + n])
  {
    ByteArrayCarries(bits);
    ValueOfCarriedBits(ToByteArray(bits), bits, start, n);
  }

  /** Round trip of appendUnsigned and BitBuffer.readUnsigned. */
  lemma ReadBackUnsigned(before: seq<bool>, v: nat, width: nat, after: seq<bool>)
    requires v < Pow2(width)
    ensures |before| + width <= 8 * |ToByteArray(before + UnsignedBits(v, width) + after)|
    ensures Value(ToByteArray(before + UnsignedBits(v, width) + after), |before|, width) == v
  {
    var bits := before + UnsignedBits(v, width) + after;
    ValueOfByteArray(bits, |before|, width);
    assert bits[|before| .. |before| + width] == UnsignedBits(v, width);
    NatOfUnsignedBits(v, width);
  }

  /** Round trip of appendSigned and BitBuffer.readSigned (two's complement). */
  lemma ReadBackSigned(before: seq<bool>, v: int, width: nat, after: seq<bool>)
    requires 1 <= width <= 63 && -(Pow2(width - 1) as int) <= v < Pow2(width - 1)
    ensures |before| + width <= 8 * |ToByteArray(before + SignedBits(v, width) + after)|
    ensures ToSigned(Value(ToByteArray(before + SignedBits(v, width) + after), |before|, width), width) == v
  {
    ReadBackUnsigned(before, FromSigned(v, width), width, after);
    SignedRoundTrip(v, width);
  }

  // Payloads as the tests build them: each message's appendUnsigned and
  // appendSigned calls become a left-to-right concatenation of bit strings.
  // A field is read back by peeling the fields after it off the end.

  /** A flag as the tests append it: one bit, 1 for true. */
  function FlagBit(b: bool): (v: nat)
    ensures v < Pow2(1) && (v == 1 <==> b)
  {
    if b then 1 else 0
  }

  /** The field appended last is read back at the length of what came before it,
      and what came before it is still carried. */
  lemma ReadLast(p: seq<Byte>, before: seq<bool>, v: nat, w: nat)
    requires v < Pow2(w) && Carries(p, before + UnsignedBits(v, w))
    ensures Carries(p, before)
    ensures |before| + w <= 8 * |p| && Value(p, |before|, w) == v
  {
    CarriesBefore(p, before, UnsignedBits(v, w));
    ValueAfter(p, before, UnsignedBits(v, w));
    NatOfUnsignedBits(v, w);
  }

  /** What a carried concatenation starts with is carried too. */
  lemma CarriesBefore(p: seq<Byte>, before: seq<bool>, after: seq<bool>)
    requires Carries(p, before + after)
    ensures Carries(p, before)
  {
    var bits := before + after;
    forall i | 0 <= i < |before|
      ensures BitValue(before[i]) == CarriedBit(p, i)
    {
      assert bits[i] == before[i];
    }
  }

  /** A byte string that carries bits carries each prefix of them. */
  lemma CarriesPrefix(p: seq<Byte>, bits: seq<bool>, k: nat)
    requires Carries(p, bits) && k <= |bits|
    ensures Carries(p, bits[..k])
  {
    forall i | 0 <= i < k
      ensures BitValue(bits[..k][i]) == CarriedBit(p, i)
    {
      assert bits[..k][i] == bits[i];
    }
  }

  /** What a carried concatenation ends with is read at the length of its start. */
  lemma ValueAfter(p: seq<Byte>, before: seq<bool>, after: seq<bool>)
    requires Carries(p, before + after)
    ensures |before| + |after| <= 8 * |p|
    ensures Value(p, |before|, |after|) == NatOfBits(after)
  {
    AfterBitsMatch(p, before, after);
    ValueOfMatchingBits(p, |before|, after);
  }

  /** Each bit of what a carried concatenation ends with is the bit of p after
      the start. */
  lemma AfterBitsMatch(p: seq<Byte>, before: seq<bool>, after: seq<bool>)
    requires Carries(p, before + after)
    ensures MatchesAt(p, |before|, after)
  {
    var bits, k := before + after, |before|;
    forall i | 0 <= i < |after|
      ensures BitValue(after[i]) == Bit(p, k + i)
    {
      assert bits[k + i] == after[i];
      assert BitValue(bits[k + i]) == CarriedBit(p, k + i);
    }
  }

  /** The signed counterpart of ReadLast (appendSigned, then readSigned). */
  lemma ReadLastSigned(p: seq<Byte>, before: seq<bool>, v: int, w: nat)
    requires 1 <= w <= 63 && -(Pow2(w - 1) as int) <= v < Pow2(w - 1)
    requires Carries(p, before + SignedBits(v, w))
    ensures Carries(p, before)
    ensures |before| + w <= 8 * |p| && ToSigned(Value(p, |before|, w), w) == v
  {
    ReadLast(p, before, FromSigned(v, w), w);
    SignedRoundTrip(v, w);
  }
}
