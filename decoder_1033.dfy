/** Message 1033, receiver and antenna descriptors (rtcm/decoders/Decoders1033.kt):
    two length-prefixed strings of 8-bit character codes around a setup id.
    The decoder has no truncation handling: a payload too short for the
    announced lengths fails. */
module Decoder1033 {
  import opened Basics
  import opened Bits
  import opened BitPayloadBuilder

  /** Message number 12, station 12, descriptor count 8. */
  const HEAD_BITS: nat := 32
  /** The head, the setup id 8 and the serial count 8, without the strings. */
  const FIXED_BITS: nat := 48

  datatype Message1033 = Message1033(
    stationId: nat, antennaDescriptor: string, antennaSetupId: nat, antennaSerial: string,
    bitsRemaining: nat)

  /** The count characters that start at bit start, one 8-bit code each
      (readAscii: `readUnsigned(8).toInt().toChar()`). */
  function Ascii(p: seq<Byte>, start: nat, count: nat): (s: string)
    requires start + 8 * count <= 8 * |p|
    ensures |s| == count
  {
    if count == 0 then []
    else Ascii(p, start, count - 1) + [Value(p, start + 8 * (count - 1), 8) as char]
  }

  /** Character i is the code in bits [start + 8i, start + 8i + 8), so below 256. */
  lemma {:induction false} AsciiAt(p: seq<Byte>, start: nat, count: nat, i: nat)
    requires start + 8 * count <= 8 * |p| && i < count
    ensures Ascii(p, start, count)[i] as int == Value(p, start + 8 * i, 8) < 256
  {
    if i < count - 1 {
      AsciiAt(p, start, count - 1, i);
    }
  }

  /** The three length checks of decode: the head, then the descriptor with
      the setup id and the serial count, then the serial. */
  predicate Fits(p: seq<Byte>)
  {
    HEAD_BITS <= 8 * |p|
      && (var n := Value(p, 24, 8);
          FIXED_BITS + 8 * n <= 8 * |p|
          && FIXED_BITS + 8 * n + 8 * Value(p, HEAD_BITS + 8 * n + 8, 8) <= 8 * |p|)
  }

  /** The message read from a payload that passes the checks. */
  function Fields(p: seq<Byte>): Message1033
    requires Fits(p)
  {
    var n := Value(p, 24, 8);
    var m := Value(p, HEAD_BITS + 8 * n + 8, 8);
    Message1033(Value(p, 12, 12), Ascii(p, HEAD_BITS, n), Value(p, HEAD_BITS + 8 * n, 8),
      Ascii(p, FIXED_BITS + 8 * n, m), 8 * |p| - FIXED_BITS - 8 * n - 8 * m)
  }

  /** What decode returns for a payload; Failure where a read runs off the end. */
  function Spec(p: seq<Byte>): Result<Message1033, DecodeError>
  {
    if Fits(p) then Success(Fields(p)) else Failure(OutOfBits)
  }

  /** readAscii(bits, count): fills a character array from count 8-bit reads. */
  method ReadAscii(bits: BitBuffer, count: nat) returns (s: string)
    requires bits.Valid() && 8 * count <= bits.BitsRemaining()
    modifies bits
    ensures bits.Valid() && bits.bitIndex == old(bits.bitIndex) + 8 * count
    ensures s == Ascii(bits.payload, old(bits.bitIndex), count)
  {
    ghost var start := bits.bitIndex;
    var chars := new char[count];
    for i := 0 to count
      invariant bits.Valid() && bits.bitIndex == start + 8 * i
      invariant chars[..i] == Ascii(bits.payload, start, i)
    {
      var code := bits.ReadUnsigned(8);
      chars[i] := code as char;
      assert chars[..i + 1] == chars[..i] + [chars[i]];
    }
    s := chars[..];
  }

  /** Decoders1033.decode. */
  method Decode(payload: seq<Byte>) returns (r: Result<Message1033, DecodeError>)
    ensures r == Spec(payload)
  {
    if 8 * |payload| < HEAD_BITS {
      return Failure(OutOfBits);
    }
    var bits := new BitBuffer(payload);
    var _ := bits.ReadUnsigned(12);
    var stationId := bits.ReadUnsigned(12);
    var descriptorCount := bits.ReadUnsigned(8);
    assert bits.bitIndex == HEAD_BITS;
    assert stationId == Value(payload, 12, 12) && descriptorCount == Value(payload, 24, 8);
    if bits.BitsRemaining() < 8 * descriptorCount + 16 {
      ShortDescriptor(payload);
      return Failure(OutOfBits);
    }
    var descriptor := ReadAscii(bits, descriptorCount);
    ghost var setupAt := bits.bitIndex;
    assert setupAt == HEAD_BITS + 8 * |descriptor| && descriptor == Ascii(payload, HEAD_BITS, descriptorCount);
    var setupId := bits.ReadUnsigned(8);
    ghost var countAt := bits.bitIndex;
    var serialCount := bits.ReadUnsigned(8);
    ghost var serialAt := bits.bitIndex;
    assert setupId == Value(payload, setupAt, 8) && serialCount == Value(payload, countAt, 8);
    if bits.BitsRemaining() < 8 * serialCount {
      ShortSerial(payload, setupAt, countAt);
      return Failure(OutOfBits);
    }
    var serial := ReadAscii(bits, serialCount);
    var message := Message1033(stationId, descriptor, setupId, serial, bits.BitsRemaining());
    Realign(payload, setupAt, countAt, serialAt, serialCount);
    SpecOfFields(message, payload, bits.BitsRemaining(), setupAt);
    assert message.(bitsRemaining := bits.BitsRemaining()) == message;
    r := Success(message);
  }

  /** The reads at the cursor positions are the reads at the offsets from setupAt.
      A separate step, so that Decode's own proof stays small. */
  lemma Realign(p: seq<Byte>, setupAt: nat, countAt: nat, serialAt: nat, k: nat)
    requires countAt == setupAt + 8 && serialAt == setupAt + 16 && serialAt + 8 * k <= 8 * |p|
    ensures Value(p, countAt, 8) == Value(p, setupAt + 8, 8) && Ascii(p, serialAt, k) == Ascii(p, setupAt + 16, k)
  {
  }

  /** Too few bits for the descriptor and the two fields after it. */
  lemma ShortDescriptor(p: seq<Byte>)
    requires HEAD_BITS <= 8 * |p| < FIXED_BITS + 8 * Value(p, 24, 8)
    ensures Spec(p) == Failure(OutOfBits)
  {
  }

  /** Too few bits for the serial. */
  lemma ShortSerial(p: seq<Byte>, setupAt: nat, countAt: nat)
    requires HEAD_BITS <= 8 * |p| && setupAt == HEAD_BITS + 8 * Value(p, 24, 8) && countAt == setupAt + 8
    requires countAt + 8 <= 8 * |p| < countAt + 8 + 8 * Value(p, countAt, 8)
    ensures Spec(p) == Failure(OutOfBits)
  {
  }

  /** A string the layout can carry: at most 255 characters, each an 8-bit code. */
  predicate EightBitString(s: string)
  {
    |s| < Pow2(8) && forall i :: 0 <= i < |s| ==> s[i] as int < Pow2(8)
  }

  /** The field ranges of a message that fits the layout. */
  predicate WellFormed(m: Message1033)
  {
    m.stationId < Pow2(12) && m.antennaSetupId < Pow2(8)
      && EightBitString(m.antennaDescriptor) && EightBitString(m.antennaSerial)
  }

  /** Decoding fails exactly when the payload is shorter than the head or than
      the head, the strings and the two 8-bit fields the head and the setup
      part announce; a decoded message fits the layout, its strings have the
      announced lengths and every bit is accounted for. */
  lemma DecodeOutcome(p: seq<Byte>)
    ensures Spec(p).Failure? <==>
      (8 * |p| < HEAD_BITS
       || 8 * |p| < FIXED_BITS + 8 * Value(p, 24, 8)
       || 8 * |p| < FIXED_BITS + 8 * Value(p, 24, 8) + 8 * Value(p, HEAD_BITS + 8 * Value(p, 24, 8) + 8, 8))
    ensures Spec(p).Success? ==>
      var m := Spec(p).value;
      && WellFormed(m)
      && |m.antennaDescriptor| == Value(p, 24, 8)
      && |m.antennaSerial| == Value(p, HEAD_BITS + 8 * |m.antennaDescriptor| + 8, 8)
      && m.bitsRemaining + FIXED_BITS + 8 * (|m.antennaDescriptor| + |m.antennaSerial|) == 8 * |p|
  {
    if Spec(p).Success? {
      var n := Value(p, 24, 8);
      var k := Value(p, HEAD_BITS + 8 * n + 8, 8);
      AsciiCodes(p, HEAD_BITS, n);
      AsciiCodes(p, FIXED_BITS + 8 * n, k);
    }
  }

  /** Every character of an Ascii read is an 8-bit code. */
  lemma AsciiCodes(p: seq<Byte>, start: nat, count: nat)
    requires start + 8 * count <= 8 * |p| && count < Pow2(8)
    ensures EightBitString(Ascii(p, start, count))
  {
    forall i | 0 <= i < count
      ensures Ascii(p, start, count)[i] as int < Pow2(8)
    {
      AsciiAt(p, start, count, i);
    }
  }

  // The round trip with payloads written the way the decoder tests build theirs.

  /** The character codes of s appended after bits a, 8 bits each. */
  function WithAscii(a: seq<bool>, s: string): (bits: seq<bool>)
    ensures |bits| == |a| + 8 * |s|
  {
    if |s| == 0 then a
    else WithAscii(a, s[..|s| - 1]) + UnsignedBits(s[|s| - 1] as int, 8)
  }

  /** The head after bits a: message number, station, descriptor count. */
  function WithHead(a: seq<bool>, m: Message1033): (bits: seq<bool>)
    ensures |bits| == |a| + HEAD_BITS
  {
    a + UnsignedBits(1033, 12) + UnsignedBits(m.stationId, 12) + UnsignedBits(|m.antennaDescriptor|, 8)
  }

  /** The setup id and the serial count after bits a. */
  function WithSetup(a: seq<bool>, m: Message1033): (bits: seq<bool>)
    ensures |bits| == |a| + 16
  {
    a + UnsignedBits(m.antennaSetupId, 8) + UnsignedBits(|m.antennaSerial|, 8)
  }

  function BuiltBits(m: Message1033): (bits: seq<bool>)
    ensures |bits| == FIXED_BITS + 8 * (|m.antennaDescriptor| + |m.antennaSerial|)
  {
    WithAscii(WithSetup(WithAscii(WithHead([], m), m.antennaDescriptor), m), m.antennaSerial)
  }

  /** A byte string carrying s after bits a reads s back at |a|. */
  lemma {:induction false} AsciiRead(p: seq<Byte>, a: seq<bool>, s: string, pos: nat)
    requires EightBitString(s) && Carries(p, WithAscii(a, s)) && pos == |a|
    ensures Carries(p, a) && pos + 8 * |s| <= 8 * |p| && Ascii(p, pos, |s|) == s
  {
    if |s| > 0 {
      var n := |s| - 1;
      var init := s[..n];
      assert s == init + [s[n]];
      var front := WithAscii(a, init);
      assert |front| == pos + 8 * n;
      ReadLast(p, front, s[n] as int, 8);
      AsciiRead(p, a, init, pos);
      assert Ascii(p, pos, n) == init;
      AsciiSnoc(p, pos, n, |s|);
      assert Ascii(p, pos, |s|) == init + [s[n]];
    }
  }

  /** One more character of an Ascii read, with count + 1 given as count1. */
  lemma AsciiSnoc(p: seq<Byte>, start: nat, count: nat, count1: nat)
    requires count1 == count + 1 && start + 8 * count1 <= 8 * |p|
    ensures Ascii(p, start, count1) == Ascii(p, start, count) + [Value(p, start + 8 * count, 8) as char]
  {
  }

  /** The setup part written at bit pos reads back. */
  lemma SetupRead(m: Message1033, p: seq<Byte>, a: seq<bool>, pos: nat, countAt: nat)
    requires WellFormed(m) && Carries(p, WithSetup(a, m)) && pos == |a| && countAt == pos + 8
    ensures Carries(p, a) && countAt + 8 <= 8 * |p|
    ensures Value(p, pos, 8) == m.antennaSetupId && Value(p, countAt, 8) == |m.antennaSerial|
  {
    var s1 := a + UnsignedBits(m.antennaSetupId, 8);
    ReadLast(p, s1, |m.antennaSerial|, 8);
    ReadLast(p, a, m.antennaSetupId, 8);
  }

  /** The head written from bit 0 reads back. */
  lemma HeadRead(m: Message1033, p: seq<Byte>, a: seq<bool>)
    requires WellFormed(m) && |a| == 0 && Carries(p, WithHead(a, m))
    ensures HEAD_BITS <= 8 * |p|
    ensures Value(p, 0, 12) == 1033 && Value(p, 12, 12) == m.stationId && Value(p, 24, 8) == |m.antennaDescriptor|
  {
    var s1 := a + UnsignedBits(1033, 12);
    var s2 := s1 + UnsignedBits(m.stationId, 12);
    ReadLast(p, s2, |m.antennaDescriptor|, 8);
    ReadLast(p, s1, m.stationId, 12);
    ReadLast(p, a, 1033, 12);
  }

  /** The part written after bits front reads back: the setup id at
      setupAt, the serial count and the serial. */
  lemma TailRead(m: Message1033, p: seq<Byte>, front: seq<bool>, setupAt: nat)
    requires WellFormed(m) && setupAt == |front| && Carries(p, WithAscii(WithSetup(front, m), m.antennaSerial))
    ensures Carries(p, front)
    ensures setupAt + 16 + 8 * |m.antennaSerial| <= 8 * |p|
    ensures Value(p, setupAt, 8) == m.antennaSetupId && Value(p, setupAt + 8, 8) == |m.antennaSerial|
    ensures Ascii(p, setupAt + 16, |m.antennaSerial|) == m.antennaSerial
  {
    AsciiRead(p, WithSetup(front, m), m.antennaSerial, setupAt + 16);
    SetupRead(m, p, front, setupAt, setupAt + 8);
  }

  /** The head and the descriptor read back. */
  lemma FrontRead(m: Message1033, p: seq<Byte>)
    requires WellFormed(m) && Carries(p, WithAscii(WithHead([], m), m.antennaDescriptor))
    ensures HEAD_BITS + 8 * |m.antennaDescriptor| <= 8 * |p|
    ensures Value(p, 12, 12) == m.stationId && Value(p, 24, 8) == |m.antennaDescriptor|
    ensures Ascii(p, HEAD_BITS, |m.antennaDescriptor|) == m.antennaDescriptor
  {
    AsciiRead(p, WithHead([], m), m.antennaDescriptor, HEAD_BITS);
    HeadRead(m, p, []);
  }

  /** A byte string carrying the built bits reads every field back. */
  lemma FieldsRead(m: Message1033, p: seq<Byte>, setupAt: nat)
    requires WellFormed(m) && Carries(p, BuiltBits(m)) && setupAt == HEAD_BITS + 8 * |m.antennaDescriptor|
    ensures setupAt + 16 + 8 * |m.antennaSerial| <= 8 * |p|
    ensures Value(p, 12, 12) == m.stationId && Value(p, 24, 8) == |m.antennaDescriptor|
    ensures Ascii(p, HEAD_BITS, |m.antennaDescriptor|) == m.antennaDescriptor
    ensures Value(p, setupAt, 8) == m.antennaSetupId && Value(p, setupAt + 8, 8) == |m.antennaSerial|
    ensures Ascii(p, setupAt + 16, |m.antennaSerial|) == m.antennaSerial
  {
    var front := WithAscii(WithHead([], m), m.antennaDescriptor);
    TailRead(m, p, front, setupAt);
    FrontRead(m, p);
  }

  /** Any byte string carrying the built bits followed by rest more bits
      decodes to the message with those bits left over. */
  lemma CarrierDecodes(m: Message1033, p: seq<Byte>, rest: nat)
    requires WellFormed(m) && Carries(p, BuiltBits(m))
    requires 8 * |p| == FIXED_BITS + 8 * (|m.antennaDescriptor| + |m.antennaSerial|) + rest
    ensures Spec(p) == Success(m.(bitsRemaining := rest))
  {
    var setupAt := HEAD_BITS + 8 * |m.antennaDescriptor|;
    FieldsRead(m, p, setupAt);
    SpecOfFields(m, p, rest, setupAt);
  }

  /** A byte string whose fields read as those of m, the setup part at
      setupAt, with rest bits after the serial, decodes to m with those bits
      left over. */
  lemma SpecOfFields(m: Message1033, p: seq<Byte>, rest: nat, setupAt: nat)
    requires setupAt == HEAD_BITS + 8 * |m.antennaDescriptor|
    requires 8 * |p| == setupAt + 16 + 8 * |m.antennaSerial| + rest
    requires Value(p, 12, 12) == m.stationId && Value(p, 24, 8) == |m.antennaDescriptor|
    requires Ascii(p, HEAD_BITS, |m.antennaDescriptor|) == m.antennaDescriptor
    requires Value(p, setupAt, 8) == m.antennaSetupId && Value(p, setupAt + 8, 8) == |m.antennaSerial|
    requires Ascii(p, setupAt + 16, |m.antennaSerial|) == m.antennaSerial
    ensures Spec(p) == Success(m.(bitsRemaining := rest))
  {
    var n, k := Value(p, 24, 8), |m.antennaSerial|;
    assert HEAD_BITS + 8 * n == setupAt && FIXED_BITS + 8 * n == setupAt + 16;
    assert Value(p, HEAD_BITS + 8 * n + 8, 8) == k;
    assert Fits(p);
    var v := Fields(p);
    assert v.stationId == m.stationId;
    assert v.antennaDescriptor == m.antennaDescriptor;
    assert v.antennaSetupId == m.antennaSetupId;
    assert v.antennaSerial == Ascii(p, setupAt + 16, k) == m.antennaSerial;
    assert v.bitsRemaining == rest;
  }

  /** Decoding the built payload gives the message back with no bits left:
      the layout always fills whole bytes. */
  lemma RoundTrip(m: Message1033)
    requires WellFormed(m)
    ensures Spec(ToByteArray(BuiltBits(m))) == Success(m.(bitsRemaining := 0))
  {
    var bits := BuiltBits(m);
    NoPadding(|bits|, 6 + |m.antennaDescriptor| + |m.antennaSerial|);
    ByteArrayCarries(bits);
    CarrierDecodes(m, ToByteArray(bits), 0);
  }
}
