/** Message 1230, GLONASS code-phase biases (rtcm/decoders/Decoders1230.kt):
    only the fixed 33-bit head is decoded. */
module Decoder1230 {
  import opened Basics
  import opened Bits
  import opened BitPayloadBuilder

  /** Message number 12, station 12, one skipped bit, two 4-bit masks. */
  const MESSAGE_BITS: nat := 33

  datatype Message1230 = Message1230(stationId: nat, codePhaseBiasMask: nat, fdmaSignalMask: nat, bitsRemaining: nat)

  /** What decode returns for a payload; Failure where a read runs off the end. */
  function Spec(p: seq<Byte>): Result<Message1230, DecodeError>
  {
    if 8 * |p| < MESSAGE_BITS then Failure(OutOfBits)
    else Success(Message1230(Value(p, 12, 12), Value(p, 25, 4), Value(p, 29, 4), 8 * |p| - MESSAGE_BITS))
  }

  /** Decoders1230.decode. */
  method Decode(payload: seq<Byte>) returns (r: Result<Message1230, DecodeError>)
    ensures r == Spec(payload)
  {
    if 8 * |payload| < MESSAGE_BITS {
      return Failure(OutOfBits);
    }
    var bits := new BitBuffer(payload);
    var _ := bits.ReadUnsigned(12);
    var stationId := bits.ReadUnsigned(12);
    var _ := bits.ReadUnsigned(1);
    var codePhaseBiasMask := bits.ReadUnsigned(4);
    var fdmaSignalMask := bits.ReadUnsigned(4);
    r := Success(Message1230(stationId, codePhaseBiasMask, fdmaSignalMask, bits.BitsRemaining()));
  }

  /** The field ranges of a message that fits the layout. */
  predicate WellFormed(m: Message1230)
  {
    m.stationId < Pow2(12) && m.codePhaseBiasMask < Pow2(4) && m.fdmaSignalMask < Pow2(4)
  }

  /** Decoding fails exactly on payloads shorter than five bytes; a decoded
      message fits the layout and accounts for every bit. */
  lemma DecodeOutcome(p: seq<Byte>)
    ensures Spec(p).Failure? <==> |p| < 5
    ensures Spec(p).Success? ==> WellFormed(Spec(p).value) && Spec(p).value.bitsRemaining + MESSAGE_BITS == 8 * |p|
  {
  }

  /** The bits the decoder tests would append for a message (BitPayloadBuilder). */
  function BuiltBits(m: Message1230): (bits: seq<bool>)
    requires WellFormed(m)
    ensures |bits| == MESSAGE_BITS
  {
    UnsignedBits(1230, 12) + UnsignedBits(m.stationId, 12) + UnsignedBits(0, 1)
      + UnsignedBits(m.codePhaseBiasMask, 4) + UnsignedBits(m.fdmaSignalMask, 4)
  }

  /** A byte string carrying the built bits reads every field back at its offset. */
  lemma FieldsRead(m: Message1230, p: seq<Byte>)
    requires WellFormed(m) && Carries(p, BuiltBits(m))
    ensures && MESSAGE_BITS <= 8 * |p|
      && Value(p, 0, 12) == 1230
      && Value(p, 12, 12) == m.stationId
      && Value(p, 25, 4) == m.codePhaseBiasMask
      && Value(p, 29, 4) == m.fdmaSignalMask
  {
    var s1 := UnsignedBits(1230, 12);
    var s2 := s1 + UnsignedBits(m.stationId, 12);
    var s3 := s2 + UnsignedBits(0, 1);
    var s4 := s3 + UnsignedBits(m.codePhaseBiasMask, 4);
    ReadLast(p, s4, m.fdmaSignalMask, 4);
    ReadLast(p, s3, m.codePhaseBiasMask, 4);
    ReadLast(p, s2, 0, 1);
    ReadLast(p, s1, m.stationId, 12);
    assert [] + s1 == s1;
    ReadLast(p, [], 1230, 12);
  }

  /** Decoding the built payload gives the message back, with the seven padding
      bits of the last byte left over. */
  lemma RoundTrip(m: Message1230)
    requires WellFormed(m)
    ensures Spec(ToByteArray(BuiltBits(m))) == Success(m.(bitsRemaining := 7))
  {
    var p := ToByteArray(BuiltBits(m));
    ByteArrayCarries(BuiltBits(m));
    FieldsRead(m, p);
    assert |p| == 5;
  }
}
