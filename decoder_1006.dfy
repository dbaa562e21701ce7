/** Message 1006, stationary reference station position with antenna height
    (rtcm/decoders/Decoders1006.kt): a fixed 168-bit layout. */
module Decoder1006 {
  import opened Basics
  import opened Bits
  import opened BitPayloadBuilder

  /** Message number 12, station 12, ITRF year 6, four flags with one reserved
      bit among them, three 38-bit ECEF coordinates separated by 1 and 2
      reserved bits, antenna height 16. */
  const MESSAGE_BITS: nat := 168

  datatype Message1006 = Message1006(
    stationId: nat, itrfYear: nat,
    gpsIndicator: bool, glonassIndicator: bool, galileoIndicator: bool, referenceStationIndicator: bool,
    ecefX: int, ecefY: int, ecefZ: int,  // units of 0.1 mm
    antennaHeight: nat)                    // mm

  /** What decode returns for a payload; Failure where a read runs off the end. */
  function Spec(p: seq<Byte>): Result<Message1006, DecodeError>
  {
    if 8 * |p| < MESSAGE_BITS then Failure(OutOfBits)
    else Success(Message1006(
      Value(p, 12, 12), Value(p, 24, 6),
      Value(p, 30, 1) == 1, Value(p, 31, 1) == 1, Value(p, 32, 1) == 1, Value(p, 34, 1) == 1,
      ToSigned(Value(p, 35, 38), 38), ToSigned(Value(p, 74, 38), 38), ToSigned(Value(p, 114, 38), 38),
      Value(p, 152, 16)))
  }

  /** The reads up to the first coordinate: station, ITRF year and the flags. */
  method ReadStation(bits: BitBuffer) returns (stationId: nat, itrfYear: nat, gps: nat, glonass: nat, galileo: nat, reference: nat)
    requires bits.Valid() && bits.bitIndex == 0 && MESSAGE_BITS <= 8 * |bits.payload|
    modifies bits
    ensures bits.Valid() && bits.bitIndex == 35
    ensures stationId == Value(bits.payload, 12, 12) && itrfYear == Value(bits.payload, 24, 6)
    ensures gps == Value(bits.payload, 30, 1) && glonass == Value(bits.payload, 31, 1)
    ensures galileo == Value(bits.payload, 32, 1) && reference == Value(bits.payload, 34, 1)
  {
    var _ := bits.ReadUnsigned(12);
    stationId := bits.ReadUnsigned(12);
    itrfYear := bits.ReadUnsigned(6);
    gps := bits.ReadUnsigned(1);
    glonass := bits.ReadUnsigned(1);
    galileo := bits.ReadUnsigned(1);
    var _ := bits.ReadUnsigned(1);
    reference := bits.ReadUnsigned(1);
  }

  /** The reads of the three coordinates and the antenna height. */
  method ReadPosition(bits: BitBuffer) returns (x: int, y: int, z: int, height: nat)
    requires bits.Valid() && bits.bitIndex == 35 && MESSAGE_BITS <= 8 * |bits.payload|
    modifies bits
    ensures bits.Valid() && bits.bitIndex == MESSAGE_BITS
    ensures x == ToSigned(Value(bits.payload, 35, 38), 38) && y == ToSigned(Value(bits.payload, 74, 38), 38)
    ensures z == ToSigned(Value(bits.payload, 114, 38), 38) && height == Value(bits.payload, 152, 16)
  {
    x := bits.ReadSigned(38);
    var _ := bits.ReadUnsigned(1);
    y := bits.ReadSigned(38);
    var _ := bits.ReadUnsigned(2);
    z := bits.ReadSigned(38);
    height := bits.ReadUnsigned(16);
  }

  /** Decoders1006.decode. */
  method Decode(payload: seq<Byte>) returns (r: Result<Message1006, DecodeError>)
    ensures r == Spec(payload)
  {
    if 8 * |payload| < MESSAGE_BITS {
      return Failure(OutOfBits);
    }
    var bits := new BitBuffer(payload);
    var stationId, itrfYear, gps, glonass, galileo, reference := ReadStation(bits);
    var x, y, z, height := ReadPosition(bits);
    r := Success(Message1006(stationId, itrfYear, gps == 1, glonass == 1, galileo == 1, reference == 1, x, y, z, height));
  }

  /** The field ranges of a message that fits the layout. */
  predicate WellFormed(m: Message1006)
  {
    && m.stationId < Pow2(12) && m.itrfYear < Pow2(6) && m.antennaHeight < Pow2(16)
    && -(Pow2(37) as int) <= m.ecefX < Pow2(37)
    && -(Pow2(37) as int) <= m.ecefY < Pow2(37)
    && -(Pow2(37) as int) <= m.ecefZ < Pow2(37)
  }

  /** Decoding fails exactly on payloads shorter than 21 bytes, and a decoded
      message fits the layout. */
  lemma DecodeOutcome(p: seq<Byte>)
    ensures Spec(p).Failure? <==> |p| < 21
    ensures Spec(p).Success? ==> WellFormed(Spec(p).value)
  {
  }

  // The round trip with the payloads the decoder tests build.

  /** The station part the decoder tests would append (BitPayloadBuilder) after
      bits a: message number, station and ITRF year, then the flags. */
  function WithStation(a: seq<bool>, m: Message1006): (bits: seq<bool>)
    requires WellFormed(m)
    ensures |bits| == |a| + 35
  {
    WithFlags(a + UnsignedBits(1006, 12) + UnsignedBits(m.stationId, 12) + UnsignedBits(m.itrfYear, 6), m)
  }

  /** The four flags after bits a, the reserved bit among them written as zero. */
  function WithFlags(a: seq<bool>, m: Message1006): (bits: seq<bool>)
    ensures |bits| == |a| + 5
  {
    a + UnsignedBits(FlagBit(m.gpsIndicator), 1) + UnsignedBits(FlagBit(m.glonassIndicator), 1)
      + UnsignedBits(FlagBit(m.galileoIndicator), 1) + UnsignedBits(0, 1)
      + UnsignedBits(FlagBit(m.referenceStationIndicator), 1)
  }

  /** The position part appended after bits a: three coordinates with their
      reserved bits, then the height. */
  function WithPosition(a: seq<bool>, m: Message1006): (bits: seq<bool>)
    requires WellFormed(m)
    ensures |bits| == |a| + 133
  {
    a + SignedBits(m.ecefX, 38) + UnsignedBits(0, 1) + SignedBits(m.ecefY, 38) + UnsignedBits(0, 2)
      + SignedBits(m.ecefZ, 38) + UnsignedBits(m.antennaHeight, 16)
  }

  function BuiltBits(m: Message1006): (bits: seq<bool>)
    requires WellFormed(m)
    ensures |bits| == MESSAGE_BITS
  {
    WithPosition(WithStation([], m), m)
  }

  /** A byte string carrying the station part, written from bit 0, reads its fields back. */
  lemma StationFieldsRead(m: Message1006, p: seq<Byte>, a: seq<bool>)
    requires WellFormed(m) && |a| == 0 && Carries(p, WithStation(a, m))
    ensures && 35 <= 8 * |p|
      && Value(p, 0, 12) == 1006 && Value(p, 12, 12) == m.stationId && Value(p, 24, 6) == m.itrfYear
      && (Value(p, 30, 1) == 1 <==> m.gpsIndicator) && (Value(p, 31, 1) == 1 <==> m.glonassIndicator)
      && (Value(p, 32, 1) == 1 <==> m.galileoIndicator) && (Value(p, 34, 1) == 1 <==> m.referenceStationIndicator)
  {
    var s1 := a + UnsignedBits(1006, 12);
    var s2 := s1 + UnsignedBits(m.stationId, 12);
    var s3 := s2 + UnsignedBits(m.itrfYear, 6);
    FlagsRead(m, p, s3);
    ReadLast(p, s2, m.itrfYear, 6);
    ReadLast(p, s1, m.stationId, 12);
    ReadLast(p, a, 1006, 12);
  }

  /** The flags written after 30 bits read back. */
  lemma FlagsRead(m: Message1006, p: seq<Byte>, a: seq<bool>)
    requires |a| == 30 && Carries(p, WithFlags(a, m))
    ensures Carries(p, a) && 35 <= 8 * |p|
    ensures && (Value(p, 30, 1) == 1 <==> m.gpsIndicator) && (Value(p, 31, 1) == 1 <==> m.glonassIndicator)
      && (Value(p, 32, 1) == 1 <==> m.galileoIndicator) && (Value(p, 34, 1) == 1 <==> m.referenceStationIndicator)
  {
    var s1 := a + UnsignedBits(FlagBit(m.gpsIndicator), 1);
    var s2 := s1 + UnsignedBits(FlagBit(m.glonassIndicator), 1);
    var s3 := s2 + UnsignedBits(FlagBit(m.galileoIndicator), 1);
    var s4 := s3 + UnsignedBits(0, 1);
    ReadLast(p, s4, FlagBit(m.referenceStationIndicator), 1);
    ReadLast(p, s3, 0, 1);
    ReadLast(p, s2, FlagBit(m.galileoIndicator), 1);
    ReadLast(p, s1, FlagBit(m.glonassIndicator), 1);
    ReadLast(p, a, FlagBit(m.gpsIndicator), 1);
  }

  /** A byte string carrying the position part after 35 bits reads its fields back. */
  lemma PositionFieldsRead(m: Message1006, p: seq<Byte>, a: seq<bool>)
    requires WellFormed(m) && |a| == 35 && Carries(p, WithPosition(a, m))
    ensures Carries(p, a)
    ensures && MESSAGE_BITS <= 8 * |p|
      && ToSigned(Value(p, 35, 38), 38) == m.ecefX && ToSigned(Value(p, 74, 38), 38) == m.ecefY
      && ToSigned(Value(p, 114, 38), 38) == m.ecefZ && Value(p, 152, 16) == m.antennaHeight
  {
    var s1 := a + SignedBits(m.ecefX, 38);
    var s2 := s1 + UnsignedBits(0, 1);
    var s3 := s2 + SignedBits(m.ecefY, 38);
    var s4 := s3 + UnsignedBits(0, 2);
    var s5 := s4 + SignedBits(m.ecefZ, 38);
    ReadLast(p, s5, m.antennaHeight, 16);
    ReadLastSigned(p, s4, m.ecefZ, 38);
    ReadLast(p, s3, 0, 2);
    ReadLastSigned(p, s2, m.ecefY, 38);
    ReadLast(p, s1, 0, 1);
    ReadLastSigned(p, a, m.ecefX, 38);
  }

  /** Any 21-byte string carrying the built bits decodes to the message. */
  lemma CarrierDecodes(m: Message1006, p: seq<Byte>)
    requires WellFormed(m) && |p| == 21 && Carries(p, BuiltBits(m))
    ensures Spec(p) == Success(m)
  {
    PositionFieldsRead(m, p, WithStation([], m));
    StationFieldsRead(m, p, []);
  }

  /** Decoding the built payload gives the message back. */
  lemma RoundTrip(m: Message1006)
    requires WellFormed(m)
    ensures Spec(ToByteArray(BuiltBits(m))) == Success(m)
  {
    var bits := BuiltBits(m);
    ByteArrayCarries(bits);
    CarrierDecodes(m, ToByteArray(bits));
  }
}
