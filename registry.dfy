/** The dispatch of a frame's payload to the decoder of its message type
    (rtcm/RtcmDecoderRegistry.kt), with the raw-hex record for types that
    have none. */
module RtcmDecoderRegistry {
  import opened Basics
  import opened Bits
  import opened RtcmFraming
  import opened BitPayloadBuilder
  import Decoder1006
  import Decoder1012
  import Decoder1033
  import Decoder1230
  import MsmDecoder

  /** The decoders the table holds. The 1004 and 1005 decoders are registered
      but their layouts are not part of this model. */
  datatype Decoder =
    | GpsObservables1004
    | StationArp1005
    | StationArpHeight1006
    | GlonassObservables1012
    | AntennaReceiver1033
    | GlonassBiases1230
    | Msm(messageType: nat)

  /** The fields of a decoded message, one variant per decoder, and the
      fallback record for a type without one. */
  datatype Fields =
    | NotModelled(messageType: nat, payload: seq<Byte>)
    | Station1006(m1006: Decoder1006.Message1006)
    | Glonass1012(m1012: Decoder1012.Message1012)
    | Antenna1033(m1033: Decoder1033.Message1033)
    | Biases1230(m1230: Decoder1230.Message1230)
    | MsmFields(msm: MsmDecoder.MsmMessage)
    | Unsupported(rawPayloadHex: string)

  /** RtcmDecodedMessage without its arrival time. */
  datatype RtcmDecodedMessage = RtcmDecodedMessage(messageType: nat, crcValid: bool, payloadLength: nat, fields: Fields)

  /** The four MSM families (GPS, GLONASS, Galileo, BeiDou), MSM1 to MSM7 each. */
  predicate IsMsmType(t: int)
  {
    || 1071 <= t <= 1077
    || 1081 <= t <= 1087
    || 1091 <= t <= 1097
    || 1121 <= t <= 1127
  }

  /** The decoder registered for type t, if any. */
  function Lookup(t: int): Option<Decoder>
  {
    if t == 1004 then Some(GpsObservables1004)
    else if t == 1005 then Some(StationArp1005)
    else if t == 1006 then Some(StationArpHeight1006)
    else if t == 1012 then Some(GlonassObservables1012)
    else if t == 1033 then Some(AntennaReceiver1033)
    else if t == 1230 then Some(GlonassBiases1230)
    else if IsMsmType(t) then Some(Msm(t))
    else None
  }

  /** What the decoder's decode returns for a payload. */
  function DecodeWith(d: Decoder, p: seq<Byte>): Result<Fields, DecodeError>
  {
    match d
    case GpsObservables1004 => Success(NotModelled(1004, p))
    case StationArp1005 => Success(NotModelled(1005, p))
    case StationArpHeight1006 =>
      var m :- Decoder1006.Spec(p);
      Success(Station1006(m))
    case GlonassObservables1012 =>
      var m :- Decoder1012.Spec(p);
      Success(Glonass1012(m))
    case AntennaReceiver1033 =>
      var m :- Decoder1033.Spec(p);
      Success(Antenna1033(m))
    case GlonassBiases1230 =>
      var m :- Decoder1230.Spec(p);
      Success(Biases1230(m))
    case Msm(t) =>
      var m :- MsmDecoder.DecodeSpec(t, p);
      Success(MsmFields(m))
  }

  // The raw payload as hex, two upper-case digits per byte ("%02X" on each byte).

  function HexDigit(d: nat): (c: char)
    requires d < 16
  {
    if d < 10 then ('0' as int + d) as char else ('A' as int + (d - 10)) as char
  }

  predicate IsHexDigit(c: char)
  {
    '0' <= c <= '9' || 'A' <= c <= 'F'
  }

  /** The value of an upper-case hex digit (0 for any other character). */
  function DigitValue(c: char): (d: nat)
    ensures d < 16
  {
    if '0' <= c <= '9' then c as int - '0' as int
    else if 'A' <= c <= 'F' then c as int - 'A' as int + 10
    else 0
  }

  /** The payload joined as hex. */
  function Hex(p: seq<Byte>): (s: string)
    ensures |s| == 2 * |p|
  {
    if |p| == 0 then []
    else Hex(p[..|p| - 1]) + [HexDigit(p[|p| - 1] / 16), HexDigit(p[|p| - 1] % 16)]
  }

  /** The bytes a string of hex digit pairs stands for. */
  function Unhex(s: string): (p: seq<Byte>)
    ensures |p| == |s| / 2
  {
    if |s| < 2 then [] else Unhex(s[..|s| - 2]) + [16 * DigitValue(s[|s| - 2]) + DigitValue(s[|s| - 1])]
  }

  /** A digit reads back as its value. */
  lemma DigitRoundTrip(d: nat)
    requires d < 16
    ensures IsHexDigit(HexDigit(d)) && DigitValue(HexDigit(d)) == d
  {
  }

  /** Byte i of the payload is written at positions 2i and 2i+1, high nibble first. */
  lemma {:induction false} HexAt(p: seq<Byte>, i: nat)
    requires i < |p|
    ensures Hex(p)[2 * i] == HexDigit(p[i] / 16) && Hex(p)[2 * i + 1] == HexDigit(p[i] % 16)
  {
    var n := |p| - 1;
    if i < n {
      HexAt(p[..n], i);
    }
  }

  /** Every character of the hex string is an upper-case hex digit, two per byte. */
  lemma HexDigits(p: seq<Byte>)
    ensures HexDigitsOnly(Hex(p))
  {
    DivUnique(|Hex(p)|, 2, |p|, 0);
    forall i | 0 <= i < |Hex(p)|
      ensures IsHexDigit(Hex(p)[i])
    {
      HexAt(p, i / 2);
      DigitRoundTrip(p[i / 2] / 16);
      DigitRoundTrip(p[i / 2] % 16);
    }
  }

  predicate HexDigitsOnly(s: string)
  {
    |s| % 2 == 0 && forall i :: 0 <= i < |s| ==> IsHexDigit(s[i])
  }

  /** The hex string determines the payload: reading the digit pairs back gives it. */
  lemma {:induction false} HexRoundTrip(p: seq<Byte>)
    ensures Unhex(Hex(p)) == p
  {
    if |p| > 0 {
      var q, b := p[..|p| - 1], p[|p| - 1];
      HexRoundTrip(q);
      UnhexByte(Hex(q), b);
      FrontLast(p);
    }
  }

  /** The two digits of a byte read back as that byte. */
  lemma UnhexByte(s: string, b: Byte)
    ensures Unhex(s + [HexDigit(b / 16), HexDigit(b % 16)]) == Unhex(s) + [b]
  {
    DigitRoundTrip(b / 16);
    DigitRoundTrip(b % 16);
    UnhexSnoc(s, HexDigit(b / 16), HexDigit(b % 16));
  }

  /** Reading one more digit pair gives one more byte. */
  lemma UnhexSnoc(s: string, high: char, low: char)
    ensures Unhex(s + [high, low]) == Unhex(s) + [16 * DigitValue(high) + DigitValue(low)]
  {
    var t := s + [high, low];
    assert t[..|t| - 2] == s;
  }

  /** RtcmDecoderRegistry.decode as a function: the first 12 bits are the
      type, Failure(OutOfBits) where the payload has fewer; a failure of the
      registered decoder is passed on. */
  function DecodeSpec(frame: RtcmFrame): Result<RtcmDecodedMessage, DecodeError>
  {
    var p := frame.payload;
    if 8 * |p| < 12 then Failure(OutOfBits)
    else
      var t := Value(p, 0, 12);
      var fields :- match Lookup(t) {
        case Some(d) => DecodeWith(d, p)
        case None => Success(Unsupported(Hex(p)))
      };
      Success(RtcmDecodedMessage(t, frame.crcValid, |p|, fields))
  }

  /** The table, filled as buildMap fills it. */
  class Registry {
    const decoders: map<nat, Decoder>

    /** The table holds exactly the registered decoders. */
    ghost predicate Valid()
    {
      && (forall t: nat :: t in decoders <==> Lookup(t).Some?)
      && (forall t :: t in decoders ==> Lookup(t) == Some(decoders[t]))
    }

    constructor ()
      ensures Valid() && |decoders| == 34
    {
      var m := BuildMap();
      decoders := m;
    }

    /** RtcmDecoderRegistry.decode. */
    method Decode(frame: RtcmFrame) returns (r: Result<RtcmDecodedMessage, DecodeError>)
      requires Valid()
      ensures r == DecodeSpec(frame)
    {
      var p := frame.payload;
      if 8 * |p| < 12 {
        return Failure(OutOfBits);
      }
      var bits := new BitBuffer(p);
      var messageType := bits.ReadUnsigned(12);
      var fields: Fields;
      if messageType in decoders {
        var decoded := DecodeWithMethod(decoders[messageType], p);
        if decoded.Failure? {
          return Failure(decoded.error);
        }
        fields := decoded.value;
      } else {
        fields := Unsupported(Hex(p));
      }
      r := Success(RtcmDecodedMessage(messageType, frame.crcValid, |p|, fields));
    }
  }

  /** A decoder's decode, run on a payload. */
  method DecodeWithMethod(d: Decoder, p: seq<Byte>) returns (r: Result<Fields, DecodeError>)
    ensures r == DecodeWith(d, p)
  {
    match d {
      case GpsObservables1004 => r := Success(NotModelled(1004, p));
      case StationArp1005 => r := Success(NotModelled(1005, p));
      case StationArpHeight1006 =>
        var m := Decoder1006.Decode(p);
        r := if m.Failure? then Failure(m.error) else Success(Station1006(m.value));
      case GlonassObservables1012 =>
        var m := Decoder1012.Decode(p);
        r := if m.Failure? then Failure(m.error) else Success(Glonass1012(m.value));
      case AntennaReceiver1033 =>
        var m := Decoder1033.Decode(p);
        r := if m.Failure? then Failure(m.error) else Success(Antenna1033(m.value));
      case GlonassBiases1230 =>
        var m := Decoder1230.Decode(p);
        r := if m.Failure? then Failure(m.error) else Success(Biases1230(m.value));
      case Msm(t) =>
        var m := MsmDecoder.Decode(t, p);
        r := if m.Failure? then Failure(m.error) else Success(MsmFields(m.value));
    }
  }

  /** Table m holds the registered decoders of the types below hi and of
      1230 (the one fixed type above the MSM ranges), and no others. */
  ghost predicate HoldsBelow(m: map<nat, Decoder>, hi: int)
  {
    && (forall t: nat :: t in m <==> Lookup(t).Some? && (t < hi || t == 1230))
    && (forall t :: t in m ==> Lookup(t) == Some(m[t]))
  }

  /** No type in lo..hi-1 is registered. */
  predicate Unregistered(lo: int, hi: int)
  {
    forall t: nat :: lo <= t < hi ==> Lookup(t).None?
  }

  /** The types between the MSM ranges, and between the last of them and
      1230, have no decoder. */
  lemma Gaps()
    ensures Unregistered(1078, 1081) && Unregistered(1088, 1091)
    ensures Unregistered(1098, 1121) && Unregistered(1128, 1230)
  {
  }

  /** A table holding the decoders below lo holds those below hi when none
      of lo..hi-1 is registered. */
  lemma Gap(m: map<nat, Decoder>, lo: int, hi: int)
    requires HoldsBelow(m, lo) && lo <= hi && Unregistered(lo, hi)
    ensures HoldsBelow(m, hi)
  {
  }

  /** Putting the next MSM type in adds an entry and keeps the table exact. */
  lemma PutOne(m: map<nat, Decoder>, t: nat)
    requires HoldsBelow(m, t) && IsMsmType(t)
    ensures t !in m && HoldsBelow(m[t := Msm(t)], t + 1)
  {
    var m' := m[t := Msm(t)];
    forall u: nat
      ensures u in m' <==> Lookup(u).Some? && (u < t + 1 || u == 1230)
    {
    }
  }

  /** Puts an MSM decoder for each type first..last over the table m0,
      which holds the registered decoders below first: the table then holds
      those up to last, one entry more for each type put. */
  method PutMsmRange(m0: map<nat, Decoder>, first: nat, last: nat) returns (m: map<nat, Decoder>)
    requires first <= last + 1 && last < 1230 && HoldsBelow(m0, first)
    requires forall t :: first <= t <= last ==> IsMsmType(t)
    ensures HoldsBelow(m, last + 1) && |m| == |m0| + (last + 1 - first)
  {
    m := m0;
    for t := first to last + 1
      invariant HoldsBelow(m, t) && |m| == |m0| + (t - first)
    {
      PutOne(m, t);
      m := m[t := Msm(t)];
    }
  }

  /** The six fixed decoders, in the order buildMap puts them. */
  method PutFixed() returns (m: map<nat, Decoder>)
    ensures HoldsBelow(m, 1071) && |m| == 6
  {
    m := map[];
    m := m[1004 := GpsObservables1004];
    m := m[1012 := GlonassObservables1012];
    m := m[1005 := StationArp1005];
    m := m[1006 := StationArpHeight1006];
    m := m[1033 := AntennaReceiver1033];
    m := m[1230 := GlonassBiases1230];
    FixedTable(m);
  }

  /** The table of the six fixed decoders holds exactly the registered
      decoders below 1071 and that of 1230. */
  lemma FixedTable(m: map<nat, Decoder>)
    requires m.Keys == {1004, 1005, 1006, 1012, 1033, 1230}
    requires forall t :: t in m ==> Lookup(t) == Some(m[t])
    ensures HoldsBelow(m, 1071) && |m| == 6
  {
    forall t: nat
      ensures t in m <==> Lookup(t).Some? && (t < 1071 || t == 1230)
    {
      assert t in m <==> t in m.Keys;
    }
    assert |m.Keys| == 6;
  }

  /** buildMap: the six fixed decoders, then the four MSM ranges; the result
      holds exactly the registered decoders, 34 of them. */
  method BuildMap() returns (m: map<nat, Decoder>)
    ensures forall t: nat :: t in m <==> Lookup(t).Some?
    ensures forall t :: t in m ==> Lookup(t) == Some(m[t])
    ensures |m| == 34
  {
    Gaps();
    m := PutFixed();
    m := PutMsmRange(m, 1071, 1077);
    Gap(m, 1078, 1081);
    m := PutMsmRange(m, 1081, 1087);
    Gap(m, 1088, 1091);
    m := PutMsmRange(m, 1091, 1097);
    Gap(m, 1098, 1121);
    m := PutMsmRange(m, 1121, 1127);
    Gap(m, 1128, 1230);
    Complete(m);
  }

  /** Every registered type is at most 1230, so a table holding those below
      1230 and 1230 itself holds them all. */
  lemma Complete(m: map<nat, Decoder>)
    requires HoldsBelow(m, 1230)
    ensures forall t: nat :: t in m <==> Lookup(t).Some?
    ensures forall t :: t in m ==> Lookup(t) == Some(m[t])
  {
  }

  // What decode promises.

  /** The type is the first 12 bits; decode fails exactly when the payload
      is shorter or the registered decoder fails; the frame's CRC flag and
      the payload length are copied. */
  lemma DecodeOutcome(frame: RtcmFrame)
    ensures var p := frame.payload;
      DecodeSpec(frame).Failure? <==>
        8 * |p| < 12 || (var d := Lookup(Value(p, 0, 12)); d.Some? && DecodeWith(d.value, p).Failure?)
    ensures DecodeSpec(frame).Success? ==>
      var r := DecodeSpec(frame).value;
      && r.messageType == Value(frame.payload, 0, 12) && r.messageType < 4096
      && r.crcValid == frame.crcValid && r.payloadLength == |frame.payload|
  {
    assert Pow2(12) == 4096 by {
      assert Pow2(4) == 16;
      assert Pow2(8) == 256;
    }
  }

  /** A type without a decoder never fails: it gives the raw-hex record,
      whose string spells the payload back. */
  lemma UnsupportedNeverFails(frame: RtcmFrame)
    requires 12 <= 8 * |frame.payload| && Lookup(Value(frame.payload, 0, 12)).None?
    ensures DecodeSpec(frame).Success?
    ensures DecodeSpec(frame).value.fields == Unsupported(Hex(frame.payload))
    ensures var s := DecodeSpec(frame).value.fields.rawPayloadHex;
      |s| == 2 * |frame.payload| && HexDigitsOnly(s) && Unhex(s) == frame.payload
  {
    HexDigits(frame.payload);
    HexRoundTrip(frame.payload);
  }

  /** Each result names its decoder's own type: an MSM decoder is built with
      the type it is registered under, whose last digit is 1..7. */
  lemma MsmDispatch(t: int)
    ensures Lookup(t).Some? && Lookup(t).value.Msm? <==> IsMsmType(t)
    ensures IsMsmType(t) ==> Lookup(t) == Some(Msm(t)) && 1 <= t % 10 <= 7
  {
  }

  /** The fixed decoders sit under their own numbers. */
  lemma FixedDispatch(t: int)
    ensures Lookup(t).Some? && !Lookup(t).value.Msm? <==> t in {1004, 1005, 1006, 1012, 1033, 1230}
  {
  }

  /** A registered type is decoded by its own decoder, and the result
      keeps the decoder's fields. */
  lemma Dispatch(frame: RtcmFrame, d: Decoder)
    requires 12 <= 8 * |frame.payload| && Lookup(Value(frame.payload, 0, 12)) == Some(d)
    ensures DecodeWith(d, frame.payload).Failure? ==> DecodeSpec(frame) == Failure(DecodeWith(d, frame.payload).error)
    ensures DecodeWith(d, frame.payload).Success? ==>
      DecodeSpec(frame) == Success(RtcmDecodedMessage(Value(frame.payload, 0, 12), frame.crcValid, |frame.payload|, DecodeWith(d, frame.payload).value))
  {
  }

  /** The payload built for a message 1006 is 21 bytes and starts with its number. */
  lemma Built1006(m: Decoder1006.Message1006)
    requires Decoder1006.WellFormed(m)
    ensures var p := ToByteArray(Decoder1006.BuiltBits(m));
      |p| == 21 && Value(p, 0, 12) == 1006
  {
    var bits := Decoder1006.BuiltBits(m);
    var p := ToByteArray(bits);
    ByteArrayCarries(bits);
    Decoder1006.PositionFieldsRead(m, p, Decoder1006.WithStation([], m));
    Decoder1006.StationFieldsRead(m, p, []);
  }

  /** A message 1006 built as the decoder tests build it, framed with any
      CRC flag, decodes through the registry to its station fields. */
  lemma Decodes1006(m: Decoder1006.Message1006, raw: seq<Byte>, crcValid: bool)
    requires Decoder1006.WellFormed(m)
    ensures var p := ToByteArray(Decoder1006.BuiltBits(m));
      DecodeSpec(RtcmFrame(raw, p, crcValid)) == Success(RtcmDecodedMessage(1006, crcValid, 21, Station1006(m)))
  {
    var p := ToByteArray(Decoder1006.BuiltBits(m));
    Built1006(m);
    Decoder1006.RoundTrip(m);
    Dispatch(RtcmFrame(raw, p, crcValid), StationArpHeight1006);
  }
}
