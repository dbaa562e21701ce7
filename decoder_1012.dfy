/** Message 1012, GLONASS L1/L2 observables (rtcm/decoders/Decoders1012.kt):
    a 61-bit header, then one 130-bit block per satellite for as long as whole
    blocks remain; a satellite whose block does not fit is reported as
    truncated, together with the bits left at that point. */
module Decoder1012 {
  import opened Basics
  import opened Bits
  import opened BitPayloadBuilder

  /** Message number 12, station 12, epoch 27, synchronous flag, satellite
      count 5, smoothing indicator 1, smoothing interval 3. */
  const HEADER_BITS: nat := 61
  /** The thirteen per-satellite fields. */
  const SATELLITE_BITS: nat := 130

  datatype Satellite1012 =
    | Truncated(index: nat, bitsRemaining: nat)
    | Observed(index: nat, satelliteId: nat, l1Code: nat, frequencyChannelNumber: int,
               l1Pseudorange: nat, l1PhaseRangeMinusPseudorange: int, l1LockTimeIndicator: nat,
               integerL1PseudorangeModulus: nat, l1Cn0: nat, l2Code: nat,
               l2MinusL1Pseudorange: int, l2MinusL1PhaseRange: int, l2LockTimeIndicator: nat, l2Cn0: nat)

  datatype Message1012 = Message1012(
    stationId: nat, glonassEpochTime: nat, synchronous: bool, satelliteCount: nat,
    smoothingIndicator: bool, smoothingInterval: nat,
    satellites: seq<Satellite1012>, bitsRemaining: nat)

  /** The satellite block that starts at bit pos. */
  function ObservedAt(p: seq<Byte>, pos: nat, index: nat): (s: Satellite1012)
    requires pos + SATELLITE_BITS <= 8 * |p|
    ensures s.Observed? && s.index == index
  {
    Observed(index, Value(p, pos, 6), Value(p, pos + 6, 1), ToSigned(Value(p, pos + 7, 5), 5),
      Value(p, pos + 12, 25), ToSigned(Value(p, pos + 37, 20), 20), Value(p, pos + 57, 7),
      Value(p, pos + 64, 7), Value(p, pos + 71, 8), Value(p, pos + 79, 2),
      ToSigned(Value(p, pos + 81, 14), 14), ToSigned(Value(p, pos + 95, 20), 20),
      Value(p, pos + 115, 7), Value(p, pos + 122, 8))
  }

  /** Satellite i has room for its block when i whole blocks come before it. */
  lemma RowFits(avail: nat, i: nat)
    requires i < avail / 130
    ensures 130 * i + SATELLITE_BITS <= avail
  {
    DivUnique(avail, SATELLITE_BITS, avail / 130, avail % 130);
    MulMonotone(i + 1, avail / 130, SATELLITE_BITS);
  }

  /** Row i of the satellite list: the ones with room are read one after the
      other; every later one is truncated, with the remainder that no block
      used. */
  function Row(p: seq<Byte>, i: nat): (s: Satellite1012)
    requires HEADER_BITS <= 8 * |p|
    ensures s.index == i
  {
    var avail := 8 * |p| - HEADER_BITS;
    if i < avail / 130 then
      RowFits(avail, i);
      ObservedAt(p, HEADER_BITS + 130 * i, i)
    else Truncated(i, avail % 130)
  }

  function Satellites(p: seq<Byte>, count: nat): (rows: seq<Satellite1012>)
    requires HEADER_BITS <= 8 * |p|
    ensures |rows| == count
  {
    seq(count, i requires 0 <= i < count => Row(p, i))
  }

  /** How many satellite blocks are read. */
  function BlocksRead(p: seq<Byte>, count: nat): nat
    requires HEADER_BITS <= 8 * |p|
  {
    Min(count, (8 * |p| - HEADER_BITS) / 130)
  }

  /** What decode returns for a payload; Failure where a read runs off the end. */
  function Spec(p: seq<Byte>): Result<Message1012, DecodeError>
  {
    if 8 * |p| < HEADER_BITS then Failure(OutOfBits)
    else
      var count := Value(p, 52, 5);
      Success(Message1012(Value(p, 12, 12), Value(p, 24, 27), Value(p, 51, 1) == 1, count,
        Value(p, 57, 1) == 1, Value(p, 58, 3), Satellites(p, count),
        8 * |p| - HEADER_BITS - 130 * BlocksRead(p, count)))
  }

  /** The header reads. */
  method ReadHeader(bits: BitBuffer) returns (stationId: nat, epochTime: nat, synchronous: nat, satelliteCount: nat,
                                               smoothingIndicator: nat, smoothingInterval: nat)
    requires bits.Valid() && bits.bitIndex == 0 && HEADER_BITS <= 8 * |bits.payload|
    modifies bits
    ensures bits.Valid() && bits.bitIndex == HEADER_BITS
    ensures stationId == Value(bits.payload, 12, 12) && epochTime == Value(bits.payload, 24, 27)
    ensures synchronous == Value(bits.payload, 51, 1) && satelliteCount == Value(bits.payload, 52, 5)
    ensures smoothingIndicator == Value(bits.payload, 57, 1) && smoothingInterval == Value(bits.payload, 58, 3)
  {
    var _ := bits.ReadUnsigned(12);
    stationId := bits.ReadUnsigned(12);
    epochTime := bits.ReadUnsigned(27);
    synchronous := bits.ReadUnsigned(1);
    satelliteCount := bits.ReadUnsigned(5);
    smoothingIndicator := bits.ReadUnsigned(1);
    smoothingInterval := bits.ReadUnsigned(3);
  }

  /** The L1 reads of a satellite block (its first 79 bits). */
  method ReadL1(bits: BitBuffer) returns (satelliteId: nat, l1Code: nat, fcn: int, l1Pseudorange: nat,
                                         l1Phase: int, l1Lock: nat, modulus: nat, l1Cn0: nat)
    requires bits.Valid() && bits.bitIndex + SATELLITE_BITS <= 8 * |bits.payload|
    modifies bits
    ensures bits.Valid() && bits.bitIndex == old(bits.bitIndex) + 79
    ensures var p, pos := bits.payload, old(bits.bitIndex);
      && satelliteId == Value(p, pos, 6) && l1Code == Value(p, pos + 6, 1)
      && fcn == ToSigned(Value(p, pos + 7, 5), 5) && l1Pseudorange == Value(p, pos + 12, 25)
      && l1Phase == ToSigned(Value(p, pos + 37, 20), 20) && l1Lock == Value(p, pos + 57, 7)
      && modulus == Value(p, pos + 64, 7) && l1Cn0 == Value(p, pos + 71, 8)
  {
    satelliteId := bits.ReadUnsigned(6);
    l1Code := bits.ReadUnsigned(1);
    fcn := bits.ReadSigned(5);
    l1Pseudorange := bits.ReadUnsigned(25);
    l1Phase := bits.ReadSigned(20);
    l1Lock := bits.ReadUnsigned(7);
    modulus := bits.ReadUnsigned(7);
    l1Cn0 := bits.ReadUnsigned(8);
  }

  /** The L2 reads of a satellite block (its last 51 bits). */
  method ReadL2(bits: BitBuffer) returns (l2Code: nat, l2Pseudorange: int, l2Phase: int, l2Lock: nat, l2Cn0: nat)
    requires bits.Valid() && bits.bitIndex + 51 <= 8 * |bits.payload|
    modifies bits
    ensures bits.Valid() && bits.bitIndex == old(bits.bitIndex) + 51
    ensures var p, pos := bits.payload, old(bits.bitIndex);
      && l2Code == Value(p, pos, 2) && l2Pseudorange == ToSigned(Value(p, pos + 2, 14), 14)
      && l2Phase == ToSigned(Value(p, pos + 16, 20), 20) && l2Lock == Value(p, pos + 36, 7)
      && l2Cn0 == Value(p, pos + 43, 8)
  {
    l2Code := bits.ReadUnsigned(2);
    l2Pseudorange := bits.ReadSigned(14);
    l2Phase := bits.ReadSigned(20);
    l2Lock := bits.ReadUnsigned(7);
    l2Cn0 := bits.ReadUnsigned(8);
  }

  /** One whole satellite block. */
  method ReadSatellite(bits: BitBuffer, index: nat) returns (s: Satellite1012)
    requires bits.Valid() && bits.bitIndex + SATELLITE_BITS <= 8 * |bits.payload|
    modifies bits
    ensures bits.Valid() && bits.bitIndex == old(bits.bitIndex) + SATELLITE_BITS
    ensures s == ObservedAt(bits.payload, old(bits.bitIndex), index)
  {
    var satelliteId, l1Code, fcn, l1Pseudorange, l1Phase, l1Lock, modulus, l1Cn0 := ReadL1(bits);
    var l2Code, l2Pseudorange, l2Phase, l2Lock, l2Cn0 := ReadL2(bits);
    s := Observed(index, satelliteId, l1Code, fcn, l1Pseudorange, l1Phase, l1Lock, modulus, l1Cn0,
      l2Code, l2Pseudorange, l2Phase, l2Lock, l2Cn0);
  }

  /** One turn of the `repeat(satelliteCount)` loop: the `bitsRemaining() < 130`
      test holds exactly when satellite i has no room, and then the cursor
      stands on the remainder no block used. */
  lemma LoopStep(avail: nat, i: nat)
    ensures 130 * Min(i, avail / 130) <= avail
    ensures (avail - 130 * Min(i, avail / 130) >= SATELLITE_BITS) <==> i < avail / 130
    ensures i < avail / 130 ==> Min(i, avail / 130) == i && Min(i + 1, avail / 130) == i + 1
    ensures i >= avail / 130 ==>
      Min(i + 1, avail / 130) == avail / 130 &&
      avail - 130 * Min(i, avail / 130) == avail % 130
  {
    var q := avail / 130;
    DivUnique(avail, SATELLITE_BITS, q, avail % 130);
    if i < q {
      MulMonotone(i + 1, q, SATELLITE_BITS);
      MulMonotone(i, q, SATELLITE_BITS);
    }
  }

  lemma RowIsBlock(p: seq<Byte>, i: nat)
    requires HEADER_BITS <= 8 * |p| && i < (8 * |p| - HEADER_BITS) / 130
    ensures HEADER_BITS + 130 * i + SATELLITE_BITS <= 8 * |p|
    ensures Row(p, i) == ObservedAt(p, HEADER_BITS + 130 * i, i)
  {
    RowFits(8 * |p| - HEADER_BITS, i);
  }

  /** The body of the `repeat(satelliteCount)` loop for satellite `index`. */
  method NextRow(bits: BitBuffer, index: nat) returns (s: Satellite1012)
    requires bits.Valid() && HEADER_BITS <= 8 * |bits.payload|
    requires bits.bitIndex == HEADER_BITS + 130 * Min(index, (8 * |bits.payload| - HEADER_BITS) / 130)
    modifies bits
    ensures bits.Valid()
    ensures bits.bitIndex == HEADER_BITS + 130 * Min(index + 1, (8 * |bits.payload| - HEADER_BITS) / 130)
    ensures s == Row(bits.payload, index)
  {
    ghost var avail := 8 * |bits.payload| - HEADER_BITS;
    LoopStep(avail, index);
    if bits.BitsRemaining() < SATELLITE_BITS {
      s := Truncated(index, bits.BitsRemaining());
      assert bits.BitsRemaining() == avail % 130;
    } else {
      ghost var pos := HEADER_BITS + 130 * index;
      assert bits.bitIndex == pos;
      s := ReadSatellite(bits, index);
      RowIsBlock(bits.payload, index);
    }
  }

  /** The `repeat(satelliteCount)` loop. */
  method ReadSatellites(bits: BitBuffer, count: nat) returns (satellites: seq<Satellite1012>)
    requires bits.Valid() && bits.bitIndex == HEADER_BITS && HEADER_BITS <= 8 * |bits.payload|
    modifies bits
    ensures bits.Valid() && bits.bitIndex == HEADER_BITS + 130 * BlocksRead(bits.payload, count)
    ensures satellites == Satellites(bits.payload, count)
  {
    ghost var q := (8 * |bits.payload| - HEADER_BITS) / 130;
    satellites := [];
    var index := 0;
    while index < count
      invariant 0 <= index <= count && bits.Valid()
      invariant bits.bitIndex == HEADER_BITS + 130 * Min(index, q)
      invariant satellites == Satellites(bits.payload, index)
    {
      var s := NextRow(bits, index);
      satellites := satellites + [s];
      assert satellites == Satellites(bits.payload, index + 1);
      index := index + 1;
    }
  }

  /** Decoders1012.decode. */
  method Decode(payload: seq<Byte>) returns (r: Result<Message1012, DecodeError>)
    ensures r == Spec(payload)
  {
    if 8 * |payload| < HEADER_BITS {
      return Failure(OutOfBits);
    }
    var bits := new BitBuffer(payload);
    var stationId, epochTime, synchronous, satelliteCount, smoothingIndicator, smoothingInterval := ReadHeader(bits);
    var satellites := ReadSatellites(bits, satelliteCount);
    r := Success(Message1012(stationId, epochTime, synchronous == 1, satelliteCount, smoothingIndicator == 1,
      smoothingInterval, satellites, bits.BitsRemaining()));
  }

  // What the decoded message promises.

  /** Decoding fails exactly on payloads shorter than eight bytes. */
  lemma DecodeFailsIff(p: seq<Byte>)
    ensures Spec(p).Failure? <==> |p| < 8
  {
  }

  /** One row per announced satellite, each carrying its own position as index. */
  lemma SatelliteList(p: seq<Byte>, m: Message1012)
    requires Spec(p) == Success(m)
    ensures |m.satellites| == m.satelliteCount < 32
    ensures forall i :: 0 <= i < |m.satellites| ==> m.satellites[i].index == i
  {
  }

  /** `i < avail / 130` says that i whole blocks and one more fit. */
  lemma RoomIff(avail: nat, i: nat)
    ensures i < avail / 130 <==> 130 * i + 130 <= avail
  {
    var q := avail / 130;
    DivUnique(avail, 130, q, avail % 130);
    if i < q {
      RowFits(avail, i);
    } else {
      MulMonotone(q + 1, i + 1, 130);
    }
  }

  /** Satellite i is decoded exactly when the header and i + 1 whole blocks fit
      in the payload; otherwise it is reported as truncated. */
  lemma ObservedIffRoom(p: seq<Byte>, m: Message1012, i: nat)
    requires Spec(p) == Success(m) && i < |m.satellites|
    ensures m.satellites[i].Observed? <==> HEADER_BITS + 130 * (i + 1) <= 8 * |p|
    ensures m.satellites[i].Truncated? <==> 8 * |p| < HEADER_BITS + 130 * (i + 1)
  {
    RoomIff(8 * |p| - HEADER_BITS, i);
  }

  /** After the first truncated satellite every later one is truncated too. */
  lemma TruncatedSuffix(p: seq<Byte>, m: Message1012, i: nat, j: nat)
    requires Spec(p) == Success(m) && i <= j < |m.satellites|
    requires m.satellites[i].Truncated?
    ensures m.satellites[j].Truncated?
  {
    ObservedIffRoom(p, m, i);
    ObservedIffRoom(p, m, j);
  }

  /** A truncated satellite reports the bits left at the end of decoding, and
      that is less than one block. */
  lemma TruncatedRemainder(p: seq<Byte>, m: Message1012, i: nat)
    requires Spec(p) == Success(m) && i < |m.satellites|
    requires m.satellites[i].Truncated?
    ensures m.satellites[i].bitsRemaining == m.bitsRemaining < SATELLITE_BITS
  {
    var avail := 8 * |p| - HEADER_BITS;
    DivUnique(avail, 130, avail / 130, avail % 130);
  }

  function CountObserved(rows: seq<Satellite1012>): (n: nat)
    ensures n <= |rows|
  {
    if rows == [] then 0 else CountObserved(rows[..|rows| - 1]) + (if rows[|rows| - 1].Observed? then 1 else 0)
  }

  lemma {:induction false} ObservedRows(p: seq<Byte>, count: nat)
    requires HEADER_BITS <= 8 * |p|
    ensures CountObserved(Satellites(p, count)) == BlocksRead(p, count)
  {
    if count > 0 {
      var rows := Satellites(p, count);
      ObservedRows(p, count - 1);
      assert rows[..count - 1] == Satellites(p, count - 1);
      RoomIff(8 * |p| - HEADER_BITS, count - 1);
    }
  }

  /** Every bit is accounted for: the header, 130 bits per decoded satellite,
      and the remainder. */
  lemma BitsAccounted(p: seq<Byte>, m: Message1012)
    requires Spec(p) == Success(m)
    ensures 8 * |p| == HEADER_BITS + 130 * CountObserved(m.satellites) + m.bitsRemaining
  {
    ObservedRows(p, m.satelliteCount);
  }

  /** The field ranges of a satellite block. */
  predicate WellFormedSatellite(s: Satellite1012)
  {
    s.Observed? ==>
      && s.satelliteId < Pow2(6) && s.l1Code < Pow2(1)
      && -(Pow2(4) as int) <= s.frequencyChannelNumber < Pow2(4)
      && s.l1Pseudorange < Pow2(25)
      && -(Pow2(19) as int) <= s.l1PhaseRangeMinusPseudorange < Pow2(19)
      && s.l1LockTimeIndicator < Pow2(7) && s.integerL1PseudorangeModulus < Pow2(7) && s.l1Cn0 < Pow2(8)
      && s.l2Code < Pow2(2)
      && -(Pow2(13) as int) <= s.l2MinusL1Pseudorange < Pow2(13)
      && -(Pow2(19) as int) <= s.l2MinusL1PhaseRange < Pow2(19)
      && s.l2LockTimeIndicator < Pow2(7) && s.l2Cn0 < Pow2(8)
  }

  /** Every decoded field fits its width, signed ones as two's complement. */
  lemma SatelliteRanges(p: seq<Byte>, m: Message1012, i: nat)
    requires Spec(p) == Success(m) && i < |m.satellites|
    ensures WellFormedSatellite(m.satellites[i])
  {
  }

  // The round trip with the payloads the decoder tests build.

  /** A message the tests could have built: fields within their widths, one
      whole block per announced satellite, indices in order. */
  predicate Encodable(m: Message1012)
  {
    && m.stationId < Pow2(12) && m.glonassEpochTime < Pow2(27) && m.smoothingInterval < Pow2(3)
    && m.satelliteCount == |m.satellites| < Pow2(5)
    && AllBlocks(m.satellites)
    && forall i :: 0 <= i < |m.satellites| ==> m.satellites[i].index == i
  }

  /** Every row is an observed satellite whose fields fit their widths. */
  predicate AllBlocks(rows: seq<Satellite1012>)
  {
    |rows| == 0 || (AllBlocks(rows[..|rows| - 1]) && rows[|rows| - 1].Observed? && WellFormedSatellite(rows[|rows| - 1]))
  }

  /** The header the decoder tests would append after bits a (BitPayloadBuilder). */
  function WithHeader(a: seq<bool>, m: Message1012): (bits: seq<bool>)
    ensures |bits| == |a| + HEADER_BITS
  {
    a + UnsignedBits(1012, 12) + UnsignedBits(m.stationId, 12) + UnsignedBits(m.glonassEpochTime, 27)
      + UnsignedBits(FlagBit(m.synchronous), 1) + UnsignedBits(m.satelliteCount, 5)
      + UnsignedBits(FlagBit(m.smoothingIndicator), 1) + UnsignedBits(m.smoothingInterval, 3)
  }

  /** The L1 half of a satellite block after bits a. */
  function WithL1(a: seq<bool>, s: Satellite1012): (bits: seq<bool>)
    requires s.Observed? && WellFormedSatellite(s)
    ensures |bits| == |a| + 79
  {
    a + UnsignedBits(s.satelliteId, 6) + UnsignedBits(s.l1Code, 1) + SignedBits(s.frequencyChannelNumber, 5)
      + UnsignedBits(s.l1Pseudorange, 25) + SignedBits(s.l1PhaseRangeMinusPseudorange, 20)
      + UnsignedBits(s.l1LockTimeIndicator, 7) + UnsignedBits(s.integerL1PseudorangeModulus, 7)
      + UnsignedBits(s.l1Cn0, 8)
  }

  /** The L2 half of a satellite block after bits a. */
  function WithL2(a: seq<bool>, s: Satellite1012): (bits: seq<bool>)
    requires s.Observed? && WellFormedSatellite(s)
    ensures |bits| == |a| + 51
  {
    L2Bits(a, s.l2Code, s.l2MinusL1Pseudorange, s.l2MinusL1PhaseRange, s.l2LockTimeIndicator, s.l2Cn0)
  }

  function L2Bits(a: seq<bool>, code: nat, pseudorange: int, phase: int, lock: nat, cn0: nat): (bits: seq<bool>)
    requires -(Pow2(13) as int) <= pseudorange < Pow2(13) && -(Pow2(19) as int) <= phase < Pow2(19)
    ensures |bits| == |a| + 51
  {
    a + UnsignedBits(code, 2) + SignedBits(pseudorange, 14) + SignedBits(phase, 20)
      + UnsignedBits(lock, 7) + UnsignedBits(cn0, 8)
  }

  function WithBlock(a: seq<bool>, s: Satellite1012): (bits: seq<bool>)
    requires s.Observed? && WellFormedSatellite(s)
    ensures |bits| == |a| + SATELLITE_BITS
  {
    WithL2(WithL1(a, s), s)
  }

  /** The block of each satellite after bits a, in order. */
  function WithBlocks(a: seq<bool>, rows: seq<Satellite1012>): (bits: seq<bool>)
    requires AllBlocks(rows)
    ensures |bits| == |a| + 130 * |rows|
  {
    if |rows| == 0 then a
    else WithBlock(WithBlocks(a, rows[..|rows| - 1]), rows[|rows| - 1])
  }

  /** The bits the decoder tests would append for a message. */
  function BuiltBits(m: Message1012): (bits: seq<bool>)
    requires Encodable(m)
    ensures |bits| == HEADER_BITS + 130 * |m.satellites|
  {
    WithBlocks(WithHeader([], m), m.satellites)
  }

  /** A byte string carrying a header written from bit 0 reads its fields back. */
  lemma HeaderRead(m: Message1012, p: seq<Byte>, a: seq<bool>)
    requires m.stationId < Pow2(12) && m.glonassEpochTime < Pow2(27) && m.satelliteCount < Pow2(5)
    requires m.smoothingInterval < Pow2(3)
    requires |a| == 0 && Carries(p, WithHeader(a, m))
    ensures && HEADER_BITS <= 8 * |p|
      && Value(p, 0, 12) == 1012 && Value(p, 12, 12) == m.stationId && Value(p, 24, 27) == m.glonassEpochTime
      && (Value(p, 51, 1) == 1 <==> m.synchronous) && Value(p, 52, 5) == m.satelliteCount
      && (Value(p, 57, 1) == 1 <==> m.smoothingIndicator) && Value(p, 58, 3) == m.smoothingInterval
  {
    var s1 := a + UnsignedBits(1012, 12);
    var s2 := s1 + UnsignedBits(m.stationId, 12);
    var s3 := s2 + UnsignedBits(m.glonassEpochTime, 27);
    var s4 := s3 + UnsignedBits(FlagBit(m.synchronous), 1);
    var s5 := s4 + UnsignedBits(m.satelliteCount, 5);
    var s6 := s5 + UnsignedBits(FlagBit(m.smoothingIndicator), 1);
    ReadLast(p, s6, m.smoothingInterval, 3);
    ReadLast(p, s5, FlagBit(m.smoothingIndicator), 1);
    ReadLast(p, s4, m.satelliteCount, 5);
    ReadLast(p, s3, FlagBit(m.synchronous), 1);
    ReadLast(p, s2, m.glonassEpochTime, 27);
    ReadLast(p, s1, m.stationId, 12);
    ReadLast(p, a, 1012, 12);
  }

  /** A byte string carrying an L1 half after bits a reads its fields back at |a|. */
  lemma L1Read(p: seq<Byte>, a: seq<bool>, s: Satellite1012)
    requires s.Observed? && WellFormedSatellite(s) && Carries(p, WithL1(a, s))
    ensures Carries(p, a)
    ensures var pos := |a|;
      && pos + 79 <= 8 * |p|
      && Value(p, pos, 6) == s.satelliteId && Value(p, pos + 6, 1) == s.l1Code
      && ToSigned(Value(p, pos + 7, 5), 5) == s.frequencyChannelNumber
      && Value(p, pos + 12, 25) == s.l1Pseudorange
      && ToSigned(Value(p, pos + 37, 20), 20) == s.l1PhaseRangeMinusPseudorange
      && Value(p, pos + 57, 7) == s.l1LockTimeIndicator && Value(p, pos + 64, 7) == s.integerL1PseudorangeModulus
      && Value(p, pos + 71, 8) == s.l1Cn0
  {
    var s1 := a + UnsignedBits(s.satelliteId, 6);
    var s2 := s1 + UnsignedBits(s.l1Code, 1);
    var s3 := s2 + SignedBits(s.frequencyChannelNumber, 5);
    var s4 := s3 + UnsignedBits(s.l1Pseudorange, 25);
    var s5 := s4 + SignedBits(s.l1PhaseRangeMinusPseudorange, 20);
    var s6 := s5 + UnsignedBits(s.l1LockTimeIndicator, 7);
    var s7 := s6 + UnsignedBits(s.integerL1PseudorangeModulus, 7);
    ReadLast(p, s7, s.l1Cn0, 8);
    ReadLast(p, s6, s.integerL1PseudorangeModulus, 7);
    ReadLast(p, s5, s.l1LockTimeIndicator, 7);
    ReadLastSigned(p, s4, s.l1PhaseRangeMinusPseudorange, 20);
    ReadLast(p, s3, s.l1Pseudorange, 25);
    ReadLastSigned(p, s2, s.frequencyChannelNumber, 5);
    ReadLast(p, s1, s.l1Code, 1);
    ReadLast(p, a, s.satelliteId, 6);
  }

  /** A byte string carrying an L2 half after bits a reads its fields back at |a|. */
  lemma L2Read(p: seq<Byte>, a: seq<bool>, s: Satellite1012)
    requires s.Observed? && WellFormedSatellite(s) && Carries(p, WithL2(a, s))
    ensures Carries(p, a)
    ensures var pos := |a|;
      && pos + 51 <= 8 * |p|
      && Value(p, pos, 2) == s.l2Code
      && ToSigned(Value(p, pos + 2, 14), 14) == s.l2MinusL1Pseudorange
      && ToSigned(Value(p, pos + 16, 20), 20) == s.l2MinusL1PhaseRange
      && Value(p, pos + 36, 7) == s.l2LockTimeIndicator && Value(p, pos + 43, 8) == s.l2Cn0
  {
    L2BitsRead(p, a, s.l2Code, s.l2MinusL1Pseudorange, s.l2MinusL1PhaseRange, s.l2LockTimeIndicator, s.l2Cn0);
  }

  lemma L2BitsRead(p: seq<Byte>, a: seq<bool>, code: nat, pseudorange: int, phase: int, lock: nat, cn0: nat)
    requires -(Pow2(13) as int) <= pseudorange < Pow2(13) && -(Pow2(19) as int) <= phase < Pow2(19)
    requires code < Pow2(2) && lock < Pow2(7) && cn0 < Pow2(8)
    requires Carries(p, L2Bits(a, code, pseudorange, phase, lock, cn0))
    ensures Carries(p, a)
    ensures var pos := |a|;
      && pos + 51 <= 8 * |p|
      && Value(p, pos, 2) == code
      && ToSigned(Value(p, pos + 2, 14), 14) == pseudorange
      && ToSigned(Value(p, pos + 16, 20), 20) == phase
      && Value(p, pos + 36, 7) == lock && Value(p, pos + 43, 8) == cn0
  {
    var s1 := a + UnsignedBits(code, 2);
    var s2 := s1 + SignedBits(pseudorange, 14);
    var s3 := s2 + SignedBits(phase, 20);
    var s4 := s3 + UnsignedBits(lock, 7);
    ReadLast(p, s4, cn0, 8);
    ReadLast(p, s3, lock, 7);
    ReadLastSigned(p, s2, phase, 20);
    ReadLastSigned(p, s1, pseudorange, 14);
    ReadLast(p, a, code, 2);
  }

  /** A byte string carrying a block after bits a reads it back as that satellite. */
  lemma BlockRead(p: seq<Byte>, a: seq<bool>, s: Satellite1012)
    requires s.Observed? && WellFormedSatellite(s) && Carries(p, WithBlock(a, s))
    ensures Carries(p, a)
    ensures |a| + SATELLITE_BITS <= 8 * |p| && ObservedAt(p, |a|, s.index) == s
  {
    L2Read(p, WithL1(a, s), s);
    L1Read(p, a, s);
  }

  /** A byte string carrying the blocks of rows after h carries h. */
  lemma {:induction false} BlocksCarryStart(p: seq<Byte>, h: seq<bool>, rows: seq<Satellite1012>)
    requires AllBlocks(rows) && Carries(p, WithBlocks(h, rows))
    ensures Carries(p, h) && |h| + 130 * |rows| <= 8 * |p|
  {
    if |rows| > 0 {
      var n := |rows| - 1;
      var init := rows[..n];
      BlockRead(p, WithBlocks(h, init), rows[n]);
      BlocksCarryStart(p, h, init);
    }
  }

  /** A block appended after bits a keeps a in front. */
  lemma BlockCarriesStart(p: seq<Byte>, a: seq<bool>, s: Satellite1012)
    requires s.Observed? && WellFormedSatellite(s) && Carries(p, WithBlock(a, s))
    ensures Carries(p, a)
  {
    var l1, bits := WithL1(a, s), WithBlock(a, s);
    assert l1[..|a|] == a;
    assert bits[..|l1|] == l1;
    assert bits[..|a|] == a;
    CarriesPrefix(p, bits, |a|);
  }

  /** A byte string carrying the blocks of rows carries those of each prefix of rows. */
  lemma {:induction false} BlocksCarried(p: seq<Byte>, h: seq<bool>, rows: seq<Satellite1012>, k: nat)
    requires AllBlocks(rows) && k <= |rows| && Carries(p, WithBlocks(h, rows))
    ensures AllBlocks(rows[..k]) && Carries(p, WithBlocks(h, rows[..k]))
  {
    if k < |rows| {
      var n := |rows| - 1;
      var init, last := rows[..n], rows[n];
      assert AllBlocks(init) && last.Observed? && WellFormedSatellite(last);
      var front := WithBlocks(h, init);
      assert WithBlocks(h, rows) == WithBlock(front, last);
      BlockCarriesStart(p, front, last);
      BlocksCarried(p, h, init, k);
      PrefixOfPrefix(rows, n, k);
    } else {
      assert rows[..k] == rows;
    }
  }

  /** The blocks of the first i + 1 rows are those of the first i followed by row i's. */
  lemma BlocksSplitLast(p: seq<Byte>, h: seq<bool>, rows: seq<Satellite1012>, i: nat)
    requires i < |rows| && AllBlocks(rows[..i + 1]) && Carries(p, WithBlocks(h, rows[..i + 1]))
    ensures AllBlocks(rows[..i]) && rows[i].Observed? && WellFormedSatellite(rows[i])
    ensures Carries(p, WithBlock(WithBlocks(h, rows[..i]), rows[i]))
  {
    var upto := rows[..i + 1];
    assert upto[..i] == rows[..i];
  }

  /** BlockRead, with the position of the block given as pos. */
  lemma BlockReadAt(p: seq<Byte>, a: seq<bool>, s: Satellite1012, pos: nat)
    requires s.Observed? && WellFormedSatellite(s) && Carries(p, WithBlock(a, s)) && pos == |a|
    ensures pos + SATELLITE_BITS <= 8 * |p| && ObservedAt(p, pos, s.index) == s
  {
    BlockRead(p, a, s);
  }

  /** ... and reads block i back as row i at pos, 130 bits per earlier row after h. */
  lemma BlockReadBack(p: seq<Byte>, h: seq<bool>, rows: seq<Satellite1012>, i: nat, pos: nat)
    requires AllBlocks(rows) && Carries(p, WithBlocks(h, rows)) && i < |rows| && pos == |h| + 130 * i
    ensures pos + SATELLITE_BITS <= 8 * |p| && ObservedAt(p, pos, rows[i].index) == rows[i]
  {
    BlocksCarried(p, h, rows, i + 1);
    BlocksSplitLast(p, h, rows, i);
    BlockReadAt(p, WithBlocks(h, rows[..i]), rows[i], pos);
  }

  /** Row i of a byte string carrying the built bits and fewer than 130 bits
      more is satellite i of the message. */
  lemma RowRead(m: Message1012, p: seq<Byte>, i: nat)
    requires Encodable(m) && Carries(p, BuiltBits(m)) && i < |m.satellites|
    requires HEADER_BITS + 130 * |m.satellites| <= 8 * |p| < HEADER_BITS + 130 * |m.satellites| + 130
    ensures Row(p, i) == m.satellites[i]
  {
    var n := |m.satellites|;
    DivUnique(8 * |p| - HEADER_BITS, 130, n, 8 * |p| - HEADER_BITS - 130 * n);
    RowIsBlock(p, i);
    BlockReadBack(p, WithHeader([], m), m.satellites, i, HEADER_BITS + 130 * i);
  }

  /** A byte string carrying the built bits and fewer than 130 bits more
      reads every satellite of the message back. */
  lemma SatellitesRead(m: Message1012, p: seq<Byte>)
    requires Encodable(m) && Carries(p, BuiltBits(m))
    requires HEADER_BITS + 130 * |m.satellites| <= 8 * |p| < HEADER_BITS + 130 * |m.satellites| + 130
    ensures Satellites(p, |m.satellites|) == m.satellites
  {
    forall i | 0 <= i < |m.satellites|
      ensures Row(p, i) == m.satellites[i]
    {
      RowRead(m, p, i);
    }
  }

  /** Any byte string carrying the built bits followed by `rest` more bits
      decodes to the message with those bits left over. */
  lemma CarrierDecodes(m: Message1012, p: seq<Byte>, rest: nat)
    requires Encodable(m) && Carries(p, BuiltBits(m))
    requires rest < 8 && 8 * |p| == HEADER_BITS + 130 * |m.satellites| + rest
    ensures Spec(p) == Success(m.(bitsRemaining := rest))
  {
    BlocksCarryStart(p, WithHeader([], m), m.satellites);
    HeaderRead(m, p, []);
    SatellitesRead(m, p);
    SpecOfReadFields(m, p, rest);
  }

  /** A byte string whose header fields and satellite rows read back as those
      of m, with rest bits after the last block, decodes to m. */
  lemma SpecOfReadFields(m: Message1012, p: seq<Byte>, rest: nat)
    requires rest < 130 && 8 * |p| == HEADER_BITS + 130 * |m.satellites| + rest
    requires m.satelliteCount == |m.satellites| == Value(p, 52, 5)
    requires Value(p, 12, 12) == m.stationId && Value(p, 24, 27) == m.glonassEpochTime
    requires (Value(p, 51, 1) == 1 <==> m.synchronous) && (Value(p, 57, 1) == 1 <==> m.smoothingIndicator)
    requires Value(p, 58, 3) == m.smoothingInterval && Satellites(p, |m.satellites|) == m.satellites
    ensures Spec(p) == Success(m.(bitsRemaining := rest))
  {
    SpecWithAllBlocks(p, |m.satellites|, rest);
  }

  /** The decoded message of a byte string announcing n satellites, all of
      whose blocks fit, with rest bits after them. */
  lemma SpecWithAllBlocks(p: seq<Byte>, n: nat, rest: nat)
    requires rest < 130 && 8 * |p| == HEADER_BITS + 130 * n + rest && Value(p, 52, 5) == n
    ensures Spec(p) == Success(Message1012(Value(p, 12, 12), Value(p, 24, 27), Value(p, 51, 1) == 1, n,
      Value(p, 57, 1) == 1, Value(p, 58, 3), Satellites(p, n), rest))
  {
    DivUnique(8 * |p| - HEADER_BITS, 130, n, rest);
    assert BlocksRead(p, n) == n;
  }

  /** decode1012_perSatelliteFields, for every message the tests could build:
      decoding the built payload gives the message back, every satellite
      decoded, with the padding bits of the last byte left over. */
  lemma RoundTrip(m: Message1012)
    requires Encodable(m)
    ensures Spec(ToByteArray(BuiltBits(m))) == Success(m.(bitsRemaining := PaddingBits(HEADER_BITS + 130 * |m.satellites|)))
  {
    var bits := BuiltBits(m);
    ByteArrayCarries(bits);
    CarrierDecodes(m, ToByteArray(bits), PaddingBits(HEADER_BITS + 130 * |m.satellites|));
  }
}
