/** The MSM1..MSM7 decoder (rtcm/decoders/MsmDecoder.kt; message layout of
    section 3.5.12 of RTCM Standard 10403.x): a 73-bit header, the satellite,
    signal and cell masks, then the satellite data and the cell data, whose
    field widths depend on the MSM number `messageType % 10`. */
module MsmDecoder {
  import opened Basics
  import opened Bits
  import opened MsmLists
  import opened MsmCells

  // Bit positions of the fixed part. Everything up to the cell mask is read
  // with no check of the remaining bits.
  const HEADER_BITS: nat := 73
  const SATELLITE_MASK_AT: nat := 73
  const SIGNAL_MASK_AT: nat := 137
  const CELL_MASK_AT: nat := 169

  /** The header fields (the message number at bits 0..11 is read and dropped). */
  datatype MsmHeader = MsmHeader(
    stationId: nat,
    epochTime: nat,
    multipleMessage: bool,
    issueOfDataStation: nat,
    reserved: nat,
    clockSteering: nat,
    externalClockIndicator: nat,
    smoothingIndicator: bool,
    smoothingInterval: nat)

  /** One entry of `satelliteData`; a field is None when its width is 0 for
      this MSM number or when the payload ran out of bits. */
  datatype SatelliteRow = SatelliteRow(
    satelliteId: nat,
    roughRangeMs: Option<int>,
    extendedInfo: Option<int>,
    rangeModulo: Option<int>,
    roughPhaseRangeRate: Option<int>)

  /** One entry of `cellData`. */
  datatype CellRow = CellRow(
    satelliteId: nat,
    signalId: nat,
    finePseudorange: Option<int>,
    finePhaseRange: Option<int>,
    lockTimeIndicator: Option<int>,
    halfCycleAmbiguity: Option<int>,
    cnr: Option<int>,
    finePhaseRangeRate: Option<int>)

  /** The decoded map of an MSM message. */
  datatype MsmMessage = MsmMessage(
    messageType: nat,
    msmType: nat,
    header: MsmHeader,
    satelliteIds: seq<nat>,
    signalIds: seq<nat>,
    activeCellCount: nat,
    satelliteData: seq<SatelliteRow>,
    cellData: seq<CellRow>,
    bitsRemaining: int)

  // The width table, by MSM number t.

  function RoughRangeWidth(t: nat): nat { if t >= 4 then 8 else 0 }
  function ExtendedInfoWidth(t: nat): nat { if t == 5 || t == 7 then 4 else 0 }
  function RangeModuloWidth(t: nat): nat { if 1 <= t <= 7 then 10 else 0 }
  function RoughRateWidth(t: nat): nat { if t == 5 || t == 7 then 14 else 0 }

  function PseudorangeWidth(t: nat): nat
  {
    if t == 1 || t == 3 || t == 4 || t == 5 then 15 else if t == 6 || t == 7 then 20 else 0
  }

  function PhaseWidth(t: nat): nat
  {
    if 2 <= t <= 5 then 22 else if t == 6 || t == 7 then 24 else 0
  }

  function LockWidth(t: nat): nat
  {
    if 2 <= t <= 5 then 4 else if t == 6 || t == 7 then 10 else 0
  }

  function HalfCycleWidth(t: nat): nat { if 2 <= t <= 7 then 1 else 0 }

  function CnrWidth(t: nat): nat
  {
    if t == 4 || t == 5 then 6 else if t == 6 || t == 7 then 10 else 0
  }

  function FineRateWidth(t: nat): nat { if t == 5 || t == 7 then 15 else 0 }

  /** The header as read from bits 12..72. */
  function HeaderAt(p: seq<Byte>): (h: MsmHeader)
    requires HEADER_BITS <= 8 * |p|
  {
    MsmHeader(
      Value(p, 12, 12), Value(p, 24, 30), Value(p, 54, 1) == 1, Value(p, 55, 3),
      Value(p, 58, 7), Value(p, 65, 2), Value(p, 67, 2), Value(p, 69, 1) == 1, Value(p, 70, 3))
  }

  /** The satellite rows, zipped from the four per-satellite lists. */
  function SatelliteTable(sats: seq<nat>, rr: seq<Option<int>>, ext: seq<Option<int>>,
                          rm: seq<Option<int>>, rate: seq<Option<int>>): (rows: seq<SatelliteRow>)
    requires |rr| == |sats| && |ext| == |sats| && |rm| == |sats| && |rate| == |sats|
    ensures |rows| == |sats|
  {
    seq(|sats|, i requires 0 <= i < |sats| => SatelliteRow(sats[i], rr[i], ext[i], rm[i], rate[i]))
  }

  /** The cell rows, zipped from the active cells and the six per-cell lists. */
  function CellTable(cells: seq<Cell>, pr: seq<Option<int>>, ph: seq<Option<int>>, lock: seq<Option<int>>,
                     half: seq<Option<int>>, cnr: seq<Option<int>>, fine: seq<Option<int>>): (rows: seq<CellRow>)
    requires |pr| == |cells| && |ph| == |cells| && |lock| == |cells|
    requires |half| == |cells| && |cnr| == |cells| && |fine| == |cells|
    ensures |rows| == |cells|
  {
    seq(|cells|, i requires 0 <= i < |cells| =>
      CellRow(cells[i].satelliteId, cells[i].signalId, pr[i], ph[i], lock[i], half[i], cnr[i], fine[i]))
  }

  // Bit positions at which each list of the satellite and cell blocks begins.

  function RangeModuloAt(p: seq<Byte>, pos: nat, n: nat, t: nat): (q: nat)
    requires pos <= 8 * |p|
    ensures pos <= q <= 8 * |p|
  {
    ListEnd(p, ListEnd(p, pos, n, RoughRangeWidth(t)), n, ExtendedInfoWidth(t))
  }

  function SatelliteEnd(p: seq<Byte>, pos: nat, n: nat, t: nat): (q: nat)
    requires pos <= 8 * |p|
    ensures pos <= q <= 8 * |p|
  {
    var q2 := RangeModuloAt(p, pos, n, t);
    ListEnd(p, ListEnd(p, q2, n, RangeModuloWidth(t)), n, RoughRateWidth(t))
  }

  /** decodeSatelliteData from bit pos. */
  function SatelliteData(p: seq<Byte>, pos: nat, sats: seq<nat>, t: nat): (rows: seq<SatelliteRow>)
    requires pos <= 8 * |p|
    ensures |rows| == |sats|
  {
    var n := |sats|;
    var q1 := ListEnd(p, pos, n, RoughRangeWidth(t));
    var q2 := RangeModuloAt(p, pos, n, t);
    var q3 := ListEnd(p, q2, n, RangeModuloWidth(t));
    SatelliteTable(sats,
      ListValues(p, pos, n, RoughRangeWidth(t), false),
      ListValues(p, q1, n, ExtendedInfoWidth(t), false),
      ListValues(p, q2, n, RangeModuloWidth(t), false),
      ListValues(p, q3, n, RoughRateWidth(t), true))
  }

  function LockAt(p: seq<Byte>, pos: nat, n: nat, t: nat): (q: nat)
    requires pos <= 8 * |p|
    ensures pos <= q <= 8 * |p|
  {
    ListEnd(p, ListEnd(p, pos, n, PseudorangeWidth(t)), n, PhaseWidth(t))
  }

  function CnrAt(p: seq<Byte>, pos: nat, n: nat, t: nat): (q: nat)
    requires pos <= 8 * |p|
    ensures pos <= q <= 8 * |p|
  {
    var q2 := LockAt(p, pos, n, t);
    ListEnd(p, ListEnd(p, q2, n, LockWidth(t)), n, HalfCycleWidth(t))
  }

  function CellEnd(p: seq<Byte>, pos: nat, n: nat, t: nat): (q: nat)
    requires pos <= 8 * |p|
    ensures pos <= q <= 8 * |p|
  {
    var q4 := CnrAt(p, pos, n, t);
    ListEnd(p, ListEnd(p, q4, n, CnrWidth(t)), n, FineRateWidth(t))
  }

  /** decodeCellData from bit pos. */
  function CellData(p: seq<Byte>, pos: nat, cells: seq<Cell>, t: nat): (rows: seq<CellRow>)
    requires pos <= 8 * |p|
    ensures |rows| == |cells|
  {
    var n := |cells|;
    var q1 := ListEnd(p, pos, n, PseudorangeWidth(t));
    var q2 := LockAt(p, pos, n, t);
    var q3 := ListEnd(p, q2, n, LockWidth(t));
    var q4 := CnrAt(p, pos, n, t);
    var q5 := ListEnd(p, q4, n, CnrWidth(t));
    CellTable(cells,
      ListValues(p, pos, n, PseudorangeWidth(t), true),
      ListValues(p, q1, n, PhaseWidth(t), true),
      ListValues(p, q2, n, LockWidth(t), false),
      ListValues(p, q3, n, HalfCycleWidth(t), false),
      ListValues(p, q4, n, CnrWidth(t), false),
      ListValues(p, q5, n, FineRateWidth(t), true))
  }

  function SatelliteIds(p: seq<Byte>): seq<nat>
    requires CELL_MASK_AT <= 8 * |p|
  {
    MaskIds(p, SATELLITE_MASK_AT, 64, 1)
  }

  function SignalIds(p: seq<Byte>): seq<nat>
    requires CELL_MASK_AT <= 8 * |p|
  {
    MaskIds(p, SIGNAL_MASK_AT, 32, 1)
  }

  /** The number of cell-mask bits: one per satellite-signal pair. */
  function CellMaskSize(p: seq<Byte>): nat
    requires CELL_MASK_AT <= 8 * |p|
  {
    |SatelliteIds(p)| * |SignalIds(p)|
  }

  /** The header, the masks and the cell mask fit in the payload: the reads that
      decode makes without checking the remaining bits all succeed. */
  predicate FixedPartFits(p: seq<Byte>)
  {
    CELL_MASK_AT <= 8 * |p| && CellMaskSize(p) <= 8 * |p| - CELL_MASK_AT
  }

  function CellMask(p: seq<Byte>): (mask: seq<bool>)
    requires FixedPartFits(p)
    ensures |mask| == |SatelliteIds(p)| * |SignalIds(p)|
  {
    MaskBits(p, CELL_MASK_AT, CellMaskSize(p))
  }

  /** The active (satellite, signal) pairs. */
  function ActiveCellsOf(p: seq<Byte>): seq<Cell>
    requires FixedPartFits(p)
  {
    ActiveCells(SatelliteIds(p), SignalIds(p), CellMask(p))
  }

  /** Where the satellite data begins, and where the cell data begins. */
  function SatelliteDataAt(p: seq<Byte>): (q: nat)
    requires FixedPartFits(p)
    ensures q <= 8 * |p|
  {
    CELL_MASK_AT + CellMaskSize(p)
  }

  function CellDataAt(p: seq<Byte>, t: nat): (q: nat)
    requires FixedPartFits(p)
    ensures q <= 8 * |p|
  {
    SatelliteEnd(p, SatelliteDataAt(p), |SatelliteIds(p)|, t)
  }

  /** The map decode returns when the fixed part fits. */
  function MessageOf(messageType: nat, p: seq<Byte>): MsmMessage
    requires FixedPartFits(p)
  {
    var t := messageType % 10;
    var cells := ActiveCellsOf(p);
    MsmMessage(messageType, t, HeaderAt(p), SatelliteIds(p), SignalIds(p), |cells|,
      SatelliteData(p, SatelliteDataAt(p), SatelliteIds(p), t),
      CellData(p, CellDataAt(p, t), cells, t),
      8 * |p| - CellEnd(p, CellDataAt(p, t), |cells|, t))
  }

  /** MsmDecoder(messageType).decode(payload). Failure(OutOfBits) stands for the
      exception that an unguarded read of the header or a mask raises. */
  function DecodeSpec(messageType: nat, p: seq<Byte>): (r: Result<MsmMessage, DecodeError>)
  {
    if FixedPartFits(p) then Success(MessageOf(messageType, p)) else Failure(OutOfBits)
  }

  // The methods, one per function of the decoder, threading one cursor.

  /** The header reads of decode: bits 0..53 (message number, station, epoch). */
  method ReadHeaderStart(bits: BitBuffer) returns (stationId: nat, epochTime: nat)
    requires bits.Valid() && bits.bitIndex == 0 && HEADER_BITS <= 8 * |bits.payload|
    modifies bits
    ensures bits.Valid() && bits.bitIndex == 54
    ensures stationId == Value(bits.payload, 12, 12) && epochTime == Value(bits.payload, 24, 30)
  {
    var _ := bits.ReadUnsigned(12);
    stationId := bits.ReadUnsigned(12);
    epochTime := bits.ReadUnsigned(30);
  }

  /** Bits 54..64: multiple-message flag, IODS, reserved. */
  method ReadHeaderMiddle(bits: BitBuffer) returns (multipleMessage: nat, issueOfDataStation: nat, reserved: nat)
    requires bits.Valid() && bits.bitIndex == 54 && HEADER_BITS <= 8 * |bits.payload|
    modifies bits
    ensures bits.Valid() && bits.bitIndex == 65
    ensures multipleMessage == Value(bits.payload, 54, 1) && issueOfDataStation == Value(bits.payload, 55, 3)
    ensures reserved == Value(bits.payload, 58, 7)
  {
    multipleMessage := bits.ReadUnsigned(1);
    issueOfDataStation := bits.ReadUnsigned(3);
    reserved := bits.ReadUnsigned(7);
  }

  /** Bits 65..72: clock steering, external clock, smoothing indicator and interval. */
  method ReadHeaderEnd(bits: BitBuffer) returns (clockSteering: nat, externalClock: nat, smoothingIndicator: nat, smoothingInterval: nat)
    requires bits.Valid() && bits.bitIndex == 65 && HEADER_BITS <= 8 * |bits.payload|
    modifies bits
    ensures bits.Valid() && bits.bitIndex == HEADER_BITS
    ensures clockSteering == Value(bits.payload, 65, 2) && externalClock == Value(bits.payload, 67, 2)
    ensures smoothingIndicator == Value(bits.payload, 69, 1) && smoothingInterval == Value(bits.payload, 70, 3)
  {
    clockSteering := bits.ReadUnsigned(2);
    externalClock := bits.ReadUnsigned(2);
    smoothingIndicator := bits.ReadUnsigned(1);
    smoothingInterval := bits.ReadUnsigned(3);
  }

  /** The header reads of decode. */
  method ReadHeader(bits: BitBuffer) returns (h: MsmHeader)
    requires bits.Valid() && bits.bitIndex == 0 && HEADER_BITS <= 8 * |bits.payload|
    modifies bits
    ensures bits.Valid() && bits.bitIndex == HEADER_BITS
    ensures h == HeaderAt(bits.payload)
  {
    var stationId, epochTime := ReadHeaderStart(bits);
    var multipleMessage, issueOfDataStation, reserved := ReadHeaderMiddle(bits);
    var clockSteering, externalClock, smoothingIndicator, smoothingInterval := ReadHeaderEnd(bits);
    h := MsmHeader(stationId, epochTime, multipleMessage == 1, issueOfDataStation, reserved,
      clockSteering, externalClock, smoothingIndicator == 1, smoothingInterval);
  }

  /** The row-building loop of decodeSatelliteData. */
  method AssembleSatelliteRows(sats: seq<nat>, rr: seq<Option<int>>, ext: seq<Option<int>>,
                               rm: seq<Option<int>>, rate: seq<Option<int>>) returns (data: seq<SatelliteRow>)
    requires |rr| == |sats| && |ext| == |sats| && |rm| == |sats| && |rate| == |sats|
    ensures data == SatelliteTable(sats, rr, ext, rm, rate)
  {
    data := [];
    for index := 0 to |sats|
      invariant |data| == index
      invariant forall k :: 0 <= k < index ==> data[k] == SatelliteRow(sats[k], rr[k], ext[k], rm[k], rate[k])
    {
      data := data + [SatelliteRow(sats[index], rr[index], ext[index], rm[index], rate[index])];
    }
  }

  /** The row-building loop of decodeCellData. */
  method AssembleCellRows(cells: seq<Cell>, pr: seq<Option<int>>, ph: seq<Option<int>>, lock: seq<Option<int>>,
                          half: seq<Option<int>>, cnr: seq<Option<int>>, fine: seq<Option<int>>) returns (data: seq<CellRow>)
    requires |pr| == |cells| && |ph| == |cells| && |lock| == |cells|
    requires |half| == |cells| && |cnr| == |cells| && |fine| == |cells|
    ensures data == CellTable(cells, pr, ph, lock, half, cnr, fine)
  {
    data := [];
    for index := 0 to |cells|
      invariant |data| == index
      invariant forall k :: 0 <= k < index ==>
        data[k] == CellRow(cells[k].satelliteId, cells[k].signalId, pr[k], ph[k], lock[k], half[k], cnr[k], fine[k])
    {
      var cell := cells[index];
      data := data + [CellRow(cell.satelliteId, cell.signalId, pr[index], ph[index], lock[index],
        half[index], cnr[index], fine[index])];
    }
  }

  /** decodeSatelliteData(bits, satelliteIds, msmType). */
  method DecodeSatelliteData(bits: BitBuffer, sats: seq<nat>, t: nat) returns (data: seq<SatelliteRow>)
    requires bits.Valid()
    modifies bits
    ensures bits.Valid()
    ensures data == SatelliteData(bits.payload, old(bits.bitIndex), sats, t)
    ensures bits.bitIndex == SatelliteEnd(bits.payload, old(bits.bitIndex), |sats|, t)
  {
    var roughRanges := ReadUnsignedList(bits, |sats|, RoughRangeWidth(t));
    var extendedInfo := ReadUnsignedList(bits, |sats|, ExtendedInfoWidth(t));
    var rangeModulo := ReadUnsignedList(bits, |sats|, RangeModuloWidth(t));
    var roughRates := ReadSignedList(bits, |sats|, RoughRateWidth(t));
    data := AssembleSatelliteRows(sats, roughRanges, extendedInfo, rangeModulo, roughRates);
  }

  /** decodeCellData(bits, activeCells, msmType). */
  method DecodeCellData(bits: BitBuffer, cells: seq<Cell>, t: nat) returns (data: seq<CellRow>)
    requires bits.Valid()
    modifies bits
    ensures bits.Valid()
    ensures data == CellData(bits.payload, old(bits.bitIndex), cells, t)
    ensures bits.bitIndex == CellEnd(bits.payload, old(bits.bitIndex), |cells|, t)
  {
    var pseudoranges := ReadSignedList(bits, |cells|, PseudorangeWidth(t));
    var phases := ReadSignedList(bits, |cells|, PhaseWidth(t));
    var locks := ReadUnsignedList(bits, |cells|, LockWidth(t));
    var halfCycleFlags := ReadUnsignedList(bits, |cells|, HalfCycleWidth(t));
    var cnrs := ReadUnsignedList(bits, |cells|, CnrWidth(t));
    var fineRates := ReadSignedList(bits, |cells|, FineRateWidth(t));
    data := AssembleCellRows(cells, pseudoranges, phases, locks, halfCycleFlags, cnrs, fineRates);
  }

  /** The mask reads of decode, after the header. */
  method ReadMasks(bits: BitBuffer) returns (sats: seq<nat>, sigs: seq<nat>)
    requires bits.Valid() && bits.bitIndex == HEADER_BITS && CELL_MASK_AT <= 8 * |bits.payload|
    modifies bits
    ensures bits.Valid() && bits.bitIndex == CELL_MASK_AT
    ensures sats == SatelliteIds(bits.payload) && sigs == SignalIds(bits.payload)
  {
    sats := ReadMaskIds(bits, 64, 1);
    sigs := ReadMaskIds(bits, 32, 1);
  }

  /** The satellite and cell blocks of decode, after the masks. */
  method DecodeBlocks(bits: BitBuffer, messageType: nat, header: MsmHeader, cells: seq<Cell>)
    returns (m: MsmMessage)
    requires bits.Valid() && FixedPartFits(bits.payload) && bits.bitIndex == SatelliteDataAt(bits.payload)
    requires header == HeaderAt(bits.payload) && cells == ActiveCellsOf(bits.payload)
    modifies bits
    ensures m == MessageOf(messageType, bits.payload)
  {
    var sats, sigs := SatelliteIds(bits.payload), SignalIds(bits.payload);
    var msmType := messageType % 10;
    var satelliteData := DecodeSatelliteData(bits, sats, msmType);
    var cellData := DecodeCellData(bits, cells, msmType);
    m := MsmMessage(messageType, msmType, header, sats, sigs, |cells|,
      satelliteData, cellData, bits.BitsRemaining());
  }

  /** What decode does once the header and the masks are read: the cell mask,
      whose read fails when the payload is too short for it, then the blocks. */
  method DecodeBody(bits: BitBuffer, messageType: nat, header: MsmHeader, sats: seq<nat>, sigs: seq<nat>)
    returns (r: Result<MsmMessage, DecodeError>)
    requires bits.Valid() && bits.bitIndex == CELL_MASK_AT && CELL_MASK_AT <= 8 * |bits.payload|
    requires header == HeaderAt(bits.payload)
    requires sats == SatelliteIds(bits.payload) && sigs == SignalIds(bits.payload)
    modifies bits
    ensures r == DecodeSpec(messageType, bits.payload)
  {
    var cellMaskSize := |sats| * |sigs|;
    if bits.BitsRemaining() < cellMaskSize {
      return Failure(OutOfBits);
    }
    var activeCells := ReadActiveCells(bits, sats, sigs);
    var m := DecodeBlocks(bits, messageType, header, activeCells);
    r := Success(m);
  }

  /** The cell-mask read and buildActiveCells. */
  method ReadActiveCells(bits: BitBuffer, sats: seq<nat>, sigs: seq<nat>) returns (cells: seq<Cell>)
    requires bits.Valid() && bits.bitIndex == CELL_MASK_AT && FixedPartFits(bits.payload)
    requires sats == SatelliteIds(bits.payload) && sigs == SignalIds(bits.payload)
    modifies bits
    ensures bits.Valid() && bits.bitIndex == SatelliteDataAt(bits.payload)
    ensures cells == ActiveCellsOf(bits.payload)
  {
    var cellMaskBits := ReadCellMask(bits, |sats| * |sigs|);
    cells := BuildActiveCells(sats, sigs, cellMaskBits);
  }

  /** MsmDecoder(messageType).decode(payload). */
  method Decode(messageType: nat, payload: seq<Byte>) returns (r: Result<MsmMessage, DecodeError>)
    ensures r == DecodeSpec(messageType, payload)
  {
    if 8 * |payload| < CELL_MASK_AT {
      return Failure(OutOfBits);
    }
    var bits := new BitBuffer(payload);
    var header := ReadHeader(bits);
    var sats, sigs := ReadMasks(bits);
    r := DecodeBody(bits, messageType, header, sats, sigs);
  }
}
