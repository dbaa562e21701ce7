/** What the MSM decoder promises about the map it returns: when it fails,
    the masks and the active cells, one row per satellite and per cell, the
    width table, the best-effort truncation of the blocks, and the bits left. */
module MsmProperties {
  import opened Basics
  import opened Bits
  import opened MsmLists
  import opened MsmCells
  import opened MsmDecoder

  // ---------------------------------------------------------------------
  // Failure

  /** decode fails exactly when the header, the two masks and the cell mask
      (|satellites| * |signals| bits) do not fit in the payload. */
  lemma DecodeFailsIff(t: nat, p: seq<Byte>)
    ensures DecodeSpec(t, p).Failure? <==>
      (8 * |p| < CELL_MASK_AT || 8 * |p| < CELL_MASK_AT + |SatelliteIds(p)| * |SignalIds(p)|)
  {
  }

  /** A payload of at least 169 + 64 * 32 bits always decodes. */
  lemma LongPayloadDecodes(t: nat, p: seq<Byte>)
    requires 8 * |p| >= CELL_MASK_AT + 64 * 32
    ensures DecodeSpec(t, p).Success?
  {
    var sats, sigs := SatelliteIds(p), SignalIds(p);
    MulMonotone(|sats|, 64, |sigs|);
    MulMonotone(|sigs|, 32, 64);
    assert |sats| * |sigs| <= 64 * |sigs| == |sigs| * 64;
  }

  // ---------------------------------------------------------------------
  // Masks and cells

  /** The ids of a decoded message are those of its payload's masks. */
  lemma MessageIds(t: nat, p: seq<Byte>, m: MsmMessage)
    requires DecodeSpec(t, p) == Success(m)
    ensures FixedPartFits(p) && m.satelliteIds == SatelliteIds(p) && m.signalIds == SignalIds(p)
  {
  }

  /** The payload's satellite ids, as MaskIdsExact gives them for a 64-bit mask. */
  lemma SatelliteMaskFacts(p: seq<Byte>)
    requires CELL_MASK_AT <= 8 * |p|
    ensures var ids := SatelliteIds(p);
      && StrictlyIncreasing(ids)
      && (forall i :: 0 <= i < |ids| ==> 1 <= ids[i] <= 64)
      && (forall id :: 1 <= id <= 64 ==> (id in ids <==> Bit(p, SATELLITE_MASK_AT + id - 1) == 1))
  {
    MaskIdsExact(p, SATELLITE_MASK_AT, 64, 1);
  }

  /** The payload's signal ids, as MaskIdsExact gives them for a 32-bit mask. */
  lemma SignalMaskFacts(p: seq<Byte>)
    requires CELL_MASK_AT <= 8 * |p|
    ensures var ids := SignalIds(p);
      && StrictlyIncreasing(ids)
      && (forall i :: 0 <= i < |ids| ==> 1 <= ids[i] <= 32)
      && (forall id :: 1 <= id <= 32 ==> (id in ids <==> Bit(p, SIGNAL_MASK_AT + id - 1) == 1))
  {
    MaskIdsExact(p, SIGNAL_MASK_AT, 32, 1);
  }

  /** satelliteIds are the strictly increasing 1-based positions of the set
      bits of the 64-bit satellite mask. */
  lemma SatelliteIdsExact(t: nat, p: seq<Byte>, m: MsmMessage)
    requires DecodeSpec(t, p) == Success(m)
    ensures StrictlyIncreasing(m.satelliteIds)
    ensures forall i :: 0 <= i < |m.satelliteIds| ==> 1 <= m.satelliteIds[i] <= 64
    ensures forall id :: 1 <= id <= 64 ==> (id in m.satelliteIds <==> Bit(p, SATELLITE_MASK_AT + id - 1) == 1)
  {
    MessageIds(t, p, m);
    SatelliteMaskFacts(p);
  }

  /** signalIds are the strictly increasing 1-based positions of the set bits
      of the 32-bit signal mask. */
  lemma SignalIdsExact(t: nat, p: seq<Byte>, m: MsmMessage)
    requires DecodeSpec(t, p) == Success(m)
    ensures StrictlyIncreasing(m.signalIds)
    ensures forall i :: 0 <= i < |m.signalIds| ==> 1 <= m.signalIds[i] <= 32
    ensures forall id :: 1 <= id <= 32 ==> (id in m.signalIds <==> Bit(p, SIGNAL_MASK_AT + id - 1) == 1)
  {
    MessageIds(t, p, m);
    SignalMaskFacts(p);
  }

  /** The (satellite, signal) pairs that the cell rows carry, in order. */
  function RowCells(rows: seq<CellRow>): (cells: seq<Cell>)
    ensures |cells| == |rows|
  {
    seq(|rows|, k requires 0 <= k < |rows| => Cell(rows[k].satelliteId, rows[k].signalId))
  }

  /** The cell rows carry exactly the active cells, in order. */
  lemma RowCellsAreActive(t: nat, p: seq<Byte>, m: MsmMessage)
    requires DecodeSpec(t, p) == Success(m)
    ensures FixedPartFits(p) && RowCells(m.cellData) == ActiveCellsOf(p)
  {
    var cells := ActiveCellsOf(p);
    assert |RowCells(m.cellData)| == |cells|;
    forall k | 0 <= k < |cells|
      ensures RowCells(m.cellData)[k] == cells[k]
    {
    }
  }

  /** One satellite row per satellite id, carrying that id. */
  lemma SatelliteRowsCarryIds(t: nat, p: seq<Byte>, m: MsmMessage)
    requires DecodeSpec(t, p) == Success(m)
    ensures |m.satelliteData| == |m.satelliteIds|
    ensures forall i :: 0 <= i < |m.satelliteData| ==> m.satelliteData[i].satelliteId == m.satelliteIds[i]
    ensures m.messageType == t && m.msmType == t % 10
  {
  }

  /** The active cells, as counted, ordered and unique. */
  lemma ActiveCellsFacts(p: seq<Byte>)
    requires FixedPartFits(p)
    ensures |ActiveCellsOf(p)| == CountTrue(CellMask(p))
    ensures CellsIncreasing(ActiveCellsOf(p))
  {
    MaskIdsExact(p, SATELLITE_MASK_AT, 64, 1);
    MaskIdsExact(p, SIGNAL_MASK_AT, 32, 1);
    SelectCount(Grid(SatelliteIds(p), SignalIds(p)), CellMask(p));
    ActiveCellsIncreasing(SatelliteIds(p), SignalIds(p), CellMask(p));
  }

  /** One cell row per active cell: activeCellCount is the number of set
      cell-mask bits, and the rows come in satellite-major order with no
      pair twice. */
  lemma CellRowsOrdered(t: nat, p: seq<Byte>, m: MsmMessage)
    requires DecodeSpec(t, p) == Success(m)
    ensures FixedPartFits(p) && m.activeCellCount == |m.cellData| == CountTrue(CellMask(p))
    ensures CellsIncreasing(RowCells(m.cellData))
  {
    RowCellsAreActive(t, p, m);
    ActiveCellsFacts(p);
  }

  /** The position of cell (i, j) in the row-major grid of a mask with n signals per satellite. */
  function GridPosition(i: nat, j: nat, n: nat): nat
  {
    i * n + j
  }

  /** Bit k of the cell mask (bit CELL_MASK_AT + k of the payload) exists and is set. */
  predicate CellMaskBitSet(p: seq<Byte>, k: nat)
  {
    CELL_MASK_AT + k < 8 * |p| && Bit(p, CELL_MASK_AT + k) == 1
  }

  /** (SatelliteIds[i], SignalIds[j]) is active exactly when its cell-mask bit is set. */
  lemma ActiveCellIffBit(p: seq<Byte>, i: nat, j: nat)
    requires FixedPartFits(p) && i < |SatelliteIds(p)| && j < |SignalIds(p)|
    ensures Cell(SatelliteIds(p)[i], SignalIds(p)[j]) in ActiveCellsOf(p) <==>
      CellMaskBitSet(p, GridPosition(i, j, |SignalIds(p)|))
  {
    var sats, sigs := SatelliteIds(p), SignalIds(p);
    MaskIdsExact(p, SATELLITE_MASK_AT, 64, 1);
    MaskIdsExact(p, SIGNAL_MASK_AT, 32, 1);
    ActiveCellsExact(sats, sigs, CellMask(p), i, j);
  }

  /** (satelliteIds[i], signalIds[j]) has a cell row exactly when bit
      i * |signalIds| + j of the cell mask is set. */
  lemma CellRowIffMaskBit(t: nat, p: seq<Byte>, m: MsmMessage, i: nat, j: nat)
    requires DecodeSpec(t, p) == Success(m)
    requires i < |m.satelliteIds| && j < |m.signalIds|
    ensures Cell(m.satelliteIds[i], m.signalIds[j]) in RowCells(m.cellData) <==>
      CellMaskBitSet(p, GridPosition(i, j, |m.signalIds|))
  {
    RowCellsAreActive(t, p, m);
    ActiveCellIffBit(p, i, j);
  }

  // ---------------------------------------------------------------------
  // The fields of the rows, one column at a time

  datatype SatelliteField = RoughRange | ExtendedInfo | RangeModulo | RoughRate

  function SatelliteValue(row: SatelliteRow, f: SatelliteField): Option<int>
  {
    match f
    case RoughRange => row.roughRangeMs
    case ExtendedInfo => row.extendedInfo
    case RangeModulo => row.rangeModulo
    case RoughRate => row.roughPhaseRangeRate
  }

  /** The width table for the satellite fields, by MSM number. */
  function SatelliteWidth(f: SatelliteField, t: nat): (w: nat)
    ensures ValidWidth(w, SatelliteSigned(f))
  {
    match f
    case RoughRange => RoughRangeWidth(t)
    case ExtendedInfo => ExtendedInfoWidth(t)
    case RangeModulo => RangeModuloWidth(t)
    case RoughRate => RoughRateWidth(t)
  }

  /** Only the rough phase-range rate is signed. */
  predicate SatelliteSigned(f: SatelliteField)
  {
    f == RoughRate
  }

  /** Where the list of field f begins, for n satellites from bit q. */
  function SatelliteColumnAt(p: seq<Byte>, q: nat, n: nat, t: nat, f: SatelliteField): (at: nat)
    requires q <= 8 * |p|
    ensures at <= 8 * |p|
  {
    match f
    case RoughRange => q
    case ExtendedInfo => ListEnd(p, q, n, RoughRangeWidth(t))
    case RangeModulo => RangeModuloAt(p, q, n, t)
    case RoughRate => ListEnd(p, RangeModuloAt(p, q, n, t), n, RangeModuloWidth(t))
  }

  /** Field f of every satellite row. */
  function SatelliteColumn(rows: seq<SatelliteRow>, f: SatelliteField): (c: seq<Option<int>>)
    ensures |c| == |rows|
  {
    seq(|rows|, i requires 0 <= i < |rows| => SatelliteValue(rows[i], f))
  }

  /** The column of field f is the list read for it. */
  lemma SatelliteColumnIsList(p: seq<Byte>, q: nat, sats: seq<nat>, t: nat, f: SatelliteField)
    requires q <= 8 * |p|
    ensures SatelliteColumn(SatelliteData(p, q, sats, t), f) ==
      ListValues(p, SatelliteColumnAt(p, q, |sats|, t, f), |sats|, SatelliteWidth(f, t), SatelliteSigned(f))
  {
  }

  datatype CellField = Pseudorange | Phase | Lock | HalfCycle | Cnr | FineRate

  function CellValue(row: CellRow, f: CellField): Option<int>
  {
    match f
    case Pseudorange => row.finePseudorange
    case Phase => row.finePhaseRange
    case Lock => row.lockTimeIndicator
    case HalfCycle => row.halfCycleAmbiguity
    case Cnr => row.cnr
    case FineRate => row.finePhaseRangeRate
  }

  /** The width table for the cell fields, by MSM number. */
  function CellWidth(f: CellField, t: nat): (w: nat)
    ensures ValidWidth(w, CellSigned(f))
  {
    match f
    case Pseudorange => PseudorangeWidth(t)
    case Phase => PhaseWidth(t)
    case Lock => LockWidth(t)
    case HalfCycle => HalfCycleWidth(t)
    case Cnr => CnrWidth(t)
    case FineRate => FineRateWidth(t)
  }

  /** Fine pseudorange, fine phase range and fine phase-range rate are signed. */
  predicate CellSigned(f: CellField)
  {
    f == Pseudorange || f == Phase || f == FineRate
  }

  function CellColumnAt(p: seq<Byte>, r: nat, n: nat, t: nat, f: CellField): (at: nat)
    requires r <= 8 * |p|
    ensures at <= 8 * |p|
  {
    match f
    case Pseudorange => r
    case Phase => ListEnd(p, r, n, PseudorangeWidth(t))
    case Lock => LockAt(p, r, n, t)
    case HalfCycle => ListEnd(p, LockAt(p, r, n, t), n, LockWidth(t))
    case Cnr => CnrAt(p, r, n, t)
    case FineRate => ListEnd(p, CnrAt(p, r, n, t), n, CnrWidth(t))
  }

  function CellColumn(rows: seq<CellRow>, f: CellField): (c: seq<Option<int>>)
    ensures |c| == |rows|
  {
    seq(|rows|, k requires 0 <= k < |rows| => CellValue(rows[k], f))
  }

  lemma CellColumnIsList(p: seq<Byte>, r: nat, cells: seq<Cell>, t: nat, f: CellField)
    requires r <= 8 * |p|
    ensures CellColumn(CellData(p, r, cells, t), f) ==
      ListValues(p, CellColumnAt(p, r, |cells|, t, f), |cells|, CellWidth(f, t), CellSigned(f))
  {
  }

  /** The satellite data of the map, column by column. */
  lemma MessageSatelliteColumn(t: nat, p: seq<Byte>, m: MsmMessage, f: SatelliteField)
    requires DecodeSpec(t, p) == Success(m)
    ensures FixedPartFits(p)
    ensures SatelliteColumn(m.satelliteData, f) ==
      ListValues(p, SatelliteColumnAt(p, SatelliteDataAt(p), |m.satelliteIds|, t % 10, f), |m.satelliteIds|,
        SatelliteWidth(f, t % 10), SatelliteSigned(f))
  {
    SatelliteColumnIsList(p, SatelliteDataAt(p), SatelliteIds(p), t % 10, f);
  }

  /** The cell data of the map, column by column. */
  lemma MessageCellColumn(t: nat, p: seq<Byte>, m: MsmMessage, f: CellField)
    requires DecodeSpec(t, p) == Success(m)
    ensures FixedPartFits(p)
    ensures CellColumn(m.cellData, f) ==
      ListValues(p, CellColumnAt(p, CellDataAt(p, t % 10), |m.cellData|, t % 10, f), |m.cellData|,
        CellWidth(f, t % 10), CellSigned(f))
  {
    CellColumnIsList(p, CellDataAt(p, t % 10), ActiveCellsOf(p), t % 10, f);
  }

  // ---------------------------------------------------------------------
  // Width table, truncation, ranges

  /** A satellite field whose width is 0 for this MSM number is None in every row. */
  lemma SatelliteFieldAbsent(t: nat, p: seq<Byte>, m: MsmMessage, f: SatelliteField, i: nat)
    requires DecodeSpec(t, p) == Success(m) && i < |m.satelliteData|
    requires SatelliteWidth(f, t % 10) == 0
    ensures SatelliteValue(m.satelliteData[i], f).None?
  {
    MessageSatelliteColumn(t, p, m, f);
    ZeroWidth(p, SatelliteColumnAt(p, SatelliteDataAt(p), |m.satelliteIds|, t % 10, f), |m.satelliteIds|,
      SatelliteSigned(f));
    assert SatelliteColumn(m.satelliteData, f)[i] == SatelliteValue(m.satelliteData[i], f);
  }

  /** A cell field whose width is 0 for this MSM number is None in every row. */
  lemma CellFieldAbsent(t: nat, p: seq<Byte>, m: MsmMessage, f: CellField, k: nat)
    requires DecodeSpec(t, p) == Success(m) && k < |m.cellData|
    requires CellWidth(f, t % 10) == 0
    ensures CellValue(m.cellData[k], f).None?
  {
    MessageCellColumn(t, p, m, f);
    ZeroWidth(p, CellColumnAt(p, CellDataAt(p, t % 10), |m.cellData|, t % 10, f), |m.cellData|, CellSigned(f));
    assert CellColumn(m.cellData, f)[k] == CellValue(m.cellData[k], f);
  }

  /** Truncation is a suffix: once a satellite field is None, it is None in
      every later row too. */
  lemma SatelliteTruncationSuffix(t: nat, p: seq<Byte>, m: MsmMessage, f: SatelliteField, i: nat, j: nat)
    requires DecodeSpec(t, p) == Success(m) && i <= j < |m.satelliteData|
    requires SatelliteValue(m.satelliteData[i], f).None?
    ensures SatelliteValue(m.satelliteData[j], f).None?
  {
    MessageSatelliteColumn(t, p, m, f);
    var c := SatelliteColumn(m.satelliteData, f);
    assert c[i] == SatelliteValue(m.satelliteData[i], f) && c[j] == SatelliteValue(m.satelliteData[j], f);
    AbsentSuffix(p, SatelliteColumnAt(p, SatelliteDataAt(p), |m.satelliteIds|, t % 10, f), |m.satelliteIds|,
      SatelliteWidth(f, t % 10), SatelliteSigned(f), i, j);
  }

  /** Truncation is a suffix in the cell data too. */
  lemma CellTruncationSuffix(t: nat, p: seq<Byte>, m: MsmMessage, f: CellField, k: nat, l: nat)
    requires DecodeSpec(t, p) == Success(m) && k <= l < |m.cellData|
    requires CellValue(m.cellData[k], f).None?
    ensures CellValue(m.cellData[l], f).None?
  {
    MessageCellColumn(t, p, m, f);
    var c := CellColumn(m.cellData, f);
    assert c[k] == CellValue(m.cellData[k], f) && c[l] == CellValue(m.cellData[l], f);
    AbsentSuffix(p, CellColumnAt(p, CellDataAt(p, t % 10), |m.cellData|, t % 10, f), |m.cellData|,
      CellWidth(f, t % 10), CellSigned(f), k, l);
  }

  /** A present satellite field holds a value of its width (two's complement
      for the rough phase-range rate). */
  lemma SatelliteFieldRange(t: nat, p: seq<Byte>, m: MsmMessage, f: SatelliteField, i: nat)
    requires DecodeSpec(t, p) == Success(m) && i < |m.satelliteData|
    requires SatelliteValue(m.satelliteData[i], f).Some?
    ensures FitsWidth(SatelliteValue(m.satelliteData[i], f).value, SatelliteWidth(f, t % 10), SatelliteSigned(f))
  {
    MessageSatelliteColumn(t, p, m, f);
    assert SatelliteColumn(m.satelliteData, f)[i] == SatelliteValue(m.satelliteData[i], f);
    EntryFitsWidth(p, SatelliteColumnAt(p, SatelliteDataAt(p), |m.satelliteIds|, t % 10, f), |m.satelliteIds|,
      SatelliteWidth(f, t % 10), SatelliteSigned(f), i);
  }

  /** A present cell field holds a value of its width (two's complement for
      the fine pseudorange, fine phase range and fine phase-range rate). */
  lemma CellFieldRange(t: nat, p: seq<Byte>, m: MsmMessage, f: CellField, k: nat)
    requires DecodeSpec(t, p) == Success(m) && k < |m.cellData|
    requires CellValue(m.cellData[k], f).Some?
    ensures FitsWidth(CellValue(m.cellData[k], f).value, CellWidth(f, t % 10), CellSigned(f))
  {
    MessageCellColumn(t, p, m, f);
    assert CellColumn(m.cellData, f)[k] == CellValue(m.cellData[k], f);
    EntryFitsWidth(p, CellColumnAt(p, CellDataAt(p, t % 10), |m.cellData|, t % 10, f), |m.cellData|,
      CellWidth(f, t % 10), CellSigned(f), k);
  }

  // ---------------------------------------------------------------------
  // Bits consumed

  /** The bits taken by `present` entries of `width` bits. */
  function FieldBits(width: nat, present: nat): nat
  {
    width * present
  }

  /** The bits the satellite block took: each present field its width. */
  function SatelliteBitsUsed(rows: seq<SatelliteRow>, t: nat): nat
  {
    FieldBits(SatelliteWidth(RoughRange, t), CountPresent(SatelliteColumn(rows, RoughRange))) +
    FieldBits(SatelliteWidth(ExtendedInfo, t), CountPresent(SatelliteColumn(rows, ExtendedInfo))) +
    FieldBits(SatelliteWidth(RangeModulo, t), CountPresent(SatelliteColumn(rows, RangeModulo))) +
    FieldBits(SatelliteWidth(RoughRate, t), CountPresent(SatelliteColumn(rows, RoughRate)))
  }

  /** The bits the cell block took. */
  function CellBitsUsed(rows: seq<CellRow>, t: nat): nat
  {
    FieldBits(CellWidth(Pseudorange, t), CountPresent(CellColumn(rows, Pseudorange))) +
    FieldBits(CellWidth(Phase, t), CountPresent(CellColumn(rows, Phase))) +
    FieldBits(CellWidth(Lock, t), CountPresent(CellColumn(rows, Lock))) +
    FieldBits(CellWidth(HalfCycle, t), CountPresent(CellColumn(rows, HalfCycle))) +
    FieldBits(CellWidth(Cnr, t), CountPresent(CellColumn(rows, Cnr))) +
    FieldBits(CellWidth(FineRate, t), CountPresent(CellColumn(rows, FineRate)))
  }

  lemma SatelliteEndIsUsed(p: seq<Byte>, q: nat, sats: seq<nat>, t: nat)
    requires q <= 8 * |p|
    ensures SatelliteEnd(p, q, |sats|, t) == q + SatelliteBitsUsed(SatelliteData(p, q, sats, t), t)
  {
    var n := |sats|;
    var rows := SatelliteData(p, q, sats, t);
    SatelliteColumnIsList(p, q, sats, t, RoughRange);
    SatelliteColumnIsList(p, q, sats, t, ExtendedInfo);
    SatelliteColumnIsList(p, q, sats, t, RangeModulo);
    SatelliteColumnIsList(p, q, sats, t, RoughRate);
    ListConsumed(p, q, n, RoughRangeWidth(t), false);
    ListConsumed(p, ListEnd(p, q, n, RoughRangeWidth(t)), n, ExtendedInfoWidth(t), false);
    ListConsumed(p, RangeModuloAt(p, q, n, t), n, RangeModuloWidth(t), false);
    ListConsumed(p, ListEnd(p, RangeModuloAt(p, q, n, t), n, RangeModuloWidth(t)), n, RoughRateWidth(t), true);
  }

  lemma CellEndIsUsed(p: seq<Byte>, r: nat, cells: seq<Cell>, t: nat)
    requires r <= 8 * |p|
    ensures CellEnd(p, r, |cells|, t) == r + CellBitsUsed(CellData(p, r, cells, t), t)
  {
    var n := |cells|;
    CellColumnIsList(p, r, cells, t, Pseudorange);
    CellColumnIsList(p, r, cells, t, Phase);
    CellColumnIsList(p, r, cells, t, Lock);
    CellColumnIsList(p, r, cells, t, HalfCycle);
    CellColumnIsList(p, r, cells, t, Cnr);
    CellColumnIsList(p, r, cells, t, FineRate);
    ListConsumed(p, r, n, PseudorangeWidth(t), true);
    ListConsumed(p, ListEnd(p, r, n, PseudorangeWidth(t)), n, PhaseWidth(t), true);
    ListConsumed(p, LockAt(p, r, n, t), n, LockWidth(t), false);
    ListConsumed(p, ListEnd(p, LockAt(p, r, n, t), n, LockWidth(t)), n, HalfCycleWidth(t), false);
    ListConsumed(p, CnrAt(p, r, n, t), n, CnrWidth(t), false);
    ListConsumed(p, ListEnd(p, CnrAt(p, r, n, t), n, CnrWidth(t)), n, FineRateWidth(t), true);
  }

  /** bitsRemaining is the payload's bits less everything read: the fixed
      part, the cell mask and one width per present field; it is never negative. */
  lemma BitsRemainingIsUnread(t: nat, p: seq<Byte>, m: MsmMessage)
    requires DecodeSpec(t, p) == Success(m)
    ensures m.bitsRemaining >= 0
    ensures m.bitsRemaining == 8 * |p| - CELL_MASK_AT - |m.satelliteIds| * |m.signalIds|
      - SatelliteBitsUsed(m.satelliteData, t % 10) - CellBitsUsed(m.cellData, t % 10)
  {
    var u := t % 10;
    SatelliteEndIsUsed(p, SatelliteDataAt(p), SatelliteIds(p), u);
    CellEndIsUsed(p, CellDataAt(p, u), ActiveCellsOf(p), u);
  }
}
