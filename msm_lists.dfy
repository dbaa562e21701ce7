/** The best-effort list reads of the MSM decoder (rtcm/decoders/MsmDecoder.kt,
    readUnsignedList and readSignedList): `count` entries of `width` bits, each
    read only while a whole entry still fits, absent (`null`) otherwise. */
module MsmLists {
  import opened Basics
  import opened Bits

  /** How many entries of a list are read from avail bits. */
  function FullEntries(avail: nat, count: nat, width: nat): (m: nat)
    ensures m <= count
    ensures width == 0 ==> m == 0
  {
    if width == 0 then 0 else Min(count, avail / width)
  }

  /** Entry i (0-based) fits when avail / width > i. */
  lemma EntryFits(avail: nat, width: nat, i: nat)
    requires width > 0 && i < avail / width
    ensures i * width + width <= avail
  {
    var q := avail / width;
    DivUnique(avail, width, q, avail % width);
    MulMonotone(i + 1, q, width);
  }

  /** The entries read take no more bits than there are. */
  lemma FullEntriesFit(avail: nat, count: nat, width: nat)
    ensures width * FullEntries(avail, count, width) <= avail
  {
    if width > 0 {
      var q := avail / width;
      DivUnique(avail, width, q, avail % width);
      MulMonotone(FullEntries(avail, count, width), q, width);
    }
  }

  /** The value of one entry: unsigned, or two's complement. */
  function EntryValue(p: seq<Byte>, start: nat, width: nat, signed: bool): int
    requires 1 <= width <= 64 && (signed ==> width <= 63) && start + width <= 8 * |p|
  {
    if signed then ToSigned(Value(p, start, width), width) else Value(p, start, width)
  }

  predicate ValidWidth(width: nat, signed: bool)
  {
    width <= 64 && (signed ==> width <= 63)
  }

  /** The first count entries of the list that starts at bit pos of p. */
  function ListValues(p: seq<Byte>, pos: nat, count: nat, width: nat, signed: bool): (values: seq<Option<int>>)
    requires pos <= 8 * |p| && ValidWidth(width, signed)
    ensures |values| == count
  {
    if count == 0 then []
    else
      var i := count - 1;
      var avail := 8 * |p| - pos;
      ListValues(p, pos, i, width, signed) +
      [if width > 0 && i < avail / width then
         EntryFits(avail, width, i);
         Some(EntryValue(p, pos + i * width, width, signed))
       else None]
  }

  /** The bit position after reading such a list. */
  function ListEnd(p: seq<Byte>, pos: nat, count: nat, width: nat): (end: nat)
    requires pos <= 8 * |p|
    ensures pos <= end <= 8 * |p|
  {
    FullEntriesFit(8 * |p| - pos, count, width);
    pos + width * FullEntries(8 * |p| - pos, count, width)
  }

  /** Entry i on its own: present, with the value of bits [pos + i*width, pos + (i+1)*width),
      exactly when a whole entry still fits there. */
  lemma {:induction false} ListValuesAt(p: seq<Byte>, pos: nat, count: nat, width: nat, signed: bool, i: nat)
    requires pos <= 8 * |p| && ValidWidth(width, signed) && i < count
    ensures var avail := 8 * |p| - pos;
      ListValues(p, pos, count, width, signed)[i].Some? <==> (width > 0 && i < avail / width)
    ensures ListValues(p, pos, count, width, signed)[i].Some? ==>
      pos + i * width + width <= 8 * |p| &&
      ListValues(p, pos, count, width, signed)[i].value == EntryValue(p, pos + i * width, width, signed)
  {
    if i < count - 1 {
      ListValuesAt(p, pos, count - 1, width, signed, i);
    } else if width > 0 && i < (8 * |p| - pos) / width {
      EntryFits(8 * |p| - pos, width, i);
    }
  }

  /** A value that fits in `width` bits, as an unsigned or a two's-complement number. */
  predicate FitsWidth(v: int, width: nat, signed: bool)
  {
    width >= 1 && (if signed then -(Pow2(width - 1) as int) <= v < Pow2(width - 1) else 0 <= v < Pow2(width))
  }

  /** A present entry fits its width. */
  lemma EntryFitsWidth(p: seq<Byte>, pos: nat, count: nat, width: nat, signed: bool, i: nat)
    requires pos <= 8 * |p| && ValidWidth(width, signed) && i < count
    requires ListValues(p, pos, count, width, signed)[i].Some?
    ensures FitsWidth(ListValues(p, pos, count, width, signed)[i].value, width, signed)
  {
    ListValuesAt(p, pos, count, width, signed, i);
  }

  /** Once an entry is absent for lack of bits, every later entry is absent too. */
  lemma AbsentSuffix(p: seq<Byte>, pos: nat, count: nat, width: nat, signed: bool, i: nat, j: nat)
    requires pos <= 8 * |p| && ValidWidth(width, signed) && i <= j < count
    requires ListValues(p, pos, count, width, signed)[i].None?
    ensures ListValues(p, pos, count, width, signed)[j].None?
  {
    ListValuesAt(p, pos, count, width, signed, i);
    ListValuesAt(p, pos, count, width, signed, j);
  }

  /** A zero width gives count absent entries and reads nothing. */
  lemma ZeroWidth(p: seq<Byte>, pos: nat, count: nat, signed: bool)
    requires pos <= 8 * |p|
    ensures forall i :: 0 <= i < count ==> ListValues(p, pos, count, 0, signed)[i].None?
    ensures ListEnd(p, pos, count, 0) == pos
  {
    forall i | 0 <= i < count
      ensures ListValues(p, pos, count, 0, signed)[i].None?
    {
      ListValuesAt(p, pos, count, 0, signed, i);
    }
  }

  function CountPresent(values: seq<Option<int>>): (n: nat)
    ensures n <= |values|
  {
    if values == [] then 0
    else CountPresent(values[..|values| - 1]) + (if values[|values| - 1].Some? then 1 else 0)
  }

  /** The bits consumed are width times the number of entries present. */
  lemma {:induction false} ListConsumed(p: seq<Byte>, pos: nat, count: nat, width: nat, signed: bool)
    requires pos <= 8 * |p| && ValidWidth(width, signed)
    ensures CountPresent(ListValues(p, pos, count, width, signed)) == FullEntries(8 * |p| - pos, count, width)
    ensures ListEnd(p, pos, count, width) == pos + width * CountPresent(ListValues(p, pos, count, width, signed))
  {
    var values := ListValues(p, pos, count, width, signed);
    if count > 0 {
      ListConsumed(p, pos, count - 1, width, signed);
      assert values[..count - 1] == ListValues(p, pos, count - 1, width, signed);
    }
  }

  /** The `bitsRemaining() >= bitWidth` test of the loop, in terms of FullEntries. */
  lemma ReadStep(avail: nat, width: nat, i: nat)
    requires width > 0
    ensures width * FullEntries(avail, i, width) <= avail
    ensures (avail - width * FullEntries(avail, i, width) >= width) <==> i < avail / width
    ensures i < avail / width ==> FullEntries(avail, i, width) == i && FullEntries(avail, i + 1, width) == i + 1
    ensures i >= avail / width ==> FullEntries(avail, i + 1, width) == FullEntries(avail, i, width)
  {
    var q := avail / width;
    DivUnique(avail, width, q, avail % width);
    FullEntriesFit(avail, i, width);
    if i < q {
      MulMonotone(i + 1, q, width);
    }
  }

  /** One turn of the loop of readUnsignedList / readSignedList from cursor
      position `at`: the `bitsRemaining() >= bitWidth` test holds exactly when
      entry i is present, which is then read at `at`. */
  lemma ReadNext(p: seq<Byte>, pos: nat, i: nat, width: nat, signed: bool, at: nat)
    requires pos <= 8 * |p| && ValidWidth(width, signed) && width > 0
    requires at == ListEnd(p, pos, i, width)
    ensures (8 * |p| - at >= width) ==>
      && at + width <= 8 * |p|
      && ListValues(p, pos, i + 1, width, signed) == ListValues(p, pos, i, width, signed) + [Some(EntryValue(p, at, width, signed))]
      && ListEnd(p, pos, i + 1, width) == at + width
    ensures (8 * |p| - at < width) ==>
      && ListValues(p, pos, i + 1, width, signed) == ListValues(p, pos, i, width, signed) + [None]
      && ListEnd(p, pos, i + 1, width) == at
  {
    var avail := 8 * |p| - pos;
    ReadStep(avail, width, i);
    if i < avail / width {
      assert at == pos + i * width;
    }
  }

  /** readUnsignedList(bits, count, bitWidth). */
  method ReadUnsignedList(bits: BitBuffer, count: nat, width: nat) returns (values: seq<Option<int>>)
    requires bits.Valid() && width <= 64
    modifies bits
    ensures bits.Valid()
    ensures values == ListValues(bits.payload, old(bits.bitIndex), count, width, false)
    ensures bits.bitIndex == ListEnd(bits.payload, old(bits.bitIndex), count, width)
  {
    ghost var pos := bits.bitIndex;
    if width == 0 || count == 0 {
      values := seq(count, _ => None);
      ZeroOrEmpty(bits.payload, pos, count, width, false, values);
      return;
    }
    values := [];
    var i := 0;
    while i < count
      invariant 0 <= i <= count && bits.Valid()
      invariant values == ListValues(bits.payload, pos, i, width, false)
      invariant bits.bitIndex == ListEnd(bits.payload, pos, i, width)
    {
      ReadNext(bits.payload, pos, i, width, false, bits.bitIndex);
      if bits.BitsRemaining() >= width {
        var v := bits.ReadUnsigned(width);
        values := values + [Some(v)];
      } else {
        values := values + [None];
      }
      i := i + 1;
    }
  }

  /** readSignedList(bits, count, bitWidth). */
  method ReadSignedList(bits: BitBuffer, count: nat, width: nat) returns (values: seq<Option<int>>)
    requires bits.Valid() && width <= 63
    modifies bits
    ensures bits.Valid()
    ensures values == ListValues(bits.payload, old(bits.bitIndex), count, width, true)
    ensures bits.bitIndex == ListEnd(bits.payload, old(bits.bitIndex), count, width)
  {
    ghost var pos := bits.bitIndex;
    if width == 0 || count == 0 {
      values := seq(count, _ => None);
      ZeroOrEmpty(bits.payload, pos, count, width, true, values);
      return;
    }
    values := [];
    var i := 0;
    while i < count
      invariant 0 <= i <= count && bits.Valid()
      invariant values == ListValues(bits.payload, pos, i, width, true)
      invariant bits.bitIndex == ListEnd(bits.payload, pos, i, width)
    {
      ReadNext(bits.payload, pos, i, width, true, bits.bitIndex);
      if bits.BitsRemaining() >= width {
        var v := bits.ReadSigned(width);
        values := values + [Some(v)];
      } else {
        values := values + [None];
      }
      i := i + 1;
    }
  }

  /** The early return `List(count) { null }` agrees with the specification. */
  lemma ZeroOrEmpty(p: seq<Byte>, pos: nat, count: nat, width: nat, signed: bool, values: seq<Option<int>>)
    requires pos <= 8 * |p| && ValidWidth(width, signed) && (width == 0 || count == 0)
    requires |values| == count && forall i :: 0 <= i < count ==> values[i].None?
    ensures values == ListValues(p, pos, count, width, signed)
    ensures ListEnd(p, pos, count, width) == pos
  {
    if width == 0 {
      ZeroWidth(p, pos, count, signed);
    }
  }
}
