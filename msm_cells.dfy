/** The masks of an MSM message (rtcm/decoders/MsmDecoder.kt, readMaskIds and
    buildActiveCells; section 3.5.12 of RTCM Standard 10403.x): the satellite and
    signal masks give 1-based ids, and the cell mask picks, satellite by satellite,
    the (satellite, signal) pairs that carry data. */
module MsmCells {
  import opened Basics
  import opened Bits

  /** The ids `baseIndex + index` of the set bits among bits [start, start + size) of p. */
  function MaskIds(p: seq<Byte>, start: nat, size: nat, base: nat): (ids: seq<nat>)
    requires start + size <= 8 * |p|
    ensures |ids| <= size
  {
    if size == 0 then []
    else MaskIds(p, start, size - 1, base) + (if Bit(p, start + size - 1) == 1 then [base + size - 1] else [])
  }

  predicate StrictlyIncreasing(s: seq<nat>)
  {
    forall i, j :: 0 <= i < j < |s| ==> s[i] < s[j]
  }

  /** The ids are strictly increasing, lie in [base, base + size), and an id is
      present exactly when its mask bit is set. */
  lemma {:induction false} MaskIdsExact(p: seq<Byte>, start: nat, size: nat, base: nat)
    requires start + size <= 8 * |p|
    ensures StrictlyIncreasing(MaskIds(p, start, size, base))
    ensures forall i :: 0 <= i < |MaskIds(p, start, size, base)| ==>
      base <= MaskIds(p, start, size, base)[i] < base + size
    ensures forall id :: base <= id < base + size ==>
      (id in MaskIds(p, start, size, base) <==> Bit(p, start + id - base) == 1)
  {
    if size > 0 {
      MaskIdsExact(p, start, size - 1, base);
      var prev := MaskIds(p, start, size - 1, base);
      var ids := MaskIds(p, start, size, base);
      assert forall i :: 0 <= i < |prev| ==> ids[i] == prev[i];
      forall id | base <= id < base + size
        ensures id in ids <==> Bit(p, start + id - base) == 1
      {
        if id < base + size - 1 {
          assert id in ids <==> id in prev;
        }
      }
    }
  }

  /** The cell-mask bits [start, start + n) of p as flags. */
  function MaskBits(p: seq<Byte>, start: nat, n: nat): (bits: seq<bool>)
    requires start + n <= 8 * |p|
    ensures |bits| == n
    ensures forall i :: 0 <= i < n ==> (bits[i] <==> Bit(p, start + i) == 1)
  {
    if n == 0 then [] else MaskBits(p, start, n - 1) + [Bit(p, start + n - 1) == 1]
  }

  /** A satellite-signal pair (the `Pair<Int, Int>` of the source). */
  datatype Cell = Cell(satelliteId: nat, signalId: nat)

  /** The cells of one satellite, one per signal in signal order. */
  function Row(satelliteId: nat, sigs: seq<nat>): (r: seq<Cell>)
    ensures |r| == |sigs|
    ensures forall j :: 0 <= j < |sigs| ==> r[j] == Cell(satelliteId, sigs[j])
  {
    seq(|sigs|, j requires 0 <= j < |sigs| => Cell(satelliteId, sigs[j]))
  }

  /** Every (satellite, signal) pair in satellite-major order: the order in which
      the cell mask lists them. */
  function Grid(sats: seq<nat>, sigs: seq<nat>): (g: seq<Cell>)
    ensures |g| == |sats| * |sigs|
  {
    if sats == [] then [] else Row(sats[0], sigs) + Grid(sats[1..], sigs)
  }

  /** Position i * |sigs| + j of the grid is the pair of satellite i and signal j. */
  lemma {:induction false} GridAt(sats: seq<nat>, sigs: seq<nat>, i: nat, j: nat)
    requires i < |sats| && j < |sigs|
    ensures i * |sigs| + j < |Grid(sats, sigs)|
    ensures Grid(sats, sigs)[i * |sigs| + j] == Cell(sats[i], sigs[j])
  {
    if i > 0 {
      GridAt(sats[1..], sigs, i - 1, j);
      assert i * |sigs| + j == |sigs| + ((i - 1) * |sigs| + j);
    }
  }

  /** The cells whose mask flag is set, in order. */
  function Select(cells: seq<Cell>, mask: seq<bool>): (r: seq<Cell>)
    requires |cells| == |mask|
    ensures |r| <= |cells|
  {
    if cells == [] then []
    else Select(cells[..|cells| - 1], mask[..|mask| - 1]) + (if mask[|mask| - 1] then [cells[|cells| - 1]] else [])
  }

  /** What buildActiveCells computes. */
  function ActiveCells(sats: seq<nat>, sigs: seq<nat>, mask: seq<bool>): seq<Cell>
    requires |mask| == |sats| * |sigs|
  {
    Select(Grid(sats, sigs), mask)
  }

  function CountTrue(mask: seq<bool>): (n: nat)
    ensures n <= |mask|
  {
    if mask == [] then 0 else CountTrue(mask[..|mask| - 1]) + (if mask[|mask| - 1] then 1 else 0)
  }

  /** activeCellCount: one active cell per set bit of the cell mask. */
  lemma {:induction false} SelectCount(cells: seq<Cell>, mask: seq<bool>)
    requires |cells| == |mask|
    ensures |Select(cells, mask)| == CountTrue(mask)
  {
    if cells != [] {
      SelectCount(cells[..|cells| - 1], mask[..|mask| - 1]);
    }
  }

  /** A cell is selected exactly when some position holding it is flagged. */
  lemma {:induction false} SelectMember(cells: seq<Cell>, mask: seq<bool>, c: Cell)
    requires |cells| == |mask|
    ensures c in Select(cells, mask) <==> exists k :: 0 <= k < |cells| && mask[k] && cells[k] == c
  {
    if cells != [] {
      var n := |cells| - 1;
      SelectMember(cells[..n], mask[..n], c);
      if c in Select(cells, mask) && c !in Select(cells[..n], mask[..n]) {
        assert mask[n] && cells[n] == c;
      }
      if exists k :: 0 <= k < |cells| && mask[k] && cells[k] == c {
        var k :| 0 <= k < |cells| && mask[k] && cells[k] == c;
        if k < n {
          assert cells[..n][k] == c && mask[..n][k];
        }
      }
    }
  }

  /** The satellite and signal of a grid position. */
  lemma {:induction false} GridIndex(sats: seq<nat>, sigs: seq<nat>, k: nat) returns (i: nat, j: nat)
    requires k < |Grid(sats, sigs)|
    ensures i < |sats| && j < |sigs| && k == i * |sigs| + j
    ensures Grid(sats, sigs)[k] == Cell(sats[i], sigs[j])
  {
    var row, rest := Row(sats[0], sigs), Grid(sats[1..], sigs);
    assert Grid(sats, sigs) == row + rest;
    if k < |sigs| {
      i, j := 0, k;
    } else {
      var i', j' := GridIndex(sats[1..], sigs, k - |sigs|);
      i, j := i' + 1, j';
      assert (i' + 1) * |sigs| == i' * |sigs| + |sigs|;
    }
  }

  /** Grid positions are unique: the same pair cannot sit at two positions. */
  lemma GridPositionUnique(sats: seq<nat>, sigs: seq<nat>, i: nat, j: nat, i': nat, j': nat)
    requires StrictlyIncreasing(sats) && StrictlyIncreasing(sigs)
    requires i < |sats| && j < |sigs| && i' < |sats| && j' < |sigs|
    requires sats[i] == sats[i'] && sigs[j] == sigs[j']
    ensures i * |sigs| + j == i' * |sigs| + j'
  {
    Distinct(sats, i, i');
    Distinct(sigs, j, j');
  }

  /** (satellites[i], signals[j]) is active exactly when cell-mask bit i * |signals| + j is set. */
  lemma ActiveCellsExact(sats: seq<nat>, sigs: seq<nat>, mask: seq<bool>, i: nat, j: nat)
    requires |mask| == |sats| * |sigs| && StrictlyIncreasing(sats) && StrictlyIncreasing(sigs)
    requires i < |sats| && j < |sigs|
    ensures i * |sigs| + j < |mask|
    ensures Cell(sats[i], sigs[j]) in ActiveCells(sats, sigs, mask) <==> mask[i * |sigs| + j]
  {
    var g := Grid(sats, sigs);
    var c := Cell(sats[i], sigs[j]);
    var pos := i * |sigs| + j;
    GridAt(sats, sigs, i, j);
    assert pos < |g| && g[pos] == c;
    SelectMember(g, mask, c);
    assert ActiveCells(sats, sigs, mask) == Select(g, mask);
    if c in Select(g, mask) {
      var k :| 0 <= k < |g| && mask[k] && g[k] == c;
      var i', j' := GridIndex(sats, sigs, k);
      GridPositionUnique(sats, sigs, i, j, i', j');
      assert k == pos;
    } else {
      assert !mask[pos];
    }
  }

  lemma MulAtLeastNat(a: nat, b: nat, c: nat)
    requires a >= b
    ensures a * c >= b * c
  {
    assert a * c == b * c + (a - b) * c;
  }

  lemma Distinct(s: seq<nat>, i: nat, k: nat)
    requires StrictlyIncreasing(s) && i < |s| && k < |s| && s[i] == s[k]
    ensures i == k
  {
  }

  /** Lexicographic order on (satellite id, signal id). */
  predicate CellBefore(a: Cell, b: Cell)
  {
    a.satelliteId < b.satelliteId || (a.satelliteId == b.satelliteId && a.signalId < b.signalId)
  }

  predicate CellsIncreasing(cells: seq<Cell>)
  {
    forall i, j :: 0 <= i < j < |cells| ==> CellBefore(cells[i], cells[j])
  }

  /** The grid of increasing ids is in increasing (satellite, signal) order. */
  lemma {:induction false} GridIncreasing(sats: seq<nat>, sigs: seq<nat>)
    requires StrictlyIncreasing(sats) && StrictlyIncreasing(sigs)
    ensures CellsIncreasing(Grid(sats, sigs))
    ensures forall c :: c in Grid(sats, sigs) ==> c.satelliteId in sats
  {
    if sats != [] {
      GridIncreasing(sats[1..], sigs);
      var row, rest := Row(sats[0], sigs), Grid(sats[1..], sigs);
      var g := row + rest;
      forall i, j | 0 <= i < j < |g|
        ensures CellBefore(g[i], g[j])
      {
        if j >= |row| && i < |row| {
          assert g[j] in rest;
          assert g[j].satelliteId in sats[1..];
        } else if i >= |row| {
          assert g[i] == rest[i - |row|] && g[j] == rest[j - |row|];
        }
      }
      forall c | c in g
        ensures c.satelliteId in sats
      {
        if c in rest {
          assert c.satelliteId in sats[1..];
        }
      }
    }
  }

  lemma AppendIncreasing(s: seq<Cell>, x: Cell)
    requires CellsIncreasing(s) && forall c :: c in s ==> CellBefore(c, x)
    ensures CellsIncreasing(s + [x])
  {
    var t := s + [x];
    forall i, j | 0 <= i < j < |t|
      ensures CellBefore(t[i], t[j])
    {
      if j == |s| {
        assert t[i] in s;
      } else {
        assert t[i] == s[i] && t[j] == s[j];
      }
    }
  }

  lemma PrefixIncreasing(cells: seq<Cell>, n: nat)
    requires CellsIncreasing(cells) && n <= |cells|
    ensures CellsIncreasing(cells[..n])
  {
    forall i, j | 0 <= i < j < n
      ensures CellBefore(cells[..n][i], cells[..n][j])
    {
      assert cells[..n][i] == cells[i] && cells[..n][j] == cells[j];
    }
  }

  /** Selecting keeps the order. */
  lemma {:induction false} SelectIncreasing(cells: seq<Cell>, mask: seq<bool>)
    requires |cells| == |mask| && CellsIncreasing(cells)
    ensures CellsIncreasing(Select(cells, mask))
    ensures forall c :: c in Select(cells, mask) ==> c in cells
  {
    if cells != [] {
      var n := |cells| - 1;
      PrefixIncreasing(cells, n);
      SelectIncreasing(cells[..n], mask[..n]);
      var s := Select(cells[..n], mask[..n]);
      if mask[n] {
        forall c | c in s
          ensures CellBefore(c, cells[n])
        {
          assert c in cells[..n];
          var k :| 0 <= k < n && cells[..n][k] == c;
          assert cells[k] == c;
        }
        AppendIncreasing(s, cells[n]);
      } else {
        assert Select(cells, mask) == s + [];
      }
    }
  }

  /** The active cells come in satellite-major order with no pair twice. */
  lemma ActiveCellsIncreasing(sats: seq<nat>, sigs: seq<nat>, mask: seq<bool>)
    requires |mask| == |sats| * |sigs| && StrictlyIncreasing(sats) && StrictlyIncreasing(sigs)
    ensures CellsIncreasing(ActiveCells(sats, sigs, mask))
  {
    GridIncreasing(sats, sigs);
    SelectIncreasing(Grid(sats, sigs), mask);
  }

  /** readMaskIds(bits, size, baseIndex). */
  method ReadMaskIds(bits: BitBuffer, size: nat, base: nat) returns (ids: seq<nat>)
    requires bits.Valid() && size <= bits.BitsRemaining()
    modifies bits
    ensures bits.Valid() && bits.bitIndex == old(bits.bitIndex) + size
    ensures ids == MaskIds(bits.payload, old(bits.bitIndex), size, base)
  {
    ghost var start := bits.bitIndex;
    ids := [];
    for index := 0 to size
      invariant bits.Valid() && bits.bitIndex == start + index
      invariant ids == MaskIds(bits.payload, start, index, base)
    {
      var flag := bits.ReadUnsigned(1);
      if flag == 1 {
        ids := ids + [base + index];
      }
    }
  }

  /** The `repeat(cellMaskSize)` loop that reads the cell mask. */
  method ReadCellMask(bits: BitBuffer, n: nat) returns (mask: seq<bool>)
    requires bits.Valid() && n <= bits.BitsRemaining()
    modifies bits
    ensures bits.Valid() && bits.bitIndex == old(bits.bitIndex) + n
    ensures mask == MaskBits(bits.payload, old(bits.bitIndex), n)
  {
    ghost var start := bits.bitIndex;
    mask := [];
    for k := 0 to n
      invariant bits.Valid() && bits.bitIndex == start + k
      invariant mask == MaskBits(bits.payload, start, k)
    {
      var flag := bits.ReadUnsigned(1);
      mask := mask + [flag == 1];
    }
  }

  /** One more flag of the mask walked by buildActiveCells. */
  lemma SelectSnoc(cells: seq<Cell>, mask: seq<bool>, k: nat)
    requires |cells| == |mask| && k < |cells|
    ensures Select(cells[..k + 1], mask[..k + 1]) ==
      Select(cells[..k], mask[..k]) + (if mask[k] then [cells[k]] else [])
  {
    assert cells[..k + 1][..k] == cells[..k];
    assert mask[..k + 1][..k] == mask[..k];
  }

  /** The inner turn of buildActiveCells at satellite si and signal gi, with
      maskIndex m == si * |sigs| + gi. */
  lemma BuildStep(sats: seq<nat>, sigs: seq<nat>, mask: seq<bool>, si: nat, gi: nat, m: nat)
    requires |mask| == |sats| * |sigs| && si < |sats| && gi < |sigs| && m == si * |sigs| + gi
    ensures m < |mask|
    ensures Select(Grid(sats, sigs)[..m + 1], mask[..m + 1]) ==
      Select(Grid(sats, sigs)[..m], mask[..m]) + (if mask[m] then [Cell(sats[si], sigs[gi])] else [])
  {
    GridAt(sats, sigs, si, gi);
    var g := Grid(sats, sigs);
    assert g[m] == Cell(sats[si], sigs[gi]);
    SelectSnoc(g, mask, m);
  }

  /** buildActiveCells(satelliteIds, signalIds, cellMaskBits). */
  method BuildActiveCells(sats: seq<nat>, sigs: seq<nat>, mask: seq<bool>) returns (active: seq<Cell>)
    requires |mask| == |sats| * |sigs|
    ensures active == ActiveCells(sats, sigs, mask)
  {
    ghost var g := Grid(sats, sigs);
    active := [];
    var maskIndex := 0;
    for si := 0 to |sats|
      invariant maskIndex == si * |sigs|
      invariant active == Select(g[..maskIndex], mask[..maskIndex])
    {
      for gi := 0 to |sigs|
        invariant maskIndex == si * |sigs| + gi
        invariant active == Select(g[..maskIndex], mask[..maskIndex])
      {
        BuildStep(sats, sigs, mask, si, gi, maskIndex);
        if mask[maskIndex] {
          active := active + [Cell(sats[si], sigs[gi])];
        }
        maskIndex := maskIndex + 1;
      }
      assert maskIndex == (si + 1) * |sigs|;
    }
    assert g[..maskIndex] == g && mask[..maskIndex] == mask;
  }
}
