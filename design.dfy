/** The classroom layout (`ClassroomDesign`, model.py): seat blocks separated by vertical
    aisles, horizontal aisle rows, entrances, the position utility of every cell, the largest
    number of seats anyone has to pass, and the number of seats. */
module Design {
  import opened Basics
  import opened Splice

  /** A built classroom. `posUtilities` is indexed `[x][y]`. */
  datatype Layout = Layout(
    width: nat,
    numRows: nat,
    aislesX: seq<nat>,
    aislesY: seq<nat>,
    entrances: seq<Pos>,
    posUtilities: Grid<real>,
    maxPass: int,
    seatCount: int)

  // ---------------------------------------------------------------------------
  // Closed forms of the geometry

  /** `blocks[0] + ... + blocks[k - 1]`. */
  function PrefixSum(blocks: seq<nat>, k: nat): nat
    requires k <= |blocks|
  {
    if k == 0 then 0 else PrefixSum(blocks, k - 1) + blocks[k - 1]
  }

  /** One column per seat of every block and one aisle column between neighbouring blocks. */
  function Width(blocks: seq<nat>): nat
    requires |blocks| >= 1
  {
    PrefixSum(blocks, |blocks|) + |blocks| - 1
  }

  /** The `k`-th vertical aisle stands right after block `k`: after `k + 1` blocks and the
      `k` aisles between them. */
  function AisleColumns(blocks: seq<nat>): seq<nat>
  {
    seq(if |blocks| == 0 then 0 else |blocks| - 1, k requires 0 <= k < |blocks| - 1 => PrefixSum(blocks, k + 1) + k)
  }

  /** Python's `int(v / 2)`, which rounds toward zero (Dafny's `/` rounds down). */
  function TruncHalf(v: int): int
  {
    if v >= 0 then v / 2 else -((-v) / 2)
  }

  /** The seats one may have to pass in block `i`: the whole row but one seat in the first
      and last block (one aisle only), half of that, truncated, in an inner block. */
  function PassLimit(blocks: seq<nat>, i: nat): int
    requires i < |blocks|
  {
    if 0 < i < |blocks| - 1 then TruncHalf(blocks[i] as int - 1) else blocks[i] as int - 1
  }

  /** Python's `max` of a non-empty list. */
  function SeqMax(s: seq<int>): (m: int)
    requires |s| >= 1
    ensures forall i :: 0 <= i < |s| ==> s[i] <= m
    ensures exists i :: 0 <= i < |s| && s[i] == m
  {
    if |s| == 1 then s[0]
    else
      var m' := SeqMax(s[..|s| - 1]);
      assert forall i :: 0 <= i < |s| - 1 ==> s[..|s| - 1][i] == s[i];
      if s[|s| - 1] > m' then s[|s| - 1] else m'
  }

  function MaxPass(blocks: seq<nat>): int
    requires |blocks| >= 1
  {
    SeqMax(seq(|blocks|, i requires 0 <= i < |blocks| => PassLimit(blocks, i)))
  }

  /** The layout the constructor derives from `blocks` (width, vertical aisles, maximal
      passing count). */
  predicate BuiltFrom(d: Layout, blocks: seq<nat>)
  {
    && |blocks| >= 1
    && d.width == Width(blocks)
    && d.aislesX == AisleColumns(blocks)
    && d.maxPass == MaxPass(blocks)
  }

  /** What the rest of the model relies on: a `width` by `numRows` utility array and
      increasing vertical aisles inside the room. */
  predicate WellFormed(d: Layout)
  {
    && d.posUtilities.Valid()
    && d.posUtilities.rows == d.width
    && d.posUtilities.cols == d.numRows
    && StrictlyIncreasing(d.aislesX)
    && (forall k :: 0 <= k < |d.aislesX| ==> d.aislesX[k] < d.width)
  }

  lemma {:induction false} PrefixSumGrows(blocks: seq<nat>, j: nat, k: nat)
    requires j <= k <= |blocks|
    ensures PrefixSum(blocks, j) <= PrefixSum(blocks, k)
  {
    if j < k {
      PrefixSumGrows(blocks, j, k - 1);
    }
  }

  /** The aisles the constructor places: `len(blocks) - 1` of them, strictly increasing,
      inside the room, with exactly `blocks[k + 1]` seat columns between aisle `k` and aisle
      `k + 1`. */
  lemma AisleGeometry(blocks: seq<nat>)
    requires |blocks| >= 1
    ensures |AisleColumns(blocks)| == |blocks| - 1
    ensures StrictlyIncreasing(AisleColumns(blocks))
    ensures forall k :: 0 <= k < |blocks| - 1 ==> AisleColumns(blocks)[k] < Width(blocks)
    ensures forall k :: 0 <= k < |blocks| - 2 ==>
              AisleColumns(blocks)[k + 1] - AisleColumns(blocks)[k] - 1 == blocks[k + 1]
    ensures |blocks| >= 2 ==> AisleColumns(blocks)[0] == blocks[0]
    ensures |blocks| >= 2 ==>
              Width(blocks) - 1 - AisleColumns(blocks)[|blocks| - 2] == blocks[|blocks| - 1]
    ensures InsertableInto(AisleColumns(blocks), Width(blocks) - (|blocks| - 1))
  {
    var ax := AisleColumns(blocks);
    assert PrefixSum(blocks, 1) == blocks[0];
    forall i, j | 0 <= i < j < |ax| ensures ax[i] < ax[j] {
      PrefixSumGrows(blocks, i + 1, j + 1);
    }
    forall k | 0 <= k < |ax| ensures ax[k] < Width(blocks) && ax[k] <= Width(blocks) - (|blocks| - 1) + k {
      PrefixSumGrows(blocks, k + 1, |blocks|);
    }
  }

  /** The largest passing count is the largest block limit. */
  lemma MaxPassIsLargestLimit(blocks: seq<nat>)
    requires |blocks| >= 1
    ensures forall i :: 0 <= i < |blocks| ==> PassLimit(blocks, i) <= MaxPass(blocks)
    ensures exists i :: 0 <= i < |blocks| && PassLimit(blocks, i) == MaxPass(blocks)
  {
    var limits := seq(|blocks|, i requires 0 <= i < |blocks| => PassLimit(blocks, i));
    assert forall i :: 0 <= i < |blocks| ==> limits[i] == PassLimit(blocks, i);
    var i :| 0 <= i < |limits| && limits[i] == SeqMax(limits);
    assert PassLimit(blocks, i) == MaxPass(blocks);
  }

  // ---------------------------------------------------------------------------
  // Position utilities

  function RowMax(row: seq<real>): (m: real)
    requires |row| >= 1
    ensures forall j :: 0 <= j < |row| ==> row[j] <= m
    ensures exists j :: 0 <= j < |row| && row[j] == m
  {
    if |row| == 1 then row[0]
    else
      var m' := RowMax(row[..|row| - 1]);
      assert forall j :: 0 <= j < |row| - 1 ==> row[..|row| - 1][j] == row[j];
      if row[|row| - 1] > m' then row[|row| - 1] else m'
  }

  /** `np.max` of a non-empty array. */
  function GridMax(cells: seq<seq<real>>): (m: real)
    requires |cells| >= 1 && forall i :: 0 <= i < |cells| ==> |cells[i]| >= 1
    ensures forall i, j :: 0 <= i < |cells| && 0 <= j < |cells[i]| ==> cells[i][j] <= m
    ensures exists i, j :: 0 <= i < |cells| && 0 <= j < |cells[i]| && cells[i][j] == m
  {
    if |cells| == 1 then RowMax(cells[0])
    else
      var front := cells[..|cells| - 1];
      var m' := GridMax(front);
      var last := RowMax(cells[|cells| - 1]);
      assert forall i :: 0 <= i < |cells| - 1 ==> front[i] == cells[i];
      if last > m' then last else m'
  }

  /** `g / m`, entry by entry. */
  function Scaled(g: Grid<real>, m: real): (r: Grid<real>)
    requires g.Valid() && m != 0.0
    ensures r.Valid() && r.rows == g.rows && r.cols == g.cols
  {
    Grid(g.rows, g.cols, seq(g.rows, i requires 0 <= i < g.rows =>
                           seq(g.cols, j requires 0 <= j < g.cols => g.cells[i][j] / m)))
  }

  /** A matrix of the seats-only shape gets a zero row at every vertical aisle and a zero
      column at every horizontal aisle; any other matrix is left as it is. */
  function Aligned(g: Grid<real>, width: nat, numRows: nat, aislesX: seq<nat>, aislesY: seq<nat>): (r: Grid<real>)
    requires g.Valid()
    ensures r.Valid()
  {
    if g.rows == width - |aislesX| && g.cols == numRows - |aislesY| then
      InsertColumns(InsertRows(g, aislesX, 0.0), aislesY, 0.0)
    else g
  }

  const MaxOfEmpty := "zero-size array to reduction operation maximum which has no identity"

  /** With no blocks the width is -1, and the utility field `np.zeros((-1, num_rows))` cannot
      be built (model.py:474, 517). */
  const NegativeDimensions := "negative dimensions are not allowed"

  /** The position utilities a layout ends up with (no matrix given: all zeros). */
  function PositionUtilities(width: nat, numRows: nat, aislesX: seq<nat>, aislesY: seq<nat>,
                             given: Option<Grid<real>>): Result<Grid<real>>
    requires given.Some? ==> given.value.Valid()
  {
    if given.None? then Success(Filled(width, numRows, 0.0))
    else
      var g := Aligned(given.value, width, numRows, aislesX, aislesY);
      if g.rows == width && g.cols == numRows then
        if width == 0 || numRows == 0 then Failure(ValueError(MaxOfEmpty))
        else if GridMax(g.cells) > 0.0 then Success(Scaled(g, GridMax(g.cells)))
        else Success(Filled(width, numRows, 0.0))
      else Success(Filled(width, numRows, 0.0))
  }

  /** The same, as the source has it: the shape test at model.py:501 runs before the
      `is not None` test at model.py:513, so the default `pos_utilities=None` raises. */
  function PositionUtilitiesAsWritten(width: nat, numRows: nat, aislesX: seq<nat>, aislesY: seq<nat>,
                                      given: Option<Grid<real>>): Result<Grid<real>>
    requires given.Some? ==> given.value.Valid()
  {
    if given.None? then Failure(AttributeError("'NoneType' object has no attribute 'shape'"))
    else PositionUtilities(width, numRows, aislesX, aislesY, given)
  }

  /** With no utility matrix, the source fails where the intended behaviour is an all-zero
      field. */
  lemma DefaultUtilitiesRaise(width: nat, numRows: nat, aislesX: seq<nat>, aislesY: seq<nat>)
    ensures PositionUtilitiesAsWritten(width, numRows, aislesX, aislesY, None).Failure?
    ensures PositionUtilities(width, numRows, aislesX, aislesY, None) == Success(Filled(width, numRows, 0.0))
  {
  }

  /** Dividing by a positive maximum leaves no entry above 1 and one entry at exactly 1. */
  lemma ScaledByMax(g: Grid<real>)
    requires g.Valid() && g.rows >= 1 && g.cols >= 1 && GridMax(g.cells) > 0.0
    ensures forall i, j :: 0 <= i < g.rows && 0 <= j < g.cols ==> Scaled(g, GridMax(g.cells)).cells[i][j] <= 1.0
    ensures exists i, j :: 0 <= i < g.rows && 0 <= j < g.cols && Scaled(g, GridMax(g.cells)).cells[i][j] == 1.0
  {
    var m := GridMax(g.cells);
    var s := Scaled(g, m);
    forall i, j | 0 <= i < g.rows && 0 <= j < g.cols ensures s.cells[i][j] <= 1.0 {
      DivideAtMostOne(g.cells[i][j], m);
    }
    var i, j :| 0 <= i < |g.cells| && 0 <= j < |g.cells[i]| && g.cells[i][j] == m;
    DivideThenMultiply(m, m);
    assert s.cells[i][j] == m / m;
  }

  /** Whatever is given, a successful result covers the whole room, no entry exceeds 1, and
      either some entry is exactly 1 (a given full-size matrix with a positive maximum,
      divided by it) or every entry is 0. It fails only when the room has no cells and the
      matrix has the room's (empty) shape. */
  lemma PositionUtilitiesNormalised(width: nat, numRows: nat, aislesX: seq<nat>, aislesY: seq<nat>,
                                    given: Option<Grid<real>>)
    requires given.Some? ==> given.value.Valid()
    ensures var r := PositionUtilities(width, numRows, aislesX, aislesY, given);
      && (r.Failure? <==> given.Some? && (width == 0 || numRows == 0)
                          && Aligned(given.value, width, numRows, aislesX, aislesY).rows == width
                          && Aligned(given.value, width, numRows, aislesX, aislesY).cols == numRows)
      && (r.Success? ==>
            && r.value.Valid() && r.value.rows == width && r.value.cols == numRows
            && (forall i, j :: 0 <= i < width && 0 <= j < numRows ==> r.value.cells[i][j] <= 1.0)
            && ((exists i, j :: 0 <= i < width && 0 <= j < numRows && r.value.cells[i][j] == 1.0)
                || (forall i, j :: 0 <= i < width && 0 <= j < numRows ==> r.value.cells[i][j] == 0.0)))
  {
    if given.Some? {
      var g := Aligned(given.value, width, numRows, aislesX, aislesY);
      if g.rows == width && g.cols == numRows && width > 0 && numRows > 0 && GridMax(g.cells) > 0.0 {
        ScaledByMax(g);
      }
    }
  }

  /** A seats-only matrix is spliced to the room's shape, and removing the aisle rows and
      columns again gives it back: the aisle cells are zero and the seat cells keep the given
      values. */
  lemma AlignedRoundTrip(g: Grid<real>, width: nat, numRows: nat, aislesX: seq<nat>, aislesY: seq<nat>)
    requires g.Valid() && g.rows == width - |aislesX| && g.cols == numRows - |aislesY|
    requires StrictlyIncreasing(aislesX) && InsertableInto(aislesX, g.rows)
    requires StrictlyIncreasing(aislesY) && InsertableInto(aislesY, g.cols)
    ensures Aligned(g, width, numRows, aislesX, aislesY).rows == width
    ensures Aligned(g, width, numRows, aislesX, aislesY).cols == numRows
    ensures DeleteRows(DeleteColumns(Aligned(g, width, numRows, aislesX, aislesY), SetOf(aislesY)), SetOf(aislesX)) == g
  {
    var h := InsertRows(g, aislesX, 0.0);
    DeleteColumnsAfterInsert(h, aislesY, 0.0);
    DeleteRowsAfterInsert(g, aislesX, 0.0);
  }

  // ---------------------------------------------------------------------------
  // The constructor, step by step

  /** The vertical aisles, one after every block but the last (model.py:478-483). */
  method PlaceAisles(blocks: seq<nat>) returns (aislesX: seq<nat>)
    ensures aislesX == AisleColumns(blocks)
    ensures |blocks| == 0 ==> aislesX == []
    ensures |blocks| >= 1 ==> |aislesX| == |blocks| - 1 && StrictlyIncreasing(aislesX)
    ensures |blocks| >= 1 ==> forall k :: 0 <= k < |aislesX| ==> aislesX[k] < Width(blocks)
  {
    aislesX := [];
    if |blocks| == 0 {
      return;
    }
    var currentX: nat := 0;
    for b := 0 to |blocks| - 1
      invariant |aislesX| == b
      invariant currentX == PrefixSum(blocks, b) + b
      invariant forall k :: 0 <= k < b ==> aislesX[k] == PrefixSum(blocks, k + 1) + k
    {
      currentX := currentX + blocks[b];
      aislesX := aislesX + [currentX];
      currentX := currentX + 1;
    }
    AisleGeometry(blocks);
  }

  /** Zero rows at the vertical aisles, then zero columns at the horizontal ones, for a
      matrix of the seats-only shape (model.py:501-511). */
  method SpliceUtilities(given: Grid<real>, width: nat, numRows: nat, aislesX: seq<nat>, aislesY: seq<nat>)
    returns (g: Grid<real>)
    requires given.Valid()
    ensures g == Aligned(given, width, numRows, aislesX, aislesY)
    ensures given.rows == width - |aislesX| && given.cols == numRows - |aislesY| ==>
              g.rows == width && g.cols == numRows
  {
    g := given;
    if g.rows == width - |aislesX| && g.cols == numRows - |aislesY| {
      for k := 0 to |aislesX|
        invariant g == InsertRows(given, aislesX[..k], 0.0)
      {
        assert aislesX[..k + 1][..k] == aislesX[..k];
        g := InsertRow(g, aislesX[k], 0.0);
      }
      assert aislesX[..|aislesX|] == aislesX;
      ghost var h := g;
      for k := 0 to |aislesY|
        invariant g.Valid() && g == InsertColumns(h, aislesY[..k], 0.0)
      {
        assert aislesY[..k + 1][..k] == aislesY[..k];
        g := InsertColumn(g, aislesY[k], 0.0);
      }
      assert aislesY[..|aislesY|] == aislesY;
    }
  }

  /** The passing limit of every block, then their maximum (model.py:520-528). */
  method MaxPassOf(blocks: seq<nat>) returns (maxPass: int)
    requires |blocks| >= 1
    ensures maxPass == MaxPass(blocks)
    ensures forall i :: 0 <= i < |blocks| ==> PassLimit(blocks, i) <= maxPass
    ensures exists i :: 0 <= i < |blocks| && PassLimit(blocks, i) == maxPass
  {
    var maxPassPerBlock: seq<int> := [];
    for i := 0 to |blocks|
      invariant |maxPassPerBlock| == i
      invariant forall j :: 0 <= j < i ==> maxPassPerBlock[j] == PassLimit(blocks, j)
    {
      if i > 0 && i < |blocks| - 1 {
        maxPassPerBlock := maxPassPerBlock + [TruncHalf(blocks[i] as int - 1)];
      } else {
        maxPassPerBlock := maxPassPerBlock + [blocks[i] as int - 1];
      }
    }
    assert maxPassPerBlock == seq(|blocks|, i requires 0 <= i < |blocks| => PassLimit(blocks, i));
    maxPass := SeqMax(maxPassPerBlock);
    MaxPassIsLargestLimit(blocks);
  }

  /** The position-utility step of `ClassroomDesign.__init__`: splice the aisles into the
      given field and scale it by its maximum. */
  method NormaliseUtilities(width: nat, numRows: nat, aislesX: seq<nat>, ys: seq<nat>, posUtilities: Option<Grid<real>>)
    returns (pu: Result<Grid<real>>)
    requires posUtilities.Some? ==> posUtilities.value.Valid()
    ensures pu == PositionUtilities(width, numRows, aislesX, ys, posUtilities)
  {
    if posUtilities.None? {
      pu := Success(Filled(width, numRows, 0.0));
    } else {
      var g := SpliceUtilities(posUtilities.value, width, numRows, aislesX, ys);
      if g.rows == width && g.cols == numRows {
        if width == 0 || numRows == 0 {
          pu := Failure(ValueError(MaxOfEmpty));
        } else {
          var m := GridMax(g.cells);
          pu := if m > 0.0 then Success(Scaled(g, m)) else Success(Filled(width, numRows, 0.0));
        }
      } else {
        pu := Success(Filled(width, numRows, 0.0));
      }
    }
  }

  /** `ClassroomDesign(blocks, num_rows, pos_utilities, entrances, aisles_y)`; `None` stands
      for an argument left at its default. */
  method NewLayout(blocks: seq<nat>, numRows: nat, posUtilities: Option<Grid<real>>,
                   entrances: Option<seq<Pos>>, aislesY: Option<seq<nat>>)
    returns (r: Result<Layout>)
    requires posUtilities.Some? ==> posUtilities.value.Valid()
    ensures |blocks| == 0 ==> r == Failure(ValueError(NegativeDimensions))
    ensures |blocks| >= 1 ==>
      var ys := if aislesY.None? then [0] else aislesY.value;
      var pu := PositionUtilities(Width(blocks), numRows, AisleColumns(blocks), ys, posUtilities);
      && (r.Failure? <==> pu.Failure?)
      && (r.Success? ==>
            && BuiltFrom(r.value, blocks)
            && WellFormed(r.value)
            && r.value.numRows == numRows
            && r.value.aislesY == ys
            && r.value.entrances == (if entrances.None? then [Pos(0, 0), Pos(Width(blocks) - 1, 0)] else entrances.value)
            && r.value.posUtilities == pu.value
            && r.value.seatCount == (Width(blocks) - (|blocks| - 1)) * (numRows - |ys|))
  {
    if |blocks| == 0 {
      return Failure(ValueError(NegativeDimensions));
    }
    var width := PrefixSum(blocks, |blocks|) + |blocks| - 1;
    var aislesX := PlaceAisles(blocks);
    var ys: seq<nat> := if aislesY.None? then [0] else aislesY.value;
    var doors: seq<Pos> := if entrances.None? then [Pos(0, 0), Pos(width - 1, 0)] else entrances.value;

    var pu := NormaliseUtilities(width, numRows, aislesX, ys, posUtilities);
    if pu.Failure? {
      return Failure(pu.error);
    }
    PositionUtilitiesNormalised(width, numRows, aislesX, ys, posUtilities);

    var maxPass := MaxPassOf(blocks);
    var seatCount := (width - |aislesX|) * (numRows - |ys|);
    r := Success(Layout(width, numRows, aislesX, ys, doors, pu.value, maxPass, seatCount));
  }
}
