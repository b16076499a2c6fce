/** Shrinking a dense write: the bounding cells are kept and smaller and smaller parts of them written. */
module DenseWrites {
  import opened Prelude
  import opened Bits
  import opened Columns
  import opened Layouts
  import opened RowMajor
  import opened NumCells
  import Typed = TypedRanges
  import opened Slicing

  /** A non-empty range over a discrete domain: `SingleValueRange` with a cell count. */
  predicate Discrete(r: Typed.Range) {
    r.Single? && IsIntegral(r.physical) && Typed.Valid(r)
  }

  predicate Inside(complete: Typed.Range, current: Typed.Range) {
    && Discrete(complete) && Discrete(current)
    && complete.start <= current.start && current.end <= complete.end
  }

  predicate AllInside(complete: seq<Typed.Range>, current: seq<Typed.Range>) {
    |current| == |complete| && forall i | 0 <= i < |complete| :: Inside(complete[i], current[i])
  }

  predicate AllDiscrete(rs: seq<Typed.Range>) { forall i | 0 <= i < |rs| :: Discrete(rs[i]) }

  /** `num_cells` of each range. */
  function Sizes(rs: seq<Typed.Range>): seq<nat>
    requires AllDiscrete(rs)
  {
    seq(|rs|, i requires 0 <= i < |rs| => SizeOf(rs[i]))
  }

  function SizeOf(r: Typed.Range): (n: nat)
    requires Discrete(r)
    ensures 0 < n && Typed.CellsIn(r) == Value(Some(n))
  {
    r.end - r.start + 1
  }

  predicate Covers(rs: seq<Typed.Range>, x: seq<int>)
    requires AllDiscrete(rs)
  {
    |x| == |rs| && forall i | 0 <= i < |rs| :: rs[i].start <= x[i] <= rs[i].end
  }

  /** The row of the coordinates `x` in cells laid out for the ranges `rs`. */
  function RowOf(layout: Layout, rs: seq<Typed.Range>, x: seq<int>): (row: nat)
    requires AllDiscrete(rs) && Covers(rs, x)
    ensures row < Product(Sizes(rs))
  {
    PositionInBelow(layout, Sizes(rs), FromStart(rs, x));
    PositionIn(layout, Sizes(rs), FromStart(rs, x))
  }

  function FromStart(rs: seq<Typed.Range>, x: seq<int>): seq<nat>
    requires AllDiscrete(rs) && Covers(rs, x)
  {
    seq(|x|, i requires 0 <= i < |x| => x[i] - rs[i].start)
  }

  /** The slice of the bounding cells for a part of them. */
  function SlicesFor(complete: seq<Typed.Range>, current: seq<Typed.Range>): seq<Range>
    requires AllInside(complete, current)
  {
    seq(|complete|, i requires 0 <= i < |complete| =>
      Range(current[i].start - complete[i].start, current[i].end - complete[i].start + 1))
  }

  /** The slices always lie inside the dimensions, and pick out the same coordinates. */
  lemma SlicesFit(complete: seq<Typed.Range>, current: seq<Typed.Range>, x: seq<int>)
    requires AllInside(complete, current)
    ensures AllDiscrete(complete) && AllDiscrete(current)
    ensures Fits(Sizes(complete), SlicesFor(complete, current))
    ensures Lens(SlicesFor(complete, current)) == Sizes(current)
    ensures Covers(current, x) ==>
              && Covers(complete, x)
              && InBox(SlicesFor(complete, current), FromStart(complete, x))
              && Relative(SlicesFor(complete, current), FromStart(complete, x)) == FromStart(current, x)
  {
  }

  /** Cells for the ranges `rs`: one row for each of their coordinates. */
  ghost predicate Fills(cells: Fields, rs: seq<Typed.Range>) {
    AllDiscrete(rs) && Aligned(cells) && NumRows(cells) == Product(Sizes(rs))
  }

  /** In this layout the cells of `part` have the values that the cells of `whole` have at the same coordinates. */
  ghost predicate SameValues(layout: Layout, whole: seq<Typed.Range>, cells: Fields,
                             part: seq<Typed.Range>, data: Fields)
    requires Fills(cells, whole) && AllDiscrete(part)
  {
    && Fills(data, part)
    && forall x | Covers(part, x) ::
         Covers(whole, x) && Rows(data)[RowOf(layout, part, x)] == Rows(cells)[RowOf(layout, whole, x)]
  }

  /** The cells that are selected for a part of the whole, in any layout. */
  ghost function PartOf(whole: seq<Typed.Range>, cells: Fields, part: seq<Typed.Range>): Fields
    requires AllInside(whole, part)
  {
    SlicesFit(whole, part, []);
    FilterFields(cells, Elements(Emitted(Sizes(whole), SlicesFor(whole, part))))
  }

  lemma RowMajorValues(whole: seq<Typed.Range>, cells: Fields, part: seq<Typed.Range>)
    requires Fills(cells, whole) && AllInside(whole, part)
    ensures AllDiscrete(part) && SameValues(Layout.RowMajor, whole, cells, part, PartOf(whole, cells, part))
  {
    var slices, data := SlicesFor(whole, part), PartOf(whole, cells, part);
    SlicesFit(whole, part, []);
    SliceIsTheBox(StructuredCells(Sizes(whole), cells), slices, StructuredCells(Sizes(whole), data));
    forall x | Covers(part, x)
      ensures Covers(whole, x)
      ensures Rows(data)[RowOf(Layout.RowMajor, part, x)] == Rows(cells)[RowOf(Layout.RowMajor, whole, x)]
    {
      SlicesFit(whole, part, x);
      assert InBox(slices, FromStart(whole, x));
    }
  }

  /** Row-major cells, or cells over at most one range with more than one cell. */
  predicate KeepsValues(layout: Layout, whole: seq<Typed.Range>)
    requires AllDiscrete(whole)
  {
    layout == Layout.RowMajor || AtMostOneWide(Sizes(whole))
  }

  lemma LayoutsAgree(rs: seq<Typed.Range>, x: seq<int>)
    requires AllDiscrete(rs) && AtMostOneWide(Sizes(rs)) && Covers(rs, x)
    ensures RowOf(ColumnMajor, rs, x) == RowOf(Layout.RowMajor, rs, x)
  {
    OrdersAgree(Sizes(rs), FromStart(rs, x));
  }

  lemma ValuesKept(layout: Layout, whole: seq<Typed.Range>, cells: Fields, part: seq<Typed.Range>)
    requires Fills(cells, whole) && AllInside(whole, part) && KeepsValues(layout, whole)
    ensures AllDiscrete(part) && SameValues(layout, whole, cells, part, PartOf(whole, cells, part))
  {
    RowMajorValues(whole, cells, part);
    if layout == ColumnMajor {
      PartsAreNarrower(whole, part);
      forall x | Covers(part, x)
        ensures RowOf(ColumnMajor, part, x) == RowOf(Layout.RowMajor, part, x)
        ensures Covers(whole, x) && RowOf(ColumnMajor, whole, x) == RowOf(Layout.RowMajor, whole, x)
      {
        LayoutsAgree(part, x);
        LayoutsAgree(whole, x);
      }
    }
  }

  lemma PartsAreNarrower(whole: seq<Typed.Range>, part: seq<Typed.Range>)
    requires AllInside(whole, part) && AllDiscrete(whole) && AtMostOneWide(Sizes(whole))
    ensures AllDiscrete(part) && AtMostOneWide(Sizes(part))
  {
    forall i | 0 <= i < |whole| ensures Discrete(part[i]) && Sizes(part)[i] <= Sizes(whole)[i] {
      assert Inside(whole[i], part[i]);
    }
    forall i, j | 0 <= i < j < |part|
      ensures Sizes(part)[i] == 1 || Sizes(part)[j] == 1
    {
      assert Sizes(whole)[i] == 1 || Sizes(whole)[j] == 1;
    }
  }

  /** The subarray of one cell, `y` steps from the start. */
  function OneCell(whole: seq<Typed.Range>, y: seq<nat>): seq<Typed.Range>
    requires AllDiscrete(whole) && Within(Sizes(whole), y)
  {
    seq(|whole|, i requires 0 <= i < |whole| =>
      Typed.Single(whole[i].physical, whole[i].start + y[i], whole[i].start + y[i]))
  }

  lemma OneCellCovers(whole: seq<Typed.Range>, y: seq<nat>) returns (x: seq<int>)
    requires AllDiscrete(whole) && Within(Sizes(whole), y)
    ensures AllInside(whole, OneCell(whole, y)) && AllDiscrete(OneCell(whole, y))
    ensures Covers(OneCell(whole, y), x) && Covers(whole, x) && FromStart(whole, x) == y
    ensures forall layout :: RowOf(layout, OneCell(whole, y), x) == 0
  {
    var part := OneCell(whole, y);
    x := seq(|whole|, i requires 0 <= i < |whole| => whole[i].start + y[i]);
    forall i | 0 <= i < |whole| ensures Inside(whole[i], part[i]) {
      assert Discrete(whole[i]) && y[i] < Sizes(whole)[i];
    }
    ProductOfOnes(Sizes(part));
  }

  /** Where the layouts differ, a subarray of one cell is given the value of another coordinate. */
  lemma ValueMoves(whole: seq<Typed.Range>, cells: Fields) returns (part: seq<Typed.Range>)
    requires Fills(cells, whole) && Distinct(Rows(cells)) && !AtMostOneWide(Sizes(whole))
    ensures AllInside(whole, part) && AllDiscrete(part)
    ensures !SameValues(ColumnMajor, whole, cells, part, PartOf(whole, cells, part))
  {
    var y := OrdersDiffer(Sizes(whole));
    var x := OneCellCovers(whole, y);
    part := OneCell(whole, y);
    RowMajorValues(whole, cells, part);
    var row, other := RowOf(Layout.RowMajor, whole, x), RowOf(ColumnMajor, whole, x);
    assert Rows(PartOf(whole, cells, part))[RowOf(Layout.RowMajor, part, x)] == Rows(cells)[row];
    assert Rows(cells)[row] != Rows(cells)[other];
  }

  ghost predicate EveryPartSame(layout: Layout, whole: seq<Typed.Range>, cells: Fields)
    requires Fills(cells, whole)
  {
    forall part | AllInside(whole, part) ::
      AllDiscrete(part) && SameValues(layout, whole, cells, part, PartOf(whole, cells, part))
  }

  /**
   * Shrinking keeps the value at every coordinate, whatever the subarray is, exactly when the layout
   * is row-major or at most one of the bounding ranges has more than one cell. The rows are taken to
   * differ, as otherwise a value that has moved cannot be told from one that has not.
   */
  lemma ValuesKeptIff(layout: Layout, whole: seq<Typed.Range>, cells: Fields)
    requires Fills(cells, whole) && Distinct(Rows(cells))
    ensures EveryPartSame(layout, whole, cells) <==> KeepsValues(layout, whole)
  {
    if KeepsValues(layout, whole) {
      forall part | AllInside(whole, part)
        ensures AllDiscrete(part) && SameValues(layout, whole, cells, part, PartOf(whole, cells, part))
      {
        ValuesKept(layout, whole, cells, part);
      }
    } else {
      var part := ValueMoves(whole, cells);
    }
  }

  /** A bounding subarray of two by two cells, and its first row. */
  const TWO_BY_TWO := [Typed.Single(Int32, 0, 1), Typed.Single(Int32, 0, 1)]
  const FIRST_ROW := [Typed.Single(Int32, 0, 0), Typed.Single(Int32, 0, 1)]

  lemma PairRow(rs: seq<Typed.Range>, x: seq<int>)
    requires AllDiscrete(rs) && |rs| == 2 && Covers(rs, x)
    ensures var i, j := x[0] - rs[0].start, x[1] - rs[1].start;
            && RowOf(Layout.RowMajor, rs, x) == i * SizeOf(rs[1]) + j
            && RowOf(ColumnMajor, rs, x) == j * SizeOf(rs[0]) + i
  {
    PairPosition(Sizes(rs), FromStart(rs, x));
    PairPosition(Reversed(Sizes(rs)), Reversed(FromStart(rs, x)));
  }

  lemma PairPosition(dims: seq<nat>, x: seq<nat>)
    requires |dims| == |x| == 2
    ensures Position(dims, x) == x[0] * dims[1] + x[1]
  {
    assert dims[1..] == [dims[1]] && x[1..] == [x[1]];
    assert [dims[1]][1..] == [] && [x[1]][1..] == [];
    var one := Product([dims[1]][1..]);
    assert one == 1 && Product([dims[1]]) == dims[1] * one;
    assert Position([dims[1]], [x[1]]) == x[1] * one + Position([], []);
  }

  lemma FirstRowRows()
    ensures AllInside(TWO_BY_TWO, FIRST_ROW) && AllDiscrete(FIRST_ROW) && Covers(FIRST_ROW, [0, 1])
    ensures RowOf(Layout.RowMajor, FIRST_ROW, [0, 1]) == 1 == RowOf(ColumnMajor, FIRST_ROW, [0, 1])
  {
    PairRow(FIRST_ROW, [0, 1]);
  }

  lemma TwoByTwoRows()
    ensures AllDiscrete(TWO_BY_TWO) && Covers(TWO_BY_TWO, [0, 1]) && Covers(TWO_BY_TWO, [1, 0])
    ensures RowOf(Layout.RowMajor, TWO_BY_TWO, [0, 1]) == 1 == RowOf(ColumnMajor, TWO_BY_TWO, [1, 0])
    ensures RowOf(ColumnMajor, TWO_BY_TWO, [0, 1]) == 2
  {
    PairRow(TWO_BY_TWO, [0, 1]);
    PairRow(TWO_BY_TWO, [1, 0]);
  }

  /** A column-major write of two by two cells, shrunk to its first row: `(0, 1)` is given the value of `(1, 0)`. */
  lemma FirstRowOfColumnMajor(cells: Fields)
    requires Fills(cells, TWO_BY_TWO)
    ensures AllInside(TWO_BY_TWO, FIRST_ROW) && AllDiscrete(FIRST_ROW)
    ensures Covers(FIRST_ROW, [0, 1]) && Covers(TWO_BY_TWO, [1, 0])
    ensures var data := PartOf(TWO_BY_TWO, cells, FIRST_ROW);
            && Fills(data, FIRST_ROW)
            && Rows(data)[RowOf(ColumnMajor, FIRST_ROW, [0, 1])] == Rows(cells)[RowOf(ColumnMajor, TWO_BY_TWO, [1, 0])]
            && (Distinct(Rows(cells)) ==> !SameValues(ColumnMajor, TWO_BY_TWO, cells, FIRST_ROW, data))
  {
    FirstRowRows();
    TwoByTwoRows();
    ValueFrom(TWO_BY_TWO, cells, FIRST_ROW, [0, 1], [1, 0]);
  }

  /** What column-major cells hold at `x`, if the selected row is that of `y` in the whole. */
  lemma ValueFrom(whole: seq<Typed.Range>, cells: Fields, part: seq<Typed.Range>, x: seq<int>, y: seq<int>)
    requires Fills(cells, whole) && AllInside(whole, part) && AllDiscrete(part)
    requires Covers(part, x) && Covers(whole, x) && Covers(whole, y)
    requires RowOf(Layout.RowMajor, part, x) == RowOf(ColumnMajor, part, x)
    requires RowOf(Layout.RowMajor, whole, x) == RowOf(ColumnMajor, whole, y) != RowOf(ColumnMajor, whole, x)
    ensures var data := PartOf(whole, cells, part);
            && Fills(data, part)
            && Rows(data)[RowOf(ColumnMajor, part, x)] == Rows(cells)[RowOf(ColumnMajor, whole, y)]
            && (Distinct(Rows(cells)) ==> !SameValues(ColumnMajor, whole, cells, part, data))
  {
    RowMajorValues(whole, cells, part);
    assert Rows(PartOf(whole, cells, part))[RowOf(Layout.RowMajor, part, x)]
           == Rows(cells)[RowOf(Layout.RowMajor, whole, x)];
  }

  /** A value tree of ranges over states `S`; a step may change the state even when it reports `false`. */
  datatype RangeTree<!S> = RangeTree(current: S -> Typed.Range, simplify: S -> (S, bool), complicate: S -> (S, bool))

  function Currents<S>(trees: seq<RangeTree<S>>, states: seq<S>): seq<Typed.Range>
    requires |trees| == |states|
  {
    seq(|states|, i requires 0 <= i < |states| => trees[i].current(states[i]))
  }

  function FirstTurn(prevShrink: Option<nat>): nat { if prevShrink.Some? then prevShrink.value + 1 else 0 }

  /** The `j`th dimension tried, in round-robin order after the one shrunk last. */
  function Turn(prevShrink: Option<nat>, n: nat, j: nat): nat
    requires 0 < n
  {
    (FirstTurn(prevShrink) + j) % n
  }

  predicate CanShrink<S>(trees: seq<RangeTree<S>>, states: seq<S>, d: nat)
    requires d < |trees| == |states|
  {
    trees[d].simplify(states[d]).1
  }

  /** The state of dimension `d` is the one that `simplify` leaves behind, whatever it reports. */
  ghost predicate Simplified<S>(trees: seq<RangeTree<S>>, before: seq<S>, after: seq<S>, d: nat)
    requires d < |trees| == |before| == |after|
  {
    after[d] == trees[d].simplify(before[d]).0
  }

  /** The first dimension in turn that can shrink is the `j`th; those up to it have been tried, those after it not. */
  ghost predicate ShrunkInTurn<S>(trees: seq<RangeTree<S>>, prev: Option<nat>, before: seq<S>, after: seq<S>, j: nat) {
    var n := |trees|;
    && j < n == |before| == |after|
    && CanShrink(trees, before, Turn(prev, n, j))
    && (forall i | 0 <= i < j :: !CanShrink(trees, before, Turn(prev, n, i)))
    && (forall i | 0 <= i <= j :: Simplified(trees, before, after, Turn(prev, n, i)))
    && (forall i | j < i < n :: after[Turn(prev, n, i)] == before[Turn(prev, n, i)])
  }

  /** The first `i` dimensions in turn have been tried and could not shrink; the others are as before. */
  ghost predicate TriedInTurn<S>(trees: seq<RangeTree<S>>, prev: Option<nat>, before: seq<S>, after: seq<S>, i: nat) {
    var n := |trees|;
    && i <= n == |before| == |after|
    && (forall j | 0 <= j < i :: !CanShrink(trees, before, Turn(prev, n, j)))
    && (forall j | 0 <= j < i :: Simplified(trees, before, after, Turn(prev, n, j)))
    && (forall j | i <= j < n :: after[Turn(prev, n, j)] == before[Turn(prev, n, j)])
  }

  lemma TryNext<S>(trees: seq<RangeTree<S>>, prev: Option<nat>, before: seq<S>, after: seq<S>, i: nat)
    requires TriedInTurn(trees, prev, before, after, i) && i < |trees|
    ensures var d := Turn(prev, |trees|, i);
            var step := trees[d].simplify(after[d]);
            && step.1 == CanShrink(trees, before, d)
            && if step.1 then ShrunkInTurn(trees, prev, before, after[d := step.0], i)
               else TriedInTurn(trees, prev, before, after[d := step.0], i + 1)
  {
    var n := |trees|;
    var d := Turn(prev, n, i);
    var start := FirstTurn(prev);
    forall j | i < j < n ensures Turn(prev, n, j) != d { TurnsDiffer(start, i, j, n); }
    forall j | 0 <= j < i ensures Turn(prev, n, j) != d { TurnsDiffer(start, j, i, n); }
  }

  datatype DenseWriteInput = DenseWriteInput(layout: Layout, data: Fields, subarray: seq<Typed.Range>)

  /** The states after an attempt to shrink, and the dimension that was shrunk. */
  datatype Shrinking<S> = Shrinking(states: seq<S>, shrunk: Option<nat>)

  /** The dimensions from the `i`th in turn on, tried until one can shrink. */
  function ShrinkFrom<S>(trees: seq<RangeTree<S>>, states: seq<S>, start: nat, i: nat): (r: Shrinking<S>)
    requires i <= |trees| == |states|
    ensures |r.states| == |states| && (r.shrunk.Some? ==> r.shrunk.value < |trees|)
    decreases |trees| - i
  {
    if i == |trees| then Shrinking(states, None)
    else
      var d := (start + i) % |trees|;
      var step := trees[d].simplify(states[d]);
      if step.1 then Shrinking(states[d := step.0], Some(d))
      else ShrinkFrom(trees, states[d := step.0], start, i + 1)
  }

  lemma OneTurn<S>(trees: seq<RangeTree<S>>, states: seq<S>, start: nat, i: nat)
    requires i < |trees| == |states|
    ensures var d := (start + i) % |trees|;
            var step := trees[d].simplify(states[d]);
            ShrinkFrom(trees, states, start, i)
            == if step.1 then Shrinking(states[d := step.0], Some(d))
               else ShrinkFrom(trees, states[d := step.0], start, i + 1)
  {
  }

  lemma {:induction false} ShrinkFromTurn<S>(trees: seq<RangeTree<S>>, prev: Option<nat>, before: seq<S>,
                                             after: seq<S>, i: nat)
    requires TriedInTurn(trees, prev, before, after, i)
    ensures var r := ShrinkFrom(trees, after, FirstTurn(prev), i);
            match r.shrunk
            case None => TriedInTurn(trees, prev, before, r.states, |trees|)
            case Some(d) =>
              exists j :: 0 <= j < |trees| && ShrunkInTurn(trees, prev, before, r.states, j)
                          && d == Turn(prev, |trees|, j)
    decreases |trees| - i
  {
    if i < |trees| {
      TryNext(trees, prev, before, after, i);
      var d := Turn(prev, |trees|, i);
      var step := trees[d].simplify(after[d]);
      if !step.1 { ShrinkFromTurn(trees, prev, before, after[d := step.0], i + 1); }
    }
  }

  /**
   * Shrinking fails only when no dimension can shrink, and all of them have been tried. Otherwise the
   * dimension shrunk is the first in turn, after the one shrunk last, that can be.
   */
  lemma FirstInTurnShrinks<S>(trees: seq<RangeTree<S>>, prev: Option<nat>, states: seq<S>)
    requires |trees| == |states| && (prev.Some? ==> prev.value < |trees|)
    ensures var r := ShrinkFrom(trees, states, FirstTurn(prev), 0);
            && |r.states| == |states|
            && match r.shrunk
               case None =>
                 forall d | 0 <= d < |trees| ::
                   !CanShrink(trees, states, d) && Simplified(trees, states, r.states, d)
               case Some(d) =>
                 exists j :: 0 <= j < |trees| && ShrunkInTurn(trees, prev, states, r.states, j)
                             && d == Turn(prev, |trees|, j)
  {
    ShrinkFromTurn(trees, prev, states, states, 0);
    var r := ShrinkFrom(trees, states, FirstTurn(prev), 0);
    if r.shrunk == None {
      forall d | 0 <= d < |trees|
        ensures !CanShrink(trees, states, d) && Simplified(trees, states, r.states, d)
      {
        EveryTurnComes(prev, |trees|, d);
      }
    }
  }

  /** Going round from the dimension after `prev`, or from the first, `e` comes before `d`. */
  predicate ComesBefore(prev: Option<nat>, e: nat, d: nat) {
    match prev
    case None => e < d
    case Some(p) => if p < d then p < e < d else p < e || e < d
  }

  /** The place of dimension `d` in the order of turns. */
  function PlaceOf(prev: Option<nat>, n: nat, d: nat): (j: nat)
    requires d < n && (prev.Some? ==> prev.value < n)
    ensures j < n
  {
    var start := FirstTurn(prev);
    if start <= d then d - start else n + d - start
  }

  lemma TurnOfPlace(prev: Option<nat>, n: nat, d: nat)
    requires d < n && (prev.Some? ==> prev.value < n)
    ensures Turn(prev, n, PlaceOf(prev, n, d)) == d
    ensures forall j | 0 <= j < n && Turn(prev, n, j) == d :: j == PlaceOf(prev, n, d)
  {
    var start, place := FirstTurn(prev), PlaceOf(prev, n, d);
    var laps := if start <= d then 0 else 1;
    DivModUnique(laps, d, n);
    assert start + place == laps * n + d;
    forall j | 0 <= j < n && Turn(prev, n, j) == d ensures j == place {
      if j < place { TurnsDiffer(start, j, place, n); } else if place < j { TurnsDiffer(start, place, j, n); }
    }
  }

  lemma BeforeIsEarlier(prev: Option<nat>, n: nat, e: nat, d: nat)
    requires e < n && d < n && (prev.Some? ==> prev.value < n)
    ensures PlaceOf(prev, n, e) < PlaceOf(prev, n, d) <==> e != d && ComesBefore(prev, e, d)
  {
  }

  /**
   * What `simplify` leaves. It fails only if no dimension can shrink, having tried all of them.
   * Otherwise it shrinks the first that can, going round from the one after `prev`: those that come
   * before have been tried and cannot, and those that come after are as they were.
   */
  ghost predicate ShrunkNext<S>(trees: seq<RangeTree<S>>, prev: Option<nat>, before: seq<S>,
                                after: seq<S>, shrunk: Option<nat>) {
    var n := |trees|;
    && n == |before| == |after|
    && match shrunk
       case None => forall e | 0 <= e < n :: !CanShrink(trees, before, e) && Simplified(trees, before, after, e)
       case Some(d) =>
         && d < n && CanShrink(trees, before, d) && Simplified(trees, before, after, d)
         && forall e | 0 <= e < n && e != d ::
              if ComesBefore(prev, e, d) then !CanShrink(trees, before, e) && Simplified(trees, before, after, e)
              else after[e] == before[e]
  }

  lemma NextShrinks<S>(trees: seq<RangeTree<S>>, prev: Option<nat>, states: seq<S>)
    requires |trees| == |states| && (prev.Some? ==> prev.value < |trees|)
    ensures var r := ShrinkFrom(trees, states, FirstTurn(prev), 0);
            ShrunkNext(trees, prev, states, r.states, r.shrunk)
  {
    var n := |trees|;
    FirstInTurnShrinks(trees, prev, states);
    var r := ShrinkFrom(trees, states, FirstTurn(prev), 0);
    if r.shrunk.Some? {
      var d := r.shrunk.value;
      var j :| 0 <= j < n && ShrunkInTurn(trees, prev, states, r.states, j) && d == Turn(prev, n, j);
      TurnOfPlace(prev, n, d);
      forall e | 0 <= e < n && e != d
        ensures if ComesBefore(prev, e, d) then !CanShrink(trees, states, e) && Simplified(trees, states, r.states, e)
                else r.states[e] == states[e]
      {
        TurnOfPlace(prev, n, e);
        BeforeIsEarlier(prev, n, e, d);
        BeforeIsEarlier(prev, n, d, e);
      }
    }
  }

  class DenseWriteValueTree<S(!new)> {
    const layout: Layout
    const boundingSubarray: seq<Typed.Range>
    const trees: seq<RangeTree<S>>
    const cells: StructuredCells
    var subarray: seq<S>
    var prevShrink: Option<nat>

    ghost predicate Valid() reads this {
      && |trees| == |subarray| == |boundingSubarray|
      && (forall i, s: S | 0 <= i < |trees| :: Inside(boundingSubarray[i], trees[i].current(s)))
      && Fills(cells.cells, boundingSubarray) && cells.dimensions == Sizes(boundingSubarray)
      && (prevShrink.Some? ==> prevShrink.value < |subarray|)
    }

    constructor (layout: Layout, boundingSubarray: seq<Typed.Range>, trees: seq<RangeTree<S>>,
                 subarray: seq<S>, cells: Fields)
      requires |trees| == |subarray| == |boundingSubarray| && Fills(cells, boundingSubarray)
      requires forall i, s: S | 0 <= i < |trees| :: Inside(boundingSubarray[i], trees[i].current(s))
      ensures Valid() && this.layout == layout && this.boundingSubarray == boundingSubarray
      ensures this.cells == StructuredCells(Sizes(boundingSubarray), cells)
      ensures this.trees == trees && this.subarray == subarray && prevShrink == None
    {
      this.layout := layout;
      this.boundingSubarray := boundingSubarray;
      this.trees := trees;
      this.subarray := subarray;
      this.cells := StructuredCells(Sizes(boundingSubarray), cells);
      prevShrink := None;
    }

    ghost function SubarrayNow(): seq<Typed.Range>
      requires |trees| == |subarray|
      reads this
    {
      Currents(trees, subarray)
    }

    method SubarrayCurrent() returns (ranges: seq<Typed.Range>)
      requires Valid()
      ensures ranges == SubarrayNow() && AllInside(boundingSubarray, ranges)
    {
      ranges := Currents(trees, subarray);
      forall i | 0 <= i < |trees| ensures Inside(boundingSubarray[i], ranges[i]) {
        assert Inside(boundingSubarray[i], trees[i].current(subarray[i]));
      }
    }

    /** The slices are row-major, whatever the layout. */
    method CellsForSubarray(ranges: seq<Typed.Range>) returns (r: StructuredCells)
      requires Valid() && AllInside(boundingSubarray, ranges)
      ensures AllDiscrete(ranges) && r.cells == PartOf(boundingSubarray, cells.cells, ranges)
      ensures SameValues(Layout.RowMajor, boundingSubarray, cells.cells, ranges, r.cells)
    {
      SlicesFit(boundingSubarray, ranges, []);
      RowMajorValues(boundingSubarray, cells.cells, ranges);
      r := Slice(cells, SlicesFor(boundingSubarray, ranges));
    }

    /** The cells of the current subarray: in row-major order always with the values of the bounding cells. */
    method Current() returns (input: DenseWriteInput)
      requires Valid()
      ensures input.layout == layout && input.subarray == SubarrayNow() && AllInside(boundingSubarray, input.subarray)
      ensures AllDiscrete(input.subarray) && Fills(input.data, input.subarray)
      ensures input.data == PartOf(boundingSubarray, cells.cells, input.subarray)
      ensures KeepsValues(layout, boundingSubarray) ==>
                SameValues(layout, boundingSubarray, cells.cells, input.subarray, input.data)
    {
      var ranges := SubarrayCurrent();
      var sliced := CellsForSubarray(ranges);
      if KeepsValues(layout, boundingSubarray) {
        ValuesKept(layout, boundingSubarray, cells.cells, ranges);
      }
      input := DenseWriteInput(layout, sliced.cells, ranges);
    }

    /** Shrinks the first dimension, in round-robin order, that can be shrunk. */
    method Simplify() returns (ok: bool)
      requires Valid()
      modifies this`subarray, this`prevShrink
      ensures Valid()
      ensures ShrunkNext(trees, old(prevShrink), old(subarray), subarray, prevShrink)
      ensures ok <==> prevShrink.Some?
    {
      NextShrinks(trees, prevShrink, subarray);
      ok := SimplifyFrom(if prevShrink.Some? then prevShrink.value + 1 else 0);
    }

    /** The loop of `simplify`. */
    method SimplifyFrom(start: nat) returns (ok: bool)
      requires |trees| == |subarray|
      modifies this`subarray, this`prevShrink
      ensures Shrinking(subarray, prevShrink) == ShrinkFrom(trees, old(subarray), start, 0)
      ensures ok <==> prevShrink.Some?
    {
      var n := |subarray|;
      for i := 0 to n
        invariant |subarray| == n
        invariant ShrinkFrom(trees, subarray, start, i) == ShrinkFrom(trees, old(subarray), start, 0)
      {
        var idx := (start + i) % n;
        var step := trees[idx].simplify(subarray[idx]);
        OneTurn(trees, subarray, start, i);
        subarray := subarray[idx := step.0];
        if step.1 {
          prevShrink := Some(idx);
          return true;
        }
      }
      prevShrink := None;
      return false;
    }

    /** Complicates the dimension that was shrunk last, and forgets it when it cannot be complicated further. */
    method Complicate() returns (ok: bool)
      requires Valid()
      modifies this`subarray, this`prevShrink
      ensures Valid()
      ensures match old(prevShrink)
              case None => !ok && subarray == old(subarray) && prevShrink == None
              case Some(d) =>
                var step := trees[d].complicate(old(subarray)[d]);
                ok == step.1 && subarray == old(subarray)[d := step.0] && prevShrink == if ok then Some(d) else None
    {
      match prevShrink {
        case None => return false;
        case Some(d) =>
          var step := trees[d].complicate(subarray[d]);
          subarray := subarray[d := step.0];
          if !step.1 { prevShrink := None; }
          return step.1;
      }
    }
  }

  /** Every dimension has its turn. */
  lemma EveryTurnComes(prev: Option<nat>, n: nat, d: nat)
    requires d < n && (prev.Some? ==> prev.value < n)
    ensures exists j :: 0 <= j < n && Turn(prev, n, j) == d
  {
    var start := FirstTurn(prev);
    var laps := if start <= d then 0 else 1;
    var j := laps * n + d - start;
    DivModUnique(laps, d, n);
    assert Turn(prev, n, j) == d;
  }

  lemma TurnsDiffer(start: nat, i: nat, j: nat, n: nat)
    requires i < j < n
    ensures (start + i) % n != (start + j) % n
  {
    var a, b := start + i, start + j;
    if a % n == b % n {
      assert b - a == (b / n - a / n) * n;
      MulLess(0, b / n - a / n, n);
    }
  }
}
