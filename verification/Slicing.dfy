/** `StructuredCells`: cells laid out in row-major order over any number of dimensions, and slices of them. */
module Slicing {
  import opened Prelude
  import opened Columns
  import opened RowMajor

  datatype Range = Range(start: nat, end: nat)
  {
    predicate IsEmpty() { end <= start }
    function Len(): nat { if IsEmpty() then 0 else end - start }
  }

  predicate InBox(ranges: seq<Range>, x: seq<nat>) {
    |x| == |ranges| && forall i | 0 <= i < |x| :: ranges[i].start <= x[i] < ranges[i].end
  }

  /** The ranges lie inside the dimensions. */
  predicate Fits(dims: seq<nat>, ranges: seq<Range>) {
    |ranges| == |dims| && forall i | 0 <= i < |dims| :: ranges[i].end <= dims[i]
  }

  function Starts(ranges: seq<Range>): seq<nat> {
    seq(|ranges|, i requires 0 <= i < |ranges| => ranges[i].start)
  }

  function Lens(ranges: seq<Range>): seq<nat> {
    seq(|ranges|, i requires 0 <= i < |ranges| => ranges[i].Len())
  }

  /** Coordinates relative to the start of the slice. */
  function Relative(ranges: seq<Range>, x: seq<nat>): seq<nat>
    requires InBox(ranges, x)
  {
    seq(|x|, i requires 0 <= i < |x| => x[i] - ranges[i].start)
  }

  function Absolute(ranges: seq<Range>, x: seq<nat>): seq<nat>
    requires |x| == |ranges|
  {
    seq(|x|, i requires 0 <= i < |x| => x[i] + ranges[i].start)
  }

  lemma TailOfBox(ranges: seq<Range>, x: seq<nat>)
    requires InBox(ranges, x) && ranges != []
    ensures InBox(ranges[1..], x[1..])
    ensures Lens(ranges)[1..] == Lens(ranges[1..])
    ensures Relative(ranges, x)[1..] == Relative(ranges[1..], x[1..])
    ensures Within(Lens(ranges), Relative(ranges, x))
  {
  }

  lemma RelativeWithin(ranges: seq<Range>, x: seq<nat>)
    requires InBox(ranges, x)
    ensures Within(Lens(ranges), Relative(ranges, x))
    ensures Absolute(ranges, Relative(ranges, x)) == x
  {
  }

  lemma AbsoluteInBox(ranges: seq<Range>, r: seq<nat>)
    requires Within(Lens(ranges), r)
    ensures InBox(ranges, Absolute(ranges, r)) && Relative(ranges, Absolute(ranges, r)) == r
  {
  }

  /** The order of positions in the slice is the order of positions in the whole. */
  lemma {:induction false} PositionsAgree(dims: seq<nat>, ranges: seq<Range>, x: seq<nat>, y: seq<nat>)
    requires Fits(dims, ranges) && InBox(ranges, x) && InBox(ranges, y)
    requires Position(Lens(ranges), Relative(ranges, x)) < Position(Lens(ranges), Relative(ranges, y))
    ensures Position(dims, x) < Position(dims, y)
  {
    if dims != [] {
      TailOfBox(ranges, x);
      TailOfBox(ranges, y);
      var p, q := Product(dims[1..]), Product(Lens(ranges)[1..]);
      PositionBelow(dims[1..], x[1..]);
      PositionBelow(Lens(ranges)[1..], Relative(ranges, y)[1..]);
      var s := ranges[0].start;
      MulLess(x[0], y[0], p);
      MulLess(y[0] - s, x[0] - s, q);
      if x[0] == y[0] {
        PositionsAgree(dims[1..], ranges[1..], x[1..], y[1..]);
      }
    }
  }

  // ---------- The odometer ----------

  /** The next coordinates of the box in row-major order, if there are any. */
  function Successor(ranges: seq<Range>, x: seq<nat>): Option<seq<nat>>
    requires |x| == |ranges|
  {
    if x == [] then None else
      match Successor(ranges[1..], x[1..])
      case Some(y) => Some([x[0]] + y)
      case None =>
        if x[0] + 1 < ranges[0].end then Some([x[0] + 1] + Starts(ranges[1..])) else None
  }

  lemma {:induction false} StartsArePositionZero(ranges: seq<Range>)
    requires InBox(ranges, Starts(ranges))
    ensures Position(Lens(ranges), Relative(ranges, Starts(ranges))) == 0
  {
    if ranges != [] {
      TailOfBox(ranges, Starts(ranges));
      assert Starts(ranges)[1..] == Starts(ranges[1..]);
      StartsArePositionZero(ranges[1..]);
    }
  }

  /** Carrying: the next coordinates when those after the first dimension are at their end. */
  lemma CarryIsNext(ranges: seq<Range>, x: seq<nat>)
    requires InBox(ranges, x) && x != [] && x[0] + 1 < ranges[0].end
    requires Position(Lens(ranges[1..]), Relative(ranges[1..], x[1..])) + 1 == Product(Lens(ranges[1..]))
    ensures var y := [x[0] + 1] + Starts(ranges[1..]);
            InBox(ranges, y)
            && Position(Lens(ranges), Relative(ranges, y)) == Position(Lens(ranges), Relative(ranges, x)) + 1
  {
    var tail := ranges[1..];
    var y := [x[0] + 1] + Starts(tail);
    assert y[1..] == Starts(tail);
    assert InBox(tail, Starts(tail)) by {
      forall i | 0 <= i < |tail|
        ensures tail[i].start < tail[i].end
      {
        assert ranges[i + 1].start <= x[i + 1] < ranges[i + 1].end;
      }
    }
    assert InBox(ranges, y);
    TailOfBox(ranges, x);
    TailOfBox(ranges, y);
    StartsArePositionZero(tail);
    MulLess(x[0] - ranges[0].start, 0, Product(Lens(tail)));
  }

  /** One step moves to the next position of the slice; there is no next one only at the last. */
  lemma {:induction false} SuccessorIsNext(ranges: seq<Range>, x: seq<nat>)
    requires InBox(ranges, x)
    ensures var k := Position(Lens(ranges), Relative(ranges, x));
            match Successor(ranges, x)
            case Some(y) => InBox(ranges, y) && Position(Lens(ranges), Relative(ranges, y)) == k + 1
            case None => k + 1 == Product(Lens(ranges))
  {
    if x != [] {
      var tail, xt := ranges[1..], x[1..];
      TailOfBox(ranges, x);
      SuccessorIsNext(tail, xt);
      match Successor(tail, xt)
      case Some(yt) =>
        var y := [x[0]] + yt;
        assert y[1..] == yt && InBox(ranges, y);
        TailOfBox(ranges, y);
      case None =>
        if x[0] + 1 < ranges[0].end {
          CarryIsNext(ranges, x);
        } else {
          var r0 := x[0] - ranges[0].start;
          assert Lens(ranges)[0] == r0 + 1;
          MulLess(r0, 0, Product(Lens(tail)));
        }
    }
  }

  lemma {:induction false} SuccessorKeepsPrefix(ranges: seq<Range>, x: seq<nat>, d: nat)
    requires |x| == |ranges| && d <= |x|
    ensures Successor(ranges[d..], x[d..]).Some?
            ==> Successor(ranges, x) == Some(x[..d] + Successor(ranges[d..], x[d..]).value)
  {
    if d == 0 {
      assert ranges[0..] == ranges && x[0..] == x;
      assert forall y: seq<nat> :: x[..0] + y == y;
    } else {
      assert ranges[1..][d - 1..] == ranges[d..] && x[1..][d - 1..] == x[d..];
      SuccessorKeepsPrefix(ranges[1..], x[1..], d - 1);
      var rest := Successor(ranges[d..], x[d..]);
      if rest.Some? {
        assert [x[0]] + (x[1..][..d - 1] + rest.value) == x[..d] + rest.value;
      }
    }
  }

  /** The coordinates from `d` on were at their ends and have been reset. */
  ghost predicate CarriedTo(ranges: seq<Range>, x: seq<nat>, cursors: seq<nat>, d: nat) {
    && d <= |x| == |ranges|
    && cursors == x[..d] + Starts(ranges[d..])
    && Successor(ranges[d..], x[d..]) == None
  }

  lemma CarryOne(ranges: seq<Range>, x: seq<nat>, cursors: seq<nat>, d: nat)
    requires CarriedTo(ranges, x, cursors, d) && 0 < d
    ensures var e := d - 1;
            if cursors[e] + 1 < ranges[e].end then Successor(ranges, x) == Some(cursors[e := cursors[e] + 1])
            else CarriedTo(ranges, x, cursors[e := ranges[e].start], e)
  {
    var e := d - 1;
    assert ranges[e..][1..] == ranges[d..] && x[e..][1..] == x[d..];
    SuccessorKeepsPrefix(ranges, x, e);
    assert cursors[e := cursors[e] + 1] == x[..e] + ([x[e] + 1] + Starts(ranges[d..]));
    assert cursors[e := ranges[e].start] == x[..e] + Starts(ranges[e..]);
  }

  class NextIndex {
    const dimensions: seq<nat>
    const ranges: seq<Range>
    var cursors: Option<seq<nat>>

    ghost predicate Valid() reads this {
      && |ranges| == |dimensions|
      && (cursors.Some? ==> InBox(ranges, cursors.value))
    }

    constructor (dimensions: seq<nat>, ranges: seq<Range>)
      requires |ranges| == |dimensions|
      ensures Valid() && this.dimensions == dimensions && this.ranges == ranges
      ensures cursors == if exists i | 0 <= i < |ranges| :: ranges[i].IsEmpty() then None else Some(Starts(ranges))
    {
      this.dimensions := dimensions;
      this.ranges := ranges;
      cursors := None;
      new;
      for i := 0 to |ranges|
        invariant cursors == None && this.dimensions == dimensions && this.ranges == ranges
        invariant forall j | 0 <= j < i :: !ranges[j].IsEmpty()
      {
        if ranges[i].IsEmpty() { return; }
      }
      cursors := Some(Starts(ranges));
    }

    method Compute() returns (index: nat)
      requires Valid() && cursors.Some?
      ensures index == Position(dimensions, cursors.value)
    {
      var x := cursors.value;
      index := 0;
      var scale := 1;
      var d := |dimensions|;
      assert dimensions[d..] == [] && x[d..] == [];
      while d > 0
        invariant d <= |dimensions| && |x| == |dimensions|
        invariant index == Position(dimensions[d..], x[d..]) && scale == Product(dimensions[d..])
      {
        d := d - 1;
        assert dimensions[d..][1..] == dimensions[d + 1..] && x[d..][1..] == x[d + 1..];
        index := index + x[d] * scale;
        scale := scale * dimensions[d];
      }
      assert dimensions[0..] == dimensions && x[0..] == x;
    }

    method Advance()
      requires Valid()
      modifies this
      ensures Valid()
      ensures cursors == if old(cursors).None? then None else Successor(ranges, old(cursors).value)
    {
      if cursors.None? { return; }
      ghost var x := cursors.value;
      SuccessorIsNext(ranges, x);
      var d := |dimensions|;
      assert x == x[..d] + Starts(ranges[d..]);
      while d > 0
        invariant d <= |dimensions| == |ranges| && cursors.Some?
        invariant CarriedTo(ranges, x, cursors.value, d)
      {
        CarryOne(ranges, x, cursors.value, d);
        d := d - 1;
        var current := cursors.value;
        if current[d] + 1 < ranges[d].end {
          cursors := Some(current[d := current[d] + 1]);
          return;
        }
        cursors := Some(current[d := ranges[d].start]);
      }
      assert ranges[0..] == ranges && x[0..] == x;
      cursors := None;
    }

    method Next() returns (r: Option<nat>)
      requires Valid()
      modifies this
      ensures Valid()
      ensures old(cursors).None? ==> r == None && cursors == None
      ensures old(cursors).Some? ==> r == Some(Position(dimensions, old(cursors).value))
                                     && cursors == Successor(ranges, old(cursors).value)
    {
      if cursors.None? { return None; }
      var index := Compute();
      Advance();
      return Some(index);
    }
  }

  // ---------- slice ----------

  /** The coordinates at position `k` of the slice. */
  function Point(ranges: seq<Range>, k: nat): seq<nat>
    requires k < Product(Lens(ranges))
  {
    Absolute(ranges, Digits(Lens(ranges), k))
  }

  /** What the odometer emits: the position in the whole of each position of the slice. */
  ghost function Emitted(dims: seq<nat>, ranges: seq<Range>): seq<nat>
    requires |ranges| == |dims|
  {
    seq(Product(Lens(ranges)), k requires 0 <= k < Product(Lens(ranges)) => Position(dims, Point(ranges, k)))
  }

  datatype StructuredCells = StructuredCells(dimensions: seq<nat>, cells: Fields)

  lemma {:induction false} EmptyRangeEmptyBox(ranges: seq<Range>)
    ensures Product(Lens(ranges)) == 0 <==> exists i | 0 <= i < |ranges| :: ranges[i].IsEmpty()
  {
    if ranges != [] {
      EmptyRangeEmptyBox(ranges[1..]);
      assert Lens(ranges)[1..] == Lens(ranges[1..]);
      assert Product(Lens(ranges)) == ranges[0].Len() * Product(Lens(ranges[1..]));
      if i :| 0 <= i < |ranges| && ranges[i].IsEmpty() && i > 0 {
        assert ranges[1..][i - 1].IsEmpty();
      }
      if i :| 0 <= i < |ranges[1..]| && ranges[1..][i].IsEmpty() {
        assert ranges[i + 1].IsEmpty();
      }
    }
  }

  method Slice(s: StructuredCells, slices: seq<Range>) returns (r: StructuredCells)
    requires |slices| == |s.dimensions|
    ensures r == StructuredCells(s.dimensions, FilterFields(s.cells, Elements(Emitted(s.dimensions, slices))))
  {
    var v := {};
    var next := new NextIndex(s.dimensions, slices);
    ghost var emitted := Emitted(s.dimensions, slices);
    ghost var k := 0;
    StartPosition(slices);
    while true
      invariant next.Valid() && next.dimensions == s.dimensions && next.ranges == slices
      invariant k <= |emitted| && AtPosition(slices, next.cursors, k)
      invariant v == Elements(emitted[..k])
      decreases |emitted| - k, next.cursors.Some?
    {
      ghost var cursors := next.cursors;
      var index := next.Next();
      if index.None? { break; }
      EmittedAt(s.dimensions, slices, cursors.value);
      StepPosition(slices, cursors.value, k);
      ElementsOfPrefix(emitted, k);
      v := v + {index.value};
      k := k + 1;
    }
    assert emitted[..|emitted|] == emitted;
    r := StructuredCells(s.dimensions, FilterFields(s.cells, v));
  }

  /** The odometer stands at position `k` of the slice, or has gone past the last. */
  ghost predicate AtPosition(ranges: seq<Range>, cursors: Option<seq<nat>>, k: nat) {
    match cursors
    case None => k == Product(Lens(ranges))
    case Some(x) => InBox(ranges, x) && Position(Lens(ranges), Relative(ranges, x)) == k < Product(Lens(ranges))
  }

  lemma StartPosition(ranges: seq<Range>)
    ensures var none := exists i | 0 <= i < |ranges| :: ranges[i].IsEmpty();
            AtPosition(ranges, if none then None else Some(Starts(ranges)), 0)
  {
    EmptyRangeEmptyBox(ranges);
    if Product(Lens(ranges)) != 0 { StartsArePositionZero(ranges); }
  }

  lemma StepPosition(ranges: seq<Range>, x: seq<nat>, k: nat)
    requires AtPosition(ranges, Some(x), k)
    ensures AtPosition(ranges, Successor(ranges, x), k + 1)
  {
    SuccessorIsNext(ranges, x);
    match Successor(ranges, x)
    case None =>
    case Some(y) =>
      RelativeWithin(ranges, y);
      PositionBelow(Lens(ranges), Relative(ranges, y));
  }

  /** Every point of the box is emitted, at its position in the slice. */
  lemma EmittedAt(dims: seq<nat>, ranges: seq<Range>, x: seq<nat>)
    requires |ranges| == |dims| && InBox(ranges, x)
    ensures var k := Position(Lens(ranges), Relative(ranges, x));
            k < |Emitted(dims, ranges)| && Emitted(dims, ranges)[k] == Position(dims, x)
  {
    RelativeWithin(ranges, x);
    DigitsOfPosition(Lens(ranges), Relative(ranges, x));
  }

  /**
   * The odometer emits the position of every point of the box once, in increasing order, all below
   * the product of the dimensions.
   */
  lemma EmittedIsTheBox(dims: seq<nat>, ranges: seq<Range>)
    requires Fits(dims, ranges)
    ensures var e := Emitted(dims, ranges);
            && |e| == Product(Lens(ranges))
            && Listing(e, Product(dims))
            && forall p: nat :: p in e <==> exists x :: InBox(ranges, x) && Position(dims, x) == p
  {
    var e, lens := Emitted(dims, ranges), Lens(ranges);
    forall k: nat | k < |e|
      ensures InBox(ranges, Point(ranges, k)) && Position(lens, Relative(ranges, Point(ranges, k))) == k
      ensures e[k] < Product(dims)
    {
      PositionOfDigits(lens, k);
      AbsoluteInBox(ranges, Digits(lens, k));
      PositionBelow(dims, Point(ranges, k));
    }
    forall i, j | 0 <= i < j < |e| ensures e[i] < e[j] {
      PositionsAgree(dims, ranges, Point(ranges, i), Point(ranges, j));
    }
    forall x | InBox(ranges, x) ensures Position(dims, x) in e { EmittedAt(dims, ranges, x); }
  }

  lemma SliceRows(s: StructuredCells, slices: seq<Range>)
    requires Aligned(s.cells) && NumRows(s.cells) == Product(s.dimensions)
    requires Fits(s.dimensions, slices)
    ensures var e := Emitted(s.dimensions, slices);
            && Below(e, NumRows(s.cells))
            && Aligned(FilterFields(s.cells, Elements(e)))
            && Rows(FilterFields(s.cells, Elements(e))) == Gather(Rows(s.cells), e)
  {
    var e, n := Emitted(s.dimensions, slices), NumRows(s.cells);
    EmittedIsTheBox(s.dimensions, slices);
    FilterRows(s.cells, Elements(e));
    FilterIsGather(Rows(s.cells), Elements(e));
    assert Elements(e) * Saturated(n) == Elements(e);
    KeptUnique(n, Elements(e), e);
  }

  /**
   * A slice inside the dimensions has as many rows as the product of its lengths, and the row at
   * position `x - start` of the slice is the row at position `x` of the whole.
   */
  lemma SliceIsTheBox(s: StructuredCells, slices: seq<Range>, r: StructuredCells)
    requires Aligned(s.cells) && NumRows(s.cells) == Product(s.dimensions)
    requires Fits(s.dimensions, slices)
    requires r == StructuredCells(s.dimensions, FilterFields(s.cells, Elements(Emitted(s.dimensions, slices))))
    ensures Aligned(r.cells) && NumRows(r.cells) == Product(Lens(slices))
    ensures forall x | InBox(slices, x) ::
              var k, p := Position(Lens(slices), Relative(slices, x)), Position(s.dimensions, x);
              k < NumRows(r.cells) && p < NumRows(s.cells) && Rows(r.cells)[k] == Rows(s.cells)[p]
  {
    SliceRows(s, slices);
    var e := Emitted(s.dimensions, slices);
    assert |Rows(r.cells)| == |e|;
    forall x | InBox(slices, x)
      ensures var k, p := Position(Lens(slices), Relative(slices, x)), Position(s.dimensions, x);
              k < |e| && e[k] == p < NumRows(s.cells)
    {
      EmittedAt(s.dimensions, slices, x);
    }
  }
}
