/** The domain of a sparse write: for each dimension the smallest and the largest coordinate. */
module SparseWrites {
  import opened Prelude
  import opened Bits
  import opened StableSort
  import opened Keyed
  import opened Columns
  import opened CellsModel
  import opened CellsTheorems
  import opened NumCells
  import opened RangeAlgebra
  import opened TypedRanges

  datatype CellValNum = Fixed(n: nat) | VarSized

  datatype Dimension = Dimension(name: string, cellValNum: CellValNum)

  function Names(dims: seq<Dimension>): seq<string> {
    seq(|dims|, i requires 0 <= i < |dims| => dims[i].name)
  }

  /** `min_by`: the first of the smallest cells. */
  function MinCell(cells: seq<Cell>): (m: Cell)
    requires cells != []
  {
    var last := |cells| - 1;
    if last == 0 then cells[0] else
      var m := MinCell(cells[..last]);
      if CompareCell(m, cells[last]) == Greater then cells[last] else m
  }

  /** `max_by`: the last of the largest cells. */
  function MaxCell(cells: seq<Cell>): (m: Cell)
    requires cells != []
  {
    var last := |cells| - 1;
    if last == 0 then cells[0] else
      var m := MaxCell(cells[..last]);
      if CompareCell(m, cells[last]) == Greater then m else cells[last]
  }

  /** A column a dimension can have: single values, vectors of the fixed length, or cells of any length. */
  predicate FitsDimension(d: Dimension, data: FieldData) {
    && (data.single ==> forall i | 0 <= i < |data.cells| :: |data.cells[i]| == 1)
    && (!data.single && d.cellValNum.Fixed? ==>
          2 <= d.cellValNum.n && forall i | 0 <= i < |data.cells| :: |data.cells[i]| == d.cellValNum.n)
  }

  predicate HasDimensions(dims: seq<Dimension>, c: Fields) {
    forall d | d in dims :: d.name in c && FitsDimension(d, c[d.name])
  }

  function RangeOf(d: Dimension, data: FieldData): Range
    requires data.cells != [] && FitsDimension(d, data)
  {
    var lower, upper := MinCell(data.cells), MaxCell(data.cells);
    if data.single then
      Extremes(data.cells);
      Single(data.physical, lower[0], upper[0])
    else if d.cellValNum.Fixed? then Multi(data.physical, lower, upper)
    else Var(data.physical, lower, upper)
  }

  /** `None` if any dimension has no cells. */
  function Domain(dims: seq<Dimension>, c: Fields): Option<seq<Range>>
    requires HasDimensions(dims, c)
  {
    if exists i | 0 <= i < |dims| :: c[dims[i].name].cells == [] then None
    else Some(seq(|dims|, i requires 0 <= i < |dims| => RangeOf(dims[i], c[dims[i].name])))
  }

  // ---------- Smallest and largest cells ----------

  ghost predicate IsLeast(m: Cell, s: set<Cell>) {
    m in s && forall x | x in s :: CompareCell(m, x) != Greater
  }

  ghost predicate IsGreatest(m: Cell, s: set<Cell>) {
    m in s && forall x | x in s :: CompareCell(x, m) != Greater
  }

  lemma CellOrder(a: Cell, b: Cell, c: Cell)
    ensures CompareCell(a, b) != Greater && CompareCell(b, c) != Greater ==> CompareCell(a, c) != Greater
    ensures CompareCell(a, b) == Greater <==> CompareCell(b, a) == Less
    ensures CompareCell(a, b) == Equal <==> a == b
    ensures CompareCell(a, b) != Greater && CompareCell(b, a) != Greater ==> a == b
  {
    CompareTotal();
    Order(CompareCell, a, b, c);
    Order(CompareCell, b, a, c);
  }

  lemma {:induction false} Extremes(cells: seq<Cell>)
    requires cells != []
    ensures IsLeast(MinCell(cells), Elements(cells)) && IsGreatest(MaxCell(cells), Elements(cells))
    ensures MinCell(cells) in cells && MaxCell(cells) in cells
  {
    var last := |cells| - 1;
    var x := cells[last];
    CellOrder(x, x, x);
    if last > 0 {
      var rest := cells[..last];
      Extremes(rest);
      assert cells == rest + [x];
      var lo, hi := MinCell(rest), MaxCell(rest);
      forall y | y in cells
        ensures CompareCell(MinCell(cells), y) != Greater && CompareCell(y, MaxCell(cells)) != Greater
      {
        assert y in rest || y == x;
        CellOrder(x, lo, y);
        CellOrder(lo, x, y);
        CellOrder(y, hi, x);
        CellOrder(hi, x, hi);
      }
    }
  }

  lemma ExtremesUnique(s: set<Cell>, a: Cell, b: Cell)
    ensures IsLeast(a, s) && IsLeast(b, s) ==> a == b
    ensures IsGreatest(a, s) && IsGreatest(b, s) ==> a == b
  {
    CellOrder(a, b, a);
  }

  /** The extremes of a union of sets of cells are the ends of the union of the ranges. */
  lemma ExtremesOfUnion(a: seq<Cell>, b: seq<Cell>, all: seq<Cell>)
    requires a != [] && b != [] && all != []
    requires Elements(all) == Elements(a) + Elements(b)
    ensures UnionSlices(CompareCell, MinCell(a), MaxCell(a), MinCell(b), MaxCell(b)) == (MinCell(all), MaxCell(all))
  {
    Extremes(a);
    Extremes(b);
    Extremes(all);
    var u := UnionSlices(CompareCell, MinCell(a), MaxCell(a), MinCell(b), MaxCell(b));
    CellOrder(MinCell(a), MinCell(b), MinCell(a));
    CellOrder(MaxCell(a), MaxCell(b), MaxCell(a));
    forall x | x in Elements(all)
      ensures CompareCell(u.0, x) != Greater && CompareCell(x, u.1) != Greater
    {
      CellOrder(MinCell(a), MinCell(b), x);
      CellOrder(MinCell(b), MinCell(a), x);
      CellOrder(x, MaxCell(a), MaxCell(b));
      CellOrder(x, MaxCell(b), MaxCell(a));
    }
    ExtremesUnique(Elements(all), u.0, MinCell(all));
    ExtremesUnique(Elements(all), u.1, MaxCell(all));
  }

  /** The values of the column are of its type. */
  predicate TypedValues(data: FieldData) {
    IsIntegral(data.physical) ==> forall i | 0 <= i < |data.cells| :: VectorOf(data.physical, data.cells[i])
  }

  /**
   * `r` is the box of the column: of its shape and type, around every one of its cells, with both of
   * its ends among them.
   */
  ghost predicate IsBoxOf(d: Dimension, data: FieldData, r: Range) {
    && r.physical == data.physical
    && (r.Single? <==> data.single)
    && (r.Multi? <==> !data.single && d.cellValNum.Fixed?)
    && (forall i | 0 <= i < |data.cells| :: Holds(r, data.cells[i]))
    && (match r
        case Single(_, a, b) => [a] in data.cells && [b] in data.cells
        case Multi(_, a, b) => a in data.cells && b in data.cells
        case Var(_, a, b) => a in data.cells && b in data.cells)
    && (TypedValues(data) ==> Valid(r))
  }

  /** The range of a dimension is the box of its column. */
  lemma RangeIsTight(d: Dimension, data: FieldData)
    requires data.cells != [] && FitsDimension(d, data)
    ensures IsBoxOf(d, data, RangeOf(d, data))
  {
    var lo, hi := MinCell(data.cells), MaxCell(data.cells);
    Extremes(data.cells);
    SingleOrder(lo, hi);
    forall i | 0 <= i < |data.cells| ensures Holds(RangeOf(d, data), data.cells[i]) {
      var x := data.cells[i];
      assert x in Elements(data.cells);
      SingleOrder(lo, x);
      SingleOrder(x, hi);
    }
    if data.single { assert [lo[0]] == lo && [hi[0]] == hi; }
  }

  /** One range for each dimension, in order, each the box of the column of that name. */
  ghost predicate IsBox(dims: seq<Dimension>, c: Fields, box: seq<Range>)
    requires HasDimensions(dims, c)
  {
    |box| == |dims| && forall i | 0 <= i < |dims| :: IsBoxOf(dims[i], c[dims[i].name], box[i])
  }

  /** `domain` is the bounding box, and there is none exactly when a dimension has no cells. */
  lemma DomainIsBox(dims: seq<Dimension>, c: Fields)
    requires HasDimensions(dims, c)
    ensures Domain(dims, c).None? <==> exists i :: 0 <= i < |dims| && c[dims[i].name].cells == []
    ensures Domain(dims, c).Some? ==> IsBox(dims, c, Domain(dims, c).value)
  {
    if Domain(dims, c).Some? {
      forall i | 0 <= i < |dims| ensures IsBoxOf(dims[i], c[dims[i].name], Domain(dims, c).value[i]) {
        RangeIsTight(dims[i], c[dims[i].name]);
      }
    }
  }

  lemma SingleOrder(a: Cell, b: Cell)
    ensures |a| == 1 == |b| ==> CompareCell(a, b) == CompareInt(a[0], b[0])
  {
    if |a| == 1 == |b| { assert Lexicographic(CompareInt, a[1..], b[1..]) == Equal; }
  }

  /** The union of the ranges of two columns is the range of any column of both their values. */
  lemma RangeOfUnion(d: Dimension, a: FieldData, b: FieldData, all: FieldData)
    requires a.cells != [] && b.cells != [] && all.cells != []
    requires FitsDimension(d, a) && FitsDimension(d, b) && FitsDimension(d, all)
    requires a.physical == b.physical == all.physical && a.single == b.single == all.single
    requires Elements(all.cells) == Elements(a.cells) + Elements(b.cells)
    ensures Union(RangeOf(d, a), RangeOf(d, b)) == Value(RangeOf(d, all))
  {
    Extremes(a.cells);
    Extremes(b.cells);
    Extremes(all.cells);
    ExtremesOfUnion(a.cells, b.cells, all.cells);
    if a.single {
      var lo, hi, lo', hi' := MinCell(a.cells), MaxCell(a.cells), MinCell(b.cells), MaxCell(b.cells);
      SingleOrder(lo, lo');
      SingleOrder(hi, hi');
    }
  }
}
