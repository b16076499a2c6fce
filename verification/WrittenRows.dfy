/** What is accumulated, row by row and value by value, in terms of what was written. */
module WrittenRows {
  import opened Prelude
  import opened Bits
  import opened Keyed
  import opened Columns
  import opened CellsModel
  import opened NumCells
  import opened TypedRanges
  import opened SparseWrites
  import opened Accumulator
  import opened WriteSequences

  // ---------- The latest row of each coordinate ----------

  ghost predicate SameCoordinates(dims: seq<Dimension>, a: Fields, i: nat, b: Fields, j: nat)
    requires HasDimensions(dims, a) && HasDimensions(dims, b) && Aligned(a) && Aligned(b)
    requires i < NumRows(a) && j < NumRows(b)
  {
    forall d | d in dims :: a[d.name].cells[i] == b[d.name].cells[j]
  }

  /** No row of a later write, and no earlier row of its own, has the coordinates of row `j` of write `k`. */
  ghost predicate Latest(kinds: Schema, dims: seq<Dimension>, writes: seq<Fields>, k: nat, j: nat)
    requires WritesOf(kinds, dims, writes)
  {
    && k < |writes| && j < NumRows(writes[k])
    && (forall m: nat | m < j :: !SameCoordinates(dims, writes[k], m, writes[k], j))
    && forall l: nat, m: nat | k < l < |writes| && m < NumRows(writes[l]) ::
         !SameCoordinates(dims, writes[l], m, writes[k], j)
  }

  ghost predicate IsLatestRow(kinds: Schema, dims: seq<Dimension>, writes: seq<Fields>, row: Row)
    requires WritesOf(kinds, dims, writes)
  {
    exists k: nat, j: nat :: Latest(kinds, dims, writes, k, j) && Rows(writes[k])[j] == row
  }

  /** `Latest` in terms of keys. */
  ghost predicate LatestKey(kinds: Schema, dims: seq<Dimension>, writes: seq<Fields>, k: nat, j: nat)
    requires WritesOf(kinds, dims, writes)
  {
    && k < |writes| && IsFirst(Keys(writes[k], Names(dims)), j)
    && forall l: nat | k < l < |writes| :: Keys(writes[k], Names(dims))[j] !in Keys(writes[l], Names(dims))
  }

  lemma CoordinatesAreKeys(dims: seq<Dimension>, a: Fields, i: nat, b: Fields, j: nat)
    requires HasDimensions(dims, a) && HasDimensions(dims, b) && Aligned(a) && Aligned(b)
    requires i < NumRows(a) && j < NumRows(b)
    ensures SameCoordinates(dims, a, i, b, j) <==> Keys(a, Names(dims))[i] == Keys(b, Names(dims))[j]
  {
    var x, y := KeyAt(a, Names(dims), i), KeyAt(b, Names(dims), j);
    if SameCoordinates(dims, a, i, b, j) {
      forall e | 0 <= e < |dims| ensures x[e] == y[e] { assert dims[e] in dims; }
    } else {
      var d :| d in dims && a[d.name].cells[i] != b[d.name].cells[j];
      var e :| 0 <= e < |dims| && dims[e] == d;
      assert x[e] != y[e];
    }
  }

  lemma LatestToKey(kinds: Schema, dims: seq<Dimension>, writes: seq<Fields>, k: nat, j: nat)
    requires WritesOf(kinds, dims, writes) && Latest(kinds, dims, writes, k, j)
    ensures LatestKey(kinds, dims, writes, k, j)
  {
    var keys := Names(dims);
    forall m: nat | m < j ensures Keys(writes[k], keys)[m] != Keys(writes[k], keys)[j] {
      CoordinatesAreKeys(dims, writes[k], m, writes[k], j);
    }
    forall l: nat, m: nat | k < l < |writes| && m < NumRows(writes[l])
      ensures Keys(writes[l], keys)[m] != Keys(writes[k], keys)[j]
    {
      CoordinatesAreKeys(dims, writes[l], m, writes[k], j);
    }
  }

  lemma KeyToLatest(kinds: Schema, dims: seq<Dimension>, writes: seq<Fields>, k: nat, j: nat)
    requires WritesOf(kinds, dims, writes) && LatestKey(kinds, dims, writes, k, j)
    ensures Latest(kinds, dims, writes, k, j)
  {
    var keys := Names(dims);
    forall m: nat | m < j ensures !SameCoordinates(dims, writes[k], m, writes[k], j) {
      CoordinatesAreKeys(dims, writes[k], m, writes[k], j);
    }
    forall l: nat, m: nat | k < l < |writes| && m < NumRows(writes[l])
      ensures !SameCoordinates(dims, writes[l], m, writes[k], j)
    {
      CoordinatesAreKeys(dims, writes[l], m, writes[k], j);
      assert Keys(writes[l], keys)[m] in Keys(writes[l], keys);
    }
  }

  /** An override holds, for each key, the row of the latest write that has it. */
  lemma {:induction false} OverridesLatest(kinds: Schema, dims: seq<Dimension>, writes: seq<Fields>, k: nat, j: nat)
    requires WritesOf(kinds, dims, writes) && LatestKey(kinds, dims, writes, k, j)
    ensures var key := Keys(writes[k], Names(dims))[j];
            key in Overrides(kinds, dims, writes) && Overrides(kinds, dims, writes)[key] == Rows(writes[k])[j]
  {
    var last, keys := |writes| - 1, Names(dims);
    FirstMapAt(Keys(writes[last], keys), Rows(writes[last]), if k == last then j else 0);
    if k < last {
      OverridesLatest(kinds, dims, writes[..last], k, j);
    }
  }

  lemma LatestAfterOther(kinds: Schema, dims: seq<Dimension>, writes: seq<Fields>, k: nat, j: nat)
    requires WritesOf(kinds, dims, writes) && writes != []
    requires LatestKey(kinds, dims, writes[..|writes| - 1], k, j)
    requires Keys(writes[k], Names(dims))[j] !in Keys(writes[|writes| - 1], Names(dims))
    ensures LatestKey(kinds, dims, writes, k, j)
  {
    forall l: nat | k < l < |writes| ensures Keys(writes[k], Names(dims))[j] !in Keys(writes[l], Names(dims)) {
      if l < |writes| - 1 { assert writes[..|writes| - 1][l] == writes[l]; }
    }
  }

  lemma {:induction false} HasLatest(kinds: Schema, dims: seq<Dimension>, writes: seq<Fields>, key: Key)
    returns (k: nat, j: nat)
    requires WritesOf(kinds, dims, writes) && key in Overrides(kinds, dims, writes)
    ensures LatestKey(kinds, dims, writes, k, j) && Keys(writes[k], Names(dims))[j] == key
  {
    var last, keys := |writes| - 1, Names(dims);
    var ks := Keys(writes[last], keys);
    FirstMapAt(ks, Rows(writes[last]), 0);
    if i :| 0 <= i < |ks| && ks[i] == key {
      k := last;
      j := HasFirst(ks, i);
    } else {
      k, j := HasLatest(kinds, dims, writes[..last], key);
      LatestAfterOther(kinds, dims, writes, k, j);
    }
  }

  lemma RemainingIsLatest(kinds: Schema, dims: seq<Dimension>, writes: seq<Fields>, c: Fields, i: nat)
    requires WritesOf(kinds, dims, writes) && Aligned(c) && Distinct(Keys(c, Names(dims))) && i < NumRows(c)
    requires RowMap(c, Names(dims)) == Overrides(kinds, dims, writes)
    ensures IsLatestRow(kinds, dims, writes, Rows(c)[i])
  {
    var ks := Keys(c, Names(dims));
    FirstMapAt(ks, Rows(c), i);
    var k, j := HasLatest(kinds, dims, writes, ks[i]);
    OverridesLatest(kinds, dims, writes, k, j);
    KeyToLatest(kinds, dims, writes, k, j);
  }

  lemma LatestRemains(kinds: Schema, dims: seq<Dimension>, writes: seq<Fields>, c: Fields, k: nat, j: nat)
    requires WritesOf(kinds, dims, writes) && Aligned(c) && Latest(kinds, dims, writes, k, j)
    requires RowMap(c, Names(dims)) == Overrides(kinds, dims, writes)
    ensures Rows(writes[k])[j] in Rows(c)
  {
    var ks, key := Keys(c, Names(dims)), Keys(writes[k], Names(dims))[j];
    LatestToKey(kinds, dims, writes, k, j);
    OverridesLatest(kinds, dims, writes, k, j);
    FirstMapAt(ks, Rows(c), 0);
    var i :| 0 <= i < |ks| && ks[i] == key;
    var f := HasFirst(ks, i);
    FirstMapAt(ks, Rows(c), f);
  }

  /**
   * With unique coordinates, row by row: the accumulated rows are exactly the latest of those written,
   * and no two of them have the same coordinates. A single write is kept as it is, so there this asks
   * that it has no coordinates twice.
   */
  lemma LatestRowsRemain(kinds: Schema, dims: seq<Dimension>, writes: seq<Fields>)
    requires WritesOf(kinds, dims, writes) && writes != []
    requires |writes| == 1 ==> Distinct(Keys(writes[0], Names(dims)))
    ensures var c := Accumulated(kinds, dims, true, writes);
            && HasDimensions(dims, c)
            && (forall i: nat, j: nat | i < j < NumRows(c) :: !SameCoordinates(dims, c, i, c, j))
            && forall row :: row in Rows(c) <==> IsLatestRow(kinds, dims, writes, row)
  {
    var c := Accumulated(kinds, dims, true, writes);
    LastWriterWins(kinds, dims, writes);
    AccumulatedDimensions(kinds, dims, true, writes);
    forall i: nat, j: nat | i < j < NumRows(c) ensures !SameCoordinates(dims, c, i, c, j) {
      CoordinatesAreKeys(dims, c, i, c, j);
    }
    forall row | row in Rows(c) ensures IsLatestRow(kinds, dims, writes, row) {
      var i: nat :| i < NumRows(c) && Rows(c)[i] == row;
      RemainingIsLatest(kinds, dims, writes, c, i);
    }
    forall row | IsLatestRow(kinds, dims, writes, row) ensures row in Rows(c) {
      var k: nat, j: nat :| Latest(kinds, dims, writes, k, j) && Rows(writes[k])[j] == row;
      LatestRemains(kinds, dims, writes, c, k, j);
    }
  }

  // ---------- The values of a dimension ----------

  ghost predicate IsWritten(writes: seq<Fields>, name: string, x: Cell) {
    exists k :: 0 <= k < |writes| && name in writes[k] && x in writes[k][name].cells
  }

  lemma WrittenLast(writes: seq<Fields>, name: string, x: Cell)
    requires writes != [] && name in writes[|writes| - 1]
    ensures var last := |writes| - 1;
            IsWritten(writes, name, x) <==> IsWritten(writes[..last], name, x) || x in writes[last][name].cells
  {
    var before: seq<Fields> := writes[..|writes| - 1];
    if k: nat :| k < |before| && name in before[k] && x in before[k][name].cells {
      assert writes[k] == before[k];
    }
    if k: nat :| k < |writes| && name in writes[k] && x in writes[k][name].cells {
      if k < |before| { assert writes[k] == before[k]; }
    }
  }

  lemma DimensionOf(kinds: Schema, dims: seq<Dimension>, c: Fields, w: Fields, d: Dimension)
    requires WriteOf(kinds, dims, w) && Kinds(c) == kinds && d in dims
    ensures d.name in w && d.name in c && c[d.name].single == w[d.name].single
  {
    SameNames(c, w);
    assert Kinds(c)[d.name] == Kinds(w)[d.name];
  }

  /** The values of a dimension that are accumulated are those that were written. */
  lemma {:induction false} AccumulatedValues(kinds: Schema, dims: seq<Dimension>, unique: bool,
                                            writes: seq<Fields>, d: Dimension, x: Cell)
    requires WritesOf(kinds, dims, writes) && writes != [] && d in dims
    ensures d.name in Accumulated(kinds, dims, unique, writes)
    ensures x in Accumulated(kinds, dims, unique, writes)[d.name].cells <==> IsWritten(writes, d.name, x)
  {
    var last := |writes| - 1;
    WrittenLast(writes, d.name, x);
    if last == 0 {
      assert writes[..0] == [];
    } else {
      var before, c, w := AccumulatedStep(kinds, dims, unique, writes);
      AccumulatedValues(kinds, dims, unique, before, d, x);
      ValuesAfter(kinds, dims, unique, c, w, d, x);
    }
  }

  lemma ValuesAfter(kinds: Schema, dims: seq<Dimension>, unique: bool, c: Fields, w: Fields, d: Dimension, x: Cell)
    requires WriteOf(kinds, dims, w) && Aligned(c) && Kinds(c) == kinds && d in dims && d.name in c
    ensures var a := AccumulateFields(DedupKeys(unique, dims), Some(c), w);
            d.name in a && (x in a[d.name].cells <==> x in w[d.name].cells || x in c[d.name].cells)
  {
    ValuesAccumulate(unique, dims, c, w, d);
    var a := AccumulateFields(DedupKeys(unique, dims), Some(c), w);
    assert x in a[d.name].cells <==> x in Elements(w[d.name].cells) + Elements(c[d.name].cells);
  }

  lemma AccumulatedDimensions(kinds: Schema, dims: seq<Dimension>, unique: bool, writes: seq<Fields>)
    requires WritesOf(kinds, dims, writes) && writes != []
    ensures HasDimensions(dims, Accumulated(kinds, dims, unique, writes))
  {
    var c := Accumulated(kinds, dims, unique, writes);
    forall d | d in dims ensures d.name in c && FitsDimension(d, c[d.name]) {
      DimensionOf(kinds, dims, c, writes[0], d);
      forall i | 0 <= i < |c[d.name].cells| ensures FitsCell(d, c[d.name].single, c[d.name].cells[i]) {
        var x := c[d.name].cells[i];
        AccumulatedValues(kinds, dims, unique, writes, d, x);
        var k :| 0 <= k < |writes| && d.name in writes[k] && x in writes[k][d.name].cells;
        DimensionOf(kinds, dims, c, writes[k], d);
      }
    }
  }

  /** A cell that fits the dimension. */
  predicate FitsCell(d: Dimension, single: bool, x: Cell) {
    && (single ==> |x| == 1)
    && (!single && d.cellValNum.Fixed? ==> 2 <= d.cellValNum.n && |x| == d.cellValNum.n)
  }

  // ---------- The domain ----------

  /** The range of one dimension of the writes: around every coordinate, with both ends written. */
  ghost predicate Bounds(kinds: Schema, dims: seq<Dimension>, writes: seq<Fields>, d: Dimension, r: Range)
    requires WritesOf(kinds, dims, writes) && d in dims
  {
    && (forall x | IsWritten(writes, d.name, x) :: Holds(r, x))
    && match r
       case Single(_, a, b) => IsWritten(writes, d.name, [a]) && IsWritten(writes, d.name, [b])
       case Multi(_, a, b) => IsWritten(writes, d.name, a) && IsWritten(writes, d.name, b)
       case Var(_, a, b) => IsWritten(writes, d.name, a) && IsWritten(writes, d.name, b)
  }

  lemma BoxBounds(kinds: Schema, dims: seq<Dimension>, unique: bool, writes: seq<Fields>, d: Dimension, r: Range)
    requires WritesOf(kinds, dims, writes) && writes != [] && d in dims
    requires d.name in Accumulated(kinds, dims, unique, writes)
    requires IsBoxOf(d, Accumulated(kinds, dims, unique, writes)[d.name], r)
    ensures Bounds(kinds, dims, writes, d, r)
  {
    var data := Accumulated(kinds, dims, unique, writes)[d.name];
    forall x ensures x in data.cells <==> IsWritten(writes, d.name, x) {
      AccumulatedValues(kinds, dims, unique, writes, d, x);
    }
  }

  /**
   * Over the data: uniting the domains of non-empty writes gives one range for each dimension, in order.
   * It is the box of the accumulated column of that name, and the tightest around what was written.
   */
  lemma DomainBoundsWrites(kinds: Schema, dims: seq<Dimension>, unique: bool, writes: seq<Fields>)
    requires WritesOf(kinds, dims, writes) && writes != [] && NonEmpty(writes)
    ensures HasDimensions(dims, Accumulated(kinds, dims, unique, writes))
    ensures match DomainOf(kinds, dims, writes)
            case Value(Some(box)) =>
              && IsBox(dims, Accumulated(kinds, dims, unique, writes), box)
              && forall i | 0 <= i < |dims| :: Bounds(kinds, dims, writes, dims[i], box[i])
            case _ => false
  {
    var c := Accumulated(kinds, dims, unique, writes);
    DomainIsBoundingBox(kinds, dims, unique, writes);
    DomainIsBox(dims, c);
    forall i | 0 <= i < |dims| ensures c[dims[i].name].cells != [] { assert dims[i] in dims; }
    var box := Domain(dims, c).value;
    forall i | 0 <= i < |dims| ensures Bounds(kinds, dims, writes, dims[i], box[i]) {
      BoxBounds(kinds, dims, unique, writes, dims[i], box[i]);
    }
  }
}
