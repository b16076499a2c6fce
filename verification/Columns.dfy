/** Columnar cells as values: named fields of equal length, and the rows they make up. */
module Columns {
  import opened Prelude
  import opened Bits

  datatype FieldData = FieldData(physical: Physical, single: bool, cells: seq<Cell>)

  type Fields = map<string, FieldData>
  type Row = map<string, Cell>
  type Key = seq<Cell>

  /** The fields all have the same number of cells. */
  ghost predicate Aligned(c: Fields) {
    forall f, g | f in c && g in c :: |c[f].cells| == |c[g].cells|
  }

  ghost function NumRows(c: Fields): (n: nat)
    requires Aligned(c)
    ensures forall f | f in c :: |c[f].cells| == n
  {
    if c == map[] then 0 else
      var f :| f in c;
      |c[f].cells|
  }

  ghost function RowAt(c: Fields, i: nat): Row
    requires Aligned(c) && i < NumRows(c)
  {
    map f | f in c :: c[f].cells[i]
  }

  ghost function Rows(c: Fields): (r: seq<Row>)
    requires Aligned(c)
    ensures |r| == NumRows(c)
  {
    seq(NumRows(c), i requires 0 <= i < NumRows(c) => RowAt(c, i))
  }

  ghost function Kinds(c: Fields): map<string, (Physical, bool)> {
    map f | f in c :: (c[f].physical, c[f].single)
  }

  /** Fields with the same types and the same rows are the same. */
  lemma FieldsFromRows(a: Fields, b: Fields)
    requires Aligned(a) && Aligned(b)
    requires Kinds(a) == Kinds(b) && Rows(a) == Rows(b)
    ensures a == b
  {
    assert a.Keys == Kinds(a).Keys == Kinds(b).Keys == b.Keys;
    forall f | f in a
      ensures a[f] == b[f]
    {
      assert Kinds(a)[f] == Kinds(b)[f];
      forall i | 0 <= i < NumRows(a)
        ensures a[f].cells[i] == b[f].cells[i]
      {
        assert Rows(a)[i][f] == Rows(b)[i][f];
      }
      assert a[f].cells == b[f].cells;
    }
  }

  // ---------- Key tuples ----------

  predicate KeysPresent(c: Fields, keys: seq<string>) {
    forall k | k in keys :: k in c
  }

  /** The cell of field `f` in row `i`. The default is never read: callers have the field and the row. */
  function CellAt(c: Fields, f: string, i: nat): Cell {
    if f in c && i < |c[f].cells| then c[f].cells[i] else []
  }

  function KeyAt(c: Fields, keys: seq<string>, i: nat): Key {
    seq(|keys|, j requires 0 <= j < |keys| => CellAt(c, keys[j], i))
  }

  ghost function KeyOf(keys: seq<string>, row: Row): Key {
    seq(|keys|, j requires 0 <= j < |keys| => if keys[j] in row then row[keys[j]] else [])
  }

  /** The key tuple of each row. */
  ghost function Keys(c: Fields, keys: seq<string>): (r: seq<Key>)
    requires Aligned(c)
    ensures |r| == NumRows(c)
    ensures forall i | 0 <= i < |r| :: r[i] == KeyAt(c, keys, i)
  {
    seq(NumRows(c), i requires 0 <= i < NumRows(c) => KeyAt(c, keys, i))
  }

  ghost function KeysOf(keys: seq<string>, rows: seq<Row>): (r: seq<Key>)
    ensures |r| == |rows|
  {
    seq(|rows|, i requires 0 <= i < |rows| => KeyOf(keys, rows[i]))
  }

  /** The key tuples are a function of the rows. */
  lemma KeysAreRowKeys(c: Fields, keys: seq<string>)
    requires Aligned(c)
    ensures Keys(c, keys) == KeysOf(keys, Rows(c))
  {
    forall i | 0 <= i < NumRows(c)
      ensures KeyAt(c, keys, i) == KeyOf(keys, RowAt(c, i))
    {
    }
  }

  /** The comparator of `index_comparator`: the first key on which the rows differ decides. */
  function IndexCompare(c: Fields, keys: seq<string>, l: nat, r: nat): Ordering {
    if keys == [] then Equal
    else match CompareCell(CellAt(c, keys[0], l), CellAt(c, keys[0], r))
      case Less => Less
      case Greater => Greater
      case Equal => IndexCompare(c, keys[1..], l, r)
  }

  lemma {:induction false} IndexCompareIsKeyOrder(c: Fields, keys: seq<string>, l: nat, r: nat)
    ensures IndexCompare(c, keys, l, r) == CompareKey(KeyAt(c, keys, l), KeyAt(c, keys, r))
  {
    if keys != [] {
      IndexCompareIsKeyOrder(c, keys[1..], l, r);
      assert KeyAt(c, keys, l)[1..] == KeyAt(c, keys[1..], l);
      assert KeyAt(c, keys, r)[1..] == KeyAt(c, keys[1..], r);
    }
  }

  /** The first key on which two rows differ decides their order, by the cells of that field. */
  lemma FirstUnequalKeyDecides(c: Fields, keys: seq<string>, l: nat, r: nat, n: nat)
    requires Aligned(c) && KeysPresent(c, keys) && l < NumRows(c) && r < NumRows(c) && n < |keys|
    requires forall k | k in keys[..n] :: c[k].cells[l] == c[k].cells[r]
    requires keys[n] in c
    ensures var order := CompareCell(c[keys[n]].cells[l], c[keys[n]].cells[r]);
            order != Equal ==> IndexCompare(c, keys, l, r) == order
    decreases n
  {
    CompareTotal();
    if n > 0 {
      assert keys[0] in keys[..n];
      var x := c[keys[0]].cells[l];
      assert CompareCell(x, x) == Equal;
      assert forall k | k in keys[1..][..n - 1] :: k in keys[..n];
      FirstUnequalKeyDecides(c, keys[1..], l, r, n - 1);
    }
  }

  predicate DistinctAt(c: Fields, keys: seq<string>, i: nat, j: nat) {
    exists k | k in keys :: CellAt(c, k, i) != CellAt(c, k, j)
  }

  lemma DistinctAtIsKeyDistinct(c: Fields, keys: seq<string>, i: nat, j: nat)
    ensures DistinctAt(c, keys, i, j) <==> KeyAt(c, keys, i) != KeyAt(c, keys, j)
  {
    var a, b := KeyAt(c, keys, i), KeyAt(c, keys, j);
    if DistinctAt(c, keys, i, j) {
      var k :| k in keys && CellAt(c, k, i) != CellAt(c, k, j);
      var p :| 0 <= p < |keys| && keys[p] == k;
      assert a[p] != b[p];
    } else {
      forall p | 0 <= p < |keys| ensures a[p] == b[p] { assert keys[p] in keys; }
    }
  }

  // ---------- Operations on all fields at once ----------

  function FilterFields(c: Fields, mask: set<nat>): Fields {
    map f | f in c :: c[f].(cells := Filter(c[f].cells, mask))
  }

  ghost function GatherFields(c: Fields, idx: seq<nat>): Fields
    requires Aligned(c) && Below(idx, NumRows(c))
  {
    map f | f in c :: c[f].(cells := Gather(c[f].cells, idx))
  }

  function ExtendFields(a: Fields, b: Fields): Fields
    requires a.Keys == b.Keys
  {
    map f | f in a :: a[f].(cells := a[f].cells + b[f].cells)
  }

  function TruncateFields(c: Fields, len: nat): Fields {
    map f | f in c :: c[f].(cells := c[f].cells[..Min(len, |c[f].cells|)])
  }

  lemma RowsAre(c: Fields, rows: seq<Row>)
    requires Aligned(c) && NumRows(c) == |rows|
    requires forall i | 0 <= i < |rows| :: rows[i].Keys == c.Keys
    requires forall i, f | 0 <= i < |rows| && f in c :: rows[i][f] == c[f].cells[i]
    ensures Rows(c) == rows
  {
    forall i | 0 <= i < |rows|
      ensures RowAt(c, i) == rows[i]
    {
    }
  }

  /** Replacing each column by one of `n` cells of the same type. */
  lemma ShapeIs(c: Fields, r: Fields, n: nat)
    requires r.Keys == c.Keys && (c == map[] ==> n == 0)
    requires forall f | f in c :: r[f].physical == c[f].physical && r[f].single == c[f].single && |r[f].cells| == n
    ensures Aligned(r) && NumRows(r) == n && Kinds(r) == Kinds(c)
  {
  }

  lemma GatherShape(c: Fields, idx: seq<nat>)
    requires Aligned(c) && Below(idx, NumRows(c))
    ensures var r := GatherFields(c, idx);
            Aligned(r) && NumRows(r) == |idx| && Kinds(r) == Kinds(c)
  {
    assert c == map[] ==> |idx| == 0 by { assert |idx| > 0 ==> idx[0] < NumRows(c); }
    ShapeIs(c, GatherFields(c, idx), |idx|);
  }

  lemma GatherRows(c: Fields, idx: seq<nat>)
    requires Aligned(c) && Below(idx, NumRows(c))
    ensures Aligned(GatherFields(c, idx)) && Kinds(GatherFields(c, idx)) == Kinds(c)
    ensures Rows(GatherFields(c, idx)) == Gather(Rows(c), idx)
  {
    GatherShape(c, idx);
    RowsAre(GatherFields(c, idx), Gather(Rows(c), idx));
  }

  lemma FilterRows(c: Fields, mask: set<nat>)
    requires Aligned(c)
    ensures Aligned(FilterFields(c, mask)) && Kinds(FilterFields(c, mask)) == Kinds(c)
    ensures Rows(FilterFields(c, mask)) == Filter(Rows(c), mask)
  {
    var idx := Kept(NumRows(c), mask);
    FilterIsGather(Rows(c), mask);
    forall f | f in c
      ensures Filter(c[f].cells, mask) == Gather(c[f].cells, idx)
    {
      FilterIsGather(c[f].cells, mask);
    }
    assert FilterFields(c, mask) == GatherFields(c, idx);
    GatherRows(c, idx);
  }

  lemma SameNames(a: Fields, b: Fields)
    requires Kinds(a) == Kinds(b)
    ensures a.Keys == b.Keys
  {
    assert a.Keys == Kinds(a).Keys && b.Keys == Kinds(b).Keys;
  }

  lemma ExtendValues(a: Fields, b: Fields)
    requires Aligned(a) && Aligned(b) && a.Keys == b.Keys
    ensures var r, rows := ExtendFields(a, b), Rows(a) + Rows(b);
            && (forall i | 0 <= i < |rows| :: rows[i].Keys == a.Keys)
            && forall i, f | 0 <= i < |rows| && f in a :: rows[i][f] == r[f].cells[i]
  {
  }

  lemma ExtendShape(a: Fields, b: Fields)
    requires Aligned(a) && Aligned(b) && Kinds(a) == Kinds(b)
    ensures a.Keys == b.Keys
    ensures var r := ExtendFields(a, b);
            Aligned(r) && NumRows(r) == NumRows(a) + NumRows(b) && Kinds(r) == Kinds(a)
  {
    SameNames(a, b);
    ShapeIs(a, ExtendFields(a, b), NumRows(a) + NumRows(b));
  }

  lemma ExtendRows(a: Fields, b: Fields)
    requires Aligned(a) && Aligned(b) && Kinds(a) == Kinds(b)
    ensures a.Keys == b.Keys
    ensures Aligned(ExtendFields(a, b)) && Kinds(ExtendFields(a, b)) == Kinds(a)
    ensures Rows(ExtendFields(a, b)) == Rows(a) + Rows(b)
  {
    ExtendShape(a, b);
    ExtendValues(a, b);
    RowsAre(ExtendFields(a, b), Rows(a) + Rows(b));
  }

  lemma TruncateRows(c: Fields, len: nat)
    requires Aligned(c)
    ensures Aligned(TruncateFields(c, len)) && Kinds(TruncateFields(c, len)) == Kinds(c)
    ensures Rows(TruncateFields(c, len)) == Rows(c)[..Min(len, NumRows(c))]
  {
    ShapeIs(c, TruncateFields(c, len), Min(len, NumRows(c)));
    RowsAre(TruncateFields(c, len), Rows(c)[..Min(len, NumRows(c))]);
  }

  // ---------- copy_from ----------

  function CopyField(mine: FieldData, theirs: FieldData): FieldData {
    if |mine.cells| <= |theirs.cells| then theirs
    else mine.(cells := theirs.cells + mine.cells[|theirs.cells|..])
  }

  function CopyFields(a: Fields, b: Fields): Fields {
    map f | f in a.Keys + b.Keys ::
      if f !in b then a[f] else if f !in a then b[f] else CopyField(a[f], b[f])
  }

  /** Data at common indices is overwritten; the longer of the two columns decides the length. */
  lemma CopyOverwrites(a: Fields, b: Fields, f: string)
    requires Aligned(a) && Aligned(b) && (f in a || f in b)
    requires f in a && f in b ==> Kinds(a)[f] == Kinds(b)[f]
    ensures f in CopyFields(a, b)
    ensures var r := CopyFields(a, b)[f];
            var mine, theirs := if f in a then a[f].cells else [], if f in b then b[f].cells else [];
            && Kinds(CopyFields(a, b))[f] == (if f in a then Kinds(a)[f] else Kinds(b)[f])
            && |r.cells| == Max(|mine|, |theirs|)
            && forall i | 0 <= i < |r.cells| :: r.cells[i] == if i < |theirs| then theirs[i] else mine[i]
  {
  }

  /** Overwriting keeps the fields equal in length exactly when the longer cells have every field of the shorter. */
  lemma CopyStaysAlignedIff(a: Fields, b: Fields)
    requires Aligned(a) && Aligned(b)
    ensures Aligned(CopyFields(a, b)) <==>
            (NumRows(a) < NumRows(b) ==> a.Keys <= b.Keys) && (NumRows(b) < NumRows(a) ==> b.Keys <= a.Keys)
  {
    var r := CopyFields(a, b);
    forall f | f in r
      ensures |r[f].cells| == if f !in b then NumRows(a)
                              else if f !in a then NumRows(b)
                              else Max(NumRows(a), NumRows(b))
    {
    }
    if NumRows(a) < NumRows(b) && !(a.Keys <= b.Keys) {
      var f, g :| f in a && f !in b && g in b;
      assert f in r && g in r;
    }
    if NumRows(b) < NumRows(a) && !(b.Keys <= a.Keys) {
      var f, g :| f in b && f !in a && g in a;
      assert f in r && g in r;
    }
  }
}
