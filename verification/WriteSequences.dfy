/** Series of sparse writes: what the accumulated cells and the accumulated domain come to. */
module WriteSequences {
  import opened Prelude
  import opened Bits
  import opened Keyed
  import opened Columns
  import opened CellsModel
  import opened CellsTheorems
  import opened NumCells
  import opened TypedRanges
  import opened SparseWrites
  import opened Accumulator

  type Schema = map<string, (Physical, bool)>

  /** A write of one schema: all of its fields, of its types, and its dimensions among them. */
  ghost predicate WriteOf(kinds: Schema, dims: seq<Dimension>, w: Fields) {
    && Aligned(w) && Kinds(w) == kinds && w != map[]
    && HasDimensions(dims, w)
  }

  ghost predicate WritesOf(kinds: Schema, dims: seq<Dimension>, writes: seq<Fields>) {
    forall i | 0 <= i < |writes| :: WriteOf(kinds, dims, writes[i])
  }

  /** The contents after a series of writes. */
  ghost function Accumulated(kinds: Schema, dims: seq<Dimension>, unique: bool, writes: seq<Fields>): (c: Fields)
    requires WritesOf(kinds, dims, writes) && writes != []
    ensures Aligned(c) && Kinds(c) == kinds && c != map[]
  {
    var last := |writes| - 1;
    if last == 0 then writes[0] else
      AccumulateKeepsKinds(unique, dims, Accumulated(kinds, dims, unique, writes[..last]), writes[last]);
      AccumulateFields(DedupKeys(unique, dims), Some(Accumulated(kinds, dims, unique, writes[..last])), writes[last])
  }

  /** `dedup_keys`: the dimensions, unless the schema allows duplicates. */
  function DedupKeys(unique: bool, dims: seq<Dimension>): Option<seq<string>> {
    if unique then Some(Names(dims)) else None
  }

  lemma AccumulatedStep(kinds: Schema, dims: seq<Dimension>, unique: bool, writes: seq<Fields>)
    returns (before: seq<Fields>, c: Fields, w: Fields)
    requires WritesOf(kinds, dims, writes) && 2 <= |writes|
    ensures before == writes[..|writes| - 1] && w == writes[|writes| - 1]
    ensures WritesOf(kinds, dims, before) && before != [] && WriteOf(kinds, dims, w)
    ensures c == Accumulated(kinds, dims, unique, before)
    ensures Accumulated(kinds, dims, unique, writes) == AccumulateFields(DedupKeys(unique, dims), Some(c), w)
  {
    before, w := writes[..|writes| - 1], writes[|writes| - 1];
    c := Accumulated(kinds, dims, unique, before);
  }

  lemma AccumulateKeepsKinds(unique: bool, dims: seq<Dimension>, c: Fields, w: Fields)
    requires Aligned(c) && Aligned(w) && Kinds(c) == Kinds(w) && w != map[]
    ensures var a := AccumulateFields(DedupKeys(unique, dims), Some(c), w);
            Aligned(a) && Kinds(a) == Kinds(w) && a != map[]
  {
    ExtendRows(w, c);
    DedupKeepsFirsts(ExtendFields(w, c), Names(dims));
    var f :| f in w;
    assert f in Kinds(w);
    assert f in AccumulateFields(DedupKeys(unique, dims), Some(c), w);
  }

  // ---------- The last writer wins ----------

  /** Each write overrides the rows of its coordinates. */
  ghost function Overrides(kinds: Schema, dims: seq<Dimension>, writes: seq<Fields>): map<Key, Row>
    requires WritesOf(kinds, dims, writes)
  {
    if writes == [] then map[] else
      var last := |writes| - 1;
      Overrides(kinds, dims, writes[..last]) + RowMap(writes[last], Names(dims))
  }

  lemma OneWrite(keys: seq<string>, c: Fields, w: Fields)
    requires Aligned(c) && Aligned(w) && Kinds(c) == Kinds(w)
    ensures var a := AccumulateFields(Some(keys), Some(c), w);
            && Aligned(a) && Distinct(Keys(a, keys))
            && RowMap(a, keys) == RowMap(c, keys) + RowMap(w, keys)
  {
    ExtendRows(w, c);
    var all := ExtendFields(w, c);
    KeysAreRowKeys(all, keys);
    KeysAreRowKeys(w, keys);
    KeysAreRowKeys(c, keys);
    assert Keys(all, keys) == Keys(w, keys) + Keys(c, keys);
    FirstMapConcat(Keys(w, keys), Rows(w), Keys(c, keys), Rows(c));
    DedupKeepsFirsts(all, keys);
    var d := DedupFields(all, keys);
    KeysAreRowKeys(d, keys);
    var mask := Firsts(Keys(all, keys));
    FilterIsGather(Rows(all), mask);
    FilterIsGather(Keys(all, keys), mask);
    assert Keys(d, keys) == Filter(Keys(all, keys), mask);
    FirstMapOfFirsts(Keys(all, keys), Rows(all));
  }

  /**
   * With unique coordinates: the accumulated cells map each coordinate to the row of the last write
   * that has it, and no coordinate occurs twice, unless the only write has one twice.
   */
  lemma {:induction false} LastWriterWins(kinds: Schema, dims: seq<Dimension>, writes: seq<Fields>)
    requires WritesOf(kinds, dims, writes) && writes != []
    ensures var c, keys := Accumulated(kinds, dims, true, writes), Names(dims);
            && RowMap(c, keys) == Overrides(kinds, dims, writes)
            && (Distinct(Keys(c, keys)) <==> |writes| >= 2 || Distinct(Keys(writes[0], keys)))
  {
    var keys := Names(dims);
    if |writes| == 1 {
      assert Overrides(kinds, dims, writes[..0]) == map[];
      assert map[] + RowMap(writes[0], keys) == RowMap(writes[0], keys);
    } else {
      var before, c, w := AccumulatedStep(kinds, dims, true, writes);
      LastWriterWins(kinds, dims, before);
      OneWrite(keys, c, w);
      assert Overrides(kinds, dims, writes) == Overrides(kinds, dims, before) + RowMap(w, keys);
    }
  }

  ghost function NewestFirst(writes: seq<Fields>): seq<Row>
    requires forall w | w in writes :: Aligned(w)
  {
    if writes == [] then [] else
      var last := |writes| - 1;
      Rows(writes[last]) + NewestFirst(writes[..last])
  }

  /** With duplicates allowed: the rows of all of the writes, the newest first. */
  lemma {:induction false} DuplicatesAreKept(kinds: Schema, dims: seq<Dimension>, writes: seq<Fields>)
    requires WritesOf(kinds, dims, writes) && writes != []
    ensures Rows(Accumulated(kinds, dims, false, writes)) == NewestFirst(writes)
  {
    if |writes| == 1 {
      assert writes[..0] == [];
      assert Rows(writes[0]) + [] == Rows(writes[0]);
    } else {
      var before, c, w := AccumulatedStep(kinds, dims, false, writes);
      DuplicatesAreKept(kinds, dims, before);
      ExtendRows(w, c);
      assert NewestFirst(writes) == Rows(w) + NewestFirst(before);
    }
  }

  // ---------- The domain ----------

  /** The values of a dimension after a write are those before and those written. */
  lemma ValuesAccumulate(unique: bool, dims: seq<Dimension>, c: Fields, w: Fields, d: Dimension)
    requires Aligned(c) && Aligned(w) && Kinds(c) == Kinds(w)
    requires d in dims && d.name in w && d.name in c
    ensures var a := AccumulateFields(DedupKeys(unique, dims), Some(c), w);
            && d.name in a
            && Elements(a[d.name].cells) == Elements(w[d.name].cells) + Elements(c[d.name].cells)
  {
    ExtendRows(w, c);
    var all := ExtendFields(w, c);
    assert Elements(all[d.name].cells) == Elements(w[d.name].cells) + Elements(c[d.name].cells);
    if unique {
      var j :| 0 <= j < |dims| && dims[j] == d;
      DedupKeepsFirsts(all, Names(dims));
      KeysGiveValues(all, Names(dims), j);
      KeysGiveValues(DedupFields(all, Names(dims)), Names(dims), j);
    }
  }

  /** The values of a key field are that component of the key tuples. */
  lemma KeysGiveValues(c: Fields, keys: seq<string>, j: nat)
    requires Aligned(c) && j < |keys| && keys[j] in c
    ensures Elements(c[keys[j]].cells) == set k | k in Elements(Keys(c, keys)) && j < |k| :: k[j]
  {
    var cells, ks := c[keys[j]].cells, Keys(c, keys);
    forall x | x in cells ensures x in set k | k in Elements(ks) && j < |k| :: k[j] {
      var i :| 0 <= i < |cells| && cells[i] == x;
      assert ks[i] in Elements(ks) && ks[i][j] == x;
    }
    forall k | k in Elements(ks) && j < |k| ensures k[j] in cells {
      var i :| 0 <= i < |ks| && ks[i] == k;
      assert k[j] == cells[i];
    }
  }

  lemma FitsBoth(d: Dimension, a: FieldData, b: FieldData, all: FieldData)
    requires FitsDimension(d, a) && FitsDimension(d, b) && all.single == a.single == b.single
    requires Elements(all.cells) == Elements(a.cells) + Elements(b.cells)
    ensures FitsDimension(d, all)
  {
    forall i | 0 <= i < |all.cells|
      ensures all.cells[i] in a.cells || all.cells[i] in b.cells
    {
      assert all.cells[i] in Elements(all.cells);
    }
  }

  lemma OneDomain(kinds: Schema, dims: seq<Dimension>, unique: bool, c: Fields, w: Fields)
    requires WriteOf(kinds, dims, w) && WriteOf(kinds, dims, c) && 0 < NumRows(w) && 0 < NumRows(c)
    ensures var a := AccumulateFields(DedupKeys(unique, dims), Some(c), w);
            && WriteOf(kinds, dims, a) && 0 < NumRows(a)
            && Domain(dims, c).Some? && Domain(dims, w).Some?
            && Domain(dims, a).Some?
            && DomainUnion(Domain(dims, c).value, Domain(dims, w).value) == Value(Domain(dims, a).value)
  {
    AccumulateKeepsKinds(unique, dims, c, w);
    var a := AccumulateFields(DedupKeys(unique, dims), Some(c), w);
    RowsAreKept(unique, dims, c, w);
    forall d | d in dims
      ensures d.name in a && FitsDimension(d, a[d.name])
      ensures Union(RangeOf(d, c[d.name]), RangeOf(d, w[d.name])) == Value(RangeOf(d, a[d.name]))
    {
      ValuesAccumulate(unique, dims, c, w, d);
      assert Kinds(c)[d.name] == Kinds(w)[d.name] == Kinds(a)[d.name];
      FitsBoth(d, c[d.name], w[d.name], a[d.name]);
      RangeOfUnion(d, c[d.name], w[d.name], a[d.name]);
    }
    DomainsUnite(dims, c, w, a);
  }

  lemma DomainsUnite(dims: seq<Dimension>, c: Fields, w: Fields, a: Fields)
    requires HasDimensions(dims, c) && HasDimensions(dims, w) && HasDimensions(dims, a)
    requires forall d | d in dims :: c[d.name].cells != [] && w[d.name].cells != [] && a[d.name].cells != []
    requires forall d | d in dims :: Union(RangeOf(d, c[d.name]), RangeOf(d, w[d.name])) == Value(RangeOf(d, a[d.name]))
    ensures Domain(dims, c).Some? && Domain(dims, w).Some? && Domain(dims, a).Some?
    ensures DomainUnion(Domain(dims, c).value, Domain(dims, w).value) == Value(Domain(dims, a).value)
  {
    var x, y, z := Domain(dims, c).value, Domain(dims, w).value, Domain(dims, a).value;
    forall i | 0 <= i < |dims|
      ensures Union(x[i], y[i]) == Value(z[i])
    {
      assert dims[i] in dims;
    }
    assert DomainUnion(x, y).value == z;
  }

  lemma RowsAreKept(unique: bool, dims: seq<Dimension>, c: Fields, w: Fields)
    requires Aligned(c) && Aligned(w) && Kinds(c) == Kinds(w) && w != map[] && 0 < NumRows(w)
    ensures var a := AccumulateFields(DedupKeys(unique, dims), Some(c), w);
            Aligned(a) && 0 < NumRows(a)
  {
    ExtendRows(w, c);
    var all := ExtendFields(w, c);
    var ks := Keys(all, Names(dims));
    DedupKeepsFirsts(all, Names(dims));
    assert |Rows(all)| == NumRows(w) + NumRows(c);
    assert ks[0] in Elements(ks);
  }

  /** The union of the domains of the writes, as it is built up write by write. */
  ghost function DomainOf(kinds: Schema, dims: seq<Dimension>, writes: seq<Fields>): Outcome<Option<seq<Range>>>
    requires WritesOf(kinds, dims, writes)
  {
    if writes == [] then Value(None) else
      var last := |writes| - 1;
      match DomainOf(kinds, dims, writes[..last])
      case Panic => Panic
      case Value(None) => Value(Domain(dims, writes[last]))
      case Value(Some(before)) =>
        match Domain(dims, writes[last])
        case None => Panic
        case Some(written) =>
          match DomainUnion(before, written)
          case Panic => Panic
          case Value(u) => Value(Some(u))
  }

  lemma DomainStep(kinds: Schema, dims: seq<Dimension>, before: seq<Fields>, w: Fields, domain: seq<Range>)
    requires WritesOf(kinds, dims, before) && WriteOf(kinds, dims, w)
    requires DomainOf(kinds, dims, before) == Value(Some(domain))
    requires Domain(dims, w).Some? && DomainUnion(domain, Domain(dims, w).value).Value?
    ensures WritesOf(kinds, dims, before + [w])
    ensures DomainOf(kinds, dims, before + [w]) == Value(Some(DomainUnion(domain, Domain(dims, w).value).value))
  {
  }

  ghost predicate NonEmpty(writes: seq<Fields>) {
    forall i | 0 <= i < |writes| :: Aligned(writes[i]) && 0 < NumRows(writes[i])
  }

  /** The domain built up from the writes is the bounding box of what is accumulated. */
  ghost predicate BoundingBox(kinds: Schema, dims: seq<Dimension>, unique: bool, writes: seq<Fields>)
    requires WritesOf(kinds, dims, writes) && writes != []
  {
    var c := Accumulated(kinds, dims, unique, writes);
    WriteOf(kinds, dims, c) && 0 < NumRows(c) && DomainOf(kinds, dims, writes) == Value(Domain(dims, c))
  }

  lemma BoundingBoxOfOne(kinds: Schema, dims: seq<Dimension>, unique: bool, writes: seq<Fields>)
    requires WritesOf(kinds, dims, writes) && |writes| == 1 && NonEmpty(writes)
    ensures BoundingBox(kinds, dims, unique, writes)
  {
  }

  lemma AccumulatedNext(kinds: Schema, dims: seq<Dimension>, unique: bool, done: seq<Fields>, w: Fields)
    requires WritesOf(kinds, dims, done) && WriteOf(kinds, dims, w)
    ensures WritesOf(kinds, dims, done + [w])
    ensures Accumulated(kinds, dims, unique, done + [w]) ==
            if done == [] then w
            else AccumulateFields(DedupKeys(unique, dims), Some(Accumulated(kinds, dims, unique, done)), w)
  {
  }

  /** One more non-empty write: its domain is united with, and its cells accumulated on, what is there. */
  lemma BoundingBoxStep(kinds: Schema, dims: seq<Dimension>, unique: bool, before: seq<Fields>, w: Fields)
    requires WritesOf(kinds, dims, before) && before != [] && WriteOf(kinds, dims, w) && 0 < NumRows(w)
    requires BoundingBox(kinds, dims, unique, before)
    ensures WritesOf(kinds, dims, before + [w]) && BoundingBox(kinds, dims, unique, before + [w])
  {
    var c := Accumulated(kinds, dims, unique, before);
    AccumulatedNext(kinds, dims, unique, before, w);
    OneDomain(kinds, dims, unique, c, w);
    DomainStep(kinds, dims, before, w, Domain(dims, c).value);
  }

  lemma PrefixOfWrites(kinds: Schema, dims: seq<Dimension>, writes: seq<Fields>, last: nat)
    requires WritesOf(kinds, dims, writes) && NonEmpty(writes) && last + 1 == |writes|
    ensures WritesOf(kinds, dims, writes[..last]) && NonEmpty(writes[..last])
    ensures WriteOf(kinds, dims, writes[last]) && 0 < NumRows(writes[last])
    ensures writes[..last] + [writes[last]] == writes
  {
  }

  /** The union of the domains of non-empty writes is the domain of the accumulated cells. */
  lemma {:induction false} DomainIsBoundingBox(kinds: Schema, dims: seq<Dimension>, unique: bool, writes: seq<Fields>)
    requires WritesOf(kinds, dims, writes) && writes != [] && NonEmpty(writes)
    ensures BoundingBox(kinds, dims, unique, writes)
  {
    var last := |writes| - 1;
    if last == 0 {
      BoundingBoxOfOne(kinds, dims, unique, writes);
    } else {
      PrefixOfWrites(kinds, dims, writes, last);
      DomainIsBoundingBox(kinds, dims, unique, writes[..last]);
      BoundingBoxStep(kinds, dims, unique, writes[..last], writes[last]);
    }
  }
}
