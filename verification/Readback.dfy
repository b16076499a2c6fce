/** The bookkeeping of `do_write_readback`, and the callback that puts read batches together. */
module Readback {
  import opened Prelude
  import opened Bits
  import opened Columns
  import opened CellsModel
  import opened CellsTheorems
  import opened NumCells
  import opened TypedRanges
  import opened SparseWrites
  import opened Accumulator
  import opened WriteSequences

  /** The writes that are not skipped for having no cells. */
  ghost function Written(kinds: Schema, dims: seq<Dimension>, writes: seq<Fields>): (r: seq<Fields>)
    requires WritesOf(kinds, dims, writes)
    ensures WritesOf(kinds, dims, r) && NonEmpty(r)
  {
    if writes == [] then [] else
      var last := |writes| - 1;
      Written(kinds, dims, writes[..last]) + if NumRows(writes[last]) == 0 then [] else [writes[last]]
  }

  lemma EmptyWrite(w: Fields, keys: seq<string>)
    requires Aligned(w) && NumRows(w) == 0
    ensures Rows(w) == [] && RowMap(w, keys) == map[]
  {
    assert Keys(w, keys) == [];
  }

  /** Leaving out empty writes loses no rows. */
  lemma {:induction false} WrittenKeepsRows(kinds: Schema, dims: seq<Dimension>, writes: seq<Fields>)
    requires WritesOf(kinds, dims, writes)
    ensures NewestFirst(Written(kinds, dims, writes)) == NewestFirst(writes)
  {
    if writes != [] {
      var last := |writes| - 1;
      var before := Written(kinds, dims, writes[..last]);
      WrittenKeepsRows(kinds, dims, writes[..last]);
      if NumRows(writes[last]) == 0 {
        EmptyWrite(writes[last], []);
        assert before + [] == before;
      } else {
        assert (before + [writes[last]])[..|before|] == before;
      }
    }
  }

  lemma WrittenNext(kinds: Schema, dims: seq<Dimension>, writes: seq<Fields>, i: nat)
    requires WritesOf(kinds, dims, writes) && i < |writes|
    ensures WritesOf(kinds, dims, writes[..i]) && WritesOf(kinds, dims, writes[..i + 1])
    ensures Written(kinds, dims, writes[..i + 1])
            == Written(kinds, dims, writes[..i]) + if NumRows(writes[i]) == 0 then [] else [writes[i]]
  {
    assert writes[..i + 1][..i] == writes[..i];
  }

  /** What the array is expected to hold, and its expected non-empty domain. */
  ghost predicate Expected(kinds: Schema, dims: seq<Dimension>, unique: bool, done: seq<Fields>,
                           cells: Option<Fields>, domain: Option<seq<Range>>)
    requires WritesOf(kinds, dims, done)
  {
    if done == [] then cells == None && domain == None
    else
      && cells == Some(Accumulated(kinds, dims, unique, done))
      && WriteOf(kinds, dims, cells.value) && 0 < NumRows(cells.value)
      && domain == Domain(dims, cells.value)
  }

  lemma ExpectedNext(kinds: Schema, dims: seq<Dimension>, unique: bool, done: seq<Fields>,
                     cells: Option<Fields>, domain: Option<seq<Range>>, w: Fields)
    requires WritesOf(kinds, dims, done) && WriteOf(kinds, dims, w) && 0 < NumRows(w)
    requires Expected(kinds, dims, unique, done, cells, domain)
    ensures WritesOf(kinds, dims, done + [w])
    ensures var next := AccumulateFields(DedupKeys(unique, dims), cells, w);
            && Domain(dims, w).Some?
            && (domain.Some? ==> DomainUnion(domain.value, Domain(dims, w).value).Value?)
            && Expected(kinds, dims, unique, done + [w], Some(next), UniteDomains(dims, domain, w))
  {
    AccumulatedNext(kinds, dims, unique, done, w);
    if done != [] { OneDomain(kinds, dims, unique, cells.value, w); }
  }

  /** One turn of the loop: skip an empty write, or unite its domain and accumulate its cells. */
  method ReplayOne(ghost kinds: Schema, dims: seq<Dimension>, unique: bool, ghost done: seq<Fields>,
                   accumulated: SparseCellsAccumulator, before: Option<seq<Range>>, w: Fields)
    returns (domain: Option<seq<Range>>)
    requires WritesOf(kinds, dims, done) && WriteOf(kinds, dims, w)
    requires accumulated.Valid() && accumulated.dedupKeys == DedupKeys(unique, dims)
    requires Expected(kinds, dims, unique, done, accumulated.Contents(), before)
    modifies accumulated
    ensures accumulated.Valid()
    ensures accumulated.cells == old(accumulated.cells) || fresh(accumulated.cells)
    ensures NumRows(w) == 0 ==> accumulated.cells == old(accumulated.cells)
    ensures var now := done + if NumRows(w) == 0 then [] else [w];
            WritesOf(kinds, dims, now) && Expected(kinds, dims, unique, now, accumulated.Contents(), domain)
  {
    var write := new Cells(w);
    var n := write.Len();
    if n == 0 {
      assert done + [] == done;
      domain := before;
    } else {
      ghost var contents := accumulated.Contents();
      ExpectedNext(kinds, dims, unique, done, contents, before, w);
      ExpectedFields(kinds, dims, unique, done, contents, before, w);
      domain := UniteDomains(dims, before, w);
      accumulated.Accumulate(write);
    }
  }

  lemma ExpectedFields(kinds: Schema, dims: seq<Dimension>, unique: bool, done: seq<Fields>,
                       cells: Option<Fields>, domain: Option<seq<Range>>, w: Fields)
    requires WritesOf(kinds, dims, done) && WriteOf(kinds, dims, w)
    requires Expected(kinds, dims, unique, done, cells, domain)
    ensures unique ==> KeysPresent(w, Names(dims))
    ensures cells.Some? ==> Kinds(cells.value) == Kinds(w)
  {
  }

  function UniteDomains(dims: seq<Dimension>, before: Option<seq<Range>>, w: Fields): Option<seq<Range>>
    requires HasDimensions(dims, w) && Domain(dims, w).Some?
    requires before.Some? ==> DomainUnion(before.value, Domain(dims, w).value).Value?
  {
    if before.None? then Domain(dims, w) else Some(DomainUnion(before.value, Domain(dims, w).value).value)
  }

  /**
   * The loop over the writes, without the array: skips empty writes, unites the domains and
   * accumulates the cells. Neither step panics, and the domain is that of the cells.
   */
  method ReplayWrites(ghost kinds: Schema, dims: seq<Dimension>, unique: bool, writes: seq<Fields>)
    returns (cells: Option<Fields>, domain: Option<seq<Range>>)
    requires WritesOf(kinds, dims, writes)
    ensures Expected(kinds, dims, unique, Written(kinds, dims, writes), cells, domain)
    ensures cells.Some? <==> domain.Some?
    ensures cells.Some? ==> HasDimensions(dims, cells.value) && IsBox(dims, cells.value, domain.value)
  {
    var accumulated := new SparseCellsAccumulator(DedupKeys(unique, dims));
    domain := None;
    for i := 0 to |writes|
      invariant fresh(accumulated)
      invariant accumulated.Valid() && accumulated.dedupKeys == DedupKeys(unique, dims)
      invariant WritesOf(kinds, dims, writes[..i])
      invariant Expected(kinds, dims, unique, Written(kinds, dims, writes[..i]), accumulated.Contents(), domain)
    {
      WrittenNext(kinds, dims, writes, i);
      domain := ReplayOne(kinds, dims, unique, Written(kinds, dims, writes[..i]), accumulated, domain, writes[i]);
    }
    assert writes[..|writes|] == writes;
    cells := if accumulated.cells == null then None else Some(accumulated.cells.fields);
    if cells.Some? {
      forall d | d in dims ensures cells.value[d.name].cells != [] {}
      DomainIsBox(dims, cells.value);
    }
  }

  // ---------- CellsConstructor ----------

  class CellsConstructor {
    var cells: Cells?

    ghost predicate Valid() reads this, cells { cells != null ==> cells.Valid() }

    ghost function Contents(): seq<Row>
      requires Valid()
      reads this, cells
    {
      if cells == null then [] else Rows(cells.fields)
    }

    constructor ()
      ensures Valid() && cells == null && Contents() == []
    {
      cells := null;
    }

    method MapIntermediate(batch: Fields)
      requires Valid() && Aligned(batch)
      requires cells != null ==> Kinds(cells.fields) == Kinds(batch)
      modifies this, cells
      ensures Valid() && cells != null && (cells == old(cells) || fresh(cells))
      ensures Kinds(cells.fields) == Kinds(batch)
      ensures Contents() == old(Contents()) + Rows(batch)
    {
      if cells != null {
        cells.Extend(batch);
      } else {
        cells := new Cells(batch);
      }
    }
  }

  /**
   * The checks of the readback loop: reading the written rows back in batches, of any sizes and in
   * any order, and sorting what was read by keys that cover all fields gives the sorted write
   * exactly when the rows read are the rows written, each as often.
   */
  method CheckReadback(written: Fields, batches: seq<Fields>, sortKeys: seq<string>) returns (same: bool)
    requires Aligned(written) && written != map[] && batches != []
    requires forall f | f in written :: f in sortKeys
    requires KeysPresent(written, sortKeys)
    requires forall b | b in batches :: Aligned(b) && Kinds(b) == Kinds(written)
    ensures same <==> multiset(Rows(written)) == multiset(RowsOf(batches))
  {
    var reader := new CellsConstructor();
    for i := 0 to |batches|
      invariant fresh(reader) && (reader.cells != null ==> fresh(reader.cells))
      invariant reader.Valid() && (reader.cells != null <==> i > 0)
      invariant reader.cells != null ==> Kinds(reader.cells.fields) == Kinds(written)
      invariant reader.Contents() == RowsOf(batches[..i])
    {
      assert batches[..i + 1][..i] == batches[..i];
      reader.MapIntermediate(batches[i]);
    }
    assert batches[..|batches|] == batches;
    var read := reader.cells;
    SameNames(read.fields, written);
    var expected := new Cells(written);
    SortedIsCanonical(written, read.fields, sortKeys);
    assert read != expected;
    expected.Sort(sortKeys);
    read.Sort(sortKeys);
    same := expected.fields == read.fields;
  }

  ghost function RowsOf(batches: seq<Fields>): seq<Row>
    requires forall b | b in batches :: Aligned(b)
  {
    if batches == [] then [] else
      var last := |batches| - 1;
      RowsOf(batches[..last]) + Rows(batches[last])
  }
}
