/** Cells with unique coordinates: how they are generated, and every value they shrink to. */
module UniqueCells {
  import opened Prelude
  import opened Bits
  import opened Columns
  import Keyed
  import opened CellsModel
  import opened CellsTheorems
  import opened RecordsSearch
  import opened RecordsTree

  // ---------- Generation ----------

  /**
   * The branch of `new_field_tree` for unique coordinates. The dimensions are generated with the
   * largest number of records and deduplicated; the attributes are then generated to match. `None`
   * is the assertion that enough distinct coordinates are left.
   */
  method NewFieldTree(dimensionData: Fields, uniqueKeys: seq<string>, minRecords: nat,
                      choose: (nat, nat) -> nat, attributes: nat -> Fields)
    returns (fields: Option<Fields>)
    requires Aligned(dimensionData) && dimensionData != map[]
    requires forall k :: k in uniqueKeys <==> k in dimensionData
    requires forall lo: nat, hi: nat | lo <= hi :: lo <= choose(lo, hi) <= hi
    requires forall n: nat, f | f in attributes(n) :: f !in dimensionData && |attributes(n)[f].cells| == n
    ensures fields.None? <==> |Elements(Keys(dimensionData, uniqueKeys))| < minRecords
    ensures fields.Some? ==>
              && Aligned(fields.value) && fields.value != map[]
              && NumRows(fields.value) == choose(minRecords, |Elements(Keys(dimensionData, uniqueKeys))|)
              && minRecords <= NumRows(fields.value) <= NumRows(dimensionData)
              && Distinct(Keys(fields.value, uniqueKeys))
              && GeneratedFields(DedupFields(dimensionData, uniqueKeys), attributes(NumRows(fields.value)),
                                 fields.value)
  {
    var generated := new Cells(dimensionData);
    assert KeysPresent(dimensionData, uniqueKeys);
    DedupKeepsFirsts(dimensionData, uniqueKeys);
    var dedupFields := generated.Dedup(uniqueKeys);
    ghost var d := dedupFields.fields;
    FieldsRemain(dimensionData, uniqueKeys);
    var distinct := dedupFields.Len();
    if distinct < minRecords { return None; }
    var nrecords := choose(minRecords, distinct);
    dedupFields.Truncate(nrecords);
    var all := dedupFields.fields + attributes(nrecords);
    WithAttributes(d, uniqueKeys, nrecords, attributes(nrecords));
    return Some(all);
  }

  /** The dimensions are the first rows of the deduplicated data, and the attributes are added as generated. */
  ghost predicate GeneratedFields(dedup: Fields, attributes: Fields, fields: Fields)
    requires Aligned(fields)
  {
    && fields.Keys == dedup.Keys + attributes.Keys
    && (forall f | f in dedup ::
          NumRows(fields) <= |dedup[f].cells|
          && fields[f] == dedup[f].(cells := dedup[f].cells[..NumRows(fields)]))
    && (forall f | f in attributes :: fields[f] == attributes[f])
  }

  lemma FieldsRemain(c: Fields, keys: seq<string>)
    requires Aligned(c) && c != map[]
    ensures DedupFields(c, keys) != map[] && Aligned(DedupFields(c, keys))
    ensures NumRows(DedupFields(c, keys)) <= NumRows(c)
  {
    var f :| f in c;
    assert f in DedupFields(c, keys);
    DedupShrinks(c, keys);
  }

  /** Cutting distinct coordinates short and adding attributes of the same length keeps them distinct. */
  lemma WithAttributes(d: Fields, keys: seq<string>, n: nat, attributes: Fields)
    requires Aligned(d) && d != map[] && n <= NumRows(d) && Distinct(Keys(d, keys))
    requires forall k | k in keys :: k in d
    requires forall f | f in attributes :: f !in d && |attributes[f].cells| == n
    ensures var all := TruncateFields(d, n) + attributes;
            Aligned(all) && all != map[] && NumRows(all) == n && Distinct(Keys(all, keys))
  {
    var all := TruncateFields(d, n) + attributes;
    var f :| f in d;
    assert f in all;
    assert forall g | g in all :: |all[g].cells| == n;
    forall i, j | 0 <= i < j < n
      ensures Keys(all, keys)[i] != Keys(all, keys)[j]
    {
      SameKey(all, d, keys, i);
      SameKey(all, d, keys, j);
      assert Keys(d, keys)[i] != Keys(d, keys)[j];
    }
  }

  lemma SameKey(all: Fields, d: Fields, keys: seq<string>, i: nat)
    requires forall k | k in keys ::
               k in all && k in d && i < |all[k].cells| && i < |d[k].cells| && all[k].cells[i] == d[k].cells[i]
    ensures KeyAt(all, keys, i) == KeyAt(d, keys, i)
  {
  }

  lemma DedupShrinks(c: Fields, keys: seq<string>)
    requires Aligned(c)
    ensures Aligned(DedupFields(c, keys)) && NumRows(DedupFields(c, keys)) <= NumRows(c)
  {
    DedupKeepsFirsts(c, keys);
    FilterIsGather(Rows(c), Keyed.Firsts(Keys(c, keys)));
    ListingSize(Kept(NumRows(c), Keyed.Firsts(Keys(c, keys))), NumRows(c));
  }

  // ---------- Shrinking ----------

  function Lengths(c: Fields): set<nat> { set f | f in c :: |c[f].cells| }

  lemma OneElement(s: set<nat>, a: nat, b: nat)
    requires |s| == 1 && a in s && b in s
    ensures a == b
  {
    if a != b { SubsetSize({a, b}, s); }
  }

  /** `Records` for a map of fields. Callers have fields of one length; the default is never read. */
  function FieldRecords(): Records<Fields> {
    Records(c => CommonLength(c), (c, mask) => FilterFields(c, mask))
  }

  function CommonLength(c: Fields): nat {
    var lengths := Lengths(c);
    if |lengths| == 1 then
      assert forall a, b | a in lengths && b in lengths :: a == b by {
        forall a, b | a in lengths && b in lengths ensures a == b { OneElement(lengths, a, b); }
      }
      var n :| n in lengths;
      n
    else 0
  }

  lemma CommonLengthIsRows(c: Fields)
    requires Aligned(c)
    ensures CommonLength(c) == NumRows(c)
  {
    if c == map[] {
      assert Lengths(c) == {};
    } else {
      var f :| f in c;
      assert Lengths(c) == {|c[f].cells|};
    }
  }

  class CellsValueTree {
    const fieldDataTree: RecordsValueTree<Fields>

    ghost predicate Valid() reads this, fieldDataTree, fieldDataTree.exploreResults {
      && RecordsSearch.Valid(fieldDataTree.View())
      && fieldDataTree.records == FieldRecords()
      && Aligned(fieldDataTree.init)
    }

    constructor (minRecords: nat, fieldData: Fields)
      requires Aligned(fieldData) && fieldData != map[]
      ensures Valid() && fresh(fieldDataTree) && fresh(fieldDataTree.exploreResults)
      ensures fieldDataTree.init == fieldData
      ensures fieldDataTree.View() == Initial(minRecords, NumRows(fieldData))
    {
      CommonLengthIsRows(fieldData);
      fieldDataTree := new RecordsValueTree(minRecords, fieldData, FieldRecords());
    }

    method Current() returns (cells: Cells)
      requires Valid()
      ensures fresh(cells) && cells.Valid()
      ensures cells.fields == FilterFields(fieldDataTree.init, Mask(fieldDataTree.View()))
    {
      var fields := fieldDataTree.Current();
      FilterRows(fieldDataTree.init, Mask(fieldDataTree.View()));
      cells := new Cells(fields);
    }

    /** `simplify` and `complicate`. */
    method Apply(failed: bool) returns (r: Signal)
      requires Valid()
      modifies fieldDataTree, fieldDataTree.exploreResults
      ensures fieldDataTree.exploreResults == old(fieldDataTree.exploreResults) || fresh(fieldDataTree.exploreResults)
      ensures r != Panic ==> Valid()
      ensures match Step(old(fieldDataTree.View()), failed)
              case Panicked => r == Panic
              case More(t) => r == True && fieldDataTree.View() == t
              case Stopped(t) => r == False && fieldDataTree.View() == t
    {
      StepKeepsValid(fieldDataTree.View(), failed);
      if failed {
        r := fieldDataTree.Simplify();
      } else {
        r := fieldDataTree.Complicate();
      }
    }
  }

  /**
   * Every cells a run of simplifications and complications yields, as long as it has not panicked:
   * fields of equal length, distinct coordinates, the rows in their original order, and no fewer than
   * the required number of records.
   */
  lemma ShrunkCellsStayUnique(init: Fields, keys: seq<string>, minRecords: nat, answers: seq<bool>)
    requires Aligned(init) && Distinct(Keys(init, keys))
    ensures match Run(Initial(minRecords, NumRows(init)), answers)
            case None => true
            case Some(t) =>
              RecordsSearch.Valid(t) &&
              var c, kept := FilterFields(init, Mask(t)), Kept(NumRows(init), Mask(t));
              && Aligned(c) && Kinds(c) == Kinds(init)
              && Rows(c) == Gather(Rows(init), kept)
              && Distinct(Keys(c, keys))
              && Min(minRecords, NumRows(init)) <= NumRows(c)
  {
    var s := Initial(minRecords, NumRows(init));
    RunKeepsMinimum(s, answers);
    match Run(s, answers)
    case None =>
    case Some(t) => FilteredStayUnique(init, keys, Mask(t));
  }

  lemma FilteredStayUnique(init: Fields, keys: seq<string>, mask: set<nat>)
    requires Aligned(init) && Distinct(Keys(init, keys)) && mask <= Saturated(NumRows(init))
    ensures var c, kept := FilterFields(init, mask), Kept(NumRows(init), mask);
            && Aligned(c) && Kinds(c) == Kinds(init)
            && Rows(c) == Gather(Rows(init), kept)
            && Distinct(Keys(c, keys))
            && NumRows(c) == |mask|
  {
    var c, kept := FilterFields(init, mask), Kept(NumRows(init), mask);
    FilterRows(init, mask);
    FilterIsGather(Rows(init), mask);
    FilterSize(Rows(init), mask);
    KeysAreRowKeys(init, keys);
    KeysAreRowKeys(c, keys);
    forall i, j | 0 <= i < j < |kept|
      ensures Keys(c, keys)[i] != Keys(c, keys)[j]
    {
      assert Keys(c, keys)[i] == Keys(init, keys)[kept[i]];
      assert Keys(c, keys)[j] == Keys(init, keys)[kept[j]];
    }
  }
}
