/**
 * The expected contents of a sparse array after a series of writes: each write is put in front of
 * what is there, and with unique coordinates the first cell of each coordinate is kept.
 */
module Accumulator {
  import opened Prelude
  import opened Bits
  import opened StableSort
  import opened Keyed
  import opened Columns
  import opened CellsModel
  import opened CellsTheorems
  import opened NumCells
  import opened TypedRanges
  import opened SparseWrites

  // ---------- Coordinates to rows ----------

  /** The first row of each key. */
  ghost function FirstMap<K, T>(ks: seq<K>, s: seq<T>): map<K, T>
    requires |ks| == |s|
  {
    if ks == [] then map[] else FirstMap(ks[1..], s[1..])[ks[0] := s[0]]
  }

  lemma {:induction false} FirstMapAt<K, T>(ks: seq<K>, s: seq<T>, i: nat)
    requires |ks| == |s|
    ensures FirstMap(ks, s).Keys == Elements(ks)
    ensures IsFirst(ks, i) ==> FirstMap(ks, s)[ks[i]] == s[i]
  {
    if ks != [] {
      assert ks == [ks[0]] + ks[1..];
      if i == 0 {
        FirstMapAt(ks[1..], s[1..], 0);
      } else {
        FirstMapAt(ks[1..], s[1..], i - 1);
        if IsFirst(ks, i) {
          assert ks[0] != ks[i];
          assert forall j | 0 <= j < i - 1 :: ks[1..][j] == ks[j + 1];
          assert IsFirst(ks[1..], i - 1);
        }
      }
    }
  }

  /** What is in front overrides what is behind. */
  lemma {:induction false} FirstMapConcat<K, T>(ka: seq<K>, a: seq<T>, kb: seq<K>, b: seq<T>)
    requires |ka| == |a| && |kb| == |b|
    ensures FirstMap(ka + kb, a + b) == FirstMap(kb, b) + FirstMap(ka, a)
  {
    if ka == [] {
      assert ka + kb == kb && a + b == b;
    } else {
      FirstMapConcat(ka[1..], a[1..], kb, b);
      assert (ka + kb)[1..] == ka[1..] + kb && (a + b)[1..] == a[1..] + b;
    }
  }

  lemma FirstMapOfKept<K(!new), T>(ks: seq<K>, s: seq<T>, kept: seq<nat>, f: nat)
    requires |ks| == |s| && Below(kept, |ks|) && Distinct(Gather(ks, kept))
    requires IsFirst(ks, f) && f in kept
    ensures ks[f] in FirstMap(ks, s) && ks[f] in FirstMap(Gather(ks, kept), Gather(s, kept))
    ensures FirstMap(Gather(ks, kept), Gather(s, kept))[ks[f]] == FirstMap(ks, s)[ks[f]]
  {
    var p :| 0 <= p < |kept| && kept[p] == f;
    FirstMapAt(ks, s, f);
    FirstMapAt(Gather(ks, kept), Gather(s, kept), p);
  }

  /** Keeping the first row of each key does not change the map. */
  lemma FirstMapOfFirsts<K(!new), T>(ks: seq<K>, s: seq<T>)
    requires |ks| == |s|
    ensures var m := Firsts(ks);
            |Filter(ks, m)| == |Filter(s, m)| && FirstMap(Filter(ks, m), Filter(s, m)) == FirstMap(ks, s)
  {
    FilterIsGather(ks, Firsts(ks));
    FilterIsGather(s, Firsts(ks));
    FirstsAreRepresentatives(ks);
    FirstMapThrough(ks, s, Kept(|ks|, Firsts(ks)));
  }

  /** Reading the rows through a list of one index per key, the first, does not change the map. */
  lemma FirstMapThrough<K(!new), T>(ks: seq<K>, s: seq<T>, kept: seq<nat>)
    requires |ks| == |s| && Below(kept, |ks|) && Distinct(Gather(ks, kept))
    requires Elements(Gather(ks, kept)) == Elements(ks)
    requires forall f | IsFirst(ks, f) :: f in kept
    ensures FirstMap(Gather(ks, kept), Gather(s, kept)) == FirstMap(ks, s)
  {
    var a, b := FirstMap(Gather(ks, kept), Gather(s, kept)), FirstMap(ks, s);
    FirstMapAt(ks, s, 0);
    FirstMapAt(Gather(ks, kept), Gather(s, kept), 0);
    forall k | k in b.Keys
      ensures a[k] == b[k]
    {
      var i :| 0 <= i < |ks| && ks[i] == k;
      var f := HasFirst(ks, i);
      FirstMapOfKept(ks, s, kept, f);
    }
    assert a.Keys == b.Keys;
  }

  ghost function RowMap(c: Fields, keys: seq<string>): map<Key, Row>
    requires Aligned(c)
  {
    FirstMap(Keys(c, keys), Rows(c))
  }

  // ---------- accumulate ----------

  ghost function AccumulateFields(dedupKeys: Option<seq<string>>, before: Option<Fields>, write: Fields): Fields
    requires Aligned(write)
    requires before.Some? ==> Aligned(before.value) && Kinds(before.value) == Kinds(write)
  {
    match before
    case None => write
    case Some(cells) =>
      ExtendRows(write, cells);
      var all := ExtendFields(write, cells);
      if dedupKeys.Some? then DedupFields(all, dedupKeys.value) else all
  }

  class SparseCellsAccumulator {
    var cells: Cells?
    const dedupKeys: Option<seq<string>>

    ghost predicate Valid() reads this, cells {
      cells != null ==> cells.Valid() && cells.fields != map[]
    }

    ghost function Contents(): Option<Fields> reads this, cells {
      if cells == null then None else Some(cells.fields)
    }

    constructor (dedupKeys: Option<seq<string>>)
      ensures Valid() && Contents() == None && this.dedupKeys == dedupKeys && cells == null
    {
      this.dedupKeys := dedupKeys;
      cells := null;
    }

    /** Every write has the fields of the schema, and the coordinates among them. */
    method Accumulate(write: Cells)
      requires Valid() && write.Valid() && write.fields != map[] && write != cells
      requires dedupKeys.Some? ==> KeysPresent(write.fields, dedupKeys.value)
      requires cells != null ==> Kinds(cells.fields) == Kinds(write.fields)
      modifies this, write
      ensures Valid() && cells != null && (cells == write || fresh(cells))
      ensures Contents() == Some(AccumulateFields(dedupKeys, old(Contents()), old(write.fields)))
    {
      ghost var fields := write.fields;
      if cells != null {
        ghost var before := cells.fields;
        write.Extend(cells.fields);
        ExtendRows(fields, before);
        FieldsFromRows(write.fields, ExtendFields(fields, before));
        if dedupKeys.Some? {
          cells := write.Dedup(dedupKeys.value);
        } else {
          cells := write;
        }
      } else {
        cells := write;
      }
    }
  }
}
