/** What sorting, deduplicating and grouping do to the rows, without mention of how. */
module CellsTheorems {
  import opened Prelude
  import opened Bits
  import opened StableSort
  import opened Keyed
  import opened Columns
  import opened CellsModel

  // ---------- sort ----------

  /** `idx` lists each index below `n` once. */
  ghost predicate Permutation(idx: seq<nat>, n: nat) {
    |idx| == n && Below(idx, n) && Distinct(idx) && forall a: nat | a < n :: a in idx
  }

  /** A permutation of `n + 1` indices is one of `n` with `n` put in somewhere. */
  lemma PermutationShrinks(idx: seq<nat>, n: nat) returns (a: seq<nat>, b: seq<nat>)
    requires Permutation(idx, n + 1)
    ensures idx == a + [n] + b && Permutation(a + b, n) && Below(a, n) && Below(b, n)
  {
    assert n in idx;
    var p :| 0 <= p < |idx| && idx[p] == n;
    a, b := idx[..p], idx[p + 1..];
    assert idx == a + [n] + b;
    forall i | 0 <= i < |a| ensures a[i] < n { assert idx[i] != idx[p]; }
    forall i | 0 <= i < |b| ensures b[i] < n { assert idx[p + 1 + i] != idx[p]; }
    DistinctWithout(idx, p);
    forall x: nat | x < n ensures x in a + b { assert x in a + [n] + b; }
  }

  lemma DistinctWithout<T(!new)>(s: seq<T>, p: nat)
    requires p < |s| && Distinct(s)
    ensures Distinct(s[..p] + s[p + 1..])
  {
  }

  /** Reading a sequence through a permutation keeps every element. */
  lemma {:induction false} PermutedMultiset<T>(s: seq<T>, idx: seq<nat>)
    requires Permutation(idx, |s|)
    ensures multiset(Gather(s, idx)) == multiset(s)
  {
    if s != [] {
      var n := |s| - 1;
      var a, b := PermutationShrinks(idx, n);
      PermutedMultiset(s[..n], a + b);
      SplitGather(s, a, b);
      assert s == s[..n] + [s[n]];
    }
  }

  lemma GatherConcat<T>(s: seq<T>, a: seq<nat>, b: seq<nat>)
    requires Below(a, |s|) && Below(b, |s|)
    ensures Below(a + b, |s|) && Gather(s, a + b) == Gather(s, a) + Gather(s, b)
  {
  }

  lemma SplitGather<T>(s: seq<T>, a: seq<nat>, b: seq<nat>)
    requires s != [] && Below(a, |s| - 1) && Below(b, |s| - 1)
    ensures var n := |s| - 1;
            && Below(a + b, n) && Below(a + [n] + b, |s|)
            && multiset(Gather(s, a + [n] + b)) == multiset(Gather(s[..n], a + b)) + multiset{s[n]}
  {
    var n := |s| - 1;
    GatherConcat(s[..n], a, b);
    GatherConcat(s, a, [n]);
    GatherConcat(s, a + [n], b);
    assert Gather(s, a) == Gather(s[..n], a) && Gather(s, b) == Gather(s[..n], b);
    assert Gather(s, [n]) == [s[n]];
  }

  /**
   * Sorting moves whole rows: one permutation, the stable one, for all of the columns. The rows are
   * the same as a multiset and end up in key order.
   */
  lemma SortMovesRows(c: Fields, keys: seq<string>)
    requires Aligned(c)
    ensures var s, idx := SortFields(c, keys), StableIndex(CompareKey, Keys(c, keys));
            && Aligned(s) && Kinds(s) == Kinds(c)
            && StableOrder(CompareKey, Keys(c, keys), idx)
            && Rows(s) == Gather(Rows(c), idx)
            && multiset(Rows(s)) == multiset(Rows(c))
            && Sorted(CompareKey, Keys(s, keys))
  {
    StableIndexFacts(Keys(c, keys));
    GatherRows(c, StableIndex(CompareKey, Keys(c, keys)));
    PermutedMultiset(Rows(c), StableIndex(CompareKey, Keys(c, keys)));
    SortedKeys(c, keys);
  }

  /** Sorting leaves the cells as they are exactly when they are sorted already. */
  lemma SortIsIdentityIff(c: Fields, keys: seq<string>)
    requires Aligned(c)
    ensures SortFields(c, keys) == c <==> Sorted(CompareKey, Keys(c, keys))
  {
    SortMovesRows(c, keys);
    if Sorted(CompareKey, Keys(c, keys)) {
      var ks := Keys(c, keys);
      var id := seq(|ks|, i => i);
      forall i, j | 0 <= i < j < |id|
        ensures Before(CompareKey, ks, id[i], id[j])
      {
        assert CompareKey(ks[i], ks[j]) != Greater;
      }
      forall a: nat | a < |ks| ensures a in id { assert id[a] == a; }
      CompareTotal();
      StableOrderUnique(CompareKey, ks, id);
      assert Gather(Rows(c), id) == Rows(c);
      FieldsFromRows(SortFields(c, keys), c);
    }
  }

  ghost predicate RowsSorted(keys: seq<string>, rows: seq<Row>) { Sorted(CompareKey, KeysOf(keys, rows)) }

  lemma SmallestRow(keys: seq<string>, rows: seq<Row>, x: Row)
    requires RowsSorted(keys, rows) && x in rows
    ensures CompareKey(KeyOf(keys, rows[0]), KeyOf(keys, x)) != Greater
  {
    var i :| 0 <= i < |rows| && rows[i] == x;
    var ks := KeysOf(keys, rows);
    if i == 0 {
      CompareTotal();
    } else {
      assert CompareKey(ks[0], ks[i]) != Greater;
    }
  }

  /** Two sorted listings of the same rows are equal when a key tells rows apart. */
  lemma {:induction false} SortedListingUnique(keys: seq<string>, a: seq<Row>, b: seq<Row>)
    requires RowsSorted(keys, a) && RowsSorted(keys, b)
    requires multiset(a) == multiset(b)
    requires forall x, y | x in a && y in a && KeyOf(keys, x) == KeyOf(keys, y) :: x == y
    ensures a == b
  {
    assert |multiset(a)| == |a| && |multiset(b)| == |b|;
    if a != [] {
      HeadsAgree(keys, a, b);
      HeadLeaves(a);
      HeadLeaves(b);
      TailSorted(keys, a);
      TailSorted(keys, b);
      SortedListingUnique(keys, a[1..], b[1..]);
      assert a == [a[0]] + a[1..] && b == [b[0]] + b[1..];
    }
  }

  lemma HeadsAgree(keys: seq<string>, a: seq<Row>, b: seq<Row>)
    requires RowsSorted(keys, a) && RowsSorted(keys, b) && a != [] && b != []
    requires multiset(a) == multiset(b)
    requires forall x, y | x in a && y in a && KeyOf(keys, x) == KeyOf(keys, y) :: x == y
    ensures a[0] == b[0]
  {
    assert a[0] in multiset(b) && b[0] in multiset(a);
    SmallestRow(keys, a, b[0]);
    SmallestRow(keys, b, a[0]);
    EqualIfNeitherGreater(KeyOf(keys, a[0]), KeyOf(keys, b[0]));
  }

  lemma HeadLeaves<T>(a: seq<T>)
    requires a != []
    ensures multiset(a[1..]) == multiset(a) - multiset{a[0]}
  {
    assert a == [a[0]] + a[1..];
  }

  lemma EqualIfNeitherGreater(x: Key, y: Key)
    requires CompareKey(x, y) != Greater && CompareKey(y, x) != Greater
    ensures x == y
  {
    CompareTotal();
  }

  lemma TailSorted(keys: seq<string>, a: seq<Row>)
    requires RowsSorted(keys, a) && a != []
    ensures RowsSorted(keys, a[1..])
  {
    var ks, tail := KeysOf(keys, a), KeysOf(keys, a[1..]);
    forall i, j | 0 <= i < j < |tail| ensures CompareKey(tail[i], tail[j]) != Greater {
      assert tail[i] == ks[i + 1] && tail[j] == ks[j + 1];
    }
  }

  /**
   * The comparison of written and read cells: after sorting by keys that cover every field, two
   * cells are equal exactly when they hold the same rows, each as often.
   */
  lemma SortedIsCanonical(a: Fields, b: Fields, keys: seq<string>)
    requires Aligned(a) && Aligned(b) && Kinds(a) == Kinds(b)
    requires forall f | f in a :: f in keys
    ensures SortFields(a, keys) == SortFields(b, keys) <==> multiset(Rows(a)) == multiset(Rows(b))
  {
    SortMovesRows(a, keys);
    SortMovesRows(b, keys);
    if multiset(Rows(a)) == multiset(Rows(b)) {
      var s, t := SortFields(a, keys), SortFields(b, keys);
      KeysAreRowKeys(s, keys);
      KeysAreRowKeys(t, keys);
      forall x, y | x in Rows(s) && y in Rows(s) && KeyOf(keys, x) == KeyOf(keys, y)
        ensures x == y
      {
        KeyCoversRow(keys, x, y, s);
      }
      SortedListingUnique(keys, Rows(s), Rows(t));
      FieldsFromRows(s, t);
    }
  }

  lemma KeyCoversRow(keys: seq<string>, x: Row, y: Row, c: Fields)
    requires Aligned(c) && x in Rows(c) && y in Rows(c)
    requires forall f | f in c :: f in keys
    requires KeyOf(keys, x) == KeyOf(keys, y)
    ensures x == y
  {
    assert x.Keys == c.Keys && y.Keys == c.Keys;
    forall f | f in x ensures x[f] == y[f] {
      var j :| 0 <= j < |keys| && keys[j] == f;
      assert KeyOf(keys, x)[j] == KeyOf(keys, y)[j];
    }
  }

  // ---------- dedup, count_distinct, identify_groups ----------

  /**
   * Deduplication keeps, in order, exactly the rows that are the first with their key; what is left
   * has one row for each key.
   */
  lemma DedupKeepsFirsts(c: Fields, keys: seq<string>)
    requires Aligned(c)
    ensures var d := DedupFields(c, keys);
            && Aligned(d) && Kinds(d) == Kinds(c)
            && Rows(d) == Filter(Rows(c), Firsts(Keys(c, keys)))
            && Distinct(Keys(d, keys))
            && Elements(Keys(d, keys)) == Elements(Keys(c, keys))
            && NumRows(d) == |Elements(Keys(d, keys))|
  {
    var mask := Firsts(Keys(c, keys));
    FilterRows(c, mask);
    var d := DedupFields(c, keys);
    KeysAreRowKeys(c, keys);
    KeysAreRowKeys(d, keys);
    FilterIsGather(Rows(c), mask);
    FilterIsGather(Keys(c, keys), mask);
    assert Keys(d, keys) == Filter(Keys(c, keys), mask);
    FirstsAreRepresentatives(Keys(c, keys));
  }

  /** Deduplicating changes nothing, not even the number of rows, exactly when the keys are distinct already. */
  lemma DedupIsIdentityIff(c: Fields, keys: seq<string>)
    requires Aligned(c)
    ensures DedupFields(c, keys) == c <==> Distinct(Keys(c, keys))
    ensures Aligned(DedupFields(c, keys))
    ensures NumRows(DedupFields(c, keys)) == NumRows(c) <==> Distinct(Keys(c, keys))
  {
    DedupKeepsFirsts(c, keys);
    var d, ks := DedupFields(c, keys), Keys(c, keys);
    KeepsAllIffDistinct(Rows(c), ks);
    KeepsAllIffDistinct(ks, ks);
    if Distinct(ks) {
      FieldsFromRows(d, c);
    } else if NumRows(d) == NumRows(c) {
      FilterSize(ks, Firsts(ks));
      FilterSize(Rows(c), Firsts(ks));
      SaturatedSize(|ks|);
      FullSubset(Firsts(ks), Saturated(|ks|));
      FilterAll(ks, Firsts(ks));
      assert false;
    }
  }

  lemma FullSubset<T>(a: set<T>, b: set<T>)
    requires a <= b && |a| == |b|
    ensures a == b
  {
    assert b == a + (b - a);
  }

  lemma DedupIsIdempotent(c: Fields, keys: seq<string>)
    requires Aligned(c)
    ensures Aligned(DedupFields(c, keys))
    ensures DedupFields(DedupFields(c, keys), keys) == DedupFields(c, keys)
  {
    DedupKeepsFirsts(c, keys);
    DedupIsIdentityIff(DedupFields(c, keys), keys);
  }

  /** Cells sorted by the grouping keys have as many groups as the cells have distinct keys. */
  lemma GroupsOfSortedCells(c: Fields, keys: seq<string>, groups: seq<nat>)
    requires Aligned(c)
    requires CutsIntoRuns(Keys(SortFields(c, keys), keys), groups)
    ensures |groups| - 1 == |Elements(Keys(c, keys))|
  {
    SortedKeys(c, keys);
    CompareTotal();
    SortedRunsAreDistinctKeys(CompareKey, Keys(SortFields(c, keys), keys), groups);
  }
}
