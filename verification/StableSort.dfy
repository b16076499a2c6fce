/** The index sort that `sort`, `count_distinct` and `dedup` rely on: `slice::sort_by`, which is stable. */
module StableSort {
  import opened Prelude
  import opened Bits

  type Comparator<!K> = (K, K) -> Ordering

  /** Index `a` comes before `b`: its key is smaller, or equal and `a` came first. */
  predicate Before<K>(cmp: Comparator<K>, ks: seq<K>, a: nat, b: nat) {
    && a < |ks| && b < |ks|
    && (cmp(ks[a], ks[b]) == Less || (cmp(ks[a], ks[b]) == Equal && a < b))
  }

  predicate Ordered<K>(cmp: Comparator<K>, ks: seq<K>, idx: seq<nat>) {
    forall i, j | 0 <= i < j < |idx| :: Before(cmp, ks, idx[i], idx[j])
  }

  /** `idx` is a stable sort of the indices of `ks`. */
  ghost predicate StableOrder<K>(cmp: Comparator<K>, ks: seq<K>, idx: seq<nat>) {
    && |idx| == |ks| && Below(idx, |ks|)
    && (forall a: nat | a < |ks| :: a in idx)
    && Ordered(cmp, ks, idx)
  }

  function Insert<K>(cmp: Comparator<K>, ks: seq<K>, idx: seq<nat>, x: nat): (r: seq<nat>)
    requires Below(idx, |ks|) && x < |ks|
    ensures |r| == |idx| + 1 && Below(r, |ks|)
  {
    var last := |idx| - 1;
    if idx == [] || cmp(ks[idx[last]], ks[x]) != Greater then idx + [x]
    else Insert(cmp, ks, idx[..last], x) + [idx[last]]
  }

  function IndexUpTo<K>(cmp: Comparator<K>, ks: seq<K>, n: nat): (r: seq<nat>)
    requires n <= |ks|
    ensures |r| == n && Below(r, |ks|)
  {
    if n == 0 then [] else Insert(cmp, ks, IndexUpTo(cmp, ks, n - 1), n - 1)
  }

  function StableIndex<K>(cmp: Comparator<K>, ks: seq<K>): (r: seq<nat>)
    ensures |r| == |ks| && Below(r, |ks|)
  {
    IndexUpTo(cmp, ks, |ks|)
  }

  lemma BeforeTransitive<K(!new)>(cmp: Comparator<K>, ks: seq<K>, a: nat, b: nat, c: nat)
    requires TotalOrder(cmp) && Before(cmp, ks, a, b) && Before(cmp, ks, b, c)
    ensures Before(cmp, ks, a, c)
  {
  }

  lemma BeforeAsymmetric<K(!new)>(cmp: Comparator<K>, ks: seq<K>, a: nat, b: nat)
    requires TotalOrder(cmp) && Before(cmp, ks, a, b)
    ensures !Before(cmp, ks, b, a) && a != b
  {
  }

  lemma AppendOrdered<K(!new)>(cmp: Comparator<K>, ks: seq<K>, idx: seq<nat>, x: nat)
    requires Below(idx, x) && x < |ks| && Ordered(cmp, ks, idx)
    requires TotalOrder(cmp) && (idx != [] ==> cmp(ks[idx[|idx| - 1]], ks[x]) != Greater)
    ensures Ordered(cmp, ks, idx + [x])
  {
    var last := |idx| - 1;
    forall i | 0 <= i < |idx|
      ensures Before(cmp, ks, idx[i], x)
    {
      if i < last { BeforeTransitive(cmp, ks, idx[i], idx[last], x); }
    }
  }

  /** A key that is larger than the new one, and after all others, stays last. */
  lemma LastStaysLast<K(!new)>(cmp: Comparator<K>, ks: seq<K>, idx: seq<nat>, r: seq<nat>, x: nat)
    requires TotalOrder(cmp) && Below(idx, x) && x < |ks| && Ordered(cmp, ks, idx) && idx != []
    requires cmp(ks[idx[|idx| - 1]], ks[x]) == Greater
    requires Ordered(cmp, ks, r) && Elements(r) == Elements(idx[..|idx| - 1]) + {x}
    ensures Ordered(cmp, ks, r + [idx[|idx| - 1]])
  {
    var last := |idx| - 1;
    assert cmp(ks[idx[last]], ks[x]) == cmp(ks[x], ks[idx[last]]).Flip();
    forall i | 0 <= i < |r|
      ensures Before(cmp, ks, r[i], idx[last])
    {
      assert r[i] in Elements(idx[..last]) + {x};
    }
  }

  lemma {:induction false} InsertOrdered<K(!new)>(cmp: Comparator<K>, ks: seq<K>, idx: seq<nat>, x: nat)
    requires TotalOrder(cmp) && Below(idx, x) && x < |ks| && Ordered(cmp, ks, idx)
    ensures Below(idx, |ks|)
    ensures Ordered(cmp, ks, Insert(cmp, ks, idx, x))
    ensures Elements(Insert(cmp, ks, idx, x)) == Elements(idx) + {x}
  {
    var last := |idx| - 1;
    if idx == [] || cmp(ks[idx[last]], ks[x]) != Greater {
      AppendOrdered(cmp, ks, idx, x);
    } else {
      var p := idx[..last];
      InsertOrdered(cmp, ks, p, x);
      LastStaysLast(cmp, ks, idx, Insert(cmp, ks, p, x), x);
      assert idx == p + [idx[last]];
    }
  }

  lemma {:induction false} IndexUpToOrdered<K(!new)>(cmp: Comparator<K>, ks: seq<K>, n: nat)
    requires TotalOrder(cmp) && n <= |ks|
    ensures Ordered(cmp, ks, IndexUpTo(cmp, ks, n))
    ensures Elements(IndexUpTo(cmp, ks, n)) == Saturated(n)
  {
    if n > 0 {
      IndexUpToOrdered(cmp, ks, n - 1);
      var p := IndexUpTo(cmp, ks, n - 1);
      forall i | 0 <= i < |p| ensures p[i] < n - 1 { assert p[i] in Elements(p); assert p[i] in Saturated(n - 1); }
      InsertOrdered(cmp, ks, p, n - 1);
    }
  }

  lemma StableIndexOrder<K(!new)>(cmp: Comparator<K>, ks: seq<K>)
    requires TotalOrder(cmp)
    ensures StableOrder(cmp, ks, StableIndex(cmp, ks))
  {
    IndexUpToOrdered(cmp, ks, |ks|);
    forall a: nat | a < |ks| ensures a in StableIndex(cmp, ks) { assert a in Saturated(|ks|); }
  }

  lemma {:induction false} OrderedUnique<K(!new)>(cmp: Comparator<K>, ks: seq<K>, a: seq<nat>, b: seq<nat>)
    requires TotalOrder(cmp) && Ordered(cmp, ks, a) && Ordered(cmp, ks, b)
    requires Elements(a) == Elements(b)
    ensures a == b
  {
    assert a != [] ==> a[0] in Elements(b);
    assert b != [] ==> b[0] in Elements(a);
    if a != [] {
      if a[0] != b[0] {
        var i :| 0 <= i < |b| && b[i] == a[0];
        var j :| 0 <= j < |a| && a[j] == b[0];
        BeforeAsymmetric(cmp, ks, a[0], b[0]);
        assert false;
      }
      HeadRemoved(cmp, ks, a);
      HeadRemoved(cmp, ks, b);
      OrderedUnique(cmp, ks, a[1..], b[1..]);
    }
  }

  lemma HeadRemoved<K(!new)>(cmp: Comparator<K>, ks: seq<K>, a: seq<nat>)
    requires TotalOrder(cmp) && Ordered(cmp, ks, a) && a != []
    ensures Elements(a[1..]) == Elements(a) - {a[0]}
  {
  }

  /** There is only one stable sort, so whatever algorithm `sort_by` uses returns this one. */
  lemma StableOrderUnique<K(!new)>(cmp: Comparator<K>, ks: seq<K>, idx: seq<nat>)
    requires TotalOrder(cmp) && StableOrder(cmp, ks, idx)
    ensures idx == StableIndex(cmp, ks)
  {
    StableIndexOrder(cmp, ks);
    assert Elements(idx) == Elements(StableIndex(cmp, ks));
    OrderedUnique(cmp, ks, idx, StableIndex(cmp, ks));
  }

  /** Sorts the index list `0..n` in place by a comparator on indices, which compares the keys `ks`. */
  method SortBy<K>(comparator: (nat, nat) -> Ordering, idx: array<nat>, ghost cmp: Comparator<K>, ghost ks: seq<K>)
    requires idx.Length == |ks| && forall i | 0 <= i < idx.Length :: idx[i] == i
    requires forall a: nat, b: nat | a < |ks| && b < |ks| :: comparator(a, b) == cmp(ks[a], ks[b])
    modifies idx
    ensures idx[..] == StableIndex(cmp, ks)
  {
    for n := 0 to idx.Length
      invariant idx[..n] == IndexUpTo(cmp, ks, n)
      invariant forall i | n <= i < idx.Length :: idx[i] == i
    {
      SortedInsert(comparator, idx, n, cmp, ks);
    }
    assert idx[..] == idx[..idx.Length];
  }

  method SortedInsert<K>(comparator: (nat, nat) -> Ordering, idx: array<nat>, n: nat,
                         ghost cmp: Comparator<K>, ghost ks: seq<K>)
    requires n < idx.Length == |ks| && Below(idx[..n], |ks|) && idx[n] == n
    requires forall a: nat, b: nat | a < |ks| && b < |ks| :: comparator(a, b) == cmp(ks[a], ks[b])
    modifies idx
    ensures idx[..n + 1] == Insert(cmp, ks, old(idx[..n]), n)
    ensures forall i | n < i < idx.Length :: idx[i] == old(idx[i])
  {
    ghost var sorted := idx[..n];
    var j := n;
    while 0 < j && comparator(idx[j - 1], n) == Greater
      invariant 0 <= j <= n
      invariant idx[..n + 1] == sorted[..j] + [n] + sorted[j..]
      invariant LargerFrom(cmp, ks, sorted, n, j)
      invariant forall i | n < i < idx.Length :: idx[i] == old(idx[i])
    {
      assert idx[j - 1] == idx[..n + 1][j - 1] == sorted[j - 1];
      assert idx[j] == idx[..n + 1][j] == n;
      idx[j], idx[j - 1] := idx[j - 1], idx[j];
      j := j - 1;
      assert sorted[j..] == [sorted[j]] + sorted[j + 1..];
    }
    assert j > 0 ==> idx[j - 1] == idx[..n + 1][j - 1] == sorted[j - 1];
    InsertAt(cmp, ks, sorted, n, j);
  }

  ghost predicate LargerFrom<K>(cmp: Comparator<K>, ks: seq<K>, idx: seq<nat>, x: nat, j: nat) {
    && Below(idx, |ks|) && x < |ks|
    && forall i | j <= i < |idx| :: cmp(ks[idx[i]], ks[x]) == Greater
  }

  /** Insertion puts an index before the larger keys at the end and after everything else. */
  lemma {:induction false} InsertAt<K>(cmp: Comparator<K>, ks: seq<K>, idx: seq<nat>, x: nat, j: nat)
    requires j <= |idx| && LargerFrom(cmp, ks, idx, x, j)
    requires j > 0 ==> cmp(ks[idx[j - 1]], ks[x]) != Greater
    ensures Insert(cmp, ks, idx, x) == idx[..j] + [x] + idx[j..]
  {
    var last := |idx| - 1;
    if j < |idx| {
      InsertAt(cmp, ks, idx[..last], x, j);
      assert idx[..last][..j] == idx[..j] && idx[..last][j..] + [idx[last]] == idx[j..];
    } else {
      assert idx[..j] == idx && idx[j..] == [];
    }
  }
}
