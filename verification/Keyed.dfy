/**
 * Rows named by keys: which rows are the first with their key, how many keys there are, where the
 * runs of equal keys begin. `ks[i]` is the key tuple of row `i`. These definitions do not sort; the
 * lemmas say what a scan of the sorted rows sees of them.
 */
module Keyed {
  import opened Prelude
  import opened Bits
  import opened StableSort

  predicate IsFirst<K(==)>(ks: seq<K>, i: nat) {
    i < |ks| && forall j | 0 <= j < i :: ks[j] != ks[i]
  }

  /** The rows that keeping the first of each key keeps. */
  ghost function Firsts<K>(ks: seq<K>): (r: set<nat>)
    ensures r <= Saturated(|ks|)
  {
    set i | i in Saturated(|ks|) && IsFirst(ks, i)
  }

  // ---------- Keeping the first row of each key ----------

  lemma {:induction false} HasFirst<K>(ks: seq<K>, i: nat) returns (f: nat)
    requires i < |ks|
    ensures f <= i && IsFirst(ks, f) && ks[f] == ks[i]
  {
    if IsFirst(ks, i) {
      f := i;
    } else {
      var j :| 0 <= j < i && ks[j] == ks[i];
      f := HasFirst(ks, j);
    }
  }

  /** The kept keys are distinct and are all of the keys. */
  lemma FirstsAreRepresentatives<K(!new)>(ks: seq<K>)
    ensures Distinct(Filter(ks, Firsts(ks)))
    ensures Elements(Filter(ks, Firsts(ks))) == Elements(ks)
    ensures |Filter(ks, Firsts(ks))| == |Elements(ks)|
  {
    var kept := Kept(|ks|, Firsts(ks));
    var r := Filter(ks, Firsts(ks));
    FilterIsGather(ks, Firsts(ks));
    forall i, j | 0 <= i < j < |r|
      ensures r[i] != r[j]
    {
      assert kept[j] in kept;
      assert IsFirst(ks, kept[j]);
    }
    forall k | k in ks
      ensures k in r
    {
      var i :| 0 <= i < |ks| && ks[i] == k;
      var f := HasFirst(ks, i);
      assert f in kept;
      var p :| 0 <= p < |kept| && kept[p] == f;
      assert r[p] == k;
    }
    assert forall k | k in r :: k in ks;
    DistinctSize(r);
  }

  /** Keeping the first of each key changes nothing exactly when the keys are distinct. */
  lemma KeepsAllIffDistinct<K(!new), T>(s: seq<T>, ks: seq<K>)
    requires |s| == |ks|
    ensures Filter(s, Firsts(ks)) == s <==> Distinct(ks)
  {
    if Distinct(ks) {
      FilterAll(s, Firsts(ks));
    } else {
      FilterSize(s, Firsts(ks));
      SaturatedSize(|ks|);
      var i, j :| 0 <= i < j < |ks| && ks[i] == ks[j];
      assert j in Saturated(|ks|) && j !in Firsts(ks);
      SubsetSize(Firsts(ks) + {j}, Saturated(|ks|));
    }
  }

  // ---------- What a scan of the sorted rows sees ----------

  /** In the stable order, a row differs from the start of the current run exactly when it is the first of its key. */
  lemma RunStartIsFirst<K(!new)>(cmp: Comparator<K>, ks: seq<K>, idx: seq<nat>, start: nat, i: nat)
    requires TotalOrder(cmp) && StableOrder(cmp, ks, idx)
    requires start < i < |idx|
    requires forall j | start <= j < i :: ks[idx[j]] == ks[idx[start]]
    ensures ks[idx[i]] != ks[idx[start]] <==> IsFirst(ks, idx[i])
  {
    assert Before(cmp, ks, idx[start], idx[i]);
    if ks[idx[i]] == ks[idx[start]] {
      assert cmp(ks[idx[start]], ks[idx[i]]) == Equal;
    } else {
      forall a | 0 <= a < idx[i]
        ensures ks[a] != ks[idx[i]]
      {
        assert a in idx;
        var p :| 0 <= p < |idx| && idx[p] == a;
        assert p < start ==> Before(cmp, ks, idx[p], idx[start]);
      }
    }
  }

  ghost predicate Sorted<K>(cmp: Comparator<K>, ks: seq<K>) {
    forall i, j | 0 <= i < j < |ks| :: cmp(ks[i], ks[j]) != Greater
  }

  /** In sorted rows, a row differs from the start of the current run exactly when its key is new. */
  lemma RunStartIsNew<K(!new)>(cmp: Comparator<K>, ks: seq<K>, start: nat, i: nat)
    requires TotalOrder(cmp) && Sorted(cmp, ks)
    requires start < i < |ks|
    requires forall j | start <= j < i :: ks[j] == ks[start]
    ensures ks[i] != ks[start] <==> ks[i] !in ks[..i]
  {
  }

  // ---------- Runs of equal keys ----------

  /** `g` cuts the rows into exactly the maximal runs of equal keys. */
  ghost predicate CutsIntoRuns<K>(ks: seq<K>, g: seq<nat>) {
    && 2 <= |g| && g[0] == 0 && g[|g| - 1] == |ks|
    && Ascending(g)
    && (forall r, i | 0 <= r < |g| - 1 && g[r] <= i < g[r + 1] :: ks[i] == ks[g[r]])
    && (forall r | 0 < r < |g| - 1 :: ks[g[r] - 1] != ks[g[r]])
  }

  lemma {:induction false} RunsAgree<K>(ks: seq<K>, g: seq<nat>, h: seq<nat>, r: nat)
    requires CutsIntoRuns(ks, g) && CutsIntoRuns(ks, h) && r < |g|
    ensures r < |h| && g[r] == h[r]
    ensures r == |g| - 1 <==> r == |h| - 1
  {
    if r > 0 {
      RunsAgree(ks, g, h, r - 1);
    }
  }

  /** There is only one way to cut the rows into maximal runs. */
  lemma RunsUnique<K>(ks: seq<K>, g: seq<nat>, h: seq<nat>)
    requires CutsIntoRuns(ks, g) && CutsIntoRuns(ks, h)
    ensures g == h
  {
    RunsAgree(ks, g, h, |g| - 1);
    forall r | 0 <= r < |g| ensures g[r] == h[r] { RunsAgree(ks, g, h, r); }
  }

  lemma {:induction false} RunsCountUpTo<K(!new)>(cmp: Comparator<K>, ks: seq<K>, g: seq<nat>, r: nat)
    requires TotalOrder(cmp) && Sorted(cmp, ks) && CutsIntoRuns(ks, g) && r < |g|
    ensures g[r] <= |ks| && |Elements(ks[..g[r]])| == r
  {
    assert g[r] <= g[|g| - 1];
    if r > 0 {
      RunsCountUpTo(cmp, ks, g, r - 1);
      var a, b := g[r - 1], g[r];
      assert a < b;
      if r > 1 { NewAfterRun(cmp, ks, g, r - 1); }
      RunAddsOne(ks, a, b);
    }
  }

  lemma RunAddsOne<K(!new)>(ks: seq<K>, a: nat, b: nat)
    requires a < b <= |ks| && ks[a] !in ks[..a]
    requires forall i | a <= i < b :: ks[i] == ks[a]
    ensures |Elements(ks[..b])| == |Elements(ks[..a])| + 1
  {
    assert ks[..b] == ks[..a] + ks[a..b];
    assert Elements(ks[a..b]) == {ks[a]} by { assert ks[a..b][0] == ks[a]; }
    assert Elements(ks[..b]) == Elements(ks[..a]) + {ks[a]};
  }

  lemma NewAfterRun<K(!new)>(cmp: Comparator<K>, ks: seq<K>, g: seq<nat>, r: nat)
    requires TotalOrder(cmp) && Sorted(cmp, ks) && CutsIntoRuns(ks, g) && 0 < r < |g| - 1
    ensures g[r] < |ks| && ks[g[r]] !in ks[..g[r]]
  {
  }

  /** Sorted rows have as many runs as there are distinct keys. */
  lemma SortedRunsAreDistinctKeys<K(!new)>(cmp: Comparator<K>, ks: seq<K>, g: seq<nat>)
    requires TotalOrder(cmp) && Sorted(cmp, ks) && CutsIntoRuns(ks, g)
    ensures |g| - 1 == |Elements(ks)|
  {
    RunsCountUpTo(cmp, ks, g, |g| - 1);
    assert ks[..|ks|] == ks;
  }
}
