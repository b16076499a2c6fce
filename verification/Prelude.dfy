/** Sequences, masks and small arithmetic shared by the other modules. */
module Prelude {

  datatype Option<+T> = None | Some(value: T)

  function Min(a: int, b: int): int { if a <= b then a else b }

  function Max(a: int, b: int): int { if a <= b then b else a }

  /** The mask with every one of the first `n` bits set. */
  function Saturated(n: nat): (r: set<nat>)
    ensures forall i: nat :: i in r <==> i < n
  {
    if n == 0 then {} else Saturated(n - 1) + {n - 1}
  }

  predicate Ascending(s: seq<nat>) {
    forall i, j | 0 <= i < j < |s| :: s[i] < s[j]
  }

  predicate Below(s: seq<nat>, n: nat) {
    forall i | 0 <= i < |s| :: s[i] < n
  }

  /** `s` lists some of the indices below `n` in order. */
  predicate Listing(s: seq<nat>, n: nat) { Ascending(s) && Below(s, n) }

  ghost predicate Distinct<T(!new)>(s: seq<T>) {
    forall i, j | 0 <= i < j < |s| :: s[i] != s[j]
  }

  function Elements<T>(s: seq<T>): set<T> { set x | x in s }

  /** The elements of `s` whose index is in `mask`, in their original order. */
  function Filter<T>(s: seq<T>, mask: set<nat>): seq<T> {
    if s == [] then [] else
      var last := |s| - 1;
      Filter(s[..last], mask) + if last in mask then [s[last]] else []
  }

  /** The indices below `n` that are in `mask`, in ascending order. */
  function Kept(n: nat, mask: set<nat>): (r: seq<nat>)
    ensures Listing(r, n)
    ensures forall i: nat :: i in r <==> i < n && i in mask
  {
    if n == 0 then [] else
      Kept(n - 1, mask) + if n - 1 in mask then [n - 1] else []
  }

  /** `s` read at each of the positions `idx`. */
  function Gather<T>(s: seq<T>, idx: seq<nat>): (r: seq<T>)
    requires Below(idx, |s|)
    ensures |r| == |idx|
    ensures forall k | 0 <= k < |idx| :: r[k] == s[idx[k]]
  {
    seq(|idx|, k requires 0 <= k < |idx| => s[idx[k]])
  }

  lemma {:induction false} FilterIsGather<T>(s: seq<T>, mask: set<nat>)
    ensures Filter(s, mask) == Gather(s, Kept(|s|, mask))
  {
    if s == [] {
    } else {
      var last := |s| - 1;
      FilterIsGather(s[..last], mask);
      assert Gather(s[..last], Kept(last, mask)) == Gather(s, Kept(last, mask));
    }
  }

  lemma {:induction false} AscendingUnique(a: seq<nat>, b: seq<nat>)
    requires Ascending(a) && Ascending(b) && Elements(a) == Elements(b)
    ensures a == b
  {
    assert a != [] ==> a[0] in Elements(b);
    assert b != [] ==> b[0] in Elements(a);
    if a != [] {
      HeadRemoved(a);
      HeadRemoved(b);
      AscendingUnique(a[1..], b[1..]);
    }
  }

  lemma HeadRemoved(a: seq<nat>)
    requires Ascending(a) && a != []
    ensures Ascending(a[1..]) && Elements(a[1..]) == Elements(a) - {a[0]}
    ensures forall x | x in Elements(a) :: a[0] <= x
  {
  }

  /** An ascending list of exactly the kept indices is `Kept`. */
  lemma KeptUnique(n: nat, mask: set<nat>, e: seq<nat>)
    requires Ascending(e)
    requires Elements(e) == mask * Saturated(n)
    ensures Kept(n, mask) == e
  {
    assert Elements(Kept(n, mask)) == mask * Saturated(n);
    AscendingUnique(Kept(n, mask), e);
  }

  lemma {:induction false} SaturatedSize(n: nat)
    ensures |Saturated(n)| == n
  {
    if n == 0 {
    } else {
      SaturatedSize(n - 1);
      assert Saturated(n) == Saturated(n - 1) + {n - 1};
    }
  }

  lemma ElementsOfPrefix<T>(s: seq<T>, k: nat)
    requires k < |s|
    ensures Elements(s[..k + 1]) == Elements(s[..k]) + {s[k]}
  {
  }

  lemma {:induction false} DistinctSize<T(!new)>(s: seq<T>)
    requires Distinct(s)
    ensures |Elements(s)| == |s|
  {
    if s == [] {
    } else {
      DistinctSize(s[1..]);
      assert Elements(s) == Elements(s[1..]) + {s[0]};
      assert s[0] !in s[1..];
    }
  }

  /** Filtering keeps as many elements as there are mask bits below the length. */
  lemma FilterSize<T>(s: seq<T>, mask: set<nat>)
    requires mask <= Saturated(|s|)
    ensures |Filter(s, mask)| == |mask|
  {
    FilterIsGather(s, mask);
    DistinctSize(Kept(|s|, mask));
    assert Elements(Kept(|s|, mask)) == mask;
  }

  lemma {:induction false} FilterAll<T>(s: seq<T>, mask: set<nat>)
    requires Saturated(|s|) <= mask
    ensures Filter(s, mask) == s
  {
    if s != [] {
      FilterAll(s[..|s| - 1], mask);
    }
  }

  lemma ListingSize(s: seq<nat>, n: nat)
    requires Listing(s, n)
    ensures |Elements(s)| == |s| <= n
  {
    DistinctSize(s);
    SaturatedSize(n);
    SubsetSize(Elements(s), Saturated(n));
  }

  lemma SubsetSize<T>(a: set<T>, b: set<T>)
    requires a <= b
    ensures |a| <= |b|
  {
    assert b == a + (b - a);
  }

  lemma {:induction false} MulMonotone(a: nat, b: nat, p: nat)
    requires a <= b
    ensures a * p <= b * p
  {
    if a < b { MulMonotone(a, b - 1, p); }
  }

  /** A multiple of `p` and the one after it. */
  lemma MulLess(a: nat, b: nat, p: nat)
    ensures (a + 1) * p == a * p + p
    ensures a < b ==> a * p + p <= b * p
    ensures b <= a ==> b * p <= a * p
  {
    if a < b { MulMonotone(a + 1, b, p); } else { MulMonotone(b, a, p); }
  }

  lemma QuotientUnique(q: nat, r: nat, d: nat, m: nat, p: nat)
    requires r < p && m < p && q * p + r == d * p + m
    ensures q == d && r == m
  {
    if d < q {
      MulLess(d, q, p);
    } else if q < d {
      MulLess(q, d, p);
    }
  }

  lemma DivModUnique(q: nat, r: nat, p: nat)
    requires r < p
    ensures (q * p + r) / p == q && (q * p + r) % p == r
  {
    var k := q * p + r;
    QuotientUnique(q, r, k / p, k % p, p);
  }

  function Pow2(n: nat): (r: nat)
    ensures 0 < r
  {
    if n == 0 then 1 else 2 * Pow2(n - 1)
  }

  lemma DoubledProduct(x: nat, y: nat)
    ensures 2 * (x * y) == 2 * x * y
  {
  }

  lemma {:induction false} Pow2Sum(a: nat, b: nat)
    ensures Pow2(a + b) == Pow2(a) * Pow2(b)
  {
    if a > 0 {
      Pow2Sum(a - 1, b);
      DoubledProduct(Pow2(a - 1), Pow2(b));
    }
  }

  /** Halving first and dividing by `2^n` is dividing by `2^(n + 1)`. */
  lemma QuotientOfHalf(m: nat, n: nat)
    ensures m / 2 / Pow2(n) == m / Pow2(n + 1)
  {
    var p := Pow2(n);
    var q, r := m / 2 / p, m / 2 % p;
    assert m / 2 == q * p + r && m == 2 * (m / 2) + m % 2;
    assert q * (2 * p) == 2 * (q * p);
    DivModUnique(q, 2 * r + m % 2, 2 * p);
  }

  /** Dividing by `2^n` first and halving then, likewise. */
  lemma HalfOfQuotient(m: nat, n: nat)
    ensures m / Pow2(n) / 2 == m / Pow2(n + 1)
  {
    var p := Pow2(n);
    var q, r := m / p, m % p;
    assert m == q * p + r && q == 2 * (q / 2) + q % 2;
    assert q * p == q / 2 * (2 * p) + q % 2 * p;
    DivModUnique(q / 2, q % 2 * p + r, 2 * p);
  }
}
