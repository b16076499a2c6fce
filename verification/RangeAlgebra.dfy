/** Ranges over ordered values: how many cells they hold, what they share, and what encloses them. */
module RangeAlgebra {
  import opened Prelude
  import opened Bits
  import opened StableSort
  import opened NumCells

  // ---------- Counting ----------

  ghost function Image<A(!new), B>(s: set<A>, f: A -> B): set<B> { set a | a in s :: f(a) }

  lemma {:induction false} InjectiveImageSize<A(!new), B>(s: set<A>, f: A -> B)
    requires forall a, b | a in s && b in s && f(a) == f(b) :: a == b
    ensures |Image(s, f)| == |s|
  {
    if s == {} {
      assert Image(s, f) == {};
    } else {
      var x :| x in s;
      InjectiveImageSize(s - {x}, f);
      assert Image(s, f) == Image(s - {x}, f) + {f(x)};
      assert f(x) !in Image(s - {x}, f);
    }
  }

  ghost predicate Between(p: Physical, start: Cell, end: Cell, v: Cell)
    requires IsIntegral(p)
  {
    && VectorOf(p, v) && |v| == |start|
    && CompareCell(start, v) != Greater && CompareCell(v, end) != Greater
  }

  ghost function RanksBetween(lo: nat, hi: nat): (r: set<nat>)
    requires lo <= hi
    ensures forall k: nat :: k in r <==> lo <= k <= hi
    ensures |r| == hi - lo + 1
    decreases hi - lo
  {
    if lo == hi then {lo} else RanksBetween(lo, hi - 1) + {hi}
  }

  /** When `num_cells` is some number, it is the number of vectors between the ends of the range. */
  lemma NumCellsCounts(p: Physical, start: Cell, end: Cell, vectors: set<Cell>)
    requires Comparable(p, start, end)
    requires forall v :: v in vectors <==> Between(p, start, end, v)
    ensures match MultiNumCells(p, start, end)
            case Value(Some(n)) => n == |vectors|
            case _ => true
  {
    MultiNumCellsMeaning(p, start, end);
    if CompareCell(start, end) != Greater {
      VectorsBetween(p, start, end, vectors);
    }
  }

  lemma {:induction false} IntervalSize(values: set<int>, lo: int, hi: int)
    requires lo <= hi + 1 && forall x :: x in values <==> lo <= x <= hi
    ensures |values| == hi - lo + 1
    decreases hi - lo + 1
  {
    if lo <= hi {
      IntervalSize(values - {hi}, lo, hi - 1);
    } else {
      assert values == {} by { assert forall x | x in values :: lo <= x <= hi; }
    }
  }

  /** For single values the number is that of the values between the ends, unless the start is after the end. */
  lemma SingleNumCellsCounts(p: Physical, start: int, end: int, values: set<int>)
    requires IsIntegral(p) && InType(p, start) && InType(p, end)
    requires forall x :: x in values <==> start <= x <= end
    ensures SingleNumCells(p, start, end) == Value(Some(|values|)) <==> start <= end
  {
    if start <= end {
      IntervalSize(values, start, end);
    } else {
      IntervalSize(values, end + 1, end);
    }
  }

  lemma BetweenIsByRank(p: Physical, start: Cell, end: Cell, v: Cell)
    requires Comparable(p, start, end)
    requires VectorOf(p, v) && |v| == |start|
    ensures Between(p, start, end, v) <==> Rank(p, start) <= Rank(p, v) <= Rank(p, end)
  {
    RankOrder(p, start, v);
    RankOrder(p, v, end);
  }

  lemma RankInjective(p: Physical, u: Cell, v: Cell)
    requires IsIntegral(p) && VectorOf(p, u) && VectorOf(p, v) && |u| == |v|
    requires Rank(p, u) == Rank(p, v)
    ensures u == v
  {
    RankOrder(p, u, v);
    CompareTotal();
  }

  ghost function RankOf(p: Physical, v: Cell): nat
    requires IsIntegral(p)
  {
    if VectorOf(p, v) then Rank(p, v) else 0
  }

  lemma VectorsBetween(p: Physical, start: Cell, end: Cell, vectors: set<Cell>)
    requires Comparable(p, start, end) && CompareCell(start, end) != Greater
    requires forall v :: v in vectors <==> Between(p, start, end, v)
    ensures |vectors| == Rank(p, end) - Rank(p, start) + 1
  {
    RankOrder(p, start, end);
    RanksOfVectors(p, start, end, vectors);
    DistinctRanks(p, |start|, vectors);
  }

  lemma RankOfInjective(p: Physical, u: Cell, v: Cell)
    requires IsIntegral(p) && VectorOf(p, u) && VectorOf(p, v) && |u| == |v|
    ensures RankOf(p, u) == RankOf(p, v) ==> u == v
  {
    if Rank(p, u) == Rank(p, v) { RankInjective(p, u, v); }
  }

  ghost function RankFunction(p: Physical): Cell -> nat
    requires IsIntegral(p)
  {
    v => RankOf(p, v)
  }

  lemma DistinctRanks(p: Physical, m: nat, vectors: set<Cell>)
    requires IsIntegral(p) && forall v | v in vectors :: VectorOf(p, v) && |v| == m
    ensures |Image(vectors, RankFunction(p))| == |vectors|
  {
    var f := RankFunction(p);
    forall u, v | u in vectors && v in vectors && f(u) == f(v)
      ensures u == v
    {
      RankOfInjective(p, u, v);
    }
    InjectiveImageSize(vectors, f);
  }

  lemma RanksOfVectors(p: Physical, start: Cell, end: Cell, vectors: set<Cell>)
    requires Comparable(p, start, end) && Rank(p, start) <= Rank(p, end)
    requires forall v :: v in vectors <==> Between(p, start, end, v)
    ensures Image(vectors, RankFunction(p)) == RanksBetween(Rank(p, start), Rank(p, end))
  {
    var image, ranks := Image(vectors, RankFunction(p)), RanksBetween(Rank(p, start), Rank(p, end));
    forall v | v in vectors ensures RankOf(p, v) in ranks {
      BetweenIsByRank(p, start, end, v);
    }
    forall k | k in ranks ensures k in image {
      RankBelow(p, end);
      RankOfUnrank(p, |start|, k);
      BetweenIsByRank(p, start, end, Unrank(p, |start|, k));
      assert Unrank(p, |start|, k) in vectors;
      assert RankFunction(p)(Unrank(p, |start|, k)) == k;
    }
  }

  // ---------- Intersection and union over any total order ----------

  predicate Ends<T>(cmp: Comparator<T>, lower: T, upper: T) { cmp(lower, upper) != Greater }

  predicate Contains<T>(cmp: Comparator<T>, lower: T, upper: T, x: T) {
    cmp(lower, x) != Greater && cmp(x, upper) != Greater
  }

  /** The generic `intersection`, with its input and output assertions. */
  function Intersection<T>(cmp: Comparator<T>, ll: T, lu: T, rl: T, ru: T): Outcome<Option<(T, T)>> {
    if !Ends(cmp, ll, lu) || !Ends(cmp, rl, ru) then Panic
    else if cmp(lu, rl) == Less || cmp(ru, ll) == Less then Value(None)
    else
      var lower := if cmp(ll, rl) == Less then rl else ll;
      var upper := if cmp(lu, ru) == Greater then ru else lu;
      if !Ends(cmp, lower, upper) then Panic else Value(Some((lower, upper)))
  }

  /** `union` of single-value ranges: `min_by` of the starts and `max_by` of the ends. */
  function UnionSingle<T>(cmp: Comparator<T>, ll: T, lu: T, rl: T, ru: T): (T, T) {
    (if cmp(ll, rl) == Greater then rl else ll, if cmp(lu, ru) == Greater then lu else ru)
  }

  /** `union` of multi- and variable-length ranges. */
  function UnionSlices<T>(cmp: Comparator<T>, ll: T, lu: T, rl: T, ru: T): (T, T) {
    (if cmp(ll, rl) == Less then ll else rl, if cmp(lu, ru) == Greater then lu else ru)
  }

  lemma Order<T(!new)>(cmp: Comparator<T>, a: T, b: T, c: T)
    requires TotalOrder(cmp)
    ensures cmp(a, b) != Greater && cmp(b, c) != Greater ==> cmp(a, c) != Greater
    ensures cmp(a, b) == Less && cmp(b, c) != Greater ==> cmp(a, c) == Less
    ensures cmp(a, b) != Greater && cmp(b, c) == Less ==> cmp(a, c) == Less
    ensures cmp(a, b) == Greater <==> cmp(b, a) == Less
    ensures cmp(a, b) == Equal <==> a == b
  {
    assert cmp(a, b) == Equal <==> a == b;
    assert cmp(b, c) == Equal <==> b == c;
    assert cmp(a, b) == cmp(b, a).Flip();
  }

  /**
   * On valid ranges `intersection` never panics: it is `None` exactly when no value is common, and
   * otherwise a valid range of exactly the common values.
   */
  lemma IntersectionIsCommon<T(!new)>(cmp: Comparator<T>, ll: T, lu: T, rl: T, ru: T, x: T)
    requires TotalOrder(cmp)
    ensures Intersection(cmp, ll, lu, rl, ru) == Panic <==> !Ends(cmp, ll, lu) || !Ends(cmp, rl, ru)
    ensures match Intersection(cmp, ll, lu, rl, ru)
            case Panic => true
            case Value(None) => !(Contains(cmp, ll, lu, x) && Contains(cmp, rl, ru, x))
            case Value(Some((lower, upper))) =>
              Ends(cmp, lower, upper)
              && Contains(cmp, ll, lu, lower) && Contains(cmp, rl, ru, lower)
              && (Contains(cmp, lower, upper, x) <==> Contains(cmp, ll, lu, x) && Contains(cmp, rl, ru, x))
  {
  }

  ghost predicate Encloses<T(!new)>(cmp: Comparator<T>, outer: (T, T), lower: T, upper: T) {
    forall x | Contains(cmp, lower, upper, x) :: Contains(cmp, outer.0, outer.1, x)
  }

  /** `u` encloses both ranges, and every range that does encloses `u`. */
  ghost predicate IsHull<T(!new)>(cmp: Comparator<T>, u: (T, T), ll: T, lu: T, rl: T, ru: T) {
    && Encloses(cmp, u, ll, lu) && Encloses(cmp, u, rl, ru)
    && forall v | Encloses(cmp, v, ll, lu) && Encloses(cmp, v, rl, ru) :: Encloses(cmp, v, u.0, u.1)
  }

  lemma UnionEncloses<T(!new)>(cmp: Comparator<T>, ll: T, lu: T, rl: T, ru: T, x: T)
    requires TotalOrder(cmp) && Ends(cmp, ll, lu) && Ends(cmp, rl, ru)
    requires Contains(cmp, ll, lu, x) || Contains(cmp, rl, ru, x)
    ensures var u := UnionSlices(cmp, ll, lu, rl, ru); Contains(cmp, u.0, u.1, x)
  {
    Order(cmp, ll, rl, x);
    Order(cmp, rl, ll, x);
    Order(cmp, x, lu, ru);
    Order(cmp, x, ru, lu);
  }

  /** The ends of the union belong to the ranges, so a range that encloses both has everything between them. */
  lemma UnionIsLeast<T(!new)>(cmp: Comparator<T>, ll: T, lu: T, rl: T, ru: T, v: (T, T), x: T)
    requires TotalOrder(cmp) && Ends(cmp, ll, lu) && Ends(cmp, rl, ru)
    requires Encloses(cmp, v, ll, lu) && Encloses(cmp, v, rl, ru)
    requires var u := UnionSlices(cmp, ll, lu, rl, ru); Contains(cmp, u.0, u.1, x)
    ensures Contains(cmp, v.0, v.1, x)
  {
    var u := UnionSlices(cmp, ll, lu, rl, ru);
    assert forall y :: cmp(y, y) == Equal;
    assert Contains(cmp, ll, lu, ll) && Contains(cmp, ll, lu, lu);
    assert Contains(cmp, rl, ru, rl) && Contains(cmp, rl, ru, ru);
    Order(cmp, v.0, u.0, x);
    Order(cmp, x, u.1, v.1);
  }

  /** Both unions agree, and are the least range that encloses the two. */
  lemma UnionIsHull<T(!new)>(cmp: Comparator<T>, ll: T, lu: T, rl: T, ru: T)
    requires TotalOrder(cmp) && Ends(cmp, ll, lu) && Ends(cmp, rl, ru)
    ensures var u := UnionSlices(cmp, ll, lu, rl, ru);
            && UnionSingle(cmp, ll, lu, rl, ru) == u
            && Ends(cmp, u.0, u.1)
            && IsHull(cmp, u, ll, lu, rl, ru)
  {
    var u := UnionSlices(cmp, ll, lu, rl, ru);
    assert cmp(ll, ll) == Equal;
    UnionEncloses(cmp, ll, lu, rl, ru, ll);
    Order(cmp, u.0, ll, u.1);
    forall x | Contains(cmp, ll, lu, x) || Contains(cmp, rl, ru, x) ensures Contains(cmp, u.0, u.1, x) {
      UnionEncloses(cmp, ll, lu, rl, ru, x);
    }
    forall v, x | Encloses(cmp, v, ll, lu) && Encloses(cmp, v, rl, ru) && Contains(cmp, u.0, u.1, x)
      ensures Contains(cmp, v.0, v.1, x)
    {
      UnionIsLeast(cmp, ll, lu, rl, ru, v, x);
    }
  }
}
