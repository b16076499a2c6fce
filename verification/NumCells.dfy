/** How many cells a range spans: `SingleValueRange::num_cells` and `MultiValueRange::num_cells`. */
module NumCells {
  import opened Prelude
  import opened Bits
  import opened RowMajor

  /** A computation that may panic. */
  datatype Outcome<+T> = Panic | Value(value: T)

  /** One more than the largest `i128`; the largest `i128` is `I128_LIMIT - 1`. */
  const I128_LIMIT: int := 0x8000_0000_0000_0000_0000_0000_0000_0000
  const U128_LIMIT: int := 2 * I128_LIMIT

  predicate IsIntegral(p: Physical) { !p.Float32? && !p.Float64? }

  function Lowest(p: Physical): int
    requires IsIntegral(p)
  {
    match p
    case Int8 => -0x80
    case Int16 => -0x8000
    case Int32 => -0x8000_0000
    case Int64 => -0x8000_0000_0000_0000
    case _ => 0
  }

  function Highest(p: Physical): int
    requires IsIntegral(p)
  {
    match p
    case UInt8 => 0xFF
    case UInt16 => 0xFFFF
    case UInt32 => 0xFFFF_FFFF
    case UInt64 => 0xFFFF_FFFF_FFFF_FFFF
    case Int8 => 0x7F
    case Int16 => 0x7FFF
    case Int32 => 0x7FFF_FFFF
    case _ => 0x7FFF_FFFF_FFFF_FFFF
  }

  /** `2^w` for a type of `w` bits. */
  function IterFactor(p: Physical): (w: int)
    requires IsIntegral(p)
    ensures 2 <= w
  {
    Highest(p) - Lowest(p) + 1
  }

  /** The number of bits of a type. */
  function Width(p: Physical): nat {
    match p
    case UInt8 | Int8 => 8
    case UInt16 | Int16 => 16
    case UInt32 | Int32 | Float32 => 32
    case UInt64 | Int64 | Float64 => 64
  }

  predicate IsSigned(p: Physical) { p.Int8? || p.Int16? || p.Int32? || p.Int64? }

  lemma OneByteMore(n: nat)
    ensures Pow2(n + 8) == 0x100 * Pow2(n)
  {
    assert Pow2(n + 8) == 2 * Pow2(n + 7) == 4 * Pow2(n + 6) == 8 * Pow2(n + 5) == 16 * Pow2(n + 4);
    assert Pow2(n + 4) == 2 * Pow2(n + 3) == 4 * Pow2(n + 2) == 8 * Pow2(n + 1) == 16 * Pow2(n);
  }

  lemma PowersOfTwo()
    ensures Pow2(8) == 0x100 && Pow2(16) == 0x1_0000
    ensures Pow2(32) == 0x1_0000_0000 && Pow2(64) == 0x1_0000_0000_0000_0000
  {
    OneByteMore(0);
    OneByteMore(8);
    OneByteMore(16);
    OneByteMore(24);
    OneByteMore(32);
    OneByteMore(40);
    OneByteMore(48);
    OneByteMore(56);
  }

  /** The values of a type are those of its width in two's complement, or without a sign. */
  lemma RangeOfType(p: Physical)
    requires IsIntegral(p)
    ensures IterFactor(p) == Pow2(Width(p))
    ensures if IsSigned(p) then 2 * Lowest(p) == 0 - Pow2(Width(p)) else Lowest(p) == 0
  {
    PowersOfTwo();
  }

  predicate InType(p: Physical, x: int)
    requires IsIntegral(p)
  {
    Lowest(p) <= x <= Highest(p)
  }

  predicate VectorOf(p: Physical, v: Cell)
    requires IsIntegral(p)
  {
    forall i | 0 <= i < |v| :: InType(p, v[i])
  }

  // ---------- num_cells ----------

  /** The cast wraps a negative difference; the addition panics if it overflows. */
  function SingleNumCells(p: Physical, start: int, end: int): Outcome<Option<nat>> {
    if !IsIntegral(p) then Value(None) else
      var difference := end - start;
      var cast := if difference < 0 then difference + U128_LIMIT else difference;
      if cast < 0 || 1 + cast >= U128_LIMIT then Panic else Value(Some(1 + cast))
  }

  /** A start after the end: the difference wraps around to a huge count, or to a panic for neighbours. */
  lemma SingleNumCellsOutOfOrder(p: Physical, start: int, end: int)
    requires IsIntegral(p) && InType(p, start) && InType(p, end) && end < start
    ensures SingleNumCells(p, start, end) ==
            if start == end + 1 then Panic else Value(Some(U128_LIMIT - (start - end - 1)))
  {
  }

  /**
   * The `try_fold`: the multiplication is checked and ends the fold with `None`; the addition is not
   * checked, so that leaving the `i128` range there would be a panic.
   */
  function Fold(w: nat, start: Cell, end: Cell, numCells: int): Outcome<Option<int>>
    requires |start| == |end|
  {
    if start == [] then Value(Some(numCells))
    else if end[0] < start[0] && numCells == 0 then Panic
    else
      var scaled := numCells * w;
      if !(-I128_LIMIT <= scaled < I128_LIMIT) then Value(None)
      else
        var sum := scaled + (end[0] - start[0]);
        if !(-I128_LIMIT <= sum < I128_LIMIT) then Panic
        else Fold(w, start[1..], end[1..], sum)
  }

  function SkipEqual(start: Cell, end: Cell): nat
    requires |start| == |end|
  {
    if start != [] && start[0] == end[0] then 1 + SkipEqual(start[1..], end[1..]) else 0
  }

  function MultiNumCells(p: Physical, start: Cell, end: Cell): Outcome<Option<int>>
    requires |start| == |end|
  {
    if !IsIntegral(p) then Value(None) else
      var skip := SkipEqual(start, end);
      SkipEqualBound(start, end);
      match Fold(IterFactor(p), start[skip..], end[skip..], 0)
      case Panic => Panic
      case Value(None) => Value(None)
      case Value(Some(n)) => Value(Some(n + 1))
  }

  lemma {:induction false} SkipEqualBound(start: Cell, end: Cell)
    requires |start| == |end|
    ensures SkipEqual(start, end) <= |start|
    ensures start[..SkipEqual(start, end)] == end[..SkipEqual(start, end)]
    ensures SkipEqual(start, end) < |start| ==> start[SkipEqual(start, end)] != end[SkipEqual(start, end)]
  {
    if start != [] && start[0] == end[0] {
      SkipEqualBound(start[1..], end[1..]);
      var n := SkipEqual(start[1..], end[1..]);
      assert start[..n + 1] == [start[0]] + start[1..][..n];
      assert end[..n + 1] == [end[0]] + end[1..][..n];
    }
  }

  // ---------- Vectors as numbers ----------

  function Sides(w: nat, m: nat): seq<nat> { seq(m, _ => w) }

  function Shift(p: Physical, v: Cell): seq<nat>
    requires IsIntegral(p) && VectorOf(p, v)
  {
    seq(|v|, i requires 0 <= i < |v| => v[i] - Lowest(p))
  }

  /** The rank of a vector among all vectors of its length: its value as a number in base `2^w`. */
  function Rank(p: Physical, v: Cell): nat
    requires IsIntegral(p) && VectorOf(p, v)
  {
    Position(Sides(IterFactor(p), |v|), Shift(p, v))
  }

  lemma RankOfPrefix(p: Physical, v: Cell, i: nat)
    requires IsIntegral(p) && VectorOf(p, v) && i < |v|
    ensures VectorOf(p, v[..i]) && VectorOf(p, v[..i + 1])
    ensures Rank(p, v[..i + 1]) == Rank(p, v[..i]) * IterFactor(p) + (v[i] - Lowest(p))
  {
    var w, x := IterFactor(p), Shift(p, v[..i]);
    var y: nat := v[i] - Lowest(p);
    assert Sides(w, i + 1) == Sides(w, i) + [w];
    assert Shift(p, v[..i + 1]) == x + [y];
    PositionSnoc(Sides(w, i), x, w, y);
  }

  lemma ShiftOfTail(p: Physical, v: Cell)
    requires IsIntegral(p) && VectorOf(p, v) && v != []
    ensures VectorOf(p, v[1..]) && Shift(p, v)[1..] == Shift(p, v[1..])
  {
  }

  lemma {:induction false} ShiftKeepsOrder(p: Physical, u: Cell, v: Cell)
    requires IsIntegral(p) && VectorOf(p, u) && VectorOf(p, v) && |u| == |v|
    ensures CompareCell(u, v) == CompareCell(Shift(p, u), Shift(p, v))
  {
    if u != [] {
      ShiftOfTail(p, u);
      ShiftOfTail(p, v);
      ShiftKeepsOrder(p, u[1..], v[1..]);
    }
  }

  /** Vectors of one length are ordered as their ranks are. */
  lemma RankOrder(p: Physical, u: Cell, v: Cell)
    requires IsIntegral(p) && VectorOf(p, u) && VectorOf(p, v) && |u| == |v|
    ensures CompareCell(u, v) == CompareInt(Rank(p, u), Rank(p, v))
  {
    ShiftKeepsOrder(p, u, v);
    PositionOrder(Sides(IterFactor(p), |u|), Shift(p, u), Shift(p, v));
  }

  /** The vector of a rank. */
  function Unrank(p: Physical, m: nat, k: nat): Cell
    requires IsIntegral(p) && k < Product(Sides(IterFactor(p), m))
  {
    var x := Digits(Sides(IterFactor(p), m), k);
    seq(m, i requires 0 <= i < m => x[i] + Lowest(p))
  }

  lemma RankOfUnrank(p: Physical, m: nat, k: nat)
    requires IsIntegral(p) && k < Product(Sides(IterFactor(p), m))
    ensures VectorOf(p, Unrank(p, m, k)) && |Unrank(p, m, k)| == m
    ensures Rank(p, Unrank(p, m, k)) == k
  {
    var sides := Sides(IterFactor(p), m);
    PositionOfDigits(sides, k);
    assert Shift(p, Unrank(p, m, k)) == Digits(sides, k);
  }

  lemma RankBelow(p: Physical, v: Cell)
    requires IsIntegral(p) && VectorOf(p, v)
    ensures Rank(p, v) < Product(Sides(IterFactor(p), |v|))
  {
    PositionBelow(Sides(IterFactor(p), |v|), Shift(p, v));
  }

  // ---------- What the fold computes ----------

  ghost predicate Comparable(p: Physical, start: Cell, end: Cell) {
    IsIntegral(p) && VectorOf(p, start) && VectorOf(p, end) && |start| == |end| && start != []
  }

  /** The difference of the ranks of the first `i` values. */
  ghost function Difference(p: Physical, start: Cell, end: Cell, i: nat): int
    requires Comparable(p, start, end) && i <= |start|
  {
    Rank(p, end[..i]) - Rank(p, start[..i])
  }

  lemma DifferenceStep(p: Physical, start: Cell, end: Cell, i: nat)
    requires Comparable(p, start, end) && i < |start|
    ensures Difference(p, start, end, i + 1)
            == Difference(p, start, end, i) * IterFactor(p) + (end[i] - start[i])
    ensures -IterFactor(p) < end[i] - start[i] < IterFactor(p)
  {
    RankOfPrefix(p, start, i);
    RankOfPrefix(p, end, i);
    var w, a, b := IterFactor(p), Rank(p, end[..i]) as int, Rank(p, start[..i]) as int;
    assert a * w - b * w == (a - b) * w;
  }

  /** Once the difference is positive it never shrinks. */
  lemma {:induction false} DifferenceGrows(p: Physical, start: Cell, end: Cell, i: nat, j: nat)
    requires Comparable(p, start, end) && i <= j <= |start|
    requires 1 <= Difference(p, start, end, i)
    ensures Difference(p, start, end, i) <= Difference(p, start, end, j)
  {
    if i < j {
      DifferenceGrows(p, start, end, i, j - 1);
      DifferenceStep(p, start, end, j - 1);
      Scaled(Difference(p, start, end, j - 1), IterFactor(p));
    }
  }

  lemma Scaled(d: int, w: nat)
    requires 1 <= d && 2 <= w
    ensures d * w - w + 1 >= d && d * w >= w
  {
    assert (d - 1) * w >= d - 1 by { MulMonotone(1, w, d - 1); }
    assert d * w == (d - 1) * w + w;
  }

  /** `2^w` divides `2^127`. */
  lemma LimitIsMultiple(p: Physical) returns (q: nat)
    requires IsIntegral(p)
    ensures q * IterFactor(p) == I128_LIMIT
  {
    var w := IterFactor(p);
    q := if w == 0x100 then 0x80_0000_0000_0000_0000_0000_0000_0000
         else if w == 0x1_0000 then 0x8000_0000_0000_0000_0000_0000_0000
         else if w == 0x1_0000_0000 then 0x8000_0000_0000_0000_0000_0000
         else 0x8000_0000_0000_0000;
  }

  /** So a product below the limit leaves room for any difference of two values. */
  lemma RoomForTheDifference(p: Physical, d: nat)
    requires IsIntegral(p) && d * IterFactor(p) < I128_LIMIT
    ensures d * IterFactor(p) <= I128_LIMIT - IterFactor(p)
  {
    var q := LimitIsMultiple(p);
    MulLess(d, q, IterFactor(p));
  }

  ghost predicate OverflowsAtTheEnd(p: Physical, start: Cell, end: Cell)
    requires Comparable(p, start, end)
  {
    Difference(p, start, end, |start| - 1) * IterFactor(p) >= I128_LIMIT
  }

  lemma {:induction false} FoldFrom(p: Physical, start: Cell, end: Cell, i: nat)
    requires Comparable(p, start, end) && i <= |start|
    requires 1 <= Difference(p, start, end, i) < I128_LIMIT
    ensures match Fold(IterFactor(p), start[i..], end[i..], Difference(p, start, end, i))
            case Panic => false
            case Value(None) => i < |start| && OverflowsAtTheEnd(p, start, end)
            case Value(Some(n)) => n == Difference(p, start, end, |start|)
                                   && (i == |start| || !OverflowsAtTheEnd(p, start, end))
    decreases |start| - i
  {
    if i < |start| {
      var d, w := Difference(p, start, end, i), IterFactor(p);
      DifferenceStep(p, start, end, i);
      Scaled(d, w);
      assert start[i..][1..] == start[i + 1..] && end[i..][1..] == end[i + 1..];
      if d * w < I128_LIMIT {
        RoomForTheDifference(p, d);
        FoldFrom(p, start, end, i + 1);
      } else {
        DifferenceGrows(p, start, end, i, |start| - 1);
        MulMonotone(d, Difference(p, start, end, |start| - 1), w);
      }
    }
  }

  lemma {:induction false} CompareAfterPrefix(u: Cell, v: Cell, i: nat)
    requires i < |u| == |v| && u[..i] == v[..i] && u[i] != v[i]
    ensures CompareCell(u, v) == CompareInt(u[i], v[i])
  {
    if i > 0 {
      assert u[0] == u[..i][0] == v[..i][0] == v[0];
      assert u[1..][..i - 1] == u[..i][1..] && v[1..][..i - 1] == v[..i][1..];
      CompareAfterPrefix(u[1..], v[1..], i - 1);
    }
  }

  /**
   * `num_cells` panics exactly on a range whose start is after its end, and never because of the
   * unchecked addition. It is `None` exactly when the difference of the ranks of all values but the
   * last, times `2^w`, leaves the `i128` range. Otherwise it is one more than the difference of the ranks.
   */
  lemma MultiNumCellsMeaning(p: Physical, start: Cell, end: Cell)
    requires Comparable(p, start, end)
    ensures MultiNumCells(p, start, end) ==
            if CompareCell(start, end) == Greater then Panic
            else if OverflowsAtTheEnd(p, start, end) then Value(None)
            else Value(Some(Rank(p, end) - Rank(p, start) + 1))
  {
    var s, m := SkipEqual(start, end), |start|;
    SkipEqualBound(start, end);
    assert start[..m] == start && end[..m] == end;
    if s == m {
      AllEqual(p, start, end);
    } else {
      FoldAfterPrefix(p, start, end, s);
    }
  }

  lemma AllEqual(p: Physical, start: Cell, end: Cell)
    requires Comparable(p, start, end) && start == end
    ensures CompareCell(start, end) == Equal && !OverflowsAtTheEnd(p, start, end)
  {
    RankOrder(p, start, end);
  }

  /** The first step of the fold, at the first unequal values. */
  lemma FoldAfterPrefix(p: Physical, start: Cell, end: Cell, s: nat)
    requires Comparable(p, start, end) && s < |start|
    requires start[..s] == end[..s] && start[s] != end[s]
    ensures Fold(IterFactor(p), start[s..], end[s..], 0) ==
            if CompareCell(start, end) == Greater then Panic
            else if OverflowsAtTheEnd(p, start, end) then Value(None)
            else Value(Some(Difference(p, start, end, |start|)))
  {
    CompareAfterPrefix(start, end, s);
    DifferenceStep(p, start, end, s);
    assert Difference(p, start, end, s) == 0;
    assert start[s..][1..] == start[s + 1..] && end[s..][1..] == end[s + 1..];
    assert start[s..][0] == start[s] && end[s..][0] == end[s];
    if start[s] < end[s] {
      FoldFrom(p, start, end, s + 1);
    }
  }

  /** The number of cells is beyond the largest `i128`. */
  ghost predicate CountOverflows(p: Physical, start: Cell, end: Cell)
    requires Comparable(p, start, end)
  {
    Rank(p, end) - Rank(p, start) + 1 >= I128_LIMIT
  }

  lemma MultipleOrder(a: int, b: int, w: nat)
    requires a <= b
    ensures a * w <= b * w
  {
    MulMonotone(0, b - a, w);
    assert (b - a) * w == b * w - a * w;
  }

  lemma NearestMultiples(d: int, q: int, w: nat)
    ensures d + 1 < q ==> d * w <= q * w - w - w
    ensures d + 1 == q ==> d * w == q * w - w
    ensures q < d ==> d * w >= q * w + w
  {
    assert (q - 2) * w == q * w - w - w && (q - 1) * w == q * w - w && (q + 1) * w == q * w + w;
    if d + 1 < q {
      MultipleOrder(d, q - 2, w);
    } else if q < d {
      MultipleOrder(q + 1, d, w);
    }
  }

  /**
   * The documented promise, `None` if the number would overflow an `i128`, fails in exactly these
   * cases. The number is returned although it overflows when it is `2^127`: the product is the largest
   * multiple of `2^w` below the limit and the last values are the lowest and the highest of the type.
   * `None` is returned although the number fits when the product is the limit itself and the last
   * values take it back below.
   */
  lemma NoneIffOverflowAlmost(p: Physical, start: Cell, end: Cell)
    requires Comparable(p, start, end) && CompareCell(start, end) != Greater
    ensures var m, w := |start| - 1, IterFactor(p);
            var product, none := Difference(p, start, end, m) * w, MultiNumCells(p, start, end) == Value(None);
            && (CountOverflows(p, start, end) && !none <==>
                  product == I128_LIMIT - w && start[m] == Lowest(p) && end[m] == Highest(p))
            && (none && !CountOverflows(p, start, end) <==> product == I128_LIMIT && end[m] + 1 < start[m])
  {
    var m := |start| - 1;
    MultiNumCellsMeaning(p, start, end);
    DifferenceStep(p, start, end, m);
    assert start[..m + 1] == start && end[..m + 1] == end;
    var q := LimitIsMultiple(p);
    NearestMultiples(Difference(p, start, end, m), q, IterFactor(p));
  }

  /** Here the result is `2^127`, which is no `i128`, and `num_cells` returns it all the same. */
  lemma SomeDespiteOverflow()
    ensures var start, end := [0, 0], [0x7FFF_FFFF_FFFF_FFFF, 0xFFFF_FFFF_FFFF_FFFF];
            && Comparable(UInt64, start, end)
            && MultiNumCells(UInt64, start, end) == Value(Some(I128_LIMIT))
  {
    var start, end := [0, 0], [0x7FFF_FFFF_FFFF_FFFF, 0xFFFF_FFFF_FFFF_FFFF];
    var w := 0x1_0000_0000_0000_0000;
    assert start[..2] == start && end[..2] == end && start[..0] == end[..0];
    DifferenceStep(UInt64, start, end, 0);
    assert Difference(UInt64, start, end, 1) == 0 * w + 0x7FFF_FFFF_FFFF_FFFF;
    DifferenceStep(UInt64, start, end, 1);
    assert Difference(UInt64, start, end, 2) == 0x7FFF_FFFF_FFFF_FFFF * w + 0xFFFF_FFFF_FFFF_FFFF;
    assert CompareCell(start, end) == Less;
    MultiNumCellsMeaning(UInt64, start, end);
  }

  /** Here the result, `2^127 - 1`, fits an `i128`, and `num_cells` is `None` all the same. */
  lemma NoneWithoutOverflow()
    ensures var start, end := [0, 2], [0x8000_0000_0000_0000, 0];
            && Comparable(UInt64, start, end)
            && MultiNumCells(UInt64, start, end) == Value(None)
            && Rank(UInt64, end) - Rank(UInt64, start) + 1 == I128_LIMIT - 1
  {
    var start, end := [0, 2], [0x8000_0000_0000_0000, 0];
    var w := 0x1_0000_0000_0000_0000;
    assert start[..2] == start && end[..2] == end && start[..0] == end[..0];
    DifferenceStep(UInt64, start, end, 0);
    assert Difference(UInt64, start, end, 1) == 0 * w + 0x8000_0000_0000_0000;
    DifferenceStep(UInt64, start, end, 1);
    assert Difference(UInt64, start, end, 2) == 0x8000_0000_0000_0000 * w - 2;
    assert CompareCell(start, end) == Less;
    MultiNumCellsMeaning(UInt64, start, end);
  }
}
