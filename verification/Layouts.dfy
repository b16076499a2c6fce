/** The two orders in which the cells of a dense write are laid out, and when they are the same. */
module Layouts {
  import opened Prelude
  import opened Bits
  import opened RowMajor

  datatype Layout = RowMajor | ColumnMajor

  function Reversed<T>(s: seq<T>): seq<T> { seq(|s|, i requires 0 <= i < |s| => s[|s| - 1 - i]) }

  /** In column-major order the first dimension varies fastest. */
  function PositionIn(layout: Layout, dims: seq<nat>, x: seq<nat>): nat
    requires |x| == |dims|
  {
    match layout
    case RowMajor => Position(dims, x)
    case ColumnMajor => Position(Reversed(dims), Reversed(x))
  }

  lemma {:induction false} ReversedProduct(dims: seq<nat>)
    ensures Product(Reversed(dims)) == Product(dims)
  {
    if dims == [] {
      assert Reversed(dims) == dims;
    } else {
      var rest := dims[1..];
      ReversedProduct(rest);
      assert Reversed(dims) == Reversed(rest) + [dims[0]];
      PositionSnoc(Reversed(rest), Reversed(rest), dims[0], 0);
    }
  }

  lemma PositionInBelow(layout: Layout, dims: seq<nat>, x: seq<nat>)
    requires Within(dims, x)
    ensures PositionIn(layout, dims, x) < Product(dims)
  {
    ReversedProduct(dims);
    PositionBelow(dims, x);
    PositionBelow(Reversed(dims), Reversed(x));
  }

  /** Column-major cells are ordered by the last dimension in which their coordinates differ. */
  lemma LastDimensionDecides(dims: seq<nat>, x: seq<nat>, y: seq<nat>, d: nat)
    requires Within(dims, x) && Within(dims, y) && d < |dims| && x[d] < y[d]
    requires forall e | d < e < |dims| :: x[e] == y[e]
    ensures PositionIn(ColumnMajor, dims, x) < PositionIn(ColumnMajor, dims, y)
  {
    var k := |dims| - 1 - d;
    assert Reversed(x)[..k] == Reversed(y)[..k];
    assert CompareInt(Reversed(x)[k], Reversed(y)[k]) == Less;
    LessAtIsLess<int>(CompareInt, Reversed(x), Reversed(y), k);
    PositionOrder(Reversed(dims), Reversed(x), Reversed(y));
  }

  // ---------- When the orders agree ----------

  predicate AllPositive(dims: seq<nat>) { forall i | 0 <= i < |dims| :: 0 < dims[i] }

  predicate AtMostOneWide(dims: seq<nat>) {
    forall i, j | 0 <= i < j < |dims| :: dims[i] == 1 || dims[j] == 1
  }

  predicate AllOnes(dims: seq<nat>) { forall i | 0 <= i < |dims| :: dims[i] == 1 }

  lemma {:induction false} ProductOfOnes(dims: seq<nat>)
    requires AllOnes(dims)
    ensures Product(dims) == 1
  {
    if dims != [] { ProductOfOnes(dims[1..]); }
  }

  lemma {:induction false} PositionOfOneWide(dims: seq<nat>, x: seq<nat>, w: nat)
    requires Within(dims, x) && w < |dims| && forall i | 0 <= i < |dims| && i != w :: dims[i] == 1
    ensures Position(dims, x) == x[w]
  {
    if w == 0 {
      ProductOfOnes(dims[1..]);
      PositionBelow(dims[1..], x[1..]);
    } else {
      PositionOfOneWide(dims[1..], x[1..], w - 1);
      assert x[0] == 0;
    }
  }

  lemma OrdersAgree(dims: seq<nat>, x: seq<nat>)
    requires Within(dims, x) && AtMostOneWide(dims)
    ensures PositionIn(ColumnMajor, dims, x) == Position(dims, x)
  {
    if w :| 0 <= w < |dims| && dims[w] != 1 {
      PositionOfOneWide(dims, x, w);
      PositionOfOneWide(Reversed(dims), Reversed(x), |dims| - 1 - w);
    } else {
      ProductOfOnes(dims);
      PositionInBelow(ColumnMajor, dims, x);
      PositionBelow(dims, x);
    }
  }

  function Zeros(n: nat): seq<nat> { seq(n, _ => 0) }

  /** The coordinates one step from the origin in dimension `i`. */
  function Unit(n: nat, i: nat): seq<nat> { seq(n, j => if j == i then 1 else 0) }

  lemma {:induction false} PositionOfZeros(dims: seq<nat>)
    ensures Position(dims, Zeros(|dims|)) == 0
  {
    if dims != [] {
      PositionOfZeros(dims[1..]);
      assert Zeros(|dims|)[1..] == Zeros(|dims| - 1);
    }
  }

  lemma {:induction false} PositionOfUnit(dims: seq<nat>, i: nat)
    requires i < |dims|
    ensures Position(dims, Unit(|dims|, i)) == Product(dims[i + 1..])
  {
    var rest := dims[1..];
    if i == 0 {
      PositionOfZeros(rest);
      assert Unit(|dims|, 0)[1..] == Zeros(|rest|);
    } else {
      PositionOfUnit(rest, i - 1);
      assert Unit(|dims|, i)[1..] == Unit(|rest|, i - 1);
      assert rest[i..] == dims[i + 1..];
    }
  }

  lemma {:induction false} ProductAtLeast(dims: seq<nat>, i: nat)
    requires AllPositive(dims) && i < |dims|
    ensures dims[i] <= Product(dims)
  {
    var rest := dims[1..];
    if i > 0 {
      ProductAtLeast(rest, i - 1);
      MulMonotone(1, dims[0], Product(rest));
    } else {
      PositionBelow(rest, Zeros(|rest|));
      MulMonotone(1, Product(rest), dims[0]);
    }
  }

  lemma {:induction false} FirstWide(dims: seq<nat>, i: nat) returns (f: nat)
    requires i < |dims| && dims[i] != 1
    ensures f <= i && dims[f] != 1 && AllOnes(dims[..f])
  {
    if k :| 0 <= k < i && dims[k] != 1 {
      f := FirstWide(dims, k);
    } else {
      f := i;
    }
  }

  /** After dimensions of size one, a step is a step of one in column-major order. */
  lemma FirstWideUnit(dims: seq<nat>, f: nat)
    requires f < |dims| && AllOnes(dims[..f])
    ensures PositionIn(ColumnMajor, dims, Unit(|dims|, f)) == 1
  {
    var n := |dims|;
    assert Reversed(Unit(n, f)) == Unit(n, n - 1 - f);
    PositionOfUnit(Reversed(dims), n - 1 - f);
    assert Reversed(dims)[n - f..] == Reversed(dims[..f]);
    ProductOfOnes(Reversed(dims[..f]));
  }

  /** Before a wide dimension, a step is a longer one in row-major order. */
  lemma UnitBeforeWide(dims: seq<nat>, f: nat, j: nat)
    requires AllPositive(dims) && f < j < |dims|
    ensures dims[j] <= Position(dims, Unit(|dims|, f))
  {
    PositionOfUnit(dims, f);
    ProductAtLeast(dims[f + 1..], j - f - 1);
  }

  lemma OrdersDiffer(dims: seq<nat>) returns (x: seq<nat>)
    requires AllPositive(dims) && !AtMostOneWide(dims)
    ensures Within(dims, x) && PositionIn(ColumnMajor, dims, x) != Position(dims, x)
  {
    var i, j :| 0 <= i < j < |dims| && dims[i] != 1 && dims[j] != 1;
    var f := FirstWide(dims, i);
    x := Unit(|dims|, f);
    FirstWideUnit(dims, f);
    UnitBeforeWide(dims, f, j);
  }

  /** The two orders put all coordinates at the same positions exactly when at most one dimension is wide. */
  lemma OrdersAgreeIff(dims: seq<nat>)
    requires AllPositive(dims)
    ensures (forall x | Within(dims, x) :: PositionIn(ColumnMajor, dims, x) == Position(dims, x))
            <==> AtMostOneWide(dims)
  {
    if AtMostOneWide(dims) {
      forall x | Within(dims, x) ensures PositionIn(ColumnMajor, dims, x) == Position(dims, x) { OrdersAgree(dims, x); }
    } else {
      var x := OrdersDiffer(dims);
    }
  }
}
