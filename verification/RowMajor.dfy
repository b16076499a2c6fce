/** Row-major positions: coordinates over dimensions of any number and size as single numbers. */
module RowMajor {
  import opened Prelude
  import opened Bits

  function Product(dims: seq<nat>): nat {
    if dims == [] then 1 else dims[0] * Product(dims[1..])
  }

  /** The row-major position of coordinates `x`. */
  function Position(dims: seq<nat>, x: seq<nat>): nat
    requires |x| == |dims|
  {
    if dims == [] then 0 else x[0] * Product(dims[1..]) + Position(dims[1..], x[1..])
  }

  /** The coordinates at row-major position `k`. */
  function Digits(dims: seq<nat>, k: nat): seq<nat>
    requires k < Product(dims)
    ensures |Digits(dims, k)| == |dims|
  {
    if dims == [] then [] else
      var p := Product(dims[1..]);
      DivModBounds(k, dims[0], p);
      [k / p] + Digits(dims[1..], k % p)
  }

  predicate Within(dims: seq<nat>, x: seq<nat>) {
    |x| == |dims| && forall i | 0 <= i < |x| :: x[i] < dims[i]
  }

  lemma DivModBounds(k: nat, d: nat, p: nat)
    requires k < d * p
    ensures 0 < p && k / p < d && k % p < p && k == k / p * p + k % p
  {
    assert p != 0;
    MulLess(k / p, d, p);
  }

  lemma {:induction false} PositionBelow(dims: seq<nat>, x: seq<nat>)
    requires Within(dims, x)
    ensures Position(dims, x) < Product(dims)
  {
    if dims != [] {
      PositionBelow(dims[1..], x[1..]);
      MulLess(x[0], dims[0], Product(dims[1..]));
    }
  }

  /** Row-major positions and coordinates are in bijection. */
  lemma {:induction false} DigitsOfPosition(dims: seq<nat>, x: seq<nat>)
    requires Within(dims, x)
    ensures Position(dims, x) < Product(dims) && Digits(dims, Position(dims, x)) == x
  {
    PositionBelow(dims, x);
    if dims != [] {
      DigitsOfPosition(dims[1..], x[1..]);
      DivModUnique(x[0], Position(dims[1..], x[1..]), Product(dims[1..]));
      assert x == [x[0]] + x[1..];
    }
  }

  lemma {:induction false} PositionOfDigits(dims: seq<nat>, k: nat)
    requires k < Product(dims)
    ensures Within(dims, Digits(dims, k)) && Position(dims, Digits(dims, k)) == k
  {
    if dims != [] {
      var p := Product(dims[1..]);
      DivModBounds(k, dims[0], p);
      PositionOfDigits(dims[1..], k % p);
      assert Digits(dims, k)[1..] == Digits(dims[1..], k % p);
    }
  }

  /** Horner's rule: one more dimension at the end multiplies by its size and adds the coordinate. */
  lemma {:induction false} PositionSnoc(dims: seq<nat>, x: seq<nat>, d: nat, y: nat)
    requires |x| == |dims|
    ensures Product(dims + [d]) == Product(dims) * d
    ensures Position(dims + [d], x + [y]) == Position(dims, x) * d + y
  {
    if dims == [] {
      assert dims + [d] == [d] && x + [y] == [y];
      assert Product([d][1..]) == 1 && Position([d][1..], [y][1..]) == 0;
    } else {
      PositionSnoc(dims[1..], x[1..], d, y);
      assert (dims + [d])[1..] == dims[1..] + [d] && (x + [y])[1..] == x[1..] + [y];
      var p, q := Product(dims[1..]), Position(dims[1..], x[1..]);
      assert x[0] * (p * d) + q * d == (x[0] * p + q) * d;
      assert dims[0] * (p * d) == dims[0] * p * d;
    }
  }

  /** Coordinates are ordered as their positions are. */
  lemma {:induction false} PositionOrder(dims: seq<nat>, x: seq<nat>, y: seq<nat>)
    requires Within(dims, x) && Within(dims, y)
    ensures CompareCell(x, y) == CompareInt(Position(dims, x), Position(dims, y))
  {
    if dims != [] {
      PositionOrder(dims[1..], x[1..], y[1..]);
      PositionBelow(dims[1..], x[1..]);
      PositionBelow(dims[1..], y[1..]);
      MulLess(x[0], y[0], Product(dims[1..]));
      MulLess(y[0], x[0], Product(dims[1..]));
    }
  }
}
