/** Physical values under the total order `BitsOrd`, and the lexicographic order it induces. */
module Bits {

  datatype Ordering = Less | Equal | Greater
  {
    function Flip(): Ordering {
      match this
      case Less => Greater
      case Equal => Equal
      case Greater => Less
    }
  }

  datatype Physical = UInt8 | UInt16 | UInt32 | UInt64 | Int8 | Int16 | Int32 | Int64 | Float32 | Float64

  /** A physical value is named by its rank in the order of its type; a cell holds one or several values. */
  type Cell = seq<int>

  ghost predicate TotalOrder<T(!new)>(cmp: (T, T) -> Ordering) {
    && (forall a, b :: cmp(a, b) == Equal <==> a == b)
    && (forall a, b :: cmp(a, b) == cmp(b, a).Flip())
    && (forall a, b, c :: cmp(a, b) == Less && cmp(b, c) == Less ==> cmp(a, c) == Less)
  }

  function CompareInt(a: int, b: int): Ordering {
    if a < b then Less else if a == b then Equal else Greater
  }

  /** `bits_cmp` on slices: the first unequal pair decides, then the lengths. */
  function Lexicographic<T>(cmp: (T, T) -> Ordering, l: seq<T>, r: seq<T>): Ordering {
    if l == [] || r == [] then CompareInt(|l|, |r|)
    else match cmp(l[0], r[0])
      case Less => Less
      case Greater => Greater
      case Equal => Lexicographic(cmp, l[1..], r[1..])
  }

  function CompareCell(l: Cell, r: Cell): Ordering { Lexicographic(CompareInt, l, r) }

  function CompareKey(l: seq<Cell>, r: seq<Cell>): Ordering { Lexicographic(CompareCell, l, r) }

  /** The first unequal values decide, whatever follows them. */
  lemma {:induction false} FirstUnequalDecides<T(!new)>(cmp: (T, T) -> Ordering, p: seq<T>, x: T, y: T,
                                                       a: seq<T>, b: seq<T>)
    requires TotalOrder(cmp) && cmp(x, y) == Less
    ensures Lexicographic(cmp, p + [x] + a, p + [y] + b) == Less
  {
    var l, r := p + [x] + a, p + [y] + b;
    if p != [] {
      FirstUnequalDecides(cmp, p[1..], x, y, a, b);
      assert cmp(p[0], p[0]) == Equal;
      assert l[1..] == p[1..] + [x] + a && r[1..] == p[1..] + [y] + b;
    }
  }

  lemma {:induction false} PrefixIsLess<T(!new)>(cmp: (T, T) -> Ordering, p: seq<T>, x: T, a: seq<T>)
    requires TotalOrder(cmp)
    ensures Lexicographic(cmp, p, p + [x] + a) == Less
  {
    if p != [] {
      PrefixIsLess(cmp, p[1..], x, a);
      assert cmp(p[0], p[0]) == Equal;
      assert (p + [x] + a)[1..] == p[1..] + [x] + a;
    }
  }

  /** `l` and `r` first differ at `k`, where `l` has ended or has the smaller value. */
  ghost predicate LessAt<T>(cmp: (T, T) -> Ordering, l: seq<T>, r: seq<T>, k: nat) {
    k <= |l| && k < |r| && l[..k] == r[..k] && (k == |l| || cmp(l[k], r[k]) == Less)
  }

  lemma LessAtIsLess<T(!new)>(cmp: (T, T) -> Ordering, l: seq<T>, r: seq<T>, k: nat)
    requires TotalOrder(cmp) && LessAt(cmp, l, r, k)
    ensures Lexicographic(cmp, l, r) == Less
  {
    assert r == r[..k] + [r[k]] + r[k + 1..];
    if k == |l| {
      assert l[..k] == l;
      PrefixIsLess(cmp, l, r[k], r[k + 1..]);
    } else {
      assert l == l[..k] + [l[k]] + l[k + 1..];
      FirstUnequalDecides(cmp, l[..k], l[k], r[k], l[k + 1..], r[k + 1..]);
    }
  }

  lemma {:induction false} LessHasPlace<T(!new)>(cmp: (T, T) -> Ordering, l: seq<T>, r: seq<T>) returns (k: nat)
    requires TotalOrder(cmp) && Lexicographic(cmp, l, r) == Less
    ensures LessAt(cmp, l, r, k)
  {
    if l == [] || r == [] || cmp(l[0], r[0]) == Less {
      k := 0;
    } else {
      assert l[0] == r[0];
      var j := LessHasPlace(cmp, l[1..], r[1..]);
      k := j + 1;
      assert l[..k] == [l[0]] + l[1..][..j] && r[..k] == [r[0]] + r[1..][..j];
    }
  }

  /**
   * For slices of any lengths: one is before another exactly when it has the smaller value at the first
   * place where they differ, or ends there.
   */
  lemma LexicographicLessIff<T(!new)>(cmp: (T, T) -> Ordering, l: seq<T>, r: seq<T>)
    requires TotalOrder(cmp)
    ensures Lexicographic(cmp, l, r) == Less <==> exists k :: LessAt(cmp, l, r, k)
  {
    if Lexicographic(cmp, l, r) == Less {
      var k := LessHasPlace(cmp, l, r);
    }
    if k :| LessAt(cmp, l, r, k) { LessAtIsLess(cmp, l, r, k); }
  }

  lemma {:induction false} LexicographicEqual<T(!new)>(cmp: (T, T) -> Ordering, l: seq<T>, r: seq<T>)
    requires TotalOrder(cmp)
    ensures Lexicographic(cmp, l, r) == Equal <==> l == r
    ensures Lexicographic(cmp, l, r) == Lexicographic(cmp, r, l).Flip()
  {
    if l != [] && r != [] {
      LexicographicEqual(cmp, l[1..], r[1..]);
      assert l == [l[0]] + l[1..] && r == [r[0]] + r[1..];
      assert cmp(l[0], r[0]) == cmp(r[0], l[0]).Flip();
    }
  }

  lemma {:induction false} LexicographicTransitive<T(!new)>(cmp: (T, T) -> Ordering, a: seq<T>, b: seq<T>, c: seq<T>)
    requires TotalOrder(cmp)
    requires Lexicographic(cmp, a, b) == Less && Lexicographic(cmp, b, c) == Less
    ensures Lexicographic(cmp, a, c) == Less
  {
    if a != [] && b != [] && c != [] {
      var x, y := cmp(a[0], b[0]), cmp(b[0], c[0]);
      assert x == Equal <==> a[0] == b[0];
      assert y == Equal <==> b[0] == c[0];
      if x == Equal && y == Equal {
        LexicographicTransitive(cmp, a[1..], b[1..], c[1..]);
      }
    }
  }

  /** The lexicographic order over a total order is total, for vectors of any lengths. */
  lemma LexicographicTotal<T(!new)>(cmp: (T, T) -> Ordering)
    requires TotalOrder(cmp)
    ensures TotalOrder((l: seq<T>, r: seq<T>) => Lexicographic(cmp, l, r))
  {
    forall l: seq<T>, r: seq<T>
      ensures Lexicographic(cmp, l, r) == Equal <==> l == r
      ensures Lexicographic(cmp, l, r) == Lexicographic(cmp, r, l).Flip()
    {
      LexicographicEqual(cmp, l, r);
    }
    forall a: seq<T>, b: seq<T>, c: seq<T> | Lexicographic(cmp, a, b) == Less && Lexicographic(cmp, b, c) == Less
      ensures Lexicographic(cmp, a, c) == Less
    {
      LexicographicTransitive(cmp, a, b, c);
    }
  }

  /** `bits_cmp` is a total order on cells and on tuples of cells, and its equality is `bits_eq`. */
  lemma CompareTotal()
    ensures TotalOrder(CompareCell)
    ensures TotalOrder(CompareKey)
  {
    LexicographicTotal(CompareInt);
    var f := (l: seq<int>, r: seq<int>) => Lexicographic(CompareInt, l, r);
    assert forall l, r :: CompareCell(l, r) == f(l, r);
    assert TotalOrder(CompareCell);
    LexicographicTotal(CompareCell);
    var g := (l: seq<Cell>, r: seq<Cell>) => Lexicographic(CompareCell, l, r);
    assert forall l, r :: CompareKey(l, r) == g(l, r);
  }
}
