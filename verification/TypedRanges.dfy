/** `Range` with its physical type and shape, and `NonEmptyDomain`, one range per dimension. */
module TypedRanges {
  import opened Prelude
  import opened Bits
  import opened RowMajor
  import opened NumCells
  import opened RangeAlgebra

  datatype Range =
    | Single(physical: Physical, start: int, end: int)
    | Multi(physical: Physical, lower: Cell, upper: Cell)
    | Var(physical: Physical, lower: Cell, upper: Cell)

  /** Values of the type, and a start that is not after the end. */
  predicate Valid(r: Range) {
    match r
    case Single(p, a, b) => a <= b && (IsIntegral(p) ==> InType(p, a) && InType(p, b))
    case Multi(p, a, b) =>
      2 <= |a| == |b| && CompareCell(a, b) != Greater && (IsIntegral(p) ==> VectorOf(p, a) && VectorOf(p, b))
    case Var(p, a, b) => CompareCell(a, b) != Greater
  }

  function CellsIn(r: Range): Outcome<Option<int>>
    requires r.Multi? ==> |r.lower| == |r.upper|
  {
    match r
    case Single(p, a, b) => SingleNumCells(p, a, b)
    case Multi(p, a, b) => MultiNumCells(p, a, b)
    case Var(_, _, _) => Value(None)
  }

  /** Ranges that can be combined: the same shape, physical type, and number of values. */
  predicate Alike(l: Range, r: Range) {
    && l.physical == r.physical
    && (l.Single? <==> r.Single?) && (l.Multi? <==> r.Multi?)
    && (l.Multi? && r.Multi? ==> |l.lower| == |r.lower|)
  }

  function Union(l: Range, r: Range): Outcome<Range> {
    if !Alike(l, r) then Panic else
      match l
      case Single(p, a, b) =>
        var u := UnionSingle(CompareInt, a, b, r.start, r.end);
        Value(Single(p, u.0, u.1))
      case Multi(p, a, b) =>
        var u := UnionSlices(CompareCell, a, b, r.lower, r.upper);
        if |a| <= 1 || |u.0| != |a| || |u.1| != |a| then Panic else Value(Multi(p, u.0, u.1))
      case Var(p, a, b) =>
        var u := UnionSlices(CompareCell, a, b, r.lower, r.upper);
        Value(Var(p, u.0, u.1))
  }

  function Intersect(l: Range, r: Range): Outcome<Option<Range>> {
    if !Alike(l, r) then Panic else
      match l
      case Single(p, a, b) =>
        (match Intersection(CompareInt, a, b, r.start, r.end)
         case Panic => Panic
         case Value(None) => Value(None)
         case Value(Some(i)) => Value(Some(Single(p, i.0, i.1))))
      case Multi(p, a, b) =>
        (match Intersection(CompareCell, a, b, r.lower, r.upper)
         case Panic => Panic
         case Value(None) => Value(None)
         case Value(Some(i)) =>
           if |a| <= 1 || |i.0| != |a| || |i.1| != |a| then Panic else Value(Some(Multi(p, i.0, i.1))))
      case Var(p, a, b) =>
        (match Intersection(CompareCell, a, b, r.lower, r.upper)
         case Panic => Panic
         case Value(None) => Value(None)
         case Value(Some(i)) => Value(Some(Var(p, i.0, i.1))))
  }

  /** Valid ranges of the same kind can always be combined, and the results are valid. */
  lemma CombinesAlike(l: Range, r: Range)
    requires Valid(l) && Valid(r)
    ensures match Union(l, r)
            case Panic => !Alike(l, r)
            case Value(u) => Alike(l, r) && Alike(l, u) && Valid(u)
    ensures match Intersect(l, r)
            case Panic => !Alike(l, r)
            case Value(None) => Alike(l, r)
            case Value(Some(i)) => Alike(l, r) && Alike(l, i) && Valid(i)
  {
    CompareTotal();
    if Alike(l, r) {
      match l
      case Single(p, a, b) =>
        UnionIsHull(CompareInt, a, b, r.start, r.end);
        IntersectionIsCommon(CompareInt, a, b, r.start, r.end, a);
      case _ =>
        UnionIsHull(CompareCell, l.lower, l.upper, r.lower, r.upper);
        IntersectionIsCommon(CompareCell, l.lower, l.upper, r.lower, r.upper, l.lower);
    }
  }

  // ---------- What the combined ranges hold ----------

  /** The cell `x` lies in the range. */
  predicate Holds(r: Range, x: Cell) {
    match r
    case Single(_, a, b) => |x| == 1 && a <= x[0] <= b
    case Multi(_, a, b) => |x| == |a| && Contains(CompareCell, a, b, x)
    case Var(_, a, b) => Contains(CompareCell, a, b, x)
  }

  /** Combining panics exactly for different shapes, physical types, or fixed numbers of values. */
  lemma PanicsIffMismatch(l: Range, r: Range)
    requires Valid(l) && Valid(r)
    ensures Union(l, r).Panic? <==>
              || l.physical != r.physical || l.Single? != r.Single? || l.Var? != r.Var?
              || (l.Multi? && |l.lower| != |r.lower|)
    ensures Intersect(l, r).Panic? <==> Union(l, r).Panic?
  {
    CombinesAlike(l, r);
  }

  lemma IntersectAt(l: Range, r: Range, x: Cell)
    requires Valid(l) && Valid(r) && Alike(l, r)
    ensures match Intersect(l, r)
            case Panic => false
            case Value(None) => !(Holds(l, x) && Holds(r, x))
            case Value(Some(i)) => Holds(i, x) <==> Holds(l, x) && Holds(r, x)
  {
    CombinesAlike(l, r);
    CompareTotal();
    match l
    case Single(p, a, b) =>
      IntersectionIsCommon(CompareInt, a, b, r.start, r.end, if |x| == 1 then x[0] else 0);
    case _ =>
      IntersectionIsCommon(CompareCell, l.lower, l.upper, r.lower, r.upper, x);
  }

  /** A valid range holds its lower end. */
  lemma HoldsSome(r: Range) returns (x: Cell)
    requires Valid(r)
    ensures Holds(r, x)
  {
    CompareTotal();
    x := if r.Single? then [r.start] else r.lower;
    assert CompareCell(x, x) == Equal;
  }

  /**
   * For ranges of one kind, of any shape and type: the intersection is `None` exactly when no cell is
   * in both ranges, and otherwise holds exactly the cells that are in both.
   */
  lemma IntersectHoldsCommon(l: Range, r: Range)
    requires Valid(l) && Valid(r) && Alike(l, r)
    ensures Intersect(l, r).Value?
    ensures Intersect(l, r).value == None <==> forall x :: !(Holds(l, x) && Holds(r, x))
    ensures match Intersect(l, r).value
            case None => true
            case Some(i) =>
              Valid(i) && Alike(l, i) && forall x :: Holds(i, x) <==> Holds(l, x) && Holds(r, x)
  {
    CombinesAlike(l, r);
    forall x
      ensures match Intersect(l, r).value
              case None => !(Holds(l, x) && Holds(r, x))
              case Some(i) => Holds(i, x) <==> Holds(l, x) && Holds(r, x)
    {
      IntersectAt(l, r, x);
    }
    if i :| Intersect(l, r).value == Some(i) {
      var x := HoldsSome(i);
      assert Holds(l, x) && Holds(r, x);
    }
  }

  /** Every cell in `inner` is in `outer`. */
  ghost predicate HoldsAll(outer: Range, inner: Range) { forall x | Holds(inner, x) :: Holds(outer, x) }

  lemma UnionAt(l: Range, r: Range, x: Cell)
    requires Valid(l) && Valid(r) && Alike(l, r)
    ensures Union(l, r).Value?
    ensures Holds(l, x) || Holds(r, x) ==> Holds(Union(l, r).value, x)
  {
    CombinesAlike(l, r);
    CompareTotal();
    match l
    case Single(p, a, b) =>
      UnionIsHull(CompareInt, a, b, r.start, r.end);
    case _ =>
      UnionIsHull(CompareCell, l.lower, l.upper, r.lower, r.upper);
      if (Holds(l, x) || Holds(r, x)) {
        UnionEncloses(CompareCell, l.lower, l.upper, r.lower, r.upper, x);
      }
  }

  lemma UnionWithin(l: Range, r: Range, v: Range, x: Cell)
    requires Valid(l) && Valid(r) && Alike(l, r) && Alike(l, v) && HoldsAll(v, l) && HoldsAll(v, r)
    requires Union(l, r).Value? && Holds(Union(l, r).value, x)
    ensures Holds(v, x)
  {
    CompareTotal();
    match l
    case Single(p, a, b) =>
      assert Holds(l, [a]) && Holds(l, [b]) && Holds(r, [r.start]) && Holds(r, [r.end]);
      assert Holds(v, [a]) && Holds(v, [b]) && Holds(v, [r.start]) && Holds(v, [r.end]);
    case _ =>
      assert forall y :: CompareCell(y, y) == Equal;
      assert Holds(l, l.lower) && Holds(l, l.upper) && Holds(r, r.lower) && Holds(r, r.upper);
      assert Holds(v, l.lower) && Holds(v, l.upper) && Holds(v, r.lower) && Holds(v, r.upper);
      var u := UnionSlices(CompareCell, l.lower, l.upper, r.lower, r.upper);
      Order(CompareCell, v.lower, u.0, x);
      Order(CompareCell, x, u.1, v.upper);
  }

  /** The union is the least range of its kind that holds all of the cells of both ranges. */
  lemma UnionHoldsHull(l: Range, r: Range)
    requires Valid(l) && Valid(r) && Alike(l, r)
    ensures Union(l, r).Value?
    ensures var u := Union(l, r).value;
            && Valid(u) && Alike(l, u) && HoldsAll(u, l) && HoldsAll(u, r)
            && forall v | Alike(l, v) && HoldsAll(v, l) && HoldsAll(v, r) :: HoldsAll(v, u)
  {
    CombinesAlike(l, r);
    var u := Union(l, r).value;
    forall x | Holds(l, x) || Holds(r, x) ensures Holds(u, x) { UnionAt(l, r, x); }
    forall v, x | Alike(l, v) && HoldsAll(v, l) && HoldsAll(v, r) && Holds(u, x) ensures Holds(v, x) {
      UnionWithin(l, r, v, x);
    }
  }

  // ---------- Inclusion and exclusion ----------

  /** The ends of an integral range as numbers: the values themselves, or the ranks of the vectors. */
  ghost function Extent(r: Range): (int, int)
    requires Valid(r) && IsIntegral(r.physical) && !r.Var?
  {
    match r
    case Single(_, a, b) => (a, b)
    case Multi(p, a, b) => (Rank(p, a), Rank(p, b))
  }

  lemma CountIsExtent(r: Range)
    requires Valid(r) && IsIntegral(r.physical) && !r.Var?
    ensures match CellsIn(r)
            case Panic => false
            case Value(None) => r.Multi?
            case Value(Some(n)) => n == Extent(r).1 - Extent(r).0 + 1
  {
    if r.Multi? { MultiNumCellsMeaning(r.physical, r.lower, r.upper); }
  }

  lemma CombinedExtent(l: Range, r: Range)
    requires Valid(l) && Valid(r) && Alike(l, r) && IsIntegral(l.physical) && !l.Var?
    ensures Union(l, r).Value? && Valid(Union(l, r).value) && Alike(l, Union(l, r).value)
    ensures Intersect(l, r).Value?
    ensures var (a, b), (c, d) := Extent(l), Extent(r);
            && Extent(Union(l, r).value) == (Min(a, c), Max(b, d))
            && match Intersect(l, r).value
               case None => b < c || d < a
               case Some(i) => Valid(i) && Alike(l, i) && Extent(i) == (Max(a, c), Min(b, d))
  {
    CombinesAlike(l, r);
    if l.Multi? {
      var p := l.physical;
      RankOrder(p, l.lower, r.lower);
      RankOrder(p, l.upper, r.upper);
      RankOrder(p, l.upper, r.lower);
      RankOrder(p, r.upper, l.lower);
    }
  }

  lemma RankOfMost(p: Physical, v: Cell)
    requires IsIntegral(p) && VectorOf(p, v) && v != []
    ensures VectorOf(p, v[..|v| - 1]) && Rank(p, v[..|v| - 1]) == Rank(p, v) / IterFactor(p)
  {
    var m, w := |v| - 1, IterFactor(p);
    RankOfPrefix(p, v, m);
    assert v[..m + 1] == v;
    DivModUnique(Rank(p, v[..m]), v[m] - Lowest(p), w);
  }

  /** A range inside one that can be counted can be counted. */
  lemma NarrowerCounts(p: Physical, a: Cell, b: Cell, c: Cell, d: Cell)
    requires Comparable(p, a, b) && Comparable(p, c, d) && |a| == |c|
    requires Rank(p, a) <= Rank(p, c) && Rank(p, d) <= Rank(p, b)
    requires !OverflowsAtTheEnd(p, a, b)
    ensures !OverflowsAtTheEnd(p, c, d)
  {
    var w := IterFactor(p);
    RankOfMost(p, a); RankOfMost(p, b); RankOfMost(p, c); RankOfMost(p, d);
    DivMonotone(Rank(p, a), Rank(p, c), w);
    DivMonotone(Rank(p, d), Rank(p, b), w);
    var m := |a| - 1;
    var x, y := Difference(p, c, d, m), Difference(p, a, b, m);
    assert x <= y;
    if 0 <= x {
      MulMonotone(x, y, w);
    } else {
      assert x * w <= 0;
    }
  }

  lemma DivMonotone(x: nat, y: nat, w: nat)
    requires x <= y && 0 < w
    ensures x / w <= y / w
  {
    if y / w < x / w { MulLess(y / w, x / w, w); }
  }

  /** Overlapping ranges: what is in either, and what is in both, together are what is in each. */
  lemma CellsOfUnionAndIntersection(l: Range, r: Range)
    requires Valid(l) && Valid(r) && Alike(l, r)
    ensures match (CellsIn(l), CellsIn(r))
            case (Value(Some(nl)), Value(Some(nr))) =>
              (match Intersect(l, r)
               case Panic => false
               case Value(None) => true
               case Value(Some(i)) =>
                 match (CellsIn(Union(l, r).value), CellsIn(i))
                 case (Value(Some(nu)), Value(Some(ni))) => nl + nr == nu + ni
                 case (Value(None), Value(Some(_))) => l.Multi?
                 case _ => false)
            case _ => true
  {
    CombinesAlike(l, r);
    if IsIntegral(l.physical) && !l.Var? {
      CountIsExtent(l);
      CountIsExtent(r);
      CombinedExtent(l, r);
      CountIsExtent(Union(l, r).value);
      match Intersect(l, r).value
      case None =>
      case Some(i) =>
        CountIsExtent(i);
        if l.Multi? {
          MultiNumCellsMeaning(l.physical, l.lower, l.upper);
          MultiNumCellsMeaning(i.physical, i.lower, i.upper);
          if !OverflowsAtTheEnd(l.physical, l.lower, l.upper) {
            NarrowerCounts(l.physical, l.lower, l.upper, i.lower, i.upper);
          }
        }
    }
  }

  // ---------- NonEmptyDomain ----------

  function DomainUnion(l: seq<Range>, r: seq<Range>): Outcome<seq<Range>> {
    if |l| != |r| || exists i | 0 <= i < |l| :: Union(l[i], r[i]).Panic? then Panic
    else Value(seq(|l|, i requires 0 <= i < |l| => Union(l[i], r[i]).value))
  }

  /** The union of domains panics exactly for different numbers of dimensions or ranges that cannot be combined. */
  lemma DomainUnionIsPointwise(l: seq<Range>, r: seq<Range>)
    ensures match DomainUnion(l, r)
            case Panic => |l| != |r| || exists i :: 0 <= i < |l| && Union(l[i], r[i]).Panic?
            case Value(u) => |l| == |r| == |u| && forall i | 0 <= i < |u| :: Union(l[i], r[i]) == Value(u[i])
  {
  }

  // ---------- Which ranges can be counted ----------

  /** Valid ranges have no count exactly if they are of variable length, floating-point, or too large. */
  lemma NotCountedIff(r: Range)
    requires Valid(r)
    ensures CellsIn(r) == Value(None) <==>
              || r.Var? || r.physical == Float32 || r.physical == Float64
              || (r.Multi? && OverflowsAtTheEnd(r.physical, r.lower, r.upper))
  {
    if !r.Var? && IsIntegral(r.physical) {
      CountIsExtent(r);
      if r.Multi? { MultiNumCellsMeaning(r.physical, r.lower, r.upper); }
    }
  }
}
