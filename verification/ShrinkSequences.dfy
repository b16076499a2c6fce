/** Sequences of shrinking actions, and the value tree that cuts a sequence short. */
module ShrinkSequences {
  import opened Prelude

  datatype ShrinkAction = Simplify | Complicate

  /** Simplifications less complications. */
  function Height(steps: seq<ShrinkAction>): int {
    if steps == [] then 0 else
      var last := |steps| - 1;
      Height(steps[..last]) + if steps[last].Simplify? then 1 else -1
  }

  /** At no point have there been more complications than simplifications. */
  ghost predicate Balanced(steps: seq<ShrinkAction>) {
    forall k | 0 <= k <= |steps| :: 0 <= Height(steps[..k])
  }

  /** The height counts the simplifications and takes off the complications. */
  lemma {:induction false} HeightCounts(steps: seq<ShrinkAction>)
    ensures Height(steps) + multiset(steps)[Complicate] == multiset(steps)[Simplify]
  {
    if steps != [] {
      var last := |steps| - 1;
      HeightCounts(steps[..last]);
      assert steps == steps[..last] + [steps[last]];
    }
  }

  /** Balanced sequences are those in which no prefix has more complications than simplifications. */
  lemma BalancedIff(steps: seq<ShrinkAction>)
    ensures Balanced(steps) <==>
            forall k | 0 <= k <= |steps| :: multiset(steps[..k])[Complicate] <= multiset(steps[..k])[Simplify]
  {
    forall k | 0 <= k <= |steps|
      ensures 0 <= Height(steps[..k]) <==> multiset(steps[..k])[Complicate] <= multiset(steps[..k])[Simplify]
    {
      HeightCounts(steps[..k]);
    }
  }

  lemma {:induction false} HeightBound(steps: seq<ShrinkAction>)
    ensures Height(steps) <= |steps|
  {
    if steps != [] { HeightBound(steps[..|steps| - 1]); }
  }

  lemma BalancedGrows(steps: seq<ShrinkAction>, action: ShrinkAction)
    requires Balanced(steps) && (action.Complicate? ==> 0 < Height(steps))
    ensures Balanced(steps + [action])
  {
    var next := steps + [action];
    assert next[..|steps|] == steps && next[..|next|] == next;
    assert steps[..|steps|] == steps;
    forall k | 0 <= k <= |next| ensures 0 <= Height(next[..k]) {
      if k <= |steps| { assert next[..k] == steps[..k]; }
    }
  }

  lemma {:induction false} HeightConcat(a: seq<ShrinkAction>, b: seq<ShrinkAction>)
    ensures Height(a + b) == Height(a) + Height(b)
  {
    if b == [] {
      assert a + b == a;
    } else {
      var last := |b| - 1;
      HeightConcat(a, b[..last]);
      assert (a + b)[..|a + b| - 1] == a + b[..last];
    }
  }

  lemma BalancedConcat(a: seq<ShrinkAction>, b: seq<ShrinkAction>)
    requires Balanced(a) && Balanced(b)
    ensures Balanced(a + b) && Height(a + b) == Height(a) + Height(b)
  {
    HeightConcat(a, b);
    assert a[..|a|] == a;
    forall k | 0 <= k <= |a + b| ensures 0 <= Height((a + b)[..k]) {
      if k <= |a| {
        assert (a + b)[..k] == a[..k];
      } else {
        assert (a + b)[..k] == a + b[..k - |a|];
        HeightConcat(a, b[..k - |a|]);
      }
    }
  }

  lemma OneSimplify()
    ensures Balanced([Simplify]) && Height([Simplify]) == 1
  {
  }

  // ---------- ShrinkSequenceStrategy ----------

  /** A source of random numbers: `sample(i, max)` is the one drawn for place `i`, between 0 and `max`. */
  type Sample = (nat, nat) -> nat

  ghost predicate Uniform(sample: Sample) { forall i: nat, max: nat :: sample(i, max) <= max }

  /** The action after `steps`. Place 0 is that of the length, so this is the draw for place `|steps| + 1`. */
  function NextAction(maxLength: nat, sample: Sample, steps: seq<ShrinkAction>): ShrinkAction
    requires |steps| < maxLength
  {
    HeightBound(steps);
    if Height(steps) == 0 then Simplify
    else if sample(|steps| + 1, maxLength - Height(steps)) == 0 then Complicate
    else Simplify
  }

  function Generated(maxLength: nat, sample: Sample, n: nat): (steps: seq<ShrinkAction>)
    requires n <= maxLength
    ensures |steps| == n
  {
    if n == 0 then [] else
      var before := Generated(maxLength, sample, n - 1);
      before + [NextAction(maxLength, sample, before)]
  }

  /**
   * `ShrinkSequenceStrategy::new_tree`, for any random choices. The subtraction in the upper bound of
   * the draw never underflows.
   */
  method NewTree(maxLength: nat, sample: Sample) returns (steps: seq<ShrinkAction>)
    requires Uniform(sample)
    ensures sample(0, maxLength) <= maxLength
    ensures steps == Generated(maxLength, sample, sample(0, maxLength))
    ensures Balanced(steps)
  {
    var desiredLength := sample(0, maxLength);
    steps := [];
    GeneratedBalanced(maxLength, sample, desiredLength);
    if desiredLength == 0 { return; }
    var numShrinks: nat := 0;
    while |steps| < desiredLength
      invariant |steps| <= desiredLength <= maxLength
      invariant IsGenerated(maxLength, sample, steps) && numShrinks == Height(steps) <= |steps|
    {
      ghost var before := steps;
      OneMore(maxLength, sample, before);
      if numShrinks == 0 {
        numShrinks := 1;
        steps := steps + [Simplify];
      } else {
        var max: nat := maxLength - numShrinks;
        var value := sample(|steps| + 1, max);
        numShrinks := if value == 0 then numShrinks - 1 else numShrinks + 1;
        steps := steps + [if value == 0 then Complicate else Simplify];
      }
      assert steps == before + [NextAction(maxLength, sample, before)];
    }
  }

  ghost predicate IsGenerated(maxLength: nat, sample: Sample, steps: seq<ShrinkAction>) {
    |steps| <= maxLength && steps == Generated(maxLength, sample, |steps|)
  }

  lemma OneMore(maxLength: nat, sample: Sample, steps: seq<ShrinkAction>)
    requires |steps| < maxLength && IsGenerated(maxLength, sample, steps)
    ensures var action := NextAction(maxLength, sample, steps);
            && IsGenerated(maxLength, sample, steps + [action])
            && Height(steps + [action]) == Height(steps) + (if action.Simplify? then 1 else -1) <= |steps| + 1
  {
    var action := NextAction(maxLength, sample, steps);
    assert (steps + [action])[..|steps|] == steps;
    HeightBound(steps + [action]);
  }

  lemma {:induction false} GeneratedBalanced(maxLength: nat, sample: Sample, n: nat)
    requires n <= maxLength
    ensures Balanced(Generated(maxLength, sample, n))
  {
    if n > 0 {
      GeneratedBalanced(maxLength, sample, n - 1);
      var before := Generated(maxLength, sample, n - 1);
      assert before[..|before|] == before;
      BalancedGrows(before, NextAction(maxLength, sample, before));
    }
  }

  /** An action complicates exactly if there is something to take back and zero was drawn for it. */
  lemma {:induction false} DrawsDecide(maxLength: nat, sample: Sample, n: nat, k: nat)
    requires k < n <= maxLength
    ensures var steps := Generated(maxLength, sample, n);
            && Height(steps[..k]) <= k
            && (steps[k] == Complicate <==>
                  Height(steps[..k]) != 0 && sample(k + 1, maxLength - Height(steps[..k])) == 0)
    decreases n
  {
    var before := Generated(maxLength, sample, n - 1);
    HeightBound(before);
    assert Generated(maxLength, sample, n)[..n - 1] == before;
    if k < n - 1 {
      DrawsDecide(maxLength, sample, n - 1, k);
      assert Generated(maxLength, sample, n)[..k] == before[..k];
    }
  }

  /** The numbers to draw for a given sequence. */
  function SampleFor(steps: seq<ShrinkAction>): Sample {
    (i: nat, max: nat) =>
      if i == 0 then Min(|steps|, max)
      else if 0 < i <= |steps| && steps[i - 1].Simplify? then max
      else 0
  }

  lemma NextIsSampled(maxLength: nat, steps: seq<ShrinkAction>, n: nat)
    requires Balanced(steps) && n < |steps| <= maxLength
    ensures NextAction(maxLength, SampleFor(steps), steps[..n]) == steps[n]
  {
    HeightBound(steps[..n]);
    assert steps[..n + 1][..n] == steps[..n];
    assert 0 <= Height(steps[..n]) && 0 <= Height(steps[..n + 1]);
  }

  lemma {:induction false} GeneratesPrefix(maxLength: nat, steps: seq<ShrinkAction>, n: nat)
    requires Balanced(steps) && n <= |steps| <= maxLength
    ensures Generated(maxLength, SampleFor(steps), n) == steps[..n]
  {
    if n > 0 {
      GeneratesPrefix(maxLength, steps, n - 1);
      NextIsSampled(maxLength, steps, n - 1);
      assert steps[..n] == steps[..n - 1] + [steps[n - 1]];
    }
  }

  ghost predicate Yields(maxLength: nat, sample: Sample, steps: seq<ShrinkAction>) {
    && Uniform(sample) && sample(0, maxLength) <= maxLength
    && Generated(maxLength, sample, sample(0, maxLength)) == steps
  }

  /** What can be generated is exactly the balanced sequences of at most the maximum length. */
  lemma YieldsExactlyBalanced(maxLength: nat, steps: seq<ShrinkAction>)
    ensures (exists sample :: Yields(maxLength, sample, steps)) <==> Balanced(steps) && |steps| <= maxLength
  {
    if Balanced(steps) && |steps| <= maxLength {
      GeneratesPrefix(maxLength, steps, |steps|);
      assert steps[..|steps|] == steps;
      assert Yields(maxLength, SampleFor(steps), steps);
    }
    if sample :| Yields(maxLength, sample, steps) {
      GeneratedBalanced(maxLength, sample, sample(0, maxLength));
    }
  }

  // ---------- SequenceValueTree ----------

  datatype Cut = Cut(bound: nat, current: nat)

  function SimplifyCut(c: Cut): (Cut, bool) {
    if c.current > 0 then (Cut(c.current, c.current / 2), true) else (Cut(c.current, c.current), false)
  }

  function ComplicateCut(c: Cut): (Cut, bool) {
    if c.current < c.bound then (Cut(c.bound, c.current + 1), true) else (c, false)
  }

  function ApplyCut(c: Cut, action: ShrinkAction): (Cut, bool) {
    if action.Simplify? then SimplifyCut(c) else ComplicateCut(c)
  }

  /** Where a series of actions leads. */
  function CutAfter(c: Cut, actions: seq<ShrinkAction>): Cut {
    if actions == [] then c else
      var last := |actions| - 1;
      ApplyCut(CutAfter(c, actions[..last]), actions[last]).0
  }

  class SequenceValueTree<T> {
    const initialSequence: seq<T>
    var boundLength: nat
    var currentLength: nat

    ghost predicate Valid() reads this { currentLength <= boundLength <= |initialSequence| }

    ghost function View(): Cut reads this { Cut(boundLength, currentLength) }

    constructor (initialSequence: seq<T>)
      ensures Valid() && this.initialSequence == initialSequence
      ensures View() == Cut(|initialSequence|, |initialSequence|)
    {
      this.initialSequence := initialSequence;
      boundLength, currentLength := |initialSequence|, |initialSequence|;
    }

    method Current() returns (value: seq<T>)
      requires Valid()
      ensures value == initialSequence[..currentLength]
    {
      value := initialSequence[0..currentLength];
    }

    method Simplify() returns (ok: bool)
      requires Valid()
      modifies this
      ensures Valid() && (View(), ok) == SimplifyCut(old(View()))
    {
      boundLength := currentLength;
      if currentLength > 0 {
        currentLength := currentLength / 2;
        return true;
      }
      return false;
    }

    method Complicate() returns (ok: bool)
      requires Valid()
      modifies this
      ensures Valid() && (View(), ok) == ComplicateCut(old(View()))
    {
      if currentLength < boundLength {
        currentLength := currentLength + 1;
        return true;
      }
      return false;
    }
  }

  /** Applies a series of actions to a new tree and looks at the value. */
  method ShrunkBy<T>(initialSequence: seq<T>, actions: seq<ShrinkAction>) returns (value: seq<T>)
    ensures var n := |initialSequence|;
            && CutAfter(Cut(n, n), actions).current <= n
            && value == initialSequence[..CutAfter(Cut(n, n), actions).current]
  {
    var tree := new SequenceValueTree(initialSequence);
    ghost var start := tree.View();
    for i := 0 to |actions|
      invariant tree.Valid() && tree.initialSequence == initialSequence && fresh(tree)
      invariant tree.View() == CutAfter(start, actions[..i])
    {
      assert actions[..i + 1][..i] == actions[..i];
      var ok;
      if actions[i].Simplify? { ok := tree.Simplify(); } else { ok := tree.Complicate(); }
    }
    assert actions[..|actions|] == actions;
    value := tree.Current();
  }

  /** Simplifying over and over halves the length each time. */
  lemma {:induction false} SimplifyingHalves(c: Cut, actions: seq<ShrinkAction>)
    requires forall i | 0 <= i < |actions| :: actions[i] == Simplify
    ensures CutAfter(c, actions).current == c.current / Pow2(|actions|)
  {
    if actions != [] {
      var last := |actions| - 1;
      SimplifyingHalves(c, actions[..last]);
      HalfOfQuotient(c.current, last);
    }
  }

  /** Complicating over and over adds one element each time, up to the length before the last simplification. */
  lemma {:induction false} ComplicatingGrows(c: Cut, actions: seq<ShrinkAction>)
    requires 0 < c.current
    requires forall i | 0 <= i < |actions| :: actions[i] == Complicate
    ensures CutAfter(c, [Simplify] + actions) == Cut(c.current, Min(c.current / 2 + |actions|, c.current))
  {
    var all := [Simplify] + actions;
    if actions == [] {
      assert all == [Simplify] && all[..0] == [];
    } else {
      var last := |actions| - 1;
      ComplicatingGrows(c, actions[..last]);
      assert all[..|all| - 1] == [Simplify] + actions[..last];
    }
  }

  predicate ValidCut(c: Cut, length: nat) { c.current <= c.bound <= length }

  lemma {:induction false} CutAfterValid(c: Cut, actions: seq<ShrinkAction>, length: nat)
    requires ValidCut(c, length)
    ensures ValidCut(CutAfter(c, actions), length)
  {
    if actions != [] { CutAfterValid(c, actions[..|actions| - 1], length); }
  }

  lemma PrefixBalanced(steps: seq<ShrinkAction>, n: nat)
    requires Balanced(steps) && n <= |steps|
    ensures Balanced(steps[..n])
  {
    forall k | 0 <= k <= n ensures 0 <= Height(steps[..n][..k]) { assert steps[..n][..k] == steps[..k]; }
  }

  /** After any series of actions, the value of the tree of a generated sequence could have been generated too. */
  lemma CutsAreBalanced(steps: seq<ShrinkAction>, actions: seq<ShrinkAction>)
    requires Balanced(steps)
    ensures var n := CutAfter(Cut(|steps|, |steps|), actions).current; n <= |steps| && Balanced(steps[..n])
  {
    CutAfterValid(Cut(|steps|, |steps|), actions, |steps|);
    PrefixBalanced(steps, CutAfter(Cut(|steps|, |steps|), actions).current);
  }

  /** No action of the series has any effect. */
  ghost predicate Final(c: Cut, actions: seq<ShrinkAction>) {
    forall k | 0 <= k < |actions| :: !ApplyCut(CutAfter(c, actions[..k]), actions[k]).1
  }

  lemma {:induction false} EmptyStays(c: Cut, actions: seq<ShrinkAction>)
    requires c == Cut(0, 0)
    ensures CutAfter(c, actions) == c
  {
    if actions != [] { EmptyStays(c, actions[..|actions| - 1]); }
  }

  /** A call that reports the end is the last to have an effect only if nothing is left of the sequence. */
  lemma EndIsFinalIff(c: Cut, action: ShrinkAction, length: nat)
    requires ValidCut(c, length) && !ApplyCut(c, action).1
    ensures (forall actions :: Final(ApplyCut(c, action).0, actions)) <==> c.current == 0
  {
    var t := ApplyCut(c, action).0;
    if c.current == 0 {
      assert t == Cut(0, 0);
      forall actions ensures Final(t, actions) {
        forall k | 0 <= k < |actions| ensures !ApplyCut(CutAfter(t, actions[..k]), actions[k]).1 {
          EmptyStays(t, actions[..k]);
        }
      }
    } else {
      assert [Simplify][..0] == [];
      assert !Final(t, [Simplify]);
    }
  }

  /** On two elements, a balanced series whose fourth action reports the end and whose fifth has an effect. */
  lemma EndIsNotFinal()
    ensures var steps := [Simplify, Simplify, Complicate, Complicate, Simplify];
            && Balanced(steps)
            && !ApplyCut(CutAfter(Cut(2, 2), steps[..3]), steps[3]).1
            && ApplyCut(CutAfter(Cut(2, 2), steps[..4]), steps[4]).1
  {
    var a := [Simplify];
    OneSimplify();
    BalancedGrows(a, Simplify);
    var b := a + [Simplify];
    BalancedGrows(b, Complicate);
    var c := b + [Complicate];
    BalancedGrows(c, Complicate);
    var d := c + [Complicate];
    BalancedGrows(d, Simplify);
    var steps := d + [Simplify];
    assert steps == [Simplify, Simplify, Complicate, Complicate, Simplify];
    assert steps[..4] == d && d[..3] == steps[..3] == c && c[..2] == b && b[..1] == a && a[..0] == [];
    assert CutAfter(Cut(2, 2), a) == Cut(2, 1) && CutAfter(Cut(2, 2), b) == Cut(1, 0);
    assert CutAfter(Cut(2, 2), c) == Cut(1, 1) && CutAfter(Cut(2, 2), d) == Cut(1, 1);
  }

  /** One call of the driver, for a test that fails on sequences of at least `threshold` elements. */
  function Drive(c: Cut, threshold: nat): (Cut, bool) {
    if c.current >= threshold then SimplifyCut(c) else ComplicateCut(c)
  }

  function After(c: Cut, threshold: nat, calls: nat): Cut {
    if calls == 0 then c else Drive(After(c, threshold, calls - 1), threshold).0
  }

  lemma {:induction false} BoundStaysAbove(length: nat, threshold: nat, calls: nat)
    requires threshold <= length
    ensures threshold <= After(Cut(length, length), threshold, calls).bound
  {
    if calls > 0 { BoundStaysAbove(length, threshold, calls - 1); }
  }

  lemma {:induction false} AlwaysShrinks(length: nat, calls: nat)
    requires calls <= length
    ensures After(Cut(length, length), 0, calls).current <= length - calls
  {
    if calls > 0 { AlwaysShrinks(length, calls - 1); }
  }

  /** The driver reports the end after this many calls. */
  predicate StopsAfter(length: nat, threshold: nat, calls: nat) {
    !Drive(After(Cut(length, length), threshold, calls), threshold).1
  }

  /**
   * The search for the shortest failing prefix ends only when there is nothing to search for: when
   * every sequence fails, or the initial one does not. Otherwise no call ever reports the end, because
   * no lower bound is kept.
   */
  lemma ThresholdSearchEndsIff(length: nat, threshold: nat)
    ensures (exists calls: nat :: StopsAfter(length, threshold, calls)) <==> threshold == 0 || length < threshold
  {
    if length < threshold {
      assert StopsAfter(length, threshold, 0);
    } else if threshold == 0 {
      AlwaysShrinks(length, length);
      assert StopsAfter(length, threshold, length);
    } else {
      forall calls: nat ensures !StopsAfter(length, threshold, calls) {
        BoundStaysAbove(length, threshold, calls);
      }
    }
  }
}
