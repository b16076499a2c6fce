/** The search under the actions of a generated shrink sequence instead of the answers of a test. */
module ArbitraryShrinks {
  import opened Prelude
  import opened RecordsSearch
  import opened ShrinkSequences

  /** A simplification tells the tree that the test failed, a complication that it passed. */
  function Answers(steps: seq<ShrinkAction>): seq<bool> {
    seq(|steps|, i requires 0 <= i < |steps| => steps[i].Simplify?)
  }

  ghost predicate Panics(s: State, steps: seq<ShrinkAction>) { Run(s, Answers(steps)) == None }

  lemma RunActions(s: State, a: seq<ShrinkAction>, b: seq<ShrinkAction>)
    ensures Run(s, Answers(a + b)) == match Run(s, Answers(a)) case None => None case Some(t) => Run(t, Answers(b))
  {
    assert Answers(a + b) == Answers(a) + Answers(b);
    RunConcat(s, Answers(a), Answers(b));
  }

  lemma RunOne(s: State, action: ShrinkAction)
    ensures Run(s, Answers([action])) == match Step(s, action.Simplify?)
                                         case Panicked => None
                                         case More(t) => Some(t)
                                         case Stopped(t) => Some(t)
  {
  }

  /** Simplifying through a whole level drops all of its records at once. */
  lemma {:induction false} SimplifyLevel(s: State, c: nat) returns (steps: seq<ShrinkAction>, t: State)
    requires RecordsSearch.Valid(s) && s.search == Some(Explore(c)) && s.included != []
    requires forall i | 0 <= i < c :: s.results[i] == Some(true)
    ensures Run(s, Answers(steps)) == Some(t) && RecordsSearch.Valid(t)
    ensures t.search == Some(Recur) && t.last == Some(s.included) && |t.results| == |s.results|
    ensures Balanced(steps) && 0 < Height(steps) && |steps| == s.NumChunks() - c
    decreases s.NumChunks() - c
  {
    StepKeepsValid(s, true);
    var next := Step(s, true).next;
    RunOne(s, Simplify);
    OneSimplify();
    if c + 1 < s.NumChunks() {
      var rest;
      rest, t := SimplifyLevel(next, c + 1);
      RunActions(s, [Simplify], rest);
      BalancedConcat([Simplify], rest);
      steps := [Simplify] + rest;
    } else {
      NeededAll(s.included, s.NumChunks(), s.results[c := Some(true)], s.total);
      steps, t := [Simplify], next;
    }
  }

  /** Dropping everything, rolling back to half as many chunks, and so on until one chunk is left. */
  lemma {:induction false} RollbacksPanic(s: State) returns (steps: seq<ShrinkAction>)
    requires RecordsSearch.Valid(s) && s.search == Some(Explore(0)) && s.included != []
    ensures Panics(s, steps) && Balanced(steps)
    ensures |steps| <= 2 * |s.results| + Halvings(|s.results|)
    decreases |s.results|
  {
    var level, t := SimplifyLevel(s, 0);
    StepKeepsValid(t, false);
    RunOne(t, Complicate);
    RunActions(s, level, [Complicate]);
    BalancedGrows(level, Complicate);
    steps := level + [Complicate];
    if |t.results| > 1 {
      var u := Step(t, false).next;
      var rest := RollbacksPanic(u);
      RunActions(s, steps, rest);
      BalancedConcat(steps, rest);
      steps := steps + rest;
    }
  }

  /** On a non-empty input at most 20 actions make the search panic. */
  lemma ShortSequencePanics(minRecords: nat, total: nat) returns (steps: seq<ShrinkAction>)
    requires 0 < total
    ensures Balanced(steps) && |steps| <= 20 && Panics(Initial(minRecords, total), steps)
  {
    var s := Initial(minRecords, total);
    StepKeepsValid(s, true);
    RunOne(s, Simplify);
    OneSimplify();
    var rest := RollbacksPanic(Step(s, true).next);
    HalvingsOfChunks(Min(total, DEFAULT_EXPLORE_CHUNKS));
    RunActions(s, [Simplify], rest);
    BalancedConcat([Simplify], rest);
    steps := [Simplify] + rest;
  }

  ghost predicate SamplePanics(minRecords: nat, total: nat, maxLength: nat, sample: Sample) {
    exists steps :: Yields(maxLength, sample, steps) && Panics(Initial(minRecords, total), steps)
  }

  /**
   * The search relies on answers that come from a test: on every non-empty input, and on no other,
   * some sequence that the generator yields makes it panic, if it may be 20 actions long.
   */
  lemma SomeSequencePanics(minRecords: nat, total: nat, maxLength: nat)
    requires 20 <= maxLength
    ensures (exists sample :: SamplePanics(minRecords, total, maxLength, sample)) <==> 0 < total
  {
    if total > 0 {
      var steps := ShortSequencePanics(minRecords, total);
      YieldsExactlyBalanced(maxLength, steps);
      var sample :| Yields(maxLength, sample, steps);
      assert SamplePanics(minRecords, total, maxLength, sample);
    } else {
      forall steps ensures !Panics(Initial(minRecords, total), steps) {
        EmptyNeverPanics(Initial(minRecords, total), Answers(steps));
      }
    }
  }

  lemma {:induction false} EmptyNeverPanics(s: State, answers: seq<bool>)
    requires s.search == None && s.total == 0
    ensures Run(s, answers) == Some(s)
    decreases |answers|
  {
    if answers != [] { EmptyNeverPanics(s, answers[1..]); }
  }
}
