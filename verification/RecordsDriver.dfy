/**
 * The search driven by a test: `while tree.explore_step(fails(tree.current())) {}`, where `fails`
 * is any function of the subset of records that is tried.
 */
module RecordsDriver {
  import opened Prelude
  import opened RecordsSearch

  type Test = set<nat> -> bool

  ghost predicate FailsOn(s: State, fails: Test, records: seq<nat>) {
    fails(Pad(Elements(records), s.total, s.minRecords))
  }

  ghost predicate FailsWithout(s: State, fails: Test, i: nat)
    requires i < s.NumChunks()
  {
    FailsOn(s, fails, Without(s.included, s.NumChunks(), i))
  }

  /**
   * The invariant of a driven search: the committed records, once padded, fail the test; every chunk
   * result recorded at this level is the test's answer without that chunk; and at the end the test
   * passes without any one of the chunks.
   */
  ghost predicate Consistent(s: State, fails: Test) {
    && Valid(s)
    && match s.search
       case None => true
       case Some(Explore(c)) =>
         && FailsOn(s, fails, s.included)
         && forall i | 0 <= i < c :: s.results[i] == Some(FailsWithout(s, fails, i))
       case Some(Recur) =>
         && FailsOn(s, fails, s.last.value)
         && (|s.results| == 1 ==> FailsOn(s, fails, s.included))
       case Some(Done) =>
         && FailsOn(s, fails, s.included)
         && forall i | 0 <= i < s.NumChunks() :: !FailsWithout(s, fails, i)
  }

  lemma {:induction false} IdentityIsAll(n: nat)
    ensures Elements(Identity(n)) == Saturated(n)
  {
    forall i: nat | i < n ensures i in Identity(n) { assert Identity(n)[i] == i; }
  }

  lemma NeededOfOne(inc: seq<nat>, results: seq<Option<bool>>)
    requires 1 <= |inc| && 1 <= |results| && results[0] == Some(true)
    ensures Needed(inc, 1, results, 1) == []
    ensures Without(inc, 1, 0) == []
  {
  }

  /** The answers of a finished level: the test fails on its records, and each chunk has its result. */
  ghost predicate LevelAnswered(s: State, fails: Test) {
    && Valid(s) && 0 < s.NumChunks() && 0 < s.total && 1 <= |s.results| <= DEFAULT_EXPLORE_CHUNKS
    && FailsOn(s, fails, s.included)
    && forall i | 0 <= i < s.NumChunks() :: s.results[i] == Some(FailsWithout(s, fails, i))
  }

  lemma AllChunksNeeded(s: State, t: State, fails: Test)
    requires LevelAnswered(s, fails) && forall i | 0 <= i < s.NumChunks() :: s.results[i] == Some(false)
    requires t.total == s.total && t.minRecords == s.minRecords && |t.results| == |s.results|
    requires t.included == s.included && t.last == s.last && t.search == Some(Done)
    ensures Consistent(t, fails)
  {
    forall i | 0 <= i < t.NumChunks()
      ensures !FailsWithout(t, fails, i)
    {
      assert s.results[i] == Some(false);
      assert FailsWithout(t, fails, i) == FailsWithout(s, fails, i);
    }
  }

  lemma SomeChunksDropped(s: State, t: State, fails: Test)
    requires LevelAnswered(s, fails)
    requires t.total == s.total && t.minRecords == s.minRecords && |t.results| == |s.results|
    requires t.included == Needed(s.included, s.NumChunks(), s.results, s.NumChunks()) != s.included
    requires t.last == Some(s.included) && t.search == Some(Recur)
    ensures Consistent(t, fails)
  {
    NeededAll(s.included, s.NumChunks(), s.results, s.total);
    assert FailsOn(t, fails, t.last.value);
    if |s.results| == 1 {
      assert s.results[0] == Some(true);
      NeededOfOne(s.included, s.results);
      assert FailsWithout(s, fails, 0);
    }
  }

  /** A finished level is consistent again: either all chunks were needed, or fewer records are tried. */
  lemma LevelKeepsConsistent(s: State, fails: Test)
    requires LevelAnswered(s, fails)
    ensures match LevelFinished(s)
            case More(t) => Consistent(t, fails)
            case _ => false
  {
    var needed := Needed(s.included, s.NumChunks(), s.results, s.NumChunks());
    LevelShape(s, needed);
    if needed == s.included {
      NeededAll(s.included, s.NumChunks(), s.results, s.total);
      AllChunksNeeded(s, LevelFinished(s).next, fails);
    } else {
      SomeChunksDropped(s, LevelFinished(s).next, fails);
    }
  }

  /** The state in which the last chunk of a level has been answered. */
  function Answered(s: State, failed: bool): State
    requires s.search.Some? && s.search.value.Explore? && s.search.value.chunk < |s.results|
  {
    s.(results := s.results[s.search.value.chunk := Some(failed)])
  }

  lemma ResultsAreAnswers(s: State, fails: Test)
    requires Consistent(s, fails) && s.search.Some? && s.search.value.Explore? && s.included != []
    ensures var t := Answered(s, fails(Mask(s)));
            forall i | 0 <= i <= s.search.value.chunk :: t.results[i] == Some(FailsWithout(s, fails, i))
  {
  }

  lemma ExploreKeepsConsistent(s: State, fails: Test)
    requires Consistent(s, fails) && s.search.Some? && s.search.value.Explore? && s.included != []
    ensures match Step(s, fails(Mask(s)))
            case More(t) => Consistent(t, fails)
            case _ => false
  {
    var c, k := s.search.value.chunk, s.NumChunks();
    var t := Answered(s, fails(Mask(s)));
    StepKeepsValid(s, fails(Mask(s)));
    ResultsAreAnswers(s, fails);
    forall i | 0 <= i <= c
      ensures t.results[i] == Some(FailsWithout(t, fails, i))
    {
      assert FailsWithout(t, fails, i) == FailsWithout(s, fails, i);
    }
    if c + 1 == k { LevelKeepsConsistent(t, fails); }
  }

  /** Under a test, no call panics and the invariant is kept. */
  lemma StepKeepsConsistent(s: State, fails: Test)
    requires Consistent(s, fails)
    ensures match Step(s, fails(Mask(s)))
            case Panicked => false
            case More(t) => Consistent(t, fails)
            case Stopped(t) => Consistent(t, fails)
  {
    match s.search
    case None => IdentityIsAll(s.total);
    case Some(Explore(c)) =>
      if s.included != [] { ExploreKeepsConsistent(s, fails); }
    case Some(_) =>
      StepKeepsValid(s, fails(Mask(s)));
  }

  datatype Finish = Finish(state: State, calls: nat)

  /** Where the driver ends, and after how many calls. */
  ghost function Drive(s: State, fails: Test): Finish
    requires Consistent(s, fails)
    decreases Fuel(s)
  {
    StepKeepsConsistent(s, fails);
    StepKeepsValid(s, fails(Mask(s)));
    match Step(s, fails(Mask(s)))
    case More(t) => var rest := Drive(t, fails); rest.(calls := rest.calls + 1)
    case Stopped(t) => Finish(t, 1)
  }

  /** The ways a search ends: the input passed, nothing is left to try, or every chunk is needed. */
  predicate Ended(s: State) {
    match s.search
    case None => true
    case Some(Explore(c)) => s.included == []
    case Some(Recur) => false
    case Some(Done) => true
  }

  /** One call: the search goes on from a failing input, or ends with one. */
  lemma OneCall(s: State, fails: Test)
    requires Consistent(s, fails)
    ensures var o := Step(s, fails(Mask(s)));
            && !o.Panicked? && Consistent(o.next, fails)
            && o.next.total == s.total && o.next.minRecords == s.minRecords
            && if o.More? then
                 Fuel(o.next) < Fuel(s) && o.next.search != None
               else
                 Ended(o.next) && (fails(Mask(s)) || s.search != None ==> fails(Mask(o.next)))
  {
    StepKeepsConsistent(s, fails);
    StepKeepsValid(s, fails(Mask(s)));
    var o := Step(s, fails(Mask(s)));
    if o.Stopped? { StoppedFails(o.next, fails); }
  }

  lemma StoppedFails(s: State, fails: Test)
    requires Consistent(s, fails)
    ensures s.search != None && Ended(s) ==> fails(Mask(s))
  {
  }

  /** The test fails on the input the search ends with, if it failed on the initial one. */
  lemma {:induction false} DriveEnds(s: State, fails: Test)
    requires Consistent(s, fails)
    ensures var f := Drive(s, fails);
            && Consistent(f.state, fails) && Ended(f.state)
            && f.state.total == s.total && f.state.minRecords == s.minRecords
            && f.calls <= Fuel(s) + 1
            && (fails(Mask(s)) || s.search != None ==> fails(Mask(f.state)))
    decreases Fuel(s)
  {
    OneCall(s, fails);
    var o := Step(s, fails(Mask(s)));
    if o.More? { DriveEnds(o.next, fails); }
  }

  lemma InitialInput(minRecords: nat, total: nat, fails: Test)
    ensures Consistent(Initial(minRecords, total), fails)
    ensures Mask(Initial(minRecords, total)) == Saturated(total)
  {
    PadMeaning(Saturated(total), total, minRecords);
  }

  /**
   * From any initial input and under any test the driver ends without a panic within
   * `9 * (total + 4) + 2` calls. If the test failed on the initial input it fails on the final one,
   * and if the search ended because every chunk was needed the test passes without any one chunk.
   */
  lemma DriverIsSafe(minRecords: nat, total: nat, fails: Test)
    ensures Consistent(Initial(minRecords, total), fails)
    ensures var f := Drive(Initial(minRecords, total), fails);
            && f.calls <= 9 * (total + 4) + 2
            && Valid(f.state)
            && (fails(Saturated(total)) ==> fails(Mask(f.state)))
            && (f.state.search == Some(Done) ==>
                  forall i | 0 <= i < f.state.NumChunks() :: !FailsWithout(f.state, fails, i))
  {
    InitialInput(minRecords, total, fails);
    DriveEnds(Initial(minRecords, total), fails);
  }

  lemma SplitElements(s: seq<nat>, a: nat, b: nat)
    requires a <= b <= |s| && Ascending(s)
    ensures Elements(s[..a] + s[b..]) == Elements(s) - Elements(s[a..b])
    ensures Elements(s[a..b]) <= Elements(s)
  {
  }

  lemma WithoutElements(inc: seq<nat>, k: nat, i: nat)
    requires i < k <= |inc| && Ascending(inc)
    ensures Elements(Without(inc, k, i)) == Elements(inc) - Elements(Chunk(inc, k, i))
    ensures Elements(Chunk(inc, k, i)) <= Elements(inc)
  {
    ChunkBounds(|inc|, k, i);
    SplitElements(inc, ChunkMin(|inc|, k, i), ChunkMax(|inc|, k, i));
  }

  /** With as many chunks as records, each chunk is one record. */
  lemma OneRecordChunk(inc: seq<nat>, i: nat)
    requires i < |inc|
    ensures Chunk(inc, |inc|, i) == [inc[i]]
  {
  }

  /**
   * When no more records are left than there are chunk results, each chunk is one record, so the
   * final input is 1-minimal: dropping any single record makes the test pass.
   */
  lemma FinalInputIsMinimal(s: State, fails: Test, i: nat)
    requires Consistent(s, fails) && s.search == Some(Done)
    requires i < |s.included| <= |s.results|
    ensures !fails(Pad(Elements(s.included) - {s.included[i]}, s.total, s.minRecords))
  {
    var k := |s.included|;
    WithoutElements(s.included, k, i);
    OneRecordChunk(s.included, i);
    assert Elements(Chunk(s.included, k, i)) == {s.included[i]};
    assert !FailsWithout(s, fails, i);
  }
}
