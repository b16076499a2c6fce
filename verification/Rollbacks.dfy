/** Rolling back: how many chunks are tried after it, and a search that needs it. */
module Rollbacks {
  import opened Prelude
  import opened RecordsSearch
  import opened RecordsDriver
  import opened SearchCost

  // ---------- The number of chunks ----------

  /** How often the test is said to pass right after a level has dropped some chunks. */
  ghost function RollbackCount(s: State, answers: seq<bool>): nat
    decreases |answers|
  {
    if answers == [] then 0 else
      match Step(s, answers[0])
      case Panicked => 0
      case More(t) =>
        (if s.search == Some(Recur) && !answers[0] then 1 else 0) + RollbackCount(t, answers[1..])
      case Stopped(t) => RollbackCount(t, answers[1..])
  }

  lemma StepHalvesResults(s: State, failed: bool)
    requires Valid(s)
    ensures match Step(s, failed)
            case Panicked => true
            case More(t) => |t.results| == if s.search == Some(Recur) && !failed then |s.results| / 2 else |s.results|
            case Stopped(t) => |t.results| == |s.results|
  {
  }

  lemma {:induction false} ResultsAreHalved(s: State, answers: seq<bool>)
    requires Valid(s)
    ensures match Run(s, answers)
            case None => true
            case Some(t) => |t.results| == |s.results| / Pow2(RollbackCount(s, answers))
    decreases |answers|
  {
    if answers != [] {
      var o := Step(s, answers[0]);
      StepKeepsValid(s, answers[0]);
      StepHalvesResults(s, answers[0]);
      if !o.Panicked? {
        ResultsAreHalved(o.next, answers[1..]);
        QuotientOfHalf(|s.results|, RollbackCount(o.next, answers[1..]));
      }
    }
  }

  /** Each rollback, and nothing else, halves the number of chunks that a level is cut into. */
  lemma RollbacksHalveChunks(minRecords: nat, total: nat, answers: seq<bool>)
    ensures match Run(Initial(minRecords, total), answers)
            case None => true
            case Some(t) =>
              |t.results| == Min(total, 8) / Pow2(RollbackCount(Initial(minRecords, total), answers))
  {
    ResultsAreHalved(Initial(minRecords, total), answers);
  }

  // ---------- The results of a level ----------

  /** Only the chunks of this level that have been tried have a result. */
  predicate ResultsOfLevel(s: State) {
    match s.search
    case Some(Explore(c)) => s.included != [] ==> forall i | c <= i < |s.results| :: s.results[i] == None
    case _ => forall i | 0 <= i < |s.results| :: s.results[i] == None
  }

  lemma StepClearsResults(s: State, failed: bool)
    requires Valid(s) && ResultsOfLevel(s)
    ensures match Step(s, failed)
            case Panicked => true
            case More(t) => ResultsOfLevel(t)
            case Stopped(t) => ResultsOfLevel(t)
  {
  }

  /** No result is left over from one level to another. */
  lemma {:induction false} RunClearsResults(s: State, answers: seq<bool>)
    requires Valid(s) && ResultsOfLevel(s)
    ensures match Run(s, answers)
            case None => true
            case Some(t) => ResultsOfLevel(t)
    decreases |answers|
  {
    if answers != [] {
      var o := Step(s, answers[0]);
      StepKeepsValid(s, answers[0]);
      StepClearsResults(s, answers[0]);
      if !o.Panicked? { RunClearsResults(o.next, answers[1..]); }
    }
  }

  // ---------- A search with a rollback ----------

  /** The state in which the last chunk of the level has been answered. */
  ghost predicate LevelOf(s: State, fails: Test, t: State) {
    && t.minRecords == s.minRecords && t.total == s.total && t.included == s.included && t.last == s.last
    && |t.results| == |s.results|
    && forall i | 0 <= i < s.NumChunks() :: t.results[i] == Some(FailsWithout(s, fails, i))
  }

  /** A search goes through all of the chunks of a level, and then on from the end of it. */
  lemma {:induction false} DriveLevel(s: State, fails: Test) returns (t: State)
    requires Consistent(s, fails) && s.search.Some? && s.search.value.Explore? && s.included != []
    ensures LevelOf(s, fails, t) && LevelFinished(t).More? && Consistent(LevelFinished(t).next, fails)
    ensures Drive(s, fails).state == Drive(LevelFinished(t).next, fails).state
    decreases s.NumChunks() - s.search.value.chunk
  {
    var c := s.search.value.chunk;
    var failed := fails(Mask(s));
    StepKeepsConsistent(s, fails);
    ResultsAreAnswers(s, fails);
    if c + 1 < s.NumChunks() {
      var next := Step(s, failed).next;
      t := DriveLevel(next, fails);
      forall i | 0 <= i < s.NumChunks() ensures FailsWithout(next, fails, i) == FailsWithout(s, fails, i) {}
    } else {
      t := Answered(s, failed);
    }
  }

  /** Fails on `{0, 1}` and more, or on any seven records. */
  predicate PairOrSevenFail(mask: set<nat>) { (0 in mask && 1 in mask) || |mask| >= 7 }

  ghost function PairOrSeven(): Test { mask => PairOrSevenFail(mask) }

  function PairAt(i: nat): set<nat> { {2 * i, 2 * i + 1} }

  lemma DriveOn(s: State, fails: Test)
    requires Consistent(s, fails) && Step(s, fails(Mask(s))).More?
    ensures Consistent(Step(s, fails(Mask(s))).next, fails)
    ensures Drive(s, fails).state == Drive(Step(s, fails(Mask(s))).next, fails).state
  {
    StepKeepsConsistent(s, fails);
  }

  /** The test on the records of a level without one of its chunks. */
  lemma WithoutOne(s: State, i: nat, all: set<nat>, gone: set<nat>)
    requires Valid(s) && s.minRecords == 0 && i < s.NumChunks()
    requires Elements(s.included) == all && Elements(Chunk(s.included, s.NumChunks(), i)) == gone
    ensures FailsWithout(s, PairOrSeven(), i) <==> PairOrSevenFail(all - gone)
  {
    WithoutElements(s.included, s.NumChunks(), i);
  }

  lemma {:induction false} NeededIsNone(inc: seq<nat>, k: nat, results: seq<Option<bool>>, j: nat)
    requires j <= k <= |inc| && k <= |results| && forall i | 0 <= i < k :: results[i] == Some(true)
    ensures Needed(inc, k, results, j) == []
  {
    if j > 0 { NeededIsNone(inc, k, results, j - 1); }
  }

  /** Each of eight chunks of one record can be dropped. */
  lemma EightChunks(s: State, i: nat)
    requires Valid(s) && s.minRecords == 0 && s.included == Identity(8) && |s.results| == 8 && i < 8
    ensures FailsWithout(s, PairOrSeven(), i)
  {
    OneRecordChunk(s.included, i);
    IdentityIsAll(8);
    assert Elements([i]) == {i};
    WithoutOne(s, i, Saturated(8), {i});
    MissingSize({i}, 8);
  }

  lemma PairChunk(i: nat)
    requires i < 4
    ensures Chunk(Identity(8), 4, i) == [2 * i, 2 * i + 1]
    ensures Elements(Chunk(Identity(8), 4, i)) == PairAt(i)
  {
    ChunkLengths(Identity(8), 4, i);
    ChunkBounds(8, 4, i);
    assert ChunkMin(8, 4, i) == 2 * i && ChunkMax(8, 4, i) == 2 * i + 2;
  }

  lemma PairLeft(all: set<nat>, i: nat)
    requires |all| == 8 && 0 in all && 1 in all && PairAt(i) <= all
    ensures PairOrSevenFail(all - PairAt(i)) <==> i != 0
  {
    var gone := PairAt(i);
    assert all == all - gone + gone;
    assert |gone| == 2;
    if i == 0 { assert 0 in gone; } else { assert 0 !in gone && 1 !in gone; }
  }

  lemma PairOfEightLeft(i: nat)
    requires i < 4
    ensures PairOrSevenFail(Elements(Identity(8)) - PairAt(i)) <==> i != 0
  {
    IdentityIsAll(8);
    SaturatedSize(8);
    PairLeft(Elements(Identity(8)), i);
  }

  /** Of four chunks of two records, only the first cannot. */
  lemma FourChunks(s: State, i: nat)
    requires Valid(s) && s.minRecords == 0 && s.included == Identity(8) && |s.results| == 4 && i < 4
    ensures FailsWithout(s, PairOrSeven(), i) <==> i != 0
  {
    PairChunk(i);
    WithoutOne(s, i, Elements(Identity(8)), PairAt(i));
    PairOfEightLeft(i);
  }

  lemma OneLeft(i: nat)
    requires i < 2
    ensures !PairOrSevenFail({0, 1} - {i})
  {
    assert {0, 1} - {i} == {1 - i};
  }

  /** Of the pair, neither can. */
  lemma TwoChunks(s: State, i: nat)
    requires Valid(s) && s.minRecords == 0 && s.included == [0, 1] && 2 <= |s.results| && i < 2
    ensures !FailsWithout(s, PairOrSeven(), i)
  {
    OneRecordChunk(s.included, i);
    assert Elements([0, 1]) == {0, 1} && Elements([i]) == {i};
    WithoutOne(s, i, {0, 1}, {i});
    OneLeft(i);
  }

  ghost predicate Exploring(s: State, included: seq<nat>, chunks: nat) {
    && Consistent(s, PairOrSeven()) && s.minRecords == 0 && s.total == 8
    && s.search == Some(Explore(0)) && s.included == included && |s.results| == chunks
  }

  lemma FirstLevel() returns (s: State)
    ensures Consistent(Initial(0, 8), PairOrSeven()) && Exploring(s, Identity(8), 8)
    ensures Drive(Initial(0, 8), PairOrSeven()).state == Drive(s, PairOrSeven()).state
  {
    InitialInput(0, 8, PairOrSeven());
    SaturatedSize(8);
    DriveOn(Initial(0, 8), PairOrSeven());
    s := Step(Initial(0, 8), true).next;
  }

  /** All chunks are dropped, nothing is left, the test passes, and half as many chunks are tried. */
  lemma RollBackToFour(s: State) returns (u: State)
    requires Exploring(s, Identity(8), 8)
    ensures Exploring(u, Identity(8), 4) && Drive(s, PairOrSeven()).state == Drive(u, PairOrSeven()).state
  {
    var t := DriveLevel(s, PairOrSeven());
    forall i | 0 <= i < 8 ensures t.results[i] == Some(true) { EightChunks(s, i); }
    NeededIsNone(t.included, 8, t.results, 8);
    LevelShape(t, []);
    var dropped := LevelFinished(t).next;
    assert Mask(dropped) == {};
    DriveOn(dropped, PairOrSeven());
    u := Step(dropped, false).next;
  }

  /** The first of four chunks is kept. */
  lemma KeepPair(s: State, t: State)
    requires Exploring(s, Identity(8), 4) && LevelOf(s, PairOrSeven(), t)
    ensures Needed(t.included, 4, t.results, 4) == [0, 1]
  {
    forall i | 0 <= i < 4 ensures t.results[i] == Some(i != 0) { FourChunks(s, i); }
    NeededIsOneChunk(t.included, 4, t.results, 4, 0);
    PairChunk(0);
  }

  /** The test fails on the pair, which is cut further. */
  lemma PairFails(s: State)
    requires Consistent(s, PairOrSeven()) && s.minRecords == 0 && s.total == 8
    requires s.search == Some(Recur) && s.included == [0, 1]
    ensures PairOrSeven()(Mask(s)) && Step(s, true) == More(s.(search := Some(Explore(0))))
  {
    assert [0, 1][0] == 0 && [0, 1][1] == 1;
  }

  lemma GoOnWithPair(s: State) returns (u: State)
    requires Exploring(s, Identity(8), 4)
    ensures Exploring(u, [0, 1], 4) && Drive(s, PairOrSeven()).state == Drive(u, PairOrSeven()).state
  {
    var t := DriveLevel(s, PairOrSeven());
    KeepPair(s, t);
    assert t.included == Identity(8) && |Identity(8)| == 8;
    LevelShape(t, [0, 1]);
    var kept := LevelFinished(t).next;
    PairFails(kept);
    DriveOn(kept, PairOrSeven());
    u := kept.(search := Some(Explore(0)));
  }

  lemma EndWithPair(s: State)
    requires Exploring(s, [0, 1], 4)
    ensures Drive(s, PairOrSeven()).state.included == [0, 1]
    ensures Drive(s, PairOrSeven()).state.search == Some(Done)
  {
    var t := DriveLevel(s, PairOrSeven());
    forall i | 0 <= i < 2 ensures t.results[i] == Some(false) { TwoChunks(s, i); }
    NeededAll(t.included, 2, t.results, 8);
    LevelShape(t, [0, 1]);
  }

  /**
   * Of eight records, the test fails on the first two, and on any seven. Each record can be dropped,
   * but not all of them. With half as many chunks, two records each, the search finds the pair.
   */
  lemma RollbackFindsPair()
    ensures Consistent(Initial(0, 8), PairOrSeven())
    ensures var f := Drive(Initial(0, 8), PairOrSeven()).state; f.included == [0, 1] && f.search == Some(Done)
  {
    var s := FirstLevel();
    var u := RollBackToFour(s);
    var v := GoOnWithPair(u);
    EndWithPair(v);
  }
}
