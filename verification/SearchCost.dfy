/** The two ends of the search's promise: when it cannot shrink at all, and how fast it finds one record. */
module SearchCost {
  import opened Prelude
  import opened RecordsSearch
  import opened RecordsDriver
  import opened Culprits

  // ---------- The worst case ----------

  ghost predicate EveryInitialChunkGuilty(total: nat, culprits: set<nat>) {
    var k := Min(total, DEFAULT_EXPLORE_CHUNKS);
    forall i | 0 <= i < k :: HoldsCulprit(Identity(total), k, i, culprits)
  }

  ghost predicate Stuck(s: State, culprits: set<nat>) {
    && Closing(s, culprits)
    && s.included == Identity(s.total)
    && s.search != Some(Recur)
    && EveryInitialChunkGuilty(s.total, culprits)
  }

  lemma StuckLevel(s: State, culprits: set<nat>)
    requires Stuck(s, culprits) && s.search.Some? && s.search.value.Explore? && s.included != []
    requires s.search.value.chunk + 1 == s.NumChunks()
    ensures var t := Answered(s, FailsIfAll(culprits)(Mask(s)));
            Needed(t.included, t.NumChunks(), t.results, t.NumChunks()) == s.included
  {
    var fails, k := FailsIfAll(culprits), s.NumChunks();
    var t := Answered(s, fails(Mask(s)));
    ResultsAreAnswers(s, fails);
    forall i | 0 <= i < k
      ensures t.results[i] == Some(false)
    {
      WithoutElements(s.included, k, i);
      assert HoldsCulprit(s.included, k, i, culprits);
      var x :| x in culprits && x in Chunk(s.included, k, i);
      assert x !in Elements(Without(s.included, k, i));
      assert !FailsWithout(s, fails, i);
    }
    NeededAll(t.included, k, t.results, t.total);
  }

  lemma StepStaysStuck(s: State, culprits: set<nat>)
    requires Stuck(s, culprits)
    ensures var o := Step(s, FailsIfAll(culprits)(Mask(s))); !o.Panicked? && Stuck(o.next, culprits)
  {
    var fails := FailsIfAll(culprits);
    StepKeepsClosing(s, culprits);
    match s.search
    case Some(Explore(c)) =>
      var k := s.NumChunks();
      if 0 < k == c + 1 { StuckLevel(s, culprits); }
    case _ =>
  }

  lemma {:induction false} DriveStaysStuck(s: State, culprits: set<nat>)
    requires Stuck(s, culprits)
    ensures Drive(s, FailsIfAll(culprits)).state.included == Identity(s.total)
    decreases Fuel(s)
  {
    var fails := FailsIfAll(culprits);
    StepKeepsConsistent(s, fails);
    StepKeepsValid(s, fails(Mask(s)));
    StepStaysStuck(s, culprits);
    match Step(s, fails(Mask(s)))
    case More(t) => DriveStaysStuck(t, culprits);
    case Stopped(t) =>
  }

  lemma NothingShrunk(f: State, culprits: set<nat>)
    requires Closing(f, culprits) && f.search == Some(Done) && f.included == Identity(f.total)
    ensures EveryInitialChunkGuilty(f.total, culprits)
  {
    assert f.NumChunks() == Min(f.total, DEFAULT_EXPLORE_CHUNKS);
    forall i | 0 <= i < f.NumChunks()
      ensures HoldsCulprit(Identity(f.total), f.NumChunks(), i, culprits)
    {
      EveryChunkGuilty(f, culprits, i);
    }
  }

  lemma InitialCloses(total: nat, culprits: set<nat>)
    requires 0 < total && culprits <= Saturated(total)
    ensures Closing(Initial(0, total), culprits)
  {
  }

  lemma FinalCloses(total: nat, culprits: set<nat>)
    requires Closing(Initial(0, total), culprits) && 0 < total
    ensures var f := Drive(Initial(0, total), FailsIfAll(culprits)).state;
            Closing(f, culprits) && f.total == total && (f.included == Identity(total) ==> f.search == Some(Done))
  {
    DriveKeepsClosing(Initial(0, total), culprits);
    DriveEnds(Initial(0, total), FailsIfAll(culprits));
  }

  /** The search ends with all of the records exactly when each of the initial chunks holds a culprit. */
  lemma NothingShrinksIff(total: nat, culprits: set<nat>)
    requires 0 < total && culprits <= Saturated(total)
    ensures Consistent(Initial(0, total), FailsIfAll(culprits))
    ensures Drive(Initial(0, total), FailsIfAll(culprits)).state.included == Identity(total)
            <==> EveryInitialChunkGuilty(total, culprits)
  {
    InitialCloses(total, culprits);
    FinalCloses(total, culprits);
    if EveryInitialChunkGuilty(total, culprits) {
      DriveStaysStuck(Initial(0, total), culprits);
    } else {
      var f := Drive(Initial(0, total), FailsIfAll(culprits)).state;
      if f.included == Identity(total) { NothingShrunk(f, culprits); }
    }
  }

  // ---------- The best case ----------

  /** The least `j` with `m <= 8^j`. */
  function CeilLog8(m: nat): nat { if m <= 1 then 0 else 1 + CeilLog8((m + 7) / 8) }

  function Pow8(j: nat): nat { if j == 0 then 1 else 8 * Pow8(j - 1) }

  lemma {:induction false} CeilLog8Least(m: nat, j: nat)
    ensures CeilLog8(m) <= j <==> m <= Pow8(j)
    decreases j
  {
    if m <= 1 {
      Pow8Positive(j);
    } else if j > 0 {
      CeilLog8Least((m + 7) / 8, j - 1);
    }
  }

  lemma {:induction false} Pow8Positive(j: nat)
    ensures 1 <= Pow8(j)
  {
    if j > 0 { Pow8Positive(j - 1); }
  }

  lemma CeilLog8Monotone(a: nat, b: nat)
    requires a <= b
    ensures CeilLog8(a) <= CeilLog8(b)
  {
    CeilLog8Least(b, CeilLog8(b));
    CeilLog8Least(a, CeilLog8(b));
  }

  /** How many levels of eight chunks `len` records need before at most eight are left. */
  function Depth(len: nat): nat { CeilLog8(Max(len - 7, 1)) }

  /** A bound on the calls left when a single record is to blame. */
  function Cost(s: State): nat
    requires Valid(s)
  {
    match s.search
    case None => 9 * Depth(s.total) + 12
    case Some(Explore(c)) => if |s.included| == 1 then 2 else 9 * Depth(|s.included|) + 11 - c
    case Some(Recur) => if |s.included| == 1 then 3 else 9 * Depth(|s.included|) + 12
    case Some(Done) => 1
  }

  lemma {:induction false} NeededIsOneChunk(inc: seq<nat>, k: nat, results: seq<Option<bool>>, j: nat, guilty: nat)
    requires j <= k <= |inc| && k <= |results| && guilty < k
    requires forall i | 0 <= i < k :: results[i] == Some(i != guilty)
    ensures Needed(inc, k, results, j) == if guilty < j then Chunk(inc, k, guilty) else []
  {
    if j > 0 {
      NeededIsOneChunk(inc, k, results, j - 1, guilty);
    }
  }

  /** The chunk that is kept is at most an eighth of the level plus seven records. */
  lemma ChunkShrinks(len: nat, k: nat, i: nat)
    requires i < k == Min(len, DEFAULT_EXPLORE_CHUNKS)
    ensures var size := ChunkMax(len, k, i) - ChunkMin(len, k, i);
            && 1 <= size && (k == 1 <==> len == 1)
            && (k > 1 ==> size < len && (if size == 1 then 3 else 9 * Depth(size) + 12) < 9 * Depth(len) + 12 - k)
  {
    ChunkBounds(len, k, i);
    var q := len / k;
    var size := ChunkMax(len, k, i) - ChunkMin(len, k, i);
    assert (i + 1) * q == i * q + q;
    if k < DEFAULT_EXPLORE_CHUNKS || len == 8 {
      assert q == 1;
    } else {
      assert size <= len / 8 + 7;
      CeilLog8Monotone(Max(size - 7, 1), len / 8);
      assert CeilLog8(len - 7) == 1 + CeilLog8((len - 7 + 7) / 8);
    }
  }

  lemma StepPaysCost(s: State, culprit: nat)
    requires Closing(s, {culprit})
    ensures match Step(s, FailsIfAll({culprit})(Mask(s)))
            case Panicked => false
            case More(t) => Closing(t, {culprit}) && Cost(t) < Cost(s)
            case Stopped(t) => 1 <= Cost(s)
  {
    var fails := FailsIfAll({culprit});
    StepKeepsClosing(s, {culprit});
    match s.search
    case Some(Explore(c)) =>
      var k := s.NumChunks();
      assert culprit in Elements(s.included) by { assert FailsOn(s, fails, s.included); }
      if c + 1 == k { LevelPaysCost(s, culprit); }
    case _ =>
  }

  /** At the end of a level exactly the chunk with the culprit is kept. */
  lemma LevelKeepsOneChunk(s: State, culprit: nat) returns (guilty: nat)
    requires Closing(s, {culprit}) && culprit in s.included
    requires s.search.Some? && s.search.value.Explore? && s.search.value.chunk + 1 == s.NumChunks()
    ensures guilty < s.NumChunks()
    ensures var t := Answered(s, FailsIfAll({culprit})(Mask(s)));
            Needed(t.included, t.NumChunks(), t.results, t.NumChunks()) == Chunk(s.included, s.NumChunks(), guilty)
  {
    var fails, k, inc := FailsIfAll({culprit}), s.NumChunks(), s.included;
    var t := Answered(s, fails(Mask(s)));
    ResultsAreAnswers(s, fails);
    assert inc[..|inc|] == inc;
    guilty := ChunkHolding(inc, k, k, culprit);
    forall i | 0 <= i < k
      ensures t.results[i] == Some(i != guilty)
    {
      WithoutElements(inc, k, i);
      assert FailsWithout(s, fails, i) <==> culprit in Elements(Without(inc, k, i));
      if i != guilty && culprit in Chunk(inc, k, i) { ChunksDisjoint(inc, k, i, guilty, culprit); }
    }
    NeededIsOneChunk(inc, k, t.results, k, guilty);
  }

  lemma KeptChunk(inc: seq<nat>, k: nat, i: nat)
    requires i < k == Min(|inc|, DEFAULT_EXPLORE_CHUNKS)
    ensures var r := Chunk(inc, k, i);
            && 1 <= |r| && (k == 1 <==> |inc| == 1) && (k == 1 ==> r == inc)
            && (k > 1 ==> |r| < |inc| && (if |r| == 1 then 3 else 9 * Depth(|r|) + 12) < 9 * Depth(|inc|) + 12 - k)
  {
    ChunkBounds(|inc|, k, i);
    ChunkShrinks(|inc|, k, i);
    if k == 1 { assert inc[0..|inc|] == inc; }
  }

  /** The step that ends a level keeps just the chunk with the culprit. */
  lemma LevelEnds(s: State, culprit: nat) returns (guilty: nat, t: State)
    requires Closing(s, {culprit}) && culprit in s.included
    requires s.search.Some? && s.search.value.Explore? && s.search.value.chunk + 1 == s.NumChunks()
    ensures guilty < s.NumChunks() && Step(s, FailsIfAll({culprit})(Mask(s))) == More(t)
    ensures t.included == Chunk(s.included, s.NumChunks(), guilty)
    ensures t.search == if t.included == s.included then Some(Done) else Some(Recur)
  {
    var failed := FailsIfAll({culprit})(Mask(s));
    StepKeepsConsistent(s, FailsIfAll({culprit}));
    guilty := LevelKeepsOneChunk(s, culprit);
    LevelShape(Answered(s, failed), Chunk(s.included, s.NumChunks(), guilty));
    t := LevelFinished(Answered(s, failed)).next;
  }

  lemma CostFalls(s: State, t: State, guilty: nat)
    requires Valid(s) && Valid(t) && |s.results| == Min(s.total, DEFAULT_EXPLORE_CHUNKS)
    requires s.search.Some? && s.search.value.Explore? && s.search.value.chunk + 1 == s.NumChunks()
    requires guilty < s.NumChunks() && t.included == Chunk(s.included, s.NumChunks(), guilty)
    requires t.search == if t.included == s.included then Some(Done) else Some(Recur)
    ensures Cost(t) < Cost(s)
  {
    ListingSize(s.included, s.total);
    KeptChunk(s.included, s.NumChunks(), guilty);
  }

  lemma LevelPaysCost(s: State, culprit: nat)
    requires Closing(s, {culprit}) && culprit in s.included
    requires s.search.Some? && s.search.value.Explore? && s.search.value.chunk + 1 == s.NumChunks()
    ensures match Step(s, FailsIfAll({culprit})(Mask(s)))
            case More(t) => Closing(t, {culprit}) && Cost(t) < Cost(s)
            case _ => false
  {
    StepKeepsClosing(s, {culprit});
    var guilty, t := LevelEnds(s, culprit);
    CostFalls(s, t, guilty);
  }

  lemma ChunksDisjoint(inc: seq<nat>, k: nat, i: nat, j: nat, x: nat)
    requires i < k <= |inc| && j < k && Ascending(inc)
    requires x in Chunk(inc, k, i) && x in Chunk(inc, k, j)
    ensures i == j
  {
    ChunkBounds(|inc|, k, i);
    ChunkBounds(|inc|, k, j);
    var p :| ChunkMin(|inc|, k, i) <= p < ChunkMax(|inc|, k, i) && inc[p] == x;
    var q :| ChunkMin(|inc|, k, j) <= q < ChunkMax(|inc|, k, j) && inc[q] == x;
    assert p == q;
    ChunkOrder(|inc|, k, i, j);
    ChunkOrder(|inc|, k, j, i);
  }

  lemma {:induction false} ChunkOrder(len: nat, k: nat, i: nat, j: nat)
    requires i < k <= len && j < k
    ensures i < j ==> ChunkMax(len, k, i) <= ChunkMin(len, k, j)
  {
    ChunkBounds(len, k, j);
    if i + 1 < j {
      ChunkBounds(len, k, j - 1);
      ChunkOrder(len, k, i, j - 1);
    }
  }

  lemma {:induction false} DriveCost(s: State, culprit: nat)
    requires Closing(s, {culprit})
    ensures Drive(s, FailsIfAll({culprit})).calls <= Cost(s)
    decreases Fuel(s)
  {
    var fails := FailsIfAll({culprit});
    StepKeepsConsistent(s, fails);
    StepKeepsValid(s, fails(Mask(s)));
    StepPaysCost(s, culprit);
    match Step(s, fails(Mask(s)))
    case More(t) => DriveCost(t, culprit);
    case Stopped(t) =>
  }

  /** One culprit among at most `8^j + 7` records is found, alone, within `9 * j + 12` calls. */
  lemma OneCulpritIsFoundFast(total: nat, culprit: nat, j: nat)
    requires culprit < total <= Pow8(j) + 7
    ensures Consistent(Initial(0, total), FailsIfAll({culprit}))
    ensures var f := Drive(Initial(0, total), FailsIfAll({culprit}));
            f.calls <= 9 * j + 12 && Elements(f.state.included) == {culprit}
  {
    Pow8Positive(j);
    CeilLog8Least(Max(total - 7, 1), j);
    DriveCost(Initial(0, total), culprit);
    FindsExactlyTheCulprits(total, {culprit});
  }
}
