/**
 * The search of `RecordsValueTree` as a transition function on values: which subset of the records
 * is tried next, and how the answer "the test failed" or "the test passed" moves the search on.
 */
module RecordsSearch {
  import opened Prelude

  const DEFAULT_EXPLORE_CHUNKS: nat := 8

  datatype ShrinkStep = Explore(chunk: nat) | Recur | Done

  /** `total` is the number of records of the initial input; records are named by their index in it. */
  datatype State = State(
    minRecords: nat,
    total: nat,
    last: Option<seq<nat>>,
    included: seq<nat>,
    results: seq<Option<bool>>,
    search: Option<ShrinkStep>)
  {
    function NumChunks(): nat { Min(|included|, |results|) }
  }

  /** What one call does: it panics, asks to be called again (`true`), or reports the end (`false`). */
  datatype Outcome = Panicked | More(next: State) | Stopped(next: State)

  function Identity(n: nat): seq<nat> { seq(n, i => i) }

  function Initial(minRecords: nat, total: nat): State {
    State(minRecords, total, None, Identity(total), seq(Min(total, DEFAULT_EXPLORE_CHUNKS), _ => None), None)
  }

  // ---------- Chunks ----------

  function ChunkMin(len: nat, k: nat, i: nat): nat
    requires 0 < k
  {
    i * (len / k)
  }

  function ChunkMax(len: nat, k: nat, i: nat): nat
    requires 0 < k
  {
    if i + 1 == k then len else (i + 1) * (len / k)
  }

  /** The `k` chunks are non-empty and follow each other from 0 to `len`. */
  lemma ChunkBounds(len: nat, k: nat, i: nat)
    requires i < k <= len
    ensures ChunkMin(len, k, i) < ChunkMax(len, k, i) <= len
    ensures i == 0 ==> ChunkMin(len, k, i) == 0
    ensures 0 < i ==> ChunkMin(len, k, i) == ChunkMax(len, k, i - 1)
  {
    var q := len / k;
    assert len == q * k + len % k;
    assert 1 <= q;
    MulLess(i, k, q);
  }

  function Chunk(inc: seq<nat>, k: nat, i: nat): seq<nat>
    requires i < k <= |inc|
  {
    ChunkBounds(|inc|, k, i);
    inc[ChunkMin(|inc|, k, i)..ChunkMax(|inc|, k, i)]
  }

  function Without(inc: seq<nat>, k: nat, i: nat): seq<nat>
    requires i < k <= |inc|
  {
    ChunkBounds(|inc|, k, i);
    inc[..ChunkMin(|inc|, k, i)] + inc[ChunkMax(|inc|, k, i)..]
  }

  lemma ChunkSize(len: nat, k: nat, i: nat)
    requires i < k
    ensures ChunkMax(len, k, i) - ChunkMin(len, k, i) == if i + 1 < k then len / k else len / k + len % k
  {
    MulLess(i, k, len / k);
    if i + 1 == k { assert (i + 1) * (len / k) == k * (len / k); }
  }

  /** All of the chunks have the same number of records, but for the last, which has what is left. */
  lemma ChunkLengths(inc: seq<nat>, k: nat, i: nat)
    requires i < k <= |inc|
    ensures |Chunk(inc, k, i)| == if i + 1 < k then |inc| / k else |inc| / k + |inc| % k
  {
    ChunkBounds(|inc|, k, i);
    ChunkSize(|inc|, k, i);
  }

  /** Where chunk `j` begins; `len` when `j` is the number of chunks. */
  ghost function Edge(len: nat, k: nat, j: nat): nat
    requires j <= k && 0 < k
  {
    if j == 0 then 0 else ChunkMax(len, k, j - 1)
  }

  /** The chunks among the first `j` without which the test passed. */
  function Needed(inc: seq<nat>, k: nat, results: seq<Option<bool>>, j: nat): seq<nat>
    requires j <= k <= |inc| && k <= |results|
  {
    if j == 0 then [] else
      Needed(inc, k, results, j - 1) + if results[j - 1] == Some(false) then Chunk(inc, k, j - 1) else []
  }

  // ---------- The mask of the next input ----------

  function PadFrom(mask: set<nat>, i: nat, total: nat, remaining: nat): set<nat>
    decreases total - i
  {
    if remaining == 0 || i >= total then mask
    else if i in mask then PadFrom(mask, i + 1, total, remaining)
    else PadFrom(mask + {i}, i + 1, total, remaining - 1)
  }

  /** Adds the first missing records until there are `minRecords`, or none is left to add. */
  function Pad(mask: set<nat>, total: nat, minRecords: nat): set<nat> {
    if |mask| < minRecords then PadFrom(mask, 0, total, minRecords - |mask|) else mask
  }

  function Searched(s: State): set<nat>
    requires Valid(s)
  {
    match s.search
    case None => Saturated(s.total)
    case Some(Explore(c)) =>
      if s.included == [] then {} else Elements(Without(s.included, s.NumChunks(), c))
    case Some(_) => Elements(s.included)
  }

  function Mask(s: State): set<nat>
    requires Valid(s)
  {
    Pad(Searched(s), s.total, s.minRecords)
  }

  // ---------- The transitions ----------

  function LevelFinished(s: State): Outcome
    requires 0 < s.NumChunks()
  {
    var k := s.NumChunks();
    if exists i | 0 <= i < k :: s.results[i].None? then Panicked
    else
      var needed := Needed(s.included, k, s.results, k);
      var cleared := seq(|s.results|, i requires 0 <= i < |s.results| => if i < k then None else s.results[i]);
      if needed == s.included then
        More(s.(results := cleared, search := Some(Done)))
      else
        More(s.(results := cleared, last := Some(s.included), included := needed, search := Some(Recur)))
  }

  function Step(s: State, failed: bool): Outcome {
    match s.search
    case None =>
      if failed && s.total != 0 then More(s.(search := Some(Explore(0)))) else Stopped(s)
    case Some(Explore(c)) =>
      var k := s.NumChunks();
      if c >= |s.results| then Panicked
      else
        var t := s.(results := s.results[c := Some(failed)]);
        if c + 1 < k then More(t.(search := Some(Explore(c + 1))))
        else if c + 1 > k then if k != 0 then Panicked else Stopped(t)
        else LevelFinished(t)
    case Some(Recur) =>
      if failed then More(s.(search := Some(Explore(0))))
      else if |s.results| == 1 || s.last.None? then Panicked
      else More(s.(last := None, included := s.last.value,
                   results := seq(|s.results| / 2, _ => None), search := Some(Explore(0))))
    case Some(Done) => Stopped(s)
  }

  // ---------- What every run keeps ----------

  /** The structural invariant, kept whatever the answers are. */
  predicate Valid(s: State) {
    && Listing(s.included, s.total)
    && (s.last.Some? ==> Listing(s.last.value, s.total))
    && match s.search
       case None => s == Initial(s.minRecords, s.total)
       case Some(step) =>
         && 0 < s.total
         && 1 <= |s.results| <= DEFAULT_EXPLORE_CHUNKS
         && match step
            case Explore(c) => c < Max(1, s.NumChunks()) && forall i | 0 <= i < c :: s.results[i].Some?
            case Recur => s.last.Some? && |s.included| < |s.last.value|
            case Done => s.included != []
  }

  /** The size of what is left, the number of halvings left, and the place in the level. */
  function Halvings(k: nat): nat { if k <= 1 then 0 else 1 + Halvings(k / 2) }

  function Fuel(s: State): nat
    requires Valid(s)
  {
    match s.search
    case None => 9 * (s.total + 3) + 10
    case Some(Explore(c)) => 9 * (|s.included| + Halvings(|s.results|)) + 9 - c
    case Some(Recur) => 9 * (|s.last.value| + Halvings(|s.results|)) + 1
    case Some(Done) => 0
  }

  /** `r` is an ordered choice of the first `e` records of `inc`, complete iff `all`. */
  ghost predicate Choice(r: seq<nat>, inc: seq<nat>, e: nat, total: nat, all: bool) {
    && e <= |inc|
    && Listing(r, total)
    && (forall x | x in r :: x in inc[..e])
    && |r| <= e
    && (|r| == e <==> all)
    && (all ==> r == inc[..e])
  }

  lemma ChoiceExtend(r: seq<nat>, inc: seq<nat>, e: nat, f: nat, total: nat, all: bool, keep: bool)
    requires Listing(inc, total) && e < f <= |inc| && Choice(r, inc, e, total, all)
    ensures Choice(r + if keep then inc[e..f] else [], inc, f, total, all && keep)
  {
    assert inc[..f] == inc[..e] + inc[e..f];
    if keep {
      var t := r + inc[e..f];
      forall i, h | 0 <= i < h < |t|
        ensures t[i] < t[h]
      {
        if i < |r| <= h { assert r[i] in inc[..e]; }
      }
    } else {
      assert r + [] == r;
    }
  }

  ghost predicate AllNeeded(results: seq<Option<bool>>, j: nat) {
    j <= |results| && forall i | 0 <= i < j :: results[i] == Some(false)
  }

  /** The first `j` chunks with some left out: complete iff the test passed without each of them. */
  lemma {:induction false} NeededChoice(inc: seq<nat>, k: nat, results: seq<Option<bool>>, j: nat, total: nat)
    requires j <= k <= |inc| && k <= |results| && 0 < k
    requires Listing(inc, total)
    ensures Choice(Needed(inc, k, results, j), inc, Edge(|inc|, k, j), total, AllNeeded(results, j))
  {
    if j == 0 {
    } else {
      NeededChoice(inc, k, results, j - 1, total);
      ChunkBounds(|inc|, k, j - 1);
      var e, f := Edge(|inc|, k, j - 1), Edge(|inc|, k, j);
      assert Chunk(inc, k, j - 1) == inc[e..f];
      assert AllNeeded(results, j) <==> AllNeeded(results, j - 1) && results[j - 1] == Some(false);
      ChoiceExtend(Needed(inc, k, results, j - 1), inc, e, f, total,
                   AllNeeded(results, j - 1), results[j - 1] == Some(false));
    }
  }

  /** At the end of a level the kept records are the whole list iff the test passed without each chunk. */
  lemma NeededAll(inc: seq<nat>, k: nat, results: seq<Option<bool>>, total: nat)
    requires 0 < k <= |inc| && k <= |results|
    requires Listing(inc, total)
    ensures var r := Needed(inc, k, results, k);
            && Listing(r, total)
            && (forall x | x in r :: x in inc)
            && |r| <= |inc|
            && (r == inc <==> |r| == |inc|)
            && (r == inc <==> forall i | 0 <= i < k :: results[i] == Some(false))
  {
    NeededChoice(inc, k, results, k, total);
    assert inc[..|inc|] == inc;
  }

  /** How a level ends, given the records it keeps. */
  lemma LevelShape(s: State, needed: seq<nat>)
    requires 0 < s.NumChunks() && forall i | 0 <= i < s.NumChunks() :: s.results[i].Some?
    requires Needed(s.included, s.NumChunks(), s.results, s.NumChunks()) == needed
    ensures LevelFinished(s).More?
    ensures var t := LevelFinished(s).next;
            && t.total == s.total && t.minRecords == s.minRecords && |t.results| == |s.results|
            && t.included == needed
            && if needed == s.included then t.search == Some(Done) && t.last == s.last
               else t.search == Some(Recur) && t.last == Some(s.included)
  {
  }

  lemma HalvingsOfChunks(n: nat)
    requires n <= DEFAULT_EXPLORE_CHUNKS
    ensures Halvings(n) <= 3
  {
    assert n == 0 || n == 1 || n == 2 || n == 3 || n == 4 || n == 5 || n == 6 || n == 7 || n == 8;
  }

  lemma ExploreKeepsValid(s: State, failed: bool)
    requires Valid(s) && s.search.Some? && s.search.value.Explore?
    ensures match Step(s, failed)
            case Panicked => false
            case More(t) => Valid(t) && Fuel(t) < Fuel(s)
            case Stopped(t) => Valid(t) && Mask(t) == Mask(s)
  {
    var c, k := s.search.value.chunk, s.NumChunks();
    if 0 < k == c + 1 {
      LastChunkKeepsValid(s, failed);
    }
  }

  lemma LastChunkKeepsValid(s: State, failed: bool)
    requires Valid(s) && s.search.Some? && s.search.value.Explore?
    requires 0 < s.NumChunks() == s.search.value.chunk + 1
    ensures match Step(s, failed)
            case More(t) => Valid(t) && Fuel(t) < Fuel(s)
            case _ => false
  {
    var k := s.NumChunks();
    var t := s.(results := s.results[k - 1 := Some(failed)]);
    NeededAll(t.included, k, t.results, t.total);
    LevelShape(t, Needed(t.included, k, t.results, k));
    assert Step(s, failed) == LevelFinished(t);
  }

  lemma RecurKeepsValid(s: State, failed: bool)
    requires Valid(s) && s.search == Some(Recur)
    ensures match Step(s, failed)
            case Panicked => !failed && |s.results| == 1
            case More(t) => Valid(t) && Fuel(t) < Fuel(s) && (failed || |s.results| != 1)
            case Stopped(t) => false
  {
  }

  /**
   * Whatever the answer: a call that does not panic keeps the invariant, one that asks for another
   * uses up fuel, and one that reports the end leaves the input as it is. The only panic a run can
   * reach is the first `unreachable!` of `explore_step`, in `Recur` with a single chunk result when
   * the test passed. The bounds checks, the assertion on an empty level, the second `unreachable!`
   * and the `unwrap` of a chunk result never fire.
   */
  lemma StepKeepsValid(s: State, failed: bool)
    requires Valid(s)
    ensures match Step(s, failed)
            case Panicked => true
            case More(t) => Valid(t) && Fuel(t) < Fuel(s)
            case Stopped(t) => Valid(t) && Mask(t) == Mask(s)
    ensures Step(s, failed).Panicked? <==> s.search == Some(Recur) && !failed && |s.results| == 1
  {
    match s.search
    case None =>
      HalvingsOfChunks(Min(s.total, DEFAULT_EXPLORE_CHUNKS));
    case Some(Explore(c)) =>
      ExploreKeepsValid(s, failed);
    case Some(Recur) =>
      RecurKeepsValid(s, failed);
    case Some(Done) =>
  }

  // ---------- Runs under arbitrary answers ----------

  /** The state after a series of answers, going on past a reported end; `None` after a panic. */
  ghost function Run(s: State, answers: seq<bool>): Option<State>
    decreases |answers|
  {
    if answers == [] then Some(s) else
      match Step(s, answers[0])
      case Panicked => None
      case More(t) => Run(t, answers[1..])
      case Stopped(t) => Run(t, answers[1..])
  }

  /** `missing` holds the records that could be added. */
  lemma {:induction false} PadFromSize(mask: set<nat>, i: nat, total: nat, remaining: nat, missing: set<nat>)
    requires i <= total && mask !! missing
    requires forall j: nat :: j in missing <==> i <= j < total && j !in mask
    ensures PadFrom(mask, i, total, remaining) <= mask + missing
    ensures |PadFrom(mask, i, total, remaining)| == |mask| + Min(remaining, |missing|)
    decreases total - i
  {
    if remaining == 0 {
    } else if i == total {
      assert missing == {};
    } else if i in mask {
      PadFromSize(mask, i + 1, total, remaining, missing);
    } else {
      PadFromSize(mask + {i}, i + 1, total, remaining - 1, missing - {i});
    }
  }

  lemma {:induction false} PadFromFirst(mask: set<nat>, i: nat, total: nat, remaining: nat)
    requires i <= total && Saturated(i) <= mask
    ensures mask <= PadFrom(mask, i, total, remaining)
    ensures var r := PadFrom(mask, i, total, remaining);
            forall a | a in r - mask :: Saturated(a) <= r
    decreases total - i
  {
    if remaining == 0 || i == total {
    } else if i in mask {
      PadFromFirst(mask, i + 1, total, remaining);
    } else {
      PadFromFirst(mask + {i}, i + 1, total, remaining - 1);
    }
  }

  lemma MissingSize(mask: set<nat>, total: nat)
    requires mask <= Saturated(total)
    ensures mask + (Saturated(total) - mask) == Saturated(total)
    ensures |mask| + |Saturated(total) - mask| == total
  {
    SaturatedSize(total);
    assert Saturated(total) == mask + (Saturated(total) - mask);
  }

  /** Padding adds the smallest missing records, as many as `minRecords` asks for and the input has. */
  lemma PadMeaning(mask: set<nat>, total: nat, minRecords: nat)
    requires mask <= Saturated(total)
    ensures var r := Pad(mask, total, minRecords);
            && mask <= r <= Saturated(total)
            && |r| == Max(|mask|, Min(minRecords, total))
            && forall a | a in r - mask :: Saturated(a) <= r
  {
    var missing := Saturated(total) - mask;
    MissingSize(mask, total);
    if |mask| < minRecords {
      var remaining: nat := minRecords - |mask|;
      PadFromSize(mask, 0, total, remaining, missing);
      PadFromFirst(mask, 0, total, remaining);
      assert Pad(mask, total, minRecords) == PadFrom(mask, 0, total, remaining) <= mask + missing;
    }
  }

  /** Every input of every run that has not panicked holds at least `minRecords` records, if there are as many. */
  lemma {:induction false} RunKeepsMinimum(s: State, answers: seq<bool>)
    requires Valid(s)
    ensures match Run(s, answers)
            case None => true
            case Some(t) => Valid(t) && t.total == s.total && t.minRecords == s.minRecords
                            && Mask(t) <= Saturated(s.total) && |Mask(t)| >= Min(s.minRecords, s.total)
    decreases |answers|
  {
    if answers == [] {
      PadMeaning(Searched(s), s.total, s.minRecords);
    } else {
      StepKeepsValid(s, answers[0]);
      match Step(s, answers[0])
      case Panicked =>
      case More(t) => RunKeepsMinimum(t, answers[1..]);
      case Stopped(t) => RunKeepsMinimum(t, answers[1..]);
    }
  }

  lemma {:induction false} RunConcat(s: State, a: seq<bool>, b: seq<bool>)
    ensures Run(s, a + b) == match Run(s, a) case None => None case Some(t) => Run(t, b)
    decreases |a|
  {
    if a == [] {
      assert a + b == b;
    } else {
      assert (a + b)[1..] == a[1..] + b;
      match Step(s, a[0])
      case Panicked =>
      case More(t) => RunConcat(t, a[1..], b);
      case Stopped(t) => RunConcat(t, a[1..], b);
    }
  }
}
