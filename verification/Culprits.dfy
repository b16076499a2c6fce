/**
 * What the search finds when the test fails exactly if all of a set of culprit records is present,
 * and no minimum number of records is asked for.
 */
module Culprits {
  import opened Prelude
  import opened RecordsSearch
  import opened RecordsDriver

  ghost function FailsIfAll(culprits: set<nat>): Test { mask => culprits <= mask }

  /** The chunk that holds the record at position `p`. */
  lemma {:induction false} ChunkHolding(inc: seq<nat>, k: nat, j: nat, x: nat) returns (i: nat)
    requires 0 < j <= k <= |inc|
    requires Edge(|inc|, k, j) <= |inc| && x in inc[..Edge(|inc|, k, j)]
    ensures i < j && x in Chunk(inc, k, i)
  {
    ChunkBounds(|inc|, k, j - 1);
    var e, f := Edge(|inc|, k, j - 1), Edge(|inc|, k, j);
    assert inc[..f] == inc[..e] + Chunk(inc, k, j - 1);
    if x in Chunk(inc, k, j - 1) {
      i := j - 1;
    } else {
      assert x in inc[..e];
      i := ChunkHolding(inc, k, j - 1, x);
    }
  }

  /** A chunk without which the test passed is kept. */
  lemma {:induction false} NeededHolds(inc: seq<nat>, k: nat, results: seq<Option<bool>>, j: nat, i: nat)
    requires i < j <= k <= |inc| && k <= |results| && results[i] == Some(false)
    ensures Elements(Chunk(inc, k, i)) <= Elements(Needed(inc, k, results, j))
  {
    if i < j - 1 { NeededHolds(inc, k, results, j - 1, i); }
  }

  /** No record that is needed for a failure is ever dropped, so the search never has to roll back. */
  ghost predicate Closing(s: State, culprits: set<nat>) {
    && Consistent(s, FailsIfAll(culprits))
    && s.minRecords == 0
    && |s.results| == Min(s.total, DEFAULT_EXPLORE_CHUNKS)
    && culprits <= Saturated(s.total)
    && (s.search == Some(Recur) ==> culprits <= Elements(s.included))
  }

  lemma CulpritIsKept(s: State, culprits: set<nat>, x: nat)
    requires Valid(s) && 0 < s.NumChunks() && s.minRecords == 0 && x in culprits && x in s.included
    requires forall i | 0 <= i < s.NumChunks() :: s.results[i] == Some(FailsWithout(s, FailsIfAll(culprits), i))
    ensures x in Needed(s.included, s.NumChunks(), s.results, s.NumChunks())
  {
    var k := s.NumChunks();
    assert s.included[..|s.included|] == s.included;
    var i := ChunkHolding(s.included, k, k, x);
    WithoutElements(s.included, k, i);
    var left := Elements(Without(s.included, k, i));
    assert x !in left && !(culprits <= left);
    assert !FailsWithout(s, FailsIfAll(culprits), i);
    NeededHolds(s.included, k, s.results, k, i);
    assert x in Elements(Chunk(s.included, k, i));
  }

  lemma LevelKeepsCulprits(s: State, culprits: set<nat>)
    requires Valid(s) && 0 < s.NumChunks() && s.minRecords == 0 && culprits <= Elements(s.included)
    requires forall i | 0 <= i < s.NumChunks() :: s.results[i] == Some(FailsWithout(s, FailsIfAll(culprits), i))
    ensures culprits <= Elements(Needed(s.included, s.NumChunks(), s.results, s.NumChunks()))
  {
    forall x | x in culprits
      ensures x in Needed(s.included, s.NumChunks(), s.results, s.NumChunks())
    {
      CulpritIsKept(s, culprits, x);
    }
  }

  lemma StepKeepsClosing(s: State, culprits: set<nat>)
    requires Closing(s, culprits)
    ensures var o := Step(s, FailsIfAll(culprits)(Mask(s))); !o.Panicked? && Closing(o.next, culprits)
  {
    var fails := FailsIfAll(culprits);
    StepKeepsConsistent(s, fails);
    match s.search
    case Some(Explore(c)) =>
      var k := s.NumChunks();
      if 0 < k == c + 1 {
        var t := Answered(s, fails(Mask(s)));
        ResultsAreAnswers(s, fails);
        forall i | 0 <= i < k
          ensures t.results[i] == Some(FailsWithout(t, fails, i))
        {
          assert FailsWithout(t, fails, i) == FailsWithout(s, fails, i);
        }
        LevelKeepsCulprits(t, culprits);
      }
    case _ =>
  }

  ghost predicate HoldsCulprit(inc: seq<nat>, k: nat, i: nat, culprits: set<nat>)
    requires i < k <= |inc|
  {
    exists x :: x in culprits && x in Chunk(inc, k, i)
  }

  /** Chunks are disjoint: if each of the first `j` holds a culprit there are at least `j` culprits. */
  lemma {:induction false} OneCulpritPerChunk(inc: seq<nat>, k: nat, culprits: set<nat>, j: nat)
    requires j <= k <= |inc| && 0 < k && Ascending(inc)
    requires forall i | 0 <= i < j :: HoldsCulprit(inc, k, i, culprits)
    ensures Edge(|inc|, k, j) <= |inc|
    ensures j <= |culprits * Elements(inc[..Edge(|inc|, k, j)])|
  {
    if j == 0 {
    } else {
      var e, f := Edge(|inc|, k, j - 1), Edge(|inc|, k, j);
      ChunkBounds(|inc|, k, j - 1);
      OneCulpritPerChunk(inc, k, culprits, j - 1);
      assert HoldsCulprit(inc, k, j - 1, culprits);
      var x :| x in culprits && x in Chunk(inc, k, j - 1);
      OneMore(inc, e, f, culprits, x);
    }
  }

  lemma OneMore(inc: seq<nat>, e: nat, f: nat, culprits: set<nat>, x: nat)
    requires e <= f <= |inc| && Ascending(inc) && x in culprits && x in inc[e..f]
    ensures |culprits * Elements(inc[..e])| + 1 <= |culprits * Elements(inc[..f])|
  {
    AscendingSplit(inc, e, f, x);
    SubsetSize(culprits * Elements(inc[..e]) + {x}, culprits * Elements(inc[..f]));
  }

  lemma AscendingSplit(inc: seq<nat>, e: nat, f: nat, x: nat)
    requires e <= f <= |inc| && Ascending(inc) && x in inc[e..f]
    ensures Elements(inc[..e]) + {x} <= Elements(inc[..f])
    ensures x !in Elements(inc[..e])
  {
  }

  /** At the end every chunk holds a culprit. */
  lemma EveryChunkGuilty(s: State, culprits: set<nat>, i: nat)
    requires Closing(s, culprits) && s.search == Some(Done) && i < s.NumChunks()
    ensures HoldsCulprit(s.included, s.NumChunks(), i, culprits)
  {
    var k := s.NumChunks();
    WithoutElements(s.included, k, i);
    assert !FailsWithout(s, FailsIfAll(culprits), i);
    var x :| x in culprits && x !in Elements(Without(s.included, k, i));
    assert x in Elements(s.included) by { assert FailsOn(s, FailsIfAll(culprits), s.included); }
  }

  lemma EndIsCulprits(s: State, culprits: set<nat>)
    requires Closing(s, culprits) && s.search != None && Ended(s)
    requires |culprits| < DEFAULT_EXPLORE_CHUNKS || s.total <= DEFAULT_EXPLORE_CHUNKS
    ensures Elements(s.included) == culprits
  {
    var inc, k := s.included, s.NumChunks();
    assert FailsOn(s, FailsIfAll(culprits), inc);
    if s.search == Some(Done) {
      forall i | 0 <= i < k ensures HoldsCulprit(inc, k, i, culprits) {
        EveryChunkGuilty(s, culprits, i);
      }
      OneCulpritPerChunk(inc, k, culprits, k);
      SubsetSize(culprits * Elements(inc[..Edge(|inc|, k, k)]), culprits);
      ListingSize(inc, s.total);
      assert k == |inc|;
      forall p | 0 <= p < |inc|
        ensures inc[p] in culprits
      {
        OneRecordChunk(inc, p);
        assert HoldsCulprit(inc, k, p, culprits);
      }
    }
  }

  lemma {:induction false} DriveKeepsClosing(s: State, culprits: set<nat>)
    requires Closing(s, culprits)
    ensures Closing(Drive(s, FailsIfAll(culprits)).state, culprits)
    ensures s.search != None || s.total != 0 ==> Drive(s, FailsIfAll(culprits)).state.search != None
    decreases Fuel(s)
  {
    var fails := FailsIfAll(culprits);
    StepKeepsConsistent(s, fails);
    StepKeepsValid(s, fails(Mask(s)));
    StepKeepsClosing(s, culprits);
    match Step(s, fails(Mask(s)))
    case More(t) => DriveKeepsClosing(t, culprits);
    case Stopped(t) =>
  }

  /** Fewer culprits than chunks, or few enough records: the search ends with exactly the culprits. */
  lemma FindsExactlyTheCulprits(total: nat, culprits: set<nat>)
    requires culprits <= Saturated(total)
    requires |culprits| < DEFAULT_EXPLORE_CHUNKS || total <= DEFAULT_EXPLORE_CHUNKS
    ensures Consistent(Initial(0, total), FailsIfAll(culprits))
    ensures Elements(Drive(Initial(0, total), FailsIfAll(culprits)).state.included) == culprits
  {
    var s := Initial(0, total);
    DriveKeepsClosing(s, culprits);
    DriveEnds(s, FailsIfAll(culprits));
    if total > 0 {
      EndIsCulprits(Drive(s, FailsIfAll(culprits)).state, culprits);
    }
  }
}
