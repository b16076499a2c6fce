/** `RecordsValueTree` itself: the in-place search over any collection of records, and its driver. */
module RecordsTree {
  import opened Prelude
  import opened RecordsSearch
  import opened RecordsDriver

  /** The operations of the `Records` trait. */
  datatype Records<!R> = Records(len: R -> nat, filter: (R, set<nat>) -> R)

  /** `Records` for a vector. */
  function VecRecords<T>(): Records<seq<T>> { Records(v => |v|, (v, mask) => Filter(v, mask)) }

  datatype Signal = Panic | True | False

  /** The test as a function of the mask. */
  ghost function OnMask<R>(records: Records<R>, init: R, fails: R -> bool): Test {
    mask => fails(records.filter(init, mask))
  }

  method SetAll(start: set<nat>, bits: seq<nat>) returns (mask: set<nat>)
    ensures mask == start + Elements(bits)
  {
    mask := start;
    for i := 0 to |bits|
      invariant mask == start + Elements(bits[..i])
    {
      assert bits[..i + 1] == bits[..i] + [bits[i]];
      mask := mask + {bits[i]};
    }
    assert bits[..|bits|] == bits;
  }

  /** The loop at the end of `record_mask`. */
  method PadMask(bySearch: set<nat>, n: nat, minRecords: nat) returns (mask: set<nat>)
    ensures mask == Pad(bySearch, n, minRecords)
  {
    mask := bySearch;
    if |mask| < minRecords {
      var remaining := minRecords - |mask|;
      for i := 0 to n
        invariant 0 < remaining
        invariant PadFrom(mask, i, n, remaining) == PadFrom(bySearch, 0, n, minRecords - |bySearch|)
      {
        if i in mask { continue; }
        remaining := remaining - 1;
        mask := mask + {i};
        if remaining == 0 { break; }
      }
    }
  }

  class RecordsValueTree<R> {
    const records: Records<R>
    const minRecords: nat
    const init: R
    var lastRecordsIncluded: Option<seq<nat>>
    var recordsIncluded: seq<nat>
    var exploreResults: array<Option<bool>>
    var search: Option<ShrinkStep>

    ghost function View(): State
      reads this, exploreResults
    {
      State(minRecords, records.len(init), lastRecordsIncluded, recordsIncluded, exploreResults[..], search)
    }

    constructor (minRecords: nat, init: R, records: Records<R>)
      ensures View() == Initial(minRecords, records.len(init)) && Valid(View()) && fresh(exploreResults)
      ensures this.minRecords == minRecords && this.init == init && this.records == records
    {
      var n := records.len(init);
      this.records := records;
      this.minRecords := minRecords;
      this.init := init;
      lastRecordsIncluded := None;
      recordsIncluded := Identity(n);
      exploreResults := new Option<bool>[Min(n, DEFAULT_EXPLORE_CHUNKS)](_ => None);
      search := None;
    }

    method RecordMask() returns (mask: set<nat>)
      requires Valid(View())
      ensures mask == Mask(View())
    {
      var n := records.len(init);
      match search {
        case None => mask := Saturated(n);
        case Some(Explore(c)) =>
          var nchunks := Max(1, Min(|recordsIncluded|, exploreResults.Length));
          var approxChunkLen := |recordsIncluded| / nchunks;
          if approxChunkLen == 0 {
            mask := {};
          } else {
            ChunkBounds(|recordsIncluded|, nchunks, c);
            var excludeMin := c * approxChunkLen;
            var excludeMax := if c + 1 == nchunks then |recordsIncluded| else (c + 1) * approxChunkLen;
            mask := SetAll({}, recordsIncluded[..excludeMin] + recordsIncluded[excludeMax..]);
          }
        case Some(_) => mask := SetAll({}, recordsIncluded);
      }
      assert mask == Searched(View());
      mask := PadMask(mask, n, minRecords);
    }

    method Current() returns (input: R)
      requires Valid(View())
      ensures input == records.filter(init, Mask(View()))
    {
      var mask := RecordMask();
      input := records.filter(init, mask);
    }

    method ExploreStep(failed: bool) returns (r: Signal)
      requires Valid(View())
      modifies this, exploreResults
      ensures exploreResults == old(exploreResults) || fresh(exploreResults)
      ensures match Step(old(View()), failed)
              case Panicked => r == Panic
              case More(t) => r == True && View() == t
              case Stopped(t) => r == False && View() == t
    {
      match search {
        case None =>
          if failed && records.len(init) != 0 {
            search := Some(Explore(0));
            return True;
          }
          return False;
        case Some(Explore(c)) =>
          var nchunks := Min(|recordsIncluded|, exploreResults.Length);
          exploreResults[c] := Some(failed);
          assert exploreResults[..] == old(exploreResults[..])[c := Some(failed)];
          if c + 1 < nchunks {
            search := Some(Explore(c + 1));
            return True;
          } else if c + 1 > nchunks {
            assert nchunks == 0;
            return False;
          } else {
            ExploreLevelFinished();
            return True;
          }
        case Some(Recur) =>
          if !failed {
            if exploreResults.Length == 1 {
              return Panic;
            }
            recordsIncluded := lastRecordsIncluded.value;
            lastRecordsIncluded := None;
            exploreResults := new Option<bool>[exploreResults.Length / 2](_ => None);
          }
          search := Some(Explore(0));
          return True;
        case Some(Done) =>
          return False;
      }
    }

    method ExploreLevelFinished()
      requires 0 < View().NumChunks()
      requires forall i | 0 <= i < View().NumChunks() :: exploreResults[i].Some?
      modifies this, exploreResults
      ensures exploreResults == old(exploreResults)
      ensures LevelFinished(old(View())) == More(View())
    {
      var nchunks := Min(|recordsIncluded|, exploreResults.Length);
      var approxChunkLen := |recordsIncluded| / nchunks;
      var newRecordsIncluded := [];
      ghost var results := exploreResults[..];
      for i := 0 to nchunks
        invariant unchanged(this)
        invariant newRecordsIncluded == Needed(recordsIncluded, nchunks, results, i)
        invariant forall j | 0 <= j < exploreResults.Length :: exploreResults[j] == if j < i then None else results[j]
      {
        ChunkBounds(|recordsIncluded|, nchunks, i);
        var chunkMin := i * approxChunkLen;
        var chunkMax := if i + 1 == nchunks then |recordsIncluded| else (i + 1) * approxChunkLen;
        var needed := !exploreResults[i].value;
        exploreResults[i] := None;
        if needed {
          newRecordsIncluded := newRecordsIncluded + recordsIncluded[chunkMin..chunkMax];
        } else {
          assert newRecordsIncluded + [] == newRecordsIncluded;
        }
      }
      if newRecordsIncluded == recordsIncluded {
        search := Some(Done);
      } else {
        lastRecordsIncluded := Some(recordsIncluded);
        recordsIncluded := newRecordsIncluded;
        search := Some(Recur);
      }
    }

    method Simplify() returns (r: Signal)
      requires Valid(View())
      modifies this, exploreResults
      ensures exploreResults == old(exploreResults) || fresh(exploreResults)
      ensures match Step(old(View()), true)
              case Panicked => false
              case More(t) => r == True && View() == t
              case Stopped(t) => r == False && View() == t
    {
      StepKeepsValid(View(), true);
      r := ExploreStep(true);
    }

    method Complicate() returns (r: Signal)
      requires Valid(View())
      modifies this, exploreResults
      ensures exploreResults == old(exploreResults) || fresh(exploreResults)
      ensures match Step(old(View()), false)
              case Panicked => r == Panic
              case More(t) => r == True && View() == t
              case Stopped(t) => r == False && View() == t
    {
      r := ExploreStep(false);
    }

    /** The driver. It never panics, and ends where `Drive` says. */
    method Minimize(fails: R -> bool) returns (calls: nat)
      requires Consistent(View(), OnMask(records, init, fails))
      modifies this, exploreResults
      ensures exploreResults == old(exploreResults) || fresh(exploreResults)
      ensures Finish(View(), calls) == Drive(old(View()), OnMask(records, init, fails))
    {
      ghost var test := OnMask(records, init, fails);
      var more := true;
      calls := 0;
      while more
        invariant exploreResults == old(exploreResults) || fresh(exploreResults)
        invariant Consistent(View(), test)
        invariant var all := Drive(old(View()), test);
                  if more then
                    var rest := Drive(View(), test);
                    all == rest.(calls := calls + rest.calls)
                  else all == Finish(View(), calls)
        decreases more, if more then Fuel(View()) else 0
      {
        var input := Current();
        ghost var before := View();
        StepKeepsConsistent(before, test);
        StepKeepsValid(before, test(Mask(before)));
        var signal := ExploreStep(fails(input));
        more := signal == True;
        calls := calls + 1;
      }
    }
  }

  /**
   * A whole search, for any collection of records and any test: it ends within a number of calls
   * linear in the number of records, without a panic, on a subset of the records; if the test failed
   * on all of the records it fails on these.
   */
  method Shrink<R>(records: Records<R>, init: R, minRecords: nat, fails: R -> bool) returns (final: R, calls: nat)
    requires records.filter(init, Saturated(records.len(init))) == init
    ensures calls <= 9 * (records.len(init) + 4) + 2
    ensures fails(init) ==> fails(final)
    ensures exists mask: set<nat> :: mask <= Saturated(records.len(init)) && final == records.filter(init, mask)
                                     && |mask| >= Min(minRecords, records.len(init))
  {
    var tree := new RecordsValueTree(minRecords, init, records);
    DriverIsSafe(minRecords, records.len(init), OnMask(records, init, fails));
    DriveEnds(tree.View(), OnMask(records, init, fails));
    calls := tree.Minimize(fails);
    final := tree.Current();
    RunKeepsMinimum(tree.View(), []);
  }

  /** A whole search over a vector ends with a subsequence of it. */
  method ShrinkVec<T>(init: seq<T>, minRecords: nat, fails: seq<T> -> bool) returns (final: seq<T>, calls: nat)
    ensures calls <= 9 * (|init| + 4) + 2
    ensures fails(init) ==> fails(final)
    ensures Min(minRecords, |init|) <= |final|
    ensures exists idx: seq<nat> :: Listing(idx, |init|) && final == Gather(init, idx)
  {
    FilterAll(init, Saturated(|init|));
    final, calls := Shrink(VecRecords<T>(), init, minRecords, fails);
    ghost var mask: set<nat> :| mask <= Saturated(|init|) && final == Filter(init, mask)
                                && |mask| >= Min(minRecords, |init|);
    FilterIsGather(init, mask);
    FilterSize(init, mask);
    assert Listing(Kept(|init|, mask), |init|);
  }
}
