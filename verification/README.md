# A model of the TileDB Rust bindings' data model and property-test engine

The Rust bindings of TileDB carry, beside the calls into the C library, a pure data model and the engine
that their property tests are built on. This project models that part in Dafny and proves what it promises.

* **The record search** (`RecordsSearch`, `RecordsDriver`, `Culprits`, `SearchCost`, `Rollbacks`, `RecordsTree`):
  `RecordsValueTree`, the chunked search for a small failing subset of the records. `RecordsSearch.Step` is the
  transition function on values; the class `RecordsTree.RecordsValueTree` updates its fields in place and is proved
  to take exactly that step. The theorems are about whole runs: `RecordsDriver.Drive` is
  `while tree.explore_step(fails(tree.current())) {}` for an arbitrary test `fails`.
* **Shrink sequences** (`ShrinkSequences`, `ArbitraryShrinks`): the generated sequences of shrinking actions, the
  tree that cuts them short, and what they do to the record search.
* **Columnar cells** (`Bits`, `StableSort`, `Keyed`, `Columns`, `CellsModel`, `CellsTheorems`): the class
  `CellsModel.Cells` sorts, deduplicates, counts and groups with one index sort and one scan. Each method is proved
  against a definition that does not sort (`Keyed`), and `CellsTheorems` says what the definitions mean for the rows.
* **Row-major slices and dense writes** (`RowMajor`, `Slicing`, `Layouts`, `DenseWrites`): the odometer over any number
  of dimensions, the slice it selects, and the value tree that shrinks a dense write, of either layout, through it.
* **Ranges** (`NumCells`, `RangeAlgebra`, `TypedRanges`): cell counts with the overflow behaviour of 128-bit
  arithmetic, and union and intersection over a total order.
* **Sparse writes** (`SparseWrites`, `Accumulator`, `WriteSequences`, `WrittenRows`, `Readback`,
  `UniqueCells`): the domain of a write, the accumulator of the expected contents, the loop that replays a series of
  writes and the comparison with what is read back, and the generation and shrinking of cells with unique coordinates.
* **Option subsets** (`OptionSubset`): the partial order on JSON values.

Conventions. A physical value is named by its rank in the `BitsOrd` order of its type, so a value is an `int`, a cell
is a `seq<int>` and `bits_cmp` is the lexicographic order; for integral types the rank is the value itself. A bit set
is a `set<nat>`, a hash map of columns a `map`. `Panic`, `Panicked` or `None` stand for a Rust panic where one is
modelled. Loops over a hash map pick an arbitrary remaining key, so nothing depends on the order. Random choices, tests
and the value trees of single ranges are arbitrary functions passed as parameters.

Where the code and its documentation differ, the model follows the code:

* `sort` is documented as free to reorder equal elements (`test-utils/cells/src/lib.rs:159-161`). The code uses
  `sort_by`, which is stable, and `dedup` depends on it. `StableSort` proves that only one result is possible.
* `dedup` is documented by `self.dedup(keys).count_distinct(keys) == self.len()` (`test-utils/cells/src/lib.rs:268-271`).
  That is true of the length of the result (`DedupKeepsFirsts`); it is true of the length of `self` exactly when the
  keys are distinct already (`DedupIsIdentityIff`).
* `MultiValueRange::num_cells` is documented to be `None` if the result would overflow an `i128`. It returns the result
  2^127, which overflows (`SomeDespiteOverflow`), and is `None` for some results that do not (`NoneWithoutOverflow`).
  `NoneIffOverflowAlmost` says in exactly which cases either happens, `MultiNumCellsMeaning` when the result is `None`.
* A dense write is laid out in row-major or column-major order (`test-utils/cells/src/write/strategy.rs:356-360`), but is
  always sliced in row-major order (`:101-139`). Shrinking a column-major write can give a coordinate the value of
  another: `FirstRowOfColumnMajor` is an example on two by two cells, and `ValuesKeptIff` the exact condition.
* The tree is shrunk by generated sequences of actions in its own tests (`test-utils/strategy-ext/src/records.rs:474-484`),
  but relies on the answers coming from a test. `SomeSequencePanics` shows that on every non-empty input the generator
  can yield a sequence, of at most 20 actions, that ends in a panic; `DriverIsSafe` that no test does.
* `copy_from` is documented to extend `self` where necessary. The fields stay equal in length only under the condition
  of `CopyStaysAlignedIff`.
* `SequenceValueTree` keeps an upper bound but no lower one: `ThresholdSearchEndsIff`. Its own test expects a call that
  reports the end to be the last with an effect (`test-utils/strategy-ext/src/sequence.rs:107-111`), which is so only if
  nothing is left of the sequence: `EndIsFinalIff`, with an example in `EndIsNotFinal`.
* `StructuredCells::slice` returns the dimensions of the whole, not those of the slice; `Slice` does the same.

## Model

| member | source | states |
|---|---|---|
| RecordsTree.RecordsValueTree.constructor | test-utils/strategy-ext/src/records.rs:198-213 | A new tree is in the initial state, which satisfies the structural invariant. |
| RecordsTree.RecordsValueTree.RecordMask | test-utils/strategy-ext/src/records.rs:220-279 | The mask filled in by the loops is the subset the state tries next: all records, all but one chunk, or the committed ones, padded up to the minimum. |
| RecordsTree.PadMask | test-utils/strategy-ext/src/records.rs:261-277 | The padding loop, with its `continue` and `break`, never counts below zero and computes `Pad`. |
| RecordsSearch.PadMeaning | test-utils/strategy-ext/src/records.rs:261-277 | Padding only adds records, the smallest missing ones, and reaches exactly the minimum or all of the input. |
| RecordsSearch.ChunkBounds | test-utils/strategy-ext/src/records.rs:235-240 | The chunks are non-empty and follow each other from the first to the last record. |
| RecordsTree.RecordsValueTree.ExploreStep | test-utils/strategy-ext/src/records.rs:282-349 | Updates the fields in place to exactly the state of the transition function, and panics exactly when it does. |
| RecordsTree.RecordsValueTree.ExploreLevelFinished | test-utils/strategy-ext/src/records.rs:353-390 | Keeps the chunks without which the test passed, clears their results, and ends or recurs; taking each result never fails. |
| RecordsSearch.NeededAll | test-utils/strategy-ext/src/records.rs:357-386 | What a level keeps is an ordered part of the records; it is all of them exactly when the test passed without each chunk. |
| RecordsTree.RecordsValueTree.Current | test-utils/strategy-ext/src/records.rs:399-402 | The input tried next is the initial input filtered by the mask. |
| RecordsTree.RecordsValueTree.Simplify | test-utils/strategy-ext/src/records.rs:404-406 | Takes the step for a failed test, and never panics. |
| RecordsTree.RecordsValueTree.Complicate | test-utils/strategy-ext/src/records.rs:408-410 | Takes the step for a passed test. |
| RecordsSearch.StepKeepsValid | test-utils/strategy-ext/src/records.rs:282-390 | For any answer the invariant is kept, a step that asks for more uses up a bound, and one that reports the end changes no input. The only panic that can be reached is the first `unreachable!`, and exactly when a single chunk was tried, dropped, and the test then passed. |
| RecordsSearch.ChunkLengths | test-utils/strategy-ext/src/records.rs:355-365 | All chunks have the same number of records, but for the last, which has what is left over. |
| Rollbacks.RollbacksHalveChunks | test-utils/strategy-ext/src/records.rs:324-343 | After any run, the number of chunks is the smaller of 8 and the number of records, halved as often as the test passed right after chunks were dropped, and changed by nothing else. |
| Rollbacks.RollbackFindsPair | test-utils/strategy-ext/src/records.rs:324-343 | Of eight records, a test that fails on the first two and on any seven: all eight single records can be dropped, but not together; with four chunks the search then finds exactly the pair. |
| Rollbacks.RunClearsResults | test-utils/strategy-ext/src/records.rs:303-386 | In every run only the chunks tried at the current level have a result. |
| RecordsSearch.RunKeepsMinimum | test-utils/strategy-ext/src/records.rs:474-484 | After any series of answers that has not panicked, the input holds at least the required number of records. |
| RecordsDriver.StepKeepsConsistent | test-utils/strategy-ext/src/records.rs:282-390 | Under a test no call panics, the committed records fail the test, and each recorded result is the test's answer without that chunk. |
| RecordsDriver.DriverIsSafe | test-utils/strategy-ext/src/records.rs:282-402 | For every test and input the driver ends within 9 * (n + 4) + 2 calls without a panic; if the initial input fails so does the final one; at the end of the search dropping any one chunk makes the test pass. |
| RecordsDriver.FinalInputIsMinimal | test-utils/strategy-ext/src/records.rs:161-171 | When no more records are left than chunks, dropping any single record makes the test pass. |
| RecordsTree.RecordsValueTree.Minimize | test-utils/strategy-ext/src/records.rs:393-411 | The loop that runs the test on the current input and reports the answer ends in the state, and after the number of calls, of the specification. |
| RecordsTree.Shrink | test-utils/strategy-ext/src/records.rs:161-164 | For any collection of records and any test: a linear number of calls, no panic, a failing subset of the failing input, of at least the minimum size. |
| RecordsTree.ShrinkVec | test-utils/strategy-ext/src/records.rs:48-63 | For vectors, whose length and filter meet what the search relies on: the result is a subsequence, in the original order. |
| Culprits.FindsExactlyTheCulprits | test-utils/strategy-ext/src/records.rs:161-176 | When the test fails exactly if every one of fewer than eight culprits is present, the search ends with exactly the culprits. With no culprits, it ends with nothing. |
| Culprits.OneCulpritPerChunk | test-utils/strategy-ext/src/records.rs:351-390 | Chunks are disjoint, so there are at least as many culprits as chunks that hold one. |
| SearchCost.NothingShrinksIff | test-utils/strategy-ext/src/records.rs:177-179 | The documented worst case, exactly: nothing is shrunk if and only if each of the initial chunks holds a culprit. |
| SearchCost.OneCulpritIsFoundFast | test-utils/strategy-ext/src/records.rs:175-177 | The documented best case: one culprit among at most 8^j + 7 records is found, alone, within 9 * j + 12 calls. |
| SearchCost.CeilLog8Least | test-utils/strategy-ext/src/records.rs:175-177 | The number of levels is the least power of the number of chunks that covers the records. |
| ArbitraryShrinks.SomeSequencePanics | test-utils/strategy-ext/src/records.rs:321-337 | The generator of sequences of up to 20 actions or more can yield one that makes the search panic, if and only if the input is not empty. |
| ArbitraryShrinks.ShortSequencePanics | test-utils/strategy-ext/src/records.rs:321-343 | Dropping all chunks and rolling back to half as many, until one is left, takes at most 20 actions. |
| Prelude.FilterIsGather | test-utils/strategy-ext/src/records.rs:56-62 | Filtering by a mask reads the sequence at the masked indices in ascending order. |
| ShrinkSequences.NewTree | test-utils/strategy-ext/src/meta.rs:115-148 | For any random choices the subtraction never underflows, the sequence is the one the choices describe, of the drawn length, and no prefix has more complications than simplifications. |
| ShrinkSequences.YieldsExactlyBalanced | test-utils/strategy-ext/src/meta.rs:92-94 | Some random choices yield a sequence if and only if it is no longer than the maximum and no prefix of it has more complications than simplifications. |
| ShrinkSequences.DrawsDecide | test-utils/strategy-ext/src/meta.rs:126-144 | Each action is a complication if and only if there is a simplification to take back and zero was drawn for it. |
| ShrinkSequences.BalancedIff | test-utils/strategy-ext/src/meta.rs:92-94 | What the sequences keep is that no prefix has more complications than simplifications, counted. |
| ShrinkSequences.ShrunkBy | test-utils/strategy-ext/src/sequence.rs:16-56 | After any series of actions on a new tree the value is a prefix of the initial sequence, of the length the actions lead to. |
| ShrinkSequences.CutsAreBalanced | test-utils/strategy-ext/src/sequence.rs:28-56 | After any series of actions, the value of the tree of a generated sequence is again such a sequence. |
| ShrinkSequences.EndIsFinalIff | test-utils/strategy-ext/src/sequence.rs:107-111 | After a call that reports the end no later call has an effect, if and only if nothing is left of the sequence. |
| ShrinkSequences.EndIsNotFinal | test-utils/strategy-ext/src/sequence.rs:107-111 | On two elements, a sequence that can be generated, with an effect after a report of the end. |
| ShrinkSequences.SequenceValueTree.Simplify | test-utils/strategy-ext/src/sequence.rs:38-46 | Halves the length and remembers the old one as the bound. |
| ShrinkSequences.SequenceValueTree.Complicate | test-utils/strategy-ext/src/sequence.rs:48-55 | Grows by one up to the bound. |
| ShrinkSequences.SimplifyingHalves | test-utils/strategy-ext/src/sequence.rs:38-46 | After n simplifications the length is the initial one divided by 2^n. |
| ShrinkSequences.ComplicatingGrows | test-utils/strategy-ext/src/sequence.rs:38-55 | After one simplification, n complications add n elements, up to the length before it. |
| ShrinkSequences.ThresholdSearchEndsIff | test-utils/strategy-ext/src/sequence.rs:38-55 | Under a test that fails on sequences of at least a threshold length, some call reports the end if and only if every sequence fails or the initial one passes. |
| Bits.LexicographicLessIff | tiledb/common/src/datatype/physical.rs:116-132 | For slices of any lengths, one is before another if and only if, at the first place where they differ, it has the smaller value or has ended. |
| Bits.FirstUnequalDecides | tiledb/common/src/datatype/physical.rs:122-128 | The first unequal pair decides, whatever follows it and however long. |
| Bits.PrefixIsLess | tiledb/common/src/datatype/physical.rs:130 | A proper prefix is before the longer slice. |
| Bits.LexicographicTotal | tiledb/common/src/datatype/physical.rs:116-142 | Over a total order this is a total order, and its equality is equality. |
| Bits.CompareTotal | tiledb/common/src/datatype/physical.rs:116-142 | So the orders on cells and on tuples of cells are total. |
| Columns.IndexCompareIsKeyOrder | test-utils/cells/src/lib.rs:129-146 | The comparator of indices orders rows as their key tuples are ordered. |
| Columns.FirstUnequalKeyDecides | test-utils/cells/src/lib.rs:133-144 | The first key on which two rows have different cells decides, by the order of these cells. |
| StableSort.SortBy | test-utils/cells/src/lib.rs:169-170 | Sorts the index list in place into the stable order of the keys. |
| StableSort.StableOrderUnique | test-utils/cells/src/lib.rs:169-170 | There is only one stable order of all indices, so the sorting algorithm does not matter. |
| CellsModel.Cells.constructor | test-utils/cells/src/lib.rs:28-39 | Cells with fields of one length are valid. |
| CellsModel.Cells.Len | test-utils/cells/src/lib.rs:45-47 | Whichever field is asked, the answer is the number of rows. |
| CellsModel.Cells.CopyFrom | test-utils/cells/src/lib.rs:53-82 | Updates the fields one by one, in any order, to the overwritten ones. |
| Columns.CopyOverwrites | test-utils/cells/src/lib.rs:53-82 | A common index holds the argument's value, any other index the one of the longer column. |
| Columns.CopyStaysAlignedIff | test-utils/cells/src/lib.rs:53-82 | The fields stay equal in length if and only if the longer cells have every field of the shorter. |
| CellsModel.Cells.Truncate | test-utils/cells/src/lib.rs:84-89 | Every column is cut at the same length, which keeps the cells valid. |
| Columns.TruncateRows | test-utils/cells/src/lib.rs:84-89 | The first rows are left, whole. |
| CellsModel.Cells.Extend | test-utils/cells/src/lib.rs:91-105 | The rows of the argument are put behind the rows that are there, and every field of the argument is used up. |
| CellsModel.Cells.IsSorted | test-utils/cells/src/lib.rs:148-157 | Comparing neighbours decides whether all pairs of rows are in order. |
| CellsModel.SortColumn | test-utils/cells/src/lib.rs:172-181 | Taking each cell out of the old column and leaving a default loses none: the new column is the permuted one. |
| CellsModel.Cells.Sort | test-utils/cells/src/lib.rs:159-183 | Every column is permuted in place by the stable order of the keys. |
| CellsTheorems.SortMovesRows | test-utils/cells/src/lib.rs:159-183 | One permutation moves whole rows; the rows are the same as a multiset and end up in key order. |
| CellsTheorems.SortIsIdentityIff | test-utils/cells/src/lib.rs:148-183 | Sorting changes nothing if and only if the cells are sorted. |
| CellsTheorems.SortedIsCanonical | tiledb/api/src/query/strategy.rs:687-692 | With keys that cover all fields, two cells are equal when sorted if and only if they hold the same rows, each as often. |
| CellsModel.Cells.IdentifyGroups | test-utils/cells/src/lib.rs:192-219 | `None` exactly for no rows; otherwise boundaries from 0 to the length that cut the rows into the maximal runs of equal keys. |
| Keyed.RunsUnique | test-utils/cells/src/lib.rs:192-196 | There is only one way to cut rows into maximal runs. |
| CellsModel.Cells.CountDistinct | test-utils/cells/src/lib.rs:221-256 | The scan of the sorted copy counts the set of key tuples. |
| CellsTheorems.GroupsOfSortedCells | test-utils/cells/src/lib.rs:192-256 | Cells sorted by the grouping keys have as many groups as there are distinct keys. |
| CellsModel.Cells.FilterBy | test-utils/cells/src/lib.rs:258-266 | New cells with every column filtered by the mask, the old ones unchanged. |
| Columns.FilterRows | test-utils/cells/src/field.rs:338-350 | Filtering each column filters whole rows and keeps the columns equal in length. |
| CellsModel.Cells.Dedup | test-utils/cells/src/lib.rs:268-302 | Sorting the indices and scanning them keeps exactly the rows with no earlier row of the same key. |
| CellsModel.Cells.FirstOfEachRun | test-utils/cells/src/lib.rs:281-299 | The bits set by the scan are those of the first row of each key. |
| CellsTheorems.DedupKeepsFirsts | test-utils/cells/src/lib.rs:268-271 | The order is kept, the keys of the result are distinct and are all of the keys, so its length is its distinct count. |
| CellsTheorems.DedupIsIdentityIff | test-utils/cells/src/lib.rs:268-302 | Nothing changes, not even the length, if and only if the keys are distinct. |
| CellsTheorems.DedupIsIdempotent | test-utils/cells/src/lib.rs:268-302 | Deduplicating twice is deduplicating once. |
| RowMajor.DigitsOfPosition | test-utils/cells/src/lib.rs:409-421 | Coordinates can be recovered from their row-major position, in any number of dimensions. |
| RowMajor.PositionOfDigits | test-utils/cells/src/lib.rs:409-421 | Every position below the product of the dimensions is the position of coordinates inside them. |
| Slicing.NextIndex.constructor | test-utils/cells/src/lib.rs:386-407 | The odometer starts at the starts of the ranges, or exhausted if any range is empty. |
| Slicing.NextIndex.Compute | test-utils/cells/src/lib.rs:409-421 | The loop from the last dimension computes the row-major position. |
| Slicing.NextIndex.Advance | test-utils/cells/src/lib.rs:423-439 | The carry loop moves to the successor, or exhausts the odometer when there is none. |
| Slicing.NextIndex.Next | test-utils/cells/src/lib.rs:442-453 | Yields the position of the coordinates it stood at, and advances. |
| Slicing.SuccessorIsNext | test-utils/cells/src/lib.rs:423-439 | The successor is at the next position of the slice; there is none only at the last one. |
| Slicing.Slice | test-utils/cells/src/lib.rs:376-464 | The loop over the odometer ends and selects the rows at the positions it emits. |
| Slicing.EmittedIsTheBox | test-utils/cells/src/lib.rs:385-453 | For ranges inside the dimensions, the position of every point of their product is emitted once, in strictly increasing order, all below the product of the dimensions. Empty ranges and no dimensions included. |
| Slicing.SliceIsTheBox | test-utils/cells/src/lib.rs:376-464 | The slice has the product of the range lengths many rows, and the row at the position of x - start in it is the row at the position of x in the whole. |
| Layouts.OrdersAgreeIff | test-utils/cells/src/write/strategy.rs:356-360 | Row-major and column-major order put all coordinates at the same positions if and only if at most one dimension has more than one cell. |
| Layouts.LastDimensionDecides | test-utils/cells/src/write/strategy.rs:356-360 | In column-major order the last dimension in which coordinates differ decides which position is smaller. |
| DenseWrites.DenseWriteValueTree.constructor | test-utils/cells/src/write/strategy.rs:55-92 | Bounding cells that fill the bounding subarray make a valid tree, with the given layout and nothing shrunk yet. |
| DenseWrites.DenseWriteValueTree.CellsForSubarray | test-utils/cells/src/write/strategy.rs:101-139 | For any subarray inside the bounding one: as many rows as the product of the cell counts, each, in row-major order, with the value of the bounding cells at the same coordinate. The layout plays no part. |
| DenseWrites.SlicesFit | test-utils/cells/src/write/strategy.rs:105-136 | The computed slices lie inside the dimensions, have the lengths of the ranges, and name the same coordinates. |
| DenseWrites.DenseWriteValueTree.Current | test-utils/cells/src/write/strategy.rs:157-166 | The input has the layout of the tree, the current subarray, and the selected cells; in a row-major write, or with at most one wide bounding range, each coordinate has its value in the bounding cells. |
| DenseWrites.ValuesKeptIff | test-utils/cells/src/write/strategy.rs:101-166 | For rows that differ, every subarray inside the bounding one keeps the values at its coordinates if and only if the layout is row-major or at most one bounding range has more than one cell. |
| DenseWrites.FirstRowOfColumnMajor | test-utils/cells/src/write/strategy.rs:101-166 | A column-major write of two by two cells, shrunk to its first row, has at (0, 1) the value of (1, 0). |
| DenseWrites.DenseWriteValueTree.Simplify | test-utils/cells/src/write/strategy.rs:168-184 | Fails only if no dimension can shrink, having tried all. Otherwise shrinks the first that can, going round from the one after that shrunk last, or from the first: no dimension strictly between can shrink, and those beyond are untouched. |
| DenseWrites.NextShrinks | test-utils/cells/src/write/strategy.rs:172-183 | The same of the specification of the loop, in terms of the numbers of the dimensions alone. |
| DenseWrites.DenseWriteValueTree.Complicate | test-utils/cells/src/write/strategy.rs:186-199 | Complicates the dimension shrunk last and forgets it when that fails; no other dimension changes. |
| RangeAlgebra.SingleNumCellsCounts | tiledb/common/src/range.rs:149-155 | The number is that of the values between the ends, if and only if the start is not after the end. |
| NumCells.SingleNumCellsOutOfOrder | tiledb/common/src/range.rs:149-155 | A start after the end panics for neighbours, and otherwise wraps around to a count near 2^128. |
| NumCells.RangeOfType | tiledb/common/src/range.rs:690 | The factor of the fold is 2 to the width of the type, and the lowest value that of two's complement, or zero. |
| NumCells.MultiNumCellsMeaning | tiledb/common/src/range.rs:683-712 | Exactly when the fold panics (the start is after the end; never in the unchecked addition), when it is `None`, and that otherwise it is one more than the difference of the ranks in base 2^w. |
| NumCells.RankOrder | tiledb/common/src/range.rs:661-665 | Vectors of one length are ordered lexicographically as their ranks are. |
| NumCells.RankOfUnrank | tiledb/common/src/range.rs:661-665 | Every number below the number of vectors is the rank of a vector. |
| NumCells.NoneIffOverflowAlmost | tiledb/common/src/range.rs:682-709 | The documented promise fails in exactly two cases: a result that overflows is returned when it is 2^127, with the lowest and highest values last; `None` stands for a result that fits when the product before the last addition is 2^127 and the addition takes it back below. |
| NumCells.SomeDespiteOverflow | tiledb/common/src/range.rs:682-709 | A range whose count is 2^127, which is no `i128`, and for which it is returned. |
| NumCells.NoneWithoutOverflow | tiledb/common/src/range.rs:682-709 | A range whose count is the largest `i128`, and for which the result is `None`. |
| RangeAlgebra.NumCellsCounts | tiledb/common/src/range.rs:644-712 | When the result is a number, it is the size of the set of vectors between the ends. |
| RangeAlgebra.IntersectionIsCommon | tiledb/common/src/range.rs:91-124 | Panics exactly on an invalid range; is `None` exactly when no value is common; otherwise a valid range of exactly the common values. The output check never fails. |
| RangeAlgebra.UnionIsHull | tiledb/common/src/range.rs:189-208 | The two ways of choosing the ends agree, and give a range that encloses both and is enclosed by every range that does. |
| TypedRanges.CombinesAlike | tiledb/common/src/range.rs:1493-1522 | Union and intersection of valid ranges of one kind never panic, and their results are valid ranges of that kind. |
| TypedRanges.PanicsIffMismatch | tiledb/common/src/range.rs:1493-1522 | They panic if and only if the physical types, the shapes, or the fixed numbers of values differ. |
| TypedRanges.IntersectHoldsCommon | tiledb/common/src/range.rs:1508-1522 | For valid ranges of any shape and type: the intersection is `None` if and only if no cell is in both, and otherwise holds exactly the cells that are in both. |
| TypedRanges.UnionHoldsHull | tiledb/common/src/range.rs:1493-1506 | For valid ranges of any shape and type: the union holds all cells of both, and is within every range of the kind that does. |
| TypedRanges.DomainUnionIsPointwise | tiledb/common/src/range.rs:1702-1709 | The union of domains takes the dimensions in pairs, and panics if and only if their number differs or a pair cannot be united. |
| TypedRanges.NotCountedIff | tiledb/common/src/range.rs:142-155 | A valid range has no count if and only if it is of variable length, floating-point, or multi-valued and too large. |
| TypedRanges.CellsOfUnionAndIntersection | tiledb/common/src/range.rs:142-235 | For overlapping ranges, single or multi-valued, the counts of union and intersection add up to the counts of the two; the intersection can always be counted. |
| TypedRanges.NarrowerCounts | tiledb/common/src/range.rs:683-712 | A range inside one that can be counted can be counted. |
| SparseWrites.RangeIsTight | test-utils/cells/src/write/mod.rs:42-73 | The range of a dimension has the type and shape of its column, holds every coordinate in it, and has a coordinate at each end; for values of the type it is valid. |
| SparseWrites.DomainIsBox | test-utils/cells/src/write/mod.rs:39-77 | The domain has, for each dimension in order, the tight range of the column of that name, and is `None` if and only if one of the columns is empty. |
| SparseWrites.RangeOfUnion | tiledb/common/src/range.rs:1702-1709 | The union of the ranges of two columns is the range of a column of both their values. |
| Accumulator.SparseCellsAccumulator.constructor | tiledb/api/src/query/strategy.rs:432-449 | Starts with nothing written. |
| Accumulator.SparseCellsAccumulator.Accumulate | tiledb/api/src/query/strategy.rs:459-470 | Puts the write in front of what is there and, with unique coordinates, keeps the first row of each. |
| Accumulator.FirstMapConcat | tiledb/api/src/query/strategy.rs:456-463 | Rows put in front override rows of the same key behind them. |
| Accumulator.FirstMapOfFirsts | tiledb/api/src/query/strategy.rs:462-463 | Keeping the first row of each key leaves the map from keys to rows as it is. |
| WriteSequences.LastWriterWins | tiledb/api/src/query/strategy.rs:456-470 | After any series of writes each coordinate has the row of the last write that has it, and coordinates are distinct (unless a single write repeats one). |
| WrittenRows.LatestRowsRemain | tiledb/api/src/query/strategy.rs:456-470 | In terms of the data: no two accumulated rows have the same coordinates, and they are exactly the rows written for whose coordinates no later write, and no earlier row of the same write, has a row. |
| WriteSequences.DuplicatesAreKept | tiledb/api/src/query/strategy.rs:464-469 | With duplicates allowed, the rows of all writes are there, the newest write first. |
| WriteSequences.DomainIsBoundingBox | tiledb/api/src/query/strategy.rs:700-719 | For non-empty writes the union of their domains never panics and is the domain of the accumulated, deduplicated cells. |
| WrittenRows.DomainBoundsWrites | tiledb/api/src/query/strategy.rs:700-719 | In terms of the data: this union has one range for each dimension, in order, which is the box of the accumulated column of that name, holds every coordinate written, and has a coordinate written at each end. |
| WrittenRows.AccumulatedValues | tiledb/api/src/query/strategy.rs:456-470 | The values accumulated in a dimension are exactly those written. |
| Readback.ReplayOne | tiledb/api/src/query/strategy.rs:622-719 | One turn of the loop: an empty write changes nothing; any other extends domain and contents. |
| Readback.ReplayWrites | tiledb/api/src/query/strategy.rs:566-743 | The loop reaches no `unreachable!`, and ends with the accumulated non-empty writes and their bounding box, dimension by dimension. |
| Readback.WrittenKeepsRows | tiledb/api/src/query/strategy.rs:622-626 | Skipping the empty writes loses no rows. |
| Readback.CellsConstructor.MapIntermediate | tiledb/api/src/query/strategy.rs:351-361 | Batches are put one behind the other. |
| Readback.CheckReadback | tiledb/api/src/query/strategy.rs:685-692 | Reading in batches of any sizes and order, then sorting and comparing, succeeds if and only if the rows read are the rows written, each as often. |
| UniqueCells.NewFieldTree | test-utils/cells/src/strategy.rs:416-490 | Generation fails its assertion exactly when there are fewer distinct coordinates than required; otherwise the fields have as many rows as chosen between the minimum and the number of distinct coordinates, and their coordinates are distinct; the dimensions are the first rows of the deduplicated ones, and the attributes are those generated for that number. |
| UniqueCells.CellsValueTree.constructor | test-utils/cells/src/strategy.rs:262-297 | The search starts with all rows. |
| UniqueCells.CellsValueTree.Current | test-utils/cells/src/strategy.rs:303-305 | The cells are always valid, and are the initial ones filtered by the search's mask. |
| UniqueCells.CellsValueTree.Apply | test-utils/cells/src/strategy.rs:307-313 | Simplifying and complicating are the steps of the search. |
| UniqueCells.ShrunkCellsStayUnique | test-utils/cells/src/strategy.rs:300-314 | After any series of actions that has not panicked: equal field lengths, distinct coordinates, original order, and at least the required number of rows. |
| OptionSubset.SubsetIff | tiledb/utils/src/option.rs:154-181 | One JSON value is a subset of another if and only if at every path of the first there is null, or the second has the same scalar, an array of the same length, or an object there. |
| OptionSubset.Extension | tiledb/utils/src/option.rs:154-167 | An object is a subset of any other that has all of its keys, with the same values or where it has null. |
| OptionSubset.Reflexive | tiledb/utils/src/option.rs:154-181 | Every JSON value is a subset of itself. |
| OptionSubset.Transitive | tiledb/utils/src/option.rs:154-181 | Subsets of subsets are subsets. |
| OptionSubset.Antisymmetric | tiledb/utils/src/option.rs:154-181 | Values that are subsets of each other are equal. |

## Left out

- Culprits.FindsExactlyTheCulprits: stated for a required minimum of zero records; with a larger one the final input also holds the records that pad it.
- Readback.CheckReadback: compares values by their bits, as their order does; the code compares with `PartialEq`, under which a floating-point NaN differs from itself and the two zeros are equal.
- DenseWrites.DenseWriteValueTree: the layouts other than row-major and column-major, which the generator never draws; it refuses the global order.
- The calls into the C library: contexts, arrays, queries, fragment and schema objects. `Readback.ReplayWrites` and `Readback.CheckReadback` model the bookkeeping and the comparison of the test loop, not the array, its fragments or timestamps.
- The ten copies of each operation made by macros, one per physical type. The physical type is a tag that must match where the code panics on a mismatch.
- Hashing, and floating-point values under `PartialEq` elsewhere. The `BitsOrd` order is taken to be total on each type, as its implementations for single values state.
- Panics on preconditions of the callers: cells without any field, missing key fields, fields of unequal length, unequal field sets in `extend`, and `count_distinct` without keys on two rows or more are `requires` clauses.
- The constructor of `StructuredCells` and the conversion of counts to `usize`: lengths are unbounded, so running out of memory is not modelled. A bit set has no capacity.
- The implementations of `Records` for tuples. `RecordsTree.RecordsValueTree` takes any length and filter.
- `Cells::view`, `projection` and `add_field`, which select or add columns; `sorted`, which is `sort` on a copy; and the comparison of cells by bits, which is equality in the model.
- `FieldData::slice` and `FieldData::sort`, which are a subsequence and a sort of one column without keys.
- The masks of fields in `CellsValueTree::new`: all fields are included, as the code's writes do.
- The dense accumulator, which accepts a single write only.
- `TypedRange::from_slices`, which reinterprets raw memory, and the other conversions of ranges.
- Random sources and the value trees of single ranges. `DenseWrites.RangeTree` is any value tree whose ranges stay inside the bounding one.
- `MaybeValueTree`, which makes a value optional while it shrinks.
- The derived `OptionSubset` for structures, and its forms for sequences and options outside JSON.
