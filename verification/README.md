# Cracking engine of the RLE cracker tables

A Dafny model of the equality-selection engine of two adaptive-indexing
column stores: `UnderswapRLETable` (Code/proj/src/underswap_rle_compression.rs)
and `OverswapRLETable` (Code/proj/src/overswap_rle_compression.rs). Both are
built on the cracked column `IntCol` (Code/proj/src/column.rs).

A cracked column keeps four things:

- its stored values `v`;
- a working copy `crk`, which queries reorder in place;
- a base index `baseIdx` from each working slot back to its stored row;
- `runLengths`, which carries run-length markers at both ends of every run
  of equal values in the working copy.

A pivot index `crkIdx` remembers the value boundaries found so far. The query
`cracker_select_specific(x, col)` runs in four steps:

1. Seed an interval from the pivot index.
2. Tighten both ends of the interval, merging adjacent equal runs.
3. Scan, exchanging whole runs so that values below `x`, equal to `x` and
   above `x` form three groups.
4. Record the `x` group as one run and as two new pivots, then return the
   values of column `col` at its rows.

The two tables differ only in how the scan exchanges a run above `x` with the
run at the top of the interval:

- underswap cuts the longer run down to the length of the shorter one;
- overswap moves both runs whole and pads the shorter one with its neighbours.

Apart from the query, the two source files are the same line for line; the
overswap file is offset by 5 lines (its `insert` is lines 85-98, `get_indices`
104-136, `count_col_eq` 429-431). The model therefore has one `Table` and one
`Query`, parameterised by `Strategy` (`Under` or `Over`).

Modules, following the program's structure:

| module | file | contents |
|---|---|---|
| `Wrappers` | wrappers.dfy | `Option` and `Result`; a panic on an unknown column name or a bad batch is a `Failure` |
| `Column` | column.dfy | `IntCol`, `swap_range`, `empty`, `append`, `rearrange`, `at` |
| `CrackerIndex` | cracker_index.dfy | the pivot index as a `map<int, nat>` with `lower_bound`, `upper_bound`, `insert` |
| `Rows` | rows.dfy | row lists: `Matching` (the rows holding `x`), `Gather`, `CountEq` |
| `Runs` | runs.dfy | `Block` (one marked run) and `Tiled` (a stretch of marked runs) |
| `Cracked` | cracked.dfy | `Valid`, the invariant a cracked column keeps between queries, and `Frame`, what a query may change |
| `Tighten` | tighten.dfy | tighten-low and tighten-high with their run merging |
| `Scan` | scan.dfy | the scan invariant and the exchange of two ranges |
| `LessRound` | less.dfy | the scan round for a run below `x` |
| `Greater` | greater.dfy | what every round for a run above `x` establishes |
| `Underswap` | under.dfy | the underswap exchange for a run above `x` |
| `Overswap` | over.dfy | the overswap exchange, with overlap and padding |
| `Select` | select.dfy | the whole query and the comparison of the two strategies |
| `Table` | table.dfy | the table wrapper: `new`, `new_columns`, `set_crk_col`, `insert`, `get_col`, `get_indices`, `get_values`, `rearrange`, `count_col_eq`, `cracker_select_specific`, `from_adjacency_vectors` |

Source integers are modelled as follows:

- `usize` is `nat` and `i64` is `int`.
- The model follows a release build, where integer overflow wraps instead
  of panicking. Three places depend on this, and each is an explicit case:
  - the `p_high + 1 == 0` seed guard, which only fires after `0 - 1` wraps;
  - the index below slot 0 in tighten-high, which panics in either build;
  - the `i8` arithmetic of `pad_size`.
- An index out of range panics in the source. Where a caller supplies the
  index, the model requires it in range (see "Left out").
- The `HashMap` of columns is a `map`. Where `insert` iterates over it, the
  iteration order is a parameter `order`.

## Model

| member | source | states |
|---|---|---|
| Column.SwapRange | Code/proj/src/column.rs:41-47 | One permutation of the slots is applied to the working copy, the base index and the run lengths alike: it exchanges `[a, a+l)` with `[b, b+l)` and fixes every other slot. The stored values, the pivot index and `ofs` are untouched, and the working copy and base index keep their multisets. A range exchanged with itself leaves the column as it is. |
| Column.SwapRangeInvolution | Code/proj/src/column.rs:41-47 | Exchanging the same two ranges twice restores the column exactly. |
| Column.SwapRangeAligned | Code/proj/src/column.rs:41-47 | If every working value equals the stored value of its base row before the exchange, the same holds after it. |
| Column.Empty | Code/proj/src/column.rs:53-62 | Every vector of the new column is empty and its pivot index has no entries. |
| Column.Append | Code/proj/src/column.rs:83-85 | The stored column grows by the batch: old rows keep their values, the new rows hold the batch in order, and the caller's vector is left empty. The cracking state is not touched. |
| Column.At | Code/proj/src/column.rs:79-81 | On an aligned column, every working slot whose base index is `idx` holds the stored value `at(idx)` returns. |
| Column.Rearrange | Code/proj/src/column.rs:64-77 | The stored column becomes the listed rows in list order. Working copy, pivot index, base index, `ofs` and run lengths are all reset to empty. |
| Column.AppendRearrange | Code/proj/src/column.rs:64-85 | Appending a batch and then keeping only the rows that were there before gives back the original stored column. |
| CrackerIndex.LowerBound | Code/proj/src/underswap_rle_compression.rs:151 | The result is the position stored for the greatest pivot at or below `k`. It is absent exactly when every pivot is above `k`. |
| CrackerIndex.UpperBound | Code/proj/src/underswap_rle_compression.rs:155 | The result is the position stored for the smallest pivot at or above `k`. It is absent exactly when every pivot is below `k`. |
| CrackerIndex.Insert | Code/proj/src/underswap_rle_compression.rs:334-335 | Pivot `k` now maps to `p`, overwriting any earlier entry; every other pivot keeps its position. |
| CrackerIndex.PositionsMonotone | Code/proj/src/column.rs:21-23 | When every pivot splits the working copy, a larger pivot never has a smaller position. Splitting is two-sided: every slot before the pivot's position holds a smaller value, as the comment on `crk_idx` says, and every slot from it on holds a value at least the pivot, the half the comment leaves unstated and the two inserts at underswap lines 334-335 establish. |
| CrackerIndex.SeedBounds | Code/proj/src/underswap_rle_compression.rs:151-156 | Take the seeds `lower_bound(x)` (default 0) and `upper_bound(x+1)` (default count). Every `x` in the working copy lies between them, the values below the first seed are below `x`, the values from the second seed on are above `x`, and no pivot position falls strictly inside. |
| CrackerIndex.InsertSplits | Code/proj/src/underswap_rle_compression.rs:333-335 | Recording a pivot at a value boundary keeps the split property of every pivot. |
| Rows.MatchingRows | Code/proj/src/underswap_rle_compression.rs:148 | The rows a selection of `x` must return list each row holding `x` exactly once, and no other row. |
| Rows.MatchingCount | Code/proj/src/underswap_rle_compression.rs:340-342 | The number of rows holding `x` is the count `count_col_eq` computes. |
| Rows.GatherPermutation | Code/proj/src/underswap_rle_compression.rs:133-139 | Reading a column at two permutations of the same rows gives two permutations of the same values. |
| Cracked.PartitionRows | Code/proj/src/underswap_rle_compression.rs:329-336 | If exactly the working slots `[lo, hi]` hold `x`, their base indices are the rows of the stored column holding `x`, up to order. |
| Tighten.LowRound | Code/proj/src/underswap_rle_compression.rs:170-181 | One round of tighten-low outside the last run: the run at `p_low`, merged first when the next slot has its value, lies below `x` and ends before the end of the interval. Markers change only inside the interval, and both parts stay tiled. |
| Tighten.TightenLow | Code/proj/src/underswap_rle_compression.rs:159-182 | `p_low` only moves up. Every slot it passes is below `x`, and it stops on a value at least `x` or at `p_high`. Markers change only inside the interval and the interval stays tiled. A column whose first value is not below `x` is left unchanged. The last run of the column is also covered: there the loop steps slot by slot on stale lengths ("evade overflow"). |
| Tighten.Evade | Code/proj/src/underswap_rle_compression.rs:162-168 | Inside the last run of the column, the loop stops on a slot whose stored length no longer reaches past the end, or on the last slot. Every slot passed is below `x`. |
| Tighten.MergeUp | Code/proj/src/underswap_rle_compression.rs:170-177 | The run at `p_low` grows only by following slots of its own value, and never reaches `p_high`. |
| Tighten.TightenHigh | Code/proj/src/underswap_rle_compression.rs:184-200 | `p_high` only moves down, every slot it passes is above `x`, and it stops on a value at most `x` or at `p_low`. When the run it would skip reaches slot 0, it reports `hitStart`: no value up to `p_high` is at most `x`. It reports `hitStart` exactly when the loop as written panics, and otherwise ends with the same run lengths and `p_high` as the loop as written. |
| Tighten.HighRound | Code/proj/src/underswap_rle_compression.rs:185-199 | One round of tighten-high. It reports the hit exactly when the run ending at `p_high` reaches slot 0. Otherwise the run is skipped as it is when the slot before it holds another value, or is first grown by `GrowDown` and marked at both ends. Every slot passed is above `x`, and both parts stay tiled. |
| Tighten.MergeHigh | Code/proj/src/underswap_rle_compression.rs:187-197 | The merged run has the length `GrowDown` gives and is marked at both ends. All other markers are kept, and the stretches on either side stay tiled. |
| Tighten.GrowDown | Code/proj/src/underswap_rle_compression.rs:187-195 | The merge loop as a function of the length found so far: the length only grows, and the run never reaches below slot 0. |
| Tighten.MergeDown | Code/proj/src/underswap_rle_compression.rs:186-195 | The run ending at `p_high` grows downwards only by preceding slots of its value, and never below `p_low` or slot 0. |
| Tighten.TightenHighAsWritten | Code/proj/src/underswap_rle_compression.rs:184-200 | The loop exactly as written. When it does not panic, it ends on a value at most `x` or at `p_low`. |
| Tighten.TraceAgrees | Code/proj/src/underswap_rle_compression.rs:184-200 | Each state the model's loop passes through leads the loop as written to the same result as the first state. |
| Tighten.LoopAgrees | Code/proj/src/underswap_rle_compression.rs:184-200 | Run from the first recorded state, the loop as written ends in the last one when the loop condition fails there. It panics when the run ending at the last `p_high` reaches slot 0. |
| Tighten.TightenHighAsWrittenFails | Code/proj/src/underswap_rle_compression.rs:186 | A tiled working copy `[1,1,1,1]` with run lengths `[2,2,1,1]`, queried for 0, makes the loop as written index below slot 0. |
| LessRound.LessSelf | Code/proj/src/underswap_rle_compression.rs:217-219 | When `p_itr == p_low` the exchange is with itself: nothing changes and both pointers move past the run. |
| LessRound.LessHead | Code/proj/src/underswap_rle_compression.rs:217-219 | A run below `x` as long as the run at `p_low` trades places with it, and the scan invariant holds again with `p_low` past it. |
| LessRound.LessLonger | Code/proj/src/underswap_rle_compression.rs:224-233 | For a run below `x` longer than the `x` group, the group trades places with the run's tail, and both pointers land where the source puts them. |
| LessRound.LessShorter | Code/proj/src/underswap_rle_compression.rs:234-240 | For a run below `x` shorter than the `x` group, the run trades places with the group's head, and both pointers move by its length. |
| LessRound.LessSame | Code/proj/src/underswap_rle_compression.rs:241-247 | For a run below `x` exactly as long as the `x` group, the two trade places and `p_itr` stays. |
| LessRound.LessSwap | Code/proj/src/underswap_rle_compression.rs:213-248 | The exchange of a below-`x` round, in every case: the scan's layout holds again with `p_low` moved by the run's length. |
| LessRound.Less | Code/proj/src/underswap_rle_compression.rs:213-277 | A whole below-`x` round (exchange, tighten-low, lift of `p_itr`) keeps the scan invariant. It changes nothing outside `[p_low, p_high]` and makes progress. |
| Greater.SwapEqual | Code/proj/src/overswap_rle_compression.rs:382-388 | Two runs above `x` of equal length trade places, and `p_high` drops by that length. |
| Underswap.CutHigh | Code/proj/src/underswap_rle_compression.rs:284-289 | The run ending at `p_high` is cut so that its top part is exactly as long as the run at `p_itr`; the rest stays tiled. |
| Underswap.CutItr | Code/proj/src/underswap_rle_compression.rs:290-295 | The run at `p_itr` is cut so that its head is exactly as long as the run ending at `p_high`; the rest stays tiled. |
| Underswap.CutToShorter | Code/proj/src/underswap_rle_compression.rs:282-296 | `n_swaps` is the shorter of the two run lengths, and both runs now have that length. |
| Underswap.UnderGreater | Code/proj/src/underswap_rle_compression.rs:278-300 | `min(rl_itr, rl_high)` slots are exchanged and `p_high` drops by that amount. The slots above the new `p_high` are above `x`, and both parts stay tiled. |
| Overswap.PadSize | Code/proj/src/overswap_rle_compression.rs:293 | The padding is the difference between the two run lengths. |
| Overswap.I8 | Code/proj/src/overswap_rle_compression.rs:293 | The `as i8` cast gives the value in `[-128, 128)` that is congruent to its input modulo 256. |
| Overswap.PadSizeAsWritten | Code/proj/src/overswap_rle_compression.rs:293 | The padding as a release build computes it, through `i8` arithmetic that wraps. It is either below 128 or `usize::MAX - 127`. When below 128, it is congruent modulo 256 to the difference of the run lengths or to its negation. |
| Overswap.PadCongruent | Code/proj/src/overswap_rle_compression.rs:293 | Before its cast to `usize`, the `i8` padding is congruent modulo 256 to the difference of the run lengths or to its negation, and it is negative only as `i8::MIN`. |
| Overswap.PadSizeAsWrittenShort | Code/proj/src/overswap_rle_compression.rs:293 | For runs shorter than 128 slots, the padding as written equals the intended padding. |
| Overswap.PadSizeAsWrittenWrong | Code/proj/src/overswap_rle_compression.rs:293 | For runs of 200 and 1 slots, the padding as written is 57 where 199 is meant. For runs of 129 and 1 slots, it is `usize::MAX - 127` where 128 is meant. |
| Overswap.LongerOverlap | Code/proj/src/overswap_rle_compression.rs:297-304 | When the longer run at `p_itr` overlaps the slots it would move to, only its non-overlapping head moves, and `p_high` drops by `rl_itr` (line 337). |
| Overswap.ShorterOverlap | Code/proj/src/overswap_rle_compression.rs:340-347 | When the longer run ending at `p_high` overlaps, its non-overlapping part moves down and `p_high` stays where it was. |
| Overswap.PadWalkDown | Code/proj/src/overswap_rle_compression.rs:307-311 | `p_pad` ends on the run holding the first padding slot `p_high - rl_itr + 1`, with tiled stretches on either side of that run. |
| Overswap.PadWalkUp | Code/proj/src/overswap_rle_compression.rs:350-354 | `p_pad` ends on the run holding the last padding slot `p_itr + rl_high - 1`, with tiled stretches on either side of that run. |
| Overswap.CutHead | Code/proj/src/overswap_rle_compression.rs:316-324 | The run found by the walk is cut at the padding's first slot, so the padding is tiled by itself. Markers change only between the two runs. |
| Overswap.CutTail | Code/proj/src/overswap_rle_compression.rs:359-367 | The run found by the walk is cut after the padding's last slot, so the padding is tiled by itself. Markers change only between the two runs. |
| Overswap.PadCutDown | Code/proj/src/overswap_rle_compression.rs:306-324 | The padding for the longer run at `p_itr` is laid out as tiled runs; the working copy is unchanged. |
| Overswap.PadCutUp | Code/proj/src/overswap_rle_compression.rs:349-367 | The padding for the longer run ending at `p_high` is laid out as tiled runs; the working copy is unchanged. |
| Overswap.LongerPadSwap | Code/proj/src/overswap_rle_compression.rs:326-334 | The two exchanges move the whole run at `p_itr` to the top of the interval, and `p_high` drops by `rl_itr`. |
| Overswap.ShorterPadSwap | Code/proj/src/overswap_rle_compression.rs:369-377 | The two exchanges move the run at `p_itr` to the top, the other run and the padding down to `p_itr`, and `p_high` drops by `rl_itr`. |
| Overswap.LongerPadded | Code/proj/src/overswap_rle_compression.rs:305-336 | Without overlap, the longer run at `p_itr` moves whole above the new `p_high`, `hi - rl_itr`. |
| Overswap.ShorterPadded | Code/proj/src/overswap_rle_compression.rs:348-381 | Without overlap, the run at `p_itr` moves whole above the new `p_high`, `hi - rl_itr`. |
| Overswap.OverLonger | Code/proj/src/overswap_rle_compression.rs:295-337 | With `rl_itr > rl_high`, `p_high` drops by `rl_itr` whether or not the ranges overlap. |
| Overswap.OverShorter | Code/proj/src/overswap_rle_compression.rs:338-381 | With `rl_high > rl_itr`, `p_high` drops by `rl_itr` without overlap and stays with overlap. |
| Overswap.OverGreater | Code/proj/src/overswap_rle_compression.rs:290-388 | Every case of the overswap round leaves the slots above the new `p_high` above `x`, both parts tiled, and the column changed only by permutation inside the interval. |
| Select.Narrow | Code/proj/src/underswap_rle_compression.rs:158-200 | After both tightenings, the interval still holds every `x` and the column stays tiled. Either the answer is known to be empty, or the pointers are narrowed with their ends settled. A memoised run is left as it is. |
| Select.Met | Code/proj/src/underswap_rle_compression.rs:202-208 | When the pointers meet, the answer is that slot's row if it holds `x` and nothing otherwise, which is exactly the rows holding `x`. |
| Select.GreaterRound | Code/proj/src/underswap_rle_compression.rs:278-318 | A whole above-`x` round of either strategy (exchange and tighten-high) keeps the scan invariant, and `p_high` drops or the slot at `p_itr` is no longer above `x`. |
| Select.ScanLoop | Code/proj/src/underswap_rle_compression.rs:210-322 | The scan ends with the interval split into below, equal and above `x`. Started on one marked run of `x`, it changes nothing. |
| Select.Record | Code/proj/src/underswap_rle_compression.rs:324-336 | An empty `x` group returns no rows and changes nothing. Otherwise the group becomes one marked run, the pivots `x -> p_low` and `x+1 -> p_high+1` are recorded, and its base indices, exactly the rows holding `x`, are returned. The column stays cracked. |
| Select.RecordRun | Code/proj/src/underswap_rle_compression.rs:329-336 | Marking and recording a non-empty `x` group keeps the column cracked and returns exactly the rows holding `x`. An already memoised group is returned unchanged. |
| Select.ScanAndRecord | Code/proj/src/underswap_rle_compression.rs:210-336 | Scan plus recording returns exactly the rows holding `x`. The column stays cracked, and any pivot change records this answer. |
| Select.QueryBetween | Code/proj/src/underswap_rle_compression.rs:158-336 | From seeded bounds, the query returns exactly the rows holding `x`. The column stays cracked, and a memoised answer is returned without change. |
| Select.Query | Code/proj/src/underswap_rle_compression.rs:149-337 | With either strategy, the query returns the base rows holding `x` (as a multiset) and the column stays cracked with the same stored values. A seed outside the column returns nothing and changes nothing. A memoised answer is returned as it stands. Any pivot change records this answer, and any answer of two rows or more is recorded. |
| Select.BothStrategies | Code/proj/src/bfs.rs:71-74 | The driver runs the same traversal on one table of each kind. On the same column and value, underswap and overswap return the same rows up to order. Both leave the column cracked with the same stored values, and for a memoised answer they return identical results. |
| Table.New | Code/proj/src/underswap_rle_compression.rs:21-28 | A new table has no rows and no columns and is ready for queries. |
| Table.NewColumns | Code/proj/src/underswap_rle_compression.rs:61-65 | Each listed name maps to an empty column, replacing any column of that name. Other columns, `count` and the cracked column are untouched. |
| Table.SetCrkCol | Code/proj/src/underswap_rle_compression.rs:67-77 | It fails exactly when the name is unknown. Otherwise the cracked column's stored values and working copy are that column, the base index is `0..count`, and every run length is 1. The pivot index and `ofs` are kept. |
| Table.SetCrkColReady | Code/proj/src/underswap_rle_compression.rs:67-77 | A column of `count` rows, designated while the kept pivot index describes it (as a new table's empty one does), gives a table ready for queries. |
| Table.AppendBatchesAsWritten | Code/proj/src/underswap_rle_compression.rs:81-92 | The loop as written succeeds whenever every visited column has a batch and all batches have one length, or the length already seen is 0. |
| Table.AppendBatchesAgree | Code/proj/src/underswap_rle_compression.rs:81-92 | Wherever the intended loop succeeds, the loop as written succeeds too, with the same columns and the same common length (0 for none). |
| Table.AppendBatches | Code/proj/src/underswap_rle_compression.rs:81-91 | The intended loop succeeds exactly when every visited column has a batch and all batches have one length. Then each column has its batch appended and the others are untouched. |
| Table.Insert | Code/proj/src/underswap_rle_compression.rs:80-93 | It succeeds exactly when every column has a batch and all batches have equal length. Then each column is its old values followed by its batch, `count` grows by the batch length, and the cracked column is untouched. |
| Table.InsertAligned | Code/proj/src/underswap_rle_compression.rs:80-93 | A successful insert keeps every column at `count` rows. |
| Table.InsertAsWritten | Code/proj/src/underswap_rle_compression.rs:80-93 | The loop as written accepts every insert the intended one accepts. |
| Table.InsertAsWrittenAgrees | Code/proj/src/underswap_rle_compression.rs:80-93 | Wherever the intended insert succeeds, the source's insert gives the identical table. |
| Table.InsertAsWrittenAcceptsMismatch | Code/proj/src/underswap_rle_compression.rs:85-89 | Batches `src = []` and `dst = [1, 2]`, visited in that order, pass the loop as written and leave columns of different lengths; the intended insert rejects them. |
| Table.GetCol | Code/proj/src/underswap_rle_compression.rs:95-97 | It fails exactly when the name is unknown; otherwise it returns that column. |
| Table.GetIndices | Code/proj/src/underswap_rle_compression.rs:99-131 | The new table has the listed rows of every column, in list order, and `count` is the number of rows. Its cracked column has the stored values, and the working copy when there is one, gathered at those rows. Its pivot index, base index and run lengths are empty. |
| Table.GetValues | Code/proj/src/underswap_rle_compression.rs:133-139 | The result is the column's values at the listed rows, in order. An unknown column fails exactly when some row is listed. |
| Table.GetValuesOfIndices | Code/proj/src/underswap_rle_compression.rs:99-139 | `get_values` returns the stored column of the table `get_indices` builds from the same rows. |
| Table.RearrangeTable | Code/proj/src/underswap_rle_compression.rs:141-146 | Every column, and the cracked column's stored values, become the listed rows in list order. The cracking state is dropped and `count` is not changed. |
| Table.RearrangeIsGetIndices | Code/proj/src/underswap_rle_compression.rs:99-146 | Rearranging in place leaves the same stored columns as `get_indices` on the same rows. |
| Table.CountColEq | Code/proj/src/underswap_rle_compression.rs:340-342 | It fails exactly when the column is unknown. |
| Table.CountColEqMatches | Code/proj/src/underswap_rle_compression.rs:340-342 | The count is the number of rows an equality selection of the same value on that column returns. |
| Table.CrackerSelectSpecific | Code/proj/src/underswap_rle_compression.rs:149-337 | The result is the `col` values at exactly the rows whose cracked value is `x`, as a multiset. The table stays ready and its stored columns are unchanged. It fails exactly when `col` is unknown and some row matches. |
| Table.StrategiesAgree | Code/proj/src/bfs.rs:71-74 | The driver runs the same traversal on one table of each kind. On the same table and query, the underswap and overswap tables return the same values up to order, fail alike, and leave the same stored columns. |
| Table.FromAdjacencyVectors | Code/proj/src/underswap_rle_compression.rs:346-352 | It succeeds exactly when the vectors have equal length and the cracked column is "src" or "dst". Then the table has exactly those two columns holding the vectors, with the chosen one cracked. |
| Table.FromAdjacencyVectorsReady | Code/proj/src/underswap_rle_compression.rs:346-352 | A table built from adjacency vectors is ready for queries. |

## Left out

- Code/proj/src/bfs.rs, Code/proj/src/load_person_csv.rs and Code/proj/src/bm.rs are not part of this model. They are a traversal and benchmark driver, CSV file input and `main`. `Select.BothStrategies` and `Table.StrategiesAgree` cite only the lines where the driver runs the same traversal on an underswap and an overswap table. The driver checks each table's result against the nodes 1 to 30 (bfs.rs:85-97), not the two tables against each other.
- The `print_*` methods and `dbg_switch` are output and debug switches only.
- The AVL balancing of `AVLCrackerIndex` and its cost are left out. Its source is not part of this model; only its ordered-map behaviour is.
- `ofs` is carried unchanged; no operation of the core reads it.
- The cost of cracking and the performance difference between the two strategies are not modelled.
- `i64` overflow of `x + 1` is not modelled: pivots are unbounded integers.
- Tighten.TightenHigh: when the run read at `p_high` reaches slot 0, the model stops with an empty answer (`hitStart`), where the source indexes below slot 0; see Findings.
- Overswap.PadSize: the overswap exchange uses the intended padding; the `i8` cast of line 293 is modelled separately in `PadSizeAsWritten`; see Findings.
- Overswap.PadSizeAsWritten: models a release build, where the `i8` subtraction and `abs` wrap. A debug build panics when either overflows.
- Select.Query: follows a release build at the seed of `p_high` (underswap line 155, overswap line 165). When `upper_bound(x + 1)` is position 0, `0 - 1` wraps and the guard on the next line returns no rows, as the model does. A debug build panics there instead. A column `[5, 5]` queried for 5 and then for 4 reaches this case: the first query scans and records the pivot 5 at position 0 (underswap line 334), so `upper_bound(5)` in the second query is position 0.
- Column.SwapRange: a range exchanged with itself (`a == b`) leaves the column as it is. The source passes two identical ranges to `ptr::swap_nonoverlapping`, whose contract forbids overlapping ranges, so its behaviour there is undefined; builds that check that contract abort. A column `[5, 3]` queried for 4 reaches this case.
- LessRound.LessSelf: the exchange of the run at `p_itr == p_low` with itself is the identity, for the reason given under `Column.SwapRange`.
- Column.At: requires `idx` to be a row of the column; the source panics on an index out of range.
- Column.Rearrange: requires every listed row to exist; the source panics on the first one that does not.
- Table.GetIndices: requires every listed row to exist in every column, in the cracked column's stored values, and in its working copy when that is not empty; the source panics otherwise.
- Table.GetValues: requires every listed row to exist in column `col` when that column exists; the source panics otherwise. An unknown column is a `Failure`.
- Table.RearrangeTable: requires every listed row to exist in every column and in the cracked column's stored values; the source panics otherwise.
- Table.FromAdjacencyVectors: is built on the intended `insert`, so vectors of different lengths give a `Failure`. The source's `insert` accepts them when the empty vector is visited first (see Findings), and panics on them otherwise.
- Table.Insert: a failed insert returns no table, while the source panics after having appended the batches of the columns visited before. The batches the caller passed are not returned emptied.
- Table.CrackerSelectSpecific: it requires a table ready for queries, meaning the cracked column was designated after the last insert and has `count` rows. On a table that is not ready, the source indexes the working copy up to `count` and usually panics on an index out of range. `Select.Query` uses the working copy's length where the source uses `count`; the two are equal on a ready table.
- Select.Query: the answer is stated as a multiset of rows, since the order of the `x` run's base indices depends on the exchanges.

## Findings

| source | as written | input that shows it | evidently intended | confidence | as-written member | corrected member |
|---|---|---|---|---|---|---|
| Code/proj/src/underswap_rle_compression.rs:184-200 (also overswap 194-210; the in-scan copies at underswap 302-318 and overswap 391-407 cannot reach slot 0, by `Greater.GreaterNoHit`) | Tighten-high reads `crk[p_high - rl]` when the run ending at `p_high` starts at slot 0, so the unsigned index goes below 0 and the read panics. | A column `[1,1,1,1]` queried for 2 and then for 0: the first query leaves the run lengths `[2,2,1,1]`, and the second merges the last two slots, then reads below slot 0. | Stop: no value up to `p_high` is at most `x`, so the answer is empty. | not executed | Tighten.TightenHighAsWritten, Tighten.TightenHighAsWrittenFails | Tighten.TightenHigh |
| Code/proj/src/overswap_rle_compression.rs:293 | `pad_size` casts both run lengths to `i8` before subtracting, so runs of 128 or more slots give a wrong padding length in a release build (a debug build panics on the overflow instead). | `rl_itr = 200`, `rl_high = 1`: the padding comes out as 57 instead of 199. With `rl_itr = 129`, it comes out as `usize::MAX - 127` instead of 128. | The padding is the difference of the two run lengths. | not executed | Overswap.PadSizeAsWritten, Overswap.PadSizeAsWrittenWrong | Overswap.PadSize |
| Code/proj/src/underswap_rle_compression.rs:85 (overswap 90) | `n_new_tuples == 0` stands both for "no column seen yet" and for "an empty batch was seen", so after an empty batch any length is accepted. | Columns `src`, `dst` visited in that order with batches `[]` and `[1, 2]`: the insert succeeds, `count` becomes 2 and `src` keeps 0 rows. | Batches of different lengths are rejected. | not executed | Table.InsertAsWritten, Table.AppendBatchesAsWritten, Table.InsertAsWrittenAcceptsMismatch | Table.Insert, Table.InsertAligned, Table.FromAdjacencyVectors |
