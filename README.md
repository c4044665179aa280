# Greedy interval selection (`partition_interval`), modelled in Dafny

This project models `partition_interval` from `Assignment1/interval_partitioning.py`.
The routine picks non-overlapping intervals greedily by earliest finish time. It works in three steps:

1. Each input pair `[s, f]` becomes an `Interval(s, f)` record.
2. The records are sorted by finish time `f` with Python's stable `sorted`.
3. One scan runs over the sorted records with a cursor `end_of_interval` that starts at the literal `0`.
   A record is accepted when `end_of_interval <= s`.
   An accepted record is appended to `visited_intervals`, `count` goes up by one, and the cursor moves to its `f`.

The result is `(count, visited_intervals)`.

Everything lives in module `IntervalPartitioning` (`interval_partitioning.dfy`):

- `Interval` is a datatype with fields `s` and `f`. Python integers are unbounded, so both are `int`.
- The conversion (`ToIntervals`) and the sort (`SortByFinish`, a stable insertion sort) are functions, because the source writes them as expressions.
  `IsStableSortByFinish` is an independent definition of a stable sort by `f`: the output is sorted, and for every finish time `k` the output's records with finish `k` appear in the same order as in the input.
  `StableSortUnique` shows that this definition fixes the output completely, so `SortByFinish` gives exactly what Python's `sorted(..., key=lambda x: x.f)` gives.
- The scan is the method `PartitionInterval`, with a `while` loop over the sorted records.
  Its invariants tie `visited`, `count` and the cursor to the functions `Select` and `CursorAfter`, which describe the scan over a prefix of the sorted list.
  `Partition` is the whole routine as a function. The lemmas about the routine are stated on it.

The cursor starts at `0`, as in the code. So a record whose start is negative is never accepted first.
Textbook greedy selection always keeps a lone interval; this code keeps `[a, b]` only when `a >= 0`.
The model follows the code (`SingleInterval`, `AllStartsNegative`).
The code does not check that `s <= f`, and neither does the model. No property needs it: the result is sorted by `f` and chained, so it is pairwise non-overlapping on every input (`ChainedDisjoint`, `PartitionNonOverlapping`).

## Model

| member | source | states |
|---|---|---|
| `IntervalPartitioning.ToIntervals` | Assignment1/interval_partitioning.py:27 | one record per input pair, same order, with `s` and `f` taken from the pair's two components |
| `IntervalPartitioning.ToIntervalsRoundTrip` | Assignment1/interval_partitioning.py:14-27 | turning the records back into plain pairs gives the input again, so the conversion loses nothing |
| `IntervalPartitioning.ToPairsRoundTrip` | Assignment1/interval_partitioning.py:14-27 | every list of records is the conversion of its own pair view |
| `IntervalPartitioning.InsertByFinish` | Assignment1/interval_partitioning.py:30 | inserting one record into a list sorted by `f` keeps it sorted, grows it by one, and puts either the new record or the old head first |
| `IntervalPartitioning.InsertByFinishPermutes` | Assignment1/interval_partitioning.py:30 | insertion adds exactly the new record to the multiset of records |
| `IntervalPartitioning.SortByFinish` | Assignment1/interval_partitioning.py:30 | the sorted list has the input's length and non-decreasing finish times |
| `IntervalPartitioning.SortByFinishPermutes` | Assignment1/interval_partitioning.py:30 | the sorted list is a permutation of the input |
| `IntervalPartitioning.SortByFinishIsStable` | Assignment1/interval_partitioning.py:30 | the sort is a stable sort by `f`: records with equal finish time keep their input order; it is also a permutation |
| `IntervalPartitioning.StableSortUnique` | Assignment1/interval_partitioning.py:30 | any two stable sorts by `f` of the same input are equal, so the model's sort agrees with Python's `sorted` on every input |
| `IntervalPartitioning.Select` | Assignment1/interval_partitioning.py:36-40 | the accepted records form a chain (the first starts at or after the cursor, each starts at or after the previous one's finish) and are drawn in order from the scanned list |
| `IntervalPartitioning.CursorIsLastFinish` | Assignment1/interval_partitioning.py:33-38 | after any prefix, the cursor `CursorAfter` (the model of `end_of_interval`) equals the finish of the last accepted record, or the initial cursor if none was accepted |
| `IntervalPartitioning.SelectSnoc` | Assignment1/interval_partitioning.py:36-40 | scanning one more record appends it exactly when the cursor is at most its start, and then moves the cursor to its finish; otherwise nothing changes |
| `IntervalPartitioning.SkipExactlyWhenOverlapping` | Assignment1/interval_partitioning.py:37-40 | the i-th sorted record is accepted exactly when its start is at or after the finish of the last record accepted before it (or 0); a skipped record leaves the selection unchanged |
| `IntervalPartitioning.SubsequenceSorted` | Assignment1/interval_partitioning.py:30-39 | records drawn in order from a list sorted by `f` are themselves sorted by `f` |
| `IntervalPartitioning.ChainedDisjoint` | Assignment1/interval_partitioning.py:37-38 | in a chain sorted by `f`, each record finishes no later than any later record starts (pairwise non-overlap, touching allowed), with no `s <= f` hypothesis |
| `IntervalPartitioning.PartitionNonOverlapping` | Assignment1/interval_partitioning.py:2-3 | the routine's result is pairwise non-overlapping on every input: each selected record finishes no later than any later selected record starts |
| `IntervalPartitioning.SelectIsMaximal` | Assignment1/interval_partitioning.py:36-40 | no chain drawn in order from a list sorted by `f` is longer than the greedy selection started at a cursor no later than the chain's |
| `IntervalPartitioning.Partition` | Assignment1/interval_partitioning.py:16-43 | the returned count equals the length of the returned list and lies between 0 and the input length; the list is a chain from 0, sorted by `f`, and a sub-multiset of the converted input |
| `IntervalPartitioning.PartitionInterval` | Assignment1/interval_partitioning.py:16-43 | the loop returns exactly `Partition`'s result: `count` equals the list's length and the list is a chain starting at or after 0 |
| `IntervalPartitioning.SelectedFromInput` | Assignment1/interval_partitioning.py:27-39 | every selected record is one of the input pairs |
| `IntervalPartitioning.PartitionIsMaximal` | Assignment1/interval_partitioning.py:30-43 | the selection is drawn in order from the sorted input, and no chain from 0 drawn in order from the sorted input is longer than the returned count |
| `IntervalPartitioning.EqualFinishNotMaximal` | Assignment1/interval_partitioning.py:21-42 | on `[[1,1],[0,1]]`, whose finish times are not unique, the result is `(1, [(1,1)])` although the same records form the non-overlapping chain `(0,1), (1,1)`: the count is not the maximum once finish times repeat |
| `IntervalPartitioning.AllStartsNegative` | Assignment1/interval_partitioning.py:33-37 | an input whose every start is negative yields `(0, [])`, because the cursor starts at 0 |
| `IntervalPartitioning.EmptyInput` | Assignment1/interval_partitioning.py:31-43 | an empty input yields `(0, [])` |
| `IntervalPartitioning.SingleInterval` | Assignment1/interval_partitioning.py:33-40 | a single interval `[a, b]` yields `(1, [(a, b)])` when `a >= 0` and `(0, [])` otherwise |
| `IntervalPartitioning.SampleInput` | Assignment1/interval_partitioning.py:46-48 | the module's sample `[[1,3],[7,12],[2,5],[6,18],[14,16]]` yields `(3, [(1,3),(7,12),(14,16)])` |
| `IntervalPartitioning.AllOverlapping` | Assignment1/interval_partitioning.py:30-40 | three mutually overlapping intervals `[[1,10],[2,9],[3,8]]` yield `(1, [(3,8)])`, the one that finishes first |

## Left out

- The demonstration call and its `print` (Assignment1/interval_partitioning.py:45-48) are I/O. Their input is checked only as the lemma `SampleInput`.
- `namedtuple` construction and the `Interval(*interval)` unpacking: inputs are pairs of integers, so an input entry with the wrong number of fields cannot be expressed. In Python that case is a runtime failure.
- Floating-point and other comparable bounds: the model uses unbounded integers only.
- PartitionIsMaximal: compares the greedy count only with chains drawn in order from the sorted input that start at or after 0. It does not compare it with every pairwise non-overlapping subset taken in any order. The docstring hedges that optimality is not guaranteed (Assignment1/interval_partitioning.py:5-8), while the comment at Assignment1/interval_partitioning.py:42 calls the count the maximum. `EqualFinishNotMaximal` shows an input with repeated finish times, `[[1,1],[0,1]]`, where a longer non-overlapping chain exists; the docstring asks for unique end times (Assignment1/interval_partitioning.py:21).
- Python's `sorted` is Timsort; the model uses an insertion sort instead. `StableSortUnique` shows that both give the same list, but the running time is not modelled.
