/**
 * Greedy earliest-finish-time interval selection (`partition_interval`).
 *
 * The routine converts each input pair into an `Interval(s, f)` record,
 * sorts the records stably by finish time `f`, then scans them once with a
 * cursor that starts at 0: an interval whose start is at or after the cursor
 * is accepted, and the cursor moves to its finish time.
 */
module IntervalPartitioning {

  /** The source's `Interval` record: a start `s` and a finish `f`. */
  datatype Interval = Interval(s: int, f: int)

  // ---------------------------------------------------------------------------
  // Conversion of raw pairs into records
  // ---------------------------------------------------------------------------

  /** Builds one record per input pair, in input order. */
  function ToIntervals(pairs: seq<(int, int)>): (r: seq<Interval>)
    ensures |r| == |pairs|
    ensures forall i :: 0 <= i < |pairs| ==> r[i].s == pairs[i].0 && r[i].f == pairs[i].1
  {
    seq(|pairs|, i requires 0 <= i < |pairs| => Interval(pairs[i].0, pairs[i].1))
  }

  /** The plain pair view of a list of records (a record is a pair in the source). */
  function ToPairs(xs: seq<Interval>): (r: seq<(int, int)>)
    ensures |r| == |xs|
  {
    seq(|xs|, i requires 0 <= i < |xs| => (xs[i].s, xs[i].f))
  }

  /** Converting pairs to records loses nothing. */
  lemma ToIntervalsRoundTrip(pairs: seq<(int, int)>)
    ensures ToPairs(ToIntervals(pairs)) == pairs
  {
  }

  /** Every list of records arises from the conversion of its pair view. */
  lemma ToPairsRoundTrip(xs: seq<Interval>)
    ensures ToIntervals(ToPairs(xs)) == xs
  {
  }

  // ---------------------------------------------------------------------------
  // Stable sort by finish time
  // ---------------------------------------------------------------------------

  /** Non-decreasing finish times. */
  predicate SortedByFinish(xs: seq<Interval>) {
    forall i, j :: 0 <= i < j < |xs| ==> xs[i].f <= xs[j].f
  }

  /** The records of `xs` whose finish time is `k`, in their order in `xs`. */
  function WithFinish(xs: seq<Interval>, k: int): (r: seq<Interval>)
    ensures forall i :: 0 <= i < |r| ==> r[i].f == k
  {
    if xs == [] then []
    else (if xs[0].f == k then [xs[0]] else []) + WithFinish(xs[1..], k)
  }

  /**
   * A stable sort by finish time: the result is ordered by `f`, and records
   * with equal `f` keep their relative order from the input.
   */
  ghost predicate IsStableSortByFinish(xs: seq<Interval>, ys: seq<Interval>) {
    SortedByFinish(ys) && forall k :: WithFinish(ys, k) == WithFinish(xs, k)
  }

  /** Inserts `x` before the first record whose finish time is not smaller. */
  function InsertByFinish(x: Interval, ys: seq<Interval>): (r: seq<Interval>)
    ensures |r| == |ys| + 1
    ensures r[0] == x || (ys != [] && r[0] == ys[0])
    ensures SortedByFinish(ys) ==> SortedByFinish(r)
  {
    if ys == [] || x.f <= ys[0].f then [x] + ys
    else
      var rest := InsertByFinish(x, ys[1..]);
      SortedCons(ys[0], rest);
      [ys[0]] + rest
  }

  /** Python's `sorted(..., key=lambda x: x.f)`, as a stable insertion sort. */
  function SortByFinish(xs: seq<Interval>): (r: seq<Interval>)
    ensures |r| == |xs|
    ensures SortedByFinish(r)
  {
    if xs == [] then [] else InsertByFinish(xs[0], SortByFinish(xs[1..]))
  }

  /** Inserting adds exactly `x` to the records. */
  lemma {:induction false} InsertByFinishPermutes(x: Interval, ys: seq<Interval>)
    ensures multiset(InsertByFinish(x, ys)) == multiset(ys) + multiset{x}
  {
    if ys != [] && ys[0].f < x.f {
      InsertByFinishPermutes(x, ys[1..]);
      assert ys == [ys[0]] + ys[1..];
    }
  }

  /** Sorting neither loses nor adds records. */
  lemma {:induction false} SortByFinishPermutes(xs: seq<Interval>)
    ensures multiset(SortByFinish(xs)) == multiset(xs)
  {
    if xs != [] {
      SortByFinishPermutes(xs[1..]);
      InsertByFinishPermutes(xs[0], SortByFinish(xs[1..]));
      assert xs == [xs[0]] + xs[1..];
    }
  }

  /** Putting a record no later than the head in front of a sorted list keeps it sorted. */
  lemma SortedCons(h: Interval, rest: seq<Interval>)
    ensures SortedByFinish(rest) && (rest != [] ==> h.f <= rest[0].f) ==> SortedByFinish([h] + rest)
  {
  }

  lemma {:induction false} WithFinishAppend(a: seq<Interval>, b: seq<Interval>, k: int)
    ensures WithFinish(a + b, k) == WithFinish(a, k) + WithFinish(b, k)
  {
    if a != [] {
      var head := if a[0].f == k then [a[0]] else [];
      assert (a + b)[0] == a[0] && (a + b)[1..] == a[1..] + b;
      assert WithFinish(a + b, k) == head + WithFinish(a[1..] + b, k);
      WithFinishAppend(a[1..], b, k);
      assert head + (WithFinish(a[1..], k) + WithFinish(b, k)) == (head + WithFinish(a[1..], k)) + WithFinish(b, k);
    } else {
      assert a + b == b;
    }
  }

  /** Inserting `x` puts it first among the records with its finish time. */
  lemma {:induction false} InsertWithFinish(x: Interval, ys: seq<Interval>, k: int)
    ensures WithFinish(InsertByFinish(x, ys), k) == (if x.f == k then [x] else []) + WithFinish(ys, k)
  {
    if ys == [] || x.f <= ys[0].f {
      WithFinishAppend([x], ys, k);
    } else {
      InsertWithFinish(x, ys[1..], k);
      WithFinishAppend([ys[0]], InsertByFinish(x, ys[1..]), k);
    }
  }

  /** The model's sort is a stable sort by finish time and a permutation. */
  lemma {:induction false} SortByFinishIsStable(xs: seq<Interval>)
    ensures IsStableSortByFinish(xs, SortByFinish(xs))
    ensures multiset(SortByFinish(xs)) == multiset(xs)
  {
    SortByFinishPermutes(xs);
    if xs != [] {
      SortByFinishIsStable(xs[1..]);
      forall k ensures WithFinish(SortByFinish(xs), k) == WithFinish(xs, k) {
        InsertWithFinish(xs[0], SortByFinish(xs[1..]), k);
      }
    }
  }

  lemma WithFinishHead(ys: seq<Interval>)
    requires ys != []
    ensures WithFinish(ys, ys[0].f) != [] && WithFinish(ys, ys[0].f)[0] == ys[0]
  {
  }

  lemma {:induction false} WithFinishBelowFirst(zs: seq<Interval>, k: int)
    requires SortedByFinish(zs)
    requires zs != [] && k < zs[0].f
    ensures WithFinish(zs, k) == []
  {
    if |zs| > 1 {
      WithFinishBelowFirst(zs[1..], k);
    }
  }

  /**
   * A stable sort by finish time is unique: any two sorted lists with the same
   * records per finish time, in the same order, are equal. Hence the model's
   * sort gives exactly the list that any stable sort (Python's `sorted`) gives.
   */
  lemma {:induction false} StableSortUnique(xs: seq<Interval>, ys: seq<Interval>, zs: seq<Interval>)
    requires IsStableSortByFinish(xs, ys) && IsStableSortByFinish(xs, zs)
    ensures ys == zs
    decreases |ys|
  {
    if ys == [] || zs == [] {
      // A record heading the non-empty list would be missing from the other's WithFinish.
      if ys != [] {
        WithFinishHead(ys);
        assert false;
      } else if zs != [] {
        WithFinishHead(zs);
        assert false;
      }
    } else {
      var a, b := ys[0], zs[0];
      if a.f < b.f {
        WithFinishBelowFirst(zs, a.f);
      } else if b.f < a.f {
        WithFinishBelowFirst(ys, b.f);
      } else {
        assert WithFinish(ys, a.f)[0] == a && WithFinish(zs, a.f)[0] == b;
        var ys', zs' := ys[1..], zs[1..];
        forall k ensures WithFinish(ys', k) == WithFinish(zs', k) {
          var head := if a.f == k then [a] else [];
          assert WithFinish(ys, k) == head + WithFinish(ys', k);
          assert WithFinish(zs, k) == head + WithFinish(zs', k);
          assert WithFinish(ys', k) == (head + WithFinish(ys', k))[|head|..];
          assert WithFinish(zs', k) == (head + WithFinish(zs', k))[|head|..];
        }
        StableSortUnique(ys', ys', zs');
        assert ys == [a] + ys' && zs == [b] + zs';
      }
    }
  }

  // ---------------------------------------------------------------------------
  // Greedy selection: the scan in `partition_interval`, as functions
  // ---------------------------------------------------------------------------

  /** `a` is drawn from `b` in order (possibly skipping records of `b`). */
  predicate IsSubsequence(a: seq<Interval>, b: seq<Interval>)
    decreases |b|
  {
    a == [] || (b != [] && ((a[0] == b[0] && IsSubsequence(a[1..], b[1..])) || IsSubsequence(a, b[1..])))
  }

  /**
   * The first record starts at or after `cursor`, and each record starts at
   * or after the finish of the one before it (touching endpoints allowed).
   */
  predicate Chained(sel: seq<Interval>, cursor: int) {
    (sel != [] ==> cursor <= sel[0].s) && forall i :: 0 < i < |sel| ==> sel[i - 1].f <= sel[i].s
  }

  /** The records the scan accepts from `xs`, starting with the given cursor. */
  function Select(xs: seq<Interval>, cursor: int): (r: seq<Interval>)
    ensures Chained(r, cursor)
    ensures IsSubsequence(r, xs)
  {
    if xs == [] then []
    else if cursor <= xs[0].s then [xs[0]] + Select(xs[1..], xs[0].f)
    else Select(xs[1..], cursor)
  }

  /** The cursor after the scan of `xs`. */
  function CursorAfter(xs: seq<Interval>, cursor: int): int {
    if xs == [] then cursor
    else if cursor <= xs[0].s then CursorAfter(xs[1..], xs[0].f)
    else CursorAfter(xs[1..], cursor)
  }

  /** The finish of the last accepted record, or the initial cursor if none. */
  function LastFinish(sel: seq<Interval>, cursor: int): int {
    if sel == [] then cursor else sel[|sel| - 1].f
  }

  /** The cursor always holds the finish of the most recently accepted record. */
  lemma {:induction false} CursorIsLastFinish(xs: seq<Interval>, cursor: int)
    ensures CursorAfter(xs, cursor) == LastFinish(Select(xs, cursor), cursor)
  {
    if xs != [] {
      if cursor <= xs[0].s {
        CursorIsLastFinish(xs[1..], xs[0].f);
      } else {
        CursorIsLastFinish(xs[1..], cursor);
      }
    }
  }

  /** Scanning one more record: it is accepted exactly when it starts at or after the cursor. */
  lemma {:induction false} SelectSnoc(xs: seq<Interval>, x: Interval, cursor: int)
    ensures Select(xs + [x], cursor) ==
      Select(xs, cursor) + (if CursorAfter(xs, cursor) <= x.s then [x] else [])
    ensures CursorAfter(xs + [x], cursor) ==
      (if CursorAfter(xs, cursor) <= x.s then x.f else CursorAfter(xs, cursor))
  {
    if xs != [] {
      assert (xs + [x])[1..] == xs[1..] + [x];
      if cursor <= xs[0].s {
        SelectSnoc(xs[1..], x, xs[0].f);
      } else {
        SelectSnoc(xs[1..], x, cursor);
      }
    }
  }

  /**
   * The i-th record of the scanned list is accepted exactly when it starts at
   * or after the finish of the last record accepted before it (or the initial
   * cursor); otherwise it is skipped and the selection is unchanged.
   */
  lemma SkipExactlyWhenOverlapping(xs: seq<Interval>, cursor: int, i: nat)
    requires i < |xs|
    ensures var before := Select(xs[..i], cursor);
      if LastFinish(before, cursor) <= xs[i].s
      then Select(xs[..i + 1], cursor) == before + [xs[i]]
      else Select(xs[..i + 1], cursor) == before
  {
    assert xs[..i + 1] == xs[..i] + [xs[i]];
    SelectSnoc(xs[..i], xs[i], cursor);
    CursorIsLastFinish(xs[..i], cursor);
  }

  // ---------------------------------------------------------------------------
  // Properties of subsequences and chains
  // ---------------------------------------------------------------------------

  lemma {:induction false} SubsequenceMultiset(a: seq<Interval>, b: seq<Interval>)
    requires IsSubsequence(a, b)
    ensures multiset(a) <= multiset(b)
    ensures |a| <= |b|
    decreases |b|
  {
    if a != [] {
      assert b == [b[0]] + b[1..];
      if a[0] == b[0] && IsSubsequence(a[1..], b[1..]) {
        SubsequenceMultiset(a[1..], b[1..]);
        assert a == [a[0]] + a[1..];
      } else {
        SubsequenceMultiset(a, b[1..]);
      }
    }
  }

  lemma {:induction false} SubsequenceDropFirst(a: seq<Interval>, b: seq<Interval>)
    requires IsSubsequence(a, b) && a != []
    ensures IsSubsequence(a[1..], b)
    decreases |b|
  {
    if a[0] == b[0] && IsSubsequence(a[1..], b[1..]) {
      SubsequenceWeaken(a[1..], b);
    } else {
      SubsequenceDropFirst(a, b[1..]);
      SubsequenceWeaken(a[1..], b);
    }
  }

  /** A subsequence of the tail is a subsequence of the whole. */
  lemma SubsequenceWeaken(a: seq<Interval>, b: seq<Interval>)
    requires b != [] && IsSubsequence(a, b[1..])
    ensures IsSubsequence(a, b)
  {
  }

  /** A subsequence of a list sorted by finish time is sorted by finish time. */
  lemma {:induction false} SubsequenceSorted(a: seq<Interval>, b: seq<Interval>)
    requires IsSubsequence(a, b) && SortedByFinish(b)
    ensures SortedByFinish(a)
    decreases |b|
  {
    if a != [] {
      if a[0] == b[0] && IsSubsequence(a[1..], b[1..]) {
        SubsequenceSorted(a[1..], b[1..]);
        SubsequenceMultiset(a[1..], b[1..]);
        forall j | 0 < j < |a| ensures a[0].f <= a[j].f {
          assert a[j] == a[1..][j - 1];
          assert a[j] in multiset(b[1..]);
        }
      } else {
        SubsequenceSorted(a, b[1..]);
      }
    }
  }

  /**
   * A chain sorted by finish time is pairwise non-overlapping: each record
   * finishes no later than any later one starts. No `s <= f` is needed, since
   * sel[i].f <= sel[j - 1].f <= sel[j].s.
   */
  lemma ChainedDisjoint(sel: seq<Interval>, cursor: int, i: nat, j: nat)
    requires Chained(sel, cursor) && SortedByFinish(sel)
    requires i < j < |sel|
    ensures sel[i].f <= sel[j].s
  {
    assert sel[i].f <= sel[j - 1].f;
  }

  // ---------------------------------------------------------------------------
  // Optimality among chains drawn in order from the sorted list
  // ---------------------------------------------------------------------------

  lemma {:induction false} MemberFinishAtLeastFirst(xs: seq<Interval>, e: Interval)
    requires SortedByFinish(xs) && xs != [] && e in xs[1..]
    ensures xs[0].f <= e.f
  {
  }

  /**
   * No chain that starts at or after `d` and is drawn in order from a list
   * sorted by finish time is longer than the greedy selection started at any
   * cursor `c <= d` ("greedy stays ahead").
   */
  lemma {:induction false} SelectIsMaximal(xs: seq<Interval>, t: seq<Interval>, c: int, d: int)
    requires SortedByFinish(xs)
    requires IsSubsequence(t, xs) && Chained(t, d) && c <= d
    ensures |t| <= |Select(xs, c)|
    decreases |xs|
  {
    if t != [] {
      var x, rest := xs[0], xs[1..];
      assert SortedByFinish(rest);
      if t[0] == x && IsSubsequence(t[1..], rest) {
        assert Chained(t[1..], x.f);
        SelectIsMaximal(rest, t[1..], x.f, x.f);
      } else {
        assert IsSubsequence(t, rest);
        if c <= x.s {
          SubsequenceMultiset(t, rest);
          assert t[0] in multiset(rest);
          MemberFinishAtLeastFirst(xs, t[0]);
          SubsequenceDropFirst(t, rest);
          assert Chained(t[1..], t[0].f);
          SelectIsMaximal(rest, t[1..], x.f, t[0].f);
        } else {
          SelectIsMaximal(rest, t, c, d);
        }
      }
    }
  }

  // ---------------------------------------------------------------------------
  // The whole routine
  // ---------------------------------------------------------------------------

  /** The result `(count, visited_intervals)` of `partition_interval`, as a function. */
  function Partition(pairs: seq<(int, int)>): (r: (int, seq<Interval>))
    ensures r.0 == |r.1|
    ensures Chained(r.1, 0)
    ensures SortedByFinish(r.1)
    ensures multiset(r.1) <= multiset(ToIntervals(pairs))
    ensures 0 <= r.0 <= |pairs|
  {
    var sorted := SortByFinish(ToIntervals(pairs));
    var sel := Select(sorted, 0);
    SubsequenceSorted(sel, sorted);
    SubsequenceMultiset(sel, sorted);
    SortByFinishPermutes(ToIntervals(pairs));
    (|sel|, sel)
  }

  /**
   * `partition_interval`: convert, sort stably by finish time, then scan once
   * with a cursor starting at 0, appending each record that starts at or
   * after the cursor and counting it.
   */
  method PartitionInterval(intervals: seq<(int, int)>) returns (count: int, visited: seq<Interval>)
    ensures (count, visited) == Partition(intervals)
    ensures count == |visited|
    ensures Chained(visited, 0)
  {
    var namedIntervals := ToIntervals(intervals);
    var sorted := SortByFinish(namedIntervals);
    visited := [];
    count := 0;
    var endOfInterval := 0;
    var i := 0;
    while i < |sorted|
      invariant 0 <= i <= |sorted|
      invariant visited == Select(sorted[..i], 0)
      invariant endOfInterval == CursorAfter(sorted[..i], 0)
      invariant count == |visited|
    {
      var interval := sorted[i];
      assert sorted[..i + 1] == sorted[..i] + [interval];
      SelectSnoc(sorted[..i], interval, 0);
      if endOfInterval <= interval.s {
        endOfInterval := interval.f;
        visited := visited + [interval];
        count := count + 1;
      }
      i := i + 1;
    }
    assert sorted[..i] == sorted;
  }

  // ---------------------------------------------------------------------------
  // Properties of the whole routine
  // ---------------------------------------------------------------------------

  /** Every selected record is one of the input pairs. */
  lemma SelectedFromInput(pairs: seq<(int, int)>, k: nat)
    requires k < |Partition(pairs).1|
    ensures (Partition(pairs).1[k].s, Partition(pairs).1[k].f) in pairs
  {
    var sel := Partition(pairs).1;
    var xs := ToIntervals(pairs);
    assert sel[k] in multiset(xs);
    var j :| 0 <= j < |xs| && xs[j] == sel[k];
  }

  /**
   * The selection is drawn in order from the stably sorted input, and is
   * the longest chain starting at or after 0 that can be so drawn.
   */
  lemma {:induction false} PartitionIsMaximal(pairs: seq<(int, int)>, t: seq<Interval>)
    requires IsSubsequence(t, SortByFinish(ToIntervals(pairs))) && Chained(t, 0)
    ensures IsSubsequence(Partition(pairs).1, SortByFinish(ToIntervals(pairs)))
    ensures |t| <= Partition(pairs).0
  {
    SelectIsMaximal(SortByFinish(ToIntervals(pairs)), t, 0, 0);
  }

  /** The routine's result is pairwise non-overlapping on every input (touching allowed). */
  lemma PartitionNonOverlapping(pairs: seq<(int, int)>, i: nat, j: nat)
    requires i < j < |Partition(pairs).1|
    ensures Partition(pairs).1[i].f <= Partition(pairs).1[j].s
  {
    ChainedDisjoint(Partition(pairs).1, 0, i, j);
  }

  /**
   * With two records of equal finish time (which the routine's inputs are not
   * meant to have), the stable order can make the greedy scan keep one record
   * where a chain of two from the same input exists.
   */
  lemma EqualFinishNotMaximal()
    ensures Partition([(1, 1), (0, 1)]) == (1, [Interval(1, 1)])
    ensures Chained([Interval(0, 1), Interval(1, 1)], 0)
    ensures multiset([Interval(0, 1), Interval(1, 1)]) == multiset(ToIntervals([(1, 1), (0, 1)]))
  {
    assert ToIntervals([(1, 1), (0, 1)]) == [Interval(1, 1), Interval(0, 1)];
    assert SortByFinish([Interval(1, 1), Interval(0, 1)]) == [Interval(1, 1), Interval(0, 1)];
    assert Select([Interval(1, 1), Interval(0, 1)], 0) == [Interval(1, 1)] + Select([Interval(0, 1)], 1);
    assert Select([Interval(0, 1)], 1) == [];
    assert Select([Interval(1, 1), Interval(0, 1)], 0) == [Interval(1, 1)];
  }

  lemma {:induction false} SelectNoneAboveCursor(xs: seq<Interval>, cursor: int)
    requires forall i :: 0 <= i < |xs| ==> xs[i].s < cursor
    ensures Select(xs, cursor) == []
  {
    if xs != [] {
      SelectNoneAboveCursor(xs[1..], cursor);
    }
  }

  /** An input whose every start is negative selects nothing, because the cursor starts at 0. */
  lemma AllStartsNegative(pairs: seq<(int, int)>)
    requires forall i :: 0 <= i < |pairs| ==> pairs[i].0 < 0
    ensures Partition(pairs) == (0, [])
  {
    var xs := ToIntervals(pairs);
    var sorted := SortByFinish(xs);
    SortByFinishPermutes(xs);
    forall i | 0 <= i < |sorted| ensures sorted[i].s < 0 {
      assert sorted[i] in multiset(xs);
      var j :| 0 <= j < |xs| && xs[j] == sorted[i];
    }
    SelectNoneAboveCursor(sorted, 0);
  }

  /** An empty input returns `(0, [])`. */
  lemma EmptyInput()
    ensures Partition([]) == (0, [])
  {
  }

  /** A single interval is selected exactly when it starts at or after 0. */
  lemma SingleInterval(a: int, b: int)
    ensures Partition([(a, b)]) == if 0 <= a then (1, [Interval(a, b)]) else (0, [])
  {
    var xs := [Interval(a, b)];
    assert ToIntervals([(a, b)]) == xs;
    assert SortByFinish(xs) == InsertByFinish(xs[0], SortByFinish([])) == xs;
    assert Select(xs[1..], b) == [] && Select(xs[1..], 0) == [];
  }

  /** The module's own sample input. */
  lemma SampleInput()
    ensures Partition([(1, 3), (7, 12), (2, 5), (6, 18), (14, 16)])
      == (3, [Interval(1, 3), Interval(7, 12), Interval(14, 16)])
  {
    var a, b, c, d, e := Interval(1, 3), Interval(7, 12), Interval(2, 5), Interval(6, 18), Interval(14, 16);
    assert ToIntervals([(1, 3), (7, 12), (2, 5), (6, 18), (14, 16)]) == [a, b, c, d, e];
    SampleSorted();
    SampleSelected();
  }

  /** The sample after the stable sort by finish time. */
  lemma SampleSorted()
    ensures SortByFinish([Interval(1, 3), Interval(7, 12), Interval(2, 5), Interval(6, 18), Interval(14, 16)])
      == [Interval(1, 3), Interval(2, 5), Interval(7, 12), Interval(14, 16), Interval(6, 18)]
  {
    assert SortByFinish([Interval(6, 18), Interval(14, 16)]) == [Interval(14, 16), Interval(6, 18)];
    assert SortByFinish([Interval(7, 12), Interval(2, 5), Interval(6, 18), Interval(14, 16)])
      == [Interval(2, 5), Interval(7, 12), Interval(14, 16), Interval(6, 18)];
  }

  /** The scan of the sorted sample from cursor 0. */
  lemma SampleSelected()
    ensures Select([Interval(1, 3), Interval(2, 5), Interval(7, 12), Interval(14, 16), Interval(6, 18)], 0)
      == [Interval(1, 3), Interval(7, 12), Interval(14, 16)]
  {
  }

  /** Three mutually overlapping intervals: only the one finishing first is kept. */
  lemma AllOverlapping()
    ensures Partition([(1, 10), (2, 9), (3, 8)]) == (1, [Interval(3, 8)])
  {
    var a, b, c := Interval(1, 10), Interval(2, 9), Interval(3, 8);
    assert ToIntervals([(1, 10), (2, 9), (3, 8)]) == [a, b, c];
    AllOverlappingSorted();
    AllOverlappingSelected();
  }

  /** The three overlapping intervals after the sort. */
  lemma AllOverlappingSorted()
    ensures SortByFinish([Interval(1, 10), Interval(2, 9), Interval(3, 8)])
      == [Interval(3, 8), Interval(2, 9), Interval(1, 10)]
  {
  }

  /** The scan of the three sorted intervals from cursor 0. */
  lemma AllOverlappingSelected()
    ensures Select([Interval(3, 8), Interval(2, 9), Interval(1, 10)], 0) == [Interval(3, 8)]
  {
  }
}
