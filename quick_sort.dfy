/**
 * `quickSort`: the step trace of a quick sort with the Lomuto partition (the last cell of
 * the segment is the pivot). It sorts a copy of the input, and every step is a
 * comparison or a swap, so every snapshot is a permutation of the input.
 */
module QuickSort {
  import opened Wrappers
  import opened Ordering
  import opened Steps
  import opened Segments
  import ArrayUtils

  /**
   * The shape of every step quick sort records: a snapshot that is a permutation of the
   * input; a comparison `[j, high]` or a swap `[i, j]` / `[i + 1, high]` names two
   * positions in non-decreasing order.
   */
  ghost predicate StepOk(input: seq<int>, s: Step)
  {
    && |s.arr| == |input|
    && multiset(s.arr) == multiset(input)
    && s.found == None
    && !(s.comparison && s.swap)
    && (s.comparison || s.swap ==>
          |s.indices| == 2 && 0 <= s.indices[0] <= s.indices[1] < |input|)
  }

  /** Every step of the trace has that shape; defined from the end, so appending a step checks only that step. */
  ghost predicate StepsOk(input: seq<int>, steps: seq<Step>)
    decreases |steps|
  {
    steps != [] ==> StepsOk(input, steps[..|steps| - 1]) && StepOk(input, Last(steps))
  }

  lemma StepsOkAppend(input: seq<int>, steps: seq<Step>, s: Step)
    requires StepsOk(input, steps) && StepOk(input, s)
    ensures StepsOk(input, steps + [s])
  {
    assert (steps + [s])[..|steps|] == steps;
  }

  lemma {:induction false} StepsOkMeans(input: seq<int>, steps: seq<Step>)
    requires StepsOk(input, steps)
    ensures forall k :: 0 <= k < |steps| ==> StepOk(input, steps[k])
    decreases |steps|
  {
    if steps != [] {
      var init := steps[..|steps| - 1];
      StepsOkMeans(input, init);
      forall k | 0 <= k < |steps|
        ensures StepOk(input, steps[k])
      {
        if k < |init| {
          assert init[k] == steps[k];
        }
      }
    }
  }

  /** Cells outside `[lo, hi]` are the same in `a` and `b`. */
  ghost predicate SameOutside(a: seq<int>, b: seq<int>, lo: int, hi: int)
  {
    |a| == |b| && forall k :: 0 <= k < |a| && !(lo <= k <= hi) ==> a[k] == b[k]
  }

  /**
   * `after` is `before` with `[low, high]` partitioned around the pivot `before[high]`,
   * which now sits at `pi`: smaller cells before it, the others after it.
   */
  ghost predicate Partitioned(before: seq<int>, after: seq<int>, low: int, high: int, pi: int)
  {
    && 0 <= low <= pi <= high < |before|
    && SameOutside(before, after, low, high)
    && multiset(after[low..high + 1]) == multiset(before[low..high + 1])
    && after[pi] == before[high]
    && (forall k :: low <= k < pi ==> after[k] < after[pi])
    && (forall k :: pi < k <= high ==> after[k] >= after[pi])
  }

  /**
   * The cells in the partition loop at index `j`: cells `[low, i]` are smaller than the
   * pivot `a0[high]`, cells `(i, j)` are not, and the pivot cell and the cells outside the
   * segment are untouched.
   */
  ghost predicate PartitionCells(a: seq<int>, a0: seq<int>, low: int, high: int, i: int, j: int)
  {
    && 0 <= low <= i + 1 <= j <= high < |a|
    && SameOutside(a0, a, low, high - 1)
    && (forall k :: low <= k <= i ==> a[k] < a0[high])
    && (forall k :: i < k < j ==> a[k] >= a0[high])
  }

  /** The array in the partition loop at index `j`: the cells as above, and a permutation of `a0`. */
  ghost predicate PartitionArrInvariant(a: seq<int>, a0: seq<int>, low: int, high: int, i: int, j: int)
  {
    PartitionCells(a, a0, low, high, i, j) && multiset(a) == multiset(a0)
  }

  /**
   * What the partition loop keeps: the array as above, and one comparison step per index
   * and one swap step per smaller cell recorded.
   */
  ghost predicate PartitionInvariant(a: seq<int>, a0: seq<int>, low: int, high: int, i: int, j: int,
                                     steps: seq<Step>, input: seq<int>, c0: nat, s0: nat)
  {
    && PartitionArrInvariant(a, a0, low, high, i, j)
    && |a| == |input| && multiset(a0) == multiset(input)
    && StepsOk(input, steps)
    && CountComparisons(steps) == c0 + (j - low)
    && CountSwaps(steps) == s0 + (i + 1 - low)
  }

  /** The array after the loop body at `j`: a smaller cell is swapped to `i + 1`. */
  function PartitionArr(a: seq<int>, i: int, j: nat, pivot: int): seq<int>
    requires 0 <= i + 1 <= j < |a|
  {
    if a[j] < pivot then ArrayUtils.Swapped(a, i + 1, j) else a
  }

  /** The steps the loop body at `j` records: the comparison, and the swap if one happened. */
  function PartitionSteps(a: seq<int>, i: int, j: nat, high: nat): seq<Step>
    requires 0 <= i + 1 <= j < high < |a|
  {
    [Step(a, [j, high], true, false, None)]
    + if a[j] < a[high] then [Step(PartitionArr(a, i, j, a[high]), [i + 1, j], false, true, None)] else []
  }

  lemma PartitionArrStep(a: seq<int>, a0: seq<int>, low: int, high: int, i: int, j: int)
    requires PartitionArrInvariant(a, a0, low, high, i, j) && j < high
    ensures a[high] == a0[high]
    ensures PartitionArrInvariant(PartitionArr(a, i, j, a[high]), a0, low, high,
                                  if a[j] < a[high] then i + 1 else i, j + 1)
  {
    assert a[high] == a0[high];
    if a[j] < a[high] {
      SmallerSwapped(a, a0, low, high, i, j);
      ArrayUtils.SwappedIsPermutation(a, i + 1, j);
      assert PartitionArr(a, i, j, a[high]) == ArrayUtils.Swapped(a, i + 1, j);
    } else {
      LargerKept(a, a0, low, high, i, j);
    }
  }

  /** A cell not smaller than the pivot stays where it is, at the end of the larger run. */
  lemma LargerKept(a: seq<int>, a0: seq<int>, low: int, high: int, i: int, j: int)
    requires PartitionCells(a, a0, low, high, i, j) && j < high && a[j] >= a[high]
    ensures PartitionCells(a, a0, low, high, i, j + 1)
  {
  }

  /** A cell smaller than the pivot is swapped to the end of the smaller run. */
  lemma SmallerSwapped(a: seq<int>, a0: seq<int>, low: int, high: int, i: int, j: int)
    requires PartitionCells(a, a0, low, high, i, j) && j < high && a[j] < a[high]
    ensures PartitionCells(ArrayUtils.Swapped(a, i + 1, j), a0, low, high, i + 1, j + 1)
  {
    var b := ArrayUtils.Swapped(a, i + 1, j);
    forall k | 0 <= k < |b| && !(low <= k <= high - 1)
      ensures b[k] == a0[k]
    {
      assert b[k] == a[k];
    }
    forall k | low <= k <= i + 1
      ensures b[k] < a0[high]
    {
      if k <= i {
        assert b[k] == a[k];
      }
    }
    forall k | i + 1 < k < j + 1
      ensures b[k] >= a0[high]
    {
      if k < j {
        assert b[k] == a[k];
      }
    }
  }

  /** Recording one step of the right shape keeps the trace well formed and bumps its counters. */
  lemma RecordStep(input: seq<int>, steps: seq<Step>, s: Step)
    requires StepsOk(input, steps) && StepOk(input, s)
    ensures StepsOk(input, steps + [s])
    ensures CountComparisons(steps + [s]) == CountComparisons(steps) + (if s.comparison then 1 else 0)
    ensures CountSwaps(steps + [s]) == CountSwaps(steps) + (if s.swap then 1 else 0)
  {
    StepsOkAppend(input, steps, s);
    CountsAppend(steps, s);
  }

  lemma PartitionStepsStep(a: seq<int>, i: int, j: nat, high: nat, steps: seq<Step>, input: seq<int>)
    requires 0 <= i + 1 <= j < high < |a| == |input| && multiset(a) == multiset(input)
    requires StepsOk(input, steps)
    ensures StepsOk(input, steps + PartitionSteps(a, i, j, high))
    ensures CountComparisons(steps + PartitionSteps(a, i, j, high)) == CountComparisons(steps) + 1
    ensures CountSwaps(steps + PartitionSteps(a, i, j, high)) == CountSwaps(steps) + if a[j] < a[high] then 1 else 0
  {
    var cmp := Step(a, [j, high], true, false, None);
    assert StepOk(input, cmp);
    RecordStep(input, steps, cmp);
    if a[j] < a[high] {
      var swp := Step(ArrayUtils.Swapped(a, i + 1, j), [i + 1, j], false, true, None);
      SwapStepOk(a, i + 1, j, input, swp);
      RecordStep(input, steps + [cmp], swp);
      assert PartitionSteps(a, i, j, high) == [cmp, swp];
      assert steps + [cmp, swp] == steps + [cmp] + [swp];
    } else {
      assert PartitionSteps(a, i, j, high) == [cmp];
    }
  }

  /** A recorded swap of two cells in order, on a permutation of the input, has the right shape. */
  lemma SwapStepOk(a: seq<int>, x: nat, y: nat, input: seq<int>, swp: Step)
    requires x <= y < |a| == |input| && multiset(a) == multiset(input)
    requires swp == Step(ArrayUtils.Swapped(a, x, y), [x, y], false, true, None)
    ensures StepOk(input, swp)
  {
    ArrayUtils.SwappedIsPermutation(a, x, y);
  }

  lemma PartitionStep(a: seq<int>, a0: seq<int>, low: int, high: int, i: int, j: int,
                      steps: seq<Step>, input: seq<int>, c0: nat, s0: nat)
    requires PartitionInvariant(a, a0, low, high, i, j, steps, input, c0, s0) && j < high
    ensures PartitionInvariant(PartitionArr(a, i, j, a[high]), a0, low, high,
                               if a[j] < a[high] then i + 1 else i, j + 1,
                               steps + PartitionSteps(a, i, j, high), input, c0, s0)
  {
    PartitionArrStep(a, a0, low, high, i, j);
    PartitionStepsStep(a, i, j, high, steps, input);
  }

  /** The body of the partition loop. */
  method PartitionBody(arr: array<int>, i0: int, j: nat, high: nat, steps0: seq<Step>) returns (i: int, steps: seq<Step>)
    requires 0 <= i0 + 1 <= j < high < arr.Length
    modifies arr
    ensures i == if old(arr[j]) < old(arr[high]) then i0 + 1 else i0
    ensures arr[..] == PartitionArr(old(arr[..]), i0, j, old(arr[high]))
    ensures steps == steps0 + PartitionSteps(old(arr[..]), i0, j, high)
  {
    i := i0;
    steps := steps0 + [Step(arr[..], [j, high], true, false, None)];
    if arr[j] < arr[high] {
      i := i + 1;
      ArrayUtils.Swap(arr, i, j);
      steps := steps + [Step(arr[..], [i, j], false, true, None)];
    }
  }

  /** Multisets of a segment agree when the whole arrays do and the outside is unchanged. */
  lemma SegmentPermutation(a: seq<int>, b: seq<int>, lo: nat, hi: nat)
    requires lo <= hi <= |a| && SameOutside(a, b, lo, hi - 1) && multiset(a) == multiset(b)
    ensures multiset(a[lo..hi]) == multiset(b[lo..hi])
  {
    assert a == a[..lo] + a[lo..hi] + a[hi..];
    assert b == b[..lo] + b[lo..hi] + b[hi..];
    assert a[..lo] == b[..lo];
    assert a[hi..] == b[hi..];
    assert multiset(a[lo..hi]) == multiset(a) - multiset(a[..lo]) - multiset(a[hi..]);
    assert multiset(b[lo..hi]) == multiset(b) - multiset(b[..lo]) - multiset(b[hi..]);
  }

  /** After the closing swap the pivot separates the smaller cells from the others. */
  lemma PivotPlaced(a: seq<int>, a0: seq<int>, low: int, high: int, i: int)
    requires PartitionArrInvariant(a, a0, low, high, i, high)
    ensures var b := ArrayUtils.Swapped(a, i + 1, high);
            && b[i + 1] == a0[high]
            && (forall k :: low <= k < i + 1 ==> b[k] < b[i + 1])
            && (forall k :: i + 1 < k <= high ==> b[k] >= b[i + 1])
            && SameOutside(a0, b, low, high)
  {
    var b := ArrayUtils.Swapped(a, i + 1, high);
    forall k | low <= k < i + 1
      ensures b[k] < b[i + 1]
    {
      assert b[k] == a[k];
    }
    forall k | i + 1 < k <= high
      ensures b[k] >= b[i + 1]
    {
      if k == high {
        assert b[k] == a[i + 1];
      } else {
        assert b[k] == a[k];
      }
    }
    forall k | 0 <= k < |b| && !(low <= k <= high)
      ensures b[k] == a0[k]
    {
      assert b[k] == a[k];
    }
  }

  /** The closing swap of the pivot into `i + 1` completes the partition. */
  lemma PartitionDone(a: seq<int>, a0: seq<int>, low: int, high: int, i: int, b: seq<int>)
    requires PartitionArrInvariant(a, a0, low, high, i, high)
    requires 0 <= i + 1 && b == ArrayUtils.Swapped(a, i + 1, high)
    ensures Partitioned(a0, b, low, high, i + 1)
    ensures multiset(b) == multiset(a0)
  {
    PivotPlaced(a, a0, low, high, i);
    ArrayUtils.SwappedIsPermutation(a, i + 1, high);
    SegmentPermutation(a0, b, low, high + 1);
  }

  /** Recording the closing pivot swap. */
  lemma PivotSwapStep(b: seq<int>, i: int, high: int, steps: seq<Step>, input: seq<int>)
    requires 0 <= i + 1 <= high < |b| == |input| && multiset(b) == multiset(input)
    requires StepsOk(input, steps)
    ensures StepsOk(input, steps + [Step(b, [i + 1, high], false, true, None)])
    ensures CountComparisons(steps + [Step(b, [i + 1, high], false, true, None)]) == CountComparisons(steps)
    ensures CountSwaps(steps + [Step(b, [i + 1, high], false, true, None)]) == CountSwaps(steps) + 1
  {
    var swp := Step(b, [i + 1, high], false, true, None);
    assert StepOk(input, swp);
    StepsOkAppend(input, steps, swp);
    CountsAppend(steps, swp);
  }

  /**
   * What `partition` leaves: `after` is `before` partitioned around its pivot, now at `pi`,
   * and still a permutation of the input; the steps are the steps before it plus one
   * comparison per cell before the pivot and one swap per smaller cell and for the pivot,
   * the last one the pivot swap itself.
   */
  ghost predicate PartitionDoneBy(before: seq<int>, after: seq<int>, low: int, high: int, pi: int,
                                  input: seq<int>, steps0: seq<Step>, steps: seq<Step>)
  {
    && Partitioned(before, after, low, high, pi)
    && multiset(after) == multiset(input)
    && StepsOk(input, steps)
    && CountComparisons(steps) == CountComparisons(steps0) + (high - low)
    && CountSwaps(steps) == CountSwaps(steps0) + (pi - low) + 1
    && steps != [] && Last(steps) == Step(after, [pi, high], false, true, None)
  }

  lemma SameDoneBy(before: seq<int>, after: seq<int>, after': seq<int>, low: int, high: int, pi: int,
                   input: seq<int>, steps0: seq<Step>, steps: seq<Step>)
    requires after == after' && PartitionDoneBy(before, after, low, high, pi, input, steps0, steps)
    ensures PartitionDoneBy(before, after', low, high, pi, input, steps0, steps)
  {
  }

  /**
   * `partition(arr, low, high)`: move the cells smaller than the pivot `arr[high]` to the
   * front of the segment, then swap the pivot in after them; one comparison step per cell
   * before the pivot, one swap step per smaller cell, and the closing pivot swap, which is
   * recorded even when the pivot does not move.
   */
  method Partition(arr: array<int>, low: nat, high: nat, input: seq<int>, steps0: seq<Step>)
    returns (pi: nat, steps: seq<Step>)
    requires low < high < arr.Length == |input|
    requires multiset(arr[..]) == multiset(input)
    requires StepsOk(input, steps0)
    modifies arr
    ensures PartitionDoneBy(old(arr[..]), arr[..], low, high, pi, input, steps0, steps)
  {
    ghost var a0 := arr[..];
    var i;
    i, steps := PartitionLoop(arr, low, high, input, steps0);
    ghost var a := arr[..];
    PartitionFinish(a, a0, low, high, i, steps, input, steps0, CountComparisons(steps0), CountSwaps(steps0));
    ArrayUtils.Swap(arr, i + 1, high);
    var snapshot := arr[..];
    steps := steps + [Step(snapshot, [i + 1, high], false, true, None)];
    pi := i + 1;
    SameDoneBy(a0, ArrayUtils.Swapped(a, i + 1, high), snapshot, low, high, pi, input, steps0, steps);
  }

  /** The loop of `partition`: every cell before the pivot compared, the smaller ones swapped forward. */
  method PartitionLoop(arr: array<int>, low: nat, high: nat, input: seq<int>, steps0: seq<Step>)
    returns (i: int, steps: seq<Step>)
    requires low < high < arr.Length == |input|
    requires multiset(arr[..]) == multiset(input)
    requires StepsOk(input, steps0)
    modifies arr
    ensures PartitionInvariant(arr[..], old(arr[..]), low, high, i, high, steps, input,
                               CountComparisons(steps0), CountSwaps(steps0))
  {
    ghost var a0 := arr[..];
    ghost var c0, s0 := CountComparisons(steps0), CountSwaps(steps0);
    var pivot := arr[high];
    i := low - 1;
    steps := steps0;
    var j := low;
    while j < high
      invariant PartitionInvariant(arr[..], a0, low, high, i, j, steps, input, c0, s0)
      invariant arr[high] == pivot
      decreases high - j
    {
      PartitionStep(arr[..], a0, low, high, i, j, steps, input, c0, s0);
      i, steps := PartitionBody(arr, i, j, high, steps);
      j := j + 1;
    }
  }

  /** The closing pivot swap, on values: it completes the partition and its recorded step. */
  lemma PartitionFinish(a: seq<int>, a0: seq<int>, low: int, high: int, i: int,
                        steps: seq<Step>, input: seq<int>, steps0: seq<Step>, c0: nat, s0: nat)
    requires PartitionInvariant(a, a0, low, high, i, high, steps, input, c0, s0)
    requires c0 == CountComparisons(steps0) && s0 == CountSwaps(steps0) && 0 <= i + 1
    ensures var b := ArrayUtils.Swapped(a, i + 1, high);
      PartitionDoneBy(a0, b, low, high, i + 1, input, steps0, steps + [Step(b, [i + 1, high], false, true, None)])
  {
    PartitionDone(a, a0, low, high, i, ArrayUtils.Swapped(a, i + 1, high));
    PivotSwapStep(ArrayUtils.Swapped(a, i + 1, high), i, high, steps, input);
  }


  /** Two ascending runs separated by a pivot no larger than the right run form an ascending run. */
  lemma JoinSorted(l: seq<int>, p: int, r: seq<int>)
    requires Sorted(l) && Sorted(r)
    requires forall x :: x in l ==> x < p
    requires forall x :: x in r ==> x >= p
    ensures Sorted(l + [p] + r)
  {
    var s := l + [p] + r;
    forall a, b | 0 <= a < b < |s|
      ensures s[a] <= s[b]
    {
      if b < |l| {
      } else if a < |l| {
        assert s[a] in l;
        if b > |l| {
          assert s[b] == r[b - |l| - 1];
          assert s[b] in r;
        }
      } else if a == |l| {
        assert s[b] == r[b - |l| - 1];
        assert s[b] in r;
      }
    }
  }

  /** Sorting the cells left of the pivot, then those right of it, leaves the pivot in place. */
  lemma SidesSorted(a1: seq<int>, a2: seq<int>, a3: seq<int>, low: nat, pi: nat, high: nat)
    requires low <= pi <= high < |a1|
    requires SortedSegment(a1, a2, low, pi - 1)
    requires SortedSegment(a2, a3, pi + 1, high)
    ensures |a3| == |a1|
    ensures a3[low..pi] == SortAsc(a1[low..pi])
    ensures a3[pi] == a1[pi]
    ensures a3[pi + 1..high + 1] == SortAsc(a1[pi + 1..high + 1])
    ensures forall k :: 0 <= k < |a3| && !(low <= k < high + 1) ==> a3[k] == a1[k]
  {
    SortedSegmentParts(a1, a2, low, pi - 1);
    SortedSegmentParts(a2, a3, pi + 1, high);
    assert a2[pi + 1..high + 1] == a1[pi + 1..high + 1] by {
      forall k | pi + 1 <= k < high + 1
        ensures a2[k] == a1[k]
      {
      }
    }
    assert a3[low..pi] == a2[low..pi] by {
      forall k | low <= k < pi
        ensures a3[k] == a2[k]
      {
      }
    }
  }

  /** Sorting both sides of a pivot that separates them sorts the whole. */
  lemma PivotJoin(l: seq<int>, p: int, r: seq<int>)
    requires forall k :: 0 <= k < |l| ==> l[k] < p
    requires forall k :: 0 <= k < |r| ==> r[k] >= p
    ensures SortAsc(l) + [p] + SortAsc(r) == SortAsc(l + [p] + r)
  {
    SortAscCorrect(l);
    SortAscCorrect(r);
    forall x | x in SortAsc(l)
      ensures x < p
    {
      assert x in multiset(SortAsc(l));
      assert x in l;
    }
    forall x | x in SortAsc(r)
      ensures x >= p
    {
      assert x in multiset(SortAsc(r));
      assert x in r;
    }
    JoinSorted(SortAsc(l), p, SortAsc(r));
    SortAscUnique(SortAsc(l) + [p] + SortAsc(r), l + [p] + r);
  }

  /** With both sides of a separating pivot sorted, the whole segment is sorted. */
  lemma SegmentJoined(a1: seq<int>, a3: seq<int>, low: nat, pi: nat, high: nat)
    requires low <= pi <= high < |a1| == |a3|
    requires forall k :: low <= k < pi ==> a1[k] < a1[pi]
    requires forall k :: pi < k <= high ==> a1[k] >= a1[pi]
    requires a3[low..pi] == SortAsc(a1[low..pi])
    requires a3[pi] == a1[pi]
    requires a3[pi + 1..high + 1] == SortAsc(a1[pi + 1..high + 1])
    ensures a3[low..high + 1] == SortAsc(a1[low..high + 1])
  {
    PivotJoin(a1[low..pi], a1[pi], a1[pi + 1..high + 1]);
    SliceAround(a1, low, pi, high + 1);
    SliceAround(a3, low, pi, high + 1);
  }

  /**
   * One level of `quickSortHelper`, on values: partitioning, then sorting both sides of
   * the pivot, sorts the segment.
   */
  lemma HelperStep(a0: seq<int>, a1: seq<int>, a2: seq<int>, a3: seq<int>, low: nat, pi: nat, high: nat)
    requires Partitioned(a0, a1, low, high, pi)
    requires SortedSegment(a1, a2, low, pi - 1)
    requires SortedSegment(a2, a3, pi + 1, high)
    ensures SortedSegment(a0, a3, low, high)
  {
    SidesSorted(a1, a2, a3, low, pi, high);
    SegmentJoined(a1, a3, low, pi, high);
    SortAscCorrect(a1[low..high + 1]);
    SortAscUnique(a3[low..high + 1], a0[low..high + 1]);
    SplicedFrom(a0, a3, low, high + 1);
  }

  /**
   * `quickSortHelper(arr, low, high)`: partition the segment, then sort both sides of the
   * pivot. Cells outside the segment are untouched.
   */
  method QuickSortHelper(arr: array<int>, low: nat, high: int, input: seq<int>, steps0: seq<Step>)
    returns (steps: seq<Step>)
    requires low <= high + 1 && high < arr.Length == |input|
    requires multiset(arr[..]) == multiset(input)
    requires StepsOk(input, steps0)
    modifies arr
    ensures SortedSegment(old(arr[..]), arr[..], low, high)
    ensures multiset(arr[..]) == multiset(input)
    ensures StepsOk(input, steps)
    decreases high - low, 1
  {
    if low < high {
      ghost var a0 := arr[..];
      var pi: nat;
      pi, steps := Partition(arr, low, high, input, steps0);
      steps := SortSides(arr, a0, low, pi, high, input, steps);
    } else {
      ShortSegment(arr[..], low, high);
      steps := steps0;
    }
  }

  /** The two recursive calls of `quickSortHelper`, on the cells left and right of the pivot at `pi`. */
  method SortSides(arr: array<int>, ghost a0: seq<int>, low: nat, pi: nat, high: nat, input: seq<int>,
                   steps0: seq<Step>) returns (steps: seq<Step>)
    requires Partitioned(a0, arr[..], low, high, pi) && arr.Length == |input|
    requires multiset(arr[..]) == multiset(input)
    requires StepsOk(input, steps0)
    modifies arr
    ensures SortedSegment(a0, arr[..], low, high)
    ensures multiset(arr[..]) == multiset(input)
    ensures StepsOk(input, steps)
    decreases high - low, 0
  {
    ghost var a1 := arr[..];
    steps := QuickSortHelper(arr, low, pi as int - 1, input, steps0);
    ghost var a2 := arr[..];
    steps := QuickSortHelper(arr, pi + 1, high, input, steps);
    HelperStep(a0, a1, a2, arr[..], low, pi, high);
  }

  lemma FinishTrace(input: seq<int>, a: seq<int>, steps: seq<Step>)
    requires SortedSegment(input, a, 0, |input| - 1)
    requires StepsOk(input, steps)
    ensures a == SortAsc(input) && Sorted(a) && multiset(a) == multiset(input)
    ensures forall k :: 0 <= k < |steps| + 1 ==> StepOk(input, (steps + [FinalStep(a)])[k])
  {
    assert input[0..|input|] == input;
    SortAscCorrect(input);
    assert StepOk(input, FinalStep(a));
    StepsOkAppend(input, steps, FinalStep(a));
    StepsOkMeans(input, steps + [FinalStep(a)]);
  }

  method QuickSortTrace(input: seq<int>) returns (steps: seq<Step>)
    ensures steps != [] && Last(steps) == FinalStep(SortAsc(input))
    ensures Sorted(Last(steps).arr) && multiset(Last(steps).arr) == multiset(input)
    ensures forall k :: 0 <= k < |steps| ==> StepOk(input, steps[k])
  {
    var copy := new int[|input|](k requires 0 <= k < |input| => input[k]);
    assert copy[..] == input;
    steps := QuickSortHelper(copy, 0, |input| - 1, input, []);
    FinishTrace(input, copy[..], steps);
    steps := steps + [FinalStep(copy[..])];
  }
}
