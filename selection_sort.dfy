/** `selectionSort`: the step trace of a selection sort. */
module SelectionSort {
  import opened Wrappers
  import opened Ordering
  import opened Steps
  import ArrayUtils

  /**
   * The shape of every step selection sort records: a snapshot that is a permutation of
   * the input, and a comparison `[minIdx, j]` or swap `[i, minIdx]` names two positions in
   * increasing order. A swap is recorded only when `minIdx != i`, hence the strict order.
   */
  ghost predicate StepOk(input: seq<int>, s: Step)
  {
    && |s.arr| == |input|
    && multiset(s.arr) == multiset(input)
    && s.found == None
    && !(s.comparison && s.swap)
    && (s.comparison || s.swap ==>
          |s.indices| == 2 && 0 <= s.indices[0] < s.indices[1] < |input|)
  }

  /** Every step of the trace has that shape; defined from the end, so appending a step checks only that step. */
  ghost predicate StepsOk(input: seq<int>, steps: seq<Step>)
    decreases |steps|
  {
    steps != [] ==> StepsOk(input, steps[..|steps| - 1]) && StepOk(input, Last(steps))
  }

  lemma StepsOkAppend(input: seq<int>, steps: seq<Step>, s: Step)
    requires StepsOk(input, steps) && StepOk(input, s)
    ensures StepsOk(input, steps + [s])
  {
    assert (steps + [s])[..|steps|] == steps;
  }

  lemma {:induction false} StepsOkMeans(input: seq<int>, steps: seq<Step>)
    requires StepsOk(input, steps)
    ensures forall k :: 0 <= k < |steps| ==> StepOk(input, steps[k])
    decreases |steps|
  {
    if steps != [] {
      var init := steps[..|steps| - 1];
      StepsOkMeans(input, init);
      forall k | 0 <= k < |steps|
        ensures StepOk(input, steps[k])
      {
        if k < |init| {
          assert init[k] == steps[k];
        }
      }
    }
  }

  /** `a[m]` is the first occurrence of the minimum of `a[i..]`. */
  ghost predicate IsFirstMin(a: seq<int>, i: int, m: int)
  {
    && 0 <= i <= m < |a|
    && (forall k :: i <= k < |a| ==> a[m] <= a[k])
    && (forall k :: i <= k < m ==> a[m] < a[k])
  }

  /** The prefix `a[..i]` is ascending and none of its cells exceeds a later one. */
  ghost predicate Selected(a: seq<int>, i: int)
  {
    && 0 <= i <= |a|
    && Ascending(a, 0, i)
    && (0 < i ==> forall k :: i <= k < |a| ==> a[i - 1] <= a[k])
  }

  /** What the inner scan keeps at index `j` with current minimum index `m`. */
  ghost predicate ScanInvariant(a: seq<int>, i: int, j: int, m: int, steps: seq<Step>,
                                input: seq<int>, c0: nat, s0: nat)
  {
    && 0 <= i <= m < j <= |a| == |input|
    && multiset(a) == multiset(input)
    && (forall k :: i <= k < j ==> a[m] <= a[k])
    && (forall k :: i <= k < m ==> a[m] < a[k])
    && StepsOk(input, steps)
    && CountComparisons(steps) == c0 + (j - i - 1)
    && CountSwaps(steps) == s0
  }

  lemma ScanStep(a: seq<int>, i: int, j: int, m: int, steps: seq<Step>,
                 input: seq<int>, c0: nat, s0: nat)
    requires ScanInvariant(a, i, j, m, steps, input, c0, s0) && j < |a|
    ensures ScanInvariant(a, i, j + 1, if a[j] < a[m] then j else m,
                          steps + [Step(a, [m, j], true, false, None)], input, c0, s0)
  {
    var s := Step(a, [m, j], true, false, None);
    StepsOkAppend(input, steps, s);
    CountsAppend(steps, s);
  }

  /** The inner loop: find the first minimum of `arr[i..]`, recording each comparison. */
  method ScanMin(arr: array<int>, i: nat, input: seq<int>, steps0: seq<Step>) returns (minIdx: nat, steps: seq<Step>)
    requires i + 1 < arr.Length == |input|
    requires multiset(arr[..]) == multiset(input)
    requires StepsOk(input, steps0)
    ensures IsFirstMin(arr[..], i, minIdx)
    ensures StepsOk(input, steps)
    ensures CountComparisons(steps) == CountComparisons(steps0) + (arr.Length - i - 1)
    ensures CountSwaps(steps) == CountSwaps(steps0)
  {
    ghost var c0, s0 := CountComparisons(steps0), CountSwaps(steps0);
    minIdx := i;
    steps := steps0;
    var j := i + 1;
    while j < arr.Length
      invariant ScanInvariant(arr[..], i, j, minIdx, steps, input, c0, s0)
      decreases arr.Length - j
    {
      ScanStep(arr[..], i, j, minIdx, steps, input, c0, s0);
      steps := steps + [Step(arr[..], [minIdx, j], true, false, None)];
      if arr[j] < arr[minIdx] {
        minIdx := j;
      }
      j := j + 1;
    }
  }

  /** Everything the outer loop keeps before round `i`. */
  ghost predicate OuterInvariant(a: seq<int>, i: int, steps: seq<Step>, input: seq<int>)
  {
    && |a| == |input|
    && multiset(a) == multiset(input)
    && Selected(a, i)
    && StepsOk(input, steps)
    && 2 * CountComparisons(steps) == i * (2 * |a| - i - 1)
    && CountSwaps(steps) <= i
  }

  /** The array after round `i` with minimum index `m`: the minimum is swapped into place. */
  function Placed(a: seq<int>, i: nat, m: nat): seq<int>
    requires i <= m < |a|
  {
    if m != i then ArrayUtils.Swapped(a, i, m) else a
  }

  /** Moving the first minimum `a[m]` of `a[i..]` to position `i` extends the selected prefix. */
  lemma PlaceMinimum(a: seq<int>, i: nat, m: nat)
    requires Selected(a, i) && IsFirstMin(a, i, m)
    ensures Selected(Placed(a, i, m), i + 1)
    ensures multiset(Placed(a, i, m)) == multiset(a)
  {
    ArrayUtils.SwappedIsPermutation(a, i, m);
  }

  /** The step a round records after its scan: the swap, if one happened. */
  function SwapSteps(a: seq<int>, i: nat, m: nat): seq<Step>
    requires i <= m < |a|
  {
    if m != i then [Step(Placed(a, i, m), [i, m], false, true, None)] else []
  }

  lemma RoundStep(a: seq<int>, i: nat, m: nat, steps0: seq<Step>, steps: seq<Step>, input: seq<int>)
    requires OuterInvariant(a, i, steps0, input) && IsFirstMin(a, i, m)
    requires StepsOk(input, steps)
    requires CountComparisons(steps) == CountComparisons(steps0) + (|a| - i - 1)
    requires CountSwaps(steps) == CountSwaps(steps0)
    ensures OuterInvariant(Placed(a, i, m), i + 1, steps + SwapSteps(a, i, m), input)
  {
    PlaceMinimum(a, i, m);
    assert (i + 1) * (2 * |a| - i - 2) == i * (2 * |a| - i - 1) + 2 * (|a| - i - 1);
    if m != i {
      var s := Step(Placed(a, i, m), [i, m], false, true, None);
      StepsOkAppend(input, steps, s);
      CountsAppend(steps, s);
    } else {
      assert steps + SwapSteps(a, i, m) == steps;
    }
  }

  /**
   * One round of the outer loop: scan for the minimum of `arr[i..]`, then swap it into
   * position `i` and record the swap, unless it is already there.
   */
  method SelectRound(arr: array<int>, i: nat, input: seq<int>, steps0: seq<Step>) returns (steps: seq<Step>)
    requires i + 1 < arr.Length
    requires OuterInvariant(arr[..], i, steps0, input)
    modifies arr
    ensures OuterInvariant(arr[..], i + 1, steps, input)
  {
    ghost var a := arr[..];
    var minIdx;
    minIdx, steps := ScanMin(arr, i, input, steps0);
    RoundStep(a, i, minIdx, steps0, steps, input);
    if minIdx != i {
      ArrayUtils.Swap(arr, i, minIdx);
      steps := steps + [Step(arr[..], [i, minIdx], false, true, None)];
    } else {
      assert steps + SwapSteps(a, i, minIdx) == steps;
    }
  }

  /** When the outer loop exits, the array is sorted and the counts have their final values. */
  lemma OuterDone(a: seq<int>, i: nat, steps: seq<Step>, input: seq<int>)
    requires OuterInvariant(a, i, steps, input)
    requires (i == 0 || i < |a|) && |a| <= i + 1
    ensures Sorted(a)
    ensures 2 * CountComparisons(steps) == |a| * (|a| - 1)
    ensures CountSwaps(steps) <= if |a| == 0 then 0 else |a| - 1
  {
    SelectedDone(a, i);
    CountsDone(|a|, i, CountComparisons(steps), CountSwaps(steps));
  }

  lemma SelectedDone(a: seq<int>, i: nat)
    requires Selected(a, i) && (i == 0 || i < |a|) && |a| <= i + 1
    ensures Sorted(a)
  {
    if 1 < |a| {
      assert Ascending(a, 0, |a|);
    }
    AscendingIsSorted(a);
  }

  lemma CountsDone(n: nat, i: nat, comparisons: nat, swaps: nat)
    requires 2 * comparisons == i * (2 * n - i - 1) && swaps <= i
    requires (i == 0 || i < n) && n <= i + 1
    ensures 2 * comparisons == n * (n - 1)
    ensures swaps <= if n == 0 then 0 else n - 1
  {
    if n > 0 {
      assert i == n - 1;
      assert i * (2 * n - i - 1) == (n - 1) * n;
    }
  }

  lemma FinishTrace(a: seq<int>, steps: seq<Step>, input: seq<int>)
    requires StepsOk(input, steps) && multiset(a) == multiset(input) && |a| == |input|
    ensures CountComparisons(steps + [FinalStep(a)]) == CountComparisons(steps)
    ensures CountSwaps(steps + [FinalStep(a)]) == CountSwaps(steps)
    ensures forall k :: 0 <= k < |steps| + 1 ==> StepOk(input, (steps + [FinalStep(a)])[k])
  {
    StepsOkAppend(input, steps, FinalStep(a));
    CountsAppend(steps, FinalStep(a));
    StepsOkMeans(input, steps + [FinalStep(a)]);
  }

  method SelectionSortTrace(input: seq<int>) returns (steps: seq<Step>)
    ensures steps != [] && Last(steps) == FinalStep(Last(steps).arr)
    ensures Sorted(Last(steps).arr) && multiset(Last(steps).arr) == multiset(input)
    ensures forall k :: 0 <= k < |steps| ==> StepOk(input, steps[k])
    ensures 2 * CountComparisons(steps) == |input| * (|input| - 1)
    ensures CountSwaps(steps) <= if |input| == 0 then 0 else |input| - 1
  {
    var arr := new int[|input|](k requires 0 <= k < |input| => input[k]);
    assert arr[..] == input;
    steps := [];
    var i := 0;
    while i + 1 < arr.Length
      invariant i == 0 || i < arr.Length
      invariant OuterInvariant(arr[..], i, steps, input)
    {
      steps := SelectRound(arr, i, input, steps);
      i := i + 1;
    }
    OuterDone(arr[..], i, steps, input);
    FinishTrace(arr[..], steps, input);
    steps := steps + [FinalStep(arr[..])];
  }
}
