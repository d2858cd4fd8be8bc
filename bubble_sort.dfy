/** `bubbleSort`: the step trace of a bubble sort with early exit. */
module BubbleSort {
  import opened Wrappers
  import opened Ordering
  import opened Steps
  import ArrayUtils

  /**
   * The cells from `b` on are settled: ascending, and no cell before `b` exceeds `a[b]`,
   * the smallest of them.
   */
  ghost predicate SettledFrom(a: seq<int>, b: int)
  {
    && 0 <= b <= |a|
    && Ascending(a, b, |a|)
    && (b < |a| ==> forall k :: 0 <= k < b ==> a[k] <= a[b])
  }

  /**
   * Inside a pass over `[0, b)`, at inner index `j`: `a[j]` is the largest of `a[..j + 1]`,
   * and while no swap has happened (`clean`) that prefix is ascending.
   */
  ghost predicate PassInvariant(a: seq<int>, b: int, j: int, clean: bool)
  {
    && 0 <= j < b <= |a|
    && SettledFrom(a, b)
    && (forall k :: 0 <= k <= j ==> a[k] <= a[j])
    && (clean ==> Ascending(a, 0, j + 1))
  }

  /** The array after the inner-loop body at `j`: the pair is swapped when out of order. */
  function CompareSwapped(a: seq<int>, j: nat): seq<int>
    requires j + 1 < |a|
  {
    if a[j] > a[j + 1] then ArrayUtils.Swapped(a, j, j + 1) else a
  }

  lemma PassStep(a: seq<int>, b: int, j: nat, clean: bool)
    requires PassInvariant(a, b, j, clean) && j + 1 < b
    ensures PassInvariant(CompareSwapped(a, j), b, j + 1, clean && a[j] <= a[j + 1])
    ensures multiset(CompareSwapped(a, j)) == multiset(a)
  {
    ArrayUtils.SwappedIsPermutation(a, j, j + 1);
  }

  lemma PassDone(a: seq<int>, b: int, clean: bool)
    requires PassInvariant(a, b, b - 1, clean)
    ensures SettledFrom(a, b - 1)
    ensures clean ==> Sorted(a)
  {
    if clean {
      assert Ascending(a, 0, |a|);
      AscendingIsSorted(a);
    }
  }

  lemma SettledFromZero(a: seq<int>)
    requires SettledFrom(a, 0)
    ensures Sorted(a)
  {
    AscendingIsSorted(a);
  }

  /**
   * Every swap step comes right after the comparison step of the same adjacent pair
   * `(j, j + 1)`, with `j + 1 < n`.
   */
  ghost predicate SwapsFollowComparisons(steps: seq<Step>, n: int)
  {
    forall k :: 0 <= k < |steps| && steps[k].swap ==> k > 0 && SwapOfCompared(steps[k - 1], steps[k], n)
  }

  /** A swap step `s` right after the comparison step `c` of the same pair `(j, j + 1)`. */
  predicate SwapOfCompared(c: Step, s: Step, n: int)
  {
    && c.comparison && !c.swap
    && c.indices == s.indices
    && |s.indices| == 2
    && 0 <= s.indices[0]
    && s.indices[1] == s.indices[0] + 1 < n
  }

  /**
   * The trace built so far, step by step from its end: every snapshot is a permutation of
   * the input and every swap step follows the comparison of its pair.
   */
  ghost predicate WellFormed(steps: seq<Step>, input: seq<int>)
    decreases |steps|
  {
    steps != [] ==>
      && WellFormed(steps[..|steps| - 1], input)
      && multiset(Last(steps).arr) == multiset(input)
      && (Last(steps).swap ==> |steps| >= 2 && SwapOfCompared(steps[|steps| - 2], Last(steps), |input|))
  }

  lemma {:induction false} WellFormedMeans(steps: seq<Step>, input: seq<int>)
    requires WellFormed(steps, input)
    ensures SnapshotsArePermutations(steps, input)
    ensures SwapsFollowComparisons(steps, |input|)
    decreases |steps|
  {
    if steps != [] {
      var init := steps[..|steps| - 1];
      WellFormedMeans(init, input);
      forall k | 0 <= k < |steps|
        ensures multiset(steps[k].arr) == multiset(input)
      {
        if k < |init| {
          assert init[k] == steps[k];
        }
      }
      forall k | 0 <= k < |steps| && steps[k].swap
        ensures k > 0 && SwapOfCompared(steps[k - 1], steps[k], |input|)
      {
        if k < |init| {
          assert init[k] == steps[k];
          assert init[k - 1] == steps[k - 1];
        }
      }
    }
  }

  lemma AppendComparison(steps: seq<Step>, input: seq<int>, a: seq<int>, j: nat)
    requires WellFormed(steps, input) && multiset(a) == multiset(input)
    ensures WellFormed(steps + [Step(a, [j, j + 1], true, false, None)], input)
  {
    assert (steps + [Step(a, [j, j + 1], true, false, None)])[..|steps|] == steps;
  }

  lemma AppendSwap(steps: seq<Step>, input: seq<int>, a: seq<int>, j: nat)
    requires WellFormed(steps, input) && multiset(a) == multiset(input) && j + 1 < |input|
    requires steps != [] && Last(steps).comparison && !Last(steps).swap && Last(steps).indices == [j, j + 1]
    ensures WellFormed(steps + [Step(a, [j, j + 1], false, true, None)], input)
  {
    assert (steps + [Step(a, [j, j + 1], false, true, None)])[..|steps|] == steps;
  }

  lemma AppendFinal(steps: seq<Step>, input: seq<int>, a: seq<int>)
    requires WellFormed(steps, input) && multiset(a) == multiset(input)
    ensures WellFormed(steps + [FinalStep(a)], input)
  {
    assert (steps + [FinalStep(a)])[..|steps|] == steps;
  }

  /** The steps one inner iteration appends: the comparison, then the swap if it happened. */
  function BodySteps(a: seq<int>, j: nat): seq<Step>
    requires j + 1 < |a|
  {
    [Step(a, [j, j + 1], true, false, None)]
    + if a[j] > a[j + 1] then [Step(CompareSwapped(a, j), [j, j + 1], false, true, None)] else []
  }

  /** Everything the inner loop keeps, at inner index `j` of the pass that started from `before`. */
  ghost predicate InnerInvariant(a: seq<int>, b: int, j: nat, clean: bool, steps: seq<Step>,
                                 input: seq<int>, before: seq<int>, steps0: seq<Step>)
  {
    && PassInvariant(a, b, j, clean)
    && |a| == |input| && multiset(a) == multiset(input)
    && WellFormed(steps, input)
    && (clean ==> a == before && |steps| == |steps0| + j)
    && (Sorted(before) ==> clean)
  }

  /** Recording one inner iteration keeps the trace well formed; it adds one step, or two with a swap. */
  lemma BodyStepsOk(a: seq<int>, j: nat, steps: seq<Step>, input: seq<int>)
    requires WellFormed(steps, input) && j + 1 < |a| == |input| && multiset(a) == multiset(input)
    ensures WellFormed(steps + BodySteps(a, j), input)
    ensures |BodySteps(a, j)| == if a[j] > a[j + 1] then 2 else 1
  {
    var cmp := Step(a, [j, j + 1], true, false, None);
    if a[j] > a[j + 1] {
      var swp := Step(CompareSwapped(a, j), [j, j + 1], false, true, None);
      assert BodySteps(a, j) == [cmp, swp];
      ComparedAndSwapped(a, j, steps, input, cmp, swp);
      assert steps + [cmp, swp] == steps + [cmp] + [swp];
    } else {
      assert BodySteps(a, j) == [cmp];
      AppendComparison(steps, input, a, j);
    }
  }

  lemma ComparedAndSwapped(a: seq<int>, j: nat, steps: seq<Step>, input: seq<int>, cmp: Step, swp: Step)
    requires WellFormed(steps, input) && j + 1 < |a| == |input| && multiset(a) == multiset(input)
    requires a[j] > a[j + 1]
    requires cmp == Step(a, [j, j + 1], true, false, None)
    requires swp == Step(ArrayUtils.Swapped(a, j, j + 1), [j, j + 1], false, true, None)
    ensures WellFormed(steps + [cmp] + [swp], input)
  {
    AppendComparison(steps, input, a, j);
    ArrayUtils.SwappedIsPermutation(a, j, j + 1);
    AppendSwap(steps + [cmp], input, swp.arr, j);
  }

  lemma InnerStep(a: seq<int>, b: int, j: nat, clean: bool, steps: seq<Step>,
                  input: seq<int>, before: seq<int>, steps0: seq<Step>)
    requires InnerInvariant(a, b, j, clean, steps, input, before, steps0) && j + 1 < b
    ensures InnerInvariant(CompareSwapped(a, j), b, j + 1, clean && a[j] <= a[j + 1],
                           steps + BodySteps(a, j), input, before, steps0)
  {
    PassStep(a, b, j, clean);
    BodyStepsOk(a, j, steps, input);
    if Sorted(before) {
      assert before[j] <= before[j + 1];
    }
  }

  /** The body of the inner loop: record the comparison, swap when out of order, record the swap. */
  method CompareAndSwap(arr: array<int>, j: nat, steps0: seq<Step>) returns (steps: seq<Step>, swapped: bool)
    requires j + 1 < arr.Length
    modifies arr
    ensures swapped == (old(arr[j]) > old(arr[j + 1]))
    ensures arr[..] == CompareSwapped(old(arr[..]), j)
    ensures steps == steps0 + BodySteps(old(arr[..]), j)
  {
    steps := steps0 + [Step(arr[..], [j, j + 1], true, false, None)];
    swapped := arr[j] > arr[j + 1];
    if swapped {
      ArrayUtils.Swap(arr, j, j + 1);
      steps := steps + [Step(arr[..], [j, j + 1], false, true, None)];
    }
  }

  /**
   * One pass of the outer loop: compare `(j, j + 1)` for `j` in `[0, n - i - 1)` and
   * swap when the left cell is larger.
   */
  method Pass(arr: array<int>, i: nat, input: seq<int>, steps0: seq<Step>) returns (steps: seq<Step>, swapped: bool)
    requires i < arr.Length == |input|
    requires multiset(arr[..]) == multiset(input)
    requires SettledFrom(arr[..], arr.Length - i)
    requires WellFormed(steps0, input)
    modifies arr
    ensures multiset(arr[..]) == multiset(input)
    ensures SettledFrom(arr[..], arr.Length - i - 1)
    ensures !swapped ==> Sorted(arr[..]) && arr[..] == old(arr[..]) && |steps| == |steps0| + arr.Length - i - 1
    ensures WellFormed(steps, input)
    ensures Sorted(old(arr[..])) ==> !swapped
  {
    var n := arr.Length;
    ghost var before := arr[..];
    steps := steps0;
    swapped := false;
    var j := 0;
    while j < n - i - 1
      invariant 0 <= j <= n - i - 1
      invariant InnerInvariant(arr[..], n - i, j, !swapped, steps, input, before, steps0)
    {
      InnerStep(arr[..], n - i, j, !swapped, steps, input, before, steps0);
      var did;
      steps, did := CompareAndSwap(arr, j, steps);
      swapped := swapped || did;
      j := j + 1;
    }
    PassDone(arr[..], n - i, !swapped);
  }

  method BubbleSortTrace(input: seq<int>) returns (steps: seq<Step>)
    ensures steps != [] && Last(steps) == FinalStep(Last(steps).arr)
    ensures Sorted(Last(steps).arr) && multiset(Last(steps).arr) == multiset(input)
    ensures SnapshotsArePermutations(steps, input)
    ensures SwapsFollowComparisons(steps, |input|)
    ensures Sorted(input) ==> |steps| == (if |input| == 0 then 1 else |input|)
  {
    var arr := new int[|input|](k requires 0 <= k < |input| => input[k]);
    var n := arr.Length;
    assert arr[..] == input;
    assert SettledFrom(arr[..], n - 0);
    steps := [];
    var i := 0;
    while i < n
      invariant 0 <= i <= n
      invariant multiset(arr[..]) == multiset(input)
      invariant SettledFrom(arr[..], n - i)
      invariant WellFormed(steps, input)
      invariant Sorted(input) ==> i == 0 && steps == [] && arr[..] == input
    {
      var swapped;
      steps, swapped := Pass(arr, i, input, steps);
      if !swapped {
        break;
      }
      i := i + 1;
    }
    if i == n {
      SettledFromZero(arr[..]);
    }
    FinishTrace(steps, input, arr[..]);
    steps := steps + [FinalStep(arr[..])];
  }

  /** Closing a well-formed trace with the final snapshot of a permutation of the input. */
  lemma FinishTrace(steps: seq<Step>, input: seq<int>, a: seq<int>)
    requires WellFormed(steps, input) && multiset(a) == multiset(input)
    ensures var all := steps + [FinalStep(a)];
      && Last(all) == FinalStep(a)
      && SnapshotsArePermutations(all, input)
      && SwapsFollowComparisons(all, |input|)
  {
    AppendFinal(steps, input, a);
    WellFormedMeans(steps + [FinalStep(a)], input);
  }
}
