/**
 * `insertionSort`: the step trace of an insertion sort. While the key is being moved left
 * the array holds a duplicate of the shifted cell, so the snapshots of shift and
 * comparison steps are not permutations of the input; those of placement steps and of the
 * final step are.
 */
module InsertionSort {
  import opened Wrappers
  import opened Ordering
  import opened Steps

  /**
   * The shape of every step insertion sort records: a comparison `[i, j]` has `j < i`, a
   * shift `[j, j + 1]` names adjacent cells, a placement `[j + 1]` names one cell, and the
   * snapshots of placements and of the final step are permutations of the input.
   */
  ghost predicate StepOk(input: seq<int>, s: Step)
  {
    && |s.arr| == |input|
    && s.found == None
    && !(s.comparison && s.swap)
    && (s.comparison ==> |s.indices| == 2 && 0 <= s.indices[1] < s.indices[0] < |input|)
    && (s.swap && !IsPlacement(s) ==>
          |s.indices| == 2 && 0 <= s.indices[0] && s.indices[1] == s.indices[0] + 1 < |input|)
    && (IsPlacement(s) ==> 0 <= s.indices[0] < |input|)
    && (IsPlacement(s) || IsNeutral(s) ==> multiset(s.arr) == multiset(input))
  }

  /** Every step of the trace has that shape; defined from the end, so appending a step checks only that step. */
  ghost predicate StepsOk(input: seq<int>, steps: seq<Step>)
    decreases |steps|
  {
    steps != [] ==> StepsOk(input, steps[..|steps| - 1]) && StepOk(input, Last(steps))
  }

  lemma StepsOkAppend(input: seq<int>, steps: seq<Step>, s: Step)
    requires StepsOk(input, steps) && StepOk(input, s)
    ensures StepsOk(input, steps + [s])
  {
    assert (steps + [s])[..|steps|] == steps;
  }

  lemma {:induction false} StepsOkMeans(input: seq<int>, steps: seq<Step>)
    requires StepsOk(input, steps)
    ensures forall k :: 0 <= k < |steps| ==> StepOk(input, steps[k])
    decreases |steps|
  {
    if steps != [] {
      var init := steps[..|steps| - 1];
      StepsOkMeans(input, init);
      forall k | 0 <= k < |steps|
        ensures StepOk(input, steps[k])
      {
        if k < |init| {
          assert init[k] == steps[k];
        }
      }
    }
  }

  /** `a[i]` taken out and put back in at position `p <= i`, the cells in between moving right. */
  function Inserted(a: seq<int>, i: nat, p: nat): (r: seq<int>)
    requires p <= i < |a|
    ensures |r| == |a| && r[p] == a[i]
    ensures forall k :: 0 <= k < p || i < k < |a| ==> r[k] == a[k]
    ensures forall k :: p < k <= i ==> r[k] == a[k - 1]
  {
    a[..p] + [a[i]] + a[p..i] + a[i + 1..]
  }

  lemma InsertedIsPermutation(a: seq<int>, i: nat, p: nat)
    requires p <= i < |a|
    ensures multiset(Inserted(a, i, p)) == multiset(a)
  {
    assert a == a[..p] + a[p..i] + [a[i]] + a[i + 1..];
  }

  /**
   * Inserting `a[i]` at `p` keeps the prefix ascending when `p` is the place the shifting
   * loop stops at: every cell in `a[p..i]` is larger than the key, and `a[p - 1]` is not.
   */
  lemma InsertedAscending(a: seq<int>, i: nat, p: nat)
    requires p <= i < |a| && Ascending(a, 0, i)
    requires forall k :: p <= k < i ==> a[k] > a[i]
    requires p > 0 ==> a[p - 1] <= a[i]
    ensures Ascending(Inserted(a, i, p), 0, i + 1)
  {
  }

  /**
   * The array in round `i` at index `j` of the shifting loop: cells up to `j` are as in
   * `orig`, cells `j + 2 .. i` hold `orig[j + 1 .. i - 1]` moved right by one, all of them
   * larger than the key `orig[i]`, and cells after `i` are untouched. Cell `j + 1` is free.
   */
  ghost predicate Shifted(a: seq<int>, orig: seq<int>, i: int, j: int)
  {
    && 1 <= i < |a| && |a| == |orig|
    && -1 <= j < i
    && (forall k :: 0 <= k <= j ==> a[k] == orig[k])
    && (forall k :: j + 1 < k <= i ==> a[k] == orig[k - 1] && orig[k - 1] > orig[i])
    && (forall k :: i < k < |a| ==> a[k] == orig[k])
  }

  /** What the shifting loop keeps: the array as above, and the trace so far. */
  ghost predicate ShiftInvariant(a: seq<int>, orig: seq<int>, i: int, j: int, steps: seq<Step>,
                                 input: seq<int>, placements: nat)
  {
    && Shifted(a, orig, i, j)
    && |a| == |input|
    && StepsOk(input, steps)
    && CountPlacements(steps) == placements
  }

  /** The steps one shift records: the shift, then the next comparison if one is left. */
  function ShiftSteps(a: seq<int>, i: int, j: int): seq<Step>
    requires 0 <= j && j + 1 < |a|
  {
    [Step(a[j + 1 := a[j]], [j, j + 1], false, true, None)]
    + if j - 1 >= 0 then [Step(a[j + 1 := a[j]], [i, j - 1], true, false, None)] else []
  }

  /** One shift moves the free cell one place left. */
  lemma ShiftedStep(a: seq<int>, orig: seq<int>, i: int, j: int)
    requires Shifted(a, orig, i, j) && 0 <= j && a[j] > orig[i]
    ensures Shifted(a[j + 1 := a[j]], orig, i, j - 1)
  {
    var b := a[j + 1 := a[j]];
    forall k | 0 <= k <= j - 1
      ensures b[k] == orig[k]
    {
      assert b[k] == a[k];
    }
    forall k | j < k <= i
      ensures b[k] == orig[k - 1] && orig[k - 1] > orig[i]
    {
      if k == j + 1 {
        assert b[k] == a[j] == orig[j];
      } else {
        assert b[k] == a[k];
      }
    }
    forall k | i < k < |b|
      ensures b[k] == orig[k]
    {
      assert b[k] == a[k];
    }
  }

  /** Recording a step of the right shape that is not a placement keeps the trace well formed and its placement count. */
  lemma RecordStep(input: seq<int>, steps: seq<Step>, s: Step)
    requires StepsOk(input, steps) && StepOk(input, s) && !IsPlacement(s)
    ensures StepsOk(input, steps + [s])
    ensures CountPlacements(steps + [s]) == CountPlacements(steps)
  {
    StepsOkAppend(input, steps, s);
    CountsAppend(steps, s);
  }

  /** Recording a shift and the comparison after it keeps the trace well formed and adds no placement. */
  lemma ShiftStepsOk(a: seq<int>, i: int, j: int, steps: seq<Step>, input: seq<int>)
    requires 0 <= j < i < |a| == |input| && StepsOk(input, steps)
    ensures StepsOk(input, steps + ShiftSteps(a, i, j))
    ensures CountPlacements(steps + ShiftSteps(a, i, j)) == CountPlacements(steps)
  {
    var b := a[j + 1 := a[j]];
    var shift := Step(b, [j, j + 1], false, true, None);
    assert StepOk(input, shift) && !IsPlacement(shift);
    RecordStep(input, steps, shift);
    if j - 1 >= 0 {
      var cmp := Step(b, [i, j - 1], true, false, None);
      assert StepOk(input, cmp) && !IsPlacement(cmp);
      RecordStep(input, steps + [shift], cmp);
      assert ShiftSteps(a, i, j) == [shift, cmp];
      assert steps + [shift, cmp] == steps + [shift] + [cmp];
    } else {
      assert ShiftSteps(a, i, j) == [shift];
    }
  }

  lemma ShiftStep(a: seq<int>, orig: seq<int>, i: int, j: int, steps: seq<Step>,
                  input: seq<int>, placements: nat)
    requires ShiftInvariant(a, orig, i, j, steps, input, placements)
    requires 0 <= j && a[j] > orig[i]
    ensures ShiftInvariant(a[j + 1 := a[j]], orig, i, j - 1, steps + ShiftSteps(a, i, j), input, placements)
  {
    ShiftedStep(a, orig, i, j);
    ShiftStepsOk(a, i, j, steps, input);
  }

  /** Everything the outer loop keeps before round `i`. */
  ghost predicate OuterInvariant(a: seq<int>, i: int, steps: seq<Step>, input: seq<int>)
  {
    && |a| == |input|
    && multiset(a) == multiset(input)
    && 1 <= i && (i <= |a| || i == 1)
    && Ascending(a, 0, i)
    && StepsOk(input, steps)
    && CountPlacements(steps) == i - 1
  }

  /** When the shifting loop stops, writing the key into the free cell inserts it in order. */
  lemma KeyInserted(a: seq<int>, orig: seq<int>, i: int, j: int)
    requires Shifted(a, orig, i, j) && Ascending(orig, 0, i)
    requires j < 0 || a[j] <= orig[i]
    ensures a[j + 1 := orig[i]] == Inserted(orig, i, j + 1)
    ensures Ascending(a[j + 1 := orig[i]], 0, i + 1)
  {
    var b := a[j + 1 := orig[i]];
    assert |b| == |Inserted(orig, i, j + 1)|;
    forall k | 0 <= k < |b|
      ensures b[k] == Inserted(orig, i, j + 1)[k]
    {
    }
    forall k | j + 1 <= k < i
      ensures orig[k] > orig[i]
    {
      assert a[k + 1] == orig[k];
    }
    InsertedAscending(orig, i, j + 1);
  }

  /** Writing the key and recording the placement completes the round. */
  lemma PlaceKey(a: seq<int>, orig: seq<int>, i: int, j: int, steps: seq<Step>, input: seq<int>)
    requires 1 <= i
    requires ShiftInvariant(a, orig, i, j, steps, input, i - 1)
    requires multiset(orig) == multiset(input) && Ascending(orig, 0, i)
    requires j < 0 || a[j] <= orig[i]
    ensures OuterInvariant(a[j + 1 := orig[i]], i + 1,
                           steps + [Step(a[j + 1 := orig[i]], [j + 1], false, true, None)], input)
  {
    var b := a[j + 1 := orig[i]];
    KeyInserted(a, orig, i, j);
    InsertedIsPermutation(orig, i, j + 1);
    var place := Step(b, [j + 1], false, true, None);
    StepsOkAppend(input, steps, place);
    CountsAppend(steps, place);
  }

  lemma RoundStart(a: seq<int>, i: int, steps: seq<Step>, input: seq<int>)
    requires OuterInvariant(a, i, steps, input) && i < |a|
    ensures ShiftInvariant(a, a, i, i - 1, steps + [Step(a, [i, i - 1], true, false, None)], input, i - 1)
  {
    var cmp := Step(a, [i, i - 1], true, false, None);
    StepsOkAppend(input, steps, cmp);
    CountsAppend(steps, cmp);
  }

  /** The body of the shifting loop: move `arr[j]` one cell right and record the steps. */
  method ShiftOnce(arr: array<int>, i: nat, j: nat, steps0: seq<Step>) returns (steps: seq<Step>)
    requires j + 1 < arr.Length
    modifies arr
    ensures arr[..] == old(arr[..])[j + 1 := old(arr[j])]
    ensures steps == steps0 + ShiftSteps(old(arr[..]), i, j)
  {
    arr[j + 1] := arr[j];
    steps := steps0 + [Step(arr[..], [j, j + 1], false, true, None)];
    if j - 1 >= 0 {
      steps := steps + [Step(arr[..], [i, j - 1], true, false, None)];
    }
  }

  /**
   * One round of the outer loop: take the key `arr[i]`, shift the larger cells of the
   * sorted prefix right by one, and write the key into the gap.
   */
  method InsertRound(arr: array<int>, i: nat, input: seq<int>, steps0: seq<Step>) returns (steps: seq<Step>)
    requires OuterInvariant(arr[..], i, steps0, input) && i < arr.Length
    modifies arr
    ensures OuterInvariant(arr[..], i + 1, steps, input)
  {
    ghost var orig := arr[..];
    var key := arr[i];
    var j := i - 1;
    RoundStart(orig, i, steps0, input);
    steps := steps0 + [Step(arr[..], [i, j], true, false, None)];
    while j >= 0 && arr[j] > key
      invariant ShiftInvariant(arr[..], orig, i, j, steps, input, i - 1)
      decreases j
    {
      ShiftStep(arr[..], orig, i, j, steps, input, i - 1);
      steps := ShiftOnce(arr, i, j, steps);
      j := j - 1;
    }
    PlaceKey(arr[..], orig, i, j, steps, input);
    arr[j + 1] := key;
    steps := steps + [Step(arr[..], [j + 1], false, true, None)];
  }

  lemma FinishTrace(a: seq<int>, steps: seq<Step>, input: seq<int>)
    requires StepsOk(input, steps) && multiset(a) == multiset(input) && |a| == |input|
    ensures CountPlacements(steps + [FinalStep(a)]) == CountPlacements(steps)
    ensures forall k :: 0 <= k < |steps| + 1 ==> StepOk(input, (steps + [FinalStep(a)])[k])
  {
    StepsOkAppend(input, steps, FinalStep(a));
    CountsAppend(steps, FinalStep(a));
    StepsOkMeans(input, steps + [FinalStep(a)]);
  }

  method InsertionSortTrace(input: seq<int>) returns (steps: seq<Step>)
    ensures steps != [] && Last(steps) == FinalStep(Last(steps).arr)
    ensures Sorted(Last(steps).arr) && multiset(Last(steps).arr) == multiset(input)
    ensures forall k :: 0 <= k < |steps| ==> StepOk(input, steps[k])
    ensures CountPlacements(steps) == if |input| == 0 then 0 else |input| - 1
  {
    var arr := new int[|input|](k requires 0 <= k < |input| => input[k]);
    assert arr[..] == input;
    steps := [];
    var i := 1;
    while i < arr.Length
      invariant OuterInvariant(arr[..], i, steps, input)
    {
      steps := InsertRound(arr, i, input, steps);
      i := i + 1;
    }
    AscendingIsSorted(arr[..]);
    FinishTrace(arr[..], steps, input);
    steps := steps + [FinalStep(arr[..])];
  }
}
