/**
 * `mergeSort`: the step trace of a top-down merge sort. The recursion sorts a private copy
 * of the array; the closing step snapshots the array the generator was given, which the
 * recursion never touches, so the last step holds the input in its original order.
 */
module MergeSort {
  import opened Wrappers
  import opened Ordering
  import opened Steps
  import opened Segments

  /** Merging two sequences, taking from the left one while its head is `<=` the right head. */
  function MergeSeq(l: seq<int>, r: seq<int>): seq<int>
    decreases |l| + |r|
  {
    if l == [] then r
    else if r == [] then l
    else if l[0] <= r[0] then [l[0]] + MergeSeq(l[1..], r)
    else [r[0]] + MergeSeq(l, r[1..])
  }

  lemma {:induction false} MergeSeqPermutation(l: seq<int>, r: seq<int>)
    ensures |MergeSeq(l, r)| == |l| + |r|
    ensures multiset(MergeSeq(l, r)) == multiset(l) + multiset(r)
    decreases |l| + |r|
  {
    if l == [] || r == [] {
    } else if l[0] <= r[0] {
      MergeSeqPermutation(l[1..], r);
      MergeTakesLeft(l, r);
      HeadMoved(l[0], MergeSeq(l[1..], r), l[1..], r);
      assert [l[0]] + l[1..] == l;
    } else {
      MergeSeqPermutation(l, r[1..]);
      MergeTakesRight(l, r);
      HeadMoved(r[0], MergeSeq(l, r[1..]), r[1..], l);
      assert [r[0]] + r[1..] == r;
    }
  }

  /** Putting `x` in front of a merge of `s` and `t` puts it in front of `s`, as far as multisets go. */
  lemma HeadMoved(x: int, m: seq<int>, s: seq<int>, t: seq<int>)
    requires |m| == |s| + |t| && multiset(m) == multiset(s) + multiset(t)
    ensures |[x] + m| == |[x] + s| + |t| && multiset([x] + m) == multiset([x] + s) + multiset(t)
    ensures multiset([x] + m) == multiset(t) + multiset([x] + s)
  {
  }

  lemma {:induction false} MergeSeqSorted(l: seq<int>, r: seq<int>)
    requires Sorted(l) && Sorted(r)
    ensures Sorted(MergeSeq(l, r))
    ensures MergeSeq(l, r) != [] ==>
              (l != [] && MergeSeq(l, r)[0] == l[0]) || (r != [] && MergeSeq(l, r)[0] == r[0])
    decreases |l| + |r|
  {
    if l == [] || r == [] {
    } else if l[0] <= r[0] {
      var m := MergeSeq(l[1..], r);
      MergeSeqSorted(l[1..], r);
      assert m != [] ==> l[0] <= m[0];
      assert Sorted([l[0]] + m);
    } else {
      var m := MergeSeq(l, r[1..]);
      MergeSeqSorted(l, r[1..]);
      assert m != [] ==> r[0] <= m[0];
      assert Sorted([r[0]] + m);
    }
  }

  /** Merging two ascending sequences gives the ascending sort of their concatenation. */
  lemma MergeSeqIsSort(l: seq<int>, r: seq<int>)
    requires Sorted(l) && Sorted(r)
    ensures MergeSeq(l, r) == SortAsc(l + r)
  {
    MergeSeqSorted(l, r);
    MergeSeqPermutation(l, r);
    SortAscCorrect(l + r);
    SortedPermutationUnique(MergeSeq(l, r), SortAsc(l + r));
  }

  /** With the left head `<=` the right head (or the right side empty), the merge starts with the left head. */
  lemma MergeTakesLeft(l: seq<int>, r: seq<int>)
    requires l != [] && (r == [] || l[0] <= r[0])
    ensures MergeSeq(l, r) == [l[0]] + MergeSeq(l[1..], r)
  {
  }

  /** With the right head smaller (or the left side empty), the merge starts with the right head. */
  lemma MergeTakesRight(l: seq<int>, r: seq<int>)
    requires r != [] && (l == [] || l[0] > r[0])
    ensures MergeSeq(l, r) == [r[0]] + MergeSeq(l, r[1..])
  {
  }

  /** Writing the head `v` of the rest `[v] + m` at `k` moves it onto the written prefix. */
  lemma WriteHead(a: seq<int>, left: nat, k: nat, v: int, m: seq<int>, whole: seq<int>)
    requires left <= k < |a|
    requires a[left..k] + ([v] + m) == whole
    ensures a[k := v][left..k + 1] + m == whole
  {
    assert a[k := v][left..k + 1] == a[left..k] + [v];
  }

  /** Taking the left head extends the merged prefix by that head. */
  lemma TakeLeft(a: seq<int>, left: nat, i: nat, j: nat, l: seq<int>, r: seq<int>, whole: seq<int>)
    requires left + i + j < |a| && i < |l| && j <= |r|
    requires j == |r| || l[i] <= r[j]
    requires a[left..left + i + j] + MergeSeq(l[i..], r[j..]) == whole
    ensures a[left + i + j := l[i]][left..left + i + j + 1] + MergeSeq(l[i + 1..], r[j..]) == whole
  {
    var li, rj := l[i..], r[j..];
    assert li[0] == l[i] && li[1..] == l[i + 1..];
    MergeTakesLeft(li, rj);
    WriteHead(a, left, left + i + j, l[i], MergeSeq(l[i + 1..], rj), whole);
  }

  /** Taking the right head extends the merged prefix by that head. */
  lemma TakeRight(a: seq<int>, left: nat, i: nat, j: nat, l: seq<int>, r: seq<int>, whole: seq<int>)
    requires left + i + j < |a| && i <= |l| && j < |r|
    requires i == |l| || l[i] > r[j]
    requires a[left..left + i + j] + MergeSeq(l[i..], r[j..]) == whole
    ensures a[left + i + j := r[j]][left..left + i + j + 1] + MergeSeq(l[i..], r[j + 1..]) == whole
  {
    var li, rj := l[i..], r[j..];
    assert rj[0] == r[j] && rj[1..] == r[j + 1..];
    MergeTakesRight(li, rj);
    WriteHead(a, left, left + i + j, r[j], MergeSeq(li, r[j + 1..]), whole);
  }

  /**
   * What the three loops of `merge` keep: `k = left + i + j` cells of the merge are written,
   * the rest of the merge is that of the unread parts of `l` and `r`, cells outside
   * `[left, right]` are untouched, one placement step is recorded per written cell and the
   * last step recorded holds the current array.
   */
  ghost predicate MergeInvariant(a: seq<int>, a0: seq<int>, left: nat, right: nat, l: seq<int>, r: seq<int>,
                                 i: nat, j: nat, steps: seq<Step>, p0: nat)
  {
    && right < |a| == |a0|
    && left + |l| + |r| == right + 1
    && i <= |l| && j <= |r|
    && a[..left] == a0[..left] && a[right + 1..] == a0[right + 1..]
    && a[left..left + i + j] + MergeSeq(l[i..], r[j..]) == MergeSeq(l, r)
    && CountPlacements(steps) == p0 + i + j
    && (i + j > 0 ==> steps != [] && Last(steps).arr == a)
  }

  /** Write `v` at `k` and record the placement. */
  method Place(arr: array<int>, k: nat, v: int, steps0: seq<Step>) returns (steps: seq<Step>)
    requires k < arr.Length
    modifies arr
    ensures arr[..] == old(arr[..])[k := v]
    ensures steps == steps0 + [Step(arr[..], [k], false, true, None)]
    ensures CountPlacements(steps) == CountPlacements(steps0) + 1
  {
    arr[k] := v;
    steps := steps0 + [Step(arr[..], [k], false, true, None)];
    CountsAppend(steps0, Step(arr[..], [k], false, true, None));
  }

  lemma PlaceKeeps(a: seq<int>, a0: seq<int>, left: nat, right: nat, k: nat, v: int)
    requires left <= k <= right < |a| == |a0|
    requires a[..left] == a0[..left] && a[right + 1..] == a0[right + 1..]
    ensures a[k := v][..left] == a0[..left] && a[k := v][right + 1..] == a0[right + 1..]
  {
    assert a[k := v][..left] == a[..left];
    assert a[k := v][right + 1..] == a[right + 1..];
  }

  /**
   * Write the next cell of the merge, from the left run when `fromLeft`, from the right
   * one otherwise, and record the placement.
   */
  method Take(arr: array<int>, ghost a0: seq<int>, left: nat, right: nat, l: seq<int>, r: seq<int>,
              i: nat, j: nat, fromLeft: bool, steps0: seq<Step>, ghost p0: nat) returns (steps: seq<Step>)
    requires MergeInvariant(arr[..], a0, left, right, l, r, i, j, steps0, p0)
    requires fromLeft ==> i < |l| && (j == |r| || l[i] <= r[j])
    requires !fromLeft ==> j < |r| && (i == |l| || l[i] > r[j])
    modifies arr
    ensures MergeInvariant(arr[..], a0, left, right, l, r,
                           if fromLeft then i + 1 else i, if fromLeft then j else j + 1, steps, p0)
  {
    var k := left + i + j;
    if fromLeft {
      PlaceKeeps(arr[..], a0, left, right, k, l[i]);
      TakeLeft(arr[..], left, i, j, l, r, MergeSeq(l, r));
      steps := Place(arr, k, l[i], steps0);
    } else {
      PlaceKeeps(arr[..], a0, left, right, k, r[j]);
      TakeRight(arr[..], left, i, j, l, r, MergeSeq(l, r));
      steps := Place(arr, k, r[j], steps0);
    }
  }

  /** The first loop of `merge`: compare the heads and take the smaller, the left one on ties. */
  method MergeHeads(arr: array<int>, ghost a0: seq<int>, left: nat, mid: nat, right: nat, l: seq<int>, r: seq<int>,
                    steps0: seq<Step>, ghost p0: nat) returns (i: nat, j: nat, steps: seq<Step>)
    requires mid + 1 == left + |l|
    requires MergeInvariant(arr[..], a0, left, right, l, r, 0, 0, steps0, p0)
    modifies arr
    ensures MergeInvariant(arr[..], a0, left, right, l, r, i, j, steps, p0)
    ensures i == |l| || j == |r|
  {
    i, j := 0, 0;
    steps := steps0;
    while i < |l| && j < |r|
      invariant MergeInvariant(arr[..], a0, left, right, l, r, i, j, steps, p0)
      decreases |l| + |r| - i - j
    {
      var cmp := Step(arr[..], [left + i, mid + 1 + j], true, false, None);
      CountsAppend(steps, cmp);
      steps := steps + [cmp];
      var fromLeft := l[i] <= r[j];
      steps := Take(arr, a0, left, right, l, r, i, j, fromLeft, steps, p0);
      if fromLeft {
        i := i + 1;
      } else {
        j := j + 1;
      }
    }
  }

  /** The last two loops of `merge`: copy what is left of either run. */
  method Drain(arr: array<int>, ghost a0: seq<int>, left: nat, right: nat, l: seq<int>, r: seq<int>,
               i0: nat, j0: nat, steps0: seq<Step>, ghost p0: nat) returns (steps: seq<Step>)
    requires MergeInvariant(arr[..], a0, left, right, l, r, i0, j0, steps0, p0)
    requires i0 == |l| || j0 == |r|
    modifies arr
    ensures MergeInvariant(arr[..], a0, left, right, l, r, |l|, |r|, steps, p0)
  {
    var i, j := i0, j0;
    steps := steps0;
    while i < |l|
      invariant MergeInvariant(arr[..], a0, left, right, l, r, i, j, steps, p0)
      invariant i < |l| ==> j == |r|
      decreases |l| - i
    {
      steps := Take(arr, a0, left, right, l, r, i, j, true, steps, p0);
      i := i + 1;
    }
    while j < |r|
      invariant MergeInvariant(arr[..], a0, left, right, l, r, i, j, steps, p0)
      invariant i == |l|
      decreases |r| - j
    {
      steps := Take(arr, a0, left, right, l, r, i, j, false, steps, p0);
      j := j + 1;
    }
  }

  /**
   * `merge(arr, left, mid, right)`: merge the runs `arr[left..mid]` and `arr[mid + 1..right]`
   * through their copies `L` and `R`, recording one comparison step per head comparison and
   * one placement step per written cell.
   */
  method Merge(arr: array<int>, left: nat, mid: nat, right: nat, steps0: seq<Step>) returns (steps: seq<Step>)
    requires left <= mid < right < arr.Length
    modifies arr
    ensures MergedRuns(old(arr[..]), arr[..], left, mid, right)
    ensures CountPlacements(steps) == CountPlacements(steps0) + (right - left + 1)
    ensures steps != [] && Last(steps).arr == arr[..]
  {
    ghost var a0 := arr[..];
    var l, r := arr[left..mid + 1], arr[mid + 1..right + 1];
    ghost var p0 := CountPlacements(steps0);
    assert l[0..] == l && r[0..] == r;
    var i, j;
    i, j, steps := MergeHeads(arr, a0, left, mid, right, l, r, steps0, p0);
    steps := Drain(arr, a0, left, right, l, r, i, j, steps, p0);
    MergeDone(arr[..], a0, left, right, l, r, steps, p0);
  }

  /** `after` is `before` with the runs `[left, mid]` and `[mid + 1, right]` merged in place. */
  ghost predicate MergedRuns(before: seq<int>, after: seq<int>, left: nat, mid: nat, right: nat)
  {
    && left <= mid < right < |before|
    && after == before[..left] + MergeSeq(before[left..mid + 1], before[mid + 1..right + 1]) + before[right + 1..]
  }

  lemma MergeDone(a: seq<int>, a0: seq<int>, left: nat, right: nat, l: seq<int>, r: seq<int>,
                  steps: seq<Step>, p0: nat)
    requires MergeInvariant(a, a0, left, right, l, r, |l|, |r|, steps, p0)
    ensures a == a0[..left] + MergeSeq(l, r) + a0[right + 1..]
  {
    assert a[left..right + 1] == MergeSeq(l, r);
    assert a == a[..left] + a[left..right + 1] + a[right + 1..];
  }

  lemma MergedIsSpliced(before: seq<int>, after: seq<int>, left: nat, mid: nat, right: nat)
    requires MergedRuns(before, after, left, mid, right)
    ensures |MergeSeq(before[left..mid + 1], before[mid + 1..right + 1])| == right + 1 - left
    ensures after == Spliced(before, left, right + 1, MergeSeq(before[left..mid + 1], before[mid + 1..right + 1]))
  {
    MergeSeqPermutation(before[left..mid + 1], before[mid + 1..right + 1]);
  }

  /** Merging the sorts of two sequences sorts their concatenation. */
  lemma MergeOfSorts(x: seq<int>, y: seq<int>)
    ensures MergeSeq(SortAsc(x), SortAsc(y)) == SortAsc(x + y)
  {
    SortAscCorrect(x);
    SortAscCorrect(y);
    MergeSeqSorted(SortAsc(x), SortAsc(y));
    MergeSeqPermutation(SortAsc(x), SortAsc(y));
    SortAscUnique(MergeSeq(SortAsc(x), SortAsc(y)), x + y);
  }

  /** After both recursive calls, the halves of the segment hold their sorts. */
  lemma HalvesSorted(a0: seq<int>, a1: seq<int>, a2: seq<int>, left: nat, mid: nat, right: nat)
    requires left <= mid < right < |a0|
    requires SortedSegment(a0, a1, left, mid)
    requires SortedSegment(a1, a2, mid + 1, right)
    ensures |a2| == |a0|
    ensures a2[left..mid + 1] == SortAsc(a0[left..mid + 1])
    ensures a2[mid + 1..right + 1] == SortAsc(a0[mid + 1..right + 1])
    ensures forall k :: 0 <= k < |a2| && !(left <= k < right + 1) ==> a2[k] == a0[k]
  {
    var x, y := a0[left..mid + 1], a0[mid + 1..right + 1];
    SplicedOutside(a0, left, mid + 1, SortAsc(x), mid + 1, right + 1);
    SplicedInside(a0, left, mid + 1, SortAsc(x));
    SplicedOutside(a1, mid + 1, right + 1, SortAsc(y), left, mid + 1);
    SplicedInside(a1, mid + 1, right + 1, SortAsc(y));
    forall k | 0 <= k < |a2| && !(left <= k < right + 1)
      ensures a2[k] == a0[k]
    {
      assert a2[k] == a1[k];
    }
  }

  /**
   * The two recursive calls and the merge of one level of `mergeSortHelper`, on values:
   * sorting both halves and merging them sorts the segment.
   */
  lemma HelperStep(a0: seq<int>, a1: seq<int>, a2: seq<int>, a3: seq<int>, left: nat, mid: nat, right: nat)
    requires left <= mid < right < |a0|
    requires SortedSegment(a0, a1, left, mid)
    requires SortedSegment(a1, a2, mid + 1, right)
    requires MergedRuns(a2, a3, left, mid, right)
    ensures SortedSegment(a0, a3, left, right)
  {
    MergedIsSpliced(a2, a3, left, mid, right);
    HalvesSorted(a0, a1, a2, left, mid, right);
    var x, y := a0[left..mid + 1], a0[mid + 1..right + 1];
    MergeOfSorts(x, y);
    assert a0[left..right + 1] == x + y;
    SplicedAgree(a2, a0, left, right + 1, SortAsc(x + y));
  }

  /**
   * `mergeSortHelper(arr, left, right)`: sort the segment `[left, right]` of `arr` by
   * sorting both halves and merging them. Cells outside the segment are untouched.
   */
  method MergeSortHelper(arr: array<int>, left: nat, right: int, steps0: seq<Step>) returns (steps: seq<Step>)
    requires left <= right + 1 && right < arr.Length
    modifies arr
    ensures SortedSegment(old(arr[..]), arr[..], left, right)
    ensures left < right ==> CountPlacements(steps) > CountPlacements(steps0)
    ensures left < right ==> steps != [] && Last(steps).arr == arr[..]
    ensures right <= left ==> steps == steps0
    decreases right - left, 1
  {
    if left < right {
      ghost var a0 := arr[..];
      var mid := (left + right) / 2;
      steps := MergeSortHelper(arr, left, mid, steps0);
      steps := SortRightAndMerge(arr, a0, left, mid, right, steps);
    } else {
      ShortSegment(arr[..], left, right);
      steps := steps0;
    }
  }

  /** The second recursive call of `mergeSortHelper` and the merge after it, once the left half is sorted. */
  method SortRightAndMerge(arr: array<int>, ghost a0: seq<int>, left: nat, mid: nat, right: nat, steps0: seq<Step>)
    returns (steps: seq<Step>)
    requires left <= mid < right < arr.Length
    requires SortedSegment(a0, arr[..], left, mid)
    modifies arr
    ensures SortedSegment(a0, arr[..], left, right)
    ensures CountPlacements(steps) > CountPlacements(steps0)
    ensures steps != [] && Last(steps).arr == arr[..]
    decreases right - left, 0
  {
    ghost var a1 := arr[..];
    steps := MergeSortHelper(arr, mid + 1, right, steps0);
    ghost var a2 := arr[..];
    steps := Merge(arr, left, mid, right, steps);
    HelperStep(a0, a1, a2, arr[..], left, mid, right);
  }

  /**
   * `mergeSort`: sort a copy of the input, then close the trace with a snapshot of the
   * input itself. For two or more cells the step before the last holds the sorted array;
   * the last holds the input unchanged.
   */
  method MergeSortTrace(input: seq<int>) returns (steps: seq<Step>)
    ensures steps != [] && Last(steps) == FinalStep(input)
    ensures |input| >= 2 ==> |steps| >= 2 && steps[|steps| - 2].arr == SortAsc(input)
    ensures |input| >= 2 ==> Sorted(steps[|steps| - 2].arr) && multiset(steps[|steps| - 2].arr) == multiset(input)
    ensures |input| < 2 ==> steps == [FinalStep(input)]
  {
    var copy := new int[|input|](k requires 0 <= k < |input| => input[k]);
    assert copy[..] == input;
    steps := MergeSortHelper(copy, 0, |input| - 1, []);
    FinishTrace(input, copy[..], steps);
    steps := steps + [FinalStep(input)];
  }

  /** The recursion's result on the whole copy is the ascending sort of the input, on display in the last step it recorded. */
  lemma FinishTrace(input: seq<int>, a: seq<int>, steps: seq<Step>)
    requires SortedSegment(input, a, 0, |input| - 1)
    requires |input| >= 2 ==> steps != [] && Last(steps).arr == a
    requires |input| < 2 ==> steps == []
    ensures var all := steps + [FinalStep(input)];
      && (|input| >= 2 ==> |all| >= 2 && all[|all| - 2].arr == SortAsc(input)
                           && Sorted(all[|all| - 2].arr) && multiset(all[|all| - 2].arr) == multiset(input))
      && (|input| < 2 ==> all == [FinalStep(input)])
  {
    assert input[0..|input|] == input;
    SortAscCorrect(input);
    if |input| >= 2 {
      var all := steps + [FinalStep(input)];
      assert all[|all| - 2] == Last(steps);
    }
  }
}
