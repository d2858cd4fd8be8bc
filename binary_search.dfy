/**
 * `binarySearch`: halve the window `[left, right]` until its middle cell equals the target
 * or the window is empty. After each halving an update step shows the new window and its
 * middle; once the window is empty those indices can lie outside the array.
 */
module BinarySearch {
  import opened Wrappers
  import opened Ordering
  import opened Steps
  import LinearSearch

  /** The window a probe at `mid` leaves: the right half when `a[mid]` is below the target. */
  function Narrowed(a: seq<int>, t: int, left: int, mid: int, right: int): (int, int)
    requires 0 <= mid < |a|
  {
    if a[mid] < t then (mid + 1, right) else (left, mid - 1)
  }

  /** The step shown before the middle of `[left, right]` is compared with the target. */
  function Window(a: seq<int>, left: int, right: int): Step
  {
    Step(a, [left, (left + right) / 2, right], true, false, None)
  }

  /** The step shown after a halving: the new window, not a comparison. */
  function Update(a: seq<int>, left: int, right: int): Step
  {
    Step(a, [left, (left + right) / 2, right], false, false, None)
  }

  /**
   * The steps the search records from the window `[left, right]` on. `Math.floor` of the
   * halved sum is Dafny's `/` by 2, which also rounds `-1` down to `-1`.
   */
  function BinarySteps(a: seq<int>, t: int, left: int, right: int): (steps: seq<Step>)
    requires 0 <= left <= right + 1 <= |a|
    ensures 1 <= |steps| <= 2 * (right - left + 1) + 1
    decreases right - left + 1
  {
    if left > right then [LinearSearch.NotFound(a)]
    else
      var mid := (left + right) / 2;
      if a[mid] == t then [Window(a, left, right), LinearSearch.FoundAt(a, mid)]
      else
        var (l, r) := Narrowed(a, t, left, mid, right);
        [Window(a, left, right), Update(a, l, r)] + BinarySteps(a, t, l, r)
  }

  /**
   * The search loop. The loop keeps the window `[left, right]` with
   * `0 <= left <= right + 1 <= n`, and the steps recorded so far followed by those the
   * search records from the current window are the whole trace.
   */
  method BinarySearchTrace(arr: seq<int>, target: int) returns (steps: seq<Step>)
    ensures steps == BinarySteps(arr, target, 0, |arr| - 1)
  {
    steps := [];
    var left, right := 0, |arr| - 1;
    while left <= right
      invariant 0 <= left <= right + 1 <= |arr|
      invariant steps + BinarySteps(arr, target, left, right) == BinarySteps(arr, target, 0, |arr| - 1)
      decreases right - left + 1
    {
      ghost var prev, l0, r0 := steps, left, right;
      var mid := (left + right) / 2;
      steps := steps + [Window(arr, left, right)];
      if arr[mid] == target {
        steps := steps + [LinearSearch.FoundAt(arr, mid)];
        assert steps == prev + BinarySteps(arr, target, l0, r0);
        return;
      }
      if arr[mid] < target {
        left := mid + 1;
      } else {
        right := mid - 1;
      }
      steps := steps + [Update(arr, left, right)];
      Probed(arr, target, l0, r0, left, right, prev);
    }
    steps := steps + [LinearSearch.NotFound(arr)];
  }

  /** A probe that misses records the window and the update, then continues from the narrowed window. */
  lemma Probed(a: seq<int>, t: int, left: int, right: int, l: int, r: int, prev: seq<Step>)
    requires 0 <= left <= right < |a| && a[(left + right) / 2] != t
    requires (l, r) == Narrowed(a, t, left, (left + right) / 2, right)
    ensures 0 <= l <= r + 1 <= |a|
    ensures prev + [Window(a, left, right)] + [Update(a, l, r)] + BinarySteps(a, t, l, r)
            == prev + BinarySteps(a, t, left, right)
  {
    assert BinarySteps(a, t, left, right) == [Window(a, left, right), Update(a, l, r)] + BinarySteps(a, t, l, r);
  }

  /**
   * Every step but the last carries no `found` flag; every comparison among them names a
   * window `[left, mid, right]` with `0 <= left <= mid <= right < n`; the last step is
   * a found step on a cell equal to the target, flagged as a comparison, or the not-found
   * step.
   */
  lemma {:induction false} BinaryStepsShape(a: seq<int>, t: int, left: int, right: int)
    requires 0 <= left <= right + 1 <= |a|
    ensures var s := BinarySteps(a, t, left, right);
      && s != []
      && (forall k :: 0 <= k < |s| - 1 ==> s[k].found == None && !s[k].swap)
      && (forall k :: 0 <= k < |s| - 1 && s[k].comparison ==>
            |s[k].indices| == 3 && 0 <= s[k].indices[0] <= s[k].indices[1] <= s[k].indices[2] < |a|)
      && (Last(s).found == Some(true) ==>
            Last(s).comparison && |Last(s).indices| == 1
            && 0 <= Last(s).indices[0] < |a| && a[Last(s).indices[0]] == t)
      && (Last(s).found != Some(true) ==> Last(s) == LinearSearch.NotFound(a))
    decreases right - left + 1
  {
    if left <= right {
      var mid := (left + right) / 2;
      if a[mid] != t {
        var (l, r) := Narrowed(a, t, left, mid, right);
        BinaryStepsShape(a, t, l, r);
        var s := BinarySteps(a, t, left, right);
        var rest := BinarySteps(a, t, l, r);
        assert s == [Window(a, left, right), Update(a, l, r)] + rest;
        forall k | 2 <= k < |s|
          ensures s[k] == rest[k - 2]
        {
        }
      }
    }
  }

  /** Some cell of the window `[left, right]` holds `t`. */
  ghost predicate InWindow(a: seq<int>, t: int, left: int, right: int)
  {
    exists k :: left <= k <= right && 0 <= k < |a| && a[k] == t
  }

  /** A probe that misses ends the same way as the search from the narrowed window. */
  lemma MissEndsAsRest(a: seq<int>, t: int, left: int, right: int)
    requires 0 <= left <= right < |a| && a[(left + right) / 2] != t
    ensures var (l, r) := Narrowed(a, t, left, (left + right) / 2, right);
      EndsFound(BinarySteps(a, t, left, right)) == EndsFound(BinarySteps(a, t, l, r))
  {
  }

  /** On a sorted array, narrowing the window never drops a cell holding the target. */
  lemma NarrowedKeeps(a: seq<int>, t: int, left: int, right: int)
    requires 0 <= left <= right < |a| && Sorted(a) && a[(left + right) / 2] != t
    ensures var (l, r) := Narrowed(a, t, left, (left + right) / 2, right);
      InWindow(a, t, left, right) <==> InWindow(a, t, l, r)
  {
    var mid := (left + right) / 2;
    if InWindow(a, t, left, right) {
      var k :| left <= k <= right && 0 <= k < |a| && a[k] == t;
      if a[mid] < t {
        assert mid < k;
      } else {
        assert k < mid;
      }
    }
  }

  /**
   * On a sorted array the search from `[left, right]` ends found exactly when the target
   * is among the cells of the window.
   */
  lemma {:induction false} BinaryStepsFound(a: seq<int>, t: int, left: int, right: int)
    requires 0 <= left <= right + 1 <= |a| && Sorted(a)
    ensures EndsFound(BinarySteps(a, t, left, right)) <==> InWindow(a, t, left, right)
    decreases right - left + 1
  {
    if left <= right {
      var mid := (left + right) / 2;
      if a[mid] != t {
        var (l, r) := Narrowed(a, t, left, mid, right);
        BinaryStepsFound(a, t, l, r);
        MissEndsAsRest(a, t, left, right);
        NarrowedKeeps(a, t, left, right);
      }
    }
  }

  /**
   * The whole trace of a search on a sorted array ends found exactly when the target is
   * in the array.
   */
  lemma BinarySearchFinds(a: seq<int>, t: int)
    requires Sorted(a)
    ensures EndsFound(BinarySteps(a, t, 0, |a| - 1)) <==> t in a
  {
    BinaryStepsFound(a, t, 0, |a| - 1);
    if t in a {
      var k :| 0 <= k < |a| && a[k] == t;
      assert InWindow(a, t, 0, |a| - 1);
    }
  }

  /**
   * The update step after the last halving can name cells outside the array: on `[1]`
   * with target `0` the window becomes `[0, -1]`, and its middle is `-1`.
   */
  /**
   * Searching `[1, 2, 4, 9]` for 9 probes three windows and then records the found step,
   * which is flagged as a comparison too: the player counts four comparisons.
   */
  lemma NineInFour()
    ensures var s := BinarySteps([1, 2, 4, 9], 9, 0, 3);
      |s| == 6 && CountComparisons(s) == 4 && EndsFound(s) && Last(s).indices == [3]
  {
    var a := [1, 2, 4, 9];
    var s := BinarySteps(a, 9, 0, 3);
    assert BinarySteps(a, 9, 3, 3) == [Window(a, 3, 3), LinearSearch.FoundAt(a, 3)];
    assert BinarySteps(a, 9, 2, 3) == [Window(a, 2, 3), Update(a, 3, 3)] + BinarySteps(a, 9, 3, 3);
    assert s == [Window(a, 0, 3), Update(a, 2, 3)] + BinarySteps(a, 9, 2, 3);
    assert CountComparisons(s[..1]) == 1 by { assert s[..1][..0] == []; }
    assert CountComparisons(s[..2]) == 1 by { assert s[..2][..1] == s[..1]; }
    assert CountComparisons(s[..3]) == 2 by { assert s[..3][..2] == s[..2]; }
    assert CountComparisons(s[..4]) == 2 by { assert s[..4][..3] == s[..3]; }
    assert CountComparisons(s[..5]) == 3 by { assert s[..5][..4] == s[..4]; }
    assert s[..6] == s;
  }

  lemma UpdateOutOfRange()
    ensures BinarySteps([1], 0, 0, 0)[1] == Update([1], 0, -1)
    ensures Update([1], 0, -1).indices == [0, -1, -1]
  {
  }
}
