/**
 * `linearSearch`: probe the cells from the left until one equals the target. The array is
 * never written, so every snapshot is the input itself.
 */
module LinearSearch {
  import opened Wrappers
  import opened Steps

  /** The position of the first cell equal to `t`, if there is one. */
  function FirstIndex(a: seq<int>, t: int): (r: Option<nat>)
    ensures r.Some? ==> r.value < |a| && a[r.value] == t && forall k :: 0 <= k < r.value ==> a[k] != t
    ensures r.None? <==> t !in a
  {
    if a == [] then None
    else if a[0] == t then Some(0)
    else match FirstIndex(a[1..], t)
      case None => None
      case Some(p) => Some(p + 1)
  }

  /** A first equal cell, however found, is the one `FirstIndex` names. */
  lemma FirstIndexIs(a: seq<int>, t: int, p: nat)
    requires p < |a| && a[p] == t
    requires forall k :: 0 <= k < p ==> a[k] != t
    ensures FirstIndex(a, t) == Some(p)
  {
    assert t in a;
  }

  /** The step recorded before cell `i` is compared with the target. */
  function Probe(a: seq<int>, i: int): Step
  {
    Step(a, [i], true, false, None)
  }

  /** The closing step of a search that found the target at `i`; it is flagged a comparison too. */
  function FoundAt(a: seq<int>, i: int): Step
  {
    Step(a, [i], true, false, Some(true))
  }

  /** The closing step of a search that did not find the target. */
  function NotFound(a: seq<int>): Step
  {
    Step(a, [], false, false, Some(false))
  }

  /**
   * The trace probes cells `0 .. p` where `p` is the first cell equal to the target and
   * closes with a found step at `p`, so it holds `p + 2` comparisons; when no cell
   * matches, it probes all `n` cells and closes with a not-found step.
   */
  method LinearSearchTrace(arr: seq<int>, target: int) returns (steps: seq<Step>)
    ensures match FirstIndex(arr, target)
      case Some(p) =>
        && |steps| == p + 2
        && (forall k :: 0 <= k <= p ==> steps[k] == Probe(arr, k))
        && steps[p + 1] == FoundAt(arr, p)
        && CountComparisons(steps) == p + 2
      case None =>
        && |steps| == |arr| + 1
        && (forall k :: 0 <= k < |arr| ==> steps[k] == Probe(arr, k))
        && steps[|arr|] == NotFound(arr)
        && CountComparisons(steps) == |arr|
    ensures CountSwaps(steps) == 0
  {
    steps := [];
    var i := 0;
    while i < |arr|
      invariant 0 <= i <= |arr| && |steps| == i
      invariant forall k :: 0 <= k < i ==> steps[k] == Probe(arr, k) && arr[k] != target
      invariant CountComparisons(steps) == i && CountSwaps(steps) == 0
    {
      CountsAppend(steps, Probe(arr, i));
      steps := steps + [Probe(arr, i)];
      if arr[i] == target {
        FirstIndexIs(arr, target, i);
        CountsAppend(steps, FoundAt(arr, i));
        steps := steps + [FoundAt(arr, i)];
        return;
      }
      i := i + 1;
    }
    assert target !in arr;
    CountsAppend(steps, NotFound(arr));
    steps := steps + [NotFound(arr)];
  }
}
