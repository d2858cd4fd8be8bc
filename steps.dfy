/**
 * The step records that every generator appends to its trace: a full snapshot of the
 * working array, the positions the step is about, and its comparison / swap flags.
 * `found` is present only on the last step of a search. The record field `array` is
 * called `arr` here, since `array` is a Dafny keyword.
 */
module Steps {
  import opened Wrappers

  datatype Step = Step(arr: seq<int>, indices: seq<int>, comparison: bool, swap: bool, found: Option<bool>)

  /** The closing snapshot of a sort: no indices, neither a comparison nor a swap. */
  function FinalStep(arr: seq<int>): Step
  {
    Step(arr, [], false, false, None)
  }

  predicate IsNeutral(s: Step)
  {
    s.indices == [] && !s.comparison && !s.swap
  }

  function Last(steps: seq<Step>): Step
    requires steps != []
  {
    steps[|steps| - 1]
  }

  /** Number of steps flagged as comparisons (what the player adds to its comparison counter). */
  function CountComparisons(steps: seq<Step>): nat
  {
    if steps == [] then 0
    else CountComparisons(steps[..|steps| - 1]) + (if Last(steps).comparison then 1 else 0)
  }

  /** Number of steps flagged as swaps (what the player adds to its swap counter). */
  function CountSwaps(steps: seq<Step>): nat
  {
    if steps == [] then 0
    else CountSwaps(steps[..|steps| - 1]) + (if Last(steps).swap then 1 else 0)
  }

  /** Whether a trace ends with a search reporting the target found. */
  predicate EndsFound(steps: seq<Step>)
  {
    steps != [] && Last(steps).found == Some(true)
  }

  predicate IsPlacement(s: Step)
  {
    s.swap && |s.indices| == 1
  }

  /** Number of placement steps: writes flagged as swaps that name a single position. */
  function CountPlacements(steps: seq<Step>): nat
  {
    if steps == [] then 0
    else CountPlacements(steps[..|steps| - 1]) + (if IsPlacement(Last(steps)) then 1 else 0)
  }

  lemma CountsAppend(steps: seq<Step>, s: Step)
    ensures CountComparisons(steps + [s]) == CountComparisons(steps) + (if s.comparison then 1 else 0)
    ensures CountSwaps(steps + [s]) == CountSwaps(steps) + (if s.swap then 1 else 0)
    ensures CountPlacements(steps + [s]) == CountPlacements(steps) + (if IsPlacement(s) then 1 else 0)
  {
    assert (steps + [s])[..|steps|] == steps;
  }

  /** Every snapshot of the trace has `n` cells. */
  ghost predicate SnapshotsHaveLength(steps: seq<Step>, n: nat)
  {
    forall k :: 0 <= k < |steps| ==> |steps[k].arr| == n
  }

  /** Every snapshot of the trace is a rearrangement of `input`. */
  ghost predicate SnapshotsArePermutations(steps: seq<Step>, input: seq<int>)
  {
    forall k :: 0 <= k < |steps| ==> multiset(steps[k].arr) == multiset(input)
  }
}
