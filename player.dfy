/**
 * The algorithm page's player: `resetArray`, `startVisualization`, `pauseVisualization`
 * and the interval tick that plays a trace one step per firing. The React state record
 * is the value `View`; the variables the handlers and the interval share are the fields
 * of `Player`.
 */
module Playback {
  import opened Wrappers
  import opened Ordering
  import opened Steps
  import Dispatch

  /** The displayed state: progress in percent, the counters, the current snapshot. */
  datatype View = View(progress: int, comparisons: nat, swaps: nat,
                       currentArray: seq<int>, currentIndices: seq<int>, completed: bool)

  /** The state `resetArray` installs for a new array. */
  function Initial(arr: seq<int>): View
  {
    View(0, 0, 0, arr, [], false)
  }

  /**
   * The progress shown at step `k`: the percentage nearest to the exact fraction
   * `100 k / total`, halves rounded up. The page rounds the floating-point product
   * `(k / total) * 100` instead, which can be one less when that product falls just
   * below a half.
   */
  function Progress(k: nat, total: nat): (r: int)
    requires k < total
    ensures 2 * total * r - total <= 200 * k < 2 * total * r + total
    ensures 0 <= r <= 100
  {
    var n, d := 200 * k + total, 2 * total;
    assert n == d * (n / d) + n % d && 0 <= n % d < d;
    assert n / d <= 100 by {
      if n / d > 100 {
        MulMonotone(d, 101, n / d);
      }
    }
    n / d
  }

  /** A step's progress is below 100 exactly when `k` is below 99.5 percent of the trace. */
  lemma ProgressBelowHundred(k: nat, total: nat)
    requires k < total
    ensures Progress(k, total) < 100 <==> 200 * k < 199 * total
  {
    var r := Progress(k, total);
    if r < 100 {
      MulMonotone(2 * total, r, 99);
    } else {
      MulMonotone(2 * total, 100, r);
    }
  }

  /** Progress never goes down as the steps are consumed. */
  lemma ProgressMonotone(k1: nat, k2: nat, total: nat)
    requires k1 <= k2 < total
    ensures Progress(k1, total) <= Progress(k2, total)
  {
    DivMonotone(200 * k1 + total, 200 * k2 + total, 2 * total);
  }

  lemma DivMonotone(a: nat, b: nat, d: nat)
    requires a <= b && 0 < d
    ensures a / d <= b / d
  {
    var q1, q2 := a / d, b / d;
    assert a == d * q1 + a % d && b == d * q2 + b % d;
    if q2 < q1 {
      MulMonotone(d, q2 + 1, q1);
    }
  }

  lemma MulMonotone(d: nat, x: nat, y: nat)
    requires x <= y
    ensures d * x <= d * y
  {
    assert d * y == d * x + d * (y - x);
  }

  /**
   * In a trace of 200 steps, consuming the last one already shows 100 percent, one tick
   * before the run is marked completed.
   */
  lemma EarlyHundred()
    ensures Progress(199, 200) == 100
  {
  }

  /** The updater of a tick that consumes step `k` of `total`. */
  function Consume(v: View, s: Step, k: nat, total: nat): View
    requires k < total
  {
    v.(progress := Progress(k, total),
       comparisons := v.comparisons + (if s.comparison then 1 else 0),
       swaps := v.swaps + (if s.swap then 1 else 0),
       currentArray := s.arr,
       currentIndices := s.indices)
  }

  /** The updater of the extra tick after the last step. */
  function Complete(v: View): View
  {
    v.(progress := 100, completed := true)
  }

  /** The view after consuming `steps[lo..hi]` one tick at a time, starting from `v`. */
  function Replay(v: View, steps: seq<Step>, lo: nat, hi: nat): View
    requires lo <= hi <= |steps|
    decreases hi - lo
  {
    if hi == lo then v else Consume(Replay(v, steps, lo, hi - 1), steps[hi - 1], hi - 1, |steps|)
  }

  /**
   * Consuming `steps[lo..hi]` adds the trace's comparison and swap flags to the counters,
   * leaves the last consumed snapshot and indices on display with that step's progress,
   * and never marks the run completed.
   */
  lemma {:induction false} ReplayMeans(v: View, steps: seq<Step>, lo: nat, hi: nat)
    requires lo <= hi <= |steps|
    ensures var r := Replay(v, steps, lo, hi);
      && r.comparisons == v.comparisons + CountComparisons(steps[lo..hi])
      && r.swaps == v.swaps + CountSwaps(steps[lo..hi])
      && r.completed == v.completed
      && (lo < hi ==> r.currentArray == steps[hi - 1].arr && r.currentIndices == steps[hi - 1].indices
                      && r.progress == Progress(hi - 1, |steps|))
      && (lo == hi ==> r == v)
    decreases hi - lo
  {
    if lo < hi {
      ReplayMeans(v, steps, lo, hi - 1);
      CountsAppend(steps[lo..hi - 1], steps[hi - 1]);
      assert steps[lo..hi - 1] + [steps[hi - 1]] == steps[lo..hi];
    }
  }

  /** Replaying a short trace keeps the progress below 100 on every step. */
  lemma ShortTraceBelowHundred(v: View, steps: seq<Step>, hi: nat)
    requires 0 < hi <= |steps| < 200
    ensures Replay(v, steps, 0, hi).progress < 100
  {
    ReplayMeans(v, steps, 0, hi);
    ProgressBelowHundred(hi - 1, |steps|);
  }

  class Player {
    /** Whether the page is a sorting page, and the key of its algorithm. */
    const sorting: bool
    const key: string
    var values: seq<int>
    var searchTarget: Option<int>
    var isRunning: bool
    var isPaused: bool
    var view: View
    /** The trace the scheduled interval plays, and its position in it. */
    var steps: seq<Step>
    var stepIndex: nat
    /** Whether an interval is scheduled. */
    var ticking: bool

    ghost predicate Valid()
      reads this
    {
      stepIndex <= |steps|
    }

    /** The page before its first `resetArray`: no array, nothing scheduled. */
    constructor(sorting: bool, key: string)
      ensures Valid()
      ensures this.sorting == sorting && this.key == key
      ensures values == [] && searchTarget == None && view == Initial([])
      ensures !isRunning && !isPaused && !ticking && steps == [] && stepIndex == 0
    {
      this.sorting := sorting;
      this.key := key;
      values := [];
      searchTarget := None;
      isRunning := false;
      isPaused := false;
      view := Initial([]);
      steps := [];
      stepIndex := 0;
      ticking := false;
    }

    /**
     * `resetArray` with the drawn array `drawn` and, on a searching page, the drawn
     * position `pick` of the new target. A binary-search page sorts the array first. A
     * scheduled interval is not cleared and keeps playing its trace.
     */
    method Reset(drawn: seq<int>, pick: nat)
      requires Valid()
      requires !sorting ==> pick < |drawn|
      modifies this
      ensures Valid()
      ensures values == if !sorting && key == "binarySearch" then SortAsc(drawn) else drawn
      ensures multiset(values) == multiset(drawn)
      ensures searchTarget == if sorting then old(searchTarget) else Some(values[pick])
      ensures view == Initial(values)
      ensures !isRunning && !isPaused
      ensures steps == old(steps) && stepIndex == old(stepIndex) && ticking == old(ticking)
    {
      var arr := drawn;
      if !sorting && key == "binarySearch" {
        SortAscCorrect(drawn);
        arr := SortAsc(drawn);
      }
      values := arr;
      if !sorting {
        searchTarget := Some(arr[pick]);
      }
      view := Initial(arr);
      isRunning := false;
      isPaused := false;
    }

    /**
     * `startVisualization`: when paused, only clear the pause; otherwise generate the trace
     * for a copy of the array and schedule an interval that plays it from the start.
     */
    method Start()
      requires Valid()
      modifies this
      ensures Valid()
      ensures old(isPaused) ==> !isPaused && isRunning == old(isRunning) && view == old(view)
                                && steps == old(steps) && stepIndex == old(stepIndex) && ticking == old(ticking)
      ensures !old(isPaused) ==> isRunning && !isPaused && ticking && stepIndex == 0 && view == old(view)
                                 && Dispatch.TraceOf(sorting, key, values, searchTarget, steps)
      ensures values == old(values) && searchTarget == old(searchTarget)
    {
      if isPaused {
        isPaused := false;
        return;
      }
      isRunning := true;
      steps := Dispatch.GenerateTrace(sorting, key, values, searchTarget);
      stepIndex := 0;
      ticking := true;
    }

    /** `pauseVisualization`: sets the flag, which the scheduled interval never reads. */
    method Pause()
      requires Valid()
      modifies this
      ensures Valid()
      ensures isPaused
      ensures isRunning == old(isRunning) && view == old(view) && ticking == old(ticking)
      ensures steps == old(steps) && stepIndex == old(stepIndex)
    {
      isPaused := true;
    }

    /**
     * One firing of the interval: consume the next step, or, after the last, show 100
     * percent, mark the run completed and clear the interval. The pause flag the interval
     * tests is the one captured when it was scheduled, which is always unset, so a pause
     * does not stop it.
     */
    method Tick()
      requires Valid() && ticking
      modifies this
      ensures Valid()
      ensures old(stepIndex) < |steps| ==>
                && view == Consume(old(view), steps[old(stepIndex)], old(stepIndex), |steps|)
                && stepIndex == old(stepIndex) + 1 && ticking && isRunning == old(isRunning)
      ensures old(stepIndex) == |steps| ==>
                view == Complete(old(view)) && stepIndex == old(stepIndex) && !ticking && !isRunning
      ensures steps == old(steps) && isPaused == old(isPaused)
      ensures values == old(values) && searchTarget == old(searchTarget)
    {
      if stepIndex < |steps| {
        view := Consume(view, steps[stepIndex], stepIndex, |steps|);
        stepIndex := stepIndex + 1;
      } else {
        view := Complete(view);
        ticking := false;
        isRunning := false;
      }
    }

    /**
     * The interval firing until it clears itself, with no handler running in between: the
     * view ends completed at 100 percent with the remaining steps replayed onto it.
     */
    method RunInterval()
      requires Valid() && ticking
      modifies this
      ensures steps == old(steps) && isPaused == old(isPaused)
      ensures Valid() && !ticking && !isRunning && stepIndex == |steps|
      ensures view == Complete(Replay(old(view), steps, old(stepIndex), |steps|))
    {
      ghost var v0, k0 := view, stepIndex;
      while ticking
        invariant Valid() && k0 <= stepIndex
        invariant steps == old(steps) && isPaused == old(isPaused)
        invariant ticking ==> view == Replay(v0, steps, k0, stepIndex)
        invariant !ticking ==> stepIndex == |steps| && !isRunning
                               && view == Complete(Replay(v0, steps, k0, |steps|))
        decreases ticking, |steps| - stepIndex
      {
        Tick();
      }
    }
  }

  /**
   * Playing a whole trace from a reset view (zero counters, as `resetArray` leaves it) ends
   * with the counters equal to the trace's comparison and swap counts, completed at 100
   * percent; an empty trace completes on the first tick with nothing counted.
   */
  lemma PlayedToEnd(v: View, steps: seq<Step>)
    requires v.comparisons == 0 && v.swaps == 0
    ensures var r := Complete(Replay(v, steps, 0, |steps|));
      && r.completed && r.progress == 100
      && r.comparisons == CountComparisons(steps) && r.swaps == CountSwaps(steps)
      && (steps != [] ==> r.currentArray == Last(steps).arr)
      && (steps == [] ==> r.currentArray == v.currentArray)
  {
    ReplayMeans(v, steps, 0, |steps|);
    assert steps[0..|steps|] == steps;
  }
}
