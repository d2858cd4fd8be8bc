/**
 * The race page's handlers over the state they share: the page kind, the array, the
 * selection, the per-algorithm entries, the target, the running and paused flags, and the
 * scheduled interval with what it captured when the race started.
 */
module RacePage {
  import opened Wrappers
  import opened Ordering
  import opened Race

  class Page {
    var sorting: bool
    var values: seq<int>
    var speed: int
    var selected: seq<string>
    var states: map<string, Entry>
    var searchTarget: Option<int>
    var isRunning: bool
    var isPaused: bool
    /** Whether an interval is scheduled, and the selection, kind and speed it captured. */
    var ticking: bool
    var raceSelected: seq<string>
    var raceSorting: bool
    var raceSpeed: int

    ghost predicate Valid()
      reads this
    {
      && 10 <= speed <= 100
      && 0 <= raceSpeed
      && AllCoherent(states)
      && NoDuplicates(selected)
      && (forall i :: 0 <= i < |selected| ==> selected[i] in TableKeys(sorting))
      && NoDuplicates(raceSelected)
    }

    /** The page before its first `resetArray`: a sorting page at speed 50, nothing selected. */
    constructor()
      ensures Valid()
      ensures sorting && values == [] && speed == 50 && selected == [] && states == map[]
      ensures searchTarget == None && !isRunning && !isPaused && !ticking
    {
      sorting := true;
      values := [];
      speed := 50;
      selected := [];
      states := map[];
      searchTarget := None;
      isRunning := false;
      isPaused := false;
      ticking := false;
      raceSelected := [];
      raceSorting := true;
      raceSpeed := 50;
    }

    /**
     * `resetArray` with the drawn array `drawn` and, on a searching page, the drawn target
     * position `pick`: the array is sorted first when binary search is selected on a
     * searching page, and every algorithm of the page's table gets a fresh entry. A
     * scheduled interval is not cleared.
     */
    method ResetArray(drawn: seq<int>, pick: nat)
      requires Valid()
      requires !sorting ==> pick < |drawn|
      modifies this
      ensures sorting == old(sorting) && selected == old(selected) && speed == old(speed)
      ensures Valid()
      ensures values == if !sorting && "binarySearch" in selected then SortAsc(drawn) else drawn
      ensures |values| == |drawn| && multiset(values) == multiset(drawn)
      ensures searchTarget == if sorting then old(searchTarget) else Some(values[pick])
      ensures states.Keys == set k | k in TableKeys(sorting)
      ensures forall k :: k in states ==> states[k] == Fresh(values)
      ensures !isRunning && !isPaused
      ensures ticking == old(ticking) && raceSelected == old(raceSelected)
      ensures raceSorting == old(raceSorting) && raceSpeed == old(raceSpeed)
    {
      var arr := drawn;
      if !sorting && "binarySearch" in selected {
        SortAscCorrect(drawn);
        arr := SortAsc(drawn);
      }
      values := arr;
      if !sorting {
        searchTarget := Some(arr[pick]);
      }
      states := InitialStates(TableKeys(sorting), arr);
      isRunning := false;
      isPaused := false;
    }

    /**
     * `toggleAlgorithm`: a selected name is removed, another is appended; selecting binary
     * search on a searching page sorts the array and shows it in every entry.
     */
    method Toggle(name: string)
      requires Valid() && name in TableKeys(sorting)
      modifies this
      ensures Valid()
      ensures selected == Toggled(old(selected), name)
      ensures name !in old(selected) && !sorting && name == "binarySearch" ==>
                values == SortAsc(old(values)) && states == ShowingArray(old(states), values)
      ensures !(name !in old(selected) && !sorting && name == "binarySearch") ==>
                values == old(values) && states == old(states)
      ensures sorting == old(sorting) && speed == old(speed) && searchTarget == old(searchTarget)
      ensures isRunning == old(isRunning) && isPaused == old(isPaused) && ticking == old(ticking)
      ensures raceSelected == old(raceSelected) && raceSorting == old(raceSorting) && raceSpeed == old(raceSpeed)
    {
      ToggleKeepsNoDuplicates(selected, name);
      ToggledInTable(selected, name, TableKeys(sorting));
      var sorts := name !in selected && !sorting && name == "binarySearch";
      selected := Toggled(selected, name);
      if sorts {
        var sorted := SortAsc(values);
        values := sorted;
        ShowingArrayCoherent(states, sorted);
        states := ShowingArray(states, sorted);
      }
    }

    /**
     * `startRace`: when paused, only clear the pause; with nothing selected, do nothing;
     * otherwise schedule an interval that captures the selection, the page kind and the
     * speed.
     */
    method StartRace()
      requires Valid()
      modifies this
      ensures Valid()
      ensures old(isPaused) ==> !isPaused && isRunning == old(isRunning) && ticking == old(ticking)
                                && raceSelected == old(raceSelected) && raceSpeed == old(raceSpeed)
                                && raceSorting == old(raceSorting)
      ensures !old(isPaused) && old(selected) == [] ==>
                isRunning == old(isRunning) && ticking == old(ticking) && raceSelected == old(raceSelected)
                && raceSpeed == old(raceSpeed) && raceSorting == old(raceSorting)
      ensures !old(isPaused) && old(selected) != [] ==>
                isRunning && ticking && raceSelected == selected && raceSorting == sorting && raceSpeed == speed
      ensures !old(isPaused) ==> isPaused == old(isPaused)
      ensures sorting == old(sorting) && values == old(values) && speed == old(speed)
      ensures selected == old(selected) && states == old(states) && searchTarget == old(searchTarget)
    {
      if isPaused {
        isPaused := false;
        return;
      }
      if |selected| == 0 {
        return;
      }
      isRunning := true;
      ticking := true;
      raceSelected := selected;
      raceSorting := sorting;
      raceSpeed := speed;
    }

    /** `pauseRace`: sets the flag only; the scheduled interval keeps firing. */
    method PauseRace()
      requires Valid()
      modifies this
      ensures Valid()
      ensures isPaused
      ensures isRunning == old(isRunning) && ticking == old(ticking) && states == old(states)
      ensures raceSelected == old(raceSelected) && raceSpeed == old(raceSpeed) && raceSorting == old(raceSorting)
      ensures sorting == old(sorting) && values == old(values) && speed == old(speed)
      ensures selected == old(selected) && searchTarget == old(searchTarget)
    {
      isPaused := true;
    }

    /**
     * One firing of the race's interval with the draws of each captured algorithm. When a
     * captured name has no entry (the page kind changed since the race started, and the
     * effect rebuilt the entries for the other table) the updater throws and nothing
     * changes (`threw`). Otherwise the entries advance, and the interval is cleared exactly
     * when every captured algorithm is completed afterwards.
     */
    method Tick(draws: seq<Draws>) returns (threw: bool)
      requires Valid() && ticking
      requires |draws| == |raceSelected|
      requires forall i :: 0 <= i < |draws| ==> ValidDraws(draws[i])
      modifies this
      ensures raceSelected == old(raceSelected) && raceSpeed == old(raceSpeed) && raceSorting == old(raceSorting)
      ensures Valid()
      ensures threw <==> FirstMissing(raceSelected, old(states)).Some?
      ensures threw ==> states == old(states) && ticking && isRunning == old(isRunning)
      ensures !threw ==> states == TickRound(old(states), raceSelected, raceSorting, raceSpeed, draws).0
      ensures !threw ==> (!ticking <==> forall i :: 0 <= i < |raceSelected| ==>
                            raceSelected[i] in states && states[raceSelected[i]].completed)
      ensures !ticking ==> !isRunning
      ensures ticking ==> isRunning == old(isRunning)
      ensures sorting == old(sorting) && values == old(values) && speed == old(speed)
      ensures selected == old(selected) && searchTarget == old(searchTarget) && isPaused == old(isPaused)
    {
      var newStates, allCompleted;
      newStates, allCompleted, threw := RaceTick(states, raceSelected, raceSorting, raceSpeed, draws);
      if threw {
        return;
      }
      TickOutcome(states, raceSelected, raceSorting, raceSpeed, draws, newStates, allCompleted);
      Settle(newStates, allCompleted);
    }

    /** Stores the advanced entries and, when every captured algorithm is completed, clears the interval. */
    method Settle(newStates: map<string, Entry>, allCompleted: bool)
      requires Valid() && AllCoherent(newStates)
      modifies this
      ensures states == newStates
      ensures ticking == (old(ticking) && !allCompleted)
      ensures isRunning == (old(isRunning) && !allCompleted)
      ensures Valid()
      ensures raceSelected == old(raceSelected) && raceSpeed == old(raceSpeed) && raceSorting == old(raceSorting)
      ensures sorting == old(sorting) && values == old(values) && speed == old(speed)
      ensures selected == old(selected) && searchTarget == old(searchTarget) && isPaused == old(isPaused)
    {
      states := newStates;
      if allCompleted {
        ticking := false;
        isRunning := false;
      }
    }

    /**
     * `handleCustomInput`: the submitted list becomes the array, sorted when binary search
     * is selected on a searching page (the list is sorted in place after being stored, so
     * the stored array is sorted too), and every algorithm gets a fresh entry.
     */
    method HandleCustomInput(input: seq<int>)
      requires Valid()
      modifies this
      ensures Valid()
      ensures values == if !sorting && "binarySearch" in selected then SortAsc(input) else input
      ensures states.Keys == set k | k in TableKeys(sorting)
      ensures forall k :: k in states ==> states[k] == Fresh(values)
      ensures !isRunning && !isPaused
      ensures sorting == old(sorting) && selected == old(selected) && speed == old(speed)
      ensures searchTarget == old(searchTarget) && ticking == old(ticking)
      ensures raceSelected == old(raceSelected) && raceSpeed == old(raceSpeed) && raceSorting == old(raceSorting)
    {
      var arr := input;
      if !sorting && "binarySearch" in selected {
        arr := SortAsc(input);
      }
      values := arr;
      states := InitialStates(TableKeys(sorting), arr);
      isRunning := false;
      isPaused := false;
    }

    /** `handleSearchTargetChange`. */
    method SetSearchTarget(target: int)
      requires Valid()
      modifies this
      ensures Valid()
      ensures searchTarget == Some(target)
      ensures sorting == old(sorting) && values == old(values) && speed == old(speed)
      ensures selected == old(selected) && states == old(states)
      ensures isRunning == old(isRunning) && isPaused == old(isPaused) && ticking == old(ticking)
      ensures raceSelected == old(raceSelected) && raceSpeed == old(raceSpeed) && raceSorting == old(raceSorting)
    {
      searchTarget := Some(target);
    }

    /**
     * `handleAlgorithmTypeChange`: switch the page kind and clear the selection. The effect
     * on the page kind then calls `resetArray` (`ResetArray`); a scheduled interval is kept.
     */
    method ChangeType(toSorting: bool)
      requires Valid()
      modifies this
      ensures Valid()
      ensures sorting == toSorting && selected == []
      ensures values == old(values) && speed == old(speed) && states == old(states)
      ensures searchTarget == old(searchTarget)
      ensures isRunning == old(isRunning) && isPaused == old(isPaused) && ticking == old(ticking)
      ensures raceSelected == old(raceSelected) && raceSpeed == old(raceSpeed) && raceSorting == old(raceSorting)
    {
      sorting := toSorting;
      selected := [];
    }

    /** The speed slider, which ranges over `[10, 100]`. */
    method SetSpeed(s: int)
      requires Valid() && 10 <= s <= 100
      modifies this
      ensures Valid()
      ensures speed == s
      ensures sorting == old(sorting) && values == old(values) && selected == old(selected)
      ensures states == old(states) && searchTarget == old(searchTarget)
      ensures isRunning == old(isRunning) && isPaused == old(isPaused) && ticking == old(ticking)
      ensures raceSelected == old(raceSelected) && raceSpeed == old(raceSpeed) && raceSorting == old(raceSorting)
    {
      speed := s;
    }
  }

  /**
   * Switching tabs during a race: after the mount's `resetArray` bubble sort has an entry;
   * select it, start the race, switch to searching
   * (the effect rebuilds the entries for the searching table), and the next firing of the
   * race's interval throws, since bubble sort has no entry any more. The tabs are never
   * disabled, so this is reachable by clicks alone.
   */
  method TabSwitchMidRace() returns (threw: bool)
    ensures threw
  {
    var page := new Page();
    page.ResetArray([5], 0);
    page.Toggle("bubbleSort");
    page.StartRace();
    assert "bubbleSort" in page.states;
    page.ChangeType(false);
    page.ResetArray([5], 0);
    assert page.raceSelected == ["bubbleSort"];
    assert "bubbleSort" !in page.states;
    threw := page.Tick([Draws(0.0, 0.0, 0.0, [], [])]);
  }
}
