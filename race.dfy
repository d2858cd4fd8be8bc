/**
 * The algorithm race: every selected algorithm has an entry whose progress and counters a
 * scheduled tick advances by random increments until all of them reach 100 percent. The
 * race does not run the generators; the increments only depend on how fast each
 * algorithm is reputed to be. `Math.random()` draws are parameters in `[0, 1)`.
 */
module Race {
  import opened Wrappers
  import opened Ordering

  /** The per-algorithm state the race shows. `timeElapsed` is not modelled. */
  datatype Entry = Entry(progress: real, comparisons: nat, swaps: nat,
                         currentArray: seq<int>, currentIndices: seq<int>, completed: bool)

  /**
   * The random draws one tick makes for one algorithm: those behind the progress,
   * comparison and swap increments, and the cosmetic snapshot and indices it shows.
   */
  datatype Draws = Draws(p: real, c: real, s: real, shownArray: seq<int>, shownIndices: seq<int>)

  predicate ValidDraws(d: Draws)
  {
    0.0 <= d.p < 1.0 && 0.0 <= d.c < 1.0 && 0.0 <= d.s < 1.0
  }

  /** The keys of the algorithm table of a sorting page or of a searching page, in order. */
  function TableKeys(sorting: bool): seq<string>
  {
    if sorting then ["bubbleSort", "selectionSort", "insertionSort", "mergeSort", "quickSort"]
    else ["linearSearch", "binarySearch"]
  }

  /** The entry every algorithm starts from, showing a copy of `arr`. */
  function Fresh(arr: seq<int>): Entry
  {
    Entry(0.0, 0, 0, arr, [], false)
  }

  /**
   * `resetArray`'s loop over the table keys: every key gets a fresh entry for `arr`, and
   * the map has no other keys.
   */
  method InitialStates(keys: seq<string>, arr: seq<int>) returns (states: map<string, Entry>)
    ensures states.Keys == set k | k in keys
    ensures forall k :: k in states ==> states[k] == Fresh(arr)
  {
    states := map[];
    var i := 0;
    while i < |keys|
      invariant 0 <= i <= |keys|
      invariant states.Keys == set k | k in keys[..i]
      invariant forall k :: k in states ==> states[k] == Fresh(arr)
    {
      assert keys[..i + 1] == keys[..i] + [keys[i]];
      states := states[keys[i] := Fresh(arr)];
      i := i + 1;
    }
    assert keys[..i] == keys;
  }

  /** `sel` with every occurrence of `name` removed, the rest in order. */
  function Remove(sel: seq<string>, name: string): (r: seq<string>)
    ensures name !in r
    ensures forall x :: x != name ==> (x in r <==> x in sel)
    ensures name !in sel ==> r == sel
  {
    if sel == [] then []
    else if sel[0] == name then Remove(sel[1..], name)
    else [sel[0]] + Remove(sel[1..], name)
  }

  /**
   * `filter` keeps the order: removing from a concatenation removes from either part, and
   * a single name is dropped exactly when it is the one removed.
   */
  lemma {:induction false} RemoveConcat(a: seq<string>, b: seq<string>, name: string)
    ensures Remove(a + b, name) == Remove(a, name) + Remove(b, name)
    ensures forall x :: Remove([x], name) == if x == name then [] else [x]
    decreases |a|
  {
    if a != [] {
      assert (a + b)[1..] == a[1..] + b;
      RemoveConcat(a[1..], b, name);
    } else {
      assert a + b == b;
    }
    forall x
      ensures Remove([x], name) == if x == name then [] else [x]
    {
      assert [x][1..] == [];
    }
  }

  /**
   * `toggleAlgorithm` on the selection list: a selected name is removed everywhere,
   * another one is appended.
   */
  function Toggled(sel: seq<string>, name: string): seq<string>
  {
    if name in sel then Remove(sel, name) else sel + [name]
  }

  lemma {:induction false} RemoveAppended(sel: seq<string>, name: string)
    requires name !in sel
    ensures Remove(sel + [name], name) == sel
    decreases |sel|
  {
    if sel == [] {
      assert [name][1..] == [];
    } else {
      RemoveAppended(sel[1..], name);
      assert (sel + [name])[1..] == sel[1..] + [name];
    }
  }

  /**
   * Toggling a name flips whether it is selected and leaves every other name as it was;
   * toggling an unselected name twice restores the selection.
   */
  lemma ToggleFlips(sel: seq<string>, name: string)
    ensures name in Toggled(sel, name) <==> name !in sel
    ensures forall x :: x != name ==> (x in Toggled(sel, name) <==> x in sel)
    ensures name !in sel ==> Toggled(Toggled(sel, name), name) == sel
  {
    if name !in sel {
      RemoveAppended(sel, name);
    }
  }

  /** No name occurs twice. */
  predicate NoDuplicates(sel: seq<string>)
  {
    forall i, j :: 0 <= i < j < |sel| ==> sel[i] != sel[j]
  }

  lemma {:induction false} RemoveKeepsNoDuplicates(sel: seq<string>, name: string)
    requires NoDuplicates(sel)
    ensures NoDuplicates(Remove(sel, name))
    decreases |sel|
  {
    if sel != [] {
      RemoveKeepsNoDuplicates(sel[1..], name);
      if sel[0] != name {
        assert sel[0] !in sel[1..];
      }
    }
  }

  /** Toggling never makes a name occur twice. */
  lemma ToggleKeepsNoDuplicates(sel: seq<string>, name: string)
    requires NoDuplicates(sel)
    ensures NoDuplicates(Toggled(sel, name))
  {
    if name in sel {
      RemoveKeepsNoDuplicates(sel, name);
    }
  }

  /** Toggling a name of the table keeps every selected name in the table. */
  lemma ToggledInTable(sel: seq<string>, name: string, keys: seq<string>)
    requires name in keys && forall i :: 0 <= i < |sel| ==> sel[i] in keys
    ensures var t := Toggled(sel, name); forall i :: 0 <= i < |t| ==> t[i] in keys
  {
    var t := Toggled(sel, name);
    ToggleFlips(sel, name);
    forall i | 0 <= i < |t|
      ensures t[i] in keys
    {
      if t[i] != name {
        assert t[i] in sel;
        var j :| 0 <= j < |sel| && sel[j] == t[i];
      }
    }
  }

  /** The multiplier `speed / 50` every progress increment carries. */
  function Factor(speed: int): real
  {
    (speed as real) / 50.0
  }

  /** What a tick adds for `algo`: progress, comparisons and swaps. */
  datatype Increment = Increment(progress: real, comparisons: int, swaps: int)

  function IncrementOf(sorting: bool, algo: string, speed: int, d: Draws): (inc: Increment)
    ensures !sorting ==> inc.swaps == 0
  {
    var f := Factor(speed);
    if sorting then
      if algo == "quickSort" || algo == "mergeSort" then
        Increment((d.p * 3.0 + 2.0) * f, (d.c * 2.0).Floor + 1, (d.s * 1.0).Floor + 1)
      else if algo == "insertionSort" then
        Increment((d.p * 2.0 + 1.0) * f, (d.c * 3.0).Floor + 1, (d.s * 2.0).Floor + 1)
      else if algo == "selectionSort" || algo == "bubbleSort" then
        Increment((d.p * 1.0 + 0.5) * f, (d.c * 4.0).Floor + 2, (d.s * 3.0).Floor + 1)
      else
        Increment(d.p * 2.0 * f, (d.c * 3.0).Floor + 1, (d.s * 2.0).Floor + 1)
    else
      if algo == "binarySearch" then
        Increment((d.p * 5.0 + 5.0) * f, 1, 0)
      else if algo == "linearSearch" then
        Increment((d.p * 2.0 + 1.0) * f, (d.c * 3.0).Floor + 1, 0)
      else
        Increment(d.p * 3.0 * f, (d.c * 2.0).Floor + 1, 0)
  }

  /**
   * Every increment adds at least one comparison, and on a sorting page at least one
   * swap; its progress is never negative, and for an algorithm of the page's table it
   * is at least `0.5 * speed / 50`.
   */
  lemma IncrementBounds(sorting: bool, algo: string, speed: int, d: Draws)
    requires ValidDraws(d) && 0 <= speed
    ensures var inc := IncrementOf(sorting, algo, speed, d);
      && inc.progress >= 0.0
      && (algo in TableKeys(sorting) ==> inc.progress >= Gain(speed))
      && inc.comparisons >= 1
      && (sorting ==> inc.swaps >= 1)
      && (!sorting ==> inc.swaps == 0)
  {
    var f := Factor(speed);
    assert f >= 0.0;
    assert d.p * f >= 0.0;
    assert (d.p * 3.0 + 2.0) * f == 3.0 * (d.p * f) + 2.0 * f;
    assert (d.p * 2.0 + 1.0) * f == 2.0 * (d.p * f) + f;
    assert (d.p * 1.0 + 0.5) * f == d.p * f + 0.5 * f;
    assert (d.p * 5.0 + 5.0) * f == 5.0 * (d.p * f) + 5.0 * f;
    assert d.p * 2.0 * f == 2.0 * (d.p * f);
    assert d.p * 3.0 * f == 3.0 * (d.p * f);
  }

  /** The least progress a tick adds for an algorithm of the table: `0.5 * speed / 50`. */
  function Gain(speed: int): real
  {
    0.5 * Factor(speed)
  }

  function Min(x: real, y: real): real
  {
    if x <= y then x else y
  }

  /** The updater's new entry for an incomplete selected algorithm. */
  function TickEntry(e: Entry, sorting: bool, algo: string, speed: int, d: Draws): (r: Entry)
    requires ValidDraws(d) && 0 <= speed
    ensures r.progress <= 100.0 && (r.completed <==> r.progress >= 100.0)
    ensures !sorting ==> r.swaps == 0
  {
    IncrementBounds(sorting, algo, speed, d);
    var inc := IncrementOf(sorting, algo, speed, d);
    var progress := Min(100.0, e.progress + inc.progress);
    var advanced := progress > e.progress;
    Entry(progress,
          e.comparisons + inc.comparisons,
          if sorting then e.swaps + inc.swaps else 0,
          if sorting && advanced then d.shownArray else e.currentArray,
          if sorting then (if advanced then d.shownIndices else []) else d.shownIndices,
          progress >= 100.0)
  }

  /** Progress in `[0, 100]`, and completed exactly at 100. */
  predicate Coherent(e: Entry)
  {
    0.0 <= e.progress <= 100.0 && (e.completed <==> e.progress >= 100.0)
  }

  /**
   * A tick never lowers progress nor takes it past 100, marks the entry completed exactly
   * when it reaches 100, adds at least one comparison, adds at least one swap on a
   * sorting page and shows no swaps on a searching page; an algorithm of the page's table
   * gains at least `0.5 * speed / 50` percent unless it reaches 100.
   */
  lemma TickEntryMeans(e: Entry, sorting: bool, algo: string, speed: int, d: Draws)
    requires ValidDraws(d) && 0 <= speed && Coherent(e)
    ensures var r := TickEntry(e, sorting, algo, speed, d);
      && Coherent(r)
      && e.progress <= r.progress
      && r.comparisons >= e.comparisons + 1
      && (sorting ==> r.swaps >= e.swaps + 1)
      && (!sorting ==> r.swaps == 0)
      && (algo in TableKeys(sorting) ==> r.progress >= Min(100.0, e.progress + Gain(speed)))
  {
    IncrementBounds(sorting, algo, speed, d);
  }

  /**
   * The first captured name with no entry, if any. The updater reads
   * `newStates[algo].completed` for each captured name in turn, so it throws a
   * `TypeError` at that name; entries exist for every name of the current table only, and
   * the page kind can change while a race runs.
   */
  function FirstMissing(sel: seq<string>, states: map<string, Entry>): (r: Option<nat>)
    ensures r.Some? ==> r.value < |sel| && sel[r.value] !in states
                        && forall j :: 0 <= j < r.value ==> sel[j] in states
    ensures r.None? ==> forall i :: 0 <= i < |sel| ==> sel[i] in states
    decreases |sel|
  {
    if sel == [] then None
    else if sel[0] !in states then Some(0)
    else match FirstMissing(sel[1..], states)
      case None => None
      case Some(k) => Some(k + 1)
  }

  /**
   * One tick over the selection: each selected entry not yet completed is advanced, in
   * selection order, and `allCompleted` is cleared by every advanced entry left below 100.
   */
  function TickRound(states: map<string, Entry>, sel: seq<string>, sorting: bool, speed: int,
                     draws: seq<Draws>): (r: (map<string, Entry>, bool))
    requires |draws| == |sel| && 0 <= speed
    requires forall i :: 0 <= i < |sel| ==> sel[i] in states && ValidDraws(draws[i])
    ensures r.0.Keys == states.Keys
    decreases |sel|
  {
    if sel == [] then (states, true)
    else
      var n := |sel| - 1;
      var (before, all) := TickRound(states, sel[..n], sorting, speed, draws[..n]);
      var algo := sel[n];
      if before[algo].completed then (before, all)
      else
        var e := TickEntry(before[algo], sorting, algo, speed, draws[n]);
        (before[algo := e], all && e.progress >= 100.0)
  }

  /**
   * The updater of the race's interval, with the selection, page kind and speed captured
   * when the race started. It throws (`threw`) exactly when a captured name has no entry;
   * otherwise it computes the round.
   */
  method RaceTick(states: map<string, Entry>, sel: seq<string>, sorting: bool, speed: int, draws: seq<Draws>)
    returns (newStates: map<string, Entry>, allCompleted: bool, threw: bool)
    requires |draws| == |sel| && 0 <= speed
    requires forall i :: 0 <= i < |sel| ==> ValidDraws(draws[i])
    ensures threw <==> FirstMissing(sel, states).Some?
    ensures !threw ==> (newStates, allCompleted) == TickRound(states, sel, sorting, speed, draws)
  {
    newStates := states;
    allCompleted := true;
    threw := false;
    var i := 0;
    while i < |sel|
      invariant 0 <= i <= |sel|
      invariant forall j :: 0 <= j < i ==> sel[j] in states
      invariant (newStates, allCompleted) == TickRound(states, sel[..i], sorting, speed, draws[..i])
    {
      var algo := sel[i];
      // The copy keeps the keys of `states` (the ensures of `TickRound`), so this is the entry the copy lacks.
      if algo !in states {
        FirstMissingAt(sel, states, i);
        threw := true;
        return;
      }
      newStates, allCompleted := TakeTurn(states, sel, sorting, speed, draws, i, newStates, allCompleted);
      i := i + 1;
    }
    assert sel[..i] == sel && draws[..i] == draws;
  }

  /** A name with no entry, after names that all have one, is where the updater throws. */
  lemma FirstMissingAt(sel: seq<string>, states: map<string, Entry>, i: nat)
    requires i < |sel| && sel[i] !in states
    requires forall j :: 0 <= j < i ==> sel[j] in states
    ensures FirstMissing(sel, states) == Some(i)
  {
  }

  /** The turn of `sel[i]` in the updater's loop, which has an entry. */
  method TakeTurn(states: map<string, Entry>, sel: seq<string>, sorting: bool, speed: int, draws: seq<Draws>,
                  i: nat, before: map<string, Entry>, all: bool)
    returns (after: map<string, Entry>, allAfter: bool)
    requires |draws| == |sel| && 0 <= speed && i < |sel|
    requires forall j :: 0 <= j < |sel| ==> ValidDraws(draws[j])
    requires forall j :: 0 <= j < i ==> sel[j] in states
    requires sel[i] in states
    requires (before, all) == TickRound(states, sel[..i], sorting, speed, draws[..i])
    ensures (after, allAfter) == TickRound(states, sel[..i + 1], sorting, speed, draws[..i + 1])
    ensures after.Keys == before.Keys
    ensures forall j :: 0 <= j < i + 1 ==> sel[j] in states
  {
    var algo := sel[i];
    TickRoundPrefix(states, sel, sorting, speed, draws, i);
    after, allAfter := before, all;
    if !before[algo].completed {
      var e := TickEntry(before[algo], sorting, algo, speed, draws[i]);
      after := before[algo := e];
      if e.progress < 100.0 {
        allAfter := false;
      }
    }
  }

  /** The round over the first `i + 1` selected algorithms is the round over the first `i`, then the turn of `sel[i]`. */
  lemma TickRoundPrefix(states: map<string, Entry>, sel: seq<string>, sorting: bool, speed: int,
                        draws: seq<Draws>, i: nat)
    requires |draws| == |sel| && 0 <= speed && i < |sel|
    requires forall j :: 0 <= j < |sel| ==> ValidDraws(draws[j])
    requires forall j :: 0 <= j <= i ==> sel[j] in states
    ensures var (before, all) := TickRound(states, sel[..i], sorting, speed, draws[..i]);
      TickRound(states, sel[..i + 1], sorting, speed, draws[..i + 1])
      == if before[sel[i]].completed then (before, all)
         else var e := TickEntry(before[sel[i]], sorting, sel[i], speed, draws[i]);
              (before[sel[i] := e], all && e.progress >= 100.0)
  {
    assert sel[..i + 1][..i] == sel[..i] && draws[..i + 1][..i] == draws[..i];
  }

  /** All entries of the map are coherent. */
  predicate AllCoherent(states: map<string, Entry>)
  {
    forall k :: k in states ==> Coherent(states[k])
  }

  /** Every entry showing `arr`, its counters and progress kept. */
  function ShowingArray(states: map<string, Entry>, arr: seq<int>): (r: map<string, Entry>)
    ensures r.Keys == states.Keys
  {
    map k | k in states :: states[k].(currentArray := arr)
  }

  /** Showing another array changes no progress, so every entry stays coherent. */
  lemma ShowingArrayCoherent(states: map<string, Entry>, arr: seq<int>)
    requires AllCoherent(states)
    ensures AllCoherent(ShowingArray(states, arr))
  {
    var r := ShowingArray(states, arr);
    forall k | k in r
      ensures Coherent(r[k])
    {
      assert Coherent(states[k]);
    }
  }

  /** A tick keeps every entry coherent. */
  lemma {:induction false} TickRoundCoherent(states: map<string, Entry>, sel: seq<string>, sorting: bool,
                                             speed: int, draws: seq<Draws>)
    requires |draws| == |sel| && 0 <= speed
    requires forall i :: 0 <= i < |sel| ==> sel[i] in states && ValidDraws(draws[i])
    requires AllCoherent(states)
    ensures AllCoherent(TickRound(states, sel, sorting, speed, draws).0)
    decreases |sel|
  {
    if sel != [] {
      var n := |sel| - 1;
      TickRoundCoherent(states, sel[..n], sorting, speed, draws[..n]);
      var before := TickRound(states, sel[..n], sorting, speed, draws[..n]).0;
      if !before[sel[n]].completed {
        TickEntryMeans(before[sel[n]], sorting, sel[n], speed, draws[n]);
      }
    }
  }

  /** A tick leaves the entry of an unselected or of a completed algorithm as it was. */
  lemma {:induction false} TickRoundUnchangedAt(states: map<string, Entry>, sel: seq<string>, sorting: bool,
                                                speed: int, draws: seq<Draws>, k: string)
    requires |draws| == |sel| && 0 <= speed
    requires forall i :: 0 <= i < |sel| ==> sel[i] in states && ValidDraws(draws[i])
    requires k in states && (k !in sel || states[k].completed)
    ensures TickRound(states, sel, sorting, speed, draws).0[k] == states[k]
    decreases |sel|
  {
    if sel != [] {
      var n := |sel| - 1;
      assert k !in sel[..n] || states[k].completed;
      TickRoundUnchangedAt(states, sel[..n], sorting, speed, draws[..n], k);
    }
  }

  /** A tick leaves the entries of unselected and of completed algorithms as they were. */
  lemma TickRoundUnchanged(states: map<string, Entry>, sel: seq<string>, sorting: bool,
                           speed: int, draws: seq<Draws>)
    requires |draws| == |sel| && 0 <= speed
    requires forall i :: 0 <= i < |sel| ==> sel[i] in states && ValidDraws(draws[i])
    ensures var r := TickRound(states, sel, sorting, speed, draws).0;
      forall k :: k in states && (k !in sel || states[k].completed) ==> r[k] == states[k]
  {
    forall k | k in states && (k !in sel || states[k].completed)
      ensures TickRound(states, sel, sorting, speed, draws).0[k] == states[k]
    {
      TickRoundUnchangedAt(states, sel, sorting, speed, draws, k);
    }
  }

  /** On a selection without repeats, a tick advances the incomplete entry at position `i` once, with its own draws. */
  lemma {:induction false} TickRoundTickedAt(states: map<string, Entry>, sel: seq<string>, sorting: bool,
                                             speed: int, draws: seq<Draws>, i: nat)
    requires |draws| == |sel| && 0 <= speed
    requires forall i :: 0 <= i < |sel| ==> sel[i] in states && ValidDraws(draws[i])
    requires NoDuplicates(sel) && i < |sel| && !states[sel[i]].completed
    ensures TickRound(states, sel, sorting, speed, draws).0[sel[i]]
            == TickEntry(states[sel[i]], sorting, sel[i], speed, draws[i])
    decreases |sel|
  {
    var n := |sel| - 1;
    var init, dinit := sel[..n], draws[..n];
    var before := TickRound(states, init, sorting, speed, dinit).0;
    var algo := sel[n];
    if i == n {
      assert algo !in init;
      TickRoundUnchangedAt(states, init, sorting, speed, dinit, algo);
    } else {
      assert NoDuplicates(init);
      assert sel[i] == init[i] && draws[i] == dinit[i] && sel[i] != algo;
      TickRoundTickedAt(states, init, sorting, speed, dinit, i);
    }
  }

  /** On a selection without repeats, a tick advances every incomplete selected entry once, with its own draws. */
  lemma TickRoundTicked(states: map<string, Entry>, sel: seq<string>, sorting: bool,
                        speed: int, draws: seq<Draws>)
    requires |draws| == |sel| && 0 <= speed
    requires forall i :: 0 <= i < |sel| ==> sel[i] in states && ValidDraws(draws[i])
    requires NoDuplicates(sel)
    ensures var r := TickRound(states, sel, sorting, speed, draws).0;
      forall i :: 0 <= i < |sel| && !states[sel[i]].completed ==>
        r[sel[i]] == TickEntry(states[sel[i]], sorting, sel[i], speed, draws[i])
  {
    forall i | 0 <= i < |sel| && !states[sel[i]].completed
      ensures TickRound(states, sel, sorting, speed, draws).0[sel[i]]
              == TickEntry(states[sel[i]], sorting, sel[i], speed, draws[i])
    {
      TickRoundTickedAt(states, sel, sorting, speed, draws, i);
    }
  }

  /** The last selected algorithm's turn: the earlier entries of a selection without repeats are left alone. */
  lemma TickRoundLastKeepsOthers(states: map<string, Entry>, sel: seq<string>, sorting: bool,
                                 speed: int, draws: seq<Draws>)
    requires |draws| == |sel| && 0 <= speed && sel != []
    requires forall i :: 0 <= i < |sel| ==> sel[i] in states && ValidDraws(draws[i])
    requires NoDuplicates(sel)
    ensures var n := |sel| - 1;
      var before := TickRound(states, sel[..n], sorting, speed, draws[..n]).0;
      var r := TickRound(states, sel, sorting, speed, draws).0;
      forall i :: 0 <= i < n ==> r[sel[i]] == before[sel[i]]
  {
    var n := |sel| - 1;
    forall i | 0 <= i < n
      ensures sel[i] != sel[n]
    {
    }
  }

  /**
   * The last selected algorithm's turn, on coherent entries: the round reports all completed
   * when the earlier turns did and that algorithm is completed afterwards.
   */
  lemma TickRoundLastCompleted(states: map<string, Entry>, sel: seq<string>, sorting: bool,
                               speed: int, draws: seq<Draws>)
    requires |draws| == |sel| && 0 <= speed && sel != []
    requires forall i :: 0 <= i < |sel| ==> sel[i] in states && ValidDraws(draws[i])
    requires AllCoherent(TickRound(states, sel[..|sel| - 1], sorting, speed, draws[..|sel| - 1]).0)
    ensures var n := |sel| - 1;
      var (r, all) := TickRound(states, sel, sorting, speed, draws);
      all == (TickRound(states, sel[..n], sorting, speed, draws[..n]).1 && r[sel[n]].completed)
  {
    var n := |sel| - 1;
    var before := TickRound(states, sel[..n], sorting, speed, draws[..n]).0;
    if !before[sel[n]].completed {
      TickEntryMeans(before[sel[n]], sorting, sel[n], speed, draws[n]);
    }
  }

  /**
   * On a selection without repeats whose entries are coherent, a tick reports all
   * completed exactly when every selected entry is completed afterwards.
   */
  lemma {:induction false} TickRoundAllCompleted(states: map<string, Entry>, sel: seq<string>, sorting: bool,
                                                 speed: int, draws: seq<Draws>)
    requires |draws| == |sel| && 0 <= speed
    requires forall i :: 0 <= i < |sel| ==> sel[i] in states && ValidDraws(draws[i])
    requires NoDuplicates(sel) && AllCoherent(states)
    ensures var (r, all) := TickRound(states, sel, sorting, speed, draws);
      all <==> forall i :: 0 <= i < |sel| ==> r[sel[i]].completed
    decreases |sel|
  {
    if sel != [] {
      var n := |sel| - 1;
      var init, dinit := sel[..n], draws[..n];
      assert NoDuplicates(init);
      TickRoundAllCompleted(states, init, sorting, speed, dinit);
      TickRoundCoherent(states, init, sorting, speed, dinit);
      TickRoundLastKeepsOthers(states, sel, sorting, speed, draws);
      TickRoundLastCompleted(states, sel, sorting, speed, draws);
      var before := TickRound(states, init, sorting, speed, dinit).0;
      var r := TickRound(states, sel, sorting, speed, draws).0;
      assert forall i :: 0 <= i < n ==> init[i] == sel[i] && r[sel[i]] == before[init[i]];
    }
  }

  /**
   * A firing that does not throw keeps every entry coherent and the keys as they were,
   * and reports all completed exactly when every captured algorithm is completed.
   */
  lemma TickOutcome(states: map<string, Entry>, sel: seq<string>, sorting: bool, speed: int,
                    draws: seq<Draws>, newStates: map<string, Entry>, all: bool)
    requires |draws| == |sel| && 0 <= speed
    requires forall i :: 0 <= i < |sel| ==> ValidDraws(draws[i])
    requires FirstMissing(sel, states).None? && NoDuplicates(sel) && AllCoherent(states)
    requires (newStates, all) == TickRound(states, sel, sorting, speed, draws)
    ensures AllCoherent(newStates) && newStates.Keys == states.Keys
    ensures all <==> forall i :: 0 <= i < |sel| ==> sel[i] in newStates && newStates[sel[i]].completed
  {
    TickRoundCoherent(states, sel, sorting, speed, draws);
    TickRoundAllCompleted(states, sel, sorting, speed, draws);
  }

  /** An entry ticked once per firing, with the draws `ds`, until it is completed. */
  function Repeat(e: Entry, sorting: bool, algo: string, speed: int, ds: seq<Draws>): Entry
    requires 0 <= speed && forall i :: 0 <= i < |ds| ==> ValidDraws(ds[i])
    decreases |ds|
  {
    if ds == [] then e
    else
      var before := Repeat(e, sorting, algo, speed, ds[..|ds| - 1]);
      if before.completed then before else TickEntry(before, sorting, algo, speed, ds[|ds| - 1])
  }

  /** `n` gains of `g`, summed one at a time. */
  function Gains(n: nat, g: real): real
  {
    if n == 0 then 0.0 else Gains(n - 1, g) + g
  }

  lemma {:induction false} GainsIsProduct(n: nat, g: real)
    ensures Gains(n, g) == (n as real) * g
  {
    if n > 0 {
      GainsIsProduct(n - 1, g);
    }
  }

  /** After `n` firings an algorithm of the table is completed or has gained `n` minimal increments. */
  lemma {:induction false} RepeatProgress(e: Entry, sorting: bool, algo: string, speed: int, ds: seq<Draws>)
    requires 0 <= speed && (forall i :: 0 <= i < |ds| ==> ValidDraws(ds[i]))
    requires Coherent(e) && algo in TableKeys(sorting)
    ensures var r := Repeat(e, sorting, algo, speed, ds);
      && Coherent(r)
      && (r.completed || r.progress >= e.progress + Gains(|ds|, Gain(speed)))
    decreases |ds|
  {
    if ds != [] {
      var n := |ds| - 1;
      RepeatProgress(e, sorting, algo, speed, ds[..n]);
      var before := Repeat(e, sorting, algo, speed, ds[..n]);
      if !before.completed {
        TickEntryMeans(before, sorting, algo, speed, ds[n]);
      }
    }
  }

  /**
   * At the slowest speed the slider allows (10) every selected algorithm of the table
   * completes within 1000 firings of the interval.
   */
  lemma CompletesWithin(e: Entry, sorting: bool, algo: string, speed: int, ds: seq<Draws>)
    requires 10 <= speed && (forall i :: 0 <= i < |ds| ==> ValidDraws(ds[i]))
    requires Coherent(e) && algo in TableKeys(sorting) && |ds| >= 1000
    ensures Repeat(e, sorting, algo, speed, ds).completed
  {
    RepeatProgress(e, sorting, algo, speed, ds);
    GainsIsProduct(|ds|, Gain(speed));
    assert (|ds| as real) * Gain(speed) >= 100.0 by {
      assert Gain(speed) >= 0.1;
      assert (|ds| as real) >= 1000.0;
    }
  }
}
