/**
 * The race leaderboard: the entries ranked by a stable sort under the three-way
 * comparator (completed entries first, completed ones by elapsed time, the others by
 * progress, highest first), and the rows shown for them.
 *
 * The sort of the spread copy is stable (section 23.1.3.30 of ECMA-262 since its 10th
 * edition), so the ranking is modelled as a stable insertion sort of the input positions:
 * the result is the ordering of positions by the comparator, ties broken by position.
 */
module Leaderboard {

  /** One entry of the leaderboard; `timeElapsed` is in milliseconds. */
  datatype Racer = Racer(name: string, progress: real, comparisons: nat, swaps: nat,
                         timeElapsed: int, completed: bool)

  /** The comparator: negative when `a` ranks before `b`, zero on a tie. */
  function Compare(a: Racer, b: Racer): (c: real)
    ensures a.completed != b.completed ==> (c < 0.0 <==> a.completed)
  {
    if a.completed && !b.completed then -1.0
    else if !a.completed && b.completed then 1.0
    else if a.completed && b.completed then (a.timeElapsed - b.timeElapsed) as real
    else b.progress - a.progress
  }

  /** The comparator is antisymmetric: swapping its arguments negates it. */
  lemma CompareFlips(a: Racer, b: Racer)
    ensures Compare(b, a) == -Compare(a, b)
  {
  }

  /** Position `p` of `xs` ranks before position `q`: it compares lower, or ties and comes first. */
  predicate Before(xs: seq<Racer>, p: nat, q: nat)
    requires p < |xs| && q < |xs|
  {
    Compare(xs[p], xs[q]) < 0.0 || (Compare(xs[p], xs[q]) == 0.0 && p < q)
  }

  /** `Before` is transitive. */
  lemma BeforeTransitive(xs: seq<Racer>, p: nat, q: nat, r: nat)
    requires p < |xs| && q < |xs| && r < |xs|
    requires Before(xs, p, q) && Before(xs, q, r)
    ensures Before(xs, p, r)
  {
  }

  /** Two distinct positions are always ordered one way or the other. */
  lemma BeforeTotal(xs: seq<Racer>, p: nat, q: nat)
    requires p < |xs| && q < |xs| && p != q
    ensures Before(xs, p, q) || Before(xs, q, p)
  {
    CompareFlips(xs[p], xs[q]);
  }

  predicate InRange(xs: seq<Racer>, s: seq<nat>)
  {
    forall i :: 0 <= i < |s| ==> s[i] < |xs|
  }

  /** Each position of `s` ranks before the next. */
  predicate Ordered(xs: seq<Racer>, s: seq<nat>)
  {
    InRange(xs, s) && forall i :: 0 <= i < |s| - 1 ==> Before(xs, s[i], s[i + 1])
  }

  /** Insert position `p` into `s` in front of the first position it ranks before. */
  function Insert(xs: seq<Racer>, s: seq<nat>, p: nat): (r: seq<nat>)
    requires InRange(xs, s) && p < |xs|
    ensures |r| == |s| + 1 && InRange(xs, r)
    ensures forall k :: k in r <==> k in s || k == p
  {
    if s == [] then [p]
    else if Before(xs, p, s[0]) then [p] + s
    else [s[0]] + Insert(xs, s[1..], p)
  }

  /** Inserting a position later than every position of an ordered `s` keeps it ordered. */
  lemma {:induction false} InsertKeepsOrder(xs: seq<Racer>, s: seq<nat>, p: nat)
    requires Ordered(xs, s) && p < |xs|
    requires forall k :: k in s ==> k < p
    ensures Ordered(xs, Insert(xs, s, p))
  {
    if s != [] && !Before(xs, p, s[0]) {
      var t := s[1..];
      assert Ordered(xs, t) by {
        forall i | 0 <= i < |t| - 1
          ensures Before(xs, t[i], t[i + 1])
        {
          assert t[i] == s[i + 1] && t[i + 1] == s[i + 2];
        }
      }
      assert forall k :: k in t ==> k in s;
      InsertKeepsOrder(xs, t, p);
      assert s[0] in s;
      BeforeTotal(xs, p, s[0]);
      var rest := Insert(xs, t, p);
      assert Before(xs, s[0], rest[0]) by {
        if t == [] || Before(xs, p, t[0]) {
          assert rest[0] == p;
        } else {
          assert rest[0] == t[0] == s[1];
        }
      }
      var r := [s[0]] + rest;
      forall i | 0 <= i < |r| - 1
        ensures Before(xs, r[i], r[i + 1])
      {
        if i > 0 {
          assert r[i] == rest[i - 1] && r[i + 1] == rest[i];
        }
      }
    }
  }

  /** The positions `0 .. n - 1` of `xs`, inserted one by one in input order. */
  function Positions(xs: seq<Racer>, n: nat): (r: seq<nat>)
    requires n <= |xs|
    ensures |r| == n && InRange(xs, r)
    ensures forall k: int :: k in r <==> 0 <= k < n
  {
    if n == 0 then [] else Insert(xs, Positions(xs, n - 1), n - 1)
  }

  lemma {:induction false} PositionsOrdered(xs: seq<Racer>, n: nat)
    requires n <= |xs|
    ensures Ordered(xs, Positions(xs, n))
  {
    if n > 0 {
      PositionsOrdered(xs, n - 1);
      InsertKeepsOrder(xs, Positions(xs, n - 1), n - 1);
    }
  }

  /** The input positions in rank order. */
  function Ranking(xs: seq<Racer>): (r: seq<nat>)
    ensures |r| == |xs| && InRange(xs, r)
    ensures forall k: int :: k in r <==> 0 <= k < |xs|
  {
    Positions(xs, |xs|)
  }

  /** The entries at the positions `s`, in that order. */
  function Pick(xs: seq<Racer>, s: seq<nat>): (r: seq<Racer>)
    requires InRange(xs, s)
    ensures |r| == |s|
  {
    if s == [] then [] else [xs[s[0]]] + Pick(xs, s[1..])
  }

  lemma {:induction false} PickAt(xs: seq<Racer>, s: seq<nat>)
    requires InRange(xs, s)
    ensures forall i :: 0 <= i < |s| ==> Pick(xs, s)[i] == xs[s[i]]
  {
    if s != [] {
      PickAt(xs, s[1..]);
    }
  }

  /** The ranked copy of the entries. */
  function Ranked(xs: seq<Racer>): seq<Racer>
  {
    Pick(xs, Ranking(xs))
  }

  /** Inserting a position adds its entry to the picked entries. */
  lemma {:induction false} PickInsert(xs: seq<Racer>, s: seq<nat>, p: nat)
    requires InRange(xs, s) && p < |xs|
    ensures multiset(Pick(xs, Insert(xs, s, p))) == multiset(Pick(xs, s)) + multiset{xs[p]}
  {
    if s != [] && !Before(xs, p, s[0]) {
      PickInsert(xs, s[1..], p);
      assert Pick(xs, s) == [xs[s[0]]] + Pick(xs, s[1..]);
    }
  }

  /** Inserting position `n - 1` extends a permutation of the first `n - 1` entries to the first `n`. */
  lemma PermuteStep(xs: seq<Racer>, s: seq<nat>, n: nat)
    requires 0 < n <= |xs| && InRange(xs, s)
    requires multiset(Pick(xs, s)) == multiset(xs[..n - 1])
    ensures multiset(Pick(xs, Insert(xs, s, n - 1))) == multiset(xs[..n])
  {
    PickInsert(xs, s, n - 1);
    assert xs[..n] == xs[..n - 1] + [xs[n - 1]];
  }

  lemma {:induction false} PositionsPermute(xs: seq<Racer>, n: nat)
    requires n <= |xs|
    ensures multiset(Pick(xs, Positions(xs, n))) == multiset(xs[..n])
  {
    if n > 0 {
      PositionsPermute(xs, n - 1);
      PermuteStep(xs, Positions(xs, n - 1), n);
    }
  }

  /** The ranked list holds exactly the input entries. */
  lemma RankedPermutation(xs: seq<Racer>)
    ensures multiset(Ranked(xs)) == multiset(xs)
  {
    PositionsPermute(xs, |xs|);
    assert xs[..|xs|] == xs;
  }

  /** An ordered sequence of positions has every earlier position ranking before every later one. */
  lemma {:induction false} OrderedAll(xs: seq<Racer>, s: seq<nat>)
    requires Ordered(xs, s)
    ensures forall i, j :: 0 <= i < j < |s| ==> Before(xs, s[i], s[j])
    decreases |s|
  {
    if |s| > 1 {
      var t := s[..|s| - 1];
      assert Ordered(xs, t) by {
        forall i | 0 <= i < |t| - 1
          ensures Before(xs, t[i], t[i + 1])
        {
          assert t[i] == s[i] && t[i + 1] == s[i + 1];
        }
      }
      OrderedAll(xs, t);
      forall i, j | 0 <= i < j < |s|
        ensures Before(xs, s[i], s[j])
      {
        if j < |s| - 1 {
          assert s[i] == t[i] && s[j] == t[j];
        } else if i < j - 1 {
          assert s[i] == t[i] && s[j - 1] == t[j - 1];
          BeforeTransitive(xs, s[i], s[j - 1], s[j]);
        }
      }
    }
  }

  /**
   * In the ranked list every completed entry precedes every incomplete one, completed
   * entries follow in non-decreasing elapsed time, incomplete ones in non-increasing
   * progress, and entries the comparator ties keep their input order.
   */
  lemma RankedOrder(xs: seq<Racer>)
    ensures var r, p := Ranked(xs), Ranking(xs);
      forall i, j :: 0 <= i < j < |r| ==>
        && (r[j].completed ==> r[i].completed)
        && (r[i].completed && r[j].completed ==> r[i].timeElapsed <= r[j].timeElapsed)
        && (!r[i].completed && !r[j].completed ==> r[i].progress >= r[j].progress)
        && (Compare(r[i], r[j]) == 0.0 ==> p[i] < p[j])
  {
    PositionsOrdered(xs, |xs|);
    OrderedAll(xs, Ranking(xs));
    PickAt(xs, Ranking(xs));
  }

  /** The first column: the trophy, or the place `index + 1`. */
  datatype Rank = Trophy | Place(n: nat)

  /** The fifth column: swaps on a sorting race, comparisons on a searching race. */
  function FifthColumn(sorting: bool, e: Racer): nat
  {
    if sorting then e.swaps else e.comparisons
  }

  datatype Row = Row(rank: Rank, name: string, completed: bool, fifth: nat, comparisons: nat)

  /** The rows of the table: the ranked entries, the first one with the trophy when completed. */
  function Rows(xs: seq<Racer>, sorting: bool): (rows: seq<Row>)
    ensures |rows| == |xs|
  {
    var r := Ranked(xs);
    seq(|r|, i requires 0 <= i < |r| =>
      Row(if i == 0 && r[i].completed then Trophy else Place(i + 1),
          r[i].name, r[i].completed, FifthColumn(sorting, r[i]), r[i].comparisons))
  }

  /**
   * Every row but a trophy shows its place `index + 1`; the trophy is shown exactly when
   * some entry has completed, and then on the first row. Row `i` shows the `i`-th ranked
   * entry; its fifth column holds the swaps on a sorting race and repeats the comparisons
   * on a searching race.
   */
  lemma RowsMeans(xs: seq<Racer>, sorting: bool)
    ensures var rows := Rows(xs, sorting);
      && (forall i :: 0 <= i < |rows| ==> rows[i].rank == Place(i + 1) || (i == 0 && rows[i].rank == Trophy))
      && (|rows| > 0 ==> (rows[0].rank == Trophy <==> exists k :: 0 <= k < |xs| && xs[k].completed))
      && (!sorting ==> forall i :: 0 <= i < |rows| ==> rows[i].fifth == rows[i].comparisons)
      && (forall i :: 0 <= i < |rows| ==>
            && rows[i].name == Ranked(xs)[i].name
            && rows[i].completed == Ranked(xs)[i].completed
            && rows[i].comparisons == Ranked(xs)[i].comparisons
            && rows[i].fifth == if sorting then Ranked(xs)[i].swaps else Ranked(xs)[i].comparisons)
  {
    var r := Ranked(xs);
    RankedPermutation(xs);
    RankedOrder(xs);
    if exists k :: 0 <= k < |xs| && xs[k].completed {
      var k :| 0 <= k < |xs| && xs[k].completed;
      assert xs[k] in multiset(r);
      var i :| 0 <= i < |r| && r[i] == xs[k];
      assert r[0].completed;
    }
    if |r| > 0 && r[0].completed {
      assert r[0] in multiset(xs);
    }
  }
}
