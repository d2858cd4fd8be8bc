/**
 * Ascending order on integer sequences, and the ascending sort `(a, b) => a - b` that
 * the pages apply before a binary search.
 */
module Ordering {

  ghost predicate Sorted(s: seq<int>)
  {
    forall i, j :: 0 <= i < j < |s| ==> s[i] <= s[j]
  }

  /** Insert `x` in front of the first element that is larger than it. */
  function InsertAsc(x: int, s: seq<int>): (r: seq<int>)
    ensures |r| == |s| + 1
  {
    if s == [] || x <= s[0] then [x] + s else [s[0]] + InsertAsc(x, s[1..])
  }

  /** The array sorted by `(a, b) => a - b`. */
  function SortAsc(s: seq<int>): (r: seq<int>)
    ensures |r| == |s|
  {
    if s == [] then [] else InsertAsc(s[0], SortAsc(s[1..]))
  }

  /** Prepending an element no larger than the head keeps a sequence sorted. */
  lemma SortedCons(h: int, t: seq<int>)
    requires Sorted(t) && (t == [] || h <= t[0])
    ensures Sorted([h] + t)
  {
    var r := [h] + t;
    forall i, j | 0 <= i < j < |r|
      ensures r[i] <= r[j]
    {
      if i > 0 {
        assert r[i] == t[i - 1] && r[j] == t[j - 1];
      } else if j > 1 {
        assert r[j] == t[j - 1] && t[0] <= t[j - 1];
      }
    }
  }

  /** The tail of a sorted sequence is sorted. */
  lemma SortedTail(s: seq<int>)
    requires Sorted(s) && s != []
    ensures Sorted(s[1..])
  {
    var t := s[1..];
    forall i, j | 0 <= i < j < |t|
      ensures t[i] <= t[j]
    {
      assert t[i] == s[i + 1] && t[j] == s[j + 1];
    }
  }

  lemma {:induction false} InsertAscHead(x: int, s: seq<int>)
    ensures InsertAsc(x, s)[0] == x || (s != [] && InsertAsc(x, s)[0] == s[0])
  {
  }

  lemma {:induction false} InsertAscPermutes(x: int, s: seq<int>)
    ensures multiset(InsertAsc(x, s)) == multiset(s) + multiset{x}
  {
    if s != [] && x > s[0] {
      InsertAscPermutes(x, s[1..]);
      assert s == [s[0]] + s[1..];
    }
  }

  lemma {:induction false} InsertAscSorted(x: int, s: seq<int>)
    requires Sorted(s)
    ensures Sorted(InsertAsc(x, s))
  {
    if s == [] || x <= s[0] {
      SortedCons(x, s);
    } else {
      SortedTail(s);
      InsertAscSorted(x, s[1..]);
      var r := InsertAsc(x, s[1..]);
      InsertAscHead(x, s[1..]);
      assert s[1..] != [] ==> s[0] <= s[1];
      SortedCons(s[0], r);
    }
  }

  /** The sort the pages apply returns an ascending permutation of its input. */
  lemma {:induction false} SortAscCorrect(s: seq<int>)
    ensures Sorted(SortAsc(s))
    ensures multiset(SortAsc(s)) == multiset(s)
    ensures |SortAsc(s)| == |s|
  {
    if s != [] {
      SortAscCorrect(s[1..]);
      InsertAscSorted(s[0], SortAsc(s[1..]));
      InsertAscPermutes(s[0], SortAsc(s[1..]));
      assert s == [s[0]] + s[1..];
    }
  }

  /** Removing the head of a sequence removes one occurrence of it from the multiset. */
  lemma DropHead(a: seq<int>)
    requires a != []
    ensures multiset(a[1..]) == multiset(a) - multiset{a[0]}
  {
    assert a == [a[0]] + a[1..];
  }

  /** The head of a sorted sequence is at most every element of a permutation of it. */
  lemma HeadAtMost(a: seq<int>, b: seq<int>)
    requires Sorted(a) && multiset(a) == multiset(b) && b != []
    ensures a != [] && a[0] <= b[0]
  {
    assert b[0] in multiset(a);
    var j :| 0 <= j < |a| && a[j] == b[0];
  }

  /** Two ascending permutations of one multiset are the same sequence. */
  lemma {:induction false} SortedPermutationUnique(a: seq<int>, b: seq<int>)
    requires Sorted(a) && Sorted(b) && multiset(a) == multiset(b)
    ensures a == b
    decreases |a|
  {
    if a == [] {
      assert |b| == |multiset(b)| == 0;
    } else {
      HeadAtMost(b, a);
      HeadAtMost(a, b);
      DropHead(a);
      DropHead(b);
      SortedTail(a);
      SortedTail(b);
      SortedPermutationUnique(a[1..], b[1..]);
      assert a == [a[0]] + a[1..];
      assert b == [b[0]] + b[1..];
    }
  }

  /** An ascending permutation of `s` is its sort. */
  lemma SortAscUnique(a: seq<int>, s: seq<int>)
    requires Sorted(a) && multiset(a) == multiset(s)
    ensures a == SortAsc(s)
  {
    SortAscCorrect(s);
    SortedPermutationUnique(a, SortAsc(s));
  }

  /** Neighbouring cells of `a[lo..hi]` are in order. */
  ghost predicate Ascending(a: seq<int>, lo: int, hi: int)
  {
    forall k :: 0 <= lo <= k && k + 1 < hi <= |a| ==> a[k] <= a[k + 1]
  }

  lemma {:induction false} AscendingIsSorted(a: seq<int>)
    requires Ascending(a, 0, |a|)
    ensures Sorted(a)
    decreases |a|
  {
    if |a| > 1 {
      var init := a[..|a| - 1];
      assert Ascending(init, 0, |init|) by {
        forall k | 0 <= k && k + 1 < |init| ensures init[k] <= init[k + 1] {
          assert init[k] == a[k] && init[k + 1] == a[k + 1];
        }
      }
      AscendingIsSorted(init);
      forall i, j | 0 <= i < j < |a| ensures a[i] <= a[j] {
        if j < |a| - 1 {
          assert init[i] == a[i] && init[j] == a[j];
        } else if i < j - 1 {
          assert init[i] == a[i] && init[j - 1] == a[j - 1];
        }
      }
    }
  }
}
