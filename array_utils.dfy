/** The `swap` helper: exchange two cells of an array through a temporary. */
module ArrayUtils {

  /** The value of an array after its cells `i` and `j` are exchanged. */
  function Swapped(s: seq<int>, i: nat, j: nat): (r: seq<int>)
    requires i < |s| && j < |s|
    ensures |r| == |s| && r[i] == s[j] && r[j] == s[i]
  {
    s[i := s[j]][j := s[i]]
  }

  /** Every cell other than `i` and `j` keeps its value. */
  lemma SwappedElsewhere(s: seq<int>, i: nat, j: nat)
    requires i < |s| && j < |s|
    ensures forall k :: 0 <= k < |s| && k != i && k != j ==> Swapped(s, i, j)[k] == s[k]
  {
  }

  /** `swap(array, i, j)`: writes `array[j]` into `i` and the saved `array[i]` into `j`. */
  method Swap(a: array<int>, i: nat, j: nat)
    requires i < a.Length && j < a.Length
    modifies a
    ensures a[..] == Swapped(old(a[..]), i, j)
    ensures multiset(a[..]) == multiset(old(a[..]))
  {
    SwappedIsPermutation(a[..], i, j);
    var temp := a[i];
    a[i] := a[j];
    a[j] := temp;
  }

  /** Exchanging two cells keeps the multiset of elements. */
  lemma SwappedIsPermutation(s: seq<int>, i: nat, j: nat)
    requires i < |s| && j < |s|
    ensures multiset(Swapped(s, i, j)) == multiset(s)
  {
    var t := s[i := s[j]];
    assert multiset(t) == multiset(s) - multiset{s[i]} + multiset{s[j]};
    assert multiset(t[j := s[i]]) == multiset(t) - multiset{t[j]} + multiset{s[i]};
  }

  /** `swap(a, i, i)` changes nothing. */
  lemma SwappedSelf(s: seq<int>, i: nat)
    requires i < |s|
    ensures Swapped(s, i, i) == s
  {
    SwappedElsewhere(s, i, i);
  }

  /** Swapping the same pair twice restores the array, in either order of the indices. */
  lemma SwappedTwice(s: seq<int>, i: nat, j: nat)
    requires i < |s| && j < |s|
    ensures Swapped(Swapped(s, i, j), i, j) == s
    ensures Swapped(Swapped(s, i, j), j, i) == s
  {
    SwappedElsewhere(s, i, j);
    SwappedElsewhere(Swapped(s, i, j), i, j);
    SwappedElsewhere(Swapped(s, i, j), j, i);
  }
}
