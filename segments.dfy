/**
 * Sorting a segment of an array in place: the array with the cells `[lo, hi)` replaced,
 * and the facts about such replacements that the recursive sorts need.
 */
module Segments {
  import opened Ordering

  /** `a` with the cells `[lo, hi)` replaced by `seg`. */
  function Spliced(a: seq<int>, lo: nat, hi: nat, seg: seq<int>): (r: seq<int>)
    requires lo <= hi <= |a| && |seg| == hi - lo
    ensures |r| == |a|
  {
    a[..lo] + seg + a[hi..]
  }

  /** Each cell of the splice comes from `seg` inside `[lo, hi)` and from `a` outside it. */
  lemma SplicedAt(a: seq<int>, lo: nat, hi: nat, seg: seq<int>)
    requires lo <= hi <= |a| && |seg| == hi - lo
    ensures var r := Spliced(a, lo, hi, seg);
      forall k :: 0 <= k < |a| ==> r[k] == if lo <= k < hi then seg[k - lo] else a[k]
  {
  }

  lemma SplicedInside(a: seq<int>, lo: nat, hi: nat, seg: seq<int>)
    requires lo <= hi <= |a| && |seg| == hi - lo
    ensures Spliced(a, lo, hi, seg)[lo..hi] == seg
  {
  }

  lemma SplicedOutside(a: seq<int>, lo: nat, hi: nat, seg: seq<int>, p: nat, q: nat)
    requires lo <= hi <= |a| && |seg| == hi - lo
    requires p <= q <= |a| && (q <= lo || hi <= p)
    ensures Spliced(a, lo, hi, seg)[p..q] == a[p..q]
  {
  }

  /** Splicing the same segment into arrays that agree outside it gives the same array. */
  lemma SplicedAgree(a: seq<int>, b: seq<int>, lo: nat, hi: nat, seg: seq<int>)
    requires lo <= hi <= |a| == |b| && |seg| == hi - lo
    requires forall k :: 0 <= k < |a| && !(lo <= k < hi) ==> a[k] == b[k]
    ensures Spliced(a, lo, hi, seg) == Spliced(b, lo, hi, seg)
  {
    SplicedAt(a, lo, hi, seg);
    SplicedAt(b, lo, hi, seg);
  }

  /** An array that agrees with `a` outside `[lo, hi)` is `a` with its own segment spliced in. */
  lemma SplicedFrom(a: seq<int>, b: seq<int>, lo: nat, hi: nat)
    requires lo <= hi <= |a| == |b|
    requires forall k :: 0 <= k < |a| && !(lo <= k < hi) ==> b[k] == a[k]
    ensures b == Spliced(a, lo, hi, b[lo..hi])
  {
    SplicedAt(a, lo, hi, b[lo..hi]);
  }

  /** A slice split around one of its cells. */
  lemma SliceAround(a: seq<int>, lo: nat, mid: nat, hi: nat)
    requires lo <= mid < hi <= |a|
    ensures a[lo..hi] == a[lo..mid] + [a[mid]] + a[mid + 1..hi]
  {
  }

  /** `after` is `before` with the segment `[left, right]` sorted in place. */
  ghost predicate SortedSegment(before: seq<int>, after: seq<int>, left: nat, right: int)
  {
    && left <= right + 1 <= |before|
    && after == Spliced(before, left, right + 1, SortAsc(before[left..right + 1]))
  }

  /** Sorting a segment in place sorts the cells inside it and leaves every other cell alone. */
  lemma SortedSegmentParts(before: seq<int>, after: seq<int>, left: nat, right: int)
    requires SortedSegment(before, after, left, right)
    ensures |after| == |before|
    ensures after[left..right + 1] == SortAsc(before[left..right + 1])
    ensures forall k :: 0 <= k < |after| && !(left <= k <= right) ==> after[k] == before[k]
  {
    var seg := SortAsc(before[left..right + 1]);
    SplicedInside(before, left, right + 1, seg);
    SplicedAt(before, left, right + 1, seg);
  }

  /** A segment of at most one cell is its own sort. */
  lemma ShortSegment(a: seq<int>, left: nat, right: int)
    requires left <= right + 1 && right < |a| && right <= left
    ensures SortedSegment(a, a, left, right)
  {
    var seg := a[left..right + 1];
    if |seg| == 1 {
      assert SortAsc(seg) == InsertAsc(seg[0], []);
    }
    assert a == a[..left] + seg + a[right + 1..];
  }
}
