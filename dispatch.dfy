/**
 * The choice of generator in `startVisualization`: the page's algorithm key selects one of
 * the five sorts or two searches, and an unknown key falls back to bubble sort on a
 * sorting page and to linear search on a searching page.
 */
module Dispatch {
  import opened Wrappers
  import opened Ordering
  import opened Steps
  import BubbleSort
  import SelectionSort
  import InsertionSort
  import MergeSort
  import QuickSort
  import LinearSearch
  import BinarySearch

  datatype Algorithm = Bubble | Selection | Insertion | Merge | Quick | Linear | Binary
  {
    predicate IsSort()
    {
      this in {Bubble, Selection, Insertion, Merge, Quick}
    }
  }

  /** The key an algorithm is known by. */
  function Key(a: Algorithm): string
  {
    match a
    case Bubble => "bubbleSort"
    case Selection => "selectionSort"
    case Insertion => "insertionSort"
    case Merge => "mergeSort"
    case Quick => "quickSort"
    case Linear => "linearSearch"
    case Binary => "binarySearch"
  }

  /**
   * The generator a key selects on a sorting page (`sorting`) or a searching page: the
   * algorithm of that kind with that key, else the page's fallback.
   */
  function Chosen(sorting: bool, key: string): (r: Algorithm)
    ensures r.IsSort() == sorting
    ensures Key(r) == key || r == (if sorting then Bubble else Linear)
    ensures Key(r) != key ==> forall a: Algorithm :: a.IsSort() == sorting ==> Key(a) != key
  {
    if sorting then
      if key == "selectionSort" then Selection
      else if key == "insertionSort" then Insertion
      else if key == "mergeSort" then Merge
      else if key == "quickSort" then Quick
      else Bubble
    else
      if key == "binarySearch" then Binary
      else Linear
  }

  /** Every algorithm is chosen by its own key on a page of its kind. */
  lemma ChosenByKey(a: Algorithm)
    ensures Chosen(a.IsSort(), Key(a)) == a
  {
  }

  /**
   * What is known of the steps played for `arr` on a page of kind `sorting` with key `key`
   * and search target `target`.
   */
  ghost predicate TraceOf(sorting: bool, key: string, arr: seq<int>, target: Option<int>, steps: seq<Step>)
  {
    && (!sorting && target.None? ==> steps == [])
    && (sorting ==> steps != [] && IsNeutral(Last(steps)) && multiset(Last(steps).arr) == multiset(arr))
    && (sorting && Chosen(sorting, key) != Merge ==> Sorted(Last(steps).arr))
    && (sorting && Chosen(sorting, key) == Merge ==> Last(steps).arr == arr)
    && (!sorting && target.Some? && Chosen(sorting, key) == Linear ==> (EndsFound(steps) <==> target.value in arr))
    && (!sorting && target.Some? && Chosen(sorting, key) == Binary && Sorted(arr) ==>
          (EndsFound(steps) <==> target.value in arr))
  }

  /**
   * The steps `startVisualization` plays: the chosen sort of a copy of the array, or the
   * chosen search of a copy for the target; a searching page without a target plays no
   * steps at all. Every sort but merge sort ends on the sorted array; merge sort's last
   * snapshot is the array as it was. A linear search ends found exactly when the target
   * is present, and so does a binary search on a sorted array.
   */
  method GenerateTrace(sorting: bool, key: string, arr: seq<int>, target: Option<int>) returns (steps: seq<Step>)
    ensures TraceOf(sorting, key, arr, target, steps)
  {
    var algorithm := Chosen(sorting, key);
    if sorting {
      match algorithm
      case Selection => steps := SelectionSort.SelectionSortTrace(arr);
      case Insertion => steps := InsertionSort.InsertionSortTrace(arr);
      case Merge => steps := MergeSort.MergeSortTrace(arr);
      case Quick => steps := QuickSort.QuickSortTrace(arr);
      case _ => steps := BubbleSort.BubbleSortTrace(arr);
    } else if target.Some? {
      if algorithm == Binary {
        steps := BinarySearch.BinarySearchTrace(arr, target.value);
        if Sorted(arr) {
          BinarySearch.BinarySearchFinds(arr, target.value);
        }
      } else {
        steps := LinearSearch.LinearSearchTrace(arr, target.value);
      }
    } else {
      steps := [];
    }
  }
}
