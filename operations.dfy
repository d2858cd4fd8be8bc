/**
 * What the data-structure pages share: reading a number field, the splice edits of the
 * array and linked-list pages, and the step timer that walks an animation through its
 * steps and back to idle.
 */
module Operations {
  import opened Wrappers
  import CustomInput

  /**
   * A number field as the handlers read it: nothing when the trimmed text is empty or when
   * `parseInt` rejects it, the integer it starts with otherwise.
   */
  function ReadNumber(text: string): (r: Option<int>)
    ensures CustomInput.Trim(text) == "" ==> r.None?
  {
    if CustomInput.Trim(text) == "" then None else CustomInput.ParseInt(text)
  }

  /** Typing the decimal numeral of any integer into a field reads back that integer. */
  lemma ReadNumberShown(n: int)
    ensures ReadNumber(CustomInput.ShowInt(n)) == Some(n)
  {
    var s := CustomInput.ShowInt(n);
    var digits := CustomInput.ShowNat(if n < 0 then -n else n);
    assert !CustomInput.IsSpace(s[|s| - 1]) by {
      assert s[|s| - 1] == digits[|digits| - 1];
    }
    assert CustomInput.TrimEnd(s) == s;
    assert s != [] && !CustomInput.IsSpace(s[0]) by {
      assert n < 0 ==> s[0] == '-';
      assert n >= 0 ==> s[0] == digits[0];
    }
    assert CustomInput.Trim(s) == s;
    CustomInput.ParseShown(n, "");
    assert s + "" == s;
  }

  /** `splice(i, 0, v)`: `v` at position `i`, the prefix kept and the suffix shifted right. */
  function InsertAt(s: seq<int>, i: nat, v: int): (r: seq<int>)
    requires i <= |s|
    ensures |r| == |s| + 1 && r[i] == v
    ensures forall k :: 0 <= k < i ==> r[k] == s[k]
    ensures forall k :: i < k < |r| ==> r[k] == s[k - 1]
  {
    s[..i] + [v] + s[i..]
  }

  /** `splice(i, 1)`: position `i` deleted, the prefix kept and the suffix shifted left. */
  function RemoveAt(s: seq<int>, i: nat): (r: seq<int>)
    requires i < |s|
    ensures |r| == |s| - 1
    ensures forall k :: 0 <= k < i ==> r[k] == s[k]
    ensures forall k :: i <= k < |r| ==> r[k] == s[k + 1]
  {
    s[..i] + s[i + 1..]
  }

  /** Deleting what was just inserted restores the sequence. */
  lemma RemoveInserted(s: seq<int>, i: nat, v: int)
    requires i <= |s|
    ensures RemoveAt(InsertAt(s, i, v), i) == s
  {
    var r := RemoveAt(InsertAt(s, i, v), i);
    assert forall k :: 0 <= k < |s| ==> r[k] == s[k];
  }

  /** Putting back the deleted element at its position restores the sequence. */
  lemma InsertRemoved(s: seq<int>, i: nat)
    requires i < |s|
    ensures InsertAt(RemoveAt(s, i), i, s[i]) == s
  {
    var r := InsertAt(RemoveAt(s, i), i, s[i]);
    assert forall k :: 0 <= k < |s| ==> r[k] == s[k];
  }

  /**
   * One firing of the step timer while step `step` of `max` is shown: the next step, or
   * `None` when the animation has shown its last step and returns to idle.
   */
  function Advance(step: nat, max: nat): (r: Option<nat>)
    ensures r.Some? ==> step < r.value <= max
  {
    if step < max then Some(step + 1) else None
  }

  /** The number of firings from step `step` until the animation is idle again. */
  function Firings(step: nat, max: nat): nat
    decreases max - step
  {
    match Advance(step, max)
    case None => 1
    case Some(next) => 1 + Firings(next, max)
  }

  /**
   * Started at step 1, an animation of `max` steps shows each step once and is idle again
   * after exactly `max` firings.
   */
  lemma {:induction false} FiringsCount(step: nat, max: nat)
    requires 1 <= step <= max
    ensures Firings(step, max) == max - step + 1
    decreases max - step
  {
    if step < max {
      FiringsCount(step + 1, max);
    }
  }
}
