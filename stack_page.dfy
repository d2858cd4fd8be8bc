/**
 * The stack page: a stack of numbers with push (through a dialog), pop and peek, each
 * shown as a short animation driven by a one-second step timer. The top of the stack is
 * the last position of the array.
 */
module StackPage {
  import opened Wrappers
  import opened Operations

  /** `[...stack, v]`. */
  function Pushed(s: seq<int>, v: int): (r: seq<int>)
    ensures |r| == |s| + 1 && r[|s|] == v
    ensures forall i :: 0 <= i < |s| ==> r[i] == s[i]
  {
    s + [v]
  }

  /** `stack.slice(0, -1)`. */
  function Popped(s: seq<int>): (r: seq<int>)
    requires s != []
    ensures |r| == |s| - 1
    ensures forall i :: 0 <= i < |r| ==> r[i] == s[i]
  {
    s[..|s| - 1]
  }

  /** `stack[stack.length - 1]`. */
  function Top(s: seq<int>): int
    requires s != []
  {
    s[|s| - 1]
  }

  /** Pushing then popping restores the stack, and the pushed value is the one on top. */
  lemma PushPop(s: seq<int>, v: int)
    ensures Top(Pushed(s, v)) == v && Popped(Pushed(s, v)) == s
  {
  }

  /** The values popped one by one until the stack is empty, first popped first. */
  function PopAll(s: seq<int>): seq<int>
    decreases |s|
  {
    if s == [] then [] else [Top(s)] + PopAll(Popped(s))
  }

  /** `s` read from its last element back to its first. */
  function Reversed(s: seq<int>): seq<int>
  {
    if s == [] then [] else Reversed(s[1..]) + [s[0]]
  }

  lemma {:induction false} ReversedSnoc(s: seq<int>, v: int)
    ensures Reversed(s + [v]) == [v] + Reversed(s)
  {
    if s != [] {
      assert (s + [v])[1..] == s[1..] + [v];
      ReversedSnoc(s[1..], v);
    } else {
      assert Reversed([v]) == Reversed([]) + [v];
    }
  }

  /** Last in, first out: emptying the stack yields its elements in reverse order. */
  lemma {:induction false} PopAllReverses(s: seq<int>)
    ensures PopAll(s) == Reversed(s)
    decreases |s|
  {
    if s != [] {
      PopAllReverses(Popped(s));
      assert s == Popped(s) + [Top(s)];
      ReversedSnoc(Popped(s), Top(s));
    }
  }

  /** The usage example: after pushing 10, 20 and 30, peek shows 30, pop returns 30 and leaves two. */
  lemma UsageExample()
    ensures var s := Pushed(Pushed(Pushed([], 10), 20), 30);
      Top(s) == 30 && Popped(s) == [10, 20] && |Popped(s)| == 2
  {
  }

  datatype Phase = Idle | Pushing | Popping | Peeking

  datatype Op = Push | Pop | Peek

  /** `getMaxSteps`. */
  function MaxSteps(p: Phase): nat
  {
    match p
    case Pushing => 2
    case Popping => 2
    case Peeking => 1
    case Idle => 0
  }

  class Page {
    var values: seq<int>
    var newValue: string
    var pushDialog: bool
    var activeIndex: Option<int>
    var phase: Phase
    var step: nat
    /** The value being pushed, drawn above the stack while it lands. */
    var newElement: Option<int>

    /**
     * An animation runs exactly when the step is positive, within its operation's count;
     * the push dialog is only open while idle; a position is highlighted exactly while an
     * animation runs, within the stack or just past its top.
     */
    ghost predicate Valid()
      reads this
    {
      && (phase == Idle <==> step == 0)
      && step <= MaxSteps(phase)
      && (pushDialog ==> phase == Idle)
      && (phase == Idle <==> activeIndex == None)
      && (activeIndex.Some? ==> 0 <= activeIndex.value <= |values|)
    }

    /** `disabled`: every button needs an idle page; pop and peek need a non-empty stack. */
    predicate Disabled(op: Op)
      reads this
    {
      phase != Idle || ((op == Pop || op == Peek) && |values| == 0)
    }

    constructor()
      ensures Valid()
      ensures values == [10, 20, 30, 40, 50] && newValue == "" && !pushDialog && phase == Idle
    {
      values := [10, 20, 30, 40, 50];
      newValue := "";
      pushDialog := false;
      activeIndex := None;
      phase := Idle;
      step := 0;
      newElement := None;
    }

    /**
     * A click on a button, which the modal dialog covers while open: nothing when it is
     * disabled; push opens its dialog, pop and peek act at once.
     */
    method Click(op: Op)
      requires Valid() && !pushDialog
      modifies this
      ensures Valid()
      ensures old(Disabled(op)) ==>
                values == old(values) && pushDialog == old(pushDialog) && phase == old(phase)
                && step == old(step) && activeIndex == old(activeIndex)
      ensures !old(Disabled(op)) && op == Push ==> pushDialog && values == old(values) && phase == Idle
      ensures op != Push ==> !pushDialog
      ensures !old(Disabled(op)) && op == Pop ==>
                values == Popped(old(values)) && phase == Popping && step == 1
                && activeIndex == Some(|old(values)| - 1)
      ensures !old(Disabled(op)) && op == Peek ==>
                values == old(values) && phase == Peeking && step == 1
                && activeIndex == Some(|values| - 1)
      ensures newValue == old(newValue) && newElement == old(newElement)
    {
      if Disabled(op) {
        return;
      }
      match op
      case Push => pushDialog := true;
      case Pop => HandlePop();
      case Peek => HandlePeek();
    }

    method Dismiss()
      requires Valid()
      modifies this
      ensures Valid() && !pushDialog
      ensures values == old(values) && phase == old(phase) && step == old(step)
      ensures activeIndex == old(activeIndex) && newValue == old(newValue) && newElement == old(newElement)
    {
      pushDialog := false;
    }

    method Type(value: string)
      requires Valid() && pushDialog
      modifies this
      ensures Valid() && newValue == value
      ensures values == old(values) && phase == old(phase) && step == old(step)
      ensures activeIndex == old(activeIndex) && pushDialog == old(pushDialog) && newElement == old(newElement)
    {
      newValue := value;
    }

    /**
     * `handlePush`: a blank or unreadable value changes nothing; otherwise the value goes
     * on top and is highlighted there, the field is cleared and the dialog closed.
     */
    method HandlePush()
      requires Valid() && pushDialog
      modifies this
      ensures Valid()
      ensures ReadNumber(old(newValue)).None? ==>
                values == old(values) && phase == old(phase) && step == old(step)
                && activeIndex == old(activeIndex) && newValue == old(newValue)
                && pushDialog == old(pushDialog) && newElement == old(newElement)
      ensures ReadNumber(old(newValue)).Some? ==>
                && values == Pushed(old(values), ReadNumber(old(newValue)).value)
                && newElement == ReadNumber(old(newValue))
                && phase == Pushing && step == 1 && activeIndex == Some(|values| - 1)
                && newValue == "" && !pushDialog
    {
      var value := ReadNumber(newValue);
      if value.None? {
        return;
      }
      newElement := value;
      phase, step := Pushing, 1;
      activeIndex := Some(|values|);
      values := Pushed(values, value.value);
      newValue := "";
      pushDialog := false;
    }

    /** `handlePop`: nothing on an empty stack; otherwise the top is highlighted and removed. */
    method HandlePop()
      requires Valid() && !pushDialog
      modifies this
      ensures Valid()
      ensures old(values) == [] ==>
                values == old(values) && phase == old(phase) && step == old(step)
                && activeIndex == old(activeIndex)
      ensures old(values) != [] ==>
                values == Popped(old(values)) && phase == Popping && step == 1
                && activeIndex == Some(|old(values)| - 1)
      ensures newValue == old(newValue) && !pushDialog && newElement == old(newElement)
    {
      if values == [] {
        return;
      }
      phase, step := Popping, 1;
      activeIndex := Some(|values| - 1);
      values := Popped(values);
    }

    /** `handlePeek`: nothing on an empty stack; otherwise the top is highlighted. */
    method HandlePeek()
      requires Valid() && !pushDialog
      modifies this
      ensures Valid()
      ensures old(values) == [] ==>
                phase == old(phase) && step == old(step) && activeIndex == old(activeIndex)
      ensures old(values) != [] ==>
                phase == Peeking && step == 1 && activeIndex == Some(|values| - 1)
      ensures values == old(values) && newValue == old(newValue) && newElement == old(newElement)
      ensures !pushDialog
    {
      if values == [] {
        return;
      }
      phase, step := Peeking, 1;
      activeIndex := Some(|values| - 1);
    }

    /**
     * One firing of the step timer: the next step, or back to idle with nothing
     * highlighted. The pushed value is forgotten too, except after a peek.
     */
    method Fire()
      requires Valid() && phase != Idle
      modifies this
      ensures Valid()
      ensures match Advance(old(step), MaxSteps(old(phase)))
        case Some(next) =>
          step == next && phase == old(phase) && activeIndex == old(activeIndex)
          && newElement == old(newElement)
        case None =>
          phase == Idle && step == 0 && activeIndex == None
          && newElement == if old(phase) == Peeking then old(newElement) else None
      ensures values == old(values) && pushDialog == old(pushDialog) && newValue == old(newValue)
    {
      match Advance(step, MaxSteps(phase))
      case Some(next) =>
        step := next;
      case None =>
        if phase != Peeking {
          newElement := None;
        }
        phase, step, activeIndex := Idle, 0, None;
    }
  }
}
