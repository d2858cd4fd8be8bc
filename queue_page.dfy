/**
 * The queue page: a queue of numbers with enqueue (through a dialog), dequeue and peek,
 * each shown as a short animation driven by a one-second step timer. The front of the
 * queue is the first position of the array, the rear its last.
 */
module QueuePage {
  import opened Wrappers
  import opened Operations

  /** `[...queue, v]`. */
  function Enqueued(s: seq<int>, v: int): (r: seq<int>)
    ensures |r| == |s| + 1 && r[|s|] == v
    ensures forall i :: 0 <= i < |s| ==> r[i] == s[i]
  {
    s + [v]
  }

  /** `queue.slice(1)`. */
  function Dequeued(s: seq<int>): (r: seq<int>)
    requires s != []
    ensures |r| == |s| - 1
    ensures forall i :: 0 <= i < |r| ==> r[i] == s[i + 1]
  {
    s[1..]
  }

  /** `queue[0]`. */
  function Front(s: seq<int>): int
    requires s != []
  {
    s[0]
  }

  /**
   * First in, first out: on a non-empty queue, enqueuing then dequeuing is dequeuing then
   * enqueuing, and the front is unaffected by the enqueue.
   */
  lemma EnqueueDequeue(s: seq<int>, v: int)
    requires s != []
    ensures Dequeued(Enqueued(s, v)) == Enqueued(Dequeued(s), v)
    ensures Front(Enqueued(s, v)) == Front(s)
  {
  }

  /** The values dequeued one by one until the queue is empty, first dequeued first. */
  function DequeueAll(s: seq<int>): seq<int>
    decreases |s|
  {
    if s == [] then [] else [Front(s)] + DequeueAll(Dequeued(s))
  }

  /** The values enqueued one by one, in order, onto the queue `s`. */
  function EnqueueAll(s: seq<int>, vs: seq<int>): seq<int>
    decreases |vs|
  {
    if vs == [] then s else EnqueueAll(Enqueued(s, vs[0]), vs[1..])
  }

  lemma {:induction false} EnqueueAllAppends(s: seq<int>, vs: seq<int>)
    ensures EnqueueAll(s, vs) == s + vs
    decreases |vs|
  {
    if vs != [] {
      EnqueueAllAppends(Enqueued(s, vs[0]), vs[1..]);
      assert s + [vs[0]] + vs[1..] == s + vs;
    }
  }

  lemma {:induction false} DequeueAllKeeps(s: seq<int>)
    ensures DequeueAll(s) == s
    decreases |s|
  {
    if s != [] {
      DequeueAllKeeps(Dequeued(s));
    }
  }

  /** Values enqueued onto an empty queue come out in the order they went in. */
  lemma FirstInFirstOut(vs: seq<int>)
    ensures DequeueAll(EnqueueAll([], vs)) == vs
  {
    EnqueueAllAppends([], vs);
    assert [] + vs == vs;
    DequeueAllKeeps(vs);
  }

  /** The usage example: after enqueuing 10, 20 and 30, peek shows 10, dequeue returns 10 and leaves two. */
  lemma UsageExample()
    ensures var s := Enqueued(Enqueued(Enqueued([], 10), 20), 30);
      Front(s) == 10 && Dequeued(s) == [20, 30] && |Dequeued(s)| == 2
  {
  }

  datatype Phase = Idle | Enqueueing | Dequeueing | Peeking

  datatype Op = Enqueue | Dequeue | Peek

  /** `getMaxSteps`. */
  function MaxSteps(p: Phase): nat
  {
    match p
    case Enqueueing => 2
    case Dequeueing => 2
    case Peeking => 1
    case Idle => 0
  }

  class Page {
    var values: seq<int>
    var newValue: string
    var enqueueDialog: bool
    var activeIndex: Option<int>
    var phase: Phase
    var step: nat
    /** The value being enqueued; the page keeps it but does not draw it. */
    var newElement: Option<int>

    /**
     * An animation runs exactly when the step is positive, within its operation's count;
     * the enqueue dialog is only open while idle; a position is highlighted exactly while an
     * animation runs, within the queue or just past its rear.
     */
    ghost predicate Valid()
      reads this
    {
      && (phase == Idle <==> step == 0)
      && step <= MaxSteps(phase)
      && (enqueueDialog ==> phase == Idle)
      && (phase == Idle <==> activeIndex == None)
      && (activeIndex.Some? ==> 0 <= activeIndex.value <= |values|)
    }

    /** `disabled`: every button needs an idle page; dequeue and peek need a non-empty queue. */
    predicate Disabled(op: Op)
      reads this
    {
      phase != Idle || ((op == Dequeue || op == Peek) && |values| == 0)
    }

    constructor()
      ensures Valid()
      ensures values == [10, 20, 30, 40, 50] && newValue == "" && !enqueueDialog && phase == Idle
    {
      values := [10, 20, 30, 40, 50];
      newValue := "";
      enqueueDialog := false;
      activeIndex := None;
      phase := Idle;
      step := 0;
      newElement := None;
    }

    /**
     * A click on a button, which the modal dialog covers while open: nothing when it is
     * disabled; enqueue opens its dialog, dequeue and peek act at once.
     */
    method Click(op: Op)
      requires Valid() && !enqueueDialog
      modifies this
      ensures Valid()
      ensures old(Disabled(op)) ==>
                values == old(values) && enqueueDialog == old(enqueueDialog) && phase == old(phase)
                && step == old(step) && activeIndex == old(activeIndex)
      ensures !old(Disabled(op)) && op == Enqueue ==> enqueueDialog && values == old(values) && phase == Idle
      ensures op != Enqueue ==> !enqueueDialog
      ensures !old(Disabled(op)) && op == Dequeue ==>
                values == Dequeued(old(values)) && phase == Dequeueing && step == 1
                && activeIndex == Some(0)
      ensures !old(Disabled(op)) && op == Peek ==>
                values == old(values) && phase == Peeking && step == 1
                && activeIndex == Some(0)
      ensures newValue == old(newValue) && newElement == old(newElement)
    {
      if Disabled(op) {
        return;
      }
      match op
      case Enqueue => enqueueDialog := true;
      case Dequeue => HandleDequeue();
      case Peek => HandlePeek();
    }

    method Dismiss()
      requires Valid()
      modifies this
      ensures Valid() && !enqueueDialog
      ensures values == old(values) && phase == old(phase) && step == old(step)
      ensures activeIndex == old(activeIndex) && newValue == old(newValue) && newElement == old(newElement)
    {
      enqueueDialog := false;
    }

    method Type(value: string)
      requires Valid() && enqueueDialog
      modifies this
      ensures Valid() && newValue == value
      ensures values == old(values) && phase == old(phase) && step == old(step)
      ensures activeIndex == old(activeIndex) && enqueueDialog == old(enqueueDialog) && newElement == old(newElement)
    {
      newValue := value;
    }

    /**
     * `handleEnqueue`: a blank or unreadable value changes nothing; otherwise the value goes
     * at the rear and is highlighted there, the field is cleared and the dialog closed.
     */
    method HandleEnqueue()
      requires Valid() && enqueueDialog
      modifies this
      ensures Valid()
      ensures ReadNumber(old(newValue)).None? ==>
                values == old(values) && phase == old(phase) && step == old(step)
                && activeIndex == old(activeIndex) && newValue == old(newValue)
                && enqueueDialog == old(enqueueDialog) && newElement == old(newElement)
      ensures ReadNumber(old(newValue)).Some? ==>
                && values == Enqueued(old(values), ReadNumber(old(newValue)).value)
                && newElement == ReadNumber(old(newValue))
                && phase == Enqueueing && step == 1 && activeIndex == Some(|values| - 1)
                && newValue == "" && !enqueueDialog
    {
      var value := ReadNumber(newValue);
      if value.None? {
        return;
      }
      newElement := value;
      phase, step := Enqueueing, 1;
      activeIndex := Some(|values|);
      values := Enqueued(values, value.value);
      newValue := "";
      enqueueDialog := false;
    }

    /** `handleDequeue`: nothing on an empty queue; otherwise the front is highlighted and removed. */
    method HandleDequeue()
      requires Valid() && !enqueueDialog
      modifies this
      ensures Valid()
      ensures old(values) == [] ==>
                values == old(values) && phase == old(phase) && step == old(step)
                && activeIndex == old(activeIndex)
      ensures old(values) != [] ==>
                values == Dequeued(old(values)) && phase == Dequeueing && step == 1
                && activeIndex == Some(0)
      ensures newValue == old(newValue) && !enqueueDialog && newElement == old(newElement)
    {
      if values == [] {
        return;
      }
      phase, step := Dequeueing, 1;
      activeIndex := Some(0);
      values := Dequeued(values);
    }

    /** `handlePeek`: nothing on an empty queue; otherwise the front is highlighted. */
    method HandlePeek()
      requires Valid() && !enqueueDialog
      modifies this
      ensures Valid()
      ensures old(values) == [] ==>
                phase == old(phase) && step == old(step) && activeIndex == old(activeIndex)
      ensures old(values) != [] ==>
                phase == Peeking && step == 1 && activeIndex == Some(0)
      ensures values == old(values) && newValue == old(newValue) && newElement == old(newElement)
      ensures !enqueueDialog
    {
      if values == [] {
        return;
      }
      phase, step := Peeking, 1;
      activeIndex := Some(0);
    }

    /**
     * One firing of the step timer: the next step, or back to idle with nothing
     * highlighted. The enqueued value is forgotten too, except after a peek.
     */
    method Fire()
      requires Valid() && phase != Idle
      modifies this
      ensures Valid()
      ensures match Advance(old(step), MaxSteps(old(phase)))
        case Some(next) =>
          step == next && phase == old(phase) && activeIndex == old(activeIndex)
          && newElement == old(newElement)
        case None =>
          phase == Idle && step == 0 && activeIndex == None
          && newElement == if old(phase) == Peeking then old(newElement) else None
      ensures values == old(values) && enqueueDialog == old(enqueueDialog) && newValue == old(newValue)
    {
      match Advance(step, MaxSteps(phase))
      case Some(next) =>
        step := next;
      case None =>
        if phase != Peeking {
          newElement := None;
        }
        phase, step, activeIndex := Idle, 0, None;
    }
  }
}
