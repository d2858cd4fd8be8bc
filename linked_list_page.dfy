/**
 * The linked-list page: a list of numbers edited through dialogs (add to end, insert at a
 * position, remove at a position), each edit shown as a short animation driven by a
 * one-second step timer that also highlights the nodes a traversal walks over.
 */
module LinkedListPage {
  import opened Wrappers
  import opened Operations
  import CustomInput

  datatype Phase = Idle | Adding | Inserting | Removing

  datatype Op = Add | Insert | Remove

  /** `getMaxSteps`. */
  function MaxSteps(p: Phase): nat
  {
    match p
    case Adding => 3
    case Inserting => 4
    case Removing => 3
    case Idle => 0
  }

  /** The loop `for (i = 0; i <= k; i++)`: the positions `0 .. k`, none when `k` is negative or NaN. */
  function UpTo(k: Option<int>): (r: seq<int>)
    ensures forall i :: 0 <= i < |r| ==> r[i] == i
    ensures |r| == if k.None? || k.value < 0 then 0 else k.value + 1
  {
    if k.None? || k.value < 0 then [] else seq(k.value + 1, i => i)
  }

  /**
   * `updateHighlightedIndices`, called by the firing that leaves step `shown` of `phase`
   * (the step its closure saw): the new highlight, or `None` when it is left as it was.
   * Adding walks the `length` nodes the list has before the append lands; inserting and
   * removing walk up to the number `parseInt` reads from the index field.
   */
  function Traversal(phase: Phase, shown: nat, index: string, length: int): (t: Option<seq<int>>)
    ensures t.Some? <==> ((phase.Adding? || phase.Inserting?) && (shown == 1 || shown == 2))
                         || (phase.Removing? && shown == 1)
  {
    match phase
    case Adding =>
      if shown == 1 then Some([]) else if shown == 2 then Some(UpTo(Some(length - 1))) else None
    case Inserting =>
      if shown == 1 then Some([]) else if shown == 2 then Some(UpTo(CustomInput.ParseInt(index))) else None
    case Removing =>
      if shown == 1 then Some(UpTo(CustomInput.ParseInt(index))) else None
    case Idle => None
  }

  /**
   * A traversal is always a prefix `0 .. k` of the positions; adding walks at most the
   * nodes of the list; and with the index field cleared, as the handlers leave it,
   * inserting and removing highlight nothing at all.
   */
  lemma TraversalMeans(phase: Phase, shown: nat, index: string, length: int)
    ensures var t := Traversal(phase, shown, index, length);
      && (t.Some? ==> forall i :: 0 <= i < |t.value| ==> t.value[i] == i)
      && (phase == Adding && t.Some? ==> |t.value| <= if length < 0 then 0 else length)
      && (phase == Adding && shown == 2 && length > 0 ==> t.Some? && |t.value| == length)
      && (phase != Adding && index == "" ==> t.None? || t.value == [])
  {
    assert CustomInput.ParseInt("") == None;
  }

  class Page {
    var values: seq<int>
    var newValue: string
    var index: string
    /** The open dialog, if any; the dialogs are modal, so at most one is open. */
    var dialog: Option<Op>
    var activeIndex: Option<int>
    var phase: Phase
    var step: nat
    var newElement: Option<int>
    var highlighted: seq<int>

    /**
     * An animation runs exactly when the step is positive, within its operation's count;
     * a dialog is only open while idle; nothing is highlighted while idle; a highlighted
     * position lies within the list or just past it; the highlighted nodes are a prefix of
     * the list; and an insertion or removal runs with the index field cleared and so
     * highlights no traversal.
     */
    ghost predicate Valid()
      reads this
    {
      && (phase == Idle <==> step == 0)
      && step <= MaxSteps(phase)
      && (dialog.Some? ==> phase == Idle)
      && (phase == Idle ==> activeIndex == None && highlighted == [])
      && (activeIndex.Some? ==> 0 <= activeIndex.value <= |values|)
      && (phase == Adding ==> |values| >= 1)
      && ((phase == Inserting || phase == Removing) ==> index == "" && highlighted == [])
      && (forall i :: 0 <= i < |highlighted| ==> highlighted[i] == i)
      && |highlighted| <= |values|
    }

    /** `disabled`: every button needs an idle page; remove needs a non-empty list. */
    predicate Disabled(op: Op)
      reads this
    {
      phase != Idle || (op == Remove && |values| == 0)
    }

    constructor()
      ensures Valid()
      ensures values == [10, 20, 30, 40, 50] && newValue == "" && index == ""
      ensures dialog == None && phase == Idle && highlighted == []
    {
      values := [10, 20, 30, 40, 50];
      newValue := "";
      index := "";
      dialog := None;
      activeIndex := None;
      phase := Idle;
      step := 0;
      newElement := None;
      highlighted := [];
    }

    /**
     * A click on the button of `op`, which the modal dialogs cover while open: opens its
     * dialog unless the button is disabled.
     */
    method Click(op: Op)
      requires Valid() && dialog == None
      modifies this
      ensures Valid()
      ensures dialog == if old(Disabled(op)) then None else Some(op)
      ensures values == old(values) && phase == old(phase) && step == old(step)
      ensures activeIndex == old(activeIndex) && newValue == old(newValue) && index == old(index)
      ensures newElement == old(newElement) && highlighted == old(highlighted)
    {
      if !Disabled(op) {
        dialog := Some(op);
      }
    }

    method Dismiss()
      requires Valid()
      modifies this
      ensures Valid() && dialog == None
      ensures values == old(values) && phase == old(phase) && step == old(step)
      ensures activeIndex == old(activeIndex) && newValue == old(newValue) && index == old(index)
      ensures newElement == old(newElement) && highlighted == old(highlighted)
    {
      dialog := None;
    }

    /** Typing into the fields of the open dialog. */
    method Type(value: string, idx: string)
      requires Valid() && dialog.Some?
      modifies this
      ensures Valid() && newValue == value && index == idx
      ensures values == old(values) && phase == old(phase) && step == old(step)
      ensures activeIndex == old(activeIndex) && dialog == old(dialog)
      ensures newElement == old(newElement) && highlighted == old(highlighted)
    {
      newValue := value;
      index := idx;
    }

    /**
     * `handleAddToEnd`: a blank or unreadable value changes nothing; otherwise the value is
     * appended, the field cleared and the dialog closed. No node is marked active.
     */
    method HandleAddToEnd()
      requires Valid() && dialog == Some(Add)
      modifies this
      ensures Valid()
      ensures ReadNumber(old(newValue)).None? ==>
                values == old(values) && phase == old(phase) && step == old(step)
                && newValue == old(newValue) && dialog == old(dialog) && newElement == old(newElement)
      ensures ReadNumber(old(newValue)).Some? ==>
                && values == old(values) + [ReadNumber(old(newValue)).value]
                && newElement == ReadNumber(old(newValue))
                && phase == Adding && step == 1
                && newValue == "" && dialog == None
      ensures index == old(index) && activeIndex == old(activeIndex) && highlighted == old(highlighted)
    {
      var value := ReadNumber(newValue);
      if value.None? {
        return;
      }
      newElement := value;
      phase, step := Adding, 1;
      values := values + [value.value];
      newValue := "";
      dialog := None;
    }

    /**
     * `handleInsert`: accepted only with a readable value and a readable index between 0
     * and the length; the value is then spliced in at that index, and both fields cleared.
     */
    method HandleInsert()
      requires Valid() && dialog == Some(Insert)
      modifies this
      ensures Valid()
      ensures var v, i := ReadNumber(old(newValue)), ReadNumber(old(index));
        if v.Some? && i.Some? && 0 <= i.value <= |old(values)| then
          && values == InsertAt(old(values), i.value, v.value)
          && newElement == v
          && phase == Inserting && step == 1 && activeIndex == Some(i.value)
          && newValue == "" && index == "" && dialog == None
        else
          && values == old(values) && phase == old(phase) && step == old(step)
          && activeIndex == old(activeIndex) && newValue == old(newValue) && index == old(index)
          && dialog == old(dialog) && newElement == old(newElement)
      ensures highlighted == old(highlighted)
    {
      InsertValue(ReadNumber(newValue), ReadNumber(index));
    }

    /** The part of `handleInsert` after both fields are read, `None` standing for a blank or unreadable field. */
    method InsertValue(v: Option<int>, i: Option<int>)
      requires Valid() && dialog == Some(Insert)
      modifies this
      ensures Valid()
      ensures if v.Some? && i.Some? && 0 <= i.value <= |old(values)| then
          && values == InsertAt(old(values), i.value, v.value)
          && newElement == v
          && phase == Inserting && step == 1 && activeIndex == Some(i.value)
          && newValue == "" && index == "" && dialog == None
        else
          && values == old(values) && phase == old(phase) && step == old(step)
          && activeIndex == old(activeIndex) && newValue == old(newValue) && index == old(index)
          && dialog == old(dialog) && newElement == old(newElement)
      ensures highlighted == old(highlighted)
    {
      if v.None? || i.None? || i.value < 0 || i.value > |values| {
        return;
      }
      newElement := v;
      phase, step, activeIndex := Inserting, 1, Some(i.value);
      values := InsertAt(values, i.value, v.value);
      newValue, index := "", "";
      dialog := None;
    }

    /**
     * `handleRemove`: accepted only with a readable index of a node; that node is then
     * spliced out and the index field cleared. The value field is left as it is.
     */
    method HandleRemove()
      requires Valid() && dialog == Some(Remove)
      modifies this
      ensures Valid()
      ensures var i := ReadNumber(old(index));
        if i.Some? && 0 <= i.value < |old(values)| then
          && values == RemoveAt(old(values), i.value)
          && phase == Removing && step == 1 && activeIndex == Some(i.value)
          && index == "" && dialog == None
        else
          && values == old(values) && phase == old(phase) && step == old(step)
          && activeIndex == old(activeIndex) && index == old(index) && dialog == old(dialog)
      ensures newValue == old(newValue) && newElement == old(newElement) && highlighted == old(highlighted)
    {
      RemoveIndex(ReadNumber(index));
    }

    /** The part of `handleRemove` after the index field is read. */
    method RemoveIndex(i: Option<int>)
      requires Valid() && dialog == Some(Remove)
      modifies this
      ensures Valid()
      ensures if i.Some? && 0 <= i.value < |old(values)| then
          && values == RemoveAt(old(values), i.value)
          && phase == Removing && step == 1 && activeIndex == Some(i.value)
          && index == "" && dialog == None
        else
          && values == old(values) && phase == old(phase) && step == old(step)
          && activeIndex == old(activeIndex) && index == old(index) && dialog == old(dialog)
      ensures newValue == old(newValue) && newElement == old(newElement) && highlighted == old(highlighted)
    {
      if i.None? || i.value < 0 || i.value >= |values| {
        return;
      }
      phase, step, activeIndex := Removing, 1, Some(i.value);
      values := RemoveAt(values, i.value);
      index := "";
      dialog := None;
    }

    /**
     * One firing of the step timer: the next step with the traversal of the step that was
     * shown, or back to idle with nothing active, no pending value and nothing highlighted.
     */
    method Fire()
      requires Valid() && phase != Idle
      modifies this
      ensures Valid()
      ensures match Advance(old(step), MaxSteps(old(phase)))
        case Some(next) =>
          && step == next && phase == old(phase) && activeIndex == old(activeIndex)
          && newElement == old(newElement)
          && highlighted == (match Traversal(old(phase), old(step), old(index), |old(values)| - 1)
                             case Some(t) => t
                             case None => old(highlighted))
        case None =>
          && phase == Idle && step == 0 && activeIndex == None
          && newElement == None && highlighted == []
      ensures values == old(values) && dialog == old(dialog)
      ensures newValue == old(newValue) && index == old(index)
    {
      match Advance(step, MaxSteps(phase))
      case Some(next) =>
        TraversalMeans(phase, step, index, |values| - 1);
        var t := Traversal(phase, step, index, |values| - 1);
        if t.Some? {
          highlighted := t.value;
        }
        step := next;
      case None =>
        phase, step, activeIndex := Idle, 0, None;
        newElement, highlighted := None, [];
    }
  }

  /** The usage example: `[10, 20, 30]` with 15 inserted at 1, then the node at 2 removed. */
  lemma UsageExample()
    ensures InsertAt([10, 20, 30], 1, 15) == [10, 15, 20, 30]
    ensures RemoveAt(InsertAt([10, 20, 30], 1, 15), 2) == [10, 15, 30]
  {
    assert InsertAt([10, 20, 30], 1, 15) == [10] + [15] + [20, 30];
    assert RemoveAt([10, 15, 20, 30], 2) == [10, 15] + [30];
  }
}
