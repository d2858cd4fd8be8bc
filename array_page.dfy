/**
 * The array page: an array of numbers edited through dialogs (add, insert, remove,
 * update), each edit shown as a short animation driven by a one-second step timer.
 * The buttons that open the dialogs are disabled while an animation runs.
 */
module ArrayPage {
  import opened Wrappers
  import opened Operations

  datatype Phase = Idle | Adding | Inserting | Removing | Updating

  /** The operations behind the page's buttons, each with its own dialog. */
  datatype Op = Add | Insert | Remove | Update

  /** `getMaxSteps`: how many steps the animation of each operation shows. */
  function MaxSteps(p: Phase): nat
  {
    match p
    case Adding => 2
    case Inserting => 3
    case Removing => 2
    case Updating => 2
    case Idle => 0
  }

  class Page {
    var values: seq<int>
    /** The text of the value and index fields. */
    var newValue: string
    var index: string
    /** The open dialog, if any; the dialogs are modal, so at most one is open. */
    var dialog: Option<Op>
    var activeIndex: Option<int>
    var phase: Phase
    var step: nat

    /**
     * An animation runs exactly when the step is positive, and shows a step within its
     * operation's count; a dialog is only open while idle; the highlighted position is
     * set exactly while an animation runs, and lies within the array or just past it.
     */
    ghost predicate Valid()
      reads this
    {
      && (phase == Idle <==> step == 0)
      && step <= MaxSteps(phase)
      && (dialog.Some? ==> phase == Idle)
      && (phase == Idle <==> activeIndex == None)
      && (activeIndex.Some? ==> 0 <= activeIndex.value <= |values|)
    }

    /** `disabled`: every button needs an idle page; remove and update need a non-empty array. */
    predicate Disabled(op: Op)
      reads this
    {
      phase != Idle || ((op == Remove || op == Update) && |values| == 0)
    }

    /** The page as first shown: `[10, 20, 30, 40, 50]`, idle, no dialog. */
    constructor()
      ensures Valid()
      ensures values == [10, 20, 30, 40, 50] && newValue == "" && index == ""
      ensures dialog == None && phase == Idle
    {
      values := [10, 20, 30, 40, 50];
      newValue := "";
      index := "";
      dialog := None;
      activeIndex := None;
      phase := Idle;
      step := 0;
    }

    /**
     * A click on the button of `op`, which the modal dialogs cover while open: opens its
     * dialog unless the button is disabled.
     */
    method Click(op: Op)
      requires Valid() && dialog == None
      modifies this
      ensures Valid()
      ensures dialog == if old(Disabled(op)) then None else Some(op)
      ensures values == old(values) && phase == old(phase) && step == old(step)
      ensures activeIndex == old(activeIndex) && newValue == old(newValue) && index == old(index)
    {
      if !Disabled(op) {
        dialog := Some(op);
      }
    }

    /** Closing a dialog without confirming it. */
    method Dismiss()
      requires Valid()
      modifies this
      ensures Valid() && dialog == None
      ensures values == old(values) && phase == old(phase) && step == old(step)
      ensures activeIndex == old(activeIndex) && newValue == old(newValue) && index == old(index)
    {
      dialog := None;
    }

    /** Typing into the fields of the open dialog. */
    method Type(value: string, idx: string)
      requires Valid() && dialog.Some?
      modifies this
      ensures Valid() && newValue == value && index == idx
      ensures values == old(values) && phase == old(phase) && step == old(step)
      ensures activeIndex == old(activeIndex) && dialog == old(dialog)
    {
      newValue := value;
      index := idx;
    }

    /**
     * `handleAdd`: a blank or unreadable value changes nothing; otherwise the value is
     * appended, its new position highlighted, the field cleared and the dialog closed.
     */
    method HandleAdd()
      requires Valid() && dialog == Some(Add)
      modifies this
      ensures Valid()
      ensures ReadNumber(old(newValue)).None? ==>
                values == old(values) && phase == old(phase) && step == old(step)
                && activeIndex == old(activeIndex) && newValue == old(newValue) && dialog == old(dialog)
      ensures ReadNumber(old(newValue)).Some? ==>
                && values == old(values) + [ReadNumber(old(newValue)).value]
                && phase == Adding && step == 1 && activeIndex == Some(|old(values)|)
                && newValue == "" && dialog == None
      ensures index == old(index)
    {
      var value := ReadNumber(newValue);
      if value.None? {
        return;
      }
      phase, step, activeIndex := Adding, 1, Some(|values|);
      values := values + [value.value];
      newValue := "";
      dialog := None;
    }

    /**
     * `handleInsert`: accepted only with a readable value and a readable index between 0
     * and the length; the value is then spliced in at that index.
     */
    method HandleInsert()
      requires Valid() && dialog == Some(Insert)
      modifies this
      ensures Valid()
      ensures var v, i := ReadNumber(old(newValue)), ReadNumber(old(index));
        if v.Some? && i.Some? && 0 <= i.value <= |old(values)| then
          && values == InsertAt(old(values), i.value, v.value)
          && phase == Inserting && step == 1 && activeIndex == Some(i.value)
          && newValue == "" && index == "" && dialog == None
        else
          && values == old(values) && phase == old(phase) && step == old(step)
          && activeIndex == old(activeIndex) && newValue == old(newValue) && index == old(index)
          && dialog == old(dialog)
    {
      InsertValue(ReadNumber(newValue), ReadNumber(index));
    }

    /** The part of `handleInsert` after both fields are read, `None` standing for a blank or unreadable field. */
    method InsertValue(v: Option<int>, i: Option<int>)
      requires Valid() && dialog == Some(Insert)
      modifies this
      ensures Valid()
      ensures if v.Some? && i.Some? && 0 <= i.value <= |old(values)| then
          && values == InsertAt(old(values), i.value, v.value)
          && phase == Inserting && step == 1 && activeIndex == Some(i.value)
          && newValue == "" && index == "" && dialog == None
        else
          && values == old(values) && phase == old(phase) && step == old(step)
          && activeIndex == old(activeIndex) && newValue == old(newValue) && index == old(index)
          && dialog == old(dialog)
    {
      if v.None? || i.None? || i.value < 0 || i.value > |values| {
        return;
      }
      phase, step, activeIndex := Inserting, 1, Some(i.value);
      values := InsertAt(values, i.value, v.value);
      newValue, index := "", "";
      dialog := None;
    }

    /**
     * `handleRemove`: accepted only with a readable index of an element; that element is
     * then spliced out. The value field is left as it is.
     */
    method HandleRemove()
      requires Valid() && dialog == Some(Remove)
      modifies this
      ensures Valid()
      ensures var i := ReadNumber(old(index));
        if i.Some? && 0 <= i.value < |old(values)| then
          && values == RemoveAt(old(values), i.value)
          && phase == Removing && step == 1 && activeIndex == Some(i.value)
          && index == "" && dialog == None
        else
          && values == old(values) && phase == old(phase) && step == old(step)
          && activeIndex == old(activeIndex) && index == old(index) && dialog == old(dialog)
      ensures newValue == old(newValue)
    {
      RemoveIndex(ReadNumber(index));
    }

    /** The part of `handleRemove` after the index field is read. */
    method RemoveIndex(i: Option<int>)
      requires Valid() && dialog == Some(Remove)
      modifies this
      ensures Valid()
      ensures if i.Some? && 0 <= i.value < |old(values)| then
          && values == RemoveAt(old(values), i.value)
          && phase == Removing && step == 1 && activeIndex == Some(i.value)
          && index == "" && dialog == None
        else
          && values == old(values) && phase == old(phase) && step == old(step)
          && activeIndex == old(activeIndex) && index == old(index) && dialog == old(dialog)
      ensures newValue == old(newValue)
    {
      if i.None? || i.value < 0 || i.value >= |values| {
        return;
      }
      phase, step, activeIndex := Removing, 1, Some(i.value);
      values := RemoveAt(values, i.value);
      index := "";
      dialog := None;
    }

    /**
     * `handleUpdate`: accepted only with a readable value and a readable index of an
     * element; only that element changes.
     */
    method HandleUpdate()
      requires Valid() && dialog == Some(Update)
      modifies this
      ensures Valid()
      ensures var v, i := ReadNumber(old(newValue)), ReadNumber(old(index));
        if v.Some? && i.Some? && 0 <= i.value < |old(values)| then
          && |values| == |old(values)| && values[i.value] == v.value
          && (forall k :: 0 <= k < |values| && k != i.value ==> values[k] == old(values)[k])
          && phase == Updating && step == 1 && activeIndex == Some(i.value)
          && newValue == "" && index == "" && dialog == None
        else
          && values == old(values) && phase == old(phase) && step == old(step)
          && activeIndex == old(activeIndex) && newValue == old(newValue) && index == old(index)
          && dialog == old(dialog)
    {
      UpdateValue(ReadNumber(newValue), ReadNumber(index));
    }

    /** The part of `handleUpdate` after both fields are read. */
    method UpdateValue(v: Option<int>, i: Option<int>)
      requires Valid() && dialog == Some(Update)
      modifies this
      ensures Valid()
      ensures if v.Some? && i.Some? && 0 <= i.value < |old(values)| then
          && |values| == |old(values)| && values[i.value] == v.value
          && (forall k :: 0 <= k < |values| && k != i.value ==> values[k] == old(values)[k])
          && phase == Updating && step == 1 && activeIndex == Some(i.value)
          && newValue == "" && index == "" && dialog == None
        else
          && values == old(values) && phase == old(phase) && step == old(step)
          && activeIndex == old(activeIndex) && newValue == old(newValue) && index == old(index)
          && dialog == old(dialog)
    {
      if v.None? || i.None? || i.value < 0 || i.value >= |values| {
        return;
      }
      phase, step, activeIndex := Updating, 1, Some(i.value);
      values := values[i.value := v.value];
      newValue, index := "", "";
      dialog := None;
    }

    /**
     * One firing of the step timer, which runs only during an animation: the next step,
     * or, after the last one, back to idle with step 0 and nothing highlighted.
     */
    method Fire()
      requires Valid() && phase != Idle
      modifies this
      ensures Valid()
      ensures match Advance(old(step), MaxSteps(old(phase)))
        case Some(next) => step == next && phase == old(phase) && activeIndex == old(activeIndex)
        case None => phase == Idle && step == 0 && activeIndex == None
      ensures values == old(values) && dialog == old(dialog)
      ensures newValue == old(newValue) && index == old(index)
    {
      match Advance(step, MaxSteps(phase))
      case Some(next) =>
        step := next;
      case None =>
        phase, step, activeIndex := Idle, 0, None;
    }
  }
}
