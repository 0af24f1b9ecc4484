/**
 * The designer's step-tree edits. `addStep` appends a fresh step and cannot
 * fail. Each of the other five finds the target step by position, rebuilds
 * it, and re-inserts it through `Reinsert` (filter, prepend, sort).
 * A failure stands for the `TypeError` the handler throws when a cast-away
 * `undefined` or an out-of-range index is dereferenced.
 */
module StepEditor {
  import opened Wrappers
  import opened Entities
  import opened StepOrder

  /** Why an edit cannot be carried out. */
  datatype EditError =
    | StepNotFound              // no step holds the position: `find` gave `undefined`
    | InputIndexOutOfRange      // `inputs[inputIndex]` is `undefined`
    | ConditionIndexOutOfRange  // `conditions[conditionIndex]` is `undefined`

  /** The step properties `changeStepText` is called with. */
  datatype StepField = Title | Subtitle

  /**
   * The step-input properties `changeStepInputText` is called with: the label
   * box passes `label`, and the type selector passes `conditionId`, a key the
   * `StepInput` class does not declare.
   */
  datatype InputField = Label | ConditionIdKey

  /** The condition properties `changeCondition` is called with. */
  datatype ConditionField = Type | StepInputId | Value

  /** The property name a condition field is written under. */
  function ConditionKey(f: ConditionField): string {
    match f
    case Type => "type"
    case StepInputId => "stepInputId"
    case Value => "value"
  }

  /** The current value of a step text field. */
  function StepText(s: Step, f: StepField): string {
    match f
    case Title => s.title
    case Subtitle => s.subtitle
  }

  /** `modifiedStep[field] = val` on a step. */
  function SetStepField(s: Step, f: StepField, v: string): (r: Step)
    ensures StepText(r, f) == v
    ensures forall g :: g != f ==> StepText(r, g) == StepText(s, g)
    ensures r.id == s.id && r.position == s.position
    ensures r.inputs == s.inputs && r.conditions == s.conditions
  {
    match f
    case Title => s.(title := v)
    case Subtitle => s.(subtitle := v)
  }

  /** The current value of a step-input field; `None` when never written. */
  function InputText(i: StepInput, f: InputField): Option<string> {
    match f
    case Label => Some(i.labelText)
    case ConditionIdKey => if "conditionId" in i.stray then Some(i.stray["conditionId"]) else None
  }

  /** `inputs[inputIndex][field] = val` on a step input. */
  function SetInputField(i: StepInput, f: InputField, v: string): (r: StepInput)
    ensures InputText(r, f) == Some(v)
    ensures forall g :: g != f ==> InputText(r, g) == InputText(i, g)
    ensures r.id == i.id && r.inputId == i.inputId && r.helper == i.helper
    ensures r.classes == i.classes && r.conditions == i.conditions
    ensures forall k :: k != "conditionId" ==> (k in r.stray <==> k in i.stray)
    ensures forall k :: k != "conditionId" && k in r.stray ==> r.stray[k] == i.stray[k]
  {
    match f
    case Label => i.(labelText := v)
    case ConditionIdKey => i.(stray := i.stray["conditionId" := v])
  }

  /** `conditions[conditionIndex][field] = val` on a condition. */
  function SetConditionField(c: Condition, f: ConditionField, v: string): (r: Condition)
    ensures r.Keys == c.Keys + {ConditionKey(f)}
    ensures r[ConditionKey(f)] == v
    ensures forall k :: k in c && k != ConditionKey(f) ==> r[k] == c[k]
  {
    c[ConditionKey(f) := v]
  }

  /**
   * The condition branch of `addCondition`: push onto a non-empty list,
   * otherwise start a one-element list. Either way one condition is appended.
   */
  function AppendCondition(i: StepInput, blank: Condition): (r: StepInput)
    ensures r.conditions == Some(ConditionsOf(i) + [blank])
    ensures r == i.(conditions := r.conditions)
  {
    if i.conditions.Some? && |i.conditions.value| > 0 then
      i.(conditions := Some(i.conditions.value + [blank]))
    else
      assert ConditionsOf(i) + [blank] == [blank];
      i.(conditions := Some([blank]))
  }

  /**
   * `addStep`: appends `new Step()`, positioned one past the last step, or at
   * the default position 1 when the list is empty.
   */
  function AddStep(steps: seq<Step>): (r: seq<Step>)
    ensures |r| == |steps| + 1 && r[..|steps|] == steps
    ensures r[|steps|] == NewStep().(position := r[|steps|].position)
    ensures steps == [] ==> r == [NewStep()]
    ensures |steps| == 0 ==> r[0].position == 1
    ensures |steps| > 0 ==> r[|steps|].position == steps[|steps| - 1].position + 1
    ensures StrictlyIncreasing(steps) ==> StrictlyIncreasing(r)
  {
    var step := if |steps| > 0 then NewStep().(position := steps[|steps| - 1].position + 1) else NewStep();
    steps + [step]
  }

  /** `addStepInput`: appends `new StepInput()` to the inputs of the step at `pos`. */
  function AddStepInput(steps: seq<Step>, pos: int): (r: Result<seq<Step>, EditError>)
    ensures r.Failure? <==> !HasPosition(steps, pos)
    ensures r.Failure? ==> r.error == StepNotFound
  {
    match FindPosition(steps, pos)
    case None => Failure(StepNotFound)
    case Some(i) =>
      var modified := steps[i].(inputs := steps[i].inputs + [NewStepInput()]);
      Success(Reinsert(steps, pos, modified))
  }

  /** `addCondition`: appends the condition `blank` (the value of `new InputCondition()`) to one input of the step at `pos`. */
  function AddCondition(steps: seq<Step>, pos: int, inputIndex: int, blank: Condition)
    : (r: Result<seq<Step>, EditError>)
    ensures r == Failure(StepNotFound) <==> !HasPosition(steps, pos)
    ensures r.Failure? ==> r.error != ConditionIndexOutOfRange
  {
    match FindPosition(steps, pos)
    case None => Failure(StepNotFound)
    case Some(i) =>
      if !(0 <= inputIndex < |steps[i].inputs|) then Failure(InputIndexOutOfRange)
      else
        var input := AppendCondition(steps[i].inputs[inputIndex], blank);
        var modified := steps[i].(inputs := steps[i].inputs[inputIndex := input]);
        Success(Reinsert(steps, pos, modified))
  }

  /** `changeStepText`: writes the title or subtitle of the step at `pos`. */
  function ChangeStepText(steps: seq<Step>, f: StepField, pos: int, v: string)
    : (r: Result<seq<Step>, EditError>)
    ensures r.Failure? <==> !HasPosition(steps, pos)
    ensures r.Failure? ==> r.error == StepNotFound
  {
    match FindPosition(steps, pos)
    case None => Failure(StepNotFound)
    case Some(i) => Success(Reinsert(steps, pos, SetStepField(steps[i], f, v)))
  }

  /** `changeStepInputText`: writes one field of one input of the step at `pos`. */
  function ChangeStepInputText(steps: seq<Step>, f: InputField, pos: int, inputIndex: int, v: string)
    : (r: Result<seq<Step>, EditError>)
    ensures r == Failure(StepNotFound) <==> !HasPosition(steps, pos)
    ensures r.Failure? ==> r.error != ConditionIndexOutOfRange
  {
    match FindPosition(steps, pos)
    case None => Failure(StepNotFound)
    case Some(i) =>
      if !(0 <= inputIndex < |steps[i].inputs|) then Failure(InputIndexOutOfRange)
      else
        var input := SetInputField(steps[i].inputs[inputIndex], f, v);
        Success(Reinsert(steps, pos, steps[i].(inputs := steps[i].inputs[inputIndex := input])))
  }

  /**
   * `changeCondition`: writes one field of one condition of one input of the
   * step at `pos`. When that input has no conditions the handler returns
   * early and the list is left exactly as it was, not even re-sorted.
   */
  function ChangeCondition(
    steps: seq<Step>, f: ConditionField, pos: int, inputIndex: int, conditionIndex: int, v: string)
    : (r: Result<seq<Step>, EditError>)
    ensures r == Failure(StepNotFound) <==> !HasPosition(steps, pos)
  {
    match FindPosition(steps, pos)
    case None => Failure(StepNotFound)
    case Some(i) =>
      if !(0 <= inputIndex < |steps[i].inputs|) then Failure(InputIndexOutOfRange)
      else
        var input := steps[i].inputs[inputIndex];
        if input.conditions.None? || |input.conditions.value| == 0 then Success(steps)
        else
          var conds := input.conditions.value;
          if !(0 <= conditionIndex < |conds|) then Failure(ConditionIndexOutOfRange)
          else
            var cond := SetConditionField(conds[conditionIndex], f, v);
            var input' := input.(conditions := Some(conds[conditionIndex := cond]));
            Success(Reinsert(steps, pos, steps[i].(inputs := steps[i].inputs[inputIndex := input'])))
  }

  // ---------------------------------------------------------------------
  // Effects on a list with unique positions: each edit is an in-place
  // replacement of the one target step, and nothing else changes.
  // ---------------------------------------------------------------------

  /** `addStepInput` grows the target step's inputs by one blank input at the end. */
  lemma AddStepInputEffect(steps: seq<Step>, k: int)
    requires StrictlyIncreasing(steps)
    requires 0 <= k < |steps|
    ensures AddStepInput(steps, steps[k].position)
         == Success(steps[k := steps[k].(inputs := steps[k].inputs + [NewStepInput()])])
  {
    FindPositionUnique(steps, k);
    ReinsertReplaces(steps, k, steps[k].(inputs := steps[k].inputs + [NewStepInput()]));
  }

  /**
   * `addCondition` appends one condition to the chosen input (starting the
   * list when it is absent or empty), or fails when the input index is out of
   * range.
   */
  lemma AddConditionEffect(steps: seq<Step>, k: int, inputIndex: int, blank: Condition)
    requires StrictlyIncreasing(steps)
    requires 0 <= k < |steps|
    ensures var r := AddCondition(steps, steps[k].position, inputIndex, blank);
            if 0 <= inputIndex < |steps[k].inputs| then
              var input := steps[k].inputs[inputIndex];
              r == Success(steps[k := steps[k].(inputs := steps[k].inputs[inputIndex :=
                      input.(conditions := Some(ConditionsOf(input) + [blank]))])])
            else r == Failure(InputIndexOutOfRange)
  {
    FindPositionUnique(steps, k);
    if 0 <= inputIndex < |steps[k].inputs| {
      var input := AppendCondition(steps[k].inputs[inputIndex], blank);
      ReinsertReplaces(steps, k, steps[k].(inputs := steps[k].inputs[inputIndex := input]));
    }
  }

  /** `changeStepText` writes one text field of the target step and nothing else. */
  lemma ChangeStepTextEffect(steps: seq<Step>, k: int, f: StepField, v: string)
    requires StrictlyIncreasing(steps)
    requires 0 <= k < |steps|
    ensures ChangeStepText(steps, f, steps[k].position, v)
         == Success(steps[k := SetStepField(steps[k], f, v)])
  {
    FindPositionUnique(steps, k);
    ReinsertReplaces(steps, k, SetStepField(steps[k], f, v));
  }

  /** `changeStepInputText` writes one field of one input of the target step and nothing else. */
  lemma ChangeStepInputTextEffect(steps: seq<Step>, k: int, f: InputField, inputIndex: int, v: string)
    requires StrictlyIncreasing(steps)
    requires 0 <= k < |steps|
    ensures var r := ChangeStepInputText(steps, f, steps[k].position, inputIndex, v);
            if 0 <= inputIndex < |steps[k].inputs| then
              r == Success(steps[k := steps[k].(inputs := steps[k].inputs[inputIndex :=
                      SetInputField(steps[k].inputs[inputIndex], f, v)])])
            else r == Failure(InputIndexOutOfRange)
  {
    FindPositionUnique(steps, k);
    if 0 <= inputIndex < |steps[k].inputs| {
      var input := SetInputField(steps[k].inputs[inputIndex], f, v);
      ReinsertReplaces(steps, k, steps[k].(inputs := steps[k].inputs[inputIndex := input]));
    }
  }

  /**
   * `changeCondition` is a no-op on an input without conditions; otherwise it
   * writes one field of one condition and nothing else, or fails on an index
   * out of range.
   */
  lemma ChangeConditionEffect(
    steps: seq<Step>, k: int, f: ConditionField, inputIndex: int, conditionIndex: int, v: string)
    requires StrictlyIncreasing(steps)
    requires 0 <= k < |steps|
    ensures var r := ChangeCondition(steps, f, steps[k].position, inputIndex, conditionIndex, v);
            if !(0 <= inputIndex < |steps[k].inputs|) then r == Failure(InputIndexOutOfRange)
            else
              var input := steps[k].inputs[inputIndex];
              var conds := ConditionsOf(input);
              if |conds| == 0 then r == Success(steps)
              else if !(0 <= conditionIndex < |conds|) then r == Failure(ConditionIndexOutOfRange)
              else r == Success(steps[k := steps[k].(inputs := steps[k].inputs[inputIndex :=
                        input.(conditions := Some(conds[conditionIndex :=
                          SetConditionField(conds[conditionIndex], f, v)]))])])
  {
    FindPositionUnique(steps, k);
    if 0 <= inputIndex < |steps[k].inputs| {
      var input := steps[k].inputs[inputIndex];
      var conds := ConditionsOf(input);
      if |conds| > 0 && 0 <= conditionIndex < |conds| {
        var input' := input.(conditions := Some(conds[conditionIndex :=
                        SetConditionField(conds[conditionIndex], f, v)]));
        ReinsertReplaces(steps, k, steps[k].(inputs := steps[k].inputs[inputIndex := input']));
      }
    }
  }

  /** A blank input has no conditions list, so `addCondition` takes the branch that starts one. */
  lemma FreshInputStartsConditionList(blank: Condition)
    ensures NewStepInput().conditions.None?
    ensures AppendCondition(NewStepInput(), blank).conditions == Some([blank])
  {
  }
}
