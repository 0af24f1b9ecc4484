/**
 * The records the form designer and the form renderer work on, with the
 * defaults their constructors assign.
 */
module Entities {
  import opened Wrappers

  /**
   * A condition attached to a step input (`InputCondition`). Its class is not
   * part of this model, so a condition is an open record: the properties the
   * editor has written into it, by name.
   */
  type Condition = map<string, string>

  /** A step-level condition (`StepCondition`); the editor never creates one. */
  datatype StepCondition = StepCondition(
    id: Option<string>,
    conditionId: string,
    stepId: string,
    value: Option<string>,
    goToStep: int)

  /**
   * One field of a step (`StepInput`). `conditions` is optional and absent on
   * a fresh input. `stray` holds the properties written by a key the class does
   * not declare: the editor's type selector writes `conditionId` there.
   */
  datatype StepInput = StepInput(
    id: Option<string>,
    inputId: string,
    labelText: string,
    helper: string,
    classes: Option<string>,
    conditions: Option<seq<Condition>>,
    stray: map<string, string>)

  /** One page of the form (`Step`); `position` is its ordering and lookup key. */
  datatype Step = Step(
    id: Option<string>,
    position: int,
    title: string,
    subtitle: string,
    conditions: seq<StepCondition>,
    inputs: seq<StepInput>)

  /** An entry of the input-type catalog (`Input`). */
  datatype Input = Input(
    id: Option<string>,
    name: string,
    icon: string,
    description: string,
    value: string,
    premium: Option<bool>)

  /** A stored form definition (`Briefing`) as the renderer receives it. */
  datatype Briefing = Briefing(
    id: Option<string>,
    title: string,
    description: string,
    author: string,
    steps: Option<seq<Step>>)

  /** `new Step()`: position 1, empty texts, no inputs, no conditions, no id. */
  function NewStep(): (s: Step)
    ensures s.id == None && s.position == 1
    ensures s.title == "" && s.subtitle == ""
    ensures s.inputs == [] && s.conditions == []
  {
    Step(None, 1, "", "", [], [])
  }

  /**
   * `new StepInput()`: empty type reference, label (`labelText`) and helper; no id, no
   * classes, and no conditions list at all (absent, not empty).
   */
  function NewStepInput(): (i: StepInput)
    ensures i.id == None && i.classes == None
    ensures i.inputId == "" && i.labelText == "" && i.helper == ""
    ensures i.conditions == None && i.stray == map[]
  {
    StepInput(None, "", "", "", None, None, map[])
  }

  /** The conditions of an input, reading an absent list as empty. */
  function ConditionsOf(i: StepInput): seq<Condition> {
    i.conditions.GetOr([])
  }
}
