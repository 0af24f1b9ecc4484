/**
 * The designer's step list over a whole editing session: the list starts
 * empty and every UI event applies one edit. An edit that throws leaves the
 * list as it was, since no handler changes anything before it throws.
 */
module DesignerSession {
  import opened Wrappers
  import opened Entities
  import opened StepOrder
  import opened StepEditor

  /** One editing event, with the arguments the UI passes. */
  datatype Edit =
    | AddStepEdit
    | AddStepInputEdit(pos: int)
    | AddConditionEdit(pos: int, inputIndex: int, blank: Condition)
    | ChangeStepTextEdit(stepField: StepField, pos: int, text: string)
    | ChangeStepInputTextEdit(inputField: InputField, pos: int, inputIndex: int, text: string)
    | ChangeConditionEdit(conditionField: ConditionField, pos: int, inputIndex: int,
                          conditionIndex: int, text: string)

  /** Runs one edit. */
  function Apply(steps: seq<Step>, e: Edit): Result<seq<Step>, EditError> {
    match e
    case AddStepEdit => Success(AddStep(steps))
    case AddStepInputEdit(pos) => AddStepInput(steps, pos)
    case AddConditionEdit(pos, ii, blank) => AddCondition(steps, pos, ii, blank)
    case ChangeStepTextEdit(f, pos, v) => ChangeStepText(steps, f, pos, v)
    case ChangeStepInputTextEdit(f, pos, ii, v) => ChangeStepInputText(steps, f, pos, ii, v)
    case ChangeConditionEdit(f, pos, ii, ci, v) => ChangeCondition(steps, f, pos, ii, ci, v)
  }

  /** The list after one event: a thrown handler never reaches `setAddedSteps`. */
  function Handle(steps: seq<Step>, e: Edit): seq<Step> {
    match Apply(steps, e)
    case Success(r) => r
    case Failure(_) => steps
  }

  /** The list after a session of events, starting from the initial `[]`. */
  function Replay(edits: seq<Edit>): seq<Step> {
    if |edits| == 0 then []
    else Handle(Replay(edits[..|edits| - 1]), edits[|edits| - 1])
  }

  /**
   * No step input records an input type. The type selector writes the key
   * `conditionId`, so nothing the designer does ever sets `inputId`.
   */
  predicate NoInputTypeChosen(steps: seq<Step>) {
    forall i, j :: 0 <= i < |steps| && 0 <= j < |steps[i].inputs| ==> steps[i].inputs[j].inputId == ""
  }

  /** What holds of the list at every point of a session. */
  predicate WellFormed(steps: seq<Step>) {
    && StrictlyIncreasing(steps)
    && (forall i :: 0 <= i < |steps| ==> steps[i].position >= 1)
    && NoInputTypeChosen(steps)
  }

  /** Replacing one step by another at the same position, with no input type, keeps the list well formed. */
  lemma ReplaceKeepsWellFormed(steps: seq<Step>, k: int, m: Step)
    requires WellFormed(steps)
    requires 0 <= k < |steps|
    requires m.position == steps[k].position
    requires forall j :: 0 <= j < |m.inputs| ==> m.inputs[j].inputId == ""
    ensures WellFormed(steps[k := m])
  {
    var r := steps[k := m];
    assert forall i :: 0 <= i < |r| ==> r[i].position == steps[i].position;
  }

  /** `addStep` keeps the list well formed. */
  lemma AddStepKeepsWellFormed(steps: seq<Step>)
    requires WellFormed(steps)
    ensures WellFormed(AddStep(steps))
  {
    var r := AddStep(steps);
    var n := |steps|;
    assert forall i :: 0 <= i < n ==> r[i] == steps[i] by {
      forall i | 0 <= i < n ensures r[i] == steps[i] {
        assert r[..n][i] == r[i];
      }
    }
    assert r[n].inputs == [];
    assert n > 0 ==> r[n].position > steps[n - 1].position >= 1;
    forall i | 0 <= i < |r| ensures r[i].position >= 1 {
      if i < n { assert r[i] == steps[i]; }
    }
    forall i, j | 0 <= i < |r| && 0 <= j < |r[i].inputs| ensures r[i].inputs[j].inputId == "" {
      assert i < n && r[i] == steps[i];
    }
  }

  /** A successful edit aimed at position `pos` replaces the step there by one the lemma names. */
  lemma EditKeepsWellFormed(steps: seq<Step>, e: Edit, k: int)
    requires WellFormed(steps)
    requires !e.AddStepEdit?
    requires 0 <= k < |steps| && steps[k].position == e.pos
    ensures WellFormed(Handle(steps, e))
  {
    var s := steps[k];
    match e {
      case AddStepInputEdit(pos) =>
        AddStepInputEffect(steps, k);
        ReplaceKeepsWellFormed(steps, k, s.(inputs := s.inputs + [NewStepInput()]));
      case AddConditionEdit(pos, ii, blank) =>
        AddConditionEffect(steps, k, ii, blank);
        if 0 <= ii < |s.inputs| {
          var input := s.inputs[ii];
          ReplaceKeepsWellFormed(steps, k, s.(inputs := s.inputs[ii :=
            input.(conditions := Some(ConditionsOf(input) + [blank]))]));
        }
      case ChangeStepTextEdit(f, pos, v) =>
        ChangeStepTextEffect(steps, k, f, v);
        ReplaceKeepsWellFormed(steps, k, SetStepField(s, f, v));
      case ChangeStepInputTextEdit(f, pos, ii, v) =>
        ChangeStepInputTextEffect(steps, k, f, ii, v);
        if 0 <= ii < |s.inputs| {
          ReplaceKeepsWellFormed(steps, k, s.(inputs := s.inputs[ii := SetInputField(s.inputs[ii], f, v)]));
        }
      case ChangeConditionEdit(f, pos, ii, ci, v) =>
        ChangeConditionEffect(steps, k, f, ii, ci, v);
        if 0 <= ii < |s.inputs| {
          var input := s.inputs[ii];
          var conds := ConditionsOf(input);
          if |conds| > 0 && 0 <= ci < |conds| {
            ReplaceKeepsWellFormed(steps, k, s.(inputs := s.inputs[ii :=
              input.(conditions := Some(conds[ci := SetConditionField(conds[ci], f, v)]))]));
          }
        }
    }
  }

  /** Every event keeps the list well formed. */
  lemma HandleKeepsWellFormed(steps: seq<Step>, e: Edit)
    requires WellFormed(steps)
    ensures WellFormed(Handle(steps, e))
  {
    if e.AddStepEdit? {
      AddStepKeepsWellFormed(steps);
    } else if HasPosition(steps, e.pos) {
      var k :| 0 <= k < |steps| && steps[k].position == e.pos;
      EditKeepsWellFormed(steps, e, k);
    }
  }

  /**
   * At every point of every session, positions are at least 1 and strictly
   * increasing, and no step input has an input type.
   */
  lemma {:induction false} ReplayWellFormed(edits: seq<Edit>)
    ensures WellFormed(Replay(edits))
  {
    if |edits| > 0 {
      ReplayWellFormed(edits[..|edits| - 1]);
      HandleKeepsWellFormed(Replay(edits[..|edits| - 1]), edits[|edits| - 1]);
    }
  }

  /** The list after `addStep` is applied `n` times to the initial `[]`. */
  function AddSteps(n: nat): (r: seq<Step>)
    ensures |r| == n
  {
    if n == 0 then [] else AddStep(AddSteps(n - 1))
  }

  /** The positions of a list of steps, in order. */
  function Positions(steps: seq<Step>): (r: seq<int>)
    ensures |r| == |steps|
  {
    seq(|steps|, i requires 0 <= i < |steps| => steps[i].position)
  }

  /** Adding `n` steps to the empty list numbers them 1, 2, ..., n in order. */
  lemma {:induction false} AddStepsNumbersFromOne(n: nat)
    ensures Positions(AddSteps(n)) == seq(n, i => i + 1)
  {
    if n > 0 {
      AddStepsNumbersFromOne(n - 1);
      var prev := AddSteps(n - 1);
      assert n - 1 > 0 ==> prev[n - 2].position == Positions(prev)[n - 2];
      var r := AddSteps(n);
      forall i | 0 <= i < n ensures Positions(r)[i] == i + 1 {
        if i < n - 1 {
          assert r[..n - 1][i] == r[i];
          assert Positions(prev)[i] == i + 1;
        }
      }
    }
  }
}
