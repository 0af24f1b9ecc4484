/**
 * The designer's stepper: `activeStep` walks the three stages returned by
 * `getSteps()` and then the completion view. Back is disabled at 0 and Next
 * is disabled once the completion view is reached; neither checks the
 * form's contents.
 */
module DesignerWizard {

  /** `getSteps()`: the stage titles shown in the stepper. */
  const Stages: seq<string> := ["Identidad", "Información básica", "Diseño"]

  /** The two navigation buttons. */
  datatype Button = Back | Next

  /** The conditional blocks of the page, each guarded by a test on `activeStep`. */
  datatype Block = IdentityForm | BasicInfoForm | DesignForm | Completion

  /** A button is enabled unless its `disabled` test holds. */
  predicate Enabled(active: int, b: Button) {
    match b
    case Back => active != 0
    case Next => active != |Stages|
  }

  /** A click: `handleNext` adds 1, `handleBack` subtracts 1, a disabled button does nothing. */
  function Click(active: int, b: Button): (r: int)
    ensures !Enabled(active, b) ==> r == active
    ensures Enabled(active, b) ==> r == (if b == Next then active + 1 else active - 1)
  {
    if !Enabled(active, b) then active
    else match b
      case Next => active + 1
      case Back => active - 1
  }

  /** `activeStep` after a sequence of clicks from the initial 0. */
  function Run(clicks: seq<Button>): int {
    if |clicks| == 0 then 0
    else Click(Run(clicks[..|clicks| - 1]), clicks[|clicks| - 1])
  }

  /** The guards keep `activeStep` within the three stages and the completion view. */
  lemma {:induction false} RunStaysInRange(clicks: seq<Button>)
    ensures 0 <= Run(clicks) <= |Stages|
  {
    if |clicks| > 0 {
      RunStaysInRange(clicks[..|clicks| - 1]);
    }
  }

  /** Every stage and the completion view can be reached: `n` clicks on Next reach `n`. */
  lemma {:induction false} EveryStageReachable(n: nat)
    requires n <= |Stages|
    ensures Run(seq(n, _ => Next)) == n
  {
    if n > 0 {
      var clicks := seq(n, _ => Next);
      assert clicks[..n - 1] == seq(n - 1, _ => Next);
      EveryStageReachable(n - 1);
    }
  }

  /** The blocks rendered for `activeStep`: the three stage forms and the completion view. */
  function Blocks(active: int): set<Block> {
    (if active == 0 then {IdentityForm} else {})
    + (if active == 1 then {BasicInfoForm} else {})
    + (if active == 2 then {DesignForm} else {})
    + (if active == |Stages| then {Completion} else {})
  }

  /** Within the reachable range exactly one block is rendered, the completion view only at the end. */
  lemma ExactlyOneBlock(active: int)
    requires 0 <= active <= |Stages|
    ensures |Blocks(active)| == 1
    ensures Completion in Blocks(active) <==> active == |Stages|
  {
    if active == 0 { assert Blocks(active) == {IdentityForm}; }
    else if active == 1 { assert Blocks(active) == {BasicInfoForm}; }
    else if active == 2 { assert Blocks(active) == {DesignForm}; }
    else { assert Blocks(active) == {Completion}; }
  }
}
