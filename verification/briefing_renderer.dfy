/**
 * The form renderer: it receives a stored form definition and the input-type
 * catalog, shows one step at a time, and reports failed payloads in a modal.
 * Each fetch is abstracted as "a payload arrived".
 */
module BriefingRenderer {
  import opened Wrappers
  import opened Entities

  /** A response body: a status (possibly absent), a message and the data. */
  datatype Payload<T> = Payload(status: Option<int>, message: string, data: T)

  /** `data.status >= 400`; an absent status compares false. */
  predicate Failed<T>(p: Payload<T>) {
    p.status.Some? && p.status.value >= 400
  }

  /** The page's state variables. `briefing` is `None` while it is still the initial `{}`. */
  datatype Renderer = Renderer(
    activeStep: int,
    briefing: Option<Briefing>,
    steps: seq<Step>,
    inputs: seq<Input>,
    loading: bool,
    error: bool,
    errorMessage: string,
    modalOpen: bool)

  /** The initial state of the page: it satisfies `Invariant` and renders no step yet. */
  function Init(): (r: Renderer)
    ensures r.activeStep == 0 && r.loading && !r.error && !r.modalOpen
    ensures Invariant(r)
    ensures RenderedSteps(r.steps, r.activeStep) == []
  {
    Renderer(0, None, [], [], true, false, "", false)
  }

  /** `briefing.steps` is present. */
  predicate StepsPresent(s: Renderer) {
    s.briefing.Some? && s.briefing.value.steps.Some?
  }

  /** `setErrorValue`: raises the error flag, records the message and opens the modal. */
  function SetErrorValue(s: Renderer, msg: string): (r: Renderer)
    ensures r.error && r.errorMessage == msg && r.modalOpen
    ensures r.activeStep == s.activeStep && r.loading == s.loading
    ensures r.briefing == s.briefing && r.steps == s.steps && r.inputs == s.inputs
  {
    s.(error := true, errorMessage := msg, modalOpen := true)
  }

  /** `clearError`: lowers the error flag, empties the message and closes the modal. */
  function ClearError(s: Renderer): (r: Renderer)
    ensures !r.error && r.errorMessage == "" && !r.modalOpen
    ensures r.activeStep == s.activeStep && r.loading == s.loading
    ensures r.briefing == s.briefing && r.steps == s.steps && r.inputs == s.inputs
  {
    s.(error := false, errorMessage := "", modalOpen := false)
  }

  /** `handleModalClose`: closes the modal and keeps the error flag and message. */
  function HandleModalClose(s: Renderer): (r: Renderer)
    ensures !r.modalOpen
    ensures r.error == s.error && r.errorMessage == s.errorMessage
    ensures r.activeStep == s.activeStep && r.loading == s.loading
    ensures r.briefing == s.briefing && r.steps == s.steps && r.inputs == s.inputs
  {
    s.(modalOpen := false)
  }

  /**
   * The effect on `[briefing, inputs]`: loading ends once `briefing.steps` is
   * present. Its `inputs` test always passes, an array being truthy.
   */
  function LoadingEffect(s: Renderer): (r: Renderer)
    ensures r.loading == (s.loading && !StepsPresent(s))
    ensures r == s.(loading := r.loading)
  {
    if StepsPresent(s) then s.(loading := false) else s
  }

  /**
   * `loadBriefing` once its response arrived. A failed payload only reports
   * the error. Otherwise the definition and its steps are stored; a
   * definition without a steps array is read as having no steps.
   */
  function ReceiveBriefing(s: Renderer, p: Payload<Briefing>): (r: Renderer)
    ensures Failed(p) ==> r == s.(error := true, errorMessage := p.message, modalOpen := true)
    ensures !Failed(p) ==> r.briefing == Some(p.data) && r.steps == p.data.steps.GetOr([])
    ensures !Failed(p) ==> r.loading == (s.loading && p.data.steps.None?)
    ensures !Failed(p) ==> r.inputs == s.inputs && r.activeStep == s.activeStep
    ensures !Failed(p) ==> r.error == s.error && r.errorMessage == s.errorMessage && r.modalOpen == s.modalOpen
  {
    if Failed(p) then SetErrorValue(s, p.message)
    else LoadingEffect(s.(briefing := Some(p.data), steps := p.data.steps.GetOr([])))
  }

  /** `loadInputs` once its response arrived: a failed payload only reports the error. */
  function ReceiveInputs(s: Renderer, p: Payload<seq<Input>>): (r: Renderer)
    ensures Failed(p) ==> r == s.(error := true, errorMessage := p.message, modalOpen := true)
    ensures !Failed(p) ==> r.inputs == p.data && r.loading == (s.loading && !StepsPresent(s))
    ensures !Failed(p) ==> r.briefing == s.briefing && r.steps == s.steps && r.activeStep == s.activeStep
    ensures !Failed(p) ==> r.error == s.error && r.errorMessage == s.errorMessage && r.modalOpen == s.modalOpen
  {
    if Failed(p) then SetErrorValue(s, p.message)
    else LoadingEffect(s.(inputs := p.data))
  }

  /** The navigation buttons. */
  datatype Button = Back | Next

  /** Back is disabled at 0; Next is disabled one past the completion view. */
  predicate Enabled(s: Renderer, b: Button) {
    match b
    case Back => s.activeStep != 0
    case Next => s.activeStep != |s.steps| + 1
  }

  /** `handleNext`: clears the error, then advances. */
  function HandleNext(s: Renderer): Renderer {
    ClearError(s).(activeStep := s.activeStep + 1)
  }

  /** `handleBack`: goes back one step. */
  function HandleBack(s: Renderer): Renderer {
    s.(activeStep := s.activeStep - 1)
  }

  /** `save`: on the last step the Next button calls this, which only calls `handleNext`. */
  function Save(s: Renderer): Renderer {
    HandleNext(s)
  }

  /** A click on a button: the handler it is wired to, or nothing when disabled. */
  function Click(s: Renderer, b: Button): (r: Renderer)
    ensures !Enabled(s, b) ==> r == s
    ensures Enabled(s, b) && b == Back ==> r == s.(activeStep := s.activeStep - 1)
    ensures Enabled(s, b) && b == Next ==>
      r == s.(activeStep := s.activeStep + 1, error := false, errorMessage := "", modalOpen := false)
  {
    if !Enabled(s, b) then s
    else match b
      case Back => HandleBack(s)
      case Next => if s.activeStep == |s.steps| - 1 then Save(s) else HandleNext(s)
  }

  /** What can happen to the page. */
  datatype Event =
    | BriefingArrived(briefingPayload: Payload<Briefing>)
    | InputsArrived(inputsPayload: Payload<seq<Input>>)
    | Clicked(button: Button)
    | ModalClosed

  /** The state after one event. */
  function Handle(s: Renderer, e: Event): Renderer {
    match e
    case BriefingArrived(p) => ReceiveBriefing(s, p)
    case InputsArrived(p) => ReceiveInputs(s, p)
    case Clicked(b) => Click(s, b)
    case ModalClosed => HandleModalClose(s)
  }

  /** The state after a sequence of events, from the initial state. */
  function Run(events: seq<Event>): Renderer {
    if |events| == 0 then Init()
    else Handle(Run(events[..|events| - 1]), events[|events| - 1])
  }

  /** How many definition payloads a sequence of events delivers. */
  function BriefingArrivals(events: seq<Event>): nat {
    if |events| == 0 then 0
    else BriefingArrivals(events[..|events| - 1]) + (if events[|events| - 1].BriefingArrived? then 1 else 0)
  }

  /** What holds of the page at every point of its life. */
  predicate Invariant(s: Renderer) {
    && 0 <= s.activeStep <= |s.steps| + 1
    && (s.modalOpen ==> s.error)
    && (!s.error ==> s.errorMessage == "")
    && (!s.loading <==> StepsPresent(s))
  }

  /**
   * The mount effect fetches the definition once, so at most one definition
   * payload arrives. Under that, every reachable state satisfies `Invariant`,
   * and before the definition arrives there are no steps.
   */
  lemma {:induction false} RunInvariant(events: seq<Event>)
    requires BriefingArrivals(events) <= 1
    ensures Invariant(Run(events))
    ensures BriefingArrivals(events) == 0 ==> Run(events).briefing.None? && Run(events).steps == []
  {
    if |events| > 0 {
      var prefix := events[..|events| - 1];
      RunInvariant(prefix);
    }
  }

  /** Nothing sets `loading` back to true: once the page has loaded, no event restarts it. */
  lemma LoadingNeverRestarts(s: Renderer, e: Event)
    requires !s.loading
    ensures !Handle(s, e).loading
  {
  }

  /** `steps.map` with `index !== activeStep` returning nothing: the steps actually rendered. */
  function RenderedSteps(steps: seq<Step>, active: int): (r: seq<Step>)
    ensures r == (if 0 <= active < |steps| then [steps[active]] else [])
  {
    if |steps| == 0 then []
    else (if active == 0 then [steps[0]] else []) + RenderedSteps(steps[1..], active - 1)
  }

  /** "Formulario finalizado" is shown exactly at `activeStep == steps.length`. */
  predicate ShowsFinished(s: Renderer) {
    s.activeStep == |s.steps|
  }

  /**
   * In every reachable state exactly one of three things is on screen: the
   * active step, the completion message, or, one click past it, neither.
   */
  lemma ViewsAreExclusive(s: Renderer)
    requires Invariant(s)
    ensures |RenderedSteps(s.steps, s.activeStep)| == 1 <==> s.activeStep < |s.steps|
    ensures ShowsFinished(s) ==> RenderedSteps(s.steps, s.activeStep) == []
    ensures !ShowsFinished(s) && RenderedSteps(s.steps, s.activeStep) == [] ==> s.activeStep == |s.steps| + 1
  {
  }

  /** `inputs.find(input => input.id === inputId)`: the first catalog entry with that id. */
  function FindInput(catalog: seq<Input>, inputId: string): (r: Option<Input>)
    ensures r.None? <==> forall j :: 0 <= j < |catalog| ==> catalog[j].id != Some(inputId)
    ensures r.Some? ==> r.value.id == Some(inputId)
  {
    if |catalog| == 0 then None
    else if catalog[0].id == Some(inputId) then Some(catalog[0])
    else
      assert forall j :: 1 <= j < |catalog| ==> catalog[j] == catalog[1..][j - 1];
      FindInput(catalog[1..], inputId)
  }

  /** The entry `find` returns is the first one with that id: no earlier entry has it. */
  lemma {:induction false} FindInputIsFirst(catalog: seq<Input>, inputId: string)
    requires FindInput(catalog, inputId).Some?
    ensures exists j :: 0 <= j < |catalog| && catalog[j] == FindInput(catalog, inputId).value
                     && forall i :: 0 <= i < j ==> catalog[i].id != Some(inputId)
  {
    if catalog[0].id != Some(inputId) {
      FindInputIsFirst(catalog[1..], inputId);
      var j :| 0 <= j < |catalog[1..]| && catalog[1..][j] == FindInput(catalog, inputId).value
               && forall i :: 0 <= i < j ==> catalog[1..][i].id != Some(inputId);
      assert catalog[j + 1] == catalog[1..][j];
      assert forall i :: 1 <= i < j + 1 ==> catalog[i] == catalog[1..][i - 1];
    } else {
      assert catalog[0] == FindInput(catalog, inputId).value;
    }
  }

  /**
   * `sInputs.map` returning nothing when the catalog has no entry: the inputs
   * rendered for a step, each paired with the catalog entry that types it.
   */
  function VisibleInputs(sInputs: seq<StepInput>, catalog: seq<Input>): (r: seq<(StepInput, Input)>)
    ensures |r| <= |sInputs|
    ensures forall j :: 0 <= j < |r| ==> r[j].0 in sInputs && FindInput(catalog, r[j].0.inputId) == Some(r[j].1)
  {
    if |sInputs| == 0 then []
    else
      var rest := VisibleInputs(sInputs[1..], catalog);
      match FindInput(catalog, sInputs[0].inputId)
      case None => rest
      case Some(input) => [(sInputs[0], input)] + rest
  }

  /** Every input of the step that has a catalog entry is rendered. */
  lemma {:induction false} VisibleInputsComplete(sInputs: seq<StepInput>, catalog: seq<Input>, x: StepInput)
    requires x in sInputs && FindInput(catalog, x.inputId).Some?
    ensures exists j :: 0 <= j < |VisibleInputs(sInputs, catalog)| && VisibleInputs(sInputs, catalog)[j].0 == x
  {
    var rest := VisibleInputs(sInputs[1..], catalog);
    var r := VisibleInputs(sInputs, catalog);
    if x == sInputs[0] {
      assert r == [(x, FindInput(catalog, x.inputId).value)] + rest;
      assert r[0].0 == x;
    } else {
      assert x in sInputs[1..];
      VisibleInputsComplete(sInputs[1..], catalog, x);
      var j :| 0 <= j < |rest| && rest[j].0 == x;
      match FindInput(catalog, sInputs[0].inputId) {
        case None =>
          assert r == rest;
        case Some(input) =>
          assert r == [(sInputs[0], input)] + rest;
          assert r[j + 1] == rest[j];
      }
    }
  }

  /** An input is rendered exactly when some catalog entry has its `inputId`. */
  lemma VisibleInputsExactlyMatched(sInputs: seq<StepInput>, catalog: seq<Input>, x: StepInput)
    ensures (exists j :: 0 <= j < |VisibleInputs(sInputs, catalog)| && VisibleInputs(sInputs, catalog)[j].0 == x)
        <==> x in sInputs && FindInput(catalog, x.inputId).Some?
  {
    if x in sInputs && FindInput(catalog, x.inputId).Some? {
      VisibleInputsComplete(sInputs, catalog, x);
    }
  }

  /** Rendering preserves order: the inputs of a concatenation render as the two renderings in turn. */
  lemma {:induction false} VisibleInputsPreservesOrder(a: seq<StepInput>, b: seq<StepInput>, catalog: seq<Input>)
    ensures VisibleInputs(a + b, catalog) == VisibleInputs(a, catalog) + VisibleInputs(b, catalog)
  {
    if |a| > 0 {
      assert (a + b)[0] == a[0] && (a + b)[1..] == a[1..] + b;
      VisibleInputsPreservesOrder(a[1..], b, catalog);
    } else {
      assert a + b == b;
    }
  }
}
