# Briefing form builder: step-tree editor and steppers in Dafny

This project models the sequential logic inside the briefing front end.
A designer page ("New") builds a form out of steps. Each step holds inputs, and each input holds optional conditions.
A renderer page ("Briefing") walks an end user through a stored form one step at a time.
The model covers:

- the designer's step-tree edits: `addStep`, `addStepInput`, `addCondition`, `changeStepText`, `changeStepInputText` and `changeCondition`. `addStep` appends a fresh step and cannot fail. The other five are pure functions from the old step list to a `Result` holding the new list. They work by find-by-position, filter, prepend and `sort(compareStep)`.
- the designer's stepper: three stages plus the completion view, guarded by the buttons' `disabled` tests.
- the renderer's state machine: `activeStep`, the loading flag, and the error/modal flags driven by `status >= 400` payloads. It also covers which step and which inputs are rendered.
- the object helpers `objectToArray` and `extract`, over Dafny maps.
- the `Step` and `StepInput` records and their constructor defaults.

Modules: `Wrappers` (Option, Result), `Entities` (records and defaults), `StepOrder` (`compareStep`, the sort, find/filter/reinsert), `StepEditor` (the six edits and their field selectors), `DesignerSession` (a whole editing session from the initial `[]`), `DesignerWizard`, `BriefingRenderer` and `ObjectUtils`.

Modelling choices:

- **Errors.** A handler that dereferences a cast-away `undefined` or an out-of-range index throws a `TypeError` in the source. The model returns `Failure(StepNotFound | InputIndexOutOfRange | ConditionIndexOutOfRange)` in those cases. No handler changes anything before it throws, so over a session a failed edit leaves the list as it was.
- **Sorting.** `sort(compareStep)` is modelled as an insertion sort by position. The lists the designer sorts never hold two steps with the same position (`DesignerSession.ReplayWellFormed`). On such lists `StepOrder.ReinsertReplaces` fixes the exact result, so the order of ties never matters and no stability property is stated.
- **Field writes.** A field write by string key becomes a selector limited to the keys the page passes: `title`/`subtitle`, `label`/`conditionId`, and `type`/`stepInputId`/`value`.
    - The input-type selector passes `conditionId`, which `StepInput` does not declare. The model writes that key into the input's `stray` property map. As a result, no edit ever sets `inputId`; `DesignerSession.ReplayWellFormed` proves this.
    - The property `label` is called `labelText` in Dafny, because `label` is a keyword.
- **Conditions.** An `InputCondition` is an open map from property name to value.
- **The renderer.** Each fetch is reduced to "a payload arrived". The mount effect runs once, so the renderer's invariant assumes at most one definition payload.

The page does not validate the author or the title before Next. Its only guards are the buttons' `disabled` tests, and the model follows them.

## Model

| member | source | states |
|---|---|---|
| Entities.NewStep | src/entities/Step.ts:12-18 | a new step has position 1, empty title and subtitle, no inputs, no step conditions and no id |
| Entities.NewStepInput | src/entities/StepInput.ts:11-15 | a new input has an empty `inputId`, label and helper; no id and no classes; and its conditions list is absent rather than empty |
| StepOrder.CompareStep | src/components/pages/New/index.tsx:116-120 | the result is -1, 0 or 1: negative exactly when the first position is smaller, positive exactly when it is larger |
| StepOrder.CompareStepAntisymmetric | src/components/pages/New/index.tsx:116-120 | swapping the two steps negates the answer, and the answer is 0 exactly when the positions are equal |
| StepOrder.SortSteps | src/components/pages/New/index.tsx:85 | the `compareStep` sort's output is ordered by position, and it has the input's length |
| StepOrder.SortStepsPermutes | src/components/pages/New/index.tsx:85 | the sort only reorders: its output is a permutation (same multiset) of its input |
| StepOrder.InsertSorted | src/components/pages/New/index.tsx:116-120 | one insertion into a position-ordered list keeps it ordered |
| StepOrder.SortSortedIsIdentity | src/components/pages/New/index.tsx:85 | sorting a list that is already ordered gives it back unchanged |
| StepOrder.FindPosition | src/components/pages/New/index.tsx:81 | `find` by position returns nothing exactly when no step holds the position; otherwise it returns the first step that does |
| StepOrder.FindPositionUnique | src/components/pages/New/index.tsx:81 | with strictly increasing positions, `find` lands on the one step holding the position |
| StepOrder.WithoutPosition | src/components/pages/New/index.tsx:82 | `filter` keeps no step with the position and never grows the list |
| StepOrder.WithoutPositionKeepsOthers | src/components/pages/New/index.tsx:82 | a step survives the filter exactly when it was in the list and its position differs from the target |
| StepOrder.WithoutPositionDropsOne | src/components/pages/New/index.tsx:82 | with strictly increasing positions, the filter removes exactly the one target step and keeps the rest in order |
| StepOrder.Reinsert | src/components/pages/New/index.tsx:84-85 | prepend-and-sort always yields a position-ordered list, at most one longer than the original |
| StepOrder.ReinsertPermutes | src/components/pages/New/index.tsx:84-85 | prepend-and-sort is a permutation: the result holds the modified step and the filtered steps, each as often as before |
| StepOrder.ReinsertReplaces | src/components/pages/New/index.tsx:81-86 | on strictly increasing positions, find/filter/prepend/sort with a step that keeps its position is an in-place replacement of that one step: nothing else moves or changes, and positions stay strictly increasing |
| StepEditor.SetStepField | src/components/pages/New/index.tsx:157-163 | writing `title` or `subtitle` sets exactly that field; the other text field, the position, the inputs and the id are unchanged |
| StepEditor.SetInputField | src/components/pages/New/index.tsx:173-179 | writing `label` or `conditionId` sets exactly that property; `inputId`, helper, classes, conditions and every other stray property are unchanged |
| StepEditor.SetConditionField | src/components/pages/New/index.tsx:190-199 | writing `type`, `stepInputId` or `value` sets exactly that key and keeps every other key and value |
| StepEditor.AppendCondition | src/components/pages/New/index.tsx:100-104 | an absent or empty list becomes a one-element list; otherwise one condition is pushed; both branches append exactly one condition, and nothing else in the input changes |
| StepEditor.AddStep | src/components/pages/New/index.tsx:66-72 | appends one fresh step and keeps all earlier steps; its position is 1 on an empty list (so the initial `[]` becomes exactly `[new Step()]`) and the last step's position + 1 otherwise; strictly increasing positions stay strictly increasing |
| StepEditor.AddStepInput | src/components/pages/New/index.tsx:80-87 | fails with StepNotFound exactly when no step holds the position |
| StepEditor.AddStepInputEffect | src/components/pages/New/index.tsx:80-87 | on a valid list the target step's inputs grow by exactly one `new StepInput()` at the end; the list length and every other step are unchanged |
| StepEditor.AddCondition | src/components/pages/New/index.tsx:96-108 | StepNotFound exactly when no step holds the position; never a condition-index error |
| StepEditor.AddConditionEffect | src/components/pages/New/index.tsx:96-108 | on a valid list: fails exactly when the input index is out of range; otherwise the chosen input's conditions become its old ones (absent read as empty) plus one, and every other input and step is unchanged |
| StepEditor.ChangeStepText | src/components/pages/New/index.tsx:157-163 | fails with StepNotFound exactly when no step holds the position |
| StepEditor.ChangeStepTextEffect | src/components/pages/New/index.tsx:157-163 | on a valid list only the named text field of the target step changes |
| StepEditor.ChangeStepInputText | src/components/pages/New/index.tsx:173-179 | StepNotFound exactly when no step holds the position; never a condition-index error |
| StepEditor.ChangeStepInputTextEffect | src/components/pages/New/index.tsx:173-179 | on a valid list: fails exactly when the input index is out of range; otherwise only the named field of that one input changes |
| StepEditor.ChangeCondition | src/components/pages/New/index.tsx:190-199 | fails with StepNotFound exactly when no step holds the position |
| StepEditor.ChangeConditionEffect | src/components/pages/New/index.tsx:190-199 | on a valid list: input index out of range fails; an input with absent or empty conditions leaves the list exactly as it was; a condition index out of range fails; otherwise only the named key of that one condition changes |
| StepEditor.FreshInputStartsConditionList | src/entities/StepInput.ts:9-15 | a fresh input's conditions are absent, so `addCondition` takes the branch that starts a one-element list |
| DesignerSession.HandleKeepsWellFormed | src/components/pages/New/index.tsx:66-199 | every edit, whether it succeeds or fails, keeps positions at least 1 and strictly increasing, and keeps every `inputId` empty |
| DesignerSession.ReplayWellFormed | src/components/pages/New/index.tsx:43 | every session starting from `[]` reaches only lists with strictly increasing positions that are at least 1, and no edit ever records an input type, because the type selector writes `conditionId` |
| DesignerSession.AddStepsNumbersFromOne | src/components/pages/New/index.tsx:66-72 | applying `addStep` n times to `[]` gives positions exactly 1..n, in order |
| DesignerWizard.Click | src/components/pages/New/index.tsx:52-61 | an enabled Next adds 1, an enabled Back subtracts 1, a disabled button changes nothing |
| DesignerWizard.RunStaysInRange | src/components/pages/New/index.tsx:476-487 | with Back disabled at 0 and Next disabled at 3, `activeStep` never leaves 0..3 |
| DesignerWizard.EveryStageReachable | src/components/pages/New/index.tsx:52-54 | each of 0..3 is reached by that many Next clicks |
| DesignerWizard.ExactlyOneBlock | src/components/pages/New/index.tsx:232-471 | in 0..3 exactly one of the identity, basic-info, design and completion blocks renders, the completion block exactly at 3 |
| ObjectUtils.ObjectToArray | src/utils/functions.ts:1-10 | the result has exactly the input's keys, each with the same value; no keys gives an empty result |
| ObjectUtils.Extract | src/utils/functions.ts:12-20 | a present key moves to the new object with its value and leaves the input; an absent key gives an empty object and leaves the input as it was; the two parts are disjoint and together rebuild the input |
| BriefingRenderer.SetErrorValue | src/components/pages/Briefing/index.tsx:103-107 | raises the error flag, records the message, opens the modal, and changes nothing else |
| BriefingRenderer.ClearError | src/components/pages/Briefing/index.tsx:109-113 | lowers the error flag, empties the message, closes the modal, and changes nothing else |
| BriefingRenderer.HandleModalClose | src/components/pages/Briefing/index.tsx:115-117 | closes only the modal; the error flag and message survive |
| BriefingRenderer.LoadingEffect | src/components/pages/Briefing/index.tsx:147-148 | loading ends exactly when `briefing.steps` is present, otherwise it keeps its value; it is never set back to true |
| BriefingRenderer.ReceiveBriefing | src/components/pages/Briefing/index.tsx:79-90 | a `status >= 400` payload sets the error, the message and the modal and leaves briefing, steps, inputs and loading unchanged; otherwise it stores the definition and its steps, keeps the error state, and ends loading when steps are present |
| BriefingRenderer.ReceiveInputs | src/components/pages/Briefing/index.tsx:92-101 | a `status >= 400` payload only reports the error; otherwise it stores the catalog, keeps everything else, and ends loading once steps are present |
| BriefingRenderer.Click | src/components/pages/Briefing/index.tsx:122-140 | an enabled Next adds exactly 1 and clears the error, whether it is wired to `save` or `handleNext`; an enabled Back subtracts 1; a disabled button changes nothing |
| BriefingRenderer.Init | src/components/pages/Briefing/index.tsx:70-77 | the page starts at step 0, loading, with no error and a closed modal; this state satisfies the invariant and renders no step |
| BriefingRenderer.RunInvariant | src/components/pages/Briefing/index.tsx:227-235 | with at most one definition payload, every state reachable from `Init` has `activeStep` in 0..steps.length + 1, an open modal only with the error flag, an empty message without it, and loading false exactly when `briefing.steps` is present |
| BriefingRenderer.LoadingNeverRestarts | src/components/pages/Briefing/index.tsx:73-150 | once `loading` is false, no event (payload, click or modal close) sets it back to true |
| BriefingRenderer.RenderedSteps | src/components/pages/Briefing/index.tsx:186-187 | only the step whose index equals `activeStep` renders, and none when `activeStep` is outside the step list |
| BriefingRenderer.ViewsAreExclusive | src/components/pages/Briefing/index.tsx:186-223 | in a reachable state the active step renders iff `activeStep < steps.length`; "Formulario finalizado" and a step never show together; neither shows only at steps.length + 1 |
| BriefingRenderer.FindInput | src/components/pages/Briefing/index.tsx:196 | returns a catalog entry exactly when one has an id equal to `inputId`, and the entry returned has that id |
| BriefingRenderer.FindInputIsFirst | src/components/pages/Briefing/index.tsx:196 | the entry `find` returns is the first with that id: it sits in the catalog and no earlier entry has the id |
| BriefingRenderer.VisibleInputs | src/components/pages/Briefing/index.tsx:195-197 | every rendered input comes from the step and is paired with the first catalog entry matching its `inputId` |
| BriefingRenderer.VisibleInputsComplete | src/components/pages/Briefing/index.tsx:195-197 | every input of the step that has a matching catalog entry is rendered |
| BriefingRenderer.VisibleInputsExactlyMatched | src/components/pages/Briefing/index.tsx:195-197 | an input renders iff it belongs to the step and some catalog entry has its `inputId`; unmatched inputs are skipped |
| BriefingRenderer.VisibleInputsPreservesOrder | src/components/pages/Briefing/index.tsx:195 | rendering keeps the step's order: the inputs of a concatenation render as the two renderings in turn |

## Left out

- HTTP loading through axios: `loadInputs` and `loadConditions` in the designer, and the transport part of the renderer's loaders. Each response is reduced to a payload that arrived; the network, the base URL and timing are not modelled.
- JSX layout, Material-UI components, `makeStyles`, the stepper's step labels and the Next button's caption: presentation only. The renderer's backdrop covers the page while loading, which could block clicks; the model treats both buttons as reachable at all times.
- `document.title` in the renderer's loading effect: a DOM side effect.
- React scheduling (`useState`/`useEffect` batching) and the in-place aliasing of `modifiedStep`. Aliasing changes the old array before `setAddedSteps`. Each edit is modelled as a pure function from the old list to the new one.
- The designer's `save`: a logging stub with no behaviour.
- The `console.log(modifiedStep)` in `changeStepInputText` (src/components/pages/New/index.tsx:174): console output only, with no effect on state. The designer's `author`, `title` and `description` text setters are plain assignments with no logic.
- The router's route table; the `Briefing`, `Input` and `StepCondition` constructors, which the modelled logic never calls. Only their field shapes are used.
- The bodies of `InputCondition` and `Condition`. They are not part of this model, so a condition is an opaque property map. `new InputCondition()` is the `blank` argument of `AddCondition`.
- Evaluation of conditions: no code evaluates them.
- Removing a condition: the source has no such operation.
- BriefingRenderer.ReceiveBriefing: a definition whose `steps` array is absent is read as having no steps. The source would store `undefined` and fail at `steps.map`.
- BriefingRenderer.RunInvariant: assumes at most one definition payload arrives, as the mount effect fetches it once. A second, shorter definition could leave `activeStep` beyond the new bound.
- JavaScript numbers: positions and indices are unbounded integers. Non-integer indices cannot come from the page and are not modelled. Negative indices read `undefined` and fail, as they do in the source.
- ObjectUtils.ObjectToArray: the result is a key-to-value map. The `length` of the JavaScript array receiving those keys is not modelled, nor are the special effects of numeric keys on it.
