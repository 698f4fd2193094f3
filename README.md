# Bootstrap 5 form validators, modelled in Dafny

This project models the two form-validation controllers of the
bootstrap5-form-validator repository: `BS5FormValidator`
(`bs5-form-validator.js`) and `SimpleValidator` (`simple-validator.js`). The
two share one model and differ in two places, named by `Guard.Variant`:

- `WholeForm` (BS5FormValidator) collects every named control of the form and
  always looks for the form's first `type="submit"` element.
- `ConfiguredOnly` (SimpleValidator) records only the configured fields and can
  take its submit button from an `options.submitButton` selector.

The page is a `Dom.Document`:

- Its `elements` are the page's elements in document order. Each element has a
  name, a type, a value, a checked state, a class set, a parent, inner HTML and
  a disabled flag. It also records whether it lies inside the form.
- Its `feedback` map gives each parent the text of its `.invalid-feedback`
  node, if it has one.

The controller is the class `Controller.Validator`, and its methods update that
document in place:

- `Validate` is the submit handler.
- `HandleInput` is the input handler.
- `ShowError` and `ClearError` are the two annotating methods.

Each method is proved against a specification function:

- `Collector.Collected` gives the whole-form value map.
- `Guard.Errors` and `Guard.FieldValues` give the error map and
  SimpleValidator's value map.
- `Guard.Annotated` gives the markers.
- `Guard.Submission` gives the whole outcome.
- `Listener.AfterInput` gives the effect of an input event.
- `Annotator.MarkedInvalid` and `Annotator.MarkedValid` give the effect of the
  two annotating methods.

The lemmas then state what the controllers promise:

- the shaping rules for checkboxes, radios and plain controls;
- exactly which fields are in the error map;
- the markers and feedback text after a submission;
- the two outcome branches;
- the busy state of the submit button and its `reset` round trip;
- the lazy input listener.

A submission ends with one of three recorded callback outcomes, a `Guard.Call`:
`onValid` with its values and `reset`, `onInvalid` with its error map, or no
callback. `preventDefault` and `stopPropagation` are the two flags of a
`Controller.SubmitEvent`. The caller's `test` predicates are abstract
`string -> bool` functions. `Scenarios` proves worked examples: a checkbox
group, a radio group, and an e-mail form submitted twice.

Two consequences of the code are easy to miss:

- A radio group with nothing checked gives no key at all
  (`Collector.UncheckedRadiosAbsent`). Collection therefore does not give
  every named control an entry.
- The group test at `bs5-form-validator.js:79-80` counts every form element
  with the checkbox's name, whatever its type, and the harvest takes the
  checked ones among them (`Collector.Step`).

## Model

| member | source | states |
|---|---|---|
| Dom.QueryFirst | bs5-form-validator.js:100 | the index found is that of the first element, in document order, that the lookup matches; none is found only when no element matches |
| Dom.QueryAll | bs5-form-validator.js:63 | every element selected matches the lookup, and no more elements are selected than the page holds |
| Dom.QueryAllMembers | bs5-form-validator.js:79 | an element is selected if and only if it is on the page and matches the lookup |
| Dom.QueryAllConcat | bs5-form-validator.js:63 | selection keeps document order: selecting over two runs of elements is selecting over the first, then over the second |
| Dom.QueryFirstIgnoresClasses | bs5-form-validator.js:100 | a lookup finds the same control however earlier fields re-marked the page's classes |
| Dom.CheckedValues | bs5-form-validator.js:82-85 | the group harvest holds the value of every checked member and only values of checked members |
| Dom.CheckedValuesConcat | bs5-form-validator.js:83-85 | the harvest keeps document order: harvesting two runs of elements is harvesting the first, then the second |
| Collector.Step | bs5-form-validator.js:65-93 | one pass of the collection loop, with the branches radio (write when checked), checkbox (skip a name already present; a list of the group's checked values when more than one form element has the name, else the boolean checked state) and any other type (write the value string); it touches only the element's own name, and adds that name unless the element is an unchecked radio. Its values per name are stated by `Collector.CollectedByName` and the shaping lemmas below |
| Collector.Collected | bs5-form-validator.js:63-94 | the whole-form value map: a list value only under a name that more than one form element carries, and then exactly the checked values of that group; a boolean only under a name no other form element carries. `Collector.CollectValues` is proved to build it; `Collector.CollectedByName` gives each name's entry |
| Collector.CheckedValuesOf | bs5-form-validator.js:82-86 | the inner loop builds exactly the group harvest |
| Collector.CollectValues | bs5-form-validator.js:63-94 | the collection loop builds exactly the whole-form value map |
| Collector.CollectedByName | bs5-form-validator.js:63-94 | the entry of each name depends only on the form elements carrying that name, in document order: the walk agrees with a per-name reference |
| Collector.KeysAreNames | bs5-form-validator.js:63-66 | only names of elements inside the form ever become keys |
| Collector.CheckboxGroupValue | bs5-form-validator.js:73-86 | when the first checkbox of a name comes after unchecked radios only, every later element of the name is a checkbox (skipped) or an unchecked radio, and more than one element carries the name, the value is the list of the checked values in document order |
| Collector.SingleCheckboxValue | bs5-form-validator.js:77-89 | a checkbox alone with its name gives its boolean checked state |
| Collector.UncheckedRadiosAbsent | bs5-form-validator.js:69-72 | when every element of a name is an unchecked radio, the name is absent from the values |
| Collector.LastWriterWins | bs5-form-validator.js:69-93 | the last plain control or checked radio of a name gives its value string, overwriting earlier entries; later checkboxes and unchecked radios do not change it |
| Annotator.MarkedInvalid | bs5-form-validator.js:152-165 | showError: the control shows `is-invalid` and not `is-valid`, keeps its other classes, and nothing else on the page changes; its parent gains a feedback node only if it had none, and that node shows the message; other parents' text is unchanged |
| Annotator.MarkedValid | bs5-form-validator.js:167-170 | clearError: the control shows `is-valid` and not `is-invalid`, keeps its other classes, and feedback is untouched |
| Annotator.ShowErrorIdempotent | bs5-form-validator.js:152-165 | showing the same error twice adds no node and changes nothing more |
| Annotator.ClearErrorIdempotent | bs5-form-validator.js:167-170 | clearing twice is clearing once |
| Annotator.ClearAfterShow | simple-validator.js:120-138 | clearError after showError gives clearError's markers while the feedback text of showError stays |
| Annotator.RepeatedFailuresOneNode | simple-validator.js:125-132 | two failures in a row leave one feedback node showing the latest message |
| Guard.Bound | bs5-form-validator.js:100-102 | a field's control is the first element inside the form carrying the field's name; none when no form element carries it, and then the field is skipped |
| Guard.Errors | bs5-form-validator.js:108-110 | the error map built over the fields in order; its keys are configured field names. `Guard.ErrorsExact` states exactly which fields it holds and with which message |
| Guard.FieldValues | simple-validator.js:68-71 | SimpleValidator's value map built over the fields in order; every value is a string. `Guard.FieldValuesExact` states exactly which fields it holds |
| Guard.Mark | bs5-form-validator.js:104-114 | annotating one field (clearError when its test passes, showError when it fails, nothing without a control) changes only class lists and never removes a feedback node; `Guard.MarkersAfterEvaluation` and the feedback lemmas give the result |
| Guard.Annotated | bs5-form-validator.js:96-116 | the annotated elements differ from the original only in their class lists; the markers and feedback it leaves are given by the lemmas below |
| Guard.ErrorsExact | bs5-form-validator.js:97-116 | a field is in the error map if and only if its control exists and fails its test, and it maps to its error message |
| Guard.NoErrorsIffNoneFails | bs5-form-validator.js:108-118 | the error map is empty exactly when no configured field fails |
| Guard.FieldValuesExact | simple-validator.js:63-71 | SimpleValidator's values hold exactly the configured fields whose control exists, failing or not, each mapped to that control's value string |
| Guard.MarkersAfterEvaluation | bs5-form-validator.js:104-114 | after evaluation, a field's control shows valid when its test passed and invalid when it failed, keeping its other classes; before the field's turn the control is untouched |
| Guard.UnboundUntouched | bs5-form-validator.js:100-102 | a control no configured field is bound to keeps its classes |
| Guard.FeedbackNodesAfterEvaluation | bs5-form-validator.js:108-111 | after evaluation a parent has a feedback node exactly when it had one before or holds a failing field's control |
| Guard.FeedbackKeptAfterEvaluation | bs5-form-validator.js:112-114 | a parent holding no failing field's control keeps its feedback text |
| Guard.FeedbackMessage | bs5-form-validator.js:108-111 | a failing field's parent shows that field's message unless a later failing field shares the parent |
| Guard.Truthy | simple-validator.js:96 | an optional string option is falsy exactly when it is absent or empty |
| Guard.ButtonQuery | simple-validator.js:86-88 | BS5FormValidator, and SimpleValidator without a truthy `submitButton`, look for the form's `type="submit"` element; a document-wide selector is used only when it is the non-empty `submitButton` option |
| Guard.ResolveButton | simple-validator.js:86-88 | with a non-empty `submitButton` option the button is the first element of the whole document matching that selector, otherwise the form's first `type="submit"` element; none when nothing matches |
| Guard.Busy | bs5-form-validator.js:124-131 | the busy button is disabled and shows the loading markup only when it is non-empty; nothing else changes |
| Guard.RunReset | bs5-form-validator.js:122-136 | the no-op reset changes nothing; a restoring reset re-enables the button and restores the captured markup, and changes no other field of the button and no other element or feedback |
| Guard.BusyRoundTrip | simple-validator.js:92-105 | resetting a busy button restores exactly the markup captured before the change and re-enables it; nothing else differs |
| Guard.Submission | bs5-form-validator.js:55-150 | one whole submission: the page keeps its elements, `onInvalid` is called only on a prevented submission and with a non-empty error map, `onValid` only on an accepted one; `Guard.SubmissionBranches`, `Guard.AcceptedBusyState` and `Guard.SubmissionMarkers` state the rest |
| Guard.SubmissionBranches | bs5-form-validator.js:118-149 | default is prevented exactly when some field fails, and then only `onInvalid` (if a function) is called, with the error map; otherwise `onValid` is called exactly when it is a function, with the variant's values, and `onInvalid` is never called |
| Guard.AcceptedBusyState | simple-validator.js:84-110 | on acceptance default is not prevented; the resolved button is disabled and shows the loading markup only when that is non-empty, whether or not `onValid` is a function; `onValid`, when a function, gets the values and a `reset` that restores the captured markup; without a button the page is only annotated and `reset` does nothing |
| Guard.SubmissionMarkers | simple-validator.js:63-82 | after a submission every bound field's control shows the outcome of its own test |
| Listener.InputKey | bs5-form-validator.js:37-41 | the configuration key of an input is its `name` attribute; an element without one looks up the key "null", the key of a field named "null" |
| Listener.RuleFor | bs5-form-validator.js:41-47 | the configuration found for an input's name is the field of that name; none is found only when no field has it |
| Listener.AfterInput | bs5-form-validator.js:36-53 | an input event changes the page if and only if the target's field is configured, the target carries `is-invalid` and its value now passes; the change is then exactly clearError on the target |
| Listener.LazyThenReactive | simple-validator.js:36-53 | before a submission, input on a control without `is-invalid` changes nothing; after a submission marked it invalid, an edit that passes moves it to valid without another submission |
| Controller.InvokeReset | simple-validator.js:101-104 | calling `reset` performs the restoration it recorded |
| Controller.Validator.constructor | bs5-form-validator.js:8-19 | the listeners are attached exactly when the form was found |
| Controller.Validator.OnSubmit | bs5-form-validator.js:26-28 | a submit event invokes validate when the listener is attached; otherwise nothing changes |
| Controller.Validator.OnInput | simple-validator.js:31-33 | an input event invokes handleInput when the listener is attached; otherwise nothing changes |
| Controller.Validator.HandleInput | simple-validator.js:36-53 | handleInput updates the page exactly as the input-event specification says |
| Controller.Validator.Validate | bs5-form-validator.js:55-150 | validate updates the page, the event flags and the callback exactly as the submission specification says, and prevents default exactly when some configured field fails |
| Controller.Validator.EvaluateFields | simple-validator.js:63-82 | the field loop leaves the annotated page, the error map, `isValid` true exactly when the map is empty, and the variant's values |
| Controller.Validator.EnterBusy | simple-validator.js:86-105 | the busy branch disables the resolved button, swaps its markup only for non-empty loading markup, and returns the matching `reset`; with no button, nothing changes and `reset` is a no-op |
| Controller.Validator.ShowError | simple-validator.js:120-133 | showError, with the feedback node reused or created, gives the showError specification |
| Controller.Validator.ClearError | simple-validator.js:135-138 | clearError gives the clearError specification |
| Scenarios.CheckboxGroupExample | bs5-form-validator.js:79-86 | checkboxes `opt` with values a, b, c, of which a and c are checked, collect to `["a", "c"]` |
| Scenarios.NoPlanExample | bs5-form-validator.js:69-72 | radios `plan` with none checked give no `plan` key |
| Scenarios.ProPlanExample | bs5-form-validator.js:69-72 | radios `plan` with only `pro` checked give `plan -> "pro"` |
| Scenarios.EmailRejected | bs5-form-validator.js:143-148 | an e-mail without "@" is rejected with its message, which its parent shows |
| Scenarios.EmailAccepted | bs5-form-validator.js:118-141 | an e-mail with "@" is accepted, the button goes busy, and `onValid` gets the collected values, whose `email` entry is the typed address, and a restoring `reset` |

## Left out

- Selector matching: lookups are modelled as the `Dom.Query` kinds the validators issue. A field or control name holding `"` or `\` is not escaped when the source builds `[name="…"]` (`bs5-form-validator.js:79, 100`, `simple-validator.js:66`). Such a name can make the selector invalid, and then `querySelector` throws: `validate` stops before `preventDefault`, and the browser submits the form unvalidated. An invalid `submitButton` selector throws the same way at `simple-validator.js:87`, after the fields were annotated. The model never throws and looks the name up as written.
- Attribute case: `[type="submit"]` (`bs5-form-validator.js:120`, `simple-validator.js:88`) matches the `type` value without regard to ASCII case in an HTML document, so `type="SUBMIT"` is a submit button there; `Dom.Matches` compares it exactly. The `===` comparisons of the collection loop are case-sensitive in the source too.
- Event dispatch and `addEventListener`: modelled as a `listening` flag fixed at construction. Input events are taken on any element, although in a browser only descendants of the form reach the handler.
- The `novalidate` attribute, `console.error` on a missing form, and the `window` export have no observable effect on the model.
- Form navigation after a submission that is not prevented is outside the page model.
- DOM node creation: feedback is one optional text per parent. The source's `parentNode.querySelector('.invalid-feedback')` can find a node deeper in the parent's subtree, or the first of several; those cases are not modelled.
- Property-key order: JavaScript enumerates integer-like keys of `options.fields` first and in ascending order. The model takes the fields in the order given.
- Inherited keys: the model does not treat names such as `toString` or `hasOwnProperty` as special. In the source these resolve to `Object.prototype` members in `this.fields[...]` and `values.hasOwnProperty`.
- Falsy field configurations: every configuration is taken to be an object with a `test` function. The source's `!this.fields[fieldName]` guard and a `test` that throws or has side effects are not modelled.
- Class lists are sets: class order and duplicate class names are not modelled.
- Callbacks: the bodies of `onValid`, `onInvalid` and `test` are foreign code. `onValid`'s `e` and `form` arguments are not recorded.
- Deferred `reset`: `reset` is modelled as a recorded restoration (`Guard.Reset`) applied by `Controller.InvokeReset`. It names the button by its position and assumes the page's elements have not been added, removed or reordered in between.
- Selectors that read classes: an explicit `submitButton` selector is matched against a fixed set of selector strings per element. A selector that tests `.is-valid` or `.is-invalid` would, in a browser, match differently once the fields are annotated (`simple-validator.js:87`). `Dom.QueryFirstIgnoresClasses` holds for such lookups only under this abstraction.
- Elements without a `value` property: `[name]` also matches elements such as `fieldset`, `img`, `a` or `iframe`. For those the source stores `undefined` (`bs5-form-validator.js:92`), while the model stores the element's `value` string.
