/**
 * The controllers themselves (BS5FormValidator and SimpleValidator, one class
 * parameterised by the variant): construction, the submit and input
 * handlers, and the two annotating methods, all updating the page in place.
 */
module Controller {
  import opened Dom
  import opened Collector
  import opened Annotator
  import opened Guard
  import opened Listener

  /** The submit event; `preventDefault` and `stopPropagation` set its two flags. */
  class SubmitEvent {
    var defaultPrevented: bool
    var propagationStopped: bool

    constructor ()
      ensures !defaultPrevented && !propagationStopped
    {
      defaultPrevented := false;
      propagationStopped := false;
    }
  }

  /** The caller invoking the `reset` closure it was handed, possibly long after the submission. */
  method InvokeReset(doc: Document, r: Reset)
    requires r.Restore? ==> r.button < |doc.elements|
    modifies doc
    ensures doc.State() == RunReset(old(doc.State()), r)
  {
    if r.Restore? {
      var btn := doc.elements[r.button];
      doc.elements := doc.elements[r.button := btn.(disabled := false, html := r.html)];
    }
  }

  class Validator {
    const variant: Variant
    const doc: Document
    const options: Options
    const rules: seq<Rule>
    /** Whether the submit and input listeners were attached (the form was found). */
    var listening: bool

    ghost predicate Valid() {
      DistinctFields(rules)
    }

    /**
     * The form selector either resolved (`formFound`) or not; in the latter
     * case no listener is attached and the controller stays inert.
     */
    constructor (variant: Variant, doc: Document, formFound: bool, options: Options, rules: seq<Rule>)
      requires DistinctFields(rules)
      ensures Valid()
      ensures this.variant == variant && this.doc == doc && this.options == options && this.rules == rules
      ensures listening == formFound
    {
      this.variant := variant;
      this.doc := doc;
      this.options := options;
      this.rules := rules;
      listening := formFound;
    }

    /** A submit event reaching the form: handled by `Validate` only when the listener is attached. */
    method OnSubmit(e: SubmitEvent) returns (call: Call)
      requires Valid()
      modifies doc, e
      ensures !listening ==> call == NoCallback && doc.State() == old(doc.State()) && unchanged(e)
      ensures listening ==> var o := Submission(variant, options, rules, old(doc.State()));
                            doc.State() == o.dom && call == o.call
                            && e.defaultPrevented == (old(e.defaultPrevented) || o.prevented)
                            && e.propagationStopped == (old(e.propagationStopped) || o.prevented)
    {
      if listening {
        call := Validate(e);
      } else {
        call := NoCallback;
      }
    }

    /** An input event on element `t`: handled by `HandleInput` only when the listener is attached. */
    method OnInput(t: nat)
      requires t < |doc.elements|
      modifies doc
      ensures doc.State() == if listening then AfterInput(rules, old(doc.State()), t) else old(doc.State())
    {
      if listening {
        HandleInput(t);
      }
    }

    /** handleInput: re-test the target only when it is configured and already marked invalid. */
    method HandleInput(t: nat)
      requires t < |doc.elements|
      modifies doc
      ensures doc.State() == AfterInput(rules, old(doc.State()), t)
    {
      var input := doc.elements[t];
      var fieldName := InputKey(input);
      var fieldConfig := RuleFor(rules, fieldName);
      if fieldConfig.None? {
        return;
      }
      if InvalidMarker in input.classes {
        var valid := rules[fieldConfig.value].test(input.value);
        if valid {
          ClearError(t);
        }
      }
    }

    /**
     * validate: evaluate every configured field, annotate, then reject or
     * accept the submission; it is rejected exactly when some field fails.
     */
    method Validate(e: SubmitEvent) returns (call: Call)
      requires Valid()
      modifies doc, e
      ensures var o := Submission(variant, options, rules, old(doc.State()));
              doc.State() == o.dom && call == o.call
              && e.defaultPrevented == (old(e.defaultPrevented) || o.prevented)
              && e.propagationStopped == (old(e.propagationStopped) || o.prevented)
      ensures !old(e.defaultPrevented) ==>
                (e.defaultPrevented <==> exists j :: 0 <= j < |rules| && Fails(old(doc.elements), rules[j]))
    {
      ghost var d0 := doc.State();
      SubmissionBranches(variant, options, rules, d0);
      var values: map<string, FormValue> := map[];
      if variant == WholeForm {
        values := CollectValues(doc.elements);
      }
      var isValid, errors;
      isValid, errors, values := EvaluateFields(values);
      if isValid {
        var reset := EnterBusy();
        call := if options.onValid then OnValid(values, reset) else NoCallback;
      } else {
        e.defaultPrevented := true;
        e.propagationStopped := true;
        call := if options.onInvalid then OnInvalid(errors) else NoCallback;
      }
    }

    /**
     * The field loop of validate: each configured field with a control is
     * tested, recorded and annotated; SimpleValidator also records its value.
     */
    method EvaluateFields(values0: map<string, FormValue>)
      returns (isValid: bool, errors: map<string, string>, values: map<string, FormValue>)
      requires variant == WholeForm ==> values0 == Collected(doc.elements)
      requires variant == ConfiguredOnly ==> values0 == map[]
      modifies doc
      ensures doc.State() == Annotated(rules, |rules|, old(doc.State()))
      ensures errors == Errors(rules, |rules|, old(doc.elements))
      ensures isValid <==> errors == map[]
      ensures values == SubmittedValues(variant, rules, old(doc.elements))
    {
      ghost var d0 := doc.State();
      isValid := true;
      errors := map[];
      values := values0;
      for i := 0 to |rules|
        invariant doc.State() == Annotated(rules, i, d0)
        invariant errors == Errors(rules, i, d0.elements)
        invariant isValid <==> errors == map[]
        invariant values == if variant == WholeForm then Collected(d0.elements) else FieldValues(rules, i, d0.elements)
      {
        var fieldConfig := rules[i];
        QueryFirstIgnoresClasses(doc.elements, d0.elements, NamedIn(fieldConfig.field));
        var input := QueryFirst(doc.elements, NamedIn(fieldConfig.field));
        if input.None? {
          assert !Fails(d0.elements, fieldConfig) && Bound(d0.elements, fieldConfig.field).None?;
          continue;
        }
        var b := input.value;
        assert doc.elements[b].(classes := d0.elements[b].classes) == d0.elements[b];
        var value := doc.elements[b].value;
        assert Fails(d0.elements, fieldConfig) <==> !fieldConfig.test(value);
        if variant == ConfiguredOnly {
          values := values[fieldConfig.field := Text(value)];
        }
        var valid := fieldConfig.test(value);
        if !valid {
          isValid := false;
          errors := errors[fieldConfig.field := fieldConfig.message];
          assert fieldConfig.field in errors;
          ShowError(b, fieldConfig.message);
        } else {
          ClearError(b);
        }
      }
    }

    /** The loading state of an accepted submission, returning the `reset` closure. */
    method EnterBusy() returns (reset: Reset)
      modifies doc
      ensures match ResolveButton(variant, options, old(doc.elements))
              case None => reset == NoOp && doc.State() == old(doc.State())
              case Some(b) => reset == Restore(b, old(doc.elements[b].html))
                              && doc.State() == Busy(old(doc.State()), b, options.submitButtonLoading)
    {
      var btn := ResolveButton(variant, options, doc.elements);
      reset := NoOp;
      if btn.Some? {
        var b := btn.value;
        var originalHtml := doc.elements[b].html;
        var loadingHtml := options.submitButtonLoading;
        if Truthy(loadingHtml) {
          doc.elements := doc.elements[b := doc.elements[b].(html := loadingHtml.value)];
        }
        doc.elements := doc.elements[b := doc.elements[b].(disabled := true)];
        reset := Restore(b, originalHtml);
      }
    }

    /** showError: mark `input` invalid and show `message` in its parent's (found or created) feedback node. */
    method ShowError(input: nat, message: string)
      requires input < |doc.elements|
      modifies doc
      ensures doc.State() == MarkedInvalid(old(doc.State()), input, message)
    {
      var e := doc.elements[input];
      doc.elements := doc.elements[input := e.(classes := e.classes + {InvalidMarker})];
      doc.elements := doc.elements[input := doc.elements[input].(classes := doc.elements[input].classes - {ValidMarker})];
      if e.parent !in doc.feedback {
        doc.feedback := doc.feedback[e.parent := ""];
      }
      doc.feedback := doc.feedback[e.parent := message];
    }

    /** clearError: mark `input` valid; its feedback node is left alone. */
    method ClearError(input: nat)
      requires input < |doc.elements|
      modifies doc
      ensures doc.State() == MarkedValid(old(doc.State()), input)
    {
      var e := doc.elements[input];
      doc.elements := doc.elements[input := e.(classes := e.classes - {InvalidMarker})];
      doc.elements := doc.elements[input := doc.elements[input].(classes := doc.elements[input].classes + {ValidMarker})];
    }
  }
}
