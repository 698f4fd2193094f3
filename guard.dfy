/**
 * The submission guard: on submit, every configured field is evaluated
 * against the first form control carrying its name, the controls are
 * annotated, an error map is built, and the submission is either rejected
 * (default prevented, `onInvalid(errors)`) or accepted (submit button put in
 * its busy state, `onValid(e, form, values, reset)`).
 */
module Guard {
  import opened Dom
  import opened Collector
  import opened Annotator

  /** One entry of `options.fields`: the field name, its `test` predicate and its `error_message`. */
  datatype Rule = Rule(field: string, test: string -> bool, message: string)

  /** Field names are the keys of a JavaScript object, hence distinct. */
  predicate DistinctFields(rules: seq<Rule>) {
    forall i, j :: 0 <= i < j < |rules| ==> rules[i].field != rules[j].field
  }

  /** The control a field is bound to: the form's first element carrying its name. */
  function Bound(els: seq<Element>, n: string): (r: Option<nat>)
    ensures r.Some? ==> r.value < |els| && els[r.value].inForm && els[r.value].name == Some(n)
    ensures r.Some? ==> forall k :: 0 <= k < r.value ==> !(els[k].inForm && els[k].name == Some(n))
    ensures r.None? ==> forall k :: 0 <= k < |els| ==> !(els[k].inForm && els[k].name == Some(n))
  {
    QueryFirst(els, NamedIn(n))
  }

  /** The field's control exists and its value fails the field's test. */
  predicate Fails(els: seq<Element>, r: Rule) {
    var b := Bound(els, r.field);
    b.Some? && !r.test(els[b.value].value)
  }

  /** The field's control exists and its value passes the field's test. */
  predicate Passes(els: seq<Element>, r: Rule) {
    var b := Bound(els, r.field);
    b.Some? && r.test(els[b.value].value)
  }

  /** The parent of a failing field's control; `None` for a field that does not fail. */
  function FailingParent(els: seq<Element>, r: Rule): Option<ParentId> {
    if Fails(els, r) then Some(els[Bound(els, r.field).value].parent) else None
  }

  /** The error map after the first `k` fields. */
  function Errors(rules: seq<Rule>, k: nat, els: seq<Element>): (r: map<string, string>)
    requires k <= |rules|
    ensures forall n :: n in r ==> exists j :: 0 <= j < k && rules[j].field == n
  {
    if k == 0 then map[]
    else
      var prev := Errors(rules, k - 1, els);
      if Fails(els, rules[k - 1]) then prev[rules[k - 1].field := rules[k - 1].message] else prev
  }

  /** SimpleValidator's values map after the first `k` fields: each bound field's value string. */
  function FieldValues(rules: seq<Rule>, k: nat, els: seq<Element>): (r: map<string, FormValue>)
    requires k <= |rules|
    ensures forall n :: n in r ==> r[n].Text?
  {
    if k == 0 then map[]
    else
      var prev := FieldValues(rules, k - 1, els);
      var b := Bound(els, rules[k - 1].field);
      if b.Some? then prev[rules[k - 1].field := Text(els[b.value].value)] else prev
  }

  /** Annotating one field's control; `els` are the elements as they were when the submission began. */
  function Mark(cur: Dom, r: Rule, els: seq<Element>): (m: Dom)
    requires Reclassed(cur.elements, els)
    ensures Reclassed(m.elements, els)
    ensures cur.feedback.Keys <= m.feedback.Keys
  {
    match Bound(els, r.field)
    case None => cur
    case Some(b) =>
      var m := if r.test(els[b].value) then MarkedValid(cur, b) else MarkedInvalid(cur, b, r.message);
      ReclassedAfter(m.elements, cur.elements, els, b);
      m
  }

  /** The page after the first `k` fields have been annotated. */
  function Annotated(rules: seq<Rule>, k: nat, d: Dom): (r: Dom)
    requires k <= |rules|
    ensures Reclassed(r.elements, d.elements)
  {
    if k == 0 then d else Mark(Annotated(rules, k - 1, d), rules[k - 1], d.elements)
  }

  // ---------------------------------------------------------------------
  // What the evaluation loop produces.
  // ---------------------------------------------------------------------

  /**
   * The error map holds exactly the configured fields whose control exists
   * and fails its test, each mapped to its error message; fields without a
   * control are absent.
   */
  lemma {:induction false} ErrorsExact(rules: seq<Rule>, k: nat, els: seq<Element>, n: string)
    requires DistinctFields(rules) && k <= |rules|
    ensures n in Errors(rules, k, els) <==> exists j :: 0 <= j < k && rules[j].field == n && Fails(els, rules[j])
    ensures forall j :: 0 <= j < k && rules[j].field == n && Fails(els, rules[j]) ==> Errors(rules, k, els)[n] == rules[j].message
  {
    if k > 0 {
      ErrorsExact(rules, k - 1, els, n);
    }
  }

  /** No error is recorded exactly when no configured field fails. */
  lemma NoErrorsIffNoneFails(rules: seq<Rule>, els: seq<Element>)
    requires DistinctFields(rules)
    ensures Errors(rules, |rules|, els) == map[] <==> forall j :: 0 <= j < |rules| ==> !Fails(els, rules[j])
  {
    if exists j :: 0 <= j < |rules| && Fails(els, rules[j]) {
      var j :| 0 <= j < |rules| && Fails(els, rules[j]);
      ErrorsExact(rules, |rules|, els, rules[j].field);
    } else if Errors(rules, |rules|, els) != map[] {
      var n :| n in Errors(rules, |rules|, els);
      ErrorsExact(rules, |rules|, els, n);
    }
  }

  /**
   * SimpleValidator's values map holds exactly the configured fields whose
   * control exists, failing or not, each mapped to that control's value string.
   */
  lemma {:induction false} FieldValuesExact(rules: seq<Rule>, k: nat, els: seq<Element>, n: string)
    requires k <= |rules|
    ensures n in FieldValues(rules, k, els) <==> (exists j :: 0 <= j < k && rules[j].field == n) && Bound(els, n).Some?
    ensures n in FieldValues(rules, k, els) ==> FieldValues(rules, k, els)[n] == Text(els[Bound(els, n).value].value)
  {
    if k > 0 {
      FieldValuesExact(rules, k - 1, els, n);
    }
  }

  /** Two fields with different names are bound to different controls. */
  lemma BoundDistinct(els: seq<Element>, r1: Rule, r2: Rule)
    requires r1.field != r2.field && Bound(els, r1.field).Some?
    ensures Bound(els, r2.field) != Bound(els, r1.field)
  {
    var b := Bound(els, r1.field).value;
    assert Matches(els[b], NamedIn(r1.field));
  }

  /**
   * `e` is the control `orig` after annotation by its test's outcome: valid
   * when it passed, invalid when it failed, its other classes kept.
   */
  predicate MarkedFor(e: Element, orig: Element, passed: bool) {
    if passed then ShowsValid(e) && e.classes - {ValidMarker} == orig.classes - {InvalidMarker, ValidMarker}
    else ShowsInvalid(e) && e.classes - {InvalidMarker} == orig.classes - {InvalidMarker, ValidMarker}
  }

  /**
   * After evaluation, a field's control shows the outcome of the field's
   * test, keeping its other classes; before its turn in the loop the control
   * is untouched.
   */
  lemma {:induction false} MarkersAfterEvaluation(rules: seq<Rule>, k: nat, d: Dom, j: nat, b: nat)
    requires DistinctFields(rules) && k <= |rules| && j < |rules|
    requires Bound(d.elements, rules[j].field) == Some(b)
    ensures var e := Annotated(rules, k, d).elements[b];
            && (j < k ==> MarkedFor(e, d.elements[b], rules[j].test(d.elements[b].value)))
            && (k <= j ==> e == d.elements[b])
  {
    if k > 0 {
      MarkersAfterEvaluation(rules, k - 1, d, j, b);
      var prev := Annotated(rules, k - 1, d);
      assert Annotated(rules, k, d) == Mark(prev, rules[k - 1], d.elements);
      var e := Annotated(rules, k, d).elements[b];
      if k - 1 != j {
        BoundDistinct(d.elements, rules[j], rules[k - 1]);
        MarkElsewhere(prev, rules[k - 1], d.elements, b);
        assert e == prev.elements[b];
      } else {
        MarkHere(prev, rules[j], d.elements, b);
        assert prev.elements[b] == d.elements[b];
        assert MarkedFor(e, d.elements[b], rules[j].test(d.elements[b].value));
      }
    }
  }

  /** Annotating a field leaves every control it is not bound to as it was. */
  lemma MarkElsewhere(cur: Dom, r: Rule, els: seq<Element>, i: nat)
    requires Reclassed(cur.elements, els) && i < |els| && Bound(els, r.field) != Some(i)
    ensures Mark(cur, r, els).elements[i] == cur.elements[i]
  {
  }

  /** Annotating a field moves its control to valid or invalid by the outcome of its test. */
  lemma MarkHere(cur: Dom, r: Rule, els: seq<Element>, b: nat)
    requires Reclassed(cur.elements, els) && Bound(els, r.field) == Some(b)
    ensures MarkedFor(Mark(cur, r, els).elements[b], cur.elements[b], r.test(els[b].value))
  {
  }

  /** A control no configured field is bound to keeps its classes. */
  lemma {:induction false} UnboundUntouched(rules: seq<Rule>, k: nat, d: Dom, i: nat)
    requires k <= |rules| && i < |d.elements|
    requires forall j :: 0 <= j < |rules| ==> Bound(d.elements, rules[j].field) != Some(i)
    ensures Annotated(rules, k, d).elements[i] == d.elements[i]
  {
    if k > 0 {
      UnboundUntouched(rules, k - 1, d, i);
      MarkElsewhere(Annotated(rules, k - 1, d), rules[k - 1], d.elements, i);
    }
  }

  /** Annotating one field touches at most the feedback of its control's parent, and only when it fails. */
  lemma MarkFeedback(prev: Dom, r: Rule, d: Dom)
    requires Reclassed(prev.elements, d.elements)
    ensures Mark(prev, r, d.elements).feedback
         == match FailingParent(d.elements, r)
            case None => prev.feedback
            case Some(p) => prev.feedback[p := r.message]
  {
    var b := Bound(d.elements, r.field);
    if b.Some? {
      assert prev.elements[b.value].(classes := d.elements[b.value].classes) == d.elements[b.value];
    }
  }

  /** Some field among the first `k` fails with its control inside parent `p`. */
  predicate FailsWithin(rules: seq<Rule>, k: nat, els: seq<Element>, p: ParentId)
    requires k <= |rules|
  {
    exists j :: 0 <= j < k && FailingParent(els, rules[j]) == Some(p)
  }

  lemma FailsWithinStep(rules: seq<Rule>, k: nat, els: seq<Element>, p: ParentId)
    requires 0 < k <= |rules|
    ensures FailsWithin(rules, k, els, p) <==> FailsWithin(rules, k - 1, els, p) || FailingParent(els, rules[k - 1]) == Some(p)
  {
    if FailsWithin(rules, k, els, p) {
      var j :| 0 <= j < k && FailingParent(els, rules[j]) == Some(p);
      if j < k - 1 {
        assert FailsWithin(rules, k - 1, els, p);
      }
    }
  }

  /**
   * Feedback nodes after evaluation: a parent has one exactly when it had one
   * before or holds a failing field's control.
   */
  lemma {:induction false} FeedbackNodesAfterEvaluation(rules: seq<Rule>, k: nat, d: Dom, p: ParentId)
    requires k <= |rules|
    ensures p in Annotated(rules, k, d).feedback <==> p in d.feedback || FailsWithin(rules, k, d.elements, p)
  {
    if k > 0 {
      FeedbackNodesAfterEvaluation(rules, k - 1, d, p);
      MarkFeedback(Annotated(rules, k - 1, d), rules[k - 1], d);
      FailsWithinStep(rules, k, d.elements, p);
    }
  }

  /** A parent holding no failing field's control keeps its feedback text. */
  lemma {:induction false} FeedbackKeptAfterEvaluation(rules: seq<Rule>, k: nat, d: Dom, p: ParentId)
    requires k <= |rules| && p in d.feedback
    requires forall j :: 0 <= j < k ==> FailingParent(d.elements, rules[j]) != Some(p)
    ensures p in Annotated(rules, k, d).feedback && Annotated(rules, k, d).feedback[p] == d.feedback[p]
  {
    if k > 0 {
      FeedbackKeptAfterEvaluation(rules, k - 1, d, p);
      MarkFeedback(Annotated(rules, k - 1, d), rules[k - 1], d);
    }
  }

  /**
   * A failing field's parent shows that field's message, provided no later
   * failing field's control shares the parent (a later one would overwrite
   * the same node).
   */
  lemma {:induction false} FeedbackMessage(rules: seq<Rule>, k: nat, d: Dom, j: nat, p: ParentId)
    requires j < k <= |rules|
    requires FailingParent(d.elements, rules[j]) == Some(p)
    requires forall i :: j < i < k ==> FailingParent(d.elements, rules[i]) != Some(p)
    ensures p in Annotated(rules, k, d).feedback && Annotated(rules, k, d).feedback[p] == rules[j].message
  {
    MarkFeedback(Annotated(rules, k - 1, d), rules[k - 1], d);
    if j < k - 1 {
      FeedbackMessage(rules, k - 1, d, j, p);
    }
  }

  // ---------------------------------------------------------------------
  // The outcome of a submission.
  // ---------------------------------------------------------------------

  /** BS5FormValidator harvests the whole form; SimpleValidator only the configured fields. */
  datatype Variant = WholeForm | ConfiguredOnly

  /**
   * The controller's options: whether `onValid` / `onInvalid` are functions,
   * the `submitButton` selector and the `submitButtonLoading` markup.
   */
  datatype Options = Options(
    onValid: bool,
    onInvalid: bool,
    submitButton: Option<string>,
    submitButtonLoading: Option<string>
  )

  /** JavaScript truthiness of an optional string option: present and not empty. */
  predicate Truthy(s: Option<string>)
    ensures !Truthy(s) <==> s == None || s == Some("")
  {
    s.Some? && s.value != ""
  }

  /** Where the submit button is looked for. */
  function ButtonQuery(variant: Variant, opts: Options): (q: Query)
    ensures variant == WholeForm || !Truthy(opts.submitButton) ==> q == SubmitIn
    ensures q.Selector? ==> opts.submitButton == Some(q.s) && q.s != ""
  {
    if variant == ConfiguredOnly && Truthy(opts.submitButton) then Selector(opts.submitButton.value) else SubmitIn
  }

  /**
   * The submit button: SimpleValidator with a truthy `submitButton` takes the
   * first element of the whole document matching that selector; otherwise
   * the form's first `type="submit"` element; `None` when nothing matches.
   */
  function ResolveButton(variant: Variant, opts: Options, els: seq<Element>): (r: Option<nat>)
    ensures r.Some? ==> r.value < |els| && Matches(els[r.value], ButtonQuery(variant, opts))
    ensures r.Some? ==> forall k :: 0 <= k < r.value ==> !Matches(els[k], ButtonQuery(variant, opts))
    ensures r.None? ==> forall k :: 0 <= k < |els| ==> !Matches(els[k], ButtonQuery(variant, opts))
  {
    QueryFirst(els, ButtonQuery(variant, opts))
  }

  /** The busy state: the button is disabled, and shows the loading markup when that is truthy. */
  function Busy(d: Dom, b: nat, loading: Option<string>): (r: Dom)
    requires b < |d.elements|
    ensures r.feedback == d.feedback && |r.elements| == |d.elements|
    ensures forall k :: 0 <= k < |d.elements| && k != b ==> r.elements[k] == d.elements[k]
    ensures r.elements[b].disabled
    ensures r.elements[b].html == (if Truthy(loading) then loading.value else d.elements[b].html)
    ensures r.elements[b].(disabled := d.elements[b].disabled, html := d.elements[b].html) == d.elements[b]
  {
    var e := d.elements[b];
    var e' := if Truthy(loading) then e.(html := loading.value) else e;
    d.(elements := d.elements[b := e'.(disabled := true)])
  }

  /** The `reset` closure handed to `onValid`: a no-op, or re-enabling a button and restoring its captured markup. */
  datatype Reset = NoOp | Restore(button: nat, html: string)

  /** Calling `reset()` on page state `d`. */
  function RunReset(d: Dom, r: Reset): (d': Dom)
    requires r.Restore? ==> r.button < |d.elements|
    ensures r.NoOp? ==> d' == d
    ensures r.Restore? ==> d'.feedback == d.feedback && |d'.elements| == |d.elements|
    ensures r.Restore? ==> !d'.elements[r.button].disabled && d'.elements[r.button].html == r.html
    ensures r.Restore? ==> d'.elements[r.button].(disabled := d.elements[r.button].disabled, html := d.elements[r.button].html)
                           == d.elements[r.button]
    ensures r.Restore? ==> forall k :: 0 <= k < |d.elements| && k != r.button ==> d'.elements[k] == d.elements[k]
  {
    match r
    case NoOp => d
    case Restore(b, html) => d.(elements := d.elements[b := d.elements[b].(disabled := false, html := html)])
  }

  /**
   * Busy round trip: resetting a busy button restores exactly the markup
   * captured before it went busy and re-enables it; nothing else differs.
   */
  lemma BusyRoundTrip(d: Dom, b: nat, loading: Option<string>)
    requires b < |d.elements|
    ensures RunReset(Busy(d, b, loading), Restore(b, d.elements[b].html))
         == d.(elements := d.elements[b := d.elements[b].(disabled := false)])
    ensures !d.elements[b].disabled ==> RunReset(Busy(d, b, loading), Restore(b, d.elements[b].html)) == d
  {
    var after := RunReset(Busy(d, b, loading), Restore(b, d.elements[b].html));
    assert after.elements == d.elements[b := d.elements[b].(disabled := false)];
    if !d.elements[b].disabled {
      assert d.elements[b := d.elements[b].(disabled := false)] == d.elements;
    }
  }

  /** Which callback a submission ends with, and with what. */
  datatype Call =
    | NoCallback
    | OnInvalid(errors: map<string, string>)
    | OnValid(values: map<string, FormValue>, reset: Reset)

  /** The page after a submission, whether default (and propagation) was stopped, and the callback. */
  datatype Outcome = Outcome(dom: Dom, prevented: bool, call: Call)

  /** The values a variant hands to `onValid`. */
  function SubmittedValues(variant: Variant, rules: seq<Rule>, els: seq<Element>): map<string, FormValue> {
    if variant == WholeForm then Collected(els) else FieldValues(rules, |rules|, els)
  }

  /** One full submission, from page state `d`. */
  function Submission(variant: Variant, opts: Options, rules: seq<Rule>, d: Dom): (o: Outcome)
    ensures |o.dom.elements| == |d.elements|
    ensures o.call.OnInvalid? ==> o.prevented && o.call.errors != map[]
    ensures o.call.OnValid? ==> !o.prevented
  {
    var errors := Errors(rules, |rules|, d.elements);
    var marked := Annotated(rules, |rules|, d);
    if errors == map[] then
      var values := SubmittedValues(variant, rules, d.elements);
      match ResolveButton(variant, opts, marked.elements)
      case None =>
        Outcome(marked, false, if opts.onValid then OnValid(values, NoOp) else NoCallback)
      case Some(b) =>
        var reset := Restore(b, marked.elements[b].html);
        Outcome(Busy(marked, b, opts.submitButtonLoading), false, if opts.onValid then OnValid(values, reset) else NoCallback)
    else
      Outcome(marked, true, if opts.onInvalid then OnInvalid(errors) else NoCallback)
  }

  /**
   * The two branches: default is prevented exactly when some configured field
   * fails; then `onInvalid` (if a function) receives the error map and
   * `onValid` is never called; otherwise `onValid` (if a function) receives
   * the variant's values and `onInvalid` is never called.
   */
  lemma SubmissionBranches(variant: Variant, opts: Options, rules: seq<Rule>, d: Dom)
    requires DistinctFields(rules)
    ensures var o := Submission(variant, opts, rules, d);
            && (o.prevented <==> exists j :: 0 <= j < |rules| && Fails(d.elements, rules[j]))
            && (o.prevented ==> o.call == (if opts.onInvalid then OnInvalid(Errors(rules, |rules|, d.elements)) else NoCallback))
            && (!o.prevented ==> (o.call.OnValid? <==> opts.onValid) && !o.call.OnInvalid?)
            && (o.call.OnValid? ==> o.call.values == SubmittedValues(variant, rules, d.elements))
  {
    NoErrorsIffNoneFails(rules, d.elements);
  }

  /**
   * On acceptance with a button: the button is disabled and shows the
   * loading markup only when that is truthy, whether or not `onValid` is a
   * function (without one the form submits with the button left busy); the
   * `reset` handed to `onValid` restores the markup captured before the
   * change and re-enables the button. Without a button the page is only
   * annotated and `reset` does nothing.
   */
  lemma AcceptedBusyState(variant: Variant, opts: Options, rules: seq<Rule>, d: Dom)
    requires Errors(rules, |rules|, d.elements) == map[]
    ensures var o := Submission(variant, opts, rules, d);
            var marked := Annotated(rules, |rules|, d);
            var values := SubmittedValues(variant, rules, d.elements);
            && !o.prevented
            && match ResolveButton(variant, opts, d.elements)
               case None =>
                 && o.dom == marked
                 && o.call == (if opts.onValid then OnValid(values, NoOp) else NoCallback)
               case Some(b) =>
                 && b < |o.dom.elements|
                 && o.dom.elements[b].disabled
                 && o.dom.elements[b].html == (if Truthy(opts.submitButtonLoading) then opts.submitButtonLoading.value else d.elements[b].html)
                 && o.call == (if opts.onValid then OnValid(values, Restore(b, d.elements[b].html)) else NoCallback)
                 && RunReset(o.dom, Restore(b, d.elements[b].html)) == marked.(elements := marked.elements[b := marked.elements[b].(disabled := false)])
  {
    var marked := Annotated(rules, |rules|, d);
    QueryFirstIgnoresClasses(marked.elements, d.elements, ButtonQuery(variant, opts));
    match ResolveButton(variant, opts, d.elements)
    case None =>
    case Some(b) =>
      assert marked.elements[b].(classes := d.elements[b].classes) == d.elements[b];
      BusyRoundTrip(marked, b, opts.submitButtonLoading);
  }

  /** After a submission every bound field's control shows the outcome of its own test. */
  lemma SubmissionMarkers(variant: Variant, opts: Options, rules: seq<Rule>, d: Dom, j: nat, b: nat)
    requires DistinctFields(rules) && j < |rules|
    requires Bound(d.elements, rules[j].field) == Some(b)
    ensures var e := Submission(variant, opts, rules, d).dom.elements[b];
            (Passes(d.elements, rules[j]) ==> ShowsValid(e)) && (Fails(d.elements, rules[j]) ==> ShowsInvalid(e))
  {
    MarkersAfterEvaluation(rules, |rules|, d, j, b);
  }
}
