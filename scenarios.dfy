/**
 * Concrete forms: the checkbox-group and radio-group harvests, and a client
 * that submits an e-mail form twice, fixing the field in between.
 */
module Scenarios {
  import opened Dom
  import opened Collector
  import opened Annotator
  import opened Guard
  import opened Listener
  import opened Controller

  function Control(name: string, kind: string, value: string, checked: bool, parent: ParentId): Element {
    Element(Some(name), Some(kind), value, checked, {}, parent, "", false, true, {})
  }

  /** The checked members of a, b (unchecked), c are a and c, in that order. */
  lemma CheckedAC(els: seq<Element>)
    requires |els| == 3 && els[0].checked && !els[1].checked && els[2].checked
    requires els[0].value == "a" && els[2].value == "c"
    ensures CheckedValues(els) == ["a", "c"]
  {
    assert els[..2][..1] == els[..1];
    assert CheckedValues(els[..1]) == ["a"];
    assert CheckedValues(els[..2]) == ["a"];
  }

  /** The form elements all carry name `n` and type `kind`. */
  predicate AllOf(els: seq<Element>, n: string, kind: string) {
    forall k :: 0 <= k < |els| ==> els[k].inForm && els[k].name == Some(n) && els[k].kind == Some(kind)
  }

  /** Three checkboxes named "opt" with values a, b, c, of which a and c are checked, collect to ["a", "c"]. */
  lemma CheckboxGroupExample(els: seq<Element>)
    requires |els| == 3 && AllOf(els, "opt", "checkbox")
    requires els[0].value == "a" && els[1].value == "b" && els[2].value == "c"
    requires els[0].checked && !els[1].checked && els[2].checked
    ensures "opt" in Collected(els) && Collected(els)["opt"] == List(["a", "c"])
  {
    QueryAllMatchesAll(els, NamedIn("opt"));
    CheckboxGroupValue(els, "opt", 0);
    CheckedAC(els);
  }

  /** Radios named "plan" with none checked: the key is absent. */
  lemma NoPlanExample(els: seq<Element>)
    requires AllOf(els, "plan", "radio") && forall k :: 0 <= k < |els| ==> !els[k].checked
    ensures "plan" !in Collected(els)
  {
    QueryAllMatchesAll(els, NamedIn("plan"));
    UncheckedRadiosAbsent(els, "plan");
  }

  /** Radios named "plan" with only "pro" checked: the key holds "pro". */
  lemma ProPlanExample(els: seq<Element>, pro: nat)
    requires AllOf(els, "plan", "radio") && pro < |els| && els[pro].value == "pro"
    requires forall k :: 0 <= k < |els| ==> (els[k].checked <==> k == pro)
    ensures "plan" in Collected(els) && Collected(els)["plan"] == Text("pro")
  {
    QueryAllMatchesAll(els, NamedIn("plan"));
    LastWriterWins(els, "plan", pro);
  }

  /** The `email` field of the example form: its value must contain "@". */
  function EmailRule(): Rule {
    Rule("email", s => '@' in s, "Invalid email")
  }

  /** Both callbacks supplied, loading markup "Sending". */
  function EmailOptions(): Options {
    Options(true, true, None, Some("Sending"))
  }

  /** The example page: the e-mail input first, then a submit button. */
  predicate EmailPage(d: Dom) {
    && |d.elements| == 2
    && d.elements[0].inForm && d.elements[0].name == Some("email") && d.elements[0].kind == Some("text")
    && d.elements[1].inForm && d.elements[1].kind == Some("submit") && d.elements[1].name.None?
  }

  /** The e-mail input is the only element of its name. */
  lemma EmailGroup(d: Dom)
    requires EmailPage(d)
    ensures Group(d.elements, "email") == [d.elements[0]]
  {
    assert d.elements[..1][..0] == [];
    assert QueryAll(d.elements[..1], NamedIn("email")) == [d.elements[0]];
    assert d.elements[..|d.elements| - 1] == d.elements[..1];
  }

  /** Submitting a value without "@" is rejected with the field's message, which the field's parent shows. */
  lemma EmailRejected(d: Dom)
    requires EmailPage(d) && '@' !in d.elements[0].value
    ensures var o := Submission(WholeForm, EmailOptions(), [EmailRule()], d);
            && o.prevented
            && o.call == OnInvalid(map["email" := "Invalid email"])
            && ShowsInvalid(o.dom.elements[0])
            && d.elements[0].parent in o.dom.feedback && o.dom.feedback[d.elements[0].parent] == "Invalid email"
            && EmailPage(o.dom) && o.dom.elements[0].value == d.elements[0].value
            && o.dom.elements[1].html == d.elements[1].html
  {
    var marked := Annotated([EmailRule()], 1, d);
    assert marked.elements[0].(classes := d.elements[0].classes) == d.elements[0];
    assert marked.elements[1].(classes := d.elements[1].classes) == d.elements[1];
    assert Bound(d.elements, "email") == Some(0);
    assert Fails(d.elements, EmailRule());
    SubmissionBranches(WholeForm, EmailOptions(), [EmailRule()], d);
    SubmissionMarkers(WholeForm, EmailOptions(), [EmailRule()], d, 0, 0);
    FeedbackMessage([EmailRule()], 1, d, 0, d.elements[0].parent);
  }

  /** Submitting a value with "@" is accepted: the button goes busy and `onValid` receives the values and `reset`. */
  lemma EmailAccepted(d: Dom)
    requires EmailPage(d) && '@' in d.elements[0].value
    ensures var o := Submission(WholeForm, EmailOptions(), [EmailRule()], d);
            && !o.prevented
            && o.call.OnValid? && o.call.reset == Restore(1, d.elements[1].html)
            && o.call.values == Collected(d.elements)
            && "email" in o.call.values && o.call.values["email"] == Text(d.elements[0].value)
            && |o.dom.elements| == 2 && o.dom.elements[1].disabled && o.dom.elements[1].html == "Sending"
  {
    assert Bound(d.elements, "email") == Some(0);
    assert Passes(d.elements, EmailRule());
    NoErrorsIffNoneFails([EmailRule()], d.elements);
    SubmissionBranches(WholeForm, EmailOptions(), [EmailRule()], d);
    assert !Matches(d.elements[0], SubmitIn);
    assert ResolveButton(WholeForm, EmailOptions(), d.elements) == Some(1);
    AcceptedBusyState(WholeForm, EmailOptions(), [EmailRule()], d);
    EmailGroup(d);
    LastWriterWins(d.elements, "email", 0);
  }

  /** Re-marking the e-mail control keeps the page's shape and its value. */
  lemma EmailPageReclassed(a: Dom, b: Dom)
    requires EmailPage(a) && OnlyClassesOf(b.elements, a.elements, 0)
    ensures EmailPage(b) && b.elements[0].value == a.elements[0].value && b.elements[1] == a.elements[1]
  {
    assert b.elements[1] == a.elements[1];
  }

  /** A listening BS5FormValidator on the example page, its button showing "Send". */
  ghost predicate EmailSetup(v: Validator)
    reads v, v.doc
  {
    && v.listening && v.variant == WholeForm && v.options == EmailOptions() && v.rules == [EmailRule()]
    && EmailPage(v.doc.State()) && v.doc.elements[1].html == "Send"
  }

  /**
   * A client: submitting "x" is rejected, typing "x@y.com" clears the
   * marker at once, the next submission is accepted, and calling `reset`
   * restores the button.
   */
  method EmailClient() {
    var email := Control("email", "text", "x", false, 0);
    var button := Element(None, Some("submit"), "", false, {}, 1, "Send", false, true, {});
    var doc := new Document(Dom([email, button], map[]));
    var v := new Validator(WholeForm, doc, true, EmailOptions(), [EmailRule()]);
    RejectThenFix(v);
    AcceptThenReset(v);
  }

  /** Submitting a value without "@" is rejected; fixing it clears the marker without another submission. */
  method RejectThenFix(v: Validator)
    requires EmailSetup(v) && '@' !in v.doc.elements[0].value
    modifies v.doc
    ensures EmailSetup(v) && v.doc.elements[0].value == "x@y.com"
  {
    var doc := v.doc;
    var e := new SubmitEvent();
    EmailRejected(doc.State());
    var call := v.OnSubmit(e);
    assert e.defaultPrevented && call == OnInvalid(map["email" := "Invalid email"]);
    assert ShowsInvalid(doc.elements[0]) && doc.feedback[doc.elements[0].parent] == "Invalid email";

    doc.elements := doc.elements[0 := doc.elements[0].(value := "x@y.com")];
    assert RuleFor([EmailRule()], "email") == Some(0);
    ghost var edited := doc.State();
    v.OnInput(0);
    assert ShowsValid(doc.elements[0]);
    EmailPageReclassed(edited, doc.State());
  }

  /** A submission of a valid value is accepted and puts the button in its busy state; `reset` restores it. */
  method AcceptThenReset(v: Validator)
    requires EmailSetup(v) && v.doc.elements[0].value == "x@y.com"
    modifies v.doc
    ensures |v.doc.elements| == 2 && !v.doc.elements[1].disabled && v.doc.elements[1].html == "Send"
  {
    var doc := v.doc;
    var e := new SubmitEvent();
    EmailAccepted(doc.State());
    var call := v.OnSubmit(e);
    assert !e.defaultPrevented && call.OnValid? && call.reset == Restore(1, "Send");
    assert call.values["email"] == Text("x@y.com");
    assert doc.elements[1].disabled && doc.elements[1].html == "Sending";
    InvokeReset(doc, call.reset);
    assert !doc.elements[1].disabled && doc.elements[1].html == "Send";
  }
}
