/**
 * The live-correction listener: on an input event it re-tests only a
 * configured field whose control already carries `is-invalid`, and it only
 * ever moves that control to valid.
 */
module Listener {
  import opened Dom
  import opened Annotator
  import opened Guard

  /**
   * The key `this.fields[...]` is looked up with: the target's `name`
   * attribute, or "null" when it has none (JavaScript turns the null that
   * getAttribute returns into that property key).
   */
  function InputKey(e: Element): (k: string)
    ensures e.name.Some? ==> k == e.name.value
    ensures k == "null" <==> e.name == None || e.name == Some("null")
  {
    if e.name.Some? then e.name.value else "null"
  }

  /** The index of the configured field with name `key`, if any. */
  function RuleFor(rules: seq<Rule>, key: string): (r: Option<nat>)
    ensures r.Some? ==> r.value < |rules| && rules[r.value].field == key
    ensures r.None? ==> forall j :: 0 <= j < |rules| ==> rules[j].field != key
  {
    if |rules| == 0 then None
    else if rules[0].field == key then Some(0)
    else match RuleFor(rules[1..], key)
      case None => None
      case Some(j) => Some(j + 1)
  }

  /**
   * handleInput on the event target `t`. The page changes only when the
   * target's field is configured, the target carries `is-invalid` and its
   * value now passes; then it is moved to valid, feedback untouched.
   */
  function AfterInput(rules: seq<Rule>, d: Dom, t: nat): (r: Dom)
    requires t < |d.elements|
    ensures r.feedback == d.feedback
    ensures OnlyClassesOf(r.elements, d.elements, t)
    ensures r != d ==> ShowsValid(r.elements[t])
    ensures r != d ==> r == MarkedValid(d, t)
    ensures r != d <==>
              && RuleFor(rules, InputKey(d.elements[t])).Some?
              && InvalidMarker in d.elements[t].classes
              && rules[RuleFor(rules, InputKey(d.elements[t])).value].test(d.elements[t].value)
  {
    var input := d.elements[t];
    match RuleFor(rules, InputKey(input))
    case None => d
    case Some(j) =>
      if InvalidMarker in input.classes && rules[j].test(input.value) then
        var r := MarkedValid(d, t);
        assert InvalidMarker !in r.elements[t].classes;
        r
      else d
  }

  /** The user edits control `t` to hold `v`. */
  function Edited(d: Dom, t: nat, v: string): Dom
    requires t < |d.elements|
  {
    d.(elements := d.elements[t := d.elements[t].(value := v)])
  }

  /**
   * Lazy, then reactive: before any submission a control without
   * `is-invalid` gets no feedback from input, however its value tests; once a
   * submission has marked a field's control invalid, an edit that makes its
   * value pass moves it to valid without another submission.
   */
  lemma LazyThenReactive(variant: Variant, opts: Options, rules: seq<Rule>, d: Dom, j: nat, b: nat, v: string)
    requires DistinctFields(rules) && j < |rules|
    requires Bound(d.elements, rules[j].field) == Some(b)
    requires Fails(d.elements, rules[j]) && rules[j].test(v)
    ensures InvalidMarker !in d.elements[b].classes ==> AfterInput(rules, Edited(d, b, v), b) == Edited(d, b, v)
    ensures var after := Submission(variant, opts, rules, d).dom;
            b < |after.elements| && ShowsValid(AfterInput(rules, Edited(after, b, v), b).elements[b])
  {
    SubmissionMarkers(variant, opts, rules, d, j, b);
    var after := Submission(variant, opts, rules, d).dom;
    var marked := Annotated(rules, |rules|, d);
    assert marked.elements[b].(classes := d.elements[b].classes) == d.elements[b];
    assert after.elements[b].name == d.elements[b].name;
    assert Matches(d.elements[b], NamedIn(rules[j].field));
    var r := RuleFor(rules, rules[j].field);
    assert r == Some(j);
  }
}
