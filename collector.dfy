/**
 * The whole-form value collector of BS5FormValidator: a walk over the form's
 * named elements in document order that shapes a name -> value map
 * (strings for plain controls and checked radios, a boolean for a lone
 * checkbox, the checked values for a checkbox group).
 */
module Collector {
  import opened Dom

  /** A collected value: a string, a single checkbox's state, or a checkbox group's checked values. */
  datatype FormValue = Text(s: string) | Flag(b: bool) | List(items: seq<string>)

  predicate IsRadio(e: Element) { e.kind == Some("radio") }
  predicate IsCheckbox(e: Element) { e.kind == Some("checkbox") }

  /** Every form element carrying the name `n`, in document order (of any type). */
  function Group(els: seq<Element>, n: string): seq<Element> {
    QueryAll(els, NamedIn(n))
  }

  predicate AllNamed(named: seq<Element>) {
    forall k :: 0 <= k < |named| ==> named[k].name.Some?
  }

  /** What one loop iteration does to `values` for the named element `el`. */
  function Step(values: map<string, FormValue>, el: Element, els: seq<Element>): (r: map<string, FormValue>)
    requires el.name.Some?
    ensures r.Keys == values.Keys + (if IsRadio(el) && !el.checked then {} else {el.name.value})
    ensures forall m :: m in values && m != el.name.value ==> r[m] == values[m]
  {
    var n := el.name.value;
    if IsRadio(el) then
      if el.checked then values[n := Text(el.value)] else values
    else if IsCheckbox(el) then
      if n in values then values
      else if |Group(els, n)| > 1 then values[n := List(CheckedValues(Group(els, n)))]
      else values[n := Flag(el.checked)]
    else values[n := Text(el.value)]
  }

  /** The map after the first `k` named elements have been visited. */
  function Fold(named: seq<Element>, k: nat, els: seq<Element>): (r: map<string, FormValue>)
    requires AllNamed(named) && k <= |named|
    ensures forall n :: n in r && r[n].List? ==> |Group(els, n)| > 1 && r[n].items == CheckedValues(Group(els, n))
    ensures forall n :: n in r && r[n].Flag? ==> |Group(els, n)| <= 1
  {
    if k == 0 then map[] else Step(Fold(named, k - 1, els), named[k - 1], els)
  }

  /** The values a submission of the form collects. */
  function Collected(els: seq<Element>): (r: map<string, FormValue>)
    ensures forall n :: n in r && r[n].List? ==> |Group(els, n)| > 1 && r[n].items == CheckedValues(Group(els, n))
    ensures forall n :: n in r && r[n].Flag? ==> |Group(els, n)| <= 1
  {
    var named := QueryAll(els, AnyNamed);
    Fold(named, |named|, els)
  }

  /** The inner loop: gathers the checked members of a same-name group. */
  method CheckedValuesOf(checkboxes: seq<Element>) returns (checked: seq<string>)
    ensures checked == CheckedValues(checkboxes)
  {
    checked := [];
    for j := 0 to |checkboxes|
      invariant checked == CheckedValues(checkboxes[..j])
    {
      assert checkboxes[..j + 1][..j] == checkboxes[..j];
      if checkboxes[j].checked {
        checked := checked + [checkboxes[j].value];
      }
    }
    assert checkboxes[..|checkboxes|] == checkboxes;
  }

  /** The collection loop of a whole-form submission. */
  method CollectValues(els: seq<Element>) returns (values: map<string, FormValue>)
    ensures values == Collected(els)
  {
    var elements := QueryAll(els, AnyNamed);
    values := map[];
    for i := 0 to |elements|
      invariant values == Fold(elements, i, els)
    {
      var el := elements[i];
      var name := el.name.value;
      if el.kind == Some("radio") {
        if el.checked {
          values := values[name := Text(el.value)];
        }
      } else if el.kind == Some("checkbox") {
        if name !in values {
          var checkboxes := QueryAll(els, NamedIn(name));
          if |checkboxes| > 1 {
            var checked := CheckedValuesOf(checkboxes);
            values := values[name := List(checked)];
          } else {
            values := values[name := Flag(el.checked)];
          }
        }
      } else {
        values := values[name := Text(el.value)];
      }
    }
  }

  // ---------------------------------------------------------------------
  // A per-name reference: the value a name ends up with depends only on the
  // elements carrying that name.
  // ---------------------------------------------------------------------

  /**
   * The value for one name after visiting the first `k` elements of `g`
   * (the elements carrying that name), where `group` is the name's whole group.
   */
  function NameValue(g: seq<Element>, k: nat, group: seq<Element>): Option<FormValue>
    requires k <= |g|
  {
    if k == 0 then None else NameStep(NameValue(g, k - 1, group), g[k - 1], group)
  }

  /** What visiting `el` does to the value of its own name, previously `prev`. */
  function NameStep(prev: Option<FormValue>, el: Element, group: seq<Element>): Option<FormValue> {
    if IsRadio(el) then (if el.checked then Some(Text(el.value)) else prev)
    else if IsCheckbox(el) then
      (if prev.Some? then prev
       else if |group| > 1 then Some(List(CheckedValues(group)))
       else Some(Flag(el.checked)))
    else Some(Text(el.value))
  }

  /** `v` is the entry of `values` for `n`, `None` when absent. */
  predicate Holds(values: map<string, FormValue>, n: string, v: Option<FormValue>) {
    (n in values <==> v.Some?) && (n in values ==> values[n] == v.value)
  }

  /** One step of the walk, seen from the name `n`. */
  lemma StepByName(values: map<string, FormValue>, el: Element, els: seq<Element>, n: string, v: Option<FormValue>)
    requires el.name.Some? && Holds(values, n, v)
    ensures Holds(Step(values, el, els), n, if el.name == Some(n) then NameStep(v, el, Group(els, n)) else v)
  {
  }

  /** The reference value of name `n` in the form. */
  function ValueOfName(els: seq<Element>, n: string): Option<FormValue> {
    var g := Group(els, n);
    NameValue(g, |g|, g)
  }

  lemma {:induction false} QueryAllPrefix(els: seq<Element>, k: nat, q: Query)
    requires 0 < k <= |els|
    ensures QueryAll(els[..k], q) == QueryAll(els[..k - 1], q) + (if Matches(els[k - 1], q) then [els[k - 1]] else [])
  {
    assert els[..k][..k - 1] == els[..k - 1];
  }

  /** After `k` steps, the map's entry for `n` is the per-name reference over the `n`-elements seen so far. */
  predicate AgreesByName(named: seq<Element>, k: nat, els: seq<Element>, n: string)
    requires AllNamed(named) && k <= |named|
  {
    var g := QueryAll(named[..k], NamedIn(n));
    Holds(Fold(named, k, els), n, NameValue(g, |g|, Group(els, n)))
  }

  /** The walk agrees with the per-name reference at every step. */
  lemma {:induction false} FoldByName(named: seq<Element>, k: nat, els: seq<Element>, n: string)
    requires AllNamed(named) && k <= |named|
    requires forall j :: 0 <= j < |named| ==> named[j].inForm
    ensures AgreesByName(named, k, els, n)
  {
    if k > 0 {
      FoldByName(named, k - 1, els, n);
      FoldByNameStep(named, k, els, n);
    }
  }

  /** The inductive step of FoldByName: visiting `named[k - 1]`. */
  lemma FoldByNameStep(named: seq<Element>, k: nat, els: seq<Element>, n: string)
    requires AllNamed(named) && 0 < k <= |named| && named[k - 1].inForm
    requires AgreesByName(named, k - 1, els, n)
    ensures AgreesByName(named, k, els, n)
  {
    var el := named[k - 1];
    var g := QueryAll(named[..k - 1], NamedIn(n));
    var gk := QueryAll(named[..k], NamedIn(n));
    assert gk == g + (if el.name == Some(n) then [el] else []) by {
      QueryAllPrefix(named, k, NamedIn(n));
      assert Matches(el, NamedIn(n)) <==> el.name == Some(n);
    }
    HoldsAfterStep(Fold(named, k - 1, els), el, els, n, g, gk);
  }

  /** One step of the walk moves the per-name reference along by the visited element, if it carries `n`. */
  lemma HoldsAfterStep(values: map<string, FormValue>, el: Element, els: seq<Element>, n: string,
                       g: seq<Element>, gk: seq<Element>)
    requires el.name.Some? && Holds(values, n, NameValue(g, |g|, Group(els, n)))
    requires gk == g + (if el.name == Some(n) then [el] else [])
    ensures Holds(Step(values, el, els), n, NameValue(gk, |gk|, Group(els, n)))
  {
    StepByName(values, el, els, n, NameValue(g, |g|, Group(els, n)));
    if el.name == Some(n) {
      NameValueSnoc(g, el, Group(els, n));
    } else {
      assert gk == g;
    }
  }

  /** Visiting one more element of the name applies one NameStep. */
  lemma NameValueSnoc(g: seq<Element>, el: Element, group: seq<Element>)
    ensures NameValue(g + [el], |g| + 1, group) == NameStep(NameValue(g, |g|, group), el, group)
  {
    assert (g + [el])[..|g|] == g[..|g|];
    NameValuePrefix(g + [el], g, |g|, group);
  }

  /** NameValue over the first `k` elements only looks at those elements. */
  lemma {:induction false} NameValuePrefix(g: seq<Element>, h: seq<Element>, k: nat, group: seq<Element>)
    requires k <= |g| && k <= |h| && g[..k] == h[..k]
    ensures NameValue(g, k, group) == NameValue(h, k, group)
  {
    if k > 0 {
      assert g[..k - 1] == h[..k - 1] by { assert g[..k][..k - 1] == g[..k - 1] && h[..k][..k - 1] == h[..k - 1]; }
      assert g[k - 1] == g[..k][k - 1] == h[..k][k - 1] == h[k - 1];
      NameValuePrefix(g, h, k - 1, group);
    }
  }

  /** Selecting the `n`-elements out of the form's named elements finds the whole `n` group. */
  lemma {:induction false} GroupOfNamed(els: seq<Element>, n: string)
    ensures QueryAll(QueryAll(els, AnyNamed), NamedIn(n)) == Group(els, n)
  {
    if |els| > 0 {
      var init := els[..|els| - 1];
      var last := els[|els| - 1];
      GroupOfNamed(init, n);
      var named := QueryAll(init, AnyNamed);
      if Matches(last, AnyNamed) {
        var named' := named + [last];
        assert QueryAll(els, AnyNamed) == named';
        assert named'[..|named'| - 1] == named;
        assert QueryAll(named', NamedIn(n))
            == QueryAll(named, NamedIn(n)) + (if Matches(last, NamedIn(n)) then [last] else []);
      } else {
        assert QueryAll(els, AnyNamed) == named;
        assert !Matches(last, NamedIn(n));
      }
      assert Group(els, n) == Group(init, n) + (if Matches(last, NamedIn(n)) then [last] else []);
    }
  }

  /** Collected agrees, name by name, with the per-name reference. */
  lemma CollectedByName(els: seq<Element>, n: string)
    ensures n in Collected(els) <==> ValueOfName(els, n).Some?
    ensures n in Collected(els) ==> Collected(els)[n] == ValueOfName(els, n).value
  {
    var named := QueryAll(els, AnyNamed);
    forall j | 0 <= j < |named| ensures named[j].inForm && named[j].name.Some? {
      assert Matches(named[j], AnyNamed);
    }
    assert named[..|named|] == named;
    FoldByName(named, |named|, els, n);
    GroupOfNamed(els, n);
  }

  /** Only names of the form's elements ever appear as keys. */
  lemma KeysAreNames(els: seq<Element>, n: string)
    requires n in Collected(els)
    ensures exists e :: e in els && e.inForm && e.name == Some(n)
  {
    CollectedByName(els, n);
    var g := Group(els, n);
    assert |g| > 0;
    QueryAllMembers(els, NamedIn(n));
    assert g[0] in g && Matches(g[0], NamedIn(n));
  }

  // ---------------------------------------------------------------------
  // The shaping rules, stated on the group of one name.
  // ---------------------------------------------------------------------

  /** An element that never sets a value once one is set: a checkbox, or an unchecked radio. */
  predicate Passive(e: Element) {
    IsCheckbox(e) || (IsRadio(e) && !e.checked)
  }

  /**
   * The first checkbox of a name, seen after unchecked radios only, decides
   * the value: later same-name checkboxes are skipped and later unchecked
   * radios set nothing.
   */
  lemma {:induction false} FirstCheckboxDecides(g: seq<Element>, c: nat, k: nat)
    requires c < k <= |g| && IsCheckbox(g[c])
    requires forall j :: 0 <= j < c ==> IsRadio(g[j]) && !g[j].checked
    requires forall j :: c < j < |g| ==> Passive(g[j])
    ensures NameValue(g, k, g) == Some(if |g| > 1 then List(CheckedValues(g)) else Flag(g[c].checked))
  {
    if k > c + 1 {
      FirstCheckboxDecides(g, c, k - 1);
    } else {
      NoWriterNoValue(g, c, g);
    }
  }

  /**
   * Checkbox group: when the first checkbox of a name comes after unchecked
   * radios only, and every later element of the name is a checkbox (skipped)
   * or an unchecked radio, and more than one element carries the name, the
   * value is the list of the checked values of all those elements, in
   * document order.
   */
  lemma CheckboxGroupValue(els: seq<Element>, n: string, c: nat)
    requires |Group(els, n)| > 1 && c < |Group(els, n)| && IsCheckbox(Group(els, n)[c])
    requires forall j :: 0 <= j < c ==> IsRadio(Group(els, n)[j]) && !Group(els, n)[j].checked
    requires forall j :: c < j < |Group(els, n)| ==> Passive(Group(els, n)[j])
    ensures n in Collected(els) && Collected(els)[n] == List(CheckedValues(Group(els, n)))
  {
    FirstCheckboxDecides(Group(els, n), c, |Group(els, n)|);
    CollectedByName(els, n);
  }

  /** Single checkbox: a checkbox alone with its name gives its boolean checked state. */
  lemma SingleCheckboxValue(els: seq<Element>, n: string)
    requires |Group(els, n)| == 1 && IsCheckbox(Group(els, n)[0])
    ensures n in Collected(els) && Collected(els)[n] == Flag(Group(els, n)[0].checked)
  {
    FirstCheckboxDecides(Group(els, n), 0, 1);
    CollectedByName(els, n);
  }

  lemma {:induction false} NoWriterNoValue(g: seq<Element>, k: nat, group: seq<Element>)
    requires k <= |g|
    requires forall j :: 0 <= j < k ==> IsRadio(g[j]) && !g[j].checked
    ensures NameValue(g, k, group) == None
  {
    if k > 0 {
      NoWriterNoValue(g, k - 1, group);
    }
  }

  /** Radio group with nothing checked: when every element of a name is an unchecked radio, the name is absent. */
  lemma UncheckedRadiosAbsent(els: seq<Element>, n: string)
    requires forall j :: 0 <= j < |Group(els, n)| ==> IsRadio(Group(els, n)[j]) && !Group(els, n)[j].checked
    ensures n !in Collected(els)
  {
    NoWriterNoValue(Group(els, n), |Group(els, n)|, Group(els, n));
    CollectedByName(els, n);
  }

  /** An element that records its own value string: a plain control or a checked radio. */
  predicate Writer(e: Element) {
    !IsCheckbox(e) && (IsRadio(e) ==> e.checked)
  }

  lemma {:induction false} LastWriterDecides(g: seq<Element>, w: nat, k: nat, group: seq<Element>)
    requires w < k <= |g| && Writer(g[w])
    requires forall j :: w < j < |g| ==> Passive(g[j])
    ensures NameValue(g, k, group) == Some(Text(g[w].value))
  {
    if k > w + 1 {
      LastWriterDecides(g, w, k - 1, group);
    }
  }

  /**
   * Plain controls and checked radios: the last element of a name that is a
   * plain control or a checked radio gives the value string, overwriting
   * anything earlier; later checkboxes and unchecked radios do not change it.
   */
  lemma LastWriterWins(els: seq<Element>, n: string, w: nat)
    requires w < |Group(els, n)| && Writer(Group(els, n)[w])
    requires forall j :: w < j < |Group(els, n)| ==> Passive(Group(els, n)[j])
    ensures n in Collected(els) && Collected(els)[n] == Text(Group(els, n)[w].value)
  {
    LastWriterDecides(Group(els, n), w, |Group(els, n)|, Group(els, n));
    CollectedByName(els, n);
  }
}
