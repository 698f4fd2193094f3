/**
 * The host page as the validators see it: a document-ordered sequence of
 * elements, a feedback slot per parent container, and the lookups the
 * validators perform on them (the selector engine itself is abstracted).
 */
module Dom {

  datatype Option<T> = None | Some(value: T)

  /** Identifies the parent node of an element; feedback text lives per parent. */
  type ParentId = nat

  /** The Bootstrap 5 validity classes the validators toggle. */
  const InvalidMarker: string := "is-invalid"
  const ValidMarker: string := "is-valid"

  /**
   * One element of the page. `name` and `kind` are the `name` and `type`
   * attributes (absent when the element has none); `html` is its innerHTML;
   * `inForm` says whether it is a descendant of the validated form;
   * `selectors` is the set of selector strings the host's selector engine
   * would match it by (used only for an explicit submit-button selector).
   */
  datatype Element = Element(
    name: Option<string>,
    kind: Option<string>,
    value: string,
    checked: bool,
    classes: set<string>,
    parent: ParentId,
    html: string,
    disabled: bool,
    inForm: bool,
    selectors: set<string>
  )

  /** The mutable state of the page: its elements and the text of each parent's feedback node. */
  datatype Dom = Dom(elements: seq<Element>, feedback: map<ParentId, string>)

  /** The lookups the validators issue. */
  datatype Query =
    | AnyNamed             // form.querySelectorAll('[name]')
    | NamedIn(n: string)   // form.querySelector(All)('[name="n"]')
    | SubmitIn             // form.querySelector('[type="submit"]')
    | Selector(s: string)  // document.querySelector(s)

  predicate Matches(e: Element, q: Query) {
    match q
    case AnyNamed => e.inForm && e.name.Some?
    case NamedIn(n) => e.inForm && e.name == Some(n)
    case SubmitIn => e.inForm && e.kind == Some("submit")
    case Selector(s) => s in e.selectors
  }

  /** querySelector: the index of the first element, in document order, that the query matches. */
  function QueryFirst(els: seq<Element>, q: Query): (r: Option<nat>)
    ensures r.Some? ==> r.value < |els| && Matches(els[r.value], q)
    ensures r.Some? ==> forall k :: 0 <= k < r.value ==> !Matches(els[k], q)
    ensures r.None? ==> forall k :: 0 <= k < |els| ==> !Matches(els[k], q)
  {
    if |els| == 0 then None
    else if Matches(els[0], q) then Some(0)
    else match QueryFirst(els[1..], q)
      case None => None
      case Some(i) => Some(i + 1)
  }

  /** querySelectorAll: the matching elements, in document order. */
  function QueryAll(els: seq<Element>, q: Query): (r: seq<Element>)
    ensures |r| <= |els|
    ensures forall k :: 0 <= k < |r| ==> Matches(r[k], q)
  {
    if |els| == 0 then []
    else
      var last := els[|els| - 1];
      QueryAll(els[..|els| - 1], q) + (if Matches(last, q) then [last] else [])
  }

  /** querySelectorAll keeps document order: selecting over two runs of elements one after the other is selecting over each in turn. */
  lemma {:induction false} QueryAllConcat(a: seq<Element>, b: seq<Element>, q: Query)
    ensures QueryAll(a + b, q) == QueryAll(a, q) + QueryAll(b, q)
  {
    if |b| == 0 {
      assert a + b == a;
    } else {
      var init := b[..|b| - 1];
      QueryAllConcat(a, init, q);
      assert (a + b)[..|a + b| - 1] == a + init;
      assert (a + b)[|a + b| - 1] == b[|b| - 1];
    }
  }

  /** querySelectorAll selects exactly the matching elements: nothing else, and none is missed. */
  lemma {:induction false} QueryAllMembers(els: seq<Element>, q: Query)
    ensures forall e :: e in QueryAll(els, q) <==> e in els && Matches(e, q)
  {
    if |els| > 0 {
      var init := els[..|els| - 1];
      var last := els[|els| - 1];
      QueryAllMembers(init, q);
      assert els == init + [last];
    }
  }

  /** A query every element matches selects them all. */
  lemma {:induction false} QueryAllMatchesAll(els: seq<Element>, q: Query)
    requires forall k :: 0 <= k < |els| ==> Matches(els[k], q)
    ensures QueryAll(els, q) == els
  {
    if |els| > 0 {
      var init := els[..|els| - 1];
      QueryAllMatchesAll(init, q);
      assert Matches(els[|els| - 1], q);
      assert QueryAll(els, q) == init + [els[|els| - 1]];
      assert init + [els[|els| - 1]] == els;
    }
  }

  /** `a` and `b` hold the same elements, except perhaps for their class lists. */
  predicate Reclassed(a: seq<Element>, b: seq<Element>) {
    |a| == |b| && forall k {:trigger a[k], b[k]} :: 0 <= k < |a| ==> a[k].(classes := b[k].classes) == b[k]
  }

  /** No lookup depends on class lists, so re-marking elements never changes what a query finds. */
  lemma {:induction false} QueryFirstIgnoresClasses(a: seq<Element>, b: seq<Element>, q: Query)
    requires Reclassed(a, b)
    ensures QueryFirst(a, q) == QueryFirst(b, q)
  {
    if |a| > 0 {
      assert a[0].(classes := b[0].classes) == b[0];
      assert Matches(a[0], q) == Matches(b[0], q);
      assert Reclassed(a[1..], b[1..]) by {
        forall k | 0 <= k < |a[1..]| ensures a[1..][k].(classes := b[1..][k].classes) == b[1..][k] {
          assert a[1..][k] == a[k + 1] && b[1..][k] == b[k + 1];
        }
      }
      QueryFirstIgnoresClasses(a[1..], b[1..], q);
    }
  }

  /** The checkbox-group harvest: the values of the checked members, in document order. */
  function CheckedValues(group: seq<Element>): (r: seq<string>)
    ensures |r| <= |group|
    ensures forall e :: e in group && e.checked ==> e.value in r
    ensures forall v :: v in r ==> exists e :: e in group && e.checked && e.value == v
  {
    if |group| == 0 then []
    else
      var last := group[|group| - 1];
      CheckedValues(group[..|group| - 1]) + (if last.checked then [last.value] else [])
  }

  /** The harvest keeps document order: harvesting two runs of elements one after the other is harvesting each in turn. */
  lemma {:induction false} CheckedValuesConcat(a: seq<Element>, b: seq<Element>)
    ensures CheckedValues(a + b) == CheckedValues(a) + CheckedValues(b)
  {
    if |b| == 0 {
      assert a + b == a;
    } else {
      var init := b[..|b| - 1];
      CheckedValuesConcat(a, init);
      assert (a + b)[..|a + b| - 1] == a + init;
      assert (a + b)[|a + b| - 1] == b[|b| - 1];
    }
  }

  /** The document the validators run against; methods elsewhere update its two fields in place. */
  class Document {
    var elements: seq<Element>
    var feedback: map<ParentId, string>

    function State(): Dom
      reads this
    {
      Dom(elements, feedback)
    }

    constructor (d: Dom)
      ensures State() == d
    {
      elements := d.elements;
      feedback := d.feedback;
    }
  }
}
