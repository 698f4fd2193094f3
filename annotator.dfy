/**
 * The validity annotator: `showError` and `clearError` as transformations of
 * the page state. An element's `is-invalid` / `is-valid` classes are kept
 * mutually exclusive, and each parent holds at most one feedback node,
 * modelled as an optional text per parent.
 */
module Annotator {
  import opened Dom

  /** The control carries the invalid marker and not the valid one. */
  predicate ShowsInvalid(e: Element) {
    InvalidMarker in e.classes && ValidMarker !in e.classes
  }

  /** The control carries the valid marker and not the invalid one. */
  predicate ShowsValid(e: Element) {
    ValidMarker in e.classes && InvalidMarker !in e.classes
  }

  /** Element `i` is the only element that may differ between `a` and `b`, and only in its classes. */
  predicate OnlyClassesOf(a: seq<Element>, b: seq<Element>, i: nat) {
    && |a| == |b| && i < |a|
    && (forall k :: 0 <= k < |a| && k != i ==> a[k] == b[k])
    && a[i].(classes := b[i].classes) == b[i]
  }

  /** Changing one element's classes keeps a page a re-classing of the page it came from. */
  lemma ReclassedAfter(a: seq<Element>, b: seq<Element>, c: seq<Element>, i: nat)
    requires OnlyClassesOf(a, b, i) && Reclassed(b, c)
    ensures Reclassed(a, c)
  {
    forall k | 0 <= k < |a| ensures a[k].(classes := c[k].classes) == c[k] {
      assert b[k].(classes := c[k].classes) == c[k];
      if k == i {
        assert a[k].(classes := b[k].classes) == b[k];
      }
    }
  }

  /**
   * showError: element `i` gains `is-invalid` and loses `is-valid` (its other
   * classes stay), and its parent's feedback node -- reused when present,
   * created otherwise -- shows `message`.
   */
  function MarkedInvalid(d: Dom, i: nat, message: string): (r: Dom)
    requires i < |d.elements|
    ensures OnlyClassesOf(r.elements, d.elements, i)
    ensures ShowsInvalid(r.elements[i])
    ensures r.elements[i].classes - {InvalidMarker} == d.elements[i].classes - {InvalidMarker, ValidMarker}
    ensures r.feedback.Keys == d.feedback.Keys + {d.elements[i].parent}
    ensures r.feedback[d.elements[i].parent] == message
    ensures forall p :: p in d.feedback && p != d.elements[i].parent ==> r.feedback[p] == d.feedback[p]
  {
    var e := d.elements[i];
    Dom(d.elements[i := e.(classes := e.classes + {InvalidMarker} - {ValidMarker})], d.feedback[e.parent := message])
  }

  /**
   * clearError: element `i` loses `is-invalid` and gains `is-valid` (its other
   * classes stay); feedback text is left as it was.
   */
  function MarkedValid(d: Dom, i: nat): (r: Dom)
    requires i < |d.elements|
    ensures OnlyClassesOf(r.elements, d.elements, i)
    ensures ShowsValid(r.elements[i])
    ensures r.elements[i].classes - {ValidMarker} == d.elements[i].classes - {InvalidMarker, ValidMarker}
    ensures r.feedback == d.feedback
  {
    var e := d.elements[i];
    Dom(d.elements[i := e.(classes := e.classes - {InvalidMarker} + {ValidMarker})], d.feedback)
  }

  /** showError is idempotent: a second identical call adds no node and changes nothing. */
  lemma ShowErrorIdempotent(d: Dom, i: nat, message: string)
    requires i < |d.elements|
    ensures MarkedInvalid(MarkedInvalid(d, i, message), i, message) == MarkedInvalid(d, i, message)
  {
    var once := MarkedInvalid(d, i, message);
    var twice := MarkedInvalid(once, i, message);
    assert twice.elements[i].classes == once.elements[i].classes;
    assert twice.elements == once.elements;
  }

  /** clearError is idempotent. */
  lemma ClearErrorIdempotent(d: Dom, i: nat)
    requires i < |d.elements|
    ensures MarkedValid(MarkedValid(d, i), i) == MarkedValid(d, i)
  {
    var once := MarkedValid(d, i);
    var twice := MarkedValid(once, i);
    assert twice.elements[i].classes == once.elements[i].classes;
    assert twice.elements == once.elements;
  }

  /** Marking depends only on the last call: showError then clearError is clearError with the feedback of showError. */
  lemma ClearAfterShow(d: Dom, i: nat, message: string)
    requires i < |d.elements|
    ensures MarkedValid(MarkedInvalid(d, i, message), i)
         == MarkedValid(d, i).(feedback := MarkedInvalid(d, i, message).feedback)
  {
    var a := MarkedValid(MarkedInvalid(d, i, message), i);
    var b := MarkedValid(d, i);
    assert a.elements[i].classes == b.elements[i].classes;
    assert a.elements == b.elements;
  }

  /** Repeated failures leave exactly one feedback node per parent, showing the latest message. */
  lemma RepeatedFailuresOneNode(d: Dom, i: nat, first: string, second: string)
    requires i < |d.elements|
    ensures MarkedInvalid(MarkedInvalid(d, i, first), i, second) == MarkedInvalid(d, i, second)
  {
    var a := MarkedInvalid(MarkedInvalid(d, i, first), i, second);
    var b := MarkedInvalid(d, i, second);
    assert a.elements[i].classes == b.elements[i].classes;
    assert a.elements == b.elements;
    assert a.feedback == b.feedback;
  }
}
