/** The `query`-based rendition of `isInQuery`: evaluate a selector with the
    toolkit's `query` and scan the matched elements, in order, for the given
    element, stopping at the first match. */
module InQuery {
  import opened Wrappers
  import opened Capability

  /** A DOM element reference. Element is a class, so `==` on it is object
      identity, which is what `===` compares for two JavaScript objects. */
  class Element {
  }

  /** Reference definition: the first position at or after `from` holding
      `el`, or None when `el` does not occur there. */
  function FirstMatch(queryElements: seq<Element>, el: Element, from: nat): (r: Option<nat>)
    requires from <= |queryElements|
    ensures r.Some? ==> from <= r.value < |queryElements| && queryElements[r.value] == el
    ensures r.Some? ==> forall j :: from <= j < r.value ==> queryElements[j] != el
    ensures r.None? <==> el !in queryElements[from..]
    decreases |queryElements| - from
  {
    if from == |queryElements| then None
    else if queryElements[from] == el then Some(from)
    else
      assert queryElements[from..] == [queryElements[from]] + queryElements[from + 1..];
      FirstMatch(queryElements, el, from + 1)
  }

  /** The scan loop with its early `break`. `i` is the loop counter at exit:
      the position of the first match, or the length when there is none. */
  method Scan(queryElements: seq<Element>, el: Element) returns (isInQuery: bool, i: nat)
    ensures isInQuery <==> el in queryElements
    ensures isInQuery ==> FirstMatch(queryElements, el, 0) == Some(i)
    ensures !isInQuery ==> i == |queryElements|
    ensures queryElements == [] ==> !isInQuery
  {
    isInQuery := false;
    i := 0;
    while i < |queryElements|
      invariant 0 <= i <= |queryElements|
      invariant !isInQuery
      invariant forall j :: 0 <= j < i ==> queryElements[j] != el
    {
      if queryElements[i] == el {
        isInQuery := true;
        break;
      }
      i := i + 1;
    }
    if isInQuery {
      var m := FirstMatch(queryElements, el, 0);
      assert queryElements[0..] == queryElements;
      assert m.Some?;
    }
  }

  /** `isInQuery(el, selector)`: `query` is called once, with `selector`, and
      the scan runs over what it returns. */
  method IsInQuery(query: string -> seq<Element>, el: Element, selector: string) returns (isInQuery: bool)
    ensures isInQuery <==> el in query(selector)
    ensures query(selector) == [] ==> !isInQuery
  {
    var queryElements := query(selector);
    var stoppedAt;
    isInQuery, stoppedAt := Scan(queryElements, el);
  }

  /** The value `isInQuery(el, selector)` returns when the rendition closes
      over `query`, as a function: membership decided by the first match. */
  function InQueryResult(query: string -> seq<Element>, el: Element, selector: string): (b: bool)
    ensures b <==> el in query(selector)
  {
    assert query(selector)[0..] == query(selector);
    FirstMatch(query(selector), el, 0).Some?
  }

  /** Module load: the rendition is defined only when `query` is present. The
      `query.Some?` inside the closure only keeps it well-formed when the gate
      is closed and the closure is discarded. */
  function LoadIsInQuery(query: Option<string -> seq<Element>>): (r: Export<(Element, string) -> bool>)
    ensures r.Defined? <==> query.Some?
  {
    Gate(query.Some?, (el: Element, selector: string) => query.Some? && InQueryResult(query.value, el, selector))
  }

  /** The defined rendition answers whether `el` is identical to one of the
      elements that the captured `query` returns for `selector`. */
  lemma LoadedIsInQueryIsMembership(query: Option<string -> seq<Element>>, el: Element, selector: string)
    requires LoadIsInQuery(query).Defined?
    ensures query.Some?
    ensures LoadIsInQuery(query).impl(el, selector) <==> el in query.value(selector)
  {
  }
}
