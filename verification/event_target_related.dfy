/** The W3C `relatedTarget` rendition of `getEventTargetRelated`: it reads the
    event's related target and, when that node is not an element (a text node,
    say), replaces it by its parent node, one step only. */
module EventTargetRelated {
  import opened Wrappers
  import opened Capability

  /** The DOM node type code of an element (`Node.ELEMENT_NODE`). */
  const ElementNode := 1

  /** A DOM node, seen through the two properties the resolver reads.
      `parentNode` is None where the DOM gives `null`. */
  datatype Node = Node(nodeType: int, parentNode: Option<Node>)

  /** A native event, seen through its `relatedTarget` (None for `null`). */
  datatype Event = Event(relatedTarget: Option<Node>)

  predicate IsElement(n: Node) {
    n.nodeType == ElementNode
  }

  /** The node reached from `n` by following `k` parent links, or None when the
      chain of parents ends first. */
  function Ancestor(n: Node, k: nat): Option<Node> {
    if k == 0 then Some(n)
    else match n.parentNode
         case None => None
         case Some(p) => Ancestor(p, k - 1)
  }

  /** The documented assumption about a related target: a node that is not an
      element has a parent, and that parent is an element. */
  predicate ParentIsElement(n: Node) {
    !IsElement(n) ==> n.parentNode.Some? && IsElement(n.parentNode.value)
  }

  /** The resolver. A missing related target makes the source throw (reading
      `nodeType` of `null`), so the caller must not pass one. A non-element
      without a parent yields `null`. */
  function GetEventTargetRelated(e: Event): (target: Option<Node>)
    requires e.relatedTarget.Some?
    ensures IsElement(e.relatedTarget.value) ==> target == e.relatedTarget
    ensures !IsElement(e.relatedTarget.value) ==> target == e.relatedTarget.value.parentNode
    ensures target == Ancestor(e.relatedTarget.value, 0) || target == Ancestor(e.relatedTarget.value, 1)
  {
    var target := e.relatedTarget.value;
    if ElementNode != target.nodeType then target.parentNode else Some(target)
  }

  /** Under the documented assumption the result is always an element. */
  lemma ResolvesToElement(e: Event)
    requires e.relatedTarget.Some? && ParentIsElement(e.relatedTarget.value)
    ensures GetEventTargetRelated(e).Some?
    ensures IsElement(GetEventTargetRelated(e).value)
  {
  }

  /** Resolving again an event whose related target is an earlier result
      changes nothing: an element is returned as it is. */
  lemma ResolveIdempotent(e: Event)
    requires e.relatedTarget.Some? && ParentIsElement(e.relatedTarget.value)
    ensures GetEventTargetRelated(Event(GetEventTargetRelated(e))) == GetEventTargetRelated(e)
  {
    ResolvesToElement(e);
  }

  /** There is no upward walk: a non-element whose parent is not an element
      either (a text node directly inside a document fragment, node type 11)
      resolves to that parent, which is still not an element. */
  lemma OneStepOnly(e: Event)
    requires e.relatedTarget.Some? && !IsElement(e.relatedTarget.value)
    requires e.relatedTarget.value.parentNode.Some?
    requires !IsElement(e.relatedTarget.value.parentNode.value)
    ensures GetEventTargetRelated(e) == e.relatedTarget.value.parentNode
    ensures !IsElement(GetEventTargetRelated(e).value)
  {
  }

  /** Module load: the resolver is defined only when the document element
      exists and `addEventListener` is a host method of it. */
  function LoadGetEventTargetRelated(html: Option<HostObject>): (r: Export<Event --> Option<Node>>)
    ensures r.Defined? <==> html.Some? && IsHostMethod(html.value, "addEventListener")
    ensures r.Defined? ==> forall e: Event :: e.relatedTarget.Some? ==> r.impl.requires(e)
    ensures r.Defined? ==> forall e: Event :: e.relatedTarget.Some? ==> r.impl(e) == GetEventTargetRelated(e)
  {
    Gate(html.Some? && IsHostMethod(html.value, "addEventListener"), GetEventTargetRelated)
  }
}
