/** The ActiveX transport rendition of `createXhr`: an ordered list of
    zero-argument factories, each instantiating one ActiveX ProgID, is tried
    once at load time from the last entry to the first; every factory whose
    call returns a truthy value overwrites the selection, and a factory that
    throws is skipped. */
module CreateXhr {
  import opened Wrappers

  /** What calling one candidate factory does in a given browser. */
  datatype Outcome = Throws | Returns(truthy: bool)

  /** A candidate works when its call completes and returns a truthy value. */
  predicate Succeeds(o: Outcome) {
    o.Returns? && o.truthy
  }

  /** Reference definition of the selection: the lowest index `k >= lo` whose
      candidate works, or None when no candidate in `[lo, |outcomes|)` works. */
  function LowestSuccess(outcomes: seq<Outcome>, lo: nat): (r: Option<nat>)
    requires lo <= |outcomes|
    ensures r.Some? ==> lo <= r.value < |outcomes| && Succeeds(outcomes[r.value])
    ensures r.Some? ==> forall j :: lo <= j < r.value ==> !Succeeds(outcomes[j])
    ensures r.None? <==> forall j :: lo <= j < |outcomes| ==> !Succeeds(outcomes[j])
    decreases |outcomes| - lo
  {
    if lo == |outcomes| then None
    else if Succeeds(outcomes[lo]) then Some(lo)
    else LowestSuccess(outcomes, lo + 1)
  }

  /** The reverse loop with overwrite. `createXhr` is the index of the selected
      candidate; `visited` records the index of every candidate called, in
      calling order. */
  method SelectFactory(outcomes: seq<Outcome>) returns (createXhr: Option<nat>, visited: seq<nat>)
    ensures createXhr == LowestSuccess(outcomes, 0)
    ensures createXhr.Some? ==> createXhr.value < |outcomes| && Succeeds(outcomes[createXhr.value])
    ensures createXhr.Some? ==> forall j :: 0 <= j < createXhr.value ==> !Succeeds(outcomes[j])
    ensures createXhr.None? <==> forall j :: 0 <= j < |outcomes| ==> !Succeeds(outcomes[j])
    ensures |visited| == |outcomes|
    ensures forall k :: 0 <= k < |visited| ==> visited[k] == |outcomes| - 1 - k
    ensures forall j :: 0 <= j < |outcomes| ==> j in visited
    ensures forall k, l :: 0 <= k < l < |visited| ==> visited[k] != visited[l]
  {
    createXhr := None;
    visited := [];
    var i := |outcomes|;
    while i > 0
      invariant 0 <= i <= |outcomes|
      invariant createXhr == LowestSuccess(outcomes, i)
      invariant |visited| == |outcomes| - i
      invariant forall k :: 0 <= k < |visited| ==> visited[k] == |outcomes| - 1 - k
      invariant forall j :: i <= j < |outcomes| ==> j in visited
    {
      i := i - 1;
      visited := visited + [i];
      match outcomes[i]
      case Throws =>
        // the empty catch block: the selection is left as it was
      case Returns(truthy) =>
        if truthy {
          createXhr := Some(i);
        }
    }
  }

  /** Whether a candidate throws or returns a falsy value makes no difference
      to the selection. */
  lemma {:induction false} FailureKindIrrelevant(a: seq<Outcome>, b: seq<Outcome>, lo: nat)
    requires |a| == |b| && lo <= |a|
    requires forall j :: 0 <= j < |a| ==> (Succeeds(a[j]) <==> Succeeds(b[j]))
    ensures LowestSuccess(a, lo) == LowestSuccess(b, lo)
    decreases |a| - lo
  {
    if lo < |a| && !Succeeds(a[lo]) {
      FailureKindIrrelevant(a, b, lo + 1);
    }
  }

  /** Appending candidates never displaces a working earlier one; the appended
      ones are only reached when every earlier candidate fails. */
  lemma {:induction false} AppendCandidates(a: seq<Outcome>, b: seq<Outcome>, lo: nat)
    requires lo <= |a|
    ensures LowestSuccess(a, lo).Some? ==> LowestSuccess(a + b, lo) == LowestSuccess(a, lo)
    ensures LowestSuccess(a, lo).None? ==>
      LowestSuccess(a + b, lo) == (match LowestSuccess(b, 0)
                                   case None => None
                                   case Some(k) => Some(|a| + k))
    decreases |a| - lo
  {
    if lo == |a| {
      AppendedFrom(a, b, 0);
    } else {
      assert (a + b)[lo] == a[lo];
      if !Succeeds(a[lo]) {
        AppendCandidates(a, b, lo + 1);
      }
    }
  }

  /** Searching `a + b` from `|a| + lo` is searching `b` from `lo`, shifted. */
  lemma {:induction false} AppendedFrom(a: seq<Outcome>, b: seq<Outcome>, lo: nat)
    requires lo <= |b|
    ensures LowestSuccess(a + b, |a| + lo) == (match LowestSuccess(b, lo)
                                              case None => None
                                              case Some(k) => Some(|a| + k))
    decreases |b| - lo
  {
    if lo < |b| {
      assert (a + b)[|a| + lo] == b[lo];
      if !Succeeds(b[lo]) {
        AppendedFrom(a, b, lo + 1);
      }
    }
  }

  /** One entry of `createXhrFunctions`: a factory for one ActiveX ProgID. */
  datatype Factory = ActiveX(progId: string)

  /** The declared candidate list, in declaration order. */
  const CreateXhrFunctions: seq<Factory> := [
    ActiveX("Microsoft.XMLHTTP"),
    ActiveX("Msxml2.XMLHTTP.3.0"),
    ActiveX("Msxml2.XMLHTTP.6.0")
  ]

  /** Module load: the value left in `createXhr`. `activeX` is what
      `new global.ActiveXObject(progId)` does in the host; every call throws
      when `global.ActiveXObject` is absent. */
  method LoadCreateXhr(activeX: string -> Outcome) returns (createXhr: Option<Factory>)
    ensures createXhr.Some? ==> createXhr.value in CreateXhrFunctions
    ensures createXhr.Some? ==> Succeeds(activeX(createXhr.value.progId))
    ensures createXhr.None? <==>
      forall k :: 0 <= k < |CreateXhrFunctions| ==> !Succeeds(activeX(CreateXhrFunctions[k].progId))
    ensures Succeeds(activeX("Microsoft.XMLHTTP")) ==> createXhr == Some(ActiveX("Microsoft.XMLHTTP"))
    ensures createXhr == Some(ActiveX("Msxml2.XMLHTTP.3.0")) ==> !Succeeds(activeX("Microsoft.XMLHTTP"))
    ensures createXhr == Some(ActiveX("Msxml2.XMLHTTP.6.0")) ==>
      !Succeeds(activeX("Microsoft.XMLHTTP")) && !Succeeds(activeX("Msxml2.XMLHTTP.3.0"))
  {
    var outcomes := seq(|CreateXhrFunctions|, k requires 0 <= k < |CreateXhrFunctions| => activeX(CreateXhrFunctions[k].progId));
    assert |outcomes| == |CreateXhrFunctions|;
    assert forall k :: 0 <= k < |outcomes| ==> outcomes[k] == activeX(CreateXhrFunctions[k].progId);
    var selected, _ := SelectFactory(outcomes);
    match selected
    case None =>
      createXhr := None;
    case Some(k) =>
      createXhr := Some(CreateXhrFunctions[k]);
  }
}
