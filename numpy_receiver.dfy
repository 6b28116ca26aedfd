/** `GmshMeshReceiverNumPy`: the receiver that stores what the reader sends
    in lists preallocated by the set-up calls and filled by index. */
module NumPyReceiver {
  import opened Wrappers
  import opened ElementTypes
  import opened GmshErrors
  import opened ReceiverPort
  import opened Parser

  /** A physical name as stored: (name, index, dimension). */
  type Tag = (string, int, int)

  /** The receiver's fields as values. An outer `None` is a list not yet
      prepared; an inner `None` is a slot nothing was stored in. */
  datatype Snapshot = Snapshot(
    points: Option<seq<Option<Point>>>,
    elements: Option<seq<Option<seq<int>>>>,
    elementTypes: Option<seq<Option<ElementType>>>,
    elementMarkers: Option<seq<Option<seq<int>>>>,
    tags: Option<seq<Tag>>)

  /** A receiver fresh from its constructor. */
  function Initial(): Snapshot {
    Snapshot(None, None, None, None, None)
  }

  /** `[None] * count`: Python gives an empty list for a negative count. */
  function Slots<T>(count: int): (r: seq<Option<T>>)
    ensures |r| == if count < 0 then 0 else count
    ensures forall i :: 0 <= i < |r| ==> r[i] == None
  {
    if count <= 0 then [] else Slots(count - 1) + [None]
  }

  /** What one call does to the receiver: the new fields, or `None` when
      the call raises (an `assert` finding a list missing, or an index past
      the end of one). */
  function Apply(s: Snapshot, call: Call): Option<Snapshot> {
    match call
    case SetUpNodes(count) => Some(s.(points := Some(Slots(count))))
    case AddNode(nodeNr, point) =>
      if s.points.None? || nodeNr >= |s.points.value| then None
      else Some(s.(points := Some(s.points.value[nodeNr := Some(point)])))
    case FinalizeNodes => Some(s)
    case SetUpElements(count) =>
      Some(s.(elements := Some(Slots(count)), elementTypes := Some(Slots(count)),
              elementMarkers := Some(Slots(count)), tags := Some([])))
    case AddElement(elementNr, elementType, vertexNrs, _, tagNumbers) =>
      if s.elements.None? || elementNr >= |s.elements.value| then None
      else if s.elementTypes.None? || elementNr >= |s.elementTypes.value| then None
      else if s.elementMarkers.None? || elementNr >= |s.elementMarkers.value| then None
      else Some(s.(elements := Some(s.elements.value[elementNr := Some(vertexNrs)]),
                   elementTypes := Some(s.elementTypes.value[elementNr := Some(elementType)]),
                   elementMarkers := Some(s.elementMarkers.value[elementNr := Some(tagNumbers)])))
    case FinalizeElements => Some(s)
    case AddTag(name, index, dimension) =>
      if s.tags.None? then None else Some(s.(tags := Some(s.tags.value + [(name, index, dimension)])))
    case FinalizeTags => Some(s)
  }

  /** The calls applied in order; `None` as soon as one raises. */
  function Replay(s: Snapshot, calls: seq<Call>): Option<Snapshot>
    decreases |calls|
  {
    if calls == [] then Some(s)
    else match Apply(s, calls[0])
      case None => None
      case Some(next) => Replay(next, calls[1..])
  }

  class GmshMeshReceiverNumPy {
    var points: array?<Option<Point>>
    var elements: array?<Option<seq<int>>>
    var elementTypes: array?<Option<ElementType>>
    var elementMarkers: array?<Option<seq<int>>>
    var tags: Option<seq<Tag>>

    /** The three element lists are prepared together, have one length,
        and the two of the same type are different lists. */
    ghost predicate Valid()
      reads this
    {
      (elements == null <==> elementTypes == null) &&
      (elements == null <==> elementMarkers == null) &&
      (elements != null ==>
        elements != elementMarkers &&
        elementTypes.Length == elements.Length && elementMarkers.Length == elements.Length)
    }

    ghost function View(): Snapshot
      reads this, points, elements, elementTypes, elementMarkers
    {
      Snapshot(
        if points == null then None else Some(points[..]),
        if elements == null then None else Some(elements[..]),
        if elementTypes == null then None else Some(elementTypes[..]),
        if elementMarkers == null then None else Some(elementMarkers[..]),
        tags)
    }

    constructor ()
      ensures Valid() && View() == Initial()
    {
      points, elements, elementTypes, elementMarkers := null, null, null, null;
      tags := None;
    }

    method SetUpNodes(count: int)
      requires Valid()
      modifies this
      ensures Valid() && fresh(points)
      ensures elements == old(elements) && elementTypes == old(elementTypes)
      ensures elementMarkers == old(elementMarkers)
      ensures View() == Apply(old(View()), Call.SetUpNodes(count)).value
    {
      points := new Option<Point>[if count < 0 then 0 else count](_ => None);
      assert points[..] == Slots(count);
    }

    method AddNode(nodeNr: nat, point: Point) returns (ok: bool)
      requires Valid()
      modifies points
      ensures Valid()
      ensures ok <==> Apply(old(View()), Call.AddNode(nodeNr, point)).Some?
      ensures ok ==> View() == Apply(old(View()), Call.AddNode(nodeNr, point)).value
      ensures !ok ==> View() == old(View())
    {
      if points == null || nodeNr >= points.Length {
        return false;
      }
      points[nodeNr] := Some(point);
      return true;
    }

    method SetUpElements(count: int)
      requires Valid()
      modifies this
      ensures Valid() && fresh(elements) && fresh(elementTypes) && fresh(elementMarkers)
      ensures points == old(points)
      ensures View() == Apply(old(View()), Call.SetUpElements(count)).value
    {
      var n := if count < 0 then 0 else count;
      elements := new Option<seq<int>>[n](_ => None);
      elementTypes := new Option<ElementType>[n](_ => None);
      elementMarkers := new Option<seq<int>>[n](_ => None);
      tags := Some([]);
      assert elements[..] == Slots(count);
      assert elementTypes[..] == Slots(count);
      assert elementMarkers[..] == Slots(count);
    }

    method AddElement(elementNr: nat, elementType: ElementType, vertexNrs: seq<int>,
                      lexicographicNodes: seq<int>, tagNumbers: seq<int>) returns (ok: bool)
      requires Valid()
      modifies elements, elementTypes, elementMarkers
      ensures Valid()
      ensures var call := Call.AddElement(elementNr, elementType, vertexNrs, lexicographicNodes, tagNumbers);
        (ok <==> Apply(old(View()), call).Some?) &&
        (ok ==> View() == Apply(old(View()), call).value) &&
        (!ok ==> View() == old(View()))
    {
      if elements == null || elementNr >= elements.Length {
        return false;
      }
      elements[elementNr] := Some(vertexNrs);
      elementTypes[elementNr] := Some(elementType);
      elementMarkers[elementNr] := Some(tagNumbers);
      return true;
    }

    method AddTag(name: string, index: int, dimension: int) returns (ok: bool)
      requires Valid()
      modifies this
      ensures Valid()
      ensures points == old(points) && elements == old(elements)
      ensures elementTypes == old(elementTypes) && elementMarkers == old(elementMarkers)
      ensures ok <==> Apply(old(View()), Call.AddTag(name, index, dimension)).Some?
      ensures ok ==> View() == Apply(old(View()), Call.AddTag(name, index, dimension)).value
      ensures !ok ==> View() == old(View())
    {
      if tags.None? {
        return false;
      }
      tags := Some(tags.value + [(name, index, dimension)]);
      return true;
    }

    /** Hands one call to the method it names. The `finalize_*` methods do
        nothing. */
    method Receive(call: Call) returns (ok: bool)
      requires Valid()
      modifies this, points, elements, elementTypes, elementMarkers
      ensures Valid()
      ensures points == old(points) || fresh(points)
      ensures elements == old(elements) || fresh(elements)
      ensures elementTypes == old(elementTypes) || fresh(elementTypes)
      ensures elementMarkers == old(elementMarkers) || fresh(elementMarkers)
      ensures ok <==> Apply(old(View()), call).Some?
      ensures ok ==> View() == Apply(old(View()), call).value
      ensures !ok ==> View() == old(View())
    {
      match call
      case SetUpNodes(count) =>
        SetUpNodes(count);
        ok := true;
      case AddNode(nodeNr, point) =>
        ok := AddNode(nodeNr, point);
      case FinalizeNodes =>
        ok := true;
      case SetUpElements(count) =>
        SetUpElements(count);
        ok := true;
      case AddElement(elementNr, elementType, vertexNrs, lexicographicNodes, tagNumbers) =>
        ok := AddElement(elementNr, elementType, vertexNrs, lexicographicNodes, tagNumbers);
      case FinalizeElements =>
        ok := true;
      case AddTag(name, index, dimension) =>
        ok := AddTag(name, index, dimension);
      case FinalizeTags =>
        ok := true;
    }

    /** Hands the calls over in order, as the reader does while it reads,
        and stops at the first one that raises; returns how many succeeded. */
    method ReceiveAll(calls: seq<Call>) returns (delivered: nat)
      requires Valid()
      modifies this, points, elements, elementTypes, elementMarkers
      ensures Valid() && delivered <= |calls|
      ensures Replay(old(View()), calls[..delivered]) == Some(View())
      ensures delivered < |calls| ==> Apply(View(), calls[delivered]).None?
    {
      delivered := 0;
      while delivered < |calls|
        invariant Valid() && delivered <= |calls|
        invariant points == old(points) || fresh(points)
        invariant elements == old(elements) || fresh(elements)
        invariant elementTypes == old(elementTypes) || fresh(elementTypes)
        invariant elementMarkers == old(elementMarkers) || fresh(elementMarkers)
        invariant Replay(old(View()), calls[..delivered]) == Some(View())
        decreases |calls| - delivered
      {
        ghost var before := View();
        var ok := Receive(calls[delivered]);
        if !ok {
          return;
        }
        ReplaySnoc(old(View()), calls[..delivered], calls[delivered]);
        assert calls[..delivered + 1] == calls[..delivered] + [calls[delivered]];
        delivered := delivered + 1;
      }
    }
  }

  /** Replaying one more call. */
  lemma {:induction false} ReplaySnoc(s: Snapshot, calls: seq<Call>, call: Call)
    ensures Replay(s, calls + [call]) ==
      match Replay(s, calls)
      case None => None
      case Some(mid) => Apply(mid, call)
    decreases |calls|
  {
    if calls == [] {
      assert [] + [call] == [call];
    } else {
      assert (calls + [call])[1..] == calls[1..] + [call];
      match Apply(s, calls[0])
      case None =>
      case Some(next) => ReplaySnoc(next, calls[1..], call);
    }
  }

  /** Replaying two call sequences one after the other. */
  lemma {:induction false} ReplayAppend(s: Snapshot, a: seq<Call>, b: seq<Call>)
    ensures Replay(s, a + b) ==
      match Replay(s, a)
      case None => None
      case Some(mid) => Replay(mid, b)
    decreases |a|
  {
    if a == [] {
      assert a + b == b;
    } else {
      assert (a + b)[0] == a[0] && (a + b)[1..] == a[1..] + b;
      match Apply(s, a[0])
      case None =>
      case Some(next) => ReplayAppend(next, a[1..], b);
    }
  }

  /** A preallocated list after its first `k` slots were written with
      `values`, the others still `None`. */
  function Prefix<T>(values: seq<T>, k: nat): (r: seq<Option<T>>)
    ensures |r| == |values|
    ensures forall i :: 0 <= i < |r| ==> r[i] == if i < k then Some(values[i]) else None
  {
    seq(|values|, i requires 0 <= i < |values| => if i < k then Some(values[i]) else None)
  }

  /** A preallocated list with every slot written. */
  function Filled<T>(values: seq<T>): (r: seq<Option<T>>)
    ensures |r| == |values| && forall i :: 0 <= i < |r| ==> r[i] == Some(values[i])
  {
    Prefix(values, |values|)
  }

  /** Writing slot `k` extends the written prefix by one. */
  lemma PrefixStep<T>(values: seq<T>, k: nat)
    requires k < |values|
    ensures Prefix(values, k)[k := Some(values[k])] == Prefix(values, k + 1)
  {
  }

  // ---------------------------------------------------------------- nodes

  /** `add_node` calls for nodes 0, 1, 2, ... in order. */
  predicate NodeAdds(calls: seq<Call>) {
    forall i :: 0 <= i < |calls| ==> calls[i].AddNode? && calls[i].nodeNr == i
  }

  function PointsOf(calls: seq<Call>): (r: seq<Point>)
    requires NodeAdds(calls)
    ensures |r| == |calls|
    ensures forall i :: 0 <= i < |r| ==> r[i] == calls[i].point
  {
    seq(|calls|, i requires 0 <= i < |calls| => calls[i].point)
  }

  lemma {:induction false} ReplayNodeAdds(s: Snapshot, calls: seq<Call>, k: nat)
    requires NodeAdds(calls) && k <= |calls| && s.points == Some(Prefix(PointsOf(calls), k))
    ensures Replay(s, calls[k..]) == Some(s.(points := Some(Prefix(PointsOf(calls), |calls|))))
    decreases |calls| - k
  {
    if k < |calls| {
      var next := s.(points := Some(s.points.value[k := Some(calls[k].point)]));
      assert Apply(s, calls[k]) == Some(next);
      PrefixStep(PointsOf(calls), k);
      assert calls[k..][0] == calls[k] && calls[k..][1..] == calls[k + 1..];
      ReplayNodeAdds(next, calls, k + 1);
    } else {
      assert calls[k..] == [];
    }
  }

  /** A nodes section handed to the receiver: every slot `i` holds the
      point of the `i`-th node, and nothing but the points changed. */
  lemma ReplayNodesSection(s: Snapshot, calls: seq<Call>)
    requires NodeAdds(calls)
    ensures Replay(s, [SetUpNodes(|calls|)] + calls + [FinalizeNodes]) ==
      Some(s.(points := Some(Filled(PointsOf(calls)))))
  {
    var prepared := s.(points := Some(Slots(|calls|)));
    assert Slots<Point>(|calls|) == Prefix(PointsOf(calls), 0);
    ReplayNodeAdds(prepared, calls, 0);
    assert calls[0..] == calls;
    ReplayAppend(s, [SetUpNodes(|calls|)], calls);
    ReplayAppend(s, [SetUpNodes(|calls|)] + calls, [FinalizeNodes]);
  }

  /** One node line more than the count declared: the reader calls
      `add_node` with the count as index, past the end of the preallocated
      list, and the receiver raises before the reader can report the count
      mismatch. */
  lemma ReplayOverfullNodes(s: Snapshot, calls: seq<Call>)
    requires NodeAdds(calls) && |calls| >= 1
    ensures Replay(s, [SetUpNodes(|calls| - 1)] + calls) == None
  {
    var n := |calls| - 1;
    var first := calls[..n];
    assert NodeAdds(first);
    var prepared := s.(points := Some(Slots(n)));
    assert Slots<Point>(n) == Prefix(PointsOf(first), 0);
    ReplayNodeAdds(prepared, first, 0);
    assert first[0..] == first;
    assert [SetUpNodes(n)] + calls == ([SetUpNodes(n)] + first) + [calls[n]];
    ReplayAppend(s, [SetUpNodes(n)], first);
    ReplaySnoc(s, [SetUpNodes(n)] + first, calls[n]);
  }

  // ------------------------------------------------------------- elements

  /** `add_element` calls for elements 0, 1, 2, ... in order. */
  predicate ElementAdds(calls: seq<Call>) {
    forall i :: 0 <= i < |calls| ==> calls[i].AddElement? && calls[i].elementNr == i
  }

  function VertexListsOf(calls: seq<Call>): (r: seq<seq<int>>)
    requires ElementAdds(calls)
    ensures |r| == |calls|
    ensures forall i :: 0 <= i < |r| ==> r[i] == calls[i].vertexNrs
  {
    seq(|calls|, i requires 0 <= i < |calls| => calls[i].vertexNrs)
  }

  function TypesOf(calls: seq<Call>): (r: seq<ElementType>)
    requires ElementAdds(calls)
    ensures |r| == |calls|
    ensures forall i :: 0 <= i < |r| ==> r[i] == calls[i].elementType
  {
    seq(|calls|, i requires 0 <= i < |calls| => calls[i].elementType)
  }

  function MarkersOf(calls: seq<Call>): (r: seq<seq<int>>)
    requires ElementAdds(calls)
    ensures |r| == |calls|
    ensures forall i :: 0 <= i < |r| ==> r[i] == calls[i].tagNumbers
  {
    seq(|calls|, i requires 0 <= i < |calls| => calls[i].tagNumbers)
  }

  /** The three element lists once the first `k` of these calls were made. */
  function ElementsAfter(s: Snapshot, calls: seq<Call>, k: nat): Snapshot
    requires ElementAdds(calls)
  {
    s.(elements := Some(Prefix(VertexListsOf(calls), k)),
       elementTypes := Some(Prefix(TypesOf(calls), k)),
       elementMarkers := Some(Prefix(MarkersOf(calls), k)))
  }

  lemma {:induction false} ReplayElementAdds(s: Snapshot, calls: seq<Call>, k: nat)
    requires ElementAdds(calls) && k <= |calls|
    ensures Replay(ElementsAfter(s, calls, k), calls[k..]) == Some(ElementsAfter(s, calls, |calls|))
    decreases |calls| - k
  {
    if k < |calls| {
      var before := ElementsAfter(s, calls, k);
      var c := calls[k];
      var next := before.(elements := Some(before.elements.value[k := Some(c.vertexNrs)]),
                          elementTypes := Some(before.elementTypes.value[k := Some(c.elementType)]),
                          elementMarkers := Some(before.elementMarkers.value[k := Some(c.tagNumbers)]));
      assert Apply(before, c) == Some(next);
      PrefixStep(VertexListsOf(calls), k);
      PrefixStep(TypesOf(calls), k);
      PrefixStep(MarkersOf(calls), k);
      assert next == ElementsAfter(s, calls, k + 1);
      assert calls[k..][0] == c && calls[k..][1..] == calls[k + 1..];
      ReplayElementAdds(s, calls, k + 1);
    } else {
      assert calls[k..] == [];
    }
  }

  /** An elements section handed to the receiver: slot `i` of the three
      element lists holds the vertices, type and markers of the `i`-th
      element, the tag list is reset to empty, and the points are kept. */
  lemma ReplayElementsSection(s: Snapshot, calls: seq<Call>)
    requires ElementAdds(calls)
    ensures var n := |calls|;
      Replay(s, [SetUpElements(n)] + calls + [FinalizeElements]) ==
      Some(s.(elements := Some(Filled(VertexListsOf(calls))),
              elementTypes := Some(Filled(TypesOf(calls))),
              elementMarkers := Some(Filled(MarkersOf(calls))),
              tags := Some([])))
  {
    var n := |calls|;
    var base := s.(tags := Some([]));
    assert Slots<seq<int>>(n) == Prefix(VertexListsOf(calls), 0);
    assert Slots<ElementType>(n) == Prefix(TypesOf(calls), 0);
    assert Slots<seq<int>>(n) == Prefix(MarkersOf(calls), 0);
    assert Apply(s, SetUpElements(n)) == Some(ElementsAfter(base, calls, 0));
    ReplayElementAdds(base, calls, 0);
    assert calls[0..] == calls;
    ReplayAppend(s, [SetUpElements(n)], calls);
    ReplayAppend(s, [SetUpElements(n)] + calls, [FinalizeElements]);
  }

  /** One element line more than the count declared: `add_element` is
      called with the count as index and the receiver raises, as for
      nodes. */
  lemma ReplayOverfullElements(s: Snapshot, calls: seq<Call>)
    requires ElementAdds(calls) && |calls| >= 1
    ensures Replay(s, [SetUpElements(|calls| - 1)] + calls) == None
  {
    var n := |calls| - 1;
    var first := calls[..n];
    assert ElementAdds(first);
    var base := s.(tags := Some([]));
    assert Slots<seq<int>>(n) == Prefix(VertexListsOf(first), 0);
    assert Slots<ElementType>(n) == Prefix(TypesOf(first), 0);
    assert Slots<seq<int>>(n) == Prefix(MarkersOf(first), 0);
    assert Apply(s, SetUpElements(n)) == Some(ElementsAfter(base, first, 0));
    ReplayElementAdds(base, first, 0);
    assert first[0..] == first;
    assert [SetUpElements(n)] + calls == ([SetUpElements(n)] + first) + [calls[n]];
    ReplayAppend(s, [SetUpElements(n)], first);
    ReplaySnoc(s, [SetUpElements(n)] + first, calls[n]);
  }

  // ----------------------------------------------------------------- tags

  /** `add_tag` calls only. */
  predicate TagAdds(calls: seq<Call>) {
    forall i :: 0 <= i < |calls| ==> calls[i].AddTag?
  }

  function TagsOf(calls: seq<Call>): seq<Tag>
    requires TagAdds(calls)
  {
    seq(|calls|, i requires 0 <= i < |calls| => (calls[i].name, calls[i].index, calls[i].dimension))
  }

  /** Physical names handed to a receiver whose tag list exists are
      appended to it in order, and nothing else changes. */
  lemma {:induction false} ReplayTagAdds(s: Snapshot, calls: seq<Call>)
    requires TagAdds(calls) && s.tags.Some?
    ensures Replay(s, calls + [FinalizeTags]) == Some(s.(tags := Some(s.tags.value + TagsOf(calls))))
    decreases |calls|
  {
    if calls == [] {
      assert [] + [FinalizeTags] == [FinalizeTags];
      assert s.tags.value + TagsOf(calls) == s.tags.value;
    } else {
      var c := calls[0];
      var next := s.(tags := Some(s.tags.value + [(c.name, c.index, c.dimension)]));
      assert (calls + [FinalizeTags])[0] == c && (calls + [FinalizeTags])[1..] == calls[1..] + [FinalizeTags];
      ReplayTagAdds(next, calls[1..]);
      assert TagsOf(calls) == [(c.name, c.index, c.dimension)] + TagsOf(calls[1..]);
      assert next.tags.value + TagsOf(calls[1..]) == s.tags.value + TagsOf(calls);
    }
  }

  /** The tag list exists only once `set_up_elements` was called: a
      physical name handed to a fresh receiver makes it raise. */
  lemma NamesBeforeElementsRaise(calls: seq<Call>)
    requires calls != [] && calls[0].AddTag?
    ensures Replay(Initial(), calls) == None
  {
  }
}
