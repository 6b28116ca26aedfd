/** The receiver interface (`GmshMeshReceiverBase`): the reader drives any
    receiver through these eight calls, so a parse is described by the
    sequence of calls it makes. */
module ReceiverPort {
  import opened Wrappers
  import opened ElementTypes

  /** A node's coordinates, kept as the tokens of the node line. */
  type Point = seq<string>

  datatype Call =
    | SetUpNodes(count: int)
    | AddNode(nodeNr: nat, point: Point)
    | FinalizeNodes
    | SetUpElements(count: int)
    | AddElement(elementNr: nat, elementType: ElementType, vertexNrs: seq<int>,
                 lexicographicNodes: seq<int>, tagNumbers: seq<int>)
    | FinalizeElements
    | AddTag(name: string, index: int, dimension: int)
    | FinalizeTags

  /** Where a receiver is in the call protocol: between sections, inside a
      nodes or elements section (declared count, next index), or inside a
      physical-names section (names so far). */
  datatype Phase =
    | Between
    | InNodes(count: int, next: nat)
    | InElements(count: int, next: nat)
    | InTags(added: nat)

  /** The protocol the reader keeps with its receivers: `set_up_X(n)`
      first, then `add_X` with indices 0, 1, 2, ... in order, and
      `finalize_X` only once exactly n were added; physical names need no
      set-up. The reader checks the count only at the end marker, so an
      `add_X` index may pass n before the count error is raised. `None`
      means the call breaks the protocol. */
  function Step(phase: Phase, call: Call): Option<Phase> {
    match (phase, call)
    case (Between, SetUpNodes(n)) => Some(InNodes(n, 0))
    case (Between, SetUpElements(n)) => Some(InElements(n, 0))
    case (Between, AddTag(_, _, _)) => Some(InTags(1))
    case (Between, FinalizeTags) => Some(Between)
    case (InNodes(n, i), AddNode(j, _)) => if j == i then Some(InNodes(n, i + 1)) else None
    case (InNodes(n, i), FinalizeNodes) => if i == n then Some(Between) else None
    case (InElements(n, i), AddElement(j, _, _, _, _)) =>
      if j == i then Some(InElements(n, i + 1)) else None
    case (InElements(n, i), FinalizeElements) => if i == n then Some(Between) else None
    case (InTags(k), AddTag(_, _, _)) => Some(InTags(k + 1))
    case (InTags(_), FinalizeTags) => Some(Between)
    case _ => None
  }

  /** The phase after a sequence of calls made in phase `phase`. */
  function RunFrom(phase: Phase, calls: seq<Call>): Option<Phase>
    decreases |calls|
  {
    if calls == [] then Some(phase)
    else match Step(phase, calls[0])
      case None => None
      case Some(next) => RunFrom(next, calls[1..])
  }

  /** Running two call sequences one after the other. */
  lemma {:induction false} RunFromAppend(phase: Phase, a: seq<Call>, b: seq<Call>)
    ensures RunFrom(phase, a + b) ==
      match RunFrom(phase, a)
      case None => None
      case Some(mid) => RunFrom(mid, b)
    decreases |a|
  {
    if a == [] {
      assert a + b == b;
    } else {
      assert (a + b)[1..] == a[1..] + b;
      match Step(phase, a[0])
      case None =>
      case Some(next) => RunFromAppend(next, a[1..], b);
    }
  }

  /** Running one more call. */
  lemma RunFromSnoc(phase: Phase, calls: seq<Call>, call: Call)
    ensures RunFrom(phase, calls + [call]) ==
      match RunFrom(phase, calls)
      case None => None
      case Some(mid) => Step(mid, call)
  {
    RunFromAppend(phase, calls, [call]);
    assert [call][1..] == [];
  }

  /** A complete call sequence that respects the protocol. */
  predicate FollowsProtocol(calls: seq<Call>) {
    RunFrom(Between, calls) == Some(Between)
  }
}
