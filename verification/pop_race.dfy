/**
 * One attempt of the pop loop, split at the points where another handle can
 * run: the attempt reads head into `snapshot`, publishes the snapshot in its
 * hazard record, then reads the snapshot's tail for the compare-and-swap.
 * Between the read of head and the publication another handle may pop the
 * same node and free it, because nothing published it yet.
 */
module PopRace {
  import opened Wrappers
  import opened Hazards
  import opened NodeArena
  import Lifo

  /** How one attempt of the pop loop ends. */
  datatype Attempt<T> =
    | Empty                                    // head was null
    | Retry                                    // head moved on; try again
    | Popped(data: T, tail: Option<NodeId>)    // the compare-and-swap can move head to `tail`
    | UseAfterFree(node: NodeId)               // the attempt dereferenced a freed node

  /**
   * The attempt as written, resumed after publishing `snapshot`: the node's
   * tail is read for the compare-and-swap before anything checks that head
   * still holds the snapshot.
   */
  function AttemptAsWritten<T>(nodes: map<NodeId, Node<T>>, head: Option<NodeId>, snapshot: Option<NodeId>): (r: Attempt<T>)
    ensures r.UseAfterFree? <==> snapshot.Some? && snapshot.value !in nodes
    ensures r.Popped? <==> snapshot.Some? && snapshot.value in nodes && head == snapshot
    ensures r.Empty? <==> snapshot.None?
  {
    match snapshot
    case None => Empty
    case Some(s) =>
      if s !in nodes then UseAfterFree(s)
      else if head == Some(s) then Popped(nodes[s].data, nodes[s].tail)
      else Retry
  }

  /**
   * The attempt with the validation the hazard-pointer protocol calls for:
   * after publishing, head is read again, and the snapshot is dereferenced
   * only if head still holds it.
   */
  function AttemptValidated<T>(nodes: map<NodeId, Node<T>>, head: Option<NodeId>, snapshot: Option<NodeId>): (r: Attempt<T>)
    ensures r.Retry? <==> snapshot.Some? && head != snapshot
    ensures r.Empty? <==> snapshot.None?
  {
    match snapshot
    case None => Empty
    case Some(s) =>
      if head != Some(s) then Retry
      else if s !in nodes then UseAfterFree(s)
      else Popped(nodes[s].data, nodes[s].tail)
  }

  /**
   * The validated attempt never touches a freed node: when head still holds
   * the snapshot, the snapshot is the top of the chain, so it is allocated
   * and the attempt pops the top value of the abstract stack.
   */
  lemma ValidatedAttemptIsSafe<T>(nodes: map<NodeId, Node<T>>, nextId: NodeId, freed: set<NodeId>, head: Option<NodeId>,
                                  ids: seq<NodeId>, retiredBy: map<NodeId, nat>, hs: seq<Hazard>, snapshot: Option<NodeId>)
    requires Heap(nodes, nextId, freed, head, ids, retiredBy, hs)
    ensures !AttemptValidated(nodes, head, snapshot).UseAfterFree?
    ensures snapshot.Some? && head == snapshot ==>
      var s := snapshot.value;
      s in nodes && AttemptValidated(nodes, head, snapshot) == Popped(nodes[s].data, nodes[s].tail) &&
      Lifo.Pop(ValuesOf(nodes, ids)).0 == Some(nodes[s].data)
  {
    if snapshot.Some? && head == snapshot {
      UnlinkChain(nodes, head, ids);
      UnlinkValues(nodes, ids);
    }
  }

  /**
   * Once an alive record publishes an allocated node, no gc pass, by any
   * handle and over any retire list, frees it. Nothing here needs head to
   * still hold the node: the protection lasts for as long as the record
   * publishes it, whatever other handles do to head in the meantime.
   */
  lemma ValidatedNodeStaysAllocated<T>(nodes: map<NodeId, Node<T>>, hs: seq<Hazard>, hz: nat, s: NodeId, xs: seq<NodeId>)
    requires s in nodes && hz < |hs| && hs[hz] == Hazard(true, Some(s))
    ensures s in nodes - Released(xs, Snapshot(hs))
  {
    PublishedIsNeverReleased(hs, s, xs);
  }
}
