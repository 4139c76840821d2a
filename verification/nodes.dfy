/**
 * The node heap of the stack, as values: an arena from node ids to nodes,
 * the chain that starts at head, and the invariants that tie the arena to
 * the chain, to the retire lists and to the hazard records. One lemma per
 * step of the stack (link a node in front, unlink the top node, free retired
 * nodes) shows that the step keeps them.
 */
module NodeArena {
  import opened Wrappers
  import opened Hazards
  import Lifo

  /** A stack element: its value and the node below it. */
  datatype Node<T> = Node(data: T, tail: Option<NodeId>)

  /** No node id occurs twice. */
  predicate Distinct(s: seq<NodeId>)
  {
    forall i, j :: 0 <= i < j < |s| ==> s[i] != s[j]
  }

  /** The values held by the nodes `ids`, in order. */
  function ValuesOf<T>(nodes: map<NodeId, Node<T>>, ids: seq<NodeId>): seq<T>
    requires forall k :: 0 <= k < |ids| ==> ids[k] in nodes
  {
    seq(|ids|, k requires 0 <= k < |ids| => nodes[ids[k]].data)
  }

  /** Ids are handed out once, in increasing order; a freed id is no longer allocated. */
  ghost predicate Arena<T>(nodes: map<NodeId, Node<T>>, nextId: NodeId, freed: set<NodeId>)
  {
    (forall n :: n in nodes ==> n < nextId) &&
    (forall n :: n in freed ==> n < nextId && n !in nodes)
  }

  /** Following the tails from `head` visits the allocated nodes `ids`, in order, and then reaches null. */
  ghost predicate Linked<T>(nodes: map<NodeId, Node<T>>, head: Option<NodeId>, ids: seq<NodeId>)
    decreases |ids|
  {
    if ids == [] then head == None
    else head == Some(ids[0]) && ids[0] in nodes && Linked(nodes, nodes[ids[0]].tail, ids[1..])
  }

  /** `ids` is the acyclic chain of allocated nodes that starts at `head` and follows the tails. */
  ghost predicate Chain<T>(nodes: map<NodeId, Node<T>>, head: Option<NodeId>, ids: seq<NodeId>)
  {
    Linked(nodes, head, ids) && (forall k :: 0 <= k < |ids| ==> ids[k] in nodes) && Distinct(ids)
  }

  /**
   * Conservation: an allocated node is either on the stack or retired by a
   * registered record, never both.
   */
  ghost predicate Partition<T>(nodes: map<NodeId, Node<T>>, ids: seq<NodeId>, retiredBy: map<NodeId, nat>, registry: nat)
  {
    (forall n :: n in nodes <==> n in ids || n in retiredBy) &&
    (forall n :: n in retiredBy ==> n !in ids && retiredBy[n] < registry)
  }

  /** Alive records publish allocated nodes only. */
  ghost predicate PublishesAllocated<T>(hs: seq<Hazard>, nodes: map<NodeId, Node<T>>)
  {
    forall i :: 0 <= i < |hs| && hs[i].alive && hs[i].ptr.Some? ==> hs[i].ptr.value in nodes
  }

  /** `xs` lists, once each, exactly the nodes that `retiredBy` says record `hz` retired. */
  ghost predicate RetireList(xs: seq<NodeId>, retiredBy: map<NodeId, nat>, hz: nat)
  {
    Distinct(xs) &&
    (forall k :: 0 <= k < |xs| ==> xs[k] in retiredBy && retiredBy[xs[k]] == hz) &&
    (forall n :: n in retiredBy && retiredBy[n] == hz ==> n in xs)
  }

  /** Every retired node was retired through a registered record that is still alive. */
  ghost predicate OwnersAlive(retiredBy: map<NodeId, nat>, hs: seq<Hazard>)
  {
    forall n :: n in retiredBy ==> retiredBy[n] < |hs| && hs[retiredBy[n]].alive
  }

  /** As `OwnersAlive`, for the nodes retired through records other than `hz`. */
  ghost predicate OthersAlive(retiredBy: map<NodeId, nat>, hs: seq<Hazard>, hz: nat)
  {
    forall n :: n in retiredBy && retiredBy[n] != hz ==> retiredBy[n] < |hs| && hs[retiredBy[n]].alive
  }

  /**
   * From registry `hs0` and retire map `rb0` to `hs` and `rb`, only record
   * `hz` and the nodes retired through it have changed; records may have been added.
   */
  ghost predicate OnlyRecordChanged(hs0: seq<Hazard>, rb0: map<NodeId, nat>, hs: seq<Hazard>, rb: map<NodeId, nat>, hz: nat)
  {
    |hs0| <= |hs| &&
    (forall j :: 0 <= j < |hs0| && j != hz ==> hs[j] == hs0[j]) &&
    (forall n :: n in rb0 && rb0[n] != hz ==> n in rb && rb[n] == rb0[n]) &&
    (forall n :: n in rb && rb[n] != hz ==> n in rb0 && rb0[n] == rb[n])
  }

  /** The whole heap invariant. */
  ghost predicate Heap<T>(nodes: map<NodeId, Node<T>>, nextId: NodeId, freed: set<NodeId>, head: Option<NodeId>,
                          ids: seq<NodeId>, retiredBy: map<NodeId, nat>, hs: seq<Hazard>)
  {
    Arena(nodes, nextId, freed) && Chain(nodes, head, ids) &&
    Partition(nodes, ids, retiredBy, |hs|) && PublishesAllocated(hs, nodes)
  }

  /**
   * Hazard-pointer safety follows from the heap invariant: no freed node is
   * on the stack, and no alive record publishes a freed node.
   */
  lemma HeapIsSafe<T>(nodes: map<NodeId, Node<T>>, nextId: NodeId, freed: set<NodeId>, head: Option<NodeId>,
                      ids: seq<NodeId>, retiredBy: map<NodeId, nat>, hs: seq<Hazard>, n: NodeId)
    requires Heap(nodes, nextId, freed, head, ids, retiredBy, hs) && n in freed
    ensures n !in ids && n !in retiredBy && !Published(hs, n)
  {
    assert n !in nodes;
  }

  /** Changing a node that is not on a chain leaves the chain intact. */
  lemma {:induction false} LinkedUpdate<T>(nodes: map<NodeId, Node<T>>, head: Option<NodeId>, ids: seq<NodeId>,
                                           n: NodeId, node: Node<T>)
    requires Linked(nodes, head, ids) && n !in ids
    ensures Linked(nodes[n := node], head, ids)
    decreases |ids|
  {
    if ids != [] {
      assert ids[0] != n;
      LinkedUpdate(nodes, nodes[ids[0]].tail, ids[1..], n, node);
    }
  }

  /** Removing nodes that are not on a chain leaves the chain intact. */
  lemma {:induction false} LinkedRemove<T>(nodes: map<NodeId, Node<T>>, head: Option<NodeId>, ids: seq<NodeId>,
                                           gone: set<NodeId>)
    requires Linked(nodes, head, ids) && forall k :: 0 <= k < |ids| ==> ids[k] !in gone
    ensures Linked(nodes - gone, head, ids)
    decreases |ids|
  {
    if ids != [] {
      assert ids[0] !in gone;
      LinkedRemove(nodes, nodes[ids[0]].tail, ids[1..], gone);
    }
  }

  /** Linking a node that is not allocated in front of head extends the chain by that node. */
  lemma LinkChain<T>(nodes: map<NodeId, Node<T>>, head: Option<NodeId>, ids: seq<NodeId>, n: NodeId, v: T)
    requires Chain(nodes, head, ids) && n !in nodes
    ensures Chain(nodes[n := Node(v, head)], Some(n), [n] + ids)
  {
    var nodes', ids' := nodes[n := Node(v, head)], [n] + ids;
    assert n !in ids;
    LinkedUpdate(nodes, head, ids, n, Node(v, head));
    assert ids'[1..] == ids;
    forall k | 0 <= k < |ids'| ensures ids'[k] in nodes' {
      if k > 0 { assert ids'[k] == ids[k - 1]; }
    }
    forall i, j | 0 <= i < j < |ids'| ensures ids'[i] != ids'[j] {
      assert ids'[j] == ids[j - 1];
      if i > 0 { assert ids'[i] == ids[i - 1]; }
    }
  }

  /** The values of the extended chain are the new value on top of the old ones. */
  lemma LinkValues<T>(nodes: map<NodeId, Node<T>>, ids: seq<NodeId>, n: NodeId, node: Node<T>)
    requires forall k :: 0 <= k < |ids| ==> ids[k] in nodes && ids[k] != n
    ensures ValuesOf(nodes[n := node], [n] + ids) == [node.data] + ValuesOf(nodes, ids)
  {
    var vs, vs' := ValuesOf(nodes, ids), ValuesOf(nodes[n := node], [n] + ids);
    assert forall k :: 0 < k < |vs'| ==> vs'[k] == vs[k - 1];
  }

  /** Unlinking the top node leaves the chain of the nodes below it, starting at its tail. */
  lemma UnlinkChain<T>(nodes: map<NodeId, Node<T>>, head: Option<NodeId>, ids: seq<NodeId>)
    requires Chain(nodes, head, ids) && head.Some?
    ensures ids != [] && ids[0] == head.value && head.value in nodes
    ensures Chain(nodes, nodes[head.value].tail, ids[1..])
    ensures head.value !in ids[1..]
  {
    var rest := ids[1..];
    forall k | 0 <= k < |rest| ensures rest[k] in nodes && rest[k] != ids[0] {
      assert rest[k] == ids[k + 1];
    }
  }

  /** The values below the top are the old values without the top one. */
  lemma UnlinkValues<T>(nodes: map<NodeId, Node<T>>, ids: seq<NodeId>)
    requires ids != [] && forall k :: 0 <= k < |ids| ==> ids[k] in nodes
    ensures ValuesOf(nodes, ids) == [nodes[ids[0]].data] + ValuesOf(nodes, ids[1..])
  {
    var vs, vs' := ValuesOf(nodes, ids), ValuesOf(nodes, ids[1..]);
    assert forall k :: 0 <= k < |vs'| ==> vs'[k] == vs[k + 1];
  }

  /**
   * Push: a node with the next id, linked in front of head, becomes the top;
   * the abstract stack gains the value on top.
   */
  lemma PushStep<T>(nodes: map<NodeId, Node<T>>, nextId: NodeId, freed: set<NodeId>, head: Option<NodeId>,
                    ids: seq<NodeId>, retiredBy: map<NodeId, nat>, hs: seq<Hazard>, v: T)
    requires Heap(nodes, nextId, freed, head, ids, retiredBy, hs)
    ensures nextId !in nodes && nextId !in freed
    ensures Heap(nodes[nextId := Node(v, head)], nextId + 1, freed, Some(nextId), [nextId] + ids, retiredBy, hs)
    ensures ValuesOf(nodes[nextId := Node(v, head)], [nextId] + ids) == Lifo.Push(ValuesOf(nodes, ids), v)
  {
    LinkChain(nodes, head, ids, nextId, v);
    LinkValues(nodes, ids, nextId, Node(v, head));
    assert forall n :: n in [nextId] + ids <==> n == nextId || n in ids;
  }

  /**
   * Pop: the top node is unlinked (head moves to its tail) and retired by
   * record `hz`, which publishes it; the abstract stack loses its top value,
   * which is the node's value.
   */
  lemma PopStep<T>(nodes: map<NodeId, Node<T>>, nextId: NodeId, freed: set<NodeId>, head: Option<NodeId>,
                   ids: seq<NodeId>, retiredBy: map<NodeId, nat>, hs: seq<Hazard>, xs: seq<NodeId>, hz: nat)
    requires Heap(nodes, nextId, freed, head, ids, retiredBy, hs) && OwnersAlive(retiredBy, hs)
    requires RetireList(xs, retiredBy, hz)
    requires head.Some? && hz < |hs| && hs[hz].alive
    ensures ids != [] && ids[0] == head.value && head.value in nodes && head.value !in retiredBy
    ensures var n := head.value;
      var retiredBy', hs' := retiredBy[n := hz], hs[hz := Hazard(true, Some(n))];
      Heap(nodes, nextId, freed, nodes[n].tail, ids[1..], retiredBy', hs') &&
      OwnersAlive(retiredBy', hs') && RetireList(xs + [n], retiredBy', hz) &&
      OnlyRecordChanged(hs, retiredBy, hs', retiredBy', hz)
    ensures Lifo.Pop(ValuesOf(nodes, ids)) == (Some(nodes[head.value].data), ValuesOf(nodes, ids[1..]))
  {
    UnlinkChain(nodes, head, ids);
    UnlinkValues(nodes, ids);
    var n, rest := head.value, ids[1..];
    var retiredBy', hs' := retiredBy[n := hz], hs[hz := Hazard(true, Some(n))];
    assert forall m :: m in ids <==> m == n || m in rest;
    assert Partition(nodes, rest, retiredBy', |hs'|) by {
      forall m ensures m in nodes <==> m in rest || m in retiredBy' {
        assert m in nodes <==> m in ids || m in retiredBy;
      }
    }
    assert PublishesAllocated(hs', nodes) by {
      forall i | 0 <= i < |hs'| && hs'[i].alive && hs'[i].ptr.Some? ensures hs'[i].ptr.value in nodes {
        if i != hz { assert hs'[i] == hs[i]; }
      }
    }
    assert n !in xs;
    var xs' := xs + [n];
    assert RetireList(xs', retiredBy', hz) by {
      forall k | 0 <= k < |xs'| ensures xs'[k] in retiredBy' && retiredBy'[xs'[k]] == hz {
        if k < |xs| { assert xs'[k] == xs[k]; }
      }
      forall m | m in retiredBy' && retiredBy'[m] == hz ensures m in xs' {
        if m != n { assert m in xs; }
      }
    }
  }

  /**
   * Clone: claiming a record for a new handle keeps the heap invariant,
   * since the claimed record publishes nothing, and no retired node belongs
   * to the claimed record.
   */
  lemma RegisterStep<T>(nodes: map<NodeId, Node<T>>, nextId: NodeId, freed: set<NodeId>, head: Option<NodeId>,
                        ids: seq<NodeId>, retiredBy: map<NodeId, nat>, hs: seq<Hazard>)
    requires Heap(nodes, nextId, freed, head, ids, retiredBy, hs) && OwnersAlive(retiredBy, hs)
    ensures Heap(nodes, nextId, freed, head, ids, retiredBy, Register(hs).0)
    ensures OwnersAlive(retiredBy, Register(hs).0)
    ensures forall n :: n in retiredBy ==> retiredBy[n] != Register(hs).1
  {
    var (hs', id) := Register(hs);
    forall n | n in retiredBy ensures retiredBy[n] != id && hs'[retiredBy[n]].alive {
      assert hs[retiredBy[n]].alive;
    }
  }

  /**
   * Free: removing retired nodes that no alive record publishes keeps the
   * heap invariant and leaves the chain and its values untouched.
   */
  lemma FreeStep<T>(nodes: map<NodeId, Node<T>>, nextId: NodeId, freed: set<NodeId>, head: Option<NodeId>,
                    ids: seq<NodeId>, retiredBy: map<NodeId, nat>, hs: seq<Hazard>, gone: set<NodeId>)
    requires Heap(nodes, nextId, freed, head, ids, retiredBy, hs)
    requires forall n :: n in gone ==> n in retiredBy && !Published(hs, n)
    ensures Heap(nodes - gone, nextId, freed + gone, head, ids, retiredBy - gone, hs)
    ensures ValuesOf(nodes - gone, ids) == ValuesOf(nodes, ids)
  {
    forall k | 0 <= k < |ids| ensures ids[k] !in gone {
      assert ids[k] in ids;
    }
    LinkedRemove(nodes, head, ids, gone);
    forall i | 0 <= i < |hs| && hs[i].alive && hs[i].ptr.Some?
      ensures hs[i].ptr.value !in gone
    {
      if hs[i].ptr.value in gone {
        assert Published(hs, hs[i].ptr.value);
      }
    }
  }

  /**
   * After gc a retire list still lists exactly what its record retired: the
   * kept nodes, while the released ones are no longer retired by anyone.
   * Records other than `hz` keep what they retired.
   */
  lemma GcKeepsRetireList(xs: seq<NodeId>, retiredBy: map<NodeId, nat>, hz: nat, snap: seq<Option<NodeId>>)
    requires RetireList(xs, retiredBy, hz)
    ensures RetireList(Kept(xs, snap), retiredBy - Released(xs, snap), hz)
    ensures forall n :: n in Released(xs, snap) ==> n in retiredBy && retiredBy[n] == hz
  {
    KeptDistinct(xs, snap);
    var ks, rb := Kept(xs, snap), retiredBy - Released(xs, snap);
    forall k | 0 <= k < |ks| ensures ks[k] in rb && rb[ks[k]] == hz {
      assert ks[k] in ks;
      assert ks[k] in xs;
    }
  }

  /**
   * One gc pass at the level of values: freeing the retired nodes of `xs`
   * that the registry's snapshot does not publish keeps the heap invariant,
   * keeps the abstract stack, keeps `xs`'s kept part a retire list of `hz`,
   * and touches no node retired through another record.
   */
  lemma GcStep<T>(nodes: map<NodeId, Node<T>>, nextId: NodeId, freed: set<NodeId>, head: Option<NodeId>,
                  ids: seq<NodeId>, retiredBy: map<NodeId, nat>, hs: seq<Hazard>, xs: seq<NodeId>, hz: nat)
    requires Heap(nodes, nextId, freed, head, ids, retiredBy, hs) && OthersAlive(retiredBy, hs, hz)
    requires RetireList(xs, retiredBy, hz)
    ensures var gone := Released(xs, Snapshot(hs));
      Heap(nodes - gone, nextId, freed + gone, head, ids, retiredBy - gone, hs) &&
      ValuesOf(nodes - gone, ids) == ValuesOf(nodes, ids) &&
      RetireList(Kept(xs, Snapshot(hs)), retiredBy - gone, hz) &&
      OthersAlive(retiredBy - gone, hs, hz) &&
      OnlyRecordChanged(hs, retiredBy, hs, retiredBy - gone, hz)
  {
    var gone := Released(xs, Snapshot(hs));
    GcKeepsRetireList(xs, retiredBy, hz, Snapshot(hs));
    forall n | n in gone ensures n in retiredBy && !Published(hs, n) {
      ProtectedIffPublished(hs, n);
    }
    FreeStep(nodes, nextId, freed, head, ids, retiredBy, hs, gone);
  }
}
