/**
 * Treiber's LIFO stack with hazard-pointer reclamation, as the sequential
 * state machine under the lock-free code: every compare-and-swap succeeds on
 * its first attempt and every registry access is one atomic step.
 *
 * A `Stack` is the shared state (the node arena, head and the registry of
 * hazard records); a `StackHandle` is one owner's view of it (the index of
 * its hazard record and its retire list `toFree`).
 */
module TreiberStack {
  import opened Wrappers
  import opened Hazards
  import opened NodeArena
  import opened PopRace
  import Lifo

  /** The shared state. */
  class Stack<T> {
    var nodes: map<NodeId, Node<T>>   // allocated and not yet freed
    var nextId: NodeId                // the id the next push allocates; ids are never reused
    var head: Option<NodeId>
    var hazards: seq<Hazard>          // the registry; a record is named by its index
    var tornDown: bool                // the shared state has been destroyed

    ghost var contents: seq<NodeId>          // the chain from head, top first
    ghost var retiredBy: map<NodeId, nat>    // unlinked, unfreed node -> record of the handle that unlinked it
    ghost var freed: set<NodeId>             // nodes that were allocated and have been freed
    ghost var owner: map<nat, StackHandle<T>>  // the handle that holds each alive record

    /** The invariant, except for who owns retired nodes. */
    ghost predicate Core()
      reads this
    {
      Heap(nodes, nextId, freed, head, contents, retiredBy, hazards) &&
      (tornDown ==> AllDead(hazards))
    }

    /** The invariant: `Core`, every retired node's record is alive, and exactly the alive records have a holder. */
    ghost predicate Valid()
      reads this
      ensures Valid() ==> Safe()
    {
      Core() && OwnersAlive(retiredBy, hazards) && owner.Keys == AliveSet(hazards)
    }

    /** Hazard-pointer safety: no freed node is reachable from head or published by an alive record. */
    ghost predicate Safe()
      reads this
    {
      (forall n :: n in freed ==> n !in contents) &&
      (forall n :: n in freed ==> !Published(hazards, n))
    }

    /** The abstract stack: the values along the chain from head, top first. */
    ghost function Values(): seq<T>
      reads this
      requires Core()
    {
      ValuesOf(nodes, contents)
    }

    /** The nodes retired through record `hz`. */
    ghost function Owned(hz: nat): set<NodeId>
      reads this
    {
      set n | n in retiredBy && retiredBy[n] == hz
    }

    /**
     * Relative to `hs0`, `rb0` and `ow0`, only record `hz`, the nodes retired
     * through it and its holder may have changed.
     */
    ghost predicate OthersUnchanged(hs0: seq<Hazard>, rb0: map<NodeId, nat>, ow0: map<nat, StackHandle<T>>, hz: nat)
      reads this
    {
      OnlyRecordChanged(hs0, rb0, hazards, retiredBy, hz) &&
      forall j :: j in ow0 && j != hz ==> j in owner && owner[j] == ow0[j]
    }

    /**
     * The shared state as the first handle creates it: empty, with one alive
     * record publishing nothing, which that handle then takes as its own.
     */
    constructor ()
      ensures Core() && OwnersAlive(retiredBy, hazards)
      ensures head == None && Values() == [] && nodes == map[] && hazards == [Fresh] && !tornDown
      ensures retiredBy == map[] && freed == {} && owner == map[]
    {
      nodes, nextId, head := map[], 0, None;
      hazards, tornDown := [Fresh], false;
      contents, retiredBy, freed, owner := [], map[], {}, map[];
    }

    /**
     * Claims a record for a new handle: the first dead record is reset to
     * publish nothing and marked alive; if no record is dead, a fresh one is
     * appended.
     */
    method NewHazard() returns (id: nat)
      requires Valid() && !tornDown
      modifies this
      ensures Core() && OwnersAlive(retiredBy, hazards)
      ensures (hazards, id) == Register(old(hazards))
      ensures Owned(id) == {}
      ensures owner == old(owner)
      ensures id !in owner && owner.Keys + {id} == AliveSet(hazards)
      ensures nodes == old(nodes) && nextId == old(nextId) && head == old(head)
      ensures contents == old(contents) && retiredBy == old(retiredBy) && freed == old(freed)
      ensures tornDown == old(tornDown)
    {
      RegistryGrowth(hazards);
      RegisterStep(nodes, nextId, freed, head, contents, retiredBy, hazards);
      AliveSetRegister(hazards);
      var i := 0;
      while i < |hazards|
        invariant 0 <= i <= |hazards| && unchanged(this)
        invariant forall j :: 0 <= j < i ==> hazards[j].alive
      {
        if !hazards[i].alive {
          assert FirstDead(hazards) == Some(i);
          hazards := hazards[i := hazards[i].(ptr := None)];
          hazards := hazards[i := hazards[i].(alive := true)];
          assert hazards == old(hazards)[i := Fresh];
          return i;
        }
        i := i + 1;
      }
      hazards := hazards + [Fresh];
      id := |hazards| - 1;
    }
  }

  /** One owner's access to a shared stack. */
  class StackHandle<T> {
    const stack: Stack<T>
    const hazard: nat                 // the index of this handle's record
    var toFree: seq<NodeId>           // nodes this handle unlinked and has not freed

    /** `toFree` lists exactly the nodes retired through this handle's record, once each. */
    ghost predicate Owns(rb: map<NodeId, nat>)
      reads this
    {
      RetireList(toFree, rb, hazard)
    }

    /** This handle's record is alive in `hs` and it owns what `rb` says it retired. */
    ghost predicate BoundTo(hs: seq<Hazard>, rb: map<NodeId, nat>)
      reads this
    {
      hazard < |hs| && hs[hazard].alive && Owns(rb)
    }

    /** The stack is valid and this handle is the one holding its alive record. */
    ghost predicate Valid()
      reads this, stack
    {
      stack.Valid() && BoundTo(stack.hazards, stack.retiredBy) && HeldIn(stack.owner)
    }

    /** `ow` names this handle as the holder of its record. */
    ghost predicate HeldIn(ow: map<nat, StackHandle<T>>)
      reads this
    {
      hazard in ow && ow[hazard] == this
    }

    /**
     * The state gc works in: as `Valid`, except that this handle's own record
     * may already be dead (while the handle is being dropped).
     */
    ghost predicate Collectable()
      reads this, stack
    {
      stack.Core() && hazard < |stack.hazards| && Owns(stack.retiredBy) &&
      OthersAlive(stack.retiredBy, stack.hazards, hazard)
    }

    /**
     * While this handle's record is alive and the handle holds it, the gc
     * state is the full invariant.
     */
    lemma CollectableIsValid()
      requires Collectable() && stack.hazards[hazard].alive
      requires stack.owner.Keys == AliveSet(stack.hazards) && HeldIn(stack.owner)
      ensures Valid()
    {
    }

    /** A new, empty stack with one handle, holding the only record, with nothing retired. */
    constructor ()
      ensures Valid() && fresh(stack)
      ensures stack.head == None && stack.Values() == []
      ensures stack.hazards == [Hazard(true, None)] && hazard == 0 && toFree == []
      ensures stack.owner == map[0 := this]
    {
      stack := new Stack();
      hazard := 0;
      toFree := [];
      new;
      stack.owner := map[0 := this];
    }

    /**
     * A handle on `s` for record `hz`, with nothing retired. Only a record
     * that no handle holds can be given to a new handle.
     */
    constructor Attach(s: Stack<T>, hz: nat)
      requires hz !in s.owner
      ensures stack == s && hazard == hz && toFree == []
    {
      stack := s;
      hazard := hz;
      toFree := [];
    }

    /** Allocates a node for `v` and links it in front of head. */
    method Push(v: T)
      requires Valid()
      modifies stack
      ensures Valid()
      ensures stack.Values() == Lifo.Push(old(stack.Values()), v)
      ensures old(stack.nextId) !in old(stack.nodes)
      ensures stack.nodes == old(stack.nodes)[old(stack.nextId) := Node(v, old(stack.head))]
      ensures stack.head == Some(old(stack.nextId)) && stack.nextId == old(stack.nextId) + 1
      ensures stack.hazards == old(stack.hazards) && stack.retiredBy == old(stack.retiredBy)
      ensures stack.freed == old(stack.freed) && stack.tornDown == old(stack.tornDown)
      ensures stack.owner == old(stack.owner)
    {
      PushStep(stack.nodes, stack.nextId, stack.freed, stack.head, stack.contents, stack.retiredBy, stack.hazards, v);
      var n := stack.nextId;
      stack.nextId := stack.nextId + 1;
      // the new node is private to this handle until the compare-and-swap publishes it
      var node := Node(v, None);
      // the compare-and-swap loop, on its successful attempt
      var snapshot := stack.head;
      node := node.(tail := snapshot);
      stack.nodes := stack.nodes[n := node];
      stack.head := Some(n);
      stack.contents := [n] + stack.contents;
      assert stack.Core();
      assert BoundTo(stack.hazards, stack.retiredBy);
    }

    /**
     * Takes the top value. On an empty stack nothing changes. Otherwise head
     * is published in this handle's record, checked to still be head,
     * unlinked, and retired into `toFree`; the node is not freed and the
     * record keeps publishing it.
     */
    method Pop() returns (r: Option<T>)
      requires Valid()
      modifies this, stack
      ensures Valid()
      ensures (r, stack.Values()) == Lifo.Pop(old(stack.Values()))
      ensures old(stack.head).None? ==>
        toFree == old(toFree) && stack.hazards == old(stack.hazards) &&
        stack.head == old(stack.head) && stack.retiredBy == old(stack.retiredBy)
      ensures old(stack.head).Some? ==>
        var n := old(stack.head).value;
        stack.head == old(stack.nodes)[n].tail &&
        toFree == old(toFree) + [n] &&
        stack.hazards == old(stack.hazards)[hazard := Hazard(true, Some(n))] &&
        stack.retiredBy == old(stack.retiredBy)[n := hazard]
      ensures stack.nodes == old(stack.nodes) && stack.freed == old(stack.freed)
      ensures stack.nextId == old(stack.nextId) && stack.tornDown == old(stack.tornDown)
      ensures stack.owner == old(stack.owner)
      ensures stack.OthersUnchanged(old(stack.hazards), old(stack.retiredBy), old(stack.owner), hazard)
    {
      var snapshot := stack.head;
      if snapshot == None {
        return None;
      }
      var n := snapshot.value;
      PopStep(stack.nodes, stack.nextId, stack.freed, stack.head, stack.contents, stack.retiredBy, stack.hazards, toFree, hazard);
      ValidatedAttemptIsSafe(stack.nodes, stack.nextId, stack.freed, stack.head, stack.contents, stack.retiredBy, stack.hazards, snapshot);
      AliveSetPublish(stack.hazards, hazard, Some(n));
      // publish, check head still holds the snapshot, then the compare-and-swap on its successful attempt
      stack.hazards := stack.hazards[hazard := stack.hazards[hazard].(ptr := Some(n))];
      var attempt := AttemptValidated(stack.nodes, stack.head, snapshot);
      stack.head := attempt.tail;
      toFree := toFree + [n];
      stack.contents := stack.contents[1..];
      stack.retiredBy := stack.retiredBy[n := hazard];
      r := Some(attempt.data);
      assert stack.Core();
      assert BoundTo(stack.hazards, stack.retiredBy);
    }

    /**
     * Frees the retired nodes that no alive record publishes and keeps the
     * others, in their order; with nothing retired it does nothing.
     */
    method Gc()
      requires Collectable()
      modifies this, stack
      ensures Collectable()
      ensures old(toFree) == [] ==> toFree == [] && stack.nodes == old(stack.nodes)
      ensures toFree == Kept(old(toFree), Snapshot(stack.hazards))
      ensures stack.nodes == old(stack.nodes) - Released(old(toFree), Snapshot(stack.hazards))
      ensures stack.freed == old(stack.freed) + Released(old(toFree), Snapshot(stack.hazards))
      ensures stack.retiredBy == old(stack.retiredBy) - Released(old(toFree), Snapshot(stack.hazards))
      ensures stack.hazards == old(stack.hazards) && stack.head == old(stack.head)
      ensures stack.contents == old(stack.contents) && stack.nextId == old(stack.nextId)
      ensures stack.tornDown == old(stack.tornDown) && stack.owner == old(stack.owner)
      ensures stack.Values() == old(stack.Values())
      ensures stack.OthersUnchanged(old(stack.hazards), old(stack.retiredBy), old(stack.owner), hazard)
    {
      if toFree == [] {
        assert stack.nodes - {} == stack.nodes && stack.retiredBy - {} == stack.retiredBy;
        return;
      }
      var snapshot := Snapshot(stack.hazards);
      var pending := toFree;
      GcStep(stack.nodes, stack.nextId, stack.freed, stack.head, stack.contents, stack.retiredBy, stack.hazards, pending, hazard);
      toFree := [];
      Sweep(pending, snapshot);
      ghost var released := Released(pending, snapshot);
      stack.retiredBy := stack.retiredBy - released;
      stack.freed := stack.freed + released;
    }

    /**
     * The loop of gc: walks the swapped-out retire list `pending`, pushing
     * back onto the (empty) `toFree` each node the snapshot publishes and
     * freeing each other one.
     */
    method Sweep(pending: seq<NodeId>, snapshot: seq<Option<NodeId>>)
      requires toFree == []
      modifies this`toFree, stack`nodes
      ensures toFree == Kept(pending, snapshot)
      ensures stack.nodes == old(stack.nodes) - Released(pending, snapshot)
    {
      for i := 0 to |pending|
        invariant toFree == Kept(pending[..i], snapshot)
        invariant stack.nodes == old(stack.nodes) - Released(pending[..i], snapshot)
      {
        var h := pending[i];
        assert pending[..i + 1] == pending[..i] + [h];
        KeptSnoc(pending[..i], h, snapshot);
        ReleasedSnoc(pending[..i], h, snapshot);
        if Some(h) in snapshot {
          toFree := toFree + [h];
        } else {
          stack.nodes := stack.nodes - {h};
        }
      }
      assert pending[..|pending|] == pending;
    }

    /**
     * Duplicates the handle: the new handle shares the stack, claims a
     * recycled or fresh record, and has nothing retired.
     */
    method Clone() returns (h: StackHandle<T>)
      requires Valid()
      modifies stack
      ensures Valid() && fresh(h) && h.Valid()
      ensures h.stack == stack && h.toFree == []
      ensures (stack.hazards, h.hazard) == Register(old(stack.hazards))
      ensures h.hazard != hazard
      ensures stack.nodes == old(stack.nodes) && stack.head == old(stack.head) && stack.nextId == old(stack.nextId)
      ensures stack.contents == old(stack.contents) && stack.Values() == old(stack.Values())
      ensures stack.retiredBy == old(stack.retiredBy) && stack.freed == old(stack.freed)
      ensures stack.tornDown == old(stack.tornDown)
      ensures stack.owner == old(stack.owner)[h.hazard := h]
      ensures stack.OthersUnchanged(old(stack.hazards), old(stack.retiredBy), old(stack.owner), h.hazard)
    {
      var id := stack.NewHazard();
      h := new StackHandle.Attach(stack, id);
      stack.owner := stack.owner[id := h];
    }

    /**
     * Releases the handle: marks its record dead and gives it up, runs gc
     * until nothing is retired, then tears the shared state down if every
     * record is dead. The handle is used up: it is no longer valid, even
     * after a later clone recycles its record.
     * The drain ends only if no other alive record publishes a node of
     * `toFree`, which this method therefore requires.
     */
    method Drop() returns (teardown: bool)
      requires Valid()
      requires forall k, j :: 0 <= k < |toFree| && 0 <= j < |stack.hazards| && j != hazard && stack.hazards[j].alive
                 ==> stack.hazards[j].ptr != Some(toFree[k])
      modifies this, stack
      ensures stack.Valid() && !Valid()
      ensures stack.hazards == old(stack.hazards)[hazard := old(stack.hazards)[hazard].(alive := false)]
      ensures stack.owner == old(stack.owner) - {hazard}
      ensures toFree == [] && stack.Owned(hazard) == {}
      ensures stack.nodes == old(stack.nodes) - (set n | n in old(toFree))
      ensures stack.freed == old(stack.freed) + (set n | n in old(toFree))
      ensures stack.head == old(stack.head) && stack.contents == old(stack.contents)
      ensures stack.nextId == old(stack.nextId) && stack.Values() == old(stack.Values())
      ensures teardown == stack.tornDown && (teardown <==> AllDead(stack.hazards))
      ensures teardown <==> stack.owner.Keys == {}
      ensures stack.OthersUnchanged(old(stack.hazards), old(stack.retiredBy), old(stack.owner), hazard)
    {
      AliveSetKill(stack.hazards, hazard);
      stack.hazards := stack.hazards[hazard := stack.hazards[hazard].(alive := false)];
      stack.owner := stack.owner - {hazard};
      forall k | 0 <= k < |toFree| ensures Some(toFree[k]) !in Snapshot(stack.hazards) {
        SnapshotPublishes(stack.hazards, Some(toFree[k]));
      }
      Drain();
      teardown := AllDead(stack.hazards);
      if teardown {
        stack.tornDown := true;
      }
    }

    /**
     * The loop of drop: runs gc until `toFree` is empty. No node of `toFree`
     * is in the registry's snapshot, so the first pass frees them all.
     */
    method Drain()
      requires Collectable() && !stack.tornDown
      requires forall k :: 0 <= k < |toFree| ==> Some(toFree[k]) !in Snapshot(stack.hazards)
      modifies this, stack
      ensures Collectable() && toFree == []
      ensures stack.nodes == old(stack.nodes) - (set n | n in old(toFree))
      ensures stack.freed == old(stack.freed) + (set n | n in old(toFree))
      ensures stack.hazards == old(stack.hazards) && stack.head == old(stack.head)
      ensures stack.contents == old(stack.contents) && stack.nextId == old(stack.nextId)
      ensures !stack.tornDown && stack.Values() == old(stack.Values()) && stack.owner == old(stack.owner)
      ensures stack.OthersUnchanged(old(stack.hazards), old(stack.retiredBy), old(stack.owner), hazard)
    {
      ghost var all := set n | n in toFree;
      assert old(stack.nodes) - {} == old(stack.nodes);
      while toFree != []
        invariant Collectable() && !stack.tornDown && stack.Values() == old(stack.Values())
        invariant stack.owner == old(stack.owner)
        invariant stack.hazards == old(stack.hazards) && stack.head == old(stack.head)
        invariant stack.contents == old(stack.contents) && stack.nextId == old(stack.nextId)
        invariant toFree != [] ==> toFree == old(toFree) && stack.nodes == old(stack.nodes) &&
                                   stack.freed == old(stack.freed) && stack.retiredBy == old(stack.retiredBy)
        invariant toFree == [] ==> stack.nodes == old(stack.nodes) - all && stack.freed == old(stack.freed) + all
        invariant stack.OthersUnchanged(old(stack.hazards), old(stack.retiredBy), old(stack.owner), hazard)
        decreases |toFree|
      {
        NoneProtected(toFree, Snapshot(stack.hazards));
        Gc();
      }
    }
  }

  /** Operations through one handle leave every other handle usable. */
  lemma HandleIsolation<T>(b: StackHandle<T>, hs0: seq<Hazard>, rb0: map<NodeId, nat>, ow0: map<nat, StackHandle<T>>, hz: nat)
    requires b.stack.Valid() && b.BoundTo(hs0, rb0) && b.HeldIn(ow0) && b.hazard != hz
    requires b.stack.OthersUnchanged(hs0, rb0, ow0, hz)
    ensures b.Valid()
  {
  }

  /** Three pushes come back in reverse order, then the stack is empty. */
  method ScenarioReverseOrder()
  {
    var h := new StackHandle<int>();
    h.Push(1);
    h.Push(2);
    h.Push(3);
    var a := h.Pop();
    var b := h.Pop();
    var c := h.Pop();
    var d := h.Pop();
    assert a == Some(3) && b == Some(2) && c == Some(1) && d == None;
  }

  /** A value pushed through one handle is popped through a clone; the first handle then finds the stack empty. */
  method ScenarioClone()
  {
    var a := new StackHandle<int>();
    a.Push(10);
    var b := a.Clone();
    ghost var hs0, rb0, ow0 := a.stack.hazards, a.stack.retiredBy, a.stack.owner;
    var x := b.Pop();
    HandleIsolation(a, hs0, rb0, ow0, b.hazard);
    var y := a.Pop();
    assert x == Some(10) && y == None;
  }

  /**
   * A dropped handle stays used up: after `a` is dropped, a clone of `c`
   * recycles `a`'s record, and the new handle `d` is its only holder.
   */
  method ScenarioRecycledRecord() returns (a: StackHandle<int>, d: StackHandle<int>)
    ensures d.hazard == a.hazard == 0 && d.Valid() && !a.Valid()
  {
    a := new StackHandle<int>();
    var c := a.Clone();
    var last := a.Drop();
    d := c.Clone();
  }

  /**
   * The interleaving in which pop as written reads a freed node. Handle `a`
   * reads head; handle `b` pops that node and is dropped, and its gc frees
   * the node because no alive record publishes it yet; then `a` publishes
   * its snapshot and dereferences it. With the validation step, `a` retries.
   */
  method ScenarioPopRace() returns (asWritten: Attempt<int>, validated: Attempt<int>)
    ensures asWritten.UseAfterFree?
    ensures validated == Retry
  {
    var a := new StackHandle<int>();
    a.Push(7);
    var b := a.Clone();
    var snapshot := a.stack.head;
    var x := b.Pop();
    var last := b.Drop();
    asWritten := AttemptAsWritten(a.stack.nodes, a.stack.head, snapshot);
    validated := AttemptValidated(a.stack.nodes, a.stack.head, snapshot);
  }
}
