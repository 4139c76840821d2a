/**
 * The hazard-record registry of the stack, as values: the records, the
 * snapshot that garbage collection takes of them, the split of a retire list
 * into kept and released nodes, and the slot a new handle claims.
 */
module Hazards {
  import opened Wrappers

  /** Nodes live in an arena and are named by the id they were allocated under. */
  type NodeId = nat

  /** A hazard record: is its handle alive, and which node does it publish. */
  datatype Hazard = Hazard(alive: bool, ptr: Option<NodeId>)

  /** A record as `Hazard::new` makes it: alive, publishing nothing. */
  const Fresh: Hazard := Hazard(true, None)

  /** Does some alive record publish node `n`? (reference definition) */
  ghost predicate Published(hs: seq<Hazard>, n: NodeId)
  {
    exists i :: 0 <= i < |hs| && hs[i].alive && hs[i].ptr == Some(n)
  }

  /**
   * The test made when a handle is dropped: is every record dead? Exactly
   * then no record is left for a handle to hold.
   */
  predicate AllDead(hs: seq<Hazard>)
    ensures AllDead(hs) <==> AliveSet(hs) == {}
  {
    assert forall i: nat :: i in AliveSet(hs) <==> i < |hs| && hs[i].alive;
    forall i :: 0 <= i < |hs| ==> !hs[i].alive
  }

  /** The indices of the alive records: the records some handle holds. */
  ghost function AliveSet(hs: seq<Hazard>): set<nat>
  {
    set i: nat | i < |hs| && hs[i].alive
  }

  /** The number of alive records. */
  function AliveCount(hs: seq<Hazard>): (c: nat)
    ensures c <= |hs|
  {
    if hs == [] then 0 else (if hs[0].alive then 1 else 0) + AliveCount(hs[1..])
  }

  /**
   * The snapshot gc takes: the published pointers of the alive records, in
   * registry order; dead records contribute nothing.
   */
  function Snapshot(hs: seq<Hazard>): (snap: seq<Option<NodeId>>)
    ensures |snap| == AliveCount(hs)
  {
    if hs == [] then []
    else if hs[0].alive then [hs[0].ptr] + Snapshot(hs[1..])
    else Snapshot(hs[1..])
  }

  /** The retired nodes gc keeps: those the snapshot still publishes, in their original order. */
  function Kept(xs: seq<NodeId>, snap: seq<Option<NodeId>>): (ks: seq<NodeId>)
    ensures |ks| <= |xs|
    ensures forall x {:trigger x in ks} :: x in ks <==> x in xs && Some(x) in snap
  {
    if xs == [] then []
    else
      var last := xs[|xs| - 1];
      Kept(xs[..|xs| - 1], snap) + (if Some(last) in snap then [last] else [])
  }

  /**
   * The retired nodes gc frees: those the snapshot does not publish. Freed
   * and kept nodes split the retire list: each retired node is in exactly one.
   */
  function Released(xs: seq<NodeId>, snap: seq<Option<NodeId>>): (r: set<NodeId>)
    ensures r !! (set x | x in Kept(xs, snap))
    ensures r + (set x | x in Kept(xs, snap)) == set x | x in xs
  {
    set x | x in xs && Some(x) !in snap
  }

  /** The index of the first dead record, if any (the scan in `new_hazard`). */
  function FirstDead(hs: seq<Hazard>): (r: Option<nat>)
    ensures r.Some? ==> r.value < |hs| && !hs[r.value].alive
    ensures r.Some? ==> forall j :: 0 <= j < r.value ==> hs[j].alive
    ensures r.None? ==> forall j :: 0 <= j < |hs| ==> hs[j].alive
  {
    if hs == [] then None
    else if !hs[0].alive then Some(0)
    else match FirstDead(hs[1..])
      case None => None
      case Some(i) => Some(i + 1)
  }

  /**
   * The registry after a handle is cloned, and the slot the new handle owns:
   * the first dead record is recycled, otherwise a fresh one is appended.
   */
  function Register(hs: seq<Hazard>): (r: (seq<Hazard>, nat))
    ensures |hs| <= |r.0| && r.1 < |r.0| && r.0[r.1] == Fresh
    ensures r.1 < |hs| ==> !hs[r.1].alive
    ensures forall j :: 0 <= j < |hs| && j != r.1 ==> r.0[j] == hs[j]
  {
    match FirstDead(hs)
    case Some(i) => (hs[i := Fresh], i)
    case None => (hs + [Fresh], |hs|)
  }

  /** Every record is alive exactly when the alive count is the registry length. */
  lemma {:induction false} AliveCountFull(hs: seq<Hazard>)
    ensures AliveCount(hs) == |hs| <==> forall i :: 0 <= i < |hs| ==> hs[i].alive
  {
    if hs != [] {
      AliveCountFull(hs[1..]);
      assert forall i :: 0 <= i < |hs| - 1 ==> hs[1..][i] == hs[i + 1];
    }
  }

  /** Overwriting one record changes the alive count by what that record's flag did. */
  lemma {:induction false} AliveCountUpdate(hs: seq<Hazard>, i: nat, h: Hazard)
    requires i < |hs|
    ensures AliveCount(hs[i := h]) ==
            AliveCount(hs) - (if hs[i].alive then 1 else 0) + (if h.alive then 1 else 0)
  {
    if i == 0 {
      assert hs[i := h][1..] == hs[1..];
    } else {
      AliveCountUpdate(hs[1..], i - 1, h);
      assert hs[i := h][1..] == hs[1..][i - 1 := h];
    }
  }

  /** Appending a record adds its flag to the alive count. */
  lemma {:induction false} AliveCountAppend(hs: seq<Hazard>, h: Hazard)
    ensures AliveCount(hs + [h]) == AliveCount(hs) + (if h.alive then 1 else 0)
  {
    if hs != [] {
      AliveCountAppend(hs[1..], h);
      assert (hs + [h])[1..] == hs[1..] + [h];
    }
  }

  /** A pointer is in the snapshot exactly when an alive record publishes it. */
  lemma {:induction false} SnapshotPublishes(hs: seq<Hazard>, p: Option<NodeId>)
    ensures p in Snapshot(hs) <==> exists i :: 0 <= i < |hs| && hs[i].alive && hs[i].ptr == p
  {
    if hs != [] {
      SnapshotPublishes(hs[1..], p);
      if exists i :: 0 <= i < |hs| && hs[i].alive && hs[i].ptr == p {
        var i :| 0 <= i < |hs| && hs[i].alive && hs[i].ptr == p;
        if i > 0 { assert hs[1..][i - 1] == hs[i]; }
      }
      if exists i :: 0 <= i < |hs| - 1 && hs[1..][i].alive && hs[1..][i].ptr == p {
        var i :| 0 <= i < |hs| - 1 && hs[1..][i].alive && hs[1..][i].ptr == p;
        assert hs[i + 1] == hs[1..][i];
      }
    }
  }

  /** gc's membership test agrees with the reference definition of a published node. */
  lemma ProtectedIffPublished(hs: seq<Hazard>, n: NodeId)
    ensures Some(n) in Snapshot(hs) <==> Published(hs, n)
  {
    SnapshotPublishes(hs, Some(n));
  }

  /** A pointer left behind in a dead record never blocks reclamation. */
  lemma DeadRecordsDoNotBlock(hs: seq<Hazard>, n: NodeId)
    requires forall i :: 0 <= i < |hs| && hs[i].ptr == Some(n) ==> !hs[i].alive
    ensures Some(n) !in Snapshot(hs)
    ensures n !in Kept([n], Snapshot(hs))
  {
    SnapshotPublishes(hs, Some(n));
  }

  /**
   * A node that an alive record publishes is never freed by gc, whatever the
   * retire list: if it is retired, gc keeps it.
   */
  lemma PublishedIsNeverReleased(hs: seq<Hazard>, n: NodeId, xs: seq<NodeId>)
    requires Published(hs, n)
    ensures n !in Released(xs, Snapshot(hs))
    ensures n in xs ==> n in Kept(xs, Snapshot(hs))
  {
    SnapshotPublishes(hs, Some(n));
  }

  /**
   * A handle that has just popped `n` still publishes it, so a gc right
   * after the pop keeps `n`.
   */
  lemma JustPoppedIsKept(hs: seq<Hazard>, hz: nat, xs: seq<NodeId>, n: NodeId)
    requires hz < |hs| && hs[hz] == Hazard(true, Some(n))
    ensures n in Kept(xs + [n], Snapshot(hs))
    ensures n !in Released(xs + [n], Snapshot(hs))
  {
    PublishedIsNeverReleased(hs, n, xs + [n]);
  }

  /** Splitting off one more node of the retire list extends the kept list at its end. */
  lemma KeptSnoc(xs: seq<NodeId>, x: NodeId, snap: seq<Option<NodeId>>)
    ensures Kept(xs + [x], snap) == Kept(xs, snap) + (if Some(x) in snap then [x] else [])
  {
    assert (xs + [x])[..|xs|] == xs;
  }

  /** Extending the swept list by one node frees that node exactly when the snapshot does not publish it. */
  lemma ReleasedSnoc(xs: seq<NodeId>, x: NodeId, snap: seq<Option<NodeId>>)
    ensures Released(xs + [x], snap) == Released(xs, snap) + (if Some(x) in snap then {} else {x})
  {
    assert forall y :: y in xs + [x] <==> y in xs || y == x;
  }

  /** Keeping part of a list of distinct nodes yields distinct nodes. */
  lemma {:induction false} KeptDistinct(xs: seq<NodeId>, snap: seq<Option<NodeId>>)
    requires forall i, j :: 0 <= i < j < |xs| ==> xs[i] != xs[j]
    ensures var ks := Kept(xs, snap); forall i, j :: 0 <= i < j < |ks| ==> ks[i] != ks[j]
  {
    if xs != [] {
      var front := xs[..|xs| - 1];
      KeptDistinct(front, snap);
      assert xs[|xs| - 1] !in front;
      assert xs[|xs| - 1] !in Kept(front, snap);
    }
  }

  /** If the snapshot publishes every retired node, gc keeps the list as it is. */
  lemma {:induction false} KeptAllProtected(xs: seq<NodeId>, snap: seq<Option<NodeId>>)
    requires forall k :: 0 <= k < |xs| ==> Some(xs[k]) in snap
    ensures Kept(xs, snap) == xs
    ensures Released(xs, snap) == {}
  {
    if xs != [] {
      KeptAllProtected(xs[..|xs| - 1], snap);
      assert xs[..|xs| - 1] + [xs[|xs| - 1]] == xs;
    }
  }

  /** If the snapshot publishes none of the retired nodes, gc keeps nothing and frees them all. */
  lemma NoneProtected(xs: seq<NodeId>, snap: seq<Option<NodeId>>)
    requires forall k :: 0 <= k < |xs| ==> Some(xs[k]) !in snap
    ensures Kept(xs, snap) == []
    ensures Released(xs, snap) == set x | x in xs
  {
  }

  /**
   * Every record is dead exactly when the snapshot gc takes is empty, so at
   * teardown no record can keep a node from being freed.
   */
  lemma {:induction false} AllDeadIffSnapshotEmpty(hs: seq<Hazard>)
    ensures AllDead(hs) <==> Snapshot(hs) == []
  {
    if hs != [] {
      AllDeadIffSnapshotEmpty(hs[1..]);
      assert forall i :: 0 < i < |hs| ==> hs[1..][i - 1] == hs[i];
    }
  }

  /** Publishing a pointer in a record leaves the set of alive records as it was. */
  lemma AliveSetPublish(hs: seq<Hazard>, i: nat, p: Option<NodeId>)
    requires i < |hs|
    ensures AliveSet(hs[i := hs[i].(ptr := p)]) == AliveSet(hs)
  {
    var hs' := hs[i := hs[i].(ptr := p)];
    assert forall j: nat :: j < |hs| ==> hs'[j].alive == hs[j].alive;
  }

  /** Marking record `i` dead removes exactly `i` from the alive records. */
  lemma AliveSetKill(hs: seq<Hazard>, i: nat)
    requires i < |hs|
    ensures AliveSet(hs[i := hs[i].(alive := false)]) == AliveSet(hs) - {i}
  {
    var hs' := hs[i := hs[i].(alive := false)];
    assert forall j: nat :: j < |hs| && j != i ==> hs'[j] == hs[j];
  }

  /** Claiming a record for a new handle adds exactly the claimed record to the alive ones. */
  lemma AliveSetRegister(hs: seq<Hazard>)
    ensures Register(hs).1 !in AliveSet(hs)
    ensures AliveSet(Register(hs).0) == AliveSet(hs) + {Register(hs).1}
  {
    var (hs', id) := Register(hs);
    forall j: nat ensures j in AliveSet(hs') <==> j in AliveSet(hs) || j == id {
      if j < |hs| && j != id { assert hs'[j] == hs[j]; }
    }
  }

  /**
   * The registry grows only when every record is alive, by one record; each
   * clone adds one alive record.
   */
  lemma RegistryGrowth(hs: seq<Hazard>)
    ensures |Register(hs).0| == if AliveCount(hs) == |hs| then |hs| + 1 else |hs|
    ensures AliveCount(Register(hs).0) == AliveCount(hs) + 1
  {
    AliveCountFull(hs);
    match FirstDead(hs)
    case Some(i) =>
      AliveCountUpdate(hs, i, Fresh);
    case None =>
      AliveCountAppend(hs, Fresh);
  }
}
