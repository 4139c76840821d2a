# Treiber's stack with hazard pointers

A model of `stack.rs`: a lock-free LIFO stack (Treiber's stack) whose nodes are
reclaimed with hazard pointers. Several `StackHandle`s share one `Stack`. Each
handle owns a hazard record in the stack's registry (`handle_data`). `pop`
publishes the node it is about to unlink in that record, and moves the unlinked
node onto the handle's own retire list (`to_free`). `gc` snapshots the pointers
that the alive records publish and frees every retired node that is not in the
snapshot. `clone` gives the new handle a recycled dead record, or a fresh one.
`drop` marks the handle's record dead and runs `gc` until its retire list is
empty. When every record is then dead, `drop` tears the shared state down.

The model is the sequential state machine under the lock-free code. Every
compare-and-swap succeeds on its first attempt, and every access to the
registry is one atomic step.

- Raw pointers become ids in an arena (`map<NodeId, Node<T>>`). Ids come from a
  counter and are never reused, so a freed node is simply an id that is no
  longer in the map.
- The ghost state adds:
  - the chain from head (`contents`);
  - which record retired each unfreed node (`retiredBy`);
  - the freed ids (`freed`);
  - the handle holding each alive record (`owner`).
- A handle holds exactly one alive record, and each alive record has exactly
  one holder. In the source, a handle's fields are private and `drop` consumes
  the handle. The model expresses both facts through `owner`. A dropped handle
  is no longer valid, even after a later clone recycles its record.

The modules:

- `Hazards`: the registry as values. It covers the snapshot gc takes, the split
  of a retire list into kept and released nodes, and the record `new_hazard`
  claims.
- `Lifo`: the abstract stack, a sequence of values with the top first.
- `NodeArena`: the heap invariant, and one value-level lemma per step (push,
  pop, register, free, gc).
- `PopRace`: one attempt of the pop loop, split at the point where another
  handle can run (see Findings).
- `TreiberStack`: the classes `Stack` and `StackHandle` with the operations of
  `stack.rs`, proved against the modules above.

The main invariant is `Stack.Valid`. Its consequence is hazard-pointer safety:
no freed node is reachable from head, and no alive record publishes a freed
node. Every handle operation keeps `Valid`. Push and pop are specified by
`Lifo.Push` and `Lifo.Pop`. Gc is specified by `Kept` and `Released` over the
registry's `Snapshot`.

## Model

| member | source | states |
|---|---|---|
| Hazards.Snapshot | stack.rs:114-123 | the snapshot holds one entry per alive record (its length is the alive count) |
| Hazards.SnapshotPublishes | stack.rs:114-123 | a pointer is in the snapshot if and only if some alive record publishes it; dead records contribute nothing |
| Hazards.ProtectedIffPublished | stack.rs:114-129 | gc's "is it in the snapshot" test agrees with the reference definition of a node published by an alive record |
| Hazards.DeadRecordsDoNotBlock | stack.rs:116-121 | a pointer left in dead records only is not in the snapshot, so gc does not keep that node |
| Hazards.JustPoppedIsKept | stack.rs:98-130 | a record that has just published and retired `n` keeps `n` through the next gc: it is kept, not released |
| Hazards.AllDead | stack.rs:177 | every record is dead exactly when no record is alive for a handle to hold |
| Hazards.AllDeadIffSnapshotEmpty | stack.rs:177 | every record is dead exactly when gc's snapshot is empty, so at teardown no record can keep a node |
| Hazards.Released | stack.rs:128-134 | the nodes gc frees and the nodes it keeps are disjoint, and together they are exactly the retire list |
| Hazards.PublishedIsNeverReleased | stack.rs:116-131 | a node that an alive record publishes is never freed by gc, for any retire list; if it is retired, it is kept |
| Hazards.AliveSetRegister | stack.rs:142-158 | claiming a record adds exactly the claimed record to the alive ones, and the claimed record was not alive before |
| Hazards.AliveSetKill | stack.rs:173 | marking a record dead removes exactly that record from the alive ones |
| Hazards.Kept | stack.rs:125-135 | gc's kept list is no longer than the retire list, and a node is in it if and only if it was retired and the snapshot publishes it |
| Hazards.KeptDistinct | stack.rs:126-131 | a retire list without duplicates stays without duplicates after gc |
| Hazards.KeptAllProtected | stack.rs:128-131 | if every retired node is published, gc keeps the whole list unchanged and frees nothing |
| Hazards.FirstDead | stack.rs:147-153 | the scan returns the lowest-index dead record, or none when every record is alive |
| Hazards.Register | stack.rs:142-158 | the claimed slot holds a fresh record (alive, publishing null); a recycled slot was dead; every other record is unchanged; the registry never shrinks |
| Hazards.RegistryGrowth | stack.rs:146-158 | the registry grows by one record only when every record is alive; each claim adds exactly one alive record |
| Hazards.AliveCountFull | stack.rs:147-157 | the alive count equals the registry length if and only if every record is alive |
| Lifo.LastInFirstOut | stack.rs:76-107 | pushing `xs` and then popping `xs`'s length times returns `xs` in reverse and restores the stack; one more pop on a stack that started empty returns none |
| NodeArena.HeapIsSafe | stack.rs:128-134 | under the heap invariant, a freed node is not on the stack, not retired, and not published by any alive record |
| NodeArena.LinkChain | stack.rs:84-86 | linking an unallocated node in front of head extends the acyclic chain by that node |
| NodeArena.UnlinkChain | stack.rs:96-99 | head is the first node of the chain, and its tail starts the rest of the chain, which no longer contains it |
| NodeArena.PushStep | stack.rs:76-91 | a node with the next id, linked in front of head, keeps the heap invariant, and the abstract stack becomes `Lifo.Push` of the old one |
| NodeArena.PopStep | stack.rs:93-103 | unlinking head, publishing it and retiring it by the popping record keeps the heap invariant and the retire list; only that record changes; the result is `Lifo.Pop` of the abstract stack |
| NodeArena.RegisterStep | stack.rs:142-158 | claiming a record keeps the heap invariant and keeps every retiring record alive; no retired node belongs to the claimed record |
| NodeArena.FreeStep | stack.rs:128-134 | freeing retired nodes that no alive record publishes keeps the heap invariant and leaves the abstract stack unchanged |
| NodeArena.GcKeepsRetireList | stack.rs:126-131 | after gc, the kept list is exactly the record's retire list; released nodes were retired by that record |
| NodeArena.GcStep | stack.rs:110-137 | one gc pass keeps the heap invariant, the abstract stack, the record's retire list and the liveness of the other records' owners, and touches nothing retired through another record |
| PopRace.AttemptAsWritten | stack.rs:95-103 | the attempt as written dereferences a freed node if and only if the snapshot is no longer allocated when it resumes |
| PopRace.AttemptValidated | stack.rs:95-103 | the corrected attempt retries if and only if head no longer holds the snapshot, and reports empty if and only if the snapshot is null |
| PopRace.ValidatedAttemptIsSafe | stack.rs:96-102 | under the heap invariant the corrected attempt never touches a freed node; when head still holds the snapshot it pops the top value of the abstract stack |
| PopRace.ValidatedNodeStaysAllocated | stack.rs:98-134 | an allocated node that an alive record publishes survives every gc pass over any retire list, whether or not head still holds it; `ValidatedAttemptIsSafe` gives that the node is allocated at validation |
| TreiberStack.Stack.Valid | stack.rs:20-32 | the stack invariant implies hazard-pointer safety |
| TreiberStack.Stack.constructor | stack.rs:61-67 | a new stack is empty, with one alive record publishing null, nothing retired or freed, and no holder yet |
| TreiberStack.Stack.NewHazard | stack.rs:142-158 | the loop claims the first dead record or appends a fresh one, exactly as `Register`; the heap invariant is kept; nothing is retired through the claimed record; the claimed record is the only alive record without a holder; nodes and head are unchanged |
| TreiberStack.StackHandle.constructor | stack.rs:61-74 | a new handle is valid, on an empty stack, and is the holder of record 0, with an empty retire list |
| TreiberStack.StackHandle.Attach | stack.rs:161-165 | the cloned handle shares the stack, gets the given record, which no handle holds, and has an empty retire list |
| TreiberStack.StackHandle.Push | stack.rs:76-91 | the stack becomes `Lifo.Push(old, v)` through a freshly allocated node linked in front of the old head; the registry, the retired nodes and the freed nodes are unchanged; the invariant is kept |
| TreiberStack.StackHandle.Pop | stack.rs:93-107 | `(r, new values) == Lifo.Pop(old values)`; on an empty stack nothing changes; otherwise head moves to the node's tail, the node is published in this record and appended to the retire list, and nothing is freed; other records are unchanged; the invariant is kept |
| TreiberStack.StackHandle.Gc | stack.rs:110-137 | the retire list becomes `Kept` and exactly `Released` is freed, both relative to the snapshot; an empty retire list changes nothing; head, contents, registry and the abstract stack are unchanged; other records are unchanged |
| TreiberStack.StackHandle.Sweep | stack.rs:125-135 | the loop over the swapped-out list rebuilds the retire list as `Kept` and removes exactly `Released` from the arena |
| TreiberStack.StackHandle.Clone | stack.rs:140-166 | the new handle is valid, shares the stack, becomes the holder of the record `Register` claims (distinct from this one) and retired nothing; the stack contents are unchanged and both handles stay valid |
| TreiberStack.StackHandle.Drop | stack.rs:169-182 | the handle's record is marked dead and loses its holder, and the handle is no longer valid; every node it retired is freed; nothing else in the stack changes; the stack is torn down if and only if every record is then dead, that is, when no handle is left; the stack invariant is kept |
| TreiberStack.StackHandle.Drain | stack.rs:173-174 | repeating gc while the retire list is non-empty ends with it empty, having freed exactly the nodes it held |
| TreiberStack.HandleIsolation | stack.rs:20-22 | an operation through another handle, which changes only its own record, its own retired nodes and its own holder entry, leaves this handle valid |
| TreiberStack.ScenarioRecycledRecord | stack.rs:142-174 | after `a` is dropped, a clone of another handle recycles `a`'s record; the new handle is valid and `a` is not |
| TreiberStack.ScenarioPopRace | stack.rs:95-99 | in the interleaving of the finding, the attempt as written dereferences a freed node, and the corrected attempt retries |

## Left out

- Atomics, memory orderings and the `RWLock` around the registry. Each operation is one atomic step of a sequential state machine.
- Interleavings in general. The one interleaving modelled is the pop race in `PopRace` and `ScenarioPopRace`.
- Retries of the compare-and-swap loops in push and pop. The failure branch of pop, which stores null in the record (stack.rs:104), is one of these. Each loop is modelled by its successful attempt.
- Raw pointers and `Box` allocation. Nodes live in an arena whose ids are never reused, so the model has no ABA problem.
- The cache-line padding of `Hazard` (stack.rs:17-18, 31). It has no behaviour.
- TreiberStack.StackHandle.Drop: requires that no other alive record publishes a node of its retire list. Without that, the drain loop at stack.rs:174 does not terminate. The source waits for the other handle, which a sequential model cannot express.
- TreiberStack.StackHandle.Drop: teardown is modelled as a `tornDown` flag that marks the `Box<Stack<T>>` as dropped (stack.rs:178-179). Dropping that box frees only the `Stack` itself. Its registry is a `Vec` of raw pointers to the hazard records, and `head` is an `AtomicPtr`. Neither owns what it points to, so the source leaks the hazard records and every node still on the stack at teardown. The model frees neither and does not track the leak.
- TreiberStack.StackHandle.Gc: on a live handle, it does not state `Valid()` in its ensures. It states `Collectable()`, keeps the holders unchanged, and `CollectableIsValid` gives `Valid()` back while the handle's record is alive and held.
- Reading the popped value out of the node with `ptr::read` (stack.rs:100) is modelled as returning the node's `data`. `ptr::read` copies the value without moving it out. When gc later drops the `Box<Node<T>>` (stack.rs:132-133), the copy left in the node is dropped again. That is a double drop of the popped value for any `T` with a destructor. Values in the model have no destructors, so the model cannot show this.

## Findings

| source | as written | input that shows it | evidently intended | confidence | as-written member | corrected member |
|---|---|---|---|---|---|---|
| stack.rs:96-99 | `pop` publishes `snapshot` in its hazard record and then dereferences `(*snapshot).tail`. It never checks that head still holds `snapshot` after publishing, so the node may already have been freed by then. | Handle `a` pushes 7 and is cloned to `b`. `a` reads head (the node of 7). `b` pops that node. `b` is dropped, and its gc frees the node, because no alive record publishes it. `a` then publishes the snapshot and reads the freed node's tail. | After publishing, re-read head and retry unless it still equals `snapshot`. This is the validation step of the hazard-pointer protocol. | not executed; derived from the model | PopRace.AttemptAsWritten (exhibited by TreiberStack.ScenarioPopRace) | PopRace.AttemptValidated (ValidatedAttemptIsSafe, ValidatedNodeStaysAllocated; used by TreiberStack.StackHandle.Pop) |
