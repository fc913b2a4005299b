# Models of libvma

A Dafny model of the parts of libvma and of its daemon vmad that carry the most state, with proofs of
what they keep. Each module follows one component; classes and loops stand where the C and C++ code
updates in place, and each of their methods is tied to a function on values about which the properties
are proved.

- **Flow table of vmad** (`NodeIds`, `Bitmap`, `FlowTable`, `FlowDaemon`, `FlowInvariant`, `FlowRuns`,
  `FlowIds`, `FlowPending`, `FlowWitness`, `FlowDriver`): interfaces, hash tables, buckets and nodes with reference counts, table ids in a bitmap, a list of
  tables the kernel has not yet deleted. The kernel's answers are parameters, any of them may be no.
  An outstanding add is a claim that says how deep it got; the invariant ties every counter, list and
  bit to the set of claims.
- **Receive buffers** (`MemBuf`, `BufferPool`, `CycleFinder`, `CqMgr`): the chain of free descriptors, the
  tortoise and the hare that look for a circle in it, and the completion-queue manager that moves buffers
  between that chain, its own pool and queue, the queue pair and the ring, under a bound on how many it owes
  the queue pair.
- **Device memory ring** (`DmRing`) and **completion ring** (`CqeRing`): a cyclic allocator known only by
  two counters, and a lock-free ring read by an owner bit that flips with every lap.
- **State machine** (`SmTable`, `SmEngine`): a sparse table compiled into a dense one, and run-to-completion
  of events that callbacks post.
- **Recursive spinlock** (`SpinLock`): a transition system in which every read and write is its own step.
- **Helpers of vmad** (`HashTable`, `Netlink`, `Selector`, `Checksum`), with bits in `Words`, missing values in
  `Options` and sequences without repetition in `Sequences`.

The main results are about every run, every interleaving or every input: `FlowRuns.RunRefs`,
`FlowRuns.RunHandles` and `FlowIds.IdsNotReused` with `FlowPending.RunHeld` for the flow table, carried over to
the linked elements of the daemon by `FlowDriver.Drive`; the conservation of buffers over a real chain of
descriptors, the fate of every packet and the bound on the debt by `CqMgr.Cq.PollRx` and `CqMgr.Cq.Drain`;
`CycleFinder.FloydCircleInfo`; `DmRing.FitsIsRoom` with `DmRing.RegionsApart`; `CqeRing.Ring.GetCqe64` across
counter wrap-around; `SmEngine.Machine.ProcessEvent` against a plain queue machine and, by
`SmEngine.RunByTable`, against the table; `SpinLock.MutualExclusion` with `SpinLock.LockReturns`;
`Netlink.Message.Build` with `Netlink.BuiltReads`; `Selector.Dev2TapAccepts`; `Checksum.LengthLimit`.

Some properties one would expect do not hold of the code as it is. The model keeps the code and states
the exact condition:

- add_flow reports success for a full bucket and hands out the handle of another live flow
  (`FlowRuns.SuccessNamesOwnNode`, reached in `FlowWitness.HandleGivenTwice`); an add that fails half way leaves
  its counts up (`FlowRuns.RunRefs`); without a table id left it goes on with -1
  (`FlowInvariant.ExhaustedIdsBreak`, reached in `FlowWitness.NoIdReached`); deleting an egress flow lowers a
  count it never raised (`FlowRuns.EgressDeleteUndercounts`).
- A copy to device memory that fails leaves counters that fit the live regions if and only if the run at the
  head was free or nothing is live (`DmRing.FailedCopy`, reached in `DmRing.RunAstray`). The charge it
  leaves in the buffer is released all the same; that never fits, and can wrap m_used for good
  (`DmRing.LeftoverRelease`, reached in `DmRing.RunDry`).
- The destructor of the completion-queue manager reclaims the head of the ready list twice. The global list is
  a chain afterwards if and only if the ready list was empty (`CqMgr.Cq.Destroy`, reached in
  `CqMgr.RunToCircle`).
- A good completion may leave a full batch owed although the global list has buffers; `CqMgr.Cq.Owe` says exactly
  when, and `CqMgr.StillBehind` gives an input.
- With errors requested, opcodes 8 to 12 stay at the consumer's place (`CqeRing.Ring.GetCqe64`).
- A full hash table refuses even a new value for a key it holds, and a value stored under the key that marks
  free entries breaks the count (`HashTable.Hash.Put`).
- Compiled tables may hold negative next states, and the range test of events lets one number too many through
  (`SmTable.CompiledIsClosed`, `SmEngine.RangeTest`).
- The circle report is exact up to 2^24 + 1 (`CycleFinder.FloydCircleInfo`), the checksum up to 131076
  bytes (`Checksum.LengthLimit`), a two-byte key at even offsets (`Selector.HalfTested`), the source of a
  flow when its port is not zero (`Selector.SourceTested`).

The code is followed where its comments say otherwise: get_cqe64 lists opcode 15 among those it reports as
errors, and returns nothing for it.

`dafny verify dfyconfig.toml` checks everything.

## Model

| member | source | states |
|---|---|---|
| Bitmap.SetBit | tools/daemon/bitmap.h:139-144 | Setting bit b makes b set and leaves every other bit of the whole map as it was. |
| Bitmap.ClearBit | tools/daemon/bitmap.h:154-159 | Clearing bit b makes b clear and leaves every other bit as it was. |
| Bitmap.FirstZero | tools/daemon/bitmap.h:253-263 | The result is the lowest clear bit, everything below it being set; -1 if and only if every bit of every word is set. |
| Bitmap.Map.constructor | tools/daemon/bitmap.h:69-80 | A new map has just enough words for its size, all bits clear. |
| Bitmap.Map.Set | tools/daemon/bitmap.h:139-144 | The in-place or on one word is the bit-level set. |
| Bitmap.Map.Clear | tools/daemon/bitmap.h:154-159 | The in-place and-not on one word is the bit-level clear. |
| Bitmap.Map.Test | tools/daemon/bitmap.h:184-189 | The mask test reads exactly the bit asked for. |
| Bitmap.Map.FindFirstZero | tools/daemon/bitmap.h:253-263 | The search a word at a time, with ffs of the complement, finds the same bit as the search a bit at a time. |
| NodeIds.HandleRoundTrip | tools/daemon/tc.h:58-67 | Unpacking a packed handle gives back the low 12, 8 and 12 bits of any three C ints, negative ones included. |
| NodeIds.SlotForIsFresh | tools/daemon/flow.c:703-739 | get_node fails if and only if all 0xFFE ids of the bucket are in use; otherwise its id is unused and inserting it where told keeps the list strictly ascending. |
| NodeIds.SlotForIs | tools/daemon/flow.c:703-739 | Which id it is: one above the largest in use until the maximum is in use, from then on the lowest that is free. |
| NodeIds.FieldsOfHandle | tools/daemon/tc.h:58-67 | A handle is put together again from its fields. |
| NodeIds.RankBounds | tools/daemon/flow.c:703-739 | In an ascending list an id lies between its rank and its rank from the top, which is why walking with a counter finds the first gap. |
| NodeIds.RemoveKeepsAscending | tools/daemon/flow.c:453-462 | Removing a node keeps the list ascending and frees its id and no other. |
| FlowDaemon.CtxEl.constructor | tools/daemon/flow.c:185-202 | A new context has every id free but 0, no pending tables and no priorities. |
| FlowDaemon.CtxEl.GetHtid | tools/daemon/flow.c:595-629 | In the slots and the bitmap it yields the kernel table and table id of the specification. |
| FlowDaemon.CtxEl.KernelTable | tools/daemon/flow.c:595-621 | The scan of the four priority slots stops at a match, so the free slot and the largest table seen may be those of a part; the table recorded is still the one specified. |
| FlowDaemon.CtxEl.FreeHtid | tools/daemon/flow.c:672-675 | Clears the bit of the id and no other. |
| FlowDaemon.CtxEl.FreePendingList | tools/daemon/flow.c:631-652 | Walking the pending list while entries are taken out of it leaves the specified list and bitmap. |
| FlowDaemon.Settled | tools/daemon/flow.c:631-652 | One entry of that walk, freed or kept, leaves the rest of the walk as it was. |
| FlowDaemon.FreeFirst | tools/daemon/flow.c:631-652 | Freeing an id before or after the rest of the walk makes no difference, so the order of the walk does not matter. |
| FlowDaemon.BucketEl.GetNode | tools/daemon/flow.c:703-739 | The walk with a counter, with its shortcut for a last id below the maximum, finds the slot specified. |
| FlowDaemon.BucketEl.Add | tools/daemon/flow.c:304-348 | The counter rises before the id is looked for and stays up on every exit; a node is linked in only when the kernel took the filter. |
| FlowDaemon.BucketEl.InsertNode | tools/daemon/flow.c:342-348 | The new node keeps its place in the ascending list. |
| FlowDaemon.TableEl.Add | tools/daemon/flow.c:262-293 | The bucket is found or created, counts go up on the way, and only that bucket changes: every other one keeps its nodes and counts. |
| FlowDaemon.IfaceEl.Add | tools/daemon/flow.c:205-257 | The table is found, or created after an id and two kernel requests; each refusal leaves what the specification says. |
| FlowDaemon.BucketEl.Del | tools/daemon/flow.c:435-467 | The count falls whether or not the node is found; a node no longer used is unlinked. |
| FlowDaemon.TableEl.Del | tools/daemon/flow.c:419-479 | A bucket without children and counts goes, and only that one changes. |
| FlowDaemon.IfaceEl.Del | tools/daemon/flow.c:400-500 | A table without children and counts goes and is put on the pending list; only that one changes. |
| FlowDaemon.IfaceEl.AddPending | tools/daemon/flow.c:654-670 | The table joins the pending list at its front. |
| FlowDaemon.Daemon.constructor | tools/daemon/flow.c:106-121 | The daemon starts with no interfaces. |
| FlowDaemon.Daemon.AddFlow | tools/daemon/flow.c:129-362 | Through four levels of separately allocated elements with disjoint footprints, the update in place, the return code and the handle written back are those of the specification, on every exit. |
| FlowDaemon.Daemon.DelFlow | tools/daemon/flow.c:364-524 | The same for a delete and its return code, with the interface that goes when it is unused. |
| FlowInvariant.KernelTableKept | tools/daemon/flow.c:595-621 | A priority keeps its kernel table, a new one gets a table in 0x800..0x803 recorded in a free slot, every other assignment stays, and the four ingress priorities never run out of slots. |
| FlowInvariant.KernelTableUnique | tools/daemon/flow.c:595-621 | Two priorities are equal if and only if their kernel tables are. |
| FlowInvariant.KernelTableNext | tools/daemon/flow.c:595-621 | A new priority gets the kernel table after those given out: 0x800 for the first, and so on. |
| FlowInvariant.TakeId | tools/daemon/flow.c:620-628 | The table id handed out is in range and belongs to no table, no pending entry and no failed add. |
| FlowInvariant.FreePendingList | tools/daemon/flow.c:631-652 | Exactly the ids the kernel lets go leave the pending list. |
| FlowInvariant.FreePendingBits | tools/daemon/flow.c:631-652 | Exactly those ids become available; every other bit stays. |
| FlowInvariant.AddIfaceIds | tools/daemon/flow.c:217-257 | When a table id is left (or none is needed), an add keeps every id accounted for exactly once: by a table, by the pending list, or by an add that failed before its table existed. |
| FlowInvariant.ExhaustedIdsBreak | tools/daemon/flow.c:620-628 | When an id is needed and none is left, the add goes on with -1 and that account breaks, whatever the claims: with the row above, the exact condition. |
| FlowInvariant.AddKeepsInv | tools/daemon/flow.c:129-362 | An add of an ingress flow keeps the whole invariant with the claim it leaves: reference counts at all four levels, unique keys, ascending node ids, the account of table ids, and one kernel table per priority. |
| FlowInvariant.StoredDecodes | tools/daemon/flow.c:364-395 | The bucket and node fields of a stored handle are those the flow was given. |
| FlowInvariant.DelKeepsInv | tools/daemon/flow.c:364-524 | Deleting a live flow keeps the invariant without its claim. |
| FlowInvariant.DelRcIs | tools/daemon/flow.c:443-515 | Deleting a live flow reports success if and only if the kernel accepts the deletion of its filter, of its table link when no other flow is on that table, and of the qdisc when no other is on that interface. |
| FlowRuns.RunKeepsWorld | tools/daemon/flow.c:129-524 | The invariant holds after every run of adds of ingress flows and deletes of live ones, against a kernel that answers as it likes. |
| FlowRuns.FirstAddCompletes | tools/daemon/flow.c:129-362 | Such runs exist: with a willing kernel the first add of any ingress flow is allowed and gets all the way. |
| FlowRuns.DepthIs | tools/daemon/flow.c:129-362 | An add either raises no counter or has its node if and only if the kernel answers it needs are yes and its bucket is not full, or the first of them is no. |
| FlowRuns.AddRcIs | tools/daemon/flow.c:129-362 | add_flow reports success if and only if the qdisc, divisor and link requests it needs are taken and so is the filter, or the bucket is full. |
| FlowRuns.HandleWritten | tools/daemon/flow.c:352-358 | The middle byte of the handle written back is the low byte of the port once the bucket is reached; a flow refused at once keeps its handle. |
| FlowRuns.RunRefs | tools/daemon/flow.c:129-524 | After any such run from the empty table, every counter equals the number of live flows beneath it and no element is without one, if and only if every add of the run met the guards of the row above. |
| FlowRuns.LeakShows | tools/daemon/flow.c:217-340 | An add that stopped half way stays counted on its interface: the counters can no longer be exact. |
| FlowRuns.HandleLeadsHome | tools/daemon/flow.c:400-463 | The stored handle of a live flow, decoded, leads del_flow to a node that is there and carries its id. |
| FlowRuns.HandlesDistinct | tools/daemon/flow.c:352-358 | Two live flows of one interface have the same 32-bit handle if and only if they are the same flow. |
| FlowRuns.RunHandles | tools/daemon/flow.c:129-524 | In every state runs lead to, the handles of live flows lead to their nodes, and on one interface two are equal if and only if the flows are the same. |
| FlowRuns.DeleteSparesOthers | tools/daemon/flow.c:364-524 | After deleting one live flow, every other one is still where its handle says. |
| FlowRuns.SuccessNamesOwnNode | tools/daemon/flow.c:304-309 | An add that reports success has a node of its own if and only if its bucket was not full; with a full bucket it is given the handle of another live flow, and deleting it does exactly what deleting that flow does. |
| FlowIds.AddHoldsIds | tools/daemon/flow.c:222-257 | During an add only ids the kernel lets go stop being held, and a new table gets an id that no table or pending entry held. |
| FlowIds.DelHoldsIds | tools/daemon/flow.c:470-500 | During a delete only ids the kernel lets go stop being held. |
| FlowIds.IdsNotReused | tools/daemon/flow.c:129-524 | Over every run: a table that is created gets an id that was in use or pending on its interface before only if in between the kernel let that id go or the interface went. |
| FlowPending.RunListed | tools/daemon/flow.c:631-670 | Every step of every run leaves every interface exactly this pending list: the table that went, with its id and its kind as priority, in front of what was there, less what the kernel lets go if it was asked again, which a delete of a live flow and an add that goes through do. |
| FlowPending.DelListed | tools/daemon/flow.c:470-518 | The same for deleting any flow, live or not. |
| FlowPending.RunHeld | tools/daemon/flow.c:129-524 | Over every run the ids held on an interface change by exactly those released and the id of a new table. |
| FlowPending.ReleasedClear | tools/daemon/flow.c:640-648 | An id that is released has its bit clear, so the next table can get it. |
| FlowDriver.Drive | tools/daemon/flow.c:129-524 | Run on the daemon itself, every allowed sequence of calls ends with the linked elements of the specification: its counters are exact if and only if every add went through, and the handles it gave out lead to their nodes and tell live flows apart. |
| FlowRuns.EgressDeleteUndercounts | tools/daemon/flow.c:364-524 | Deleting an egress flow, which is never added to the table, leaves the counters exact if and only if its interface is not in the table; otherwise that interface counts one flow too few. |
| FlowWitness.FullBucketReached | tools/daemon/flow.c:703-739 | Adding one flow 0xFFE times, with a willing kernel, is an allowed run and fills its bucket. |
| FlowWitness.HandleGivenTwice | tools/daemon/flow.c:304-309 | After that run one more add reports success with the handle of a live flow. |
| FlowWitness.NoIdReached | tools/daemon/flow.c:620-628 | Adding flows to 2047 addresses is an allowed run after which a table for another address finds no id. |
| CycleFinder.CircleExists | src/vma/dev/buffer_pool.cpp:227-272 | Every chain over finitely many buffers that never ends has a first index on a circle and a least length of that circle. |
| CycleFinder.SameNode | src/vma/dev/buffer_pool.cpp:240-246 | Two indices hold the same buffer only if both are on the circle and a multiple of its length apart. |
| CycleFinder.Meeting | src/vma/dev/buffer_pool.cpp:231-238 | The tortoise at i and the hare at 2i meet if and only if i is on the circle and a multiple of its length. |
| CycleFinder.IsCircle | src/vma/dev/buffer_pool.cpp:204-218 | Returns, and says true if and only if the chain never reaches NULL. |
| CycleFinder.FindMeeting | src/vma/dev/buffer_pool.cpp:233-238 | The first phase ends at a buffer that is both the i-th and the 2i-th. |
| CycleFinder.FindMu | src/vma/dev/buffer_pool.cpp:251-260 | The second phase ends at the first buffer of the circle, or after 2^24 + 1 steps. |
| CycleFinder.FindLambda | src/vma/dev/buffer_pool.cpp:264-270 | The third phase counts the length of the circle, up to 2^24 + 1. |
| CycleFinder.FloydCircleInfo | src/vma/dev/buffer_pool.cpp:229-272 | The two numbers reported are the least first index and the least length of the circle, exactly when both are at most 2^24 + 1, and otherwise the capped values. |
| BufferPool.Pool.constructor | src/vma/dev/buffer_pool.cpp:77-119 | A new pool holds every buffer it created, once. |
| BufferPool.Pool.Counted | src/vma/dev/buffer_pool.cpp:315-317 | The count never exceeds the number of buffers created. |
| BufferPool.Pool.Link | src/vma/dev/buffer_pool.cpp:51-63 | put_buffer_helper on any buffer: it becomes the head, linked to the old one, and is counted. |
| BufferPool.Pool.PutOne | src/vma/dev/buffer_pool.cpp:51-63 | On a buffer that is not on the list, chain and count stay in step. |
| BufferPool.Pool.Walk | src/vma/dev/buffer_pool.cpp:305-314 | The walk of put_buffers over any chain relinks every buffer of it although each is relinked while it is walked; it counts each once, wherever the buffers were before. |
| BufferPool.Pool.PutChain | src/vma/dev/buffer_pool.cpp:305-314 | A chain of buffers not on the list is put in front of it, in reverse. |
| BufferPool.Pool.PutList | src/vma/dev/buffer_pool.cpp:305-318 | The same, and the test of the count against the number created never calls buffersPanic. |
| BufferPool.Pool.GetBuffers | src/vma/dev/buffer_pool.cpp:152-186 | All or nothing: the first count buffers in order, unlinked and owned by the caller, or no change at all if and only if there are too few. |
| BufferPool.Pool.PutQueue | src/vma/dev/buffer_pool.cpp:326-343 | At most count entries go back from the back of the queue, each with the whole chain it heads, each chain reversed; buffersPanic is not called. |
| BufferPool.Pool.PutLoose | src/vma/dev/buffer_pool.cpp:326-343 | On a queue of single buffers that puts the last count of them in front of the chain, in queue order. |
| BufferPool.Pool.PutEntry | src/vma/dev/buffer_pool.cpp:305-314 | Put on one buffer, wherever it is: the list stays a chain if and only if it was one and the buffer was not on it; otherwise it is a circle whose count exceeds its buffers. |
| BufferPool.Pool.PutBack | src/vma/dev/buffer_pool.cpp:326-343 | The same over a queue in which one buffer may come twice: the list stays a chain until that buffer is put a second time, and buffersPanic is called only when it is a circle. |
| BufferPool.CircleNeverEnds | src/vma/dev/buffer_pool.cpp:204-218 | No finite chain starts at the head of a circle. |
| BufferPool.CircleFound | src/vma/dev/buffer_pool.cpp:274-287 | A list that has become a circle is one for the search of buffersPanic. |
| BufferPool.FreeListEnds | src/vma/dev/buffer_pool.cpp:274-287 | The chain of a valid pool ends after as many buffers as it has, so the circle search of buffersPanic finds none. |
| CqMgr.Exclusive | src/vma/dev/cq_mgr.cpp:244-854 | What the conservation law kept by every method means: each buffer is in exactly one place (global list, own pool, software queue, posted, ready to be freed, delivered, in hand), once. |
| CqMgr.Cq.constructor | src/vma/dev/cq_mgr.cpp:112-118 | On any valid global pool a new manager holds nothing and owes nothing. |
| CqMgr.Cq.FreeCount | src/vma/dev/buffer_pool.cpp:340-342 | Whatever the manager does, the global list never counts more buffers than were created. |
| CqMgr.Cq.RequestMore | src/vma/dev/cq_mgr.cpp:306-320 | Succeeds if and only if the compensation level can be met; then the first buffers of the global list join the pool, owned by the ring of the manager. |
| CqMgr.Cq.ReturnExtra | src/vma/dev/cq_mgr.cpp:322-331 | A pool of at least twice the level shrinks to it and the rest goes to the global list; a smaller one stays. |
| CqMgr.Cq.PostFromPool | src/vma/dev/cq_mgr.cpp:540-544 | The front of the pool is posted, in order. |
| CqMgr.Cq.PostInHand | src/vma/dev/cq_mgr.cpp:549-551 | The buffer in hand is posted. |
| CqMgr.Cq.CompensateSuccess | src/vma/dev/cq_mgr.cpp:536-555 | Says exactly when the packet is dropped, how much is repaid and with which buffers; posted plus debt is conserved; with a level of at least one the debt falls or is within the size of the queue pair less one poll batch. |
| CqMgr.Cq.CompensateFailed | src/vma/dev/cq_mgr.cpp:557-569 | Repays the debt or all there is to repay with, whichever is less, and says with which buffers. |
| CqMgr.Cq.PostFromFree | src/vma/dev/cq_mgr.cpp:257-275 | A batch goes from the global list straight to the queue pair, all or nothing. |
| CqMgr.Cq.AddQpRx | src/vma/dev/cq_mgr.cpp:244-281 | The queue pair is filled in the order of the global list, to its size or until the list cannot fill a batch; the debt is zero. |
| CqMgr.Cq.PushChain | src/vma/dev/cq_mgr.cpp:576-596 | The walk that unlinks and cleans each buffer as it goes reaches every buffer of the chain. |
| CqMgr.Cq.BackToPool | src/vma/dev/cq_mgr.cpp:574-598 | A delivered chain returns to the pool of its ring, cleaned and unlinked. |
| CqMgr.Cq.BackToGlobal | src/vma/dev/cq_mgr.cpp:599-602 | A delivered chain of another ring returns to the global list. |
| CqMgr.Cq.Reclaim | src/vma/dev/cq_mgr.cpp:571-604 | The chain comes back if and only if this was the last reference at both levels, to the pool or the global list by owner; otherwise it stays delivered. |
| CqMgr.Cq.ProcessRecvBuffer | src/vma/dev/cq_mgr.inl:44-53 | A packet the ring takes is delivered; one it drops comes straight back unless references remain. |
| CqMgr.Cq.ProcessRecvQueue | src/vma/dev/cq_mgr.inl:55-71 | Exactly as many packets as there are, up to the batch limit, are taken off the front of the software queue, nothing lost. |
| CqMgr.Cq.Owe | src/vma/dev/cq_mgr.cpp:668-670 | One more buffer is owed. Below a full batch nothing else happens; otherwise debt, pool, global list and queue pair are given exactly. Afterwards less than a batch is owed or the pool is empty; that the global list then cannot fill the pool either holds if and only if what was at hand did not leave a batch owed with another level to spare. The buffer in hand is posted again if and only if a batch is owed, there is nothing to repay with, and the queue pair must be kept full or is too short. |
| CqMgr.StillBehind | src/vma/dev/cq_mgr.cpp:540-544 | With 65 owed, one buffer in the pool and a level of 256 on the global list, 64 are still owed afterwards and the pool is empty. |
| CqMgr.PayingJoin | src/vma/dev/cq_mgr.cpp:664-676 | What completions do to the debt adds up: as long as no full batch is owed the debt rises by exactly the good ones and nothing is posted; after a good one less than a batch is owed or the pool has only what they brought back. |
| CqMgr.Cq.Deliver | src/vma/dev/cq_mgr.cpp:667-671 | A good completion: its buffer is posted again as the last one and counted as a drop, or the ring has the packet, or its buffer is back in the pool or on the global list, and which of these is said exactly; every buffer keeps one place, the balance and the bound hold. |
| CqMgr.Cq.GiveUp | src/vma/dev/cq_mgr.cpp:809-811 | A completion given up keeps the same balance; its slot is never repaid; its buffer is back unless it is still referred to. |
| CqMgr.Cq.Enqueue | src/vma/dev/cq_mgr.cpp:828-835 | The packet joins the software queue at the back; the oldest one is posted again and counted as a drop if and only if there is nothing to repay a full batch with; the balance and the bound hold. |
| CqMgr.Cq.DealWith | src/vma/dev/cq_mgr.cpp:664-676 | Over the completions of one poll, in order: exactly the packets handed over or still referred to are with the ring, every drop is a buffer posted again behind the others with a batch owed, a full batch of debt is repaid as far as the pool goes, and place, balance and bound hold. |
| CqMgr.Cq.PollRx | src/vma/dev/cq_mgr.cpp:639-682 | The software queue comes first and ends the call when it fills the batch. Over the whole call each packet taken by the ring is with it, each other one came back, is still referred to or was dropped with its buffer posted again, and drops are counted exactly; no full batch is left owed unless the pool has only what this poll brought back, nothing is posted before one is owed, and an idle poll repays all it can; every buffer has one place, the balance and the bound on the debt hold, and posted plus debt is unchanged when no completion is in error. |
| CqMgr.Cq.DrainRound | src/vma/dev/cq_mgr.cpp:785-846 | One round of draining takes one poll batch of completions or fewer, and fewer only when none is left; what becomes of each packet is said as below. |
| CqMgr.Cq.Drain | src/vma/dev/cq_mgr.cpp:779-854 | Rounds go on until no completion is left, the limit on their number is reached, or the queue was drained before. Over the whole call TCP packets meet the fates of a poll, UDP packets join the software queue in order and only its oldest are sacrificed, drops are counted exactly, and while recycling every packet is given up, the debt stays and every completion is a slot not repaid; full batches are repaid as in a poll; the counter and the flag are reset unless a poll brought nothing; place, balance and bound hold. |
| CqMgr.Cq.ReclaimSingle | src/vma/dev/cq_mgr.cpp:736-758 | A buffer joins the ready list, at its end, if and only if neither count has a reference left. |
| CqMgr.Cq.ReclaimReady | src/vma/dev/cq_mgr.cpp:717-720 | The whole ready list goes back as one chain by the owner of its first buffer. |
| CqMgr.Cq.ReclaimBuffers | src/vma/dev/cq_mgr.cpp:715-725 | The ready list goes back by the owner of its first buffer, then the chain given if this was its last reference, then a pool that is too large shrinks: the pool and the global list afterwards are given exactly. |
| CqMgr.Cq.ReclaimAgain | src/vma/dev/cq_mgr.cpp:571-604 | Reclaiming a buffer that is back already: when nobody refers to it, it is in the pool twice, or the global list is a circle. |
| CqMgr.Cq.ReleaseReady | src/vma/dev/cq_mgr.cpp:197-199 | The destructor passes the head of the ready list to a function that reclaims the list on its own account first: a buffer then comes twice, or the global list is a circle already, if and only if the ready list was not empty. |
| CqMgr.TwiceBreaks | src/vma/dev/cq_mgr.cpp:595-595 | A buffer pushed to the pool a second time is in two places, whatever else holds. |
| CqMgr.Cq.Destroy | src/vma/dev/cq_mgr.cpp:192-210 | After the whole destructor the global list ends, if and only if no buffer was ready to be freed; then queue and pool are on it in order and every buffer is there, posted or delivered; otherwise it is a circle. |
| CqMgr.RunToCircle | src/vma/dev/cq_mgr.cpp:192-210 | A run that ends so: one buffer posted, its packet received, delivered and given back, and the manager destroyed. |
| DmRing.Aligned8 | src/vma/dev/dm_mgr.cpp:43-43 | A length rounds up by less than eight, except above 2^32 - 8, where 32-bit arithmetic makes it zero. |
| DmRing.RegionsApart | src/vma/dev/dm_mgr.cpp:185-187 | All live regions are pairwise disjoint in the memory. |
| DmRing.TakenIs | src/vma/dev/dm_mgr.cpp:196-215 | Which offsets are taken can be read off the two counters alone, in the plain and in the wrapped case. |
| DmRing.FitsIsRoom | src/vma/dev/dm_mgr.cpp:196-215 | With something in use, a request is refused if and only if nothing is left or neither the run at the head nor the run at offset 0 is free; an empty ring accepts if and only if the request fits before or after its head. |
| DmRing.RewindsIsNoRoom | src/vma/dev/dm_mgr.cpp:202-215 | An accepted request starts over at offset 0 if and only if the run at the head is not free for it. |
| DmRing.EmptyRingRefuses | src/vma/dev/dm_mgr.cpp:196-215 | An empty ring may refuse a request that the whole memory could hold. |
| DmRing.Allocate | src/vma/dev/dm_mgr.cpp:217-232 | Taking a region keeps the counters and the live regions consistent, across the end of the memory and across a rewind. |
| DmRing.Release | src/vma/dev/dm_mgr.cpp:256-264 | Giving back the oldest region keeps them consistent. |
| DmRing.ChargeIsLenPlusPad | src/vma/dev/dm_mgr.cpp:227-232 | The bytes charged are the bytes of the live regions plus the bytes skipped at the end of the memory. |
| DmRing.RewoundIsInconsistent | src/vma/dev/dm_mgr.cpp:202-225 | A head rewound to 0 while something is live describes the live regions on no lap at all. |
| DmRing.FailedCopy | src/vma/dev/dm_mgr.cpp:202-250 | After a failed copy the counters describe the live regions on some lap if and only if the run at the head was free for the request or nothing is live. |
| DmRing.LeftoverRelease | src/vma/dev/dm_mgr.cpp:256-264 | Releasing the charge a failed copy left behind leaves counters that describe the live regions on no lap and at no head; when it exceeds the use, m_used wraps and every further request is refused. |
| DmRing.RunDry | src/vma/dev/dm_mgr.cpp:189-264 | A run that ends so: a memory of 64 bytes with nothing live, m_used at 2^64 - 16, and every copy refused. |
| DmRing.RunAstray | src/vma/dev/dm_mgr.cpp:189-264 | A run after which one region is live and the counters fit it on no lap. |
| DmRing.Ring.constructor | src/vma/dev/dm_mgr.cpp:67-107 | An empty ring of the configured size rounded up to 64, with its head at 0. |
| DmRing.Ring.CopyData | src/vma/dev/dm_mgr.cpp:189-250 | Succeeds if and only if the request fits and the copy works. It is then placed at the old head with its aligned length as charge if and only if the run at the head is free for it, otherwise at offset 0 with the bytes left at the end added; every failing case says what is unchanged, and that a failed copy leaves head and charge as if the region had been chosen. |
| DmRing.Ring.ReleaseData | src/vma/dev/dm_mgr.cpp:256-264 | For any charge, m_used falls by it modulo 2^64 and the head stays; the ring stays consistent for the charge of the oldest region and for a charge of zero. |
| CqeRing.SlotIsMod | src/vma/dev/cq_mgr_mlx5.cpp:678-679 | The slot and lap parity used here are the remainder and the parity of the quotient by the ring size. |
| CqeRing.SlotsApart | src/vma/dev/cq_mgr_mlx5.cpp:678-679 | Indices less than a lap apart use different slots. |
| CqeRing.Masks | src/vma/dev/cq_mgr_mlx5.cpp:676-688 | For any power of two, masking with size - 1 gives the slot and masking with size the lap parity. |
| CqeRing.CounterWraps | src/vma/dev/cq_mgr_mlx5.cpp:676-699 | Neither changes when the counter wraps at 2^32. |
| CqeRing.Ring.constructor | src/vma/dev/cq_mgr_mlx5.cpp:676-699 | A ring of invalid entries is well formed whatever owner bits its memory holds. |
| CqeRing.Ring.DeviceWrite | src/vma/dev/cq_mgr_mlx5.cpp:676-699 | A device that stays within a lap of the consumer keeps the ring well formed. |
| CqeRing.Ring.AtConsumer | src/vma/dev/cq_mgr_mlx5.cpp:676-688 | The entry the consumer looks at is the next completion if there is one, and otherwise is invalid or carries the other owner bit. |
| CqeRing.Ring.CheckCqe | src/vma/dev/cq_mgr_mlx5.inl:44-59 | Says ready if and only if the device is ahead. |
| CqeRing.Ring.GetCqe64 | src/vma/dev/cq_mgr_mlx5.cpp:659-699 | Hands over the completions in the order written, each once, never a stale entry; returns nothing, and moves nothing, if and only if there is none or its opcode is 8 to 12 and errors were asked for. |
| CqeRing.Ring.Advance | src/vma/dev/cq_mgr_mlx5.cpp:694-697 | The counter moves by one and the doorbell record follows it. |
| HashTable.ProbesCover | tools/daemon/hash.c:226-241 | A full round of linear probes from any start meets every slot. |
| HashTable.ProbeFor | tools/daemon/hash.c:226-246 | The probing ends at an entry with the wanted key if there is one, and at nothing if there is none. |
| HashTable.StoreKeeps | tools/daemon/hash.c:161-184 | Storing keeps array, count and map in step, and every pointer ever stored is held or freed, once. |
| HashTable.ClearKeeps | tools/daemon/hash.c:186-203 | Clearing an entry keeps the same. |
| HashTable.Hash.constructor | tools/daemon/hash.c:68-98 | An empty table of the given size, zero included. |
| HashTable.MarkKeyBreaks | tools/daemon/hash.c:161-184 | An entry stored under the key that marks free entries makes the count differ from the number of occupied entries. |
| HashTable.Hash.Find | tools/daemon/hash.c:214-246 | With or without a hit on the cached entry: finds the key if and only if the map has it; asked to add, or for the key that marks free entries, finds a free entry if and only if the table is not full. |
| HashTable.Hash.Get | tools/daemon/hash.c:133-145 | The value the map has for the key, NULL if none, for every key. |
| HashTable.Hash.Put | tools/daemon/hash.c:161-184 | The map gets the new value and an old one is freed once; a full table refuses everything and changes nothing; the table stays consistent if and only if the key is not the one that marks free entries or the table is full. |
| HashTable.Hash.StoreAt | tools/daemon/hash.c:170-180 | Writing the entry found updates the map at this key only and frees an old value once. |
| HashTable.Hash.Del | tools/daemon/hash.c:186-203 | The key leaves the map, every other key stays, its value is freed once; a key the map does not have, the mark included, changes nothing. |
| HashTable.Hash.Destroy | tools/daemon/hash.c:100-121 | With a free function, every pointer ever stored has then been freed exactly once. |
| HashTable.Hash.Walk | tools/daemon/notify.c:301-313 | The walk that stops after count values visits every stored value once, in array order. |
| HashTable.AllSeen | tools/daemon/notify.c:301-313 | Stopping there is right because no more pointers are stored than entries are occupied. |
| HashTable.CheckPrime | tools/daemon/hash.c:248-259 | Testing divisors up to half the value misses none. |
| SmTable.AddLine | src/state_machine/sm.cpp:133-194 | One accepted line changes the meaning of its state and event only. |
| SmTable.Compile | src/state_machine/sm.cpp:102-198 | Accepts if and only if no line is refused; the dense table then says of every state and event what the last line for them says, or the default; otherwise it stops at the first refused line. |
| SmTable.AcceptedIs | src/state_machine/sm.cpp:133-194 | Lines are accepted if and only if all are in range and of two lines for one state and event the earlier has the default action. |
| SmTable.CompiledIsClosed | src/state_machine/sm.cpp:102-198 | Next states of the table built from accepted lines stay inside the machine if and only if no line that decides a cell has a negative next state other than SM_ST_STAY. |
| SmEngine.CompiledIsWellFormed | src/state_machine/sm.cpp:80-84 | The same condition decides whether the machine can run on the table, whether all lines were read or the compiler stopped at one it refused. |
| SmEngine.CompiledRunInside | src/state_machine/sm.cpp:202-280 | Under it every run, from any state and whatever callbacks post, stays inside the machine, and so does every state a callback is shown. |
| SmEngine.RangeTest | src/state_machine/sm.cpp:239-243 | Of the events the range test lets through, exactly the one equal to the number of events has no cell in the table. |
| SmEngine.SubmissionOrder | src/state_machine/sm.cpp:202-280 | Events are handled in the order of submission: those queued, then all that callbacks post, in the order posted. |
| SmEngine.NoOverlap | src/state_machine/sm.cpp:202-280 | The callbacks of two events never interleave: the trace is one block per handled event, in order. |
| SmEngine.HandleOneIs | src/state_machine/sm.cpp:245-276 | From the table alone: the state after an event is the next state of its cell, the same one for SM_ST_STAY; the callbacks invoked are exactly those that are due (notification and transition always, leave and entry when the state changes, with the actions of the old and the new row, none that is NULL), each once, in the order notification, leave, transition, entry. |
| SmEngine.RunByTable | src/state_machine/sm.cpp:202-280 | Over a whole run the final state is the fold of those next states over the handled events, every event has exactly its callbacks for the state the events before it led to, and the number of callbacks is counted right. |
| SmEngine.RunIs | src/state_machine/sm.cpp:202-280 | The trace of a run is these callbacks one after the other, and nothing else. |
| SmEngine.DrainStep | src/state_machine/sm.cpp:217-228 | Handling one event and queueing what it posted is one step of the queue machine, and the work left gets smaller. |
| SmEngine.Machine.constructor | src/state_machine/sm.cpp:52-86 | A machine starts idle with an empty queue. |
| SmEngine.Machine.LockInProcess | src/state_machine/sm.cpp:202-214 | While an event is being handled, another is queued and refused the lock. |
| SmEngine.Machine.Callback | src/state_machine/sm.cpp:251-272 | A callback may post any events; they are queued behind what is there and none is handled meanwhile. |
| SmEngine.Machine.UnlockInProcess | src/state_machine/sm.cpp:217-228 | By mutual recursion with process_event, empties the queue: the final state and trace are those of the queue machine. |
| SmEngine.Machine.ProcessEvent | src/state_machine/sm.cpp:231-280 | From inside a callback it only queues; from outside it terminates with state and trace of the queue machine run on the event and the queue, which are those the table says; -1 if and only if the event is out of range. |
| SmEngine.Machine.HandleEvent | src/state_machine/sm.cpp:245-276 | Notification, leave, transition and entry callbacks, in this order and only when due, then the change of state. |
| SpinLock.RunKeepsInv | src/utils/lock_wrapper.h:215-273 | The invariant holds after every interleaving of the separate reads and writes of lock, trylock, unlock and is_locked_by_me. |
| SpinLock.MutualExclusion | src/utils/lock_wrapper.h:225-262 | At most one thread is between taking and letting go of the spinlock, in every state of every run. |
| SpinLock.CountIsDepth | src/utils/lock_wrapper.h:225-262 | Back outside, a thread that holds the lock finds the count equal to its nesting depth, itself as owner and the spinlock taken; one that does not is not the owner. |
| SpinLock.OwnerTestIsRight | src/utils/lock_wrapper.h:228-228 | The unsynchronised read of the owner equals the reading thread if and only if that thread holds the lock. |
| SpinLock.OthersCannotDisturb | src/utils/lock_wrapper.h:225-262 | No step of another thread changes any field while the holder runs. |
| SpinLock.AnswerIsDepth | src/utils/lock_wrapper.h:263-267 | is_locked_by_me answers with the nesting depth, whatever happens between its two reads. |
| SpinLock.TakingSucceeds | src/utils/lock_wrapper.h:232-254 | An attempt on the spinlock succeeds if and only if nobody is inside, and is only made by a thread that does not hold it. |
| SpinLock.LockReturns | src/utils/lock_wrapper.h:225-240 | Over every run: a call of lock that has returned reports success and leaves its thread one deeper than before. |
| SpinLock.TryLockReturns | src/utils/lock_wrapper.h:241-254 | A call of trylock that reports success does the same; one that does not leaves the depth, and another thread was inside at its attempt. |
| SpinLock.UnlockReturns | src/utils/lock_wrapper.h:255-262 | A call of unlock by a holder leaves it one less deep, and the spinlock free when it was the last. |
| SpinLock.AskReturns | src/utils/lock_wrapper.h:263-267 | A call of is_locked_by_me changes nothing and says the depth. |
| SpinLock.CallsGetOn | src/utils/lock_wrapper.h:225-267 | A call takes at most six steps of its thread besides those in which lock finds another thread inside; only lock ever waits. |
| Netlink.RoundTripOne | tools/daemon/nl.c:209-242 | Reading an encoded attribute by its length field gives it back: type, payload and nesting, at any depth, whatever follows. |
| Netlink.RoundTripAll | tools/daemon/nl.c:209-242 | The same for a run of attributes walked by their aligned lengths. |
| Netlink.KeepOneAll | tools/daemon/nl.c:214-218 | An attribute tree that fits is written whole. |
| Netlink.KeepAll | tools/daemon/nl.c:214-218 | So is a run of trees. |
| Netlink.AttrBytes | tools/daemon/nl.c:209-242 | The bytes place by place: length and type least significant byte first, the payload, zeros up to the next multiple of four. |
| Netlink.BuiltReads | tools/daemon/nl.c:209-242 | A tree that fits, once built at any place of the message, is there byte for byte and reads back as itself. |
| Netlink.AllBuiltRead | tools/daemon/nl.c:209-242 | So does a run of trees. |
| Netlink.NestAfter | tools/daemon/nl.c:228-242 | Start, the nested attributes and the length filled in afterwards amount to the encoding of the nested attribute, or to nothing when its header did not fit. |
| Netlink.Message.AttrAdd | tools/daemon/nl.c:209-226 | Appends the encoding, padded, or changes nothing if and only if it does not fit. |
| Netlink.Message.NestStart | tools/daemon/nl.c:228-235 | Appends an empty header if it fits and remembers where. |
| Netlink.Message.NestEnd | tools/daemon/nl.c:237-242 | Fills in the length in place; every other byte stays. |
| Netlink.Message.Build | tools/daemon/nl.c:209-242 | Building a tree with these calls appends the encoding of exactly the part that fits, at any depth. |
| Netlink.Message.BuildAll | tools/daemon/nl.c:209-242 | The same for a run of trees: what does not fit is skipped and later ones may still fit. |
| Selector.MergedMeaning | tools/daemon/tc.c:665-673 | Without a conflict the merged key tests exactly both keys; with one, no word passes both. |
| Selector.PackMeaning | tools/daemon/tc.c:658-687 | A success makes the selector accept exactly what it accepted before and the new key matches; a failure changes nothing, and at an aligned offset means nothing can satisfy both; one key per place is kept. |
| Selector.PackFails | tools/daemon/tc.c:658-687 | Packing succeeds if and only if the offset is aligned and some packet satisfies the selector and the key. |
| Selector.Key8Tests | tools/daemon/tc.c:689-706 | A one-byte key tests the byte at its offset, at all four positions in the word. |
| Selector.Key16Tests | tools/daemon/tc.c:708-719 | A two-byte key tests the first or the second half of its word, in network order. |
| Selector.HalfTested | tools/daemon/tc.c:708-719 | That half is the one at the offset asked for if and only if the offset is even. |
| Selector.Key32Tests | tools/daemon/tc.c:721-727 | A whole-word key matches exactly the word given in network order. |
| Selector.Sel.PackKey | tools/daemon/tc.c:658-687 | The loop over the keys and the in-place merge compute the specified outcome. |
| Selector.Sel.PackKey8 | tools/daemon/tc.c:689-706 | Shifts and byte swap place a one-byte key as specified. |
| Selector.Sel.PackKey16 | tools/daemon/tc.c:708-719 | Shift and byte swap place a two-byte key as specified. |
| Selector.Sel.PackKey32 | tools/daemon/tc.c:721-727 | Byte swap places a whole-word key as specified. |
| Selector.Sel.Dev2Tap | tools/daemon/tc.c:528-543 | The calls of tc_add_filter_dev2tap build the selector described below, although no result is looked at. |
| Selector.Dev2TapAccepts | tools/daemon/tc.c:528-543 | The selector accepts a packet with a 20-byte IPv4 header (section 3.1 of RFC 791) if and only if it is unfragmented, has the protocol, destination address and port, and, when a source port was given, the source address and port; it needs five keys at most. |
| Selector.SourceTested | tools/daemon/tc.c:533-538 | The source is tested if and only if the source port is not zero: with port zero a packet from another source is accepted. |
| Checksum.CalcCsum | tools/daemon/notify.c:389-411 | The loop over words, the odd byte and the two folds compute the specified value. |
| Checksum.ChecksumIs | tools/daemon/notify.c:389-411 | It is the checksum of section 1 of RFC 1071 if and only if no carry is left after two folds. |
| Checksum.LengthLimit | tools/daemon/notify.c:389-411 | For a given length it is that checksum for all data if and only if the length is at most 131076 bytes. |
| Checksum.StoredChecks | tools/daemon/notify.c:439-465 | Stored in its zeroed, even-placed field the checksum makes the one's complement sum all ones, and computing it again gives zero. |

## Left out

- FlowInvariant.AddKeepsInv: assumes an ingress flow and, when a new table is needed, a table id left; `ExhaustedIdsBreak` shows the second is necessary, egress flows never touch the table.
- FlowRuns.RunKeepsWorld: deletes in a run are of flows whose add completed; what deleting a flow of a full bucket does is `SuccessNamesOwnNode`.
- FlowDaemon.Daemon.DelFlow: when an interface goes, its pending list goes with it and is not retried.
- CqMgr.Cq.AddQpRx: the branch for a queue pair that takes no more buffers is not there, because post_recv_buffers empties every list it is given (src/vma/dev/qp_mgr.cpp:565-572).
- CqMgr.Cq.CompensateSuccess: the bound on the debt is stated for a compensation level of at least one; with level zero an empty pool repays nothing.
- CqMgr.Cq.PollRx: completions wait in posting order, at most as many as are posted, and none arrives during a call; only the plain verbs path is modelled; statistics and the resetting of fields no other step reads are left out.
- CqMgr.Cq.Destroy: goes on where buffersPanic would be called, at which point the list is a circle already (`PutBack`).
- DmRing.Ring.ReleaseData: apart from what failed copies leave behind, buffers are released oldest first, as transmit completions arrive; other orders are not modelled.
- CqeRing.Ring.DeviceWrite: memory accesses are sequentially consistent and the device stays within a lap of the consumer; barriers and the doorbell protocol are not modelled.
- SmEngine.Machine.ProcessEvent: the event equal to the number of events is excluded, because the range test lets it through and the read is then outside the table (`RangeTest`); callbacks are given by what they post.
- HashTable.Hash.Find: with size zero the key modulo the size has no value, so looking up needs a positive size (a table of size zero refuses every put); after a value has been stored under the key that marks free entries nothing more is said of the table.
- Netlink.Message.AttrAdd: bytes are those of a little-endian host, and the buffer is zero behind the message, as tc_req leaves it.
- Netlink.Message.NestEnd: the place given is one NestStart returned, so it is aligned.
- Netlink.RoundTripOne: the reader is told which attributes are nested, since the format does not say, and encodings are below 2^16 bytes, the range of the length field.
- Selector.Dev2TapAccepts: words are those of a little-endian host and every key has offset mask 0.
- Checksum.StoredChecks: stated up to the length for which the checksum is right.
- SpinLock.RunKeepsInv: sequentially consistent steps; every unlock follows a lock of the same thread, and the count does not overflow.
- Memory allocation in the daemon is taken to succeed; egress rules of tap devices, the text interface to tc and message parsing are not modelled.
- del_qp_rx, clean_cq and the reclaiming of whole queues, which repeat steps modelled here; the mlx5 variants of polling.
- Transmit paths, sockets, routing, neighbour and event handling, statistics, logging and configuration of the library.
- The rest of bitmap.h (flip, groups) and of the lock wrappers, which would only add easy members.
