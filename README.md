# Message runtime: memory pools, message queues and the SRSW ring

This project models the message runtime that generated event-driven code uses to pass
fixed-size events between blocks (`simulink/include/messages/slMsgSvc.c`). The model has five
parts:

- **Memory pools** (`mem_pool.dfy`, module `MemPools`). A pool is a chain of chunks of
  equal-sized units. Its free list hands out units head first. When a pool that may allocate
  runs dry, it grows by a chunk of twice the newest chunk's units. When that chunk would pass
  the 2 MiB block bound, it falls back to a system block instead. Destroying a pool releases
  its chunks oldest first.
- **Queue disciplines** (`queue_order.dfy`, module `QueueOrder`). These are pure functions over
  the sequence of queued messages, head first:
  - FIFO appends and LIFO prepends.
  - The priority kinds insert in front of the first message with a strictly worse key.
  - A queue with a drop policy stores one slot more than declared and then drops its head or
    its tail.
  - Priority keys are read from the payload by the declared primitive type, or taken from the
    message's entity priority for the system-priority kinds.
- **Message queues** (`msg_queue.dfy`, module `MsgQueues`). A `MsgQueue` threads its
  `Message`s through `prev`/`next` links. Each linking method is proved against the pure
  discipline functions through the ghost field `Contents`.
- **SRSW ring** (`srsw_ring.dfy`, module `SrswRing`). This is the single-reader/single-writer
  lock-free FIFO. It is an array of `declared + 1` slots with a writer-owned tail and a
  reader-owned head.
- **Message manager** (`msg_manager.dfy`, module `MsgManagers`). It creates, sends, pops, peeks
  and destroys messages, and it finalises and terminates the runtime. Its invariant `Valid`
  keeps three things true:
  - every live message holds allocated pool units that no other message holds;
  - every queued message is live and is on exactly one queue;
  - every queue is well formed.

The build modelled is the diagnostic one. It keeps message ids, entity priorities and the
owning queue id in each message, and it has system allocation and the SRSW queue enabled.

Constants that come from headers outside this model:
- The unspecified queue id is `-1`.
- The free-list header is 16 bytes.
- Payload fields are little-endian.
- The default entity priority is the manager parameter `defaultPriority`.

The header `slMsgSvc.h` is not part of this model.

The operations model the behaviour the runtime evidently intends. In three places the code as
written differs. There the as-written behaviour is modelled beside the operation, the exact
difference is proved, and the case is listed under Findings:
- Destroying a pool that may allocate also frees a caller-supplied first block.
  `ReleasedAsWritten` models this, and `ReleasedAsWrittenAddsCallerBlock` states how it differs
  from `Released`, which the operations use.
- A ring declared with capacity 255 stores a slot count of 0 and accepts a send when full.
  `StoredRingCapacity`, `AcceptsAsWritten` and `AdvancedTailAsWritten` model this, and
  `AsWrittenAgreesBelowMax` shows that below 255 they agree with `Ring`.
- The free's byte test does not claim the last unit of a chunk of zero-byte units.
  `InChunkAsWritten` models the test, and `InChunkAsWrittenExactly` states how it differs from
  `InChunk`, which the operations use.

## Model

| member | source | states |
|---|---|---|
| MemPools.ThreadedAt | simulink/include/messages/slMsgSvc.c:256-269 | threading n units from `start` lists them last to first, `n` items, item k being `start + n - 1 - k` |
| MemPools.ThreadedUnits | simulink/include/messages/slMsgSvc.c:256-269 | the threaded free list holds exactly the chunk's units, each once |
| MemPools.PartitionedAlloc | simulink/include/messages/slMsgSvc.c:346-358 | taking the free-list head keeps every unit on exactly one of the free and allocated lists, and grows the allocated set by one |
| MemPools.PartitionedFree | simulink/include/messages/slMsgSvc.c:387-407 | returning an allocated unit to the free-list head keeps the free/allocated split |
| MemPools.PartitionedGrow | simulink/include/messages/slMsgSvc.c:320-333 | threading a new chunk onto an empty free list keeps the split over the grown unit range |
| MemPools.MemPool.Init | simulink/include/messages/slMsgSvc.c:616-643 | a new pool has one chunk of the requested units, or at least 2 when it may grow; all of its units are free, threaded last to first; nothing is allocated; the block bound is 2 MiB |
| MemPools.MemPool.ThreadUnits | simulink/include/messages/slMsgSvc.c:256-269 | the loop pushes each unit of a chunk onto the head of the free list, giving `Threaded(start, n)` in front of the old list |
| MemPools.MemPool.Alloc | simulink/include/messages/slMsgSvc.c:278-359 | with free units, grants the old free-list head and moves it to the allocated list. Dry and unable to allocate: bad-alloc, pool unchanged. Dry and the doubled block over the bound: a system block, pool unchanged. Otherwise appends a doubled dynamic chunk and grants its last unit. A granted pool unit was not allocated before |
| MemPools.MemPool.TakeHead | simulink/include/messages/slMsgSvc.c:346-358 | the head unit leaves the free list for the allocated list, and the allocation counter goes up by one |
| MemPools.MemPool.Grow | simulink/include/messages/slMsgSvc.c:305-333 | a chunk twice the newest chunk's size is linked after it, and its units become the free list |
| MemPools.MemPool.GrowthKeepsChain | simulink/include/messages/slMsgSvc.c:306-318 | the grown chunk starts where the newest chunk ends and doubles its units, so the chain keeps its shape |
| MemPools.InChunkAsWrittenExactly | simulink/include/messages/slMsgSvc.c:378-381 | the source's byte test claims a unit exactly when the unit lies in the chunk, except the chunk's last unit when units are zero bytes |
| MemPools.ZeroSizeLastUnitUnclaimedAsWritten | simulink/include/messages/slMsgSvc.c:378-381 | a growable pool of two zero-byte units hands out unit 1 first, and the byte test does not claim it although it lies in the chunk |
| MemPools.MemPool.FindChunk | simulink/include/messages/slMsgSvc.c:378-385 | the scan from the newest chunk to the oldest finds a chunk exactly when the pool owns the address |
| MemPools.MemPool.ChunksCover | simulink/include/messages/slMsgSvc.c:378-385 | the chunks of a well-formed chain cover exactly the unit indices below the pool's unit count |
| MemPools.MemPool.Free | simulink/include/messages/slMsgSvc.c:369-409 | frees exactly when the pool owns the address: the unit moves from the allocated list to the free-list head and the free counter goes up. Any other address leaves the pool unchanged |
| MemPools.MemPool.AllocatedOwned | simulink/include/messages/slMsgSvc.c:369-409 | every allocated unit lies in one of the pool's chunks, so freeing it finds its chunk |
| MemPools.MemPool.Destroy | simulink/include/messages/slMsgSvc.c:459-471 | releases exactly `Released(chunks, canMalloc)` and leaves no chunk |
| MemPools.ChainCovers | simulink/include/messages/slMsgSvc.c:378-385 | the first n chunks of a chain cover exactly the units below the end of chunk n-1 |
| MemPools.ReleasedSpec | simulink/include/messages/slMsgSvc.c:440-454 | destruction releases only dynamic chunks of a pool that may allocate; all of them, oldest first, when every chunk is dynamic; nothing when it may not allocate |
| MemPools.ReleasedAsWrittenAddsCallerBlock | simulink/include/messages/slMsgSvc.c:440-454 | on a chain whose later chunks are dynamic, the code as written releases exactly `Released` plus the first block when it is caller-supplied and the pool may allocate |
| MemPools.CallerBufferReleasedAsWritten | simulink/include/messages/slMsgSvc.c:440-454 | a grown pool over a caller buffer: the code as written hands the caller's block to the system free; `Released` does not |
| MemPools.FreeToPools | simulink/include/messages/slMsgSvc.c:417-436 | the pools are asked in order; the unit is freed exactly when its pool owns it, and every other pool is unchanged |
| MemPools.DestroyPools | simulink/include/messages/slMsgSvc.c:478-485 | every pool is destroyed, and the result records each pool's released chunks |
| QueueOrder.InsertPos | simulink/include/messages/slMsgSvc.c:858-904 | the insertion point is the first message the new key goes strictly before, or the tail when there is none |
| QueueOrder.InsertPosUnique | simulink/include/messages/slMsgSvc.c:865-894 | any position where the scan's stopping test first holds is `InsertPos` |
| QueueOrder.EnqueuedContents | simulink/include/messages/slMsgSvc.c:823-918 | adding a message grows the queue by one, and its multiset is the old one plus the message |
| QueueOrder.EnqueuedMembers | simulink/include/messages/slMsgSvc.c:823-918 | after adding x, the messages are exactly the old ones and x |
| QueueOrder.EnqueuedKeepsOrder | simulink/include/messages/slMsgSvc.c:823-918 | the old messages keep their relative order: removing x gives back the old queue |
| QueueOrder.EnqueuedPlacement | simulink/include/messages/slMsgSvc.c:853-904 | in a sorted priority queue, x lands after every message it does not beat and before every message it beats; equal keys stay in sending order |
| QueueOrder.EnqueuedSorted | simulink/include/messages/slMsgSvc.c:853-904 | insertion keeps an ascending queue non-decreasing and a descending one non-increasing |
| QueueOrder.RemoveAtContents | simulink/include/messages/slMsgSvc.c:774-820 | removing index i takes exactly that message out of the multiset |
| QueueOrder.RemoveAtMembers | simulink/include/messages/slMsgSvc.c:774-820 | removal leaves only messages that were queued |
| QueueOrder.RemoveAtSorted | simulink/include/messages/slMsgSvc.c:774-820 | removing any message keeps a priority queue sorted |
| QueueOrder.HeadIsBest | simulink/include/messages/slMsgSvc.c:1153-1175 | the head of a sorted priority queue, the one a pop takes, has the best key of the queue |
| QueueOrder.AddStaysBounded | simulink/include/messages/slMsgSvc.c:671 | with the stored capacity one above the declared one, a dropping queue never holds more than declared after a send |
| QueueOrder.FifoOverflow | simulink/include/messages/slMsgSvc.c:920-954 | a full FIFO queue: drop-tail drops the message just sent and keeps the queue; drop-head drops the oldest and appends the new one |
| QueueOrder.LifoOverflow | simulink/include/messages/slMsgSvc.c:920-954 | a full LIFO queue: drop-head drops the message just sent; drop-tail drops the oldest message |
| QueueOrder.PayloadValueRange | simulink/include/messages/slMsgSvc.c:515-577 | an integer or boolean priority field reads back within its type's range, sign-extended for the signed types |
| MsgQueues.Message.Create | simulink/include/messages/slMsgSvc.c:971-1007 | a new message carries its id, priority, payload and units, and is unlinked with no queue |
| MsgQueues.MsgQueue.Create | simulink/include/messages/slMsgSvc.c:653-703 | an empty linked queue whose stored capacity is the declared one, plus one under a drop policy; its key is the payload field or entity priority for its kind; readers and writers share the given pools |
| MsgQueues.MsgQueue.CreateSrsw | simulink/include/messages/slMsgSvc.c:707-765 | an SRSW queue with an empty ring of declared+1 slots of the payload size and an empty linked list |
| MsgQueues.MsgQueue.Remove | simulink/include/messages/slMsgSvc.c:774-820 | the queue becomes the old one without index i, the length drops by one, and the message leaves detached |
| MsgQueues.MsgQueue.Unlink | simulink/include/messages/slMsgSvc.c:788-808 | the neighbours are joined and the ends follow, so the chain is the old one without index i, and the message is unlinked |
| MsgQueues.MsgQueue.LinkFirst | simulink/include/messages/slMsgSvc.c:830-833 | an empty queue's chain becomes just the message |
| MsgQueues.MsgQueue.LinkAtTail | simulink/include/messages/slMsgSvc.c:837-844 | the chain gains the message at its end |
| MsgQueues.MsgQueue.LinkAtHead | simulink/include/messages/slMsgSvc.c:845-852 | the chain gains the message at its front |
| MsgQueues.MsgQueue.LinkBefore | simulink/include/messages/slMsgSvc.c:883-890 | the message is spliced in at index i, between the message found and its predecessor |
| MsgQueues.MsgQueue.AddToQueue | simulink/include/messages/slMsgSvc.c:823-955 | the queue becomes `Enqueued` of the old one. On reaching the stored capacity of a dropping queue, it returns the message at the head or tail, detached, removes it and counts the drop; otherwise nothing is dropped. The queue stays valid |
| MsgQueues.MsgQueue.DropOverflow | simulink/include/messages/slMsgSvc.c:920-954 | the head (drop-head) or tail (drop-tail) is unlinked, counted and returned, bringing the queue back under its stored capacity |
| MsgQueues.MsgQueue.Enqueue | simulink/include/messages/slMsgSvc.c:823-920 | the message is linked by the discipline, marked as on this queue and counted; the queue stays well formed and at most at its stored capacity |
| MsgQueues.MsgQueue.EnqueuedWellformed | simulink/include/messages/slMsgSvc.c:911-920 | a sorted queue with a message added by its discipline, all marked as on the queue, is well formed |
| MsgQueues.MsgQueue.Insert | simulink/include/messages/slMsgSvc.c:830-904 | dispatch on the discipline links the message as `Enqueued` says |
| MsgQueues.MsgQueue.InsertByPriority | simulink/include/messages/slMsgSvc.c:853-904 | the message is linked at `InsertPos`: before the first strictly worse message, or after the tail |
| MsgQueues.MsgQueue.FindInsertPoint | simulink/include/messages/slMsgSvc.c:858-894 | the scan stops at index `InsertPos` and returns the message there, or none past the tail |
| MsgQueues.MsgQueue.PeekAt | simulink/include/messages/slMsgSvc.c:1123-1144 | the walk returns the message at index idx, or none for an index outside the queue |
| MsgQueues.MsgQueue.NumMsgs | simulink/include/messages/slMsgSvc.c:1116-1120 | the stored length is the number of linked messages |
| MsgQueues.MsgQueue.Pop | simulink/include/messages/slMsgSvc.c:1153-1175 | an empty queue gives none and is unchanged; otherwise the head is returned detached and the queue is the rest |
| SrswRing.CircularIndex | simulink/include/messages/slMsgSvc.c:83 | with a nonzero capacity the index lands inside the ring, and an index already inside stays |
| SrswRing.CircularStep | simulink/include/messages/slMsgSvc.c:83 | advancing the last slot wraps to 0; any other slot moves to the next |
| SrswRing.FullEmptyByIndex | simulink/include/messages/slMsgSvc.c:1085-1088 | the ring is empty exactly when head equals tail, and full exactly when all but one slot is pending |
| SrswRing.Ring.Create | simulink/include/messages/slMsgSvc.c:752-760 | a ring of declared+1 slots with nothing pending |
| SrswRing.Ring.Send | simulink/include/messages/slMsgSvc.c:1085-1103 | accepted exactly when fewer than capacity-1 payloads are pending. Then the payload and id are appended to the pending sequence; otherwise the ring is unchanged. The head never moves |
| SrswRing.Ring.Front | simulink/include/messages/slMsgSvc.c:1188-1200 | none for an empty ring; otherwise the oldest pending payload |
| SrswRing.Ring.Advance | simulink/include/messages/slMsgSvc.c:1203-1207 | popping removes exactly the oldest pending payload |
| SrswRing.FullRingAcceptsAsWritten | simulink/include/messages/slMsgSvc.c:722-754 | at declared capacity 255 the 8-bit slot count is 0: a ring holding 255 payloads accepts a 256th, and its tail wraps onto the head, so the ring reads as empty |
| SrswRing.AsWrittenAgreesBelowMax | simulink/include/messages/slMsgSvc.c:722-754 | below declared capacity 255 the 8-bit slot count is declared+1, the source's full test accepts exactly when fewer than `declared` payloads are pending, and its tail is the circular successor |
| SrswRing.AcceptsExactlyBelowDeclared | simulink/include/messages/slMsgSvc.c:1085-1088 | with an untruncated slot count, a send is accepted exactly when fewer than the declared number of payloads are pending |
| MsgManagers.PerQueueMsgIdsDistinct | simulink/include/messages/slMsgSvc.c:1020 | per-queue ids from different queues or counter values differ while counters stay below 2^16 |
| MsgManagers.PerQueueMsgIdsOverlapPastCounterWidth | simulink/include/messages/slMsgSvc.c:1020 | queue 0's 65537th id equals queue 1's first |
| MsgManagers.MessagesOkAdd | simulink/include/messages/slMsgSvc.c:983-985 | a message built from two fresh units is held apart from every live message, and the allocation gains exactly its units |
| MsgManagers.MessagesOkRemove | simulink/include/messages/slMsgSvc.c:492-505 | freeing a live message's payload, then its record, removes exactly its units and keeps the others' accounting |
| MsgManagers.QueuesApart | simulink/include/messages/slMsgSvc.c:911-912 | a message is on at most one queue, and a queued message has a queue id |
| MsgManagers.MsgManager.Init | simulink/include/messages/slMsgSvc.c:606-613 | a manager with no live messages, per-queue ids, and the global counter at 1 |
| MsgManagers.MsgManager.NextMsgId | simulink/include/messages/slMsgSvc.c:1015-1021 | global ids: the counter's old value, and the counter goes up by one. Per-queue ids: the queue's counter goes up by one, and the id is its new value plus the queue id times 2^16. Only that one counter changes: the live messages, the pools' allocation, every queue's messages and every ring stay as they were |
| MsgManagers.MsgManager.CreateMsgWithId | simulink/include/messages/slMsgSvc.c:971-1007 | a fresh detached live message with the given id, the default priority, and the payload copied (or zeroed) to the given size; its record and payload come from the queue's writer pools and are exactly the units the allocation gains; none when a pool cannot supply |
| MsgManagers.MsgManager.NewMsg | simulink/include/messages/slMsgSvc.c:983-990 | the record, then the payload, are allocated from the given pools, and the new message holds exactly those units |
| MsgManagers.MsgManager.AllocFrom | simulink/include/messages/slMsgSvc.c:278-359 | a granted pool unit comes from the requested pool and was not held before; the allocation grows by exactly that unit |
| MsgManagers.MsgManager.CreateMsg | simulink/include/messages/slMsgSvc.c:1010-1024 | a fresh detached message, or none when an allocation fails. Exactly one id counter goes up by one either way. The message's id is the next global or per-queue id, its priority is the default, and its payload is the data given or zeros. Its units come from the queue's writer pools, and the pools' allocation grows by exactly those units. No queue's messages change |
| MsgManagers.MsgManager.DestroyMsg | simulink/include/messages/slMsgSvc.c:958-968 | a message on no queue stops being live, its units go back to their pools, and every queue and ring is unchanged |
| MsgManagers.MsgManager.FreeMsg | simulink/include/messages/slMsgSvc.c:492-505 | payload then record are freed, and the allocation loses exactly the message's units |
| MsgManagers.MsgManager.ReturnToPool | simulink/include/messages/slMsgSvc.c:417-436 | an allocated unit is freed in its pool; a system block leaves the pools unchanged |
| MsgManagers.MsgManager.SendMsg | simulink/include/messages/slMsgSvc.c:1027-1057 | an unspecified queue hands the message back. Otherwise the queue becomes `Enqueued` of its old messages, and on overflow the message at the drop index is removed and returned detached |
| MsgManagers.MsgManager.PopMsgFromQueue | simulink/include/messages/slMsgSvc.c:1153-1175 | none from an empty queue; otherwise the old head, detached and still live, with the queue becoming its tail. The pools' allocation and the queue's id counter are unchanged |
| MsgManagers.MsgManager.RemoveFromQueue | simulink/include/messages/slMsgSvc.c:774-820 | with a queue id, the queue loses exactly index i and the message is detached; without one, nothing changes |
| MsgManagers.MsgManager.NumMsgsInQueue | simulink/include/messages/slMsgSvc.c:1116-1120 | the number of messages linked on the queue; 0 for an SRSW queue |
| MsgManagers.MsgManager.PeekMsgFromQueueAtIndex | simulink/include/messages/slMsgSvc.c:1123-1144 | the message at index idx of the queue, or none outside it |
| MsgManagers.MsgManager.PeekMsgFromQueue | simulink/include/messages/slMsgSvc.c:1147-1150 | the head of the queue, or none when it is empty |
| MsgManagers.MsgManager.SrswSendMsg | simulink/include/messages/slMsgSvc.c:1060-1113 | an unspecified queue hands the message back. A ring with room appends the message's payload and id and destroys the message. A full ring hands it back with nothing changed |
| MsgManagers.MsgManager.RingSend | simulink/include/messages/slMsgSvc.c:1085-1103 | accepted exactly when the ring has room, with the payload and id appended to the pending payloads |
| MsgManagers.MsgManager.RingAdvance | simulink/include/messages/slMsgSvc.c:1203-1207 | the oldest pending payload is popped, and nothing else changes |
| MsgManagers.MsgManager.SrswReadMsgFromQueue | simulink/include/messages/slMsgSvc.c:1179-1215 | an empty ring gives none and changes nothing: ring, live messages, allocation and both id counters stay. Otherwise exactly one id counter goes up by one, as in message creation. A fresh message carries the oldest payload and its stored id, with the default priority and units from the queue's writer pools, and the allocation grows by exactly its units. With `pop` set, that payload leaves the ring |
| MsgManagers.MsgManager.CopyFront | simulink/include/messages/slMsgSvc.c:1188-1200 | reports whether the ring holds a payload, without moving the ring. With none, nothing changes. With one, exactly one id counter goes up by one, and a message created from the oldest payload carries its stored id, the default priority and units from the writer pools, which the allocation gains exactly |
| MsgManagers.MsgManager.SendMsgToQueue | simulink/include/messages/slMsgSvc.c:1445-1459 | an unspecified queue destroys the message and reports false. A ring reports whether it had room and destroys the message either way, after copying it when it had room. A linked queue destroys what it dropped and reports whether that was someone other than the message sent. Every destroyed message's units leave the pools' allocation, and nothing else does |
| MsgManagers.MsgManager.PopFromQueue | simulink/include/messages/slMsgSvc.c:1463-1471 | an SRSW queue reads and pops the oldest ring payload into a new message, stepping one id counter and allocating exactly its units, and changes nothing when the ring is empty. Any other queue unlinks its head, and the allocation and both id counters stay as they were |
| MsgManagers.MsgManager.DrainQueue | simulink/include/messages/slMsgSvc.c:1258-1261 | the loop pops and destroys until the queue is empty. Exactly its old messages stop being live, exactly their units leave the pools' allocation (`WithoutUnitsOf`), and other queues are untouched |
| MsgManagers.MsgManager.DiscardHead | simulink/include/messages/slMsgSvc.c:1259-1260 | the head is popped and destroyed: it stops being live, exactly its units leave the allocation, and the queue becomes its tail |
| MsgManagers.MsgManager.Finalize | simulink/include/messages/slMsgSvc.c:1236-1265 | every queue ends empty. Exactly the messages that were queued stop being live, and exactly their units leave the pools' allocation |
| MsgManagers.MsgManager.Terminate | simulink/include/messages/slMsgSvc.c:1268-1272 | every pool is destroyed, releasing `Released` of its chunks |

## Left out

- Exceptions and assertions: a failed allocation raises in the source. Here it is a `BadAlloc` result, and the message creation returns no message. When only the payload allocation fails, the record's unit stays allocated and is held by no message.
- The malloc/free wrappers and the system allocator are left out. A system block is the address `SystemBlock`, and freeing one changes no pool.
- Byte layout: units are indices, so the pointer arithmetic and the free-list headers are not modelled. The allocator's byte count is used only for the system fallback (303), so `Alloc` takes none. `memcpy`/`memset` become value copies of `seq<byte>`.
- The allocated list's order is not modelled; it is a set. The private free unlinks a unit by resetting the list head to the unit's successor. That is right only for the head unit, and it does not change which units are free.
- MemPools.MemPool.Free: claims a unit when it lies in one of the pool's chunks (`InChunk`). The source's byte test (378-381) also leaves out the last unit of a chunk of zero-byte units and hands that unit to the system free. `InChunkAsWritten` models the byte test, and `InChunkAsWrittenExactly` states the difference (see Findings).
- MemPools.MemPool.FindChunk: finds a chunk exactly when the pool owns the unit (`InChunk`). The source's scan (378-385) applies the byte test, which misses the last unit of a chunk of zero-byte units; `InChunkAsWrittenExactly` states the difference.
- MemPools.FreeToPools: a unit goes back to the pool that owns it. The source's loop (417-436) hands the last unit of a chunk of zero-byte units to the system free (433) instead; `InChunkAsWrittenExactly` states which unit that is.
- MsgManagers.MsgManager.ReturnToPool: takes the unit out of its pool's allocation. For the last unit of a chunk of zero-byte units, the source's free (417-436) leaves it allocated and frees it through the system; see `InChunkAsWrittenExactly`.
- MsgManagers.MsgManager.FreeMsg: returns both of the message's units to their pools, through `ReturnToPool`, and so differs from the source in the same way (492-505); see `InChunkAsWrittenExactly`.
- MsgManagers.MsgManager.DestroyMsg: takes the message's units out of the allocation, through `FreeMsg`, and so differs from the source in the same way (958-968); see `InChunkAsWrittenExactly`.
- MemPools.MemPool.Destroy: releases `Released`, the pool's dynamic blocks. For a pool that may allocate, the source (448-449) also frees a caller-supplied first block. `ReleasedAsWrittenAddsCallerBlock` states the difference exactly (see Findings).
- MemPools.DestroyPools: releases `Released` for each pool, as `MemPool.Destroy` does, and so differs from the source in the same way.
- MsgManagers.MsgManager.Terminate: destroys the pools through `DestroyPools`, and so differs from the source in the same way.
- SrswRing.Ring.Create: keeps the slot count `declared + 1` untruncated. The source keeps it in 8 bits (722, 754), which gives 0 at declared capacity 255. `StoredRingCapacity` models the stored count, and `AsWrittenAgreesBelowMax` shows the two agree below 255.
- SrswRing.Ring.Send: rejects a send when `declared` payloads are pending, at every capacity. At declared capacity 255 the source accepts a 256th send and the ring then reads as empty (`FullRingAcceptsAsWritten`, see Findings).
- Instrumentation hooks, `printf` diagnostics, `fAppData`/`fAppDeleter`, and the `_des_` wrappers are left out.
- SRSW concurrency is left out. The ring is modelled sequentially. The single-producer/single-consumer safety argument is not modelled, only the fact that `Send` never moves the head.
- Integer widths:
  - Message ids, the per-queue counters and queue lengths are unbounded. The 32-bit wrap of a counter is not modelled.
  - The overlap of per-queue ids past 2^16 is stated, in `PerQueueMsgIdsOverlapPastCounterWidth`.
- Floating-point keys: `double` and `single` fields are ordered through `FloatOrderKey` on their bit patterns. That matches the ordering of the values for every non-NaN pattern. NaN keys are not modelled.
- A priority field placed past the payload reads as 0 in `PayloadValue`. The source would read out of bounds; queues never configure such a field.
- MsgQueues.MsgQueue.Enqueue: the message's queue id is set before it is linked, not after. Nothing reads it in between.
- MsgManagers.MsgManager.SendMsgToQueue: the source reads the queue's kind before any check of the id. With the unspecified id that read is out of bounds. The model sends such a message straight to `SendMsg`, which hands it back to be destroyed.
- MsgManagers.MsgManager.SendMsg: requires a detached message of the queue's payload size. The source states both as assertions.
- MsgManagers.MsgManager.SrswReadMsgFromQueue: the source draws and discards a fresh id before overwriting it with the stored one; the model does the same.
  - It also advances the ring even when no message could be created. The source aborts in that case.
  - The SRSW create leaves the queue's id counter uninitialised; the model starts it at 0.
- MsgManagers.MsgManager.Finalize: drains only the linked queues, as the source does. Payloads left in a ring are not destroyed, because they are not messages.
- The set-up calls (`slMsgSvcSetNumMsgQueues`, `slMsgSvcSetNumMemPools`, `slMsgSvcInitMemPool`, the public queue-creation wrappers) are left out. The manager instead receives the pools and queues that constructors built. Every queue is configured, with its id equal to its index.
- The global-id switch `useGlobalMsgIds` starts false, as in the source. No operation of this core sets it.
- The reader pool ids of SRSW queues are stored but not used: this core creates every message in the writer pools.
- MsgQueues.Message: the payload `data` is a constant, and the accessor `slMsgSvcGetMsgData` (1218, 1474) is that field. The source hands out a writable pointer to the payload, so a caller can change a queued message's payload, priority field included, and so break its queue's priority order. Writes through that pointer are not modelled, and the order invariant relies on there being none.
- The diagnostic counters `_fComputedNecessaryCapacity` and `_fCurrentNecessaryCapacity` (688-689, 812, 914-917) are not modelled. They record a queue's current and largest length, and no operation of this core reads them.
- `raccel_sfcn_utils.c` and the headers are not part of this model.

## Findings

| source | as written | input that shows it | evidently intended | confidence | as-written member | corrected member |
|---|---|---|---|---|---|---|
| simulink/include/messages/slMsgSvc.c:722-754 | The SRSW ring's slot count, declared + 1, is kept in an 8-bit field, so declared capacity 255 stores 0. `CIRCULAR_INDEX` with capacity 0 leaves the index as it is. The full test in the send (1085-1088) compares tail + 1 with the head and never matches | declared 255, head 0, tail 255 (255 payloads pending): the send is accepted, the tail wraps to 0, and the ring reads as empty | a send is accepted exactly when fewer than the declared number of payloads are pending | not executed | SrswRing.FullRingAcceptsAsWritten | SrswRing.AcceptsExactlyBelowDeclared |
| simulink/include/messages/slMsgSvc.c:440-454 | Chunk destruction frees every chunk's block whenever the pool may allocate, including a first chunk built over a caller-supplied buffer | a pool that may allocate, initialised over a caller buffer of 2 units, that grew once: destruction hands the caller's buffer to the system free | only blocks the pool took from the system are released; a caller-supplied buffer is left alone | not executed | MemPools.CallerBufferReleasedAsWritten | MemPools.ReleasedSpec |
| simulink/include/messages/slMsgSvc.c:378-381 | The free asks whether the pointer lies strictly inside a chunk's block. A unit's pointer is its address plus the 16-byte header (358), so with zero-byte units the last unit's pointer is the block end | a growable pool created without a buffer, with unit size 0 and 2 units: the first allocation hands out unit 1, and freeing it passes a pointer into the pool's block to the system free (433) | every unit the pool handed out is taken back by the pool | not executed | MemPools.ZeroSizeLastUnitUnclaimedAsWritten | MemPools.MemPool.AllocatedOwned |
