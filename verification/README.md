# Models of the queues, timers and big integers

A Dafny 4.11 model of the concurrent queues, timer structures and exact arithmetic in this
repository, with proofs of what they promise. `dafny verify dfyconfig.toml` checks all of it.

**Lock-free ring** (`free_queue/rte_ring`). `RingProtocol` is a step machine: any number of
threads, each load, compare-and-set and slot copy of an enqueue or dequeue one step, new
watermarks at any time, once with unbounded indices and once with `uint32_t` ones.
`RingTheorems` proves bounds, tiling of the claims in flight, a unique publisher, FIFO order
and truthful failures over every run, and that the 32-bit machine refines the unbounded one
as long as no thread sleeps across a full index cycle between its read of a head and its
compare-and-set. `RingSingle` has the single-producer and single-consumer calls on an array, with the unrolled copy macros.
`RingPair` interleaves one producer and one consumer that use these calls, which store a
head without comparing and publish without waiting; no assumption on scheduling is left.
`RingCalls` says what the callers see, read from the actions of a run and what they return
alone: how many of its own objects a call moves, in which order they come out, when it may
fail. `RingProgress` has calls that run alone and shows that no run ends in a deadlock.

**Red-black tree** (`timer/rbtree.c`). Node objects with parent links and a sentinel. The
heap is described by a tree shape and a path to the root (`RbShapes`, `RbHeap`); the parent
of the root is not part of the description, because the code does not maintain it.
`RbFix` and `RbSplice` hold the steps of both fix-up loops and of unlinking, on shapes;
`RbTree` is the class. Insertion keeps the tree valid for any keys, and ordered by circular
offset when all keys lie in a window narrower than 2^31.

**Timing wheels** (`timer/timewheel.c`, `timer/clock-timer.c`). `WheelModel` has both wheels
on values, `WheelDigits` the arithmetic of their digits, `WheelRuns` the exact-firing theorem
over every run of adds and ticks, `TimeWheel` the class with the loops of the code. Every
timer of `timewheel.c` fires in the tick of its expiry, once, also across the wrap of the
32-bit time, *if and only if* `add_node` did not put it into slot 0 of one of the lower three
levels, which no cascade ever empties; for the clock it is slot 0 of the minutes. The theorem
names the lost timers by time and expiry alone (`WheelRuns.Lost`).

**MPSC queue** (`free_queue/MPSCQueue.h`, the intrusive form). `Mpsc` interleaves every load,
store and exchange of any number of producers and the consumer, with the recycled dummy.
`MpscCalls` reads from the actions of a run which calls have begun, exchanged and returned,
and what they have been answered.

**Skip list** (`atomic_lock/skiplist.h`). `SkipReaders` interleaves the stores of one
inserting writer with the loads of any number of searching readers; `SkipList` has the
writer's own code with the predecessor cache, whose search supplies what the writer of
`SkipReaders` starts from and whose stores are its steps. `SkipCalls` ties the answers to the
questions asked and the keys inserted in a run, and shows that a search ends.

**Big integers and digit generation** (`format-inl.h`). `Digits` and `Products` are the
arithmetic, `BigInts` the class `bigint`, `Dragon` the part of `fallback_format` that prints
a given number of digits, `Shortest` the part that prints the shortest ones.

**Timer skip list** (`timer/skiplist.c`). `TimerList` has the nodes and their links in place,
with insertion, both deletions and the exact length and level.

**Two-list queue, heap, thread pool.** `MsgQueue` (`free_queue/msgqueue.c`) with its linked
lists, swap and condition variables; `MinHeap` (`timer/minheap.c`) with arrays and back
indices, and the expiry loop of `timer/mh-timer.h`; `ThreadPool` (`threadpool/`) from the
first post to the last exit. `MsgCalls` and `PoolCalls` say of both what their callers see: the
messages and tasks named by the actions of a run, those given out, and which calls end.

`Bits` spells out the unsigned machine arithmetic, `Wrappers` an optional value.

## Findings

- `rte_ring_create` accepts a count of 0: `Bits.PowerOfTwoTest` shows that its test accepts
  0 and the powers of two, `RingSingle.RteRing.Create` that it makes the ring.
- The watermark branch of both enqueues computes `((mask + 1) - free_entries) + n`, one more
  than the entries in the ring afterwards, so EDQUOT is reported when the count *reaches* the
  watermark, counted from the consumer tail the call has read; the header documents it as
  exceeding it. The model follows the code (`RingTheorems.QuotaIsReached` for every run,
  `RingSingle.QuotaNotExceeded` for a ring of 8 with watermark 4).
- `timewheel.c` and `clock-timer.c` lose timers: see `WheelRuns.SomeTimersNeverFire` and
  `WheelRuns.ClockDelays` for concrete ones, `WheelRuns.FiresExactly` for all.
- In `timer/mh-timer.h` the handler runs before its entry is popped: if it adds an earlier
  entry, that one is popped without having run, and the one that has run stays. It goes right
  if and only if no added entry is earlier (`MinHeap.MinHeap.FireTop`, `ExpireTimer`;
  `MinHeap.EarlierEntryLost` has entries of times 5 and 3). If no handler adds an earlier one,
  every due entry runs exactly once (`MinHeap.EachOnce`).
- `subtract_aligned` does not advance its index while a borrow is left. It is exact if and
  only if the borrow stops at the first digit above the subtrahend, so 2^64 - 1 goes wrong
  (`Digits.SubtractionFails`); `divmod_assign` meets that condition whenever the quotient is
  less than 2^32.
- `compare` calls equal numbers of different exponents unequal, and `divmod_assign` then
  answers 0 (`BigInts.EqualNumbersDiffer`: 2^32 in one digit and in two). In `divmod_assign`
  that matters only if the dividend has the larger exponent. The lowest digit of the
  denominator in `fallback_format` *can* be zero, as for 10^31 shifted by one bit
  (`Dragon.LowestDigitZero`), but the numerator is then never equal to it: that would need 32
  factors of five in a 64-bit significand (`Dragon.NeverEqual`).
- In the shortest-digits branch of `fallback_format` the same comparison loses an even lower
  end of the range when exp10 / 32 < e / 32, because `lower` then has the larger exponent. What
  is written is always read back as the value. Shorter numbers are, too, if and only if that
  end is lost, has j decimal places for some j, and the whole range is narrower than one unit
  of that place (`EndIsShorter` in the contract of `Shortest.FallbackShortest`);
  8344650268554688 * 2^32 gets more than the four digits it needs (`LongerThanNeeded`).
- In the same branch a single `:` is written instead of digits if and only if 10^(exp10 + 1) is
  in the range and 9 * 10^exp10 is not or is farther from the value (`TenWins` in the same
  contract), as for the number next to 10^23 (`Shortest.ColonForTen`). `format_float`, the only
  caller, never asks for that branch.
- `zslDelete` takes out the first node of the given node's score, which is the one inserted
  last. It is the given node if and only if none of the same score has been inserted after it
  (`TimerList.DeletesNewest`, `TimerList.WrongNodeDeleted`).

## Model

| member | source | states |
|---|---|---|
| RingProtocol.StepKeepsInv | free_queue/rte_ring/rte_ring.h:435-505 | every step of any thread in an enqueue or dequeue, in any interleaving, keeps the invariant: indices in order and within mask, claims in flight tile the unpublished intervals, copied slots hold the claimed objects |
| RingProtocol.ClaimsDisjoint | free_queue/rte_ring/rte_ring.h:446-474 | two claims in flight on the same side never share an index |
| RingTheorems.ReachableStates | free_queue/rte_ring/rte_ring.h:446-504 | in every run: cons.tail <= cons.head <= prod.tail <= prod.head <= cons.tail + mask, the claims tile both intervals, and the dequeued objects are a prefix of the enqueued ones |
| RingTheorems.UniquePublisher | free_queue/rte_ring/rte_ring.h:489-503 | if any enqueue is in flight, exactly one of them may publish its tail |
| RingTheorems.UniqueReleaser | free_queue/rte_ring/rte_ring.h:656-671 | if any dequeue is in flight, exactly one of them may release its slots |
| RingTheorems.PublishIsEnqueue | free_queue/rte_ring/rte_ring.h:446-504 | publishing is an atomic append of the whole batch to the abstract queue, and the batch is all the objects of the call if the tail it has read left room for them, or else as many as fit |
| RingTheorems.TakeIsDequeue | free_queue/rte_ring/rte_ring.h:649-655 | a successful compare-and-set of a consumer is an atomic removal of its batch from the front |
| RingTheorems.OtherStepsLeaveQueue | free_queue/rte_ring/rte_ring.h:435-673 | no other step changes the abstract queue, so the calls are linearizable |
| RingTheorems.DequeueReturnsItsBatch | free_queue/rte_ring/rte_ring.h:649-673 | a dequeue returns exactly the objects it took at its compare-and-set |
| RingTheorems.QuiescentConservation | free_queue/rte_ring/rte_ring.h:435-673 | with no call in flight, enqueued objects are those dequeued plus those in the slots, in order |
| RingTheorems.NoBufsIsTruthful | free_queue/rte_ring/rte_ring.h:455-470 | -ENOBUFS is right about the room at the instant the consumer tail was read, even with a stale head; bulk calls are all or nothing |
| RingTheorems.NoEntIsTruthful | free_queue/rte_ring/rte_ring.h:633-648 | -ENOENT is right about the entries at the instant the producer tail was read |
| RingTheorems.SuccessfulClaimFits | free_queue/rte_ring/rte_ring.h:446-474 | a compare-and-set that succeeds claims everything asked for, or exactly the free entries computed if these are fewer, and no more than is free then |
| RingTheorems.QuotaIsReached | free_queue/rte_ring/rte_ring.h:446-486 | in every run, with watermarks changing at any time, an enqueue reports the quota exactly if the end of its claim, less the consumer tail it has read, is at least the watermark it has read; without a report, less than that watermark is left when it returns |
| RingTheorems.PowersDivide32 | free_queue/rte_ring/rte_ring.c:86-90 | the sizes the ring accepts divide 2^32, so a wrapped index names the same slot |
| RingTheorems.WrapCommutes | free_queue/rte_ring/rte_ring.h:446-474 | a step of the 32-bit machine on wrapped indices is the wrapped step of the unbounded machine |
| RingTheorems.CodeRefinesProtocol | free_queue/rte_ring/rte_ring.h:435-673 | the same for whole runs, results and history included |
| RingTheorems.CodeReturns | free_queue/rte_ring/rte_ring.h:435-673 | after such a run the next action returns the same from the 32-bit machine as from the unbounded one, the report about the watermark included |
| RingTheorems.CodeIsFifo | free_queue/rte_ring/rte_ring.h:435-673 | every run of the 32-bit ring returns objects in the order of the claims |
| RingCalls.EachInItsCall | free_queue/rte_ring/rte_ring.h:435-673 | in every run a thread stands at a point of the call that its own Enqueue or Dequeue action has begun, with the arguments given there, until that call returns |
| RingCalls.EnqueueReturns | free_queue/rte_ring/rte_ring.h:446-504 | in every run an enqueue that returns k has read, during this call, a consumer tail such that k is the number of its objects if these fit between the place they go to and that tail, or else the room; bulk calls put in all; and its return appends exactly the first k of its own objects |
| RingCalls.EnqueueRefuses | free_queue/rte_ring/rte_ring.h:455-470 | a refused enqueue changes nothing, and behind all claims there was no room, or for a bulk call too little |
| RingCalls.DequeueReturns | free_queue/rte_ring/rte_ring.h:624-673 | in every run a dequeue returns the oldest objects not yet given out, as many as it wants if the producer tail it has read during this call left so many, or else all up to that tail |
| RingCalls.DequeueRefuses | free_queue/rte_ring/rte_ring.h:633-648 | a refused dequeue changes nothing, and no objects, or for a bulk call too few, were published and unclaimed |
| RingCalls.FifoOfCalls | free_queue/rte_ring/rte_ring.h:435-673 | in every run, what dequeues have returned is a beginning of what the enqueues that have returned put in, and at most size - 1 objects are in between |
| RingCalls.AllAccounted | free_queue/rte_ring/rte_ring.h:435-673 | when every call has returned, the objects put in are those given out and those in the slots, in order |
| RingCalls.MarkIsLastSet | free_queue/rte_ring/rte_ring.c:120-131 | in every run the watermark is the last accepted value that a thread outside any call has set, the size for 0 and at first |
| RingCalls.CodeHasTheseCalls | free_queue/rte_ring/rte_ring.h:435-673 | under the same assumption on scheduling the 32-bit code is in the same calls and publishes and gives out the same objects |
| RingCalls.CodeFifoOfCalls | free_queue/rte_ring/rte_ring.h:435-673 | first in, first out and the bound for the calls of the 32-bit code |
| RingProgress.EnqueueAlone | free_queue/rte_ring/rte_ring.h:435-505 | begun after any run with no enqueue's claim in flight and left alone, an enqueue returns in its (k + 5)-th step with k == min(objects, room), or in its second with a refusal if and only if none, or for a bulk call not all, fit; the watermark is reported exactly if reached |
| RingProgress.DequeueAlone | free_queue/rte_ring/rte_ring.h:610-673 | the same for a dequeue, which returns exactly the oldest min(wanted, filled) objects |
| RingProgress.EveryCallCanReturn | free_queue/rte_ring/rte_ring.h:489-503 | after any run some schedule of further steps brings every call under way to its return |
| Bits.PowerOfTwoTest | free_queue/rte_ring/rte_ring.c:77-90 | the test x & (x-1) accepts 0 and the powers of two, and nothing else, over the whole range of the argument |
| Bits.AndMask | free_queue/rte_ring/rte_ring.h:363 | masking with 2^k - 1 is reduction modulo 2^k |
| RingSingle.GetPut | free_queue/rte_ring/rte_ring.h:360-407 | a dequeue from the head of an enqueue returns the same objects, for every head and size |
| RingSingle.GetBeforePut | free_queue/rte_ring/rte_ring.h:360-407 | writing behind a stretch of the ring leaves the stretch alone and extends it |
| RingSingle.RteRing.EnqueuePtrs | free_queue/rte_ring/rte_ring.h:360-381 | the unrolled, fall-through and split copy loops write object k to slot (head + k) & mask for all k and touch no other slot |
| RingSingle.RteRing.DequeuePtrs | free_queue/rte_ring/rte_ring.h:386-407 | the loops the other way read exactly those slots |
| RingSingle.RteRing.SpEnqueue | free_queue/rte_ring/rte_ring.h:530-584 | all objects join the end of the contents, or as many as fit for burst calls, or none, with the watermark report of the code |
| RingSingle.RteRing.ScDequeue | free_queue/rte_ring/rte_ring.h:699-740 | the front of the contents is returned and removed, all or nothing for bulk calls |
| RingPair.PairIsMulti | free_queue/rte_ring/rte_ring.h:530-584 | alone on its side, a call that stores its head and does not wait takes the same steps as one that compares and waits |
| RingPair.PairRunIsFresh | free_queue/rte_ring/rte_ring.h:530-584 | with one producer and one consumer nobody else moves a head that has been read, so no pause is too long |
| RingPair.PairIsFifo | free_queue/rte_ring/rte_ring.h:699-740 | one producer beside one consumer, 32-bit indices, every interleaving and any pauses: objects come out in order, and at most mask of them are inside |
| RingSingle.RteRing.Inspect | free_queue/rte_ring/rte_ring.h:1030-1084 | count, free count, full and empty agree with the contents at every 32-bit head |
| RingSingle.RteRing.SetWaterMark | free_queue/rte_ring/rte_ring.c:120-131 | values below the size are taken, 0 disables, others are refused |
| RingSingle.QuotaNotExceeded | free_queue/rte_ring/rte_ring.h:572 | in a new ring of 8 with watermark 4, after three objects, the fourth is reported as exceeding it |
| RingSingle.RteRing.constructor | free_queue/rte_ring/rte_ring.c:81-113 | an empty ring of the given count, also of the count 0 that the test lets through |
| RingSingle.RteRing.Create | free_queue/rte_ring/rte_ring.c:81-113 | a ring is made exactly for the count 0 and the powers of two up to the size limit; every other count is refused |
| RbTree.RbTree.Insert | timer/rbtree.c:24-93 | a valid red-black tree again with the node added to the in-order sequence; in an ordered window it comes behind all equal or earlier keys and before all later ones |
| RbTree.RbTree.Delete | timer/rbtree.c:156-319 | a valid red-black tree again, exactly this node gone from the in-order sequence, order kept, the node wiped |
| RbTree.RbTree.InsertTimerValue | timer/rbtree.c:122-152 | the node becomes a red leaf at the place the wrapped comparison leads to, equal keys to the right |
| RbTree.RbTree.Rebalance | timer/rbtree.c:46-92 | the insertion loop ends with a red-black tree of the same in-order sequence |
| RbTree.RbTree.DeleteFixup | timer/rbtree.c:250-318 | the deletion loop ends with a red-black tree of the same in-order sequence |
| RbTree.RbTree.InsertFixLeft | timer/rbtree.c:48-68 | one round at a left-hand parent keeps the loop invariant and the order |
| RbTree.RbTree.InsertFixRight | timer/rbtree.c:70-89 | one round at a right-hand parent keeps the loop invariant and the order |
| RbTree.RbTree.DeleteFixLeft | timer/rbtree.c:254-284 | one round at a left child keeps the loop invariant and the order, and makes progress |
| RbTree.RbTree.DeleteFixRight | timer/rbtree.c:286-315 | one round at a right child keeps the loop invariant and the order, and makes progress |
| RbTree.RbTree.LeftRotate | timer/rbtree.c:323-349 | the links a left rotation writes, and no others |
| RbTree.RbTree.RightRotate | timer/rbtree.c:353-379 | the links a right rotation writes, and no others |
| RbTree.RbTree.TurnLeft | timer/rbtree.c:323-349 | a left rotation turns the shape of the subtree and leaves the rest of the tree in place |
| RbTree.RbTree.TurnRight | timer/rbtree.c:353-379 | a right rotation turns the shape of the subtree and leaves the rest of the tree in place |
| RbTree.RbTree.Choose | timer/rbtree.c:166-184 | the node to unlink: the node itself if it has at most one child, otherwise the leftmost node behind it, with its only subtree |
| RbTree.RbTree.DetachSelf | timer/rbtree.c:198-210 | a node with at most one child is unlinked and its subtree hangs in its place, the sentinel's parent set if that is empty |
| RbTree.RbTree.DetachSuccessor | timer/rbtree.c:198-244 | the successor is unlinked and stands in the node's place with its colour and links |
| RbTree.RbTree.Min | timer/rbtree.h:74-82 | the first node of the in-order sequence, and in an ordered tree the earliest expiry, wherever the window of the keys starts |
| RbTree.RbTree.Next | timer/rbtree.c:383-408 | what follows the node in the in-order sequence, NULL behind the last |
| RbTree.WalkVisitsAll | timer/rbtree.c:383-408 | every walk from the minimum by next is a beginning of the in-order sequence, and next gives NULL exactly when all nodes have been visited |
| RbTree.RbTree.Traverse | timer/rbtree.c:383-408 | the walk from the minimum by next ends and visits every node once, in order |
| RbHeap.EarlierIsOffset | timer/rbtree.c:137-139 | in a window narrower than 2^31 the wrapped comparison is the order of circular offsets |
| RbHeap.InorderOnce | timer/rbtree.c:383-408 | the in-order sequence lists no node twice |
| RbHeap.Rotate | timer/rbtree.c:323-379 | a memory with the rotated links holds the rotated shape, wherever it hangs |
| RbShapes.RotKeeps | timer/rbtree.c:323-379 | a rotation keeps nodes and order |
| RbShapes.PlugRB | timer/rbtree.c:24-93 | colour rules of a subtree and of its path make those of the whole tree |
| RbFix.RecolorRules | timer/rbtree.c:51-55 | with a red uncle, recolouring moves the only violation two levels up |
| RbFix.InnerTurn | timer/rbtree.c:58-61 | an inner grandchild becomes an outer one, violation and order unchanged |
| RbFix.OuterTurn | timer/rbtree.c:63-65 | with a black uncle, recolouring and one rotation leave nothing to repair |
| RbFix.SiblingIsThere | timer/rbtree.c:254-262 | the sibling in the deletion loop is a node, never the sentinel |
| RbFix.RedSibling | timer/rbtree.c:257-262 | after the rotation the sibling is black and the same subtree lacks a black node |
| RbFix.BlackNephews | timer/rbtree.c:264-266 | after the sibling turns red the parent's subtree is what lacks a black node |
| RbFix.InnerNephew | timer/rbtree.c:269-274 | after the rotation of the sibling the outer nephew is red |
| RbFix.OuterNephew | timer/rbtree.c:276-280 | after the last rotation the whole tree satisfies the rules |
| RbSplice.UnlinkRules | timer/rbtree.c:198-248 | unlinking a red node breaks no rule, unlinking a black one leaves its subtree lacking one black node |
| RbSplice.TakePlace | timer/rbtree.c:221-244 | a node that takes over colour and links of another stands in its place in the shape |
| TimerList.ZSkipList.Insert | timer/skiplist.c:55-84 | the new node stands in front of those of its score and behind all lesser ones, on all levels below its height, and length and level are exact |
| TimerList.ZSkipList.Delete | timer/skiplist.c:119-137 | exactly the first node of the given score leaves all its levels, if there is one; length and level are exact |
| TimerList.ZSkipList.DeleteHead | timer/skiplist.c:92-105 | exactly the first node leaves all its levels; length and level are exact |
| TimerList.ZSkipList.Search | timer/skiplist.c:59-67 | on every level the last node of a lesser score, or the header |
| TimerList.ZSkipList.Min | timer/skiplist.c:86-90 | the first node, NULL in an empty list |
| TimerList.ZSkipList.Print | timer/skiplist.c:139-149 | following the bottom links `length` times meets every node and no NULL |
| TimerList.ZSkipList.LevelsAreRight | timer/skiplist.c:77-80 | following the links of a level meets exactly the nodes that reach it, in order; levels from `level` on are empty |
| TimerList.LevelsNest | timer/skiplist.c:77-80 | every level is a part of the level below, in the same order |
| TimerList.ChainPut | timer/skiplist.c:77-80 | linking a node in behind its predecessor on one level |
| TimerList.ChainTake | timer/skiplist.c:109-113 | unlinking a node behind its predecessor on one level, also if it is not on it |
| TimerList.DeletesNewest | timer/skiplist.c:119-137 | the node that is deleted is the given one if and only if none of its score has been inserted after it |
| TimerList.WrongNodeDeleted | timer/skiplist.c:119-137 | two nodes of one score: deleting the first deletes the second |
| TimerList.ZSkipList.constructor | timer/skiplist.c:17-29 | an empty list of level 1 |
| WheelRuns.FiresExactly | timer/timewheel.c:48-148 | in every run a timer of delay d >= 1 is dispatched exactly once, in the d-th tick, unless it is lost, and then never. Lost is said of time and expiry alone: 0x100 <= d < 0x4000 and expire / 0x100 % 64 == 0, and so on for the next two ranges; for the clock 60 <= d < 3600 and expire / 60 % 60 == 0. Covers the wrap of the time |
| WheelRuns.CallbackFiresExactly | timer/timewheel.c:119-148 | the same for a timer that a callback adds during a dispatch, its delay counted from the time of that tick |
| WheelRuns.ReachableQuiet | timer/timewheel.c:129-148 | between ticks the slot of the present tick is empty, in every run |
| WheelRuns.ShiftWaiting | timer/timewheel.c:84-116 | after a tick a waiting node is again in a slot where it will be found in time, and in the present slot exactly if its time has come |
| WheelRuns.RunProgress | timer/timewheel.c:84-148 | a waiting node keeps exactly the remaining ticks it should have until it is dispatched once |
| WheelRuns.RunDead | timer/timewheel.c:104-112 | a node in a slot of index 0 below the top level stays there for ever |
| WheelRuns.ShortAndLongDelays | timer/timewheel.c:49-64 | delays below 256 or from 2^26 on are always served |
| WheelRuns.SomeTimersNeverFire | timer/timewheel.c:95-116 | a delay of 256 ticks set at time 16128 is never served, in any run |
| WheelRuns.ClockDelays | timer/clock-timer.c:49-94 | the clock serves delays below a minute and from an hour on, over any number of half days; a concrete minute delay is lost |
| WheelRuns.ClockStays | timer/clock-timer.c:63-94 | a node of an hour or minute slot stays in a slot where it will be found in time, each visit with less time left |
| WheelRuns.ExecuteQuiet | timer/timewheel.c:130-139 | what is added while the lock is released for a dispatch never lands in the present slot |
| WheelDigits.Visit | timer/timewheel.c:95-116 | a slot is redistributed exactly in the tick in which the remaining time of its nodes is the part of their expiry below its level |
| WheelDigits.ClockVisit | timer/clock-timer.c:73-94 | the same for minute and hour slots, up to half days |
| WheelDigits.Redistributed | timer/timewheel.c:85-92 | a redistributed node never lands in a slot of index 0 below the top level |
| WheelDigits.ClockRedistributed | timer/clock-timer.c:63-70 | remapping never puts a node into minute[0] |
| TimeWheel.TimeWheel.RadixAddNode | timer/timewheel.c:49-64 | the shift-and-mask code appends the node to the slot for which FiresExactly is proved, and changes no other |
| TimeWheel.TimeWheel.ClockAddNode | timer/clock-timer.c:49-60 | the same for the clock |
| TimeWheel.TimeWheel.AddTimer | timer/timewheel.c:67-82 | expiry is delay plus time modulo 2^32; a delay of at most 0 runs the callback at once and links nothing; otherwise a new node is linked that was nowhere before |
| TimeWheel.TimeWheel.RadixShift | timer/timewheel.c:95-116 | the loop over the digits redistributes exactly the slot of the lowest digit that is not zero |
| TimeWheel.TimeWheel.ClockShift | timer/clock-timer.c:73-94 | the same for the clock face |
| TimeWheel.TimeWheel.DispatchList | timer/timewheel.c:119-127 | with callbacks and other threads cancelling nodes during the dispatch, a node is called exactly if its flag was clear at the start and no cancellation up to its turn names it |
| TimeWheel.CalledExactly | timer/timewheel.c:119-127 | a node of the list is called if and only if it has not been cancelled before the dispatch or before its turn |
| TimeWheel.CalledInOrder | timer/timewheel.c:119-127 | the calls are in the order of the list, each node at most once |
| TimeWheel.TimeWheel.TimerExecute | timer/timewheel.c:130-139 | the present slot is dispatched once, whatever is added meanwhile, and what is cancelled meanwhile before its turn is not called |
| TimeWheel.TimeWheel.TimerUpdate | timer/timewheel.c:142-148 | one tick of the model, with the callbacks of the nodes of both dispatches that are not cancelled when their turn comes |
| TimeWheel.TimeWheel.DelTimer | timer/timewheel.c:151-153 | the node is cancelled and no list changes |
| TimeWheel.TimeWheel.constructor | timer/timewheel.c:156-171 | empty lists at time 0 |
| Mpsc.StepKeepsInv | free_queue/MPSCQueue.h:88-129 | every step of any thread keeps the chain distinct, linked but for the links that somebody owes, and in order |
| Mpsc.ExactlyOnceInOrder | free_queue/MPSCQueue.h:88-129 | in every run the items recorded at the exchanges, which MpscCalls reads from the actions, come out once, in that order, and the dummy is in the chain at most once |
| Mpsc.ReturnedIsOldestAndFree | free_queue/MPSCQueue.h:103-127 | a returned node is the oldest item, has left the chain, and no thread is about to write its link |
| Mpsc.FalseIsJustified | free_queue/MPSCQueue.h:95-129 | Dequeue answers false only if at some instant since it began the queue was empty or an Enqueue was between its exchange and its link |
| Mpsc.AloneTakesOldest | free_queue/MPSCQueue.h:95-129 | with no Enqueue in between, Dequeue ends within eight steps with the oldest item if there is one |
| Mpsc.InitInv | free_queue/MPSCQueue.h:73-79 | the queue as constructed satisfies the invariant, for any number of producers |
| MpscCalls.EachCallOnce | free_queue/MPSCQueue.h:88-93 | in every run each Enqueue passes its exchange exactly once, with the node it was called with, before it returns |
| MpscCalls.FifoOfCalls | free_queue/MPSCQueue.h:88-129 | in every run the nodes of the calls that have passed their exchange, in that order, are those the answers returned followed by the items in the chain |
| MpscCalls.NextAnswer | free_queue/MPSCQueue.h:95-129 | with no Enqueue under way, a Dequeue on its own answers with the oldest node that none has answered with, or false if there is none |
| MpscCalls.EnqueueAlone | free_queue/MPSCQueue.h:88-93 | an Enqueue on its own takes three steps, and its node is then the last of the chain |
| SkipReaders.ReachableStates | atomic_lock/skiplist.h:450-499 | in every interleaving every level is strictly sorted and a part of the level below, and no reader loads a link that has not been stored |
| SkipReaders.StepKeepsInv | atomic_lock/skiplist.h:318-377 | every store of the writer and every load of a reader keeps the invariant |
| SkipReaders.AnswerIsRight | atomic_lock/skiplist.h:318-377 | the step with which a reader answers leaves the target it holds, which SkipCalls.EachAnswerIsRight shows to be the one asked for, and returns the least key at or behind it, or the last one before it, in the bottom list at that instant, shortcuts and early exit included |
| SkipReaders.WriterFinishes | atomic_lock/skiplist.h:476-499 | once its search is done, the stores of an insertion put its key on exactly the levels below the chosen height |
| SkipCalls.EachAnswerIsRight | atomic_lock/skiplist.h:318-377 | in every run each reader serves the last search it was started with, and its answer is right for that kind and target in the bottom list at the instant of its last load |
| SkipCalls.ContainsAnswers | atomic_lock/skiplist.h:502-509 | Contains answers true if and only if the key it was asked for was in the bottom list at the instant of its last load |
| SkipCalls.KeysOfRun | atomic_lock/skiplist.h:450-499 | in every run the bottom list holds exactly the keys handed to Insert, but for one whose insertion has not linked it there yet |
| SkipCalls.SearchAlone | atomic_lock/skiplist.h:318-377 | a search on its own answers, rightly, after at most one load for each level up to the height and one for each key |
| SkipModel.WalkMeetsAll | atomic_lock/skiplist.h:318-347 | following the links of a level meets all its keys in increasing order |
| SkipModel.PublishKeeps | atomic_lock/skiplist.h:490-496 | publishing a node on one level, behind its predecessor, keeps all levels ordered |
| SkipList.SkipList.Insert | atomic_lock/skiplist.h:450-499 | the search supplies the predecessors the writer machine starts from, the stores are its steps and leave its memory, the key is on exactly the chosen levels, and the predecessor cache describes the new node |
| SkipList.SkipList.FindLessThan | atomic_lock/skiplist.h:351-377 | the predecessor of the key on every level |
| SkipList.SkipList.UseCache | atomic_lock/skiplist.h:452-463 | under the test of the fast path the cache yields the predecessor of the key on every level |
| SkipList.PathsAgree | atomic_lock/skiplist.h:450-469 | the fast path leaves in the array what the full search would |
| SkipList.SkipList.constructor | atomic_lock/skiplist.h:424-447 | an empty list whose cache is in order |
| BigInts.BigInt.Assign | mysql-conn-pool/fmt/include/fmt/format-inl.h:1323-1331 | the value, in one or two digits |
| BigInts.BigInt.Multiply32 | mysql-conn-pool/fmt/include/fmt/format-inl.h:1279-1288 | the exact product for any number of digits |
| BigInts.BigInt.Multiply64 | mysql-conn-pool/fmt/include/fmt/format-inl.h:1290-1306 | the exact product with a 64-bit factor; the carry stays below 2^64 |
| BigInts.BigInt.ShiftLeft | mysql-conn-pool/fmt/include/fmt/format-inl.h:1335-1348 | the exact product with a power of two, whole digits in the exponent |
| BigInts.Compare | mysql-conn-pool/fmt/include/fmt/format-inl.h:1356-1370 | without leading zeros, the sign of the difference, and for equal numbers that of the difference of the exponents; with leading zeros the larger size counts as the larger number |
| BigInts.LeadingZeroMisleads | mysql-conn-pool/fmt/include/fmt/format-inl.h:1356-1359 | 1 with a leading zero counts as more than 2 |
| BigInts.AddCompare | mysql-conn-pool/fmt/include/fmt/format-inl.h:1373-1394 | the sign of lhs1 + lhs2 - rhs whenever the early exits do not apply, and without leading zeros despite them |
| BigInts.BigInt.Align | mysql-conn-pool/fmt/include/fmt/format-inl.h:1448-1457 | the same value with an exponent no larger than the other's |
| BigInts.BigInt.RemoveLeadingZeros | mysql-conn-pool/fmt/include/fmt/format-inl.h:1261-1265 | the same value without needless zeros |
| BigInts.BigInt.SubtractAligned | mysql-conn-pool/fmt/include/fmt/format-inl.h:1268-1277 | the exact difference if and only if the borrow stops at the first digit above the subtrahend |
| BigInts.EnoughDigits | mysql-conn-pool/fmt/include/fmt/format-inl.h:1461-1472 | a quotient below 2^32 makes the borrow stop |
| BigInts.BigInt.DivmodAssign | mysql-conn-pool/fmt/include/fmt/format-inl.h:1461-1472 | for every quotient that fits the int it is returned in: true quotient and remainder, unless the dividend equals the divisor and has the larger exponent, when the quotient is 0 |
| BigInts.EqualNumbersDiffer | mysql-conn-pool/fmt/include/fmt/format-inl.h:1356-1370 | 2^32 in one digit and in two: compare says -1, and the quotient is 0 |
| BigInts.BigInt.Square | mysql-conn-pool/fmt/include/fmt/format-inl.h:1416-1444 | the exact square for every number of digits whose double is an int; the column sum fits into 128 bits |
| BigInts.BigInt.AssignPow10 | mysql-conn-pool/fmt/include/fmt/format-inl.h:1397-1414 | 10^exp by repeated squaring, for every exponent for which the bit mask stays an int |
| Products.ColumnsAreProduct | mysql-conn-pool/fmt/include/fmt/format-inl.h:1423-1441 | the columns of digit products add up to the product of the values |
| Digits.SubExact | mysql-conn-pool/fmt/include/fmt/format-inl.h:1268-1277 | both directions of the exactness of the subtraction, on digits |
| Digits.SubtractionFails | mysql-conn-pool/fmt/include/fmt/format-inl.h:1268-1277 | a concrete subtraction, 2^64 - 1, whose borrow meets a zero digit and comes out wrong |
| Digits.FirstDifference | mysql-conn-pool/fmt/include/fmt/format-inl.h:1364-1367 | the first digits that differ decide the order |
| Dragon.FallbackFormat | mysql-conn-pool/fmt/include/fmt/format-inl.h:2313-2427 | the digits and the exponent are the value rounded to num_digits digits, ties to even, carry included; for num_digits == 0 one or nothing of the next power |
| Dragon.Prepare | mysql-conn-pool/fmt/include/fmt/format-inl.h:2329-2362 | value == numerator / denominator * 10^exp10 in all three branches, lower and upper are the distances to the boundaries, and no division meets the case that compare gets wrong |
| Dragon.TakeDigits | mysql-conn-pool/fmt/include/fmt/format-inl.h:2404-2409 | every digit is 0 to 9, and digits and remainder make up the numerator |
| Dragon.RoundLast | mysql-conn-pool/fmt/include/fmt/format-inl.h:2410-2426 | comparing twice the remainder rounds to the nearest, ties to even |
| Dragon.PropagateCarry | mysql-conn-pool/fmt/include/fmt/format-inl.h:2412-2423 | moving overflows up changes only the position of the decimal point |
| Dragon.NoDigits | mysql-conn-pool/fmt/include/fmt/format-inl.h:2395-2400 | zero digits round to one or nothing of the next power, a tie to nothing |
| Dragon.NearestIsUnique | mysql-conn-pool/fmt/include/fmt/format-inl.h:2410-2426 | the rounded value is determined by the promise alone |
| Dragon.NeverEqual | mysql-conn-pool/fmt/include/fmt/format-inl.h:2334-2343 | with a binary exponent of 32 or more no decimal multiple of a 64-bit significand is a power of ten |
| Dragon.LowestDigitZero | mysql-conn-pool/fmt/include/fmt/format-inl.h:2341-2343 | the digits of 10^31 shifted by one bit start with a zero |
| Shortest.FallbackShortest | mysql-conn-pool/fmt/include/fmt/format-inl.h:2363-2392 | nothing shorter is in the range the code computes from f, e and exp10, and nothing of the same length is nearer, ties to even; the digits are digits if and only if ten is not the nearest; what is written is read back as the value, and it is the shortest such number if and only if the lower end is not a lost shorter decimal |
| Shortest.ShortestDigits | mysql-conn-pool/fmt/include/fmt/format-inl.h:2369-2393 | the loop ends, with the shortest and nearest number between the boundaries |
| Shortest.LastDigit | mysql-conn-pool/fmt/include/fmt/format-inl.h:2376-2383 | low and high choose the only neighbour in the range, or the nearer of both |
| Shortest.LowTells | mysql-conn-pool/fmt/include/fmt/format-inl.h:2371 | compare(numerator, lower) - even < 0 tells whether the digits are in the range, but for an even lower end when the exponents differ |
| Shortest.EndExactly | mysql-conn-pool/fmt/include/fmt/format-inl.h:2371 | with the even ends put back, shorter numbers than those written exist if and only if the lower end was lost and is a decimal with j places in a range narrower than one unit of the j-th place |
| Shortest.LongerThanNeeded | mysql-conn-pool/fmt/include/fmt/format-inl.h:2371 | a concrete number for which four digits would do and more are written |
| Shortest.ColonExactly | mysql-conn-pool/fmt/include/fmt/format-inl.h:2374-2383 | the digit after 9 is written, as a colon, if and only if ten is in the range and nine is not or is farther from the value |
| Shortest.ColonForTen | mysql-conn-pool/fmt/include/fmt/format-inl.h:2374-2376 | a concrete number whose shortest decimal is the next power of ten, written as a colon |
| MsgQueue.StepKeepsInv | free_queue/msgqueue.c:65-117 | every step keeps the two linked lists, also while get_head and put_head name the same list |
| MsgQueue.InOrderAndBounded | free_queue/msgqueue.c:65-117 | in every run the messages recorded as linked, which MsgCalls reads from the actions, leave in that order, and at most 2 * maxlen are pending |
| MsgQueue.TakesOldest | free_queue/msgqueue.c:102-117 | a message taken is the oldest one pending |
| MsgQueue.NobodyOverslept | free_queue/msgqueue.c:65-100 | no wakeup is lost: a sleeping producer finds the list full, a sleeping consumer finds it empty unless a signal is still to come |
| MsgQueue.PathAppend | free_queue/msgqueue.c:95-97 | storing through the tail pointer appends to the linked list |
| MsgQueue.InitInv | free_queue/msgqueue.c:119-150 | the queue as created satisfies the invariant |
| MsgCalls.EachPutOnce | free_queue/msgqueue.c:85-100 | in every run each put hands over the message it was called with, once, as it leaves its critical section |
| MsgCalls.FifoOfCalls | free_queue/msgqueue.c:65-117 | in every run the messages of the puts that have left their critical section are those the gets have returned, in order, and at most 2 * maxlen pending ones; no get returns without a message |
| MsgCalls.PutAlone | free_queue/msgqueue.c:85-100 | a put that finds room ends after three steps with its message last |
| MsgCalls.GetAlone | free_queue/msgqueue.c:102-117 | a get with a message pending returns the oldest one within four steps, swap included |
| MsgCalls.GetResumes | free_queue/msgqueue.c:73-74 | a get that sleeps while messages are pending has a signal to come, and returns the oldest message after it |
| MsgCalls.PutResumes | free_queue/msgqueue.c:76-83 | a put that sleeps on a full list is woken by the swap and then puts its message |
| MinHeap.MinHeap.Push | timer/minheap.c:13-19 | heap order, indices and entries after an insertion; an entry that is not earlier leaves the top in place |
| MinHeap.MinHeap.Pop | timer/minheap.c:21-31 | the top entry is removed and its index is -1 |
| MinHeap.MinHeap.Erase | timer/minheap.c:38-57 | exactly this entry is removed, wherever it is, and its index is -1 |
| MinHeap.MinHeap.Adjust | timer/minheap.c:59-73 | after a change of one time the heap is in order again |
| MinHeap.MinHeap.Top | timer/minheap.c:11 | an entry that no other precedes |
| MinHeap.OneDirection | timer/minheap.c:44-48 | a replaced entry never needs to move both up and down |
| MinHeap.MinHeap.ShiftUp | timer/minheap.c:103-113 | from an entry that may be too early for its place to a heap of the same entries |
| MinHeap.MinHeap.ShiftUpUnconditional | timer/minheap.c:91-101 | the same with the first comparison already made |
| MinHeap.MinHeap.ShiftDown | timer/minheap.c:115-127 | from an entry that may be too late for its place to a heap of the same entries |
| MinHeap.MinHeap.Reserve | timer/minheap.c:75-89 | the capacity doubles, from 8 on, or is what is asked for; the entries stay |
| MinHeap.MinHeap.FireTop | timer/mh-timer.h:73-83 | the entry popped after the handler has run is the one that was run if and only if the handler has added no earlier one |
| MinHeap.MinHeap.ExpireTimer | timer/mh-timer.h:73-83 | the loop runs due entries only, ends with nothing due, keeps account of every entry, pops none twice, in each round pops what it has run if and only if the handler added nothing earlier, and after such a round the next entry is not earlier |
| MinHeap.EachOnce | timer/mh-timer.h:73-83 | if no handler adds an entry earlier than its own, every due entry runs exactly once, in the order of the times, and is popped in its round |
| MinHeap.EarlierEntryLost | timer/mh-timer.h:73-83 | the handler of an entry of time 5 adds one of time 3: that one is popped without having run |
| MinHeap.TopIsEarliest | timer/minheap.c:11 | heap order makes the first entry the earliest |
| ThreadPool.StepKeepsInv | threadpool/blockingqueue.h:18-50 | every post, check, finish, wakeup and the cancellation keep the accounting of the tasks and the sleepers |
| ThreadPool.Drained | threadpool/threadpool.cc:15-36 | when the last worker has left, every task posted by anybody has run exactly once, and the queue is empty |
| ThreadPool.NoneOverlooked | threadpool/blockingqueue.h:18-50 | nobody sleeps after the cancellation, and before it, at least as many workers are about to check as there are tasks overlooked by sleepers |
| PoolCalls.TasksOfRun | threadpool/threadpool.cc:15-36 | in every run the tasks that the actions post are those the workers have taken up, in order, and those in the queue; when the last worker has left, every task posted by any action has been taken up and finished exactly once |
| PoolCalls.WorkerTakes | threadpool/blockingqueue.h:26-43 | a worker that checks a queue with tasks takes up the first and finishes it |
| PoolCalls.WorkersLeave | threadpool/threadpool.cc:15-36 | after the cancellation, from every state, checks and finishes of the workers alone bring all of them to their end |

## Left out

- Memory orders weaker than sequential consistency, cache alignment, allocation failure, clocks and random sources: atomics are interleaved one at a time, heights and times are parameters.
- Zero-length enqueues and dequeues of the ring, which the header excludes; enqueues and dequeues on the ring of count 0.
- RingSingle.RteRing.SpEnqueue: one call at a time on an array; RingPair has the steps of such calls interleaved with a consumer's.
- RingSingle.RteRing.ScDequeue: likewise.
- RingTheorems.CodeRefinesProtocol: assumes that no thread sleeps across a full 2^32 index cycle between reading a head and its compare-and-set; the code does not detect that either.
- `ngx_rbtree_insert_value`, which differs from the timer variant by one unsigned comparison.
- An uninitialised `cancel` of `timewheel.c` is taken as 0; nodes are not reused after they are freed.
- WheelRuns.ClockDelays: runs of the clock wheel in which its 32-bit time overflows; the radix wheel is proved across the overflow.
- Slot lists of the wheels are sequences: the links through which the code walks them are not modelled.
- The non-intrusive MPSC queue, which is the intrusive protocol without the dummy, and the destructors.
- Iterators, FindLast and EstimateCount of the concurrent skip list, and nodes as memory: a node is named by its key.
- Dragonbox, Grisu and the rest of the formatting library.
- Dragon.FallbackFormat: assumes a value below 10^(exp10 + 1), which the caller's estimate of the exponent has to provide, and a significand below 2^62, so that the shift does not overflow.
- Shortest.FallbackShortest: assumes the same; its two results with a concrete number are about the branch itself, since no caller reaches it.
- BigInts.BigInt.DivmodAssign: quotients of 2^32 and more, for which a borrow may have to travel further than `subtract_aligned` lets it; the int that counts the quotient overflows before that.
- BigInts.BigInt.AssignPow10: exponents of 2^30 and more, for which the code's int bit mask overflows.
- BigInts.BigInt.Square: numbers with 2^30 digits and more; twice that many is not an int.
- `msgqueue_set_nonblock`, and queues with maxlen 0. Critical sections under `put_mutex` are single steps, and only the holder of `get_mutex` is a consumer.
- Handlers of the heap's `expire_timer` are the lists of entries they add; the circular comparison it does not have is not modelled.
- Posts from outside once the destructor of the thread pool has started, `BlockingQueuePro`, and the joining itself.
- `mempool`, the MySQL pools, `network_buffer_design`, `network_timer`, `ringbuffer.h`, `LockedQueue.h`, `ProducerConsumerQueue.h` and `shared_ptr.h`.
