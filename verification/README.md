# Verification of libcn

libcn is an event library in C with the structure of nginx: a timer tree, connection slots that are
recycled, posted events, an accept mutex between worker processes, pools, and small containers. This
project models its core in Dafny and proves what the C code relies on.

- `RbSpec`, `RbTree`: the red-black tree, on nodes with parent pointers and one shared sentinel whose
  own parent pointer deletion uses for a while. The invariant is local to each node (its links, its
  place and its span in a ghost in-order sequence, its black height); it is then shown to mean what
  a textbook says on inductive trees. The parent pointer of the root is never part of it.
- `TimerSpec`, `Timers`: the timer queue refines an ordered sequence of deadlines. Keys are 64-bit and
  compared by wrapping signed difference, handlers may arm and delete timers while the queue expires,
  and the window in which keys are comparable follows the clock.
- `AcceptMutex`: workers as interleaved steps on one lock word. A step reads or writes the lock word at
  most once; results of epoll_ctl, arriving events and how handlers change the number of free slots are
  inputs.
- `ConnSpec`, `PostOrder`, `Connections`: connection slots, posted queues, timer membership, instance bits and the
  interest list of the kernel as one machine. `ConnSpec` gives the invariant and each operation as a function
  on states; `Connections` has the operations as methods that perform the steps of the code, keep the
  invariant and compute that function. Handlers are arbitrary sequences of operations. A ghost time of the last
  marking of each slot says which reusable connections are the oldest, and `PostOrder` follows a batch through
  the posted queues.
- `PoolSpec`, `Pool`, `PoolArray`, `PoolClient`: the pool allocator, the growable array, and any number of
  arrays and other allocations side by side in one pool over any sequence of calls. `PoolSpec` gives the
  calls as functions; the methods compute them and keep all pieces apart. Addresses are integers, and
  the answers of the system allocator are parameters.
- `Queue`: the intrusive circular list and its stable insertion sort, by pointer surgery.
- `Calendar`: the conversion of seconds to a date, against a calendar that counts years and months.

Four properties hold only under a condition, and for each of them there is a run that breaks it:

- A worker that skips the try-lock because accept_disabled is positive keeps waiting on a listener it armed
  before, beside the owner of the lock (`AcceptMutex.SkippingWorkerListensToo`). A waiting worker with an armed
  listener owns the lock exactly when its iteration went through the try-lock.
- An array created with capacity 0 does not gain room by a push unless it can grow in place, because the
  capacity is doubled; its element then gets bytes that palloc hands out again
  (`PoolArray.PushWithoutCapacity`). A push has room exactly when the capacity is positive or the storage can
  grow in place, which `PoolArray.Array.Push` states.
- A report of epoll_wait for a slot that a handler has had issued twice since passes the instance check and
  reaches the wrong connection (`Connections.StaleReportPasses`). A report passes exactly when its slot is
  open and was issued an even number of times since; in POST_EVENTS mode it was never issued since, and a
  worker that owns the accept mutex is in that mode (`AcceptMutex.PostsIffOwns`).
- pfree of an empty allocation may free a large region that shares its address
  (`PoolClient.PfreeFreesAnother`). pfree of an allocation that is not empty frees nothing else
  (`Pool.Pool.OneLarge`).

`dafny verify dfyconfig.toml` checks the whole project.

## Model

| member | source | states |
|---|---|---|
| RbSpec.DiffIsOffset | rbtree.c:106-137 | the wrapping signed difference of two 64-bit keys is the difference of their distances from a base, when both lie within 2^63 of it |
| RbSpec.BeforeIsLess | rbtree.c:82-137 | on such keys both insertion comparisons are the strict part of a total preorder: that of the distances for timers, that of the values otherwise |
| RbSpec.BoundaryExists | rbtree.c:82-137 | an ordered tree has exactly a place for each key: after every key not greater, before every greater one |
| RbSpec.InsertKeepsSorted | rbtree.c:82-137 | inserting a key at that place keeps the in-order keys ordered |
| RbSpec.SizeBound | rbtree.c:140-303 | a tree of black height h has at least 2^h - 1 nodes |
| RbSpec.HeightBound | rbtree.h:29-37 | 2^height <= (n + 1)^2 for every red-black tree of n nodes |
| RbTree.Tree.constructor | rbtree.h:5-9 | an initialised tree is valid and empty |
| RbTree.Tree.LeftRotate | rbtree.c:306-333 | keeps every parent link and the in-order sequence, and moves exactly the links of one left rotation |
| RbTree.Tree.RightRotate | rbtree.c:336-363 | the mirror image |
| RbTree.Tree.FindSlot | rbtree.c:82-137 | the descent ends at an empty place, and it is the one after every key not greater and before every greater key |
| RbTree.Tree.InsertLeaf | rbtree.c:82-137 | attaches the node as a red leaf at that place; all rules hold but one: its parent may be red |
| RbTree.Tree.RecolorUp | rbtree.c:39-43 | with a red uncle the only possible violation moves to the grandparent |
| RbTree.Tree.InnerLeft | rbtree.c:46-49 | the inner rotation leaves the violation at the old parent, now an outer child |
| RbTree.Tree.OuterRight | rbtree.c:51-53 | recolouring and the outer rotation remove the violation |
| RbTree.Tree.InnerRight | rbtree.c:66-69 | mirror image of InnerLeft |
| RbTree.Tree.OuterLeft | rbtree.c:71-73 | mirror image of OuterRight |
| RbTree.Tree.Rebalance | rbtree.c:34-78 | terminates with a valid tree from any tree whose only violation is a red node under a red parent |
| RbTree.Tree.Insert | rbtree.c:11-79 | the tree stays valid and its in-order sequence is the old one with the node placed after every key not greater, so equal keys keep their order of insertion |
| RbTree.Tree.Min | rbtree.h:29-37 | the leftmost node of a subtree, which is the first one in order, after fewer steps than the height; from the root of a valid tree of n nodes 2^(steps + 1) <= (n + 1)^2, so fewer than 2 log2(n + 1) steps |
| RbTree.Tree.Next | rbtree.c:365-390 | the successor in the in-order sequence, and null after the last node |
| RbTree.Tree.Victim | rbtree.c:150-166 | the node to unlink is the given one or its successor, and has at most one child |
| RbTree.Tree.DropRoot | rbtree.c:168-179 | removing a root with at most one child leaves a valid tree without it, whatever its old parent pointer says |
| RbTree.Tree.Splice | rbtree.c:181-200 | cuts a node with one child out of the order; the tree is valid if it was red, and otherwise lacks one black node on exactly the paths through its replacement, whose parent link is right even if it is the sentinel |
| RbTree.Tree.ReplaceNodes | rbtree.c:203-225 | the successor takes over all links, the colour and the place of the removed node |
| RbTree.Tree.Replace | rbtree.c:194-226 | that takeover keeps the tree valid, or short of one black node at the same place as before |
| RbTree.Tree.PushUp | rbtree.c:252-254 | a black sibling with black children is painted red and the shortage moves to the parent |
| RbTree.Tree.RedSiblingLeft | rbtree.c:245-250 | after one rotation the sibling is black and the shortage is where it was |
| RbTree.Tree.FarBlackLeft | rbtree.c:257-262 | a rotation at the sibling makes its far child red |
| RbTree.Tree.FarRedLeft | rbtree.c:264-268 | recolouring and one rotation end the shortage |
| RbTree.Tree.RedSiblingRight | rbtree.c:274-279 | mirror image of RedSiblingLeft |
| RbTree.Tree.FarBlackRight | rbtree.c:286-291 | mirror image of FarBlackLeft |
| RbTree.Tree.FarRedRight | rbtree.c:293-297 | mirror image of FarRedLeft |
| RbTree.Tree.Fixup | rbtree.c:240-302 | terminates with a valid tree from any tree that is short of one black node at one place, the sentinel included |
| RbTree.Tree.Delete | rbtree.c:140-303 | the tree stays valid and its in-order sequence is the old one minus exactly the deleted node, whose links and key are cleared |
| RbTree.Tree.ReflectsRules | rbtree.c:140-303 | the pointer invariant means equal black heights and no red node with a red child, as stated on an ordinary inductive tree |
| RbTree.Tree.ReflectsOrder | rbtree.c:365-390 | the in-order sequence of that inductive tree is the sequence the invariant speaks of |
| RbTree.Tree.IsRedBlack | rbtree.c:140-303 | a valid tree is a red-black tree with a black root, and has height at most 2 log2(n + 1) |
| TimerSpec.ApplyAllKeeps | event_timer.c:99-140 | whatever a handler adds or deletes, the armed timers stay ordered, and the due ones change only by deletions and postponements when it only adds deadlines after now |
| TimerSpec.DueApply | event_timer.c:112-140 | lazy re-arming, which leaves an expired timer where it is, does not add or reorder due timers |
| TimerSpec.FirstIsEarliest | event_timer.c:21-38 | the first timer is the circularly earliest one |
| TimerSpec.NoneDue | event_timer.c:55-61 | if the first timer is not due, no timer is |
| TimerSpec.FireStep | event_timer.c:63-69 | one turn removes the first due timer, and its handler can only strike others from the list of due ones, so the list of due timers gets shorter with each turn, lazily re-armed ones included: the loop ends |
| TimerSpec.FiredSubsequence | event_timer.c:41-71 | what fires is a subsequence of the due timers in deadline order, equal ones first in, first out |
| TimerSpec.UntouchedFires | event_timer.c:41-71 | a due timer that no handler touches fires |
| TimerSpec.Rebase | rbtree.c:106-137 | when all deadlines are after now, they are ordered from now on: the window follows the clock |
| TimerSpec.ApplyMeans | event_timer.c:99-140 | in the sequence model as well, event_del_timer disarms one timer and event_add_timer arms it at the new deadline, or leaves it where it is within 300 ms, and no other timer is touched |
| TimerSpec.ApplyAllLaws | event_timer.c:69-69 | the operations of a handler take effect one after the other |
| TimerSpec.LiveLaws | event_timer.c:41-71 | clock advances, calls and expiries take effect one after the other |
| Timers.TimerQueue.constructor | event_timer.c:12-18 | no timer is armed |
| Timers.TimerQueue.DelTimer | event_timer.c:99-110 | the armed timers are the old ones without this one, in the same order |
| Timers.TimerQueue.Arm | event_timer.c:136-139 | the timer comes after every deadline not later than its own |
| Timers.TimerQueue.AddTimer | event_timer.c:112-140 | the event is armed; its key is the old one if it was armed and the new deadline is less than 300 ms from it by wrapping difference, and otherwise exactly now + timer modulo 2^64; all other armed timers keep their keys and their order. For deadlines within a window shorter than 2^63 the armed timers are those of the sequence model |
| Timers.TimerQueue.FindTimer | event_timer.c:21-38 | max(0, earliest deadline - now), at most the wait for any armed timer, or TIMER_INFINITE exactly when none is armed |
| Timers.TimerQueue.NoTimersLeft | event_timer.c:74-97 | 0 exactly when every armed timer is cancelable, and otherwise the error |
| Timers.TimerQueue.Perform | event_timer.c:99-140 | one call of the interface does to the tree what it does to the sequence model |
| Timers.TimerQueue.Fire | event_timer.c:63-69 | fires the first timer and leaves what its handler makes of the others |
| Timers.TimerQueue.NextDue | event_timer.c:49-61 | the first timer if it is due; otherwise every deadline is after now |
| Timers.TimerQueue.ExpireTimers | event_timer.c:41-71 | terminates under any handlers that delete timers or add deadlines after now, fires exactly the sequence the model says, and leaves only deadlines strictly after now |
| Timers.TimerQueue.Run | event_timer.c:41-140 | over any sequence of clock advances, calls and expiries in which no deadline is armed 2^63 ms or more after the last expiry, the queue stays ordered and what fires is what the model says |
| Timers.TimerQueue.RunFromStart | event_timer.c:12-18 | from an empty queue this holds at any time, with no assumption about a window |
| AcceptMutex.StepKeepsWorker | event.c:86-138 | each step of a worker keeps the relation between its program counter, its flags and its ownership, and changes the lock word only from free to its pid or from its pid to free |
| AcceptMutex.StepKeepsInv | event_accept.c:126-151 | a step of any one worker keeps the invariant of all of them |
| AcceptMutex.RunKeepsInv | event.c:86-138 | so does every interleaving of any number of workers |
| AcceptMutex.MutualExclusion | event_accept.c:126-151 | a worker that went through the try-lock and waits with its listener armed owns the lock, so at most one such worker waits on the listener |
| AcceptMutex.OwnsIffTried | event.c:100-118 | a worker that waits on an armed listener owns the lock if and only if its iteration went through the try-lock |
| AcceptMutex.PostsIffOwns | event.c:105-123 | a worker waits and dispatches with POST_EVENTS if and only if it owns the lock |
| AcceptMutex.LockIsConfined | event.c:127-137 | no worker owns the lock while it expires timers, handles ordinary posted events or ends an iteration; accept_mutex_held is "listener armed" between steps |
| AcceptMutex.NeverOrphaned | shmtx.c:52-59 | an owner to which nothing more happens gives the lock back within eight steps of its own, wherever it stands |
| AcceptMutex.LockHasOwner | shmtx.c:22-25 | in every reachable state a taken lock has such an owner |
| AcceptMutex.GetsLock | shmtx.c:22-25 | from any reachable state with a free lock, four steps of a fresh worker make it the owner and arm its listener |
| AcceptMutex.AcceptsMany | event_accept.c:30-123 | n connections accepted in a row take n slots and leave accept_disabled at an eighth of all slots minus those free at the last one |
| AcceptMutex.SkipsExactly | event.c:101-102 | with accept_disabled at d > 0 a worker skips the try-lock in exactly its next d iterations, each of which lowers accept_disabled by one, and goes through it in the one after, when it accepts nothing and meets no file limit |
| AcceptMutex.TooManyFiles | event_accept.c:45-60 | too many open files, from any reachable state: in two steps the worker has given back the lock if it owned it, its listener is disarmed, accept_disabled is 1, and no other worker has changed |
| AcceptMutex.ServesAndSkips | event_accept.c:63-63 | an owner that accepts 449 connections of 512 at once, which makes accept_disabled positive, unlocks and skips the lock in its next iteration, listener still armed |
| AcceptMutex.SkippingWorkerListensToo | event.c:100-118 | a reachable state in which two workers wait on the listener, one of them having skipped the try-lock: the qualification in MutualExclusion is needed |
| ConnSpec.Popped | connection.c:288-289 | taking the head off the free list leaves the list threaded through `data` |
| ConnSpec.Pushed | connection.c:321-325 | so does putting a slot at its head |
| ConnSpec.Issued | connection.c:277-315 | the head of the free list is linked nowhere, so clearing its memory breaks no list, and flipping the instance bit keeps it the parity of the number of issues |
| ConnSpec.Released | connection.c:362-373 | a slot that is linked nowhere may go back to the free list |
| ConnSpec.Changed | connection.c:266-392 | a change to one issued slot and its own links keeps all other slots in order |
| ConnSpec.SlotLinks | connection.c:266-392 | what the invariant says: free slots are those without a descriptor and in no tree or queue and not watched; for the others timer_set, posted, reusable and active each say exactly what the event is linked into, with at most one posted queue |
| ConnSpec.ClosingFlags | epoll_event.c:137-140 | with CLOSE_EVENT on a connection that stays open the active flags say what the kernel watches if and only if those cleared were clear before |
| ConnSpec.KeepsWatch | epoll_event.c:71-171 | changing the active flags together with the interest of the kernel keeps them equal |
| ConnSpec.LongestAgo | connection.c:377-414 | the slots at the tail of the reuse queue are as many reusable connections as that, and are the ones marked longest ago |
| ConnSpec.OpsMean | connection.c:266-414 | what each operation is for, said of the state it leaves: which slot is issued or closed, what is marked, which tree or queue gains or loses what |
| ConnSpec.WatchesMean | epoll_event.c:71-218 | the same for what is watched: which active flags and which trigger mode an accepted registration leaves, and that a refused one changes nothing |
| ConnSpec.ApplyAllLaws | connection.c:266-414 | the operations of a handler take effect one after the other |
| ConnSpec.HandlerInTurn | event_posted.c:9-17 | the k-th handler of a posted queue runs in the state in which the event at its head, and only that one, has left it and is no longer posted |
| ConnSpec.ReportInTurn | epoll_event.c:257-324 | a report whose slot is open in the reported instance has its read half handled and then, in the state that leaves, its write half; any other report does nothing; the calls made are those of the halves |
| Connections.Cycle.constructor | event.c:189-231 | the free list runs through all slots, in a state where the invariant holds, whatever the fresh memory contained |
| Connections.Cycle.Counters | connection.c:288-325 | free_connection_n and reusable_connections_n are the numbers of slots without a descriptor and of reusable ones |
| Connections.Cycle.Issue | connection.c:288-315 | hands out the head of the free list with cleared memory and the other instance bit |
| Connections.Cycle.GetConnection | connection.c:266-318 | fails exactly when the free list and the reuse queue are both empty; otherwise hands out the head of the free list, or, after a drain, the slot marked reusable latest of those released |
| Connections.Cycle.CloseConnection | connection.c:333-374 | takes the slot out of both timers, both posted queues, the reuse queue and the interest list and puts it at the head of the free list; nothing happens to a closed one |
| Connections.Cycle.ReusableConnection | connection.c:377-392 | the connection is in the reuse queue exactly when it is marked reusable, and then at its head with the latest time of marking; all others keep theirs, and the invariant has these times fall strictly from head to tail |
| Connections.Cycle.DrainConnections | connection.c:395-414 | of the R connections in use that are reusable it releases exactly min(R, max(1, min(32, R/8))), each of them marked reusable before every reusable one that stays; no other slot changes |
| Connections.Cycle.CloseReusable | connection.c:408-412 | one turn of the drain marks the last connection of the reuse queue `close` and closes it; it becomes the head of the free list, and no other slot changes |
| Connections.Cycle.Abandon | event_accept.c:202-212 | a slot handed out and given up at once goes back to the free list |
| Connections.Cycle.PostEvent | event_posted.h:5-9 | appends to the chosen queue unless the event is in a queue already |
| Connections.Cycle.DeletePosted | event_posted.h:11-13 | removes the event from the queue it is in |
| Connections.Cycle.AddTimer | event_timer.c:112-140 | timer_set is set with the membership in the tree (the deadline is the subject of Timers.TimerQueue.AddTimer) |
| Connections.Cycle.DelTimer | event_timer.c:99-110 | timer_set is cleared with it |
| Connections.Cycle.AddEvent | epoll_event.c:71-121 | the kernel never finds the ADD or MOD chosen invalid unless the event was active already and the other one was not; the bits it then watches are the active flags and it triggers as the call says, and a failed call changes nothing |
| Connections.Cycle.DelEvent | epoll_event.c:142-170 | the same for MOD and DEL |
| Connections.Cycle.AddConnection | epoll_event.c:174-188 | watches both directions if the kernel agrees, and reports nothing otherwise |
| Connections.Cycle.DelConnection | epoll_event.c:207-218 | watches nothing any more, or fails and changes nothing |
| Connections.Cycle.HandleEvent | event.c:273-281 | afterwards the event is active or ready, unless the kernel refused |
| Connections.Cycle.SendLowat | connection.c:435-449 | sets the mark once, and fails exactly when it has to be set and the system refuses |
| Connections.Cycle.HandleWriteEvent | event.c:283-303 | succeeds exactly when the mark, if asked for, is set and the event is active or ready or gets registered |
| Connections.Cycle.Perform | connection.c:266-414 | every operation, in any state, keeps the invariant and does what the transition function of the model says |
| Connections.Cycle.Run | connection.c:266-414 | so does every sequence of operations; operations that withdraw nothing only append to the posted queues |
| Connections.Cycle.NextPosted | event_posted.c:12-15 | the event about to be handled belongs to an open connection in the issue it was posted for |
| Connections.Cycle.ProcessPosted | event_posted.c:5-19 | terminates when the handlers stop posting to the queue, handles the head of the queue at each turn, never for a slot released since the event was posted, and handles what was queued first in order unless a handler withdraws some of it |
| Connections.Cycle.DispatchRead | epoll_event.c:285-301 | exactly when the event is active and reported, ready is set, pending_eof on EPOLLRDHUP, and then the event is posted or its read handler runs; otherwise nothing changes |
| Connections.Cycle.DispatchWrite | epoll_event.c:303-323 | the same for the write event, after a second look at the slot |
| Connections.Cycle.Dispatch | epoll_event.c:257-324 | a report passes exactly when its slot is open and was issued an even number of times since the batch was fetched |
| Connections.Cycle.ProcessEvents | epoll_event.c:257-327 | over a whole batch with any handlers exactly the calls of the model are made, and none for a slot reissued an odd number of times; in POST_EVENTS mode no handler runs, no slot is issued or released, every active event reported is ready and posted, and the queues are the old ones followed by exactly the newly posted events: the read events of listening slots in the accept queue, all others in the other one, each in batch order, read before write |
| Connections.Cycle.FireTimer | event_timer.c:63-69 | an expiring timer belongs to an open connection; its handler runs in the state in which the timer has left the tree, timer_set is cleared and timedout is set |
| Connections.Cycle.ExpireTimers | event_timer.c:41-71 | over any list of expiring timers, exactly those still set at their turn have their handlers called, in order, each for an open connection with timedout set; the others do nothing |
| PostOrder.Ends | epoll_event.c:293-319 | when events are posted the new members of both queues are exactly those woken by the batch and not posted before, each placed by the first report that woke it |
| PostOrder.Batch | epoll_event.c:257-324 | report by report the two queues grow by just these events |
| Connections.Cycle.Iterate | event.c:100-137 | nothing happens after a failed try-lock, and timers are expired only when time has passed, between the two posted queues, each handler for a timer still set; a whole iteration keeps the invariant, and when events are posted every event handler in it runs for the connection the event was posted for |
| Connections.StaleReportPasses | epoll_event.c:257-324 | a run of the dispatch loop in which a report for descriptor 7 reaches descriptor 9: its read handler closes the slot and has it issued twice |
| Pool.GrantKeepsRegions | alloc.c:1-35 | a region the system grants keeps all regions disjoint |
| Pool.CountersStep | palloc.c:141-147 | adding a block keeps the exact shape of the failure counters from the current block on |
| PoolSpec.SmallFails | palloc.c:90-150 | a small request fails exactly when no block that is searched has room and the system refuses a new one |
| PoolSpec.PallocFails | palloc.c:72-87 | a large request fails exactly when the system refuses the region, or refuses a new block when the list element needs one |
| PoolSpec.PmemalignFails | palloc.c:191-212 | pmemalign likewise, which always needs a new list element |
| PoolSpec.EmptyHasRoom | palloc.c:51-69 | a small request succeeds in an empty head block when searches start there |
| Pool.Pool.Create | palloc.c:8-28 | null exactly when there is no memory; otherwise a pool of one block with nothing handed out |
| Pool.Pool.RoomTest | palloc.c:98-104 | the unsigned test of the code is the test for room: for the sizes demanded of pools, aligning never passes the end of a block |
| Pool.Pool.CountFailures | palloc.c:141-145 | every block from the current one to the last but one fails once more, and the current block moves behind the last of them that had failed more than four times |
| Pool.Pool.FindRoom | palloc.c:95-112 | the first block from the current one on with room; on a run without reset_pool it looks at no more than seven |
| Pool.Pool.PallocBlock | palloc.c:118-150 | a freshly chained block always fits the request that made it |
| Pool.Pool.PallocSmall | palloc.c:90-115 | first fit from the current block, or a new block; one new piece, aligned if asked for |
| Pool.Pool.PallocLarge | palloc.c:153-188 | a region of its own, in the first empty list element among the first five or in a new one; without memory for that element the region goes back |
| Pool.Pool.Pmemalign | palloc.c:191-212 | the same with the alignment asked for, always in a new list element; exactly the state and the answer of the model |
| Pool.Pool.Palloc | palloc.c:72-87 | all pieces stay disjoint from each other and from all headers, and the request gets one new piece, in a block exactly when it is not larger than `max`; state and answer are exactly those of the model |
| Pool.Pool.Pfree | palloc.c:215-228 | frees exactly the region given, once, if it is in the list, and reports whether it was; a null pointer matches an empty element |
| Pool.Pool.ResetPool | palloc.c:51-69 | all large regions are freed and all blocks kept, each empty with its counter at 0; after it every request of at most `max` bytes gets the first bytes of the head block, whatever the system answers |
| Pool.Pool.DestroyPool | palloc.c:31-48 | every region obtained is freed, each exactly once |
| Pool.Pool.Disjoint | palloc.c:8-28 | two live pieces never overlap, nor does a piece overlap the header of a block |
| Pool.Pool.TopIsInHead | array.c:50-51 | a piece that ends at the top of the head block lies in the head block |
| Pool.Pool.GrowTop | array.c:57-58 | growing it never takes bytes of another piece |
| Pool.Pool.DropTop | array.c:26-32 | handing it back keeps the pool in order |
| Pool.Pool.OneLarge | palloc.c:219-225 | pfree of a piece that is not empty frees no other piece |
| Pool.Pool.LargeIsListed | palloc.c:219-225 | pfree finds a piece that is not empty exactly when it is a large region |
| PoolArray.Array.constructor | array.c:128-146 | an array of any capacity and element size starts empty, in a new piece of its own where palloc found room |
| PoolArray.Array.Reserve | array.c:42-72 | the storage grows in place exactly when it is at the top of the head block and there is room, and moves otherwise; either way contents and all other pieces keep their bytes |
| PoolArray.Array.Push | array.c:36-78 | appends one element: the bytes before it are the old contents, all other pieces are untouched, the storage is where it was or in a new piece, and null changes nothing; a full array has one place more if it grew in place and twice as many if it moved. The element has room if and only if the capacity was positive or the storage could grow in place; without room it lies in an empty piece |
| PoolArray.Array.PushN | array.c:81-126 | the same for n elements, which always have room: n places more in place, and twice the larger of n and the capacity after a move |
| PoolArray.PushFails | array.c:36-78 | a push fails exactly when the array is full, cannot grow in place, and palloc fails |
| PoolArray.PushNFails | array.c:81-126 | the same for n elements |
| PoolArray.PushWithoutCapacity | array.c:36-78 | an array created with capacity 0 whose pushed element gets the very bytes that palloc hands out next |
| PoolArray.Array.Destroy | array.c:20-33 | gives back exactly what is at the top of the head block |
| PoolClient.Client.Separate | palloc.c:72-150 | arrays and other allocations of one pool all have pieces of their own, and no two of them overlap |
| PoolClient.Client.Append | array.c:36-78 | a push to one array and the write of its element, if it succeeds as the model says, change what that array holds by exactly that element, and no other array or allocation |
| PoolClient.Client.AppendN | array.c:81-126 | the same for several elements |
| PoolClient.Client.Init | array.c:128-146 | a new array disturbs nothing |
| PoolClient.Client.Alloc | palloc.c:72-87 | a new allocation disturbs no array and no other allocation |
| PoolClient.Client.Memalign | palloc.c:191-212 | nor does an aligned one |
| PoolClient.Client.Free | palloc.c:215-228 | nor does pfree of an allocation that is not empty; it succeeds exactly for a large one |
| PoolClient.Client.Store | palloc.c:72-87 | a write inside one allocation changes only that allocation |
| PoolClient.Client.GrantedSucceeds | palloc.c:72-212 | what is allowed succeeds whenever the system grants what it is asked for |
| PoolClient.CapacityStays | array.c:36-126 | over any run the capacity of an array never falls, so an array created with a capacity can always be pushed to |
| PoolClient.OpsMean | palloc.c:72-228 | what each call is for, said of the arrays and allocations it leaves: which one it adds, extends or ends, with what size and capacity, and that it touches no other |
| PoolClient.ApplyAllLaws | palloc.c:72-228 | the calls of a run take effect one after the other |
| PoolClient.Client.Perform | palloc.c:72-228 | every call computes exactly the state and the success of the model, and what is allowed and granted succeeds |
| PoolClient.Client.Run | array.c:36-146 | over any sequence of array_init, array_push, array_push_n, palloc, pnalloc, pmemalign, pfree and writes on any number of arrays and other allocations of one pool, every call succeeds exactly when the model says so, each array holds exactly what was appended to it, in order, its earlier contents stay a prefix of the later ones, and each other allocation holds exactly what was written to it |
| PoolClient.PfreeFreesAnother | palloc.c:215-228 | a run in which pfree of an empty allocation at the end of a block frees the large region behind the block |
| Queue.Init | queue.h:5-7 | an empty ring |
| Queue.InsertAfter | queue.h:11-17 | a well-formed ring with the element after the given one |
| Queue.InsertTail | queue.h:19-23 | a well-formed ring with the element at the end |
| Queue.Remove | queue.h:35-37 | a well-formed ring without the element, which keeps its own links |
| Queue.Split | queue.h:39-45 | two well-formed rings, split before the given element |
| Queue.Add | queue.h:48-52 | one ring of both lists; an empty second list adds nothing |
| Queue.Middle | queue.c:6-33 | the element at index n / 2, the head of an empty ring |
| Queue.PlaceSorted | queue.c:54-63 | the place the inner loop finds keeps the front part sorted |
| Queue.PlaceStable | queue.c:54-63 | and keeps the order among elements that compare equal |
| Queue.FindPlace | queue.c:54-61 | the backward search ends at that place |
| Queue.MoveBack | queue.c:47-63 | one turn of the outer loop moves one element there by pointer changes only |
| Queue.Sort | queue.c:37-65 | terminates with a well-formed ring in the order of the insertion sort of the sequence |
| Queue.SortsStably | queue.c:37-65 | for any total preorder that order is sorted, a permutation, and stable |
| Calendar.EstimateIsClose | times.c:157-165 | the estimate of the year is exact or one too large, so one correction suffices |
| Calendar.MonthFormula | times.c:175-201 | the month and day formulas are exact for every day of a year that starts in March |
| Calendar.YearStartIsMarch | times.c:148-159 | the closed form of the day count agrees with counting year by year |
| Calendar.CivilIsRight | times.c:148-201 | the date computed from a day number has that day number |
| Calendar.DateIsUnique | times.c:109-210 | no other Gregorian date has it |
| Calendar.TmIsUnique | times.c:109-210 | no other broken-down time has the same Seconds Since the Epoch (section 4.16 of the POSIX.1-2017 Base Definitions, counted by the calendar) |
| Calendar.SgmtimeIsRight | times.c:109-210 | for every t the result is the one broken-down time of t, with negative times taken as 0 and times after 9999-12-31 23:59:59 as that second |
| Calendar.YearBound | times.c:128-131 | the clamping constant is the last day of the year 9999 |

## Left out

- RbTree.Tree.Delete: the successor has no left child, so the branch for a left child of the successor (rbtree.c:161-162) has no counterpart; the assignments to `temp->parent` come before those to the links of the successor and are grouped with the splice and the takeover.
- Nodes embedded in larger structures and found again by offsetof: an event is found by a tag of its node, a list element by a tag of its link.
- Timers.TimerQueue.AddTimer: the absolute value of the smallest 64-bit integer, undefined in C, is taken as its mathematical value.
- AcceptMutex.MutualExclusion: `reuseport` off and a listener present, as in the code's own configuration; workers do not die.
- AcceptMutex.NeverOrphaned: nothing is said about fairness, nor about how often a worker that keeps losing the try-lock tries again.
- The blocking shmtx_lock with its spinning and yielding, shmtx_force_unlock, and hardware memory ordering: each compare-and-swap is one atomic step.
- The `timedout` branch of event_accept (event_accept.c:17-23): with the accept mutex in use nothing arms a timer on the listener.
- `accept_events` is 0 in every run, since no code sets it to anything else.
- Connections: slots are values in one table and the lists they are linked into are sequences; that the list macros realise such sequences by pointers is the subject of `Queue`, and that the timer tree realises its set is the subject of `Timers`.
- Connections.Cycle.CloseConnection: the active flags are cleared together with the descriptor, after the queues; in the code they are cleared before, and nothing in between looks at them. The flag `shared`, never set, is taken as clear.
- Connections.Cycle.DrainConnections: the handler of a connection marked `close` closes it, as the drain presupposes.
- Connections.Cycle.GetConnection: the `files` table is absent, since no code allocates it; the descriptor passed is one that no connection has, as the kernel guarantees.
- Connections.Cycle.ProcessPosted: handlers that post to the queue they are called from for ever would keep the loop running for ever.
- The fields `available`, `eof` and `error` of an event (`Event.eof` is pending_eof), and the statistics counters; EXCLUSIVE_EVENT, whose branch is not compiled in.
- Connections.Cycle.AddTimer: the deadline, which is the subject of `Timers`.
- Closing of listening sockets, which frees a slot without the cleanup of close_connection, and close_idle_connections.
- event_process_init after the free list: it returns -1 whenever the accept mutex is in use and `reuseport` is off (event.c:262-264).
- Socket calls (accept, recv, send, options), epoll_init, epoll_wait, signals, clocks, process start: their results are inputs.
- main.c and its demonstration handlers: any sequence of operations stands for a handler.
- Pool: sizes and addresses do not overflow; pool sizes are multiples of ALIGNMENT and at least MIN_POOL_SIZE, as both sizes in use are; pcalloc only clears what palloc returns.
- Pool.Pool.FindRoom: the bound of seven is for runs without reset_pool, which sets all counters back.
- PoolClient.Client.Free: pfree of an empty allocation, which may free another one, is not among the calls of a run; neither are reset_pool and destroy_pool, which end the life of every array.
- Connections.Cycle.Iterate: whether events are posted, whether time has passed and which timers are due are parameters; that posting goes with the lock is `AcceptMutex.PostsIffOwns`, and the due timers are the subject of `Timers`.
- PoolArray: 32-bit counts and products of sizes do not overflow.
- list.c, buf.c, cycle.c, spinlock.c and the slot ring of stime_update: simpler relatives of what is covered.
- Calendar.SgmtimeIsRight: the month runs from 1 to 12 and the year is the full year, as the code stores them, unlike the struct tm of the C library.
