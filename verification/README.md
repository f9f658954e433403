# Neon EDS kernel: a verified model

Neon EDS is a small event-driven kernel for embedded processors. This project models its five
stateful cores and the list, queue and bit-mask code under them, and proves what each of them
promises over every run. Each core has a specification on plain values and a class that does what
the C code does, statement by statement and in place, proved equal to the specification; the
properties that span calls are lemmas about the specification.

- **Heap** (`HeapLayout`, `HeapTheorems`, `Heap`, `HeapMemory`). A first-fit allocator that overlays
  block headers and a circular free list on one region. The specification is a layout: the header
  addresses and the free list. The class writes the words. Proved: the words always represent a
  well-formed layout; first fit is complete; live blocks are disjoint, large enough and untouched by
  other calls; bytes are conserved; releasing everything gives back the initial block.
- **Hierarchical state machines** (`StateTree`, `HsmSpec`, `Hsm`). The seven-case path search finds
  one uniquely determined pivot inside its two fixed buffers, and every dispatch, INIT chains
  included, keeps the active states equal to the ancestors of the current state. Handlers are
  arbitrary functions of everything that happened before.
- **Timers** (`TimerSpec`, `TimerOrder`, `DeltaList`, `TimerQueue`). The delta list refines a map from
  timer to remaining ticks, without wrap-around; one-shot and repeat timers fire on exactly the
  interrupts they should, and those due together are called in list order.
- **Scheduler** (`PrioBitmap`, `SchedSpec`, `Scheduler`). One FIFO ring per priority, a one- or
  two-level bitmap and thread reference counts always agree; waiting is bounded, and equal
  priorities are served in turn.
- **Event transport** (`TransportSpec`, `TransportProofs`, `TransportEffects`, `TransportDelivery`,
  `TransportFetch`, `Transport`). Main loop and interrupts as steps between lock boundaries. In every reachable state
  the event counters, queues, thread counts and run queue agree; events are freed once, only when
  unused, and never forgotten; delivery and fetching are in order; every agent can be started and
  every dispatch completed. Fetching deferred events, which
  takes the lock several times, is proved with arbitrary interrupts in between.
- **Below them**: `Bits` (masks, alignment, logarithm), `DList` and `Links` (circular doubly linked
  lists), `RingBuffer` (the power-of-two queue).

Pointers are array indices or byte addresses. In the heap the first and second word of the slot at
each address are two arrays `w0` and `w1`: at a header they are `phy.prev` and `phy.size`, one header
size further on `free.next` and `free.prev`. Locks are the boundaries of atomic steps. `log2` and
`exp2` of the port are exact functions. Handlers, allocation of event storage, which request comes
next and what interrupts do in between are parameters of the statements.

## Where the code differs from its description

- `heap_alloc` accepts sizes up to `INT32_MAX` but compares with the rounded size cast to `int32_t`
  (source/heap.c:74-87). `CastIsExact` shows that it is first-fit allocation if and only if the size is
  at most 2^31 less one header or nothing is free. Otherwise every free block passes both comparisons
  although none is large enough, and the header written next lies outside the region
  (`OversizePasses`).
- `nepa_send_event_ahead_i` does not give the reference back when the queue is full
  (source/epa.c:330-332). `CountersExactIff` shows that this branch, and no other, makes a counter
  wrong, and `LeakIsForever` that such an event is never freed.
- `nepa_defer_fetch_one` and `nepa_defer_fetch_all` take the event off the deferred queue before they
  try to send it (source/epa.c:231-237). `QuietFetch` and `QuietDrainSucceedsIff` give the exact
  condition for success: room in the agent's queue for all of them, and every event within the limit of
  references. When it fails the event's place is lost (`FullQueueDrops`, `OutOfReferencesDrops`).
- `nevent_unlock` frees an unreferenced event at once (source/event.c:344-351). `UnlockSafeIff` shows
  that this is wrong exactly while the main loop has that event out of its queue and is about to send
  it on or to destroy it itself.
- The bitmap words are 32 bits wide whatever NCPU_DATA_WIDTH is (source/sched.c:59). `BitmapWorksIff`
  shows that every bucket can be marked if and only if the data width is at most 32 or there are at
  most 32 buckets; otherwise bucket 32 is lost (`Bucket32Lost`). The x86-64 port has width 64.
- `tick++` in `ntimer_start_i` wraps for the largest `tick` (source/timer.c:140). `StartTimer` leaves no
  timer overdue if and only if `tick` is not that one. For all others a timer fires on the (`tick` +
  1)-th interrupt.
- A transition to the direct parent does not leave the parent, while a transition to a higher
  ancestor leaves and re-enters it (`AncestorTarget`).

## Model

| member | source | states |
|---|---|---|
| `HeapMemory.HeapRegion.HeapAlloc` | source/heap.c:67-129 | the words represent the layout `Alloc` gives for the rounded size; the result is the block's payload or NULL; no payload of another live block changes |
| `HeapMemory.HeapRegion.FirstFitBlock` | source/heap.c:79-85 | the free-list search terminates and stops at the block `Alloc` takes, or at the sentinel when `Alloc` fails |
| `HeapMemory.HeapRegion.TakeBlock` | source/heap.c:86-123 | a found block is split when it is more than a header and links too large, and granted whole otherwise |
| `HeapMemory.HeapRegion.SplitBlock` | source/heap.c:88-112 | the in-place split of a free block yields exactly the split layout and keeps every live payload |
| `HeapMemory.HeapRegion.GrantBlock` | source/heap.c:113-122 | unlinking a free block and flipping its sign yields exactly the granted layout and keeps every live payload |
| `HeapMemory.HeapRegion.WriteSplit` | source/heap.c:93-110 | the words written by the splitting branch, and no others |
| `HeapMemory.HeapRegion.HeapFree` | source/heap.c:131-181 | the words represent the layout with the block freed and coalesced; no payload of a live block changes |
| `HeapMemory.HeapRegion.Coalesce` | source/heap.c:143-180 | the signs of the neighbours' sizes select the branch that yields the freed layout |
| `HeapMemory.HeapRegion.FreeIntoPrev` | source/heap.c:147-150 | the block joins its free predecessor |
| `HeapMemory.HeapRegion.FreeWithNext` | source/heap.c:152-161 | the block takes the list place of its free successor and absorbs it |
| `HeapMemory.HeapRegion.FreeBetween` | source/heap.c:163-171 | predecessor, block and successor become one and the successor leaves the free list |
| `HeapMemory.HeapRegion.FreeAlone` | source/heap.c:173-180 | the block becomes the first of the free list |
| `HeapMemory.HeapRegion.HeapInit` | source/heap.c:197-213 | initialisation writes one free block and an always-used sentinel |
| `HeapMemory.HeapRegion.HeapInitAlloc` | source/heap.c:186-218 | initialisation followed by the first allocation from the single free block |
| `HeapMemory.InitRepresents` | source/heap.c:197-211 | the initial words represent the initial layout |
| `Heap.SplitRepresents` | source/heap.c:88-110 | the writes of the split turn a representation of the layout into one of the split layout: headers, `phy.prev` links and free ring |
| `Heap.GrantRepresents` | source/heap.c:113-119 | the same for the whole-block grant |
| `Heap.FreePrevRepresents` | source/heap.c:147-150 | the same for coalescing with the predecessor |
| `Heap.FreeNextRepresents` | source/heap.c:152-161 | the same for coalescing with the successor |
| `Heap.FreeBothRepresents` | source/heap.c:163-171 | the same for coalescing with both |
| `Heap.FreeNoneRepresents` | source/heap.c:173-180 | the same for a block between two used ones |
| `HeapMemory.PayloadKept` | source/heap.c:78-180 | no slot that writes to headers and to links of blocks that are not live can change overlaps a live payload, at whatever address |
| `HeapLayout.FirstFitComplete` | source/heap.c:82-85 | every free block before the one found is too small, and the one found is large enough |
| `HeapLayout.AllocComplete` | source/heap.c:78-128 | allocation fails exactly when no free block is large enough, otherwise it takes the first that is |
| `HeapLayout.AllocWF` | source/heap.c:78-123 | allocation keeps the layout well formed and makes exactly the result live |
| `HeapLayout.SplitWF` | source/heap.c:88-112 | a split keeps blocks tiled, free list exact and no two neighbours free |
| `HeapLayout.GrantWF` | source/heap.c:113-122 | a whole-block grant does too |
| `HeapLayout.FreeWF` | source/heap.c:140-180 | each of the four ways to free does too, and makes exactly that block not live |
| `HeapTheorems.FreeOrder` | source/heap.c:147-180 | blocks free before and after a free keep their order in the list, so an absorbing predecessor keeps its place; a block that absorbs only its successor takes its place exactly; a block between used ones comes first |
| `HeapTheorems.BytesConserved` | source/heap.c:131-181 | headers and payloads always add up to the same total |
| `HeapTheorems.FullCoalescing` | source/heap.c:131-181 | nothing is live if and only if the heap is one free block of the initial size |
| `HeapTheorems.LiveDisjoint` | source/heap.c:78-121 | live payloads are disjoint, lie in the region and contain no header |
| `HeapTheorems.AllocCapacity` | source/heap.c:86-121 | a granted block holds at least the rounded size and at most a header and links more; other live blocks keep their size |
| `HeapTheorems.FreeCapacity` | source/heap.c:140-180 | freeing one block keeps the size of every other live one |
| `HeapTheorems.AllocThenFree` | source/heap.c:86-121 | freeing what was just allocated restores the physical layout, after a split also the free list, else the block moves to its front |
| `HeapTheorems.SplitThenFree` | source/heap.c:152-161 | a split undone gives the same layout |
| `HeapTheorems.GrantThenFree` | source/heap.c:173-180 | a whole-block grant undone gives the same blocks with that one first in the free list |
| `HeapTheorems.WantKeeps` | source/heap.c:67-129 | a request keeps the client's invariant: live blocks are those handed out, each with its bytes |
| `HeapTheorems.ReleaseKeeps` | source/heap.c:131-181 | a release keeps it too |
| `HeapTheorems.RunKeeps` | source/heap.c:67-181 | so does any run of requests and releases |
| `HeapTheorems.RequestsServed` | source/heap.c:67-181 | runs can always go on: any size up to the limit may be asked for and any block outstanding released, and a request is granted exactly if a free block is large enough |
| `HeapTheorems.AllocOnGrid` | source/heap.c:78-99 | allocation keeps every header but the sentinel a multiple of the header size, whatever the region's size |
| `HeapTheorems.FreeOnGrid` | source/heap.c:140-180 | so does freeing |
| `HeapTheorems.PayloadAligned` | source/heap.c:90 | memory handed out is aligned to the header size |
| `HeapTheorems.HeapRun` | source/heap.c:67-218 | after any run from initialisation: well formed, bytes conserved, every block outstanding as large as asked and aligned, and initial again exactly when nothing is outstanding |
| `HeapTheorems.RoundedBounds` | source/heap.c:78 | rounding gives a multiple of the header size less than one header above the request |
| `HeapTheorems.CastIsExact` | source/heap.c:74-87 | on every layout of a region below 2^31 bytes, `heap_alloc` with its two casts is first-fit allocation, and its search first fit, if and only if the size is at most 2^31 less a header or nothing is free |
| `HeapTheorems.OversizePasses` | source/heap.c:84-94 | for larger sizes every free block passes both comparisons, is too small, and the next header would lie outside the region |
| `HeapTheorems.CastSpoilsLargest` | source/heap.c:74-84 | the largest size the precondition admits is cast to the most negative number |
| `StateTree.PivotUnique` | source/smp.c:103-181 | a transition has at most one pivot |
| `HsmSpec.PivotExists` | source/smp.c:103-181 | and at least one |
| `HsmSpec.PivotAbove` | source/smp.c:103-181 | the pivot is an ancestor of both ends, or one of them |
| `HsmSpec.AncestorTarget` | source/smp.c:133-180 | a transition to the parent does not leave it; one to a higher ancestor leaves and re-enters that ancestor |
| `HsmSpec.CommonBelow` | source/smp.c:166-180 | among the ancestors down to any given level two states have a deepest common one |
| `Hsm.Machine.BuildPath` | source/smp.c:103-181 | the exit path is the chain from the current state, the entry path the chain from the target, both strictly below the pivot; every index stays in its buffer |
| `Hsm.Machine.BuildNear` | source/smp.c:125-142 | cases c and d find the pivot, or pass on |
| `Hsm.Machine.BuildFar` | source/smp.c:140-180 | cases e, f and g find the pivot |
| `Hsm.Machine.FindSource` | source/smp.c:144-152 | the climb from the target finds the source or records all ancestors |
| `Hsm.Machine.FindParent` | source/smp.c:154-163 | the way back down finds the source's parent or rules it out |
| `Hsm.Machine.FindAmong` | source/smp.c:169-179 | the inner loop decides whether a state is among the target's ancestors |
| `Hsm.Machine.ClimbToCommon` | source/smp.c:166-180 | the outer loop stops at the first ancestor of the source that is one of the target |
| `Hsm.FirstCommonIsPivot` | source/smp.c:166-180 | that ancestor is the deepest common one |
| `Hsm.ParentIsPivot` | source/smp.c:154-163 | the source's parent, met among the target's ancestors, is the deepest common one |
| `Hsm.SiblingPivot` | source/smp.c:125-132 | states with the same parent have it as pivot |
| `Hsm.ParentNotBelow` | source/smp.c:133-139 | the parent as target is the pivot |
| `Hsm.AncestorPivot` | source/smp.c:117-152 | a source above the target is the pivot |
| `Hsm.CommonFound` | source/smp.c:166-180 | where the climb ends is the pivot |
| `Hsm.Machine.GetSuper` | source/smp.c:88-101 | yields the parent; the top state is never asked |
| `Hsm.Machine.PathExit` | source/smp.c:200-215 | EXIT goes to the whole exit path, innermost first |
| `Hsm.Machine.PathEnter` | source/smp.c:183-198 | ENTRY goes to the whole entry path, outermost first |
| `Hsm.Machine.WalkUp` | source/smp.c:287-293 | the event climbs to the first handler that does not pass it on and the way is recorded in the buffer |
| `Hsm.Machine.Transit` | source/smp.c:295-302 | one pass leaves up to the pivot, enters down to the target and initialises it |
| `Hsm.Machine.HsmDispatch` | source/smp.c:280-306 | calls and final state are those of `Dispatch`; terminates and stays in the buffers |
| `HsmSpec.WalkSource` | source/smp.c:290-293 | the handler that answers is an ancestor of the current state or the state itself |
| `HsmSpec.WalkExplained` | source/smp.c:290-293 | the event is passed on by exactly the states below the one that answers, whose own answer is the result, and exactly these handlers are called, in order |
| `HsmSpec.MovedExplained` | source/smp.c:295-299 | a transition calls EXIT on exactly the current chain below the pivot, then ENTRY on exactly the target's, in order, and nothing else |
| `HsmSpec.SettleExplained` | source/smp.c:295-304 | INIT is sent to each target in turn; each answer that names a further target starts the next transition from there, and the last one does not |
| `HsmSpec.DispatchExplained` | source/smp.c:280-306 | the whole dispatch without its recursion: climb, transition from the state that answered, INIT chain, final state |
| `HsmSpec.ReplayMoved` | source/smp.c:295-299 | one transition pops and pushes the active states in order, from the current chain to the target's |
| `HsmSpec.ReplaySettle` | source/smp.c:295-304 | so does a chain of INIT transitions |
| `HsmSpec.DispatchKeepsActive` | source/smp.c:280-306 | active states are the ancestors of the current state after every event: each EXIT is for the innermost one, each ENTRY for a child of it |
| `HsmSpec.RunKeepsActive` | source/smp.c:280-306 | and after every run of events |
| `HsmSpec.NoTransitionNoChange` | source/smp.c:287-306 | without a transition the state is restored and nothing is entered or left |
| `HsmSpec.DescendingInitHasRank` | source/smp.c:295-304 | handlers whose INIT transitions go to proper descendants, in a tree of bounded depth, make a valid chart, so the loop terminates |
| `DeltaList.InsertLefts` | source/timer.c:63-78 | inserting sets one timer's remaining ticks and changes nobody else's |
| `DeltaList.InsertWellFormed` | source/timer.c:63-78 | at the place found all deltas stay non-negative and within 32 bits, the new one positive unless the timer is due at once |
| `DeltaList.RemoveLefts` | source/timer.c:104-116 | cancelling changes nobody else's remaining ticks |
| `DeltaList.RemoveWellFormed` | source/timer.c:104-116 | and keeps all sums within 32 bits |
| `DeltaList.DeltaPair` | source/timer.c:111-113 | the addition of a cancelled timer's ticks to its successor's does not wrap |
| `DeltaList.TickLefts` | source/timer.c:213-215 | taking one tick off the head takes one off everybody |
| `DeltaList.SumMonotone` | source/timer.c:69-72 | remaining ticks grow along the list |
| `TimerQueue.TimerList.constructor` | source/timer.c:48-56 | no timer runs at first |
| `TimerQueue.TimerList.FindPlace` | source/timer.c:67-72 | the search stops at the first timer due no earlier, with the ticks before it subtracted |
| `TimerQueue.TimerList.InsertTimer` | source/timer.c:63-78 | the timer enters in front of the first one due no earlier, with its ticks, and nothing else changes |
| `TimerQueue.TimerList.StartTimer` | source/timer.c:131-151 | start changes the timer map as `Started` does and leaves no timer overdue, if and only if `tick` does not wrap; the timer enters the list at its place |
| `TimerQueue.TimerList.CancelTimer` | source/timer.c:104-116 | cancel changes the map as `Cancelled` does, running or not, and keeps the order of the others |
| `TimerQueue.TimerList.HandOver` | source/timer.c:111-113 | the successor takes over the cancelled timer's ticks |
| `TimerQueue.TimerList.IsRunning` | source/timer.c:167-178 | tells exactly whether the timer is on the list |
| `TimerQueue.TimerList.Remaining` | source/timer.c:182-202 | the walk back to the sentinel returns the map's value, 0 when not running, within 32 bits |
| `TimerQueue.TimerList.Expire` | source/timer.c:220-225 | one pass removes the due head and, if it repeats, lets it enter at its place |
| `TimerQueue.TimerList.CallHead` | source/timer.c:218-229 | one pass calls the timer behind those already called and leads on to the next head |
| `TimerQueue.TimerList.ExpireDue` | source/timer.c:217-230 | the loop terminates after firing every timer that has reached zero, each once, in the order in which they led the list |
| `TimerQueue.TimerList.TimerIsr` | source/timer.c:206-232 | an interrupt changes the map as `Ticked` does and fires exactly the due timers, in the order in which they led the list |
| `TimerOrder.PlaceIsFirst` | source/timer.c:67-72 | the place of a timer is in front of the first one due no earlier |
| `TimerOrder.EntersInFront` | source/timer.c:67-73 | a timer that enters stands in front of exactly those due no earlier, so of two due together the later to enter is called first; the others keep their order |
| `TimerOrder.DueLead` | source/timer.c:217-230 | whatever repeat timers re-enter, the due timers not yet called lead the list in their old order |
| `TimerQueue.NextInLine` | source/timer.c:217-230 | so a due head is always the timer behind those already called |
| `TimerQueue.InterruptIsTick` | source/timer.c:210-231 | decrement and loop together are one tick of every timer |
| `TimerSpec.OneShotLeft` | source/timer.c:140-150 | a one-shot timer loses one tick an interrupt, whatever happens to other timers |
| `TimerSpec.OneShotFires` | source/timer.c:140-150 | it fires on the (tick+1)-th interrupt after its start and on no other |
| `TimerSpec.RepeatLeft` | source/timer.c:145-146 | a repeat timer counts down its period over and over |
| `TimerSpec.RepeatFires` | source/timer.c:222-225 | it fires on exactly every (tick+1)-th interrupt |
| `TimerSpec.CancelledNeverFires` | source/timer.c:104-116 | a cancelled timer does not fire until it is started again |
| `PrioBitmap.SetKeeps` | source/sched.c:122-136 | setting marks one bucket and keeps group and word bits in agreement, one-word and grouped |
| `PrioBitmap.ClearKeeps` | source/sched.c:141-161 | clearing unmarks one bucket and does too |
| `PrioBitmap.HighestIsMax` | source/sched.c:166-183 | the bucket found is marked and none above it is |
| `PrioBitmap.HighestGrouped` | source/sched.c:166-183 | the same for the two-level branch |
| `PrioBitmap.HighestFlat` | source/sched.c:166-183 | the same for the one-word branch |
| `PrioBitmap.BitmapWorksIff` | source/sched.c:53-136 | marking every bucket takes effect if and only if the data width is at most 32 or there are at most 32 buckets |
| `PrioBitmap.Bucket32Lost` | source/sched.c:122-136 | otherwise marking bucket 32 has no effect |
| `PrioBitmap.Bitmap.constructor` | source/sched.c:103-117 | no bucket is marked at first |
| `PrioBitmap.Bitmap.Set` | source/sched.c:122-136 | in place: exactly that bucket is marked in addition |
| `PrioBitmap.Bitmap.Clear` | source/sched.c:141-161 | in place: exactly that bucket is unmarked |
| `PrioBitmap.Bitmap.GetHighest` | source/sched.c:166-183 | returns the highest marked bucket |
| `Scheduler.RunContext.constructor` | source/sched.c:190-203 | empty buckets, clear bitmap, idle threads |
| `Scheduler.RunContext.FifoInsert` | include/base/bias_list.h:116-119 | the thread joins the end of its bucket's ring, other rings unchanged |
| `Scheduler.RunContext.ListRemove` | include/base/bias_list.h:124-127 | the thread leaves its ring, other rings unchanged |
| `Scheduler.RunContext.BucketIsEmpty` | include/base/bias_list.h:148-151 | tells exactly whether the bucket holds a thread |
| `Scheduler.RunContext.QueueInsert` | source/sched.c:208-232 | appends to the bucket and keeps the bitmap in agreement |
| `Scheduler.RunContext.QueueRemove` | source/sched.c:237-255 | removes from the bucket and keeps the bitmap in agreement |
| `Scheduler.RunContext.QueueRotate` | source/sched.c:260-278 | the front thread goes to the back of its bucket |
| `Scheduler.RunContext.Peek` | source/sched.c:283-294 | the front thread of the highest non-empty bucket |
| `Scheduler.RunContext.Schedule` | source/sched.c:299-310 | returns that thread, makes it current and rotates its bucket |
| `Scheduler.RunContext.ThreadInsert` | source/sched.c:395-407 | one reference more; queued exactly when it had none |
| `Scheduler.RunContext.ThreadRemove` | source/sched.c:411-424 | one reference less; dequeued exactly when none is left |
| `SchedSpec.StepPosition` | source/sched.c:208-278 | no operation on other threads moves a waiting thread back, and serving its bucket moves it forward |
| `SchedSpec.BoundedWaiting` | source/sched.c:299-310 | a thread at position p is among the first p+1 its priority serves, despite inserts and removes of others |
| `SchedSpec.TurnsServe` | source/sched.c:260-310 | with nothing else going on a bucket is served in order |
| `SchedSpec.InsertThenRemove` | source/sched.c:208-255 | a thread that is not queued can join any priority, and leaving again restores the queues |
| `SchedSpec.RoundRobin` | source/sched.c:260-310 | k schedules of k distinct top-priority threads return each exactly once and nobody else, and restore the queue |
| `SchedSpec.RunDistinct` | source/sched.c:208-278 | no run makes a priority list a thread twice |
| `Scheduler.RunContext.QueuesDistinct` | source/sched.c:208-278 | the rings in memory never list a thread twice |
| `SchedSpec.AlwaysSchedulable` | source/sched.c:283-310 | with the idle thread queued, every reachable state has a thread to schedule |
| `TransportSpec.RefValueZero` | include/ep/event.h:347-350 | the reference value is zero exactly for an unreferenced dynamic event that is not reserved |
| `TransportEffects.ReferableIff` | include/ep/event.h:347-350 | told from attribute and count alone when one more reference may be taken: always for a static event, below 65535 for a dynamic one, and the exact digits for a reserved one |
| `TransportSpec.TakeIsSafe` | source/epa.c:47-55 | a running agent is ready if and only if its queue has an event, so none is taken from an empty queue |
| `TransportSpec.QueuedIsCounted` | source/epa.c:231-236 | a queued event exists and has a reference to give back |
| `TransportProofs.InitHasInv` | source/epa.c:147-157 | the invariant holds after start-up |
| `TransportProofs.CreateKeeps` | source/event.c:84-104 | creating a fresh event keeps it |
| `TransportProofs.DestroyKeeps` | source/event.c:270-279 | destroying an event that is neither in hand nor being released keeps it, freed or not |
| `TransportProofs.SendKeeps` | source/epa.c:269-340 | sending and sending ahead keep it, queue full or not |
| `TransportProofs.RegisterKeeps` | source/epa.c:147-157 | registering an agent keeps it |
| `TransportProofs.InitBeginKeeps` | source/epa.c:69-73 | starting the first dispatch keeps it |
| `TransportProofs.InitEndKeeps` | source/epa.c:74-77 | ending it keeps it |
| `TransportProofs.TakeKeeps` | source/epa.c:53-55 | taking an event keeps it: the place in the queue becomes the dispatch reference |
| `TransportProofs.HandlerEndKeeps` | source/epa.c:61 | giving the dispatch reference back, outside the lock, keeps it |
| `TransportProofs.FinishKeeps` | source/epa.c:62-64 | destroying the event and blocking the thread keeps it |
| `TransportProofs.DeferKeeps` | source/epa.c:198-215 | deferring an event keeps it |
| `TransportProofs.FetchTakeKeeps` | source/epa.c:234-235 | getting a deferred event keeps it |
| `TransportProofs.FetchSendKeeps` | source/epa.c:236 | sending it on keeps it, whether accepted, refused for lack of room or out of references |
| `TransportProofs.LockKeeps` | source/event.c:324-331 | reserving an event keeps it |
| `TransportProofs.UnlockKeeps` | source/event.c:335-353 | releasing the reservation keeps it, also when that frees the event |
| `TransportProofs.UnlockSafeIff` | source/event.c:335-353 | an unlock, by anyone at any time, keeps the invariant if and only if the event is static, referenced, or not one the main loop has out of its queue |
| `TransportProofs.StepKeeps` | source/epa.c:47-340 | every step of main loop or interrupt keeps the invariant |
| `TransportProofs.RunKeeps` | source/epa.c:47-340 | the invariant holds after every interleaved run from start-up |
| `TransportProofs.ExactUnlessLeaked` | include/ep/event.h:310-350 | all counters equal the occurrences plus one while dispatched if and only if no reference has been lost |
| `TransportProofs.RunLeaks` | source/epa.c:322-336 | a run loses as many references as it sends dynamic events ahead to a full queue |
| `TransportProofs.CountersExactIff` | source/epa.c:322-336 | after a run the counters are exact if and only if no dynamic event was sent ahead to a full queue |
| `TransportProofs.AheadToFullQueue` | source/epa.c:330-332 | such a send leaves a fresh event with count 1 and no place anywhere |
| `TransportProofs.LeakIsForever` | source/epa.c:330-332 | an event that has lost a reference is never freed |
| `TransportProofs.FreedOnce` | source/event.c:270-279 | a freed event was freed once and is in no queue, hand or dispatch |
| `TransportProofs.FreesOnlyUnused` | source/event.c:270-279 | a step frees only a dynamic event, or one it has just unlocked, that is left without any reference |
| `TransportProofs.FinishFreesIff` | source/epa.c:61-63 | the end of a dispatch frees its event exactly when that is dynamic, in no queue and has lost no reference |
| `TransportProofs.NothingLingers` | source/event.c:270-279 | a dynamic event that exists is fresh, queued, in hand or being dispatched, unless it has lost a reference |
| `TransportProofs.SendWithinLimit` | source/epa.c:277-293 | a static event is never refused for its count, an event at the limit is left alone, and no accepted send raises a count above the limit |
| `TransportEffects.SendEffect` | source/epa.c:269-296 | a send by an owner is accepted if and only if one more reference may be taken and there is room; what each of the three outcomes changes, and nothing else |
| `TransportEffects.SendAheadEffect` | source/epa.c:314-340 | the same for a send ahead, the kept reference included |
| `TransportEffects.CreateEffect` | source/event.c:84-104 | a created event is dynamic and unreferenced and may be sent by its creator |
| `TransportEffects.DestroyEffect` | source/event.c:270-279 | a destroy frees a dynamic unreferenced event and otherwise does nothing |
| `TransportEffects.LockEffect` | source/event.c:324-331 | a lock reserves an event that is not static and does nothing else |
| `TransportEffects.UnlockEffect` | source/event.c:335-353 | an unlock makes an event that is not static dynamic and frees it if and only if it is unreferenced |
| `TransportEffects.ReservedSurvives` | source/event.c:270-331 | a reserved event survives every run that does not unlock it |
| `TransportEffects.RegisterEffect` | source/epa.c:147-157 | registering gives the first reference, makes the thread ready and the start due, and nothing else |
| `TransportEffects.InitBeginEffect` | source/epa.c:69-73 | a due start can begin and then end |
| `TransportEffects.InitEndEffect` | source/epa.c:74-77 | the agent runs and stays ready exactly if events have come in |
| `TransportEffects.AgentStarts` | source/epa.c:69-157 | three steps of the main loop take any agent from unregistered to running |
| `TransportEffects.TakeEffect` | source/epa.c:53-55 | the front event of the queue is the one dispatched |
| `TransportEffects.HandlerEndEffect` | source/epa.c:61 | the end of a handler gives the dispatch reference back and the dispatch can finish |
| `TransportEffects.FinishEffect` | source/epa.c:62-64 | the thread count goes down, the thread stays ready exactly if events are queued, and the event is freed exactly if it is dynamic and unreferenced |
| `TransportEffects.DispatchCompletes` | source/epa.c:47-65 | every event queued for a running agent can be dispatched to the end, with exactly this effect |
| `TransportEffects.DeferEffect` | source/epa.c:198-215 | a deferred event is appended and referenced if there is room, and otherwise nothing happens |
| `TransportProofs.QueuedMeansReady` | source/epa.c:280-283 | an agent with queued events is ready, and its thread count exceeds its queue length by at most one |
| `TransportProofs.IdleIsEmpty` | source/epa.c:47-77 | with no thread ready every queue is empty, no start is due and nothing is being dispatched |
| `TransportDelivery.DeliveredInOrder` | source/epa.c:53-280 | over any run that sends nothing ahead to an agent, accepted events are dispatched once each in order of acceptance, and the rest is still queued |
| `TransportDelivery.NoneLostNorRepeated` | source/epa.c:53-340 | over any run, sends ahead included, every accepted event is dispatched or still queued exactly as often as it was accepted |
| `TransportDelivery.StepDelivers` | source/epa.c:53-340 | a step takes from the front of a queue and puts at its back, or at its front when sending ahead |
| `TransportDelivery.FetchedInOrder` | source/epa.c:198-265 | over any run, interrupts included, deferred events are fetched once each in order of deferral, and the rest is still deferred |
| `TransportFetch.InterruptLeavesLoop` | source/epa.c:219-265 | no interrupt touches the deferred queues, the event in hand or the place of the main loop |
| `TransportFetch.InterruptsTakeEffect` | source/epa.c:300-354 | interrupts that can take all their steps take them, one after the other |
| `TransportFetch.FetchSendOutcome` | source/epa.c:236 | before the event in hand is sent it is known whether it is appended, refused for room or for references, and whether it is freed |
| `TransportFetch.FetchIsRun` | source/epa.c:231-237 | a fetch with any interrupts between get and send is a run of steps that takes the front event and appends it exactly when it reports no error |
| `TransportFetch.DrainPass` | source/epa.c:252-262 | a drain is a fetch, what interrupts do in it and after it and, unless it has failed, the drain of the rest |
| `TransportFetch.DrainIsRun` | source/epa.c:244-265 | a drain with any interrupts in and between its passes is a run of steps that fetches a prefix in order and forwards all of it, or all but the last on an error |
| `TransportFetch.QuietFetch` | source/epa.c:231-237 | without interrupts a fetch succeeds if and only if there is room and the event is within the limit, and then only moves it |
| `TransportFetch.QuietDrain` | source/epa.c:244-265 | without interrupts a drain moves the longest prefix that fits and is within the limit, and the first event that does not is gone |
| `TransportFetch.QuietDrainSucceedsIff` | source/epa.c:244-265 | without interrupts a drain succeeds if and only if all deferred events fit and are within the limit |
| `TransportFetch.FullQueueDrops` | source/epa.c:285-291 | fetching with the agent's queue full drops the event, and frees it exactly when it is dynamic and has no other reference |
| `TransportFetch.OutOfReferencesDrops` | source/epa.c:292-294 | fetching an event beyond the limit drops it from the deferred queue and leaves it alive |
| `Transport.Kernel.constructor` | source/epa.c:147-157 | start-up state with the given static events and queue sizes |
| `Transport.Kernel.RefUp` | include/ep/event.h:310-318 | one reference more, unless the event is static |
| `Transport.Kernel.RefDown` | include/ep/event.h:327-335 | one reference less, unless the event is static |
| `Transport.Kernel.DestroyEvent` | source/event.c:270-279 | frees the event exactly when its reference value is zero |
| `Transport.Kernel.CreateEvent` | source/event.c:84-104 | is the step `Create` |
| `Transport.Kernel.Discard` | source/event.c:259-266 | is the step `Destroy` |
| `Transport.Kernel.LockEvent` | source/event.c:324-331 | is the step `Lock` |
| `Transport.Kernel.UnlockEvent` | source/event.c:335-353 | is the step `Unlock` |
| `Transport.Kernel.Register` | source/epa.c:147-157 | is the step `Register` |
| `Transport.Kernel.BeginInit` | source/epa.c:69-73 | is the step `InitBegin` |
| `Transport.Kernel.EndInit` | source/epa.c:74-77 | is the step `InitEnd` |
| `Transport.Kernel.TakeEvent` | source/epa.c:47-55 | is the step `Take`; the event exists and was at the front of the queue |
| `Transport.Kernel.HandlerReturned` | source/epa.c:61 | is the step `HandlerEnd` |
| `Transport.Kernel.FinishDispatch` | source/epa.c:62-64 | is the step `Finish` |
| `Transport.Kernel.SendEvent` | source/epa.c:269-296 | result and state are those of `Sent`: appended, refused and possibly destroyed, or out of references |
| `Transport.Kernel.SendEventAhead` | source/epa.c:314-340 | result and state are those of `SentAhead`, the kept reference included |
| `Transport.Kernel.Post` | source/epa.c:300-354 | a send by an owner is the step `Send` or `SendAhead`; it succeeds exactly when the queue has grown, at the right end, with the thread ready |
| `Transport.Kernel.DeferEvent` | source/epa.c:198-215 | is the step `Defer`; it succeeds exactly when there is room, and then appends |
| `Transport.Kernel.Interrupt` | source/epa.c:300-354 | is one step of an interrupt, or nothing if it cannot take it now |
| `Transport.Kernel.HandleInterrupts` | source/epa.c:300-354 | is any sequence of such steps |
| `Transport.Kernel.FetchOne` | source/epa.c:219-240 | is the get, what interrupts do before the send takes the lock, and the send, or nothing on an empty queue |
| `Transport.Kernel.FetchAll` | source/epa.c:244-265 | the loop drains as `Drained` says, whatever interrupts do in and after each pass, and terminates |
| `RingBuffer.Queue.constructor` | include/base/queue.h:170-190 | an empty queue of the given power of two |
| `RingBuffer.Queue.PutFifo` | include/base/queue.h:290-295 | appends |
| `RingBuffer.Queue.PutLifo` | include/base/queue.h:304-310 | prepends, wrap-around of the tail included |
| `RingBuffer.Queue.Get` | include/base/queue.h:319-328 | removes and returns the front |
| `RingBuffer.Queue.Head` | include/base/queue.h:337-346 | returns the item put last at the back |
| `RingBuffer.Queue.Tail` | include/base/queue.h:355-358 | returns the front |
| `RingBuffer.Queue.FullAndEmpty` | include/base/queue.h:196-214 | the tests on the free-slot counter mean full and empty |
| `RingBuffer.HeadIsMasked` | include/base/queue.h:290-310 | head is tail plus size less free slots, masked |
| `RingBuffer.MaskedIncrement` | include/base/queue.h:292-293 | increment and mask move one slot on, cyclically |
| `RingBuffer.MaskedDecrement` | include/base/queue.h:306-307 | 32-bit decrement and mask move one slot back, cyclically |
| `Links.LinkMemory.constructor` | include/base/dlist.h:185-191 | every node links to itself |
| `Links.LinkMemory.AddBefore` | include/base/dlist.h:215-221 | the node enters the ring in front of the given one; links outside the ring are untouched |
| `Links.LinkMemory.Remove` | include/base/dlist.h:276-290 | the node leaves the ring and links to itself; links outside the ring are untouched |
| `DList.RingInsert` | include/base/dlist.h:215-221 | the four link writes insert into the ring at that place |
| `DList.RingRemove` | include/base/dlist.h:276-290 | the two link writes remove exactly that node |
| `DList.RingReplace` | source/heap.c:102-105 | four link writes put a new node in the place of an old one |
| `DList.RingFrame` | include/base/dlist.h:215-290 | writes to other nodes leave a ring as it is |
| `Bits.AlignUpRounds` | include/base/bitop.h:143-144 | NALIGN_UP yields a multiple of the power of two, less than one step above |
| `Bits.AlignUpIsLeast` | include/base/bitop.h:143-144 | and no smaller multiple will do |
| `Bits.PowerOf2Test` | include/base/bitop.h:166-167 | N_IS_POWEROF_2 accepts exactly the powers of two |
| `Bits.Log2IsHighest` | source/sched.c:166-183 | the exact logarithm is the highest set bit |
| `Bits.JoinSplits` | source/sched.c:166-183 | word index and bit index can be read back from the bucket number they are joined into |
| `Bits.SplitOrder` | source/sched.c:122-183 | buckets are ordered by word index, then bit index |

## Left out

- Port code: registers, interrupt vectors, inline assembly, the table-based logarithm. Locks are step boundaries.
- HeapMemory.HeapRegion.HeapAlloc: requires the size to be at most 2^31 less a header, or nothing to be free, because otherwise the source writes outside the region next (`CastIsExact`, `OversizePasses`).
- HeapMemory.HeapRegion.HeapInitAlloc: requires the first size to be at most 2^31 less a header, for the same reason.
- The heap's counter of free bytes and `nmem_get_free`: set once at initialisation and not maintained; conservation is stated over the blocks.
- Pool, static and standard-library memory objects; registration, removal and selection of event memory (`nevent_register_mem`, `nevent_unregister_mem`): small or depending on configuration.
- Hsm.Machine.GetSuper: NSM_SUPER queries are not part of the call log, and handlers have no effect other than their answer.
- `n_sm_fsm_dispatch`: one exit, one entry and one INIT a transition; it would add only easy members.
- Hsm.Machine.HsmDispatch: INIT transitions must descend in a rank; a machine whose INIT transitions cycle does not terminate in the source either.
- TimerQueue.TimerList.TimerIsr: callbacks are recorded in order and do not start or cancel timers; no timer may be overdue, which `StartTimer` guarantees except for the largest `tick`.
- The configuration with more priority levels than buckets, and `nbias_list_sort_insert`, whose loop finds no place when no larger element exists.
- PrioBitmap.Bitmap.constructor: requires the bucket indices to fit 32-bit words; `BitmapWorksIff` shows that this is exactly when the source works.
- Scheduler.RunContext.constructor: requires the same of its bitmap.
- Scheduler.RunContext.ThreadInsert: requires the thread count to be below 2^32 - 1; `QueuedMeansReady` bounds it by the queue length plus one.
- The signature tests in `nthread_insert_i` and `nthread_remove_i` (source/sched.c:397, source/sched.c:413): they ask for the opposite of what the callers establish.
- RingBuffer.Queue.constructor: sizes up to 2^31; the comment allows 2^32, which the 32-bit counter of free slots cannot hold.
- Transport.Kernel.SendEvent: queues are sequences and the run queue a set here; the ring buffer and the scheduler are proved to behave as such in their own modules.
- Transport.Kernel.UnlockEvent: requires the event not to be one that the main loop has out of its queue unreferenced; `UnlockSafeIff` shows that this is exactly when the invariant survives. The source takes the lock only for the release of the memory; the model makes the unlock one step.
- Transport.Kernel.FetchOne: interrupts come between the get and the send, in any number; those before and after it are steps of the run.
- A fresh event sent to several agents by its creator: after the first send only its dispatcher may send it on.
- Event identifiers, producers and sizes, `nevent_forward`, the order of two memory accesses inside one step, `nepa_destroy`, `nthread_term`, dynamic allocation of agents, state machines and queues.
- Initialisation glue, deferred work, the registry and debug signatures.
