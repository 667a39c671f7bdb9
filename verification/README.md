# Proofs about the Xperia device support code

The repository holds the native code that lets an Android system run on Sony's vendor libraries. This project
models its stateful parts in Dafny and proves what they are for:

- **The copy-on-write vector** of `libshims/utils/VectorImpl.cpp`: reference-counted buffers of raw and constructed
  item slots (`VectorImpl.dfy`), any number of vectors over one heap (`VectorWorld.dfy`), the cost of growth
  (`VectorGrowth.dfy`), the stable insertion sort (`StableSort.dfy`), the binary-searched vector (`SortedVector.dfy`)
  and the calls that edit nothing and destroy items (`EmptyEdits.dfy`). The main result is `World.Play`: over any run
  of operations on any number of vectors, up to the first such call, each vector equals its own independent sequence,
  however buffers came to be shared and whichever allocations failed, and no slot is read raw, overwritten while
  constructed, or freed with an item in it. When a call does destroy items is stated exactly, and no other vector
  notices.
- **The looper** of `libshims/utils/Looper.cpp`: its message queue (`MessageQueue.dfy`), and the wake pipe,
  descriptor requests and poll responses as steps of interleaved threads, each as long as one holding of the lock
  (`Looper.dfy`).
- **The RIL event loop** of `libril/ril_event.cpp`: timers as values (`RilTimers.dfy`), the linked rings that carry
  them (`RilEvent.dfy`), the watch table (`RilWatch.dfy`), and the loop's thread among others
  (`RilEventLoop.dfy`).
- **The RIL wake lock and request protocol** of `libril/ril.cpp` and `libril/ril_service.cpp`: `WakeLock.dfy`;
  `RequestLog.dfy` for the steps of acks and completions and what clients see of them, and `Requests.dfy` for the
  linked pending lists that the steps of any number of threads work on; `ClientReset.dfy` for the unlock, relock and
  compare reset of a dead client's callbacks.
- **The SIM access queue** of `libril/rilSocketQueue.h` and `libril/RilSapSocket.cpp`: `SapQueue.dfy`.
- **The camera parameter rewriting** of `camera/CameraWrapper.cpp`: `Camera.dfy`.

Code that changes state is modelled by classes and arrays, and each method is proved against a function on values;
lemmas prove what the source promises about those functions and about the classes' invariants. A step relation over
threads, or a method that plays any list of steps, stands for all interleavings. `if *` stands for what the code
cannot decide: an allocation that may fail, a full pipe, a system call that may be refused.

Where the code and its comments disagree, the model follows the code:

- `_shrink` says its new capacity is below the old one (`libshims/utils/VectorImpl.cpp:470-474`). That holds exactly
  if the old capacity is above the least, 4 (`VectorGrowth.ShrinkingIsStrict`, `VectorGrowth.ShrinkingCanGrow`).
- Inserting or removing nothing is not nothing. `_grow` and `_shrink` move the items at the index by no slots
  (`libshims/utils/VectorImpl.cpp:439-443`, `:508-511`), and Android's move routine, which the repository does not
  hold, then constructs each item over itself and destroys it. The items stay counted. They survive exactly if the
  index is the end, or a removal copies them to smaller storage, or they have no destructor or are moved as bytes
  (`VectorImpl.Loses`, `VectorImpl.LosesByRemoval`, `VectorImpl.BrokenIsNotValid`; three such calls in
  `EmptyEdits.dfy`).
- Merging a sorted vector keeps both items when the end items it compares are equal, so it is the item-by-item merge
  exactly if they are not (`SortedVector.FastMergeIsMerge`). It compares with this vector's first item, so this vector
  must hold something unless there is nothing to merge. `SortedVector.TieKeepsBoth` is a merge with a tie.
- The looper sleeps past a message that is more than 2^31 - 2 milliseconds off, unless its caller's timeout is in
  time; the bound is exact (`MessageQueue.WaitIsInTime`).
- The reset of a dead client says its caller holds the read lock (`libril/ril_service.cpp:791`). A report of network
  time is made under the write lock (`libril/ril.cpp:798-801`), and after a failed call it goes on under the read lock
  instead (`ClientReset.ComesOutLocked`).
- An ack is looked up under the mutex and sent outside it (`libril/ril.cpp:570-602`), so it can follow its request's
  response. It does exactly if its lookup came before the completion's and its sending after the response
  (`Requests.Ril.LateAcks`), and then it is sent from a record that has been freed (`Requests.Ril.SendNext`);
  `Requests.Ril.AckOvertaken` is such a run. The completion that is made for the vendor's manual network selection
  looks at a freed record exactly if the vendor's own came first and there is more than one list
  (`Requests.Ril.FinishDispatch`).
- A request found in the SIM access queue by message id and token is the one that was completed exactly if no newer
  pending one has the same pair (`SapQueue.FindsItself`, `SapQueue.FindsTheNewer`).
- Camera settings read back the same exactly if an ISO speed is set only where the vendor has an `iso-prio` mode and
  high dynamic range is not set while recording (`Camera.PlainIsHoldable`). A value with `=` or `;`, which Android's
  `CameraParameters` refuses, never reaches the vendor; the exact condition for all values is `Camera.Holdable`, of
  `Camera.RoundTrip`.

## Model

| member | source | states |
|---|---|---|
| VectorWorld.World.Play | libshims/utils/VectorImpl.cpp:50-105 | over any run of copies, assignments and operations on any number of vectors each one equals its own value-semantics sequence and has the capacity its history gives it, up to the first action that destroys items, which is exactly the first to insert or remove nothing in place before the end; an action has no effect exactly when storage was refused |
| VectorWorld.World.Act | libshims/utils/VectorImpl.cpp:115-146 | one action on one vector leaves every other vector's items as they were; it keeps all heap invariants, exactly if it does not move items in place by no slots that such a move destroys |
| VectorWorld.World.OthersStand | libshims/utils/VectorImpl.cpp:86-105 | after an action that destroys items of one vector every other vector is still sound, also if they shared a buffer |
| VectorWorld.World.MakeCopy | libshims/utils/VectorImpl.cpp:50-57 | a copy takes hold of the same buffer, whose count rises by one, and nothing else in the heap changes |
| VectorWorld.World.Reassign | libshims/utils/VectorImpl.cpp:68-84 | assignment leaves the old buffer, freed if nobody else has it, and takes hold of the other's unless that is empty |
| VectorWorld.World.CountIsHolders | libshims/utils/VectorImpl.cpp:364-373 | a buffer is allocated exactly while some vector holds it, and its count is how many do |
| VectorWorld.World.SharersAgree | libshims/utils/VectorImpl.cpp:50-57 | vectors that share a buffer have the same count and items |
| VectorWorld.World.ConstructedIsCounted | libshims/utils/VectorImpl.cpp:364-514 | unless an action has destroyed items, `mCount` never exceeds the capacity, and the constructed slots of a live buffer are exactly its first `mCount` for item types with destructors |
| CopyOnWrite.VectorImpl.Apply | libshims/utils/VectorImpl.cpp:146-362 | any operation takes its whole effect on the vector's sequence, or none if an allocation failed; other holders' buffers lose this owner and nothing else; the counted items are all there exactly if it does not edit nothing in place |
| CopyOnWrite.VectorImpl.BrokenIsNotValid | libshims/utils/VectorImpl.cpp:547-553 | a vector whose items were destroyed by such a call is not sound |
| CopyOnWrite.VectorImpl.EditArrayImpl | libshims/utils/VectorImpl.cpp:86-105 | afterwards the vector holds its buffer alone, with the same items and capacity; a shared buffer is left untouched |
| CopyOnWrite.VectorImpl.ReleaseStorage | libshims/utils/VectorImpl.cpp:364-373 | the buffer is freed exactly if this was its last holder, its items having been destroyed |
| CopyOnWrite.VectorImpl.Grow | libshims/utils/VectorImpl.cpp:375-448 | fails exactly if storage was refused or nothing was asked for at the end of full storage, and then changes nothing; else the items lie on either side of free slots, or those at the index are destroyed, exactly if moved in place by no slots |
| CopyOnWrite.VectorImpl.Shrink | libshims/utils/VectorImpl.cpp:450-514 | the cut items are gone and the others in order, or, if smaller storage was refused, nothing changed; the items at the index are destroyed exactly if moved in place by no slots |
| CopyOnWrite.VectorImpl.InsertAt | libshims/utils/VectorImpl.cpp:146-159 | the sequence with copies of the item spliced in; the exact cases of BAD_INDEX and NO_MEMORY; the new capacity; when inserting none destroys what follows |
| CopyOnWrite.VectorImpl.InsertArrayAt | libshims/utils/VectorImpl.cpp:125-134 | the sequence with the array's items spliced in, for an array that is not this vector's own storage; when an array of none destroys what follows |
| CopyOnWrite.VectorImpl.InsertVectorAt | libshims/utils/VectorImpl.cpp:115-118 | another vector's items are spliced in, also when both share one buffer; when an empty one destroys what follows |
| CopyOnWrite.VectorImpl.RemoveItemsAt | libshims/utils/VectorImpl.cpp:278-288 | BAD_VALUE exactly beyond the end; otherwise the index, though the items stay if smaller storage was refused; when removing none destroys what follows |
| CopyOnWrite.VectorImpl.ReplaceAt | libshims/utils/VectorImpl.cpp:255-276 | one item replaced, by the item given or a default one; BAD_INDEX exactly beyond the end |
| CopyOnWrite.VectorImpl.SetCapacity | libshims/utils/VectorImpl.cpp:332-352 | the items never change; the capacity is the one asked for if it is more than the size and storage is had |
| CopyOnWrite.VectorImpl.Resize | libshims/utils/VectorImpl.cpp:354-362 | the sequence cut or filled up to a size |
| CopyOnWrite.VectorImpl.Sort | libshims/utils/VectorImpl.cpp:171-222 | the insertion-sorted sequence, or nothing if the temporary was refused; input in order is not copied or written |
| CopyOnWrite.Heap.InsertionStep | libshims/utils/VectorImpl.cpp:176-218 | one turn of the sort's loop moves one item into its place, every slot being constructed and destroyed in turn |
| CopyOnWrite.Heap.DoMoveForward | libshims/utils/VectorImpl.cpp:440-444 | the items after an index move up past a gap, leaving the gap free; by no slots, those with destructors that are not moved as bytes are destroyed |
| CopyOnWrite.Heap.DoMoveBackward | libshims/utils/VectorImpl.cpp:508-511 | the same, down over a gap |
| EmptyEdits.InsertNoneAt | libshims/utils/VectorImpl.cpp:436-444 | inserting no copies at index 1 of three items destroys the last two |
| EmptyEdits.InsertEmptyAt | libshims/utils/VectorImpl.cpp:115-118 | so does inserting an empty vector |
| EmptyEdits.RemoveNoneAt | libshims/utils/VectorImpl.cpp:505-512 | so does removing none, exactly with room for fewer than eight |
| StableSort.InsertionSortIsStable | libshims/utils/VectorImpl.cpp:171-222 | for any total preorder the result is sorted, a permutation, and keeps each class of equal items in order |
| StableSort.InOrderIsFixed | libshims/utils/VectorImpl.cpp:176-190 | sorting a sequence that is in order changes nothing |
| VectorGrowth.PushAll | libshims/utils/VectorImpl.cpp:235-238 | n pushes onto an empty vector copy at most 3n items in all, leave room for at most half as much again, or 4, and keep what was pushed before storage was refused |
| VectorGrowth.Push | libshims/utils/VectorImpl.cpp:375-448 | a push copies what the vector held exactly if its storage was full, and then takes x + x/2 + 1 |
| VectorGrowth.GrowthPays | libshims/utils/VectorImpl.cpp:391-404 | the new capacity pays for all copying so far |
| VectorGrowth.ShrinkingIsStrict | libshims/utils/VectorImpl.cpp:466-474 | the smaller buffer holds what is left, and is smaller exactly if the old capacity was above 4 |
| VectorGrowth.RoomIsBounded | libshims/utils/VectorImpl.cpp:388-474 | growing leaves room for at most half as much again and shrinking for at most as much again, or 4, and neither changes room that will do |
| VectorGrowth.ShrinkingCanGrow | libshims/utils/VectorImpl.cpp:470-474 | an empty vector given room for two items and then cleared has room for four |
| SortedVector.SortedVectorImpl.IndexOrderOf | libshims/utils/VectorImpl.cpp:597-621 | binary search returns the hit or the insertion point |
| SortedVector.OrderIsUnique | libshims/utils/VectorImpl.cpp:597-621 | there is only one hit or insertion point to return |
| SortedVector.AddIsUpdate | libshims/utils/VectorImpl.cpp:623-632 | add keeps keys strictly increasing and is map update |
| SortedVector.RemoveIsDelete | libshims/utils/VectorImpl.cpp:670-677 | remove keeps keys strictly increasing and is map delete |
| SortedVector.SortedVectorImpl.Add | libshims/utils/VectorImpl.cpp:623-632 | the vector becomes the updated sequence, or nothing changes if storage was refused |
| SortedVector.SortedVectorImpl.Remove | libshims/utils/VectorImpl.cpp:670-677 | the vector becomes the sequence without the item; its index is returned even if it stayed for want of storage |
| SortedVector.MergeIsUnion | libshims/utils/VectorImpl.cpp:635-650 | merging any items one by one is map union, later ones winning |
| SortedVector.SortedVectorImpl.Merge | libshims/utils/VectorImpl.cpp:635-650 | all items are merged, or the first of them if storage ran out; vectors that shared the buffer keep their items |
| SortedVector.SortedVectorImpl.MergeItself | libshims/utils/VectorImpl.cpp:635-650 | merging a vector into itself changes nothing and cannot fail |
| SortedVector.SortedVectorImpl.MergeSortedItself | libshims/utils/VectorImpl.cpp:652-668 | the same by way of the fast merge, unless it holds one item |
| SortedVector.FastMergeIsMerge | libshims/utils/VectorImpl.cpp:652-668 | the fast merge gives the contents of the item-by-item merge exactly if the compared ends do not tie |
| SortedVector.TieKeepsBoth | libshims/utils/VectorImpl.cpp:652-668 | a merge with a tie, where the fast merge keeps two equal items |
| SortedVector.SortedVectorImpl.MergeSorted | libshims/utils/VectorImpl.cpp:652-668 | the vector becomes what the fast merge describes; if storage ran out it is as it was, or holds the first items when merging one by one, and the result says so; vectors that shared the buffer keep their items |
| SortedVector.Canonical | libshims/utils/VectorImpl.cpp:597-621 | a strictly increasing sequence is determined by its items |
| LooperThread.Looper.Run | libshims/utils/Looper.cpp:195-340 | any interleaving of senders, removers, registrations and the looper's thread keeps all the invariants below |
| LooperThread.Looper.Take | libshims/utils/Looper.cpp:195-340 | each step does what it names: sends, removes, registers, waits, delivers or calls back |
| LooperThread.Looper.NeverOversleeps | libshims/utils/Looper.cpp:195-223 | no lost wake-up: with an empty pipe and nobody about to write, the wait ends less than a millisecond after any queued message is due, or at once if it has been due before, unless the message is over 2^31 - 2 ms off |
| LooperThread.Looper.NeverUndersleeps | libshims/utils/Looper.cpp:195-223 | unless the wait is its caller's own it lasts until the time the looper has noted for the next message, which with an empty pipe and nobody about to write is no later than that message is due |
| MessageQueue.WaitIsInTime | libshims/utils/Looper.cpp:201-212 | the wait is in time for the next message exactly if it is at most 2^31 - 2 ms off or the caller's timeout is |
| MessageQueue.WaitsLongEnough | libshims/utils/Looper.cpp:201-212 | the wait is the caller's own or does not end before the next message is due; it is never longer than a caller's timeout, and is the caller's own without a message |
| LooperThread.Looper.Send | libshims/utils/Looper.cpp:500-532 | the message joins the queue; a new head is noticed unless the looper is about to look |
| MessageQueue.EnqueueKeepsOrder | libshims/utils/Looper.cpp:508-514 | the queue stays sorted by time, equal times in send order |
| LooperThread.Looper.RemoveMessages | libshims/utils/Looper.cpp:534-567 | exactly the matching messages go, the others keep their order |
| MessageQueue.RemovalSplits | libshims/utils/Looper.cpp:534-567 | what goes matches, what stays does not, and together they are what was queued |
| MessageQueue.RemovalKeepsOrder | libshims/utils/Looper.cpp:534-567 | what stays is in the order it was in |
| MessageQueue.RemovalTargets | libshims/utils/Looper.cpp:534-567 | a queued message goes exactly if it is the handler's and has the `what` asked for, if one is |
| LooperThread.Looper.Drain | libshims/utils/Looper.cpp:280-313 | the next message is delivered if it is due, and otherwise decides the next wait |
| LooperThread.Looper.AccountedOnce | libshims/utils/Looper.cpp:280-313 | each message sent was delivered, removed or is queued, once |
| LooperThread.Looper.EarlierFirst | libshims/utils/Looper.cpp:280-313 | of two messages queued together the one due earlier, or sent earlier and due at the same time, is delivered first, and none early |
| MessageQueue.DeliverKeepsSound | libshims/utils/Looper.cpp:282-302 | delivering the head when it is due keeps order, conservation and punctuality |
| LooperThread.Looper.HandleEvents | libshims/utils/Looper.cpp:255-276 | the responses are those of all events, in order, and the wake pipe is drained exactly if it was readable |
| LooperThread.OneResponseEach | libshims/utils/Looper.cpp:255-276 | every event on a registered descriptor yields one response, to the request registered for it |
| LooperThread.Conditions | libshims/utils/Looper.cpp:265-269 | which of the four conditions each epoll flag becomes |
| LooperThread.Looper.Awoken | libshims/utils/Looper.cpp:385-395 | reading sixteen bytes at a time empties the pipe |
| LooperThread.Looper.TakeIdent | libshims/utils/Looper.cpp:159-180 | the next response with an identifier is returned, and none is passed over |
| LooperThread.Looper.StartPoll | libshims/utils/Looper.cpp:159-223 | a poll starts only when every response of the last one was returned or called back; its wait is in time for the next message, does not end before it, and is no longer than the caller's timeout |
| LooperThread.Looper.Respond | libshims/utils/Looper.cpp:318-339 | each response's callback is called at most once and then forgotten; its descriptor is registered no more and watched no more if the callback asks to go, unless the kernel refuses, and otherwise stays |
| LooperThread.Looper.PollReturn | libshims/utils/Looper.cpp:231-313 | an error or a timeout comes out of the poll exactly if that is how it ended, unless a message was delivered; all events are heard and the first turn of the message loop is taken |
| LooperThread.Looper.RoundAnswered | libshims/utils/Looper.cpp:159-193 | in a finished poll each response was returned once, in order, or called back once |
| LooperThread.EachAnsweredOnce | libshims/utils/Looper.cpp:408-426 | since a request has a callback or an identifier, its responses are called back or returned, never both |
| LooperThread.Looper.AddFd | libshims/utils/Looper.cpp:408-464 | fails for a missing callback that is not allowed or has no proper identifier, and otherwise exactly if the kernel refuses; the request is recorded exactly if it does not fail, and then the kernel watches the descriptor |
| LooperThread.Looper.RemoveFd | libshims/utils/Looper.cpp:466-487 | 0 exactly for an unregistered descriptor, -1 exactly if the kernel refuses; otherwise the request goes and the kernel stops watching |
| RilEventLoop.EventLoop.Run | libril/ril_event.cpp:345-383 | any interleaving of timers added, events added and deleted and the loop's steps keeps all the invariants below |
| RilEventLoop.EventLoop.Take | libril/ril_event.cpp:345-383 | each step does what it names; the descriptors that select returned are still the ready ones when their events are queued |
| RilEventLoop.EventLoop.NeverSleepsPast | libril/ril_event.cpp:215-238 | in select with an empty pipe and nobody about to write, the sleep ends by the first deadline and every watched descriptor is selected; the pipe always is |
| RilEventLoop.EventLoop.CalcNextTimeout | libril/ril_event.cpp:215-238 | the time until the first deadline, none if it has passed |
| RilEventLoop.EventLoop.Fire | libril/ril_event.cpp:202-213 | pending events are called one by one, and none is left when the loop goes back to its top |
| RilEventLoop.EventLoop.EmptyPipe | libril/ril.cpp:284-294 | the wake pipe is emptied |
| RilEventLoop.EventLoop.TimerOnce | libril/ril_event.cpp:158-213 | each timer added waits, is pending or has fired: one of them, once |
| RilEventLoop.EventLoop.NeverEarly | libril/ril_event.cpp:169-177 | no timer fires unless its deadline had passed |
| RilEventLoop.EventLoop.FiredInTurn | libril/ril_event.cpp:158-213 | a timer that fired goes before every one that had been added when it expired and fired later, is pending or waits: earlier deadline first, the newer of equal ones first |
| RilEventLoop.EventLoop.FirstIsSoonest | libril/ril_event.cpp:300-308 | the first timer bounds the sleep for all of them |
| RilEvents.AddToList | libril/ril_event.cpp:112-119 | the ring stays a doubly linked cycle with the event before the given member |
| RilEvents.RemoveFromList | libril/ril_event.cpp:121-131 | the ring stays a cycle without the event |
| RilEvents.Rings.TimerAdd | libril/ril_event.cpp:286-312 | the timer joins the ring at now plus its delay, and the ring stays sorted |
| RilTimers.InsertKeepsSorted | libril/ril_event.cpp:300-308 | the ring stays sorted by deadline with the newest of equal ones first |
| RilEvents.Rings.ProcessTimeouts | libril/ril_event.cpp:158-180 | exactly the timers whose deadline has passed move to the pending ring, in order |
| RilTimers.ExpireInTurn | libril/ril_event.cpp:158-180 | timers that expire together follow those that expired before and go before those left waiting, unless added later |
| RilTimers.ExpireKeepsSound | libril/ril_event.cpp:158-180 | timers that expire together stay accounted for, in turn, and none early |
| RilTimers.FireKeepsSound | libril/ril_event.cpp:202-213 | a timer that fires leaves the pending ones, stays accounted for and keeps its turn |
| RilEvents.Rings.FireNext | libril/ril_event.cpp:204-211 | the first pending event comes off the ring before it is called |
| RilEvents.Rings.PendingInOrder | libril/ril_event.cpp:169-177 | a batch of expired timers is in order of deadlines, the newest first of those due together |
| RilEvents.Plus | libril/ril_event.cpp:37-47 | timeradd adds microseconds and carries |
| RilEvents.Minus | libril/ril_event.cpp:56-66 | timersub subtracts microseconds and borrows |
| RilEvents.Less | libril/ril_event.cpp:49-54 | timercmp compares microseconds |
| RilWatch.WatchTable.EventAdd | libril/ril_event.cpp:265-283 | the event takes a free slot, or is dropped exactly if there is none; table, `readFds` and `nfds` stay consistent |
| RilWatch.WatchTable.RemoveWatch | libril/ril_event.cpp:134-156 | the slot is emptied and `nfds` lowered to one above the highest left |
| RilWatch.WatchTable.EventDel | libril/ril_event.cpp:315-329 | an event in the table leaves it, any other is ignored |
| RilEventLoop.EventLoop.ProcessReadReadies | libril/ril_event.cpp:182-200 | the watched events whose descriptors select returned are queued once each in slot order behind the timers, and exactly the non-persistent ones of them leave the table |
| RilEventLoop.ReadyAt | libril/ril_event.cpp:182-200 | each ready event has its place in the queue, after those of the ready slots before it |
| RilEventLoop.OnlyReadyOnes | libril/ril_event.cpp:182-200 | nothing else has a place there |
| WakeLock.PartialWakeLock.Run | libril/ril.cpp:662-733 | any run of grabs, releases, vendor timers and firings does to the lock what it does to a client's view of it |
| WakeLock.PartialWakeLock.OneLiveTimer | libril/ril.cpp:662-710 | the lock is held exactly while exactly one uncancelled wake timer exists |
| WakeLock.PartialWakeLock.LetsGoInTime | libril/ril.cpp:712-733 | if due timers have fired, the lock is not held 200 ms after the latest grab |
| WakeLock.CountsOpenGrabs | libril/ril.cpp:662-710 | with paired releases the count is the grabs still open |
| WakeLock.PartialWakeLock.GrabPartialWakeLock | libril/ril.cpp:662-686 | one more grab, due 200 ms from now, by a fresh timer; the one before is cancelled |
| WakeLock.PartialWakeLock.ReleaseWakeLock | libril/ril.cpp:688-710 | one grab fewer, or the lock let go and its timer cancelled |
| WakeLock.PartialWakeLock.UserTimerCallback | libril/ril.cpp:350-364 | a live timer lets go of the lock, any other does nothing to it; the freed record is not pointed to |
| Requests.Ril.Run | libril/ril.cpp:512-660 | any interleaving of dispatches and of the two steps of acks and completions, duplicates and stale tokens too, keeps every invariant of the lists and of the trace |
| Requests.Ril.Take | libril/ril.cpp:512-660 | each step does what it names to the pending requests and to what clients see |
| Requests.Ril.AnsweredOnce | libril/ril.cpp:603-660 | in any interleaving no request has two responses; one handed over has none while pending and its one when no completion of it is between its steps; manual network selection is settled whatever the vendor does |
| Requests.Ril.LateAcks | libril/ril.cpp:570-660 | an ack follows its request's response exactly if its lookup succeeded before the request was taken off and it was sent after the response; once all acks of the request are sent, exactly if one was looked up and not yet sent when the response went |
| Requests.Ril.AckOvertaken | libril/ril.cpp:570-660 | a run in which it does, and reads a freed record |
| Requests.Ril.ExpectsAcks | libril/ril.cpp:632-641 | a response expects an ack exactly from version 13 on and if an ack found its request |
| RequestLog.LateIsForeseen | libril/ril.cpp:570-602 | whether an ack will follow is settled when the response goes: exactly if one has been looked up and not sent |
| RequestLog.LateWasUnderWay | libril/ril.cpp:570-602 | an ack that follows the response was already looked up and not yet sent when the response went |
| RequestLog.BelatedIsOvertaken | libril/ril.cpp:582-597 | an ack about to go is overtaken exactly if its request has its response, when the record is freed |
| RequestLog.PromptAcksComeFirst | libril/ril.cpp:570-602 | an ack sent straight after its lookup comes before the response |
| RequestLog.AckCanBeLate | libril/ril.cpp:570-660 | the shortest trace with a late ack, reached by the steps themselves |
| RequestLog.DequeueKeepsSound | libril/ril.cpp:603-612 | only one completion takes a request off, and it knows whether the request was acked |
| RequestLog.LookUpKeepsSound | libril/ril.cpp:570-581 | an ack goes ahead only for a request that is pending |
| RequestLog.SendKeepsSound | libril/ril.cpp:590-657 | each call sends once, and for the request it found |
| RequestLog.StrandKeepsSound | libril/ril_service.cpp:518-521 | an error response for a request the vendor never got is its only one |
| RequestLog.StrandedAnswers | libril/ril_service.cpp:518-551 | a request that cannot be put together gets one response if memory was short and none if a string was cut short, and no other request gets one by it |
| RequestLog.OneResponse | libril/ril.cpp:603-660 | the number of responses is 0 while a request is pending or its completion has yet to respond, and 1 afterwards |
| Requests.Ril.AddRequestToList | libril/ril.cpp:206-261 | the request joins its socket's list, and there is no record exactly for an unknown command or without memory |
| Requests.Ril.OwnLists | libril/ril.cpp:206-234 | two sockets share a list only if both are the first or have none of their own |
| Requests.PendingList.CheckAndDequeueIfAck | libril/ril.cpp:512-569 | the record is found exactly if it is on the list, and unlinked unless only acked |
| Requests.Ril.StartAck | libril/ril.cpp:512-581 | an ack finds its request exactly if that is pending, and marks it; nothing is sent yet; it reads a freed record exactly if the response has gone and there is more than one list |
| Requests.Ril.StartComplete | libril/ril.cpp:512-612 | a completion takes its request off exactly if that is pending; likewise |
| Requests.Ril.SendNext | libril/ril.cpp:582-659 | the second step of either sends the ack, or the response with the error given and the kind that the record and the version call for and frees the record; it reads a freed record exactly if it is an ack that the response overtook |
| Requests.Ril.DispatchStrings | libril/ril_service.cpp:592-630 | the request is handed over exactly if its command is known, there was memory for its record and its strings were copied; dropped without a trace for want of a record; and otherwise stranded, with an error response exactly if memory was short |
| Requests.Ril.FinishDispatch | libril/ril_service.cpp:632-646 | manual network selection is completed for the vendor once its call returns, to no effect if the vendor was first; it reads a freed record exactly if the vendor's response has gone and there is more than one list |
| ClientReset.ClearsOnlyItsOwn | libril/ril_service.cpp:784-828 | in any interleaving a reset clears the callbacks exactly if they are those its own failed call used, whichever way that held the lock |
| ClientReset.ClearedOnce | libril/ril_service.cpp:784-828 | no registration is cleared twice, however many calls fail on it |
| ClientReset.ComesOutLocked | libril/ril_service.cpp:784-828 | whatever other threads do, a call that succeeds leaves its thread the lock as it held it, and one that fails leaves it the same lock for reading |
| ClientReset.RunIsValid | libril/ril.cpp:795-815 | every reachable state, calls made under the read lock or alone under the write lock, has exclusive writers and threads that remember what counters stood for |
| ClientReset.StepsCompatibly | libril/ril.cpp:795-815 | no step of a thread gets it a lock that others hold against it |
| ClientReset.NextKeepsRecorded | libril/ril_service.cpp:834-855 | every change of a service's callbacks moves its counter, and no registration comes twice, so the counter tells every registration apart |
| ClientReset.InstallsItsOwn | libril/ril_service.cpp:834-855 | in any interleaving a thread that has registered callbacks finds its own there until it gives the lock up, and the counter is the service's registrations and clearings so far |
| ClientReset.NextKeepsTallied | libril/ril_service.cpp:784-855 | a service's counter stays the number of its registrations and clearings |
| ClientReset.RegistrationInstalls | libril/ril_service.cpp:834-855 | where nobody else has the lock a registration goes through: new callbacks, the counter one up, other services as they were, the lock given up |
| ClientReset.FailureClears | libril/ril_service.cpp:784-828 | where nobody else has the lock a failed call clears its callbacks, moves the counter by one and goes on under the lock for reading |
| ClientReset.CallGetsThrough | libril/ril.cpp:795-815 | where the lock may be taken a call is made with the callbacks there are, and the lock is given up after it |
| ClientReset.LocksOfSlots | libril/ril_service.cpp:8592-8606 | slots 2 to 4 have locks of their own and all others the first |
| SapQueue.RilQueue.CheckAndDequeue | libril/rilSocketQueue.h:136-156 | the newest request with the id and token is unlinked and freed |
| SapQueue.RilQueue.Enqueue | libril/rilSocketQueue.h:120-134 | the request joins at the front |
| SapQueue.RilQueue.Dequeue | libril/rilSocketQueue.h:101-118 | the newest request is taken |
| SapQueue.FindsItself | libril/rilSocketQueue.h:136-156 | a request is found by its own pair exactly if no newer one has the same |
| SapQueue.FindsTheNewer | libril/rilSocketQueue.h:136-156 | of two with the same pair the newer is found |
| SapQueue.RilSapSocket.OnRequestComplete | libril/RilSapSocket.cpp:233-275 | with distinct pairs the record unlinked and freed is the one the vendor completed, with its header |
| SapQueue.RilSapSocket.DispatchRequest | libril/RilSapSocket.cpp:200-231 | nothing happens exactly if there is no memory; else the request is queued before the vendor is called, which gets its token and may complete it at once |
| SapQueue.RilSapSocket.Take | libril/RilSapSocket.cpp:200-275 | a dispatch adds its request in front of all dispatched unless there is no memory, and a completion takes one off |
| SapQueue.RilSapSocket.Run | libril/RilSapSocket.cpp:200-275 | over any run the queue is exactly the requests dispatched and not completed, newest first, and nothing else is allocated |
| Camera.RoundTrip | camera/CameraWrapper.cpp:182-347 | ISO speed, shutter speed and scene read back as they were set exactly if the vendor can hold them |
| Camera.PlainIsHoldable | camera/CameraWrapper.cpp:182-347 | for values that can be set, that is a vendor that can give the ISO speed priority, and no high dynamic range while recording |
| Camera.SetAndRead | camera/CameraWrapper.cpp:182-347 | the code does so, for a vendor that keeps what it is given |
| Camera.CameraParameters.FixupSetParams | camera/CameraWrapper.cpp:267-347 | what each parameter is after setting, values that are refused included; and what the vendor can count on: the stabilisers, the exposure mode, and that nothing else changes |
| Camera.CameraParameters.FixupGetParams | camera/CameraWrapper.cpp:182-265 | what each parameter reads as, values that are refused included; and what the application can count on: the lists of scenes and ISO modes, video HDR, and that nothing else changes |
| Camera.SetsProperly | camera/CameraWrapper.cpp:267-347 | recording turns the image stabiliser off and the video stabiliser to a mode the vendor lists, the intelligent one if it can, or off; otherwise still HDR is chosen for the HDR scene alone; the exposure mode is the one that the application's choices ask for, and one the vendor lists if they ask for none |
| Camera.ReadsProperly | camera/CameraWrapper.cpp:162-224 | the scenes gain `hdr` exactly if the vendor's stabiliser has still HDR; the ISO modes are the vendor's, prefixed; video HDR and its values are the vendor's |
| Camera.VideoHdrRoundTrip | camera/CameraWrapper.cpp:220-323 | video HDR reads back as it was set exactly if the vendor has none, can be given the value, or has one that cannot be read |
| Camera.ModesAreFound | camera/CameraWrapper.cpp:162-333 | a mode that is in a comma-separated list is found by the search the code makes in it |
| Camera.FindsParts | camera/CameraWrapper.cpp:170-329 | that search finds exactly the parts of a string |
| Camera.StaysWritten | camera/CameraWrapper.cpp:267-347 | parameters that could be written out before setting can be afterwards: no value gets a character that separates them |
| Camera.StaysReadOut | camera/CameraWrapper.cpp:182-265 | the same of reading |
| Camera.StepsAddUp | camera/CameraWrapper.cpp:267-347 | the steps of setting, one after another, leave each parameter as stated |
| Camera.ListIsoModes | camera/CameraWrapper.cpp:195-210 | the buffer ends up holding the list with every mode prefixed |
| Camera.IsoModesAreListed | camera/CameraWrapper.cpp:195-210 | split at its commas, that list is each of the vendor's modes prefixed, in order, and then `auto` |

## Left out

- Size arithmetic: sizes are unbounded integers, so the checked additions and multiplications that abort the process on overflow, and the wrap of reset counters, are not modelled.
- CopyOnWrite.VectorImpl.InsertArrayAt: an array inside the vector's own storage is excluded, since the code moves it before it reads it; likewise an item pointer into it.
- CopyOnWrite.VectorImpl.InsertVectorAt: inserting a vector into itself is excluded for the same reason.
- Platform helpers that the repository uses but does not hold: `SharedBuffer`, `toMillisecondTimeoutDelay`, `CameraParameters` and the routines that construct, copy, move and destroy items are modelled by what Android defines. An item constructed over itself counts as destroyed by the destructor that follows.
- SortedVector.SortedVectorImpl.MergeSortedItself: a vector of one item is excluded, since it is then inserted into itself.
- SortedVector.SortedVectorImpl.MergeSorted: merging items into an empty vector is excluded, since the code then compares with an item that is not there.
- LooperThread.Looper.HandleEvents: a byte written to the wake pipe between two reads of one draining counts as written before it.
- LooperThread.Looper.Run: descriptors closed without being removed, which the kernel then forgets, and pollOnce called from a callback are not modelled; nor is pollAll, which only repeats pollOnce.
- RilEventLoop.EventLoop.AddWatch: only descriptors that are nonnegative and not yet watched are added.
- RilEvents.Rings.TimerAdd: delays and clock readings are normal, with microseconds from 0 to 999999.
- The start-up of the event loop thread and its pipe.
- VectorWorld.World.Play: what becomes of a vector once items it counts have been destroyed is not modelled.
- WakeLock.PartialWakeLock.Run: each grab, release and timer callback is one step and allocation succeeds; below version 13, where nothing is counted, is not modelled.
- Requests.Ril.Run: tokens are never reused, a freed record that is read still has its fields, the vendor uses tokens it was handed, and putting a request together is one step up to the vendor's call. The fields `cancelled` and `local` are never set and not modelled.
- ClientReset.RunIsValid: error responses that are sent holding no lock at all are not modelled.
- SapQueue.RilSapSocket.Run: requests whose message id and token a pending one has are not sent, and each token is completed once.
- SapQueue.RilQueue.Dequeue: waiting for a queue to fill is not modelled; it is called on one that is not empty.
- Camera.CameraParameters.FixupSetParams: parameters the code compares without looking whether they are there must be there, and an ISO speed has at least its three-letter prefix.
- Camera.CameraParameters.FixupGetParams: the list of ISO modes fits its 255-byte buffer. Strings have no size, so neither the 512-byte buffer of the scene modes, into which they are put unchecked, nor the ISO value's own, allocated one byte short of its terminator in the `iso-prio` and `manual` branches, is modelled; nor is the text form of the parameters.
- Request and response marshalling, name tables, protocol buffers, camera operation forwarding, lights, vibrator, shims, settings and build files: copies and wrappers with no deep property.
