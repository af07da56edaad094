# Verification of Forkscan's reclamation protocol

Forkscan frees retired memory once no thread can reach it. A collector thread stops the program, forks, and lets
sibling child processes mark the retired blocks that the snapshot still refers to. Unmarked blocks are then freed
cooperatively by the application's threads; marked ones go into the next round. This project models that pipeline in
Dafny 4.11 and proves what it is for. `dafny verify dfyconfig.toml` checks everything.

## What is modelled

Protocols are step systems in which any interleaving of the steps is allowed; a run is any sequence of steps. In-place
algorithms are methods over arrays and linked nodes. Where siblings write the shared array with plain racy writes, the
method lets the others mark entries before each of its own reads.

A step makes one access to shared state, with these exceptions, none of which loses an interleaving:

- A critical section is one step when everything it touches is touched only under the same lock or only by the thread
  itself: the retiree list, the queue and its counter, the broadcast. The throttled thread reads the counter outside
  the lock, in steps of its own; only the collector thread changes it then.
- `Retirees.TakeStep` reads an entry and overwrites it. Only the thread that claimed the entry ever writes it, so what it
  has read is still there when it writes, and others cannot see the read.
- `Handoff.DrainRing` is a whole bulk pop. `RingSteps.DrainIsBulkPop` shows that a pop copied value by value, whatever
  the producer does meanwhile, has the effect of the drain at the moment when it read the head index.
- `Reclaim` has one step each for the fork, the publication and the free. No thread runs at the fork
  (`Handshake.AllParkedAtFork`), and `Retirees` takes publication, claiming and freeing apart.

| file | what it models |
|---|---|
| `Words.dfy`, `Snapshots.dfy` | pointer masking and mark bits; pool, roots and reachability in a snapshot |
| `Sequences.dfy` | sums and distinct elements, shared by the other files |
| `Marking.dfy`, `MarkingAsWritten.dfy`, `MarkingExamples.dfy` | any number of siblings marking one shared pool (child.c) |
| `MarkingProgress.dfy`, `MarkingSchedules.dfy` | that marking ends with a notification; the schedules on which the code as written misses blocks |
| `Reclaim.dfy`, `ReclaimExamples.dfy` | the whole collector with mutating threads interleaved, joined to `Marking` |
| `Garbage.dfy`, `Collection.dfy` | what the threads' steps do to what they can reach, and what the collector can free |
| `LooseRounds.dfy`, `EmptyRounds.dfy`, `Iterations.dfy` | rounds with an empty working buffer: in the whole collector, on the buffers, and how they come about |
| `Search.dfy`, `Tracing.dfy`, `Lookasides.dfy`, `Roots.dfy`, `Siblings.dfy` | one sibling's code on the shared array, under interference, and what the siblings leave there together |
| `Sorting.dfy` | quicksort and compaction in place (util.c) |
| `Retirees.dfy`, `RetireesExamples.dfy`, `RetireesProgress.dfy` | claims, frees, reference counts and releases of published buffers; that the releases come |
| `Buffers.dfy` | the linked lists of buffers, aggregation, and the gathering of dead references |
| `Handshake.dfy`, `HandshakeRounds.dfy`, `ForkPoint.dfy` | stopping the threads before the fork and letting them go on; joined to `Retirees` |
| `Handoff.dfy`, `HandoffRuns.dfy`, `HandoffProgress.dfy` | rings, reclaimer lock, queue and throttle; what has been asked for is conserved, and can always be freed |
| `RingQueue.dfy`, `RingSteps.dfy` | the ring buffer, and its steps with one producer and one consumer |
| `AllocMap.dfy`, `ScanRanges.dfy` | Forkscan's own memory map, and the cutting of scan ranges out of a mapping |

## Where the code does not do what it is meant to

The code is modelled as written, the failure is shown on a concrete input, and the condition under which the code does
what it should is proved.

- `child.c:168` recurses on the block being scanned, not on the entry just marked, although the comments there and the
  five-node loops of `test/cycles.c:87-118` want the closure. Both versions are modelled (`Recursion`). With the target
  as argument the marks are exactly the reachable entries. As written every root is marked and nothing beyond two
  levels ever is: a chain of three blocks loses its last one, and a reachable block is freed. In every run the marks
  are exactly the roots and the targets of the roots that were found unmarked when looked up. They are complete on every
  schedule and for every division of the scanned words into ranges if and only if each reachable entry is a root or is
  carried by one: some root refers to it, and so does every root that refers to that root (`Carried`). This is for any
  number of siblings; a run that misses an entry may need one for each root, and `child.c:455-458` caps their number.
- `util.c:241` and `util.c:248` read `free_idx` twice. If another thread claims the last range in between, the
  compare-and-swap succeeds on an empty range, and the thread reads behind the end. A successful claim is sound if and
  only if `free_idx` was below `n_addrs` at the second read. The results about publications hold in every run, up to
  the first read behind the end. Some run reads behind the end if and only if there are two threads or more.
  All publications can still be released if and only if no thread is bound to do so: it is once it stands at the end of
  its buffer between the two reads, or has read `free_idx` there.
- `forkscan.c:135` asserts that the working buffer is not empty, but the Makefile compiles assertions out, and
  `forkscan_force_reclaim` with nothing retired leads to an empty one (`Iterations.ForcedIterationGoesWrong`). The
  collector thread then drops the last reference while the buffer is listed, `buffer.c:218-227` puts it into the pool of
  aggregates, and a freeing thread releases it a second time. If the next round comes first, its survivors are copied to
  that buffer, where the freeing threads find them unmarked and unclaimed: reachable blocks are freed, even with the
  recursion on the target. A publication is released at most once and only off the list, and what is reachable stays
  safe, if and only if the working buffer has entries. Two things rest on that: `Retirees` takes a publication for one
  use of a buffer, and `Search.Prepared` wants at least one entry.
- `child.c:78` and `child.c:80` read the first entry of the window twice. If its value is the one searched for and
  another sibling marks it in between, the result is the index before the window, which for index 0 is -1. That is
  the only way to get it, and it cannot happen in the lookaside pass, nor to a sibling that marks alone. With
  assertions compiled in, `is_ref` then aborts the child. Without them (the default of the Makefile) `recursive_mark`
  looks at the word in front of the addresses, the last of the buffer's header page (`buffer.c:130-136`), which is 0; the
  entry counts as marked, which it is. `find_roots` goes wrong if and only if besides `MALLOC_USABLE_SIZE(NULL)` exceeds
  the start of the range.
- `child.c:501-521`: a sibling that claimed no range may also see the full total, so more than one sibling can notify
  the parent. Among those that claimed a range exactly one does.
- `buffer.c:239-244` allocates the buffer for the dead references between the last acknowledgement and the first fork,
  which takes `list_lock` (`alloc.c:165`). A reclaimer that makes its buffer (`frontend.c:97`, `buffer.c:68`) can be
  stopped with that lock in its hands. Then the first round hangs for ever; otherwise the fork can come, and no later
  round can hang.
- `buffer.c:175-177` fears a removal that is not at the front of the list. `RetireeList.Pop` shows that it would break
  the last pointer exactly when the last of several nodes is removed; `PopTakesTheFront` shows that this cannot happen.

## Assumptions

Blocks are word-aligned and disjoint and have a positive usable size in whole words; nothing is retired twice; threads
do not hide references or keep only interior ones; no thread starts or ends during a handshake or exits holding
retired pointers; the siblings of a round have exited before their buffer is used again; condition variables do not
wake up spuriously; counters and indices do not wrap; the range table does not overflow. `mmap` returns memory that
nobody owns. The pages that hold metadata nodes are never unmapped.

## Model

| member | source | states |
|---|---|---|
| Marking.MarkedIsReachable | child.c:145-228 | With the recursion on the target: after a notification, in any run of any number of siblings, the marked set is exactly the set of pool entries reachable from the scanned words |
| Marking.EveryMarkIsScannedOrPending | child.c:145-171 | In every reachable state each marked entry is reachable, and all it refers to is marked or it is on some sibling's stack |
| Marking.MarkedAsWritten | child.c:145-171 | With the recursion as written: nothing unreachable and nothing beyond two levels is ever marked, and a notification means that every root is |
| MarkingAsWritten.MarkedAsWrittenIs | child.c:145-228 | In every run of the code as written that notifies the parent, the marks are exactly the roots and the targets of the roots found unmarked when looked up; they are complete if and only if every reachable entry is one of these |
| MarkingAsWritten.MarkedAsWrittenComplete | child.c:161-168 | If every reachable entry is a root or carried by one, each run of the code as written that notifies has marked exactly the reachable entries |
| MarkingSchedules.MarkedAsWrittenExactly | child.c:161-168 | That condition is exact: the code as written marks everything reachable for every number of siblings, on every schedule and for every division of the scanned words into ranges if and only if each reachable entry is a root or carried by one |
| MarkingSchedules.UncarriedIsMissed | child.c:161-168 | For an entry that is reachable, no root and not carried: with a one-word range and a sibling for each root (if there may be so many), a run of the code as written that notifies the parent and leaves that entry unmarked |
| MarkingProgress.RunsAreBounded | child.c:145-228 | No run of n siblings, whatever its schedule, is longer than a bound computed from the snapshot and n |
| MarkingProgress.MaximalRunNotifies | child.c:481-521 | A sibling that has not finished can always take a step, and a run that cannot be continued has notified the parent |
| MarkingProgress.LookasideFits | child.c:296-304 | A sibling's list never overflows, and is looked up exactly when it is full or its sibling has nothing left to search |
| MarkingProgress.NotificationComes | child.c:481-521 | Every run can be continued until the parent is notified |
| Marking.NotificationMeansAllSearched | child.c:485-521 | A notification implies that every range was searched by its owner and counted, and that no sibling has anything left to look up or to scan |
| Marking.EachRangeHasOneOwner | child.c:481-494 | No two siblings ever hold the same range |
| MarkingProgress.OneClaimerNotifies | child.c:501-521 | Of the siblings that claimed a range at most one notifies, and once all are done exactly one has, if there is a range |
| MarkingExamples.AsWrittenMissesAGrandchild | child.c:168 | On a chain of three blocks, no run of the code as written marks the third, and the parent is notified all the same |
| MarkingExamples.IdleSiblingNotifiesToo | child.c:515-521 | A run in which a second sibling, which claimed nothing, notifies too |
| Reclaim.NothingReachableIsFreed | forkscan.c:161-245 | In every run of mutators, rounds, marking, publication and freeing, as long as no round has had an empty working buffer: what a thread can reach is allocated, not dead, and cannot be freed |
| LooseRounds.RoundIsSafeExactly | forkscan.c:135 | That condition is exact: when a round is published, everything reachable stays safe as long as no further round is empty if and only if the working buffer of this one is not empty |
| LooseRounds.EmptyRoundFreesAReachableBlock | forkscan.c:229-244 | A run with an empty round that frees a block which a thread refers to, with the recursion on the target |
| Reclaim.NothingReachableIsFreedAsWritten | child.c:161-168 | The same for the recursion as written, in runs without an empty round in all of whose snapshots each reachable entry is a root or carried by one |
| Collection.CollectedExactly | forkscan.c:161-245 | In every reachable state without an empty round, a retired block can be freed by the collector alone if and only if neither a thread nor a block that has not been retired leads to it |
| Garbage.AcquiredExactly | forkscan.c:178-207 | What `NothingReachableIsFreed` calls reachable is exactly what a thread can get hold of by loading words, which changes nothing else |
| Garbage.StoreReplaces | forkscan.c:178-207 | A store writes its word: the block refers to the new target, to the old one only if another word does, and nothing becomes reachable by it |
| Garbage.AllocAdds | frontend.c:168-184 | A new block is held by the thread, not retired, and refers to nothing; everything else is as before |
| Garbage.DropForgets | forkscan.c:178-207 | After a reference is dropped, exactly what the other references lead to can be reached |
| Garbage.RetireHandsOver | frontend.c:191-207 | To retire a block changes its kind and nothing that a thread can reach |
| Reclaim.PublishedExactly | forkscan.c:229-244 | In runs without an empty round so far, publication turns exactly the pool entries unreachable in the snapshot into dead blocks, whatever the threads did since the fork |
| Reclaim.PublishedAsWritten | child.c:161-168 | With the recursion as written, in every run without an empty round so far, publication turns exactly the pool entries into dead blocks that are neither roots nor targets of a root found unmarked when looked up |
| Reclaim.UnmarkedIsDoomed | child.c:230-235 | What is about to be published unmarked is exactly what was unreachable at the fork |
| ReclaimExamples.AsWrittenFreesAReachableBlock | child.c:168 | As written, some run frees a block that a thread can still reach |
| Search.IterativeSearch | child.c:76-85 | Under concurrent marking: the result is where the value belongs, or the place before its entry if that is marked; it lies before the window only if the entry at its start was marked by another sibling meanwhile |
| Search.UnderflowsExactly | child.c:78-84 | The result lies before the window if and only if the value's entry is first and is marked between the two reads |
| Search.UnderflowAtZero | child.c:78-84 | Two reads of a pool of one entry, which is marked in between, for which the result is -1 |
| Search.BinarySearch | child.c:87-99 | The same guarantee for the narrowing search |
| Search.FoundOrMarked | child.c:101-104 | A search that lands as specified finds a present value at its index, or just before it if its entry is marked already |
| Search.FindPage | child.c:107-115 | Level 1 picks the page of addresses that the value belongs to |
| Search.AddrFind | child.c:101-117 | The two-level search stays in bounds and lands where the value belongs; the result is -1 if and only if the value's entry is the first and was read without its mark and then with it |
| Search.AddrFindHint | child.c:119-143 | Whatever the cacheline bound, the hint never reaches n_addrs for a value at most the last entry, a present value is found unless already marked, and the result is never -1 |
| Search.GenerateMinimap | forkscan.c:99-112 | The minimap holds the first address of each page, one entry a page, and fits the space set aside for it |
| Tracing.Probe | child.c:157-163 | A pool value that is not reported as unmarked is marked |
| Tracing.SetMark | child.c:165-167 | The racy write marks the entry and changes nothing else, whoever else writes it |
| Tracing.MarkWord | child.c:153-169 | One word: afterwards its entry is marked, whatever the search answered; all new marks are reached from the block |
| Tracing.RecursiveMark | child.c:145-171 | Terminates under any interference; every entry that the block refers to ends up marked; with the recursion on the target so does everything its own marks refer to; its marks are new and reached from the block |
| Lookasides.Lookaside.Tidy | child.c:185-194 | Sorting and compaction leave the same values, each once, in increasing order |
| Lookasides.LookUpNext | child.c:197-211 | One value: found by the hint or already marked, and the entries below the new hint are smaller than the value |
| Lookasides.Lookaside.Flush | child.c:173-228 | Every value put aside that is in the pool is marked, as if each were looked up alone; marks go back to values put aside |
| Roots.FindRoots | child.c:236-321 | Examines exactly the aligned words of [low, high) in no tracked and no dead block, each once and in order; each pool entry they refer to is marked or put aside; this fails if and only if low is the first entry, the first search read that entry unmarked and then marked, and NULL has a usable size beyond low |
| Roots.Start | child.c:265-286 | After the two searches both cursors stand at blocks not before low, and nothing outside the blocks has been skipped; the assertion low <= pool_addr fails if and only if the first search has gone wrong as above, and then low is behind the first entry |
| Roots.PassBlock | child.c:308-319 | Stepping over a block skips no word outside the blocks and leaves both cursors at or after low (the assertion guarded_addr >= low) |
| Roots.CursorsDiffer | child.c:285-318 | The two cursors are never on the same block |
| Roots.UpToStop | child.c:287-291 | Up to the next stopping point every word is outside the blocks |
| Roots.ExamineWord | child.c:292-304 | A word outside the bounds is no pool entry, any other is put aside, and a full list is flushed before it overflows |
| Roots.ScanMarksReachable | child.c:230-235 | A scan of the snapshot's range marks only reachable entries and puts only roots of the pool aside |
| Roots.ScanMissesNoRoot | child.c:230-235 | A scan of the snapshot's range leaves every root in it marked or put aside |
| Siblings.SearchClaims | child.c:481-499 | One sibling over all the ranges it claims and the last look at its list: every root of those ranges is marked, its marks are reachable, and with the recursion on the target all they refer to is marked |
| Siblings.MarksTogether | child.c:446-521 | Siblings that have each done that, with every range claimed by one of them, leave sound marks on every root in the shared array, and with the recursion on the target exactly the reachable entries are marked there |
| Siblings.MarksOfATrace | child.c:446-521 | The same for any interleaving of the siblings' writes to the array, each at work for a while and writing at no other time |
| Sorting.Partition | util.c:317-333 | Permutes the range around a pivot value |
| Sorting.InsertionSort | util.c:335-343 | Sorts [min, max] and moves nothing below min although the loop is bounded by index 0, given that what lies left of min is at most what lies in the range |
| Sorting.QuickSort | util.c:350-359 | Sorts [min, max] in place, a permutation, with that condition carried through the recursion |
| Sorting.Sort | util.c:365-368 | The array ends up sorted and a permutation of what it was |
| Sorting.SortedIsUnique | util.c:361-368 | There is only one such array |
| Sorting.Compact | util.c:387-403 | The distinct values move to the front in order, the rest stays, and the result is the number of duplicates |
| Sorting.DedupIsStrict | util.c:384-386 | What compaction leaves of a sorted list is strictly increasing |
| Sorting.DedupKeepsElements | util.c:384-386 | Compaction loses no value and adds none |
| Retirees.FreedAtMostOnce | util.c:257-268 | With any number of threads freeing: no entry is freed twice, no survivor is freed, and no two threads have the same entry in hand |
| Retirees.ReleasedBufferIsSpent | forkscan.c:229-244 | When a buffer is released each unmarked entry has been freed exactly once and the marked ones are, in order, what the next round starts with |
| Retirees.ReleasedOnceWhenUnused | buffer.c:218-227 | A buffer with entries is released at most once, exactly when its count is zero and all of it is claimed, and then it is in no list and nobody refers to it; a buffer without entries is released twice at most |
| Retirees.PublicationIsSafeExactly | forkscan.c:135 | In every continuation a publication is released at most once and only off the list, if and only if it has entries |
| RetireesExamples.EmptyIsReleasedTwice | buffer.c:218-227 | From every state with an empty list: a publication without entries that is released twice |
| Iterations.IterationIsSafeExactly | forkscan.c:229-244 | With the queue joined on: what an iteration publishes is released well in every continuation if and only if its working buffer is not empty |
| Iterations.EmptyIterationExactly | forkscan.c:114-159 | The working buffer is empty if and only if nothing survived the round before and every queued buffer is empty |
| Iterations.ForcedIterationGoesWrong | frontend.c:253-264 | For any configuration and number of threads: a forced iteration with nothing retired, whose working buffer is released while it is listed |
| EmptyRounds.FinishIteration | forkscan.c:229-244 | On the buffers themselves: the working buffer is listed, its marked entries are copied without their marks, and afterwards a buffer is both listed and pooled if and only if the working buffer was empty |
| EmptyRounds.SurvivorsAreListed | forkscan.c:229-244 | After an empty round, the first buffer of the list is the one that the next round copies its survivors to, with nothing claimed |
| RetireesProgress.ReleasesComeExactly | util.c:223-270 | In every reachable state, with any number of threads at least one: all publications with entries can still be released if and only if no thread is bound to read behind the end of one |
| RetireesProgress.NextRangeIsClaimed | util.c:248-256 | A thread alone that finds free_idx below n_addrs claims the next FREE_RANGE_SZ entries, or as many as are left |
| RetireesProgress.BufferIsTakenOrNone | util.c:231-237 | A thread without a buffer takes the first of the list, or leaves if there is none |
| Retirees.PopTakesTheFront | buffer.c:184-203 | A buffer that a thread holds is the first of the list or has left it |
| Retirees.ClaimsTile | util.c:248-256 | The claimed ranges tile [0, free_idx), and each is nonempty unless it was claimed at the end of the buffer |
| Retirees.ClearMeansUnfreed | buffer.c:257-262 | With all threads outside, an entry has clear low bits exactly when it was published unmarked and is not freed |
| Retirees.DeadReferencesAreUnfreed | buffer.c:229-273 | Every address gathered is that of an unfreed entry, and unless the capacity is exceeded all of them are gathered |
| Retirees.OverrunNeedsStaleClaim | util.c:241-254 | A thread reads behind the end only in runs with an empty claim, at the end of a buffer |
| Retirees.StaleClaimOverruns | util.c:248-257 | A successful claim makes the thread read behind the end if and only if free_idx was at the end when read again |
| RetireesExamples.OverrunsExactly | util.c:241-257 | Some run has such a claim, or reads behind the end, if and only if there are two threads or more |
| RetireesExamples.AsWrittenOverruns | util.c:241-257 | A run in which that happens, for any number of threads from two on |
| Buffers.PagesSuffice | buffer.c:114-119 | The pages mapped hold the capacity, and the minimap pages hold an entry for each page of addresses |
| Buffers.MakeAggregate | buffer.c:82-146 | The first pooled buffer that is large enough, or a new one; those before it are dropped |
| Buffers.MakeReclaimer | buffer.c:45-80 | The first pooled reclaimer buffer, emptied, or a new one of the default capacity |
| Buffers.RetireeList.PushBack | buffer.c:166-182 | Appends, with one reference and nothing claimed, and keeps the list and its last pointer right |
| Buffers.RetireeList.Pop | buffer.c:184-203 | Removes the buffer if it is there; the last pointer stays right if and only if it was not the last of several |
| Buffers.RetireeList.Get | buffer.c:205-216 | The first buffer with one more reference, nothing else changed |
| Buffers.RetireeList.Unref | buffer.c:218-227 | Releases to the right pool exactly when the last reference goes and everything is claimed; the list stays well formed unless the buffer released is still in it |
| Buffers.ReleaseBuffer | buffer.c:148-164 | Pushes the buffer on the pool of its kind |
| Buffers.AggregateAddrs | forkscan.c:114-159 | The survivors followed by the contents of all queued buffers; in the survivors' own buffer exactly if its capacity exceeds their number, and otherwise in another one of enough capacity, with the survivors' buffer back in the pool |
| Buffers.GetDeadReferences | buffer.c:229-273 | The entries with clear low bits of the listed buffers in order, cut off at the capacity |
| Handshake.AllParkedAtFork | forkscan.c:178-207 | From the last acknowledgement to the fork each thread has acknowledged this round's signal exactly once, has none outstanding, waits for the fork and is outside the g_in_malloc region |
| Handshake.RoundIsNeverStuck | frontend.c:111-137 | While acknowledgements are missing some thread that owes one can take a step that lowers a rank of at most seven for each thread, and no step of anyone raises it |
| Handshake.AcknowledgementsCome | forkscan.c:178-182 | From every state in which acknowledgements are waited for, at most that many steps lead to the last of them |
| Handshake.ForksExactly | buffer.c:234-253 | With all acknowledgements counted, the fork can come if and only if the buffer for the dead references exists or nobody was stopped holding list_lock; otherwise nothing ever changes again |
| Handshake.LaterRoundsFork | buffer.c:238-253 | After the first fork the buffer exists, so no later round hangs |
| Handshake.FirstRoundCanHang | buffer.c:239-244 | A run whose first round hangs |
| HandshakeRounds.AcknowledgeReturns | forkscan.c:254-262 | Once the counter has changed, a waiting thread leaves by one step: the handler to where it interrupted, the call on the main line to its end |
| HandshakeRounds.RoundsGoOnExactly | forkscan.c:178-207 | In every reachable state a fork can still come if and only if no thread was caught with list_lock in the first round; and then with every thread back at what it was doing, ready for the next round |
| ForkPoint.ThreadGetsIn | frontend.c:191-203 | Whenever a thread is in the user's code without list_lock it can enter the region and begin to free |
| ForkPoint.ThreadGetsOut | frontend.c:203-206 | Between two turns a thread can leave the freeing and then the region, and looks next whether it has been sent the signal |
| ForkPoint.DeadReferencesAtFork | forkscan.c:178-184 | From the last acknowledgement to the fork no thread is between claiming an entry and freeing it, and every dead reference is unfreed |
| ForkPoint.NothingFreedBeforeFork | forkscan.c:182-184 | Between the last acknowledgement and the fork nothing is claimed or freed |
| Handoff.OneReclaimer | thread.c:184-207 | At most one thread is the reclaimer, and the flag says whether there is one |
| Handoff.PointersAreConserved | frontend.c:191-224 | Each retirement is in exactly one place: ring, reclaimer's buffer, queue, collector, survivors, working buffer, dead or freed |
| HandoffRuns.RetirementsAreAccounted | frontend.c:191-224 | Against the calls made in a run: each pointer is in those places exactly as often as it has been retired, and freed as often as the run frees it |
| HandoffRuns.RetireAppends | frontend.c:207 | A thread that retires has room, and the pointer becomes the last of its own ring |
| HandoffRuns.SurvivorsAreKept | forkscan.c:229-244 | Between iterations the survivors are what the last publication left; the next working buffer is these and the buffers taken |
| HandoffRuns.ManualWaits | forkscan.c:271-283 | In manual mode, as long as nobody forces one, no iteration takes place |
| HandoffRuns.CountedExactly | forkscan.c:271-281 | A buffer goes to the head of the queue, counted if and only if the mode is automatic or the iteration was asked for |
| HandoffRuns.ManualNeverThrottles | forkscan.c:281-285 | In manual mode nobody is ever throttled, however many buffers wait |
| HandoffRuns.TakesExactly | forkscan.c:305-323 | The collector thread sleeps exactly when nothing is counted; else it takes the whole chain, and owes a wakeup exactly when the counter had reached the limit |
| HandoffProgress.ReclaimerQueuesAll | frontend.c:65-105 | A reclaimer on its own queues one buffer with the contents of all rings, in order, and leaves the rings empty |
| HandoffProgress.ContenderLooksAgain | frontend.c:208-221 | A thread that finds the reclaimer lock taken goes home if its reason has gone, and else tries again |
| HandoffProgress.AllComeHome | frontend.c:191-264 | Every reachable state can be continued until all threads are in the user's code and the collector thread sleeps |
| HandoffProgress.EverythingCanBeFreed | frontend.c:191-264 | Every reachable state can be continued until everything retired so far has been freed |
| Handoff.RingsNeverOverflow | frontend.c:65-81 | A thread that retires has room; the reclaimer drains each ring whole and never more than max_ptrs in all; its own ring is not full afterwards |
| Handoff.WorkMeansBuffers | forkscan.c:305-317 | A positive counter, and a wakeup of the collector thread, mean that there is a buffer in the queue; what it takes is never nothing |
| Handoff.EachBufferOnce | forkscan.c:272-275 | Each queued buffer reaches at most one iteration, and is in the queue until it does |
| Handoff.SleeperIsOwed | forkscan.c:281-294 | A throttled thread that sleeps has reason to, or is owed a broadcast that will wake it |
| Handoff.WaitingIsLimited | forkscan.c:281-294 | In automatic mode the counter never exceeds the limit, because the throttled thread keeps the reclaimer lock |
| RingQueue.MaskIsMod | queue.c:30-32 | Masking with capacity - 1 is the remainder for every power of two |
| RingQueue.SlotsDiffer | queue.c:30-32 | Indices less than a capacity apart use different slots |
| RingQueue.Queue.constructor | queue.c:37-43 | The queue starts empty |
| RingQueue.Queue.Push | queue.c:79-84 | Appends one value to the contents |
| RingQueue.Queue.Pop | queue.c:89-94 | Removes the oldest value |
| RingQueue.Queue.PushBulk | queue.c:100-127 | Appends the values, around the end of the buffer if need be |
| RingQueue.Queue.PopBulk | queue.c:134-186 | Copies out and removes the oldest values, as many as fit, and writes nothing else |
| RingQueue.Queue.IsEmpty | queue.c:48-52 | True exactly when there are no contents |
| RingQueue.Queue.IsFull | queue.c:57-61 | True exactly when capacity - 1 values are held |
| RingQueue.Queue.Available | queue.c:66-73 | The number of values that can still be pushed |
| RingSteps.RingIsFifo | queue.c:100-186 | In every interleaving of producer and consumer, values popped followed by those held are those pushed, a copy under way is what comes next, and at most capacity - 1 are held |
| RingSteps.NothingIsLost | queue.c:79-127 | Values popped, held and not yet published are, in this order, exactly the values stored in the run |
| RingSteps.PublishShowsStored | queue.c:79-127 | Advancing idx_head adds exactly what has been stored since to what is held |
| RingSteps.RoomExactly | queue.c:66-84 | The owner may store exactly as long as fewer than capacity - 1 values are held and stored |
| RingSteps.RingEmpties | queue.c:134-186 | From every reachable state bulk pops can empty the ring: what has been popped is then all that was pushed |
| RingSteps.BulkPopIsAtomic | queue.c:134-186 | A bulk pop takes what the ring held when it read idx_head, oldest first and as much as there is room for, whatever is pushed meanwhile |
| RingSteps.DrainIsBulkPop | frontend.c:65-81 | The reclaimer's drain of one ring is such a pop |
| RingSteps.StoresSpareElements | queue.c:100-127 | No store of the producer changes an element, in particular none being copied out |
| AllocMap.Map.DoInsert | alloc.c:96-118 | The ring stays doubly linked and sorted with the new block in its place; the walk ends because blocks are disjoint |
| AllocMap.Map.Remove | alloc.c:137-158 | The block leaves the ring; the list is well formed afterwards if and only if another block is left |
| AllocMap.Map.New | alloc.c:163-193 | An unused node, from a newly recorded page if there was none; at most that page is added to what is owned |
| AllocMap.Map.Mmap | alloc.c:245-260 | Exactly the new block, and a page for nodes if one was needed, is added to what is owned |
| AllocMap.Map.Munmap | alloc.c:290-302 | Exactly the block at the address is no longer owned; the pages of nodes keep the list from becoming empty |
| AllocMap.Map.BreakRange | alloc.c:209-243 | The part skipped is owned, the chunk returned is not and ends where the range ends or owned memory begins, and the range strictly advances |
| ScanRanges.Table.CollectRanges | child.c:404-421 | Terminates; the ranges added are ascending, apart, at most 8 MB and together exactly what Forkscan does not own of the mapping; the byte total grows by the sum of their lengths; a range shorter than 8 MB ends where the mapping ends or owned memory begins |
| ScanRanges.Table.AddChunk | child.c:407-416 | The chopping partitions a chunk into consecutive pieces, all of 8 MB but the last |
| ScanRanges.ChunkCount | child.c:407-416 | So a chunk yields no more pieces than its length calls for |
| ScanRanges.Table.AddStackRanges | child.c:428-443 | Each stack of Forkscan's becomes one range and counts with its length |

## Left out

- Retirees.OverrunNeedsStaleClaim: a run is followed up to the first read behind the end of a buffer, not beyond, as what is found there depends on the memory.
- Roots.FindRoots: once the search at its start has gone wrong as described above, the scan is not followed.
- Siblings.MarksTogether: completeness of the marks in the array is stated for the recursion on the target; for the recursion as written it is stated on the steps (`MarkingAsWritten`).
- Handshake.ForksExactly: list_lock is the only lock that a stopped thread can hold in the model; the locks of the allocator below are what the g_in_malloc region is for.
- Handshake.RoundIsNeverStuck: that a step which can be taken is taken at some time is up to the scheduler.
- ScanRanges.Table.CollectRanges: the range table is a sequence, so the overflow that the program aborts on does not occur.
- Search.AddrFindHint: machine addresses in the cacheline computation are replaced by an arbitrary bound.
- Handoff.OneReclaimer: the waiting half of acquisition never blocks, since nothing raises the helping flags.
- Parsing of `/proc/self/maps` and the choice of mappings by permission and path (`proc.c`, `child.c:323-395`): input and output.
- `mmap`, `munmap`, `fork`, pipes and signals themselves: abstract steps or parameters.
- `wrappers.c`, the set-up of stacks in `thread.c`, the pools of `metautil.h`, the free-list list of `util.c:195-221`: foreign calls or easy.
- `env.c`, statistics, timing, diagnostics and `forkscan_util_randomize`: no bearing on the protocol.
- Retirees.ReleasedOnceWhenUnused: a publication stands for one use of a buffer, and the reuse of its memory by a later round is not followed. That loses nothing as long as every release is off the list, which is so if and only if no publication is empty; `EmptyRounds` follows the first reuse when one is.
- Search.AddrFind: an array without entries, which the child of an empty round searches, is not modelled.
- Reclaim.NothingReachableIsFreed: after an empty round the model lets the survivors of every later round be freed; that the list and the pool may be damaged further is not followed.
- The number of entries that a thread frees in one call (`g_frees_required`) only decides when it leaves the call; a thread may leave at any turn.
- Sizes are unbounded integers; the 64-bit sentinel of `find_roots` is kept.
