# Scheduler waiting queue and discipline comparers, in Dafny

This project models the two parts of a CPU-scheduling simulator library that
contain logic: the ordered waiting queue `libpriqueue` and the six discipline
comparers of `libscheduler`.

- `wrappers.dfy` (module `Wrappers`): `Option`, which stands for a pointer that may be NULL.
- `libpriqueue.dfy` (module `LibPriQueue`): the queue as the class `PriQueue`.
  The class has the C fields `size` (msize) and `comparer`, which is fixed by
  `Init`. The chain of values from `mfront` is the sequence field `items`.
  `Offer`, `At` and `Remove` keep the loops and branches of the C code:
  - `Offer` scans for the first element the new one compares strictly below.
    It then slides the values down one place and links a node at the tail.
  - `At` walks the chain with a counter.
  - `Remove` first drops matches at the front, then walks on with
    `prev`/`current`.

  The methods are specified by the functions `FirstBelow`, `Inserted` and
  `Without`. `Peek`, `Poll`, `RemoveAt` and `Size` state the documented
  result directly; `RemoveAt` follows its documentation, not the
  `mfront`/`mback` branches of the code (see Findings). Lemmas prove what
  the queue promises: stable ordered insertion, sortedness kept under a
  total-preorder comparer, and identity-based removal that keeps order and
  counts the removed elements.
- `libpriqueue_memory.dfy` (module `LibPriQueueMemory`): `priqueue_peek` and
  `priqueue_remove_at` as the C code is written. This module works on
  addresses, because both functions mistake an element pointer for a node
  pointer or the other way round (see Findings).
- `libscheduler.dfy` (module `LibScheduler`): the `job_t` record as the
  datatype `Job` and the comparers `FCFS`, `SJF`, `PSJF`, `PRI`, `PPRI` and
  `RR`. Lemmas cover each comparer's sign, antisymmetry and which comparers
  are total preorders. Other lemmas say where the comparers agree and how
  they order the queue.

Where the code and its own comments disagree, the model follows the code:
- The comment on the RR comparer (libscheduler.c:107) asks whether it is
  needed at all, since it is just FCFS. In the code, RR is indeed the same
  arrival-time comparison as FCFS. Lemma `RrLatestArrivalGoesToTail` shows
  that RR appends a job that arrived last. Lemma
  `RrEarlierArrivalGoesToFront` shows that a job with an earlier arrival than
  the head goes to the front, so a job put back after its quantum that
  arrived before the current head returns to the head, not to the tail.
- The comment on PSJF (libscheduler.c:65) says it schedules by remaining
  time, not full running time. The code compares the running time of the
  offered job with the remaining time of the queued job, and PPRI does the
  same on a priority tie. This is recorded under Findings, with the
  remaining-time comparer `PSJFRemaining` as the correction.
- The parameter description at libscheduler.c:151 says a lower priority
  value means a higher priority. PRI and PPRI put higher values first. This
  is recorded under Findings, with both the as-written and the corrected
  comparers.

The scheduling engine (`scheduler_start_up`, `scheduler_new_job`,
`scheduler_job_finished`, `scheduler_quantum_expired`) holds no logic in the
code: each entry point is an empty stub that returns -1 or does nothing. So no placement,
preemption or statistics rule is modelled.

## Model

| member | source | states |
|---|---|---|
| `LibPriQueue.PriQueue.Init` | scheduler/libpriqueue/libpriqueue.c:20-29 | a new queue is empty, has size 0 and keeps the supplied comparer for good |
| `LibPriQueue.FirstBelow` | scheduler/libpriqueue/libpriqueue.c:69-111 | the insertion index is at most the queue length; the new element does not compare below any earlier element; it compares strictly below the element at the index, if there is one |
| `LibPriQueue.FirstBelowUnique` | scheduler/libpriqueue/libpriqueue.c:75-111 | those properties determine the insertion index uniquely, and inserting at any index that has them gives `Inserted`; so the index and queue that `Offer` guarantees are exactly `FirstBelow` and `Inserted` |
| `LibPriQueue.Inserted` | scheduler/libpriqueue/libpriqueue.c:75-114 | offering grows the queue by exactly one; the new element sits at the returned index; the contents gain exactly that element |
| `LibPriQueue.InsertedKeepsOthersInOrder` | scheduler/libpriqueue/libpriqueue.c:78-95 | removing the new element from its position gives back the old queue, so all other elements keep their relative order |
| `LibPriQueue.PriQueue.Offer` | scheduler/libpriqueue/libpriqueue.c:39-116 | returns the first position whose element the new one compares strictly below (the old size if none), which lies between 0 and the old size; the queue becomes the old one with the element inserted there; size grows by one |
| `LibPriQueue.OfferKeepsSorted` | scheduler/libpriqueue/libpriqueue.c:75-111 | under a total-preorder comparer, offering into a sorted queue leaves it sorted |
| `LibPriQueue.OfferIsStable` | scheduler/libpriqueue/libpriqueue.c:77 | in a sorted queue under a total preorder, the new element lands after exactly the elements it does not compare strictly below, hence after all elements it ties with |
| `LibPriQueue.OfferedAllSorted` | scheduler/libpriqueue/libpriqueue.c:39-116 | any sequence of offers under a total preorder keeps the queue sorted, and the queue holds exactly the offered elements |
| `LibPriQueue.PriQueue.Peek` | scheduler/libpriqueue/libpriqueue.c:119-137 | as documented: returns the head element, is absent exactly when the queue is empty, and changes nothing |
| `LibPriQueue.PriQueue.Poll` | scheduler/libpriqueue/libpriqueue.c:148-173 | on an empty queue returns absent and changes nothing; otherwise returns the old head, leaves the old tail, and size drops by one |
| `LibPriQueue.PriQueue.At` | scheduler/libpriqueue/libpriqueue.c:185-209 | returns the element at the index exactly when 0 <= index < size, absent otherwise, and changes nothing |
| `LibPriQueue.Without` | scheduler/libpriqueue/libpriqueue.c:221-271 | after removal no element is identical to the removed pointer, and the queue is no longer than before |
| `LibPriQueue.WithoutCounts` | scheduler/libpriqueue/libpriqueue.c:212-219 | removal drops exactly the occurrences of the pointer, leaves every other element's count unchanged, and shrinks the queue by the number of occurrences |
| `LibPriQueue.WithoutAbsent` | scheduler/libpriqueue/libpriqueue.c:245-256 | removing a pointer that is not queued changes nothing |
| `LibPriQueue.WithoutConcat` | scheduler/libpriqueue/libpriqueue.c:245-267 | removal acts on each part of the chain independently, which is what lets the walk remove one match at a time |
| `LibPriQueue.WithoutSkip` | scheduler/libpriqueue/libpriqueue.c:257-263 | bridging `prev` over one matching node leaves the same end result |
| `LibPriQueue.PriQueue.Remove` | scheduler/libpriqueue/libpriqueue.c:221-271 | without the comparer, leaves the old queue minus every element identical to the pointer, survivors in order; returns the number of occurrences, which is also the drop in size |
| `LibPriQueue.RemoveKeepsSorted` | scheduler/libpriqueue/libpriqueue.c:212-215 | removal keeps a sorted queue sorted under any comparer |
| `LibPriQueue.PriQueue.RemoveAt` | scheduler/libpriqueue/libpriqueue.c:273-282 | as documented: for an index in range returns that element and closes the gap; otherwise returns absent and changes nothing |
| `LibPriQueue.PriQueue.Size` | scheduler/libpriqueue/libpriqueue.c:328-337 | returns the number of queued elements |
| `LibPriQueueMemory.ElementAt` | scheduler/libpriqueue/libpriqueue.c:185-209 | priqueue_at at the level of addresses: the element stored at the index when it is in range, NULL otherwise |
| `LibPriQueueMemory.PeekAsWritten` | scheduler/libpriqueue/libpriqueue.c:127-137 | peek as written: NULL on an empty queue, otherwise NULL or the address of a node of the chain |
| `LibPriQueueMemory.RemoveAtAsWritten` | scheduler/libpriqueue/libpriqueue.c:282-325 | remove_at as written: NULL for an empty queue or an index out of range; when it removes, msize drops by one, the element at the index is what gets freed, and the word it writes is in the element at index - 1 |
| `LibPriQueueMemory.PeekReturnsNodeNotElement` | scheduler/libpriqueue/libpriqueue.c:127-137 | as written, peek on a non-empty queue returns the front node's address, and that address is not any queued element |
| `LibPriQueueMemory.RemoveHeadDereferencesNull` | scheduler/libpriqueue/libpriqueue.c:289-315 | as written, remove_at(0) on a non-empty queue writes through a NULL `prev` |
| `LibPriQueueMemory.RemoveLaterCorruptsQueue` | scheduler/libpriqueue/libpriqueue.c:289-320 | as written, remove_at(i) for 1 <= i < size unlinks no node but decrements msize; it writes into the previous element rather than a node, and frees an element that is still linked |
| `LibPriQueueMemory.RemoveOutOfRangeReturnsNull` | scheduler/libpriqueue/libpriqueue.c:288-324 | as written, an out-of-range index or an empty queue yields NULL |
| `LibScheduler.FCFS` | scheduler/libscheduler/libscheduler.c:46-51 | negative exactly when a arrived earlier than b; zero exactly when they arrived at the same time |
| `LibScheduler.SJF` | scheduler/libscheduler/libscheduler.c:56-61 | negative exactly when a's total running time is shorter; zero exactly on equal running times |
| `LibScheduler.PSJF` | scheduler/libscheduler/libscheduler.c:67-72 | negative exactly when a's running time is below b's remaining time |
| `LibScheduler.PRI` | scheduler/libscheduler/libscheduler.c:77-87 | if the priorities differ, negative exactly when a's priority value is larger; if they are equal, negative exactly when a arrived earlier; zero only when both priority and arrival time are equal |
| `LibScheduler.PPRI` | scheduler/libscheduler/libscheduler.c:92-102 | like PRI across different priorities; on a tie, negative exactly when a's running time is below b's remaining time |
| `LibScheduler.RR` | scheduler/libscheduler/libscheduler.c:109-114 | negative exactly when a arrived earlier than b; zero exactly on equal arrival times |
| `LibScheduler.FcfsIsTotalPreorder` | scheduler/libscheduler/libscheduler.c:46-51 | FCFS is a total preorder, so it can be used with offer |
| `LibScheduler.SjfIsTotalPreorder` | scheduler/libscheduler/libscheduler.c:56-61 | SJF is a total preorder |
| `LibScheduler.RrIsTotalPreorder` | scheduler/libscheduler/libscheduler.c:109-114 | RR is a total preorder |
| `LibScheduler.PriIsTotalPreorder` | scheduler/libscheduler/libscheduler.c:77-87 | PRI, ordering by priority and then by arrival, is a total preorder |
| `LibScheduler.RrIsFcfs` | scheduler/libscheduler/libscheduler.c:103-114 | RR and FCFS return the same value on all inputs |
| `LibScheduler.Antisymmetric` | scheduler/libscheduler/libscheduler.c:46-61 | swapping the jobs negates FCFS, SJF and RR (the RR body is at lines 109-114) |
| `LibScheduler.PriAgreesWithPpri` | scheduler/libscheduler/libscheduler.c:77-102 | PRI and PPRI return the same value whenever the priorities differ |
| `LibScheduler.PsjfIsSjfOnFreshJob` | scheduler/libscheduler/libscheduler.c:56-72 | PSJF equals SJF against a job whose remaining time is its running time |
| `LibScheduler.PsjfOffersFreshJobByRemainingTime` | scheduler/libscheduler/libscheduler.c:62-72 | when the offered job has not run yet, PSJF puts it first exactly when its remaining time is smaller |
| `LibScheduler.PsjfQueuesPreemptedJobBehindLongerJob` | scheduler/libscheduler/libscheduler.c:63-101 | as written, a preempted job with 2 units left, offered against a waiting job that needs 5, lands behind it under PSJF and under PPRI |
| `LibScheduler.PartlyRunJobFollowsItself` | scheduler/libscheduler/libscheduler.c:67-101 | a job with time remaining below its running time compares strictly after itself under PSJF and under PPRI, so neither comparer is antisymmetric |
| `LibScheduler.PsjfIsNotTotalPreorder` | scheduler/libscheduler/libscheduler.c:67-72 | PSJF is not a total preorder |
| `LibScheduler.PpriIsNotTotalPreorder` | scheduler/libscheduler/libscheduler.c:92-102 | PPRI is not a total preorder |
| `LibScheduler.OffersStaySorted` | scheduler/libscheduler/libscheduler.c:37-114 | any run of offers into an empty queue under FCFS, SJF, RR or PRI leaves the queue sorted by that comparer |
| `LibScheduler.RrLatestArrivalGoesToTail` | scheduler/libscheduler/libscheduler.c:103-114 | under RR, a job that arrived no earlier than every queued job is appended at the tail |
| `LibScheduler.RrEarlierArrivalGoesToFront` | scheduler/libscheduler/libscheduler.c:103-114 | under RR, a job that arrived before the queue's head is inserted at the front, so RR never rotates a put-back job to the tail |
| `LibScheduler.PSJFRemaining` | scheduler/libscheduler/libscheduler.c:63-66 | corrected PSJF: negative exactly when a has less time remaining than b; zero exactly on equal remaining times |
| `LibScheduler.PsjfRemainingIsTotalPreorder` | scheduler/libscheduler/libscheduler.c:63-66 | corrected PSJF is a total preorder |
| `LibScheduler.PsjfRemainingPutsPreemptedJobFirst` | scheduler/libscheduler/libscheduler.c:63-66 | corrected PSJF puts the preempted job with 2 units left ahead of the waiting job that needs 5 (index 0) |
| `LibScheduler.LargerPriorityValueGoesFirst` | scheduler/libscheduler/libscheduler.c:81-83 | as written, PRI and PPRI put the larger priority value first, so a priority-1 job offered behind a priority-5 job stays behind it |
| `LibScheduler.PRILowerFirst` | scheduler/libscheduler/libscheduler.c:150-151 | corrected PRI: when the priorities differ, negative exactly when a's value is lower; on a tie, negative exactly when a arrived earlier |
| `LibScheduler.PPRILowerFirst` | scheduler/libscheduler/libscheduler.c:92-102 | corrected PPRI: when the priorities differ, negative exactly when a's value is lower; on a tie, the corrected remaining-time comparison |
| `LibScheduler.SmallerPriorityValueGoesFirst` | scheduler/libscheduler/libscheduler.c:150-151 | with the corrected comparers, a job more urgent than every queued job goes to the front |
| `LibScheduler.PriLowerFirstIsTotalPreorder` | scheduler/libscheduler/libscheduler.c:77-87 | corrected PRI, ordering by priority value and then by arrival, is a total preorder |
| `LibScheduler.PpriLowerFirstIsTotalPreorder` | scheduler/libscheduler/libscheduler.c:92-102 | corrected PPRI, ordering by priority value and then by remaining time, is a total preorder |
| `LibScheduler.CorrectedOffersStaySorted` | scheduler/libscheduler/libscheduler.c:63-102 | any run of offers into an empty queue under corrected PSJF, PRI or PPRI leaves the queue sorted by that comparer |

## Left out

- `scheduler_start_up`, `scheduler_new_job`, `scheduler_job_finished`, `scheduler_quantum_expired`, `scheduler_clean_up`: empty stubs that return -1 or do nothing, so there is no engine logic to model.
- `scheduler_average_waiting_time`, `scheduler_average_turnaround_time`, `scheduler_average_response_time`: floating-point divisions of globals that nothing ever updates.
- `scheduler_show_queue`: empty debug hook.
- `priqueue_destroy` and all `malloc`/`free`: memory release only. The model never deallocates.
- `LibPriQueue.PriQueue`: the linked nodes are a sequence of values. `Offer` slides values and `Remove` relinks, and both appear as updates of that sequence. Node identity and aliasing between nodes are not captured.
- `LibPriQueue.PriQueue`: elements are generic values compared with `==`, which stands for `void *` identity. Storing a NULL element is not modelled. In C, `priqueue_at` and `priqueue_remove_at` cannot tell a stored NULL from "no such element".
- `LibPriQueue.PriQueue.Peek`: models the documented contract. The code returns the front node instead (see Findings).
- `LibPriQueue.PriQueue.RemoveAt`: models the documented contract. The code mistakes the element for its node (see Findings).
- `LibPriQueueMemory.RemoveAtAsWritten`: does not model the returned word, which is read from the removed element's own memory. It also leaves out the two branches that compare with `mback` (lines 297-300 and 305-308). `mback` is set to NULL by `priqueue_init` and is assigned nowhere else on any reachable path (its one other assignment, line 307, is inside one of those branches), so those branches cannot run, and the `==`-for-`=` slip at lines 299-300 has no effect.
- `LibScheduler.Job`: a value, not a pointer. Two jobs with identical fields count as the same element.
- C `int` overflow: the subtraction-based comparers and the `msize` counter are unbounded integers here.

## Findings

| source | as written | input that shows it | evidently intended | confidence | as-written member | corrected member |
|---|---|---|---|---|---|---|
| scheduler/libpriqueue/libpriqueue.c:133 | `priqueue_peek` returns `q->mfront`, the front node | any non-empty queue | return the head element `q->mfront->mvalue`, as the doc comment at lines 119-126 says | high, not executed | `LibPriQueueMemory.PeekReturnsNodeNotElement` | `LibPriQueue.PriQueue.Peek` |
| scheduler/libpriqueue/libpriqueue.c:293-315 | the element from `priqueue_at` is treated as a node; it never equals `mfront`, so the code takes the middle-of-list branch, where `prev = priqueue_at(q, -1)` is NULL | non-empty queue, index 0 | unlink the front node and return its element | high, not executed | `LibPriQueueMemory.RemoveHeadDereferencesNull` | `LibPriQueue.PriQueue.RemoveAt` |
| scheduler/libpriqueue/libpriqueue.c:311-319 | `prev` and `next` are elements, so `prev->mnext = next` writes into the previous element, no node is unlinked, `msize` still drops, and the still-linked element is freed | queue of two elements, index 1 | unlink the node at the index and close the gap | high, not executed | `LibPriQueueMemory.RemoveLaterCorruptsQueue` | `LibPriQueue.PriQueue.RemoveAt` |
| scheduler/libscheduler/libscheduler.c:71 | PSJF returns `a.runningTime - b.timeRemaining`, the full running time of the offered job | preempted job with running time 10 and 2 units left, offered against a waiting job needing 5: lands at index 1 | compare the remaining times of both jobs, as the doc comment at line 65 says; the inline comment at line 70 describes the code as written, and the engine here never preempts | low, not executed | `LibScheduler.PsjfQueuesPreemptedJobBehindLongerJob` | `LibScheduler.PSJFRemaining` |
| scheduler/libscheduler/libscheduler.c:101 | PPRI breaks a priority tie with `a.runningTime - b.timeRemaining`, the same mix of running and remaining time | the same two jobs at equal priority: lands at index 1 | compare remaining times, as the PSJF doc comment at line 65 describes for preemptive scheduling; PPRI's own comment at line 100 does not say which time | low, not executed | `LibScheduler.PsjfQueuesPreemptedJobBehindLongerJob` | `LibScheduler.PPRILowerFirst` |
| scheduler/libscheduler/libscheduler.c:83 | PRI returns `b.priority - a.priority`, which queues the larger value first | priority-5 job queued, priority-1 job offered: lands at index 1 | lower value first, as the doc comment at line 151 says | medium, not executed | `LibScheduler.LargerPriorityValueGoesFirst` | `LibScheduler.PRILowerFirst` |
| scheduler/libscheduler/libscheduler.c:98 | PPRI returns `b.priority - a.priority` when priorities differ, the same inversion | priority-5 job queued, priority-1 job offered: lands at index 1 | lower value first, as the doc comment at line 151 says | medium, not executed | `LibScheduler.LargerPriorityValueGoesFirst` | `LibScheduler.PPRILowerFirst` |
