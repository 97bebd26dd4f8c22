/**
 * The job record and the six discipline comparers of libscheduler.
 *
 * Each comparer returns a negative number when job `a` should be queued
 * ahead of job `b`, zero for a tie, and a positive number otherwise; the
 * queue's `Offer` places a new job before the first queued job it compares
 * strictly below.  C `int` subtraction can overflow; here it cannot.
 */
module LibScheduler {
  import opened LibPriQueue

  /** job_t: what the scheduler keeps per job. */
  datatype Job = Job(pid: int, arrivalTime: int, priority: int, runningTime: int, timeRemaining: int)

  // ---------------------------------------------------------------------------
  // The comparers
  // ---------------------------------------------------------------------------

  /** First come first served: earlier arrival first. */
  function FCFS(a: Job, b: Job): (r: int)
    ensures r < 0 <==> a.arrivalTime < b.arrivalTime
    ensures r == 0 <==> a.arrivalTime == b.arrivalTime
  {
    a.arrivalTime - b.arrivalTime
  }

  /** Shortest job first: smaller total running time first. */
  function SJF(a: Job, b: Job): (r: int)
    ensures r < 0 <==> a.runningTime < b.runningTime
    ensures r == 0 <==> a.runningTime == b.runningTime
  {
    a.runningTime - b.runningTime
  }

  /** Preemptive shortest job first: the running time of `a` against the
      time `b` still needs. */
  function PSJF(a: Job, b: Job): (r: int)
    ensures r < 0 <==> a.runningTime < b.timeRemaining
    ensures r == 0 <==> a.runningTime == b.timeRemaining
  {
    a.runningTime - b.timeRemaining
  }

  /** Priority: the numerically larger priority first, then earlier arrival. */
  function PRI(a: Job, b: Job): (r: int)
    ensures a.priority != b.priority ==> (r < 0 <==> a.priority > b.priority)
    ensures a.priority == b.priority ==> (r < 0 <==> a.arrivalTime < b.arrivalTime)
    ensures r == 0 <==> a.priority == b.priority && a.arrivalTime == b.arrivalTime
  {
    if a.priority != b.priority then b.priority - a.priority
    else a.arrivalTime - b.arrivalTime
  }

  /** Preemptive priority: as PRI across priorities; on a tie, the running
      time of `a` against the time `b` still needs. */
  function PPRI(a: Job, b: Job): (r: int)
    ensures a.priority != b.priority ==> (r < 0 <==> a.priority > b.priority)
    ensures a.priority == b.priority ==> (r < 0 <==> a.runningTime < b.timeRemaining)
    ensures r == 0 <==> a.priority == b.priority && a.runningTime == b.timeRemaining
  {
    if a.priority != b.priority then b.priority - a.priority
    else a.runningTime - b.timeRemaining
  }

  /** Round robin: the same arrival-time order as FCFS. */
  function RR(a: Job, b: Job): (r: int)
    ensures r < 0 <==> a.arrivalTime < b.arrivalTime
    ensures r == 0 <==> a.arrivalTime == b.arrivalTime
  {
    a.arrivalTime - b.arrivalTime
  }

  // ---------------------------------------------------------------------------
  // Which comparers order the queue
  // ---------------------------------------------------------------------------

  lemma FcfsIsTotalPreorder()
    ensures TotalPreorder(FCFS)
  {
  }

  lemma SjfIsTotalPreorder()
    ensures TotalPreorder(SJF)
  {
  }

  lemma RrIsTotalPreorder()
    ensures TotalPreorder(RR)
  {
  }

  /** PRI is lexicographic (priority, then arrival), hence a total preorder. */
  lemma PriIsTotalPreorder()
    ensures TotalPreorder(PRI)
  {
    forall a: Job, b: Job, c: Job | PRI(a, b) <= 0 && PRI(b, c) <= 0
      ensures PRI(a, c) <= 0
    {
      if a.priority == b.priority && b.priority == c.priority {
        assert a.arrivalTime <= b.arrivalTime <= c.arrivalTime;
      }
    }
  }

  /** RR and FCFS are the same function. */
  lemma RrIsFcfs(a: Job, b: Job)
    ensures RR(a, b) == FCFS(a, b)
  {
  }

  /** FCFS, SJF and RR are antisymmetric: swapping the jobs negates the result. */
  lemma Antisymmetric(a: Job, b: Job)
    ensures FCFS(a, b) == -FCFS(b, a)
    ensures SJF(a, b) == -SJF(b, a)
    ensures RR(a, b) == -RR(b, a)
  {
  }

  /** PRI and PPRI differ only on a priority tie. */
  lemma PriAgreesWithPpri(a: Job, b: Job)
    requires a.priority != b.priority
    ensures PRI(a, b) == PPRI(a, b)
  {
  }

  /** Against a job that has not run yet, PSJF is SJF. */
  lemma PsjfIsSjfOnFreshJob(a: Job, b: Job)
    requires b.timeRemaining == b.runningTime
    ensures PSJF(a, b) == SJF(a, b)
  {
  }

  /** When the job being offered has not run yet, PSJF compares the two
      remaining times, which is the order preemptive SJF wants. */
  lemma PsjfOffersFreshJobByRemainingTime(a: Job, b: Job)
    requires a.timeRemaining == a.runningTime
    ensures PSJF(a, b) < 0 <==> a.timeRemaining < b.timeRemaining
  {
  }

  /** A job that has already run part of its time compares strictly after
      itself under PSJF, and under PPRI, so neither is antisymmetric. */
  lemma PartlyRunJobFollowsItself(j: Job)
    requires j.timeRemaining < j.runningTime
    ensures PSJF(j, j) > 0
    ensures PPRI(j, j) > 0
  {
  }

  /** As written, PSJF queues a preempted job with 2 units left behind a
      fresh job that needs 5, because it compares the preempted job's full
      running time (10) rather than its remaining time. */
  lemma PsjfQueuesPreemptedJobBehindLongerJob()
    ensures var preempted := Job(1, 0, 0, 10, 2); var waiting := Job(2, 1, 0, 5, 5);
      && preempted.timeRemaining < waiting.timeRemaining
      && FirstBelow(PSJF, preempted, [waiting]) == 1
      && FirstBelow(PPRI, preempted, [waiting]) == 1
  {
    var preempted, waiting := Job(1, 0, 0, 10, 2), Job(2, 1, 0, 5, 5);
    assert PSJF(preempted, waiting) == 5;
    assert PPRI(preempted, waiting) == 5;
  }

  lemma PsjfIsNotTotalPreorder()
    ensures !TotalPreorder(PSJF)
  {
    var j := Job(1, 0, 0, 5, 2);
    assert PSJF(j, j) > 0;
  }

  lemma PpriIsNotTotalPreorder()
    ensures !TotalPreorder(PPRI)
  {
    var j := Job(1, 0, 0, 5, 2);
    assert PPRI(j, j) > 0;
  }

  // ---------------------------------------------------------------------------
  // The comparers in the queue
  // ---------------------------------------------------------------------------

  /** Under FCFS, SJF, RR or PRI, any run of offers into an empty queue
      leaves the queue sorted by that comparer. */
  lemma OffersStaySorted(jobs: seq<Job>)
    ensures Sorted(FCFS, OfferedAll(FCFS, [], jobs))
    ensures Sorted(SJF, OfferedAll(SJF, [], jobs))
    ensures Sorted(RR, OfferedAll(RR, [], jobs))
    ensures Sorted(PRI, OfferedAll(PRI, [], jobs))
  {
    FcfsIsTotalPreorder();
    SjfIsTotalPreorder();
    RrIsTotalPreorder();
    PriIsTotalPreorder();
    OfferedAllSorted(FCFS, [], jobs);
    OfferedAllSorted(SJF, [], jobs);
    OfferedAllSorted(RR, [], jobs);
    OfferedAllSorted(PRI, [], jobs);
  }

  /** Under RR, a job that arrived no earlier than every queued job goes to
      the tail, so jobs offered in arrival order leave in arrival order. */
  lemma RrLatestArrivalGoesToTail(s: seq<Job>, j: Job)
    requires forall k :: 0 <= k < |s| ==> s[k].arrivalTime <= j.arrivalTime
    ensures FirstBelow(RR, j, s) == |s|
    ensures Inserted(RR, s, j) == s + [j]
  {
    assert s[..|s|] == s;
  }

  /** Under RR, a job that arrived before the head goes to the front.  So if
      a job put back after its quantum arrived before the current head, the
      code's RR returns it to the head instead of rotating it to the tail. */
  lemma RrEarlierArrivalGoesToFront(s: seq<Job>, j: Job)
    requires s != [] && j.arrivalTime < s[0].arrivalTime
    ensures FirstBelow(RR, j, s) == 0
    ensures Inserted(RR, s, j) == [j] + s
  {
    assert s[0..] == s;
  }

  // ---------------------------------------------------------------------------
  // The remaining-time rule

  /** PSJF as its doc comment describes it: the remaining times of both jobs. */
  function PSJFRemaining(a: Job, b: Job): (r: int)
    ensures r < 0 <==> a.timeRemaining < b.timeRemaining
    ensures r == 0 <==> a.timeRemaining == b.timeRemaining
  {
    a.timeRemaining - b.timeRemaining
  }

  /** Unlike PSJF, the remaining-time comparer orders jobs consistently. */
  lemma PsjfRemainingIsTotalPreorder()
    ensures TotalPreorder(PSJFRemaining)
  {
  }

  /** The remaining-time comparer puts the preempted job with 2 units left
      ahead of the waiting job that needs 5. */
  lemma PsjfRemainingPutsPreemptedJobFirst()
    ensures FirstBelow(PSJFRemaining, Job(1, 0, 0, 10, 2), [Job(2, 1, 0, 5, 5)]) == 0
  {
    assert PSJFRemaining(Job(1, 0, 0, 10, 2), Job(2, 1, 0, 5, 5)) < 0;
  }

  // ---------------------------------------------------------------------------
  // The priority direction
  // ---------------------------------------------------------------------------

  /** As written, PRI and PPRI queue the numerically larger priority first:
      a priority-1 job offered behind a queued priority-5 job stays behind it,
      although a lower value is meant to be the higher priority. */
  lemma LargerPriorityValueGoesFirst(a: Job, b: Job)
    requires a.priority > b.priority
    ensures PRI(a, b) < 0 && PPRI(a, b) < 0
    ensures FirstBelow(PRI, b, [a]) == 1 && FirstBelow(PPRI, b, [a]) == 1
  {
  }

  /** PRI with the documented direction: lower value first, then earlier arrival. */
  function PRILowerFirst(a: Job, b: Job): (r: int)
    ensures a.priority != b.priority ==> (r < 0 <==> a.priority < b.priority)
    ensures a.priority == b.priority ==> (r < 0 <==> a.arrivalTime < b.arrivalTime)
  {
    if a.priority != b.priority then a.priority - b.priority
    else a.arrivalTime - b.arrivalTime
  }

  /** PPRI as documented: lower value first, then the smaller remaining time. */
  function PPRILowerFirst(a: Job, b: Job): (r: int)
    ensures a.priority != b.priority ==> (r < 0 <==> a.priority < b.priority)
    ensures a.priority == b.priority ==> r == PSJFRemaining(a, b)
  {
    if a.priority != b.priority then a.priority - b.priority
    else a.timeRemaining - b.timeRemaining
  }

  /** With the documented direction, a more urgent job overtakes every queued
      job of lower urgency. */
  lemma SmallerPriorityValueGoesFirst(s: seq<Job>, j: Job)
    requires forall k :: 0 <= k < |s| ==> j.priority < s[k].priority
    ensures FirstBelow(PRILowerFirst, j, s) == 0
    ensures FirstBelow(PPRILowerFirst, j, s) == 0
  {
  }

  /** Corrected PRI is lexicographic (priority, then arrival). */
  lemma PriLowerFirstIsTotalPreorder()
    ensures TotalPreorder(PRILowerFirst)
  {
    forall a: Job, b: Job, c: Job | PRILowerFirst(a, b) <= 0 && PRILowerFirst(b, c) <= 0
      ensures PRILowerFirst(a, c) <= 0
    {
      if a.priority == b.priority && b.priority == c.priority {
        assert a.arrivalTime <= b.arrivalTime <= c.arrivalTime;
      }
    }
  }

  /** Corrected PPRI is lexicographic (priority, then remaining time). */
  lemma PpriLowerFirstIsTotalPreorder()
    ensures TotalPreorder(PPRILowerFirst)
  {
    forall a: Job, b: Job, c: Job | PPRILowerFirst(a, b) <= 0 && PPRILowerFirst(b, c) <= 0
      ensures PPRILowerFirst(a, c) <= 0
    {
      if a.priority == b.priority && b.priority == c.priority {
        assert a.timeRemaining <= b.timeRemaining <= c.timeRemaining;
      }
    }
  }

  /** Under the corrected comparers, any run of offers into an empty queue
      leaves the queue sorted by that comparer. */
  lemma CorrectedOffersStaySorted(jobs: seq<Job>)
    ensures Sorted(PSJFRemaining, OfferedAll(PSJFRemaining, [], jobs))
    ensures Sorted(PRILowerFirst, OfferedAll(PRILowerFirst, [], jobs))
    ensures Sorted(PPRILowerFirst, OfferedAll(PPRILowerFirst, [], jobs))
  {
    PsjfRemainingIsTotalPreorder();
    PriLowerFirstIsTotalPreorder();
    PpriLowerFirstIsTotalPreorder();
    OfferedAllSorted(PSJFRemaining, [], jobs);
    OfferedAllSorted(PRILowerFirst, [], jobs);
    OfferedAllSorted(PPRILowerFirst, [], jobs);
  }
}
