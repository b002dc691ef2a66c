/** The retry queues: provisioning jobs, run oldest first and twenty at a time
    (packages/radius/src/provisioning.service.ts), and router sync tasks, picked in no particular
    order (packages/radius/src/sync.service.ts). A device call succeeds, fails, or turns out to be
    hopeless; which of these is the environment's choice. */
module JobQueue {
  import Integers
  import opened Optional

  datatype Status = PENDING | PROCESSING | SUCCEEDED | FAILED | CANCELLED

  datatype Job = Job(key: nat, status: Status, attempts: nat, maxAttempts: nat)

  /** What one attempt comes to. A sync task can also turn out hopeless: its router or user is gone,
      or the stored credentials cannot be read. */
  datatype Outcome = Success | Failure | Gone | Unreadable

  const MAX_ATTEMPTS: nat := 5
  const BATCH: nat := 20

  // ---------------------------------------------------------------------------------------
  // One job
  // ---------------------------------------------------------------------------------------

  /** One attempt, as the row ends up: done, put back, or given up. */
  function Attempted(j: Job, o: Outcome): Job {
    match o
    case Success => j.(status := SUCCEEDED, attempts := j.attempts + 1)
    case Gone => j.(status := FAILED)
    case Unreadable => j.(status := FAILED, attempts := j.attempts + 1)
    case Failure => j.(status := if j.attempts + 1 >= j.maxAttempts then FAILED else PENDING, attempts := j.attempts + 1)
  }

  function FindKey(jobs: seq<Job>, key: nat): (r: Option<nat>)
    ensures r.Some? ==> r.value < |jobs| && jobs[r.value].key == key
    ensures r.None? ==> forall i :: 0 <= i < |jobs| ==> jobs[i].key != key
  {
    if |jobs| == 0 then None
    else
      var before := FindKey(jobs[..|jobs| - 1], key);
      if before.Some? then before else if jobs[|jobs| - 1].key == key then Some(|jobs| - 1) else None
  }

  /** Enqueueing collapses onto the row of the same key: a queued one is reused, any other is reset.
      A package that cannot be provisioned gets a failed row at once. */
  function Enqueued(jobs: seq<Job>, key: nat, plannable: bool): seq<Job> {
    match FindKey(jobs, key)
    case None => jobs + [Job(key, if plannable then PENDING else FAILED, 0, MAX_ATTEMPTS)]
    case Some(i) =>
      if jobs[i].status == PENDING || jobs[i].status == PROCESSING then jobs
      else jobs[i := jobs[i].(status := PENDING, attempts := 0)]
  }

  predicate Retriable(j: Job) {
    j.status == FAILED || j.status == CANCELLED
  }

  function Retried(jobs: seq<Job>, i: nat): seq<Job> {
    if i < |jobs| && Retriable(jobs[i]) then jobs[i := jobs[i].(status := PENDING, attempts := 0)] else jobs
  }

  // ---------------------------------------------------------------------------------------
  // A pass
  // ---------------------------------------------------------------------------------------

  function PendingCount(jobs: seq<Job>): nat {
    if |jobs| == 0 then 0
    else PendingCount(jobs[..|jobs| - 1]) + if jobs[|jobs| - 1].status == PENDING then 1 else 0
  }

  /** The oldest `limit` pending jobs. */
  predicate Runnable(jobs: seq<Job>, limit: nat, i: nat) {
    i < |jobs| && jobs[i].status == PENDING && PendingCount(jobs[..i]) < limit
  }

  /** One pass: a chosen set of jobs is attempted. */
  function Passed(jobs: seq<Job>, chosen: set<nat>, outcomes: seq<Outcome>): (r: seq<Job>)
    requires |outcomes| == |jobs|
    ensures |r| == |jobs|
  {
    seq(|jobs|, i requires 0 <= i < |jobs| =>
      if i in chosen && jobs[i].status == PENDING then Attempted(jobs[i], outcomes[i]) else jobs[i])
  }

  /** The batch a worker pass claims. */
  function Batch(jobs: seq<Job>, limit: nat): (r: set<nat>)
    ensures forall i :: i in r <==> Runnable(jobs, limit, i)
  {
    set i: nat | 0 <= i < |jobs| && Runnable(jobs, limit, i)
  }

  function Work(jobs: seq<Job>, limit: nat, outcomes: seq<Outcome>): (r: seq<Job>)
    requires |outcomes| == |jobs|
    ensures |r| == |jobs|
  {
    Passed(jobs, Batch(jobs, limit), outcomes)
  }

  // ---------------------------------------------------------------------------------------
  // The invariant and the measure
  // ---------------------------------------------------------------------------------------

  ghost predicate Inv(jobs: seq<Job>) {
    && (forall i :: 0 <= i < |jobs| && jobs[i].status == PENDING ==> jobs[i].attempts < jobs[i].maxAttempts)
    && (forall i :: 0 <= i < |jobs| ==> jobs[i].maxAttempts == MAX_ATTEMPTS && jobs[i].status != PROCESSING)
    && (forall i, j :: 0 <= i < j < |jobs| ==> jobs[i].key != jobs[j].key)
  }

  /** Attempts the pending jobs still have. */
  function Remaining(jobs: seq<Job>): (r: int) {
    if |jobs| == 0 then 0
    else
      var j := jobs[|jobs| - 1];
      Remaining(jobs[..|jobs| - 1]) + if j.status == PENDING then j.maxAttempts - j.attempts else 0
  }

  /** A key never enqueued before gets a new row behind the others, waiting with five attempts, or
      failed at once. A settled row of the key waits again with all of its attempts; a waiting or
      running one stays, and so do the rows of other keys. */
  lemma EnqueueQueues(jobs: seq<Job>, key: nat, plannable: bool)
    requires forall i, j :: 0 <= i < j < |jobs| ==> jobs[i].key != jobs[j].key
    ensures var jobs' := Enqueued(jobs, key, plannable);
      && ((forall i :: 0 <= i < |jobs| ==> jobs[i].key != key) ==>
            jobs' == jobs + [Job(key, if plannable then PENDING else FAILED, 0, 5)])
      && (forall i :: 0 <= i < |jobs| && jobs[i].key == key ==>
            && |jobs'| == |jobs| && (forall j :: 0 <= j < |jobs| && j != i ==> jobs'[j] == jobs[j])
            && (jobs[i].status in {PENDING, PROCESSING} ==> jobs'[i] == jobs[i])
            && (jobs[i].status in {SUCCEEDED, FAILED, CANCELLED} ==> jobs'[i] == Job(key, PENDING, 0, jobs[i].maxAttempts)))
  {
    hide FindKey;
    var at := FindKey(jobs, key);
  }

  /** Asking for a retry changes anything exactly when the job had failed or was cancelled; it then
      waits with all of its attempts. */
  lemma RetryRequeues(jobs: seq<Job>, i: nat)
    requires i < |jobs|
    ensures var jobs' := Retried(jobs, i);
      && |jobs'| == |jobs| && (forall j :: 0 <= j < |jobs| && j != i ==> jobs'[j] == jobs[j])
      && (jobs[i].status in {FAILED, CANCELLED} ==> jobs'[i] == Job(jobs[i].key, PENDING, 0, jobs[i].maxAttempts))
      && (jobs[i].status !in {FAILED, CANCELLED} ==> jobs'[i] == jobs[i])
  {
  }

  lemma EnqueueKeepsInv(jobs: seq<Job>, key: nat, plannable: bool)
    requires Inv(jobs)
    ensures Inv(Enqueued(jobs, key, plannable))
  {
    hide FindKey;
    var at := FindKey(jobs, key);
  }

  lemma RetryKeepsInv(jobs: seq<Job>, i: nat)
    requires Inv(jobs)
    ensures Inv(Retried(jobs, i))
  {
  }

  lemma PassKeepsInv(jobs: seq<Job>, chosen: set<nat>, outcomes: seq<Outcome>)
    requires Inv(jobs) && |outcomes| == |jobs|
    ensures Inv(Passed(jobs, chosen, outcomes))
  {
    var jobs' := Passed(jobs, chosen, outcomes);
    assert forall i :: 0 <= i < |jobs| ==> jobs'[i].key == jobs[i].key;
  }

  /** What can happen to the queue, in any order. */
  datatype Step = Enqueue(key: nat, plannable: bool) | Retry(i: nat) | Pass(limit: nat, outcomes: seq<Outcome>)

  function Stepped(jobs: seq<Job>, step: Step): seq<Job> {
    match step
    case Enqueue(key, plannable) => Enqueued(jobs, key, plannable)
    case Retry(i) => Retried(jobs, i)
    case Pass(limit, outcomes) => if |outcomes| == |jobs| then Work(jobs, limit, outcomes) else jobs
  }

  function Ran(jobs: seq<Job>, steps: seq<Step>): seq<Job>
    decreases |steps|
  {
    if |steps| == 0 then jobs else Ran(Stepped(jobs, steps[0]), steps[1..])
  }

  /** Over any interleaving no key ever has two rows, and no job waits for an attempt it is not
      allowed. */
  lemma {:induction false} RunKeepsInv(jobs: seq<Job>, steps: seq<Step>)
    requires Inv(jobs)
    ensures Inv(Ran(jobs, steps))
    decreases |steps|
  {
    if |steps| > 0 {
      hide Inv;
      match steps[0] {
        case Enqueue(key, plannable) => EnqueueKeepsInv(jobs, key, plannable);
        case Retry(i) => RetryKeepsInv(jobs, i);
        case Pass(limit, outcomes) => if |outcomes| == |jobs| { PassKeepsInv(jobs, Batch(jobs, limit), outcomes); }
      }
      RunKeepsInv(Stepped(jobs, steps[0]), steps[1..]);
    }
  }

  /** How many pending jobs a set picks. */
  function Picked(jobs: seq<Job>, chosen: set<nat>): nat {
    if |jobs| == 0 then 0
    else
      var n := |jobs| - 1;
      Picked(jobs[..n], chosen) + if n in chosen && jobs[n].status == PENDING then 1 else 0
  }

  /** Every attempt, whatever its outcome, uses up at least one of the attempts left. */
  lemma {:induction false} PassUsesAttempts(jobs: seq<Job>, chosen: set<nat>, outcomes: seq<Outcome>)
    requires |outcomes| == |jobs|
    requires forall i :: 0 <= i < |jobs| && jobs[i].status == PENDING ==> jobs[i].attempts < jobs[i].maxAttempts
    ensures Remaining(Passed(jobs, chosen, outcomes)) <= Remaining(jobs) - Picked(jobs, chosen)
    decreases |jobs|
  {
    if |jobs| > 0 {
      var n := |jobs| - 1;
      var next := Passed(jobs, chosen, outcomes);
      PassPrefix(jobs, chosen, outcomes, n);
      hide Passed;
      PassUsesAttempts(jobs[..n], chosen, outcomes[..n]);
    }
  }

  lemma PassPrefix(jobs: seq<Job>, chosen: set<nat>, outcomes: seq<Outcome>, n: nat)
    requires |outcomes| == |jobs| && n < |jobs|
    ensures Passed(jobs, chosen, outcomes)[..n] == Passed(jobs[..n], chosen, outcomes[..n])
    ensures Passed(jobs, chosen, outcomes)[n] ==
            if n in chosen && jobs[n].status == PENDING then Attempted(jobs[n], outcomes[n]) else jobs[n]
  {
  }

  lemma {:induction false} RemainingNonNegative(jobs: seq<Job>)
    requires forall i :: 0 <= i < |jobs| && jobs[i].status == PENDING ==> jobs[i].attempts < jobs[i].maxAttempts
    ensures Remaining(jobs) >= PendingCount(jobs)
    decreases |jobs|
  {
    if |jobs| > 0 {
      RemainingNonNegative(jobs[..|jobs| - 1]);
    }
  }

  lemma {:induction false} NoPendingLeft(jobs: seq<Job>)
    requires PendingCount(jobs) == 0
    ensures forall i :: 0 <= i < |jobs| ==> jobs[i].status != PENDING
    decreases |jobs|
  {
    if |jobs| > 0 {
      NoPendingLeft(jobs[..|jobs| - 1]);
      assert forall i :: 0 <= i < |jobs| - 1 ==> jobs[i] == jobs[..|jobs| - 1][i];
    }
  }

  lemma {:induction false} BatchPicks(jobs: seq<Job>, limit: nat, n: nat)
    requires n <= |jobs|
    ensures Picked(jobs[..n], Batch(jobs, limit)) == Integers.Min(limit, PendingCount(jobs[..n]))
    decreases n
  {
    if n > 0 {
      BatchPicks(jobs, limit, n - 1);
      assert jobs[..n][..n - 1] == jobs[..n - 1];
    }
  }

  // ---------------------------------------------------------------------------------------
  // Passes until everything is settled
  // ---------------------------------------------------------------------------------------

  /** Worker passes with no new work in between. */
  function Passes(jobs: seq<Job>, limit: nat, rounds: seq<seq<Outcome>>): (r: seq<Job>)
    requires forall k :: 0 <= k < |rounds| ==> |rounds[k]| == |jobs|
    ensures |r| == |jobs|
    decreases |rounds|
  {
    if |rounds| == 0 then jobs else Passes(Work(jobs, limit, rounds[0]), limit, rounds[1..])
  }

  /** A pass with anything pending makes progress. */
  lemma WorkUsesAttempts(jobs: seq<Job>, limit: nat, outcomes: seq<Outcome>)
    requires Inv(jobs) && |outcomes| == |jobs|
    ensures Inv(Work(jobs, limit, outcomes))
    ensures Remaining(Work(jobs, limit, outcomes)) <= Remaining(jobs) - Integers.Min(limit, PendingCount(jobs))
  {
    hide Inv;
    PassKeepsInv(jobs, Batch(jobs, limit), outcomes);
    InvPending(jobs);
    PassUsesAttempts(jobs, Batch(jobs, limit), outcomes);
    BatchPicks(jobs, limit, |jobs|);
    assert jobs[..|jobs|] == jobs;
  }

  lemma InvPending(jobs: seq<Job>)
    requires Inv(jobs)
    ensures forall i :: 0 <= i < |jobs| && jobs[i].status == PENDING ==> jobs[i].attempts < jobs[i].maxAttempts
  {
  }

  /** With no new work, passes come to rest: after as many as there are attempts left, nothing is
      pending any more, whatever the devices answered. */
  lemma {:induction false} PassesSettle(jobs: seq<Job>, limit: nat, rounds: seq<seq<Outcome>>)
    requires Inv(jobs) && limit >= 1
    requires forall k :: 0 <= k < |rounds| ==> |rounds[k]| == |jobs|
    requires |rounds| >= Remaining(jobs)
    ensures Inv(Passes(jobs, limit, rounds))
    ensures forall i :: 0 <= i < |jobs| ==>
              var s := Passes(jobs, limit, rounds)[i].status; s == SUCCEEDED || s == FAILED || s == CANCELLED
    decreases |rounds|
  {
    hide Work;
    InvPending(jobs);
    RemainingNonNegative(jobs);
    if |rounds| == 0 {
      NoPendingLeft(jobs);
    } else {
      var next := Work(jobs, limit, rounds[0]);
      WorkUsesAttempts(jobs, limit, rounds[0]);
      if PendingCount(jobs) == 0 {
        NoPendingLeft(jobs);
        NothingPendingStays(jobs, limit, rounds);
      } else {
        PassesSettle(next, limit, rounds[1..]);
      }
    }
  }

  lemma {:induction false} NothingPendingStays(jobs: seq<Job>, limit: nat, rounds: seq<seq<Outcome>>)
    requires forall i :: 0 <= i < |jobs| ==> jobs[i].status != PENDING
    requires forall k :: 0 <= k < |rounds| ==> |rounds[k]| == |jobs|
    ensures Passes(jobs, limit, rounds) == jobs
    decreases |rounds|
  {
    if |rounds| > 0 {
      assert Work(jobs, limit, rounds[0]) == jobs;
      NothingPendingStays(jobs, limit, rounds[1..]);
    }
  }

  /** How often a job is attempted over some passes. */
  function Runs(jobs: seq<Job>, limit: nat, rounds: seq<seq<Outcome>>, i: nat): nat
    requires forall k :: 0 <= k < |rounds| ==> |rounds[k]| == |jobs|
    decreases |rounds|
  {
    if |rounds| == 0 then 0
    else (if Runnable(jobs, limit, i) then 1 else 0) + Runs(Work(jobs, limit, rounds[0]), limit, rounds[1..], i)
  }

  /** No job is attempted more than five times before it settles, over any number of passes. */
  lemma {:induction false} AtMostFiveRuns(jobs: seq<Job>, limit: nat, rounds: seq<seq<Outcome>>, i: nat)
    requires Inv(jobs) && i < |jobs|
    requires forall k :: 0 <= k < |rounds| ==> |rounds[k]| == |jobs|
    ensures Runs(jobs, limit, rounds, i) <= if jobs[i].status == PENDING then 5 - jobs[i].attempts else 0
    decreases |rounds|
  {
    if |rounds| > 0 {
      hide Inv, Work, Runnable, Runs, Attempted;
      var next, rest := Work(jobs, limit, rounds[0]), rounds[1..];
      WorkAt(jobs, limit, rounds[0], i);
      RunsStep(jobs, limit, rounds, i);
      AttemptCounts(jobs[i], rounds[0][i]);
      AtMostFiveRuns(next, limit, rest, i);
    } else {
      WorkPending(jobs, i);
    }
  }

  lemma RunsStep(jobs: seq<Job>, limit: nat, rounds: seq<seq<Outcome>>, i: nat)
    requires forall k :: 0 <= k < |rounds| ==> |rounds[k]| == |jobs|
    requires |rounds| > 0
    ensures Runs(jobs, limit, rounds, i) ==
            (if Runnable(jobs, limit, i) then 1 else 0) + Runs(Work(jobs, limit, rounds[0]), limit, rounds[1..], i)
  {
    hide Work, Runnable;
  }

  /** An attempt that leaves the job pending has been counted. */
  lemma AttemptCounts(j: Job, o: Outcome)
    ensures Attempted(j, o).status == PENDING ==> Attempted(j, o).attempts == j.attempts + 1
  {
  }

  lemma WorkPending(jobs: seq<Job>, i: nat)
    requires Inv(jobs) && i < |jobs|
    ensures jobs[i].status == PENDING ==> jobs[i].attempts < MAX_ATTEMPTS
  {
  }

  lemma WorkAt(jobs: seq<Job>, limit: nat, outcomes: seq<Outcome>, i: nat)
    requires Inv(jobs) && |outcomes| == |jobs| && i < |jobs|
    ensures var next := Work(jobs, limit, outcomes);
      && Inv(next)
      && next[i] == (if Runnable(jobs, limit, i) then Attempted(jobs[i], outcomes[i]) else jobs[i])
    ensures Runnable(jobs, limit, i) ==> jobs[i].status == PENDING
    ensures jobs[i].status == PENDING ==> jobs[i].attempts < MAX_ATTEMPTS
  {
    PassKeepsInv(jobs, Batch(jobs, limit), outcomes);
  }

  // ---------------------------------------------------------------------------------------
  // How a job ends
  // ---------------------------------------------------------------------------------------

  /** One visit to the queue: the jobs it picked, and what each try came to. */
  datatype Visit = Visit(page: set<nat>, outcomes: seq<Outcome>)

  ghost predicate Matches(n: nat, visits: seq<Visit>) {
    forall k :: 0 <= k < |visits| ==> |visits[k].outcomes| == n
  }

  function Visited(jobs: seq<Job>, visits: seq<Visit>): (r: seq<Job>)
    requires Matches(|jobs|, visits)
    ensures |r| == |jobs|
    decreases |visits|
  {
    if |visits| == 0 then jobs else Visited(Passed(jobs, visits[0].page, visits[0].outcomes), visits[1..])
  }

  /** The visits that worker passes make: each to the batch claimed at that moment. */
  function Claims(jobs: seq<Job>, limit: nat, rounds: seq<seq<Outcome>>): (r: seq<Visit>)
    requires forall k :: 0 <= k < |rounds| ==> |rounds[k]| == |jobs|
    ensures Matches(|jobs|, r)
    decreases |rounds|
  {
    if |rounds| == 0 then []
    else [Visit(Batch(jobs, limit), rounds[0])] + Claims(Work(jobs, limit, rounds[0]), limit, rounds[1..])
  }

  /** What the tries at one job came to, in order: it is tried when it is picked while pending. */
  function Tries(jobs: seq<Job>, visits: seq<Visit>, i: nat): seq<Outcome>
    requires i < |jobs| && Matches(|jobs|, visits)
    decreases |visits|
  {
    if |visits| == 0 then []
    else
      var v := visits[0];
      (if i in v.page && jobs[i].status == PENDING then [v.outcomes[i]] else [])
      + Tries(Passed(jobs, v.page, v.outcomes), visits[1..], i)
  }

  /** How a pending job stands after its tries. Only its last try was no plain failure, so nothing is
      tried again after a success or a hopeless try. It is done if and only if the last try
      succeeded, given up if and only if that one was hopeless or the attempts are used up, and
      waiting otherwise. */
  ghost predicate EndsByItsTries(was: Job, now: Job, tries: seq<Outcome>) {
    && now.key == was.key && now.maxAttempts == was.maxAttempts
    && (forall k :: 0 <= k < |tries| - 1 ==> tries[k] == Failure)
    && var n := |tries|;
    if n == 0 then now == was
    else
      && (now.status == SUCCEEDED <==> tries[n - 1] == Success)
      && (now.status == FAILED <==>
            tries[n - 1] == Gone || tries[n - 1] == Unreadable || (tries[n - 1] == Failure && was.attempts + n >= was.maxAttempts))
      && (now.status == PENDING <==> tries[n - 1] == Failure && was.attempts + n < was.maxAttempts)
      && now.attempts == was.attempts + if tries[n - 1] == Gone then n - 1 else n
  }

  /** Whatever pages are visited, every pending task ends as its own tries say, and any other task is
      left alone. */
  lemma {:induction false} EveryTaskEndsByItsTries(jobs: seq<Job>, visits: seq<Visit>, i: nat)
    requires Inv(jobs) && Matches(|jobs|, visits) && i < |jobs|
    ensures jobs[i].status == PENDING ==> EndsByItsTries(jobs[i], Visited(jobs, visits)[i], Tries(jobs, visits, i))
    ensures jobs[i].status != PENDING ==> Visited(jobs, visits)[i] == jobs[i] && Tries(jobs, visits, i) == []
    decreases |visits|
  {
    hide Inv, EndsByItsTries, Attempted;
    if |visits| > 0 {
      var v := visits[0];
      var next := Passed(jobs, v.page, v.outcomes);
      PassKeepsInv(jobs, v.page, v.outcomes);
      EveryTaskEndsByItsTries(next, visits[1..], i);
      assert next[i] == if i in v.page && jobs[i].status == PENDING then Attempted(jobs[i], v.outcomes[i]) else jobs[i];
      assert [] + Tries(next, visits[1..], i) == Tries(next, visits[1..], i);
      if i in v.page && jobs[i].status == PENDING {
        OneMoreTry(jobs[i], v.outcomes[i], Visited(jobs, visits)[i], Tries(next, visits[1..], i));
      }
    } else {
      assert EndsByItsTries(jobs[i], jobs[i], []) by { NoTry(jobs[i]); }
    }
  }

  lemma NoTry(j: Job)
    ensures EndsByItsTries(j, j, [])
  {
  }

  lemma OneMoreTry(j: Job, o: Outcome, now: Job, rest: seq<Outcome>)
    requires Attempted(j, o).status == PENDING ==> EndsByItsTries(Attempted(j, o), now, rest)
    requires Attempted(j, o).status != PENDING ==> now == Attempted(j, o) && rest == []
    ensures EndsByItsTries(j, now, [o] + rest)
  {
    assert Attempted(j, o).status == PENDING ==> o == Failure && j.attempts + 1 < j.maxAttempts;
    assert |rest| > 0 ==> ([o] + rest)[|rest|] == rest[|rest| - 1];
  }

  /** The same of the worker's passes, which try a job as often as it is runnable. */
  lemma EveryJobEndsByItsTries(jobs: seq<Job>, limit: nat, rounds: seq<seq<Outcome>>, i: nat)
    requires Inv(jobs) && i < |jobs| && jobs[i].status == PENDING
    requires forall k :: 0 <= k < |rounds| ==> |rounds[k]| == |jobs|
    ensures EndsByItsTries(jobs[i], Passes(jobs, limit, rounds)[i], Tries(jobs, Claims(jobs, limit, rounds), i))
    ensures |Tries(jobs, Claims(jobs, limit, rounds), i)| == Runs(jobs, limit, rounds, i)
  {
    hide Inv, EndsByItsTries;
    PassesVisit(jobs, limit, rounds, i);
    EveryTaskEndsByItsTries(jobs, Claims(jobs, limit, rounds), i);
  }

  lemma {:induction false} PassesVisit(jobs: seq<Job>, limit: nat, rounds: seq<seq<Outcome>>, i: nat)
    requires i < |jobs| && forall k :: 0 <= k < |rounds| ==> |rounds[k]| == |jobs|
    ensures Passes(jobs, limit, rounds) == Visited(jobs, Claims(jobs, limit, rounds))
    ensures |Tries(jobs, Claims(jobs, limit, rounds), i)| == Runs(jobs, limit, rounds, i)
    decreases |rounds|
  {
    hide Passed, Runnable;
    if |rounds| > 0 {
      assert i in Batch(jobs, limit) ==> jobs[i].status == PENDING by { RunnablePending(jobs, limit, i); }
      PassesVisit(Work(jobs, limit, rounds[0]), limit, rounds[1..], i);
      assert Claims(jobs, limit, rounds)[1..] == Claims(Work(jobs, limit, rounds[0]), limit, rounds[1..]);
    }
  }

  lemma RunnablePending(jobs: seq<Job>, limit: nat, i: nat)
    ensures Runnable(jobs, limit, i) ==> i < |jobs| && jobs[i].status == PENDING
  {
  }

  // ---------------------------------------------------------------------------------------
  // No starvation
  // ---------------------------------------------------------------------------------------

  lemma WorkPrefix(jobs: seq<Job>, limit: nat, outcomes: seq<Outcome>, n: nat)
    requires |outcomes| == |jobs| && n <= |jobs|
    ensures Work(jobs, limit, outcomes)[..n] == Work(jobs[..n], limit, outcomes[..n])
  {
    forall i: nat | i < n
      ensures Runnable(jobs, limit, i) == Runnable(jobs[..n], limit, i)
    {
      assert jobs[..n][..i] == jobs[..i];
    }
    assert forall i :: 0 <= i < n ==> Work(jobs, limit, outcomes)[..n][i] == Work(jobs[..n], limit, outcomes[..n])[i];
  }

  /** A pending job that is passed over waits behind a full batch of older ones, and each of those
      uses up an attempt: it is run within one pass per full batch of attempts left ahead of it. */
  lemma {:induction false} NoJobStarves(jobs: seq<Job>, limit: nat, rounds: seq<seq<Outcome>>, i: nat)
    requires Inv(jobs) && limit >= 1 && i < |jobs| && jobs[i].status == PENDING
    requires forall k :: 0 <= k < |rounds| ==> |rounds[k]| == |jobs|
    requires |rounds| > Remaining(jobs[..i]) / limit
    ensures Runs(jobs, limit, rounds, i) >= 1
    decreases |rounds|
  {
    hide Inv, Work, Remaining;
    InvRemaining(jobs, i);
    if !Runnable(jobs, limit, i) {
      var next := Work(jobs, limit, rounds[0]);
      OthersAhead(jobs, limit, rounds[0], i);
      DropBatch(Remaining(jobs[..i]), Remaining(next[..i]), limit);
      NoJobStarves(next, limit, rounds[1..], i);
    }
  }

  lemma OthersAhead(jobs: seq<Job>, limit: nat, outcomes: seq<Outcome>, i: nat)
    requires Inv(jobs) && i < |jobs| && jobs[i].status == PENDING && |outcomes| == |jobs|
    requires !Runnable(jobs, limit, i)
    ensures var next := Work(jobs, limit, outcomes);
      Inv(next) && next[i] == jobs[i] && 0 <= Remaining(next[..i]) <= Remaining(jobs[..i]) - limit
  {
    var next := Work(jobs, limit, outcomes);
    PassKeepsInv(jobs, Batch(jobs, limit), outcomes);
    WorkPrefix(jobs, limit, outcomes, i);
    InvPrefix(jobs, i);
    WorkUsesAttempts(jobs[..i], limit, outcomes[..i]);
    RemainingNonNegative(next[..i]);
  }

  lemma InvRemaining(jobs: seq<Job>, n: nat)
    requires Inv(jobs) && n <= |jobs|
    ensures Remaining(jobs[..n]) >= PendingCount(jobs[..n])
  {
    RemainingNonNegative(jobs[..n]);
  }

  lemma InvPrefix(jobs: seq<Job>, n: nat)
    requires Inv(jobs) && n <= |jobs|
    ensures Inv(jobs[..n])
  {
  }

  lemma DropBatch(a: int, b: int, limit: nat)
    requires limit >= 1 && 0 <= b <= a - limit
    ensures b / limit <= a / limit - 1
  {
    var x, y := a / limit, b / limit;
    assert a == x * limit + a % limit && b == y * limit + b % limit;
    assert (y + 1 - x) * limit == y * limit + limit - x * limit;
    assert (y + 1 - x) * limit < limit;
    Positive(y + 1 - x, limit);
  }

  lemma Positive(k: int, limit: nat)
    requires limit >= 1 && k * limit < limit
    ensures k <= 0
  {
    assert k >= 1 ==> (k - 1) * limit >= 0;
    assert (k - 1) * limit == k * limit - limit;
  }

  // ---------------------------------------------------------------------------------------
  // Sync tasks: any hundred pending ones
  // ---------------------------------------------------------------------------------------

  /** Passes over whichever pending tasks the query happens to return: all of them, or a full page. */
  ghost predicate SomePage(jobs: seq<Job>, page: set<nat>, limit: nat) {
    Picked(jobs, page) == Integers.Min(limit, PendingCount(jobs))
  }

  /** Even in no particular order, a pass over anything pending uses attempts up, so passes settle. */
  lemma SyncPassUsesAttempts(jobs: seq<Job>, page: set<nat>, limit: nat, outcomes: seq<Outcome>)
    requires Inv(jobs) && |outcomes| == |jobs| && SomePage(jobs, page, limit) && limit >= 1
    ensures Inv(Passed(jobs, page, outcomes))
    ensures PendingCount(jobs) > 0 ==> 0 <= Remaining(Passed(jobs, page, outcomes)) < Remaining(jobs)
    ensures PendingCount(jobs) == 0 ==> Passed(jobs, page, outcomes) == jobs
  {
    var next := Passed(jobs, page, outcomes);
    PassKeepsInv(jobs, page, outcomes);
    PassUsesAttempts(jobs, page, outcomes);
    RemainingNonNegative(next);
    if PendingCount(jobs) == 0 {
      NoPendingLeft(jobs);
      assert next == jobs;
    }
  }

  /** Visits of the retry job, each with all pending tasks or a full page of them. */
  ghost predicate FullPages(jobs: seq<Job>, limit: nat, visits: seq<Visit>)
    requires Matches(|jobs|, visits)
    decreases |visits|
  {
    |visits| == 0
    || (SomePage(jobs, visits[0].page, limit)
        && FullPages(Passed(jobs, visits[0].page, visits[0].outcomes), limit, visits[1..]))
  }

  /** With no new tasks, retries come to rest whichever full pages the query returns: after as many
      visits as there are attempts left, no task is pending any more. */
  lemma {:induction false} SyncPassesSettle(jobs: seq<Job>, limit: nat, visits: seq<Visit>)
    requires Inv(jobs) && limit >= 1 && Matches(|jobs|, visits) && FullPages(jobs, limit, visits) && |visits| >= Remaining(jobs)
    ensures Inv(Visited(jobs, visits))
    ensures forall i :: 0 <= i < |jobs| ==>
              var s := Visited(jobs, visits)[i].status; s == SUCCEEDED || s == FAILED || s == CANCELLED
    decreases |visits|
  {
    hide Passed, SomePage, Picked;
    InvPending(jobs);
    RemainingNonNegative(jobs);
    if |visits| == 0 {
      NoPendingLeft(jobs);
    } else {
      var v := visits[0];
      SyncPassUsesAttempts(jobs, v.page, limit, v.outcomes);
      if PendingCount(jobs) == 0 {
        NothingToVisit(jobs, limit, visits);
        NoPendingLeft(jobs);
      } else {
        SyncPassesSettle(Passed(jobs, v.page, v.outcomes), limit, visits[1..]);
      }
    }
  }

  lemma {:induction false} NothingToVisit(jobs: seq<Job>, limit: nat, visits: seq<Visit>)
    requires Inv(jobs) && limit >= 1 && Matches(|jobs|, visits) && FullPages(jobs, limit, visits) && PendingCount(jobs) == 0
    ensures Visited(jobs, visits) == jobs
    decreases |visits|
  {
    hide Inv, Passed, PendingCount, SomePage;
    if |visits| > 0 {
      SyncPassUsesAttempts(jobs, visits[0].page, limit, visits[0].outcomes);
      NothingToVisit(jobs, limit, visits[1..]);
    }
  }

  // ---------------------------------------------------------------------------------------
  // The table
  // ---------------------------------------------------------------------------------------

  function Results(outcomes: seq<bool>): (r: seq<Outcome>)
    ensures |r| == |outcomes|
  {
    seq(|outcomes|, i requires 0 <= i < |outcomes| => if outcomes[i] then Success else Failure)
  }

  class JobTable {
    var jobs: seq<Job>

    method EnqueueProvisioningJob(key: nat, plannable: bool) returns (deduplicated: bool)
      modifies this
      ensures jobs == Enqueued(old(jobs), key, plannable)
      ensures deduplicated <==> exists i :: 0 <= i < |old(jobs)| && old(jobs)[i].key == key
    {
      var existing := FindKey(jobs, key);
      if existing.Some? {
        var i := existing.value;
        if jobs[i].status == PENDING || jobs[i].status == PROCESSING {
          return true;
        }
        jobs := jobs[i := jobs[i].(status := PENDING, attempts := 0)];
        return true;
      }
      jobs := jobs + [Job(key, if plannable then PENDING else FAILED, 0, MAX_ATTEMPTS)];
      deduplicated := false;
    }

    /** Runs one job: PROCESSING while the device is spoken to, then the outcome. */
    method RunProvisioningJob(i: nat, ok: bool)
      requires i < |jobs|
      modifies this
      ensures jobs == if old(jobs)[i].status == SUCCEEDED || old(jobs)[i].status == CANCELLED then old(jobs)
                      else old(jobs)[i := Attempted(old(jobs)[i], if ok then Success else Failure)]
      ensures old(jobs)[i].status in {PENDING, FAILED} ==>
                && (jobs[i].status == SUCCEEDED <==> ok)
                && (jobs[i].status == PENDING <==> !ok && jobs[i].attempts < jobs[i].maxAttempts)
    {
      var job := jobs[i];
      if job.status == SUCCEEDED || job.status == CANCELLED {
        return;
      }
      var attempt := job.attempts + 1;
      jobs := jobs[i := job.(status := PROCESSING, attempts := attempt)];
      if ok {
        jobs := jobs[i := jobs[i].(status := SUCCEEDED)];
      } else {
        var exhausted := attempt >= job.maxAttempts;
        jobs := jobs[i := jobs[i].(status := if exhausted then FAILED else PENDING)];
      }
    }

    method RetryProvisioningJob(i: nat) returns (ok: bool)
      requires i < |jobs|
      modifies this
      ensures ok <==> old(jobs)[i].status == FAILED || old(jobs)[i].status == CANCELLED
      ensures jobs == Retried(old(jobs), i)
    {
      if jobs[i].status == PENDING || jobs[i].status == PROCESSING || jobs[i].status == SUCCEEDED {
        return false;
      }
      jobs := jobs[i := jobs[i].(status := PENDING, attempts := 0)];
      ok := true;
    }

    /** The oldest pending jobs, in order. */
    method ListRunnableJobs(limit: nat) returns (ids: seq<nat>)
      ensures forall i: nat :: i in ids <==> Runnable(jobs, limit, i)
      ensures forall a, b :: 0 <= a < b < |ids| ==> ids[a] < ids[b]
    {
      ids := [];
      var i := 0;
      while i < |jobs|
        invariant i <= |jobs|
        invariant forall k: nat :: k in ids <==> k < i && Runnable(jobs, limit, k)
        invariant forall a, b :: 0 <= a < b < |ids| ==> ids[a] < ids[b]
        invariant |ids| == Integers.Min(limit, PendingCount(jobs[..i]))
      {
        assert jobs[..i + 1][..i] == jobs[..i];
        assert forall a :: 0 <= a < |ids| ==> ids[a] in ids;
        if jobs[i].status == PENDING && |ids| < limit {
          ids := ids + [i];
        }
        i := i + 1;
      }
    }

    /** A worker pass: claim a batch, then run each job of it. */
    method RunPass(outcomes: seq<bool>)
      requires |outcomes| == |jobs|
      modifies this
      ensures jobs == Work(old(jobs), BATCH, Results(outcomes))
      ensures forall i :: 0 <= i < |jobs| ==>
                if Runnable(old(jobs), 20, i)
                then jobs[i].attempts == old(jobs)[i].attempts + 1 && (jobs[i].status == SUCCEEDED <==> outcomes[i])
                else jobs[i] == old(jobs)[i]
    {
      var ids := ListRunnableJobs(BATCH);
      ghost var results := Results(outcomes);
      var k := 0;
      while k < |ids|
        invariant k <= |ids| && |jobs| == |old(jobs)|
        invariant forall i :: 0 <= i < |jobs| ==> jobs[i] == if i in ids[..k] then Attempted(old(jobs)[i], results[i]) else old(jobs)[i]
      {
        assert ids[k] in ids && ids[k] !in ids[..k] && ids[..k + 1] == ids[..k] + [ids[k]];
        RunProvisioningJob(ids[k], outcomes[ids[k]]);
        k := k + 1;
      }
      assert ids[..k] == ids;
      assert jobs == Work(old(jobs), BATCH, results);
    }
  }

  class SyncTable {
    var tasks: seq<Job>

    /** One try at one task; a failure is recorded on the row, never thrown. */
    method ApplySyncTask(i: nat, found: bool, hasHost: bool, readable: bool, reached: bool)
      requires i < |tasks| && tasks[i].maxAttempts == MAX_ATTEMPTS
      modifies this
      ensures tasks == old(tasks)[i := Attempted(old(tasks)[i], SyncOutcome(found, hasHost, readable, reached))]
      ensures tasks[i].status == SUCCEEDED <==> found && hasHost && readable && reached
      ensures tasks[i].status == PENDING <==>
                found && (!hasHost || (readable && !reached)) && old(tasks)[i].attempts + 1 < 5
      ensures tasks[i].attempts == old(tasks)[i].attempts + if found then 1 else 0
    {
      var task := tasks[i];
      if !found {
        tasks := tasks[i := task.(status := FAILED)];
        return;
      }
      var attempts := task.attempts + 1;
      if !hasHost {
        tasks := tasks[i := task.(status := if attempts >= MAX_ATTEMPTS then FAILED else PENDING, attempts := attempts)];
        return;
      }
      if !readable {
        tasks := tasks[i := task.(status := FAILED, attempts := attempts)];
        return;
      }
      if reached {
        tasks := tasks[i := task.(status := SUCCEEDED, attempts := attempts)];
      } else {
        tasks := tasks[i := task.(status := if attempts >= MAX_ATTEMPTS then FAILED else PENDING, attempts := attempts)];
      }
    }
  }

  function SyncOutcome(found: bool, hasHost: bool, readable: bool, reached: bool): Outcome {
    if !found then Gone else if !hasHost then Failure else if !readable then Unreadable else if reached then Success else Failure
  }
}
