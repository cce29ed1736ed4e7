/** Background I/O: three workers, each with one first-in first-out list of jobs, and a counter
    for every type of job. A job stays at the head of its list, and stays counted, until it has
    been processed. */
module Bio {

  datatype Kind = CloseFile | AofFsync | LazyFree | CloseAof

  datatype Job = Job(kind: Kind, fd: nat, offset: nat)

  /** What a worker is doing with the job at the head of its list. `Running` remembers how long
      the file was when the job was taken: an fsync covers at least that much. */
  datatype Phase = Idle | Running(length: nat) | Processed

  datatype Worker = Worker(queue: seq<Job>, phase: Phase)

  datatype Pool = Pool(workers: seq<Worker>, counter: map<Kind, nat>)

  const WORKERS := 3

  /** bio_job_to_worker: both kinds of AOF job share one worker. */
  function WorkerOf(k: Kind): (w: nat)
    ensures w < WORKERS
  {
    match k
    case CloseFile => 0
    case AofFsync => 1
    case CloseAof => 1
    case LazyFree => 2
  }

  /** Only the two kinds of AOF job share a worker. */
  lemma WorkersShared(k: Kind, l: Kind)
    ensures WorkerOf(k) == WorkerOf(l) <==> k == l || {k, l} == {AofFsync, CloseAof}
  {
    assert k == l ==> {k, l} == {k};
  }

  function Count(queue: seq<Job>, k: Kind): nat {
    if queue == [] then 0 else (if queue[0].kind == k then 1 else 0) + Count(queue[1..], k)
  }

  ghost predicate Counted(p: Pool) {
    && |p.workers| == WORKERS
    && (forall k: Kind :: k in p.counter && p.counter[k] == Count(p.workers[WorkerOf(k)].queue, k))
    && (forall w, i :: 0 <= w < WORKERS && 0 <= i < |p.workers[w].queue| ==> WorkerOf(p.workers[w].queue[i].kind) == w)
    && (forall w :: 0 <= w < WORKERS ==> p.workers[w].queue != [] || p.workers[w].phase.Idle?)
  }

  function Empty(): Pool {
    Pool([Worker([], Idle), Worker([], Idle), Worker([], Idle)],
         map[CloseFile := 0, AofFsync := 0, LazyFree := 0, CloseAof := 0])
  }

  lemma EmptyIsCounted()
    ensures Counted(Empty())
  {
    forall k: Kind ensures k in Empty().counter && Empty().counter[k] == 0 {
      match k {
        case CloseFile => case AofFsync => case LazyFree => case CloseAof =>
      }
    }
  }

  // ----- The steps, each made under the lock of one worker ---------------------------------

  /** bioSubmitJob. */
  function Submit(p: Pool, job: Job): Pool
    requires Counted(p)
  {
    var w := WorkerOf(job.kind);
    Pool(p.workers[w := p.workers[w].(queue := p.workers[w].queue + [job])],
         p.counter[job.kind := p.counter[job.kind] + 1])
  }

  predicate CanTake(p: Pool, w: nat) {
    w < |p.workers| && p.workers[w].queue != [] && p.workers[w].phase.Idle?
  }

  /** The worker looks at the head of its list and lets go of the lock. */
  function Take(p: Pool, w: nat, length: nat): Pool
    requires CanTake(p, w)
  {
    p.(workers := p.workers[w := p.workers[w].(phase := Running(length))])
  }

  predicate CanFinish(p: Pool, w: nat) {
    w < |p.workers| && p.workers[w].queue != [] && !p.workers[w].phase.Idle?
  }

  /** The worker holds the lock again, unlinks the job and uncounts it. */
  function Finish(p: Pool, w: nat): Pool
    requires Counted(p) && CanFinish(p, w)
  {
    var job := p.workers[w].queue[0];
    Pool(p.workers[w := Worker(p.workers[w].queue[1..], Idle)],
         p.counter[job.kind := if p.counter[job.kind] > 0 then p.counter[job.kind] - 1 else 0])
  }

  // ----- The counters are the lists ---------------------------------------------------------

  lemma {:induction false} CountAppend(queue: seq<Job>, job: Job, k: Kind)
    ensures Count(queue + [job], k) == Count(queue, k) + (if job.kind == k then 1 else 0)
  {
    if queue == [] {
      assert [] + [job] == [job];
    } else {
      CountAppend(queue[1..], job, k);
      assert (queue + [job])[1..] == queue[1..] + [job];
    }
  }

  lemma {:induction false} CountIsZero(queue: seq<Job>, k: Kind)
    ensures Count(queue, k) == 0 <==> forall i :: 0 <= i < |queue| ==> queue[i].kind != k
  {
    if queue != [] {
      CountIsZero(queue[1..], k);
      assert forall i :: 0 <= i < |queue| && queue[i].kind == k && i > 0 ==> queue[1..][i - 1].kind == k;
      assert forall i :: 0 <= i < |queue| - 1 ==> queue[1..][i] == queue[i + 1];
    }
  }

  /** Every step keeps every counter equal to the number of jobs of its type that are waiting
      or being processed. */
  lemma SubmitKeeps(p: Pool, job: Job)
    requires Counted(p)
    ensures Counted(Submit(p, job))
  {
    hide Count, WorkerOf;
    var q := Submit(p, job);
    forall k: Kind ensures k in q.counter && q.counter[k] == Count(q.workers[WorkerOf(k)].queue, k) {
      CountAppend(p.workers[WorkerOf(job.kind)].queue, job, k);
    }
  }

  lemma FinishKeeps(p: Pool, w: nat)
    requires Counted(p) && CanFinish(p, w)
    ensures Counted(Finish(p, w))
    ensures p.counter[p.workers[w].queue[0].kind] > 0
    ensures Finish(p, w).workers == p.workers[w := Worker(p.workers[w].queue[1..], Idle)]
    ensures forall k: Kind :: WorkerOf(k) != w ==> Finish(p, w).counter[k] == p.counter[k]
  {
    hide WorkerOf;
  }

  lemma EmptyListCountsNothing(p: Pool, w: nat)
    requires Counted(p) && w < WORKERS && p.workers[w].queue == []
    ensures p.workers[w] == Worker([], Idle)
    ensures forall k: Kind :: WorkerOf(k) == w ==> p.counter[k] == 0
  {
  }

  /** bioPendingJobsOfType returns zero exactly when no such job waits or runs. */
  lemma NonePending(p: Pool, k: Kind)
    requires Counted(p)
    ensures p.counter[k] == 0 <==>
            forall i :: 0 <= i < |p.workers[WorkerOf(k)].queue| ==> p.workers[WorkerOf(k)].queue[i].kind != k
  {
    CountIsZero(p.workers[WorkerOf(k)].queue, k);
  }

  // ----- The imperative form ------------------------------------------------------------------

  class BioPool {
    var workers: seq<Worker>
    var counter: map<Kind, nat>

    ghost function State(): Pool
      reads this
    {
      Pool(workers, counter)
    }

    constructor ()
      ensures State() == Empty() && Counted(State())
    {
      EmptyIsCounted();
      workers := [Worker([], Idle), Worker([], Idle), Worker([], Idle)];
      counter := map[CloseFile := 0, AofFsync := 0, LazyFree := 0, CloseAof := 0];
    }

    method SubmitJob(job: Job)
      requires Counted(State())
      modifies this
      ensures State() == Submit(old(State()), job) && Counted(State())
    {
      hide Count;
      SubmitKeeps(State(), job);
      var w := WorkerOf(job.kind);
      workers := workers[w := workers[w].(queue := workers[w].queue + [job])];
      counter := counter[job.kind := counter[job.kind] + 1];
    }

    method PendingJobsOfType(k: Kind) returns (val: nat)
      requires Counted(State())
      ensures val == Count(workers[WorkerOf(k)].queue, k)
    {
      val := counter[k];
    }

    /** One turn of bioProcessBackgroundJobs, after the job itself has been processed. */
    method FinishJob(w: nat)
      requires Counted(State()) && CanFinish(State(), w)
      modifies this
      ensures State() == Finish(old(State()), w) && Counted(State())
    {
      FinishKeeps(State(), w);
      var kind := workers[w].queue[0].kind;
      workers := workers[w := Worker(workers[w].queue[1..], Idle)];
      counter := counter[kind := counter[kind] - 1];
    }

    /** A whole turn of the worker, when nobody else holds the lock. */
    method ProcessOne(w: nat)
      requires Counted(State()) && w < |workers| && workers[w].queue != []
      modifies this
      ensures Counted(State()) && |workers| == |old(workers)|
      ensures workers == old(workers)[w := Worker(old(workers)[w].queue[1..], Idle)]
      ensures forall j: Kind :: WorkerOf(j) != w ==> counter[j] == old(counter[j])
    {
      hide Finish, Count;
      if workers[w].phase.Idle? {
        workers := workers[w := workers[w].(phase := Processed)];
      }
      FinishKeeps(State(), w);
      FinishJob(w);
    }

    /** bioDrainWorker: the caller waits while the worker goes through its list. Afterwards no
        job of any type that this worker serves is pending, and no other worker has moved. */
    method DrainWorker(k: Kind)
      requires Counted(State())
      modifies this
      ensures Counted(State())
      ensures workers == old(workers)[WorkerOf(k) := Worker([], Idle)]
      ensures forall j: Kind :: counter[j] == if WorkerOf(j) == WorkerOf(k) then 0 else old(counter[j])
    {
      hide Finish, Count, WorkerOf;
      var w := WorkerOf(k);
      while |workers[w].queue| > 0
        invariant Counted(State()) && |workers| == |old(workers)|
        invariant workers == old(workers)[w := workers[w]]
        invariant forall j: Kind :: WorkerOf(j) != w ==> counter[j] == old(counter[j])
        decreases |workers[w].queue|
      {
        ProcessOne(w);
      }
      EmptyListCountsNothing(State(), w);
    }
  }
}
