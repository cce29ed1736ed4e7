/** What the published fsync offset promises.

    The main thread feeds commands, flushes, switches files, publishes an offset and changes
    the policy; the AOF worker takes a job, syncs the file, records the offset and unlinks the
    job. The steps interleave in any order. The offset that replicas and WAITAOF see covers
    only commands whose bytes are durable, although a job carries nothing but a number. */
module AofSync {
  import opened AofFlush
  import opened Bio

  /** The replication offset after a command, and the length of the fed stream after it. */
  datatype Mark = Mark(offset: nat, fed: nat)

  datatype Sys = Sys(
    aof: Aof,
    pool: Pool,
    durable: seq<nat>,     // for each INCR file, how much of it is known to be on the disk
    repl: nat,             // master_repl_offset
    pending: nat,          // fsynced_reploff_pending
    published: nat,        // fsynced_reploff
    marks: seq<Mark>,      // every command fed so far
    failed: bool)          // an fsync of the AOF worker has failed

  datatype Step =
    | Command(data: Bytes, advance: nat)   // feedAppendOnlyFile, then the replication feed
    | FlushStep(env: Env)
    | Rewrite(env: Env)                    // the forced flush of a rewrite, then the new INCR file
    | Publish                              // beforeSleep
    | ConfigSet(p: Policy)                 // updateAppendFsync
    | OtherJob(kind: Kind)                 // a job for another worker
    | TakeJob(w: nat)
    | Synced(ok: bool)                     // redis_fsync returns in the AOF worker
    | FinishJob(w: nat)

  const AOF: nat := 1

  // ----- The steps -------------------------------------------------------------------------

  /** What every state has, whatever failed. */
  ghost predicate Base(y: Sys) {
    && Counted(y.pool) && |y.pool.workers| == WORKERS
    && |y.durable| == Current(y.aof) + 1
  }

  function Len(a: Aof, f: nat): nat {
    if f < |a.closed| then |a.closed[f]| else |a.fd.bytes|
  }

  function Current(a: Aof): nat {
    |a.closed|
  }

  /** Carry out the fsync the flush asked for. */
  function AfterFlush(y: Sys, a: Aof, r: Request): Sys
    requires Counted(y.pool) && Current(a) < |y.durable|
  {
    match r
    case NoSync => y.(aof := a)
    case Background => y.(aof := a, pool := Submit(y.pool, Job(AofFsync, Current(a), y.repl)))
    case Inline => y.(aof := a, durable := y.durable[Current(a) := |a.fd.bytes|], pending := y.repl)
  }

  /** aofFsyncInProgress: only jobs of type AOF_FSYNC count. */
  function Env'(y: Sys, e: Env): Env
    requires Counted(y.pool)
  {
    e.(syncing := y.pool.counter[AofFsync] != 0)
  }

  function DoFlush(y: Sys, e: Env): Sys
    requires Base(y)
  {
    var out := Flush(y.aof, Env'(y, e));
    FlushEffect(y.aof, Env'(y, e));
    AfterFlush(y, out.0, out.1)
  }

  /** What the protocol needs to know of a flush. */
  lemma FlushEffect(a: Aof, e: Env)
    ensures var (t, r) := Flush(a, e);
      && t.closed == a.closed && t.policy == a.policy && t.fd.append == a.fd.append
      && (r == Background ==> a.policy == EverySec && !e.syncing)
      && (r == Inline ==> a.policy == Always)
      && (r == NoSync ==> t.syncOffset == a.syncOffset)
      && (r != NoSync ==> t.buf == [] && (!a.exited ==> !t.exited) && t.syncOffset == t.incrSize)
      && (a.policy == Always && !t.exited && r == NoSync && !e.child && t.buf == [] ==> t.syncOffset == t.incrSize)
  {
    hide WriteBuffer, TrySync;
    WriteEffect(a, e);
    SyncEffect(a, e);
    SyncEffect(WriteBuffer(a, e), e);
  }

  lemma WriteEffect(a: Aof, e: Env)
    ensures var t := WriteBuffer(a, e);
      && t.closed == a.closed && t.policy == a.policy && t.fd.append == a.fd.append
      && t.syncOffset == a.syncOffset
      && (t.writeOk && !t.exited ==> t.buf == [])
      && (!t.writeOk && !t.exited ==> t.policy != Always)
  {
    hide Accepted, Zeros;
  }

  lemma SyncEffect(a: Aof, e: Env)
    ensures var (t, r) := TrySync(a, e);
      && t.closed == a.closed && t.policy == a.policy && t.fd == a.fd && t.buf == a.buf
      && t.incrSize == a.incrSize
      && (r == Background ==> a.policy == EverySec && !e.syncing)
      && (r == Inline ==> a.policy == Always)
      && (r == NoSync ==> t.syncOffset == a.syncOffset)
      && (r != NoSync ==> t.exited == a.exited && t.syncOffset == t.incrSize)
      && (a.policy == Always && !t.exited && r == NoSync ==> e.child)
  {
  }

  /** With the file writable at its end, a flush moves bytes from the buffer to the file. */
  lemma FlushMoves(a: Aof, e: Env)
    requires Accounted(a) && AtEnd(a.fd) && !a.exited
    requires a.fd.append || !TakenBack(a, e)
    ensures var t := Flush(a, e).0;
      !t.exited ==>
        && Accounted(t) && AtEnd(t.fd)
        && |t.fd.bytes| + |t.buf| == |a.fd.bytes| + |a.buf|
        && |a.fd.bytes| <= |t.fd.bytes|
  {
    hide Put, Truncate, Accepted, Concat, Flush;
    FlushConserves(a, e);
    FlushStaysAtEnd(a, e);
    FlushEffect(a, e);
    FlushGrows(a, e);
  }

  lemma FlushGrows(a: Aof, e: Env)
    requires Accounted(a) && AtEnd(a.fd)
    ensures |a.fd.bytes| <= |Flush(a, e).0.fd.bytes|
  {
    hide Put, Truncate, Accepted, Zeros;
    PutThenTruncate(a.fd, a.buf[..Accepted(|a.buf|, e.results)]);
  }

  lemma FlushKeepsBase(y: Sys, e: Env)
    requires Base(y)
    ensures Base(DoFlush(y, e))
  {
    hide Flush;
    FlushEffect(y.aof, Env'(y, e));
    SubmitKeeps(y.pool, Job(AofFsync, Current(y.aof), y.repl));
  }

  /** openNewIncrAofForAppend hands the old file to the worker with the current offset. */
  function Switch(y: Sys, now: int): Sys
    requires Counted(y.pool)
  {
    y.(aof := OpenIncr(y.aof, now), durable := y.durable + [0],
       pool := Submit(y.pool, Job(CloseAof, Current(y.aof), y.repl)))
  }

  /** The worker's fsync: on success everything the file held when the job was taken is durable
      and the offset of the job is recorded. */
  function DoSynced(y: Sys, ok: bool): Sys
    requires Counted(y.pool)
  {
    var w := y.pool.workers[AOF];
    if w.queue == [] || !w.phase.Running? || w.queue[0].fd >= |y.durable| then y
    else
      var z := y.(pool := y.pool.(workers := y.pool.workers[AOF := w.(phase := Processed)]));
      if !ok then z.(failed := true)
      else
        var f := w.queue[0].fd;
        z.(durable := if w.phase.length > y.durable[f] then y.durable[f := w.phase.length] else y.durable,
           pending := w.queue[0].offset)
  }

  ghost function Next(y: Sys, s: Step): Sys
    requires Base(y)
  {
    if y.aof.exited then y
    else match s
      case Command(data, advance) =>
        var total := StreamLen(y.aof) + |data|;
        y.(aof := y.aof.(buf := y.aof.buf + data), repl := y.repl + advance,
           marks := y.marks + [Mark(y.repl + advance, total)])
      case FlushStep(e) => DoFlush(y, e)
      case Rewrite(e) =>
        if e.child then y
        else
          var z := DoFlush(y, e.(force := true));
          FlushKeepsBase(y, e.(force := true));
          if z.aof.exited then z else Switch(z, e.now)
      case Publish => y.(published := y.pending)
      case ConfigSet(p) =>
        if p == Always && y.pool.workers[AOF].queue != [] then y   // still draining
        else y.(aof := y.aof.(policy := p))
      case OtherJob(k) =>
        if WorkerOf(k) == AOF then y else y.(pool := Submit(y.pool, Job(k, 0, 0)))
      case TakeJob(w) =>
        if !CanTake(y.pool, w) then y
        else y.(pool := Take(y.pool, w, Len(y.aof, y.pool.workers[w].queue[0].fd)))
      case Synced(ok) => DoSynced(y, ok)
      case FinishJob(w) =>
        if !CanFinish(y.pool, w) || (w == AOF && !y.pool.workers[w].phase.Processed?) then y
        else y.(pool := Finish(y.pool, w))
  }

  // ----- Durability ---------------------------------------------------------------------------

  /** Where file `f` starts in the stream. */
  function Start(closed: seq<Bytes>, f: nat): nat
    requires f <= |closed|
  {
    if f == 0 then 0 else Start(closed, f - 1) + |closed[f - 1]|
  }

  function StreamLen(a: Aof): nat {
    Start(a.closed, Current(a)) + |a.fd.bytes| + |a.buf|
  }

  /** Each of the first `m` bytes of the stream is in a file and on the disk. */
  ghost predicate DurableTo(y: Sys, m: nat)
    requires |y.durable| == Current(y.aof) + 1
  {
    && m <= Start(y.aof.closed, Current(y.aof)) + |y.aof.fd.bytes|
    && forall f :: 0 <= f <= Current(y.aof) ==>
         Start(y.aof.closed, f) + y.durable[f] >= m || y.durable[f] >= Len(y.aof, f)
  }

  /** Every command up to replication offset `o` is durable. */
  ghost predicate Covered(y: Sys, o: nat)
    requires |y.durable| == Current(y.aof) + 1
  {
    forall k :: 0 <= k < |y.marks| && y.marks[k].offset <= o ==> DurableTo(y, y.marks[k].fed)
  }

  // ----- The invariant ------------------------------------------------------------------------

  /** Every command up to offset `o` ends before position `n` of the stream. */
  ghost predicate Before(marks: seq<Mark>, o: nat, n: nat) {
    forall k :: 0 <= k < |marks| && marks[k].offset <= o ==> marks[k].fed <= n
  }

  ghost predicate Shape(y: Sys) {
    && Base(y)
    && (forall f :: 0 <= f < |y.durable| ==> y.durable[f] <= Len(y.aof, f))
    && Accounted(y.aof)
    && AtEnd(y.aof.fd)
  }

  ghost predicate Marked(y: Sys) {
    && (forall k :: 0 <= k < |y.marks| ==> y.marks[k].offset <= y.repl && y.marks[k].fed <= StreamLen(y.aof))
    && (y.aof.buf != [] ==> y.marks != [] && y.marks[|y.marks| - 1].fed == StreamLen(y.aof))
  }

  /** The jobs of the AOF worker whose fsync has not happened yet. */
  function Rest(w: Worker): seq<Job>
  {
    if w.queue != [] && w.phase.Processed? then w.queue[1..] else w.queue
  }

  /** A job that will tell the truth: when its fsync is done, its offset is covered. */
  ghost predicate Honest(y: Sys, j: Job) {
    && j.fd <= Current(y.aof)
    && j.offset <= y.repl
    && (j.kind == CloseAof ==> j.fd < Current(y.aof))
    && Before(y.marks, j.offset, Start(y.aof.closed, j.fd) + Len(y.aof, j.fd))
  }

  ghost predicate Ordered(r: seq<Job>) {
    forall i, j :: 0 <= i < j < |r| ==>
      r[i].fd <= r[j].fd && r[i].offset <= r[j].offset && (r[i].kind == CloseAof ==> r[i].fd < r[j].fd)
  }

  /** The fsync in progress covers its offset even if it only reaches the length the file had
      when it began. */
  ghost predicate RunningHonest(y: Sys, j: Job, n: nat)
    requires j.fd <= Current(y.aof)
  {
    && n <= Len(y.aof, j.fd)
    && Before(y.marks, j.offset, Start(y.aof.closed, j.fd) + n)
    && (j.kind == CloseAof ==> n == Len(y.aof, j.fd))
    && (j.kind == AofFsync && j.fd == Current(y.aof) ==> y.aof.syncOffset <= n)
  }

  ghost predicate Closing(r: seq<Job>, f: nat) {
    exists i :: 0 <= i < |r| && r[i].kind == CloseAof && r[i].fd == f
  }

  ghost predicate Syncing(r: seq<Job>, f: nat) {
    exists i :: 0 <= i < |r| && r[i].kind == AofFsync && r[i].fd == f
  }

  ghost predicate AllHonest(y: Sys, r: seq<Job>) {
    forall i :: 0 <= i < |r| ==> Honest(y, r[i])
  }

  /** A file that is no longer written is durable, or its last fsync is still to come. */
  ghost predicate OldFiles(y: Sys, r: seq<Job>)
    requires |y.durable| == Current(y.aof) + 1
  {
    forall f :: 0 <= f < Current(y.aof) ==> y.durable[f] == Len(y.aof, f) || Closing(r, f)
  }

  /** aof_last_incr_fsync_offset tells the truth once no fsync of the current file is pending. */
  ghost predicate NewFile(y: Sys, r: seq<Job>)
    requires |y.durable| == Current(y.aof) + 1
  {
    y.aof.syncOffset <= y.durable[Current(y.aof)] || Syncing(r, Current(y.aof))
  }

  /** Under policy `always` the fsyncs happen in the main thread. */
  ghost predicate InAlways(y: Sys, r: seq<Job>)
    requires |y.durable| == Current(y.aof) + 1
  {
    y.aof.policy == Always ==>
      && (forall i :: 0 <= i < |r| ==> r[i].kind != AofFsync)
      && (forall f :: 0 <= f < Current(y.aof) ==> y.durable[f] == Len(y.aof, f))
  }

  ghost predicate Jobs(y: Sys, w: Worker)
    requires |y.durable| == Current(y.aof) + 1
  {
    var r := Rest(w);
    && AllHonest(y, r)
    && Ordered(r)
    && (w.phase.Running? ==> r != [] && Honest(y, r[0]) && RunningHonest(y, r[0], w.phase.length))
    && OldFiles(y, r)
    && NewFile(y, r)
    && InAlways(y, r)
  }

  ghost predicate Promises(y: Sys)
    requires |y.durable| == Current(y.aof) + 1
  {
    && y.pending <= y.repl && y.published <= y.repl
    && Covered(y, y.pending)
    && Covered(y, y.published)
  }

  /** The invariant, as long as no fsync of the worker has failed. */
  ghost predicate Inv(y: Sys) {
    Base(y) &&
    (!y.aof.exited && !y.failed ==>
     && Shape(y)
     && Marked(y)
     && Jobs(y, y.pool.workers[AOF])
     && Promises(y))
  }

  // ----- Each step keeps it -------------------------------------------------------------------

  lemma {:induction false} StartAppend(closed: seq<Bytes>, x: Bytes, f: nat)
    requires f <= |closed|
    ensures Start(closed + [x], f) == Start(closed, f)
    decreases f
  {
    if f > 0 {
      StartAppend(closed, x, f - 1);
    }
  }

  lemma {:induction false} StartGrows(closed: seq<Bytes>, f: nat, g: nat)
    requires f < g <= |closed|
    ensures Start(closed, f) + |closed[f]| <= Start(closed, g)
    decreases g
  {
    if f < g - 1 {
      StartGrows(closed, f, g - 1);
    }
  }

  /** `z` comes from `y` by growing: the current file, what is durable, the replication offset
      and the commands fed. */
  ghost predicate Grown(y: Sys, z: Sys) {
    && |y.durable| == |z.durable| == Current(y.aof) + 1
    && z.aof.closed == y.aof.closed
    && |y.aof.fd.bytes| <= |z.aof.fd.bytes|
    && (forall f :: 0 <= f < |y.durable| ==> y.durable[f] <= z.durable[f] <= Len(z.aof, f))
    && y.repl <= z.repl
    && (z.marks == y.marks || exists m: Mark :: z.marks == y.marks + [m] && m.offset > y.repl)
  }

  lemma GrownCovered(y: Sys, z: Sys, o: nat)
    requires Grown(y, z) && o <= y.repl && Covered(y, o)
    ensures Covered(z, o)
  {
    forall k | 0 <= k < |z.marks| && z.marks[k].offset <= o ensures DurableTo(z, z.marks[k].fed) {
      assert y.marks[k] == z.marks[k] && DurableTo(y, y.marks[k].fed);
    }
  }

  lemma GrownPromises(y: Sys, z: Sys)
    requires Grown(y, z) && Promises(y) && z.pending == y.pending && z.published == y.published
    ensures Promises(z)
  {
    GrownCovered(y, z, y.pending);
    GrownCovered(y, z, y.published);
  }

  lemma GrownHonest(y: Sys, z: Sys, j: Job)
    requires Grown(y, z) && Honest(y, j)
    ensures Honest(z, j)
  {
  }

  lemma GrownJobs(y: Sys, z: Sys, w: Worker)
    requires Grown(y, z) && Jobs(y, w)
    requires z.aof.policy == y.aof.policy || InAlways(z, Rest(w))
    requires z.aof.syncOffset == y.aof.syncOffset
          || (&& z.aof.syncOffset <= z.durable[Current(z.aof)]
              && forall i :: 0 <= i < |Rest(w)| ==> Rest(w)[i].kind != AofFsync)
    ensures Jobs(z, w)
  {
    hide Honest;
    var r := Rest(w);
    forall i | 0 <= i < |r| ensures Honest(z, r[i]) {
      GrownHonest(y, z, r[i]);
    }
    if w.phase.Running? {
      GrownRunning(y, z, r[0], w.phase.length);
    }
    forall f | 0 <= f < Current(z.aof) ensures z.durable[f] == Len(z.aof, f) || Closing(r, f) {
      assert y.durable[f] == Len(y.aof, f) || Closing(r, f);
    }
  }

  lemma GrownRunning(y: Sys, z: Sys, j: Job, n: nat)
    requires Grown(y, z) && Honest(y, j) && RunningHonest(y, j, n)
    requires z.aof.syncOffset == y.aof.syncOffset || j.kind != AofFsync
    ensures Honest(z, j) && RunningHonest(z, j, n)
  {
  }

  lemma CommandKeeps(y: Sys, data: Bytes, advance: nat)
    requires Inv(y) && data != [] && advance > 0
    ensures Inv(Next(y, Command(data, advance)))
  {
    hide Counted, Jobs, Promises;
    if !y.aof.exited && !y.failed {
      var z := Next(y, Command(data, advance));
      assert z.marks == y.marks + [z.marks[|y.marks|]];
      GrownJobs(y, z, y.pool.workers[AOF]);
      GrownPromises(y, z);
    }
  }

  lemma FlushKeeps(y: Sys, e: Env)
    requires Inv(y) && !y.aof.exited && !y.failed
    requires y.aof.fd.append || !TakenBack(y.aof, Env'(y, e))
    ensures Inv(DoFlush(y, e))
  {
    hide Flush, TakenBack, Counted, Jobs, Promises, Marked, Submit;
    var (a, r) := Flush(y.aof, Env'(y, e));
    FlushEffect(y.aof, Env'(y, e));
    FlushMoves(y.aof, Env'(y, e));
    FlushKeepsBase(y, e);
    if !a.exited {
      NonePending(y.pool, AofFsync);
      assert WorkerOf(AofFsync) == AOF;
      AfterFlushKeeps(y, a, r);
    }
  }

  lemma AfterFlushKeeps(y: Sys, a: Aof, r: Request)
    requires Inv(y) && !y.aof.exited && !y.failed && !a.exited
    requires a.closed == y.aof.closed && a.policy == y.aof.policy
    requires Accounted(a) && AtEnd(a.fd)
    requires |a.fd.bytes| + |a.buf| == |y.aof.fd.bytes| + |y.aof.buf|
    requires |y.aof.fd.bytes| <= |a.fd.bytes|
    requires r == NoSync ==> a.syncOffset == y.aof.syncOffset
    requires r != NoSync ==> a.buf == [] && a.syncOffset == a.incrSize
    requires r == Inline ==> a.policy == Always
    requires r == Background ==> a.policy == EverySec
    requires r == Background ==>
      forall i :: 0 <= i < |y.pool.workers[AOF].queue| ==> y.pool.workers[AOF].queue[i].kind != AofFsync
    ensures Inv(AfterFlush(y, a, r))
  {
    hide Counted, Jobs, Promises, Honest;
    var w := y.pool.workers[AOF];
    var z := y.(aof := a);
    match r {
      case NoSync =>
        GrownJobs(y, z, w);
        GrownPromises(y, z);
      case Inline =>
        InlineKeeps(y, a);
      case Background =>
        BackgroundKeeps(y, a);
    }
  }

  lemma InlineKeeps(y: Sys, a: Aof)
    requires Inv(y) && !y.aof.exited && !y.failed && !a.exited
    requires a.closed == y.aof.closed && a.policy == y.aof.policy == Always
    requires Accounted(a) && AtEnd(a.fd)
    requires |a.fd.bytes| == |y.aof.fd.bytes| + |y.aof.buf| && a.buf == []
    requires a.syncOffset == a.incrSize
    ensures Inv(AfterFlush(y, a, Inline))
  {
    hide Counted, Honest;
    var z := AfterFlush(y, a, Inline);
    var w := y.pool.workers[AOF];
    GrownJobs(y, z, w);
    assert InAlways(y, Rest(w));
    forall k | 0 <= k < |z.marks| ensures DurableTo(z, z.marks[k].fed) {
    }
  }

  lemma BackgroundKeeps(y: Sys, a: Aof)
    requires Inv(y) && !y.aof.exited && !y.failed && !a.exited
    requires a.closed == y.aof.closed && a.policy == y.aof.policy == EverySec
    requires Accounted(a) && AtEnd(a.fd)
    requires |a.fd.bytes| == |y.aof.fd.bytes| + |y.aof.buf| && a.buf == []
    requires a.syncOffset == a.incrSize
    requires forall i :: 0 <= i < |y.pool.workers[AOF].queue| ==> y.pool.workers[AOF].queue[i].kind != AofFsync
    ensures Inv(AfterFlush(y, a, Background))
  {
    hide Counted, Honest, Jobs, Promises;
    var job := Job(AofFsync, Current(a), y.repl);
    var w := y.pool.workers[AOF];
    var y0 := y.(aof := a.(syncOffset := y.aof.syncOffset));
    var z := AfterFlush(y, a, Background);
    SubmitKeeps(y.pool, job);
    IdleIfEmpty(y.pool, AOF);
    GrownJobs(y, y0, w);
    GrownPromises(y, z);
    NewJobIsHonest(z, job);
    AppendFsync(y0, z, w, job);
  }

  lemma IdleIfEmpty(p: Pool, w: nat)
    requires Counted(p) && w < WORKERS
    ensures p.workers[w].queue == [] ==> p.workers[w].phase.Idle?
  {
  }

  /** Submitted with an empty buffer, a job for the current file is honest. */
  lemma NewJobIsHonest(y: Sys, job: Job)
    requires Marked(y) && y.aof.buf == []
    requires job.fd == Current(y.aof) && job.offset == y.repl && job.kind == AofFsync
    ensures Honest(y, job)
  {
  }

  lemma RestOfAppend(w: Worker, job: Job)
    requires w.queue == [] ==> w.phase.Idle?
    ensures Rest(w.(queue := w.queue + [job])) == Rest(w) + [job]
  {
    if w.queue != [] {
      assert (w.queue + [job])[1..] == w.queue[1..] + [job];
    }
  }

  /** A new job at the end of the list. */
  lemma AppendJob(y: Sys, r: seq<Job>, job: Job)
    requires AllHonest(y, r) && Ordered(r) && Honest(y, job) && job.offset == y.repl
    requires forall i :: 0 <= i < |r| ==> r[i].fd <= job.fd && (r[i].kind == CloseAof ==> r[i].fd < job.fd)
    ensures AllHonest(y, r + [job]) && Ordered(r + [job])
  {
    hide Before;
    assert forall i :: 0 <= i < |r| ==> (r + [job])[i] == r[i] && Honest(y, r[i]);
  }

  lemma AppendKeepsOldFiles(y: Sys, r: seq<Job>, job: Job)
    requires |y.durable| == Current(y.aof) + 1 && OldFiles(y, r)
    ensures OldFiles(y, r + [job])
  {
    forall f | 0 <= f < Current(y.aof) ensures y.durable[f] == Len(y.aof, f) || Closing(r + [job], f) {
      if Closing(r, f) {
        var i :| 0 <= i < |r| && r[i].kind == CloseAof && r[i].fd == f;
        assert (r + [job])[i] == r[i];
      }
    }
  }

  lemma AppendFsync(y: Sys, z: Sys, w: Worker, job: Job)
    requires |z.durable| == |y.durable| == Current(z.aof) + 1
    requires z.aof.(syncOffset := 0) == y.aof.(syncOffset := 0) && y.aof.policy != Always
    requires Jobs(y, w) && (w.queue == [] ==> w.phase.Idle?)
    requires z.durable == y.durable && z.marks == y.marks && z.repl == y.repl
    requires job.fd == Current(z.aof) && job.offset == z.repl && job.kind == AofFsync && Honest(z, job)
    requires forall i :: 0 <= i < |Rest(w)| ==> Rest(w)[i].kind != AofFsync
    ensures Jobs(z, w.(queue := w.queue + [job]))
  {
    hide Honest, RunningHonest, Ordered, OldFiles, Rest;
    RestOfAppend(w, job);
    var r := Rest(w);
    forall i | 0 <= i < |r|
      ensures Honest(z, r[i]) && r[i].fd <= job.fd && (r[i].kind == CloseAof ==> r[i].fd < job.fd) {
      SameHonest(y, z, r[i]);
    }
    if w.phase.Running? {
      assert (r + [job])[0] == r[0];
      SameRunning(y, z, r[0], w.phase.length);
    }
    SameOldFiles(y, z, r);
    AppendJob(z, r, job);
    AppendKeepsOldFiles(z, r, job);
    assert (r + [job])[|r|] == job;
    assert Syncing(r + [job], Current(z.aof));
  }

  lemma SameHonest(y: Sys, z: Sys, j: Job)
    requires z.marks == y.marks && z.repl == y.repl && z.aof.closed == y.aof.closed && z.aof.fd == y.aof.fd
    requires Honest(y, j)
    ensures Honest(z, j) && j.fd <= Current(z.aof) && (j.kind == CloseAof ==> j.fd < Current(z.aof))
  {
  }

  lemma SameRunning(y: Sys, z: Sys, j: Job, n: nat)
    requires z.marks == y.marks && z.repl == y.repl && z.aof.closed == y.aof.closed && z.aof.fd == y.aof.fd
    requires Honest(y, j) && RunningHonest(y, j, n) && j.kind != AofFsync
    ensures Honest(z, j) && RunningHonest(z, j, n)
  {
  }

  lemma SameOldFiles(y: Sys, z: Sys, r: seq<Job>)
    requires |z.durable| == |y.durable| == Current(z.aof) + 1
    requires z.durable == y.durable && z.aof.closed == y.aof.closed && OldFiles(y, r)
    ensures OldFiles(z, r)
  {
    assert forall f :: 0 <= f < Current(y.aof) ==> Len(z.aof, f) == Len(y.aof, f);
  }

  // ----- The switch to a new file -------------------------------------------------------------

  /** The files of `y` keep their places and lengths in `z`, which has one file more. */
  ghost predicate OneMore(y: Sys, z: Sys) {
    && |y.durable| == Current(y.aof) + 1 == Current(z.aof)
    && z.durable == y.durable + [0]
    && z.marks == y.marks && z.repl == y.repl
    && (forall f :: 0 <= f <= Current(y.aof) ==> Start(z.aof.closed, f) == Start(y.aof.closed, f))
    && (forall f :: 0 <= f <= Current(y.aof) ==> Len(z.aof, f) == Len(y.aof, f))
    && Start(z.aof.closed, Current(z.aof)) == Start(y.aof.closed, Current(y.aof)) + |y.aof.fd.bytes|
    && z.aof.fd.bytes == []
  }

  lemma SwitchIsOneMore(y: Sys, now: int)
    requires Base(y)
    ensures OneMore(y, Switch(y, now)) && StreamLen(Switch(y, now).aof) == StreamLen(y.aof)
  {
    hide Counted, Submit;
    forall f | 0 <= f <= Current(y.aof)
      ensures Start(y.aof.closed + [y.aof.fd.bytes], f) == Start(y.aof.closed, f) {
      StartAppend(y.aof.closed, y.aof.fd.bytes, f);
    }
  }

  lemma OneMoreCovered(y: Sys, z: Sys, o: nat)
    requires OneMore(y, z) && Covered(y, o)
    ensures Covered(z, o)
  {
    hide Len, Start;
    forall k | 0 <= k < |z.marks| && z.marks[k].offset <= o ensures DurableTo(z, z.marks[k].fed) {
      assert DurableTo(y, y.marks[k].fed);
    }
  }

  lemma OneMoreHonest(y: Sys, z: Sys, j: Job)
    requires OneMore(y, z) && Honest(y, j)
    ensures Honest(z, j)
  {
    hide Len, Start;
  }

  lemma OneMoreRunning(y: Sys, z: Sys, j: Job, n: nat)
    requires OneMore(y, z) && Honest(y, j) && RunningHonest(y, j, n)
    ensures Honest(z, j) && RunningHonest(z, j, n)
  {
    hide Len, Start;
  }

  /** Handed over with an empty buffer, the old file's last job is honest. */
  lemma CloseIsHonest(y: Sys, z: Sys, job: Job)
    requires OneMore(y, z) && Marked(y) && y.aof.buf == []
    requires job == Job(CloseAof, Current(y.aof), y.repl)
    ensures Honest(z, job)
  {
  }

  lemma SwitchJobs(y: Sys, z: Sys, w: Worker, job: Job)
    requires OneMore(y, z) && Jobs(y, w) && (w.queue == [] ==> w.phase.Idle?)
    requires z.aof.policy == y.aof.policy && z.aof.syncOffset == 0
    requires y.aof.policy == Always ==> y.durable[Current(y.aof)] == Len(y.aof, Current(y.aof))
    requires job == Job(CloseAof, Current(y.aof), y.repl) && Honest(z, job)
    ensures Jobs(z, w.(queue := w.queue + [job]))
  {
    hide Honest, RunningHonest, Ordered, OldFiles, Rest, Len, Start;
    RestOfAppend(w, job);
    var r := Rest(w);
    forall i | 0 <= i < |r|
      ensures Honest(z, r[i]) && r[i].fd <= job.fd && (r[i].kind == CloseAof ==> r[i].fd < job.fd) {
      assert Honest(y, r[i]);
      HonestFd(y, r[i]);
      OneMoreHonest(y, z, r[i]);
    }
    if w.phase.Running? {
      assert (r + [job])[0] == r[0];
      OneMoreRunning(y, z, r[0], w.phase.length);
    }
    AppendJob(z, r, job);
    SwitchOldFiles(y, z, r, job);
  }

  lemma HonestFd(y: Sys, j: Job)
    requires Honest(y, j)
    ensures j.fd <= Current(y.aof) && (j.kind == CloseAof ==> j.fd < Current(y.aof))
  {
  }

  lemma SwitchOldFiles(y: Sys, z: Sys, r: seq<Job>, job: Job)
    requires OneMore(y, z) && OldFiles(y, r)
    requires job == Job(CloseAof, Current(y.aof), y.repl)
    ensures OldFiles(z, r + [job])
  {
    hide Len, Start;
    AppendKeepsOldFiles(y, r, job);
    assert (r + [job])[|r|] == job;
    assert Closing(r + [job], Current(y.aof));
  }

  lemma SwitchKeeps(y: Sys, now: int)
    requires Inv(y) && !y.aof.exited && !y.failed && y.aof.buf == []
    requires y.aof.policy == Always ==> y.durable[Current(y.aof)] == Len(y.aof, Current(y.aof))
    ensures Inv(Switch(y, now))
  {
    hide Counted, Honest, Jobs, Covered;
    var z := Switch(y, now);
    var w := y.pool.workers[AOF];
    var job := Job(CloseAof, Current(y.aof), y.repl);
    SwitchIsOneMore(y, now);
    SubmitKeeps(y.pool, job);
    IdleIfEmpty(y.pool, AOF);
    CloseIsHonest(y, z, job);
    SwitchJobs(y, z, w, job);
    OneMoreCovered(y, z, y.pending);
    OneMoreCovered(y, z, y.published);
  }

  // ----- The worker ---------------------------------------------------------------------------

  lemma TakeIsHonest(y: Sys, j: Job)
    requires Shape(y) && Honest(y, j)
    ensures RunningHonest(y, j, Len(y.aof, j.fd))
  {
  }

  /** Apart from the pool itself, only the AOF worker's list matters. */
  lemma PoolOnly(y: Sys, z: Sys)
    requires Inv(y) && !y.aof.exited && !y.failed
    requires z == y.(pool := z.pool) && Base(z) && Jobs(y, z.pool.workers[AOF])
    ensures Inv(z)
  {
    hide Counted, Jobs, Promises, Rest;
    GrownJobs(y, z, z.pool.workers[AOF]);
    GrownPromises(y, z);
  }

  lemma TakeKeeps(y: Sys, w: nat)
    requires Inv(y) && !y.aof.exited && !y.failed
    ensures Inv(Next(y, TakeJob(w)))
  {
    hide Honest, RunningHonest, Ordered, OldFiles, NewFile, Covered, Len, Promises;
    if CanTake(y.pool, w) {
      if w == AOF {
        assert Honest(y, Rest(y.pool.workers[AOF])[0]);
        HonestFd(y, Rest(y.pool.workers[AOF])[0]);
        TakeIsHonest(y, Rest(y.pool.workers[AOF])[0]);
      }
      PoolOnly(y, Next(y, TakeJob(w)));
    }
  }

  lemma FinishStepKeeps(y: Sys, w: nat)
    requires Inv(y) && !y.aof.exited && !y.failed
    ensures Inv(Next(y, FinishJob(w)))
  {
    hide Counted, Honest, RunningHonest, Ordered, OldFiles, NewFile, Covered, AllHonest, InAlways, Marked, Shape;
    if CanFinish(y.pool, w) && (w == AOF ==> y.pool.workers[w].phase.Processed?) {
      FinishKeeps(y.pool, w);
      PoolOnly(y, Next(y, FinishJob(w)));
    }
  }

  lemma OtherKeeps(y: Sys, k: Kind)
    requires Inv(y) && !y.aof.exited && !y.failed
    ensures Inv(Next(y, OtherJob(k)))
  {
    hide Counted, Honest, RunningHonest, Ordered, OldFiles, NewFile, Covered, AllHonest, InAlways, Marked, Shape;
    if WorkerOf(k) != AOF {
      SubmitKeeps(y.pool, Job(k, 0, 0));
      PoolOnly(y, Next(y, OtherJob(k)));
    }
  }

  lemma ConfigKeeps(y: Sys, p: Policy)
    requires Inv(y) && !y.aof.exited && !y.failed
    ensures Inv(Next(y, ConfigSet(p)))
  {
    hide Counted, Honest, RunningHonest, Promises, NewFile, AllHonest, Ordered;
    var z := Next(y, ConfigSet(p));
    var w := y.pool.workers[AOF];
    assert Rest(w) == [] ==> forall f :: !Closing(Rest(w), f);
    assert InAlways(z, Rest(w));
    GrownJobs(y, z, w);
    GrownPromises(y, z);
  }

  /** When the fsync of the first job is done, its offset is covered: everything in older files
      has been synced by jobs that were in front of it. */
  lemma SyncedCovers(y: Sys, z: Sys, r: seq<Job>, n: nat)
    requires Grown(y, z) && z.marks == y.marks && z.aof == y.aof
    requires r != [] && Honest(y, r[0]) && RunningHonest(y, r[0], n) && Ordered(r) && OldFiles(y, r)
    requires z.durable[r[0].fd] >= n
    ensures Covered(z, r[0].offset)
  {
    var j := r[0];
    var closed := y.aof.closed;
    forall k | 0 <= k < |z.marks| && z.marks[k].offset <= j.offset ensures DurableTo(z, z.marks[k].fed) {
      var m := z.marks[k].fed;
      assert m <= Start(closed, j.fd) + n;
      if j.fd < Current(y.aof) {
        StartGrows(closed, j.fd, Current(y.aof));
      }
      forall f | 0 <= f <= Current(z.aof)
        ensures Start(closed, f) + z.durable[f] >= m || z.durable[f] >= Len(z.aof, f) {
        if f < j.fd {
          NoneBefore(r, f);
        } else if f > j.fd {
          StartGrows(closed, j.fd, f);
        }
      }
    }
  }

  lemma NoneBefore(r: seq<Job>, f: nat)
    requires Ordered(r) && r != [] && f < r[0].fd
    ensures !Closing(r, f)
  {
  }

  /** What the files owe is one job less. */
  lemma SyncedFiles(y: Sys, z: Sys, r: seq<Job>, n: nat)
    requires Grown(y, z) && z.aof == y.aof && r != [] && r[0].fd <= Current(y.aof) && z.durable[r[0].fd] >= n
    requires RunningHonest(y, r[0], n) && OldFiles(y, r) && NewFile(y, r)
    ensures OldFiles(z, r[1..]) && NewFile(z, r[1..])
  {
    forall f | 0 <= f < Current(z.aof) ensures z.durable[f] == Len(z.aof, f) || Closing(r[1..], f) {
      assert y.durable[f] == Len(y.aof, f) || Closing(r, f);
      ClosingTail(r, f);
    }
    SyncingTail(r, Current(z.aof));
  }

  lemma ClosingTail(r: seq<Job>, f: nat)
    requires r != []
    ensures Closing(r, f) ==> (r[0].kind == CloseAof && r[0].fd == f) || Closing(r[1..], f)
  {
    if Closing(r, f) {
      var i :| 0 <= i < |r| && r[i].kind == CloseAof && r[i].fd == f;
      assert i > 0 ==> r[1..][i - 1] == r[i];
    }
  }

  lemma SyncingTail(r: seq<Job>, f: nat)
    requires r != []
    ensures Syncing(r, f) ==> (r[0].kind == AofFsync && r[0].fd == f) || Syncing(r[1..], f)
  {
    if Syncing(r, f) {
      var i :| 0 <= i < |r| && r[i].kind == AofFsync && r[i].fd == f;
      assert i > 0 ==> r[1..][i - 1] == r[i];
    }
  }

  lemma SyncedKeeps(y: Sys)
    requires Inv(y) && !y.aof.exited && !y.failed
    ensures Inv(Next(y, Synced(true)))
  {
    hide Counted, Shape, Marked, Jobs, Promises, Rest, Grown;
    var w := y.pool.workers[AOF];
    var z := Next(y, Synced(true));
    SyncedBase(y);
    if w.queue != [] && w.phase.Running? {
      SyncedGrows(y);
      SyncedShape(y, z);
      SyncedJobs(y, z, w);
      SyncedPromises(y, z, w);
    }
  }

  /** What a successful fsync of the worker changes. */
  lemma SyncedGrows(y: Sys)
    requires Base(y) && Shape(y) && !y.aof.exited && Jobs(y, y.pool.workers[AOF])
    requires y.pool.workers[AOF].queue != [] && y.pool.workers[AOF].phase.Running?
    ensures var (w, z) := (y.pool.workers[AOF], Next(y, Synced(true)));
      && Grown(y, z) && Rest(w) == w.queue && w.queue[0].fd < |y.durable|
      && z.pool.workers[AOF] == w.(phase := Processed)
      && z == y.(pool := z.pool, durable := z.durable, pending := w.queue[0].offset)
      && z.durable[w.queue[0].fd] >= w.phase.length
  {
    hide Counted, Ordered, OldFiles, NewFile, Before, Start, InAlways, Accounted;
  }

  lemma SyncedShape(y: Sys, z: Sys)
    requires Shape(y) && Marked(y) && Base(z) && Grown(y, z)
    requires z == y.(pool := z.pool, durable := z.durable, pending := z.pending)
    ensures Shape(z) && Marked(z)
  {
    hide Counted, Accounted;
  }

  lemma SyncedJobs(y: Sys, z: Sys, w: Worker)
    requires Grown(y, z) && Jobs(y, w) && w.phase.Running? && Rest(w) == w.queue != []
    requires z == y.(pool := z.pool, durable := z.durable, pending := z.pending)
    requires w.queue[0].fd < |y.durable| && z.durable[w.queue[0].fd] >= w.phase.length
    ensures Jobs(z, w.(phase := Processed))
  {
    hide Ordered, OldFiles, NewFile, Honest;
    var r := w.queue;
    SyncedFiles(y, z, r, w.phase.length);
    OrderedTail(r);
    forall i | 0 <= i < |r[1..]| ensures Honest(z, r[1..][i]) {
      assert Honest(y, r[i + 1]);
      GrownHonest(y, z, r[i + 1]);
    }
  }

  lemma SyncedPromises(y: Sys, z: Sys, w: Worker)
    requires Grown(y, z) && Jobs(y, w) && Promises(y) && w.phase.Running? && Rest(w) == w.queue != []
    requires z == y.(pool := z.pool, durable := z.durable, pending := w.queue[0].offset)
    requires w.queue[0].fd < |y.durable| && z.durable[w.queue[0].fd] >= w.phase.length
    ensures Promises(z)
  {
    hide Ordered, OldFiles, NewFile, Covered, Before;
    SyncedCovers(y, z, w.queue, w.phase.length);
    GrownCovered(y, z, y.published);
  }

  lemma OrderedTail(r: seq<Job>)
    requires Ordered(r) && r != []
    ensures Ordered(r[1..])
  {
  }

  lemma SyncedBase(y: Sys)
    requires Base(y)
    ensures forall ok :: Base(Next(y, Synced(ok)))
  {
  }

  // ----- Runs ---------------------------------------------------------------------------------

  ghost predicate FairFlush(y: Sys, e: Env)
    requires Base(y)
  {
    y.aof.fd.append || !TakenBack(y.aof, Env'(y, e))
  }

  /** What the promise rests on: commands are not empty and move the replication offset, no
      partial write is taken back on a file opened without O_APPEND, and the forced flush of a
      rewrite empties the buffer. */
  ghost predicate Legal(y: Sys, s: Step)
    requires Base(y)
  {
    match s
    case Command(data, advance) => data != [] && advance > 0
    case FlushStep(e) => FairFlush(y, e)
    case Rewrite(e) =>
      FairFlush(y, e.(force := true)) && DoFlush(y, e.(force := true)).aof.buf == []
    case _ => true
  }

  lemma RewriteKeeps(y: Sys, e: Env)
    requires Inv(y) && !y.aof.exited && !y.failed && Legal(y, Rewrite(e))
    ensures Inv(Next(y, Rewrite(e)))
  {
    hide Counted, Honest, RunningHonest, Ordered, OldFiles, Covered, TakenBack, Flush, Marked, AllHonest;
    if !e.child {
      var f := e.(force := true);
      var z := DoFlush(y, f);
      FlushKeeps(y, f);
      FlushEffect(y.aof, Env'(y, f));
      if !z.aof.exited {
        SyncedInAlways(z);
        SwitchKeeps(z, e.now);
      }
    }
  }

  /** Under `always`, a file whose recorded size was synced is durable as a whole. */
  lemma SyncedInAlways(z: Sys)
    requires Inv(z) && !z.aof.exited && !z.failed
    ensures z.aof.policy == Always && z.aof.syncOffset == z.aof.incrSize ==>
              z.durable[Current(z.aof)] == Len(z.aof, Current(z.aof))
  {
    hide Counted;
    var r := Rest(z.pool.workers[AOF]);
    assert Syncing(r, Current(z.aof)) ==> exists i :: 0 <= i < |r| && r[i].kind == AofFsync;
  }

  lemma BaseKeeps(y: Sys, s: Step)
    requires Base(y)
    ensures Base(Next(y, s))
  {
    hide Flush, Counted;
    match s {
      case FlushStep(e) =>
        FlushKeepsBase(y, e);
      case Rewrite(e) =>
        FlushKeepsBase(y, e.(force := true));
        SwitchBase(DoFlush(y, e.(force := true)), e.now);
      case OtherJob(k) =>
        SubmitKeeps(y.pool, Job(k, 0, 0));
      case TakeJob(w) =>
        TakeBase(y, w);
      case Synced(ok) =>
        SyncedBase(y);
      case FinishJob(w) =>
        if CanFinish(y.pool, w) {
          FinishKeeps(y.pool, w);
        }
      case _ =>
    }
  }

  lemma SwitchBase(y: Sys, now: int)
    requires Base(y)
    ensures Base(Switch(y, now))
  {
    SubmitKeeps(y.pool, Job(CloseAof, Current(y.aof), y.repl));
  }

  lemma TakeBase(y: Sys, w: nat)
    requires Base(y)
    ensures Base(Next(y, TakeJob(w)))
  {
  }

  lemma NextKeeps(y: Sys, s: Step)
    requires Inv(y) && Legal(y, s)
    ensures Inv(Next(y, s))
  {
    hide Flush, Counted, Shape, Marked, Jobs, Covered, TakenBack;
    BaseKeeps(y, s);
    if !y.aof.exited && !y.failed {
      match s {
        case Command(data, advance) => CommandKeeps(y, data, advance);
        case FlushStep(e) => FlushKeeps(y, e);
        case Rewrite(e) => RewriteKeeps(y, e);
        case Publish => PublishKeeps(y);
        case ConfigSet(p) => ConfigKeeps(y, p);
        case OtherJob(k) => OtherKeeps(y, k);
        case TakeJob(w) => TakeKeeps(y, w);
        case Synced(ok) =>
          if ok {
            SyncedKeeps(y);
          } else {
            FailedFsync(y);
          }
        case FinishJob(w) => FinishStepKeeps(y, w);
      }
    } else {
      StaysFailed(y, s);
    }
  }

  lemma PublishKeeps(y: Sys)
    requires Inv(y) && !y.aof.exited && !y.failed
    ensures Inv(Next(y, Publish))
  {
    hide Counted, Honest, RunningHonest, OldFiles, NewFile, AllHonest, Ordered, Covered, Before;
    var z := Next(y, Publish);
    GrownJobs(y, z, y.pool.workers[AOF]);
    GrownCovered(y, z, y.pending);
  }

  lemma FailedFsync(y: Sys)
    requires Base(y) && !y.aof.exited
    ensures Next(y, Synced(false)).failed || Next(y, Synced(false)) == y
    ensures Base(Next(y, Synced(false)))
  {
    SyncedBase(y);
  }

  lemma StaysFailed(y: Sys, s: Step)
    requires Base(y) && (y.aof.exited || y.failed)
    ensures Next(y, s).aof.exited || Next(y, s).failed
  {
    hide Flush, Counted, Submit;
  }

  /** The server has started; what the file held when it was opened counts as durable. */
  function Init(content: Bytes, base: nat, p: Policy, q: bool): Sys {
    Sys(Opened(content, base, p, q), Empty(), [|content|], 0, 0, 0, [], false)
  }

  ghost predicate IsRun(states: seq<Sys>, steps: seq<Step>) {
    && |states| == |steps| + 1
    && (forall i :: 0 <= i < |steps| ==> Base(states[i]) && states[i + 1] == Next(states[i], steps[i]))
  }

  lemma InitInv(content: Bytes, base: nat, p: Policy, q: bool)
    ensures Inv(Init(content, base, p, q))
  {
    hide Counted;
    EmptyIsCounted();
    var y := Init(content, base, p, q);
    assert Rest(y.pool.workers[AOF]) == [];
    assert Shape(y) && Marked(y);
    assert OldFiles(y, []) && NewFile(y, []) && InAlways(y, []);
    assert Promises(y);
  }

  lemma {:induction false} RunKeeps(content: Bytes, base: nat, p: Policy, q: bool, states: seq<Sys>, steps: seq<Step>)
    requires IsRun(states, steps) && states[0] == Init(content, base, p, q)
    requires forall i :: 0 <= i < |steps| ==> Legal(states[i], steps[i])
    ensures Inv(states[|steps|])
    ensures (forall i :: 0 <= i < |steps| ==> steps[i] != Synced(false)) ==> !states[|steps|].failed
    decreases |steps|
  {
    hide Counted, Next, Legal, Shape, Marked, Jobs, Covered;
    if steps == [] {
      InitInv(content, base, p, q);
    } else {
      var n := |steps| - 1;
      RunKeeps(content, base, p, q, states[..n + 1], steps[..n]);
      assert states[..n + 1][n] == states[n];
      NextKeeps(states[n], steps[n]);
      OnlySyncFails(states[n], steps[n]);
    }
  }

  lemma OnlySyncFails(y: Sys, s: Step)
    requires Base(y)
    ensures Next(y, s).failed ==> y.failed || s == Synced(false)
  {
    hide Counted, Flush, Submit, Finish, Take;
  }

  /** In every run, whatever the order of the steps of both threads: as long as no fsync of the
      worker has failed, everything up to the published offset is on the disk. */
  lemma PublishedIsDurable(content: Bytes, base: nat, p: Policy, q: bool, states: seq<Sys>, steps: seq<Step>)
    requires IsRun(states, steps) && states[0] == Init(content, base, p, q)
    requires forall i :: 0 <= i < |steps| ==> Legal(states[i], steps[i]) && steps[i] != Synced(false)
    ensures var y := states[|steps|]; !y.aof.exited ==> |y.durable| == Current(y.aof) + 1 && Covered(y, y.published)
  {
    hide Next, Legal;
    RunKeeps(content, base, p, q, states, steps);
  }

  // ----- The offset does not go back ----------------------------------------------------------

  /** The offsets still to be recorded, in the order of the list, are not below the last one. */
  ghost predicate Rising(y: Sys) {
    && Base(y)
    && y.published <= y.pending <= y.repl
    && forall i :: 0 <= i < |Rest(y.pool.workers[AOF])| ==>
         && y.pending <= Rest(y.pool.workers[AOF])[i].offset <= y.repl
         && forall j :: 0 <= j < i ==> Rest(y.pool.workers[AOF])[j].offset <= Rest(y.pool.workers[AOF])[i].offset
  }

  /** The flush ends with an fsync in the main thread, which records the current offset. */
  ghost predicate SyncsInline(y: Sys, e: Env)
    requires Base(y)
  {
    Flush(y.aof, Env'(y, e)).1 == Inline
  }

  /** A job of the AOF worker submitted before the last command is still to be synced. */
  ghost predicate JobIsLate(y: Sys)
    requires Base(y)
  {
    Late(Rest(y.pool.workers[AOF]), y.repl)
  }

  ghost predicate Late(r: seq<Job>, o: nat) {
    exists i :: 0 <= i < |r| && r[i].offset < o
  }

  lemma LateAppend(r: seq<Job>, j: Job, o: nat)
    ensures Late(r + [j], o) <==> Late(r, o) || j.offset < o
  {
    if Late(r, o) {
      var i :| 0 <= i < |r| && r[i].offset < o;
      assert (r + [j])[i].offset < o;
    }
    assert (r + [j])[|r|] == j;
  }

  /** The step makes an fsync in the main thread. */
  ghost predicate Syncs(y: Sys, s: Step)
    requires Base(y)
  {
    match s
    case FlushStep(e) => SyncsInline(y, e)
    case Rewrite(e) => !e.child && SyncsInline(y, e.(force := true))
    case _ => false
  }

  /** No fsync in the main thread overtakes the worker. */
  ghost predicate Timely(y: Sys, s: Step)
    requires Base(y)
  {
    Syncs(y, s) ==> !JobIsLate(y)
  }

  /** Only policy `always` makes the main thread sync. */
  lemma SyncsIsAlways(y: Sys, s: Step)
    requires Base(y) && Syncs(y, s)
    ensures y.aof.policy == Always
  {
    hide Flush, Counted;
    if s.FlushStep? {
      FlushEffect(y.aof, Env'(y, s.env));
    } else {
      FlushEffect(y.aof, Env'(y, s.env.(force := true)));
    }
  }

  lemma SubmitRises(y: Sys, z: Sys, kind: Kind, fd: nat)
    requires Rising(y) && WorkerOf(kind) == AOF
    requires z.aof.policy == y.aof.policy && z.repl == y.repl && z.pending == y.pending && z.published == y.published
    requires z.pool == Submit(y.pool, Job(kind, fd, y.repl)) && Base(z)
    ensures Rising(z)
  {
    hide Counted;
    IdleIfEmpty(y.pool, AOF);
    RestOfAppend(y.pool.workers[AOF], Job(kind, fd, y.repl));
  }

  lemma FlushRises(y: Sys, e: Env)
    requires Rising(y) && (SyncsInline(y, e) ==> !JobIsLate(y))
    ensures Rising(DoFlush(y, e)) && DoFlush(y, e).published == y.published
  {
    hide Flush, Counted, Submit, Rest;
    FlushEffect(y.aof, Env'(y, e));
    FlushKeepsBase(y, e);
    if Flush(y.aof, Env'(y, e)).1 == Background {
      SubmitRises(y, DoFlush(y, e), AofFsync, Current(y.aof));
    }
  }

  lemma NextRises(y: Sys, s: Step)
    requires Rising(y) && Timely(y, s)
    ensures Rising(Next(y, s)) && y.published <= Next(y, s).published
  {
    hide Flush, Counted, Submit, Finish;
    BaseKeeps(y, s);
    match s {
      case FlushStep(e) =>
        FlushRises(y, e);
      case Rewrite(e) =>
        if !e.child {
          var z := DoFlush(y, e.(force := true));
          FlushRises(y, e.(force := true));
          SwitchBase(z, e.now);
          SubmitRises(z, Switch(z, e.now), CloseAof, Current(z.aof));
        }
      case OtherJob(k) =>
        OtherQueueSame(y.pool, k);
      case FinishJob(w) =>
        FinishRises(y, w);
      case Synced(ok) =>
        SyncedRises(y, ok);
      case TakeJob(w) =>
        TakeRises(y, w);
      case Command(data, advance) =>
      case Publish =>
      case ConfigSet(p) =>
    }
  }

  lemma TakeRises(y: Sys, w: nat)
    requires Rising(y)
    ensures Rising(Next(y, TakeJob(w))) && Next(y, TakeJob(w)).published == y.published
  {
    hide Counted;
    BaseKeeps(y, TakeJob(w));
    assert Rest(Next(y, TakeJob(w)).pool.workers[AOF]) == Rest(y.pool.workers[AOF]);
  }

  lemma FinishRises(y: Sys, w: nat)
    requires Rising(y)
    ensures Rising(Next(y, FinishJob(w)))
  {
    hide Counted, Finish, Rest;
    BaseKeeps(y, FinishJob(w));
    FinishRest(y, w);
  }

  lemma FinishRest(y: Sys, w: nat)
    requires Base(y)
    ensures |Next(y, FinishJob(w)).pool.workers| == WORKERS
    ensures Rest(Next(y, FinishJob(w)).pool.workers[AOF]) == Rest(y.pool.workers[AOF])
  {
    hide Counted, Finish;
    if CanFinish(y.pool, w) {
      FinishKeeps(y.pool, w);
    }
  }

  lemma OtherQueueSame(p: Pool, k: Kind)
    requires Counted(p)
    ensures WorkerOf(k) != AOF ==> Submit(p, Job(k, 0, 0)).workers[AOF] == p.workers[AOF]
  {
  }

  lemma SyncedRises(y: Sys, ok: bool)
    requires Rising(y)
    ensures Rising(Next(y, Synced(ok))) && Next(y, Synced(ok)).published == y.published
  {
    hide Counted;
    SyncedBase(y);
    var w := y.pool.workers[AOF];
    if w.queue != [] && w.phase.Running? {
      assert Rest(w) == w.queue;
      assert forall i :: 0 <= i < |w.queue| - 1 ==> w.queue[1..][i] == w.queue[i + 1];
    }
  }

  lemma InitRises(content: Bytes, base: nat, p: Policy, q: bool)
    ensures Rising(Init(content, base, p, q))
  {
    hide Counted;
    EmptyIsCounted();
    assert Rest(Init(content, base, p, q).pool.workers[AOF]) == [];
  }

  lemma {:induction false} RunRises(states: seq<Sys>, steps: seq<Step>, i: nat, j: nat)
    requires IsRun(states, steps) && i <= j <= |steps|
    requires Rising(states[0]) && forall k :: 0 <= k < |steps| ==> Timely(states[k], steps[k])
    ensures Rising(states[j]) && states[i].published <= states[j].published
    decreases j
  {
    hide Next, Rising, Timely;
    if j > 0 {
      RunRises(states, steps, if i < j then i else j - 1, j - 1);
      NextRises(states[j - 1], steps[j - 1]);
    }
  }

  /** A published offset is never taken back as long as no fsync in the main thread overtakes the
      worker: not by a failed fsync, not by a switch of the file, not by a change of the policy,
      not by a rewrite with bytes left in the buffer. */
  lemma PublishedNeverGoesBack(content: Bytes, base: nat, p: Policy, q: bool, states: seq<Sys>, steps: seq<Step>,
      i: nat, j: nat)
    requires IsRun(states, steps) && states[0] == Init(content, base, p, q) && i <= j <= |steps|
    requires forall k :: 0 <= k < |steps| ==> Timely(states[k], steps[k])
    ensures states[i].published <= states[j].published <= states[j].repl
  {
    hide Next, Timely, Init;
    InitRises(content, base, p, q);
    RunRises(states, steps, i, j);
  }

  /** In particular it never goes back outside policy `always`. */
  lemma EverySecNeverGoesBack(content: Bytes, base: nat, p: Policy, q: bool, states: seq<Sys>, steps: seq<Step>,
      i: nat, j: nat)
    requires IsRun(states, steps) && states[0] == Init(content, base, p, q) && i <= j <= |steps|
    requires forall k :: 0 <= k < |steps| ==> states[k].aof.policy != Always
    ensures states[i].published <= states[j].published
  {
    hide Next, Syncs, Init;
    forall k | 0 <= k < |steps| ensures Timely(states[k], steps[k]) {
      if Syncs(states[k], steps[k]) {
        SyncsIsAlways(states[k], steps[k]);
      }
    }
    PublishedNeverGoesBack(content, base, p, q, states, steps, i, j);
  }

  // ----- The worker catches up ----------------------------------------------------------------

  /** One job from the list to its unlinking. */
  ghost function DoJob(y: Sys): (z: Sys)
    requires Base(y)
    ensures Base(z)
  {
    BaseKeeps(y, TakeJob(AOF));
    var z := Next(y, TakeJob(AOF));
    BaseKeeps(z, Synced(true));
    BaseKeeps(Next(z, Synced(true)), FinishJob(AOF));
    Next(Next(z, Synced(true)), FinishJob(AOF))
  }

  /** The worker unlinks a job it is done with, and does the next `k`, while nothing else happens. */
  ghost function Worked(y: Sys, k: nat): (z: Sys)
    requires Base(y)
    ensures Base(z)
    decreases k
  {
    if k == 0 then
      BaseKeeps(y, FinishJob(AOF));
      Next(y, FinishJob(AOF))
    else
      DoJob(Worked(y, k - 1))
  }

  ghost predicate InRange(y: Sys)
    requires Base(y)
  {
    forall i :: 0 <= i < |Rest(y.pool.workers[AOF])| ==> Rest(y.pool.workers[AOF])[i].fd < |y.durable|
  }

  lemma DoJobDoes(y: Sys)
    requires Base(y) && !y.aof.exited && !y.pool.workers[AOF].phase.Processed?
    requires y.pool.workers[AOF].queue != [] && y.pool.workers[AOF].queue[0].fd < |y.durable|
    ensures var z := DoJob(y);
      && z.pool.workers[AOF] == Worker(y.pool.workers[AOF].queue[1..], Idle)
      && z == y.(pool := z.pool, durable := z.durable, pending := y.pool.workers[AOF].queue[0].offset)
      && |z.durable| == |y.durable|
  {
    hide Counted, Finish, WorkerOf;
    BaseKeeps(y, TakeJob(AOF));
    var a := Next(y, TakeJob(AOF));
    BaseKeeps(a, Synced(true));
    FinishKeeps(Next(a, Synced(true)).pool, AOF);
  }

  /** After `k` jobs the last of them has given its offset. */
  lemma {:induction false} WorkedDoes(y: Sys, k: nat)
    requires Base(y) && !y.aof.exited && InRange(y) && k <= |Rest(y.pool.workers[AOF])|
    ensures var (r, z) := (Rest(y.pool.workers[AOF]), Worked(y, k));
      && !z.pool.workers[AOF].phase.Processed? && z.pool.workers[AOF].queue == r[k..]
      && z == y.(pool := z.pool, durable := z.durable, pending := if k == 0 then y.pending else r[k - 1].offset)
      && |z.durable| == |y.durable|
    decreases k
  {
    hide Counted, Finish, DoJob;
    var w := y.pool.workers[AOF];
    if k == 0 {
      if w.phase.Processed? {
        QueueNotEmpty(y);
        FinishKeeps(y.pool, AOF);
      }
      assert Rest(w)[0..] == Rest(w);
    } else {
      WorkedDoes(y, k - 1);
      assert Rest(w)[k - 1..][0] == Rest(w)[k - 1];
      DoJobDoes(Worked(y, k - 1));
      assert Rest(w)[k - 1..][1..] == Rest(w)[k..];
    }
  }

  lemma QueueNotEmpty(y: Sys)
    requires Base(y)
    ensures y.pool.workers[AOF].queue == [] ==> y.pool.workers[AOF].phase.Idle?
  {
  }

  /** While the worker catches up, some moment to publish takes the offset back. */
  ghost predicate GoesBack(y: Sys)
    requires Base(y)
  {
    exists k :: 0 <= k <= |Rest(y.pool.workers[AOF])| &&
      Next(Worked(y, k), Publish).published < Next(y, Publish).published
  }

  lemma GoesBackIf(y: Sys)
    requires Base(y) && !y.aof.exited && InRange(y)
    ensures GoesBack(y) <==> Late(Rest(y.pool.workers[AOF]), y.pending)
  {
    hide Counted, Worked, Rest;
    var r := Rest(y.pool.workers[AOF]);
    forall k | 0 <= k <= |r|
      ensures Next(Worked(y, k), Publish).published == if k == 0 then y.pending else r[k - 1].offset {
      WorkedDoes(y, k);
    }
    if i :| 0 <= i < |r| && r[i].offset < y.pending {
      assert Next(Worked(y, i + 1), Publish).published < Next(y, Publish).published;
    }
  }

  lemma LiveInRange(y: Sys)
    requires Inv(y) && !y.aof.exited && !y.failed
    ensures InRange(y)
  {
    hide Counted, Ordered, RunningHonest, OldFiles, NewFile, InAlways, Marked, Promises;
    var r := Rest(y.pool.workers[AOF]);
    forall i | 0 <= i < |r| ensures r[i].fd < |y.durable| {
      assert Honest(y, r[i]);
    }
  }

  lemma SwitchQueue(f: Sys, now: int)
    requires Base(f) && InRange(f)
    ensures Base(Switch(f, now)) && InRange(Switch(f, now))
    ensures Rest(Switch(f, now).pool.workers[AOF])
         == Rest(f.pool.workers[AOF]) + [Job(CloseAof, Current(f.aof), f.repl)]
  {
    hide Counted, Rest;
    SwitchBase(f, now);
    QueueNotEmpty(f);
    RestOfAppend(f.pool.workers[AOF], Job(CloseAof, Current(f.aof), f.repl));
  }

  /** A step with an fsync of the main thread: the offset it records, and the jobs it leaves. */
  lemma SyncsDoes(y: Sys, s: Step)
    requires Base(y) && InRange(y) && !y.aof.exited && Syncs(y, s)
    ensures Base(Next(y, s))
    ensures var z, jobs := Next(y, s), Rest(Next(y, s).pool.workers[AOF]);
            && !z.aof.exited && InRange(z) && z.pending == y.repl
            && (jobs == Rest(y.pool.workers[AOF])
                || exists j: Job :: jobs == Rest(y.pool.workers[AOF]) + [j] && j.offset == y.repl)
  {
    hide Counted, Flush, Rest;
    BaseKeeps(y, s);
    match s
    case FlushStep(e) => FlushEffect(y.aof, Env'(y, e));
    case Rewrite(e) =>
      var f := e.(force := true);
      FlushEffect(y.aof, Env'(y, f));
      FlushKeepsBase(y, f);
      SwitchQueue(DoFlush(y, f), e.now);
    case _ =>
  }

  /** Where an fsync of the main thread, in a flush or in the forced flush of a rewrite, takes
      the offset back: exactly when it overtakes a job that was submitted before the last
      command. Such a job closes a file. */
  lemma GoesBackExactlyIf(y: Sys, s: Step)
    requires Inv(y) && !y.aof.exited && !y.failed && Syncs(y, s)
    ensures Base(Next(y, s))
    ensures GoesBack(Next(y, s)) <==> JobIsLate(y)
    ensures forall j :: j in Rest(y.pool.workers[AOF]) ==> j.kind == CloseAof
  {
    hide Counted, Flush, GoesBack, Rest, Next, Late;
    var r := Rest(y.pool.workers[AOF]);
    LiveInRange(y);
    SyncsDoes(y, s);
    GoesBackIf(Next(y, s));
    if Rest(Next(y, s).pool.workers[AOF]) != r {
      var j :| Rest(Next(y, s).pool.workers[AOF]) == r + [j] && j.offset == y.repl;
      LateAppend(r, j, y.repl);
    }
    SyncsIsAlways(y, s);
    OnlyCloses(y);
  }

  lemma OnlyCloses(y: Sys)
    requires Inv(y) && !y.aof.exited && !y.failed && y.aof.policy == Always
    ensures forall j :: j in Rest(y.pool.workers[AOF]) ==> j.kind == CloseAof
  {
    hide AllHonest, Ordered, RunningHonest, OldFiles, NewFile, Marked, Promises, Shape;
  }

  // ----- Where the promises end ---------------------------------------------------------------

  lemma {:induction false} WorkedKeeps(y: Sys, k: nat)
    requires Inv(y)
    ensures Inv(Worked(y, k))
    decreases k
  {
    hide Inv, Next, DoJob, Legal, Base;
    InvBase(y);
    if k == 0 {
      WorkSteps(y);
      NextKeeps(y, FinishJob(AOF));
    } else {
      WorkedKeeps(y, k - 1);
      JobKeeps(Worked(y, k - 1));
    }
  }

  lemma InvBase(y: Sys)
    requires Inv(y)
    ensures Base(y)
  {
  }

  lemma WorkSteps(y: Sys)
    requires Base(y)
    ensures Legal(y, TakeJob(AOF)) && Legal(y, Synced(true)) && Legal(y, FinishJob(AOF)) && Legal(y, Publish)
  {
  }

  lemma JobKeeps(y: Sys)
    requires Inv(y)
    ensures Inv(DoJob(y))
  {
    hide Inv, Next, Legal;
    InvBase(y);
    BaseKeeps(y, TakeJob(AOF));
    var a := Next(y, TakeJob(AOF));
    BaseKeeps(a, Synced(true));
    var b := Next(a, Synced(true));
    WorkSteps(y);
    WorkSteps(a);
    WorkSteps(b);
    NextKeeps(y, TakeJob(AOF));
    NextKeeps(a, Synced(true));
    NextKeeps(b, FinishJob(AOF));
  }

  /** The state in which the worker has caught up and the main thread has published. */
  ghost function CaughtUp(y: Sys): (z: Sys)
    requires Base(y)
    ensures Base(z)
  {
    var z := Worked(y, |Rest(y.pool.workers[AOF])|);
    BaseKeeps(z, Publish);
    Next(z, Publish)
  }

  /** A rewrite that goes on with bytes left in the buffer makes the server promise too much: once
      the worker has closed the old file, what is published is durable exactly when the forced
      flush emptied the buffer. */
  lemma RewriteHonestOnlyIfFlushed(y: Sys, e: Env)
    requires Inv(y) && !y.aof.exited && !y.failed && !e.child && FairFlush(y, e.(force := true))
    requires !Next(y, Rewrite(e)).aof.exited
    ensures Base(Next(y, Rewrite(e)))
    ensures var z := CaughtUp(Next(y, Rewrite(e)));
      Covered(z, z.published) <==> DoFlush(y, e.(force := true)).aof.buf == []
  {
    hide Counted, Flush, Covered, Jobs, Shape, Promises, TakenBack, Marked, Worked, CaughtUp, Rest, Switch;
    var f := DoFlush(y, e.(force := true));
    BaseKeeps(y, Rewrite(e));
    FlushKeeps(y, e.(force := true));
    RewriteFails(y, e);
    var z := Next(y, Rewrite(e));
    if f.aof.buf == [] {
      NextKeeps(y, Rewrite(e));
      CaughtUpCovers(z);
    } else {
      UnflushedUncovered(f, e.now);
    }
  }

  lemma RewriteFails(y: Sys, e: Env)
    requires Base(y)
    ensures Next(y, Rewrite(e)).failed == y.failed
  {
    hide Counted, Flush, Submit;
  }

  lemma CaughtUpCovers(y: Sys)
    requires Inv(y) && !y.aof.exited && !y.failed
    ensures Covered(CaughtUp(y), CaughtUp(y).published)
  {
    hide Counted, Covered, Jobs, Shape, Marked, Worked, Rest, Legal;
    var n := |Rest(y.pool.workers[AOF])|;
    LiveInRange(y);
    WorkedDoes(y, n);
    WorkedKeeps(y, n);
    WorkSteps(Worked(y, n));
    NextKeeps(Worked(y, n), Publish);
  }

  lemma UnflushedUncovered(f: Sys, now: int)
    requires Inv(f) && !f.aof.exited && !f.failed && f.aof.buf != []
    ensures Base(Switch(f, now)) && !Covered(CaughtUp(Switch(f, now)), CaughtUp(Switch(f, now)).published)
  {
    hide Counted, Submit, Jobs, Shape, Promises, Worked, Rest;
    SwitchBase(f, now);
    SwitchIsOneMore(f, now);
    var z := Switch(f, now);
    LiveInRange(f);
    SwitchQueue(f, now);
    var r := Rest(z.pool.workers[AOF]);
    WorkedDoes(z, |r|);
    var last := f.marks[|f.marks| - 1];
    assert z.marks == f.marks && last.fed == StreamLen(z.aof) && last.offset <= f.repl;
    assert r[|r| - 1].offset == f.repl;
    assert !DurableTo(CaughtUp(z), last.fed);
  }

  // ----- What is asked for does happen ----------------------------------------------------------

  /** Under everysec, a flush with nothing left to write, in a new second and with no fsync
      waiting: once the worker has caught up and the main thread has published, every command
      executed before the flush is published, and on the disk. */
  lemma EverySecPublishes(y: Sys, e: Env)
    requires Inv(y) && !y.aof.exited && !y.failed && Legal(y, FlushStep(e))
    requires forall j :: j in y.pool.workers[AOF].queue ==> j.kind != AofFsync
    requires y.aof.policy == EverySec && Drained(y.aof, Env'(y, e)) && MaySync(y.aof, e) && e.now > y.aof.lastSync
    ensures Base(Next(y, FlushStep(e)))
    ensures var z := CaughtUp(Next(y, FlushStep(e)));
      z.published == y.repl && z.marks == y.marks && Covered(z, y.repl)
  {
    hide Counted, Flush, Legal, Drained, Covered, Jobs, Shape, Marked, Promises, Worked, Rest, Submit;
    var z := Next(y, FlushStep(e));
    BaseKeeps(y, FlushStep(e));
    NextKeeps(y, FlushStep(e));
    NonePending(y.pool, AofFsync);
    FsyncAsked(y.aof, Env'(y, e));
    BackgroundQueue(y);
    CaughtUpCovers(z);
    LiveInRange(z);
    WorkedDoes(z, |Rest(z.pool.workers[AOF])|);
  }

  lemma BackgroundQueue(y: Sys)
    requires Base(y)
    ensures var job := Job(AofFsync, Current(y.aof), y.repl);
      Rest(Submit(y.pool, job).workers[AOF]) == Rest(y.pool.workers[AOF]) + [job]
  {
    hide Rest, Counted;
    IdleIfEmpty(y.pool, AOF);
    RestOfAppend(y.pool.workers[AOF], Job(AofFsync, Current(y.aof), y.repl));
  }

  /** Under always, such a flush makes the fsync itself: the next publishing says so. */
  lemma AlwaysPublishes(y: Sys, e: Env)
    requires Inv(y) && !y.aof.exited && !y.failed && Legal(y, FlushStep(e))
    requires y.aof.policy == Always && Drained(y.aof, Env'(y, e)) && MaySync(y.aof, e) && e.syncs
    ensures Base(Next(y, FlushStep(e)))
    ensures var z := Next(Next(y, FlushStep(e)), Publish);
      z.published == y.repl && z.marks == y.marks && |z.durable| == Current(z.aof) + 1 && Covered(z, y.repl)
  {
    hide Counted, Flush, Legal, Drained, Covered, Jobs, Shape, Marked, Submit;
    var z := Next(y, FlushStep(e));
    BaseKeeps(y, FlushStep(e));
    NextKeeps(y, FlushStep(e));
    FsyncAsked(y.aof, Env'(y, e));
    WorkSteps(z);
    NextKeeps(z, Publish);
  }

  /** A change of the policy is refused only while the worker still has to be waited for. */
  lemma ConfigSetChanges(y: Sys, p: Policy)
    requires Base(y) && !y.aof.exited
    ensures Base(Next(y, ConfigSet(p)))
    ensures var z := Next(y, ConfigSet(p)); var a := z.aof;
      && z == y.(aof := y.aof.(policy := a.policy))
      && (a.policy == p <==> p != Always || y.pool.workers[AOF].queue == [] || y.aof.policy == p)
      && (a.policy == p || a.policy == y.aof.policy)
  {
    hide Counted;
    BaseKeeps(y, ConfigSet(p));
  }

  const QUIET := Env(false, 1, false, false, [], false, true)

  /** And it does happen: a file is switched and one more command is synced before the worker
      gets to the old file. */
  function LateClose(): seq<Step> {
    [Command([1], 1), Rewrite(QUIET), Command([2], 1), FlushStep(QUIET), Publish, TakeJob(AOF), Synced(true), Publish]
  }

  lemma QuietFlush(y: Sys)
    requires Base(y) && y.aof.policy == Always && y.aof.buf != [] && !y.aof.noSyncOnRewrite && !y.aof.exited
    ensures forall force :: FairFlush(y, QUIET.(force := force))
    ensures forall force :: var z := DoFlush(y, QUIET.(force := force));
      && z == y.(aof := z.aof, durable := z.durable, pending := y.repl)
      && z.aof.buf == [] && z.aof.policy == Always && !z.aof.exited && !z.aof.noSyncOnRewrite
      && Current(z.aof) == Current(y.aof)
  {
    hide Counted, Put, Truncate;
  }

  lemma LateRewrite(y: Sys)
    requires Base(y) && y.aof.policy == Always && y.aof.buf != [] && !y.aof.noSyncOnRewrite && !y.aof.exited
    requires y.pool == Empty()
    ensures Legal(y, Rewrite(QUIET))
    ensures var z := Next(y, Rewrite(QUIET));
      && z.pool.workers == [Worker([], Idle), Worker([Job(CloseAof, Current(y.aof), y.repl)], Idle), Worker([], Idle)]
      && z.repl == y.repl && !z.aof.exited && z.aof.policy == Always && !z.aof.noSyncOnRewrite
      && |z.durable| == |y.durable| + 1
  {
    hide Counted, Flush, TakenBack;
    QuietFlush(y);
    var job := Job(CloseAof, Current(y.aof), y.repl);
    assert [] + [job] == [job];
    assert Submit(Empty(), job).workers == [Worker([], Idle), Worker([job], Idle), Worker([], Idle)];
  }

  lemma AlwaysGoesBack() returns (states: seq<Sys>)
    ensures IsRun(states, LateClose()) && states[0] == Init([], 0, Always, false)
    ensures forall i :: 0 <= i < |LateClose()| ==> Legal(states[i], LateClose()[i])
    ensures states[5].published == 2 && states[8].published == 1
  {
    hide Counted, DoFlush, Switch, FairFlush, Take, Empty, DoSynced;
    var y0 := Init([], 0, Always, false);
    EmptyIsCounted();
    var y1 := Next(y0, Command([1], 1));
    BaseKeeps(y0, Command([1], 1));
    LateRewrite(y1);
    var y2 := Next(y1, Rewrite(QUIET));
    BaseKeeps(y1, Rewrite(QUIET));
    var y3 := Next(y2, Command([2], 1));
    BaseKeeps(y2, Command([2], 1));
    QuietFlush(y3);
    assert QUIET == QUIET.(force := false);
    var y4 := Next(y3, FlushStep(QUIET));
    BaseKeeps(y3, FlushStep(QUIET));
    var y5 := Next(y4, Publish);
    var y8 := LateRecord(y5);
    states := [y0, y1, y2, y3, y4, y5, Next(y5, TakeJob(AOF)), Next(Next(y5, TakeJob(AOF)), Synced(true)), y8];
  }

  lemma LateRecord(y: Sys) returns (z: Sys)
    requires Base(y) && !y.aof.exited && y.pool.workers[AOF].phase.Idle?
    requires y.pool.workers[AOF].queue != [] && y.pool.workers[AOF].queue[0].fd < |y.durable|
    ensures Base(Next(y, TakeJob(AOF))) && Base(Next(Next(y, TakeJob(AOF)), Synced(true)))
    ensures z == Next(Next(Next(y, TakeJob(AOF)), Synced(true)), Publish)
    ensures z.published == y.pool.workers[AOF].queue[0].offset
  {
    hide Counted;
    BaseKeeps(y, TakeJob(AOF));
    BaseKeeps(Next(y, TakeJob(AOF)), Synced(true));
    z := Next(Next(Next(y, TakeJob(AOF)), Synced(true)), Publish);
  }
}
