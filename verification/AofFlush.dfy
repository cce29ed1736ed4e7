/** Writing the append-only buffer: aofWrite, flushAppendOnlyFile and the switch to a new
    INCR file, down to the bytes that reach each file.

    A file is open either in append mode, as the server opens it at start, or with a
    position of its own, as the new INCR file of a rewrite is opened. The outcomes of the
    system calls are parameters: any partial write, any error, any failing ftruncate. */
module AofFlush {
  import opened Words

  type Bytes = seq<Byte>

  /** One return of write(2): EINTR, another error, or a number of bytes taken. */
  datatype WriteResult = Interrupted | Failed | Wrote(n: nat)

  datatype Policy = No | EverySec | Always

  /** The file the server writes to. */
  datatype Fd = Fd(bytes: Bytes, append: bool, pos: nat)

  datatype Aof = Aof(
    closed: seq<Bytes>,       // the INCR files written before this one, oldest first
    fd: Fd,                   // aof_fd
    buf: Bytes,               // aof_buf
    incrSize: nat,            // aof_last_incr_size
    currentSize: nat,         // aof_current_size
    syncOffset: nat,          // aof_last_incr_fsync_offset
    lastSync: int,            // aof_last_fsync
    postponed: int,           // aof_flush_postponed_start
    writeOk: bool,            // aof_last_write_status
    policy: Policy,           // aof_fsync
    noSyncOnRewrite: bool,    // aof_no_fsync_on_rewrite
    exited: bool)             // the process called exit(1)

  /** What a flush learns from its surroundings. */
  datatype Env = Env(
    force: bool,
    now: int,                    // unixtime
    syncing: bool,               // aofFsyncInProgress()
    child: bool,                 // hasActiveChildProcess()
    results: seq<WriteResult>,   // what write(2) will return; past the end, everything is taken
    truncates: bool,             // whether ftruncate(2) succeeds
    syncs: bool)                 // whether an fsync in this thread succeeds

  /** The fsync a flush asks for. */
  datatype Request = NoSync | Background | Inline

  // ----- Files ----------------------------------------------------------------------------

  function Zeros(n: nat): (z: Bytes)
    ensures |z| == n && forall i :: 0 <= i < n ==> z[i] == 0
  {
    seq(n, i => 0)
  }

  /** write(2) of `data`, all of it taken. Writing beyond the end leaves a hole of zeros. */
  function Put(f: Fd, data: Bytes): Fd {
    if data == [] then
      f
    else if f.append then
      f.(bytes := f.bytes + data, pos := |f.bytes| + |data|)
    else if f.pos >= |f.bytes| then
      f.(bytes := f.bytes + Zeros(f.pos - |f.bytes|) + data, pos := f.pos + |data|)
    else
      var end := if f.pos + |data| <= |f.bytes| then f.pos + |data| else |f.bytes|;
      f.(bytes := f.bytes[..f.pos] + data + f.bytes[end..], pos := f.pos + |data|)
  }

  /** ftruncate(2): the length changes, the position does not. */
  function Truncate(f: Fd, n: nat): Fd {
    f.(bytes := if n <= |f.bytes| then f.bytes[..n] else f.bytes + Zeros(n - |f.bytes|))
  }

  /** How much of `len` bytes the calls take before one of them fails. */
  function Accepted(len: nat, results: seq<WriteResult>): (n: nat)
    ensures n <= len
    decreases |results|
  {
    if len == 0 then 0
    else if results == [] then len
    else match results[0]
      case Interrupted => Accepted(len, results[1..])
      case Failed => 0
      case Wrote(k) =>
        if k >= len then len else k + Accepted(len - k, results[1..])
  }

  /** The bytes taken by calls none of which fails. */
  function Taken(results: seq<WriteResult>): nat {
    if results == [] then 0
    else (if results[0].Wrote? then results[0].n else 0) + Taken(results[1..])
  }

  /** Partial writes and interruptions are made up for by further calls: everything is taken
      unless a call fails before that. */
  lemma {:induction false} AcceptedIs(len: nat, before: seq<WriteResult>, after: seq<WriteResult>)
    requires Failed !in before
    ensures Accepted(len, before) == len
    ensures Accepted(len, before + [Failed] + after) == if Taken(before) < len then Taken(before) else len
    decreases |before|
  {
    if before == [] {
      assert (before + [Failed] + after)[0] == Failed;
    } else {
      var r := before[0];
      assert (before + [Failed] + after)[1..] == before[1..] + [Failed] + after;
      AcceptedIs(if r.Wrote? && r.n <= len then len - r.n else len, before[1..], after);
    }
  }

  /** Whether the next byte written lands at the end of the file. */
  predicate AtEnd(f: Fd) {
    f.append || f.pos == |f.bytes|
  }

  // ----- The flush ------------------------------------------------------------------------

  /** From aofWrite to the point where an fsync is considered. */
  function WriteBuffer(s: Aof, e: Env): Aof {
    var n := Accepted(|s.buf|, e.results);
    var t := s.(fd := Put(s.fd, s.buf[..n]), postponed := 0);
    if n == |s.buf| then
      t.(writeOk := true, currentSize := s.currentSize + n, incrSize := s.incrSize + n, buf := [])
    else
      ShortWrite(t, e, n)
  }

  /** Only `n` bytes were written: take them back if possible, otherwise account for them. */
  function ShortWrite(t: Aof, e: Env, n: nat): Aof
    requires n <= |t.buf|
  {
    var undone := n > 0 && e.truncates;
    var u := if undone then t.(fd := Truncate(t.fd, t.incrSize)) else t;
    var kept := if undone then 0 else n;
    if t.policy == Always then
      u.(exited := true)
    else
      u.(writeOk := false, currentSize := t.currentSize + kept, incrSize := t.incrSize + kept, buf := t.buf[kept..])
  }

  /** The part of the flush after the label try_fsync. */
  function TrySync(s: Aof, e: Env): (Aof, Request) {
    if s.noSyncOnRewrite && e.child then
      (s, NoSync)
    else if s.policy == Always then
      if e.syncs then (s.(syncOffset := s.incrSize, lastSync := e.now), Inline)
      else (s.(exited := true), NoSync)
    else if s.policy == EverySec && e.now > s.lastSync then
      if e.syncing then (s.(lastSync := e.now), NoSync)
      else (s.(syncOffset := s.incrSize, lastSync := e.now), Background)
    else
      (s, NoSync)
  }

  /** flushAppendOnlyFile. */
  function Flush(s: Aof, e: Env): (Aof, Request) {
    if s.buf == [] then
      if s.syncOffset != s.incrSize
         && (s.policy == Always || (s.policy == EverySec && e.now > s.lastSync && !e.syncing)) then
        TrySync(s, e)
      else
        (s, NoSync)
    else if s.policy == EverySec && !e.force && e.syncing && s.postponed == 0 then
      (s.(postponed := e.now), NoSync)
    else if s.policy == EverySec && !e.force && e.syncing && e.now - s.postponed < 2 then
      (s, NoSync)
    else
      var t := WriteBuffer(s, e);
      if t.exited || !t.writeOk then (t, NoSync) else TrySync(t, e)
  }

  /** openNewIncrAofForAppend, the new file open without O_APPEND. */
  function OpenIncr(s: Aof, now: int): Aof {
    s.(closed := s.closed + [s.fd.bytes], fd := Fd([], false, 0), lastSync := now,
       incrSize := 0, syncOffset := 0)
  }

  // ----- What is kept ---------------------------------------------------------------------

  function Concat(files: seq<Bytes>): Bytes {
    if files == [] then [] else Concat(files[..|files| - 1]) + files[|files| - 1]
  }

  /** Everything in the files, in the order it was written. */
  function Written(s: Aof): Bytes {
    Concat(s.closed) + s.fd.bytes
  }

  predicate Accounted(s: Aof) {
    && s.incrSize == |s.fd.bytes|
    && s.syncOffset <= s.incrSize
  }

  /** The position is not inside the file. */
  predicate PastEnd(f: Fd) {
    f.append || f.pos >= |f.bytes|
  }

  /** The flush is neither empty nor postponed. */
  predicate Writes(s: Aof, e: Env) {
    && s.buf != []
    && !(s.policy == EverySec && !e.force && e.syncing && (s.postponed == 0 || e.now - s.postponed < 2))
  }

  /** The write is cut short inside the buffer, and ftruncate takes the partial write back. */
  predicate TakenBack(s: Aof, e: Env) {
    Writes(s, e) && 0 < Accepted(|s.buf|, e.results) < |s.buf| && e.truncates
  }

  /** Bytes go to the file and stay there, behind a position beyond its end. */
  predicate LeavesHole(s: Aof, e: Env) {
    !AtEnd(s.fd) && Writes(s, e) && 0 < Accepted(|s.buf|, e.results) && !TakenBack(s, e)
  }

  /** Truncating to the length before a write at the end restores the file, but not the position. */
  lemma PutThenTruncate(f: Fd, data: Bytes)
    requires AtEnd(f)
    ensures Put(f, data).bytes == f.bytes + data
    ensures AtEnd(Put(f, data))
    ensures Truncate(Put(f, data), |f.bytes|).bytes == f.bytes
    ensures data != [] ==> (AtEnd(Truncate(Put(f, data), |f.bytes|)) <==> f.append)
  {
    assert f.bytes + [] == f.bytes;
    assert f.bytes + Zeros(0) + data == f.bytes + data;
    assert (f.bytes + data)[..|f.bytes|] == f.bytes;
  }

  lemma PutNothing(f: Fd)
    ensures Put(f, []) == f
  {
  }

  /** The same for a write beyond the end, which leaves a hole; truncating takes that back too. */
  lemma PutBeyond(f: Fd, data: Bytes)
    requires !f.append && f.pos > |f.bytes| && data != []
    ensures Put(f, data).bytes == f.bytes + Zeros(f.pos - |f.bytes|) + data
    ensures Truncate(Put(f, data), |f.bytes|).bytes == f.bytes
    ensures PastEnd(Put(f, data)) && PastEnd(Truncate(Put(f, data), |f.bytes|))
  {
    assert (f.bytes + Zeros(f.pos - |f.bytes|) + data)[..|f.bytes|] == f.bytes;
  }

  /** The stream, the records and the process, after a flush from `s` to `t`. */
  ghost predicate Conserves(s: Aof, t: Aof) {
    if t.exited then
      Written(t) <= Written(s) + s.buf
    else
      && Written(t) + t.buf == Written(s) + s.buf
      && Accounted(t) && PastEnd(t.fd)
      && t.currentSize - s.currentSize == |Written(t)| - |Written(s)|
  }

  lemma WriteConserves(s: Aof, e: Env)
    requires Accounted(s) && AtEnd(s.fd) && !s.exited
    ensures Conserves(s, WriteBuffer(s, e))
  {
    hide Put, Truncate, Accepted, Concat;
    var n := Accepted(|s.buf|, e.results);
    PutThenTruncate(s.fd, s.buf[..n]);
    Regroup(Concat(s.closed), s.fd.bytes, s.buf, n);
    StaysPast(s.fd, s.buf[..n]);
  }

  lemma StaysPast(f: Fd, data: Bytes)
    requires AtEnd(f)
    ensures PastEnd(Put(f, data)) && PastEnd(Truncate(Put(f, data), |f.bytes|))
  {
  }

  /** A write beyond the end: nothing happens unless bytes stay in the file, and then the
      stream is longer by the hole. */
  lemma WriteBeyond(s: Aof, e: Env)
    requires Accounted(s) && !s.fd.append && s.fd.pos > |s.fd.bytes| && !s.exited && s.buf != []
    ensures var t, n := WriteBuffer(s, e), Accepted(|s.buf|, e.results);
            var stays := 0 < n && !(n < |s.buf| && e.truncates);
            && (!stays ==> Conserves(s, t))
            && (stays ==> t.fd.bytes == s.fd.bytes + Zeros(s.fd.pos - |s.fd.bytes|) + s.buf[..n]
                          && t.incrSize < |t.fd.bytes|
                          && (!t.exited ==> |Written(t) + t.buf| > |Written(s) + s.buf|))
  {
    hide Put, Truncate, Accepted, Concat;
    var n := Accepted(|s.buf|, e.results);
    PutNothing(s.fd);
    if n > 0 {
      PutBeyond(s.fd, s.buf[..n]);
    }
    Regroup(Concat(s.closed), s.fd.bytes, s.buf, n);
  }

  /** Moving the first `n` bytes from the buffer to the file. */
  lemma Regroup(c: Bytes, f: Bytes, b: Bytes, n: nat)
    requires n <= |b|
    ensures (c + (f + b[..n])) + b[n..] == c + f + b
    ensures c + (f + b[..n]) <= c + f + b
    ensures c + f <= c + f + b && b[0..] == b
    ensures n == |b| ==> (c + (f + b[..n])) + [] == c + f + b
  {
    assert b == b[..n] + b[n..];
  }

  lemma SyncKeeps(s: Aof, e: Env)
    ensures var t := TrySync(s, e).0;
      && t.closed == s.closed && t.fd == s.fd && t.buf == s.buf && t.incrSize == s.incrSize
      && t.currentSize == s.currentSize && t.writeOk == s.writeOk && t.policy == s.policy
      && (Accounted(s) ==> Accounted(t))
  {
  }

  /** Conservation for one flush, whatever the system calls return: exactly when no bytes are
      left behind a position beyond the end, the files followed by the buffer stay the same
      stream; and then the recorded size stays the size of the file, also when a partial
      write could not be taken back, and if the process has to exit, the files hold a prefix
      of the stream. */
  lemma FlushConserves(s: Aof, e: Env)
    requires Accounted(s) && PastEnd(s.fd) && !s.exited
    ensures !LeavesHole(s, e) ==> Conserves(s, Flush(s, e).0)
    ensures var t := Flush(s, e).0;
            !t.exited ==> (Written(t) + t.buf == Written(s) + s.buf <==> !LeavesHole(s, e))
  {
    hide Put, Truncate, Accepted, Concat, TrySync, WriteBuffer;
    if AtEnd(s.fd) {
      WriteConserves(s, e);
    } else if s.buf != [] {
      WriteBeyond(s, e);
    }
    SyncKeeps(s, e);
    SyncKeeps(WriteBuffer(s, e), e);
  }

  /** The file stays writable at its end exactly when no partial write was taken back on a file
      opened without O_APPEND. */
  lemma FlushStaysAtEnd(s: Aof, e: Env)
    requires Accounted(s) && AtEnd(s.fd) && !s.exited
    ensures AtEnd(Flush(s, e).0.fd) <==> s.fd.append || !TakenBack(s, e)
  {
    PutThenTruncate(s.fd, s.buf[..Accepted(|s.buf|, e.results)]);
  }

  /** What such a flush leaves: zeros from the end of the file to the position, then the bytes
      taken, and a recorded size that is too small. */
  lemma HoleFollows(s: Aof, e: Env)
    requires Accounted(s) && PastEnd(s.fd) && !s.exited && LeavesHole(s, e)
    ensures var t, n := Flush(s, e).0, Accepted(|s.buf|, e.results);
            && t.fd.bytes == s.fd.bytes + Zeros(s.fd.pos - |s.fd.bytes|) + s.buf[..n]
            && t.incrSize < |t.fd.bytes|
  {
    hide Put, Truncate, Accepted, Concat, TrySync, WriteBuffer;
    WriteBeyond(s, e);
    SyncKeeps(WriteBuffer(s, e), e);
  }

  /** The switch to a new file: what was written stays, the buffer is still to be written, and
      the new file is empty, at its end, and counts as synced now. */
  lemma OpenStartsAnew(s: Aof, now: int)
    ensures var t := OpenIncr(s, now);
      && Written(t) == Written(s) && t.fd == Fd([], false, 0) && AtEnd(t.fd) && Accounted(t)
      && t == s.(closed := t.closed, fd := t.fd, lastSync := now, incrSize := 0, syncOffset := 0)
  {
    var t := OpenIncr(s, now);
    assert t.closed[..|t.closed| - 1] == s.closed;
    assert Written(s) + [] == Written(s);
  }

  // ----- The fsync a flush asks for ---------------------------------------------------------

  /** Nothing is left to write: the whole buffer was taken, or it was empty and the file still
      holds bytes that no fsync was asked for. */
  predicate Drained(s: Aof, e: Env) {
    if s.buf == [] then s.syncOffset != s.incrSize else Writes(s, e) && Accepted(|s.buf|, e.results) == |s.buf|
  }

  /** An fsync is not held back for a child. */
  predicate MaySync(s: Aof, e: Env) {
    !(s.noSyncOnRewrite && e.child)
  }

  /** Exactly when a flush asks for an fsync, and which one; it is then on record for the whole
      file. Under everysec the worker must be free and the second must have changed, under
      always the main thread syncs at once. */
  lemma FsyncAsked(s: Aof, e: Env)
    requires !s.exited
    ensures var (t, r) := Flush(s, e);
      && (r == Background <==>
            s.policy == EverySec && Drained(s, e) && MaySync(s, e) && e.now > s.lastSync && !e.syncing)
      && (r == Inline <==> s.policy == Always && Drained(s, e) && MaySync(s, e) && e.syncs)
      && (r != NoSync ==> !t.exited && t.buf == [] && t.syncOffset == t.incrSize && t.lastSync == e.now)
      && (r == NoSync ==> t.syncOffset == s.syncOffset)
      && (r == NoSync && !t.exited ==>
            if s.policy == EverySec && s.buf != [] && Drained(s, e) && MaySync(s, e) && e.now > s.lastSync then
              t.lastSync == e.now
            else
              t.lastSync == s.lastSync)
  {
    hide Put, Truncate, Accepted, Zeros;
  }

  /** The process exits exactly when, under always, the write falls short or the fsync fails. */
  lemma ExitsExactlyIf(s: Aof, e: Env)
    requires !s.exited
    ensures Flush(s, e).0.exited <==>
      s.policy == Always
      && if Drained(s, e) then MaySync(s, e) && !e.syncs else s.buf != []
  {
    hide Put, Truncate, Accepted, Zeros;
  }

  /** Under everysec, a flush that is not forced waits for an fsync in progress, and for no
      more than two seconds: exactly then it leaves everything as it is, remembering when the
      waiting began. */
  lemma PostponedExactlyIf(s: Aof, e: Env)
    requires !s.exited && s.buf != []
    ensures !Writes(s, e) <==>
      s.policy == EverySec && !e.force && e.syncing && (s.postponed == 0 || e.now < s.postponed + 2)
    ensures var t := Flush(s, e).0;
      && (!Writes(s, e) ==> t == s.(postponed := if s.postponed == 0 then e.now else s.postponed))
      && (Writes(s, e) ==> t.postponed == 0)
      && (Writes(s, e) && !t.exited ==> (t.writeOk <==> Accepted(|s.buf|, e.results) == |s.buf|))
  {
    hide Put, Truncate, Accepted, Zeros;
  }

  // ----- Runs -----------------------------------------------------------------------------

  datatype Event = Feed(data: Bytes) | DoFlush(env: Env) | DoOpen(now: int) | SetPolicy(p: Policy)

  function Apply(s: Aof, ev: Event): Aof {
    if s.exited then s
    else match ev
      case Feed(data) => s.(buf := s.buf + data)
      case DoFlush(e) => Flush(s, e).0
      case DoOpen(now) => OpenIncr(s, now)
      case SetPolicy(p) => s.(policy := p)
  }

  function Run(s: Aof, evs: seq<Event>): Aof {
    if evs == [] then s else Apply(Run(s, evs[..|evs| - 1]), evs[|evs| - 1])
  }

  function New(ev: Event): Bytes {
    match ev case Feed(data) => data case _ => []
  }

  function Fed(evs: seq<Event>): Bytes {
    if evs == [] then [] else Fed(evs[..|evs| - 1]) + New(evs[|evs| - 1])
  }

  predicate Holes(s: Aof, ev: Event) {
    ev.DoFlush? && !s.exited && LeavesHole(s, ev.env)
  }

  /** No flush leaves a hole. */
  predicate HoleFree(s: Aof, evs: seq<Event>) {
    evs == [] ||
    var t, ev := Run(s, evs[..|evs| - 1]), evs[|evs| - 1];
    && HoleFree(s, evs[..|evs| - 1])
    && !Holes(t, ev)
  }

  /** The file as the server opens it at start: in append mode, its size read from the disk. */
  function Opened(content: Bytes, base: nat, policy: Policy, noSyncOnRewrite: bool): Aof {
    Aof([], Fd(content, true, 0), [], |content|, base + |content|, |content|, 0, 0, true,
        policy, noSyncOnRewrite, false)
  }

  ghost predicate Conserved(s: Aof, base: nat, stream: Bytes) {
    if s.exited then
      Written(s) <= stream
    else
      && Written(s) + s.buf == stream
      && Accounted(s)
      && PastEnd(s.fd)
      && s.currentSize == base + |Written(s)|
  }

  /** Conservation over every run: any feeds, any write outcomes, any file switches. */
  lemma {:induction false} RunConserves(content: Bytes, base: nat, p: Policy, q: bool, evs: seq<Event>)
    requires HoleFree(Opened(content, base, p, q), evs)
    ensures Conserved(Run(Opened(content, base, p, q), evs), base, content + Fed(evs))
    decreases |evs|
  {
    if evs == [] {
      assert content + [] == content;
      assert [] + content == content;
    } else {
      var front, ev := evs[..|evs| - 1], evs[|evs| - 1];
      RunConserves(content, base, p, q, front);
      var fed := Fed(front);
      assert content + Fed(evs) == content + fed + New(ev);
      ApplyConserves(Run(Opened(content, base, p, q), front), ev, base, content + fed);
    }
  }

  lemma ApplyConserves(s: Aof, ev: Event, base: nat, stream: Bytes)
    requires Conserved(s, base, stream)
    ensures !Holes(s, ev) ==> Conserved(Apply(s, ev), base, stream + New(ev))
    ensures var t := Apply(s, ev);
            Holes(s, ev) && !t.exited ==> Written(t) + t.buf != stream + New(ev)
  {
    hide LeavesHole, Flush;
    assert stream + [] == stream;
    if !s.exited {
      match ev {
        case Feed(data) =>
          var w, b := Written(s), s.buf;
          assert w + b + data == w + (b + data);
        case DoFlush(e) => FlushConserves(s, e);
        case DoOpen(now) =>
          assert OpenIncr(s, now).closed[..|s.closed|] == s.closed;
          var w := Written(s);
          assert w + [] == w;
        case SetPolicy(p) =>
      }
    }
  }

  /** Files and buffer hold what the files held at start and then everything fed. */
  ghost predicate Streams(s: Aof, content: Bytes, evs: seq<Event>) {
    Written(Run(s, evs)) + Run(s, evs).buf == content + Fed(evs)
  }

  /** The stream is whole at every moment of a run exactly when no flush leaves a hole. */
  lemma {:induction false} RunConservesExactly(content: Bytes, base: nat, p: Policy, q: bool, evs: seq<Event>)
    requires !Run(Opened(content, base, p, q), evs).exited
    ensures (forall i :: 0 <= i <= |evs| ==> Streams(Opened(content, base, p, q), content, evs[..i]))
            <==> HoleFree(Opened(content, base, p, q), evs)
    decreases |evs|
  {
    hide Streams, Apply, Written, Holes, Opened;
    var s := Opened(content, base, p, q);
    if evs == [] {
      RunConserves(content, base, p, q, evs);
      assert Streams(s, content, evs) by { StreamsIs(s, content, evs); }
      assert evs[..0] == evs;
    } else {
      var front, ev := evs[..|evs| - 1], evs[|evs| - 1];
      var t := Run(s, front);
      ExitedStays(t, ev);
      RunConservesExactly(content, base, p, q, front);
      assert forall i :: 0 <= i <= |front| ==> front[..i] == evs[..i];
      assert evs[..|evs|] == evs;
      StreamsIs(s, content, evs);
      if HoleFree(s, front) {
        RunConserves(content, base, p, q, front);
        var fed := Fed(front);
        assert content + Fed(evs) == content + fed + New(ev);
        ApplyConserves(t, ev, base, content + fed);
      }
    }
  }

  lemma StreamsIs(s: Aof, content: Bytes, evs: seq<Event>)
    ensures Streams(s, content, evs) <==> Written(Run(s, evs)) + Run(s, evs).buf == content + Fed(evs)
  {
  }

  lemma ExitedStays(s: Aof, ev: Event)
    ensures s.exited ==> Apply(s, ev).exited
  {
  }

  // ----- The imperative form --------------------------------------------------------------

  /** Two writes in a row are one write. */
  lemma PutTwice(f: Fd, a: Bytes, b: Bytes)
    ensures Put(Put(f, a), b) == Put(f, a + b)
  {
    var x, p := f.bytes, f.pos;
    if a == [] {
      assert a + b == b;
    } else if b == [] {
      assert a + b == a;
    } else if f.append {
      assert x + a + b == x + (a + b);
    } else if p >= |x| {
      var z := Zeros(p - |x|);
      assert (x + z + a) + Zeros(0) + b == x + z + (a + b);
    } else {
      assert Put(Put(f, a), b).bytes == Put(f, a + b).bytes;
    }
  }

  class AppendOnlyFile {
    var closed: seq<Bytes>
    var fd: Fd
    var buf: Bytes
    var incrSize: nat
    var currentSize: nat
    var syncOffset: nat
    var lastSync: int
    var postponed: int
    var writeOk: bool
    var policy: Policy
    var noSyncOnRewrite: bool
    var exited: bool

    ghost function State(): Aof
      reads this
    {
      Aof(closed, fd, buf, incrSize, currentSize, syncOffset, lastSync, postponed, writeOk, policy,
          noSyncOnRewrite, exited)
    }

    constructor (content: Bytes, base: nat, p: Policy, q: bool)
      ensures State() == Opened(content, base, p, q)
    {
      closed, fd, buf := [], Fd(content, true, 0), [];
      incrSize, currentSize, syncOffset := |content|, base + |content|, |content|;
      lastSync, postponed, writeOk, policy, noSyncOnRewrite, exited := 0, 0, true, p, q, false;
    }

    /** aofWrite: keep calling write(2) until everything is taken or an error other than EINTR
        ends it. Whatever the calls return, the file receives exactly the first bytes of the
        buffer, once and in order. */
    method AofWrite(data: Bytes, results: seq<WriteResult>) returns (nwritten: int)
      modifies this`fd
      ensures fd == Put(old(fd), data[..Accepted(|data|, results)])
      ensures nwritten == (if data != [] && Accepted(|data|, results) == 0 then -1 else Accepted(|data|, results))
    {
      hide Put;
      PutNothing(fd);
      assert data[..0] == [];
      var total := 0;
      var i := 0;
      while total < |data|
        invariant 0 <= total <= |data| && 0 <= i <= |results|
        invariant total + Accepted(|data| - total, results[i..]) == Accepted(|data|, results)
        invariant fd == Put(old(fd), data[..total])
        decreases |data| - total, |results| - i
      {
        var r := if i < |results| then results[i] else Wrote(|data| - total);
        if i < |results| {
          assert results[i..][1..] == results[i + 1..];
          i := i + 1;
        }
        match r {
          case Interrupted =>
          case Failed =>
            return if total > 0 then total else -1;
          case Wrote(k) =>
            var n := if k <= |data| - total then k else |data| - total;
            PutTwice(old(fd), data[..total], data[total..total + n]);
            assert data[..total] + data[total..total + n] == data[..total + n];
            fd := Put(fd, data[total..total + n]);
            total := total + n;
        }
      }
      nwritten := total;
    }

    /** feedAppendOnlyFile, its last step. */
    method Append(data: Bytes)
      modifies this`buf
      ensures State() == old(State()).(buf := old(buf) + data)
    {
      buf := buf + data;
    }

    /** The branch for a write that fell short, or failed with -1. */
    method WriteFellShort(e: Env, written: int)
      requires -1 <= written < |buf| && written != 0
      modifies this
      ensures State() == ShortWrite(old(State()), e, if written < 0 then 0 else written)
    {
      hide Truncate;
      var nwritten := written;
      if nwritten != -1 && e.truncates {
        fd := Truncate(fd, incrSize);
        nwritten := -1;
      }
      if policy == Always {
        exited := true;
        return;
      }
      writeOk := false;
      if nwritten > 0 {
        currentSize := currentSize + nwritten;
        incrSize := incrSize + nwritten;
        buf := buf[nwritten..];
      }
    }

    /** flushAppendOnlyFile: the write, and what to do when it falls short. */
    method WriteOut(e: Env)
      requires buf != []
      modifies this
      ensures State() == WriteBuffer(old(State()), e)
    {
      hide Put, Truncate, Accepted, ShortWrite;
      var nwritten := AofWrite(buf, e.results);
      postponed := 0;
      if nwritten != |buf| {
        WriteFellShort(e, nwritten);
        return;
      }
      if !writeOk {
        writeOk := true;
      }
      currentSize := currentSize + nwritten;
      incrSize := incrSize + nwritten;
      buf := [];
    }

    /** flushAppendOnlyFile, from the label try_fsync. */
    method TryFsync(e: Env) returns (r: Request)
      modifies this
      ensures (State(), r) == TrySync(old(State()), e)
    {
      if noSyncOnRewrite && e.child {
        return NoSync;
      }
      if policy == Always {
        if !e.syncs {
          exited := true;
          return NoSync;
        }
        syncOffset, lastSync := incrSize, e.now;
        return Inline;
      }
      if policy == EverySec && e.now > lastSync {
        r := NoSync;
        if !e.syncing {
          r := Background;
          syncOffset := incrSize;
        }
        lastSync := e.now;
        return;
      }
      r := NoSync;
    }

    method FlushAppendOnlyFile(e: Env) returns (r: Request)
      requires !exited
      modifies this
      ensures (State(), r) == Flush(old(State()), e)
    {
      if |buf| == 0 {
        if policy == EverySec && syncOffset != incrSize && e.now > lastSync && !e.syncing {
          r := TryFsync(e);
        } else if policy == Always && syncOffset != incrSize {
          r := TryFsync(e);
        } else {
          r := NoSync;
        }
        return;
      }
      if policy == EverySec && !e.force {
        if e.syncing {
          if postponed == 0 {
            postponed := e.now;
            return NoSync;
          } else if e.now - postponed < 2 {
            return NoSync;
          }
        }
      }
      WriteOut(e);
      if exited || !writeOk {
        return NoSync;
      }
      r := TryFsync(e);
    }

    /** openNewIncrAofForAppend, the part after the manifest is saved. */
    method OpenNewIncr(now: int)
      modifies this
      ensures State() == OpenIncr(old(State()), now)
    {
      closed := closed + [fd.bytes];
      lastSync := now;
      fd := Fd([], false, 0);
      incrSize := 0;
      syncOffset := 0;
    }
  }
}
