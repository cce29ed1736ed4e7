/** Multi-part append-only persistence: the manifest of BASE, INCR and HISTORY files, the
    background rewrite, history deletion, and restart.

    The dataset and its commands are abstract: `Semantics` says what a command does to the
    selected database. A log is a sequence of entries, with SELECT explicit, and every file
    is replayed from database 0 because each gets a fresh client. */
module AofStore {
  import opened Options

  datatype Semantics<!D, !C> = Semantics(
    empty: D,
    apply: (D, nat, C) -> D,   // a command run in a database
    applyAny: (D, C) -> D)     // a command fed with dictid -1

  datatype Entry<+C> = Select(db: nat) | Run(c: C) | RunAny(c: C)

  /** A dataset and the database the replaying client has selected. */
  datatype At<+D> = At(data: D, db: nat)

  function Step<D, C>(sem: Semantics<D, C>, a: At<D>, e: Entry<C>): At<D> {
    match e
    case Select(db) => a.(db := db)
    case Run(c) => a.(data := sem.apply(a.data, a.db, c))
    case RunAny(c) => a.(data := sem.applyAny(a.data, c))
  }

  function Replay<D, C>(sem: Semantics<D, C>, a: At<D>, log: seq<Entry<C>>): At<D> {
    if log == [] then a else Step(sem, Replay(sem, a, log[..|log| - 1]), log[|log| - 1])
  }

  lemma {:induction false} ReplayAppend<D, C>(sem: Semantics<D, C>, a: At<D>, x: seq<Entry<C>>, y: seq<Entry<C>>)
    ensures Replay(sem, a, x + y) == Replay(sem, Replay(sem, a, x), y)
  {
    if y == [] {
      assert x + y == x;
    } else {
      ReplayAppend(sem, a, x, y[..|y| - 1]);
      assert (x + y)[..|x + y| - 1] == x + y[..|y| - 1];
    }
  }

  /** The database selected at the end of a log does not depend on the data. */
  lemma {:induction false} ReplayDb<D, C>(sem: Semantics<D, C>, a: At<D>, b: At<D>, log: seq<Entry<C>>)
    requires a.db == b.db
    ensures Replay(sem, a, log).db == Replay(sem, b, log).db
  {
    if log != [] {
      ReplayDb(sem, a, b, log[..|log| - 1]);
    }
  }

  // ----- Manifest ---------------------------------------------------------------------

  datatype Kind = Base | Hist | Incr

  /** File names carry their sequence number: NAME.seq.base.* and NAME.seq.incr.aof. */
  datatype Name = BaseName(n: nat) | IncrName(n: nat)

  datatype Info = Info(name: Name, fileSeq: nat, kind: Kind)

  datatype Manifest = Manifest(
    base: Option<Info>,
    history: seq<Info>,
    incr: seq<Info>,
    currBase: nat,
    currIncr: nat,
    dirty: bool)

  const EMPTY_MANIFEST := Manifest(None, [], [], 0, 0, false)

  /** getAofManifestAsString: one line per file. */
  function Lines(m: Manifest): seq<Info> {
    (if m.base.Some? then [m.base.value] else []) + m.history + m.incr
  }

  datatype LoadError = EmptyFile | DuplicateBase | NonMonotonic | BadLine

  datatype Loaded = Ok(m: Manifest) | Err(error: LoadError)

  /** aofLoadManifestFromFile over the first `n` lines. `maxseq` is the sequence number of
      the last INCR line, which is also `currIncr`. */
  function LoadLines(lines: seq<Info>, n: nat): Loaded
    requires n <= |lines|
  {
    if n == 0 then Ok(EMPTY_MANIFEST)
    else
      var before := LoadLines(lines, n - 1);
      if before.Err? then before else LoadLine(before.m, lines[n - 1])
  }

  function LoadLine(m: Manifest, ai: Info): Loaded {
    if ai.fileSeq == 0 then Err(BadLine)
    else
      match ai.kind
      case Base =>
        if m.base.Some? then Err(DuplicateBase)
        else Ok(m.(base := Some(ai), currBase := ai.fileSeq))
      case Hist => Ok(m.(history := m.history + [ai]))
      case Incr =>
        if ai.fileSeq <= m.currIncr then Err(NonMonotonic)
        else Ok(m.(incr := m.incr + [ai], currIncr := ai.fileSeq))
  }

  function LoadManifest(lines: seq<Info>): Loaded {
    if lines == [] then Err(EmptyFile) else LoadLines(lines, |lines|)
  }

  /** getNewBaseFileNameAndMarkPreAsHistory. */
  function NewBase(m: Manifest): Manifest {
    var n := m.currBase + 1;
    m.(history := (if m.base.Some? then [m.base.value.(kind := Hist)] else []) + m.history,
       base := Some(Info(BaseName(n), n, Base)),
       currBase := n,
       dirty := true)
  }

  /** getNewIncrAofName. */
  function NewIncr(m: Manifest): Manifest {
    var n := m.currIncr + 1;
    m.(incr := m.incr + [Info(IncrName(n), n, Incr)], currIncr := n, dirty := true)
  }

  function ToHistory(incr: seq<Info>): (h: seq<Info>)
    ensures |h| == |incr| && forall i :: 0 <= i < |h| ==> h[i] == incr[i].(kind := Hist)
  {
    seq(|incr|, i requires 0 <= i < |incr| => incr[i].(kind := Hist))
  }

  /** markRewrittenIncrAofAsHistory while the last INCR file is open for writing. */
  function MarkRewritten(m: Manifest): Manifest {
    if m.incr == [] then m
    else
      var n := |m.incr| - 1;
      m.(history := ToHistory(m.incr[..n]) + m.history, incr := m.incr[n..], dirty := true)
  }

  // ----- Disk -------------------------------------------------------------------------

  datatype Content<+D, +C> = Snapshot(data: D) | Log(entries: seq<Entry<C>>)

  datatype Disk<+D, +C> = Disk(files: map<Name, Content<D, C>>, manifest: Option<seq<Info>>)

  function EmptyDisk<D, C>(): Disk<D, C> {
    Disk(map[], None)
  }

  /** loadAppendOnlyFiles over the first `n` INCR files: every file must exist, and each is
      replayed by a fresh client. `None` is a fatal loading error. */
  function LoadIncrs<D, C>(sem: Semantics<D, C>, files: map<Name, Content<D, C>>, start: D, incr: seq<Info>,
      n: nat): Option<At<D>>
    requires n <= |incr|
  {
    if n == 0 then Some(At(start, 0))
    else
      var before := LoadIncrs(sem, files, start, incr, n - 1);
      var name := incr[n - 1].name;
      if before.None? || name !in files || files[name].Snapshot? then None
      else Some(Replay(sem, At(before.value.data, 0), files[name].entries))
  }

  function LoadFiles<D, C>(sem: Semantics<D, C>, files: map<Name, Content<D, C>>, m: Manifest): Option<At<D>> {
    if m.base.None? then LoadIncrs(sem, files, sem.empty, m.incr, |m.incr|)
    else if m.base.value.name !in files || files[m.base.value.name].Log? then None
    else LoadIncrs(sem, files, files[m.base.value.name].data, m.incr, |m.incr|)
  }

  /** Everything a restarting server reads: the manifest file, then the files it names. */
  function LoadDisk<D, C>(sem: Semantics<D, C>, disk: Disk<D, C>): Option<At<D>> {
    if disk.manifest.None? then Some(At(sem.empty, 0))
    else
      var r := LoadManifest(disk.manifest.value);
      if r.Err? then None else LoadFiles(sem, disk.files, r.m)
  }

  // ----- Server -----------------------------------------------------------------------

  datatype Server<+D, +C> = Server(
    mem: D,                        // the dataset
    man: Manifest,                 // server.aof_manifest
    fd: Name,                      // the file behind server.aof_fd
    selectedDb: Option<nat>,       // server.aof_selected_db, None for -1
    buf: seq<Entry<C>>,            // server.aof_buf
    child: Option<D>,              // the snapshot a running rewrite child writes
    disk: Disk<D, C>)

  /** persistAofManifest. Three outcomes of writing the file: installed, not installed, and
      renamed into place but reported as failed because the directory fsync failed. */
  datatype Persist = Installed | NotInstalled | InstalledButFailed

  function Written<D, C>(disk: Disk<D, C>, m: Manifest, p: Persist): Disk<D, C> {
    if p.NotInstalled? then disk else disk.(manifest := Some(Lines(m)))
  }

  /** feedAppendOnlyFile after the command has changed the dataset. */
  function Feed<D, C>(sem: Semantics<D, C>, s: Server<D, C>, dictid: Option<nat>, c: C): Server<D, C> {
    match dictid
    case None => s.(mem := sem.applyAny(s.mem, c), buf := s.buf + [RunAny(c)])
    case Some(db) =>
      var select := if s.selectedDb != Some(db) then [Select(db)] else [];
      s.(mem := sem.apply(s.mem, db, c), selectedDb := Some(db), buf := s.buf + select + [Run(c)])
  }

  /** flushAppendOnlyFile when the first `n` buffered entries reach the open file. */
  function Flush<D, C>(s: Server<D, C>, n: nat): Server<D, C>
    requires n <= |s.buf| && s.fd in s.disk.files && s.disk.files[s.fd].Log?
  {
    var log := s.disk.files[s.fd].entries + s.buf[..n];
    s.(buf := s.buf[n..], disk := s.disk.(files := s.disk.files[s.fd := Log(log)]))
  }

  datatype Opening = Opening(created: bool, persisted: Persist) {
    predicate Succeeds() { created && persisted.Installed? }
  }

  /** openNewIncrAofForAppend in state AOF_ON. */
  function OpenNewIncr<D, C>(s: Server<D, C>, o: Opening): Server<D, C> {
    var temp := NewIncr(s.man);
    var name := IncrName(temp.currIncr);
    if !o.created then s
    else
      var truncated := s.disk.(files := s.disk.files[name := Log([])]);
      var disk := Written(truncated, temp, o.persisted);
      if o.persisted.Installed? then s.(man := temp.(dirty := false), fd := name, disk := disk)
      else s.(disk := disk)
  }

  /** rewriteAppendOnlyFileBackground, the forced flush having written `n` entries. */
  function RewriteStart<D, C>(s: Server<D, C>, n: nat, o: Opening, forked: bool): Server<D, C>
    requires n <= |s.buf| && s.fd in s.disk.files && s.disk.files[s.fd].Log?
  {
    if s.child.Some? then s
    else
      var t := OpenNewIncr(Flush(s.(selectedDb := None), n), o);
      if o.Succeeds() && forked then t.(child := Some(t.mem)) else t
  }

  /** aofDelHistoryFiles: `gone` are the history files whose unlink succeeded. */
  function DelHistory<D, C>(s: Server<D, C>, gcDisabled: bool, gone: set<Name>, p: Persist): Server<D, C> {
    if gcDisabled || s.man.history == [] then s
    else
      var names := set i | 0 <= i < |s.man.history| :: s.man.history[i].name;
      var m := s.man.(history := [], dirty := true);
      var disk := Written(s.disk.(files := s.disk.files - (names * gone)), m, p);
      s.(man := m.(dirty := !p.Installed?), disk := disk)
  }

  datatype Finish = Finish(
    exitedOk: bool,
    renamed: bool,
    persisted: Persist,
    unlinked: bool,       // the clean-up unlink of the new BASE file, when it is needed
    gcDisabled: bool,
    gone: set<Name>,
    historyPersisted: Persist)

  /** backgroundRewriteDoneHandler in state AOF_ON. */
  function RewriteDone<D, C>(s: Server<D, C>, f: Finish): Server<D, C>
    requires s.child.Some?
  {
    var idle := s.(child := None);
    if !f.exitedOk || !f.renamed then idle
    else
      var based := NewBase(s.man);
      var temp := MarkRewritten(based);
      var name := BaseName(based.currBase);
      var renamed := s.disk.(files := s.disk.files[name := Snapshot(s.child.value)]);
      var disk := Written(renamed, temp, f.persisted);
      if f.persisted.Installed? then
        DelHistory(idle.(man := temp.(dirty := false), disk := disk), f.gcDisabled, f.gone, f.historyPersisted)
      else
        idle.(disk := if f.unlinked then disk.(files := disk.files - {name}) else disk)
  }

  /** The disk after a crash that lost all but the first `n` entries of the open file. */
  function Cut<D, C>(s: Server<D, C>, n: nat): Disk<D, C>
    requires s.fd in s.disk.files && s.disk.files[s.fd].Log? && n <= |s.disk.files[s.fd].entries|
  {
    s.disk.(files := s.disk.files[s.fd := Log(s.disk.files[s.fd].entries[..n])])
  }

  /** The server after loading: a base and an INCR file are made if there are none. */
  function Started<D, C>(mem: D, m: Manifest, disk: Disk<D, C>): Server<D, C> {
    var nothing := m.base.None? && m.incr == [];
    var m1 := if nothing then NewBase(m) else m;
    var files1 := if nothing then disk.files[BaseName(m1.currBase) := Snapshot(mem)] else disk.files;
    var m2 := if m1.incr == [] then NewIncr(m1) else m1;
    var fd := m2.incr[|m2.incr| - 1].name;
    var files2 := if fd in files1 then files1 else files1[fd := Log([])];
    var lines := if m2.dirty then Some(Lines(m2)) else disk.manifest;
    Server(mem, m2.(dirty := false), fd, None, [], None, Disk(files2, lines))
  }

  /** A restart: aofLoadManifestFromDisk, loadAppendOnlyFiles, aofOpenIfNeededOnServerStart.
      `None` is a refusal to start. */
  function Boot<D, C>(sem: Semantics<D, C>, disk: Disk<D, C>): Option<Server<D, C>> {
    var r := if disk.manifest.None? then Ok(EMPTY_MANIFEST) else LoadManifest(disk.manifest.value);
    var data := LoadDisk(sem, disk);
    if r.Err? || data.None? then None else Some(Started(data.value.data, r.m, disk))
  }
}
