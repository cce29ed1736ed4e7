/** The persistence protocol in the form the server runs it: fields updated in place, step
    by step, each method proved to make exactly the move `AofStore` describes. */
module AofServer {
  import opened Options
  import opened AofStore

  // ----- The manifest file --------------------------------------------------------------

  /** aofLoadManifestFromFile. */
  method ReadManifest(lines: seq<Info>) returns (r: Loaded)
    ensures r == LoadManifest(lines)
  {
    if |lines| == 0 {
      return Err(EmptyFile);
    }
    var am := EMPTY_MANIFEST;
    var maxseq := 0;
    for linenum := 0 to |lines|
      invariant LoadLines(lines, linenum) == Ok(am)
      invariant maxseq == am.currIncr
    {
      var ai := lines[linenum];
      if ai.fileSeq == 0 {
        LoadStops(lines, linenum + 1, |lines|);
        return Err(BadLine);
      }
      match ai.kind {
        case Base =>
          if am.base.Some? {
            LoadStops(lines, linenum + 1, |lines|);
            return Err(DuplicateBase);
          }
          am := am.(base := Some(ai), currBase := ai.fileSeq);
        case Hist =>
          am := am.(history := am.history + [ai]);
        case Incr =>
          if ai.fileSeq <= maxseq {
            LoadStops(lines, linenum + 1, |lines|);
            return Err(NonMonotonic);
          }
          am := am.(incr := am.incr + [ai], currIncr := ai.fileSeq);
          maxseq := ai.fileSeq;
      }
    }
    r := Ok(am);
  }

  /** The first bad line decides. */
  lemma {:induction false} LoadStops(lines: seq<Info>, i: nat, n: nat)
    requires i <= n <= |lines| && LoadLines(lines, i).Err?
    ensures LoadLines(lines, n) == LoadLines(lines, i)
    decreases n
  {
    if i < n {
      LoadStops(lines, i, n - 1);
    }
  }

  /** getAofManifestAsString. */
  method ManifestText(am: Manifest) returns (buf: seq<Info>)
    ensures buf == Lines(am)
  {
    buf := [];
    if am.base.Some? {
      buf := buf + [am.base.value];
    }
    ghost var start := buf;
    for i := 0 to |am.history|
      invariant buf == start + am.history[..i]
    {
      buf := buf + [am.history[i]];
    }
    for i := 0 to |am.incr|
      invariant buf == start + am.history + am.incr[..i]
    {
      buf := buf + [am.incr[i]];
    }
  }

  /** markRewrittenIncrAofAsHistory: walk from the tail, skipping the file being written. */
  method MarkRewrittenIncrAsHistory(am: Manifest) returns (r: Manifest)
    ensures r == MarkRewritten(am)
  {
    if |am.incr| == 0 {
      return am;
    }
    r := am;
    var i := |am.incr| - 1;
    while i > 0
      invariant 0 <= i <= |am.incr| - 1
      invariant r.base == am.base && r.currBase == am.currBase && r.currIncr == am.currIncr && r.dirty == am.dirty
      invariant r.incr == am.incr[..i] + [am.incr[|am.incr| - 1]]
      invariant r.history == ToHistory(am.incr[i..|am.incr| - 1]) + am.history
    {
      i := i - 1;
      var hai := r.incr[i].(kind := Hist);
      assert r.incr[i] == am.incr[i];
      r := r.(history := [hai] + r.history, incr := r.incr[..i] + r.incr[i + 1..]);
      assert ToHistory(am.incr[i..|am.incr| - 1]) == [hai] + ToHistory(am.incr[i + 1..|am.incr| - 1]);
      assert am.incr[..i + 1][..i] == am.incr[..i];
    }
    assert am.incr[0..|am.incr| - 1] == am.incr[..|am.incr| - 1];
    r := r.(dirty := true);
  }

  /** loadAppendOnlyFiles: the BASE file, then each INCR file through a fresh client. */
  method LoadAppendOnlyFiles<D, C>(sem: Semantics<D, C>, files: map<Name, Content<D, C>>, am: Manifest)
    returns (r: Option<At<D>>)
    ensures r == LoadFiles(sem, files, am)
  {
    var data := sem.empty;
    if am.base.Some? {
      var name := am.base.value.name;
      if name !in files || files[name].Log? {
        return None;
      }
      data := files[name].data;
    }
    r := Some(At(data, 0));
    for i := 0 to |am.incr|
      invariant r.Some? && LoadIncrs(sem, files, data, am.incr, i) == r
    {
      var name := am.incr[i].name;
      if name !in files || files[name].Snapshot? {
        LoadIncrsStops(sem, files, data, am.incr, i + 1, |am.incr|);
        return None;
      }
      var client := At(r.value.data, 0);
      client := ReplayFile(sem, client, files[name].entries);
      r := Some(client);
    }
  }

  lemma {:induction false} LoadIncrsStops<D, C>(sem: Semantics<D, C>, files: map<Name, Content<D, C>>,
      start: D, incr: seq<Info>, i: nat, n: nat)
    requires i <= n <= |incr| && LoadIncrs(sem, files, start, incr, i).None?
    ensures LoadIncrs(sem, files, start, incr, n).None?
    decreases n
  {
    if i < n {
      LoadIncrsStops(sem, files, start, incr, i, n - 1);
    }
  }

  method ReplayFile<D, C>(sem: Semantics<D, C>, start: At<D>, log: seq<Entry<C>>) returns (a: At<D>)
    ensures a == Replay(sem, start, log)
  {
    a := start;
    for i := 0 to |log|
      invariant a == Replay(sem, start, log[..i])
    {
      a := Step(sem, a, log[i]);
      assert log[..i + 1][..i] == log[..i];
    }
    assert log[..|log|] == log;
  }

  // ----- The server ------------------------------------------------------------------------

  class AofServer<D, C> {
    const sem: Semantics<D, C>
    var mem: D
    var manifest: Manifest
    var fd: Name
    var selectedDb: Option<nat>
    var buf: seq<Entry<C>>
    var child: Option<D>
    var files: map<Name, Content<D, C>>
    var manifestFile: Option<seq<Info>>

    /** The state the methods are specified on. */
    function State(): Server<D, C>
      reads this
    {
      Server(mem, manifest, fd, selectedDb, buf, child, Disk(files, manifestFile))
    }

    /** A server started on an empty directory. */
    constructor (sem: Semantics<D, C>)
      ensures this.sem == sem && Boot(sem, EmptyDisk()) == Some(State())
    {
      this.sem := sem;
      mem := sem.empty;
      var m := NewIncr(NewBase(EMPTY_MANIFEST));
      files := map[BaseName(1) := Snapshot(sem.empty), IncrName(1) := Log([])];
      manifestFile := Some(Lines(m));
      manifest := m.(dirty := false);
      fd := IncrName(1);
      selectedDb := None;
      buf := [];
      child := None;
    }

    /** feedAppendOnlyFile, called after the command has changed the dataset. */
    method FeedAppendOnlyFile(dictid: Option<nat>, c: C)
      modifies this
      ensures State() == Feed(sem, old(State()), dictid, c)
    {
      mem := if dictid.Some? then sem.apply(mem, dictid.value, c) else sem.applyAny(mem, c);
      var out := [];
      if dictid.Some? && selectedDb != Some(dictid.value) {
        out := out + [Select(dictid.value)];
        selectedDb := Some(dictid.value);
      }
      out := out + [if dictid.Some? then Run(c) else RunAny(c)];
      assert buf + out == if |out| == 2 then buf + [out[0]] + [out[1]] else buf + [out[0]];
      assert |out| == 1 ==> buf + [] + [out[0]] == buf + [out[0]];
      buf := buf + out;
    }

    /** flushAppendOnlyFile, `n` entries of the buffer reaching the file. */
    method FlushAppendOnlyFile(n: nat)
      requires n <= |buf| && fd in files && files[fd].Log?
      modifies this
      ensures State() == Flush(old(State()), n)
    {
      files := files[fd := Log(files[fd].entries + buf[..n])];
      buf := buf[n..];
    }

    /** persistAofManifest for a manifest that is dirty. */
    method PersistManifest(am: Manifest, outcome: Persist) returns (ok: bool)
      modifies this`manifestFile
      ensures ok == outcome.Installed?
      ensures Disk(files, manifestFile) == Written(old(State()).disk, am, outcome)
    {
      var text := ManifestText(am);
      if !outcome.NotInstalled? {
        manifestFile := Some(text);
      }
      ok := outcome.Installed?;
    }

    /** openNewIncrAofForAppend: everything is done on a copy of the manifest, which replaces
        the server's own only at the end. */
    method OpenNewIncrAofForAppend(o: Opening) returns (ok: bool)
      modifies this
      ensures ok == o.Succeeds()
      ensures State() == OpenNewIncr(old(State()), o)
    {
      var temp := NewIncr(manifest);
      var name := IncrName(temp.currIncr);
      if !o.created {
        return false;
      }
      files := files[name := Log([])];
      ok := PersistManifest(temp, o.persisted);
      if !ok {
        return;
      }
      fd := name;
      manifest := temp.(dirty := false);
    }

    /** rewriteAppendOnlyFileBackground: forced flush, new INCR file, fork. */
    method RewriteAppendOnlyFileBackground(n: nat, o: Opening, forked: bool) returns (ok: bool)
      requires n <= |buf| && fd in files && files[fd].Log?
      modifies this
      ensures ok == (old(child).None? && o.Succeeds() && forked)
      ensures State() == RewriteStart(old(State()), n, o, forked)
    {
      if child.Some? {
        return false;
      }
      selectedDb := None;
      FlushAppendOnlyFile(n);
      ok := OpenNewIncrAofForAppend(o);
      if !ok {
        return;
      }
      if !forked {
        return false;
      }
      child := Some(mem);
    }

    /** aofDelHistoryFiles: unlink every HISTORY file, then persist the shorter manifest. */
    method DelHistoryFiles(gcDisabled: bool, gone: set<Name>, outcome: Persist)
      modifies this
      ensures State() == DelHistory(old(State()), gcDisabled, gone, outcome)
    {
      if gcDisabled || |manifest.history| == 0 {
        return;
      }
      var h := manifest.history;
      var i := 0;
      while i < |h|
        invariant 0 <= i <= |h|
        invariant manifest == old(manifest).(history := h[i..])
        invariant files == old(files) - ((set j | 0 <= j < i :: h[j].name) * gone)
        invariant mem == old(mem) && fd == old(fd) && selectedDb == old(selectedDb) && buf == old(buf)
        invariant child == old(child) && manifestFile == old(manifestFile)
      {
        var ai := manifest.history[0];
        if ai.name in gone {
          files := files - {ai.name};
        }
        manifest := manifest.(history := manifest.history[1..]);
        i := i + 1;
      }
      manifest := manifest.(history := [], dirty := true);
      var ok := PersistManifest(manifest, outcome);
      manifest := manifest.(dirty := !ok);
    }

    /** backgroundRewriteDoneHandler. */
    method BackgroundRewriteDoneHandler(f: Finish)
      requires child.Some?
      modifies this
      ensures State() == RewriteDone(old(State()), f)
    {
      var snapshot := child.value;
      child := None;
      if !f.exitedOk {
        return;
      }
      var temp := NewBase(manifest);
      var name := BaseName(temp.currBase);
      if !f.renamed {
        return;
      }
      files := files[name := Snapshot(snapshot)];
      temp := MarkRewrittenIncrAsHistory(temp);
      var ok := PersistManifest(temp, f.persisted);
      if !ok {
        if f.unlinked {
          files := files - {name};
        }
        return;
      }
      manifest := temp.(dirty := false);
      DelHistoryFiles(f.gcDisabled, f.gone, f.historyPersisted);
    }

    /** aofOpenIfNeededOnServerStart. */
    method StartWith(data: D, loaded: Manifest)
      modifies this
      ensures State() == Started(data, loaded, old(State()).disk)
    {
      var am := loaded;
      mem := data;
      selectedDb, buf, child := None, [], None;
      if am.base.None? && |am.incr| == 0 {
        am := NewBase(am);
        files := files[BaseName(am.currBase) := Snapshot(mem)];
      }
      if |am.incr| == 0 {
        am := NewIncr(am);
      }
      fd := am.incr[|am.incr| - 1].name;
      if fd !in files {
        files := files[fd := Log([])];
      }
      if am.dirty {
        var text := ManifestText(am);
        manifestFile := Some(text);
      }
      manifest := am.(dirty := false);
    }

    /** The process dies and starts again on the same directory. */
    method Restart() returns (ok: bool)
      modifies this
      ensures ok <==> Boot(sem, old(State()).disk).Some?
      ensures ok ==> Boot(sem, old(State()).disk) == Some(State())
      ensures !ok ==> State() == old(State())
    {
      hide Started;
      var am := EMPTY_MANIFEST;
      if manifestFile.Some? {
        var r := ReadManifest(manifestFile.value);
        if r.Err? {
          return false;
        }
        am := r.m;
      }
      var data := LoadAppendOnlyFiles(sem, files, am);
      if data.None? {
        return false;
      }
      StartWith(data.value.data, am);
      return true;
    }
  }
}
