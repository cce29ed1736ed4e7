/** What the runs of `AofInvariant` assume of their environment, and exactly what happens
    without it: a rewrite that starts while commands are still buffered, and a manifest that
    is in place but was reported as failed. */
module AofExact {
  import opened Options
  import opened AofStore
  import opened AofInvariant

  /** A dataset that remembers every command that made it, with its database. */
  type Past<!C> = seq<(Option<nat>, C)>

  function Commands<C>(log: seq<Entry<C>>): nat {
    if log == [] then 0
    else Commands(log[..|log| - 1]) + (if log[|log| - 1].Select? then 0 else 1)
  }

  /** Each command that is replayed adds itself to the history, whatever the history was. */
  lemma {:induction false} ReplayAdds<C>(data: Past<C>, db: nat, log: seq<Entry<C>>)
    ensures var a := Replay(History(), At([], db), log);
            Replay(History(), At(data, db), log) == At(data + a.data, a.db) && |a.data| == Commands(log)
  {
    if log == [] {
      assert data + [] == data;
    } else {
      var init := log[..|log| - 1];
      ReplayAdds(data, db, init);
      var a, b := Replay(History(), At([], db), init), Replay(History(), At([], db), log);
      if !log[|log| - 1].Select? {
        assert b.data == a.data + [b.data[|a.data|]];
        assert data + b.data == data + a.data + [b.data[|a.data|]];
      }
    }
  }

  // ----- A rewrite that starts with a buffer that is not empty ------------------------------

  /** A running rewrite: the snapshot, then the open file and the buffer, give the snapshot,
      then `again`, then what was executed since. */
  ghost predicate Rewriting<C>(s: Server<Past<C>, C>, snapshot: Past<C>, again: Past<C>) {
    && Layout(s) && s.child == Some(snapshot) && snapshot <= s.mem
    && s.fd in s.disk.files && s.disk.files[s.fd].Log?
    && var a := Replay(History(), Replay(History(), At(snapshot, 0), s.disk.files[s.fd].entries), s.buf);
       && a.data == snapshot + again + s.mem[|snapshot|..]
       && (s.selectedDb.Some? ==> a.db == s.selectedDb.value)
  }

  /** Any step of the server while the child is at work; another start is refused. */
  ghost predicate Meanwhile<D, C>(sem: Semantics<D, C>, s: Server<D, C>, op: Op<C>, t: Server<D, C>) {
    match op
    case DoFeed(dictid, c) => t == Feed(sem, s, dictid, c)
    case DoFlush(n) => n <= |s.buf| && s.fd in s.disk.files && s.disk.files[s.fd].Log? && t == Flush(s, n)
    case DoDelHistory(gcDisabled, gone, p) => t == DelHistory(s, gcDisabled, gone, p)
    case DoRewriteStart(n, o, forked) =>
      n <= |s.buf| && s.fd in s.disk.files && s.disk.files[s.fd].Log? && t == RewriteStart(s, n, o, forked)
    case _ => false
  }

  /** The server from the start of a rewrite, whose flush wrote only `n` entries, on. */
  ghost predicate IsRewrite<C>(s: Server<Past<C>, C>, n: nat, o: Opening, run: seq<Server<Past<C>, C>>,
      ops: seq<Op<C>>)
  {
    && Layout(s) && s.child.None? && o.Succeeds()
    && n <= |s.buf| && s.fd in s.disk.files && s.disk.files[s.fd].Log?
    && |run| == |ops| + 1 && run[0] == RewriteStart(s, n, o, true)
    && forall i :: 0 <= i < |ops| ==> MeanwhileAt(run, ops, i)
  }

  ghost predicate MeanwhileAt<C>(run: seq<Server<Past<C>, C>>, ops: seq<Op<C>>, i: nat)
    requires |run| == |ops| + 1 && i < |ops|
  {
    Meanwhile(History(), run[i], ops[i], run[i + 1])
  }

  /** The history that the left-over entries make when they are replayed from database 0. */
  function Again<C>(left: seq<Entry<C>>): Past<C> {
    Replay(History(), At([], 0), left).data
  }

  lemma FlushLayout<D, C>(s: Server<D, C>, n: nat)
    requires Layout(s) && n <= |s.buf|
    ensures s.fd in s.disk.files && s.disk.files[s.fd].Log? && Layout(Flush(s, n))
  {
    OpenFileExists(s);
  }

  lemma OpenLayout<D, C>(s: Server<D, C>, o: Opening)
    requires Layout(s) && o.Succeeds()
    ensures var t := OpenNewIncr(s, o);
            Layout(t) && t.fd in t.disk.files && t.disk.files[t.fd] == Log([]) && t.buf == s.buf
  {
    var t := OpenNewIncr(s, o);
    NextManifest(s.man);
    assert Lines(NewIncr(s.man)) == Lines(t.man.(history := s.man.history));
    assert OnDisk(t.man, t.disk.manifest.value);
  }

  lemma StartRewriting<C>(s: Server<Past<C>, C>, n: nat, o: Opening)
    requires Layout(s) && s.child.None? && o.Succeeds()
    requires n <= |s.buf| && s.fd in s.disk.files && s.disk.files[s.fd].Log?
    ensures Rewriting(RewriteStart(s, n, o, true), s.mem, Again(s.buf[n..]))
  {
    hide GoodManifest, FilesPresent, OnDisk;
    var idle := s.(selectedDb := None);
    FlushLayout(idle, n);
    OpenLayout(Flush(idle, n), o);
    ReplayAdds(s.mem, 0, s.buf[n..]);
    assert s.mem[|s.mem|..] == [];
  }

  lemma FeedRewriting<C>(s: Server<Past<C>, C>, snapshot: Past<C>, again: Past<C>, dictid: Option<nat>, c: C)
    requires Rewriting(s, snapshot, again)
    ensures Rewriting(Feed(History(), s, dictid, c), snapshot, again)
  {
    hide Layout, Replay;
    var t := Feed(History(), s, dictid, c);
    assert Layout(t) by { LayoutFrame(s, t); }
    FeedReplay(History(), s, dictid, c, Replay(History(), At(snapshot, 0), s.disk.files[s.fd].entries));
    assert t.mem == s.mem + [(dictid, c)];
    assert t.mem[|snapshot|..] == s.mem[|snapshot|..] + [(dictid, c)];
  }

  lemma LayoutFrame<D, C>(s: Server<D, C>, t: Server<D, C>)
    requires Layout(s) && t.man == s.man && t.fd == s.fd && t.disk == s.disk
    ensures Layout(t)
  {
  }

  lemma FlushRewriting<C>(s: Server<Past<C>, C>, snapshot: Past<C>, again: Past<C>, n: nat)
    requires Rewriting(s, snapshot, again) && n <= |s.buf|
    ensures Rewriting(Flush(s, n), snapshot, again)
  {
    hide Layout, Replay;
    FlushLayout(s, n);
    FlushReplay(History(), At(snapshot, 0), s.disk.files[s.fd].entries, s.buf, n);
  }

  lemma MeanwhileKeeps<C>(s: Server<Past<C>, C>, snapshot: Past<C>, again: Past<C>, op: Op<C>,
      t: Server<Past<C>, C>)
    requires Rewriting(s, snapshot, again) && Meanwhile(History(), s, op, t)
    ensures Rewriting(t, snapshot, again)
  {
    hide Layout, Replay, DelHistory, Flush, Feed;
    match op
    case DoFeed(dictid, c) => FeedRewriting(s, snapshot, again, dictid, c);
    case DoFlush(n) => FlushRewriting(s, snapshot, again, n);
    case DoDelHistory(gcDisabled, gone, p) => DelHistoryLayout(History(), s, gcDisabled, gone, p);
    case DoRewriteStart(_, _, _) =>
  }

  lemma {:induction false} RewriteKeeps<C>(s: Server<Past<C>, C>, n: nat, o: Opening, run: seq<Server<Past<C>, C>>,
      ops: seq<Op<C>>, i: nat)
    requires IsRewrite(s, n, o, run, ops) && i < |run|
    ensures Rewriting(run[i], s.mem, Again(s.buf[n..]))
  {
    hide Rewriting, Meanwhile, Layout;
    if i == 0 {
      StartRewriting(s, n, o);
    } else {
      RewriteKeeps(s, n, o, run, ops, i - 1);
      assert MeanwhileAt(run, ops, i - 1);
      MeanwhileKeeps(run[i - 1], s.mem, Again(s.buf[n..]), ops[i - 1], run[i]);
    }
  }

  /** Committing a rewrite: what a restart then loads is the snapshot and the open file. */
  lemma SnapshotIsLoaded<D, C>(sem: Semantics<D, C>, s: Server<D, C>, f: Finish)
    requires Layout(s) && s.child.Some? && f.exitedOk && f.renamed && f.persisted.Installed?
    ensures s.fd in s.disk.files && s.disk.files[s.fd].Log?
    ensures var u := RewriteDone(s, f);
            && Layout(u) && u == s.(child := None, man := u.man, disk := u.disk)
            && LoadFiles(sem, u.disk.files, u.man)
               == LoadDisk(sem, u.disk)
               == Some(Replay(sem, At(s.child.value, 0), s.disk.files[s.fd].entries))
  {
    hide Layout, LoadFiles, Replay, MarkRewritten, NewBase, DelHistory;
    var temp := MarkRewritten(NewBase(s.man));
    var files := s.disk.files[BaseName(s.man.currBase + 1) := Snapshot(s.child.value)];
    CommitLayout(sem, s, temp, files);
    var t := s.(child := None, man := temp.(dirty := false), disk := Disk(files, Some(Lines(temp))));
    NextBase(s.man);
    DelHistoryLayout(sem, t, f.gcDisabled, f.gone, f.historyPersisted);
    DiskIsFiles(sem, RewriteDone(s, f));
  }

  lemma NextBase(m: Manifest)
    ensures NewBase(m).currBase == m.currBase + 1
  {
  }

  /** The forced flush may fail and leave commands in the buffer, and the code switches
      files and forks regardless. The snapshot already contains those commands, and the new
      INCR file will hold them again. Once the rewrite commits, whatever was executed,
      flushed and deleted in the meantime, a restart finds the snapshot, the left-over
      commands a second time, and then what was executed since: it is right, and the
      invariant holds again, exactly when no command was left over. */
  lemma RewriteNeedsEmptyBuffer<C>(s: Server<Past<C>, C>, n: nat, o: Opening, run: seq<Server<Past<C>, C>>,
      ops: seq<Op<C>>, f: Finish)
    requires IsRewrite(s, n, o, run, ops)
    requires f.exitedOk && f.renamed && f.persisted.Installed?
    ensures run[|ops|].child.Some? && LoadDisk(History(), RewriteDone(run[|ops|], f).disk).Some?
    ensures var u := RewriteDone(run[|ops|], f);
            var loaded := Replay(History(), LoadDisk(History(), u.disk).value, u.buf).data;
            && s.mem <= u.mem && loaded == s.mem + Again(s.buf[n..]) + u.mem[|s.mem|..]
            && (loaded == u.mem <==> Commands(s.buf[n..]) == 0)
            && (Inv(History(), u) <==> Commands(s.buf[n..]) == 0)
  {
    hide Layout, LoadFiles, Replay, RewriteDone, IsRewrite;
    RewriteLength(s, n, o, run, ops);
    var t := run[|ops|];
    var left := s.buf[n..];
    RewriteKeeps(s, n, o, run, ops, |ops|);
    SnapshotIsLoaded(History(), t, f);
    ReplayAdds([], 0, left);
    if Commands(left) == 0 {
      assert s.mem + [] + t.mem[|s.mem|..] == t.mem;
    }
  }

  lemma RewriteLength<C>(s: Server<Past<C>, C>, n: nat, o: Opening, run: seq<Server<Past<C>, C>>, ops: seq<Op<C>>)
    requires IsRewrite(s, n, o, run, ops)
    ensures |run| == |ops| + 1 && n <= |s.buf|
  {
  }

  /** A SELECT is among the entries. */
  ghost predicate HasSelect<C>(log: seq<Entry<C>>) {
    exists i :: 0 <= i < |log| && log[i].Select?
  }

  /** No command that runs in the selected database comes before the first SELECT. */
  ghost predicate SelectsFirst<C>(log: seq<Entry<C>>) {
    forall i :: 0 <= i < |log| && log[i].Run? ==> HasSelect(log[..i])
  }

  lemma SelectsFirstStep<C>(log: seq<Entry<C>>)
    requires log != []
    ensures var e, init := log[|log| - 1], log[..|log| - 1];
            && (HasSelect(log) <==> HasSelect(init) || e.Select?)
            && (SelectsFirst(log) <==> SelectsFirst(init) && (e.Run? ==> HasSelect(init)))
  {
    var init := log[..|log| - 1];
    assert forall i :: 0 <= i < |init| ==> init[i] == log[i];
    assert forall i :: 0 <= i <= |init| ==> log[..i] == init[..i];
    if log[|log| - 1].Select? {
      assert log[|log| - 1].Select?;
    }
    if HasSelect(log) && !log[|log| - 1].Select? {
      var i :| 0 <= i < |log| && log[i].Select?;
      assert init[i].Select?;
    }
    if HasSelect(init) {
      var i :| 0 <= i < |init| && init[i].Select?;
      assert log[i].Select?;
    }
    assert init[..|init|] == init;
  }

  /** The database a replay starts in shows exactly when a command runs before a SELECT. */
  lemma {:induction false} StartShows<C>(db: nat, log: seq<Entry<C>>)
    ensures var a, b := Replay(History(), At([], 0), log), Replay(History(), At([], db), log);
            && (a.data == b.data <==> db == 0 || SelectsFirst(log))
            && (a.db == b.db <==> db == 0 || HasSelect(log))
  {
    hide HasSelect, SelectsFirst;
    if log == [] {
      assert SelectsFirst(log) && !HasSelect(log) by { NoSelect(log); }
    } else {
      var init := log[..|log| - 1];
      StartShows(db, init);
      SelectsFirstStep(log);
      ReplayAdds([], 0, init);
      ReplayAdds([], db, init);
      var a, b := Replay(History(), At([], 0), init), Replay(History(), At([], db), init);
      match log[|log| - 1]
      case Select(_) =>
      case Run(c) => LastDecides(a.data, (Some(a.db), c), b.data, (Some(b.db), c));
      case RunAny(c) => LastDecides(a.data, (None, c), b.data, (None, c));
    }
  }

  lemma NoSelect<C>(log: seq<Entry<C>>)
    requires log == []
    ensures SelectsFirst(log) && !HasSelect(log)
  {
  }

  lemma LastDecides<T>(a: seq<T>, x: T, b: seq<T>, y: T)
    requires |a| == |b|
    ensures a + [x] == b + [y] <==> a == b && x == y
  {
    assert (a + [x])[..|a|] == a && (b + [y])[..|b|] == b;
    assert (a + [x])[|a|] == x && (b + [y])[|b|] == y;
  }

  /** Opening the next INCR file: what a restart loads, with database 0 selected. */
  lemma OpenLoads<D, C>(sem: Semantics<D, C>, s: Server<D, C>, o: Opening)
    requires Layout(s) && o.Succeeds() && LoadFiles(sem, s.disk.files, s.man).Some?
    ensures var t := OpenNewIncr(s, o);
            Layout(t) && t.buf == s.buf && t.mem == s.mem
            && LoadDisk(sem, t.disk) == Some(At(LoadFiles(sem, s.disk.files, s.man).value.data, 0))
  {
    hide OnDisk, LoadFiles;
    var t := OpenNewIncr(s, o);
    var n := |s.man.incr|;
    var g := t.disk.files;
    OpenLayout(s, o);
    NextManifest(s.man);
    DiskIsFiles(sem, t);
    LoadFilesFrame(sem, s.disk.files, g, s.man, s.man);
    LoadIncrsPrefix(sem, g, g[t.man.base.value.name].data, s.man.incr, [t.man.incr[n]], n);
    LoadLast(sem, g, t.man);
    BaseAndIncrs(sem, g, s.man);
  }

  lemma BaseAndIncrs<D, C>(sem: Semantics<D, C>, files: map<Name, Content<D, C>>, m: Manifest)
    requires m.base.Some? && FilesPresent(files, m)
    ensures LoadFiles(sem, files, m) == LoadIncrs(sem, files, files[m.base.value.name].data, m.incr, |m.incr|)
  {
  }

  /** Until the rewrite commits, the switch itself already matters: the left-over entries now
      go to a file that is replayed from database 0, and the SELECT they rely on is in the
      file before it. A restart is right exactly when they select before they run a command,
      or the database selected in front of them is 0. */
  lemma SwitchNeedsSelect<C>(s: Server<Past<C>, C>, n: nat, o: Opening, forked: bool)
    requires Inv(History(), s) && s.child.None? && n <= |s.buf| && o.Succeeds()
    ensures s.fd in s.disk.files && s.disk.files[s.fd].Log? && LoadDisk(History(), s.disk).Some?
    ensures var t := RewriteStart(s, n, o, forked);
            && LoadDisk(History(), t.disk).Some?
            && (Replay(History(), LoadDisk(History(), t.disk).value, t.buf).data == t.mem
                <==> Replay(History(), LoadDisk(History(), s.disk).value, s.buf[..n]).db == 0
                     || SelectsFirst(s.buf[n..]))
  {
    hide Layout, LoadFiles, Replay, SelectsFirst, OpenNewIncr, LoadDisk;
    var idle := s.(selectedDb := None);
    var left := s.buf[n..];
    OpenFileExists(s);
    LayoutFrame(s, idle);
    DiskIsFiles(History(), s);
    FlushLayout(idle, n);
    var a := LoadFiles(History(), s.disk.files, s.man).value;
    FlushLoads(History(), idle, n);
    OpenLoads(History(), Flush(idle, n), o);
    var b := Replay(History(), a, s.buf[..n]);
    ReplayAppend(History(), a, s.buf[..n], left);
    assert s.buf == s.buf[..n] + left;
    ReplayAdds(b.data, b.db, left);
    ReplayAdds(b.data, 0, left);
    StartShows(b.db, left);
    var x, y := Replay(History(), At([], 0), left).data, Replay(History(), At([], b.db), left).data;
    assert (b.data + x)[|b.data|..] == x && (b.data + y)[|b.data|..] == y;
  }

  /** The files after a flush hold what they held and then the entries written. */
  lemma FlushLoads<D, C>(sem: Semantics<D, C>, s: Server<D, C>, n: nat)
    requires Layout(s) && LoadFiles(sem, s.disk.files, s.man).Some? && n <= |s.buf|
    ensures s.fd in s.disk.files && s.disk.files[s.fd].Log?
    ensures LoadFiles(sem, Flush(s, n).disk.files, s.man)
         == Some(Replay(sem, LoadFiles(sem, s.disk.files, s.man).value, s.buf[..n]))
  {
    hide OnDisk, LoadFiles, Replay;
    var f := s.disk.files;
    var last := |s.man.incr| - 1;
    assert s.man.incr[last].name == s.fd;
    FlushLayout(s, n);
    var g := Flush(s, n).disk.files;
    LoadLast(sem, f, s.man);
    LoadLast(sem, g, s.man);
    LoadIncrsFrame(sem, f, g, f[s.man.base.value.name].data, s.man.incr, last);
    var before := LoadIncrs(sem, f, f[s.man.base.value.name].data, s.man.incr, last).value;
    ReplayAppend(sem, At(before.data, 0), f[s.fd].entries, s.buf[..n]);
  }

  // ----- A manifest that is in place but was reported as failed -----------------------------

  /** When the new manifest is renamed into place but reported as failed, the done handler
      removes the BASE file that the installed manifest names: a restart then fails exactly
      when that removal succeeds. */
  lemma FailedReportNeedsNoUnlink<D, C>(sem: Semantics<D, C>, s: Server<D, C>, f: Finish)
    requires Inv(sem, s) && s.child.Some?
    requires f.exitedOk && f.renamed && f.persisted.InstalledButFailed?
    ensures var r := LoadDisk(sem, RewriteDone(s, f).disk);
            && (r.None? <==> f.unlinked)
            && (!f.unlinked ==> Replay(sem, r.value, s.buf).data == s.mem)
  {
    var temp := MarkRewritten(NewBase(s.man));
    var name := BaseName(s.man.currBase + 1);
    var files := s.disk.files[name := Snapshot(s.child.value)];
    RewrittenManifest(s.man);
    assert Lines(temp) == Lines(temp.(history := temp.history));
    ManifestRoundTrip(temp, Lines(temp));
    CommitKeeps(sem, s, temp, files);
    DiskIsFiles(sem, s.(child := None, man := temp.(dirty := false), disk := Disk(files, Some(Lines(temp)))));
  }

  /** The same failure while opening an INCR file is harmless: the installed manifest names
      one more file, which is empty. */
  lemma FailedReportOnOpenIsHarmless<D, C>(sem: Semantics<D, C>, s: Server<D, C>, o: Opening)
    requires Inv(sem, s) && o.created && o.persisted.InstalledButFailed?
    ensures var r := LoadDisk(sem, OpenNewIncr(s, o).disk);
            r.Some? && LoadDisk(sem, s.disk).Some? && r.value.data == LoadDisk(sem, s.disk).value.data
  {
    hide LoadManifest, AllOld;
    var m := NewIncr(s.man);
    var g := s.disk.files[IncrName(m.currIncr) := Log([])];
    NextManifest(s.man);
    var n := |s.man.incr|;
    var w := m.(dirty := false);
    assert Lines(m) == Lines(w.(history := m.history));
    assert OnDisk(w, Lines(m));
    ManifestRoundTrip(w, Lines(m));
    DiskIsFiles(sem, s);
    LoadFilesFrame(sem, s.disk.files, g, s.man, s.man);
    LoadFilesFrame(sem, g, g, w, LoadManifest(Lines(m)).m);
    LoadIncrsPrefix(sem, g, g[m.base.value.name].data, s.man.incr, [m.incr[n]], n);
    LoadLast(sem, g, w);
  }
}
