/** What every step of the persistence protocol keeps, and what follows for every run. */
module AofInvariant {
  import opened Options
  import opened AofStore

  /** A manifest as this server builds it: one BASE file, at least one INCR file, sequence
      numbers strictly increasing, and every HISTORY name older than the names in use. */
  ghost predicate GoodManifest(m: Manifest) {
    && m.base == Some(Info(BaseName(m.currBase), m.currBase, Base)) && m.currBase > 0
    && m.incr != []
    && (forall i :: 0 <= i < |m.incr| ==> m.incr[i] == Info(IncrName(m.incr[i].fileSeq), m.incr[i].fileSeq, Incr))
    && (forall i :: 0 <= i < |m.incr| ==> m.incr[i].fileSeq > 0)
    && (forall i, j :: 0 <= i < j < |m.incr| ==> m.incr[i].fileSeq < m.incr[j].fileSeq)
    && m.incr[|m.incr| - 1].fileSeq == m.currIncr
    && AllOld(m, m.history)
  }

  ghost predicate AllOld(m: Manifest, h: seq<Info>)
    requires m.incr != []
  {
    forall i :: 0 <= i < |h| ==> OldInfo(m, h[i])
  }

  ghost predicate OldInfo(m: Manifest, ai: Info)
    requires m.incr != []
  {
    && ai.kind == Hist && ai.fileSeq > 0
    && match ai.name
       case BaseName(n) => n < m.currBase
       case IncrName(n) => n < m.incr[0].fileSeq
  }

  /** The manifest file: BASE, then any HISTORY lines, then the INCR files in use. */
  ghost predicate OnDisk(m: Manifest, lines: seq<Info>)
    requires m.incr != []
  {
    exists h: seq<Info> :: lines == Lines(m.(history := h)) && AllOld(m, h)
  }

  ghost predicate AllHistory(h: seq<Info>) {
    forall i :: 0 <= i < |h| ==> h[i].kind == Hist && h[i].fileSeq > 0
  }

  /** Files named by the manifest exist and have the right content type. */
  ghost predicate FilesPresent<D, C>(files: map<Name, Content<D, C>>, m: Manifest)
    requires m.base.Some?
  {
    && m.base.value.name in files && files[m.base.value.name].Snapshot?
    && forall i :: 0 <= i < |m.incr| ==> m.incr[i].name in files && files[m.incr[i].name].Log?
  }

  /** The files named by the manifest, then the buffered entries, give the dataset. */
  ghost predicate Truth<D, C>(sem: Semantics<D, C>, s: Server<D, C>) {
    var a := LoadFiles(sem, s.disk.files, s.man);
    && a.Some?
    && Replay(sem, a.value, s.buf).data == s.mem
    && (s.selectedDb.Some? ==> Replay(sem, a.value, s.buf).db == s.selectedDb.value)
  }

  /** The snapshot a child is writing, then the open INCR file and the buffer, also give
      the dataset: this is what a successful rewrite will rely on. */
  ghost predicate ChildTruth<D, C>(sem: Semantics<D, C>, s: Server<D, C>) {
    s.child.Some? ==>
      && s.fd in s.disk.files && s.disk.files[s.fd].Log?
      && Replay(sem, Replay(sem, At(s.child.value, 0), s.disk.files[s.fd].entries), s.buf).data == s.mem
  }

  /** The manifest in memory is good, the one on disk names the same files, and they exist. */
  ghost predicate Layout<D, C>(s: Server<D, C>) {
    && GoodManifest(s.man)
    && s.fd == IncrName(s.man.currIncr)
    && s.disk.manifest.Some? && OnDisk(s.man, s.disk.manifest.value)
    && FilesPresent(s.disk.files, s.man)
  }

  ghost predicate Inv<D, C>(sem: Semantics<D, C>, s: Server<D, C>) {
    Layout(s) && Truth(sem, s) && ChildTruth(sem, s)
  }

  // ----- The manifest file reads back --------------------------------------------------

  lemma {:induction false} LoadHistory(base: Info, h: seq<Info>, incr: seq<Info>, n: nat)
    requires base.kind == Base && base.fileSeq > 0 && AllHistory(h) && n <= |h|
    ensures LoadLines([base] + h + incr, 1 + n)
         == Ok(EMPTY_MANIFEST.(base := Some(base), currBase := base.fileSeq, history := h[..n]))
  {
    var lines := [base] + h + incr;
    if n == 0 {
      assert LoadLines(lines, 0) == Ok(EMPTY_MANIFEST);
    } else {
      LoadHistory(base, h, incr, n - 1);
      assert lines[n] == h[n - 1];
      assert h[..n] == h[..n - 1] + [h[n - 1]];
    }
  }

  lemma {:induction false} LoadIncrLines(m: Manifest, h: seq<Info>, n: nat)
    requires GoodManifest(m) && AllHistory(h) && n <= |m.incr|
    ensures LoadLines(Lines(m.(history := h)), 1 + |h| + n)
         == Ok(Manifest(m.base, h, m.incr[..n], m.currBase, if n == 0 then 0 else m.incr[n - 1].fileSeq, false))
  {
    var lines := Lines(m.(history := h));
    if n == 0 {
      LoadHistory(m.base.value, h, m.incr, |h|);
      assert h[..|h|] == h;
    } else {
      LoadIncrLines(m, h, n - 1);
      assert lines[|h| + n] == m.incr[n - 1];
      assert m.incr[..n] == m.incr[..n - 1] + [m.incr[n - 1]];
    }
  }

  /** Neither the duplicate-BASE nor the monotonicity check fires on a manifest this server
      wrote, and the numbering resumes where it was. */
  lemma ManifestRoundTrip(m: Manifest, lines: seq<Info>)
    requires GoodManifest(m) && OnDisk(m, lines)
    ensures LoadManifest(lines).Ok?
    ensures var r := LoadManifest(lines).m;
            && r.base == m.base && r.incr == m.incr && r.currBase == m.currBase && r.currIncr == m.currIncr
            && !r.dirty && lines == Lines(m.(history := r.history)) && AllOld(m, r.history)
  {
    var h :| lines == Lines(m.(history := h)) && AllOld(m, h);
    LoadIncrLines(m, h, |m.incr|);
    assert m.incr[..|m.incr|] == m.incr;
  }

  // ----- Reading files -----------------------------------------------------------------

  lemma {:induction false} LoadIncrsFrame<D, C>(sem: Semantics<D, C>, f: map<Name, Content<D, C>>,
      g: map<Name, Content<D, C>>, start: D, incr: seq<Info>, n: nat)
    requires n <= |incr|
    requires forall i :: 0 <= i < n ==> incr[i].name in f && incr[i].name in g && f[incr[i].name] == g[incr[i].name]
    ensures LoadIncrs(sem, f, start, incr, n) == LoadIncrs(sem, g, start, incr, n)
  {
    if n > 0 {
      LoadIncrsFrame(sem, f, g, start, incr, n - 1);
    }
  }

  lemma {:induction false} LoadIncrsPrefix<D, C>(sem: Semantics<D, C>, f: map<Name, Content<D, C>>,
      start: D, incr: seq<Info>, more: seq<Info>, n: nat)
    requires n <= |incr|
    ensures LoadIncrs(sem, f, start, incr + more, n) == LoadIncrs(sem, f, start, incr, n)
  {
    if n > 0 {
      LoadIncrsPrefix(sem, f, start, incr, more, n - 1);
    }
  }

  /** Same BASE and INCR lists, same content of the files they name: same dataset. */
  lemma LoadFilesFrame<D, C>(sem: Semantics<D, C>, f: map<Name, Content<D, C>>, g: map<Name, Content<D, C>>,
      m: Manifest, w: Manifest)
    requires m.base.Some? && FilesPresent(f, m) && FilesPresent(g, m)
    requires m.base == w.base && m.incr == w.incr
    requires f[m.base.value.name] == g[m.base.value.name]
    requires forall i :: 0 <= i < |m.incr| ==> f[m.incr[i].name] == g[m.incr[i].name]
    ensures LoadFiles(sem, f, m) == LoadFiles(sem, g, w)
  {
    LoadIncrsFrame(sem, f, g, f[m.base.value.name].data, m.incr, |m.incr|);
  }

  /** A restart reads exactly what the running server's manifest names. */
  lemma DiskIsFiles<D, C>(sem: Semantics<D, C>, s: Server<D, C>)
    requires Layout(s)
    ensures LoadDisk(sem, s.disk) == LoadFiles(sem, s.disk.files, s.man)
  {
    ManifestRoundTrip(s.man, s.disk.manifest.value);
    LoadFilesFrame(sem, s.disk.files, s.disk.files, s.man, LoadManifest(s.disk.manifest.value).m);
  }

  /** The last INCR file is replayed last. */
  lemma LoadLast<D, C>(sem: Semantics<D, C>, files: map<Name, Content<D, C>>, m: Manifest)
    requires m.base.Some? && m.incr != [] && FilesPresent(files, m)
    ensures var n := |m.incr| - 1;
            var before := LoadIncrs(sem, files, files[m.base.value.name].data, m.incr, n);
            LoadFiles(sem, files, m) ==
              (if before.None? then None
               else Some(Replay(sem, At(before.value.data, 0), files[m.incr[n].name].entries)))
  {
  }

  // ----- Which manifests are accepted ------------------------------------------------------

  /** Numbers are positive, there is at most one BASE line, and the INCR lines are in order. */
  ghost predicate Acceptable(lines: seq<Info>) {
    && (forall i :: 0 <= i < |lines| ==> lines[i].fileSeq > 0)
    && (forall i, j :: 0 <= i < j < |lines| ==> !(lines[i].kind == Base && lines[j].kind == Base))
    && (forall i, j :: 0 <= i < j < |lines| && lines[i].kind == Incr && lines[j].kind == Incr ==>
          lines[i].fileSeq < lines[j].fileSeq)
  }

  /** The lines of one kind, in their order. */
  function OfKind(lines: seq<Info>, kind: Kind): (of: seq<Info>)
    ensures forall ai :: ai in of <==> ai in lines && ai.kind == kind
  {
    if lines == [] then []
    else
      var front, last := lines[..|lines| - 1], lines[|lines| - 1];
      assert lines == front + [last];
      OfKind(front, kind) + if last.kind == kind then [last] else []
  }

  /** A manifest is loaded exactly if it is acceptable, and then every line is in its place. */
  lemma LoadsExactlyIf(lines: seq<Info>)
    ensures LoadManifest(lines).Ok? <==> lines != [] && Acceptable(lines)
    ensures LoadManifest(lines).Ok? ==> Sorted(lines, LoadManifest(lines).m)
  {
    LoadedLines(lines, |lines|);
    assert lines[..|lines|] == lines;
  }

  ghost predicate Sorted(lines: seq<Info>, m: Manifest) {
    var bases := OfKind(lines, Base);
    && m.base == (if bases == [] then None else Some(bases[|bases| - 1]))
    && m.history == OfKind(lines, Hist) && m.incr == OfKind(lines, Incr)
    && m.currBase == (if bases == [] then 0 else bases[|bases| - 1].fileSeq)
    && m.currIncr == (if m.incr == [] then 0 else m.incr[|m.incr| - 1].fileSeq)
    && !m.dirty
  }

  lemma {:induction false} LoadedLines(lines: seq<Info>, n: nat)
    requires n <= |lines|
    ensures LoadLines(lines, n).Ok? <==> Acceptable(lines[..n])
    ensures LoadLines(lines, n).Ok? ==> Sorted(lines[..n], LoadLines(lines, n).m)
  {
    hide Acceptable, Sorted, OfKind, MayFollow;
    if n == 0 {
      NoLines(lines[..0]);
    } else {
      LoadedLines(lines, n - 1);
      assert lines[..n] == lines[..n - 1] + [lines[n - 1]];
      AcceptableSnoc(lines[..n - 1], lines[n - 1]);
      if LoadLines(lines, n - 1).Ok? {
        OneMoreLine(lines[..n - 1], lines[n - 1], LoadLines(lines, n - 1).m);
      }
    }
  }

  lemma NoLines(lines: seq<Info>)
    requires lines == []
    ensures Acceptable(lines) && Sorted(lines, EMPTY_MANIFEST)
  {
  }

  /** A last line that may follow `front`. */
  ghost predicate MayFollow(front: seq<Info>, ai: Info) {
    && ai.fileSeq > 0
    && (ai.kind == Base ==> forall l :: l in front ==> l.kind != Base)
    && (ai.kind == Incr ==> forall l :: l in front && l.kind == Incr ==> l.fileSeq < ai.fileSeq)
  }

  lemma AcceptableSnoc(front: seq<Info>, ai: Info)
    ensures Acceptable(front + [ai]) <==> Acceptable(front) && MayFollow(front, ai)
  {
    var lines := front + [ai];
    assert forall i :: 0 <= i < |front| ==> lines[i] == front[i];
    assert lines[|front|] == ai;
  }

  lemma OneMoreLine(front: seq<Info>, ai: Info, m: Manifest)
    requires Acceptable(front) && Sorted(front, m)
    ensures LoadLine(m, ai).Ok? <==> MayFollow(front, ai)
    ensures LoadLine(m, ai).Ok? ==> Sorted(front + [ai], LoadLine(m, ai).m)
  {
    hide *;
    LineAccepted(front, ai, m);
    if LoadLine(m, ai).Ok? {
      LinePlaced(front, ai, m);
    }
  }

  lemma LineAccepted(front: seq<Info>, ai: Info, m: Manifest)
    requires Acceptable(front) && Sorted(front, m)
    ensures LoadLine(m, ai).Ok? <==> MayFollow(front, ai)
  {
    hide Acceptable, OfKind;
    IncrsBelow(front);
    BasesAre(front);
  }

  lemma LinePlaced(front: seq<Info>, ai: Info, m: Manifest)
    requires Sorted(front, m) && LoadLine(m, ai).Ok?
    ensures Sorted(front + [ai], LoadLine(m, ai).m)
  {
    hide OfKind;
    LastLine(front, ai);
    assert OfKind(front, Base) + [] == OfKind(front, Base) && OfKind(front, Hist) + [] == OfKind(front, Hist);
    assert OfKind(front, Incr) + [] == OfKind(front, Incr);
  }

  lemma BasesAre(lines: seq<Info>)
    ensures OfKind(lines, Base) == [] <==> forall l :: l in lines ==> l.kind != Base
  {
    hide OfKind;
    var bases := OfKind(lines, Base);
    if bases != [] {
      assert bases[0] in bases;
    }
  }

  lemma LastLine(front: seq<Info>, ai: Info)
    ensures forall k :: OfKind(front + [ai], k) == OfKind(front, k) + if ai.kind == k then [ai] else []
  {
    assert (front + [ai])[..|front|] == front;
  }

  /** `of` is empty if there are no INCR lines, and ends with the largest of them otherwise. */
  ghost predicate EndsLargest(lines: seq<Info>, of: seq<Info>) {
    if of == [] then forall l :: l in lines ==> l.kind != Incr
    else
      && of[|of| - 1] in lines && of[|of| - 1].kind == Incr && of[|of| - 1].fileSeq > 0
      && forall l :: l in lines && l.kind == Incr ==> l.fileSeq <= of[|of| - 1].fileSeq
  }

  lemma {:induction false} IncrsBelow(lines: seq<Info>)
    requires Acceptable(lines)
    ensures EndsLargest(lines, OfKind(lines, Incr))
    decreases |lines|
  {
    hide Acceptable, EndsLargest, OfKind, MayFollow;
    if lines == [] {
      NoneLargest(lines);
    } else {
      var front, last := lines[..|lines| - 1], lines[|lines| - 1];
      assert lines == front + [last];
      AcceptableSnoc(front, last);
      IncrsBelow(front);
      LastLine(front, last);
      LargestSnoc(front, last, OfKind(front, Incr));
    }
  }

  lemma NoneLargest(lines: seq<Info>)
    requires lines == []
    ensures OfKind(lines, Incr) == [] && EndsLargest(lines, [])
  {
  }

  lemma LargestSnoc(front: seq<Info>, last: Info, of: seq<Info>)
    requires EndsLargest(front, of) && MayFollow(front, last)
    ensures EndsLargest(front + [last], of + if last.kind == Incr then [last] else [])
  {
    var lines := front + [last];
    assert forall l :: l in lines <==> l in front || l == last;
    assert of + [] == of;
  }

  /** And the files load exactly if every one that is named is there and of its type. */
  lemma {:induction false} IncrsLoadExactlyIf<D, C>(sem: Semantics<D, C>, files: map<Name, Content<D, C>>, start: D,
      incr: seq<Info>, n: nat)
    requires n <= |incr|
    ensures LoadIncrs(sem, files, start, incr, n).Some? <==>
      forall i :: 0 <= i < n ==> incr[i].name in files && files[incr[i].name].Log?
  {
    if n > 0 {
      IncrsLoadExactlyIf(sem, files, start, incr, n - 1);
    }
  }

  /** Every file that the manifest names to be loaded is there and of its type. */
  ghost predicate Complete<D, C>(files: map<Name, Content<D, C>>, m: Manifest) {
    && (m.base.Some? ==> m.base.value.name in files && files[m.base.value.name].Snapshot?)
    && forall i :: 0 <= i < |m.incr| ==> m.incr[i].name in files && files[m.incr[i].name].Log?
  }

  lemma FilesLoadExactlyIf<D, C>(sem: Semantics<D, C>, files: map<Name, Content<D, C>>, m: Manifest)
    ensures LoadFiles(sem, files, m).Some? <==> Complete(files, m)
  {
    if m.base.None? {
      IncrsLoadExactlyIf(sem, files, sem.empty, m.incr, |m.incr|);
    } else if m.base.value.name in files && files[m.base.value.name].Snapshot? {
      IncrsLoadExactlyIf(sem, files, files[m.base.value.name].data, m.incr, |m.incr|);
    }
  }

  /** The server starts exactly if there is no manifest, or it is acceptable and complete. */
  lemma BootsExactlyIf<D, C>(sem: Semantics<D, C>, disk: Disk<D, C>)
    ensures Boot(sem, disk).Some? <==>
      match disk.manifest
      case None => true
      case Some(lines) => LoadManifest(lines).Ok? && Complete(disk.files, LoadManifest(lines).m)
  {
    hide LoadManifest, Started, LoadFiles, Complete;
    if disk.manifest.Some? && LoadManifest(disk.manifest.value).Ok? {
      FilesLoadExactlyIf(sem, disk.files, LoadManifest(disk.manifest.value).m);
    }
  }

  /** What a start makes: an INCR file, if the manifest has none, and a BASE file too, if it has
      neither; then the longer manifest is saved. The open file is the last INCR file. */
  lemma StartMakes<D, C>(mem: D, m: Manifest, disk: Disk<D, C>)
    requires !m.dirty
    ensures var t := Started(mem, m, disk); var base, incr := m.currBase + 1, m.currIncr + 1;
      && t == Server(mem, t.man, t.fd, None, [], None, t.disk) && !t.man.dirty
      && t.man.incr == (if m.incr == [] then [Info(IncrName(incr), incr, Incr)] else m.incr)
      && t.fd == t.man.incr[|t.man.incr| - 1].name && t.fd in t.disk.files
      && t.man.base == (if m.base.None? && m.incr == [] then Some(Info(BaseName(base), base, Base)) else m.base)
      && (m.base.None? && m.incr == [] ==> t.disk.files[BaseName(base)] == Snapshot(mem))
      && t.man.history == m.history
      && t.disk.manifest == (if m.incr == [] then Some(Lines(t.man)) else disk.manifest)
  {
    var t := Started(mem, m, disk);
    assert Lines(t.man) == Lines(t.man.(dirty := true));
  }

  // ----- Steps ---------------------------------------------------------------------------

  lemma ReplayOne<D, C>(sem: Semantics<D, C>, a: At<D>, e: Entry<C>)
    ensures Replay(sem, a, [e]) == Step(sem, a, e)
  {
    assert [e][..0] == [];
    assert Replay(sem, a, []) == a;
  }

  /** What feeding adds to any replay: SELECT if needed, then the command in its database. */
  lemma FeedReplay<D, C>(sem: Semantics<D, C>, s: Server<D, C>, dictid: Option<nat>, c: C, a: At<D>)
    requires s.selectedDb.Some? ==> Replay(sem, a, s.buf).db == s.selectedDb.value
    ensures var b := Replay(sem, a, s.buf);
            var t := Feed(sem, s, dictid, c);
            && Replay(sem, a, t.buf).data ==
                 (if dictid.Some? then sem.apply(b.data, dictid.value, c) else sem.applyAny(b.data, c))
            && (t.selectedDb.Some? ==> Replay(sem, a, t.buf).db == t.selectedDb.value)
  {
    var b := Replay(sem, a, s.buf);
    match dictid
    case None =>
      ReplayAppend(sem, a, s.buf, [RunAny(c)]);
      ReplayOne(sem, b, RunAny(c));
    case Some(db) =>
      if s.selectedDb == Some(db) {
        assert s.buf + [] + [Run(c)] == s.buf + [Run(c)];
        ReplayAppend(sem, a, s.buf, [Run(c)]);
        ReplayOne(sem, b, Run(c));
      } else {
        ReplayAppend(sem, a, s.buf, [Select(db)]);
        ReplayOne(sem, b, Select(db));
        ReplayAppend(sem, a, s.buf + [Select(db)], [Run(c)]);
        ReplayOne(sem, b.(db := db), Run(c));
      }
  }

  lemma FeedKeeps<D, C>(sem: Semantics<D, C>, s: Server<D, C>, dictid: Option<nat>, c: C)
    requires Inv(sem, s)
    ensures Inv(sem, Feed(sem, s, dictid, c))
  {
    var t := Feed(sem, s, dictid, c);
    var a := LoadFiles(sem, s.disk.files, s.man).value;
    FeedReplay(sem, s, dictid, c, a);
    if s.child.Some? {
      var k := Replay(sem, At(s.child.value, 0), s.disk.files[s.fd].entries);
      ChildDb(sem, s);
      FeedReplay(sem, s, dictid, c, k);
    }
  }

  /** The child's log ends in the same database as the full load. */
  lemma ChildDb<D, C>(sem: Semantics<D, C>, s: Server<D, C>)
    requires GoodManifest(s.man) && FilesPresent(s.disk.files, s.man) && s.child.Some?
    requires s.fd == IncrName(s.man.currIncr) && LoadFiles(sem, s.disk.files, s.man).Some?
    ensures s.fd in s.disk.files && s.disk.files[s.fd].Log?
    ensures var k := Replay(sem, At(s.child.value, 0), s.disk.files[s.fd].entries);
            var a := LoadFiles(sem, s.disk.files, s.man).value;
            k.db == a.db && Replay(sem, k, s.buf).db == Replay(sem, a, s.buf).db
  {
    var n := |s.man.incr| - 1;
    assert s.man.incr[n].name == s.fd;
    LoadLast(sem, s.disk.files, s.man);
    var before := LoadIncrs(sem, s.disk.files, s.disk.files[s.man.base.value.name].data, s.man.incr, n).value;
    ReplayDb(sem, At(s.child.value, 0), At(before.data, 0), s.disk.files[s.fd].entries);
    ReplayDb(sem, Replay(sem, At(s.child.value, 0), s.disk.files[s.fd].entries),
             LoadFiles(sem, s.disk.files, s.man).value, s.buf);
  }

  lemma OpenFileExists<D, C>(s: Server<D, C>)
    requires Layout(s)
    ensures s.fd in s.disk.files && s.disk.files[s.fd].Log?
  {
    assert s.man.incr[|s.man.incr| - 1].name == s.fd;
  }

  lemma FlushKeeps<D, C>(sem: Semantics<D, C>, s: Server<D, C>, n: nat)
    requires Inv(sem, s) && n <= |s.buf|
    ensures s.fd in s.disk.files && s.disk.files[s.fd].Log?
    ensures Inv(sem, Flush(s, n))
  {
    var last := |s.man.incr| - 1;
    assert s.man.incr[last].name == s.fd;
    var t := Flush(s, n);
    var f, g := s.disk.files, t.disk.files;
    var base := f[s.man.base.value.name].data;
    LoadLast(sem, f, s.man);
    LoadLast(sem, g, s.man);
    LoadIncrsFrame(sem, f, g, base, s.man.incr, last);
    var before := LoadIncrs(sem, f, base, s.man.incr, last).value;
    FlushReplay(sem, At(before.data, 0), f[s.fd].entries, s.buf, n);
    if s.child.Some? {
      FlushReplay(sem, At(s.child.value, 0), f[s.fd].entries, s.buf, n);
    }
  }

  /** Moving a prefix of the buffer to the end of the file changes no replay. */
  lemma FlushReplay<D, C>(sem: Semantics<D, C>, a: At<D>, log: seq<Entry<C>>, buf: seq<Entry<C>>, n: nat)
    requires n <= |buf|
    ensures Replay(sem, Replay(sem, a, log + buf[..n]), buf[n..]) == Replay(sem, Replay(sem, a, log), buf)
  {
    ReplayAppend(sem, a, log, buf[..n]);
    ReplayAppend(sem, Replay(sem, a, log), buf[..n], buf[n..]);
    assert buf == buf[..n] + buf[n..];
  }

  /** Opening the next INCR file, with nothing left in the buffer. A failed attempt may
      leave an unused file behind; the next attempt truncates it. */
  lemma OpenKeeps<D, C>(sem: Semantics<D, C>, s: Server<D, C>, o: Opening)
    requires Inv(sem, s) && s.child.None? && s.selectedDb.None? && !o.persisted.InstalledButFailed?
    requires o.Succeeds() ==> s.buf == []
    ensures Inv(sem, OpenNewIncr(s, o))
  {
    if o.created {
      var name := IncrName(s.man.currIncr + 1);
      var g := s.disk.files[name := Log([])];
      LoadFilesFrame(sem, s.disk.files, g, s.man, s.man);
      if o.persisted.Installed? {
        SwitchKeeps(sem, s, g);
      }
    }
  }

  lemma NextManifest(m: Manifest)
    requires GoodManifest(m)
    ensures GoodManifest(NewIncr(m).(dirty := false))
    ensures NewIncr(m).incr == m.incr + [Info(IncrName(m.currIncr + 1), m.currIncr + 1, Incr)]
  {
    var w := NewIncr(m);
    assert forall i :: 0 <= i < |m.history| ==> OldInfo(w, m.history[i]);
  }

  lemma SwitchKeeps<D, C>(sem: Semantics<D, C>, s: Server<D, C>, g: map<Name, Content<D, C>>)
    requires Inv(sem, s) && s.child.None? && s.selectedDb.None? && s.buf == []
    requires g == s.disk.files[IncrName(s.man.currIncr + 1) := Log([])]
    requires LoadFiles(sem, g, s.man) == LoadFiles(sem, s.disk.files, s.man)
    ensures var m := NewIncr(s.man);
            Inv(sem, s.(man := m.(dirty := false), fd := IncrName(m.currIncr), disk := Disk(g, Some(Lines(m)))))
  {
    var m := NewIncr(s.man);
    var t := s.(man := m.(dirty := false), fd := IncrName(m.currIncr), disk := Disk(g, Some(Lines(m))));
    var n := |s.man.incr|;
    NextManifest(s.man);
    assert Lines(m) == Lines(t.man.(history := s.man.history));
    assert OnDisk(t.man, Lines(m));
    assert FilesPresent(g, t.man);
    LoadIncrsPrefix(sem, g, g[m.base.value.name].data, s.man.incr, [m.incr[n]], n);
    LoadLast(sem, g, t.man);
  }

  lemma RewriteStartKeeps<D, C>(sem: Semantics<D, C>, s: Server<D, C>, n: nat, o: Opening, forked: bool)
    requires Inv(sem, s) && n <= |s.buf| && !o.persisted.InstalledButFailed?
    requires o.Succeeds() ==> n == |s.buf|
    ensures s.fd in s.disk.files && s.disk.files[s.fd].Log?
    ensures Inv(sem, RewriteStart(s, n, o, forked))
  {
    var idle := s.(selectedDb := None);
    assert Inv(sem, idle);
    FlushKeeps(sem, idle, n);
    if s.child.None? {
      OpenKeeps(sem, Flush(idle, n), o);
    }
  }

  /** Deleting history, whatever of it succeeds, touches no file that is loaded or written. */
  lemma DelHistoryLayout<D, C>(sem: Semantics<D, C>, s: Server<D, C>, gcDisabled: bool, gone: set<Name>, p: Persist)
    requires Layout(s)
    ensures var t := DelHistory(s, gcDisabled, gone, p);
            && Layout(t) && t == s.(man := t.man, disk := t.disk)
            && LoadFiles(sem, t.disk.files, t.man) == LoadFiles(sem, s.disk.files, s.man)
            && s.fd in s.disk.files && s.fd in t.disk.files && t.disk.files[s.fd] == s.disk.files[s.fd]
  {
    hide LoadManifest;
    var t := DelHistory(s, gcDisabled, gone, p);
    OpenFileExists(s);
    if t != s {
      HistoryIsUnused(s.man);
      assert GoodManifest(t.man);
      assert FilesPresent(t.disk.files, t.man);
      LoadFilesFrame(sem, s.disk.files, t.disk.files, s.man, t.man);
      ManifestRoundTrip(s.man, s.disk.manifest.value);
      var h := if p.NotInstalled? then LoadManifest(s.disk.manifest.value).m.history else [];
      assert AllOld(t.man, h);
      assert Lines(t.man.(history := h)) == Lines(s.man.(history := h));
      assert OnDisk(t.man, t.disk.manifest.value);
      OpenFileExists(t);
    }
  }

  /** A file that the manifest names as history. */
  ghost predicate InHistory(m: Manifest, n: Name) {
    exists i :: 0 <= i < |m.history| && m.history[i].name == n
  }

  ghost predicate Named(m: Manifest, n: Name) {
    || (m.base.Some? && m.base.value.name == n)
    || (exists i :: 0 <= i < |m.incr| && m.incr[i].name == n)
    || InHistory(m, n)
  }

  /** A saved manifest reads back as it is. */
  lemma ReadsBack(m: Manifest)
    requires GoodManifest(m)
    ensures LoadManifest(Lines(m)) == Ok(m.(dirty := false))
  {
    hide LoadManifest;
    assert Lines(m) == Lines(m.(history := m.history));
    assert OnDisk(m, Lines(m));
    ManifestRoundTrip(m, Lines(m));
    var h := LoadManifest(Lines(m)).m.history;
    var base := [m.base.value];
    assert base + h + m.incr == base + m.history + m.incr;
    assert (base + h + m.incr)[1..|h| + 1] == h && (base + m.history + m.incr)[1..|h| + 1] == m.history;
  }

  /** What deleting history does when it is enabled: of the files, exactly those history names
      go whose unlink succeeds, and the manifest names no history any more, nor does the saved
      one. */
  lemma DelHistoryRemoves<D, C>(s: Server<D, C>, gcDisabled: bool, gone: set<Name>, p: Persist)
    requires Layout(s)
    ensures var t := DelHistory(s, gcDisabled, gone, p);
      if gcDisabled || s.man.history == [] then t == s
      else
        && (forall n :: n in t.disk.files <==> n in s.disk.files && !(InHistory(s.man, n) && n in gone))
        && (forall n :: n in t.disk.files ==> t.disk.files[n] == s.disk.files[n])
        && t.man == s.man.(history := [], dirty := !p.Installed?)
        && t.disk.manifest.Some?
        && (if p.NotInstalled? then t.disk.manifest == s.disk.manifest
            else LoadManifest(t.disk.manifest.value) == Ok(t.man.(dirty := false)))
  {
    hide LoadManifest, OnDisk;
    var t := DelHistory(s, gcDisabled, gone, p);
    if !gcDisabled && s.man.history != [] {
      var names := set i | 0 <= i < |s.man.history| :: s.man.history[i].name;
      assert forall n :: n in names <==> InHistory(s.man, n);
      ReadsBack(t.man);
    }
  }

  lemma DelHistoryKeeps<D, C>(sem: Semantics<D, C>, s: Server<D, C>, gcDisabled: bool, gone: set<Name>, p: Persist)
    requires Inv(sem, s)
    ensures Inv(sem, DelHistory(s, gcDisabled, gone, p))
  {
    hide Layout, DelHistory, LoadFiles, Replay;
    DelHistoryLayout(sem, s, gcDisabled, gone, p);
  }

  /** No HISTORY file, the only kind that is deleted, is named as BASE or INCR. */
  lemma HistoryIsUnused(m: Manifest)
    requires GoodManifest(m)
    ensures forall i :: 0 <= i < |m.history| ==> m.history[i].name != m.base.value.name
    ensures forall i, j :: 0 <= i < |m.history| && 0 <= j < |m.incr| ==> m.history[i].name != m.incr[j].name
  {
    forall i | 0 <= i < |m.history|
      ensures m.history[i].name != m.base.value.name
      ensures forall j :: 0 <= j < |m.incr| ==> m.history[i].name != m.incr[j].name
    {
      assert OldInfo(m, m.history[i]);
    }
  }

  lemma RewrittenManifest(m: Manifest)
    requires GoodManifest(m)
    ensures var w := MarkRewritten(NewBase(m));
            GoodManifest(w) && w.incr == [m.incr[|m.incr| - 1]] && w.currIncr == m.currIncr
  {
    var w := MarkRewritten(NewBase(m));
    var n := |m.incr| - 1;
    assert w.history == ToHistory(m.incr[..n]) + ([m.base.value.(kind := Hist)] + m.history);
    forall i | 0 <= i < |w.history| ensures OldInfo(w, w.history[i]) {
      if i > n {
        assert w.history[i] == m.history[i - n - 1];
        assert OldInfo(m, m.history[i - n - 1]);
      }
    }
  }

  lemma RewriteDoneKeeps<D, C>(sem: Semantics<D, C>, s: Server<D, C>, f: Finish)
    requires Inv(sem, s) && s.child.Some? && !f.persisted.InstalledButFailed?
    ensures Inv(sem, RewriteDone(s, f))
  {
    hide MarkRewritten, Lines;
    var idle := s.(child := None);
    if f.exitedOk && f.renamed {
      var temp := MarkRewritten(NewBase(s.man));
      var name := BaseName(s.man.currBase + 1);
      var files := s.disk.files[name := Snapshot(s.child.value)];
      if f.persisted.Installed? {
        CommitKeeps(sem, s, temp, files);
        var t := idle.(man := temp.(dirty := false), disk := Disk(files, Some(Lines(temp))));
        DelHistoryKeeps(sem, t, f.gcDisabled, f.gone, f.historyPersisted);
      } else {
        LoadFilesFrame(sem, s.disk.files, files, s.man, s.man);
        LoadFilesFrame(sem, s.disk.files, files - {name}, s.man, s.man);
        OpenFileExists(s);
      }
    }
  }

  /** Installing the manifest whose BASE is the child's snapshot: a restart then loads that
      snapshot and, on top of it, the open file. */
  lemma CommitLayout<D, C>(sem: Semantics<D, C>, s: Server<D, C>, temp: Manifest, files: map<Name, Content<D, C>>)
    requires Layout(s) && s.child.Some?
    requires temp == MarkRewritten(NewBase(s.man))
    requires files == s.disk.files[BaseName(s.man.currBase + 1) := Snapshot(s.child.value)]
    ensures Layout(s.(child := None, man := temp.(dirty := false), disk := Disk(files, Some(Lines(temp)))))
    ensures s.fd in s.disk.files && s.disk.files[s.fd].Log?
    ensures LoadFiles(sem, files, temp.(dirty := false))
         == Some(Replay(sem, At(s.child.value, 0), s.disk.files[s.fd].entries))
  {
    var t := s.(child := None, man := temp.(dirty := false), disk := Disk(files, Some(Lines(temp))));
    RewrittenManifest(s.man);
    assert Lines(temp) == Lines(t.man.(history := temp.history));
    assert OnDisk(t.man, t.disk.manifest.value);
    OpenFileExists(s);
    assert s.man.incr[|s.man.incr| - 1].name == s.fd;
    assert FilesPresent(files, t.man);
    LoadLast(sem, files, t.man);
    assert LoadIncrs(sem, files, s.child.value, t.man.incr, 0) == Some(At(s.child.value, 0));
  }

  /** A commit puts every file it replaces into history: all the old manifest names but the
      open INCR file. */
  lemma Replaced(m: Manifest, n: Name)
    requires GoodManifest(m)
    ensures InHistory(MarkRewritten(NewBase(m)), n) <==> Named(m, n) && n != m.incr[|m.incr| - 1].name
  {
    var w := MarkRewritten(NewBase(m));
    var k := |m.incr| - 1;
    HistoryIsUnused(m);
    assert w.history == ToHistory(m.incr[..k]) + ([m.base.value.(kind := Hist)] + m.history);
    if InHistory(w, n) {
      var i :| 0 <= i < |w.history| && w.history[i].name == n;
      if i < k {
        assert m.incr[i].name == n && m.incr[i].fileSeq < m.incr[k].fileSeq;
      } else if i > k {
        assert m.history[i - k - 1].name == n;
      }
    }
    if Named(m, n) && n != m.incr[k].name {
      ReplacedBack(m, n);
    }
  }

  lemma ReplacedBack(m: Manifest, n: Name)
    requires GoodManifest(m) && Named(m, n) && n != m.incr[|m.incr| - 1].name
    ensures InHistory(MarkRewritten(NewBase(m)), n)
  {
    var w := MarkRewritten(NewBase(m));
    var k := |m.incr| - 1;
    assert w.history == ToHistory(m.incr[..k]) + ([m.base.value.(kind := Hist)] + m.history);
    if m.base.value.name == n {
      assert w.history[k].name == n;
    } else if i :| 0 <= i < |m.incr| && m.incr[i].name == n {
      assert w.history[i].name == n;
    } else {
      var i :| 0 <= i < |m.history| && m.history[i].name == n;
      assert w.history[k + 1 + i].name == n;
    }
  }

  lemma CommitNames(m: Manifest)
    requires GoodManifest(m)
    ensures var w, n := MarkRewritten(NewBase(m)), m.currBase + 1;
      && NewBase(m).currBase == n && w.base == Some(Info(BaseName(n), n, Base))
      && w.incr == [m.incr[|m.incr| - 1]] && w.history != [] && !Named(m, BaseName(n))
      && m.incr[|m.incr| - 1].name == IncrName(m.currIncr)
  {
    RewrittenManifest(m);
    assert forall i :: 0 <= i < |m.history| ==> OldInfo(m, m.history[i]);
  }

  lemma SameHistory(m: Manifest, w: Manifest, n: Name)
    requires m.history == w.history
    ensures InHistory(m, n) <==> InHistory(w, n)
  {
  }

  /** What a committed rewrite leaves when every unlink succeeds: the new BASE file, which is the
      snapshot, the open INCR file, and files that no manifest named; a saved manifest names
      those two and nothing else. */
  lemma RewriteLeaves<D, C>(sem: Semantics<D, C>, s: Server<D, C>, f: Finish)
    requires Layout(s) && s.child.Some? && f.exitedOk && f.renamed && f.persisted.Installed?
    requires !f.gcDisabled && forall n :: n in s.disk.files ==> n in f.gone
    ensures var u := RewriteDone(s, f); var base := BaseName(s.man.currBase + 1);
      && s.fd in s.disk.files
      && (forall n :: n in u.disk.files <==> n == base || n == s.fd || (n in s.disk.files && !Named(s.man, n)))
      && u.disk.files[base] == Snapshot(s.child.value)
      && (forall n :: n in u.disk.files && n != base ==> u.disk.files[n] == s.disk.files[n])
      && u.man.base.Some? && u.man.base.value.name == base && |u.man.incr| == 1 && u.man.incr[0].name == s.fd
      && u.man.history == []
      && (!f.historyPersisted.NotInstalled? ==>
            u.disk.manifest.Some? && LoadManifest(u.disk.manifest.value) == Ok(u.man.(dirty := false)))
  {
    hide LoadManifest, LoadFiles, NewBase, MarkRewritten, Named, InHistory, DelHistory, Lines, GoodManifest, OnDisk,
      FilesPresent;
    var temp := MarkRewritten(NewBase(s.man));
    var base := BaseName(s.man.currBase + 1);
    var files := s.disk.files[base := Snapshot(s.child.value)];
    var t := s.(child := None, man := temp.(dirty := false), disk := Disk(files, Some(Lines(temp))));
    CommitLayout(sem, s, temp, files);
    CommitNames(s.man);
    forall n ensures InHistory(t.man, n) <==> Named(s.man, n) && n != s.fd {
      Replaced(s.man, n);
      SameHistory(temp, t.man, n);
    }
    DelHistoryRemoves(t, false, f.gone, f.historyPersisted);
  }

  /** What a rewrite that does not commit leaves: the server as it was, without the child, and of
      the files only the new BASE file, if it was renamed and not removed again. */
  lemma AbortLeaves<D, C>(s: Server<D, C>, f: Finish)
    requires s.child.Some? && !(f.exitedOk && f.renamed && f.persisted.Installed?)
    ensures var u := RewriteDone(s, f); var base := BaseName(s.man.currBase + 1); var made := f.exitedOk && f.renamed;
      && u == s.(child := None, disk := u.disk)
      && (forall n :: n != base ==> (n in u.disk.files <==> n in s.disk.files))
      && (forall n :: n != base && n in s.disk.files ==> u.disk.files[n] == s.disk.files[n])
      && (!made ==> u.disk.files == s.disk.files)
      && (made ==> if f.unlinked then base !in u.disk.files
                   else base in u.disk.files && u.disk.files[base] == Snapshot(s.child.value))
      && (!(made && f.persisted.InstalledButFailed?) ==> u.disk.manifest == s.disk.manifest)
  {
    hide MarkRewritten, Lines;
  }

  /** What starting a rewrite does: nothing while one is running; otherwise `n` entries go to
      the open file, and only if the next one could be opened and the fork succeeded is there
      a child, with the dataset of this moment. */
  lemma StartLeaves<D, C>(s: Server<D, C>, n: nat, o: Opening, forked: bool)
    requires n <= |s.buf| && s.fd in s.disk.files && s.disk.files[s.fd].Log? && s.fd == IncrName(s.man.currIncr)
    ensures s.child.Some? ==> RewriteStart(s, n, o, forked) == s
    ensures var t := RewriteStart(s, n, o, forked); var next := IncrName(s.man.currIncr + 1);
      s.child.None? ==>
        && t.mem == s.mem && t.buf == s.buf[n..] && t.selectedDb == None
        && t.child == (if o.Succeeds() && forked then Some(s.mem) else None)
        && t.fd == (if o.Succeeds() then next else s.fd)
        && t.disk.files.Keys == s.disk.files.Keys + (if o.created then {next} else {})
        && t.disk.files[s.fd] == Log(s.disk.files[s.fd].entries + s.buf[..n])
        && (o.created ==> t.disk.files[next] == Log([]))
        && (forall m :: m in s.disk.files && m != s.fd && m != next ==> t.disk.files[m] == s.disk.files[m])
        && (if o.Succeeds() then
              t.man.incr == s.man.incr + [Info(next, s.man.currIncr + 1, Incr)] && t.disk.manifest == Some(Lines(t.man))
            else t.man == s.man)
        && (!o.created || o.persisted.NotInstalled? ==> t.disk.manifest == s.disk.manifest)
  {
    if s.child.None? && o.Succeeds() {
      var t := RewriteStart(s, n, o, forked);
      assert Lines(NewIncr(s.man)) == Lines(t.man);
    }
  }

  lemma CommitKeeps<D, C>(sem: Semantics<D, C>, s: Server<D, C>, temp: Manifest, files: map<Name, Content<D, C>>)
    requires Inv(sem, s) && s.child.Some?
    requires temp == MarkRewritten(NewBase(s.man))
    requires files == s.disk.files[BaseName(s.man.currBase + 1) := Snapshot(s.child.value)]
    ensures Inv(sem, s.(child := None, man := temp.(dirty := false), disk := Disk(files, Some(Lines(temp)))))
  {
    CommitLayout(sem, s, temp, files);
    ChildDb(sem, s);
  }

  /** A restart finds the dataset the files hold; only buffered entries are lost. */
  lemma BootKeeps<D, C>(sem: Semantics<D, C>, s: Server<D, C>)
    requires Layout(s) && LoadFiles(sem, s.disk.files, s.man).Some?
    ensures Boot(sem, s.disk).Some?
    ensures var t := Boot(sem, s.disk).value;
            && Inv(sem, t)
            && t.mem == LoadFiles(sem, s.disk.files, s.man).value.data
            && t.man.base == s.man.base && t.man.incr == s.man.incr && t.fd == s.fd
            && t.man.currBase == s.man.currBase && t.man.currIncr == s.man.currIncr
            && t.disk == s.disk
  {
    var lines := s.disk.manifest.value;
    DiskIsFiles(sem, s);
    ManifestRoundTrip(s.man, lines);
    var h := LoadManifest(lines).m.history;
    var t := Boot(sem, s.disk).value;
    LoadFilesFrame(sem, s.disk.files, s.disk.files, s.man, t.man);
    assert AllOld(t.man, h);
    assert Lines(t.man.(history := h)) == lines;
  }

  /** Where the replay of the open file starts. */
  ghost function BeforeOpenFile<D, C>(sem: Semantics<D, C>, s: Server<D, C>): (a: At<D>)
    requires Layout(s) && LoadFiles(sem, s.disk.files, s.man).Some?
    ensures s.fd in s.disk.files && s.disk.files[s.fd].Log?
    ensures LoadFiles(sem, s.disk.files, s.man) == Some(Replay(sem, a, s.disk.files[s.fd].entries))
  {
    var n := |s.man.incr| - 1;
    assert s.man.incr[n].name == s.fd;
    LoadLast(sem, s.disk.files, s.man);
    At(LoadIncrs(sem, s.disk.files, s.disk.files[s.man.base.value.name].data, s.man.incr, n).value.data, 0)
  }

  lemma CutLayout<D, C>(sem: Semantics<D, C>, s: Server<D, C>, n: nat)
    requires Layout(s) && LoadFiles(sem, s.disk.files, s.man).Some?
    requires s.fd in s.disk.files && s.disk.files[s.fd].Log? && n <= |s.disk.files[s.fd].entries|
    ensures Layout(s.(disk := Cut(s, n)))
    ensures LoadFiles(sem, Cut(s, n).files, s.man)
         == Some(Replay(sem, BeforeOpenFile(sem, s), s.disk.files[s.fd].entries[..n]))
  {
    hide OnDisk, LoadFiles, Replay;
    var f, g := s.disk.files, Cut(s, n).files;
    var last := |s.man.incr| - 1;
    assert s.man.incr[last].name == s.fd;
    LoadLast(sem, f, s.man);
    LoadLast(sem, g, s.man);
    LoadIncrsFrame(sem, f, g, f[s.man.base.value.name].data, s.man.incr, last);
  }

  /** A crash that also lost the end of the open file is a restart from the rest. */
  lemma CrashKeeps<D, C>(sem: Semantics<D, C>, s: Server<D, C>, n: nat)
    requires Inv(sem, s)
    requires s.fd in s.disk.files && s.disk.files[s.fd].Log? && n <= |s.disk.files[s.fd].entries|
    ensures Boot(sem, Cut(s, n)).Some?
    ensures var t := Boot(sem, Cut(s, n)).value;
            && Inv(sem, t) && t.disk == Cut(s, n) && LoadDisk(sem, t.disk).Some?
            && t.mem == LoadDisk(sem, t.disk).value.data
            && t.mem == Replay(sem, BeforeOpenFile(sem, s), s.disk.files[s.fd].entries[..n]).data
            && s.man.currBase == t.man.currBase && s.man.currIncr == t.man.currIncr
  {
    hide Layout, LoadFiles, Replay, Cut, Boot;
    var c := s.(disk := Cut(s, n));
    CutLayout(sem, s, n);
    BootKeeps(sem, c);
    DiskIsFiles(sem, c);
  }

  // ----- Runs ------------------------------------------------------------------------------

  datatype Op<+C> =
    | DoFeed(dictid: Option<nat>, c: C)
    | DoFlush(n: nat)
    | DoRewriteStart(n: nat, o: Opening, forked: bool)
    | DoRewriteDone(f: Finish)
    | DoDelHistory(gcDisabled: bool, gone: set<Name>, p: Persist)
    | DoCrash(kept: nat)

  /** One step of the server and its environment. A rewrite switches files only when the
      forced flush emptied the buffer, and a manifest write that is reported as failed has
      not replaced the file, except when deleting history, where either is harmless. */
  ghost predicate Steps<D, C>(sem: Semantics<D, C>, s: Server<D, C>, op: Op<C>, t: Server<D, C>) {
    match op
    case DoFeed(dictid, c) => t == Feed(sem, s, dictid, c)
    case DoFlush(n) => n <= |s.buf| && s.fd in s.disk.files && s.disk.files[s.fd].Log? && t == Flush(s, n)
    case DoRewriteStart(n, o, forked) =>
      && n <= |s.buf| && s.fd in s.disk.files && s.disk.files[s.fd].Log?
      && !o.persisted.InstalledButFailed? && (o.Succeeds() ==> n == |s.buf|)
      && t == RewriteStart(s, n, o, forked)
    case DoRewriteDone(f) => s.child.Some? && !f.persisted.InstalledButFailed? && t == RewriteDone(s, f)
    case DoDelHistory(gcDisabled, gone, p) => t == DelHistory(s, gcDisabled, gone, p)
    case DoCrash(n) =>
      && s.fd in s.disk.files && s.disk.files[s.fd].Log? && n <= |s.disk.files[s.fd].entries|
      && Boot(sem, Cut(s, n)) == Some(t)
  }

  /** A run starts on an empty directory. */
  ghost predicate IsRun<D, C>(sem: Semantics<D, C>, run: seq<Server<D, C>>, ops: seq<Op<C>>) {
    && |run| == |ops| + 1
    && Boot(sem, EmptyDisk()) == Some(run[0])
    && forall i :: 0 <= i < |ops| ==> StepAt(sem, run, ops, i)
  }

  ghost predicate StepAt<D, C>(sem: Semantics<D, C>, run: seq<Server<D, C>>, ops: seq<Op<C>>, i: nat)
    requires |run| == |ops| + 1 && i < |ops|
  {
    Steps(sem, run[i], ops[i], run[i + 1])
  }

  lemma StartManifest(m: Manifest)
    requires m == NewIncr(NewBase(EMPTY_MANIFEST)).(dirty := false)
    ensures GoodManifest(m) && Lines(m.(history := [])) == Lines(m)
    ensures m.incr == [Info(IncrName(1), 1, Incr)] && m.base == Some(Info(BaseName(1), 1, Base))
  {
  }

  /** The first start: an empty snapshot and an empty INCR file. */
  lemma StartState<D, C>(sem: Semantics<D, C>)
    ensures var m := NewIncr(NewBase(EMPTY_MANIFEST)).(dirty := false);
      var files: map<Name, Content<D, C>> := map[BaseName(1) := Snapshot(sem.empty), IncrName(1) := Log([])];
      Boot(sem, EmptyDisk<D, C>())
        == Some(Server(sem.empty, m, IncrName(1), None, [], None, Disk(files, Some(Lines(m)))))
  {
    hide LoadManifest, Lines;
    SameLines(NewIncr(NewBase(EMPTY_MANIFEST)));
  }

  lemma SameLines(m: Manifest)
    ensures Lines(m.(dirty := false)) == Lines(m)
  {
  }

  lemma StartKeeps<D, C>(sem: Semantics<D, C>)
    ensures Boot(sem, EmptyDisk<D, C>()).Some?
    ensures Inv(sem, Boot(sem, EmptyDisk<D, C>()).value)
  {
    hide Boot, Lines, NewIncr, NewBase, LoadFiles;
    StartState(sem);
    var t := Boot(sem, EmptyDisk<D, C>()).value;
    StartManifest(t.man);
    assert OnDisk(t.man, t.disk.manifest.value);
    LoadLast(sem, t.disk.files, t.man);
    assert LoadIncrs(sem, t.disk.files, sem.empty, t.man.incr, 0) == Some(At(sem.empty, 0));
  }

  lemma NumbersStay<D, C>(sem: Semantics<D, C>, s: Server<D, C>, op: Op<C>, t: Server<D, C>)
    requires Inv(sem, s) && Steps(sem, s, op, t)
    ensures s.man.currBase <= t.man.currBase && s.man.currIncr <= t.man.currIncr
  {
    hide LoadFiles, FilesPresent, Replay, Lines, LoadManifest;
    match op
    case DoRewriteDone(f) => RewriteDoneKeeps(sem, s, f);
    case DoCrash(n) => CrashKeeps(sem, s, n);
    case _ =>
  }

  lemma StepKeeps<D, C>(sem: Semantics<D, C>, s: Server<D, C>, op: Op<C>, t: Server<D, C>)
    requires Inv(sem, s) && Steps(sem, s, op, t)
    ensures Inv(sem, t)
    ensures s.man.currBase <= t.man.currBase && s.man.currIncr <= t.man.currIncr
  {
    hide Inv, Feed, Flush, RewriteStart, RewriteDone, DelHistory, Boot;
    NumbersStay(sem, s, op, t);
    match op
    case DoFeed(dictid, c) => FeedKeeps(sem, s, dictid, c);
    case DoFlush(n) => FlushKeeps(sem, s, n);
    case DoRewriteStart(n, o, forked) => RewriteStartKeeps(sem, s, n, o, forked);
    case DoRewriteDone(f) => RewriteDoneKeeps(sem, s, f);
    case DoDelHistory(gcDisabled, gone, p) => DelHistoryKeeps(sem, s, gcDisabled, gone, p);
    case DoCrash(n) => CrashKeeps(sem, s, n);
  }

  lemma {:induction false} RunKeeps<D, C>(sem: Semantics<D, C>, run: seq<Server<D, C>>, ops: seq<Op<C>>, i: nat)
    requires IsRun(sem, run, ops) && i < |run|
    ensures Inv(sem, run[i])
  {
    if i == 0 {
      StartKeeps(sem);
    } else {
      RunKeeps(sem, run, ops, i - 1);
      assert StepAt(sem, run, ops, i - 1);
      StepKeeps(sem, run[i - 1], ops[i - 1], run[i]);
    }
  }

  /** At every moment of every run a restart would load the files without an error and, with
      the buffered entries added, arrive at the dataset in memory; and a crash leaves
      exactly what the files held. */
  lemma DiskReplaysToTruth<D, C>(sem: Semantics<D, C>, run: seq<Server<D, C>>, ops: seq<Op<C>>, i: nat)
    requires IsRun(sem, run, ops) && i < |run|
    ensures LoadDisk(sem, run[i].disk).Some?
    ensures Replay(sem, LoadDisk(sem, run[i].disk).value, run[i].buf).data == run[i].mem
    ensures i < |ops| && ops[i].DoCrash? ==>
              LoadDisk(sem, run[i + 1].disk).Some? && run[i + 1].mem == LoadDisk(sem, run[i + 1].disk).value.data
    ensures run[i].disk.manifest.Some? && LoadManifest(run[i].disk.manifest.value).Ok?
  {
    RunKeeps(sem, run, ops, i);
    DiskIsFiles(sem, run[i]);
    ManifestRoundTrip(run[i].man, run[i].disk.manifest.value);
    if i < |ops| && ops[i].DoCrash? {
      assert StepAt(sem, run, ops, i);
      CrashKeeps(sem, run[i], ops[i].kept);
    }
  }

  /** The finest semantics: the dataset is the history of commands with their databases. */
  function History<C>(): Semantics<seq<(Option<nat>, C)>, C> {
    Semantics([], (d, db, c) => d + [(Some(db), c)], (d, c) => d + [(None, c)])
  }

  /** What is saved is the manifest in memory, unless that is marked as changed. */
  ghost predicate Saved<D, C>(s: Server<D, C>) {
    !s.man.dirty ==> s.disk.manifest.Some? && LoadManifest(s.disk.manifest.value) == Ok(s.man)
  }

  lemma StartSaves<D, C>(sem: Semantics<D, C>)
    ensures Saved(Boot(sem, EmptyDisk<D, C>()).value) && !Boot(sem, EmptyDisk<D, C>()).value.man.dirty
  {
    hide LoadManifest;
    StartKeeps(sem);
    ReadsBack(Boot(sem, EmptyDisk<D, C>()).value.man);
  }

  lemma RewriteSaves<D, C>(s: Server<D, C>, n: nat, o: Opening, forked: bool)
    requires Layout(s) && Saved(s)
    requires n <= |s.buf| && s.fd in s.disk.files && s.disk.files[s.fd].Log?
    ensures Saved(RewriteStart(s, n, o, forked)) || o.persisted.InstalledButFailed?
  {
    hide LoadManifest, Lines;
    if s.child.None? && o.Succeeds() {
      NextManifest(s.man);
      SameLines(NewIncr(s.man));
      ReadsBack(NewIncr(s.man).(dirty := false));
    }
  }

  lemma DelHistorySaves<D, C>(s: Server<D, C>, gcDisabled: bool, gone: set<Name>, p: Persist)
    requires Layout(s) && Saved(s)
    ensures Saved(DelHistory(s, gcDisabled, gone, p))
  {
    hide Layout, DelHistory, LoadManifest;
    DelHistoryRemoves(s, gcDisabled, gone, p);
  }

  lemma CommitSaves<D, C>(sem: Semantics<D, C>, s: Server<D, C>, f: Finish)
    requires Layout(s) && Saved(s) && s.child.Some? && !f.persisted.InstalledButFailed?
    ensures Saved(RewriteDone(s, f))
  {
    hide LoadManifest, NewBase, MarkRewritten, DelHistory, Lines, GoodManifest, OnDisk, FilesPresent;
    if f.exitedOk && f.renamed && f.persisted.Installed? {
      var temp := MarkRewritten(NewBase(s.man));
      var files := s.disk.files[BaseName(s.man.currBase + 1) := Snapshot(s.child.value)];
      var t := s.(child := None, man := temp.(dirty := false), disk := Disk(files, Some(Lines(temp))));
      CommitLayout(sem, s, temp, files);
      CommitNames(s.man);
      SameLines(temp);
      ReadsBack(t.man);
      DelHistorySaves(t, f.gcDisabled, f.gone, f.historyPersisted);
    }
  }

  /** The step that saves a manifest without history fails to do so. */
  ghost predicate FailsToSave<C>(op: Op<C>) {
    match op
    case DoRewriteDone(f) => !f.historyPersisted.Installed?
    case DoDelHistory(_, _, p) => !p.Installed?
    case _ => false
  }

  lemma OnlyFailuresDirty<D, C>(sem: Semantics<D, C>, s: Server<D, C>, op: Op<C>, t: Server<D, C>)
    requires Inv(sem, s) && Steps(sem, s, op, t) && !FailsToSave(op)
    ensures t.man.dirty ==> s.man.dirty
  {
    hide Layout, LoadFiles, Replay, NewBase, MarkRewritten, Lines, LoadManifest;
    if op.DoCrash? {
      CrashKeeps(sem, s, op.kept);
    }
  }

  lemma StepSaves<D, C>(sem: Semantics<D, C>, s: Server<D, C>, op: Op<C>, t: Server<D, C>)
    requires Inv(sem, s) && Saved(s) && Steps(sem, s, op, t)
    ensures Saved(t)
  {
    hide Layout, Saved, RewriteStart, RewriteDone, DelHistory, Boot, LoadFiles, Replay;
    match op
    case DoFeed(dictid, c) => SameManifest(s, t);
    case DoFlush(n) => SameManifest(s, t);
    case DoRewriteStart(n, o, forked) => RewriteSaves(s, n, o, forked);
    case DoRewriteDone(f) => CommitSaves(sem, s, f);
    case DoDelHistory(gcDisabled, gone, p) => DelHistorySaves(s, gcDisabled, gone, p);
    case DoCrash(n) => CrashSaves(sem, s, n);
  }

  lemma SameManifest<D, C>(s: Server<D, C>, t: Server<D, C>)
    requires Saved(s) && t.man == s.man && t.disk.manifest == s.disk.manifest
    ensures Saved(t)
  {
  }

  lemma CrashSaves<D, C>(sem: Semantics<D, C>, s: Server<D, C>, n: nat)
    requires Inv(sem, s)
    requires s.fd in s.disk.files && s.disk.files[s.fd].Log? && n <= |s.disk.files[s.fd].entries|
    ensures Boot(sem, Cut(s, n)).Some? && Saved(Boot(sem, Cut(s, n)).value)
  {
    hide LoadManifest, LoadFiles, Replay;
    CrashKeeps(sem, s, n);
    ManifestRoundTrip(s.man, s.disk.manifest.value);
  }

  /** In every run: what a restart would read is exactly the manifest in memory, unless that is
      marked as changed, which it is only after the saving of a shorter history has failed. */
  lemma {:induction false} SavedUnlessDirty<D, C>(sem: Semantics<D, C>, run: seq<Server<D, C>>, ops: seq<Op<C>>,
      i: nat)
    requires IsRun(sem, run, ops) && i < |run|
    ensures Saved(run[i])
    ensures (forall j :: 0 <= j < i ==> !FailsToSave(ops[j])) ==> !run[i].man.dirty
  {
    hide Saved, Inv, Steps, Boot, FailsToSave;
    if i == 0 {
      StartSaves(sem);
    } else {
      SavedUnlessDirty(sem, run, ops, i - 1);
      RunKeeps(sem, run, ops, i - 1);
      assert StepAt(sem, run, ops, i - 1);
      StepSaves(sem, run[i - 1], ops[i - 1], run[i]);
      if !FailsToSave(ops[i - 1]) {
        OnlyFailuresDirty(sem, run[i - 1], ops[i - 1], run[i]);
      }
    }
  }

  /** The commands fed by `ops`, each with the database it was fed for. */
  function Fed<C>(ops: seq<Op<C>>): seq<(Option<nat>, C)> {
    if ops == [] then []
    else
      var before := Fed(ops[..|ops| - 1]);
      match ops[|ops| - 1]
      case DoFeed(dictid, c) => before + [(dictid, c)]
      case _ => before
  }

  lemma {:induction false} HistoryIsFed<C>(run: seq<Server<seq<(Option<nat>, C)>, C>>, ops: seq<Op<C>>, i: nat)
    requires IsRun(History(), run, ops) && i < |run|
    requires forall j :: 0 <= j < i ==> !ops[j].DoCrash?
    ensures run[i].mem == Fed(ops[..i])
  {
    if i > 0 {
      HistoryIsFed(run, ops, i - 1);
      assert StepAt(History(), run, ops, i - 1);
      assert ops[..i][..i - 1] == ops[..i - 1];
    }
  }

  lemma {:induction false} ReplayExtends<C>(a: At<seq<(Option<nat>, C)>>, log: seq<Entry<C>>)
    ensures a.data <= Replay(History(), a, log).data
  {
    if log != [] {
      ReplayExtends(a, log[..|log| - 1]);
    }
  }

  /** Whatever a crash loses of the open file and the buffer, the commands that are left are
      the first ones, each in its database. */
  lemma CrashLosesASuffix<C>(run: seq<Server<seq<(Option<nat>, C)>, C>>, ops: seq<Op<C>>, i: nat)
    requires IsRun(History(), run, ops) && i < |ops| && ops[i].DoCrash?
    ensures run[i + 1].mem <= run[i].mem
  {
    hide Inv;
    RunKeeps(History(), run, ops, i);
    assert StepAt(History(), run, ops, i);
    CutKeepsAPrefix(run[i], ops[i].kept);
  }

  lemma CutKeepsAPrefix<C>(s: Server<seq<(Option<nat>, C)>, C>, n: nat)
    requires Inv(History(), s)
    requires s.fd in s.disk.files && s.disk.files[s.fd].Log? && n <= |s.disk.files[s.fd].entries|
    ensures Boot(History(), Cut(s, n)).Some? && Boot(History(), Cut(s, n)).value.mem <= s.mem
  {
    hide Layout, LoadFiles, Replay, Boot;
    CrashKeeps(History(), s, n);
    var a, log := BeforeOpenFile(History(), s), s.disk.files[s.fd].entries;
    assert log == log[..n] + log[n..];
    ReplayAppend(History(), a, log[..n], log[n..]);
    ReplayExtends(Replay(History(), a, log[..n]), log[n..]);
    ReplayExtends(Replay(History(), a, log), s.buf);
  }

  /** SELECT is written on every change and again in every new file: whatever the commands,
      their databases and the placement of rewrites, replaying each file from database 0
      runs every command, in order, in the database it was fed for. */
  lemma EveryCommandInItsDatabase<C>(run: seq<Server<seq<(Option<nat>, C)>, C>>, ops: seq<Op<C>>, i: nat)
    requires IsRun(History(), run, ops) && i < |run|
    requires forall j :: 0 <= j < i ==> !ops[j].DoCrash?
    ensures LoadDisk(History(), run[i].disk).Some?
    ensures Replay(History(), LoadDisk(History(), run[i].disk).value, run[i].buf).data == Fed(ops[..i])
  {
    DiskReplaysToTruth(History(), run, ops, i);
    HistoryIsFed(run, ops, i);
  }

  /** The sequence numbers of the manifest in memory never go back, in any run and across
      restarts. A number whose manifest was not saved is used again, and its file truncated. */
  lemma {:induction false} NumbersGrow<D, C>(sem: Semantics<D, C>, run: seq<Server<D, C>>, ops: seq<Op<C>>,
      i: nat, j: nat)
    requires IsRun(sem, run, ops) && i <= j < |run|
    ensures run[i].man.currBase <= run[j].man.currBase && run[i].man.currIncr <= run[j].man.currIncr
    decreases j
  {
    hide IsRun;
    if i < j {
      RunLength(sem, run, ops);
      NumbersGrow(sem, run, ops, i, j - 1);
      NumbersStep(sem, run, ops, j - 1);
    }
  }

  lemma RunLength<D, C>(sem: Semantics<D, C>, run: seq<Server<D, C>>, ops: seq<Op<C>>)
    requires IsRun(sem, run, ops)
    ensures |run| == |ops| + 1
  {
  }

  lemma NumbersStep<D, C>(sem: Semantics<D, C>, run: seq<Server<D, C>>, ops: seq<Op<C>>, i: nat)
    requires IsRun(sem, run, ops) && i < |ops|
    ensures run[i].man.currBase <= run[i + 1].man.currBase && run[i].man.currIncr <= run[i + 1].man.currIncr
  {
    hide Inv, Steps, Boot;
    RunKeeps(sem, run, ops, i);
    assert StepAt(sem, run, ops, i);
    StepKeeps(sem, run[i], ops[i], run[i + 1]);
  }
}
