/** The loading loop of loadSingleAppendOnlyFile, reading the file front to back and
    truncating it on a short read. */
module AofLoader {
  import opened Words
  import opened AofLog

  /** fgets: where the line that starts at `pos` ends. */
  method FGets(file: Bytes, pos: nat) returns (end: nat)
    requires pos <= |file|
    ensures end == pos + LineLen(file[pos..], LINE_MAX)
  {
    end := pos;
    while end < |file| && end - pos < LINE_MAX
      invariant pos <= end <= |file| && end - pos <= LINE_MAX
      invariant LineLen(file[pos..], LINE_MAX) == end - pos + LineLen(file[end..], LINE_MAX - (end - pos))
    {
      assert file[end..][1..] == file[end + 1..];
      end := end + 1;
      if file[end - 1] == LF {
        return;
      }
    }
  }

  /** One bulk string at `pos`: its header line, its bytes, and two bytes skipped unread. */
  method ReadArgument(file: Bytes, pos: nat) returns (o: ReadOne, next: nat)
    requires pos <= |file|
    ensures o == ReadArg(file[pos..])
    ensures next <= |file| && (o.Arg? ==> pos < next && o.rest == file[next..])
  {
    hide LineLen, ParseInt;
    next := pos;
    if pos == |file| {
      return Stop(ReadError(true)), pos;
    }
    ghost var r := file[pos..];
    var end := FGets(file, pos);
    if file[pos] != DOLLAR {
      return Stop(FormatError), pos;
    }
    assert r[1..end - pos] == file[pos + 1..end];
    assert r[end - pos..] == file[end..];
    var len := ParseInt(file[pos + 1..end]);
    if len < 0 {
      return Stop(Abort), pos;
    }
    if len > 0 && |file| - end < len {
      return Stop(ReadError(true)), pos;
    }
    if |file| - end < len + 2 {
      return Stop(ReadError(true)), pos;
    }
    next := end + len + 2;
    assert file[end..][..len] == file[end..end + len] && file[end..][len + 2..] == file[next..];
    o := Arg(file[end..end + len], file[next..]);
  }

  /** The argument loop: `argc` bulk strings from `start`. */
  method ReadArguments(file: Bytes, start: nat, argc: nat) returns (o: Read, pos: nat)
    requires start <= |file|
    ensures o == ReadArgs(file[start..], argc, [])
    ensures start <= pos <= |file|
    ensures o.Got? ==> o.rest == file[pos..]
    ensures !o.Eof? && !o.Skip?
  {
    hide ReadArg;
    var argv: Cmd := [];
    pos := start;
    for j := 0 to argc
      invariant start <= pos <= |file|
      invariant ReadArgs(file[pos..], argc - j, argv) == ReadArgs(file[start..], argc, [])
    {
      var arg, next := ReadArgument(file, pos);
      match arg {
        case Stop(why) =>
          o := if why.Skip? || why.Got? || why.Eof? then FormatError else why;
          StopReason(file[pos..]);
          return;
        case Arg(a, rest) =>
          argv := argv + [a];
          pos := next;
      }
    }
    o := Got(argv, file[pos..]);
  }

  lemma StopReason(r: Bytes)
    ensures ReadArg(r).Stop? ==> ReadArg(r).why.ReadError? || ReadArg(r).why.FormatError? || ReadArg(r).why.Abort?
  {
    hide LineLen, ParseInt;
  }

  /** The next thing in the file: an annotation, a whole command, or a reason to stop. */
  method ReadCommand(file: Bytes, pos: nat) returns (o: Read, next: nat)
    requires pos <= |file|
    ensures o == ReadNext(file[pos..])
    ensures pos <= next <= |file|
    ensures o.Skip? || o.Got? ==> pos < next && o.rest == file[next..]
  {
    hide LineLen, ParseInt, ReadArgs;
    next := pos;
    if pos == |file| {
      return Eof, pos;
    }
    ghost var r := file[pos..];
    var end := FGets(file, pos);
    assert r[end - pos..] == file[end..];
    if file[pos] == HASH {
      return Skip(file[end..]), end;
    }
    if file[pos] != STAR {
      return FormatError, pos;
    }
    if end - pos == 1 || file[pos + 1] == 0 {
      var eof := end == |file| && end - pos < LINE_MAX && file[end - 1] != LF;
      return ReadError(eof), pos;
    }
    assert r[1..end - pos] == file[pos + 1..end];
    var argc := ParseInt(file[pos + 1..end]);
    if argc < 1 {
      return FormatError, pos;
    }
    o, next := ReadArguments(file, end, argc);
  }

  /** loadSingleAppendOnlyFile with aof-load-truncated. `left` is the file afterwards. */
  method LoadSingle(kind: Cmd -> Kind, file: Bytes) returns (o: Outcome, left: Bytes)
    ensures o == LoadFile(kind, file)
    ensures left == if o.status.AofTruncated? && o.keep <= |file| then file[..o.keep] else file
  {
    hide ReadNext;
    var c := NEW_CLIENT;
    var pos := 0;
    left := file;
    assert file[0..] == file;
    while true
      invariant 0 <= pos <= |file| && left == file
      invariant c.pos == pos && c.validUpTo <= pos && c.validBeforeMulti <= pos
      invariant Load(kind, file[pos..], c) == LoadFile(kind, file)
      decreases |file| - pos
    {
      var cmd, next := ReadCommand(file, pos);
      match cmd {
        case Eof =>
          if c.multi {
            left := file[..c.validBeforeMulti];
            return Outcome(AofTruncated, c.executed, c.validBeforeMulti), left;
          }
          return Outcome(AofOk, c.executed, pos), file;
        case Skip(rest) =>
          c := c.(pos := next);
          pos := next;
        case Got(args, rest) =>
          if kind(args).Unknown? {
            return Outcome(AofFailed, c.executed, |file|), file;
          }
          c := RunCommand(kind, c, args, next - pos);
          pos := next;
        case ReadError(eof) =>
          if eof {
            left := file[..c.validUpTo];
            return Outcome(AofTruncated, c.executed, c.validUpTo), left;
          }
          return Outcome(AofFailed, c.executed, |file|), file;
        case FormatError =>
          return Outcome(AofFailed, c.executed, |file|), file;
        case Abort =>
          return Outcome(AofFailed, c.executed, |file|), file;
      }
    }
  }
}
