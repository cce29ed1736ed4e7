/** The append-only log at the level of bytes: the encoder of feedAppendOnlyFile and the
    loader of loadSingleAppendOnlyFile with its handling of a truncated tail. */
module AofLog {
  import opened Words

  type Bytes = seq<Byte>
  type Cmd = seq<Bytes>

  const CR: Byte := 13
  const LF: Byte := 10
  const STAR: Byte := 42
  const DOLLAR: Byte := 36
  const HASH: Byte := 35
  const CRLF: Bytes := [CR, LF]

  // ----- Encoder -------------------------------------------------------------------------

  /** ll2string for a non-negative number. */
  function Dec(n: nat): (s: Bytes)
    ensures s != [] && forall i :: 0 <= i < |s| ==> IsDigit(s[i])
    ensures n > 0 ==> s[0] != 48
  {
    if n < 10 then [48 + n] else Dec(n / 10) + [48 + n % 10]
  }

  predicate IsDigit(b: Byte) { 48 <= b <= 57 }

  function Header(tag: Byte, n: nat): Bytes {
    [tag] + Dec(n) + CRLF
  }

  function EncodeArg(a: Bytes): Bytes {
    Header(DOLLAR, |a|) + (a + CRLF)
  }

  function EncodeArgs(args: Cmd): Bytes {
    if args == [] then [] else EncodeArg(args[0]) + EncodeArgs(args[1..])
  }

  /** catAppendOnlyGenericCommand. */
  function EncodeCmd(args: Cmd): Bytes {
    Header(STAR, |args|) + EncodeArgs(args)
  }

  /** What the server writes: commands, and timestamp annotations "#TS:<unix time>". */
  datatype Item = Command(args: Cmd) | Timestamp(t: nat)

  function EncodeItem(it: Item): Bytes {
    match it
    case Command(args) => EncodeCmd(args)
    case Timestamp(t) => [HASH] + ([84, 83, 58] + Dec(t) + [CR]) + [LF]
  }

  function Encode(items: seq<Item>): Bytes {
    if items == [] then [] else EncodeItem(items[0]) + Encode(items[1..])
  }

  /** The C types bound the numbers: an int argc, size_t lengths, a 64-bit time. */
  predicate Fits(it: Item) {
    match it
    case Command(args) => 1 <= |args| < 0x8000_0000 && forall i :: 0 <= i < |args| ==> |args[i]| < 0x8000_0000_0000_0000
    case Timestamp(t) => t < 0x8000_0000_0000_0000
  }

  /** catAppendOnlyGenericCommand as a loop over the arguments. */
  method CatGenericCommand(dst: Bytes, args: Cmd) returns (r: Bytes)
    ensures r == dst + EncodeCmd(args)
  {
    r := dst + Header(STAR, |args|);
    var j := 0;
    while j < |args|
      invariant 0 <= j <= |args|
      invariant r + EncodeArgs(args[j..]) == dst + EncodeCmd(args)
    {
      var arg := args[j];
      assert EncodeArgs(args[j..]) == EncodeArg(arg) + EncodeArgs(args[j + 1..]) by {
        assert args[j..][1..] == args[j + 1..];
      }
      assert r + (EncodeArg(arg) + EncodeArgs(args[j + 1..])) == (r + EncodeArg(arg)) + EncodeArgs(args[j + 1..]);
      assert r + EncodeArg(arg) == r + Header(DOLLAR, |arg|) + arg + CRLF;
      r := r + Header(DOLLAR, |arg|);
      r := r + arg;
      r := r + CRLF;
      j := j + 1;
    }
    assert args[|args|..] == [];
  }

  // ----- Reading from the stream -----------------------------------------------------------

  const LINE_MAX: nat := 1023   // fgets with a buffer of AOF_ANNOTATION_LINE_MAX_LEN bytes

  /** Length of the line fgets returns: through the first newline, at most `max` bytes. */
  function LineLen(r: Bytes, max: nat): (n: nat)
    ensures n <= |r| && n <= max
    ensures r != [] && max > 0 ==> n > 0
  {
    if r == [] || max == 0 then 0 else if r[0] == LF then 1 else 1 + LineLen(r[1..], max - 1)
  }

  /** fgets ran into the end of the file while looking for a newline. */
  predicate HitEof(r: Bytes, n: nat)
    requires n <= |r|
  {
    n == |r| && n < LINE_MAX && (n == 0 || r[n - 1] != LF)
  }

  predicate IsSpace(b: Byte) { b == 32 || 9 <= b <= 13 }

  function SkipSpaces(s: Bytes): Bytes {
    if s != [] && IsSpace(s[0]) then SkipSpaces(s[1..]) else s
  }

  function ParseDigits(s: Bytes, acc: int): int {
    if s == [] || !IsDigit(s[0]) then acc else ParseDigits(s[1..], acc * 10 + (s[0] - 48))
  }

  /** atoi and strtol in base 10: spaces, a sign, then digits up to anything else. */
  function ParseInt(s: Bytes): int {
    var t := SkipSpaces(s);
    if t != [] && t[0] == 45 then -ParseDigits(t[1..], 0)
    else if t != [] && t[0] == 43 then ParseDigits(t[1..], 0)
    else ParseDigits(t, 0)
  }

  datatype Read =
    | Eof
    | Skip(rest: Bytes)                 // an annotation
    | Got(args: Cmd, rest: Bytes)       // a whole command
    | ReadError(eof: bool)              // goto readerr, with feof
    | FormatError                       // goto fmterr
    | Abort                             // an argument length no allocation can meet

  datatype ReadOne = Arg(arg: Bytes, rest: Bytes) | Stop(why: Read)

  function ReadArg(r: Bytes): (o: ReadOne)
    ensures o.Arg? ==> |o.rest| < |r|
  {
    if r == [] then Stop(ReadError(true))
    else
      var n := LineLen(r, LINE_MAX);
      if r[0] != DOLLAR then Stop(FormatError)
      else
        var len := ParseInt(r[1..n]);
        var body := r[n..];
        if len < 0 then Stop(Abort)
        else if len > 0 && |body| < len then Stop(ReadError(true))
        else if |body| < len + 2 then Stop(ReadError(true))
        else Arg(body[..len], body[len + 2..])
  }

  function ReadArgs(r: Bytes, argc: nat, sofar: Cmd): (o: Read)
    ensures o.Skip? || o.Got? ==> |o.rest| <= |r|
    decreases argc
  {
    if argc == 0 then Got(sofar, r)
    else
      match ReadArg(r)
      case Stop(why) => if why.Skip? || why.Got? then FormatError else why
      case Arg(a, rest) => ReadArgs(rest, argc - 1, sofar + [a])
  }

  /** One round of the loading loop, up to the command lookup. */
  function ReadNext(r: Bytes): (o: Read)
    ensures o.Skip? || o.Got? ==> |o.rest| < |r|
  {
    if r == [] then Eof
    else
      var n := LineLen(r, LINE_MAX);
      if r[0] == HASH then Skip(r[n..])
      else if r[0] != STAR then FormatError
      else if n == 1 || r[1] == 0 then ReadError(HitEof(r, n))
      else
        var argc := ParseInt(r[1..n]);
        if argc < 1 then FormatError else ReadArgs(r[n..], argc, [])
  }

  // ----- The loader ------------------------------------------------------------------------

  /** What the command table says of a command. */
  datatype Kind = Unknown | Multi | Exec | Other

  datatype Client = Client(
    executed: seq<Cmd>,
    multi: bool,               // CLIENT_MULTI
    queue: seq<Cmd>,
    pos: nat,                  // ftello
    validUpTo: nat,
    validBeforeMulti: nat)

  const NEW_CLIENT := Client([], false, [], 0, 0, 0)

  /** Run or queue one command and record the offset after it. */
  function RunCommand(kind: Cmd -> Kind, c: Client, args: Cmd, size: nat): Client {
    var k := kind(args);
    var before := if k.Multi? then c.validUpTo else c.validBeforeMulti;
    var c1 :=
      if c.multi && !k.Exec? then c.(queue := c.queue + [args])
      else
        match k
        case Multi => c.(multi := true, queue := [])
        case Exec => if c.multi then c.(executed := c.executed + c.queue, multi := false, queue := []) else c
        case _ => c.(executed := c.executed + [args]);
    c1.(pos := c.pos + size, validUpTo := c.pos + size, validBeforeMulti := before)
  }

  datatype Status = AofOk | AofTruncated | AofFailed

  /** The outcome, and how many bytes of the file are kept. */
  datatype Outcome = Outcome(status: Status, executed: seq<Cmd>, keep: nat)

  /** loadSingleAppendOnlyFile with aof-load-truncated enabled, on a file that is not an
      RDB snapshot. */
  function Load(kind: Cmd -> Kind, r: Bytes, c: Client): Outcome
    decreases |r|
  {
    match ReadNext(r)
    case Eof =>
      if c.multi then Outcome(AofTruncated, c.executed, c.validBeforeMulti)
      else Outcome(AofOk, c.executed, c.pos)
    case Skip(rest) => Load(kind, rest, c.(pos := c.pos + (|r| - |rest|)))
    case Got(args, rest) =>
      if kind(args).Unknown? then Outcome(AofFailed, c.executed, c.pos + |r|)
      else Load(kind, rest, RunCommand(kind, c, args, |r| - |rest|))
    case ReadError(eof) =>
      if eof then Outcome(AofTruncated, c.executed, c.validUpTo)
      else Outcome(AofFailed, c.executed, c.pos + |r|)
    case FormatError => Outcome(AofFailed, c.executed, c.pos + |r|)
    case Abort => Outcome(AofFailed, c.executed, c.pos + |r|)
  }

  function LoadFile(kind: Cmd -> Kind, file: Bytes): Outcome {
    Load(kind, file, NEW_CLIENT)
  }
}
