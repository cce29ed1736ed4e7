/** What the loader makes of every prefix of a log the server wrote. */
module AofLogProofs {
  import opened Words
  import opened AofLog

  // ----- Numbers -----------------------------------------------------------------------

  function Pow10(k: nat): nat {
    if k == 0 then 1 else 10 * Pow10(k - 1)
  }

  lemma {:induction false} DecLength(n: nat, k: nat)
    requires k > 0 && n < Pow10(k)
    ensures |Dec(n)| <= k
  {
    if n >= 10 {
      DecLength(n / 10, k - 1);
    }
  }

  lemma SmallDec(n: nat)
    requires n < 0x8000_0000_0000_0000
    ensures |Dec(n)| <= 19
  {
    assert Pow10(10) == 1_0000000000;
    assert Pow10(19) == 1000000000 * Pow10(10);
    DecLength(n, 19);
  }

  lemma {:induction false} ParseDec(n: nat, t: Bytes)
    ensures ParseDigits(Dec(n) + t, 0) == ParseDigits(t, n)
  {
    if n < 10 {
      assert (Dec(n) + t)[1..] == t;
    } else {
      var d := [48 + n % 10];
      ParseDec(n / 10, d + t);
      assert Dec(n) + t == Dec(n / 10) + (d + t);
      assert (d + t)[1..] == t;
    }
  }

  lemma ParseIntDigits(s: Bytes)
    requires s == [] || IsDigit(s[0]) || s[0] == CR
    ensures s != [] && IsDigit(s[0]) ==> ParseInt(s) == ParseDigits(s, 0)
    ensures s == [] || s == [CR] ==> ParseInt(s) == 0
  {
    if s == [CR] {
      assert SkipSpaces(s) == SkipSpaces(s[1..]);
    }
  }

  lemma {:induction false} ParseGrows(s: Bytes, acc: int)
    requires acc >= 0
    ensures ParseDigits(s, acc) >= acc
  {
    if s != [] && IsDigit(s[0]) {
      ParseGrows(s[1..], acc * 10 + (s[0] - 48));
    }
  }

  /** The number read back from a whole header line. */
  lemma ParseHeader(n: nat)
    ensures ParseInt(Dec(n) + CRLF) == n
  {
    ParseDec(n, CRLF);
    ParseIntDigits(Dec(n) + CRLF);
  }

  /** The number read from a header line cut short: never negative, and at least 1 when the
      whole number is. */
  lemma ParseCut(n: nat, x: Bytes)
    requires x <= Dec(n) + [CR]
    ensures ParseInt(x) >= 0
    ensures x != [] && n > 0 ==> ParseInt(x) >= 1
  {
    if x != [] {
      assert x[0] == Dec(n)[0];
      ParseIntDigits(x);
      ParseGrows(x[1..], x[0] - 48);
    }
  }

  // ----- Lines ---------------------------------------------------------------------------

  predicate NoLF(h: Bytes) { forall i :: 0 <= i < |h| ==> h[i] != LF }

  lemma {:induction false} LineWhole(h: Bytes, b: Bytes, max: nat)
    requires NoLF(h) && |h| < max
    ensures LineLen(h + [LF] + b, max) == |h| + 1
  {
    if h == [] {
      assert (h + [LF] + b)[0] == LF;
    } else {
      assert (h + [LF] + b)[1..] == h[1..] + [LF] + b;
      LineWhole(h[1..], b, max - 1);
    }
  }

  lemma {:induction false} LineCut(h: Bytes, max: nat)
    requires NoLF(h) && |h| <= max
    ensures LineLen(h, max) == |h|
  {
    if h != [] {
      LineCut(h[1..], max - 1);
    }
  }

  lemma HeaderLine(tag: Byte, n: nat, b: Bytes)
    requires tag != LF && n < 0x8000_0000_0000_0000
    ensures LineLen(Header(tag, n) + b, LINE_MAX) == |Header(tag, n)|
    ensures (Header(tag, n) + b)[1..|Header(tag, n)|] == Dec(n) + CRLF
  {
    SmallDec(n);
    var h := [tag] + Dec(n) + [CR];
    LineWhole(h, b, LINE_MAX);
    assert Header(tag, n) + b == h + [LF] + b;
  }

  lemma HeaderCut(tag: Byte, n: nat, x: Bytes)
    requires tag != LF && n < 0x8000_0000_0000_0000
    requires x != [] && x <= [tag] + Dec(n) + [CR]
    ensures LineLen(x, LINE_MAX) == |x| < LINE_MAX && x[|x| - 1] != LF
    ensures x[0] == tag && x[1..] <= Dec(n) + [CR]
  {
    SmallDec(n);
    LineCut(x, LINE_MAX);
    assert ([tag] + Dec(n) + [CR])[1..] == Dec(n) + [CR];
  }

  // ----- One argument, one command -----------------------------------------------------------

  lemma ReadWholeArg(a: Bytes, b: Bytes)
    requires |a| < 0x8000_0000_0000_0000
    ensures ReadArg(EncodeArg(a) + b) == Arg(a, b)
  {
    var h := Header(DOLLAR, |a|);
    var r := EncodeArg(a) + b;
    assert r == h + (a + CRLF + b);
    HeaderLine(DOLLAR, |a|, a + CRLF + b);
    ParseHeader(|a|);
    assert r[|h|..] == a + CRLF + b;
    assert (a + CRLF + b)[..|a|] == a && (a + CRLF + b)[|a| + 2..] == b;
  }

  lemma {:induction false} ReadWholeArgs(args: Cmd, b: Bytes, sofar: Cmd)
    requires forall i :: 0 <= i < |args| ==> |args[i]| < 0x8000_0000_0000_0000
    ensures ReadArgs(EncodeArgs(args) + b, |args|, sofar) == Got(sofar + args, b)
    decreases |args|
  {
    hide ReadArg, EncodeArg;
    if args == [] {
      assert EncodeArgs(args) + b == b;
      assert sofar + args == sofar;
    } else {
      var a, more := args[0], args[1..];
      var t := EncodeArgs(more);
      assert EncodeArgs(args) == EncodeArg(a) + t;
      hide ReadArgs, EncodeArgs;
      assert EncodeArg(a) + t + b == EncodeArg(a) + (t + b);
      ReadWholeArg(a, t + b);
      ReadWholeArgs(more, b, sofar + [a]);
      assert sofar + args == sofar + [a] + more;
    }
  }

  /** A whole item at the front of the stream is read exactly. */
  lemma ReadWhole(it: Item, b: Bytes)
    requires Fits(it)
    ensures ReadNext(EncodeItem(it) + b) == (if it.Command? then Got(it.args, b) else Skip(b))
    ensures EncodeItem(it) != []
  {
    hide EncodeArgs, ReadArgs;
    match it
    case Command(args) =>
      var h := Header(STAR, |args|);
      var r := EncodeItem(it) + b;
      assert r == h + (EncodeArgs(args) + b);
      HeaderLine(STAR, |args|, EncodeArgs(args) + b);
      ParseHeader(|args|);
      assert r[|h|..] == EncodeArgs(args) + b;
      assert r[1] == Dec(|args|)[0];
      ReadWholeArgs(args, b, []);
    case Timestamp(t) =>
      var h := [HASH] + ([84, 83, 58] + Dec(t) + [CR]);
      SmallDec(t);
      LineWhole(h, b, LINE_MAX);
      assert (EncodeItem(it) + b)[|h| + 1..] == b;
  }

  lemma ReadCutArg(a: Bytes, p: Bytes)
    requires |a| < 0x8000_0000_0000_0000
    requires p < EncodeArg(a)
    ensures ReadArg(p) == Stop(ReadError(true))
  {
    var h := Header(DOLLAR, |a|);
    if p == [] {
    } else if |p| < |h| {
      assert p <= [DOLLAR] + Dec(|a|) + [CR];
      HeaderCut(DOLLAR, |a|, p);
      ParseCut(|a|, p[1..]);
      assert p[1..|p|] == p[1..] && p[|p|..] == [];
    } else {
      var body := p[|h|..];
      assert p == h + body;
      HeaderLine(DOLLAR, |a|, body);
      ParseHeader(|a|);
    }
  }

  lemma {:induction false} ReadCutArgs(args: Cmd, p: Bytes, argc: nat, sofar: Cmd)
    requires forall i :: 0 <= i < |args| ==> |args[i]| < 0x8000_0000_0000_0000
    requires p < EncodeArgs(args) && argc == |args|
    ensures ReadArgs(p, argc, sofar) == ReadError(true)
    decreases |args|
  {
    var e := EncodeArg(args[0]);
    if |p| < |e| {
      assert p < e;
      ReadCutArg(args[0], p);
    } else {
      var q := p[|e|..];
      assert p == e + q;
      ReadWholeArg(args[0], q);
      assert q < EncodeArgs(args[1..]);
      ReadCutArgs(args[1..], q, argc - 1, sofar + [args[0]]);
    }
  }

  /** A command cut short anywhere is an unexpected end of file; an annotation cut short is
      skipped like a whole one. */
  lemma ReadCut(it: Item, p: Bytes)
    requires Fits(it) && p != [] && p < EncodeItem(it)
    ensures ReadNext(p) == (if it.Command? then ReadError(true) else Skip([]))
  {
    match it
    case Command(args) =>
      var h := Header(STAR, |args|);
      if |p| < |h| {
        assert p <= [STAR] + Dec(|args|) + [CR];
        HeaderCut(STAR, |args|, p);
        ParseCut(|args|, p[1..]);
        assert p[1..|p|] == p[1..] && p[|p|..] == [];
        if |p| > 1 {
          assert p[1] == Dec(|args|)[0];
        }
      } else {
        var body := p[|h|..];
        assert p == h + body;
        HeaderLine(STAR, |args|, body);
        ParseHeader(|args|);
        assert p[1] == Dec(|args|)[0];
        ReadCutArgs(args, body, |args|, []);
      }
    case Timestamp(t) =>
      SmallDec(t);
      LineCut(p, LINE_MAX);
      assert p[|p|..] == [];
  }

  // ----- Whole items through the loader --------------------------------------------------------

  predicate Known(kind: Cmd -> Kind, it: Item) {
    Fits(it) && (it.Command? ==> !kind(it.args).Unknown?)
  }

  predicate AllKnown(kind: Cmd -> Kind, items: seq<Item>) {
    forall i :: 0 <= i < |items| ==> Known(kind, items[i])
  }

  /** The client after one whole item. */
  function Advance(kind: Cmd -> Kind, c: Client, it: Item): Client {
    match it
    case Command(args) => RunCommand(kind, c, args, |EncodeItem(it)|)
    case Timestamp(_) => c.(pos := c.pos + |EncodeItem(it)|)
  }

  function After(kind: Cmd -> Kind, c: Client, items: seq<Item>): Client
    decreases |items|
  {
    if items == [] then c else Advance(kind, After(kind, c, items[..|items| - 1]), items[|items| - 1])
  }

  lemma AfterOne(kind: Cmd -> Kind, items: seq<Item>, i: nat)
    requires i < |items|
    ensures After(kind, NEW_CLIENT, items[..i + 1]) == Advance(kind, After(kind, NEW_CLIENT, items[..i]), items[i])
  {
    assert items[..i + 1][..i] == items[..i];
  }

  /** The loader consumes whole items one by one, whatever follows them. */
  lemma {:induction false} LoadWhole(kind: Cmd -> Kind, items: seq<Item>, r: Bytes, i: nat)
    requires AllKnown(kind, items) && i <= |items|
    ensures Load(kind, Encode(items) + r, NEW_CLIENT)
         == Load(kind, Encode(items[i..]) + r, After(kind, NEW_CLIENT, items[..i]))
  {
    hide Load, EncodeItem, ReadNext, Advance, After, Encode, Known;
    if i == 0 {
      AfterNothing(kind);
      assert items[0..] == items && items[..0] == [];
    } else {
      LoadWhole(kind, items, r, i - 1);
      AfterOne(kind, items, i - 1);
      EncodeFrom(items, i - 1, r);
      LoadItem(kind, items[i - 1], Encode(items[i..]) + r, After(kind, NEW_CLIENT, items[..i - 1]));
    }
  }

  lemma AfterNothing(kind: Cmd -> Kind)
    ensures After(kind, NEW_CLIENT, []) == NEW_CLIENT
  {
  }

  lemma LoadItem(kind: Cmd -> Kind, it: Item, rest: Bytes, c: Client)
    requires Known(kind, it)
    ensures Load(kind, EncodeItem(it) + rest, c) == Load(kind, rest, Advance(kind, c, it))
  {
    hide Load, EncodeItem, ReadNext, Advance;
    ReadWhole(it, rest);
    LoadOne(kind, it, EncodeItem(it) + rest, rest, c);
  }

  lemma EncodeFrom(items: seq<Item>, i: nat, r: Bytes)
    requires i < |items|
    ensures Encode(items[i..]) + r == EncodeItem(items[i]) + (Encode(items[i + 1..]) + r)
  {
    assert items[i..][1..] == items[i + 1..];
  }

  lemma LoadOne(kind: Cmd -> Kind, it: Item, r: Bytes, rest: Bytes, c: Client)
    requires it.Command? ==> !kind(it.args).Unknown?
    requires ReadNext(r) == (if it.Command? then Got(it.args, rest) else Skip(rest))
    requires |r| == |EncodeItem(it)| + |rest|
    ensures Load(kind, r, c) == Load(kind, rest, Advance(kind, c, it))
  {
    hide Load, ReadNext, EncodeItem, RunCommand;
    LoadStep(kind, r, c, ReadNext(r));
  }

  /** One round of the loop, given what was read. */
  lemma LoadStep(kind: Cmd -> Kind, r: Bytes, c: Client, o: Read)
    requires o == ReadNext(r)
    ensures o.Skip? ==> Load(kind, r, c) == Load(kind, o.rest, c.(pos := c.pos + (|r| - |o.rest|)))
    ensures o.Got? && !kind(o.args).Unknown? ==>
      Load(kind, r, c) == Load(kind, o.rest, RunCommand(kind, c, o.args, |r| - |o.rest|))
  {
    hide ReadNext;
  }

  lemma LoadAll(kind: Cmd -> Kind, items: seq<Item>, r: Bytes)
    requires AllKnown(kind, items)
    ensures LoadFile(kind, Encode(items) + r) == Load(kind, r, After(kind, NEW_CLIENT, items))
  {
    LoadWhole(kind, items, r, |items|);
    assert items[|items|..] == [];
    assert Encode([]) + r == r;
    assert items[..|items|] == items;
  }

  // ----- What should have been executed ---------------------------------------------------------

  function CommandOf(it: Item): seq<Cmd> {
    if it.Command? then [it.args] else []
  }

  function Commands(items: seq<Item>): seq<Cmd> {
    if items == [] then []
    else CommandOf(items[0]) + Commands(items[1..])
  }

  /** The position of the first EXEC, or the length. */
  function FindExec(kind: Cmd -> Kind, cs: seq<Cmd>): (n: nat)
    ensures n <= |cs|
  {
    if cs == [] || kind(cs[0]).Exec? then 0 else 1 + FindExec(kind, cs[1..])
  }

  /** Commands in order, each MULTI..EXEC block as a unit: all of it if its EXEC is there,
      none of it otherwise. */
  function Committed(kind: Cmd -> Kind, cs: seq<Cmd>): seq<Cmd>
    decreases |cs|
  {
    if cs == [] then []
    else
      match kind(cs[0])
      case Multi =>
        var n := FindExec(kind, cs[1..]);
        if n == |cs| - 1 then [] else cs[1..n + 1] + Committed(kind, cs[n + 2..])
      case Exec => Committed(kind, cs[1..])
      case _ => [cs[0]] + Committed(kind, cs[1..])
  }

  /** The transaction part of the loader's client. */
  datatype Tx = Tx(executed: seq<Cmd>, multi: bool, queue: seq<Cmd>)

  function TxStep(kind: Cmd -> Kind, t: Tx, args: Cmd): Tx {
    if t.multi && !kind(args).Exec? then t.(queue := t.queue + [args])
    else
      match kind(args)
      case Multi => t.(multi := true, queue := [])
      case Exec => if t.multi then Tx(t.executed + t.queue, false, []) else t
      case _ => t.(executed := t.executed + [args])
  }

  function TxRun(kind: Cmd -> Kind, t: Tx, cs: seq<Cmd>): Tx
    decreases |cs|
  {
    if cs == [] then t else TxRun(kind, TxStep(kind, t, cs[0]), cs[1..])
  }

  lemma {:induction false} TxSnoc(kind: Cmd -> Kind, t: Tx, cs: seq<Cmd>, c: Cmd)
    ensures TxRun(kind, t, cs + [c]) == TxStep(kind, TxRun(kind, t, cs), c)
    decreases |cs|
  {
    if cs == [] {
      assert (cs + [c])[1..] == [];
      assert TxRun(kind, TxStep(kind, t, c), []) == TxStep(kind, t, c);
    } else {
      TxSnoc(kind, TxStep(kind, t, cs[0]), cs[1..], c);
      assert (cs + [c])[1..] == cs[1..] + [c];
    }
  }

  lemma {:induction false} TxAppend(kind: Cmd -> Kind, t: Tx, a: seq<Cmd>, b: seq<Cmd>)
    ensures TxRun(kind, t, a + b) == TxRun(kind, TxRun(kind, t, a), b)
    decreases |a|
  {
    if a == [] {
      assert a + b == b;
    } else {
      TxAppend(kind, TxStep(kind, t, a[0]), a[1..], b);
      assert (a + b)[1..] == a[1..] + b;
    }
  }

  /** What a transaction machine in mid-block executes from here on. */
  function FromBlock(kind: Cmd -> Kind, queue: seq<Cmd>, cs: seq<Cmd>): seq<Cmd> {
    var n := FindExec(kind, cs);
    if n == |cs| then [] else queue + cs[..n] + Committed(kind, cs[n + 1..])
  }

  lemma FromBlockStep(kind: Cmd -> Kind, queue: seq<Cmd>, cs: seq<Cmd>)
    requires cs != [] && !kind(cs[0]).Exec?
    ensures FromBlock(kind, queue, cs) == FromBlock(kind, queue + [cs[0]], cs[1..])
  {
    var n := FindExec(kind, cs);
    if n < |cs| {
      assert cs[1..][n..] == cs[n + 1..];
      assert cs[..n] == [cs[0]] + cs[1..][..n - 1];
      assert queue + cs[..n] == queue + [cs[0]] + cs[1..][..n - 1];
    }
  }

  lemma FromBlockEnd(kind: Cmd -> Kind, queue: seq<Cmd>, cs: seq<Cmd>)
    requires cs != [] && kind(cs[0]).Exec?
    ensures FromBlock(kind, queue, cs) == queue + Committed(kind, cs[1..])
  {
    assert queue + cs[..0] == queue;
  }

  lemma BlockStart(kind: Cmd -> Kind, cs: seq<Cmd>)
    requires cs != [] && kind(cs[0]).Multi?
    ensures Committed(kind, cs) == FromBlock(kind, [], cs[1..])
  {
    var t := cs[1..];
    var n := FindExec(kind, t);
    hide FindExec;
    assert Committed(kind, cs) == (if n == |cs| - 1 then [] else cs[1..n + 1] + Committed(kind, cs[n + 2..]));
    hide Committed;
    if n < |t| {
      assert t[..n] == cs[1..n + 1] && t[n + 1..] == cs[n + 2..];
      assert [] + t[..n] == t[..n];
    }
  }

  /** What is committed from `t` on. */
  function CommittedFrom(kind: Cmd -> Kind, t: Tx, cs: seq<Cmd>): seq<Cmd> {
    t.executed + if t.multi then FromBlock(kind, t.queue, cs) else Committed(kind, cs)
  }

  lemma CommittedStep(kind: Cmd -> Kind, t: Tx, cs: seq<Cmd>)
    requires cs != []
    ensures CommittedFrom(kind, t, cs) == CommittedFrom(kind, TxStep(kind, t, cs[0]), cs[1..])
  {
    hide FindExec, FromBlock;
    var rest := Committed(kind, cs[1..]);
    if t.multi {
      if kind(cs[0]).Exec? {
        FromBlockEnd(kind, t.queue, cs);
        assert t.executed + t.queue + rest == t.executed + (t.queue + rest);
      } else {
        FromBlockStep(kind, t.queue, cs);
      }
    } else if kind(cs[0]).Multi? {
      BlockStart(kind, cs);
    } else if !kind(cs[0]).Exec? {
      assert t.executed + [cs[0]] + rest == t.executed + ([cs[0]] + rest);
    }
  }

  /** Queueing then running on EXEC executes exactly the committed commands. */
  lemma {:induction false} TxIsCommitted(kind: Cmd -> Kind, t: Tx, cs: seq<Cmd>)
    ensures TxRun(kind, t, cs).executed
         == t.executed + (if t.multi then FromBlock(kind, t.queue, cs) else Committed(kind, cs))
    decreases |cs|
  {
    if cs == [] {
      assert t.executed + [] == t.executed;
    } else {
      hide FromBlock, Committed, TxStep;
      TxIsCommitted(kind, TxStep(kind, t, cs[0]), cs[1..]);
      CommittedStep(kind, t, cs);
    }
  }

  // ----- A single load of any prefix --------------------------------------------------------

  const NO_TX := Tx([], false, [])

  function TxOf(c: Client): Tx {
    Tx(c.executed, c.multi, c.queue)
  }

  lemma {:induction false} CommandsSnoc(items: seq<Item>, it: Item)
    ensures Commands(items + [it]) == Commands(items) + CommandOf(it)
    decreases |items|
  {
    if items == [] {
      assert items + [it] == [it];
      assert [it][1..] == [];
    } else {
      var x, t := CommandOf(items[0]), items[1..];
      assert (items + [it])[1..] == t + [it];
      assert Commands(items + [it]) == x + Commands(t + [it]);
      CommandsSnoc(t, it);
      assert x + (Commands(t) + CommandOf(it)) == x + Commands(t) + CommandOf(it);
    }
  }

  lemma AdvanceTx(kind: Cmd -> Kind, c: Client, it: Item)
    ensures TxOf(Advance(kind, c, it)) == (if it.Command? then TxStep(kind, TxOf(c), it.args) else TxOf(c))
    ensures Advance(kind, c, it).pos == c.pos + |EncodeItem(it)|
  {
  }

  lemma StartTx(kind: Cmd -> Kind)
    ensures TxOf(After(kind, NEW_CLIENT, [])) == TxRun(kind, NO_TX, Commands([]))
    ensures |Encode([])| == 0 == After(kind, NEW_CLIENT, []).pos
  {
  }

  lemma AfterSnoc(kind: Cmd -> Kind, a: seq<Item>, it: Item)
    ensures After(kind, NEW_CLIENT, a + [it]) == Advance(kind, After(kind, NEW_CLIENT, a), it)
  {
    assert (a + [it])[..|a|] == a;
  }

  /** The loader's client after whole items runs the transaction machine on their commands. */
  lemma {:induction false} AfterTx(kind: Cmd -> Kind, items: seq<Item>)
    ensures TxOf(After(kind, NEW_CLIENT, items)) == TxRun(kind, NO_TX, Commands(items))
    ensures After(kind, NEW_CLIENT, items).pos == |Encode(items)|
    decreases |items|
  {
    hide After, Advance, Encode, EncodeItem, TxRun, TxStep, Commands;
    if items == [] {
      StartTx(kind);
    } else {
      var a, it := items[..|items| - 1], items[|items| - 1];
      assert items == a + [it];
      AfterTx(kind, a);
      AfterSnoc(kind, a, it);
      AdvanceTx(kind, After(kind, NEW_CLIENT, a), it);
      EncodeSnoc(a, it);
      CommandsSnoc(a, it);
      if it.Command? {
        TxSnoc(kind, NO_TX, Commands(a), it.args);
      } else {
        assert Commands(a) + [] == Commands(a);
      }
    }
  }

  /** Whether the items leave a MULTI block open. */
  predicate OpenMulti(kind: Cmd -> Kind, items: seq<Item>) {
    TxRun(kind, NO_TX, Commands(items)).multi
  }

  lemma ExecutedIsCommitted(kind: Cmd -> Kind, items: seq<Item>)
    ensures After(kind, NEW_CLIENT, items).executed == Committed(kind, Commands(items))
  {
    hide After, TxRun, Committed, Commands;
    AfterTx(kind, items);
    TxIsCommitted(kind, NO_TX, Commands(items));
    assert [] + Committed(kind, Commands(items)) == Committed(kind, Commands(items));
  }

  /** Every prefix of a log is some whole items and a proper part of the next one. */
  lemma {:induction false} SplitPrefix(items: seq<Item>, k: nat) returns (n: nat, p: Bytes)
    requires forall i :: 0 <= i < |items| ==> Fits(items[i])
    requires k <= |Encode(items)|
    ensures n <= |items| && Encode(items)[..k] == Encode(items[..n]) + p
    ensures p == [] || (n < |items| && p < EncodeItem(items[n]))
    decreases |items|
  {
    hide EncodeItem, Fits;
    if items == [] {
      n, p := 0, [];
    } else {
      var e, t := EncodeItem(items[0]), items[1..];
      assert Encode(items) == e + Encode(t);
      assert Encode(items[..0]) == [];
      if k < |e| {
        n, p := 0, e[..k];
        assert (e + Encode(t))[..k] == [] + p;
      } else {
        var m;
        m, p := SplitPrefix(t, k - |e|);
        n := m + 1;
        assert items[..n][1..] == t[..m];
        assert Encode(items[..n]) == e + Encode(t[..m]);
      }
    }
  }

  /** What loading whole items followed by a proper part `p` of the next one does. */
  lemma LoadPrefix(kind: Cmd -> Kind, items: seq<Item>, next: Item, p: Bytes)
    requires AllKnown(kind, items) && Fits(next)
    requires p == [] || p < EncodeItem(next)
    ensures var c := After(kind, NEW_CLIENT, items);
            LoadFile(kind, Encode(items) + p) ==
              (if p != [] && next.Command? then Outcome(AofTruncated, c.executed, c.validUpTo)
               else if c.multi then Outcome(AofTruncated, c.executed, c.validBeforeMulti)
               else Outcome(AofOk, c.executed, c.pos + |p|))
  {
    LoadAll(kind, items, p);
    if p != [] {
      ReadCut(next, p);
    }
  }

  /** `n` whole items and a proper part `p` of the next are the first `k` bytes. */
  predicate Cut(items: seq<Item>, k: nat, n: nat, p: Bytes)
    requires k <= |Encode(items)|
  {
    && n <= |items|
    && Encode(items)[..k] == Encode(items[..n]) + p
    && (p == [] || (n < |items| && p < EncodeItem(items[n])))
  }

  /** Loading any prefix of a log executes exactly the commands that are wholly there, in
      order, with each MULTI..EXEC block entirely or not at all, and never fails. */
  lemma PrefixLoads(kind: Cmd -> Kind, items: seq<Item>, k: nat) returns (n: nat, p: Bytes)
    requires AllKnown(kind, items) && k <= |Encode(items)|
    ensures Cut(items, k, n, p)
    ensures LoadFile(kind, Encode(items)[..k]).executed == Committed(kind, Commands(items[..n]))
    ensures !LoadFile(kind, Encode(items)[..k]).status.AofFailed?
  {
    n, p := SplitPrefix(items, k);
    LoadPrefix(kind, items[..n], if n < |items| then items[n] else Timestamp(0), p);
    ExecutedIsCommitted(kind, items[..n]);
  }

  /** The full log decodes to the commands that were encoded; annotations change nothing. */
  lemma FullLogLoads(kind: Cmd -> Kind, items: seq<Item>)
    requires AllKnown(kind, items) && !OpenMulti(kind, items)
    ensures LoadFile(kind, Encode(items)).status == AofOk
    ensures LoadFile(kind, Encode(items)).executed == Committed(kind, Commands(items))
    ensures LoadFile(kind, Encode(items)).keep == |Encode(items)|
  {
    assert Encode(items) + [] == Encode(items);
    LoadPrefix(kind, items, Timestamp(0), []);
    ExecutedIsCommitted(kind, items);
    AfterTx(kind, items);
  }

  lemma EncodeSnoc(items: seq<Item>, it: Item)
    ensures Encode(items + [it]) == Encode(items) + EncodeItem(it)
  {
    EncodeAppend(items, [it]);
    assert [it][1..] == [];
    assert Encode([it]) == EncodeItem(it) + [];
  }

  lemma {:induction false} EncodeAppend(a: seq<Item>, b: seq<Item>)
    ensures Encode(a + b) == Encode(a) + Encode(b)
    decreases |a|
  {
    if a == [] {
      assert a + b == b;
    } else {
      hide EncodeItem;
      var e, t := EncodeItem(a[0]), a[1..];
      assert (a + b)[1..] == t + b;
      assert Encode(a + b) == e + Encode(t + b);
      EncodeAppend(t, b);
      assert e + (Encode(t) + Encode(b)) == e + Encode(t) + Encode(b);
    }
  }

  // ----- Truncate, append, load again ------------------------------------------------------------

  /** The items up to and including the last command: what valid_up_to points after. */
  function UpToLastCommand(items: seq<Item>): seq<Item> {
    if items == [] || items[|items| - 1].Command? then items else UpToLastCommand(items[..|items| - 1])
  }

  /** The items before the MULTI that is still open. */
  function BeforeOpen(kind: Cmd -> Kind, items: seq<Item>): seq<Item> {
    if items == [] || !OpenMulti(kind, items[..|items| - 1]) then items[..if items == [] then 0 else |items| - 1]
    else BeforeOpen(kind, items[..|items| - 1])
  }

  /** The server never writes MULTI inside a MULTI block. */
  predicate NoNesting(kind: Cmd -> Kind, items: seq<Item>) {
    forall i :: 0 <= i < |items| ==> NotNested(kind, items, i)
  }

  predicate NotNested(kind: Cmd -> Kind, items: seq<Item>, i: nat)
    requires i < |items|
  {
    items[i].Command? && kind(items[i].args).Multi? ==> !OpenMulti(kind, items[..i])
  }

  lemma {:induction false} LastCommandSplit(items: seq<Item>)
    ensures UpToLastCommand(items) <= items
    ensures Commands(UpToLastCommand(items)) == Commands(items)
    decreases |items|
  {
    hide Commands;
    if items != [] && !items[|items| - 1].Command? {
      var a, it := items[..|items| - 1], items[|items| - 1];
      LastCommandSplit(a);
      CommandsSnoc(a, it);
      assert items == a + [it];
      assert Commands(a) + [] == Commands(a);
    }
  }

  lemma {:induction false} ValidUpTo(kind: Cmd -> Kind, items: seq<Item>)
    ensures After(kind, NEW_CLIENT, items).validUpTo == |Encode(UpToLastCommand(items))|
    decreases |items|
  {
    hide Encode, EncodeItem, After;
    if items == [] {
      NothingYet(kind);
    } else {
      var a, it := items[..|items| - 1], items[|items| - 1];
      assert items == a + [it];
      ValidUpTo(kind, a);
      AfterTx(kind, items);
      AfterTx(kind, a);
      AfterSnoc(kind, a, it);
      EncodeSnoc(a, it);
    }
  }

  lemma NothingYet(kind: Cmd -> Kind)
    ensures |Encode([])| == 0 && After(kind, NEW_CLIENT, []) == NEW_CLIENT
    ensures !OpenMulti(kind, [])
  {
  }

  lemma OpenSnoc(kind: Cmd -> Kind, a: seq<Item>, it: Item)
    ensures OpenMulti(kind, a + [it]) <==>
      (if it.Timestamp? then OpenMulti(kind, a)
       else if OpenMulti(kind, a) then !kind(it.args).Exec? else kind(it.args).Multi?)
  {
    CommandsSnoc(a, it);
    if it.Command? {
      TxSnoc(kind, NO_TX, Commands(a), it.args);
    } else {
      assert Commands(a) + [] == Commands(a);
    }
  }

  /** The offset saved at MULTI is where the block will be cut off. */
  lemma {:induction false} ValidBeforeMulti(kind: Cmd -> Kind, items: seq<Item>)
    requires OpenMulti(kind, items) && NoNesting(kind, items)
    ensures var b := BeforeOpen(kind, items);
            && b <= items && !OpenMulti(kind, b)
            && After(kind, NEW_CLIENT, items).validBeforeMulti == |Encode(UpToLastCommand(b))|
            && Committed(kind, Commands(b)) == Committed(kind, Commands(items))
    decreases |items|
  {
    hide Committed, Commands, Encode, UpToLastCommand, TxRun, After, EncodeItem, OpenMulti;
    NothingYet(kind);
    var a, it := items[..|items| - 1], items[|items| - 1];
    assert items == a + [it];
    AfterSnoc(kind, a, it);
    OpenSnoc(kind, a, it);
    OpenIsMulti(kind, a);
    OpenIsMulti(kind, items);
    ExecutedIsCommitted(kind, a);
    ExecutedIsCommitted(kind, items);
    assert NotNested(kind, items, |items| - 1);
    if OpenMulti(kind, a) {
      NoNestingPrefix(kind, items);
      ValidBeforeMulti(kind, a);
    } else {
      ValidUpTo(kind, a);
    }
  }

  lemma OpenIsMulti(kind: Cmd -> Kind, items: seq<Item>)
    ensures After(kind, NEW_CLIENT, items).multi <==> OpenMulti(kind, items)
  {
    hide After, Encode, TxRun, Commands;
    AfterTx(kind, items);
  }

  lemma NoNestingPrefix(kind: Cmd -> Kind, items: seq<Item>)
    requires NoNesting(kind, items) && items != []
    ensures NoNesting(kind, items[..|items| - 1])
  {
    hide OpenMulti;
    var a := items[..|items| - 1];
    forall i | 0 <= i < |a| ensures NotNested(kind, a, i) {
      assert NotNested(kind, items, i);
      assert a[..i] == items[..i];
    }
  }

  /** What is left of the file after the first load, as items (plus `p` when the cut fell in
      an annotation outside MULTI: that load truncates nothing). */
  function Kept(kind: Cmd -> Kind, items: seq<Item>, cutCommand: bool): seq<Item> {
    if cutCommand then UpToLastCommand(items)
    else if OpenMulti(kind, items) then UpToLastCommand(BeforeOpen(kind, items))
    else items
  }

  function FirstLoad(kind: Cmd -> Kind, items: seq<Item>, p: Bytes): Outcome {
    LoadFile(kind, Encode(items) + p)
  }

  /** The file after the first load has truncated it and the server has appended more. */
  function Reopened(kind: Cmd -> Kind, items: seq<Item>, p: Bytes, more: seq<Item>): Bytes {
    var file := Encode(items) + p;
    var keep := FirstLoad(kind, items, p).keep;
    (if keep <= |file| then file[..keep] else file) + Encode(more)
  }

  lemma {:induction false} EncodePrefix(a: seq<Item>, items: seq<Item>, p: Bytes)
    requires a <= items
    ensures |Encode(a)| <= |Encode(items) + p| && (Encode(items) + p)[..|Encode(a)|] == Encode(a)
  {
    EncodeAppend(a, items[|a|..]);
    assert items == a + items[|a|..];
  }

  lemma KeptIsPrefix(kind: Cmd -> Kind, items: seq<Item>, cutCommand: bool)
    requires NoNesting(kind, items)
    ensures Kept(kind, items, cutCommand) <= items
    ensures Committed(kind, Commands(Kept(kind, items, cutCommand))) == Committed(kind, Commands(items))
    ensures OpenMulti(kind, Kept(kind, items, cutCommand)) <==> cutCommand && OpenMulti(kind, items)
  {
    hide Committed, Commands, TxRun, UpToLastCommand, BeforeOpen, After, Encode, NoNesting;
    LastCommandSplit(items);
    if !cutCommand && OpenMulti(kind, items) {
      ValidBeforeMulti(kind, items);
      LastCommandSplit(BeforeOpen(kind, items));
    }
  }

  /** What else the first load leaves behind: a half annotation outside MULTI. */
  function Tail(kind: Cmd -> Kind, items: seq<Item>, next: Item, p: Bytes): Bytes {
    if next.Command? || OpenMulti(kind, items) then [] else p
  }

  lemma KeepLength(kind: Cmd -> Kind, items: seq<Item>, next: Item, p: Bytes)
    requires AllKnown(kind, items) && NoNesting(kind, items) && Fits(next)
    requires p == [] || p < EncodeItem(next)
    ensures FirstLoad(kind, items, p).keep
         == |Encode(Kept(kind, items, p != [] && next.Command?))| + |Tail(kind, items, next, p)|
  {
    hide LoadFile, Encode, EncodeItem, OpenMulti, After, BeforeOpen, UpToLastCommand, AllKnown, NoNesting;
    LoadPrefix(kind, items, next, p);
    AfterTx(kind, items);
    OpenIsMulti(kind, items);
    ValidUpTo(kind, items);
    if OpenMulti(kind, items) {
      ValidBeforeMulti(kind, items);
    }
  }

  /** The file after the first load. */
  lemma ReopenedFile(kind: Cmd -> Kind, items: seq<Item>, next: Item, p: Bytes, more: seq<Item>)
    requires AllKnown(kind, items) && NoNesting(kind, items) && Fits(next)
    requires p == [] || p < EncodeItem(next)
    ensures Reopened(kind, items, p, more)
         == Encode(Kept(kind, items, p != [] && next.Command?)) + Tail(kind, items, next, p) + Encode(more)
  {
    hide FirstLoad, Encode, EncodeItem, Commands, Committed, UpToLastCommand, BeforeOpen, AllKnown, NoNesting,
      OpenMulti;
    var kept := Kept(kind, items, p != [] && next.Command?);
    var tail := Tail(kind, items, next, p);
    KeepLength(kind, items, next, p);
    KeptIsPrefix(kind, items, p != [] && next.Command?);
    EncodePrefix(kept, items, p);
    if tail == [] {
      assert Encode(kept) + tail == Encode(kept);
    } else {
      assert kept == items;
      assert (Encode(items) + p)[..|Encode(items)| + |p|] == Encode(items) + p;
    }
  }

  /** The next load executes what the first one did and then everything appended since. */
  predicate Survives(kind: Cmd -> Kind, items: seq<Item>, p: Bytes, more: seq<Item>) {
    var again := LoadFile(kind, Reopened(kind, items, p, more));
    && !again.status.AofFailed?
    && again.executed == FirstLoad(kind, items, p).executed + Committed(kind, Commands(more))
  }

  /** Where the cut may fall: between items; in a command outside MULTI; in an annotation
      inside MULTI. */
  predicate SafeCut(kind: Cmd -> Kind, items: seq<Item>, next: Item, p: Bytes) {
    p == [] || (next.Command? <==> !OpenMulti(kind, items))
  }

  lemma CommandsAppend(a: seq<Item>, b: seq<Item>)
    ensures Commands(a + b) == Commands(a) + Commands(b)
    decreases |b|
  {
    hide CommandOf;
    if b == [] {
      assert a + b == a;
      assert Commands(a) + [] == Commands(a);
    } else {
      var c, it := b[..|b| - 1], b[|b| - 1];
      assert a + b == (a + c) + [it] && b == c + [it];
      CommandsSnoc(a + c, it);
      CommandsSnoc(c, it);
      hide Commands;
      CommandsAppend(a, c);
      assert Commands(a) + Commands(c) + CommandOf(it) == Commands(a) + (Commands(c) + CommandOf(it));
    }
  }

  lemma CommittedAppend(kind: Cmd -> Kind, a: seq<Item>, b: seq<Item>)
    requires !OpenMulti(kind, a)
    ensures Committed(kind, Commands(a + b)) == Committed(kind, Commands(a)) + Committed(kind, Commands(b))
  {
    hide Committed, Commands, TxRun;
    var ca, cb := Commands(a), Commands(b);
    CommandsAppend(a, b);
    TxAppend(kind, NO_TX, ca, cb);
    TxIsCommitted(kind, NO_TX, ca + cb);
    TxIsCommitted(kind, NO_TX, ca);
    TxIsCommitted(kind, TxRun(kind, NO_TX, ca), cb);
    assert [] + Committed(kind, ca) == Committed(kind, ca);
    assert [] + Committed(kind, ca + cb) == Committed(kind, ca + cb);
  }

  lemma KnownAppend(kind: Cmd -> Kind, a: seq<Item>, items: seq<Item>, b: seq<Item>)
    requires AllKnown(kind, items) && a <= items && AllKnown(kind, b)
    ensures AllKnown(kind, a + b)
  {
    hide Known;
    assert forall i :: 0 <= i < |a| ==> a[i] == items[i];
  }

  lemma EncodeOne(it: Item)
    ensures Encode([it]) == EncodeItem(it)
  {
    hide EncodeItem;
    assert [it][1..] == [];
    assert Encode([it]) == EncodeItem(it) + [];
  }

  /** Loading a whole log, whatever it leaves open. */
  lemma WholeLoads(kind: Cmd -> Kind, items: seq<Item>)
    requires AllKnown(kind, items)
    ensures !LoadFile(kind, Encode(items)).status.AofFailed?
    ensures LoadFile(kind, Encode(items)).executed == Committed(kind, Commands(items))
  {
    hide LoadFile, Encode, Commands, Committed, After, Known;
    LoadPrefix(kind, items, Timestamp(0), []);
    ExecutedIsCommitted(kind, items);
    assert Encode(items) + [] == Encode(items);
  }

  lemma FirstExecuted(kind: Cmd -> Kind, items: seq<Item>, next: Item, p: Bytes)
    requires AllKnown(kind, items) && Fits(next)
    requires p == [] || p < EncodeItem(next)
    ensures FirstLoad(kind, items, p).executed == Committed(kind, Commands(items))
  {
    hide LoadFile, Encode, EncodeItem, Commands, Committed, After, AllKnown;
    LoadPrefix(kind, items, next, p);
    ExecutedIsCommitted(kind, items);
  }

  /** `Survives`, for a known file. */
  lemma SurvivesMeans(kind: Cmd -> Kind, items: seq<Item>, p: Bytes, more: seq<Item>, file: Bytes)
    requires file == Reopened(kind, items, p, more)
    ensures Survives(kind, items, p, more) <==>
      && !LoadFile(kind, file).status.AofFailed?
      && LoadFile(kind, file).executed == FirstLoad(kind, items, p).executed + Committed(kind, Commands(more))
  {
    hide Reopened, LoadFile, FirstLoad, Committed, Commands;
  }

  lemma SafeCutMeans(kind: Cmd -> Kind, items: seq<Item>, next: Item, p: Bytes)
    ensures SafeCut(kind, items, next, p) ==>
      && !(p != [] && next.Command? && OpenMulti(kind, items))
      && (p != [] ==> Tail(kind, items, next, p) == []) && (p == [] ==> Tail(kind, items, next, p) == [])
    ensures !SafeCut(kind, items, next, p) && next.Timestamp? ==>
      p != [] && Kept(kind, items, false) == items && Tail(kind, items, next, p) == p
    ensures !SafeCut(kind, items, next, p) && next.Command? ==>
      p != [] && OpenMulti(kind, items) && Tail(kind, items, next, p) == []
  {
    hide OpenMulti, UpToLastCommand, BeforeOpen;
  }

  lemma SafeCutSurvives(kind: Cmd -> Kind, items: seq<Item>, next: Item, p: Bytes, more: seq<Item>)
    requires AllKnown(kind, items) && NoNesting(kind, items) && Fits(next) && AllKnown(kind, more)
    requires p == [] || p < EncodeItem(next)
    requires SafeCut(kind, items, next, p)
    ensures Survives(kind, items, p, more)
  {
    hide *;
    var cutCommand := p != [] && next.Command?;
    var kept := Kept(kind, items, cutCommand);
    ReopenedFile(kind, items, next, p, more);
    FirstExecuted(kind, items, next, p);
    KeptIsPrefix(kind, items, cutCommand);
    SafeCutMeans(kind, items, next, p);
    KnownAppend(kind, kept, items, more);
    EncodeAppend(kept, more);
    assert Encode(kept) + [] + Encode(more) == Encode(kept + more);
    WholeLoads(kind, kept + more);
    CommittedAppend(kind, kept, more);
    SurvivesMeans(kind, items, p, more, Encode(kept + more));
  }

  /** Appending a plain command after an unsafe cut: it is queued in the stale MULTI block,
      or glued to the half annotation so that the loader rejects the file. */
  lemma UnsafeCutLoses(kind: Cmd -> Kind, items: seq<Item>, next: Item, p: Bytes, c: Cmd)
    requires AllKnown(kind, items) && NoNesting(kind, items) && Fits(next)
    requires p == [] || p < EncodeItem(next)
    requires Known(kind, Command(c)) && kind(c).Other?
    requires !SafeCut(kind, items, next, p)
    ensures !Survives(kind, items, p, [Command(c)])
  {
    hide *;
    var more := [Command(c)];
    SafeCutMeans(kind, items, next, p);
    var kept := Kept(kind, items, p != [] && next.Command?);
    OneCommand(kind, c);
    ReopenedFile(kind, items, next, p, more);
    FirstExecuted(kind, items, next, p);
    KeptIsPrefix(kind, items, p != [] && next.Command?);
    SurvivesMeans(kind, items, p, more, Encode(kept) + Tail(kind, items, next, p) + Encode(more));
    if next.Command? {
      StaleBlock(kind, items, kept, c);
    } else {
      assert more == [Command(c)] + [];
      GluedAnnotation(kind, items, next, p, c, []);
    }
  }

  lemma OneCommand(kind: Cmd -> Kind, c: Cmd)
    requires kind(c).Other? && Known(kind, Command(c))
    ensures Commands([Command(c)]) == [c] && Committed(kind, [c]) == [c]
    ensures AllKnown(kind, [Command(c)])
  {
    hide Known;
    assert [Command(c)][1..] == [] && [c][1..] == [];
  }

  lemma StaleBlock(kind: Cmd -> Kind, items: seq<Item>, kept: seq<Item>, c: Cmd)
    requires AllKnown(kind, items) && kept <= items && OpenMulti(kind, kept)
    requires Committed(kind, Commands(kept)) == Committed(kind, Commands(items))
    requires Known(kind, Command(c)) && kind(c).Other?
    ensures LoadFile(kind, Encode(kept) + [] + Encode([Command(c)])).executed == Committed(kind, Commands(items))
  {
    hide *;
    var all := kept + [Command(c)];
    StillOpen(kind, kept, c);
    OneCommand(kind, c);
    KnownAppend(kind, kept, items, [Command(c)]);
    EncodeAppend(kept, [Command(c)]);
    assert Encode(kept) + [] + Encode([Command(c)]) == Encode(all);
    WholeLoads(kind, all);
  }

  lemma StillOpen(kind: Cmd -> Kind, kept: seq<Item>, c: Cmd)
    requires OpenMulti(kind, kept) && kind(c).Other?
    ensures Committed(kind, Commands(kept + [Command(c)])) == Committed(kind, Commands(kept))
  {
    hide Committed, Commands, TxRun;
    var cs := Commands(kept);
    CommandsSnoc(kept, Command(c));
    TxSnoc(kind, NO_TX, cs, c);
    TxIsCommitted(kind, NO_TX, cs);
    TxIsCommitted(kind, NO_TX, cs + [c]);
    assert [] + Committed(kind, cs) == Committed(kind, cs);
    assert [] + Committed(kind, cs + [c]) == Committed(kind, cs + [c]);
  }

  lemma ArgsStart(c: Cmd)
    requires c != []
    ensures EncodeArgs(c) != [] && EncodeArgs(c)[0] == DOLLAR
  {
    assert EncodeArg(c[0])[0] == DOLLAR;
  }

  lemma HeaderOf(c: Cmd)
    ensures EncodeCmd(c) == [STAR] + Dec(|c|) + [CR] + [LF] + EncodeArgs(c)
  {
    hide EncodeArgs, Dec;
  }

  /** Half an annotation is a short piece of one line. */
  lemma HalfAnnotation(next: Item, p: Bytes)
    requires next.Timestamp? && Fits(next) && p != [] && p < EncodeItem(next)
    ensures NoLF(p) && |p| <= 30 && p[0] == HASH
  {
    hide Dec;
    SmallDec(next.t);
    var whole := EncodeItem(next);
    assert |whole| <= 30 && p == whole[..|p|];
    assert forall i :: 0 <= i < |whole| - 1 ==> whole[i] != LF;
  }

  lemma OneAnnotation(p: Bytes, more: Bytes, body: Bytes)
    requires p != [] && p[0] == HASH && NoLF(p) && NoLF(more) && |p| + |more| < LINE_MAX
    ensures ReadNext(p + more + [LF] + body) == Skip(body)
  {
    hide ReadArgs, ParseInt, LineLen;
    var line := p + more;
    LineWhole(line, body, LINE_MAX);
    assert (line + [LF] + body)[|line| + 1..] == body;
  }

  lemma HeaderLineShort(n: nat)
    requires n < 0x8000_0000_0000_0000
    ensures NoLF([STAR] + Dec(n) + [CR]) && |[STAR] + Dec(n) + [CR]| <= 24
  {
    hide Dec;
    SmallDec(n);
  }

  /** A half annotation and the header after it read as one annotation line; what follows
      is an argument where a command should be. */
  lemma GluedLine(next: Item, p: Bytes, c: Cmd, rest: Bytes)
    requires next.Timestamp? && Fits(next) && p != [] && p < EncodeItem(next)
    requires Fits(Command(c))
    ensures ReadNext(p + (EncodeCmd(c) + rest)) == Skip(EncodeArgs(c) + rest)
    ensures ReadNext(EncodeArgs(c) + rest) == FormatError
  {
    var args := EncodeArgs(c);
    ArgsStart(c);
    assert ReadNext(args + rest) == FormatError by {
      hide EncodeArgs, ReadArgs, ParseInt, LineLen, EncodeItem, EncodeCmd;
      assert (args + rest)[0] == args[0];
    }
    GluedHeader(next, p, c, rest);
  }

  lemma GluedHeader(next: Item, p: Bytes, c: Cmd, rest: Bytes)
    requires next.Timestamp? && Fits(next) && p != [] && p < EncodeItem(next)
    requires Fits(Command(c))
    ensures ReadNext(p + (EncodeCmd(c) + rest)) == Skip(EncodeArgs(c) + rest)
  {
    hide EncodeArgs, Dec, EncodeCmd, EncodeItem, ReadNext;
    HalfAnnotation(next, p);
    HeaderLineShort(|c|);
    HeaderOf(c);
    var line, args := [STAR] + Dec(|c|) + [CR], EncodeArgs(c);
    OneAnnotation(p, line, args + rest);
    assert p + ((line + [LF] + args) + rest) == p + line + [LF] + (args + rest);
  }

  lemma GluedAnnotation(kind: Cmd -> Kind, items: seq<Item>, next: Item, p: Bytes, c: Cmd, rest: seq<Item>)
    requires AllKnown(kind, items) && next.Timestamp? && Fits(next) && p != [] && p < EncodeItem(next)
    requires Known(kind, Command(c))
    ensures LoadFile(kind, Encode(items) + p + Encode([Command(c)] + rest)).status == AofFailed
  {
    hide Load, Encode, EncodeCmd, EncodeArgs, ReadNext, After;
    var tail := Encode(rest);
    var r, client := p + (EncodeCmd(c) + tail), After(kind, NEW_CLIENT, items);
    GluedLine(next, p, c, tail);
    EncodeOne(Command(c));
    EncodeAppend([Command(c)], rest);
    LoadStep(kind, r, client, Skip(EncodeArgs(c) + tail));
    LoadRejects(kind, EncodeArgs(c) + tail, client.(pos := client.pos + (|r| - |EncodeArgs(c) + tail|)));
    LoadAll(kind, items, r);
    assert Encode(items) + p + Encode([Command(c)] + rest) == Encode(items) + r;
  }

  lemma LoadRejects(kind: Cmd -> Kind, r: Bytes, c: Client)
    requires ReadNext(r) == FormatError
    ensures Load(kind, r, c).status == AofFailed
  {
    hide ReadNext;
  }

  /** After a crash inside the log, loading it, appending and loading again keeps everything
      for whatever is appended, exactly when the cut was safe. The code saves the offset
      before MULTI, but a cut inside a queued command truncates after the last queued
      command instead, and a cut annotation is not truncated at all, so that a command
      appended to it is lost; see CommandCutExact and AnnotationCutExact. */
  lemma ReloadExact(kind: Cmd -> Kind, items: seq<Item>, next: Item, p: Bytes, c: Cmd)
    requires AllKnown(kind, items) && NoNesting(kind, items) && Fits(next)
    requires p == [] || p < EncodeItem(next)
    requires Known(kind, Command(c)) && kind(c).Other?
    ensures SafeCut(kind, items, next, p) <==>
      (forall more :: AllKnown(kind, more) ==> Survives(kind, items, p, more))
  {
    if SafeCut(kind, items, next, p) {
      forall more | AllKnown(kind, more) ensures Survives(kind, items, p, more) {
        SafeCutSurvives(kind, items, next, p, more);
      }
    } else {
      UnsafeCutLoses(kind, items, next, p, c);
      assert AllKnown(kind, [Command(c)]);
    }
  }

  // ----- What an unsafe cut needs to do harm ------------------------------------------------------

  /** Offsets do not matter for what is executed. */
  lemma {:induction false} SameLoad(kind: Cmd -> Kind, r: Bytes, c: Client, d: Client)
    requires c.executed == d.executed && c.multi == d.multi && c.queue == d.queue
    ensures Load(kind, r, c).status == Load(kind, r, d).status && Load(kind, r, c).executed == Load(kind, r, d).executed
    decreases |r|
  {
    hide ReadNext;
    var o := ReadNext(r);
    if o.Skip? {
      SameLoad(kind, o.rest, c.(pos := c.pos + (|r| - |o.rest|)), d.(pos := d.pos + (|r| - |o.rest|)));
    } else if o.Got? && !kind(o.args).Unknown? {
      SameLoad(kind, o.rest, RunCommand(kind, c, o.args, |r| - |o.rest|), RunCommand(kind, d, o.args, |r| - |o.rest|));
    }
  }

  lemma WholeAnnotation(t: nat) returns (line: Bytes)
    requires Fits(Timestamp(t))
    ensures EncodeItem(Timestamp(t)) == line + [LF] && NoLF(line) && |line| <= 30
  {
    hide Dec;
    SmallDec(t);
    line := [HASH] + ([84, 83, 58] + Dec(t) + [CR]);
  }

  /** A half annotation and a whole one after it read as one annotation. */
  lemma TwoAnnotations(next: Item, p: Bytes, t: nat, rest: Bytes)
    requires next.Timestamp? && Fits(next) && p != [] && p < EncodeItem(next)
    requires Fits(Timestamp(t))
    ensures ReadNext(p + (EncodeItem(Timestamp(t)) + rest)) == Skip(rest)
  {
    hide EncodeItem, ReadNext;
    HalfAnnotation(next, p);
    var line := WholeAnnotation(t);
    OneAnnotation(p, line, rest);
    assert p + ((line + [LF]) + rest) == p + line + [LF] + rest;
  }

  lemma AnnotationSurvives(kind: Cmd -> Kind, items: seq<Item>, next: Item, p: Bytes, t: nat, rest: seq<Item>)
    requires AllKnown(kind, items) && next.Timestamp? && Fits(next) && p != [] && p < EncodeItem(next)
    requires Fits(Timestamp(t)) && AllKnown(kind, rest) && !OpenMulti(kind, items)
    ensures var o := LoadFile(kind, Encode(items) + p + Encode([Timestamp(t)] + rest));
      && !o.status.AofFailed?
      && o.executed == Committed(kind, Commands(items)) + Committed(kind, Commands(rest))
  {
    hide Load, Encode, EncodeItem, ReadNext, After, Committed, Commands, OpenMulti, Known;
    var tail := Encode(rest);
    var r, client := p + (EncodeItem(Timestamp(t)) + tail), After(kind, NEW_CLIENT, items);
    TwoAnnotations(next, p, t, tail);
    EncodeOne(Timestamp(t));
    EncodeAppend([Timestamp(t)], rest);
    LoadStep(kind, r, client, Skip(tail));
    LoadAll(kind, items, r);
    assert Encode(items) + p + Encode([Timestamp(t)] + rest) == Encode(items) + r;
    LoadAll(kind, items, tail);
    SameLoad(kind, tail, client.(pos := client.pos + (|r| - |tail|)), client);
    EncodeAppend(items, rest);
    KnownAppend(kind, items, items, rest);
    WholeLoads(kind, items + rest);
    CommittedAppend(kind, items, rest);
  }

  lemma NothingCommitted(kind: Cmd -> Kind)
    ensures Committed(kind, Commands([])) == [] && Encode([]) == []
  {
  }

  /** After a cut inside an annotation outside MULTI, what is appended survives exactly when it
      does not begin with a command: the next annotation ends the line of the half one. */
  lemma AnnotationCutExact(kind: Cmd -> Kind, items: seq<Item>, next: Item, p: Bytes, more: seq<Item>)
    requires AllKnown(kind, items) && NoNesting(kind, items) && !OpenMulti(kind, items) && AllKnown(kind, more)
    requires next.Timestamp? && Fits(next) && p != [] && p < EncodeItem(next)
    ensures Survives(kind, items, p, more) <==> more == [] || more[0].Timestamp?
  {
    hide *;
    CutInAnnotation(kind, items, next, p);
    ReopenedFile(kind, items, next, p, more);
    FirstExecuted(kind, items, next, p);
    SurvivesMeans(kind, items, p, more, Encode(items) + p + Encode(more));
    if more == [] {
      NothingCommitted(kind);
      assert Encode(items) + p + [] == Encode(items) + p;
      var done := Committed(kind, Commands(items));
      assert done + [] == done;
      FirstNotFailed(kind, items, next, p);
    } else {
      FirstKnown(kind, more);
      var rest := more[1..];
      assert more == [more[0]] + rest;
      match more[0] {
        case Timestamp(t) =>
          AnnotationSurvives(kind, items, next, p, t, rest);
          AnnotationIsNoCommand(t, rest);
        case Command(c) =>
          GluedAnnotation(kind, items, next, p, c, rest);
      }
    }
  }

  lemma CutInAnnotation(kind: Cmd -> Kind, items: seq<Item>, next: Item, p: Bytes)
    requires next.Timestamp? && !OpenMulti(kind, items)
    ensures Kept(kind, items, p != [] && next.Command?) == items && Tail(kind, items, next, p) == p
  {
    hide OpenMulti;
  }

  lemma FirstKnown(kind: Cmd -> Kind, more: seq<Item>)
    requires more != [] && AllKnown(kind, more)
    ensures Known(kind, more[0]) && Fits(more[0]) && AllKnown(kind, more[1..])
  {
    hide Fits;
  }

  lemma AnnotationIsNoCommand(t: nat, rest: seq<Item>)
    ensures Commands([Timestamp(t)] + rest) == Commands(rest)
  {
    assert ([Timestamp(t)] + rest)[1..] == rest;
  }

  lemma FirstNotFailed(kind: Cmd -> Kind, items: seq<Item>, next: Item, p: Bytes)
    requires AllKnown(kind, items) && next.Timestamp? && Fits(next) && p < EncodeItem(next)
    ensures !LoadFile(kind, Encode(items) + p).status.AofFailed?
    ensures FirstLoad(kind, items, p) == LoadFile(kind, Encode(items) + p)
  {
    hide LoadFile, Encode, EncodeItem, After, AllKnown;
    LoadPrefix(kind, items, next, p);
  }

  /** The commands in the block that is still open. */
  function Queued(kind: Cmd -> Kind, items: seq<Item>): seq<Cmd> {
    TxRun(kind, NO_TX, Commands(items)).queue
  }

  /** No MULTI comes before the first EXEC. */
  predicate PlainToExec(kind: Cmd -> Kind, cs: seq<Cmd>) {
    cs == [] || kind(cs[0]).Exec? || (!kind(cs[0]).Multi? && PlainToExec(kind, cs[1..]))
  }

  /** Commands that execute the same inside a block that holds `queue` and outside. */
  predicate Indifferent(kind: Cmd -> Kind, queue: seq<Cmd>, cs: seq<Cmd>) {
    if FindExec(kind, cs) == |cs| then cs == [] || kind(cs[0]).Multi?
    else queue == [] && PlainToExec(kind, cs)
  }

  lemma NoExec(kind: Cmd -> Kind, cs: seq<Cmd>)
    requires FindExec(kind, cs) == |cs|
    ensures Committed(kind, cs) == [] <==> cs == [] || kind(cs[0]).Multi?
  {
  }

  lemma QueueFirst(kind: Cmd -> Kind, queue: seq<Cmd>, cs: seq<Cmd>)
    requires FindExec(kind, cs) < |cs|
    ensures FromBlock(kind, queue, cs) == queue + FromBlock(kind, [], cs)
  {
    hide FindExec, Committed;
    var n := FindExec(kind, cs);
    var rest := Committed(kind, cs[n + 1..]);
    assert [] + cs[..n] == cs[..n];
    assert queue + cs[..n] + rest == queue + (cs[..n] + rest);
  }

  /** Up to the first EXEC, being inside a block changes nothing but the queue in front, unless
      a MULTI comes first and is taken for a command of the block. */
  lemma {:induction false} UpToExec(kind: Cmd -> Kind, queue: seq<Cmd>, cs: seq<Cmd>)
    requires FindExec(kind, cs) < |cs|
    ensures PlainToExec(kind, cs) ==> FromBlock(kind, queue, cs) == queue + Committed(kind, cs)
    ensures !PlainToExec(kind, cs) ==> |FromBlock(kind, queue, cs)| > |queue| + |Committed(kind, cs)|
    decreases |cs|
  {
    hide FromBlock;
    var t := cs[1..];
    if kind(cs[0]).Exec? {
      FromBlockEnd(kind, queue, cs);
    } else {
      FromBlockStep(kind, queue, cs);
      if kind(cs[0]).Multi? {
        BlockStart(kind, cs);
        QueueFirst(kind, queue + [cs[0]], t);
      } else {
        UpToExec(kind, queue + [cs[0]], t);
        assert queue + [cs[0]] + Committed(kind, t) == queue + ([cs[0]] + Committed(kind, t));
      }
    }
  }

  lemma BlockOrNot(kind: Cmd -> Kind, queue: seq<Cmd>, cs: seq<Cmd>)
    ensures FromBlock(kind, queue, cs) == Committed(kind, cs) <==> Indifferent(kind, queue, cs)
  {
    if FindExec(kind, cs) == |cs| {
      NoExec(kind, cs);
    } else {
      hide FromBlock, Committed, FindExec, PlainToExec;
      UpToExec(kind, queue, cs);
    }
  }

  /** After a cut inside a command of an open MULTI, what is appended survives exactly when it
      runs the same inside that block. A server that writes EXEC only after MULTI meets this
      only with a block that it has not finished: every command it completes is lost. */
  lemma CommandCutExact(kind: Cmd -> Kind, items: seq<Item>, next: Item, p: Bytes, more: seq<Item>)
    requires AllKnown(kind, items) && NoNesting(kind, items) && OpenMulti(kind, items) && AllKnown(kind, more)
    requires next.Command? && Fits(next) && p != [] && p < EncodeItem(next)
    ensures Survives(kind, items, p, more) <==> Indifferent(kind, Queued(kind, items), Commands(more))
  {
    hide *;
    var kept := Kept(kind, items, true);
    CutInBlock(kind, items, next, p);
    ReopenedFile(kind, items, next, p, more);
    FirstExecuted(kind, items, next, p);
    KeptIsPrefix(kind, items, true);
    KnownAppend(kind, kept, items, more);
    EncodeAppend(kept, more);
    assert Encode(kept) + [] + Encode(more) == Encode(kept + more);
    WholeLoads(kind, kept + more);
    SurvivesMeans(kind, items, p, more, Encode(kept + more));
    CommittedInBlock(kind, items, kept, more);
    BlockOrNot(kind, Queued(kind, items), Commands(more));
    var done := Committed(kind, Commands(items));
    var x, y := FromBlock(kind, Queued(kind, items), Commands(more)), Committed(kind, Commands(more));
    assert (done + x)[|done|..] == x && (done + y)[|done|..] == y;
  }

  lemma CutInBlock(kind: Cmd -> Kind, items: seq<Item>, next: Item, p: Bytes)
    requires next.Command? && p != []
    ensures Kept(kind, items, p != [] && next.Command?) == Kept(kind, items, true)
    ensures Commands(Kept(kind, items, true)) == Commands(items)
    ensures Tail(kind, items, next, p) == []
  {
    LastCommandSplit(items);
  }

  lemma CommittedInBlock(kind: Cmd -> Kind, items: seq<Item>, kept: seq<Item>, more: seq<Item>)
    requires OpenMulti(kind, items) && Commands(kept) == Commands(items)
    ensures Committed(kind, Commands(kept + more))
         == Committed(kind, Commands(items)) + FromBlock(kind, Queued(kind, items), Commands(more))
  {
    hide Committed, Commands, TxRun, FromBlock;
    var ca, cb := Commands(kept), Commands(more);
    CommandsAppend(kept, more);
    TxAppend(kind, NO_TX, ca, cb);
    TxIsCommitted(kind, NO_TX, ca + cb);
    TxIsCommitted(kind, NO_TX, ca);
    TxIsCommitted(kind, TxRun(kind, NO_TX, ca), cb);
    assert [] + Committed(kind, ca) == Committed(kind, ca);
    assert [] + Committed(kind, ca + cb) == Committed(kind, ca + cb);
  }

  // ----- Numbers and headers that the server does not write ------------------------------------------

  predicate AllSpaces(s: Bytes) {
    forall i :: 0 <= i < |s| ==> s[i] in {9, 10, 11, 12, 13, 32}
  }

  /** atoi: white space, an optional sign, digits, and whatever follows them. */
  lemma {:induction false} AtoiMeans(spaces: Bytes, sign: Bytes, n: nat, t: Bytes)
    requires AllSpaces(spaces) && sign in {[], [43], [45]} && (t == [] || !IsDigit(t[0]))
    ensures var v := ParseInt(spaces + sign + Dec(n) + t); if sign == [45] then n + v == 0 else v == n
  {
    hide Dec, ParseDigits;
    var rest := sign + (Dec(n) + t);
    ParseDec(n, t);
    NoDigits(t, n);
    if spaces == [] {
      assert spaces + sign + Dec(n) + t == rest;
      assert sign == [] ==> rest == Dec(n) + t;
      assert sign != [] ==> rest[1..] == Dec(n) + t;
    } else {
      AtoiMeans(spaces[1..], sign, n, t);
      assert (spaces + sign + Dec(n) + t)[1..] == spaces[1..] + sign + Dec(n) + t;
    }
  }

  lemma NoDigits(t: Bytes, n: int)
    requires t == [] || !IsDigit(t[0])
    ensures ParseDigits(t, n) == n
  {
  }

  /** A header without a number is a truncation exactly if its line never ends. */
  lemma EmptyHeader(r: Bytes)
    requires r != [] && r[0] == STAR && (|r| == 1 || r[1] == 0)
    ensures ReadNext(r) == ReadError(NoLF(r) && |r| < LINE_MAX)
  {
    hide ReadArgs, ParseInt;
    LineEnds(r, LINE_MAX);
    if NoLF(r) && |r| < LINE_MAX {
      LineCut(r, LINE_MAX);
    }
  }

  /** No newline but the last byte of a line. */
  lemma {:induction false} LineEnds(r: Bytes, max: nat)
    ensures forall i :: 0 <= i < LineLen(r, max) - 1 ==> r[i] != LF
  {
    if r != [] && max > 0 && r[0] != LF {
      LineEnds(r[1..], max - 1);
      assert forall i :: 0 < i < |r| ==> r[i] == r[1..][i - 1];
    }
  }

  // ----- Damaged files ------------------------------------------------------------------------------

  ghost predicate NoCount(r: Bytes) {
    exists x: Bytes :: r == Header(STAR, 0) + x
  }

  ghost predicate BadArgument(r: Bytes, args: Cmd, n: nat) {
    && |args| < n < 0x8000_0000_0000_0000
    && (forall i :: 0 <= i < |args| ==> |args[i]| < 0x8000_0000_0000_0000)
    && exists x: Bytes :: x != [] && x[0] != DOLLAR && r == Header(STAR, n) + (EncodeArgs(args) + x)
  }

  ghost predicate UnknownCommand(kind: Cmd -> Kind, r: Bytes, c: Cmd) {
    Fits(Command(c)) && kind(c).Unknown? && exists x: Bytes :: r == EncodeCmd(c) + x
  }

  /** Neither an annotation nor a command where one should be; a command without arguments; a
      byte that starts no argument, where the announced number is not reached; a command that
      does not exist. */
  ghost predicate Damaged(kind: Cmd -> Kind, r: Bytes) {
    || (r != [] && r[0] != HASH && r[0] != STAR)
    || NoCount(r)
    || (exists args, n :: BadArgument(r, args, n))
    || (exists c :: UnknownCommand(kind, r, c))
  }

  lemma ReadNoCount(x: Bytes)
    ensures ReadNext(Header(STAR, 0) + x) == FormatError
  {
    hide ReadArgs;
    HeaderLine(STAR, 0, x);
    ParseHeader(0);
    assert (Header(STAR, 0) + x)[1] == Dec(0)[0];
  }

  lemma {:induction false} ReadBadArgs(args: Cmd, x: Bytes, argc: nat, sofar: Cmd)
    requires forall i :: 0 <= i < |args| ==> |args[i]| < 0x8000_0000_0000_0000
    requires x != [] && x[0] != DOLLAR && |args| < argc
    ensures ReadArgs(EncodeArgs(args) + x, argc, sofar) == FormatError
    decreases |args|
  {
    hide EncodeArg;
    if args == [] {
      assert EncodeArgs(args) + x == x;
    } else {
      var a, more := args[0], args[1..];
      var t := EncodeArgs(more);
      assert EncodeArgs(args) == EncodeArg(a) + t;
      hide EncodeArgs, ReadArg;
      assert EncodeArg(a) + t + x == EncodeArg(a) + (t + x);
      ReadWholeArg(a, t + x);
      ReadBadArgs(more, x, argc - 1, sofar + [a]);
    }
  }

  lemma ReadBadArgument(args: Cmd, x: Bytes, n: nat)
    requires forall i :: 0 <= i < |args| ==> |args[i]| < 0x8000_0000_0000_0000
    requires x != [] && x[0] != DOLLAR && |args| < n < 0x8000_0000_0000_0000
    ensures ReadNext(Header(STAR, n) + (EncodeArgs(args) + x)) == FormatError
  {
    hide EncodeArgs, ReadArgs;
    var h, body := Header(STAR, n), EncodeArgs(args) + x;
    HeaderLine(STAR, n, body);
    ParseHeader(n);
    assert (h + body)[|h|..] == body && (h + body)[1] == Dec(n)[0];
    ReadBadArgs(args, x, n, []);
  }

  /** A log with damage behind whole items is refused, after the commands before it. */
  lemma DamageIsRefused(kind: Cmd -> Kind, items: seq<Item>, r: Bytes)
    requires AllKnown(kind, items) && Damaged(kind, r)
    ensures LoadFile(kind, Encode(items) + r).status == AofFailed
    ensures LoadFile(kind, Encode(items) + r).executed == Committed(kind, Commands(items))
  {
    hide Encode, EncodeArgs, EncodeItem, After, Committed, Commands, AllKnown, Header, EncodeCmd, ReadArgs, LineLen,
      ParseInt;
    LoadAll(kind, items, r);
    ExecutedIsCommitted(kind, items);
    if x: Bytes :| r == Header(STAR, 0) + x {
      ReadNoCount(x);
    } else if args, n :| BadArgument(r, args, n) {
      var x: Bytes :| x != [] && x[0] != DOLLAR && r == Header(STAR, n) + (EncodeArgs(args) + x);
      ReadBadArgument(args, x, n);
    } else if c :| UnknownCommand(kind, r, c) {
      var x: Bytes :| r == EncodeCmd(c) + x;
      ReadOneCommand(c, x);
    }
  }

  lemma ReadOneCommand(c: Cmd, x: Bytes)
    requires Fits(Command(c))
    ensures ReadNext(EncodeCmd(c) + x) == Got(c, x)
  {
    ReadWhole(Command(c), x);
  }

  const PING: Cmd := [[80]]
  const BEGIN: Cmd := [[77]]

  /** Such cuts happen: the first byte of a command after MULTI. */
  lemma UnsafeCutExists() returns (kind: Cmd -> Kind, items: seq<Item>, next: Item, p: Bytes)
    ensures AllKnown(kind, items) && NoNesting(kind, items) && Fits(next) && p != [] && p < EncodeItem(next)
    ensures Known(kind, Command(PING)) && kind(PING).Other?
    ensures !SafeCut(kind, items, next, p)
  {
    kind := (c: Cmd) => if c == BEGIN then Multi else Other;
    items, next, p := [Command(BEGIN)], Command(PING), [STAR];
    assert BEGIN[0][0] != PING[0][0];
    OpenSnoc(kind, [], Command(BEGIN));
    NothingYet(kind);
    assert [] + [Command(BEGIN)] == items;
    assert items[..0] == [];
    assert EncodeItem(next)[0] == STAR;
    assert p == EncodeItem(next)[..1];
    assert |EncodeItem(next)| > 1;
  }
}
