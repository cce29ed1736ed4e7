/** Rebuilding a value from commands of bounded size: rewriteListObject, rewriteSetObject and
    rewriteHashObject, from the value through the bytes of the log and back to the value. */
module AofRewrite {
  import opened Options
  import opened Words
  import opened AofLog
  import opened AofLogProofs

  const ITEMS_PER_CMD: nat := 64

  const RPUSH: Bytes := [82, 80, 85, 83, 72]
  const SADD: Bytes := [83, 65, 68, 68]
  const HMSET: Bytes := [72, 77, 83, 69, 84]

  // ----- The commands -----------------------------------------------------------------------

  /** Items written one after the other; a list or set item is one argument, a hash item two. */
  function Flat(items: seq<Cmd>): Cmd {
    if items == [] then [] else items[0] + Flat(items[1..])
  }

  function Chunk(n: nat): (m: nat)
    ensures m <= n && (n > 0 ==> m > 0)
  {
    if n > ITEMS_PER_CMD then ITEMS_PER_CMD else n
  }

  function Commands(name: Bytes, key: Bytes, items: seq<Cmd>): seq<Item>
    decreases |items|
  {
    if items == [] then []
    else
      var m := Chunk(|items|);
      [Command([name, key] + Flat(items[..m]))] + Commands(name, key, items[m..])
  }

  ghost predicate Wide(items: seq<Cmd>, width: nat) {
    forall i :: 0 <= i < |items| ==> |items[i]| == width
  }

  /** No more commands than needed: all but the last are full. */
  lemma {:induction false} CommandCount(name: Bytes, key: Bytes, items: seq<Cmd>)
    ensures |Commands(name, key, items)| == (|items| + 63) / 64
    decreases |items|
  {
    if items != [] {
      CommandCount(name, key, items[Chunk(|items|)..]);
    }
  }

  // ----- The emitting loop ------------------------------------------------------------------

  /** What is still to be written once `room` more items fit into the command being written. */
  function Tail(name: Bytes, key: Bytes, items: seq<Cmd>, room: nat): Bytes {
    var m := if |items| < room then |items| else room;
    EncodeArgs(Flat(items[..m])) + Encode(Commands(name, key, items[m..]))
  }

  lemma {:induction false} EncodeArgsAppend(a: Cmd, b: Cmd)
    ensures EncodeArgs(a + b) == EncodeArgs(a) + EncodeArgs(b)
  {
    if a == [] {
      assert a + b == b;
    } else {
      assert (a + b)[1..] == a[1..] + b;
      EncodeArgsAppend(a[1..], b);
      var x, y, z := EncodeArg(a[0]), EncodeArgs(a[1..]), EncodeArgs(b);
      assert x + (y + z) == x + y + z;
    }
  }

  lemma {:induction false} FlatLength(items: seq<Cmd>, width: nat)
    requires Wide(items, width)
    ensures |Flat(items)| == |items| * width
  {
    if items != [] {
      FlatLength(items[1..], width);
    }
  }

  /** A new command: the header announces what follows. */
  lemma OpenCommand(name: Bytes, key: Bytes, items: seq<Cmd>)
    requires items != []
    ensures Encode(Commands(name, key, items))
         == Header(STAR, 2 + |Flat(items[..Chunk(|items|)])|) + EncodeArg(name) + EncodeArg(key)
            + Tail(name, key, items, ITEMS_PER_CMD)
  {
    hide Encode, EncodeArgs, EncodeArg, EncodeCmd, Header, Commands, Flat;
    var m := Chunk(|items|);
    var flat := Flat(items[..m]);
    EncodeFirst(name, key, items);
    EncodeNamed(name, key, flat);
    NoSuffix(items, m);
    var rest := Encode(Commands(name, key, items[m..]));
    var h, a, b, f := Header(STAR, 2 + |flat|), EncodeArg(name), EncodeArg(key), EncodeArgs(flat);
    assert (h + a + b + f) + rest == h + a + b + (f + rest);
  }

  lemma EncodeFirst(name: Bytes, key: Bytes, items: seq<Cmd>)
    requires items != []
    ensures var m := Chunk(|items|);
      Encode(Commands(name, key, items))
        == EncodeCmd([name, key] + Flat(items[..m])) + Encode(Commands(name, key, items[m..]))
  {
    hide EncodeCmd, Flat;
    var m := Chunk(|items|);
    var c, rest := Command([name, key] + Flat(items[..m])), Commands(name, key, items[m..]);
    assert Commands(name, key, items) == [c] + rest;
    assert ([c] + rest)[0] == c && ([c] + rest)[1..] == rest;
  }

  lemma EncodeNamed(name: Bytes, key: Bytes, flat: Cmd)
    ensures EncodeCmd([name, key] + flat)
         == Header(STAR, 2 + |flat|) + EncodeArg(name) + EncodeArg(key) + EncodeArgs(flat)
  {
    hide EncodeArg, EncodeArgs, Header;
    EncodeArgsAppend([name, key], flat);
    EncodeTwo(name, key);
    var h, a, b, f := Header(STAR, 2 + |flat|), EncodeArg(name), EncodeArg(key), EncodeArgs(flat);
    assert h + (a + b + f) == h + a + b + f;
  }

  lemma EncodeTwo(name: Bytes, key: Bytes)
    ensures EncodeArgs([name, key]) == EncodeArg(name) + EncodeArg(key)
  {
    hide EncodeArg, EncodeArgs;
    var two, one := [name, key], [key];
    EncodeArgsCons(two);
    EncodeArgsCons(one);
    assert two[1..] == one && one[1..] == [];
    EncodeNone();
    assert EncodeArg(key) + [] == EncodeArg(key);
  }

  lemma EncodeArgsCons(args: Cmd)
    requires args != []
    ensures EncodeArgs(args) == EncodeArg(args[0]) + EncodeArgs(args[1..])
  {
  }

  lemma EncodeNone()
    ensures EncodeArgs([]) == []
  {
  }

  /** The part of the command being written that is covered by a room of ITEMS_PER_CMD. */
  lemma NoSuffix(items: seq<Cmd>, m: nat)
    requires m == Chunk(|items|)
    ensures m == if |items| < ITEMS_PER_CMD then |items| else ITEMS_PER_CMD
  {
  }

  lemma {:induction false} FlatAppend(a: seq<Cmd>, b: seq<Cmd>)
    ensures Flat(a + b) == Flat(a) + Flat(b)
  {
    if a == [] {
      assert a + b == b;
    } else {
      assert (a + b)[1..] == a[1..] + b;
      FlatAppend(a[1..], b);
      var x, y, z := a[0], Flat(a[1..]), Flat(b);
      assert x + (y + z) == x + y + z;
    }
  }

  lemma OneItem(name: Bytes, key: Bytes, items: seq<Cmd>, room: nat)
    requires items != [] && room > 0
    ensures Tail(name, key, items, room) == EncodeArgs(items[0]) + Tail(name, key, items[1..], room - 1)
  {
    hide Encode, EncodeArgs, Commands, Flat;
    var m := if |items| < room then |items| else room;
    FlatCons(items[..m]);
    assert items[..m][1..] == items[1..][..m - 1];
    assert items[m..] == items[1..][m - 1..];
    var x, y := items[0], Flat(items[1..][..m - 1]);
    EncodeArgsAppend(x, y);
    var a, b, c := EncodeArgs(x), EncodeArgs(y), Encode(Commands(name, key, items[m..]));
    assert (a + b) + c == a + (b + c);
  }

  lemma FlatCons(items: seq<Cmd>)
    requires items != []
    ensures Flat(items) == items[0] + Flat(items[1..])
  {
  }

  lemma NoRoom(name: Bytes, key: Bytes, items: seq<Cmd>)
    ensures Tail(name, key, items, 0) == Encode(Commands(name, key, items))
  {
    assert items[..0] == [] && items[0..] == items;
    var e := Encode(Commands(name, key, items));
    assert [] + e == e;
  }

  lemma NothingLeft(name: Bytes, key: Bytes, room: nat)
    ensures Tail(name, key, [], room) == [] && Encode(Commands(name, key, [])) == []
  {
  }

  /** The loop of rewriteListObject and rewriteSetObject (width 1) and rewriteHashObject
      (width 2). Every header is written before the items it counts, from nothing but the
      number of items left; still the bytes are exactly the encoded commands, each with the
      right count and none with more than ITEMS_PER_CMD items. */
  method RewriteItems(name: Bytes, key: Bytes, elements: seq<Cmd>, width: nat) returns (out: Bytes)
    requires Wide(elements, width)
    ensures out == Encode(Commands(name, key, elements))
  {
    hide Commands, Encode, Tail, EncodeArg, EncodeArgs, Header, Wide, Chunk, Flat;
    out := [];
    var count, items := 0, |elements|;
    ghost var total := Encode(Commands(name, key, elements));
    assert elements[0..] == elements;
    var i := 0;
    while i < |elements|
      invariant 0 <= i <= |elements| && items == |elements| - i
      invariant 0 <= count < ITEMS_PER_CMD
      invariant count == 0 ==> out + Encode(Commands(name, key, elements[i..])) == total
      invariant count > 0 ==> out + Tail(name, key, elements[i..], ITEMS_PER_CMD - count) == total
    {
      ghost var left := elements[i..];
      if count == 0 {
        WideSuffix(elements, i, width);
        OpenCommand(name, key, left);
        ChunkOf(items);
        WidePrefix(left, Chunk(items), width);
        FlatLength(left[..Chunk(items)], width);
        var cmdItems := if items > ITEMS_PER_CMD then ITEMS_PER_CMD else items;
        ghost var before, tail := out, Tail(name, key, left, ITEMS_PER_CMD);
        out := out + Header(STAR, 2 + cmdItems * width);
        out := out + EncodeArg(name);
        out := out + EncodeArg(key);
        Regroup(before, Header(STAR, 2 + cmdItems * width), EncodeArg(name), EncodeArg(key), tail);
      }
      OneItem(name, key, left, ITEMS_PER_CMD - count);
      assert left[0] == elements[i] && left[1..] == elements[i + 1..];
      ghost var before, tail := out, Tail(name, key, left[1..], ITEMS_PER_CMD - count - 1);
      out := out + EncodeArgs(elements[i]);
      assert before + (EncodeArgs(elements[i]) + tail) == before + EncodeArgs(elements[i]) + tail;
      NoRoom(name, key, left[1..]);
      count := count + 1;
      if count == ITEMS_PER_CMD {
        count := 0;
      }
      items := items - 1;
      i := i + 1;
    }
    assert elements[i..] == [];
    NothingLeft(name, key, ITEMS_PER_CMD - count);
    assert out + [] == out;
  }

  lemma ChunkOf(n: nat)
    ensures Chunk(n) == if n > ITEMS_PER_CMD then ITEMS_PER_CMD else n
  {
  }

  lemma WideSuffix(items: seq<Cmd>, i: nat, width: nat)
    requires Wide(items, width) && i <= |items|
    ensures Wide(items[i..], width)
  {
  }

  lemma WidePrefix(items: seq<Cmd>, i: nat, width: nat)
    requires Wide(items, width) && i <= |items|
    ensures Wide(items[..i], width)
  {
  }

  lemma Regroup(o: Bytes, h: Bytes, a: Bytes, b: Bytes, t: Bytes)
    ensures o + (h + a + b + t) == o + h + a + b + t
  {
  }

  // ----- Replaying the commands --------------------------------------------------------------

  datatype Value = ListValue(items: seq<Bytes>) | SetValue(members: set<Bytes>) | HashValue(fields: map<Bytes, Bytes>)

  type Db = map<Bytes, Value>

  function SetFields(m: map<Bytes, Bytes>, args: Cmd): map<Bytes, Bytes>
    decreases |args|
  {
    if |args| < 2 then m else SetFields(m[args[0] := args[1]], args[2..])
  }

  /** RPUSH, SADD and HMSET on the value of one key; a value of another type is left alone. */
  function Add(name: Bytes, v: Option<Value>, args: Cmd): Option<Value> {
    if name == RPUSH then
      match v
      case None => Some(ListValue(args))
      case Some(ListValue(l)) => Some(ListValue(l + args))
      case _ => v
    else if name == SADD then
      match v
      case None => Some(SetValue(set x | x in args))
      case Some(SetValue(s)) => Some(SetValue(s + set x | x in args))
      case _ => v
    else if name == HMSET && |args| % 2 == 0 then
      match v
      case None => Some(HashValue(SetFields(map[], args)))
      case Some(HashValue(m)) => Some(HashValue(SetFields(m, args)))
      case _ => v
    else v
  }

  function Lookup(db: Db, key: Bytes): Option<Value> {
    if key in db then Some(db[key]) else None
  }

  function Execute(db: Db, c: Cmd): Db {
    if |c| < 3 then db
    else
      match Add(c[0], Lookup(db, c[1]), c[2..])
      case None => db
      case Some(v) => db[c[1] := v]
  }

  function Replay(db: Db, cs: seq<Cmd>): Db
    decreases |cs|
  {
    if cs == [] then db else Replay(Execute(db, cs[0]), cs[1..])
  }

  lemma {:induction false} SetFieldsAppend(m: map<Bytes, Bytes>, a: Cmd, b: Cmd)
    requires |a| % 2 == 0
    ensures SetFields(m, a + b) == SetFields(SetFields(m, a), b)
    decreases |a|
  {
    if a == [] {
      assert a + b == b;
    } else {
      assert (a + b)[2..] == a[2..] + b;
      SetFieldsAppend(m[a[0] := a[1]], a[2..], b);
    }
  }

  predicate Rebuilds(name: Bytes, width: nat) {
    (width == 1 && (name == RPUSH || name == SADD)) || (width == 2 && name == HMSET)
  }

  /** Two commands do what one command with all the items would do. */
  lemma AddAppend(name: Bytes, width: nat, v: Option<Value>, a: Cmd, b: Cmd)
    requires Rebuilds(name, width) && |a| % width == 0 && |b| % width == 0
    ensures Add(name, Add(name, v, a), b) == Add(name, v, a + b)
  {
    hide SetFields;
    match v {
      case None =>
      case Some(ListValue(l)) => assert l + a + b == l + (a + b);
      case Some(SetValue(s)) =>
      case Some(HashValue(m)) =>
        if name == HMSET {
          SetFieldsAppend(m, a, b);
        }
    }
    if v == None && name == HMSET {
      SetFieldsAppend(map[], a, b);
    }
    if v == None && name == SADD {
      assert (set x | x in a) + (set x | x in b) == set x | x in a + b;
    }
    if v.Some? && v.value.SetValue? && name == SADD {
      var s := v.value.members;
      assert s + (set x | x in a) + (set x | x in b) == s + set x | x in a + b;
    }
  }

  lemma ExecuteChunk(db: Db, name: Bytes, width: nat, key: Bytes, a: Cmd)
    requires Rebuilds(name, width) && a != [] && |a| % width == 0
    ensures var v := Add(name, Lookup(db, key), a);
      Execute(db, [name, key] + a) == (if v.Some? then db[key := v.value] else db)
      && v.Some?
  {
    hide SetFields;
    var c := [name, key] + a;
    assert c[2..] == a && c[0] == name && c[1] == key;
  }

  function CommandsOf(items: seq<Item>): seq<Cmd> {
    AofLogProofs.Commands(items)
  }

  lemma CommandsOfCons(c: Cmd, items: seq<Item>)
    ensures CommandsOf([Command(c)] + items) == [c] + CommandsOf(items)
  {
    assert ([Command(c)] + items)[1..] == items;
  }

  /** Chunking has no effect on the value: the commands do what one command with all the items
      would do, whatever the key held before. */
  lemma {:induction false} ReplayChunks(db: Db, name: Bytes, width: nat, key: Bytes, items: seq<Cmd>)
    requires Rebuilds(name, width) && Wide(items, width) && items != []
    ensures Add(name, Lookup(db, key), Flat(items)).Some?
    ensures Replay(db, CommandsOf(Commands(name, key, items)))
         == db[key := Add(name, Lookup(db, key), Flat(items)).value]
    decreases |items|
  {
    hide Add, Execute, SetFields, Flat;
    var m := Chunk(|items|);
    var a, b := Flat(items[..m]), Flat(items[m..]);
    var v := Add(name, Lookup(db, key), a);
    FlatLength(items[..m], width);
    FlatLength(items[m..], width);
    FlatAppend(items[..m], items[m..]);
    assert items == items[..m] + items[m..];
    Multiple(m, width);
    Multiple(|items| - m, width);
    ExecuteChunk(db, name, width, key, a);
    AddAppend(name, width, Lookup(db, key), a, b);
    CommandsOfCons([name, key] + a, Commands(name, key, items[m..]));
    var cs := CommandsOf(Commands(name, key, items));
    assert cs[0] == [name, key] + a && cs[1..] == CommandsOf(Commands(name, key, items[m..]));
    if m < |items| {
      var db1 := db[key := v.value];
      ReplayChunks(db1, name, width, key, items[m..]);
      assert db1[key := Add(name, v, b).value] == db[key := Add(name, v, b).value];
    } else {
      assert b == [] && a + b == a;
    }
  }

  lemma Multiple(n: nat, width: nat)
    requires 0 < width <= 2
    ensures (n * width) % width == 0 && (n > 0 ==> n * width > 0)
  {
  }

  // ----- The three value types ---------------------------------------------------------------

  function Singles(l: seq<Bytes>): (items: seq<Cmd>)
    ensures |items| == |l| && forall i :: 0 <= i < |l| ==> items[i] == [l[i]]
  {
    seq(|l|, i requires 0 <= i < |l| => [l[i]])
  }

  lemma {:induction false} FlatSingles(l: seq<Bytes>)
    ensures Flat(Singles(l)) == l
  {
    if l != [] {
      FlatSingles(l[1..]);
      assert Singles(l)[1..] == Singles(l[1..]);
      assert [l[0]] + l[1..] == l;
    }
  }

  /** A list comes back with its items in order. */
  lemma ListRebuilt(db: Db, key: Bytes, l: seq<Bytes>)
    requires key !in db && l != []
    ensures Replay(db, CommandsOf(Commands(RPUSH, key, Singles(l)))) == db[key := ListValue(l)]
  {
    FlatSingles(l);
    ReplayChunks(db, RPUSH, 1, key, Singles(l));
  }

  /** A set comes back in whatever order the iterator visits it. */
  lemma SetRebuilt(db: Db, key: Bytes, s: set<Bytes>, order: seq<Bytes>)
    requires key !in db && s != {} && s == (set x | x in order)
    ensures Replay(db, CommandsOf(Commands(SADD, key, Singles(order)))) == db[key := SetValue(s)]
  {
    assert order != [];
    FlatSingles(order);
    ReplayChunks(db, SADD, 1, key, Singles(order));
    assert RPUSH != SADD;
  }

  function Pairs(m: map<Bytes, Bytes>, order: seq<Bytes>): (items: seq<Cmd>)
    requires forall i :: 0 <= i < |order| ==> order[i] in m
    ensures |items| == |order| && forall i :: 0 <= i < |order| ==> items[i] == [order[i], m[order[i]]]
  {
    seq(|order|, i requires 0 <= i < |order| => [order[i], m[order[i]]])
  }

  lemma {:induction false} SetPairs(start: map<Bytes, Bytes>, m: map<Bytes, Bytes>, order: seq<Bytes>)
    requires forall i :: 0 <= i < |order| ==> order[i] in m
    ensures SetFields(start, Flat(Pairs(m, order))) == start + map f | f in order :: m[f]
    decreases |order|
  {
    if order == [] {
      assert Flat(Pairs(m, order)) == [];
    } else {
      var f := order[0];
      FlatPairs(m, order);
      var flat, rest := Flat(Pairs(m, order)), Flat(Pairs(m, order[1..]));
      assert flat[0] == f && flat[1] == m[f] && flat[2..] == rest;
      SetPairs(start[f := m[f]], m, order[1..]);
      MergeOne(start, m, order);
    }
  }

  lemma FlatPairs(m: map<Bytes, Bytes>, order: seq<Bytes>)
    requires order != [] && forall i :: 0 <= i < |order| ==> order[i] in m
    ensures Flat(Pairs(m, order)) == [order[0], m[order[0]]] + Flat(Pairs(m, order[1..]))
  {
    assert Pairs(m, order)[1..] == Pairs(m, order[1..]);
  }

  lemma MergeOne(start: map<Bytes, Bytes>, m: map<Bytes, Bytes>, order: seq<Bytes>)
    requires order != [] && forall i :: 0 <= i < |order| ==> order[i] in m
    ensures start[order[0] := m[order[0]]] + (map g | g in order[1..] :: m[g]) == start + map g | g in order :: m[g]
  {
    assert order == [order[0]] + order[1..];
  }

  /** A hash comes back in whatever order the iterator visits its fields. */
  lemma HashRebuilt(db: Db, key: Bytes, m: map<Bytes, Bytes>, order: seq<Bytes>)
    requires key !in db && m != map[]
    requires forall f :: f in order <==> f in m
    ensures Replay(db, CommandsOf(Commands(HMSET, key, Pairs(m, order)))) == db[key := HashValue(m)]
  {
    assert order == [] ==> m == map[];
    ReplayChunks(db, HMSET, 2, key, Pairs(m, order));
    SetPairs(map[], m, order);
    assert map[] + (map f | f in order :: m[f]) == m;
    FlatLength(Pairs(m, order), 2);
    assert HMSET != RPUSH && HMSET != SADD;
  }

  // ----- Through the bytes -------------------------------------------------------------------

  ghost predicate Storable(b: Bytes) {
    |b| < 0x8000_0000_0000_0000
  }

  lemma {:induction false} CommandsFit(name: Bytes, width: nat, key: Bytes, items: seq<Cmd>)
    requires Rebuilds(name, width) && Wide(items, width) && Storable(key)
    requires forall i, j :: 0 <= i < |items| && 0 <= j < |items[i]| ==> Storable(items[i][j])
    ensures forall i :: 0 <= i < |Commands(name, key, items)| ==> Fits(Commands(name, key, items)[i])
    ensures forall i :: 0 <= i < |Commands(name, key, items)| ==>
      var it := Commands(name, key, items)[i];
      it.Command? && 2 < |it.args| <= 2 + ITEMS_PER_CMD * width && it.args[0] == name
    decreases |items|
  {
    if items != [] {
      var m := Chunk(|items|);
      var cs := Commands(name, key, items);
      FlatLength(items[..m], width);
      FlatStorable(items[..m]);
      Bounded(m, width);
      CommandsFit(name, width, key, items[m..]);
      assert cs[0] == Command([name, key] + Flat(items[..m]));
      forall i | 0 < i < |cs| ensures cs[i] == Commands(name, key, items[m..])[i - 1] {
      }
    }
  }

  lemma Bounded(m: nat, width: nat)
    requires 0 < m <= ITEMS_PER_CMD && 0 < width <= 2
    ensures 0 < m * width <= ITEMS_PER_CMD * width <= 128
  {
  }

  lemma {:induction false} FlatStorable(items: seq<Cmd>)
    requires forall i, j :: 0 <= i < |items| && 0 <= j < |items[i]| ==> Storable(items[i][j])
    ensures forall k :: 0 <= k < |Flat(items)| ==> Storable(Flat(items)[k])
  {
    if items != [] {
      FlatStorable(items[1..]);
    }
  }

  lemma {:induction false} PlainCommitted(kind: Cmd -> Kind, cs: seq<Cmd>)
    requires forall i :: 0 <= i < |cs| ==> kind(cs[i]) == Other
    ensures Committed(kind, cs) == cs && !TxRun(kind, NO_TX, cs).multi
  {
    if cs != [] {
      PlainCommitted(kind, cs[1..]);
      assert [cs[0]] + cs[1..] == cs;
      PlainTx(kind, NO_TX, cs);
    }
  }

  lemma {:induction false} PlainTx(kind: Cmd -> Kind, t: Tx, cs: seq<Cmd>)
    requires !t.multi && forall i :: 0 <= i < |cs| ==> kind(cs[i]) == Other
    ensures !TxRun(kind, t, cs).multi
    decreases |cs|
  {
    if cs != [] {
      PlainTx(kind, TxStep(kind, t, cs[0]), cs[1..]);
    }
  }

  lemma {:induction false} CommandsOfAll(items: seq<Item>)
    requires forall i :: 0 <= i < |items| ==> items[i].Command?
    ensures |CommandsOf(items)| == |items|
    ensures forall i :: 0 <= i < |items| ==> CommandsOf(items)[i] == items[i].args
  {
    if items != [] {
      CommandsOfAll(items[1..]);
      assert CommandsOf(items) == [items[0].args] + CommandsOf(items[1..]);
    }
  }

  /** The bytes a rewrite emits for a value load back, on an empty key, as that value. */
  lemma RewriteLoads(kind: Cmd -> Kind, name: Bytes, width: nat, key: Bytes, items: seq<Cmd>, db: Db)
    requires Rebuilds(name, width) && Wide(items, width) && Storable(key) && items != []
    requires forall i, j :: 0 <= i < |items| && 0 <= j < |items[i]| ==> Storable(items[i][j])
    requires forall c: Cmd :: c != [] && c[0] == name ==> kind(c) == Other
    ensures var o := LoadFile(kind, Encode(Commands(name, key, items)));
      && o.status == AofOk
      && Add(name, Lookup(db, key), Flat(items)).Some?
      && Replay(db, o.executed) == db[key := Add(name, Lookup(db, key), Flat(items)).value]
  {
    hide LoadFile, Encode, Add, Execute, Replay, Committed, TxRun, Flat, Commands;
    var cs := Commands(name, key, items);
    CommandsFit(name, width, key, items);
    CommandsOfAll(cs);
    PlainCommitted(kind, CommandsOf(cs));
    FullLogLoads(kind, cs);
    ReplayChunks(db, name, width, key, items);
  }
}
