/** CRC-64 as Redis computes it: the bit-by-bit reference `_crc64`, the lookup tables of
    crcspeed.c, and the slice-by-8 readers for little- and big-endian machines.

    Words are 64 bits with index 0 least significant: `Down` is `>>`, `Up` is `<<`. */
module Crc64 {
  import opened Words
  import opened CrcRegister

  const POLY: Bits := Constant(0xad93d23594c935a9, 64)
  const REFLECTED: Bits := Reverse(POLY)

  function Octets(s: seq<Byte>): (o: seq<Octet>)
    ensures |o| == |s| && forall i :: 0 <= i < |s| ==> o[i] == ByteBits(s[i])
  {
    seq(|s|, i requires 0 <= i < |s| => ByteBits(s[i]))
  }

  // ----- The reference: one bit at a time, most significant bit first ---------------

  function Step(crc: Bits, bit: bool): (y: Bits)
    requires |crc| == 64
    ensures |y| == 64
  {
    if crc[63] != bit then Xor(Up(crc, 1), POLY) else Up(crc, 1)
  }

  function Steps(crc: Bits, c: Octet, k: nat): (y: Bits)
    requires |crc| == 64 && k <= 8
    ensures |y| == 64
  {
    if k == 0 then crc else Step(Steps(crc, c, k - 1), c[k - 1])
  }

  /** The register of `_crc64` after all of `s`, before the final reflection. */
  function Raw(crc: Bits, s: seq<Octet>): (y: Bits)
    requires |crc| == 64
    ensures |y| == 64
  {
    if s == [] then crc else Steps(Raw(crc, s[..|s| - 1]), s[|s| - 1], 8)
  }

  /** What `_crc64` returns. */
  function Bitwise(crc: Bits, s: seq<Octet>): (y: Bits)
    requires |crc| == 64
    ensures |y| == 64
  {
    Reverse(Raw(crc, s))
  }

  /** crc_reflect at the width it is used with. */
  method CrcReflect(data: Bits) returns (ret: Bits)
    requires |data| == 64
    ensures ret == Reverse(data)
  {
    var d := data;
    ret := Pad([d[0]], 64);
    for i := 1 to 64
      invariant d == Down(data, i - 1)
      invariant ret == Pad(Reverse(data[..i]), 64)
    {
      d := Down(d, 1);
      PushLow(Reverse(data[..i]), d[0]);
      ReversePrefix(data, i);
      ret := Or(Up(ret, 1), Pad([d[0]], 64));
    }
    assert data[..64] == data;
  }

  lemma PushLow(a: Bits, b: bool)
    requires |a| < 64
    ensures Or(Up(Pad(a, 64), 1), Pad([b], 64)) == Pad([b] + a, 64)
  {
  }

  lemma ReversePrefix(a: Bits, i: nat)
    requires i < |a|
    ensures Reverse(a[..i + 1]) == [a[i]] + Reverse(a[..i])
  {
  }

  /** `_crc64`. */
  method CrcBitwise(start: Bits, data: seq<Byte>) returns (r: Bits)
    requires |start| == 64
    ensures r == Bitwise(start, Octets(data))
  {
    var crc := start;
    for offset := 0 to |data|
      invariant |crc| == 64 && crc == Raw(start, Octets(data)[..offset])
    {
      var c := ByteBits(data[offset]);
      ghost var before := crc;
      for i := 0 to 8
        invariant |crc| == 64 && crc == Steps(before, c, i)
      {
        var bit := crc[63];
        if c[i] {
          bit := !bit;
        }
        crc := Up(crc, 1);
        if bit {
          crc := Xor(crc, POLY);
        }
      }
      assert Octets(data)[..offset + 1][..offset] == Octets(data)[..offset];
    }
    assert Octets(data)[..|data|] == Octets(data);
    r := CrcReflect(crc);
  }

  // ----- The reference is the table-free reflected register ---------------------------

  lemma ReverseTwice(x: Bits)
    ensures Reverse(Reverse(x)) == x
  {
  }

  lemma ReverseStep(crc: Bits, bit: bool)
    requires |crc| == 64
    ensures Reverse(Step(crc, bit)) == Shift(REFLECTED, Xor(Reverse(crc), Pad([bit], 64)))
  {
    hide Constant;
    ReverseShift(POLY, crc, bit);
  }

  lemma ReverseShift(poly: Bits, crc: Bits, bit: bool)
    requires |crc| == |poly| == 64
    ensures Reverse(if crc[63] != bit then Xor(Up(crc, 1), poly) else Up(crc, 1))
         == Shift(Reverse(poly), Xor(Reverse(crc), Pad([bit], 64)))
  {
    hide Shift, Xor, Reverse, Up, Pad;
    var x := Xor(Reverse(crc), Pad([bit], 64));
    assert x[0] == (crc[63] != bit);
    var y := if crc[63] != bit then Xor(Up(crc, 1), poly) else Up(crc, 1);
    forall i | 0 <= i < 64 ensures Reverse(y)[i] == Shift(Reverse(poly), x)[i] {
      if i < 63 {
        assert x[i + 1] == crc[62 - i];
      }
    }
  }

  lemma {:induction false} ReverseSteps(crc: Bits, c: Octet, k: nat)
    requires |crc| == 64 && k <= 8
    ensures Reverse(Steps(crc, c, k)) == FeedBits(REFLECTED, Reverse(crc), c, k)
  {
    if k > 0 {
      ReverseSteps(crc, c, k - 1);
      ReverseStep(Steps(crc, c, k - 1), c[k - 1]);
    }
  }

  lemma {:induction false} ReverseRaw(crc: Bits, s: seq<Octet>)
    requires |crc| == 64
    ensures Reverse(Raw(crc, s)) == Crc(REFLECTED, Reverse(crc), s)
  {
    if s != [] {
      var t, c := s[..|s| - 1], s[|s| - 1];
      ReverseRaw(crc, t);
      ReverseSteps(Raw(crc, t), c, 8);
      FeedBitsAll(REFLECTED, Reverse(Raw(crc, t)), c);
    }
  }

  /** Started from the reflection of `c`, the bit-by-bit reference returns what the
      reflected register holds when started from `c` itself. */
  lemma ReferenceIsRegister(c: Bits, s: seq<Octet>)
    requires |c| == 64
    ensures Bitwise(Reverse(c), s) == Crc(REFLECTED, c, s)
  {
    ReverseRaw(Reverse(c), s);
    ReverseTwice(c);
  }

  // ----- Tables ------------------------------------------------------------------------

  /** Level `k` of the little-endian table at byte `n`. */
  function TableEntry(k: nat, n: Byte): (y: Bits)
    ensures |y| == 64
  {
    Entry(REFLECTED, k, ByteBits(n))
  }

  ghost predicate LittleTable(table: array2<Bits>)
    reads table
  {
    && table.Length0 == 8 && table.Length1 == 256
    && forall k, n :: 0 <= k < 8 && 0 <= n < 256 ==> table[k, n] == TableEntry(k, n)
  }

  ghost predicate BigTable(table: array2<Bits>)
    reads table
  {
    && table.Length0 == 8 && table.Length1 == 256
    && forall k, n :: 0 <= k < 8 && 0 <= n < 256 ==> table[k, n] == Swap(TableEntry(k, n))
  }

  /** `_crc64(0, &n, 1)`, the call that seeds the tables. */
  function Seed(n: Byte): (y: Bits)
    ensures |y| == 64
  {
    Bitwise(Zero(64), Octets([n]))
  }

  lemma SeedIsEntry(n: Byte, k: nat)
    requires k == 0
    ensures Seed(n) == TableEntry(k, n)
  {
    assert Reverse(Zero(64)) == Zero(64);
    assert Octets([n]) == [ByteBits(n)];
    ReferenceIsRegister(Zero(64), [ByteBits(n)]);
    CrcOne(REFLECTED, Zero(64), ByteBits(n));
    assert Xor(Zero(64), Pad(ByteBits(n), 64)) == Pad(ByteBits(n), 64);
  }

  lemma TableEntryNext(k: nat, n: Byte)
    ensures TableEntry(k + 1, n) == Xor(Seed(ByteOf(TableEntry(k, n)[..8])), Down(TableEntry(k, n), 8))
  {
    EntryNext(REFLECTED, k, ByteBits(n));
    SeedIsEntry(ByteOf(TableEntry(k, n)[..8]), 0);
  }

  type Row = r: seq<Bits> | |r| == 256 && forall m :: 0 <= m < 256 ==> |r[m]| == 64 witness seq(256, i => Zero(64))

  function SeedRow(): (r: Row)
    ensures forall m :: 0 <= m < 256 ==> r[m] == Seed(m)
  {
    seq(256, m requires 0 <= m < 256 => Seed(m))
  }

  /** Level `k` of column `n`, nested over level 0. */
  function Column(row: Row, k: nat, n: Byte): (y: Bits)
    ensures |y| == 64
  {
    if k == 0 then row[n]
    else Xor(row[ByteOf(Column(row, k - 1, n)[..8])], Down(Column(row, k - 1, n), 8))
  }

  lemma {:induction false} ColumnIsEntry(k: nat, n: Byte)
    ensures Column(SeedRow(), k, n) == TableEntry(k, n)
  {
    hide Column, TableEntry, Seed, ByteOf;
    ColumnUnfold(SeedRow(), k, n);
    if k == 0 {
      SeedIsEntry(n, k);
    } else {
      ColumnIsEntry(k - 1, n);
      TableEntryNext(k - 1, n);
    }
  }

  lemma ColumnUnfold(row: Row, k: nat, n: Byte)
    ensures k == 0 ==> Column(row, k, n) == row[n]
    ensures k > 0 ==>
      Column(row, k, n) == Xor(row[ByteOf(Column(row, k - 1, n)[..8])], Down(Column(row, k - 1, n), 8))
  {
    hide ByteOf;
  }

  /** crcspeed64little_init with `_crc64` as its seed function. */
  method LittleInit(table: array2<Bits>)
    requires table.Length0 == 8 && table.Length1 == 256
    modifies table
    ensures LittleTable(table)
  {
    ghost var row := SeedRow();
    for n := 0 to 256
      invariant forall m :: 0 <= m < n ==> table[0, m] == row[m]
    {
      table[0, n] := CrcBitwise(Zero(64), [n]);
    }
    for n := 0 to 256
      invariant forall m :: 0 <= m < 256 ==> table[0, m] == row[m]
      invariant forall k, m :: 0 <= k < 8 && 0 <= m < n ==> table[k, m] == Column(row, k, m)
    {
      NestColumn(table, n, row);
    }
    forall k, n | 0 <= k < 8 && 0 <= n < 256 ensures table[k, n] == TableEntry(k, n) {
      ColumnIsEntry(k, n);
    }
  }

  /** The inner loop of crcspeed64little_init: the nested levels of one byte. */
  method NestColumn(table: array2<Bits>, n: Byte, ghost row: Row)
    requires table.Length0 == 8 && table.Length1 == 256
    requires forall m :: 0 <= m < 256 ==> table[0, m] == row[m]
    modifies table
    ensures forall k :: 0 <= k < 8 ==> table[k, n] == Column(row, k, n)
    ensures forall m :: 0 <= m < 256 ==> table[0, m] == row[m]
    ensures forall k, m :: 0 <= k < 8 && 0 <= m < 256 && m != n ==> table[k, m] == old(table[k, m])
  {
    hide Column, ByteOf;
    ColumnUnfold(row, 0, n);
    var crc := table[0, n];
    for k := 1 to 8
      invariant crc == Column(row, k - 1, n)
      invariant forall m :: 0 <= m < 256 ==> table[0, m] == row[m]
      invariant forall j :: 0 <= j < k ==> table[j, n] == Column(row, j, n)
      invariant forall j, m :: 0 <= j < 8 && 0 <= m < 256 && m != n ==> table[j, m] == old(table[j, m])
    {
      ColumnUnfold(row, k, n);
      crc := Xor(table[0, ByteOf(crc[..8])], Down(crc, 8));
      table[k, n] := crc;
    }
  }

  /** Byte reversal of a word. */
  function Swap(a: Bits): (c: Bits)
    requires |a| == 64
    ensures |c| == 64 && forall i :: 0 <= i < 64 ==> c[i] == a[8 * (7 - i / 8) + i % 8]
  {
    seq(64, i requires 0 <= i < 64 => a[8 * (7 - i / 8) + i % 8])
  }

  /** The mask whose ones are alternate runs of `n` bits, starting low. */
  function Alternate(n: nat): (c: Bits)
    requires n > 0
    ensures |c| == 64 && forall i :: 0 <= i < 64 ==> c[i] == (i / n % 2 == 0)
  {
    seq(64, i requires 0 <= i < 64 => i / n % 2 == 0)
  }

  /** One round of rev8: exchange neighbouring runs of `n` bits. */
  method ExchangeRuns(a: Bits, n: nat) returns (c: Bits)
    requires |a| == 64 && (n == 8 || n == 16)
    ensures |c| == 64
    ensures forall i :: 0 <= i < 64 ==> 0 <= Partner(i, n) < 64 && c[i] == a[Partner(i, n)]
  {
    var m := Alternate(n);
    var low := And(Down(a, n), m);
    var high := Up(And(a, m), n);
    c := Or(low, high);
    forall i | 0 <= i < 64 ensures 0 <= Partner(i, n) < 64 && c[i] == a[Partner(i, n)] {
      PartnerInRange(i, n);
      assert high[i] == (i >= n && a[i - n] && m[i - n]);
    }
  }

  lemma PartnerInRange(i: nat, n: nat)
    requires i < 64 && (n == 8 || n == 16)
    ensures 0 <= Partner(i, n) < 64
    ensures i / n % 2 == 1 ==> i >= n && (i - n) / n % 2 == 0
    ensures i / n % 2 == 0 && i >= n ==> (i - n) / n % 2 == 1
  {
  }

  function Partner(i: int, n: nat): int
    requires n > 0
  {
    if i / n % 2 == 0 then i + n else i - n
  }

  /** rev8 where no compiler builtin is available. */
  method Rev8(a: Bits) returns (c: Bits)
    requires |a| == 64
    ensures c == Swap(a)
  {
    var b := ExchangeRuns(a, 8);
    c := ExchangeRuns(b, 16);
    ghost var d := c;
    c := Or(Down(c, 32), Up(c, 32));
    forall i | 0 <= i < 64 ensures c[i] == Swap(a)[i] {
      PartnerChain(i);
      assert c[i] == d[if i < 32 then i + 32 else i - 32];
    }
  }

  lemma PartnerChain(i: nat)
    requires i < 64
    ensures Partner(Partner(if i < 32 then i + 32 else i - 32, 16), 8) == 8 * (7 - i / 8) + i % 8
  {
  }

  lemma SwapTwice(a: Bits)
    requires |a| == 64
    ensures Swap(Swap(a)) == a
  {
  }

  lemma SwapXor(a: Bits, b: Bits)
    requires |a| == |b| == 64
    ensures Swap(Xor(a, b)) == Xor(Swap(a), Swap(b))
  {
  }

  lemma SwapDown(a: Bits)
    requires |a| == 64
    ensures Swap(Down(a, 8)) == Up(Swap(a), 8)
  {
  }

  lemma SwapByte(a: Bits, k: nat)
    requires |a| == 64 && k < 8
    ensures Swap(a)[8 * k..8 * k + 8] == a[56 - 8 * k..64 - 8 * k]
  {
  }

  /** crcspeed64big_init. */
  method BigInit(table: array2<Bits>)
    requires table.Length0 == 8 && table.Length1 == 256
    modifies table
    ensures BigTable(table)
  {
    LittleInit(table);
    for k := 0 to 8
      invariant forall j, m :: 0 <= j < k && 0 <= m < 256 ==> table[j, m] == Swap(TableEntry(j, m))
      invariant forall j, m :: k <= j < 8 && 0 <= m < 256 ==> table[j, m] == TableEntry(j, m)
    {
      SwapRow(table, k);
    }
  }

  /** The inner loop of crcspeed64big_init. */
  method SwapRow(table: array2<Bits>, k: nat)
    requires table.Length0 == 8 && table.Length1 == 256 && k < 8
    requires forall m :: 0 <= m < 256 ==> |table[k, m]| == 64
    modifies table
    ensures forall m :: 0 <= m < 256 ==> |old(table[k, m])| == 64 && table[k, m] == Swap(old(table[k, m]))
    ensures forall j, m :: 0 <= j < 8 && j != k && 0 <= m < 256 ==> table[j, m] == old(table[j, m])
  {
    for n := 0 to 256
      invariant forall m :: 0 <= m < n ==> table[k, m] == Swap(old(table[k, m]))
      invariant forall m :: n <= m < 256 ==> table[k, m] == old(table[k, m])
      invariant forall j, m :: 0 <= j < 8 && j != k && 0 <= m < 256 ==> table[j, m] == old(table[j, m])
    {
      table[k, n] := Rev8(table[k, n]);
    }
  }

  // ----- Slice by eight ------------------------------------------------------------------

  /** The word in memory at `i` on a little-endian machine. */
  function LoadLittle(s: seq<Octet>, i: nat): (w: Bits)
    requires i + 8 <= |s|
    ensures |w| == 64
  {
    seq(64, j requires 0 <= j < 64 => s[i + j / 8][j % 8])
  }

  /** The same eight bytes as a big-endian machine loads them. */
  function LoadBig(s: seq<Octet>, i: nat): (w: Bits)
    requires i + 8 <= |s|
    ensures |w| == 64
  {
    seq(64, j requires 0 <= j < 64 => s[i + 7 - j / 8][j % 8])
  }

  lemma LoadBigIsSwapped(s: seq<Octet>, i: nat)
    requires i + 8 <= |s|
    ensures LoadBig(s, i) == Swap(LoadLittle(s, i))
  {
  }

  lemma LoadLittleByte(s: seq<Octet>, i: nat, k: nat)
    requires i + 8 <= |s| && k < 8
    ensures LoadLittle(s, i)[8 * k..8 * k + 8] == s[i + k]
  {
    var c := LoadLittle(s, i)[8 * k..8 * k + 8];
    forall j | 0 <= j < 8 ensures c[j] == s[i + k][j] {
      assert (8 * k + j) / 8 == k && (8 * k + j) % 8 == j;
    }
  }

  lemma LoadLittleBytes(s: seq<Octet>, i: nat)
    requires i + 8 <= |s|
    ensures s[i..i + 8] == Bytes(LoadLittle(s, i), 8)
  {
    forall k | 0 <= k < 8 ensures s[i..i + 8][k] == Bytes(LoadLittle(s, i), 8)[k] {
      LoadLittleByte(s, i, k);
    }
  }

  lemma CrcStep(r: Bits, s: seq<Octet>, i: nat)
    requires |r| == 64 && i < |s|
    ensures Crc(REFLECTED, r, s[..i + 1]) == Feed(REFLECTED, Crc(REFLECTED, r, s[..i]), s[i])
  {
    assert s[..i + 1][..i] == s[..i];
  }

  lemma CrcThenWord(r: Bits, t: seq<Octet>, w: Bits)
    requires |r| == |w| == 64
    ensures Crc(REFLECTED, r, t + Bytes(w, 8)) == Sum(REFLECTED, Bytes(Xor(Crc(REFLECTED, r, t), w), 8))
  {
    CrcAppend(REFLECTED, r, t, Bytes(w, 8));
    CrcWord(REFLECTED, Crc(REFLECTED, r, t), w, 8);
  }

  lemma CrcStepWord(r: Bits, s: seq<Octet>, i: nat)
    requires |r| == 64 && i + 8 <= |s|
    ensures Crc(REFLECTED, r, s[..i + 8])
         == Sum(REFLECTED, Bytes(Xor(Crc(REFLECTED, r, s[..i]), LoadLittle(s, i)), 8))
  {
    assert s[..i + 8] == s[..i] + Bytes(LoadLittle(s, i), 8) by {
      LoadLittleBytes(s, i);
    }
    CrcThenWord(r, s[..i], LoadLittle(s, i));
  }

  /** crcspeed64little, for a buffer that starts at memory address `address`. */
  method CrcLittle(table: array2<Bits>, start: Bits, buf: seq<Byte>, address: nat) returns (crc: Bits)
    requires |start| == 64 && LittleTable(table)
    ensures crc == Crc(REFLECTED, start, Octets(buf))
  {
    hide Crc, Octets, Feed, LittleTable, Sum, LoadLittle;
    ghost var s := Octets(buf);
    CrcNothing(start, s);
    crc := start;
    var next, len := 0, |buf|;
    while len > 0 && (address + next) % 8 != 0
      invariant 0 <= next == |buf| - len <= |buf|
      invariant crc == Crc(REFLECTED, start, s[..next])
    {
      CrcStep(start, s, next);
      crc := LittleByte(table, crc, buf[next]);
      next, len := next + 1, len - 1;
    }
    while len >= 8
      invariant 0 <= next == |buf| - len <= |buf|
      invariant crc == Crc(REFLECTED, start, s[..next])
    {
      CrcStepWord(start, s, next);
      crc := Xor(crc, LoadLittle(Octets(buf), next));
      crc := LittleRound(table, crc);
      next, len := next + 8, len - 8;
    }
    while len > 0
      invariant 0 <= next == |buf| - len <= |buf|
      invariant crc == Crc(REFLECTED, start, s[..next])
    {
      CrcStep(start, s, next);
      crc := LittleByte(table, crc, buf[next]);
      next, len := next + 1, len - 1;
    }
    assert s[..next] == s;
  }

  lemma CrcNothing(r: Bits, s: seq<Octet>)
    requires |r| == 64
    ensures Crc(REFLECTED, r, s[..0]) == r && s[..|s|] == s
  {
  }

  method LittleByte(table: array2<Bits>, crc: Bits, b: Byte) returns (r: Bits)
    requires |crc| == 64 && LittleTable(table)
    ensures r == Feed(REFLECTED, crc, ByteBits(b))
  {
    FeedLookup(REFLECTED, crc, ByteBits(b));
    r := Xor(table[0, ByteOf(Xor(crc[..8], ByteBits(b)))], Down(crc, 8));
  }

  method LittleRound(table: array2<Bits>, crc: Bits) returns (r: Bits)
    requires |crc| == 64 && LittleTable(table)
    ensures r == Sum(REFLECTED, Bytes(crc, 8))
  {
    SumOfEight(REFLECTED, Bytes(crc, 8));
    r := Xor(Xor(Xor(Xor(Xor(Xor(Xor(
           table[7, ByteOf(crc[0..8])], table[6, ByteOf(crc[8..16])]), table[5, ByteOf(crc[16..24])]),
           table[4, ByteOf(crc[24..32])]), table[3, ByteOf(crc[32..40])]), table[2, ByteOf(crc[40..48])]),
           table[1, ByteOf(crc[48..56])]), table[0, ByteOf(crc[56..64])]);
  }

  /** crcspeed64big: the register is kept byte-reversed throughout. */
  method CrcBig(table: array2<Bits>, start: Bits, buf: seq<Byte>, address: nat) returns (r: Bits)
    requires |start| == 64 && BigTable(table)
    ensures r == Crc(REFLECTED, start, Octets(buf))
  {
    hide Crc, Octets, Feed, BigTable, Sum, LoadLittle, LoadBig, Swap;
    ghost var s := Octets(buf);
    CrcNothing(start, s);
    var crc := Rev8(start);
    var next, len := 0, |buf|;
    while len > 0 && (address + next) % 8 != 0
      invariant 0 <= next == |buf| - len <= |buf|
      invariant crc == Swap(Crc(REFLECTED, start, s[..next]))
    {
      CrcStep(start, s, next);
      crc := BigByte(table, crc, buf[next], Crc(REFLECTED, start, s[..next]));
      next, len := next + 1, len - 1;
    }
    while len >= 8
      invariant 0 <= next == |buf| - len <= |buf|
      invariant crc == Swap(Crc(REFLECTED, start, s[..next]))
    {
      CrcStepWord(start, s, next);
      ghost var x := Xor(Crc(REFLECTED, start, s[..next]), LoadLittle(s, next));
      LoadBigIsSwapped(s, next);
      SwapXor(Crc(REFLECTED, start, s[..next]), LoadLittle(s, next));
      crc := Xor(crc, LoadBig(Octets(buf), next));
      crc := BigRound(table, crc, x);
      next, len := next + 8, len - 8;
    }
    while len > 0
      invariant 0 <= next == |buf| - len <= |buf|
      invariant crc == Swap(Crc(REFLECTED, start, s[..next]))
    {
      CrcStep(start, s, next);
      crc := BigByte(table, crc, buf[next], Crc(REFLECTED, start, s[..next]));
      next, len := next + 1, len - 1;
    }
    assert s[..next] == s;
    SwapTwice(Crc(REFLECTED, start, s));
    r := Rev8(crc);
  }

  method BigByte(table: array2<Bits>, crc: Bits, b: Byte, ghost x: Bits) returns (r: Bits)
    requires |x| == 64 && crc == Swap(x) && BigTable(table)
    ensures r == Swap(Feed(REFLECTED, x, ByteBits(b)))
  {
    FeedLookup(REFLECTED, x, ByteBits(b));
    SwapByte(x, 7);
    SwapDown(x);
    SwapXor(Entry(REFLECTED, 0, Xor(x[..8], ByteBits(b))), Down(x, 8));
    assert crc[56..64] == x[..8];
    r := Xor(table[0, ByteOf(Xor(crc[56..64], ByteBits(b)))], Up(crc, 8));
  }

  /** The bytes of a reversed register, from the other end. */
  lemma SwapBytes(x: Bits)
    requires |x| == 64
    ensures Swap(x)[0..8] == x[56..64] && Swap(x)[8..16] == x[48..56]
    ensures Swap(x)[16..24] == x[40..48] && Swap(x)[24..32] == x[32..40]
    ensures Swap(x)[32..40] == x[24..32] && Swap(x)[40..48] == x[16..24]
    ensures Swap(x)[48..56] == x[8..16] && Swap(x)[56..64] == x[0..8]
  {
    SwapByte(x, 0);
    SwapByte(x, 1);
    SwapByte(x, 2);
    SwapByte(x, 3);
    SwapByte(x, 4);
    SwapByte(x, 5);
    SwapByte(x, 6);
    SwapByte(x, 7);
  }

  method BigLookup(table: array2<Bits>, k: nat, c: Octet) returns (r: Bits)
    requires BigTable(table) && k < 8
    ensures r == Swap(Entry(REFLECTED, k, c))
  {
    r := table[k, ByteOf(c)];
  }

  method BigRound(table: array2<Bits>, crc: Bits, ghost x: Bits) returns (r: Bits)
    requires |x| == 64 && crc == Swap(x) && BigTable(table)
    ensures r == Swap(Sum(REFLECTED, Bytes(x, 8)))
  {
    SumOfEight(REFLECTED, Bytes(x, 8));
    SwapBytes(x);
    SwapChain(Entry(REFLECTED, 0, x[56..64]), Entry(REFLECTED, 1, x[48..56]), Entry(REFLECTED, 2, x[40..48]),
              Entry(REFLECTED, 3, x[32..40]), Entry(REFLECTED, 4, x[24..32]), Entry(REFLECTED, 5, x[16..24]),
              Entry(REFLECTED, 6, x[8..16]), Entry(REFLECTED, 7, x[0..8]));
    r := BigLookup(table, 0, crc[0..8]);
    var t := BigLookup(table, 1, crc[8..16]);
    r := Xor(r, t);
    t := BigLookup(table, 2, crc[16..24]);
    r := Xor(r, t);
    t := BigLookup(table, 3, crc[24..32]);
    r := Xor(r, t);
    t := BigLookup(table, 4, crc[32..40]);
    r := Xor(r, t);
    t := BigLookup(table, 5, crc[40..48]);
    r := Xor(r, t);
    t := BigLookup(table, 6, crc[48..56]);
    r := Xor(r, t);
    t := BigLookup(table, 7, crc[56..64]);
    r := Xor(r, t);
  }

  /** Byte reversal through a chain of XORs, taken in the opposite order. */
  lemma SwapChain(a: Bits, b: Bits, c: Bits, d: Bits, e: Bits, f: Bits, g: Bits, h: Bits)
    requires |a| == |b| == |c| == |d| == |e| == |f| == |g| == |h| == 64
    ensures Xor(Xor(Xor(Xor(Xor(Xor(Xor(Swap(a), Swap(b)), Swap(c)), Swap(d)), Swap(e)), Swap(f)), Swap(g)), Swap(h))
         == Swap(Xor(Xor(Xor(Xor(Xor(Xor(Xor(h, g), f), e), d), c), b), a))
  {
  }

  lemma OctetsAppend(a: seq<Byte>, b: seq<Byte>)
    ensures Octets(a + b) == Octets(a) + Octets(b)
  {
  }

  /** crc64 through crcspeed64native: pick the reader that matches the machine. */
  method CrcNative(littleEndian: bool, table: array2<Bits>, crc: Bits, s: seq<Byte>, address: nat) returns (r: Bits)
    requires |crc| == 64
    requires if littleEndian then LittleTable(table) else BigTable(table)
    ensures r == Bitwise(Reverse(crc), Octets(s))
  {
    ReferenceIsRegister(crc, Octets(s));
    if littleEndian {
      r := CrcLittle(table, crc, s, address);
    } else {
      r := CrcBig(table, crc, s, address);
    }
  }

  /** The value both readers return is the bit-by-bit CRC of the buffer, started from the
      reflection of the initial value; and a buffer fed in pieces has the CRC of the whole. */
  lemma FastIsReference(c: Bits, a: seq<Byte>, b: seq<Byte>)
    requires |c| == 64
    ensures Crc(REFLECTED, c, Octets(a)) == Bitwise(Reverse(c), Octets(a))
    ensures Crc(REFLECTED, Crc(REFLECTED, c, Octets(a)), Octets(b)) == Bitwise(Reverse(c), Octets(a + b))
  {
    var oa, ob := Octets(a), Octets(b);
    ReferenceIsRegister(c, oa);
    ReferenceIsRegister(c, oa + ob);
    CrcAppend(REFLECTED, c, oa, ob);
    OctetsAppend(a, b);
  }
}
