/** CRC-16/XMODEM: the byte-table loop of crc16.c and the slice-by-8 reader of crcspeed.c.

    Words and bytes are written most significant bit first, so index 0 is again the end
    that falls off, and `crc << 8` drops the first eight bits. */
module Crc16 {
  import opened Words
  import opened CrcRegister
  import opened Crc16Table

  function MsbOctets(s: seq<Byte>): (o: seq<Octet>)
    ensures |o| == |s| && forall i :: 0 <= i < |s| ==> o[i] == MsbByte(s[i])
  {
    seq(|s|, i requires 0 <= i < |s| => MsbByte(s[i]))
  }

  /** The byte written most significant bit first in eight bits. */
  function MsbByteOf(a: Octet): (b: Byte)
    ensures MsbByte(b) == a
  {
    assert Reverse(Reverse(a)) == a;
    ByteOf(Reverse(a))
  }

  /** crc16. The source's `char` may be negative; only its low eight bits are used. */
  method ByteTableCrc(buf: seq<Byte>) returns (crc: Bits)
    ensures crc == Crc(POLY16, Zero(16), MsbOctets(buf))
  {
    ghost var s := MsbOctets(buf);
    crc := Zero(16);
    for counter := 0 to |buf|
      invariant crc == Crc(POLY16, Zero(16), s[..counter])
    {
      CrcStep16(Zero(16), s, counter);
      crc := TableByte(crc, buf[counter]);
    }
    assert s[..|s|] == s;
  }

  method TableByte(crc: Bits, b: Byte) returns (r: Bits)
    requires |crc| == 16
    ensures r == Feed(POLY16, crc, MsbByte(b))
  {
    hide Word, MsbByteOf;
    var i := MsbByteOf(Xor(crc[..8], MsbByte(b)));
    FeedLookup(POLY16, crc, MsbByte(b));
    TableIsShifts(i);
    XorSwap(Down(crc, 8), Word(Literal(i)));
    r := Xor(Down(crc, 8), Word(Literal(i)));
  }

  lemma XorSwap(a: Bits, b: Bits)
    requires |a| == |b|
    ensures Xor(a, b) == Xor(b, a)
  {
  }

  lemma CrcStep16(r: Bits, s: seq<Octet>, i: nat)
    requires |r| == 16 && i < |s|
    ensures Crc(POLY16, r, s[..i + 1]) == Feed(POLY16, Crc(POLY16, r, s[..i]), s[i])
  {
    assert s[..i + 1][..i] == s[..i];
  }

  // ----- Slice by eight --------------------------------------------------------------

  /** Level `k` of the table at byte `n`. */
  function TableEntry16(k: nat, n: Byte): (y: Bits)
    ensures |y| == 16
  {
    Entry(POLY16, k, MsbByte(n))
  }

  ghost predicate Table16(table: array2<Bits>)
    reads table
  {
    && table.Length0 == 8 && table.Length1 == 256
    && forall k, n :: 0 <= k < 8 && 0 <= n < 256 ==> table[k, n] == TableEntry16(k, n)
  }

  /** `crc16(&n, 1)`, the call that seeds the tables. */
  function Seed16(n: Byte): (y: Bits)
    ensures |y| == 16
  {
    Crc(POLY16, Zero(16), MsbOctets([n]))
  }

  type Row16 = r: seq<Bits> | |r| == 256 && forall m :: 0 <= m < 256 ==> |r[m]| == 16 witness seq(256, i => Zero(16))

  function SeedRow16(): (r: Row16)
    ensures forall m :: 0 <= m < 256 ==> r[m] == Seed16(m)
  {
    seq(256, m requires 0 <= m < 256 => Seed16(m))
  }

  function Column16(row: Row16, k: nat, n: Byte): (y: Bits)
    ensures |y| == 16
  {
    if k == 0 then row[n]
    else Xor(row[MsbByteOf(Column16(row, k - 1, n)[..8])], Down(Column16(row, k - 1, n), 8))
  }

  lemma Seed16IsEntry(n: Byte, k: nat)
    requires k == 0
    ensures Seed16(n) == TableEntry16(k, n)
  {
    assert MsbOctets([n]) == [MsbByte(n)];
    CrcOne(POLY16, Zero(16), MsbByte(n));
    assert Xor(Zero(16), Pad(MsbByte(n), 16)) == Pad(MsbByte(n), 16);
  }

  lemma {:induction false} Column16IsEntry(k: nat, n: Byte)
    ensures Column16(SeedRow16(), k, n) == TableEntry16(k, n)
  {
    hide Column16, TableEntry16, Seed16, MsbByteOf;
    ColumnUnfold(SeedRow16(), k, n);
    if k == 0 {
      Seed16IsEntry(n, k);
    } else {
      Column16IsEntry(k - 1, n);
      TableEntry16Next(k - 1, n);
    }
  }

  lemma ColumnUnfold(row: Row16, k: nat, n: Byte)
    ensures k == 0 ==> Column16(row, k, n) == row[n]
    ensures k > 0 ==>
      Column16(row, k, n) == Xor(row[MsbByteOf(Column16(row, k - 1, n)[..8])], Down(Column16(row, k - 1, n), 8))
  {
    hide MsbByteOf;
  }

  lemma TableEntry16Next(k: nat, n: Byte)
    ensures TableEntry16(k + 1, n) == Xor(Seed16(MsbByteOf(TableEntry16(k, n)[..8])), Down(TableEntry16(k, n), 8))
  {
    EntryNext(POLY16, k, MsbByte(n));
    Seed16IsEntry(MsbByteOf(TableEntry16(k, n)[..8]), 0);
  }

  /** crcspeed16little_init seeded with the byte-table CRC. */
  method Init16(table: array2<Bits>)
    requires table.Length0 == 8 && table.Length1 == 256
    modifies table
    ensures Table16(table)
  {
    ghost var row := SeedRow16();
    for n := 0 to 256
      invariant forall m :: 0 <= m < n ==> table[0, m] == row[m]
    {
      table[0, n] := ByteTableCrc([n]);
    }
    for n := 0 to 256
      invariant forall m :: 0 <= m < 256 ==> table[0, m] == row[m]
      invariant forall k, m :: 0 <= k < 8 && 0 <= m < n ==> table[k, m] == Column16(row, k, m)
    {
      NestColumn16(table, n, row);
    }
    forall k, n | 0 <= k < 8 && 0 <= n < 256 ensures table[k, n] == TableEntry16(k, n) {
      Column16IsEntry(k, n);
    }
  }

  /** The inner loop of crcspeed16little_init. */
  method NestColumn16(table: array2<Bits>, n: Byte, ghost row: Row16)
    requires table.Length0 == 8 && table.Length1 == 256
    requires forall m :: 0 <= m < 256 ==> table[0, m] == row[m]
    modifies table
    ensures forall k :: 0 <= k < 8 ==> table[k, n] == Column16(row, k, n)
    ensures forall m :: 0 <= m < 256 ==> table[0, m] == row[m]
    ensures forall k, m :: 0 <= k < 8 && 0 <= m < 256 && m != n ==> table[k, m] == old(table[k, m])
  {
    hide Column16;
    ColumnUnfold(row, 0, n);
    var crc := table[0, n];
    for k := 1 to 8
      invariant crc == Column16(row, k - 1, n)
      invariant forall m :: 0 <= m < 256 ==> table[0, m] == row[m]
      invariant forall j :: 0 <= j < k ==> table[j, n] == Column16(row, j, n)
      invariant forall j, m :: 0 <= j < 8 && 0 <= m < 256 && m != n ==> table[j, m] == old(table[j, m])
    {
      crc := NextLevel16(table, crc, row, k, n);
      table[k, n] := crc;
    }
  }

  method NextLevel16(table: array2<Bits>, crc: Bits, ghost row: Row16, ghost k: nat, ghost n: Byte) returns (r: Bits)
    requires table.Length0 == 8 && table.Length1 == 256
    requires forall m :: 0 <= m < 256 ==> table[0, m] == row[m]
    requires k > 0 && crc == Column16(row, k - 1, n)
    ensures r == Column16(row, k, n)
  {
    r := Xor(table[0, MsbByteOf(crc[..8])], Down(crc, 8));
  }

  /** A block whose first two bytes have absorbed a 16-bit register. */
  function Absorb(r: Bits, s: seq<Octet>): (t: seq<Octet>)
    requires |r| == 16 && |s| >= 2
    ensures |t| == |s|
  {
    [Xor(r[..8], s[0]), Xor(r[8..16], s[1])] + s[2..]
  }

  lemma AbsorbSum(r: Bits, s: seq<Octet>)
    requires |r| == 16 && |s| >= 2
    ensures Crc(POLY16, r, s) == Sum(POLY16, Absorb(r, s))
  {
    var p, n := POLY16, |s|;
    var t := Absorb(r, s);
    var r0, r1 := Entry(p, n - 1, r[..8]), Entry(p, n - 2, r[8..16]);
    CrcBlock(p, r, s);
    PeelByte(p, r, n - 1);
    PeelByte(p, Down(r, 8), n - 2);
    assert Down(r, 8)[..8] == r[8..16];
    assert Down(Down(r, 8), 8) == Zero(16);
    ShiftsZero(p, 8 * (n - 2));
    assert Shifts(p, r, 8 * n) == Xor(r0, r1);
    assert s[0..] == s && t[0..] == t && t[2..] == s[2..];
    SumStep(p, s, 0);
    SumStep(p, s, 1);
    SumStep(p, t, 0);
    SumStep(p, t, 1);
    EntryXor(p, n - 1, r[..8], s[0]);
    EntryXor(p, n - 2, r[8..16], s[1]);
    Regroup(r0, r1, Entry(p, n - 1, s[0]), Entry(p, n - 2, s[1]), Sum(p, s[2..]));
  }

  lemma Regroup(a: Bits, b: Bits, c: Bits, d: Bits, e: Bits)
    requires |a| == |b| == |c| == |d| == |e|
    ensures Xor(Xor(a, b), Xor(c, Xor(d, e))) == Xor(Xor(a, c), Xor(Xor(b, d), e))
  {
  }

  lemma CrcStepBlock(r: Bits, buf: seq<Byte>, i: nat)
    requires |r| == 16 && i + 8 <= |buf|
    ensures Crc(POLY16, r, MsbOctets(buf)[..i + 8])
         == Sum(POLY16, Absorb(Crc(POLY16, r, MsbOctets(buf)[..i]), MsbOctets(buf[i..i + 8])))
  {
    var s := MsbOctets(buf);
    OctetsSlice(buf, i);
    assert s[..i + 8] == s[..i] + s[i..i + 8];
    CrcAppend(POLY16, r, s[..i], s[i..i + 8]);
    AbsorbSum(Crc(POLY16, r, s[..i]), s[i..i + 8]);
  }

  /** crcspeed16little, from any initial register and at any alignment. */
  method SliceCrc(table: array2<Bits>, start: Bits, buf: seq<Byte>, address: nat) returns (crc: Bits)
    requires |start| == 16 && Table16(table)
    ensures crc == Crc(POLY16, start, MsbOctets(buf))
  {
    hide Crc, MsbOctets, Table16, Feed, Sum, Absorb;
    ghost var s := MsbOctets(buf);
    CrcNothing(start, s);
    crc := start;
    var next, len := 0, |buf|;
    while len > 0 && (address + next) % 8 != 0
      invariant 0 <= next == |buf| - len <= |buf|
      invariant crc == Crc(POLY16, start, s[..next])
    {
      CrcStep16(start, s, next);
      crc := SliceByte(table, crc, buf[next]);
      next, len := next + 1, len - 1;
    }
    while len >= 8
      invariant 0 <= next == |buf| - len <= |buf|
      invariant crc == Crc(POLY16, start, s[..next])
    {
      CrcStepBlock(start, buf, next);
      crc := SliceRound(table, crc, buf[next..next + 8]);
      next, len := next + 8, len - 8;
    }
    while len > 0
      invariant 0 <= next == |buf| - len <= |buf|
      invariant crc == Crc(POLY16, start, s[..next])
    {
      CrcStep16(start, s, next);
      crc := SliceByte(table, crc, buf[next]);
      next, len := next + 1, len - 1;
    }
    assert s[..next] == s;
  }

  lemma CrcNothing(r: Bits, s: seq<Octet>)
    requires |r| == 16
    ensures Crc(POLY16, r, s[..0]) == r && s[..|s|] == s
  {
  }

  lemma OctetsSlice(buf: seq<Byte>, i: nat)
    requires i + 8 <= |buf|
    ensures MsbOctets(buf)[i..i + 8] == MsbOctets(buf[i..i + 8])
  {
  }

  method SliceByte(table: array2<Bits>, crc: Bits, b: Byte) returns (r: Bits)
    requires |crc| == 16 && Table16(table)
    ensures r == Feed(POLY16, crc, MsbByte(b))
  {
    FeedLookup(POLY16, crc, MsbByte(b));
    r := Xor(table[0, MsbByteOf(Xor(crc[..8], MsbByte(b)))], Down(crc, 8));
  }

  method SliceRound(table: array2<Bits>, crc: Bits, n: seq<Byte>) returns (r: Bits)
    requires |crc| == 16 && |n| == 8 && Table16(table)
    ensures r == Sum(POLY16, Absorb(crc, MsbOctets(n)))
  {
    SumOfEight(POLY16, Absorb(crc, MsbOctets(n)));
    r := Xor(Xor(Xor(Xor(Xor(Xor(Xor(
           table[7, MsbByteOf(Xor(crc[..8], MsbByte(n[0])))],
           table[6, MsbByteOf(Xor(crc[8..16], MsbByte(n[1])))]),
           table[5, n[2]]), table[4, n[3]]), table[3, n[4]]), table[2, n[5]]), table[1, n[6]]), table[0, n[7]]);
  }
}
