/** Counting the ones of a string: seven words at a time with sums kept in lanes of one word. */
module Popcount {
  import opened Words
  import opened BitString

  // ----- Ones -------------------------------------------------------------------------------

  function Ones(b: Bits): nat {
    if b == [] then 0 else (if b[0] then 1 else 0) + Ones(b[1..])
  }

  lemma {:induction false} OnesAppend(a: Bits, b: Bits)
    ensures Ones(a + b) == Ones(a) + Ones(b)
  {
    if a == [] {
      assert a + b == b;
    } else {
      assert (a + b)[1..] == a[1..] + b;
      OnesAppend(a[1..], b);
    }
  }

  lemma {:induction false} OnesReverse(a: Bits)
    ensures Ones(Reverse(a)) == Ones(a)
  {
    if a != [] {
      OnesReverse(a[1..]);
      OnesAppend(Reverse(a[1..]), [a[0]]);
      assert Reverse(a) == Reverse(a[1..]) + [a[0]];
    } else {
      assert Reverse(a) == a;
    }
  }

  function OnesOf(s: Bytes): nat {
    if s == [] then 0 else Ones(ByteBits(s[0])) + OnesOf(s[1..])
  }

  lemma {:induction false} OnesOfAppend(a: Bytes, b: Bytes)
    ensures OnesOf(a + b) == OnesOf(a) + OnesOf(b)
  {
    if a == [] {
      assert a + b == b;
    } else {
      assert (a + b)[1..] == a[1..] + b;
      OnesOfAppend(a[1..], b);
    }
  }

  /** Byte by byte or bit by bit. */
  lemma {:induction false} OnesOfBits(s: Bytes)
    ensures OnesOf(s) == Ones(BitsOf(s))
  {
    if s == [] {
      assert BitsOf(s) == [];
    } else {
      OnesOfBits(s[1..]);
      OnesReverse(ByteBits(s[0]));
      OnesAppend(Reverse(ByteBits(s[0])), BitsOf(s[1..]));
      BitsCons(s);
    }
  }

  lemma BitsCons(s: Bytes)
    requires s != []
    ensures BitsOf(s) == Reverse(ByteBits(s[0])) + BitsOf(s[1..])
  {
    hide ByteBits;
    var a, b := Reverse(ByteBits(s[0])), BitsOf(s[1..]);
    forall i | 0 <= i < 8 * |s| ensures BitsOf(s)[i] == (a + b)[i] {
      if i >= 8 {
        assert (i - 8) / 8 == i / 8 - 1 && (i - 8) % 8 == i % 8;
      }
    }
  }

  // ----- Bitwise and, on numbers ----------------------------------------------------------------

  function BitAnd(x: nat, y: nat): nat {
    if x == 0 || y == 0 then 0 else 2 * BitAnd(x / 2, y / 2) + if x % 2 == 1 && y % 2 == 1 then 1 else 0
  }

  /** It is the and of the digits. */
  lemma {:induction false} BitAndDigits(x: nat, y: nat, n: nat)
    ensures Digits(BitAnd(x, y), n) == And(Digits(x, n), Digits(y, n))
  {
    if n > 0 {
      BitAndDigits(x / 2, y / 2, n - 1);
      AndHalf(x, y);
      assert And(Digits(x, n), Digits(y, n))
          == [x % 2 == 1 && y % 2 == 1] + And(Digits(x / 2, n - 1), Digits(y / 2, n - 1));
    }
  }

  lemma AndHalf(x: nat, y: nat)
    ensures BitAnd(x, y) / 2 == BitAnd(x / 2, y / 2)
    ensures BitAnd(x, y) % 2 == if x % 2 == 1 && y % 2 == 1 then 1 else 0
  {
  }

  lemma AndZero(x: nat)
    ensures BitAnd(x, 0) == 0
  {
  }

  lemma Lane2(lo: nat, x: nat, a: nat, y: nat)
    requires lo < 2 && a < 2
    ensures BitAnd(lo + 2 * x, a + 2 * y) == BitAnd(lo, a) + 2 * BitAnd(x, y)
  {
    AndHalf(lo + 2 * x, a + 2 * y);
    AndHalf(lo, a);
    assert BitAnd(lo / 2, a / 2) == 0;
  }

  lemma Lane4(lo: nat, x: nat, a: nat, y: nat)
    requires lo < 4 && a < 4
    ensures BitAnd(lo + 4 * x, a + 4 * y) == BitAnd(lo, a) + 4 * BitAnd(x, y)
  {
    hide BitAnd;
    Lane2(lo % 2, lo / 2 + 2 * x, a % 2, a / 2 + 2 * y);
    Lane2(lo / 2, x, a / 2, y);
    Lane2(lo % 2, lo / 2, a % 2, a / 2);
    assert lo % 2 + 2 * (lo / 2) == lo && a % 2 + 2 * (a / 2) == a;
  }

  lemma Lane8(lo: nat, x: nat, a: nat, y: nat)
    requires lo < 8 && a < 8
    ensures BitAnd(lo + 8 * x, a + 8 * y) == BitAnd(lo, a) + 8 * BitAnd(x, y)
  {
    hide BitAnd;
    Lane2(lo % 2, lo / 2 + 4 * x, a % 2, a / 2 + 4 * y);
    Lane4(lo / 2, x, a / 2, y);
    Lane2(lo % 2, lo / 2, a % 2, a / 2);
    assert lo % 2 + 2 * (lo / 2) == lo && a % 2 + 2 * (a / 2) == a;
  }

  lemma Lane16(lo: nat, x: nat, a: nat, y: nat)
    requires lo < 16 && a < 16
    ensures BitAnd(lo + 16 * x, a + 16 * y) == BitAnd(lo, a) + 16 * BitAnd(x, y)
  {
    hide BitAnd;
    Lane2(lo % 2, lo / 2 + 8 * x, a % 2, a / 2 + 8 * y);
    Lane8(lo / 2, x, a / 2, y);
    Lane2(lo % 2, lo / 2, a % 2, a / 2);
    assert lo % 2 + 2 * (lo / 2) == lo && a % 2 + 2 * (a / 2) == a;
  }

  // ----- Lanes of four bits ------------------------------------------------------------------------

  /** The number with the lanes `ds`, least significant first; a lane may hold more than 15. */
  function Pack(ds: seq<nat>): nat {
    if ds == [] then 0 else ds[0] + 16 * Pack(ds[1..])
  }

  ghost predicate Nibbles(ds: seq<nat>, bound: nat) {
    forall i :: 0 <= i < |ds| ==> ds[i] <= bound
  }

  function Masked(ds: seq<nat>, ms: seq<nat>): (r: seq<nat>)
    requires |ms| == |ds|
    ensures |r| == |ds| && forall i :: 0 <= i < |ds| ==> r[i] == BitAnd(ds[i], ms[i])
  {
    seq(|ds|, i requires 0 <= i < |ds| => BitAnd(ds[i], ms[i]))
  }

  lemma {:induction false} PackAnd(ds: seq<nat>, ms: seq<nat>)
    requires |ms| == |ds| && Nibbles(ds, 15) && Nibbles(ms, 15)
    ensures BitAnd(Pack(ds), Pack(ms)) == Pack(Masked(ds, ms))
  {
    hide BitAnd;
    if ds == [] {
      AndZero(0);
    } else {
      PackAnd(ds[1..], ms[1..]);
      Lane16(ds[0], Pack(ds[1..]), ms[0], Pack(ms[1..]));
      assert Masked(ds, ms)[1..] == Masked(ds[1..], ms[1..]);
    }
  }

  function Plus(a: seq<nat>, b: seq<nat>): (r: seq<nat>)
    requires |a| == |b|
    ensures |r| == |a| && forall i :: 0 <= i < |a| ==> r[i] == a[i] + b[i]
  {
    seq(|a|, i requires 0 <= i < |a| => a[i] + b[i])
  }

  lemma {:induction false} PackPlus(a: seq<nat>, b: seq<nat>)
    requires |a| == |b|
    ensures Pack(Plus(a, b)) == Pack(a) + Pack(b)
  {
    if a != [] {
      PackPlus(a[1..], b[1..]);
      assert Plus(a, b)[1..] == Plus(a[1..], b[1..]);
    }
  }

  /** The next higher lane of each lane. */
  function NextLane(ds: seq<nat>): (r: seq<nat>)
    requires |ds| == 8
    ensures |r| == 8
  {
    [ds[1], ds[2], ds[3], ds[4], ds[5], ds[6], ds[7], 0]
  }

  /** The lanes after a shift right by one bit, `next` being the next lanes: their low bit comes in. */
  function Shift1(ds: seq<nat>, next: seq<nat>): (r: seq<nat>)
    requires |next| == |ds|
    ensures |r| == |ds| && forall i :: 0 <= i < |ds| ==> r[i] == ds[i] / 2 + 8 * (next[i] % 2)
  {
    seq(|ds|, i requires 0 <= i < |ds| => ds[i] / 2 + 8 * (next[i] % 2))
  }

  /** And by two bits. */
  function Shift2(ds: seq<nat>, next: seq<nat>): (r: seq<nat>)
    requires |next| == |ds|
    ensures |r| == |ds| && forall i :: 0 <= i < |ds| ==> r[i] == ds[i] / 4 + 4 * (next[i] % 4)
  {
    seq(|ds|, i requires 0 <= i < |ds| => ds[i] / 4 + 4 * (next[i] % 4))
  }

  lemma ShiftStep(d: nat, r: nat)
    ensures (d + 16 * r) / 2 == d / 2 + 8 * (r % 2) + 16 * (r / 2)
    ensures (d + 16 * r) / 4 == d / 4 + 4 * (r % 4) + 16 * (r / 4)
  {
  }

  lemma PackCons(ds: seq<nat>)
    requires ds != []
    ensures Pack(ds) == ds[0] + 16 * Pack(ds[1..])
  {
  }

  /** The lanes of a shifted word, from the top down. */
  lemma {:induction false} PackShift(ds: seq<nat>, next: seq<nat>)
    requires |next| == |ds|
    requires forall i :: 0 <= i < |ds| ==> next[i] == if i == |ds| - 1 then 0 else ds[i + 1]
    ensures Pack(ds) / 2 == Pack(Shift1(ds, next)) && Pack(ds) / 4 == Pack(Shift2(ds, next))
  {
    if ds != [] {
      hide *;
      PackShift(ds[1..], next[1..]);
      ShiftTails(ds, next);
      PackCons(ds);
      PackCons(Shift1(ds, next));
      PackCons(Shift2(ds, next));
      NextIsLow(ds, next);
      ShiftStep(ds[0], Pack(ds[1..]));
    } else {
      PackNone(ds);
      PackNone(Shift1(ds, next));
      PackNone(Shift2(ds, next));
    }
  }

  lemma PackNone(ds: seq<nat>)
    requires ds == []
    ensures Pack(ds) == 0
  {
  }

  lemma ShiftTails(ds: seq<nat>, next: seq<nat>)
    requires |next| == |ds| && ds != []
    ensures Shift1(ds, next)[1..] == Shift1(ds[1..], next[1..]) && Shift2(ds, next)[1..] == Shift2(ds[1..], next[1..])
  {
  }

  lemma NextIsLow(ds: seq<nat>, next: seq<nat>)
    requires ds != [] && |next| == |ds| && next[0] == if |ds| == 1 then 0 else ds[1]
    ensures Pack(ds[1..]) % 4 == next[0] % 4 && Pack(ds[1..]) % 2 == next[0] % 2
  {
    hide Pack;
    if |ds| > 1 {
      PackCons(ds[1..]);
      LowStep(ds[1], Pack(ds[1..][1..]));
    } else {
      PackNone(ds[1..]);
    }
  }

  lemma LowStep(x: nat, y: nat)
    ensures (x + 16 * y) % 4 == x % 4 && (x + 16 * y) % 2 == x % 2
  {
    ModUnique(x + 16 * y, 4, x / 4 + 4 * y, x % 4);
    ModUnique(x + 16 * y, 2, x / 2 + 8 * y, x % 2);
  }

  function Same(m: nat): (ms: seq<nat>)
    ensures |ms| == 8 && forall i :: 0 <= i < 8 ==> ms[i] == m
  {
    [m, m, m, m, m, m, m, m]
  }

  lemma PackSame(m: nat)
    ensures Pack(Same(m)) == m * 0x11111111
  {
    PackEight(Same(m));
  }

  lemma PackEight(ds: seq<nat>)
    requires |ds| == 8
    ensures Pack(ds) == ds[0] + 0x10 * ds[1] + 0x100 * ds[2] + 0x1000 * ds[3]
                      + 0x10000 * ds[4] + 0x100000 * ds[5] + 0x1000000 * ds[6] + 0x10000000 * ds[7]
  {
    var a := ds[1..]; var b := a[1..]; var c := b[1..]; var d := c[1..];
    var e := d[1..]; var f := e[1..]; var g := f[1..];
    assert g[1..] == [];
    assert Pack(g) == ds[7];
    assert Pack(f) == ds[6] + 16 * Pack(g);
    assert Pack(e) == ds[5] + 16 * Pack(f);
    assert Pack(d) == ds[4] + 16 * Pack(e);
    assert Pack(c) == ds[3] + 16 * Pack(d);
    assert Pack(b) == ds[2] + 16 * Pack(c);
    assert Pack(a) == ds[1] + 16 * Pack(b);
  }

  // ----- The sums inside a word ---------------------------------------------------------------------

  lemma AndOne(x: nat)
    ensures BitAnd(x, 1) == x % 2
  {
    AndHalf(x, 1);
    AndZero(x / 2);
    assert BitAnd(x, 1) == 2 * BitAnd(x / 2, 0) + x % 2;
  }

  /** The low bits of a number one by one. */
  lemma Halves(x: nat)
    ensures x == x % 2 + 2 * (x / 2)
    ensures x % 4 == x % 2 + 2 * (x / 2 % 2) && x / 4 == x / 2 / 2
  {
    var y := x / 2;
    ModUnique(x, 4, y / 2, x % 2 + 2 * (y % 2));
  }

  lemma AndThree(x: nat)
    ensures BitAnd(x, 3) == x % 4
  {
    hide BitAnd;
    Halves(x);
    Lane2(x % 2, x / 2, 1, 1);
    AndOne(x % 2);
    AndOne(x / 2);
  }

  lemma AndFive(x: nat)
    ensures BitAnd(x, 5) == x % 2 + 4 * (x / 2 / 2 % 2)
  {
    hide BitAnd;
    Halves(x);
    Lane2(x % 2, x / 2, 1, 2);
    Lane2(x / 2 % 2, x / 2 / 2, 0, 1);
    AndOne(x % 2);
    AndOne(x / 2 / 2);
    AndZero(x / 2 % 2);
    Halves(x / 2);
  }

  lemma AndFifteen(x: nat)
    requires x < 16
    ensures BitAnd(x, 15) == x
  {
    hide BitAnd;
    Halves(x);
    Lane4(x % 4, x / 4, 3, 3);
    AndThree(x % 4);
    AndThree(x / 4);
  }

  /** Bit by bit, by halving. */
  function OnesOfNibble(d: nat): nat {
    d % 2 + d / 2 % 2 + d / 2 / 2 % 2 + d / 2 / 2 / 2 % 2
  }

  /** A lane after the first line: the sums of its two pairs of bits. */
  function PairSums(d: nat): nat {
    d % 2 + d / 2 % 2 + 4 * (d / 2 / 2 % 2 + d / 2 / 2 / 2 % 2)
  }

  lemma NibbleBits(d: nat)
    requires d < 16
    ensures d == d % 2 + 2 * (d / 2 % 2) + 4 * (d / 2 / 2 % 2) + 8 * (d / 2 / 2 / 2 % 2)
    ensures d / 2 == d / 2 % 2 + 2 * (d / 2 / 2 % 2) + 4 * (d / 2 / 2 / 2 % 2)
  {
  }

  lemma Parity(d: nat, q: nat)
    ensures (d + 2 * q) % 2 == d % 2 && (d + 2 * q) / 2 == d / 2 + q
  {
    ModUnique(d + 2 * q, 2, d / 2 + q, d % 2);
  }

  /** The first line on one lane: pairs of bits are added. The bit that the shift brings in from
      the next lane is masked out. */
  lemma FirstLine(d: nat, e: nat)
    requires d < 16
    ensures BitAnd(d / 2 + 8 * (e % 2), 5) + PairSums(d) == d && PairSums(d) < 16 && d / 2 + 8 * (e % 2) < 16
  {
    hide BitAnd;
    var h, t := d / 2, e % 2;
    AndFive(h + 8 * t);
    Parity(h, 4 * t);
    Parity(h / 2, 2 * t);
    NibbleBits(d);
    Parity(h / 2 / 2, t);
    assert h / 2 / 2 < 2;
    Parity(h / 2, 2 * t);
  }

  /** The second line on one lane: the two sums are added. */
  lemma SecondLine(d: nat, f: nat)
    requires d < 16
    ensures BitAnd(PairSums(d), 3) + BitAnd(PairSums(d) / 4 + 4 * (f % 4), 3) == OnesOfNibble(d) <= 4
    ensures PairSums(d) / 4 + 4 * (f % 4) < 16
  {
    hide BitAnd;
    var low, high := d % 2 + d / 2 % 2, d / 2 / 2 % 2 + d / 2 / 2 / 2 % 2;
    AndThree(PairSums(d));
    AndThree(high + 4 * (f % 4));
    ModUnique(PairSums(d), 4, high, low);
    ModUnique(high + 4 * (f % 4), 4, f % 4, high);
  }

  function Map(ds: seq<nat>, f: nat -> nat): (r: seq<nat>)
    ensures |r| == |ds| && forall i :: 0 <= i < |ds| ==> r[i] == f(ds[i])
  {
    seq(|ds|, i requires 0 <= i < |ds| => f(ds[i]))
  }

  lemma NextLanes(ds: seq<nat>)
    requires |ds| == 8
    ensures forall i :: 0 <= i < 8 ==> NextLane(ds)[i] == if i == 7 then 0 else ds[i + 1]
  {
  }

  lemma LanesFirst(ds: seq<nat>, next: seq<nat>)
    requires |ds| == |next| == 8 && Nibbles(ds, 15)
    ensures Plus(Masked(Shift1(ds, next), Same(5)), Map(ds, PairSums)) == ds
    ensures Nibbles(Shift1(ds, next), 15) && Nibbles(Map(ds, PairSums), 15)
  {
    hide BitAnd, PairSums;
    forall i | 0 <= i < 8
      ensures var s := ds[i] / 2 + 8 * (next[i] % 2);
        s <= 15 && BitAnd(s, 5) + PairSums(ds[i]) == ds[i] && PairSums(ds[i]) <= 15
    {
      FirstLine(ds[i], next[i]);
    }
  }

  lemma LanesSecond(ds: seq<nat>, ps: seq<nat>, next: seq<nat>)
    requires |ds| == |next| == 8 && Nibbles(ds, 15) && ps == Map(ds, PairSums) && Nibbles(ps, 15)
    ensures Plus(Masked(ps, Same(3)), Masked(Shift2(ps, next), Same(3))) == Map(ds, OnesOfNibble)
    ensures Nibbles(Shift2(ps, next), 15) && Nibbles(Map(ds, OnesOfNibble), 4)
  {
    hide BitAnd, PairSums, OnesOfNibble;
    forall i | 0 <= i < 8
      ensures var s := ps[i] / 4 + 4 * (next[i] % 4);
        s <= 15 && BitAnd(ps[i], 3) + BitAnd(s, 3) == OnesOfNibble(ds[i]) <= 4
    {
      SecondLine(ds[i], next[i]);
    }
  }

  lemma SameNibbles(m: nat)
    requires m <= 15
    ensures Nibbles(Same(m), 15)
  {
  }

  /** aux - ((aux >> 1) & 0x55555555) */
  lemma WordFirstLine(ds: seq<nat>)
    requires |ds| == 8 && Nibbles(ds, 15)
    ensures BitAnd(Pack(ds) / 2, 0x55555555) + Pack(Map(ds, PairSums)) == Pack(ds)
    ensures Nibbles(Map(ds, PairSums), 15)
  {
    hide *;
    var next := NextLane(ds);
    NextLanes(ds);
    PackShift(ds, next);
    PackSame(5);
    LanesFirst(ds, next);
    SameNibbles(5);
    PackAnd(Shift1(ds, next), Same(5));
    PackPlus(Masked(Shift1(ds, next), Same(5)), Map(ds, PairSums));
  }

  /** (aux & 0x33333333) + ((aux >> 2) & 0x33333333), after the first line. */
  lemma WordSecondLine(ds: seq<nat>)
    requires |ds| == 8 && Nibbles(ds, 15) && Nibbles(Map(ds, PairSums), 15)
    ensures var aux := Pack(Map(ds, PairSums));
      BitAnd(aux, 0x33333333) + BitAnd(aux / 4, 0x33333333) == Pack(Map(ds, OnesOfNibble))
    ensures Nibbles(Map(ds, OnesOfNibble), 4)
  {
    hide *;
    var ps := Map(ds, PairSums);
    var next := NextLane(ps);
    NextLanes(ps);
    PackShift(ps, next);
    PackSame(3);
    LanesSecond(ds, ps, next);
    SameNibbles(3);
    PackAnd(ps, Same(3));
    PackAnd(Shift2(ps, next), Same(3));
    PackPlus(Masked(ps, Same(3)), Masked(Shift2(ps, next), Same(3)));
  }

  /** The ones of each byte of a word, in lanes of eight bits. */
  function ByteLanes(as': seq<nat>): nat
    requires |as'| == 8
  {
    (as'[0] + as'[1]) + 0x100 * (as'[2] + as'[3]) + 0x10000 * (as'[4] + as'[5]) + 0x1000000 * (as'[6] + as'[7])
  }

  /** (aux + (aux >> 4)) & 0x0F0F0F0F */
  lemma WordThirdLine(as': seq<nat>)
    requires |as'| == 8 && Nibbles(as', 4)
    ensures BitAnd(Pack(as') + Pack(as') / 16, 0x0F0F0F0F) == ByteLanes(as')
  {
    hide BitAnd, Pack, Plus;
    var next := NextLane(as');
    var both := Plus(as', next);
    var mask: seq<nat> := [15, 0, 15, 0, 15, 0, 15, 0];
    PackEight(as');
    PackEight(next);
    assert Pack(next) == Pack(as') / 16;
    PackEight(mask);
    PackPlus(as', next);
    assert Nibbles(both, 15);
    PackAnd(both, mask);
    MaskOdd(both, mask);
    PackEight(Masked(both, mask));
  }

  lemma MaskOdd(both: seq<nat>, mask: seq<nat>)
    requires |both| == 8 && Nibbles(both, 15) && mask == [15, 0, 15, 0, 15, 0, 15, 0]
    ensures Masked(both, mask) == [both[0], 0, both[2], 0, both[4], 0, both[6], 0]
  {
    hide BitAnd;
    AndFifteen(both[0]); AndFifteen(both[2]); AndFifteen(both[4]); AndFifteen(both[6]);
    AndZero(both[1]); AndZero(both[3]); AndZero(both[5]); AndZero(both[7]);
  }

  // ----- A word, and seven words ------------------------------------------------------------------

  const WORD: int := 0x1_0000_0000

  /** *p4: four bytes as one word; the order of the bytes does not matter for counting. */
  function Word(b: Bytes): nat
    requires |b| == 4
  {
    Counts(b[0], b[1], b[2], b[3])
  }

  /** The three lines on one word, with the wrap-around of uint32_t. */
  function Lanes(x: nat): nat {
    var a := (x - BitAnd(x / 2, 0x55555555)) % WORD;
    var b := (BitAnd(a, 0x33333333) + BitAnd(a / 4, 0x33333333)) % WORD;
    BitAnd((b + b / 16) % WORD, 0x0F0F0F0F)
  }

  function NibblesOf(b: Bytes): (ds: seq<nat>)
    requires |b| == 4
    ensures |ds| == 8
  {
    [b[0] % 16, b[0] / 16, b[1] % 16, b[1] / 16, b[2] % 16, b[2] / 16, b[3] % 16, b[3] / 16]
  }

  lemma NibblesPack(b: Bytes)
    requires |b| == 4
    ensures Pack(NibblesOf(b)) == Word(b) && Nibbles(NibblesOf(b), 15)
  {
    hide Pack;
    PackEight(NibblesOf(b));
  }

  function OnesOfByte(b: Byte): nat {
    OnesOfNibble(b % 16) + OnesOfNibble(b / 16)
  }

  /** The count of each byte, in lanes of eight bits. */
  function Counts(c0: nat, c1: nat, c2: nat, c3: nat): nat {
    c0 + 0x100 * c1 + 0x10000 * c2 + 0x1000000 * c3
  }

  lemma PackBound(ds: seq<nat>)
    requires |ds| == 8 && Nibbles(ds, 15)
    ensures Pack(ds) < WORD
  {
    hide Pack;
    PackEight(ds);
  }

  lemma WordLanes(b: Bytes)
    requires |b| == 4
    ensures Lanes(Word(b)) == Counts(OnesOfByte(b[0]), OnesOfByte(b[1]), OnesOfByte(b[2]), OnesOfByte(b[3]))
    ensures OnesOfByte(b[0]) <= 8 && OnesOfByte(b[1]) <= 8 && OnesOfByte(b[2]) <= 8 && OnesOfByte(b[3]) <= 8
  {
    hide BitAnd, Pack, PairSums, OnesOfNibble, NibblesOf, Word;
    var ds := NibblesOf(b);
    var ps, os := Map(ds, PairSums), Map(ds, OnesOfNibble);
    NibblesPack(b);
    ThreeLines(ds);
    NibblesAre(b, os);
  }

  lemma NibblesAre(b: Bytes, os: seq<nat>)
    requires |b| == 4 && os == Map(NibblesOf(b), OnesOfNibble) && Nibbles(os, 4)
    ensures ByteLanes(os) == Counts(OnesOfByte(b[0]), OnesOfByte(b[1]), OnesOfByte(b[2]), OnesOfByte(b[3]))
    ensures OnesOfByte(b[0]) <= 8 && OnesOfByte(b[1]) <= 8 && OnesOfByte(b[2]) <= 8 && OnesOfByte(b[3]) <= 8
  {
    hide OnesOfNibble;
    assert os[0] + os[1] == OnesOfByte(b[0]) && os[2] + os[3] == OnesOfByte(b[1]);
    assert os[4] + os[5] == OnesOfByte(b[2]) && os[6] + os[7] == OnesOfByte(b[3]);
  }

  /** The three lines together, without any wrap-around. */
  lemma ThreeLines(ds: seq<nat>)
    requires |ds| == 8 && Nibbles(ds, 15)
    ensures Lanes(Pack(ds)) == ByteLanes(Map(ds, OnesOfNibble)) && Nibbles(Map(ds, OnesOfNibble), 4)
  {
    hide *;
    var ps, os := Map(ds, PairSums), Map(ds, OnesOfNibble);
    WordFirstLine(ds);
    WordSecondLine(ds);
    PackBound(ps);
    SmallNibbles(os);
    PackBound(os);
    PlusSixteenth(os);
    WordThirdLine(os);
    LanesAre(Pack(ds), Pack(ps), Pack(os));
  }

  lemma LanesAre(x: nat, a: nat, b: nat)
    requires BitAnd(x / 2, 0x55555555) + a == x && a < WORD
    requires BitAnd(a, 0x33333333) + BitAnd(a / 4, 0x33333333) == b && b + b / 16 < WORD
    ensures Lanes(x) == BitAnd(b + b / 16, 0x0F0F0F0F)
  {
    hide BitAnd;
    ModSmall(a);
    ModSmall(b);
    ModSmall(b + b / 16);
  }

  lemma SmallNibbles(ds: seq<nat>)
    requires Nibbles(ds, 4)
    ensures Nibbles(ds, 15)
  {
  }

  lemma PlusSixteenth(os: seq<nat>)
    requires |os| == 8 && Nibbles(os, 4)
    ensures Pack(os) + Pack(os) / 16 < WORD
  {
    hide Pack;
    PackEight(os);
  }

  lemma ModSmall(x: nat)
    requires x < WORD
    ensures x % WORD == x
  {
  }

  lemma OnesOfByteIs(b: Byte)
    ensures OnesOfByte(b) == Ones(ByteBits(b))
  {
    hide Digits, Ones, OnesOfNibble;
    OnesDigits4(b, 8);
    NibbleParts(b % 16, b / 16);
    OnesDigits4(b / 16, 4);
    NoDigits(b / 16 / 2 / 2 / 2 / 2);
  }

  lemma NoDigits(v: nat)
    ensures Ones(Digits(v, 0)) == 0
  {
  }

  lemma OnesDigits4(v: nat, n: nat)
    requires n >= 4
    ensures Ones(Digits(v, n)) == OnesOfNibble(v) + Ones(Digits(v / 2 / 2 / 2 / 2, n - 4))
  {
    hide Digits, Ones;
    OnesDigit(v, n);
    OnesDigit(v / 2, n - 1);
    OnesDigit(v / 2 / 2, n - 2);
    OnesDigit(v / 2 / 2 / 2, n - 3);
  }

  lemma OnesDigit(v: nat, n: nat)
    requires n > 0
    ensures Ones(Digits(v, n)) == v % 2 + Ones(Digits(v / 2, n - 1))
  {
    assert Digits(v, n)[1..] == Digits(v / 2, n - 1);
  }

  /** The low nibble decides the low four bits, and halving four times leaves the high one. */
  lemma NibbleParts(d: nat, q: nat)
    requires d < 16
    ensures OnesOfNibble(d + 16 * q) == OnesOfNibble(d)
    ensures (d + 16 * q) / 2 / 2 / 2 / 2 == q
  {
    Parity(d, 8 * q);
    Parity(d / 2, 4 * q);
    Parity(d / 2 / 2, 2 * q);
    Parity(d / 2 / 2 / 2, q);
    assert d / 2 / 2 / 2 / 2 == 0;
  }

  /** Multiplying by 0x01010101 adds the lanes up in the top one, as long as no lane overflows. */
  lemma AddLanes(c0: nat, c1: nat, c2: nat, c3: nat)
    requires c0 + c1 + c2 + c3 <= 255
    ensures (Counts(c0, c1, c2, c3) * 0x01010101) % WORD / 0x1000000 == c0 + c1 + c2 + c3
  {
    var low := c0 + 0x100 * (c0 + c1) + 0x10000 * (c0 + c1 + c2);
    var top := c0 + c1 + c2 + c3;
    var over := c1 + c2 + c3 + 0x100 * (c2 + c3) + 0x10000 * c3;
    ModUnique(Counts(c0, c1, c2, c3) * 0x01010101, WORD, over, low + 0x1000000 * top);
    ModUnique(low + 0x1000000 * top, 0x1000000, top, low);
  }

  /** The lanes of the first `n` words added up. */
  function SumLanes(b: Bytes, n: nat): nat
    requires 4 * n <= |b|
  {
    if n == 0 then 0 else SumLanes(b, n - 1) + Lanes(Word(b[4 * (n - 1)..4 * n]))
  }

  /** One round of the 28-byte loop. */
  function SevenWords(b: Bytes): nat
    requires |b| == 28
  {
    (SumLanes(b, 7) % WORD * 0x01010101) % WORD / 0x1000000
  }

  lemma OnesOfFour(b: Bytes)
    requires |b| == 4
    ensures OnesOf(b) == OnesOfByte(b[0]) + OnesOfByte(b[1]) + OnesOfByte(b[2]) + OnesOfByte(b[3])
  {
    hide OnesOfByte, ByteBits, Ones;
    OnesOfByteIs(b[0]); OnesOfByteIs(b[1]); OnesOfByteIs(b[2]); OnesOfByteIs(b[3]);
    var c := b[1..]; var d := c[1..]; var e := d[1..];
    assert OnesOf(e) == OnesOfByte(b[3]) + OnesOf(e[1..]);
    assert OnesOf(d) == OnesOfByte(b[2]) + OnesOf(e);
    assert OnesOf(c) == OnesOfByte(b[1]) + OnesOf(d);
  }

  /** After `n` words no lane holds more than 8 * n, and the lanes together hold the count. */
  lemma {:induction false} LanesHold(b: Bytes, n: nat) returns (c0: nat, c1: nat, c2: nat, c3: nat)
    requires 4 * n <= |b|
    ensures SumLanes(b, n) == Counts(c0, c1, c2, c3)
    ensures c0 <= 8 * n && c1 <= 8 * n && c2 <= 8 * n && c3 <= 8 * n
    ensures c0 + c1 + c2 + c3 == OnesOf(b[..4 * n])
    decreases n
  {
    hide Lanes, Word, OnesOfByte, OnesOf, Counts;
    if n == 0 {
      c0, c1, c2, c3 := 0, 0, 0, 0;
      NoCounts(b);
    } else {
      c0, c1, c2, c3 := LanesHold(b, n - 1);
      var w := b[4 * (n - 1)..4 * n];
      var d0, d1, d2, d3 := OnesOfByte(w[0]), OnesOfByte(w[1]), OnesOfByte(w[2]), OnesOfByte(w[3]);
      WordLanes(w);
      FourMore(b, n);
      CountsAdd(c0, c1, c2, c3, d0, d1, d2, d3);
      c0, c1, c2, c3 := c0 + d0, c1 + d1, c2 + d2, c3 + d3;
    }
  }

  lemma NoCounts(b: Bytes)
    ensures SumLanes(b, 0) == Counts(0, 0, 0, 0) && OnesOf(b[..0]) == 0
  {
  }

  lemma CountsAdd(c0: nat, c1: nat, c2: nat, c3: nat, d0: nat, d1: nat, d2: nat, d3: nat)
    ensures Counts(c0, c1, c2, c3) + Counts(d0, d1, d2, d3) == Counts(c0 + d0, c1 + d1, c2 + d2, c3 + d3)
  {
  }

  lemma FourMore(b: Bytes, n: nat)
    requires 0 < n && 4 * n <= |b|
    ensures var w := b[4 * (n - 1)..4 * n];
      OnesOf(b[..4 * n]) == OnesOf(b[..4 * (n - 1)])
        + OnesOfByte(w[0]) + OnesOfByte(w[1]) + OnesOfByte(w[2]) + OnesOfByte(w[3])
  {
    hide OnesOf, OnesOfByte;
    var w := b[4 * (n - 1)..4 * n];
    OnesOfFour(w);
    OnesOfAppend(b[..4 * (n - 1)], w);
    assert b[..4 * (n - 1)] + w == b[..4 * n];
  }

  lemma OnesOfNothing()
    ensures OnesOf([]) == 0
  {
  }

  /** All four lanes together are at most 7 * 32 = 224, so nothing overflows, and the shift
      leaves the number of ones in the 28 bytes. */
  lemma SevenWordsCount(b: Bytes)
    requires |b| == 28
    ensures SevenWords(b) == OnesOf(b)
  {
    hide OnesOf, SumLanes, Counts;
    var c0, c1, c2, c3 := LanesHold(b, 7);
    CountsBound(c0, c1, c2, c3);
    AddLanes(c0, c1, c2, c3);
    ModSmall(SumLanes(b, 7));
    assert b[..28] == b;
  }

  lemma CountsBound(c0: nat, c1: nat, c2: nat, c3: nat)
    requires c0 <= 56 && c1 <= 56 && c2 <= 56 && c3 <= 56
    ensures Counts(c0, c1, c2, c3) < WORD && c0 + c1 + c2 + c3 <= 224
  {
  }

  // ----- redisPopcount --------------------------------------------------------------------------------

  /** The table bitsinbyte, in rows of sixteen. */
  function BitsInByteRow(r: nat): (row: seq<nat>)
    ensures |row| == 16
  {
    match r
    case 0 => [0, 1, 1, 2, 1, 2, 2, 3, 1, 2, 2, 3, 2, 3, 3, 4]
    case 1 => [1, 2, 2, 3, 2, 3, 3, 4, 2, 3, 3, 4, 3, 4, 4, 5]
    case 2 => [1, 2, 2, 3, 2, 3, 3, 4, 2, 3, 3, 4, 3, 4, 4, 5]
    case 3 => [2, 3, 3, 4, 3, 4, 4, 5, 3, 4, 4, 5, 4, 5, 5, 6]
    case 4 => [1, 2, 2, 3, 2, 3, 3, 4, 2, 3, 3, 4, 3, 4, 4, 5]
    case 5 => [2, 3, 3, 4, 3, 4, 4, 5, 3, 4, 4, 5, 4, 5, 5, 6]
    case 6 => [2, 3, 3, 4, 3, 4, 4, 5, 3, 4, 4, 5, 4, 5, 5, 6]
    case 7 => [3, 4, 4, 5, 4, 5, 5, 6, 4, 5, 5, 6, 5, 6, 6, 7]
    case 8 => [1, 2, 2, 3, 2, 3, 3, 4, 2, 3, 3, 4, 3, 4, 4, 5]
    case 9 => [2, 3, 3, 4, 3, 4, 4, 5, 3, 4, 4, 5, 4, 5, 5, 6]
    case 10 => [2, 3, 3, 4, 3, 4, 4, 5, 3, 4, 4, 5, 4, 5, 5, 6]
    case 11 => [3, 4, 4, 5, 4, 5, 5, 6, 4, 5, 5, 6, 5, 6, 6, 7]
    case 12 => [2, 3, 3, 4, 3, 4, 4, 5, 3, 4, 4, 5, 4, 5, 5, 6]
    case 13 => [3, 4, 4, 5, 4, 5, 5, 6, 4, 5, 5, 6, 5, 6, 6, 7]
    case 14 => [3, 4, 4, 5, 4, 5, 5, 6, 4, 5, 5, 6, 5, 6, 6, 7]
    case _ => [4, 5, 5, 6, 5, 6, 6, 7, 5, 6, 6, 7, 6, 7, 7, 8]
  }

  const BITS_IN_BYTE: seq<nat> := seq(256, b requires 0 <= b < 256 => BitsInByteRow(b / 16)[b % 16])

  lemma RowCounts(r: nat, k: nat)
    requires r < 16 && k < 16
    ensures BitsInByteRow(r)[k] == OnesOfNibble(k) + OnesOfNibble(r)
  {
    hide OnesOfNibble;
    FirstRow(k);
    FirstRow(r);
    RowSum(r, k);
  }

  lemma FirstRow(k: nat)
    requires k < 16
    ensures OnesOfNibble(k) == BitsInByteRow(0)[k]
  {
    if k < 8 {
      assert k / 2 / 2 / 2 == 0;
    } else {
      assert k / 2 / 2 / 2 == 1;
    }
  }

  lemma RowSum(r: nat, k: nat)
    requires r < 16 && k < 16
    ensures BitsInByteRow(r)[k] == BitsInByteRow(0)[k] + BitsInByteRow(0)[r]
  {
    hide BitsInByteRow;
    if r < 8 {
      RowSumLow(r, k);
    } else {
      RowSumHigh(r, k);
    }
  }

  lemma RowSumLow(r: nat, k: nat)
    requires r < 8 && k < 16
    ensures BitsInByteRow(r)[k] == BitsInByteRow(0)[k] + BitsInByteRow(0)[r]
  {
  }

  lemma RowSumHigh(r: nat, k: nat)
    requires 8 <= r < 16 && k < 16
    ensures BitsInByteRow(r)[k] == BitsInByteRow(0)[k] + BitsInByteRow(0)[r]
  {
  }

  /** Every entry of the table is the number of ones of its index. */
  lemma TableCounts(b: Byte)
    ensures BITS_IN_BYTE[b] == Ones(ByteBits(b))
  {
    hide Ones, ByteBits, OnesOfNibble, BitsInByteRow;
    OnesOfByteIs(b);
    RowCounts(b / 16, b % 16);
  }

  lemma OneMore(s: Bytes, i: nat)
    requires i < |s|
    ensures OnesOf(s[..i + 1]) == OnesOf(s[..i]) + Ones(ByteBits(s[i]))
  {
    OnesOfAppend(s[..i], [s[i]]);
    assert s[..i + 1] == s[..i] + [s[i]];
    assert [s[i]][1..] == [];
  }

  lemma Block(s: Bytes, i: nat)
    requires i + 28 <= |s|
    ensures OnesOf(s[..i + 28]) == OnesOf(s[..i]) + SevenWords(s[i..i + 28])
  {
    OnesOfAppend(s[..i], s[i..i + 28]);
    assert s[..i + 28] == s[..i] + s[i..i + 28];
    SevenWordsCount(s[i..i + 28]);
  }

  /** redisPopcount, for a buffer at any address: bytes up to a multiple of four, blocks of 28
      bytes, then the rest. */
  method RedisPopcount(s: Bytes, address: nat) returns (bits: nat)
    ensures bits == Ones(BitsOf(s))
  {
    hide OnesOf, SevenWords, Ones, BitsOf, ByteBits, BitsInByteRow;
    bits := 0;
    var p, count := 0, |s|;
    assert s[..0] == [];
    OnesOfNothing();
    while (address + p) % 4 != 0 && count > 0
      invariant 0 <= p <= |s| && count == |s| - p && bits == OnesOf(s[..p])
      decreases count
    {
      OneMore(s, p);
      TableCounts(s[p]);
      bits := bits + BITS_IN_BYTE[s[p]];
      p, count := p + 1, count - 1;
    }
    while count >= 28
      invariant 0 <= p <= |s| && count == |s| - p && bits == OnesOf(s[..p])
      decreases count
    {
      Block(s, p);
      bits := bits + SevenWords(s[p..p + 28]);
      p, count := p + 28, count - 28;
    }
    while count > 0
      invariant 0 <= p <= |s| && count == |s| - p && bits == OnesOf(s[..p])
      decreases count
    {
      OneMore(s, p);
      TableCounts(s[p]);
      bits := bits + BITS_IN_BYTE[s[p]];
      p, count := p + 1, count - 1;
    }
    assert s[..p] == s;
    OnesOfBits(s);
  }
}
