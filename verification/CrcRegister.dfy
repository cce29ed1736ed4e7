/** The algebra behind table-driven CRCs, for a polynomial of any width.

    A register is a word whose index 0 is the end that falls off when it shifts; the
    polynomial `p` is written the same way round. One shift is linear over XOR, which is
    what lets a table entry stand for a run of shifts of a single byte. */
module CrcRegister {
  import opened Words

  type Octet = c: Bits | |c| == 8 witness [false, false, false, false, false, false, false, false]

  function Shift(p: Bits, x: Bits): (y: Bits)
    requires |x| == |p|
    ensures |y| == |p|
    ensures forall i :: 0 <= i < |p| ==> y[i] == ((i + 1 < |p| && x[i + 1]) != (x[0] && p[i]))
  {
    seq(|p|, i requires 0 <= i < |p| => (i + 1 < |p| && x[i + 1]) != (x[0] && p[i]))
  }

  function Shifts(p: Bits, x: Bits, n: nat): (y: Bits)
    requires |x| == |p|
    ensures |y| == |p|
  {
    if n == 0 then x else Shift(p, Shifts(p, x, n - 1))
  }

  /** The register after one more byte. */
  function Feed(p: Bits, r: Bits, c: Octet): (y: Bits)
    requires |r| == |p| >= 8
    ensures |y| == |p|
  {
    Shifts(p, Xor(r, Pad(c, |p|)), 8)
  }

  /** The register after all of `s`. */
  function Crc(p: Bits, r: Bits, s: seq<Octet>): (y: Bits)
    requires |r| == |p| >= 8
    ensures |y| == |p|
  {
    if s == [] then r else Feed(p, Crc(p, r, s[..|s| - 1]), s[|s| - 1])
  }

  /** Table level `k`, byte `c`: the register after `c` and `k` zero bytes. */
  function Entry(p: Bits, k: nat, c: Octet): (y: Bits)
    requires |p| >= 8
    ensures |y| == |p|
  {
    Shifts(p, Pad(c, |p|), 8 * (k + 1))
  }

  // ----- Linearity -------------------------------------------------------------------

  lemma ShiftXor(p: Bits, x: Bits, y: Bits)
    requires |x| == |y| == |p|
    ensures Shift(p, Xor(x, y)) == Xor(Shift(p, x), Shift(p, y))
  {
  }

  lemma {:induction false} ShiftsXor(p: Bits, x: Bits, y: Bits, n: nat)
    requires |x| == |y| == |p|
    ensures Shifts(p, Xor(x, y), n) == Xor(Shifts(p, x, n), Shifts(p, y, n))
  {
    if n > 0 {
      ShiftsXor(p, x, y, n - 1);
      ShiftXor(p, Shifts(p, x, n - 1), Shifts(p, y, n - 1));
    }
  }

  lemma {:induction false} ShiftsAdd(p: Bits, x: Bits, m: nat, n: nat)
    requires |x| == |p|
    ensures Shifts(p, Shifts(p, x, m), n) == Shifts(p, x, m + n)
  {
    if n > 0 {
      ShiftsAdd(p, x, m, n - 1);
    }
  }

  /** While only zeros fall off, shifting is moving down. */
  lemma {:induction false} ShiftsDown(p: Bits, x: Bits, k: nat)
    requires |x| == |p| && k <= |p|
    requires forall i :: 0 <= i < k ==> !x[i]
    ensures Shifts(p, x, k) == Down(x, k)
  {
    if k == 0 {
      assert Down(x, 0) == x;
    } else {
      ShiftsDown(p, x, k - 1);
      assert !Down(x, k - 1)[0];
    }
  }

  /** Split a register into its lowest byte and the rest. */
  lemma LowByte(x: Bits)
    requires |x| >= 8
    ensures x == Xor(Pad(x[..8], |x|), Up(Down(x, 8), 8))
  {
  }

  /** Eight shifts look the lowest byte up and move the others down. */
  lemma Lookup(p: Bits, x: Bits)
    requires |x| == |p| >= 8
    ensures Shifts(p, x, 8) == Xor(Entry(p, 0, x[..8]), Down(x, 8))
  {
    hide Entry, Xor, Down;
    PeelByte(p, x, 0);
    NoShifts(p, Down(x, 8), 0);
  }

  lemma NoShifts(p: Bits, x: Bits, n: nat)
    requires |x| == |p| && n == 0
    ensures Shifts(p, x, 8 * n) == x
  {
  }

  /** Peel the lowest byte of a register into its own table level. */
  lemma PeelByte(p: Bits, x: Bits, m: nat)
    requires |x| == |p| >= 8
    ensures Shifts(p, x, 8 * (m + 1)) == Xor(Entry(p, m, x[..8]), Shifts(p, Down(x, 8), 8 * m))
  {
    var high := Up(Down(x, 8), 8);
    LowByte(x);
    ShiftsXor(p, Pad(x[..8], |x|), high, 8 * (m + 1));
    ShiftsAdd(p, high, 8, 8 * m);
    ShiftsDown(p, high, 8);
    assert Down(high, 8) == Down(x, 8);
  }

  lemma {:induction false} ShiftsZero(p: Bits, n: nat)
    ensures Shifts(p, Zero(|p|), n) == Zero(|p|)
  {
    if n > 0 {
      ShiftsZero(p, n - 1);
    }
  }

  lemma EntryNext(p: Bits, k: nat, c: Octet)
    requires |p| >= 8
    ensures Entry(p, k + 1, c) == Xor(Entry(p, 0, Entry(p, k, c)[..8]), Down(Entry(p, k, c), 8))
  {
    ShiftsAdd(p, Pad(c, |p|), 8 * (k + 1), 8);
    Lookup(p, Entry(p, k, c));
  }

  lemma EntryXor(p: Bits, k: nat, c: Octet, d: Octet)
    requires |p| >= 8
    ensures Entry(p, k, Xor(c, d)) == Xor(Entry(p, k, c), Entry(p, k, d))
  {
    assert Pad(Xor(c, d), |p|) == Xor(Pad(c, |p|), Pad(d, |p|));
    ShiftsXor(p, Pad(c, |p|), Pad(d, |p|), 8 * (k + 1));
  }

  /** One byte through the level-0 table. */
  lemma FeedLookup(p: Bits, r: Bits, c: Octet)
    requires |r| == |p| >= 8
    ensures Feed(p, r, c) == Xor(Entry(p, 0, Xor(r[..8], c)), Down(r, 8))
  {
    var x := Xor(r, Pad(c, |p|));
    Lookup(p, x);
    assert x[..8] == Xor(r[..8], c);
    assert Down(x, 8) == Down(r, 8);
  }

  // ----- Buffers ---------------------------------------------------------------------

  /** Feeding a buffer in pieces gives the same register as feeding it at once. */
  lemma {:induction false} CrcAppend(p: Bits, r: Bits, a: seq<Octet>, b: seq<Octet>)
    requires |r| == |p| >= 8
    ensures Crc(p, r, a + b) == Crc(p, Crc(p, r, a), b)
  {
    if b == [] {
      assert a + b == a;
    } else {
      CrcAppend(p, r, a, b[..|b| - 1]);
      assert (a + b)[..|a + b| - 1] == a + b[..|b| - 1];
    }
  }

  lemma CrcFront(p: Bits, r: Bits, c: Octet, t: seq<Octet>)
    requires |r| == |p| >= 8
    ensures Crc(p, r, [c] + t) == Crc(p, Feed(p, r, c), t)
  {
    CrcAppend(p, r, [c], t);
    CrcOne(p, r, c);
  }

  lemma CrcOne(p: Bits, r: Bits, c: Octet)
    requires |r| == |p| >= 8
    ensures Crc(p, r, [c]) == Feed(p, r, c)
  {
    assert [c][..0] == [];
    assert Crc(p, r, [c][..0]) == r;
  }

  /** The XOR of one table entry per byte, the first byte through the highest level. */
  function Sum(p: Bits, s: seq<Octet>): (y: Bits)
    requires |p| >= 8
    ensures |y| == |p|
  {
    if s == [] then Zero(|p|) else Xor(Entry(p, |s| - 1, s[0]), Sum(p, s[1..]))
  }

  /** One byte in front of a block whose bytes add up to `rest`. */
  lemma BlockStep(p: Bits, r: Bits, c: Octet, m: nat, rest: Bits)
    requires |r| == |rest| == |p| >= 8
    ensures Xor(Shifts(p, Feed(p, r, c), 8 * m), rest) == Xor(Shifts(p, r, 8 * (m + 1)), Xor(Entry(p, m, c), rest))
  {
    hide Shifts;
    var x := Pad(c, |p|);
    ShiftsXor(p, r, x, 8);
    ShiftsXor(p, Shifts(p, r, 8), Shifts(p, x, 8), 8 * m);
    ShiftsAdd(p, r, 8, 8 * m);
    ShiftsAdd(p, x, 8, 8 * m);
    XorAssoc(Shifts(p, r, 8 + 8 * m), Shifts(p, x, 8 + 8 * m), rest);
  }

  lemma BlockNothing(p: Bits, r: Bits)
    requires |r| == |p| >= 8
    ensures Crc(p, r, []) == Xor(Shifts(p, r, 0), Sum(p, []))
  {
    XorZero(r);
  }

  /** A block of bytes: shift the old register past all of them and add one table entry
      for each. */
  lemma {:induction false} CrcBlock(p: Bits, r: Bits, s: seq<Octet>)
    requires |r| == |p| >= 8
    ensures Crc(p, r, s) == Xor(Shifts(p, r, 8 * |s|), Sum(p, s))
    decreases |s|
  {
    hide Shifts, Crc, Feed, Entry;
    if s == [] {
      BlockNothing(p, r);
    } else {
      assert [s[0]] + s[1..] == s;
      CrcFront(p, r, s[0], s[1..]);
      CrcBlock(p, Feed(p, r, s[0]), s[1..]);
      BlockStep(p, r, s[0], |s| - 1, Sum(p, s[1..]));
    }
  }

  /** Byte `j` of a register is its bits from `8 * j`. */
  function Bytes(x: Bits, m: nat): (s: seq<Octet>)
    requires 8 * m <= |x|
    ensures |s| == m && forall j :: 0 <= j < m ==> s[j] == x[8 * j..8 * j + 8]
  {
    seq(m, j requires 0 <= j < m => x[8 * j..8 * j + 8])
  }

  /** Shifting out a register that occupies `m` bytes is one lookup per byte. */
  lemma {:induction false} ShiftOut(p: Bits, x: Bits, m: nat)
    requires |x| == |p| >= 8 && 8 * m <= |p|
    requires forall i :: 8 * m <= i < |p| ==> !x[i]
    ensures Shifts(p, x, 8 * m) == Sum(p, Bytes(x, m))
    decreases m
  {
    if m == 0 {
      assert x == Zero(|p|);
    } else {
      PeelByte(p, x, m - 1);
      ShiftOut(p, Down(x, 8), m - 1);
      forall j | 0 <= j < m - 1 ensures Bytes(Down(x, 8), m - 1)[j] == Bytes(x, m)[1..][j] {
        assert Down(x, 8)[8 * j..8 * j + 8] == x[8 * (j + 1)..8 * (j + 1) + 8];
      }
      assert Bytes(Down(x, 8), m - 1) == Bytes(x, m)[1..];
    }
  }

  /** A full-width block: XOR the block into the register, then one lookup per byte. */
  lemma CrcWord(p: Bits, r: Bits, w: Bits, m: nat)
    requires |r| == |w| == |p| == 8 * m && m > 0
    ensures Crc(p, r, Bytes(w, m)) == Sum(p, Bytes(Xor(r, w), m))
  {
    CrcBlock(p, r, Bytes(w, m));
    ShiftsXor(p, r, w, 8 * m);
    ShiftOut(p, w, m);
    ShiftOut(p, Xor(r, w), m);
  }

  lemma SumUnfold(p: Bits, s: seq<Octet>)
    requires |p| >= 8 && s != []
    ensures Sum(p, s) == Xor(Entry(p, |s| - 1, s[0]), Sum(p, s[1..]))
  {
    hide Entry, Xor, Zero;
  }

  lemma SumStep(p: Bits, s: seq<Octet>, k: nat)
    requires |p| >= 8 && k < |s|
    ensures Sum(p, s[k..]) == Xor(Entry(p, |s| - 1 - k, s[k]), Sum(p, s[k + 1..]))
  {
    hide *;
    SumUnfold(p, s[k..]);
    DropOne(s, k);
  }

  lemma DropOne<T>(s: seq<T>, k: nat)
    requires k < |s|
    ensures |s[k..]| == |s| - k && s[k..][0] == s[k] && s[k..][1..] == s[k + 1..]
  {
  }

  /** The eight lookups of one middle round, associated the way C associates them. */
  lemma SumOfEight(p: Bits, s: seq<Octet>)
    requires |p| >= 8 && |s| == 8
    ensures Sum(p, s) == Xor(Xor(Xor(Xor(Xor(Xor(Xor(
      Entry(p, 7, s[0]), Entry(p, 6, s[1])), Entry(p, 5, s[2])), Entry(p, 4, s[3])), Entry(p, 3, s[4])),
      Entry(p, 2, s[5])), Entry(p, 1, s[6])), Entry(p, 0, s[7]))
  {
    hide *;
    FrontOfEight(p, s);
    var a1 := Xor(Entry(p, 7, s[0]), Entry(p, 6, s[1]));
    var a2 := Xor(a1, Entry(p, 5, s[2]));
    var a3 := Xor(a2, Entry(p, 4, s[3]));
    var a4 := Xor(a3, Entry(p, 3, s[4]));
    var a5 := Xor(a4, Entry(p, 2, s[5]));
    var a6 := Xor(a5, Entry(p, 1, s[6]));
    SumTail(p, s, Entry(p, 7, s[0]), 1);
    SumTail(p, s, a1, 2);
    SumTail(p, s, a2, 3);
    SumTail(p, s, a3, 4);
    SumTail(p, s, a4, 5);
    SumTail(p, s, a5, 6);
    SumTail(p, s, a6, 7);
    XorZero(Xor(a6, Entry(p, 0, s[7])));
  }

  lemma FrontOfEight(p: Bits, s: seq<Octet>)
    requires |p| >= 8 && |s| == 8
    ensures Sum(p, s) == Xor(Entry(p, 7, s[0]), Sum(p, s[1..]))
    ensures Sum(p, s[8..]) == Zero(|p|)
  {
    hide *;
    SumUnfold(p, s);
    SumNothing(p, s[8..]);
  }

  lemma SumNothing(p: Bits, s: seq<Octet>)
    requires |p| >= 8 && s == []
    ensures Sum(p, s) == Zero(|p|)
  {
  }

  lemma SumTail(p: Bits, s: seq<Octet>, a: Bits, k: nat)
    requires |a| == |p| >= 8 && k < |s|
    ensures Xor(a, Sum(p, s[k..])) == Xor(Xor(a, Entry(p, |s| - 1 - k, s[k])), Sum(p, s[k + 1..]))
  {
    hide *;
    SumStep(p, s, k);
    XorAssoc(a, Entry(p, |s| - 1 - k, s[k]), Sum(p, s[k + 1..]));
  }

  lemma XorZero(a: Bits)
    ensures Xor(a, Zero(|a|)) == a
  {
  }

  lemma XorAssoc(a: Bits, b: Bits, c: Bits)
    requires |a| == |b| == |c|
    ensures Xor(Xor(a, b), c) == Xor(a, Xor(b, c))
  {
  }

  // ----- Bit by bit ------------------------------------------------------------------

  /** The register after the first `k` bits of a byte, fed one at a time at index 0. */
  function FeedBits(p: Bits, r: Bits, c: Octet, k: nat): (y: Bits)
    requires |r| == |p| >= 8 && k <= 8
    ensures |y| == |p|
  {
    if k == 0 then r else Shift(p, Xor(FeedBits(p, r, c, k - 1), Pad([c[k - 1]], |p|)))
  }

  lemma ShiftUp(p: Bits, x: Bits)
    requires |x| == |p| >= 8 && !x[|p| - 1]
    ensures Shift(p, Up(x, 1)) == x
  {
  }

  lemma {:induction false} FeedBitsPrefix(p: Bits, r: Bits, c: Octet, k: nat)
    requires |r| == |p| >= 8 && k <= 8
    ensures Xor(FeedBits(p, r, c, k), Pad(Down(c, k), |p|)) == Shifts(p, Xor(r, Pad(c, |p|)), k)
  {
    if k == 0 {
      assert Down(c, 0) == c;
    } else {
      FeedBitsPrefix(p, r, c, k - 1);
      var f, bit := FeedBits(p, r, c, k - 1), Pad([c[k - 1]], |p|);
      var rest := Up(Pad(Down(c, k), |p|), 1);
      assert Pad(Down(c, k - 1), |p|) == Xor(bit, rest);
      XorAssoc(f, bit, rest);
      ShiftXor(p, Xor(f, bit), rest);
      ShiftUp(p, Pad(Down(c, k), |p|));
    }
  }

  /** Feeding a byte bit by bit is feeding it at once. */
  lemma FeedBitsAll(p: Bits, r: Bits, c: Octet)
    requires |r| == |p| >= 8
    ensures FeedBits(p, r, c, 8) == Feed(p, r, c)
  {
    FeedBitsPrefix(p, r, c, 8);
    assert Xor(FeedBits(p, r, c, 8), Pad(Down(c, 8), |p|)) == FeedBits(p, r, c, 8);
  }
}
