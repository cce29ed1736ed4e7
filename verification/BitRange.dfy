/** Ranges of a string in bytes or bits, and BITCOUNT over them. */
module BitRange {
  import opened Options
  import opened Words
  import opened BitString
  import opened Popcount

  // ----- Ranges ---------------------------------------------------------------------------

  /** Negative indexes count from the end; both ends are moved into the string. */
  function Start(start: int, total: nat): (r: nat)
  {
    if start >= 0 then start else if total + start >= 0 then total + start else 0
  }

  function End(end: int, total: nat): (r: int)
    ensures r < total && r >= -1
  {
    var e := if end < 0 then total + end else end;
    var f := if e < 0 then 0 else e;
    if f >= total then total - 1 else f
  }

  /** The first and the last bit of a range; nothing if the range is empty. */
  datatype Range = Empty | Bits(lo: nat, hi: nat)

  function RangeOf(start: int, end: int, bytes: nat, isbit: bool): (r: Range)
    ensures r.Bits? ==> r.lo <= r.hi < 8 * bytes
  {
    var total := if isbit then 8 * bytes else bytes;
    var s, e := Start(start, total), End(end, total);
    if s > e then Empty
    else if isbit then Bits(s, e)
    else Bits(8 * s, 8 * e + 7)
  }

  /** An index given by the user: from the end of the `total` units if it is negative. */
  predicate AtOrAfter(u: nat, start: int, total: nat) {
    if start >= 0 then u >= start else u >= total + start
  }

  /** The same for the end; one before the beginning still means the first unit. */
  predicate AtOrBefore(u: nat, end: int, total: nat) {
    if end >= 0 then u <= end else u <= total + end || (total + end < 0 && u == 0)
  }

  /** The bits that a range selects: those whose unit, a byte or a bit, is at or after the start
      and at or before the end. */
  predicate Selected(i: nat, start: int, end: int, bytes: nat, isbit: bool) {
    var u, total := if isbit then i else i / 8, if isbit then 8 * bytes else bytes;
    AtOrAfter(u, start, total) && AtOrBefore(u, end, total)
  }

  lemma RangeSelects(start: int, end: int, bytes: nat, isbit: bool, i: nat)
    requires i < 8 * bytes
    ensures var r := RangeOf(start, end, bytes, isbit);
      Selected(i, start, end, bytes, isbit) <==> r.Bits? && r.lo <= i <= r.hi
  {
    assert i / 8 < bytes;
  }

  /** It is empty exactly when it selects nothing. */
  lemma EmptyRange(start: int, end: int, bytes: nat, isbit: bool)
    ensures RangeOf(start, end, bytes, isbit).Empty? <==>
            forall i :: 0 <= i < 8 * bytes ==> !Selected(i, start, end, bytes, isbit)
  {
    hide Selected, RangeOf;
    var r := RangeOf(start, end, bytes, isbit);
    forall i | 0 <= i < 8 * bytes ensures Selected(i, start, end, bytes, isbit) <==> r.Bits? && r.lo <= i <= r.hi {
      RangeSelects(start, end, bytes, isbit, i);
    }
    if r.Bits? {
      assert Selected(r.lo, start, end, bytes, isbit);
    }
  }

  // ----- Masks for the bytes at the edges ----------------------------------------------------

  /** ~((1 << (8 - k)) - 1) & 0xFF: the high `k` bits, least significant bit first. */
  function HighMask(k: nat): (m: Words.Bits)
    requires k < 8
    ensures |m| == 8 && forall i :: 0 <= i < 8 ==> m[i] == (i >= 8 - k)
  {
    seq(8, i => i >= 8 - k)
  }

  /** (1 << k) - 1: the low `k` bits. */
  function LowMask(k: nat): (m: Words.Bits)
    requires k < 8
    ensures |m| == 8 && forall i :: 0 <= i < 8 ==> m[i] == (i < k)
  {
    seq(8, i => i < k)
  }

  /** The bits of one byte in the order of the string. */
  lemma ByteInOrder(s: Bytes, a: nat)
    requires a < |s|
    ensures BitsOf(s)[8 * a..8 * a + 8] == Reverse(ByteBits(s[a]))
  {
    hide ByteBits;
    forall j | 0 <= j < 8 ensures BitsOf(s)[8 * a..8 * a + 8][j] == Reverse(ByteBits(s[a]))[j] {
      assert (8 * a + j) / 8 == a && (8 * a + j) % 8 == j;
    }
  }

  lemma {:induction false} OnesOfFalse(b: Words.Bits)
    requires forall i :: 0 <= i < |b| ==> !b[i]
    ensures Ones(b) == 0
  {
    if b != [] {
      OnesOfFalse(b[1..]);
    }
  }

  /** The ones under the high mask are those of the first bits of the byte. */
  lemma HighOnes(b: Words.Bits, k: nat)
    requires |b| == 8 && k < 8
    ensures Ones(And(b, HighMask(k))) == Ones(Reverse(b)[..k])
  {
    var low, high := Zero(8 - k), b[8 - k..];
    assert And(b, HighMask(k)) == low + high;
    OnesAppend(low, high);
    OnesOfFalse(low);
    OnesReverse(high);
    assert Reverse(high) == Reverse(b)[..k];
  }

  lemma LowOnes(b: Words.Bits, k: nat)
    requires |b| == 8 && k < 8
    ensures Ones(And(b, LowMask(k))) == Ones(Reverse(b)[8 - k..])
  {
    var low, high := b[..k], Zero(8 - k);
    assert And(b, LowMask(k)) == low + high;
    OnesAppend(low, high);
    OnesOfFalse(high);
    OnesReverse(low);
    assert Reverse(low) == Reverse(b)[8 - k..];
  }

  /** Counting whole bytes and taking back the bits before and after the range. */
  lemma EdgesTakenBack(s: Bytes, lo: nat, hi: nat)
    requires lo <= hi < 8 * |s|
    ensures var a, e := lo / 8, hi / 8; var b := BitsOf(s);
      8 * e + 8 <= 8 * |s|
      && Ones(b[8 * a..8 * e + 8])
        == Ones(b[8 * a..8 * a + lo % 8]) + Ones(b[lo..hi + 1]) + Ones(b[8 * e + hi % 8 + 1..8 * e + 8])
  {
    hide Ones;
    var a, e := lo / 8, hi / 8;
    assert lo == 8 * a + lo % 8 && hi == 8 * e + hi % 8;
    ThreeParts(BitsOf(s), 8 * a, lo, hi + 1, 8 * e + 8);
  }

  lemma ThreeParts(b: Words.Bits, i: nat, j: nat, k: nat, l: nat)
    requires i <= j <= k <= l <= |b|
    ensures Ones(b[i..l]) == Ones(b[i..j]) + Ones(b[j..k]) + Ones(b[k..l])
  {
    hide Ones;
    OnesAppend(b[i..j], b[j..k]);
    OnesAppend(b[i..k], b[k..l]);
    assert b[i..j] + b[j..k] == b[i..k];
    assert b[i..k] + b[k..l] == b[i..l];
  }

  lemma SliceBits(s: Bytes, a: nat, e: nat)
    requires a <= e <= |s|
    ensures BitsOf(s[a..e]) == BitsOf(s)[8 * a..8 * e]
  {
    hide ByteBits, BitsOf;
    forall i | 0 <= i < 8 * (e - a) ensures BitsOf(s[a..e])[i] == BitsOf(s)[8 * a..8 * e][i] {
      SliceBit(s, a, e, i);
    }
  }

  lemma SliceBit(s: Bytes, a: nat, e: nat, i: nat)
    requires a <= e <= |s| && i < 8 * (e - a)
    ensures BitsOf(s[a..e])[i] == BitsOf(s)[8 * a + i]
  {
    hide ByteBits;
    assert (8 * a + i) / 8 == a + i / 8 && (8 * a + i) % 8 == i % 8;
  }

  // ----- BITCOUNT ---------------------------------------------------------------------------------

  /** The two edge bytes, masked, are counted as a string of two bytes. */
  lemma TwoBytes(x: Byte, y: Byte)
    ensures Ones(BitsOf([x, y])) == Ones(ByteBits(x)) + Ones(ByteBits(y))
  {
    hide Ones, ByteBits, BitsOf;
    var two, one := [x, y], [y];
    OnesOfBits(two);
    assert two[1..] == one && one[1..] == [];
    assert OnesOf(one) == Ones(ByteBits(y)) + OnesOf([]);
  }

  /** `p[a] & mask`, for a mask of the high bits; a mask of zero leaves nothing. */
  lemma FirstEdge(s: Bytes, lo: nat)
    requires lo < 8 * |s|
    ensures var a := lo / 8;
      Ones(And(ByteBits(s[a]), HighMask(lo % 8))) == Ones(BitsOf(s)[8 * a..8 * a + lo % 8])
  {
    hide ByteBits, BitsOf, Ones;
    var a := lo / 8;
    HighOnes(ByteBits(s[a]), lo % 8);
    ByteInOrder(s, a);
    assert BitsOf(s)[8 * a..8 * a + 8][..lo % 8] == BitsOf(s)[8 * a..8 * a + lo % 8];
  }

  lemma LastEdge(s: Bytes, hi: nat)
    requires hi < 8 * |s|
    ensures var e := hi / 8;
      Ones(And(ByteBits(s[e]), LowMask(7 - hi % 8))) == Ones(BitsOf(s)[8 * e + hi % 8 + 1..8 * e + 8])
  {
    hide ByteBits, BitsOf, Ones;
    var e := hi / 8;
    LowOnes(ByteBits(s[e]), 7 - hi % 8);
    ByteInOrder(s, e);
    assert BitsOf(s)[8 * e..8 * e + 8][hi % 8 + 1..] == BitsOf(s)[8 * e + hi % 8 + 1..8 * e + 8];
  }

  /** The counting part of bitcountCommand: whole bytes, minus the masked edges. */
  method CountRange(s: Bytes, lo: nat, hi: nat, address: nat) returns (count: int)
    requires lo <= hi < 8 * |s|
    ensures count == Ones(BitsOf(s)[lo..hi + 1])
  {
    hide Ones, BitsOf, ByteBits, HighMask, LowMask;
    var firstNeg, lastNeg := HighMask(lo % 8), LowMask(7 - hi % 8);
    var start, end := lo / 8, hi / 8;
    count := RedisPopcount(s[start..end + 1], address + start);
    SliceBits(s, start, end + 1);
    EdgesTakenBack(s, lo, hi);
    FirstEdge(s, lo);
    LastEdge(s, hi);
    if firstNeg != Zero(8) || lastNeg != Zero(8) {
      var first, last := ByteOf(And(ByteBits(s[start]), firstNeg)), ByteOf(And(ByteBits(s[end]), lastNeg));
      TwoBytes(first, last);
      var edges := RedisPopcount([first, last], address);
      count := count - edges;
    } else {
      NothingMasked(ByteBits(s[start]), firstNeg);
      NothingMasked(ByteBits(s[end]), lastNeg);
    }
  }

  lemma NothingMasked(b: Words.Bits, m: Words.Bits)
    requires |b| == 8 && m == Zero(8)
    ensures Ones(And(b, m)) == 0
  {
    OnesOfFalse(And(b, m));
  }

  /** bitcountCommand on an existing string. `range` is missing when no range was given. */
  method BitCount(s: Bytes, range: Option<(int, int)>, isbit: bool, address: nat)
    returns (count: int)
    ensures
      var r := if range.None? then RangeOf(0, -1, |s|, false) else RangeOf(range.value.0, range.value.1, |s|, isbit);
      count ==
        if range.Some? && range.value.0 < 0 && range.value.1 < 0 && range.value.0 > range.value.1 then 0
        else if r.Empty? then 0
        else Ones(BitsOf(s)[r.lo..r.hi + 1])
  {
    hide Ones, BitsOf;
    var start, end := 0, |s| - 1;
    var bits := false;
    if range.Some? {
      start, end := range.value.0, range.value.1;
      if start < 0 && end < 0 && start > end {
        return 0;
      }
      bits := isbit;
      var totlen := if isbit then 8 * |s| else |s|;
      if start < 0 { start := totlen + start; }
      if end < 0 { end := totlen + end; }
      if start < 0 { start := 0; }
      if end < 0 { end := 0; }
      if end >= totlen { end := totlen - 1; }
    }
    if start > end {
      return 0;
    }
    if bits {
      count := CountRange(s, start, end, address);
    } else {
      count := CountRange(s, 8 * start, 8 * end + 7, address);
    }
  }
}
