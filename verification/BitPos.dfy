/** Finding the first bit of a kind: whole words are skipped, the last one is scanned, and bytes
    at the edges of a range are masked so that bits outside cannot match. */
module BitPos {
  import opened Options
  import opened Words
  import opened BitString
  import opened BitRange

  /** The least position that holds `x`. */
  ghost predicate First(b: Words.Bits, x: bool, r: int) {
    0 <= r < |b| && b[r] == x && forall i :: 0 <= i < r ==> b[i] != x
  }

  ghost predicate Nowhere(b: Words.Bits, x: bool) {
    forall i :: 0 <= i < |b| ==> b[i] != x
  }

  /** The answer of redisBitpos: the least position; without one, -1 for a one, and for a zero
      the position behind the string, which is taken to go on with zeros. */
  ghost predicate Answer(b: Words.Bits, x: bool, r: int) {
    if Nowhere(b, x) then r == (if x then -1 else |b|) else First(b, x, r)
  }

  /** The byte without any bit of the wanted kind. */
  function SkipByte(bit: bool): Byte {
    if bit then 0 else 255
  }

  lemma SkipBits(bit: bool, k: nat)
    requires k < 8
    ensures ByteBits(SkipByte(bit))[k] != bit
  {
    assert Pow2(8) == 256;
    if bit {
      ZeroDigits(0, 8, k);
    } else {
      OneDigits(255, 8, k);
    }
  }

  /** A byte has a bit of the kind exactly if it is not the byte to skip. */
  lemma OtherByte(b: Byte, bit: bool)
    requires b != SkipByte(bit)
    ensures exists k :: 0 <= k < 8 && ByteBits(b)[k] == bit
  {
    if forall k :: 0 <= k < 8 ==> ByteBits(b)[k] != bit {
      forall k | 0 <= k < 8 ensures ByteBits(b)[k] == ByteBits(SkipByte(bit))[k] {
        SkipBits(bit, k);
      }
      assert ByteBits(b) == ByteBits(SkipByte(bit));
      ByteRoundTrip(b);
      ByteRoundTrip(SkipByte(bit));
    }
  }

  /** Nothing of the kind in the first `n` bytes. */
  ghost predicate Skipped(s: Bytes, bit: bool, n: nat)
    requires n <= |s|
  {
    forall i :: 0 <= i < n ==> s[i] == SkipByte(bit)
  }

  lemma SkippedBits(s: Bytes, bit: bool, n: nat, i: nat)
    requires n <= |s| && Skipped(s, bit, n) && i < 8 * n
    ensures BitsOf(s)[i] != bit
  {
    SkipBits(bit, 7 - i % 8);
  }

  /** `word <<= 8; word |= byte`, on words written most significant bit first. */
  function ShiftIn(word: Words.Bits, byte: Words.Bits): (w: Words.Bits)
    requires |word| == 64 && |byte| == 8
    ensures |w| == 64
  {
    word[8..] + Reverse(byte)
  }

  /** The next byte, or zeros behind the end of the string. */
  lemma NextByte(s: Bytes, p: nat, j: nat, byte: Words.Bits)
    requires byte == if p + j < |s| then ByteBits(s[p + j]) else Zero(8)
    ensures Extended(s, 8 * p, 8 * (j + 1)) == Extended(s, 8 * p, 8 * j) + Reverse(byte)
  {
    hide ByteBits;
    var a, b := Extended(s, 8 * p, 8 * (j + 1)), Extended(s, 8 * p, 8 * j) + Reverse(byte);
    forall i | 0 <= i < 8 * (j + 1) ensures a[i] == b[i] {
      if i >= 8 * j {
        assert (8 * p + i) / 8 == p + j && (8 * p + i) % 8 == i - 8 * j;
      }
    }
  }

  lemma ShiftZeros(j: nat, loaded: Words.Bits, byte: Words.Bits)
    requires j < 8 && |loaded| == 8 * j && |byte| == 8
    ensures ShiftIn(Zero(64 - 8 * j) + loaded, byte) == Zero(64 - 8 * (j + 1)) + (loaded + Reverse(byte))
  {
  }

  /** Load up to eight bytes, most significant first, padded with zeros on the right. */
  method LoadWord(s: Bytes, p: nat) returns (word: Words.Bits)
    requires p <= |s|
    ensures word == Extended(s, 8 * p, 64)
  {
    hide ByteBits, BitAt, ShiftIn;
    word := Zero(64);
    var c, count := p, |s| - p;
    assert word == Zero(64 - 8 * 0) + Extended(s, 8 * p, 8 * 0);
    for j := 0 to 8
      invariant c == (if p + j <= |s| then p + j else |s|) && count == |s| - c
      invariant word == Zero(64 - 8 * j) + Extended(s, 8 * p, 8 * j)
    {
      var byte := Zero(8);
      ghost var loaded := Extended(s, 8 * p, 8 * j);
      if count > 0 {
        byte := ByteBits(s[c]);
        c, count := c + 1, count - 1;
      }
      NextByte(s, p, j, byte);
      ShiftZeros(j, loaded, byte);
      word := ShiftIn(word, byte);
    }
    assert Zero(0) + Extended(s, 8 * p, 64) == Extended(s, 8 * p, 64);
  }

  /** Scan a word from the top. */
  method ScanWord(word: Words.Bits, bit: bool) returns (k: nat)
    requires |word| == 64 && !Nowhere(word, bit)
    ensures First(word, bit, k)
  {
    k := 0;
    while word[k] != bit
      invariant 0 <= k < 64
      invariant forall i :: 0 <= i < k ==> word[i] != bit
      decreases 64 - k
    {
      if k == 63 {
        assert Nowhere(word, bit);
      }
      k := k + 1;
    }
  }

  /** What is found in the loaded word is found in the string, or right behind its end. */
  lemma FoundInWord(s: Bytes, bit: bool, p: nat, k: nat)
    requires p <= |s| && Skipped(s, bit, p) && First(Extended(s, 8 * p, 64), bit, k)
    ensures Answer(BitsOf(s), bit, 8 * p + k)
  {
    hide BitsOf, Skipped;
    var b, w := BitsOf(s), Extended(s, 8 * p, 64);
    var r := 8 * p + k;
    forall i | 0 <= i < r && i < |b| ensures b[i] != bit {
      BeforeFound(s, bit, p, k, i);
    }
    assert w[k] == BitAt(s, r);
    if r < |b| {
      assert b[r] == bit;
    } else {
      assert !bit && Nowhere(b, bit);
      BehindEnd(s, p, k);
    }
  }

  lemma BeforeFound(s: Bytes, bit: bool, p: nat, k: nat, i: nat)
    requires p <= |s| && Skipped(s, bit, p) && First(Extended(s, 8 * p, 64), bit, k)
    requires i < 8 * p + k && i < 8 * |s|
    ensures BitsOf(s)[i] != bit
  {
    hide BitsOf, Skipped;
    if i < 8 * p {
      SkippedBits(s, bit, p, i);
    } else {
      assert Extended(s, 8 * p, 64)[i - 8 * p] != bit;
    }
  }

  lemma BehindEnd(s: Bytes, p: nat, k: nat)
    requires p <= |s| && 8 * p + k >= 8 * |s| && First(Extended(s, 8 * p, 64), false, k)
    ensures 8 * p + k == 8 * |s|
  {
    var w := Extended(s, 8 * p, 64);
    var i := 8 * |s| - 8 * p;
    assert !BitAt(s, 8 * p + i);
    assert i < 64 ==> !w[i];
  }

  /** The comparison of a whole word: its eight bytes are all bytes to skip. */
  predicate SkipWord(s: Bytes, bit: bool, p: nat) {
    p + 8 <= |s| && forall i :: p <= i < p + 8 ==> s[i] == SkipByte(bit)
  }

  /** Nothing in the word: then the string ends in it, and ones were looked for. */
  lemma NothingInWord(s: Bytes, bit: bool, p: nat)
    requires p <= |s| && Skipped(s, bit, p) && Nowhere(Extended(s, 8 * p, 64), bit)
    requires !SkipWord(s, bit, p)
    ensures bit && Nowhere(BitsOf(s), bit)
  {
    var b, w := BitsOf(s), Extended(s, 8 * p, 64);
    if |s| - p >= 8 {
      var i :| p <= i < p + 8 && s[i] != SkipByte(bit);
      InWord(s, bit, p, i - p);
    }
    assert |s| - p < 8;
    assert w[63] == BitAt(s, 8 * p + 63);
    forall i | 0 <= i < |b| ensures b[i] != bit {
      if i < 8 * p {
        SkippedBits(s, bit, p, i);
      } else {
        assert w[i - 8 * p] != bit;
      }
    }
  }

  lemma InWord(s: Bytes, bit: bool, p: nat, j: nat)
    requires p + j < |s| && j < 8 && s[p + j] != SkipByte(bit)
    ensures !Nowhere(Extended(s, 8 * p, 64), bit)
  {
    hide ByteBits;
    OtherByte(s[p + j], bit);
    var k :| 0 <= k < 8 && ByteBits(s[p + j])[k] == bit;
    var i := 8 * j + (7 - k);
    assert (8 * p + i) / 8 == p + j && (8 * p + i) % 8 == 7 - k;
    assert Extended(s, 8 * p, 64)[i] == bit;
  }

  /** redisBitpos, for a buffer at any address. */
  method RedisBitpos(s: Bytes, address: nat, bit: bool) returns (pos: int)
    ensures Answer(BitsOf(s), bit, pos)
  {
    hide Answer, BitsOf, SkipByte, BitAt, SkipWord, Skipped;
    NothingSkipped(s, bit);
    var p, count := 0, |s|;
    var found := false;
    pos := 0;
    while (address + p) % 8 != 0 && count > 0
      invariant 0 <= p <= |s| && count == |s| - p && pos == 8 * p
      invariant Skipped(s, bit, p) && !found
      decreases count
    {
      if s[p] != SkipByte(bit) {
        found := true;
        break;
      }
      OneSkipped(s, bit, p);
      p, count, pos := p + 1, count - 1, pos + 8;
    }
    if !found {
      while count >= 8
        invariant 0 <= p <= |s| && count == |s| - p && pos == 8 * p
        invariant Skipped(s, bit, p)
        decreases count
      {
        if !SkipWord(s, bit, p) {
          break;
        }
        SkippedMore(s, bit, p);
        p, count, pos := p + 8, count - 8, pos + 64;
      }
    }
    NotSkipped(s, bit, p);
    var word := LoadWord(s, p);
    if bit && word == Zero(64) {
      NothingInWord(s, bit, p);
      NoAnswer(BitsOf(s));
      return -1;
    }
    ghost var nothing := Nowhere(word, bit);
    if nothing {
      NothingInWord(s, bit, p);
      AllZeroWord(word);
    }
    var k := ScanWord(word, bit);
    FoundInWord(s, bit, p, k);
    pos := pos + k;
  }

  lemma NothingSkipped(s: Bytes, bit: bool)
    ensures Skipped(s, bit, 0)
  {
  }

  lemma OneSkipped(s: Bytes, bit: bool, p: nat)
    requires p < |s| && Skipped(s, bit, p) && s[p] == SkipByte(bit)
    ensures Skipped(s, bit, p + 1)
  {
  }

  lemma SkippedMore(s: Bytes, bit: bool, p: nat)
    requires p + 8 <= |s| && Skipped(s, bit, p) && SkipWord(s, bit, p)
    ensures Skipped(s, bit, p + 8)
  {
  }

  /** A word with another byte in it, or one that the string does not fill. */
  lemma NotSkipped(s: Bytes, bit: bool, p: nat)
    ensures p < |s| && s[p] != SkipByte(bit) ==> !SkipWord(s, bit, p)
    ensures p + 8 > |s| ==> !SkipWord(s, bit, p)
  {
  }

  lemma NoAnswer(b: Words.Bits)
    requires Nowhere(b, true)
    ensures Answer(b, true, -1)
  {
  }

  lemma AllZeroWord(word: Words.Bits)
    requires |word| == 64 && Nowhere(word, true)
    ensures word == Zero(64)
  {
  }

  // ----- BITPOS ------------------------------------------------------------------------------------------

  /** No bit of the kind from `lo` to `hi`. */
  ghost predicate Absent(b: Words.Bits, lo: int, hi: int, x: bool) {
    forall i :: 0 <= i < |b| && lo <= i <= hi ==> b[i] != x
  }

  /** The least position from `lo` to `hi` that holds `x`. */
  ghost predicate FirstIn(b: Words.Bits, lo: int, hi: int, x: bool, r: int) {
    lo <= r <= hi && 0 <= r < |b| && b[r] == x && Absent(b, lo, r - 1, x)
  }

  /** A search over part of the string that starts at bit `base`: found there, or `none`. */
  ghost predicate Partial(b: Words.Bits, lo: int, hi: int, x: bool, base: int, pos: int, none: int) {
    if Absent(b, lo, hi, x) then pos == none else pos >= 0 && FirstIn(b, lo, hi, x, base + pos)
  }

  /** Bits under the mask are made to differ from the wanted kind: `b & ~m` or `b | m`. */
  function MaskByte(b: Byte, m: Words.Bits, bit: bool): Byte
    requires |m| == 8
  {
    ByteOf(if bit then And(ByteBits(b), Not(m)) else Or(ByteBits(b), m))
  }

  lemma MaskedBit(b: Byte, m: Words.Bits, bit: bool, k: nat)
    requires |m| == 8 && k < 8
    ensures ByteBits(MaskByte(b, m, bit))[k] == if m[k] then !bit else ByteBits(b)[k]
  {
  }

  /** A byte of which only the bits `from` to `to`, in the order of the string, still count. */
  ghost predicate OnlyBits(t: Byte, b: Byte, from: nat, to: nat, bit: bool) {
    forall k :: 0 <= k < 8 ==> ByteBits(t)[k] == if from <= 7 - k <= to then ByteBits(b)[k] else !bit
  }

  lemma MaskBoth(b: Byte, from: nat, to: nat, bit: bool)
    requires from <= to < 8
    ensures OnlyBits(MaskByte(b, HighMask(from), bit), b, from, 7, bit)
    ensures OnlyBits(MaskByte(b, LowMask(7 - to), bit), b, 0, to, bit)
    ensures OnlyBits(MaskByte(MaskByte(b, HighMask(from), bit), LowMask(7 - to), bit), b, from, to, bit)
  {
    hide ByteBits, MaskByte;
    forall k | 0 <= k < 8
      ensures ByteBits(MaskByte(b, HighMask(from), bit))[k] == if from <= 7 - k then ByteBits(b)[k] else !bit
      ensures ByteBits(MaskByte(b, LowMask(7 - to), bit))[k] == if 7 - k <= to then ByteBits(b)[k] else !bit
      ensures ByteBits(MaskByte(MaskByte(b, HighMask(from), bit), LowMask(7 - to), bit))[k]
           == if from <= 7 - k <= to then ByteBits(b)[k] else !bit
    {
      MaskedBit(b, HighMask(from), bit, k);
      MaskedBit(b, LowMask(7 - to), bit, k);
      MaskedBit(MaskByte(b, HighMask(from), bit), LowMask(7 - to), bit, k);
    }
  }

  /** The answer for a masked byte is the answer for its part of the string. */
  lemma ByteAnswer(s: Bytes, a: nat, t: Byte, from: nat, to: nat, bit: bool, pos: int)
    requires a < |s| && from <= to < 8 && OnlyBits(t, s[a], from, to, bit)
    requires Answer(BitsOf([t]), bit, pos)
    ensures Partial(BitsOf(s), 8 * a + from, 8 * a + to, bit, 8 * a, pos, if bit then -1 else 8)
  {
    hide ByteBits;
    var b, m := BitsOf(s), BitsOf([t]);
    forall j | 0 <= j < 8 ensures m[j] == if from <= j <= to then b[8 * a + j] else !bit {
      assert (8 * a + j) / 8 == a && (8 * a + j) % 8 == j;
      assert j / 8 == 0 && j % 8 == j;
      assert m[j] == ByteBits(t)[7 - j] && b[8 * a + j] == ByteBits(s[a])[7 - j];
    }
    ByteParts(b, m, a, from, to, bit, pos);
  }

  lemma ByteParts(b: Words.Bits, m: Words.Bits, a: nat, from: nat, to: nat, bit: bool, pos: int)
    requires |m| == 8 && 8 * a + 8 <= |b| && from <= to < 8
    requires forall j :: 0 <= j < 8 ==> m[j] == if from <= j <= to then b[8 * a + j] else !bit
    requires Answer(m, bit, pos)
    ensures Partial(b, 8 * a + from, 8 * a + to, bit, 8 * a, pos, if bit then -1 else 8)
  {
    if Nowhere(m, bit) {
      forall i | 0 <= i < |b| && 8 * a + from <= i <= 8 * a + to ensures b[i] != bit {
        assert m[i - 8 * a] != bit;
      }
    } else {
      assert m[pos] == bit;
      forall i | 0 <= i < |b| && 8 * a + from <= i <= 8 * a + pos - 1 ensures b[i] != bit {
        assert m[i - 8 * a] != bit;
      }
    }
  }

  lemma BytesAnswer(s: Bytes, a: nat, n: nat, bit: bool, pos: int)
    requires a + n <= |s| && Answer(BitsOf(s[a..a + n]), bit, pos)
    ensures Partial(BitsOf(s), 8 * a, 8 * (a + n) - 1, bit, 8 * a, pos, if bit then -1 else 8 * n)
  {
    hide BitsOf, Answer, Partial;
    SliceBits(s, a, a + n);
    SliceAnswer(BitsOf(s), 8 * a, 8 * (a + n), bit, pos);
  }

  lemma SliceAnswer(b: Words.Bits, i: nat, j: nat, bit: bool, pos: int)
    requires i <= j <= |b| && Answer(b[i..j], bit, pos)
    ensures Partial(b, i, j - 1, bit, i, pos, if bit then -1 else j - i)
  {
    var m := b[i..j];
    if Nowhere(m, bit) {
      forall k | 0 <= k < |b| && i <= k <= j - 1 ensures b[k] != bit {
        assert m[k - i] != bit;
      }
    } else {
      assert m[pos] == bit;
      forall k | 0 <= k < |b| && i <= k <= i + pos - 1 ensures b[k] != bit {
        assert m[k - i] != bit;
      }
    }
  }

  /** Nothing in a first part: the search goes on in the second. */
  lemma GoOn(b: Words.Bits, lo: int, mid: int, hi: int, bit: bool, base: int, pos: int, none: int)
    requires lo <= mid && Absent(b, lo, mid - 1, bit) && Partial(b, mid, hi, bit, base, pos, none)
    ensures Partial(b, lo, hi, bit, base, pos, none)
  {
    if !Absent(b, mid, hi, bit) {
      assert FirstIn(b, lo, hi, bit, base + pos);
      assert b[base + pos] == bit;
    }
  }

  /** Found in a first part: found. */
  lemma StopHere(b: Words.Bits, lo: int, mid: int, hi: int, bit: bool, base: int, pos: int, none: int, other: int)
    requires mid <= hi && Partial(b, lo, mid, bit, base, pos, none) && pos != none
    ensures Partial(b, lo, hi, bit, base, pos, other)
  {
    assert b[base + pos] == bit;
  }

  lemma NoMaskIsAll(m: Words.Bits, k: nat)
    requires k < 8
    ensures HighMask(k) == Zero(8) <==> k == 0
    ensures LowMask(k) == Zero(8) <==> k == 0
  {
    if k > 0 {
      assert HighMask(k)[7] && LowMask(k)[0];
    }
  }

  /** The search of the first byte, some of whose high bits are out of the range, and perhaps
      some of its low bits too. */
  method SearchFirst(s: Bytes, lo: nat, hi: nat, bit: bool, address: nat) returns (pos: int)
    requires lo <= hi < 8 * |s| && lo % 8 != 0
    ensures var a := lo / 8; var to := if hi / 8 == a then hi else 8 * a + 7;
      Partial(BitsOf(s), lo, to, bit, 8 * a, pos, if bit then -1 else 8)
  {
    hide BitsOf, Partial, Answer, MaskByte, OnlyBits, HighMask, LowMask;
    var a := lo / 8;
    var tmp := MaskByte(s[a], HighMask(lo % 8), bit);
    var to := 7;
    if LowMask(7 - hi % 8) != Zero(8) && hi / 8 == a {
      tmp := MaskByte(tmp, LowMask(7 - hi % 8), bit);
      to := hi % 8;
    }
    NoMaskIsAll(Zero(8), 7 - hi % 8);
    if hi / 8 == a {
      MaskBoth(s[a], lo % 8, hi % 8, bit);
    } else {
      MaskBoth(s[a], lo % 8, 7, bit);
    }
    pos := RedisBitpos([tmp], address, bit);
    ByteAnswer(s, a, tmp, lo % 8, to, bit, pos);
  }

  /** The search of the last byte, some of whose low bits are out of the range. */
  method SearchLast(s: Bytes, hi: nat, bit: bool, address: nat) returns (pos: int)
    requires hi < 8 * |s|
    ensures Partial(BitsOf(s), 8 * (hi / 8), hi, bit, 8 * (hi / 8), pos, if bit then -1 else 8)
  {
    hide BitsOf, Partial, Answer, MaskByte, OnlyBits, HighMask, LowMask;
    var tmp := MaskByte(s[hi / 8], LowMask(7 - hi % 8), bit);
    MaskBoth(s[hi / 8], 0, hi % 8, bit);
    pos := RedisBitpos([tmp], address, bit);
    ByteAnswer(s, hi / 8, tmp, 0, hi % 8, bit, pos);
  }

  method SearchMiddle(s: Bytes, a: nat, n: nat, bit: bool, address: nat) returns (pos: int)
    requires a + n <= |s|
    ensures Partial(BitsOf(s), 8 * a, 8 * (a + n) - 1, bit, 8 * a, pos, if bit then -1 else 8 * n)
  {
    hide BitsOf, Partial, Answer;
    pos := RedisBitpos(s[a..a + n], address + a, bit);
    BytesAnswer(s, a, n, bit, pos);
  }

  /** `pos` means a hit unless it is the number for "none". */
  lemma PartialNone(b: Words.Bits, lo: int, hi: int, x: bool, base: int, pos: int, n: int)
    requires Partial(b, lo, hi, x, base, pos, if x then -1 else n) && hi < base + n && lo >= base
    ensures Absent(b, lo, hi, x) <==> pos == if x then -1 else n
    ensures !Absent(b, lo, hi, x) ==> 0 <= pos < n
  {
    if !Absent(b, lo, hi, x) {
      assert FirstIn(b, lo, hi, x, base + pos);
    }
  }

  function NoneOf(bit: bool, bytes: int): int {
    if bit then -1 else 8 * bytes
  }

  /** The middle and the last byte: `start` and `bytes` move on when nothing was found. */
  method SearchRest(s: Bytes, start: nat, hi: nat, bit: bool, address: nat)
    returns (start': nat, bytes: nat, pos: int)
    requires 8 * start <= hi < 8 * |s|
    ensures start' + bytes == hi / 8 + 1 && bytes > 0
    ensures Partial(BitsOf(s), 8 * start, hi, bit, 8 * start', pos, NoneOf(bit, bytes))
    ensures hi % 8 == 7 ==> start' == start
  {
    hide BitsOf, Absent, FirstIn, Partial;
    ghost var b := BitsOf(s);
    var end := hi / 8;
    start', bytes := start, end - start + 1;
    var curbytes := bytes - if LowMask(7 - hi % 8) != Zero(8) then 1 else 0;
    NoMaskIsAll(Zero(8), 7 - hi % 8);
    if curbytes > 0 {
      pos := SearchMiddle(s, start, curbytes, bit, address);
      ghost var mid := 8 * (start + curbytes) - 1;
      PartialNone(b, 8 * start, mid, bit, 8 * start, pos, 8 * curbytes);
      if bytes == curbytes {
        return;
      }
      if pos != -1 && pos != 8 * curbytes {
        StopHere(b, 8 * start, mid, hi, bit, 8 * start, pos, NoneOf(bit, curbytes), NoneOf(bit, bytes));
        return;
      }
      start', bytes := start + curbytes, bytes - curbytes;
    }
    pos := SearchLast(s, hi, bit, address);
    if curbytes > 0 {
      GoOn(b, 8 * start, 8 * end, hi, bit, 8 * end, pos, NoneOf(bit, 1));
    }
  }

  /** The searching part of bitposCommand, from the masks to the reply. */
  method SearchRange(s: Bytes, lo: nat, hi: nat, bit: bool, endGiven: bool, address: nat) returns (r: int)
    requires lo <= hi < 8 * |s| && (endGiven || (hi == 8 * |s| - 1 && lo % 8 == 0))
    ensures if Absent(BitsOf(s), lo, hi, bit) then r == (if bit || endGiven then -1 else 8 * |s|)
            else FirstIn(BitsOf(s), lo, hi, bit, r)
  {
    hide BitsOf, Absent, FirstIn, Partial, HighMask;
    ghost var b := BitsOf(s);
    var start, end := lo / 8, hi / 8;
    var bytes := end - start + 1;
    var pos;
    if HighMask(lo % 8) != Zero(8) {
      NoMaskIsAll(Zero(8), lo % 8);
      pos := SearchFirst(s, lo, hi, bit, address);
      ghost var to := if end == start then hi else 8 * start + 7;
      PartialNone(b, lo, to, bit, 8 * start, pos, 8);
      if bytes == 1 {
      } else if pos != -1 && pos != 8 {
        StopHere(b, lo, to, hi, bit, 8 * start, pos, NoneOf(bit, 1), NoneOf(bit, bytes));
      } else {
        start, bytes, pos := SearchRest(s, start + 1, hi, bit, address);
        GoOn(b, lo, 8 * (lo / 8 + 1), hi, bit, 8 * start, pos, NoneOf(bit, bytes));
      }
    } else {
      NoMaskIsAll(Zero(8), lo % 8);
      start, bytes, pos := SearchRest(s, start, hi, bit, address);
    }
    Reply(b, lo, hi, bit, start, bytes, pos);
    if endGiven && !bit && pos == 8 * bytes {
      return -1;
    }
    r := if pos != -1 then pos + 8 * start else pos;
  }

  lemma Reply(b: Words.Bits, lo: nat, hi: nat, bit: bool, start: nat, bytes: nat, pos: int)
    requires Partial(b, lo, hi, bit, 8 * start, pos, NoneOf(bit, bytes)) && start + bytes == hi / 8 + 1
    ensures Absent(b, lo, hi, bit) ==> pos == NoneOf(bit, bytes)
    ensures !Absent(b, lo, hi, bit) ==> 0 <= pos < 8 * bytes && FirstIn(b, lo, hi, bit, pos + 8 * start)
  {
    if !Absent(b, lo, hi, bit) {
      assert FirstIn(b, lo, hi, bit, 8 * start + pos);
    }
  }

  /** bitposCommand. `start` and `end` are missing when they were not given; a missing key is an
      endless string of zeros. */
  method BitposCommand(key: Option<Bytes>, bit: bool, start: Option<int>, end: Option<int>, isbit: bool, address: nat)
    returns (r: int)
    requires (end.Some? ==> start.Some?) && (isbit ==> end.Some?)
    ensures key.None? ==> r == if bit then -1 else 0
    ensures key.Some? ==>
      var s := key.value;
      var range := RangeOf(if start.Some? then start.value else 0, if end.Some? then end.value else -1, |s|, isbit);
      if range.Empty? then r == -1
      else if Absent(BitsOf(s), range.lo, range.hi, bit) then r == (if bit || end.Some? then -1 else 8 * |s|)
      else FirstIn(BitsOf(s), range.lo, range.hi, bit, r)
  {
    hide BitsOf, Absent, FirstIn;
    if key.None? {
      return if bit then -1 else 0;
    }
    var s := key.value;
    var first, last := 0, |s| - 1;
    if start.Some? {
      first := start.value;
      if end.Some? {
        last := end.value;
      }
      var totlen := if isbit then 8 * |s| else |s|;
      if first < 0 { first := totlen + first; }
      if last < 0 { last := totlen + last; }
      if first < 0 { first := 0; }
      if last < 0 { last := 0; }
      if last >= totlen { last := totlen - 1; }
    }
    if first > last {
      return -1;
    }
    if isbit {
      r := SearchRange(s, first, last, bit, end.Some?, address);
    } else {
      r := SearchRange(s, 8 * first, 8 * last + 7, bit, end.Some?, address);
    }
  }
}
