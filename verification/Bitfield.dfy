/** Integers of any width at any bit position of a string: reading, writing, and what happens
    when a value does not fit. */
module Bitfield {
  import opened Options
  import opened Words
  import opened BitString

  const TWO64: int := 0x1_0000_0000_0000_0000
  const TWO63: int := 0x8000_0000_0000_0000

  // ----- Two's complement ---------------------------------------------------------------------

  /** Conversion to uint64_t (C99, section 6.3.1.3). */
  function ToU64(x: int): (u: nat)
    ensures u < TWO64
  {
    x % TWO64
  }

  /** The int64_t with the same bits (C99, section 7.18.1.1). */
  function ToI64(u: nat): (x: int)
    requires u < TWO64
    ensures -TWO63 <= x < TWO63
  {
    if u < TWO63 then u else u - TWO64
  }

  predicate IsI64(x: int) {
    -TWO63 <= x < TWO63
  }

  /** The bounds of a signed integer of width `bits`. */
  function Max(bits: nat): int
    requires bits > 0
  {
    Pow2(bits - 1) - 1
  }

  function Min(bits: nat): int
    requires bits > 0
  {
    -Max(bits) - 1
  }

  /** The signed number of width `bits` with the bits of `u`. */
  function SignExtend(u: nat, bits: nat): int
    requires bits > 0
  {
    if u <= Max(bits) then u else u - Pow2(bits)
  }

  // ----- Writing and reading --------------------------------------------------------------------

  /** `x << k` in a word of width `n`, for a bit `x`. */
  function BitAtPosition(x: bool, k: nat, n: nat): (c: Bits)
    ensures |c| == n && forall i :: 0 <= i < n ==> c[i] == (x && i == k)
  {
    seq(n, i => x && i == k)
  }

  function Put(b: Bits, offset: nat, field: Bits): (c: Bits)
    requires offset + |field| <= |b|
    ensures |c| == |b|
  {
    b[..offset] + field + b[offset + |field|..]
  }

  lemma FieldBit(v: nat, n: nat, j: nat)
    requires j < n <= 64 && v < TWO64
    ensures And(Digits(v, 64), BitAtPosition(true, n - 1 - j, 64)) != Zero(64) <==> Field(v, n)[j]
  {
    var k := n - 1 - j;
    var a := And(Digits(v, 64), BitAtPosition(true, k, 64));
    DigitsAgree(v, n, 64, k);
    assert a[k] == Digits(v, 64)[k];
    if !Digits(v, 64)[k] {
      assert a == Zero(64);
    }
  }

  lemma {:induction false} DigitsAgree(v: nat, m: nat, n: nat, k: nat)
    requires k < m && k < n
    ensures Digits(v, m)[k] == Digits(v, n)[k]
  {
    if k > 0 {
      DigitsAgree(v / 2, m - 1, n - 1, k - 1);
    }
  }

  /** The bits of the string after one bit of one byte has changed. */
  lemma OneBitChanged(s: Bytes, t: Bytes, i: nat, x: bool)
    requires i < 8 * |s| && |t| == |s|
    requires forall k :: 0 <= k < |s| && k != i / 8 ==> t[k] == s[k]
    requires ByteBits(t[i / 8]) == ByteBits(s[i / 8])[7 - i % 8 := x]
    ensures BitsOf(t) == BitsOf(s)[i := x]
  {
    forall j | 0 <= j < 8 * |s| ensures BitsOf(t)[j] == BitsOf(s)[i := x][j] {
      if j / 8 == i / 8 && j != i {
        assert 7 - j % 8 != 7 - i % 8;
      }
    }
  }

  /** The body of the loop of setUnsignedBitfield: read a byte, clear a bit, set it, write back. */
  method WriteBit(p: array<Byte>, at: nat, bitval: bool)
    requires at < 8 * p.Length
    modifies p
    ensures BitsOf(p[..]) == old(BitsOf(p[..]))[at := bitval]
  {
    hide ByteBits, ByteOf, BitsOf;
    ghost var was := p[..];
    var byte := at / 8;
    var bit := 7 - at % 8;
    var byteval := ByteBits(p[byte]);
    byteval := And(byteval, Not(BitAtPosition(true, bit, 8)));
    byteval := Or(byteval, BitAtPosition(bitval, bit, 8));
    assert byteval == ByteBits(p[byte])[bit := bitval];
    p[byte] := ByteOf(byteval);
    OneBitChanged(was, p[..], at, bitval);
  }

  lemma PutStep(b: Bits, offset: nat, field: Bits, j: nat)
    requires j < |field| && offset + |field| <= |b|
    ensures (b[..offset] + field[..j] + b[offset + j..])[offset + j := field[j]]
         == b[..offset] + field[..j + 1] + b[offset + j + 1..]
  {
  }

  /** setUnsignedBitfield: the field holds the low bits of the value, and no other bit of the
      string changes. */
  method SetUnsigned(p: array<Byte>, offset: nat, bits: nat, value: nat)
    requires bits <= 64 && value < TWO64 && offset + bits <= 8 * p.Length
    modifies p
    ensures BitsOf(p[..]) == Put(old(BitsOf(p[..])), offset, Field(value, bits))
  {
    hide Digits, Field, BitsOf, Zero;
    ghost var before, field := BitsOf(p[..]), Field(value, bits);
    var at := offset;
    assert before[..offset] + field[..0] + before[offset + 0..] == before;
    for j := 0 to bits
      invariant at == offset + j
      invariant BitsOf(p[..]) == before[..offset] + field[..j] + before[offset + j..]
    {
      var bitval := And(Digits(value, 64), BitAtPosition(true, bits - 1 - j, 64)) != Zero(64);
      FieldBit(value, bits, j);
      PutStep(before, offset, field, j);
      WriteBit(p, at, bitval);
      at := at + 1;
    }
    assert field[..bits] == field;
  }

  /** The body of the loop of getUnsignedBitfield. */
  method ReadBit(p: Bytes, at: nat) returns (bitval: bool)
    requires at < 8 * |p|
    ensures bitval == BitsOf(p)[at]
  {
    hide ByteBits;
    var byte := at / 8;
    var bit := 7 - at % 8;
    bitval := Down(ByteBits(p[byte]), bit)[0];
  }

  /** getUnsignedBitfield. */
  method GetUnsigned(p: Bytes, offset: nat, bits: nat) returns (value: nat)
    requires bits <= 64 && offset + bits <= 8 * |p|
    ensures value == Number(BitsOf(p)[offset..offset + bits]) && value < Pow2(bits)
  {
    hide BitsOf, Number, Pow2;
    value := 0;
    NumberEmpty();
    ghost var b := BitsOf(p);
    var at := offset;
    assert b[offset..offset] == [];
    for j := 0 to bits
      invariant at == offset + j
      invariant value == Number(b[offset..offset + j])
    {
      var bitval := ReadBit(p, at);
      NumberSnoc(b[offset..offset + j], bitval);
      assert b[offset..offset + j + 1] == b[offset..offset + j] + [bitval];
      value := 2 * value + if bitval then 1 else 0;
      at := at + 1;
    }
    NumberBound(b[offset..offset + bits]);
  }

  lemma NumberEmpty()
    ensures Number([]) == 0
  {
  }

  // ----- Signed fields ----------------------------------------------------------------------------

  lemma {:induction false} TestBit(v: nat, n: nat, k: nat)
    requires k < n
    ensures Digits(v, n)[k] <==> Low(v, k + 1) >= Pow2(k)
  {
    HalfMod(v, k + 1);
    if k > 0 {
      TestBit(v / 2, n - 1, k - 1);
    }
  }

  lemma Powers()
    ensures Pow2(64) == TWO64 && Pow2(63) == TWO63
  {
    hide Pow2;
    PowerOfEight(8);
    Pow2Add(8, 8);
    Pow2Add(16, 16);
    Pow2Add(32, 32);
    PowerNext(63);
  }

  lemma PowerOfEight(n: nat)
    requires n == 8
    ensures Pow2(n) == 256
  {
    assert Pow2(n - 6) == 4;
    assert Pow2(n - 4) == 16;
    assert Pow2(n - 2) == 64;
  }

  lemma PowerNext(n: nat)
    ensures Pow2(n + 1) == 2 * Pow2(n)
  {
  }

  /** The width of a field, its half, and the 64 bits of the machine. */
  lemma Half(bits: nat)
    requires 1 <= bits <= 64
    ensures Pow2(bits) == 2 * Pow2(bits - 1) && Pow2(bits) <= TWO64
    ensures Max(bits) == Pow2(bits - 1) - 1
    ensures bits < 64 ==> Pow2(bits) <= TWO63
    ensures bits == 64 ==> Pow2(bits) == TWO64
  {
    Powers();
    Pow2Grows(bits, 64);
    if bits < 64 {
      Pow2Grows(bits, 63);
    }
  }

  lemma LowOfSmall(v: nat, n: nat)
    requires v < Pow2(n)
    ensures Low(v, n) == v
  {
    hide Low, Pow2;
    assert v == v + Pow2(n) * 0;
    assert Congruent(v, v, Pow2(n));
    LowIs(v, n, v);
  }

  /** setSignedBitfield. */
  method SetSigned(p: array<Byte>, offset: nat, bits: nat, value: int)
    requires bits <= 64 && IsI64(value) && offset + bits <= 8 * p.Length
    modifies p
    ensures BitsOf(p[..]) == Put(old(BitsOf(p[..])), offset, Field(ToU64(value), bits))
  {
    SetUnsigned(p, offset, bits, ToU64(value));
  }

  /** getSignedBitfield: the top bit of the field is copied into all higher bits. */
  method GetSigned(p: Bytes, offset: nat, bits: nat) returns (value: int)
    requires 1 <= bits <= 64 && offset + bits <= 8 * |p|
    ensures value == SignExtend(Number(BitsOf(p)[offset..offset + bits]), bits)
  {
    hide Digits, BitsOf, Number, Pow2, Low, Max;
    Half(bits);
    var u := GetUnsigned(p, offset, bits);
    value := ToI64(u);
    TestBit(u, 64, bits - 1);
    LowOfSmall(u, bits);
    if bits < 64 && Digits(u, 64)[bits - 1] {
      // the bits of u and those of (-1) << bits are disjoint
      value := ToI64(u + (TWO64 - Pow2(bits)));
    }
  }

  /** What is written is read back modulo a power of two, and every other bit stays. */
  lemma GetAfterSet(b: Bits, offset: nat, v: nat, n: nat)
    requires offset + n <= |b|
    ensures Number(Put(b, offset, Field(v, n))[offset..offset + n]) == Low(v, n)
    ensures forall i :: 0 <= i < |b| && !(offset <= i < offset + n) ==> Put(b, offset, Field(v, n))[i] == b[i]
  {
    assert Put(b, offset, Field(v, n))[offset..offset + n] == Field(v, n);
    NumberOfField(v, n);
  }

  /** A signed value that fits comes back with its sign. */
  lemma SignedRoundTrip(b: Bits, offset: nat, v: int, n: nat)
    requires 1 <= n <= 64 && offset + n <= |b| && Min(n) <= v <= Max(n)
    ensures SignExtend(Number(Put(b, offset, Field(ToU64(v), n))[offset..offset + n]), n) == v
  {
    hide Pow2, Low, SignExtend, Number, Put, Field;
    GetAfterSet(b, offset, ToU64(v), n);
    LowBits(v, n);
    SignExtendLow(v, n);
  }

  /** Truncating to 64 bits first does not change the low bits. */
  lemma LowBits(v: int, n: nat)
    requires n <= 64
    ensures Low(ToU64(v), n) == Low(v, n)
  {
    hide Pow2, Low;
    var m := Pow2(n);
    Powers();
    Pow2Add(n, 64 - n);
    ModCongruent(v, TWO64);
    Multiple(ToU64(v), v, TWO64, m, Pow2(64 - n));
    LowClass(v, n);
    CongruentSym(ToU64(v), v, m);
    CongruentTrans(Low(v, n), v, ToU64(v), m);
    LowIs(ToU64(v), n, Low(v, n));
  }

  lemma LowClass(v: int, n: nat)
    ensures Congruent(Low(v, n), v, Pow2(n))
  {
    ModCongruent(v, Pow2(n));
  }

  lemma Multiple(x: int, y: int, big: int, m: int, q: int)
    requires Congruent(x, y, big) && big == m * q
    ensures Congruent(x, y, m)
  {
    var k :| x == y + big * k;
    assert big * k == m * (q * k);
  }

  /** Sign extension picks the number of the class that fits. */
  lemma SignExtendIs(v: int, n: nat)
    requires 1 <= n <= 64
    ensures var r := SignExtend(Low(v, n), n); Min(n) <= r <= Max(n) && Congruent(r, v, Pow2(n))
  {
    hide Low, Pow2;
    Half(n);
    LowClass(v, n);
    var m: int, low: int := Pow2(n), Low(v, n);
    var r := SignExtend(low, n);
    ShiftClass(low, v, m);
  }

  lemma ShiftClass(x: int, y: int, m: int)
    requires Congruent(x, y, m)
    ensures Congruent(x - m, y, m)
  {
    var k :| x == y + m * k;
    assert x - m == y + m * (k - 1);
  }

  lemma SignExtendLow(v: int, n: nat)
    requires 1 <= n <= 64 && Min(n) <= v <= Max(n)
    ensures SignExtend(Low(v, n), n) == v
  {
    hide Low, Pow2, SignExtend;
    Half(n);
    SignExtendIs(v, n);
    CongruentUnique(SignExtend(Low(v, n), n), v, Pow2(n), Min(n));
  }

  // ----- Overflow -----------------------------------------------------------------------------------

  datatype Overflow = Wrap | Sat | Fail

  /** The return code, and what *limit was set to. */
  datatype Check = Check(code: int, limit: Option<int>)

  /** checkUnsignedBitfieldOverflow. */
  function CheckUnsigned(value: nat, incr: int, bits: nat, ow: Overflow): Check
    requires value < TWO64 && IsI64(incr) && 1 <= bits <= 63
  {
    var max := Pow2(bits) - 1;
    var maxincr := ToI64(ToU64(max - value));
    var minincr := ToI64(ToU64(0 - value));
    var wrapped := Low(ToU64(value + incr), bits);   // & ~((uint64_t)-1 << bits)
    if value > max || (incr > 0 && incr > maxincr) then
      match ow
      case Wrap => Check(1, Some(wrapped))
      case Sat => Check(1, Some(max))
      case Fail => Check(1, None)
    else if incr < 0 && incr < minincr then
      match ow
      case Wrap => Check(1, Some(wrapped))
      case Sat => Check(-1, Some(0))
      case Fail => Check(-1, None)
    else Check(0, None)
  }

  /** checkSignedBitfieldOverflow. `junk` is the value of minincr where its subtraction overflows. */
  function CheckSigned(value: int, incr: int, bits: nat, ow: Overflow, junk: int): Check
    requires IsI64(value) && IsI64(incr) && 1 <= bits <= 64
  {
    var max := Max(bits);
    var min := Min(bits);
    var maxincr := ToI64(ToU64(max - value));
    var minincr := if IsI64(min - value) then min - value else junk;
    var wrapped := WrapSigned(value, incr, bits);
    if value > max || (bits != 64 && incr > maxincr) || (value >= 0 && incr > 0 && incr > maxincr) then
      match ow
      case Wrap => Check(1, Some(wrapped))
      case Sat => Check(1, Some(max))
      case Fail => Check(1, None)
    else if value < min || (bits != 64 && incr < minincr) || (value < 0 && incr < 0 && incr < minincr) then
      match ow
      case Wrap => Check(1, Some(wrapped))
      case Sat => Check(-1, Some(min))
      case Fail => Check(-1, None)
    else Check(0, None)
  }

  /** handle_wrap: add without sign, then copy the sign bit of the field upwards or clear there. */
  function WrapSigned(value: int, incr: int, bits: nat): int
    requires 1 <= bits <= 64
  {
    var c := ToU64(ToU64(value) + ToU64(incr));
    if bits == 64 then ToI64(c)
    else
      var low := Low(c, bits);
      Half(bits);
      if Digits(c, 64)[bits - 1] then ToI64(low + (TWO64 - Pow2(bits))) else ToI64(low)
  }

  /** Unsigned: the check fires exactly when the sum leaves the range; wrapping gives the number
      of the range that is congruent to it, saturating the bound on that side. */
  lemma UnsignedOverflow(value: nat, incr: int, bits: nat, ow: Overflow)
    requires 1 <= bits <= 63 && value < Pow2(bits) && IsI64(incr) && value < TWO64
    ensures var c := CheckUnsigned(value, incr, bits, ow); var sum := value + incr;
      && (c.code == 0 <==> 0 <= sum < Pow2(bits))
      && (c.code != 0 ==> c.code == if ow == Wrap || sum > 0 then 1 else -1)
      && (c.code != 0 ==>
            match ow
            case Wrap => c.limit == Some(Low(sum, bits))
            case Sat => c.limit == Some(if sum < 0 then 0 else Pow2(bits) - 1)
            case Fail => c.limit == None)
  {
    hide Pow2, Low, ToI64, ToU64;
    Half(bits);
    LowBits(value + incr, bits);
    SameI64(Pow2(bits) - 1 - value);
    SameI64(0 - value);
  }

  /** A number that is an int64_t survives the conversions. */
  lemma SameI64(x: int)
    requires IsI64(x)
    ensures ToI64(ToU64(x)) == x
  {
  }

  lemma U64Fits(v: int, bits: nat)
    requires 1 <= bits <= 63 && IsI64(v)
    ensures ToU64(v) < Pow2(bits) <==> 0 <= v < Pow2(bits)
  {
    hide Pow2;
    Half(bits);
  }

  lemma SameU64(v: int)
    ensures ToU64(ToU64(v)) == ToU64(v)
  {
  }

  /** Setting an unsigned field: every value beyond the range, also one that was negative before
      its conversion, counts as too large. */
  lemma UnsignedSet(v: int, bits: nat, ow: Overflow)
    requires 1 <= bits <= 63 && IsI64(v)
    ensures var c := CheckUnsigned(ToU64(v), 0, bits, ow);
      && (c.code == 0 <==> 0 <= v < Pow2(bits))
      && (c.code != 0 && ow == Wrap ==> c.limit == Some(Low(v, bits)))
      && (c.code != 0 && ow == Sat ==> c.limit == Some(Pow2(bits) - 1))
  {
    hide Pow2, Low, ToI64, ToU64;
    U64Fits(v, bits);
    LowBits(v, bits);
    assert ToU64(v) + 0 == ToU64(v);
    SameU64(v);
  }

  lemma WrapSignedIs(value: int, incr: int, bits: nat)
    requires 1 <= bits <= 64
    ensures WrapSigned(value, incr, bits) == SignExtend(Low(value + incr, bits), bits)
  {
    hide Pow2, Low, Digits;
    Half(bits);
    var c := ToU64(ToU64(value) + ToU64(incr));
    SumMod(value, incr);
    LowBits(value + incr, bits);
    TestBit(c, 64, bits - 1);
    if bits == 64 {
      LowOfSmall(c, 64);
    }
  }

  lemma SumMod(x: int, y: int)
    ensures ToU64(ToU64(x) + ToU64(y)) == ToU64(x + y)
  {
  }

  /** Signed, from a value that fits: the check fires exactly when the sum leaves the range, also
      at width 64; wrapping gives the one number of the range congruent to it, saturating the
      nearer bound. */
  lemma SignedOverflow(value: int, incr: int, bits: nat, ow: Overflow, junk: int)
    requires 1 <= bits <= 64 && Min(bits) <= value <= Max(bits) && IsI64(value) && IsI64(incr)
    ensures var c := CheckSigned(value, incr, bits, ow, junk); var sum := value + incr;
      && (c.code == 0 <==> Min(bits) <= sum <= Max(bits))
      && (c.code != 0 ==> c.code == if ow == Wrap || sum > 0 then 1 else -1)
      && (c.code != 0 ==>
            match ow
            case Wrap => c.limit == Some(SignExtend(Low(sum, bits), bits))
            case Sat => c.limit == Some(if sum < 0 then Min(bits) else Max(bits))
            case Fail => c.limit == None)
  {
    hide Pow2, WrapSigned, SignExtend, Low;
    Half(bits);
    WrapSignedIs(value, incr, bits);
  }

  /** Setting a signed field to any 64-bit value. The check fires exactly when the value does not
      fit, and wrapping is right; but saturating picks the upper bound for some values below the
      range: exactly those that are 2^63 or more below the upper bound. */
  lemma SignedSet(v: int, bits: nat, ow: Overflow, junk: int)
    requires 1 <= bits <= 64 && IsI64(v)
    ensures var c := CheckSigned(v, 0, bits, ow, junk);
      && (c.code == 0 <==> Min(bits) <= v <= Max(bits))
      && (c.code != 0 && ow == Wrap ==> c.limit == Some(SignExtend(Low(v, bits), bits)))
      && (v > Max(bits) && ow == Sat ==> c.limit == Some(Max(bits)))
      && (v < Min(bits) && ow == Sat ==>
            c.limit == Some(if Max(bits) - v >= TWO63 then Max(bits) else Min(bits)))
  {
    hide Pow2, WrapSigned, SignExtend, Low;
    Half(bits);
    WrapSignedIs(v, 0, bits);
  }

  // ----- BITFIELD -------------------------------------------------------------------------------------

  datatype Opcode = SetOp | IncrBy

  /** What is stored, if anything, and the reply. */
  datatype Effect = Effect(stored: Option<int>, reply: Option<int>)

  /** A signed SET or INCRBY on a field that holds `oldval`. */
  function SignedEffect(oldval: int, op: Opcode, i64: int, bits: nat, ow: Overflow, junk: int): Effect
    requires IsI64(oldval) && IsI64(i64) && 1 <= bits <= 64
  {
    var c := if op == IncrBy then CheckSigned(oldval, i64, bits, ow, junk) else CheckSigned(i64, 0, bits, ow, junk);
    var plain := if op == IncrBy then oldval + i64 else i64;
    if c.code != 0 && ow == Fail then Effect(None, None)
    else
      var newval := if c.code != 0 && c.limit.Some? then c.limit.value else plain;
      Effect(Some(newval), Some(if op == IncrBy then newval else oldval))
  }

  function UnsignedEffect(oldval: nat, op: Opcode, i64: int, bits: nat, ow: Overflow): Effect
    requires oldval < TWO64 && IsI64(i64) && 1 <= bits <= 63
  {
    var c := if op == IncrBy then CheckUnsigned(oldval, i64, bits, ow) else CheckUnsigned(ToU64(i64), 0, bits, ow);
    var plain := if op == IncrBy then ToU64(oldval + i64) else ToU64(i64);
    if c.code != 0 && ow == Fail then Effect(None, None)
    else
      var newval := if c.code != 0 && c.limit.Some? then c.limit.value else plain;
      Effect(Some(newval), Some(if op == IncrBy then newval else oldval))
  }

  /** INCRBY stores and replies the sum if it fits; otherwise the wrapped or the saturated value,
      or nothing at all. */
  lemma SignedIncrBy(oldval: int, incr: int, bits: nat, ow: Overflow, junk: int)
    requires 1 <= bits <= 64 && Min(bits) <= oldval <= Max(bits) && IsI64(oldval) && IsI64(incr)
    ensures var e := SignedEffect(oldval, IncrBy, incr, bits, ow, junk); var sum := oldval + incr;
      && e.stored == e.reply
      && e.stored ==
          (if Min(bits) <= sum <= Max(bits) then Some(sum)
           else match ow
             case Wrap => Some(SignExtend(Low(sum, bits), bits))
             case Sat => Some(if sum < 0 then Min(bits) else Max(bits))
             case Fail => None)
      && (e.stored.Some? ==> Min(bits) <= e.stored.value <= Max(bits))
  {
    hide Pow2, SignExtend, Low, CheckSigned;
    Half(bits);
    SignedOverflow(oldval, incr, bits, ow, junk);
    SignExtendIs(oldval + incr, bits);
  }

  lemma UnsignedIncrBy(oldval: nat, incr: int, bits: nat, ow: Overflow)
    requires 1 <= bits <= 63 && oldval < Pow2(bits) && oldval < TWO64 && IsI64(incr)
    ensures var e := UnsignedEffect(oldval, IncrBy, incr, bits, ow); var sum := oldval + incr;
      && e.stored == e.reply
      && e.stored ==
          (if 0 <= sum < Pow2(bits) then Some(sum)
           else match ow
             case Wrap => Some(Low(sum, bits))
             case Sat => Some(if sum < 0 then 0 else Pow2(bits) - 1)
             case Fail => None)
      && (e.stored.Some? ==> 0 <= e.stored.value < Pow2(bits))
  {
    hide Pow2, Low, CheckUnsigned;
    Half(bits);
    UnsignedOverflow(oldval, incr, bits, ow);
  }

  /** SET of any 64-bit value on a signed field replies the old value. A value that fits is
      stored as it is; for others it is the wrapped value, a bound (see `SignedSet`), or nothing
      at all. */
  lemma SignedSetStores(oldval: int, v: int, bits: nat, ow: Overflow, junk: int)
    requires 1 <= bits <= 64 && IsI64(oldval) && IsI64(v)
    ensures var e := SignedEffect(oldval, SetOp, v, bits, ow, junk); var fits := Min(bits) <= v <= Max(bits);
      && e.reply == (if !fits && ow == Fail then None else Some(oldval))
      && e.stored ==
          (if fits then Some(v)
           else match ow
             case Wrap => Some(SignExtend(Low(v, bits), bits))
             case Sat => Some(if v > Max(bits) || Max(bits) - v >= TWO63 then Max(bits) else Min(bits))
             case Fail => None)
  {
    hide Pow2, SignExtend, Low, CheckSigned;
    SignedSet(v, bits, ow, junk);
  }

  lemma UnsignedSetStores(oldval: nat, v: int, bits: nat, ow: Overflow)
    requires 1 <= bits <= 63 && oldval < TWO64 && IsI64(v)
    ensures var e := UnsignedEffect(oldval, SetOp, v, bits, ow); var fits := 0 <= v < Pow2(bits);
      && e.reply == (if !fits && ow == Fail then None else Some(oldval))
      && e.stored ==
          (if fits then Some(v)
           else match ow
             case Wrap => Some(Low(v, bits))
             case Sat => Some(Pow2(bits) - 1)
             case Fail => None)
  {
    hide Pow2, Low, CheckUnsigned;
    UnsignedSet(v, bits, ow);
    LowOfU64(v, bits);
  }

  lemma EffectFits(oldval: int, op: Opcode, i64: int, bits: nat, ow: Overflow, junk: int)
    requires 1 <= bits <= 64 && Min(bits) <= oldval <= Max(bits) && IsI64(oldval) && IsI64(i64)
    ensures var e := SignedEffect(oldval, op, i64, bits, ow, junk);
      e.stored.Some? ==> Min(bits) <= e.stored.value <= Max(bits) && IsI64(e.stored.value)
  {
    hide Pow2, SignExtend, Low, CheckSigned;
    Half(bits);
    if op == IncrBy {
      SignedIncrBy(oldval, i64, bits, ow, junk);
    } else {
      SignedSet(i64, bits, ow, junk);
      SignExtendIs(i64, bits);
    }
  }

  lemma UnsignedEffectFits(oldval: nat, op: Opcode, i64: int, bits: nat, ow: Overflow)
    requires 1 <= bits <= 63 && oldval < Pow2(bits) && oldval < TWO64 && IsI64(i64)
    ensures var e := UnsignedEffect(oldval, op, i64, bits, ow);
      e.stored.Some? ==> 0 <= e.stored.value < Pow2(bits) && ToU64(e.stored.value) == e.stored.value < TWO64
  {
    hide Pow2, Low, CheckUnsigned;
    Half(bits);
    if op == IncrBy {
      UnsignedIncrBy(oldval, i64, bits, ow);
    } else {
      UnsignedSet(i64, bits, ow);
      LowOfU64(i64, bits);
    }
  }

  lemma LowOfU64(v: int, bits: nat)
    requires 1 <= bits <= 63 && IsI64(v)
    ensures 0 <= v < Pow2(bits) ==> ToU64(v) == v
  {
    hide Pow2;
    Half(bits);
  }

  /** The value a signed field holds fits its width. */
  lemma FieldFits(b: Bits, bits: nat)
    requires |b| == bits && 1 <= bits <= 64
    ensures Min(bits) <= SignExtend(Number(b), bits) <= Max(bits) && IsI64(SignExtend(Number(b), bits))
  {
    hide Pow2, Number;
    Half(bits);
    NumberBound(b);
  }

  /** The field after an operation: the stored value, or the old one if nothing was stored. */
  ghost function After(b: Bits, offset: nat, bits: nat, e: Effect): Bits
    requires offset + bits <= |b|
  {
    if e.stored.None? then b else Put(b, offset, Field(ToU64(e.stored.value), bits))
  }

  /** What is stored in a signed field is read back, and no other bit changes. */
  lemma SignedAfter(b: Bits, offset: nat, bits: nat, e: Effect)
    requires 1 <= bits <= 64 && offset + bits <= |b|
    requires e.stored.Some? ==> Min(bits) <= e.stored.value <= Max(bits)
    ensures var z := After(b, offset, bits, e);
      && |z| == |b|
      && (e.stored.None? ==> z == b)
      && (e.stored.Some? ==> SignExtend(Number(z[offset..offset + bits]), bits) == e.stored.value)
      && forall i :: 0 <= i < |b| && !(offset <= i < offset + bits) ==> z[i] == b[i]
  {
    hide SignExtend, Number, Pow2, Field;
    if e.stored.Some? {
      SignedRoundTrip(b, offset, e.stored.value, bits);
      GetAfterSet(b, offset, ToU64(e.stored.value), bits);
    }
  }

  lemma UnsignedAfter(b: Bits, offset: nat, bits: nat, e: Effect)
    requires 1 <= bits <= 63 && offset + bits <= |b|
    requires e.stored.Some? ==> 0 <= e.stored.value < Pow2(bits)
    ensures var z := After(b, offset, bits, e);
      && |z| == |b|
      && (e.stored.None? ==> z == b)
      && (e.stored.Some? ==> Number(z[offset..offset + bits]) == e.stored.value)
      && forall i :: 0 <= i < |b| && !(offset <= i < offset + bits) ==> z[i] == b[i]
  {
    hide Number, Pow2, Field;
    if e.stored.Some? {
      Half(bits);
      GetAfterSet(b, offset, ToU64(e.stored.value), bits);
      LowOfSmall(e.stored.value, bits);
    }
  }

  /** SET or INCRBY on a signed field: read, check, and write back. */
  method ApplySigned(p: array<Byte>, op: Opcode, offset: nat, bits: nat, i64: int, ow: Overflow, junk: int)
    returns (reply: Option<int>)
    requires 1 <= bits <= 64 && offset + bits <= 8 * p.Length && IsI64(i64)
    modifies p
    ensures var oldval := SignExtend(Number(old(BitsOf(p[..]))[offset..offset + bits]), bits);
      && IsI64(oldval)
      && reply == SignedEffect(oldval, op, i64, bits, ow, junk).reply
      && BitsOf(p[..]) == After(old(BitsOf(p[..])), offset, bits, SignedEffect(oldval, op, i64, bits, ow, junk))
  {
    hide BitsOf, Number, Pow2, SignExtend, CheckSigned, Put, Field;
    var oldval := GetSigned(p[..], offset, bits);
    FieldFits(BitsOf(p[..])[offset..offset + bits], bits);
    EffectFits(oldval, op, i64, bits, ow, junk);
    var newval, retval: int;
    var c: Check;
    if op == IncrBy {
      c := CheckSigned(oldval, i64, bits, ow, junk);
      newval := if c.code != 0 && c.limit.Some? then c.limit.value else oldval + i64;
      retval := newval;
    } else {
      newval := i64;
      c := CheckSigned(newval, 0, bits, ow, junk);
      if c.code != 0 && c.limit.Some? {
        newval := c.limit.value;
      }
      retval := oldval;
    }
    if !(c.code != 0 && ow == Fail) {
      reply := Some(retval);
      SetSigned(p, offset, bits, newval);
    } else {
      reply := None;
    }
  }

  /** SET or INCRBY on an unsigned field. */
  method ApplyUnsigned(p: array<Byte>, op: Opcode, offset: nat, bits: nat, i64: int, ow: Overflow)
    returns (reply: Option<int>)
    requires 1 <= bits <= 63 && offset + bits <= 8 * p.Length && IsI64(i64)
    modifies p
    ensures var oldval := Number(old(BitsOf(p[..]))[offset..offset + bits]);
      && oldval < TWO64
      && reply == UnsignedEffect(oldval, op, i64, bits, ow).reply
      && BitsOf(p[..]) == After(old(BitsOf(p[..])), offset, bits, UnsignedEffect(oldval, op, i64, bits, ow))
  {
    hide BitsOf, Number, Pow2, CheckUnsigned, Put, Field, ToU64;
    Half(bits);
    var oldval := GetUnsigned(p[..], offset, bits);
    UnsignedEffectFits(oldval, op, i64, bits, ow);
    var newval, retval: int;
    var c: Check;
    if op == IncrBy {
      newval := ToU64(oldval + i64);
      c := CheckUnsigned(oldval, i64, bits, ow);
      if c.code != 0 && c.limit.Some? {
        newval := c.limit.value;
      }
      retval := newval;
    } else {
      newval := ToU64(i64);
      c := CheckUnsigned(newval, 0, bits, ow);
      if c.code != 0 && c.limit.Some? {
        newval := c.limit.value;
      }
      retval := oldval;
    }
    if !(c.code != 0 && ow == Fail) {
      reply := Some(retval);
      SetUnsigned(p, offset, bits, newval);
    } else {
      reply := None;
    }
  }

  // ----- GET beyond the end of the string -----------------------------------------------------------

  const WINDOW: nat := 9

  /** The bytes of the string from `byte` on, with zeros where it has ended. */
  function Window(src: Bytes, byte: nat): (buf: Bytes)
    ensures |buf| == WINDOW && forall i :: 0 <= i < WINDOW ==> buf[i] == if byte + i < |src| then src[byte + i] else 0
  {
    seq(WINDOW, i requires 0 <= i < WINDOW => if byte + i < |src| then src[byte + i] else 0)
  }

  lemma WindowBit(src: Bytes, byte: nat, j: nat)
    requires j < 8 * WINDOW
    ensures BitsOf(Window(src, byte))[j] == BitAt(src, 8 * byte + j)
  {
    hide ByteBits;
    assert (8 * byte + j) / 8 == byte + j / 8 && (8 * byte + j) % 8 == j % 8;
    ZeroByte(7 - j % 8);
  }

  /** The nine bytes hold every bit a field of up to 64 bits can need. */
  lemma WindowBits(src: Bytes, offset: nat, bits: nat)
    requires bits <= 64
    ensures offset % 8 + bits <= 8 * WINDOW
    ensures BitsOf(Window(src, offset / 8))[offset % 8..offset % 8 + bits] == Extended(src, offset, bits)
  {
    hide BitsOf, BitAt, Window;
    var byte, shift := offset / 8, offset % 8;
    var part, want := BitsOf(Window(src, byte))[shift..shift + bits], Extended(src, offset, bits);
    forall i | 0 <= i < bits ensures part[i] == want[i] {
      WindowBit(src, byte, shift + i);
      assert 8 * byte + (shift + i) == offset + i;
    }
  }

  /** BITFIELD GET copies at most nine bytes into a zeroed buffer and reads there; the result is
      what the string extended with zeros without end holds. */
  method Get(src: Bytes, sign: bool, offset: nat, bits: nat) returns (value: int)
    requires 1 <= bits <= 64
    ensures var field := Extended(src, offset, bits);
      value == if sign then SignExtend(Number(field), bits) else Number(field)
  {
    hide BitsOf, Number, SignExtend;
    var buf := new Byte[WINDOW](i => 0);
    var byte := offset / 8;
    var i := 0;
    while i < WINDOW && byte + i < |src|
      invariant 0 <= i <= WINDOW
      invariant forall k :: 0 <= k < i ==> byte + k < |src| && buf[k] == src[byte + k]
      invariant forall k :: i <= k < WINDOW ==> buf[k] == 0
    {
      buf[i] := src[byte + i];
      i := i + 1;
    }
    assert buf[..] == Window(src, byte);
    WindowBits(src, offset, bits);
    if sign {
      value := GetSigned(buf[..], offset - byte * 8, bits);
    } else {
      value := GetUnsigned(buf[..], offset - byte * 8, bits);
    }
  }
}
