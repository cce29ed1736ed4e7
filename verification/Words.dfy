/** Machine words as vectors of bits, and bytes as numbers below 256.

    A word of width n is a sequence of n booleans. Which end is the most significant is
    up to the user of the module; `Down` moves bits towards index 0. */
module Words {

  type Byte = n: int | 0 <= n < 256
  type Bits = seq<bool>

  function Zero(n: nat): (c: Bits)
    ensures |c| == n && forall i :: 0 <= i < n ==> !c[i]
  {
    seq(n, i => false)
  }

  function Xor(a: Bits, b: Bits): (c: Bits)
    requires |a| == |b|
    ensures |c| == |a| && forall i :: 0 <= i < |a| ==> c[i] == (a[i] != b[i])
  {
    seq(|a|, i requires 0 <= i < |a| => a[i] != b[i])
  }

  function And(a: Bits, b: Bits): (c: Bits)
    requires |a| == |b|
    ensures |c| == |a| && forall i :: 0 <= i < |a| ==> c[i] == (a[i] && b[i])
  {
    seq(|a|, i requires 0 <= i < |a| => a[i] && b[i])
  }

  function Or(a: Bits, b: Bits): (c: Bits)
    requires |a| == |b|
    ensures |c| == |a| && forall i :: 0 <= i < |a| ==> c[i] == (a[i] || b[i])
  {
    seq(|a|, i requires 0 <= i < |a| => a[i] || b[i])
  }

  function Not(a: Bits): (c: Bits)
    ensures |c| == |a| && forall i :: 0 <= i < |a| ==> c[i] == !a[i]
  {
    seq(|a|, i requires 0 <= i < |a| => !a[i])
  }

  /** Shift towards index 0, filling with zeros. */
  function Down(a: Bits, k: nat): (c: Bits)
    ensures |c| == |a| && forall i :: 0 <= i < |a| ==> c[i] == (i + k < |a| && a[i + k])
  {
    seq(|a|, i requires 0 <= i < |a| => i + k < |a| && a[i + k])
  }

  /** Shift away from index 0, filling with zeros. */
  function Up(a: Bits, k: nat): (c: Bits)
    ensures |c| == |a| && forall i :: 0 <= i < |a| ==> c[i] == (i >= k && a[i - k])
  {
    seq(|a|, i requires 0 <= i < |a| => i >= k && a[i - k])
  }

  /** Extend with zeros to width `n`. */
  function Pad(a: Bits, n: nat): (c: Bits)
    requires |a| <= n
    ensures |c| == n && forall i :: 0 <= i < n ==> c[i] == (i < |a| && a[i])
  {
    seq(n, i requires 0 <= i < n => i < |a| && a[i])
  }

  function Reverse(a: Bits): (c: Bits)
    ensures |c| == |a| && forall i :: 0 <= i < |a| ==> c[i] == a[|a| - 1 - i]
  {
    seq(|a|, i requires 0 <= i < |a| => a[|a| - 1 - i])
  }

  function Pow2(n: nat): (p: nat)
    ensures p > 0
  {
    if n == 0 then 1 else 2 * Pow2(n - 1)
  }

  /** A word given by the number it represents, index 0 least significant. */
  function Constant(v: nat, n: nat): (c: Bits)
    ensures |c| == n && forall i :: 0 <= i < n ==> c[i] == (v / Pow2(i) % 2 == 1)
  {
    seq(n, i requires 0 <= i < n => v / Pow2(i) % 2 == 1)
  }

  /** The low `n` binary digits of `v`, least significant first. */
  function Digits(v: nat, n: nat): (c: Bits)
    ensures |c| == n
  {
    if n == 0 then [] else [v % 2 == 1] + Digits(v / 2, n - 1)
  }

  /** The number whose binary digits, least significant first, are `a`. */
  function Value(a: Bits): nat {
    if a == [] then 0 else (if a[0] then 1 else 0) + 2 * Value(a[1..])
  }

  lemma {:induction false} ValueBound(a: Bits)
    ensures Value(a) < Pow2(|a|)
  {
    if a != [] {
      ValueBound(a[1..]);
    }
  }

  lemma {:induction false} DigitsOfValue(a: Bits)
    ensures Digits(Value(a), |a|) == a
  {
    if a != [] {
      DigitsOfValue(a[1..]);
      assert a == [a[0]] + a[1..];
    }
  }

  lemma {:induction false} ValueOfDigits(v: nat, n: nat)
    requires v < Pow2(n)
    ensures Value(Digits(v, n)) == v
  {
    if n > 0 {
      ValueOfDigits(v / 2, n - 1);
      assert Digits(v, n)[1..] == Digits(v / 2, n - 1);
    }
  }

  /** A byte's bits, least significant first. */
  function ByteBits(b: Byte): (c: Bits)
    ensures |c| == 8
  {
    Digits(b, 8)
  }

  /** The byte held in eight bits, least significant first. */
  function ByteOf(a: Bits): (b: Byte)
    requires |a| == 8
    ensures ByteBits(b) == a
  {
    ValueBound(a);
    DigitsOfValue(a);
    Value(a)
  }

  lemma ByteRoundTrip(b: Byte)
    ensures ByteOf(ByteBits(b)) == b
  {
    ValueOfDigits(b, 8);
  }
}
