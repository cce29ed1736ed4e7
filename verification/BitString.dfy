/** A string of bytes as a string of bits: bit 0 is the most significant bit of the first byte. */
module BitString {
  import opened Words

  type Bytes = seq<Byte>

  function BitsOf(s: Bytes): (b: Bits)
    ensures |b| == 8 * |s|
    ensures forall i :: 0 <= i < |b| ==> b[i] == ByteBits(s[i / 8])[7 - i % 8]
  {
    seq(8 * |s|, i requires 0 <= i < 8 * |s| => ByteBits(s[i / 8])[7 - i % 8])
  }

  /** The string extended with zeros without end. */
  predicate BitAt(s: Bytes, i: nat) {
    i < 8 * |s| && BitsOf(s)[i]
  }

  /** `bits` bits from `offset` on, of the string extended with zeros without end. */
  function Extended(src: Bytes, offset: nat, bits: nat): (b: Bits)
    ensures |b| == bits && forall i :: 0 <= i < bits ==> b[i] == BitAt(src, offset + i)
  {
    seq(bits, i requires 0 <= i < bits => BitAt(src, offset + i))
  }

  lemma ZeroByte(k: nat)
    requires k < 8
    ensures !ByteBits(0)[k]
  {
    ZeroDigits(0, 8, k);
  }

  lemma {:induction false} ZeroDigits(v: nat, n: nat, k: nat)
    requires v == 0 && k < n
    ensures !Digits(v, n)[k]
  {
    if k > 0 {
      ZeroDigits(v / 2, n - 1, k - 1);
    }
  }

  lemma {:induction false} OneDigits(v: nat, n: nat, k: nat)
    requires v == Pow2(n) - 1 && k < n
    ensures Digits(v, n)[k]
  {
    if k > 0 {
      OneDigits(v / 2, n - 1, k - 1);
    }
  }

  /** The number whose bits, most significant first, are `b`. */
  function Number(b: Bits): nat {
    Value(Reverse(b))
  }

  /** The low `n` bits of `v`, most significant first. */
  function Field(v: nat, n: nat): (b: Bits)
    ensures |b| == n
  {
    Reverse(Digits(v, n))
  }

  lemma NumberBound(b: Bits)
    ensures Number(b) < Pow2(|b|)
  {
    ValueBound(Reverse(b));
  }

  lemma {:induction false} DigitsMod(v: nat, n: nat)
    ensures Digits(v, n) == Digits(v % Pow2(n), n)
  {
    if n > 0 {
      HalfMod(v, n);
      DigitsMod(v / 2, n - 1);
    }
  }

  /** Dropping the lowest bit commutes with dropping high bits. */
  lemma HalfMod(v: nat, n: nat)
    requires n > 0
    ensures (v % Pow2(n)) / 2 == (v / 2) % Pow2(n - 1) && (v % Pow2(n)) % 2 == v % 2
  {
    var p := Pow2(n - 1);
    var q, r := v / 2 / p, v / 2 % p;
    assert v / 2 == p * q + r;
    assert v == (2 * p) * q + (2 * r + v % 2) by {
      assert 2 * (p * q) == (2 * p) * q;
    }
    ModUnique(v, 2 * p, q, 2 * r + v % 2);
  }

  lemma ModUnique(v: nat, m: nat, q: nat, r: nat)
    requires m > 0 && v == m * q + r && r < m
    ensures v % m == r && v / m == q
  {
    var q', r' := v / m, v % m;
    assert v == m * q' + r';
    if q < q' {
      MulStep(m, q, q');
    } else if q' < q {
      MulStep(m, q', q);
    }
  }

  lemma {:induction false} MulStep(m: nat, a: nat, b: nat)
    requires a < b
    ensures m * a + m <= m * b
    decreases b
  {
    assert m * b == m * (b - 1) + m;
    if a < b - 1 {
      MulStep(m, a, b - 1);
    }
  }

  /** Reading back a field gives the value modulo a power of two. */
  lemma NumberOfField(v: nat, n: nat)
    ensures Number(Field(v, n)) == v % Pow2(n)
  {
    DigitsMod(v, n);
    assert Reverse(Reverse(Digits(v, n))) == Digits(v, n);
    ValueOfDigits(v % Pow2(n), n);
  }

  lemma {:induction false} Pow2Grows(m: nat, n: nat)
    requires m <= n
    ensures Pow2(m) <= Pow2(n)
    decreases n
  {
    if m < n {
      Pow2Grows(m, n - 1);
    }
  }

  /** One more bit on the right. */
  lemma NumberSnoc(b: Bits, x: bool)
    ensures Number(b + [x]) == 2 * Number(b) + if x then 1 else 0
  {
    assert Reverse(b + [x]) == [x] + Reverse(b);
    assert ([x] + Reverse(b))[1..] == Reverse(b);
  }

  lemma {:induction false} Pow2Add(m: nat, n: nat)
    ensures Pow2(m + n) == Pow2(m) * Pow2(n)
  {
    if m > 0 {
      Pow2Add(m - 1, n);
      var p, q := Pow2(m - 1), Pow2(n);
      assert 2 * (p * q) == (2 * p) * q;
    }
  }

  /** The low `n` bits of a number, in two's complement if it is negative. */
  function Low(v: int, n: nat): (r: nat)
    ensures r < Pow2(n)
  {
    v % Pow2(n)
  }

  /** Congruence: two numbers that differ by a multiple of `m`. */
  ghost predicate Congruent(x: int, y: int, m: int) {
    exists k: int :: x == y + m * k
  }

  lemma ModCongruent(x: int, m: int)
    requires m > 0
    ensures Congruent(x % m, x, m)
  {
    assert x % m == x + m * -(x / m);
  }

  lemma CongruentSym(x: int, y: int, m: int)
    requires Congruent(x, y, m)
    ensures Congruent(y, x, m)
  {
    var k :| x == y + m * k;
    assert y == x + m * -k;
  }

  lemma CongruentTrans(x: int, y: int, z: int, m: int)
    requires Congruent(x, y, m) && Congruent(y, z, m)
    ensures Congruent(x, z, m)
  {
    var k :| x == y + m * k;
    var l :| y == z + m * l;
    assert x == z + m * (k + l) by {
      assert m * (k + l) == m * k + m * l;
    }
  }

  /** In a range shorter than `m` there is at most one number of each class. */
  lemma CongruentUnique(x: int, y: int, m: int, low: int)
    requires m > 0 && Congruent(x, y, m) && low <= x < low + m && low <= y < low + m
    ensures x == y
  {
    var k :| x == y + m * k;
    MulAtLeast(m, k);
    MulAtLeast(m, -k);
    assert m * -k == -(m * k);
  }

  lemma {:induction false} MulAtLeast(m: int, k: int)
    requires m > 0
    ensures k > 0 ==> m * k >= m
    decreases k
  {
    if k > 1 {
      MulAtLeast(m, k - 1);
      assert m * k == m * (k - 1) + m;
    }
  }

  /** The low bits are the number of the class that is in range. */
  lemma LowIs(v: int, n: nat, r: int)
    requires 0 <= r < Pow2(n) && Congruent(r, v, Pow2(n))
    ensures Low(v, n) == r
  {
    var m := Pow2(n);
    ModCongruent(v, m);
    CongruentSym(r, v, m);
    CongruentTrans(v % m, v, r, m);
    CongruentUnique(v % m, r, m, 0);
  }
}
