/** BITOP: whole words while every source has data, then byte by byte with an early exit. */
module BitOp {
  import opened Options
  import opened Words
  import opened BitString

  datatype Op = OpAnd | OpOr | OpXor | OpNot

  // ----- What it should compute --------------------------------------------------------------

  /** A byte of a source; a source that has ended goes on with zeros. */
  function At(s: Bytes, j: nat): Byte {
    if j < |s| then s[j] else 0
  }

  function AndBytes(x: Byte, y: Byte): (z: Byte)
    ensures ByteBits(z) == And(ByteBits(x), ByteBits(y))
  {
    ByteOf(And(ByteBits(x), ByteBits(y)))
  }

  function OrBytes(x: Byte, y: Byte): (z: Byte)
    ensures ByteBits(z) == Or(ByteBits(x), ByteBits(y))
  {
    ByteOf(Or(ByteBits(x), ByteBits(y)))
  }

  function XorBytes(x: Byte, y: Byte): (z: Byte)
    ensures ByteBits(z) == Xor(ByteBits(x), ByteBits(y))
  {
    ByteOf(Xor(ByteBits(x), ByteBits(y)))
  }

  function NotByte(x: Byte): (z: Byte)
    ensures ByteBits(z) == Not(ByteBits(x))
  {
    ByteOf(Not(ByteBits(x)))
  }

  function Combine(op: Op, x: Byte, y: Byte): Byte {
    match op
    case OpAnd => AndBytes(x, y)
    case OpOr => OrBytes(x, y)
    case OpXor => XorBytes(x, y)
    case OpNot => x
  }

  /** The operation over the `j`-th bytes of the first `n` sources. */
  function Fold(op: Op, src: seq<Bytes>, j: nat, n: nat): Byte
    requires 1 <= n <= |src|
  {
    if n == 1 then (if op == OpNot then NotByte(At(src[0], j)) else At(src[0], j))
    else Combine(op, Fold(op, src, j, n - 1), At(src[n - 1], j))
  }

  function MaxLen(src: seq<Bytes>): nat {
    if src == [] then 0
    else
      var m := MaxLen(src[1..]);
      if |src[0]| > m then |src[0]| else m
  }

  function Result(op: Op, src: seq<Bytes>): (r: Bytes)
    requires src != []
    ensures |r| == MaxLen(src) && forall j :: 0 <= j < |r| ==> r[j] == Fold(op, src, j, |src|)
  {
    seq(MaxLen(src), j requires 0 <= j < MaxLen(src) => Fold(op, src, j, |src|))
  }

  /** The result is as long as the longest source. */
  lemma {:induction false} LongestSource(src: seq<Bytes>)
    requires src != []
    ensures forall k :: 0 <= k < |src| ==> |src[k]| <= MaxLen(src)
    ensures exists k :: 0 <= k < |src| && |src[k]| == MaxLen(src)
  {
    var rest := src[1..];
    if rest == [] {
      assert MaxLen(src) == |src[0]|;
    } else {
      LongestSource(rest);
      var k :| 0 <= k < |rest| && |rest[k]| == MaxLen(rest);
      assert forall j :: 1 <= j < |src| ==> src[j] == rest[j - 1];
      assert src[k + 1] == rest[k];
      assert |src[0]| == MaxLen(src) || |src[k + 1]| == MaxLen(src);
    }
  }

  // ----- Bit by bit -----------------------------------------------------------------------------

  /** The operation on the bits of all sources. */
  ghost predicate FoldBit(op: Op, src: seq<Bytes>, i: nat)
    requires src != []
  {
    match op
    case OpAnd => forall k :: 0 <= k < |src| ==> BitAt(src[k], i)
    case OpOr => exists k :: 0 <= k < |src| && BitAt(src[k], i)
    case OpXor => Odd(src, i, |src|)
    case OpNot => !BitAt(src[0], i)
  }

  /** Whether an odd number of the first `n` sources have a one. */
  predicate Odd(src: seq<Bytes>, i: nat, n: nat)
    requires n <= |src|
  {
    n > 0 && (BitAt(src[n - 1], i) != Odd(src, i, n - 1))
  }

  lemma AtBit(s: Bytes, i: nat)
    ensures ByteBits(At(s, i / 8))[7 - i % 8] == BitAt(s, i)
  {
    if i >= 8 * |s| {
      ZeroByte(7 - i % 8);
    }
  }

  /** Each bit of the fold of the bytes is the fold of the bits. */
  lemma {:induction false} FoldBits(op: Op, src: seq<Bytes>, i: nat, n: nat)
    requires 1 <= n <= |src|
    ensures var x := ByteBits(Fold(op, src, i / 8, n))[7 - i % 8];
      match op
      case OpAnd => x <==> forall k :: 0 <= k < n ==> BitAt(src[k], i)
      case OpOr => x <==> exists k :: 0 <= k < n && BitAt(src[k], i)
      case OpXor => x <==> Odd(src, i, n)
      case OpNot => x <==> !BitAt(src[0], i)
    decreases n
  {
    hide BitAt, ByteBits;
    AtBit(src[n - 1], i);
    if n > 1 {
      FoldBits(op, src, i, n - 1);
    }
  }

  /** BITOP gives, at every bit of a string as long as the longest source, the operation over
      the bits of all sources extended with zeros. */
  lemma ResultBits(op: Op, src: seq<Bytes>, i: nat)
    requires src != [] && i < 8 * MaxLen(src)
    ensures BitsOf(Result(op, src))[i] <==> FoldBit(op, src, i)
  {
    hide BitAt, ByteBits, Fold;
    FoldBits(op, src, i, |src|);
    assert Result(op, src)[i / 8] == Fold(op, src, i / 8, |src|);
  }

  // ----- The early exit ---------------------------------------------------------------------------

  lemma AndZeroStays(y: Byte)
    ensures AndBytes(0, y) == 0
  {
    forall k | 0 <= k < 8 ensures !ByteBits(0)[k] {
      ZeroByte(k);
    }
    assert And(ByteBits(0), ByteBits(y)) == ByteBits(0);
    ByteRoundTrip(0);
    ByteRoundTrip(AndBytes(0, y));
  }

  lemma OrOnesStays(y: Byte)
    ensures OrBytes(255, y) == 255
  {
    assert Pow2(8) == 256;
    forall k | 0 <= k < 8 ensures ByteBits(255)[k] {
      OneDigits(255, 8, k);
    }
    assert Or(ByteBits(255), ByteBits(y)) == ByteBits(255);
    ByteRoundTrip(255);
    ByteRoundTrip(OrBytes(255, y));
  }

  /** Whether the remaining sources cannot change the byte any more. */
  predicate Settled(op: Op, output: Byte) {
    (op == OpAnd && output == 0) || (op == OpOr && output == 255)
  }

  lemma SettledOnce(op: Op, x: Byte, y: Byte)
    requires Settled(op, x)
    ensures Combine(op, x, y) == x
  {
    hide AndBytes, OrBytes;
    if op == OpAnd {
      AndZeroStays(y);
    } else {
      OrOnesStays(y);
    }
  }

  lemma {:induction false} SettledStays(op: Op, src: seq<Bytes>, j: nat, m: nat, n: nat)
    requires 1 <= m <= n <= |src| && Settled(op, Fold(op, src, j, m))
    ensures Fold(op, src, j, n) == Fold(op, src, j, m)
    decreases n
  {
    hide Combine, At, NotByte, Settled;
    if m < n {
      SettledStays(op, src, j, m, n - 1);
      SettledOnce(op, Fold(op, src, j, m), At(src[n - 1], j));
    }
  }

  // ----- bitopCommand --------------------------------------------------------------------------------

  datatype Reply = OneSourceOnly | Deleted | Stored(value: Bytes)

  const BLOCK: nat := 32   // four words of eight bytes

  function Source(key: Option<Bytes>): Bytes {
    if key.Some? then key.value else []
  }

  function Sources(keys: seq<Option<Bytes>>): (src: seq<Bytes>)
    ensures |src| == |keys| && forall i :: 0 <= i < |keys| ==> src[i] == Source(keys[i])
  {
    seq(|keys|, i requires 0 <= i < |keys| => Source(keys[i]))
  }

  lemma {:induction false} MaxLenSnoc(src: seq<Bytes>, s: Bytes)
    ensures MaxLen(src + [s]) == if |s| > MaxLen(src) then |s| else MaxLen(src)
  {
    if src != [] {
      MaxLenSnoc(src[1..], s);
      assert (src + [s])[1..] == src[1..] + [s];
    }
  }

  /** The lookup loop: the longest and the shortest length, a missing key counting as empty. */
  method Lengths(keys: seq<Option<Bytes>>) returns (maxlen: nat, minlen: nat)
    requires keys != []
    ensures maxlen == MaxLen(Sources(keys))
    ensures forall i :: 0 <= i < |keys| ==> minlen <= |Sources(keys)[i]|
  {
    maxlen, minlen := 0, 0;
    ghost var src := Sources(keys);
    for j := 0 to |keys|
      invariant maxlen == MaxLen(src[..j])
      invariant forall i :: 0 <= i < j ==> minlen <= |src[i]|
      invariant j == 0 ==> minlen == 0
    {
      assert src[..j + 1] == src[..j] + [src[j]];
      MaxLenSnoc(src[..j], src[j]);
      match keys[j] {
        case None =>
          minlen := 0;
        case Some(s) =>
          if |s| > maxlen {
            maxlen := |s|;
          }
          if j == 0 || |s| < minlen {
            minlen := |s|;
          }
      }
    }
    assert src[..|keys|] == src;
  }

  lemma FoldStep(op: Op, src: seq<Bytes>, j: nat, n: nat)
    requires 1 <= n < |src|
    ensures Fold(op, src, j, n + 1) == Combine(op, Fold(op, src, j, n), At(src[n], j))
  {
  }

  // ----- Words ----------------------------------------------------------------------------------------

  /** Eight bytes as a word, the first byte least significant. The order does not matter: what is
      loaded is stored the same way. */
  function LoadWord(s: Bytes, at: nat): (w: Bits)
    requires at + 8 <= |s|
    ensures |w| == 64 && forall i :: 0 <= i < 64 ==> w[i] == ByteBits(s[at + i / 8])[i % 8]
  {
    seq(64, i requires 0 <= i < 64 => ByteBits(s[at + i / 8])[i % 8])
  }

  lemma ByteOfWord(s: Bytes, at: nat, b: nat)
    requires at + 8 <= |s| && b < 8
    ensures LoadWord(s, at)[8 * b..8 * b + 8] == ByteBits(s[at + b])
  {
    hide ByteBits;
    var c := LoadWord(s, at)[8 * b..8 * b + 8];
    forall j | 0 <= j < 8 ensures c[j] == ByteBits(s[at + b])[j] {
      assert (8 * b + j) / 8 == b && (8 * b + j) % 8 == j;
    }
  }

  function CombineWords(op: Op, x: Bits, y: Bits): (z: Bits)
    requires |x| == |y|
    ensures |z| == |x|
  {
    match op
    case OpAnd => And(x, y)
    case OpOr => Or(x, y)
    case OpXor => Xor(x, y)
    case OpNot => x
  }

  lemma CombineSlice(op: Op, x: Bits, y: Bits, lo: nat, hi: nat)
    requires |x| == |y| && lo <= hi <= |x|
    ensures CombineWords(op, x, y)[lo..hi] == CombineWords(op, x[lo..hi], y[lo..hi])
  {
  }

  lemma CombineOneByte(op: Op, x: Byte, y: Byte)
    ensures CombineWords(op, ByteBits(x), ByteBits(y)) == ByteBits(Combine(op, x, y))
  {
    hide ByteBits;
  }

  /** An operation on words acts on each of their bytes. */
  lemma WordActsOnBytes(op: Op, s: Bytes, i: nat, t: Bytes, j: nat, b: nat)
    requires i + 8 <= |s| && j + 8 <= |t| && b < 8
    ensures CombineWords(op, LoadWord(s, i), LoadWord(t, j))[8 * b..8 * b + 8]
         == ByteBits(Combine(op, s[i + b], t[j + b]))
    ensures Not(LoadWord(s, i))[8 * b..8 * b + 8] == ByteBits(NotByte(s[i + b]))
  {
    hide LoadWord, Combine, CombineWords, ByteBits;
    var x, y := LoadWord(s, i), LoadWord(t, j);
    ByteOfWord(s, i, b);
    ByteOfWord(t, j, b);
    CombineSlice(op, x, y, 8 * b, 8 * b + 8);
    CombineOneByte(op, s[i + b], t[j + b]);
    assert Not(x)[8 * b..8 * b + 8] == Not(x[8 * b..8 * b + 8]);
  }

  lemma SameByte(x: Byte, y: Byte)
    requires ByteBits(x) == ByteBits(y)
    ensures x == y
  {
    ByteRoundTrip(x);
    ByteRoundTrip(y);
  }

  /** A store through a word pointer. */
  method StoreWord(res: array<Byte>, at: nat, w: Bits)
    requires at + 8 <= res.Length && |w| == 64
    modifies res
    ensures forall k :: 0 <= k < res.Length && !(at <= k < at + 8) ==> res[k] == old(res[k])
    ensures forall b :: 0 <= b < 8 ==> ByteBits(res[at + b]) == w[8 * b..8 * b + 8]
  {
    hide ByteBits;
    for b := 0 to 8
      invariant forall k :: 0 <= k < res.Length && !(at <= k < at + b) ==> res[k] == old(res[k])
      invariant forall k :: 0 <= k < b ==> ByteBits(res[at + k]) == w[8 * k..8 * k + 8]
    {
      res[at + b] := ByteOf(w[8 * b..8 * b + 8]);
    }
  }

  /** One word of the result with one word of a source. */
  method CombineWord(op: Op, res: array<Byte>, at: nat, s: Bytes)
    requires at + 8 <= res.Length && at + 8 <= |s|
    modifies res
    ensures forall k :: 0 <= k < res.Length && !(at <= k < at + 8) ==> res[k] == old(res[k])
    ensures forall k :: at <= k < at + 8 ==> res[k] == Combine(op, old(res[k]), s[k])
  {
    hide Combine, CombineWords, ByteBits, LoadWord, NotByte;
    ghost var before := res[..];
    StoreWord(res, at, CombineWords(op, LoadWord(res[..], at), LoadWord(s, at)));
    forall k | at <= k < at + 8 ensures res[k] == Combine(op, before[k], s[k]) {
      WordActsOnBytes(op, before, at, s, at, k - at);
      assert ByteBits(res[at + (k - at)]) == ByteBits(Combine(op, before[k], s[k]));
      SameByte(res[k], Combine(op, before[k], s[k]));
    }
  }

  /** Four words of the result with four words of one more source. */
  method CombineBlock(op: Op, res: array<Byte>, at: nat, s: Bytes)
    requires at + BLOCK <= res.Length && at + BLOCK <= |s|
    modifies res
    ensures forall k :: 0 <= k < res.Length && !(at <= k < at + BLOCK) ==> res[k] == old(res[k])
    ensures forall k :: at <= k < at + BLOCK ==> res[k] == Combine(op, old(res[k]), s[k])
  {
    hide Combine;
    CombineWord(op, res, at, s);
    CombineWord(op, res, at + 8, s);
    CombineWord(op, res, at + 16, s);
    CombineWord(op, res, at + 24, s);
  }

  /** One round of the fast loop: all sources folded into one block, which held the first one. */
  method FastBlock(op: Op, src: seq<Bytes>, res: array<Byte>, at: nat)
    requires src != [] && op != OpNot && at + BLOCK <= res.Length
    requires forall i :: 0 <= i < |src| ==> at + BLOCK <= |src[i]|
    requires forall k :: at <= k < at + BLOCK ==> res[k] == src[0][k]
    modifies res
    ensures forall k :: 0 <= k < res.Length && !(at <= k < at + BLOCK) ==> res[k] == old(res[k])
    ensures forall k :: at <= k < at + BLOCK ==> res[k] == Fold(op, src, k, |src|)
  {
    hide Combine, Fold;
    forall k | at <= k < at + BLOCK ensures Fold(op, src, k, 1) == src[0][k] {
      FoldFirst(op, src, k);
    }
    for i := 1 to |src|
      invariant forall k :: 0 <= k < res.Length && !(at <= k < at + BLOCK) ==> res[k] == old(res[k])
      invariant forall k :: at <= k < at + BLOCK ==> res[k] == Fold(op, src, k, i)
    {
      forall k | at <= k < at + BLOCK
        ensures Fold(op, src, k, i + 1) == Combine(op, Fold(op, src, k, i), src[i][k]) {
        FoldStep(op, src, k, i);
      }
      CombineBlock(op, res, at, src[i]);
    }
  }

  lemma FoldFirst(op: Op, src: seq<Bytes>, j: nat)
    requires src != []
    ensures Fold(op, src, j, 1) == if op == OpNot then NotByte(At(src[0], j)) else At(src[0], j)
  {
  }

  method NotWord(res: array<Byte>, at: nat)
    requires at + 8 <= res.Length
    modifies res
    ensures forall k :: 0 <= k < res.Length && !(at <= k < at + 8) ==> res[k] == old(res[k])
    ensures forall k :: at <= k < at + 8 ==> res[k] == NotByte(old(res[k]))
  {
    hide ByteBits, LoadWord, NotByte, CombineWords, Combine;
    ghost var before := res[..];
    StoreWord(res, at, Not(LoadWord(res[..], at)));
    forall k | at <= k < at + 8 ensures res[k] == NotByte(before[k]) {
      WordActsOnBytes(OpNot, before, at, before, at, k - at);
      assert ByteBits(res[at + (k - at)]) == ByteBits(NotByte(before[k]));
      SameByte(res[k], NotByte(before[k]));
    }
  }

  method NotBlock(src: seq<Bytes>, res: array<Byte>, at: nat)
    requires |src| == 1 && at + BLOCK <= res.Length && at + BLOCK <= |src[0]|
    requires forall k :: at <= k < at + BLOCK ==> res[k] == src[0][k]
    modifies res
    ensures forall k :: 0 <= k < res.Length && !(at <= k < at + BLOCK) ==> res[k] == old(res[k])
    ensures forall k :: at <= k < at + BLOCK ==> res[k] == Fold(OpNot, src, k, 1)
  {
    hide NotByte;
    NotWord(res, at);
    NotWord(res, at + 8);
    NotWord(res, at + 16);
    NotWord(res, at + 24);
  }

  /** The byte loop's body: stop looking at sources once the byte is settled. */
  method SlowByte(op: Op, src: seq<Bytes>, j: nat) returns (output: Byte)
    requires src != [] && (op == OpNot ==> |src| == 1)
    ensures output == Fold(op, src, j, |src|)
  {
    hide Combine, Fold, NotByte, Settled;
    FoldFirst(op, src, j);
    output := At(src[0], j);
    if op == OpNot {
      output := NotByte(output);
    }
    var i := 1;
    while i < |src|
      invariant 1 <= i <= |src| && output == Fold(op, src, j, i)
    {
      FoldStep(op, src, j, i);
      output := Combine(op, output, At(src[i], j));
      if Settled(op, output) {
        SettledStays(op, src, j, i + 1, |src|);
        return;
      }
      i := i + 1;
    }
  }

  /** The fast path: as long as all sources have four more words. */
  method FastPath(op: Op, src: seq<Bytes>, res: array<Byte>, minlen: nat) returns (j: nat)
    requires src != [] && (op == OpNot ==> |src| == 1) && minlen <= res.Length
    requires forall i :: 0 <= i < |src| ==> minlen <= |src[i]|
    modifies res
    ensures j <= minlen && forall k :: 0 <= k < j ==> res[k] == Fold(op, src, k, |src|)
  {
    hide Fold;
    for c := 0 to minlen
      invariant forall k :: 0 <= k < c ==> res[k] == src[0][k]
    {
      res[c] := src[0][c];
    }
    j := 0;
    while minlen - j >= BLOCK
      invariant 0 <= j <= minlen
      invariant forall k :: 0 <= k < j ==> res[k] == Fold(op, src, k, |src|)
      invariant forall k :: j <= k < minlen ==> res[k] == src[0][k]
    {
      if op == OpNot {
        NotBlock(src, res, j);
      } else {
        FastBlock(op, src, res, j);
      }
      j := j + BLOCK;
    }
  }

  /** bitopCommand, from the sources to the stored value. */
  method BitopCommand(op: Op, keys: seq<Option<Bytes>>) returns (reply: Reply)
    requires keys != []
    ensures reply ==
      if op == OpNot && |keys| != 1 then OneSourceOnly
      else if MaxLen(Sources(keys)) == 0 then Deleted
      else Stored(Result(op, Sources(keys)))
  {
    hide Fold, MaxLen;
    if op == OpNot && |keys| != 1 {
      return OneSourceOnly;
    }
    var src := Sources(keys);
    var maxlen, minlen := Lengths(keys);
    if maxlen == 0 {
      return Deleted;
    }
    var res := new Byte[maxlen](i => 0);
    var j := 0;
    LongestIsLonger(src, 0);
    if minlen >= BLOCK && |keys| <= 16 {
      j := FastPath(op, src, res, minlen);
    }
    while j < maxlen
      invariant 0 <= j <= maxlen
      invariant forall k :: 0 <= k < j ==> res[k] == Fold(op, src, k, |src|)
    {
      res[j] := SlowByte(op, src, j);
      j := j + 1;
    }
    assert res[..] == Result(op, src);
    reply := Stored(res[..]);
  }

  lemma {:induction false} LongestIsLonger(src: seq<Bytes>, i: nat)
    requires i < |src|
    ensures |src[i]| <= MaxLen(src)
  {
    if i > 0 {
      LongestIsLonger(src[1..], i - 1);
    }
  }
}
