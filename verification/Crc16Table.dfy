/** The literal table crc16tab, and that each of its entries is eight shifts of its index. */
module Crc16Table {
  import opened Words
  import opened CrcRegister

  /** Where x^16 + x^12 + x^5 + 1 has its terms below the leading one, x^15 at index 0. */
  predicate Term(i: nat) {
    i == 3 || i == 10 || i == 15
  }

  function Terms(): (p: Bits)
    ensures |p| == 16 && forall i :: 0 <= i < 16 ==> p[i] == Term(i)
  {
    seq(16, i requires 0 <= i < 16 => Term(i))
  }

  const POLY16: Bits := Terms()

  function MsbByte(b: Byte): (c: Octet) {
    Reverse(ByteBits(b))
  }

  /** A 16-bit number, most significant bit first. */
  function Word(x: nat): (w: Bits)
    ensures |w| == 16
  {
    Reverse(Digits(x, 16))
  }

  /** The rows of crc16tab, sixteen entries each: those of indices below 128, and the others. */
  function LowRow(r: nat): (row: seq<nat>)
    ensures |row| == 16
  {
    match r
    case 0 => [0x0000, 0x1021, 0x2042, 0x3063, 0x4084, 0x50a5, 0x60c6, 0x70e7,
               0x8108, 0x9129, 0xa14a, 0xb16b, 0xc18c, 0xd1ad, 0xe1ce, 0xf1ef]
    case 1 => [0x1231, 0x0210, 0x3273, 0x2252, 0x52b5, 0x4294, 0x72f7, 0x62d6,
               0x9339, 0x8318, 0xb37b, 0xa35a, 0xd3bd, 0xc39c, 0xf3ff, 0xe3de]
    case 2 => [0x2462, 0x3443, 0x0420, 0x1401, 0x64e6, 0x74c7, 0x44a4, 0x5485,
               0xa56a, 0xb54b, 0x8528, 0x9509, 0xe5ee, 0xf5cf, 0xc5ac, 0xd58d]
    case 3 => [0x3653, 0x2672, 0x1611, 0x0630, 0x76d7, 0x66f6, 0x5695, 0x46b4,
               0xb75b, 0xa77a, 0x9719, 0x8738, 0xf7df, 0xe7fe, 0xd79d, 0xc7bc]
    case 4 => [0x48c4, 0x58e5, 0x6886, 0x78a7, 0x0840, 0x1861, 0x2802, 0x3823,
               0xc9cc, 0xd9ed, 0xe98e, 0xf9af, 0x8948, 0x9969, 0xa90a, 0xb92b]
    case 5 => [0x5af5, 0x4ad4, 0x7ab7, 0x6a96, 0x1a71, 0x0a50, 0x3a33, 0x2a12,
               0xdbfd, 0xcbdc, 0xfbbf, 0xeb9e, 0x9b79, 0x8b58, 0xbb3b, 0xab1a]
    case 6 => [0x6ca6, 0x7c87, 0x4ce4, 0x5cc5, 0x2c22, 0x3c03, 0x0c60, 0x1c41,
               0xedae, 0xfd8f, 0xcdec, 0xddcd, 0xad2a, 0xbd0b, 0x8d68, 0x9d49]
    case _ => [0x7e97, 0x6eb6, 0x5ed5, 0x4ef4, 0x3e13, 0x2e32, 0x1e51, 0x0e70,
               0xff9f, 0xefbe, 0xdfdd, 0xcffc, 0xbf1b, 0xaf3a, 0x9f59, 0x8f78]
  }

  function HighRow(r: nat): (row: seq<nat>)
    ensures |row| == 16
  {
    match r
    case 0 => [0x9188, 0x81a9, 0xb1ca, 0xa1eb, 0xd10c, 0xc12d, 0xf14e, 0xe16f,
               0x1080, 0x00a1, 0x30c2, 0x20e3, 0x5004, 0x4025, 0x7046, 0x6067]
    case 1 => [0x83b9, 0x9398, 0xa3fb, 0xb3da, 0xc33d, 0xd31c, 0xe37f, 0xf35e,
               0x02b1, 0x1290, 0x22f3, 0x32d2, 0x4235, 0x5214, 0x6277, 0x7256]
    case 2 => [0xb5ea, 0xa5cb, 0x95a8, 0x8589, 0xf56e, 0xe54f, 0xd52c, 0xc50d,
               0x34e2, 0x24c3, 0x14a0, 0x0481, 0x7466, 0x6447, 0x5424, 0x4405]
    case 3 => [0xa7db, 0xb7fa, 0x8799, 0x97b8, 0xe75f, 0xf77e, 0xc71d, 0xd73c,
               0x26d3, 0x36f2, 0x0691, 0x16b0, 0x6657, 0x7676, 0x4615, 0x5634]
    case 4 => [0xd94c, 0xc96d, 0xf90e, 0xe92f, 0x99c8, 0x89e9, 0xb98a, 0xa9ab,
               0x5844, 0x4865, 0x7806, 0x6827, 0x18c0, 0x08e1, 0x3882, 0x28a3]
    case 5 => [0xcb7d, 0xdb5c, 0xeb3f, 0xfb1e, 0x8bf9, 0x9bd8, 0xabbb, 0xbb9a,
               0x4a75, 0x5a54, 0x6a37, 0x7a16, 0x0af1, 0x1ad0, 0x2ab3, 0x3a92]
    case 6 => [0xfd2e, 0xed0f, 0xdd6c, 0xcd4d, 0xbdaa, 0xad8b, 0x9de8, 0x8dc9,
               0x7c26, 0x6c07, 0x5c64, 0x4c45, 0x3ca2, 0x2c83, 0x1ce0, 0x0cc1]
    case _ => [0xef1f, 0xff3e, 0xcf5d, 0xdf7c, 0xaf9b, 0xbfba, 0x8fd9, 0x9ff8,
               0x6e17, 0x7e36, 0x4e55, 0x5e74, 0x2e93, 0x3eb2, 0x0ed1, 0x1ef0]
  }

  function TableRow(r: nat): (row: seq<nat>)
    ensures |row| == 16
  {
    if r < 8 then LowRow(r) else HighRow(r - 8)
  }

  /** crc16tab[b]. */
  function Literal(b: Byte): nat {
    TableRow(b / 16)[b % 16]
  }

  // ----- The value of a few bits -------------------------------------------------------------

  function Bit(b: bool): nat {
    if b then 1 else 0
  }

  function Nibble(a: bool, b: bool, c: bool, d: bool): (v: nat)
    ensures v < 16
  {
    Bit(a) + 2 * Bit(b) + 4 * Bit(c) + 8 * Bit(d)
  }

  lemma ValueStep(a: Bits)
    requires a != []
    ensures Value(a) == Bit(a[0]) + 2 * Value(a[1..])
  {
  }

  lemma ValueOfFour(a: Bits)
    requires |a| >= 4
    ensures Value(a) == Nibble(a[0], a[1], a[2], a[3]) + 16 * Value(a[4..])
  {
    hide Value;
    ValueStep(a);
    ValueStep(a[1..]);
    ValueStep(a[2..]);
    ValueStep(a[3..]);
    assert a[1..][1..] == a[2..] && a[2..][1..] == a[3..] && a[3..][1..] == a[4..];
  }

  lemma ValueOfByte(a: Bits)
    requires |a| == 8
    ensures Value(a) == Nibble(a[0], a[1], a[2], a[3]) + 16 * Nibble(a[4], a[5], a[6], a[7])
  {
    hide Nibble;
    ValueOfFour(a);
    ValueOfFour(a[4..]);
    assert a[4..][4..] == [];
  }

  lemma ValueOfWord(a: Bits)
    requires |a| == 16
    ensures Value(a) == Nibble(a[0], a[1], a[2], a[3]) + 16 * Nibble(a[4], a[5], a[6], a[7])
                      + 256 * (Nibble(a[8], a[9], a[10], a[11]) + 16 * Nibble(a[12], a[13], a[14], a[15]))
  {
    hide Nibble;
    ValueOfFour(a);
    ValueOfFour(a[4..]);
    ValueOfByte(a[8..]);
    assert a[4..][4..] == a[8..];
  }

  // ----- Eight shifts of a byte --------------------------------------------------------------

  predicate At(x: Bits, i: nat) {
    i < |x| && x[i]
  }

  lemma OneShift(x: Bits, i: nat)
    requires |x| == 16 && i < 16
    ensures Shift(POLY16, x)[i] == (At(x, i + 1) != (x[0] && Term(i)))
  {
  }

  lemma ShiftTwice(x: Bits)
    requires |x| == 16
    ensures Shifts(POLY16, x, 2) == Shift(POLY16, Shift(POLY16, x))
  {
    hide Shift;
    assert Shifts(POLY16, x, 1) == Shift(POLY16, Shifts(POLY16, x, 0));
  }

  lemma TwoShifts(x: Bits, i: nat)
    requires |x| == 16 && i < 16
    ensures Shifts(POLY16, x, 2)[i] == ((At(x, i + 2) != (x[0] && Term(i + 1))) != (x[1] && Term(i)))
  {
    hide Shift;
    ShiftTwice(x);
    var y := Shift(POLY16, x);
    OneShift(y, i);
    OneShift(x, 0);
    if i < 15 {
      OneShift(x, i + 1);
    }
  }

  /** Bit `i` after half a byte: the four bits that fall off do not change one another. */
  predicate Four(x: Bits, i: nat)
    requires |x| == 16
  {
    (((At(x, i + 4) != (x[0] && Term(i + 3))) != (x[1] && Term(i + 2))) != (x[2] && Term(i + 1))) != (x[3] && Term(i))
  }

  lemma FourShifts(x: Bits, i: nat)
    requires |x| == 16 && i < 16
    ensures Shifts(POLY16, x, 4)[i] == Four(x, i)
  {
    hide Shift, Shifts;
    var y := Shifts(POLY16, x, 2);
    ShiftsAdd(POLY16, x, 2, 2);
    TwoShifts(y, i);
    TwoShifts(x, 0);
    TwoShifts(x, 1);
    if i < 14 {
      TwoShifts(x, i + 2);
    }
  }

  lemma FourBits(x: Bits)
    requires |x| == 16
    ensures var y := Shifts(POLY16, x, 4);
      && y[0] == (x[4] != x[0]) && y[1] == (x[5] != x[1]) && y[2] == (x[6] != x[2]) && y[3] == (x[7] != x[3])
      && y[4] == x[8] && y[5] == x[9] && y[6] == x[10] && y[7] == (x[11] != x[0])
      && y[8] == (x[12] != x[1]) && y[9] == (x[13] != x[2]) && y[10] == (x[14] != x[3]) && y[11] == x[15]
      && y[12] == x[0] && y[13] == x[1] && y[14] == x[2] && y[15] == x[3]
  {
    hide Shifts;
    assert Shifts(POLY16, x, 4)[0] == (x[4] != x[0]) by { FourShifts(x, 0); }
    assert Shifts(POLY16, x, 4)[1] == (x[5] != x[1]) by { FourShifts(x, 1); }
    assert Shifts(POLY16, x, 4)[2] == (x[6] != x[2]) by { FourShifts(x, 2); }
    assert Shifts(POLY16, x, 4)[3] == (x[7] != x[3]) by { FourShifts(x, 3); }
    assert Shifts(POLY16, x, 4)[4] == x[8] by { FourShifts(x, 4); }
    assert Shifts(POLY16, x, 4)[5] == x[9] by { FourShifts(x, 5); }
    assert Shifts(POLY16, x, 4)[6] == x[10] by { FourShifts(x, 6); }
    assert Shifts(POLY16, x, 4)[7] == (x[11] != x[0]) by { FourShifts(x, 7); }
    assert Shifts(POLY16, x, 4)[8] == (x[12] != x[1]) by { FourShifts(x, 8); }
    assert Shifts(POLY16, x, 4)[9] == (x[13] != x[2]) by { FourShifts(x, 9); }
    assert Shifts(POLY16, x, 4)[10] == (x[14] != x[3]) by { FourShifts(x, 10); }
    assert Shifts(POLY16, x, 4)[11] == x[15] by { FourShifts(x, 11); }
    assert Shifts(POLY16, x, 4)[12] == x[0] by { FourShifts(x, 12); }
    assert Shifts(POLY16, x, 4)[13] == x[1] by { FourShifts(x, 13); }
    assert Shifts(POLY16, x, 4)[14] == x[2] by { FourShifts(x, 14); }
    assert Shifts(POLY16, x, 4)[15] == x[3] by { FourShifts(x, 15); }
  }

  /** An entry of the table, bit by bit. */
  lemma EntryBits(c: Octet)
    ensures var e, q0, q1, q2, q3 :=
              Shifts(POLY16, Pad(c, 16), 8), c[0] != c[4], c[1] != c[5], c[2] != c[6], c[3] != c[7];
      && e[0] == q0 && e[1] == q1 && e[2] == q2 && e[3] == (q3 != c[0])
      && e[4] == c[1] && e[5] == c[2] && e[6] == c[3] && e[7] == q0
      && e[8] == (q1 != c[0]) && e[9] == (q2 != c[1]) && e[10] == (q3 != c[2]) && e[11] == c[3]
      && e[12] == q0 && e[13] == q1 && e[14] == q2 && e[15] == q3
  {
    hide Shifts;
    var x := Pad(c, 16);
    FourBits(x);
    FourBits(Shifts(POLY16, x, 4));
    ShiftsAdd(POLY16, x, 4, 4);
  }

  // ----- The literals ---------------------------------------------------------------------------

  /** The same bits as a number; `h` and `q` are the high half of the index, and the XOR of both halves. */
  function EntryNumber(h0: bool, h1: bool, h2: bool, h3: bool, q0: bool, q1: bool, q2: bool, q3: bool): nat {
    Nibble(q0, q1, q2, q3) + 16 * Nibble(h0, q0 != h1, q1 != h2, q2 != h3)
    + 256 * (Nibble(q3, h0, h1, h2) + 16 * Nibble(q0 != h3, q1, q2, q3))
  }

  lemma LowRowIs(a0: bool, a1: bool, a2: bool, a3: bool, a4: bool, a5: bool, a6: bool)
    ensures LowRow(Nibble(a4, a5, a6, false))[Nibble(a0, a1, a2, a3)]
         == EntryNumber(a4, a5, a6, false, a0 != a4, a1 != a5, a2 != a6, a3)
  {
  }

  lemma HighRowIs(a0: bool, a1: bool, a2: bool, a3: bool, a4: bool, a5: bool, a6: bool, a7: bool)
    requires a7
    ensures HighRow(Nibble(a4, a5, a6, !a7))[Nibble(a0, a1, a2, a3)]
         == EntryNumber(a4, a5, a6, a7, a0 != a4, a1 != a5, a2 != a6, a3 != a7)
  {
  }

  lemma RowIs(a: Bits)
    requires |a| == 8
    ensures TableRow(Nibble(a[4], a[5], a[6], a[7]))[Nibble(a[0], a[1], a[2], a[3])]
         == EntryNumber(a[4], a[5], a[6], a[7], a[0] != a[4], a[1] != a[5], a[2] != a[6], a[3] != a[7])
  {
    hide LowRow, HighRow, EntryNumber;
    if a[7] {
      HighRowIs(a[0], a[1], a[2], a[3], a[4], a[5], a[6], a[7]);
    } else {
      LowRowIs(a[0], a[1], a[2], a[3], a[4], a[5], a[6]);
    }
  }

  lemma LiteralIs(n: Byte)
    ensures var a := ByteBits(n);
      Literal(n) == EntryNumber(a[4], a[5], a[6], a[7], a[0] != a[4], a[1] != a[5], a[2] != a[6], a[3] != a[7])
  {
    hide TableRow, EntryNumber, ByteBits, Value, Nibble;
    var a := ByteBits(n);
    ByteRoundTrip(n);
    ValueOfByte(a);
    RowIs(a);
  }

  lemma ReversedValue(e: Bits)
    requires |e| == 16
    ensures Value(Reverse(e)) == Nibble(e[15], e[14], e[13], e[12]) + 16 * Nibble(e[11], e[10], e[9], e[8])
                               + 256 * (Nibble(e[7], e[6], e[5], e[4]) + 16 * Nibble(e[3], e[2], e[1], e[0]))
  {
    hide Value, Nibble;
    ValueOfWord(Reverse(e));
  }

  /** The number that the bits of `EntryBits` make. */
  lemma BitsNumber(e: Bits, c: Octet)
    requires |e| == 16
    requires var q0, q1, q2, q3 := c[0] != c[4], c[1] != c[5], c[2] != c[6], c[3] != c[7];
      && e[0] == q0 && e[1] == q1 && e[2] == q2 && e[3] == (q3 != c[0])
      && e[4] == c[1] && e[5] == c[2] && e[6] == c[3] && e[7] == q0
      && e[8] == (q1 != c[0]) && e[9] == (q2 != c[1]) && e[10] == (q3 != c[2]) && e[11] == c[3]
      && e[12] == q0 && e[13] == q1 && e[14] == q2 && e[15] == q3
    ensures Value(Reverse(e))
         == EntryNumber(c[3], c[2], c[1], c[0], c[7] != c[3], c[6] != c[2], c[5] != c[1], c[4] != c[0])
  {
    hide Nibble, Value, Reverse;
    ReversedValue(e);
  }

  /** Every entry of crc16tab is the register after its index and no more: eight shifts. */
  lemma TableIsShifts(n: Byte)
    ensures Word(Literal(n)) == Shifts(POLY16, Pad(MsbByte(n), 16), 8)
  {
    hide Shifts, EntryNumber, Value, Digits, ByteBits;
    var e := Shifts(POLY16, Pad(MsbByte(n), 16), 8);
    LiteralIs(n);
    EntryBits(MsbByte(n));
    BitsNumber(e, MsbByte(n));
    DigitsOfValue(Reverse(e));
    assert Reverse(Reverse(e)) == e;
  }
}
