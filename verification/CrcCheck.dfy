/** The check value of the CRC of mesh-transport/src/lora_mac.rs, and the round in figures that it takes. */
module CrcCheck {
  import opened Common
  import opened XorMetric
  import opened Crc

  // ---------- one bit in figures ----------

  /** The bit of this weight turned over. */
  function Over(e: int, weight: int): int
    requires weight > 0
  {
    if e / weight % 2 == 0 then e + weight else e - weight
  }

  lemma QuotientIs(n: nat, d: nat, q: nat)
    requires d > 0 && q * d <= n < (q + 1) * d
    ensures n / d == q
  {
    DivBounds(n, d);
    if n / d < q { MulMono(n / d + 1, q, d); } else if n / d > q { MulMono(q + 1, n / d, d); }
  }

  lemma HalveThenDivide(e: nat, p: nat)
    requires p > 0
    ensures e / 2 / p == e / (2 * p)
  {
    var q := e / 2 / p;
    DivBounds(e / 2, p);
    assert q * (2 * p) == 2 * (q * p) && (q + 1) * (2 * p) == 2 * ((q + 1) * p);
    QuotientIs(e, 2 * p, q);
  }

  lemma OverOne(e: nat)
    ensures Over(e, 1) == 2 * (e / 2) + 1 - e % 2
  {
  }

  lemma OverDoubles(e: nat, p: nat)
    requires p > 0
    ensures Over(e, 2 * p) == e % 2 + 2 * Over(e / 2, p)
  {
    HalveThenDivide(e, p);
  }

  /** Exclusive or with a power of two turns one bit over. */
  lemma {:induction false} XorTurns(e: nat, k: nat, n: nat)
    requires k < n && e < Pow2(n)
    ensures Pow2(k) > 0 && Xor(e, Pow2(k), n) == Over(e, Pow2(k)) < Pow2(n)
  {
    hide Xor, Over;
    Digits(e, n);
    XorBounded(e, Pow2(k), n);
    if k == 0 {
      OverOne(e);
      XorDigits(e % 2, e / 2, 1, 0, n - 1);
      XorZero(e / 2, n - 1);
    } else {
      XorDigits(e % 2, e / 2, 0, Pow2(k - 1), n - 1);
      XorTurns(e / 2, k - 1, n - 1);
      OverDoubles(e, Pow2(k - 1));
    }
  }

  lemma Turns(e: nat, weight: nat)
    requires e < 0x1_0000 && (weight == 0x1000 || weight == 0x20 || weight == 1)
    ensures Xor(e, weight, WIDTH) == Over(e, weight) < 0x1_0000 && 0 <= Over(e, weight)
  {
    Powers();
    assert Pow2(12) == 0x1000 && Pow2(5) == 0x20 && Pow2(0) == 1;
    XorTurns(e, if weight == 0x1000 then 12 else if weight == 0x20 then 5 else 0, WIDTH);
  }

  lemma XorThree(e: nat, a: nat, b: nat, c: nat, n: nat)
    ensures Xor(e, Xor(Xor(a, b, n), c, n), n) == Xor(Xor(Xor(e, a, n), b, n), c, n)
  {
    hide Xor;
    XorAssoc(e, Xor(a, b, n), c, n);
    XorAssoc(e, a, b, n);
  }

  lemma PolynomialBits()
    ensures Xor(Xor(0x1000, 0x20, WIDTH), 1, WIDTH) == POLYNOMIAL
  {
    assert Over(0x1000, 0x20) == 0x1020 && Over(0x1020, 1) == POLYNOMIAL;
    hide Xor, Over;
    Turns(0x1000, 0x20);
    Turns(0x1020, 1);
  }

  /** The polynomial turns bits 12, 5 and 0 over. */
  lemma XorPolynomial(e: U16)
    ensures Xor16(e, POLYNOMIAL) == Over(Over(Over(e, 0x1000), 0x20), 1)
  {
    hide Xor, Over;
    PolynomialBits();
    XorThree(e, 0x1000, 0x20, 1, WIDTH);
    Turns(e, 0x1000);
    Turns(Over(e, 0x1000), 0x20);
    Turns(Over(Over(e, 0x1000), 0x20), 1);
  }

  /** One bit shifted in. */
  function ShiftedOne(c: U16, on: bool): int {
    var l := 2 * (if c >= 0x8000 then c - 0x8000 else c);
    if (c >= 0x8000) == on then l else Over(Over(l, 0x1000), 0x20) + 1
  }

  lemma EvenOver(e: int, weight: int)
    requires e % 2 == 0 && weight > 0 && weight % 2 == 0
    ensures Over(e, weight) % 2 == 0
  {
    assert (e + weight) % 2 == 0 && (e - weight) % 2 == 0;
    var d := Over(e, weight);
    assert d == e + weight || d == e - weight;
    hide Over;
  }

  lemma EvenPlusOne(e: int)
    requires e % 2 == 0
    ensures Over(e, 1) == e + 1
  {
  }

  lemma MixTop(c: U16, on: bool)
    ensures Pow2(WIDTH - 1) == TOP
    ensures var m := Xor16(c, TopBitOf(on, WIDTH - 1)); (m >= TOP <==> (c >= TOP) != on) && Low(m) == Low(c)
  {
    Powers();
    if on { XorTurns(c, WIDTH - 1, WIDTH); } else { MixNothing(c); }
  }

  lemma BitInFigures(c: U16, on: bool)
    ensures Bit(c, on) == ShiftedOne(c, on)
  {
    hide Xor, Over;
    Powers();
    MixTop(c, on);
    RoundOfLow(Xor16(c, TopBitOf(on, WIDTH - 1)));
    var l := 2 * Low(c);
    XorPolynomial(l);
    EvenOver(l, 0x1000);
    EvenOver(Over(l, 0x1000), 0x20);
    EvenPlusOne(Over(Over(l, 0x1000), 0x20));
  }

  /** The n low bits of v shifted in. */
  function Shifted(c: U16, v: nat, n: nat): U16 {
    if n == 0 then c
    else
      var d := Shifted(c, v / 2, n - 1);
      BitInFigures(d, v % 2 == 1);
      ShiftedOne(d, v % 2 == 1)
  }

  lemma {:induction false} BitsInFigures(c: U16, v: nat, n: nat)
    ensures BitsFrom(c, BitList(v, n)) == Shifted(c, v, n)
  {
    hide ShiftedOne;
    if n > 0 {
      BitsInFigures(c, v / 2, n - 1);
      BitsFromConcat(c, BitList(v / 2, n - 1), [v % 2 == 1]);
      BitInFigures(BitsFrom(c, BitList(v / 2, n - 1)), v % 2 == 1);
      assert [v % 2 == 1][1..] == [];
    }
  }

  // ---------- the check value ----------

  /** Eight bits shifted in one by one: r0 to r8 are the registers in between. */
  lemma EightBits(b: U8, r0: U16, r1: U16, r2: U16, r3: U16, r4: U16, r5: U16, r6: U16, r7: U16, r8: U16)
    requires var b1 := b / 2; var b2 := b1 / 2; var b3 := b2 / 2; var b4 := b3 / 2; var b5 := b4 / 2; var b6 := b5 / 2;
      && ShiftedOne(r0, b6 / 2 % 2 == 1) == r1 && ShiftedOne(r1, b6 % 2 == 1) == r2
      && ShiftedOne(r2, b5 % 2 == 1) == r3 && ShiftedOne(r3, b4 % 2 == 1) == r4
      && ShiftedOne(r4, b3 % 2 == 1) == r5 && ShiftedOne(r5, b2 % 2 == 1) == r6
      && ShiftedOne(r6, b1 % 2 == 1) == r7 && ShiftedOne(r7, b % 2 == 1) == r8
    ensures Byte(r0, b) == r8
  {
    hide ShiftedOne, Byte;
    var b1, b2, b3 := b / 2, b / 2 / 2, b / 2 / 2 / 2;
    var b4, b5 := b3 / 2, b3 / 2 / 2;
    var b6, b7 := b5 / 2, b5 / 2 / 2;
    assert Shifted(r0, b7, 1) == r1 && Shifted(r0, b6, 2) == r2 && Shifted(r0, b5, 3) == r3;
    assert Shifted(r0, b4, 4) == r4 && Shifted(r0, b3, 5) == r5 && Shifted(r0, b2, 6) == r6;
    assert Shifted(r0, b1, 7) == r7 && Shifted(r0, b, 8) == r8;
    ByteInFigures(r0, b);
  }

  lemma NextByte(c: U16, b: U8, rest: Bytes)
    ensures CrcFrom(c, [b] + rest) == CrcFrom(Byte(c, b), rest)
  {
    assert ([b] + rest)[1..] == rest;
  }

  lemma ByteInFigures(c: U16, b: U8)
    ensures Byte(c, b) == Shifted(c, b, 8)
  {
    hide Byte;
    var one: Bytes := [b];
    assert one[1..] == [];
    NextByte(c, b, []);
    assert [b] + [] == one;
    NoBytes(Byte(c, b));
    CrcIsBitSerial(c, one);
    assert Bits(one[1..]) == [];
    assert Bits(one) == BitList(b, 8) + [] == BitList(b, 8);
    BitsInFigures(c, b, 8);
  }

  lemma FirstDigit()
    ensures Byte(0xFFFF, 0x31) == 0xC782
  {
    hide Byte;
    EightBits(0x31, 0xFFFF, 0xEFDF, 0xCF9F, 0x9F3E, 0x3E7C, 0x7CF8, 0xF9F0, 0xE3C1, 0xC782);
  }

  lemma FirstDigits()
    ensures Byte(Byte(Byte(0xFFFF, 0x31), 0x32), 0x33) == 0x5BCE
  {
    hide Byte;
    FirstDigit();
    EightBits(0x32, 0xC782, 0x9F25, 0x2E6B, 0x4CF7, 0x89CF, 0x03BF, 0x077E, 0x1EDD, 0x3DBA);
    EightBits(0x33, 0x3DBA, 0x7B74, 0xF6E8, 0xEDD0, 0xDBA0, 0xA761, 0x5EE3, 0xADE7, 0x5BCE);
  }

  lemma FourthDigit()
    ensures Byte(0x5BCE, 0x34) == 0x5349
  {
    hide Byte;
    EightBits(0x34, 0x5BCE, 0xB79C, 0x7F19, 0xEE13, 0xDC26, 0xA86D, 0x50DA, 0xA1B4, 0x5349);
  }

  lemma MiddleDigits()
    ensures Byte(Byte(Byte(0x5BCE, 0x34), 0x35), 0x36) == 0x2EF4
  {
    hide Byte;
    FourthDigit();
    EightBits(0x35, 0x5349, 0xA692, 0x5D05, 0xAA2B, 0x5456, 0xA8AC, 0x5158, 0xA2B0, 0x4560);
    EightBits(0x36, 0x4560, 0x8AC0, 0x05A1, 0x1B63, 0x26E7, 0x4DCE, 0x8BBD, 0x177A, 0x2EF4);
  }

  lemma SeventhDigit()
    ensures Byte(0x2EF4, 0x37) == 0x7718
  {
    hide Byte;
    EightBits(0x37, 0x2EF4, 0x5DE8, 0xBBD0, 0x77A0, 0xFF61, 0xEEE3, 0xDDC6, 0xBB8C, 0x7718);
  }

  lemma LastDigits()
    ensures Byte(Byte(Byte(0x2EF4, 0x37), 0x38), 0x39) == 0x29B1
  {
    hide Byte;
    SeventhDigit();
    EightBits(0x38, 0x7718, 0xEE30, 0xCC41, 0x9882, 0x3104, 0x7229, 0xE452, 0xD885, 0xA12B);
    EightBits(0x39, 0xA12B, 0x5277, 0xA4EE, 0x49DC, 0x8399, 0x0732, 0x0E64, 0x1CC8, 0x29B1);
  }

  lemma ThreeBytes(c: U16, x: U8, y: U8, z: U8, rest: Bytes)
    ensures CrcFrom(c, [x, y, z] + rest) == CrcFrom(Byte(Byte(Byte(c, x), y), z), rest)
  {
    hide Byte, CrcFrom;
    assert [x, y, z] + rest == [x] + ([y] + ([z] + rest));
    NextByte(c, x, [y] + ([z] + rest));
    NextByte(Byte(c, x), y, [z] + rest);
    NextByte(Byte(Byte(c, x), y), z, rest);
  }

  /** The published check value of this CRC: the nine digits in ASCII. */
  lemma CheckValue()
    ensures Crc16([0x31, 0x32, 0x33, 0x34, 0x35, 0x36, 0x37, 0x38, 0x39]) == 0x29B1
  {
    FirstDigits();
    MiddleDigits();
    LastDigits();
    hide Byte, CrcFrom;
    ThreeBytes(0xFFFF, 0x31, 0x32, 0x33, [0x34, 0x35, 0x36, 0x37, 0x38, 0x39]);
    ThreeBytes(0x5BCE, 0x34, 0x35, 0x36, [0x37, 0x38, 0x39]);
    ThreeBytes(0x2EF4, 0x37, 0x38, 0x39, []);
    NoBytes(0x29B1);
    assert [0x31, 0x32, 0x33] + [0x34, 0x35, 0x36, 0x37, 0x38, 0x39] ==
      [0x31, 0x32, 0x33, 0x34, 0x35, 0x36, 0x37, 0x38, 0x39];
    assert [0x34, 0x35, 0x36] + [0x37, 0x38, 0x39] == [0x34, 0x35, 0x36, 0x37, 0x38, 0x39];
    assert [0x37, 0x38, 0x39] + [] == [0x37, 0x38, 0x39];
  }

  /** No bytes leave the initial value. */
  lemma NoBytes(c: U16)
    ensures CrcFrom(c, []) == c && Crc16([]) == 0xFFFF
  {
  }
}
