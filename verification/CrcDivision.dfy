/**
  The CRC of mesh-transport/src/lora_mac.rs as a remainder: long division of bit strings by the
  generator polynomial of ITU-T V.41.
 */
module CrcDivision {
  import opened Common
  import opened XorMetric
  import opened Crc

  // ---------- long division, the reference ----------

  /** The coefficients of x^16 + x^12 + x^5 + 1, the highest power first. */
  function Generator(): (g: BitString)
    ensures |g| == 17
  {
    seq(17, i => var power := 16 - i; power == 16 || power == 12 || power == 5 || power == 0)
  }

  /** Subtraction of coefficients modulo two. */
  function Minus(w: BitString, v: BitString): (r: BitString)
    requires |w| == |v|
    ensures |r| == |w| && forall i | 0 <= i < |r| :: r[i] == (w[i] != v[i])
  {
    seq(|w|, i requires 0 <= i < |w| => w[i] != v[i])
  }

  /** The remainder of a polynomial, given by its coefficients, divided by the generator. */
  function Remainder(w: BitString): BitString
    decreases |w|
  {
    if |w| <= 16 then w
    else if w[0] then Remainder(Minus(w[..17], Generator())[1..] + w[17..])
    else Remainder(w[1..])
  }

  function ZeroBits(n: nat): (w: BitString)
    ensures |w| == n
  {
    seq(n, _ => false)
  }

  // ---------- one step of the division on a 16-bit register ----------

  function BitNumber(on: bool): nat {
    if on then 1 else 0
  }

  /** The register takes in one more bit of the dividend. */
  function Divide(c: U16, on: bool): U16 {
    Xor16(Round(c), BitNumber(on))
  }

  function DivideAll(c: U16, w: BitString): U16
    decreases |w|
  {
    if w == [] then c else DivideAll(Divide(c, w[0]), w[1..])
  }

  lemma {:induction false} BitsOfXor(a: nat, b: nat, n: nat)
    ensures BitList(Xor(a, b, n), n) == Minus(BitList(a, n), BitList(b, n))
  {
    if n > 0 {
      var x := Xor(a, b, n);
      BitsOfXor(a / 2, b / 2, n - 1);
      LastDigit(Xor(a / 2, b / 2, n - 1), (a % 2 + b % 2) % 2);
      assert x / 2 == Xor(a / 2, b / 2, n - 1) && x % 2 == (a % 2 + b % 2) % 2;
    }
  }

  /** Shifting a bit in at the low end drops the one at the top. */
  lemma {:induction false} BitsOfShift(c: nat, on: bool, n: nat)
    requires n > 0
    ensures BitList(2 * c + BitNumber(on), n) == BitList(c, n)[1..] + [on]
  {
    LastDigit(c, BitNumber(on));
    if n > 1 {
      BitsOfShift(c / 2, c % 2 == 1, n - 1);
      assert c == 2 * (c / 2) + BitNumber(c % 2 == 1);
      assert BitList(c, n) == BitList(c / 2, n - 1) + [c % 2 == 1];
      assert BitList(c, n)[1..] == BitList(c / 2, n - 1)[1..] + [c % 2 == 1];
    }
  }

  lemma TopBitOfList(c: U16)
    ensures BitList(c, WIDTH)[0] <==> c >= TOP
  {
    Powers();
    var w := BitList(c, WIDTH);
    ValueOfBits(c, WIDTH);
    ValueFromTop(w);
    BitsAreValue(w[1..]);
  }

  lemma {:induction false} BitsOfDrop(v: nat, n: nat)
    ensures BitList(v + Pow2(n), n) == BitList(v, n)
  {
    if n > 0 {
      BitsOfDrop(v / 2, n - 1);
      assert (v + Pow2(n)) / 2 == v / 2 + Pow2(n - 1) && (v + Pow2(n)) % 2 == v % 2;
    }
  }

  lemma BitsOfNext(v: nat, on: bool, n: nat)
    ensures BitList(2 * v + BitNumber(on), n + 1) == BitList(v, n) + [on]
  {
    LastDigit(v, BitNumber(on));
  }

  /** Four more bits, one hexadecimal digit. */
  lemma BitsOfHexDigit(v: nat, a: bool, b: bool, c: bool, d: bool, n: nat)
    ensures BitList(16 * v + 8 * BitNumber(a) + 4 * BitNumber(b) + 2 * BitNumber(c) + BitNumber(d), n + 4) ==
      BitList(v, n) + [a, b, c, d]
  {
    hide BitList, BitNumber;
    var x := 2 * v + BitNumber(a);
    var y := 2 * x + BitNumber(b);
    BitsOfNext(v, a, n);
    BitsOfNext(x, b, n + 1);
    BitsOfNext(y, c, n + 2);
    BitsOfNext(2 * y + BitNumber(c), d, n + 3);
  }

  lemma PolynomialBits()
    ensures Generator()[1..] == BitList(POLYNOMIAL, WIDTH)
  {
    hide BitList;
    GeneratorDigits();
    BitsOfHexDigit(0x102, false, false, false, true, 12);
    BitsOfHexDigit(0x10, false, false, true, false, 8);
    BitsOfHexDigit(0x1, false, false, false, false, 4);
    BitsOfHexDigit(0x0, false, false, false, true, 0);
    assert BitList(0, 0) == [];
  }

  lemma GeneratorDigits()
    ensures Generator()[1..] == [] + [false, false, false, true] + [false, false, false, false] +
      [false, false, true, false] + [false, false, false, true]
  {
  }

  lemma AddBit(c: nat, on: bool)
    requires 2 * c < 0x1_0000
    ensures Xor16(2 * c, BitNumber(on)) == 2 * c + BitNumber(on)
  {
    Powers();
    XorDigits(0, c, BitNumber(on), 0, WIDTH - 1);
    XorZero(c, WIDTH - 1);
  }

  /** One step of the register is one step of the division. */
  lemma DivideStep(c: U16, on: bool)
    ensures var w := BitList(c, WIDTH) + [on];
      BitList(Divide(c, on), WIDTH) == (if w[0] then Minus(w, Generator())[1..] else w[1..])
  {
    hide BitList, Minus, Generator, Xor16, Round, Pow2;
    TopBitOfList(c);
    BitsOfShift(c, on, WIDTH);
    AddBit(Low(c), on);
    RoundOfLow(c);
    if c >= TOP { SubtractStep(c, on); }
  }

  lemma SubtractStep(c: U16, on: bool)
    requires c >= TOP
    ensures BitList(Divide(c, on), WIDTH) == Minus(BitList(c, WIDTH) + [on], Generator())[1..]
  {
    hide BitList, Generator, Xor, Round;
    RoundOfLow(c);
    AddBit(Low(c), on);
    XorSwap(2 * Low(c), POLYNOMIAL, BitNumber(on), WIDTH);
    BitsOfXor(2 * Low(c) + BitNumber(on), POLYNOMIAL, WIDTH);
    Powers();
    BitsOfDrop(2 * Low(c) + BitNumber(on), WIDTH);
    BitsOfShift(c, on, WIDTH);
    PolynomialBits();
  }

  lemma TailOf(a: BitString, b: BitString)
    requires a != []
    ensures (a + b)[1..] == a[1..] + b
  {
  }

  /** The register holds the remainder of what it has taken in. */
  lemma {:induction false} RegisterDivides(c: U16, w: BitString)
    ensures BitList(DivideAll(c, w), WIDTH) == Remainder(BitList(c, WIDTH) + w)
    decreases |w|
  {
    hide Generator, Minus, BitList, Divide;
    if w == [] {
      assert BitList(c, WIDTH) + w == BitList(c, WIDTH);
    } else {
      var full, first := BitList(c, WIDTH) + w, BitList(c, WIDTH) + [w[0]];
      DivideStep(c, w[0]);
      RegisterDivides(Divide(c, w[0]), w[1..]);
      assert w == [w[0]] + w[1..];
      assert full == first + w[1..];
      TailOf(first, w[1..]);
      assert full[..17] == first && full[17..] == w[1..] && full[1..] == first[1..] + w[1..] && full[0] == first[0];
    }
  }

  // ---------- the CRC is a remainder ----------

  /** The dividend: the bits followed by sixteen zeros. */
  function Augmented(w: BitString): (x: BitString)
    ensures |x| == |w| + 16
  {
    w + ZeroBits(16)
  }

  lemma NextWindow(b: bool, rest: BitString)
    requires |rest| >= 16
    ensures var x := [b] + rest;
      && BitValue(x[..16]) == TopBitOf(b, WIDTH - 1) + BitValue(x[1..16])
      && BitValue(rest[..16]) == 2 * BitValue(x[1..16]) + BitNumber(x[16])
      && BitValue(x[1..16]) < TOP
  {
    Powers();
    var x := [b] + rest;
    ValueFromTop(x[..16]);
    assert x[..16][1..] == x[1..16];
    assert rest[..16][..15] == x[1..16] && rest[..16][15] == x[16];
    BitsAreValue(x[1..16]);
  }

  lemma WindowFits(x: BitString)
    requires |x| >= 16
    ensures BitValue(x[..16]) < 0x1_0000
  {
    Powers();
    BitsAreValue(x[..16]);
  }

  /** Mixing a bit in before a round is dividing with the next sixteen bits already mixed in. */
  lemma RoundIsDivision(c: U16, b: bool, low: nat, next: bool)
    requires low < TOP
    ensures Pow2(WIDTH - 1) == TOP && TopBitOf(b, WIDTH - 1) + low < 0x1_0000
    ensures Divide(Xor16(c, TopBitOf(b, WIDTH - 1) + low), next) == Xor16(Bit(c, b), 2 * low + BitNumber(next))
  {
    hide Xor, Round, Pow2;
    TopBitApart(c, b, low);
    RoundXor(Xor16(c, TopBitOf(b, WIDTH - 1)), low);
    XorAssoc(Bit(c, b), 2 * low, BitNumber(next), WIDTH);
    AddBit(low, next);
  }

  lemma {:induction false} CrcRegister(c: U16, w: BitString)
    ensures BitValue(Augmented(w)[..16]) < 0x1_0000
    ensures DivideAll(Xor16(c, BitValue(Augmented(w)[..16])), Augmented(w)[16..]) == BitsFrom(c, w)
    decreases |w|
  {
    hide Xor16, Divide, Bit, BitValue;
    var x := Augmented(w);
    WindowFits(x);
    if w == [] {
      ZerosAreNothing(16);
      assert x[..16] == ZeroBits(16) && x[16..] == [];
      MixNothing(c);
    } else {
      var rest := Augmented(w[1..]);
      assert x == [w[0]] + rest;
      NextWindow(w[0], rest);
      WindowFits(rest);
      RoundIsDivision(c, w[0], BitValue(x[1..16]), x[16]);
      CrcRegister(Bit(c, w[0]), w[1..]);
      assert x[16..][0] == x[16] && x[16..][1..] == rest[16..];
    }
  }

  lemma {:induction false} ZerosAreNothing(n: nat)
    ensures BitValue(ZeroBits(n)) == 0
  {
    if n > 0 {
      ZerosAreNothing(n - 1);
      assert ZeroBits(n)[..n - 1] == ZeroBits(n - 1);
    }
  }

  lemma {:induction false} AllOnes(n: nat)
    ensures Pow2(n) >= 1 && BitList(Pow2(n) - 1, n) == seq(n, _ => true)
  {
    if n > 0 {
      AllOnes(n - 1);
      assert (Pow2(n) - 1) / 2 == Pow2(n - 1) - 1 && (Pow2(n) - 1) % 2 == 1;
    }
  }

  /** The first sixteen coefficients complemented: what the initial value 0xFFFF amounts to. */
  function FirstFlipped(x: BitString): (r: BitString)
    ensures |r| == |x| && forall i | 0 <= i < |r| :: r[i] == if i < 16 then !x[i] else x[i]
  {
    seq(|x|, i requires 0 <= i < |x| => if i < 16 then !x[i] else x[i])
  }

  /**
    The CRC of every payload is the remainder of its bits, followed by sixteen zeros and with the first
    sixteen of all these complemented, divided by the generator polynomial.
   */
  lemma CrcIsRemainder(payload: Bytes)
    ensures BitList(Crc16(payload), 16) == Remainder(FirstFlipped(Bits(payload) + ZeroBits(16)))
  {
    hide Xor, BitValue, BitList, Remainder, DivideAll;
    var w := Bits(payload);
    var x := Augmented(w);
    CrcIsBitSerial(0xFFFF, payload);
    CrcRegister(0xFFFF, w);
    Powers();
    var v := BitValue(x[..16]);
    RegisterDivides(Xor16(0xFFFF, v), x[16..]);
    BitsOfXor(0xFFFF, v, WIDTH);
    AllOnes(16);
    BitsAreValue(x[..16]);
    assert x == x[..16] + x[16..];
    assert Minus(BitList(0xFFFF, 16), x[..16]) + x[16..] == FirstFlipped(x);
  }

  lemma {:induction false} LeadingZeros(n: nat, x: BitString)
    requires |x| >= 16
    ensures Remainder(ZeroBits(n) + x) == Remainder(x)
  {
    if n == 0 {
      assert ZeroBits(n) + x == x;
    } else {
      assert (ZeroBits(n) + x)[1..] == ZeroBits(n - 1) + x;
      LeadingZeros(n - 1, x);
    }
  }

  lemma TwoBytesOfOnes(payload: Bytes)
    ensures Bits([0xFF, 0xFF] + payload) == seq(16, _ => true) + Bits(payload)
  {
    hide BitList;
    var ones: Bytes := [0xFF, 0xFF];
    BitsConcat(ones, payload);
    Powers();
    AllOnes(8);
    assert ones[1..] == [0xFF] && ones[1..][1..] == [];
    assert Bits(ones) == BitList(0xFF, 8) + (BitList(0xFF, 8) + []);
    assert seq(16, _ => true) == seq(8, _ => true) + seq(8, _ => true);
  }

  lemma OnesFlipped(x: BitString)
    ensures FirstFlipped(seq(16, _ => true) + x) == ZeroBits(16) + x
  {
  }

  /** After two bytes of ones the CRC is the plain remainder of the bits followed by sixteen zeros. */
  lemma OnesThenRemainder(payload: Bytes)
    ensures BitList(Crc16([0xFF, 0xFF] + payload), 16) == Remainder(Bits(payload) + ZeroBits(16))
  {
    hide Remainder, Bits, BitList, FirstFlipped, ZeroBits, Crc16;
    var x := Bits(payload) + ZeroBits(16);
    CrcIsRemainder([0xFF, 0xFF] + payload);
    TwoBytesOfOnes(payload);
    ConcatAssoc(seq(16, _ => true), Bits(payload), ZeroBits(16));
    OnesFlipped(x);
    LeadingZeros(16, x);
  }
}
