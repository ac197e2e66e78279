/** CRC-16 of mesh-transport/src/lora_mac.rs (polynomial 0x1021 of ITU-T V.41, initial value 0xFFFF). */
module Crc {
  import opened Common
  import opened XorMetric

  const LORA_MAX_PAYLOAD := 255
  const POLYNOMIAL: U16 := 0x1021
  const TOP := 0x8000
  const WIDTH: nat := 16

  // ---------- exclusive or, as arithmetic ----------

  lemma {:induction false} XorAssoc(a: nat, b: nat, c: nat, n: nat)
    ensures Xor(Xor(a, b, n), c, n) == Xor(a, Xor(b, c, n), n)
  {
    hide Xor;
    if n == 0 {
      XorNone(Xor(a, b, 0), c);
      XorNone(a, Xor(b, c, 0));
    } else {
      XorAssoc(a / 2, b / 2, c / 2, n - 1);
      XorBits(a, b, n);
      XorBits(b, c, n);
      XorStep(Xor(a, b, n), c, n);
      XorStep(a, Xor(b, c, n), n);
      BitAssoc(a % 2, b % 2, c % 2);
    }
  }

  lemma BitAssoc(a: nat, b: nat, c: nat)
    requires a <= 1 && b <= 1 && c <= 1
    ensures ((a + b) % 2 + c) % 2 == (a + (b + c) % 2) % 2
  {
  }

  /** Exclusive or of numbers given by last bit and rest. */
  lemma XorDigits(p: nat, a: nat, q: nat, b: nat, n: nat)
    requires p <= 1 && q <= 1
    ensures Xor(2 * a + p, 2 * b + q, n + 1) == (if p == q then 0 else 1) + 2 * Xor(a, b, n)
  {
    LastDigit(a, p);
    LastDigit(b, q);
  }

  lemma LastDigit(a: nat, p: nat)
    requires p <= 1
    ensures (2 * a + p) / 2 == a && (2 * a + p) % 2 == p
  {
  }

  /** An odd operand makes an even one odd. */
  lemma XorOdd(a: nat, b: nat, n: nat)
    ensures Xor(2 * a, 2 * b + 1, n + 1) == 1 + 2 * Xor(a, b, n)
  {
    XorDigits(0, a, 1, b, n);
  }

  lemma XorEven(a: nat, b: nat, n: nat)
    ensures Xor(2 * a, 2 * b, n + 1) == 2 * Xor(a, b, n)
  {
    XorDigits(0, a, 0, b, n);
  }

  lemma Digits(b: nat, k: nat)
    requires k > 0 && b < Pow2(k)
    ensures b == 2 * (b / 2) + b % 2 && 0 <= b % 2 <= 1 && 0 <= b / 2 < Pow2(k - 1)
  {
  }

  lemma TopBitDoubles(h: bool, n: nat)
    requires n > 0
    ensures TopBitOf(h, n) == 2 * TopBitOf(h, n - 1)
  {
  }

  function TopBitOf(on: bool, n: nat): nat {
    if on then Pow2(n) else 0
  }

  lemma XorLastBit(a: nat, b: nat, h: bool)
    requires a < Pow2(0) && b < Pow2(0)
    ensures Xor(TopBitOf(h, 0) + a, b, 1) == TopBitOf(h, 0) + Xor(a, b, 0)
  {
    XorDigits(TopBitOf(h, 0), 0, 0, 0, 0);
  }

  /** Splitting off the top bit. */
  lemma {:induction false} XorTopBit(a: nat, b: nat, h: bool, n: nat)
    requires a < Pow2(n) && b < Pow2(n)
    ensures Xor(TopBitOf(h, n) + a, b, n + 1) == TopBitOf(h, n) + Xor(a, b, n)
  {
    hide Xor, Pow2, TopBitOf;
    if n == 0 {
      XorLastBit(a, b, h);
    } else {
      var p, x, q, y := a % 2, a / 2, b % 2, b / 2;
      Digits(a, n);
      Digits(b, n);
      XorTopBit(x, y, h, n - 1);
      TopBitDoubles(h, n);
      XorTopStep(p, x, q, y, TopBitOf(h, n - 1), n);
    }
  }

  lemma XorTopStep(p: nat, x: nat, q: nat, y: nat, top: nat, n: nat)
    requires p <= 1 && q <= 1 && n > 0 && Xor(top + x, y, n) == top + Xor(x, y, n - 1)
    ensures Xor(2 * top + (2 * x + p), 2 * y + q, n + 1) == 2 * top + Xor(2 * x + p, 2 * y + q, n)
  {
    hide Xor;
    XorDigits(p, x, q, y, n - 1);
    XorDigits(p, top + x, q, y, n);
    assert 2 * top + (2 * x + p) == 2 * (top + x) + p;
  }

  lemma {:induction false} XorZero(a: nat, n: nat)
    requires a < Pow2(n)
    ensures Xor(a, 0, n) == a
  {
    if n > 0 { XorZero(a / 2, n - 1); }
  }

  // ---------- one bit round ----------

  lemma Powers()
    ensures Pow2(8) == 256 && Pow2(WIDTH - 1) == TOP && Pow2(WIDTH) == 0x1_0000
  {
    assert Pow2(4) == 16 && Pow2(12) == 4096 && Pow2(15) == TOP;
  }

  function Xor16(a: U16, b: U16): U16 {
    XorBounded(a, b, WIDTH);
    Powers();
    Xor(a, b, WIDTH)
  }

  /** One round of the inner loop. */
  function Round(c: U16): U16 {
    if c >= TOP then Xor16((c * 2) % 0x1_0000, POLYNOMIAL) else c * 2
  }

  function Rounds(c: U16, n: nat): U16 {
    if n == 0 then c else Round(Rounds(c, n - 1))
  }

  lemma ShiftXor(a: nat, b: nat)
    requires a < TOP && b < TOP
    ensures Xor(2 * a, 2 * b, WIDTH) == 2 * Xor(a, b, WIDTH - 1)
  {
    XorEven(a, b, WIDTH - 1);
  }

  lemma XorSwap(a: nat, b: nat, c: nat, n: nat)
    ensures Xor(Xor(a, b, n), c, n) == Xor(Xor(a, c, n), b, n)
  {
    XorAssoc(a, b, c, n);
    XorAssoc(a, c, b, n);
    XorBounded(b, c, n);
  }

  /** The low fifteen bits of a state. */
  function Low(c: U16): (l: nat)
    ensures l < TOP && c == (if c >= TOP then TOP else 0) + l
  {
    if c >= TOP then c - TOP else c
  }

  lemma LowXor(c: U16, b: nat)
    requires b < TOP
    ensures Xor16(c, b) >= TOP <==> c >= TOP
    ensures Low(Xor16(c, b)) == Xor(Low(c), b, WIDTH - 1)
  {
    Powers();
    XorTopBit(Low(c), b, c >= TOP, WIDTH - 1);
    XorBounded(Low(c), b, WIDTH - 1);
  }

  lemma DoubleLow(c: U16)
    ensures (c * 2) % 0x1_0000 == 2 * Low(c)
  {
  }

  lemma RoundOfLow(c: U16)
    ensures Round(c) == if c >= TOP then Xor16(2 * Low(c), POLYNOMIAL) else 2 * Low(c)
  {
    DoubleLow(c);
  }

  /** A round commutes with flipping bits below the top one. */
  lemma RoundXor(c: U16, b: nat)
    requires b < TOP
    ensures Round(Xor16(c, b)) == Xor16(Round(c), 2 * b)
  {
    LowXor(c, b);
    RoundOfLow(c);
    RoundOfLow(Xor16(c, b));
    ShiftXor(Low(c), b);
    XorSwap(2 * Low(c), 2 * b, POLYNOMIAL, WIDTH);
  }

  /** The polynomial is odd, so a round leaves the shifted-out bit in the last place. */
  lemma RoundForm(c: U16)
    ensures Round(c) == if c >= TOP then 1 + 2 * Xor(Low(c), 0x810, WIDTH - 1) else 2 * Low(c)
  {
    RoundOfLow(c);
    XorOdd(Low(c), 0x810, WIDTH - 1);
  }

  /** A round loses nothing: different states stay different. */
  lemma RoundInjective(c: U16, d: U16)
    requires Round(c) == Round(d)
    ensures c == d
  {
    hide Xor16;
    Powers();
    RoundForm(c);
    RoundForm(d);
    hide Round, Xor, Pow2;
    if c >= TOP && d >= TOP { CancelRight(Low(c), Low(d), 0x810, WIDTH - 1); }
  }

  lemma CancelRight(x: nat, y: nat, t: nat, n: nat)
    requires x < Pow2(n) && y < Pow2(n) && Xor(x, t, n) == Xor(y, t, n)
    ensures x == y
  {
    XorBounded(x, t, n);
    XorBounded(y, t, n);
    XorCancel(t, x, y, n);
  }

  lemma {:induction false} RoundsInjective(c: U16, d: U16, n: nat)
    requires Rounds(c, n) == Rounds(d, n)
    ensures c == d
  {
    if n > 0 {
      RoundInjective(Rounds(c, n - 1), Rounds(d, n - 1));
      RoundsInjective(c, d, n - 1);
    }
  }

  // ---------- whole payloads ----------

  function Byte(c: U16, b: U8): U16 {
    Rounds(Xor16(c, b * 256), 8)
  }

  function CrcFrom(c: U16, payload: Bytes): U16
    decreases |payload|
  {
    if payload == [] then c else CrcFrom(Byte(c, payload[0]), payload[1..])
  }

  function Crc16(payload: Bytes): U16 {
    CrcFrom(0xFFFF, payload)
  }

  /** `calculate_crc`. */
  method CalculateCrc(payload: Bytes) returns (crc: U16)
    ensures crc == Crc16(payload)
  {
    crc := 0xFFFF;
    assert payload[0..] == payload;
    for i := 0 to |payload|
      invariant CrcFrom(crc, payload[i..]) == Crc16(payload)
    {
      assert payload[i..][1..] == payload[i + 1..];
      var b: int := payload[i];
      crc := Xor16(crc, b * 256);
      ghost var start := crc;
      for j := 0 to 8
        invariant crc == Rounds(start, j)
      {
        if crc >= TOP {
          crc := Xor16((crc * 2) % 0x1_0000, POLYNOMIAL);
        } else {
          crc := crc * 2;
        }
      }
    }
  }

  // ---------- bit by bit ----------

  type BitString = seq<bool>

  /** The n low bits of v, most significant first. */
  function BitList(v: nat, n: nat): (w: BitString)
    ensures |w| == n
  {
    if n == 0 then [] else BitList(v / 2, n - 1) + [v % 2 == 1]
  }

  function BitValue(w: BitString): nat {
    if w == [] then 0 else 2 * BitValue(w[..|w| - 1]) + if w[|w| - 1] then 1 else 0
  }

  lemma {:induction false} BitsAreValue(w: BitString)
    ensures BitValue(w) < Pow2(|w|) && BitList(BitValue(w), |w|) == w
  {
    if w != [] { BitsAreValue(w[..|w| - 1]); }
  }

  lemma {:induction false} ValueOfBits(v: nat, n: nat)
    requires v < Pow2(n)
    ensures BitValue(BitList(v, n)) == v
  {
    if n > 0 {
      ValueOfBits(v / 2, n - 1);
      var w := BitList(v, n);
      assert w[..n - 1] == BitList(v / 2, n - 1);
    }
  }

  /** The leading bit and the rest. */
  lemma {:induction false} ValueFromTop(w: BitString)
    requires w != []
    ensures BitValue(w) == TopBitOf(w[0], |w| - 1) + BitValue(w[1..])
    decreases |w|
  {
    if |w| > 1 {
      var front := w[..|w| - 1];
      ValueFromTop(front);
      assert front[1..] == w[1..][..|w| - 2];
      TopBitDoubles(w[0], |w| - 1);
    }
  }

  /** A payload's bits, most significant bit of the first byte first. */
  function Bits(payload: Bytes): (w: BitString)
    ensures |w| == 8 * |payload|
  {
    if payload == [] then [] else BitList(payload[0], 8) + Bits(payload[1..])
  }

  lemma {:induction false} BitsConcat(a: Bytes, b: Bytes)
    ensures Bits(a + b) == Bits(a) + Bits(b)
    decreases |a|
  {
    if a == [] {
      assert a + b == b;
    } else {
      BitsConcat(a[1..], b);
      assert (a + b)[1..] == a[1..] + b;
    }
  }

  lemma {:induction false} BitsInjective(p: Bytes, q: Bytes)
    requires Bits(p) == Bits(q)
    ensures p == q
    decreases |p|
  {
    assert |p| == |q|;
    if p != [] {
      assert Bits(p)[..8] == BitList(p[0], 8) && Bits(q)[..8] == BitList(q[0], 8);
      assert Bits(p)[8..] == Bits(p[1..]) && Bits(q)[8..] == Bits(q[1..]);
      Powers();
      ValueOfBits(p[0], 8);
      ValueOfBits(q[0], 8);
      BitsInjective(p[1..], q[1..]);
      assert p == [p[0]] + p[1..] && q == [q[0]] + q[1..];
    }
  }

  /** One bit shifted in at the top. */
  function Bit(c: U16, on: bool): U16 {
    Powers();
    Round(Xor16(c, TopBitOf(on, WIDTH - 1)))
  }

  function BitsFrom(c: U16, w: BitString): U16
    decreases |w|
  {
    if w == [] then c else BitsFrom(Bit(c, w[0]), w[1..])
  }

  lemma {:induction false} BitsFromConcat(c: U16, a: BitString, b: BitString)
    ensures BitsFrom(c, a + b) == BitsFrom(BitsFrom(c, a), b)
    decreases |a|
  {
    if a == [] {
      assert a + b == b;
    } else {
      BitsFromConcat(Bit(c, a[0]), a[1..], b);
      assert (a + b)[1..] == a[1..] + b;
    }
  }

  lemma {:induction false} RoundsFrom(c: U16, n: nat)
    requires n > 0
    ensures Rounds(c, n) == Rounds(Round(c), n - 1)
  {
    if n > 1 { RoundsFrom(c, n - 1); }
  }

  /** The top bit can be mixed in first. */
  lemma TopBitApart(c: U16, h: bool, rest: nat)
    requires rest < TOP
    ensures Pow2(WIDTH - 1) == TOP && TopBitOf(h, WIDTH - 1) + rest < 0x1_0000
    ensures Xor16(c, TopBitOf(h, WIDTH - 1) + rest) == Xor16(Xor16(c, TopBitOf(h, WIDTH - 1)), rest)
  {
    Powers();
    var top := TopBitOf(h, WIDTH - 1);
    XorTopBit(0, rest, h, WIDTH - 1);
    XorBounded(0, rest, WIDTH - 1);
    XorZero(rest, WIDTH - 1);
    XorAssoc(c, top, rest, WIDTH);
  }

  /** Where the n bits of v stand when they are mixed into the top of the state. */
  lemma Aligned(w: BitString)
    requires |w| <= WIDTH
    ensures BitValue(w) * Pow2(WIDTH - |w|) < 0x1_0000
    ensures w != [] ==>
      && BitValue(w[1..]) * Pow2(WIDTH - |w|) < TOP
      && BitValue(w) * Pow2(WIDTH - |w|) == TopBitOf(w[0], WIDTH - 1) + BitValue(w[1..]) * Pow2(WIDTH - |w|)
      && 2 * (BitValue(w[1..]) * Pow2(WIDTH - |w|)) == BitValue(w[1..]) * Pow2(WIDTH - (|w| - 1))
  {
    Powers();
    BitsAreValue(w);
    hide Pow2, BitValue, BitList;
    AlignedBelow(BitValue(w), |w|, WIDTH - |w|);
    if w != [] {
      var n, rest := |w|, BitValue(w[1..]);
      BitsAreValue(w[1..]);
      AlignedBelow(rest, n - 1, WIDTH - n);
      ValueFromTop(w);
      Spread(TopBitOf(w[0], n - 1), rest, Pow2(WIDTH - n));
      TopBitAligned(w[0], n);
      Doubled(rest, Pow2(WIDTH - n));
      NextPower(WIDTH - n);
    }
  }

  lemma TopBitAligned(h: bool, n: nat)
    requires 1 <= n <= WIDTH
    ensures TopBitOf(h, n - 1) * Pow2(WIDTH - n) == TopBitOf(h, WIDTH - 1)
  {
    Pow2Add(n - 1, WIDTH - n);
  }

  lemma NextPower(n: nat)
    ensures Pow2(n + 1) == 2 * Pow2(n)
  {
  }

  lemma Spread(a: nat, b: nat, p: nat)
    ensures (a + b) * p == a * p + b * p
  {
  }

  lemma Doubled(a: nat, p: nat)
    ensures 2 * (a * p) == a * (2 * p)
  {
  }

  lemma AlignedBelow(v: nat, n: nat, k: nat)
    requires v < Pow2(n)
    ensures v * Pow2(k) < Pow2(n + k)
  {
    Pow2Add(n, k);
    MulMono(v + 1, Pow2(n), Pow2(k));
    Spread(v, 1, Pow2(k));
  }

  lemma MixNothing(c: U16)
    ensures BitValue([]) == 0 && Xor16(c, 0) == c
  {
    Powers();
    XorZero(c, WIDTH);
  }

  /** Up to sixteen bits shifted in one by one are as many rounds on the state with all of them mixed in. */
  lemma {:induction false} BitsAtOnce(c: U16, w: BitString)
    requires |w| <= WIDTH
    ensures BitValue(w) * Pow2(WIDTH - |w|) < 0x1_0000
    ensures BitsFrom(c, w) == Rounds(Xor16(c, BitValue(w) * Pow2(WIDTH - |w|)), |w|)
    decreases |w|
  {
    hide Pow2, BitValue, Xor16, TopBitOf, Round;
    Powers();
    Aligned(w);
    if w == [] {
      MixNothing(c);
    } else {
      var n, rest := |w|, BitValue(w[1..]) * Pow2(WIDTH - |w|);
      BitsAtOnce(Bit(c, w[0]), w[1..]);
      TopBitApart(c, w[0], rest);
      var mixed := Xor16(c, TopBitOf(w[0], WIDTH - 1));
      RoundXor(mixed, rest);
      RoundsFrom(Xor16(mixed, rest), n);
    }
  }

  /** So the byte loop is the bit-serial CRC. */
  lemma {:induction false} CrcIsBitSerial(c: U16, payload: Bytes)
    ensures CrcFrom(c, payload) == BitsFrom(c, Bits(payload))
    decreases |payload|
  {
    if payload != [] {
      var b := payload[0];
      Powers();
      BitsAtOnce(c, BitList(b, 8));
      ValueOfBits(b, 8);
      CrcIsBitSerial(Byte(c, b), payload[1..]);
      BitsFromConcat(c, BitList(b, 8), Bits(payload[1..]));
    }
  }

  lemma Mixing(c: U16, v: U16, w: U16)
    ensures Xor16(c, v) == Xor16(c, w) ==> v == w
    ensures Xor16(v, c) == Xor16(w, c) ==> v == w
  {
    Powers();
    XorBounded(v, c, WIDTH);
    XorBounded(w, c, WIDTH);
    if Xor16(c, v) == Xor16(c, w) { XorCancel(c, v, w, WIDTH); }
  }

  /** At most sixteen bits shifted into one state: different bits, different states. */
  lemma WindowInjective(c: U16, v: BitString, w: BitString)
    requires |v| == |w| <= WIDTH && BitsFrom(c, v) == BitsFrom(c, w)
    ensures v == w
  {
    hide Pow2, BitValue, BitList, Xor16, BitsFrom;
    BitsAtOnce(c, v);
    BitsAtOnce(c, w);
    var k := WIDTH - |v|;
    RoundsInjective(Xor16(c, BitValue(v) * Pow2(k)), Xor16(c, BitValue(w) * Pow2(k)), |v|);
    Mixing(c, BitValue(v) * Pow2(k), BitValue(w) * Pow2(k));
    Unscale(BitValue(v), BitValue(w), Pow2(k));
    BitsAreValue(v);
    BitsAreValue(w);
  }

  lemma Unscale(a: nat, b: nat, p: nat)
    requires p > 0
    ensures a * p == b * p ==> a == b
  {
    if a < b { MulMono(a + 1, b, p); }
    if b < a { MulMono(b + 1, a, p); }
  }

  /** Equal bits shifted in keep states apart. */
  lemma {:induction false} SuffixKeepsDifference(c: U16, d: U16, w: BitString)
    requires BitsFrom(c, w) == BitsFrom(d, w)
    ensures c == d
    decreases |w|
  {
    if w != [] {
      Powers();
      SuffixKeepsDifference(Bit(c, w[0]), Bit(d, w[0]), w[1..]);
      var top := TopBitOf(w[0], WIDTH - 1);
      RoundInjective(Xor16(c, top), Xor16(d, top));
      Mixing(top, c, d);
    }
  }

  // ---------- bursts ----------

  /** p and q agree except possibly in sixteen consecutive bits from position o on. */
  ghost predicate DifferInBits(p: Bytes, q: Bytes, o: nat) {
    |p| == |q| && forall j | 0 <= j < |Bits(p)| && !(o <= j < o + 16) :: Bits(p)[j] == Bits(q)[j]
  }

  /** Any change confined to sixteen consecutive bits, at any bit offset, changes the CRC, whatever the length. */
  lemma BitBurstsAreDetected(p: Bytes, q: Bytes, o: nat)
    requires DifferInBits(p, q, o) && p != q
    ensures Crc16(p) != Crc16(q)
  {
    if Crc16(p) == Crc16(q) {
      CrcIsBitSerial(0xFFFF, p);
      CrcIsBitSerial(0xFFFF, q);
      SameCrcSameBits(0xFFFF, Bits(p), Bits(q), o);
      BitsInjective(p, q);
    }
  }

  lemma SameCrcSameBits(c: U16, a: BitString, b: BitString, o: nat)
    requires |a| == |b| && forall j | 0 <= j < |a| && !(o <= j < o + 16) :: a[j] == b[j]
    requires BitsFrom(c, a) == BitsFrom(c, b)
    ensures a == b
  {
    hide BitsFrom;
    var lo, hi := Min(o, |a|), Min(o + 16, |a|);
    assert a[..lo] == b[..lo] && a[hi..] == b[hi..];
    Cut(c, a, lo, hi);
    Cut(c, b, lo, hi);
    var mid := BitsFrom(c, a[..lo]);
    SuffixKeepsDifference(BitsFrom(mid, a[lo..hi]), BitsFrom(mid, b[lo..hi]), a[hi..]);
    WindowInjective(mid, a[lo..hi], b[lo..hi]);
    assert a == a[..lo] + a[lo..hi] + a[hi..] && b == b[..lo] + b[lo..hi] + b[hi..];
  }

  lemma Cut(c: U16, w: BitString, lo: nat, hi: nat)
    requires lo <= hi <= |w|
    ensures BitsFrom(c, w) == BitsFrom(BitsFrom(BitsFrom(c, w[..lo]), w[lo..hi]), w[hi..])
  {
    assert w == (w[..lo] + w[lo..hi]) + w[hi..];
    BitsFromConcat(c, w[..lo] + w[lo..hi], w[hi..]);
    BitsFromConcat(c, w[..lo], w[lo..hi]);
  }

  /** p and q agree except possibly at positions i and i + 1. */
  ghost predicate DifferWithin(p: Bytes, q: Bytes, i: nat) {
    |p| == |q| && forall j | 0 <= j < |p| && j != i && j != i + 1 :: p[j] == q[j]
  }

  lemma TwoBytesAreSixteenBits(p: Bytes, q: Bytes, i: nat)
    requires DifferWithin(p, q, i)
    ensures DifferInBits(p, q, 8 * i)
  {
    hide Bits;
    var lo, hi := Min(i, |p|), Min(i + 2, |p|);
    assert p == (p[..lo] + p[lo..hi]) + p[hi..] && q == (q[..lo] + q[lo..hi]) + q[hi..];
    assert p[..lo] == q[..lo] && p[hi..] == q[hi..];
    BitsConcat(p[..lo] + p[lo..hi], p[hi..]);
    BitsConcat(p[..lo], p[lo..hi]);
    BitsConcat(q[..lo] + q[lo..hi], q[hi..]);
    BitsConcat(q[..lo], q[lo..hi]);
  }

  /** Any change confined to two adjacent bytes changes the CRC. */
  lemma BurstsAreDetected(p: Bytes, q: Bytes, i: nat)
    requires DifferWithin(p, q, i) && p != q
    ensures Crc16(p) != Crc16(q)
  {
    TwoBytesAreSixteenBits(p, q, i);
    BitBurstsAreDetected(p, q, 8 * i);
  }

  // ---------- frames ----------

  datatype LoraMacError = PayloadTooLarge(len: nat, max: nat)

  datatype LoraFrame = LoraFrame(payload: Bytes, crc: U16)

  /** `LoraFrame::new`. */
  function NewFrame(payload: Bytes): Result<LoraFrame, LoraMacError> {
    if |payload| > LORA_MAX_PAYLOAD then Err(PayloadTooLarge(|payload|, LORA_MAX_PAYLOAD))
      else Ok(LoraFrame(payload, Crc16(payload)))
  }

  /** A frame holds at most 255 bytes, as they are, with their CRC. */
  lemma FramesUpTo255(payload: Bytes)
    ensures NewFrame(payload) ==
      if |payload| <= 255 then Ok(LoraFrame(payload, Crc16(payload))) else Err(PayloadTooLarge(|payload|, 255))
  {
  }

  predicate VerifyCrc(f: LoraFrame) {
    Crc16(f.payload) == f.crc
  }

  /** A frame verifies as sent, and never after a burst of at most sixteen bits in its payload. */
  lemma FramesCatchBursts(payload: Bytes, received: Bytes, o: nat)
    requires |payload| <= LORA_MAX_PAYLOAD && DifferInBits(payload, received, o)
    ensures var f := NewFrame(payload);
      f.Ok? && (VerifyCrc(LoraFrame(received, f.value.crc)) <==> received == payload)
  {
    if received != payload { BitBurstsAreDetected(payload, received, o); }
  }
}
