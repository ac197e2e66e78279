/** Which FEN texts come back unchanged from the codec of mesh-transport/src/fen.rs. */
module FenCanonical {
  import opened Common
  import opened Fen

  // ---------- canonical text, field by field ----------

  /** Runs of empty squares are not split. */
  predicate RunsMerged(t: string) {
    forall i | 0 <= i < |t| - 1 :: !(IsDigit(t[i]) && IsDigit(t[i + 1]))
  }

  function RightIndex(c: char): nat {
    if c == 'K' then 1 else if c == 'Q' then 2 else if c == 'k' then 3 else if c == 'q' then 4 else 0
  }

  /** Castling rights in the order KQkq, none repeated. */
  predicate RightsInOrder(t: string) {
    t == "-" || forall i, j | 0 <= i < j < |t| :: RightIndex(t[i]) < RightIndex(t[j])
  }

  /** A number without sign or leading zeros. */
  predicate PlainNumber(t: string) {
    t != [] && t[0] != '+' && (t[0] == '0' ==> |t| == 1)
  }

  function Joined(p: seq<string>): string
    requires |p| == 6
  {
    p[0] + " " + (p[1] + " " + (p[2] + " " + (p[3] + " " + (p[4] + " " + p[5]))))
  }

  ghost predicate CanonicalFields(p: seq<string>)
    requires |p| == 6
  {
    && (forall i | 0 <= i < |SplitSlash(p[0])| :: RunsMerged(SplitSlash(p[0])[i]))
    && RightsInOrder(p[2])
    && (p[3] == "-" || (|p[3]| == 2 && p[3][1] == if p[1] == "b" then '3' else '6'))
    && PlainNumber(p[4]) && PlainNumber(p[5])
  }

  /** Six fields, one space apart, each in its canonical form. */
  ghost predicate Canonical(fen: string) {
    var p := Fields(fen);
    |p| == 6 && fen == Joined(p) && CanonicalFields(p)
  }

  // ---------- numbers ----------

  lemma {:induction false} PlainIsDecimal(t: string, n: nat)
    requires PlainNumber(t) && DigitsValue(t) == Some(n)
    ensures t == Decimal(n) && (t[0] != '0' ==> n > 0)
    decreases |t|
  {
    var last := t[|t| - 1];
    if |t| == 1 {
      assert t[..0] == [];
      assert t == [last];
    } else {
      var front := t[..|t| - 1];
      var m := DigitsValue(front).value;
      PlainIsDecimal(front, m);
      assert n == m * 10 + DigitValue(last);
      assert n / 10 == m && n % 10 == DigitValue(last);
      assert t == front + [last];
    }
  }

  lemma {:induction false} DecimalIsPlain(n: nat)
    ensures PlainNumber(Decimal(n)) && (Decimal(n)[0] == '0' ==> n == 0)
  {
    DecimalDigits(n);
    if n >= 10 {
      DecimalIsPlain(n / 10);
      assert Decimal(n)[0] == Decimal(n / 10)[0];
    }
  }

  lemma ClockIff(t: string, n: U16)
    requires ParseU16(t) == Ok(n)
    ensures t == Decimal(n) <==> PlainNumber(t)
  {
    DecimalIsPlain(n);
    if PlainNumber(t) { PlainIsDecimal(t, n); }
  }

  // ---------- ranks ----------

  lemma {:induction false} PrintedRunsMerge(nibs: seq<U8>, empty: nat)
    requires |nibs| + empty <= 8 && forall i | 0 <= i < |nibs| :: nibs[i] <= 12
    ensures RunsMerged(PrintRank(nibs, empty))
    decreases |nibs|
  {
    if nibs != [] {
      if nibs[0] == 0 {
        PrintedRunsMerge(nibs[1..], empty + 1);
      } else {
        PrintedRunsMerge(nibs[1..], 0);
        PieceRoundTrip(nibs[0]);
      }
    }
  }

  lemma {:induction false} PrintRun(d: nat, nibs: seq<U8>, empty: nat)
    requires d + |nibs| + empty <= 8 && forall i | 0 <= i < |nibs| :: nibs[i] <= 12
    ensures forall i | 0 <= i < |Zeros(d) + nibs| :: (Zeros(d) + nibs)[i] <= 12
    ensures PrintRank(Zeros(d) + nibs, empty) == PrintRank(nibs, empty + d)
    decreases d
  {
    ZerosAreZero(d);
    if d == 0 {
      assert Zeros(0) + nibs == nibs;
    } else {
      assert Zeros(d) + nibs == [0] + (Zeros(d - 1) + nibs);
      assert (Zeros(d) + nibs)[1..] == Zeros(d - 1) + nibs;
      PrintRun(d - 1, nibs, empty + 1);
    }
  }

  /** The squares a rank text adds to acc. */
  lemma {:induction false} ParsedTail(t: string, acc: seq<U8>) returns (nibs: seq<U8>)
    requires ParseRank(t, acc).Ok?
    ensures ParseRank(t, acc) == Ok(acc + nibs) && forall i | 0 <= i < |nibs| :: nibs[i] <= 12
    decreases |t|
  {
    hide Zeros;
    if t == [] {
      nibs := [];
      assert acc + [] == acc;
    } else if IsDigit(t[0]) {
      var d := DigitValue(t[0]);
      var rest := ParsedTail(t[1..], acc + Zeros(d));
      nibs := Zeros(d) + rest;
      ZerosAreZero(d);
      assert acc + Zeros(d) + rest == acc + nibs;
    } else {
      var n := PieceToNibble(t[0]).value;
      PieceNibble(t[0]);
      var rest := ParsedTail(t[1..], acc + [n]);
      nibs := [n] + rest;
      assert acc + [n] + rest == acc + nibs;
    }
  }

  lemma PieceBack(c: char)
    requires PieceToNibble(c).Ok?
    ensures NibbleToPiece(PieceToNibble(c).value) == Ok(c)
  {
  }

  /** A rank text with merged runs is what printing its squares gives. */
  lemma {:induction false} MergedPrints(t: string, acc: seq<U8>) returns (nibs: seq<U8>)
    requires ParseRank(t, acc).Ok? && RunsMerged(t) && forall i | 0 <= i < |acc| :: acc[i] <= 12
    ensures ParseRank(t, acc) == Ok(acc + nibs) && |acc| + |nibs| == 8 && forall i | 0 <= i < |nibs| :: nibs[i] <= 12
    ensures PrintRank(nibs, 0) == t
    ensures t != [] && !IsDigit(t[0]) ==> nibs != [] && nibs[0] != 0
    ensures t == [] ==> nibs == []
    decreases |t|, 1
  {
    ParsedRank(t, acc);
    if t == [] {
      nibs := [];
      assert acc + [] == acc;
    } else if IsDigit(t[0]) {
      nibs := MergedDigit(t, acc);
    } else {
      nibs := MergedPiece(t, acc);
    }
  }

  lemma MergedDigit(t: string, acc: seq<U8>) returns (nibs: seq<U8>)
    requires ParseRank(t, acc).Ok? && RunsMerged(t) && forall i | 0 <= i < |acc| :: acc[i] <= 12
    requires t != [] && IsDigit(t[0])
    ensures ParseRank(t, acc) == Ok(acc + nibs) && |acc| + |nibs| == 8 && forall i | 0 <= i < |nibs| :: nibs[i] <= 12
    ensures PrintRank(nibs, 0) == t
    decreases |t|, 0
  {
    var d, tail := DigitValue(t[0]), t[1..];
    ZerosAreZero(d);
    assert tail != [] ==> !IsDigit(tail[0]);
    var rest := MergedPrints(tail, acc + Zeros(d));
    nibs := Zeros(d) + rest;
    assert acc + Zeros(d) + rest == acc + nibs;
    PrintRun(d, rest, 0);
    DigitThenRest(t, rest, d);
  }

  lemma MergedPiece(t: string, acc: seq<U8>) returns (nibs: seq<U8>)
    requires ParseRank(t, acc).Ok? && RunsMerged(t) && forall i | 0 <= i < |acc| :: acc[i] <= 12
    requires t != [] && !IsDigit(t[0])
    ensures ParseRank(t, acc) == Ok(acc + nibs) && |acc| + |nibs| == 8 && forall i | 0 <= i < |nibs| :: nibs[i] <= 12
    ensures PrintRank(nibs, 0) == t && nibs != [] && nibs[0] != 0
    decreases |t|, 0
  {
    hide RunText, Zeros;
    var n := PieceToNibble(t[0]).value;
    PieceNibble(t[0]);
    PieceBack(t[0]);
    var rest := MergedPrints(t[1..], acc + [n]);
    nibs := [n] + rest;
    assert acc + [n] + rest == acc + nibs;
    PieceThenRest(t, rest, n);
  }

  lemma PieceThenRest(t: string, rest: seq<U8>, n: U8)
    requires t != [] && 1 <= n <= 12 && NibbleToPiece(n) == Ok(t[0]) && |rest| < 8
    requires (forall i | 0 <= i < |rest| :: rest[i] <= 12) && PrintRank(rest, 0) == t[1..]
    ensures forall i | 0 <= i < |[n] + rest| :: ([n] + rest)[i] <= 12
    ensures PrintRank([n] + rest, 0) == t
  {
    assert ([n] + rest)[1..] == rest;
    assert t == RunText(0) + [t[0]] + t[1..];
  }

  lemma DigitThenRest(t: string, rest: seq<U8>, d: nat)
    requires t != [] && IsDigit(t[0]) && d == DigitValue(t[0]) && d > 0 && d + |rest| <= 8
    requires forall i | 0 <= i < |rest| :: rest[i] <= 12
    requires PrintRank(rest, 0) == t[1..] && (rest != [] ==> rest[0] != 0)
    ensures PrintRank(rest, d) == t
  {
    assert t == [t[0]] + t[1..] && DigitChar(d) == t[0];
    if rest != [] {
      var tail := [NibbleToPiece(rest[0]).value] + PrintRank(rest[1..], 0);
      assert t[1..] == RunText(0) + [NibbleToPiece(rest[0]).value] + PrintRank(rest[1..], 0) == tail;
    }
  }

  lemma RankIff(t: string, r: Rank)
    requires ParseRank(t, []) == Ok(r) && Printable(r)
    ensures t == PrintRank(r, 0) <==> RunsMerged(t)
  {
    PrintedRunsMerge(r, 0);
    if RunsMerged(t) {
      var nibs := MergedPrints(t, []);
      assert [] + nibs == nibs;
    }
  }

  // ---------- the board ----------

  function JoinSlash(ts: seq<string>): string
    requires ts != []
  {
    if |ts| == 1 then ts[0] else ts[0] + "/" + JoinSlash(ts[1..])
  }

  lemma {:induction false} JoinSplit(t: string)
    ensures JoinSlash(SplitSlash(t)) == t
  {
    if t != [] {
      var rest := SplitSlash(t[1..]);
      JoinSplit(t[1..]);
      assert t == [t[0]] + t[1..];
      if t[0] == '/' {
        assert ([[]] + rest)[1..] == rest;
        assert [] + "/" + t[1..] == t;
      } else {
        var r := [[t[0]] + rest[0]] + rest[1..];
        assert r[1..] == rest[1..];
        if |rest| > 1 {
          assert [t[0]] + rest[0] + "/" + JoinSlash(rest[1..]) == [t[0]] + (rest[0] + "/" + JoinSlash(rest[1..]));
        }
      }
    }
  }

  /** Each text is the printed form of its rank. */
  ghost predicate PrintsAs(ts: seq<string>, rs: seq<Rank>) {
    |ts| == |rs| && AllPrintable(rs) && forall i | 0 <= i < |rs| :: ts[i] == PrintRank(rs[i], 0)
  }

  lemma {:induction false} PrintBoardJoins(ts: seq<string>, rs: seq<Rank>)
    requires rs != [] && PrintsAs(ts, rs)
    ensures PrintBoard(rs) == JoinSlash(ts)
  {
    if |rs| > 1 { PrintBoardJoins(ts[1..], rs[1..]); }
  }

  lemma {:induction false} SplitPrinted(rs: seq<Rank>)
    requires rs != [] && AllPrintable(rs)
    ensures PrintsAs(SplitSlash(PrintBoard(rs)), rs)
  {
    RankText(rs[0]);
    if |rs| == 1 {
      SplitSlashCons(PrintRank(rs[0], 0), "");
    } else {
      SplitPrinted(rs[1..]);
      SplitSlashCons(PrintRank(rs[0], 0), PrintBoard(rs[1..]));
    }
  }

  lemma {:induction false} ParsedEach(ts: seq<string>, rs: seq<Rank>)
    requires ParseRanks(ts) == Ok(rs)
    ensures |rs| == |ts| && AllPrintable(rs) && forall i | 0 <= i < |ts| :: ParseRank(ts[i], []) == Ok(rs[i])
  {
    if ts != [] {
      ParsedRank(ts[0], []);
      ParsedEach(ts[1..], rs[1..]);
    }
  }

  lemma BoardIff(t: string, rs: seq<Rank>)
    requires ParseRanks(SplitSlash(t)) == Ok(rs)
    ensures rs != [] && AllPrintable(rs)
    ensures t == PrintBoard(rs) <==> forall i | 0 <= i < |SplitSlash(t)| :: RunsMerged(SplitSlash(t)[i])
  {
    var ts := SplitSlash(t);
    ParsedEach(ts, rs);
    forall i | 0 <= i < |ts| ensures ts[i] == PrintRank(rs[i], 0) <==> RunsMerged(ts[i]) {
      RankIff(ts[i], rs[i]);
    }
    if t == PrintBoard(rs) {
      SplitPrinted(rs);
    } else if forall i | 0 <= i < |ts| :: RunsMerged(ts[i]) {
      PrintBoardJoins(ts, rs);
      JoinSplit(t);
    }
  }

  // ---------- castling ----------

  lemma OrBitParity(flags: U8, bit: U8)
    requires flags < 32 && bit in {2, 4, 8, 16}
    ensures OrBit(flags, bit) % 2 == flags % 2
  {
    FlagBits(flags);
  }

  lemma {:induction false} RightsKnown(t: string, flags: U8)
    requires flags < 32 && CastleFold(t, flags).Ok?
    ensures forall i | 0 <= i < |t| :: RightIndex(t[i]) >= 1
    ensures CastleFold(t, flags).value % 2 == flags % 2
    decreases |t|
  {
    if t != [] {
      var bit: U8 := if t[0] == 'K' then 2 else if t[0] == 'Q' then 4 else if t[0] == 'k' then 8 else 16;
      OrBitParity(flags, bit);
      RightsKnown(t[1..], OrBit(flags, bit));
      assert forall i | 0 < i < |t| :: t[i] == t[1..][i - 1];
    }
  }

  function MarkAt(i: nat): char {
    if i == 1 then 'K' else if i == 2 then 'Q' else if i == 3 then 'k' else 'q'
  }

  /** The marks of t with index above lo, in order. */
  function MarksAbove(t: string, lo: nat): string
    requires lo <= 4
    decreases 4 - lo
  {
    if lo == 4 then "" else Mark(MarkAt(lo + 1) in t, MarkAt(lo + 1)) + MarksAbove(t, lo + 1)
  }

  lemma {:induction false} MarksOfTail(t: string, lo: nat)
    requires lo <= 4 && t != [] && RightIndex(t[0]) <= lo
    ensures MarksAbove(t, lo) == MarksAbove(t[1..], lo)
    decreases 4 - lo
  {
    if lo < 4 {
      MarksOfTail(t, lo + 1);
      assert forall c :: c in t <==> c == t[0] || c in t[1..];
      assert RightIndex(MarkAt(lo + 1)) == lo + 1;
    }
  }

  lemma IndexMark(c: char, i: nat)
    requires 1 <= i <= 4
    ensures RightIndex(c) == i <==> c == MarkAt(i)
  {
  }

  lemma MarksTake(t: string, lo: nat)
    requires lo < 4 && t != [] && t[0] == MarkAt(lo + 1) && t[1..] == MarksAbove(t[1..], lo + 1)
    ensures t == MarksAbove(t, lo)
  {
    IndexMark(t[0], lo + 1);
    MarksOfTail(t, lo + 1);
    assert t == [t[0]] + t[1..] && t[0] in t;
  }

  lemma MarksSkip(t: string, lo: nat)
    requires lo < 4 && MarkAt(lo + 1) !in t && t == MarksAbove(t, lo + 1)
    ensures t == MarksAbove(t, lo)
  {
    assert "" + MarksAbove(t, lo + 1) == MarksAbove(t, lo + 1);
  }

  /** Strictly ascending marks, all above lo. */
  ghost predicate Ordered(t: string, lo: nat) {
    && (forall i | 0 <= i < |t| :: RightIndex(t[i]) > lo)
    && forall i, j | 0 <= i < j < |t| :: RightIndex(t[i]) < RightIndex(t[j])
  }

  lemma OrderedTail(t: string, lo: nat)
    requires t != [] && Ordered(t, lo) && RightIndex(t[0]) == lo + 1
    ensures Ordered(t[1..], lo + 1)
  {
  }

  lemma OrderedSkip(t: string, lo: nat)
    requires lo < 4 && Ordered(t, lo) && (t != [] ==> RightIndex(t[0]) != lo + 1)
    ensures Ordered(t, lo + 1) && MarkAt(lo + 1) !in t
  {
    forall i | 0 <= i < |t| ensures t[i] != MarkAt(lo + 1) {
      IndexMark(t[i], lo + 1);
    }
  }

  lemma {:induction false} OrderedIsMarks(t: string, lo: nat)
    requires lo <= 4 && Ordered(t, lo)
    ensures t == MarksAbove(t, lo)
    decreases 4 - lo
  {
    if lo == 4 {
      if t != [] { AtMostFour(t[0]); }
    } else if t != [] && RightIndex(t[0]) == lo + 1 {
      IndexMark(t[0], lo + 1);
      OrderedTail(t, lo);
      OrderedIsMarks(t[1..], lo + 1);
      MarksTake(t, lo);
    } else {
      OrderedSkip(t, lo);
      OrderedIsMarks(t, lo + 1);
      MarksSkip(t, lo);
    }
  }

  lemma AtMostFour(c: char)
    ensures RightIndex(c) <= 4
  {
  }

  lemma AllMarks(t: string)
    ensures MarksAbove(t, 0) == Mark('K' in t, 'K') + Mark('Q' in t, 'Q') + Mark('k' in t, 'k') + Mark('q' in t, 'q')
  {
    var a, b, c, d := Mark('K' in t, 'K'), Mark('Q' in t, 'Q'), Mark('k' in t, 'k'), Mark('q' in t, 'q');
    hide Mark;
    assert MarksAbove(t, 4) == "";
    assert MarksAbove(t, 3) == d + "";
    assert MarksAbove(t, 2) == c + (d + "");
    assert MarksAbove(t, 1) == b + (c + (d + ""));
    assert a + (b + (c + (d + ""))) == a + b + c + d;
  }

  lemma OrderedRights(t: string)
    requires t != "" && Ordered(t, 0)
    ensures t == RightsText('K' in t, 'Q' in t, 'k' in t, 'q' in t)
  {
    OrderedIsMarks(t, 0);
    AllMarks(t);
  }

  lemma WeightBits(side: U8, k: bool, q: bool, bk: bool, bq: bool, f: U8)
    requires side <= 1 && f == side + Weight(k, 2) + Weight(q, 4) + Weight(bk, 8) + Weight(bq, 16)
    ensures (f / 2 % 2 == 1) == k && (f / 4 % 2 == 1) == q && (f / 8 % 2 == 1) == bk && (f / 16 % 2 == 1) == bq
  {
  }

  lemma RightsTextOrdered(k: bool, q: bool, bk: bool, bq: bool)
    ensures RightsInOrder(RightsText(k, q, bk, bq))
  {
    TwoMarksOrdered(k, 'K', q, 'Q');
    TwoMarksOrdered(bk, 'k', bq, 'q');
    hide Mark;
    var whites, blacks := Mark(k, 'K') + Mark(q, 'Q'), Mark(bk, 'k') + Mark(bq, 'q');
    ConcatAssoc(whites, Mark(bk, 'k'), Mark(bq, 'q'));
    WhitesFirst(whites, blacks);
  }

  lemma WhitesFirst(whites: string, blacks: string)
    requires forall i | 0 <= i < |whites| :: whites[i] == 'K' || whites[i] == 'Q'
    requires forall i, j | 0 <= i < j < |whites| :: whites[i] == 'K' && whites[j] == 'Q'
    requires forall i | 0 <= i < |blacks| :: blacks[i] == 'k' || blacks[i] == 'q'
    requires forall i, j | 0 <= i < j < |blacks| :: blacks[i] == 'k' && blacks[j] == 'q'
    ensures RightsInOrder(whites + blacks)
  {
  }

  lemma TwoMarksOrdered(a: bool, x: char, b: bool, y: char)
    requires RightIndex(x) < RightIndex(y)
    ensures var t := Mark(a, x) + Mark(b, y);
      (forall i | 0 <= i < |t| :: t[i] == x || t[i] == y) && forall i, j | 0 <= i < j < |t| :: t[i] == x && t[j] == y
  {
  }

  lemma OrderedComesBack(t: string, side: U8, flags: U8)
    requires t != "" && t != "-" && side <= 1 && CastleFold(t, side) == Ok(flags) && Ordered(t, 0)
    ensures t == CastleText(flags)
  {
    OrderedRights(t);
    var k, q, bk, bq := 'K' in t, 'Q' in t, 'k' in t, 'q' in t;
    RightsRoundTrip(side, k, q, bk, bq);
    WeightBits(side, k, q, bk, bq, flags);
  }

  lemma RightsIff(t: string, side: U8, flags: U8)
    requires t != "" && side <= 1 && ParseCastling(t, side) == Ok(flags)
    ensures t == CastleText(flags) <==> RightsInOrder(t)
    ensures flags % 2 == side
  {
    RightsTextOrdered(flags / 2 % 2 == 1, flags / 4 % 2 == 1, flags / 8 % 2 == 1, flags / 16 % 2 == 1);
    if t == "-" {
      WeightBits(side, false, false, false, false, flags);
    } else {
      RightsKnown(t, side);
      if RightsInOrder(t) { OrderedComesBack(t, side, flags); }
    }
  }

  // ---------- the whole text ----------

  lemma EpIff(t: string, ep: U8, flags: U8)
    requires ParseEp(t) == Ok(ep)
    ensures ep <= 7 || ep == NO_EP
    ensures t == EpText(ep, flags) <==> t == "-" || (|t| == 2 && t[1] == if flags % 2 == 1 then '3' else '6')
  {
    if t != "-" {
      assert t == [t[0], t[1]];
      assert (ep + 'a' as int) as char == t[0];
    }
  }

  lemma {:induction false} NoEmptyField(s: string)
    ensures forall i | 0 <= i < |Fields(s)| :: Fields(s)[i] != ""
    decreases |s|
  {
    if s != [] {
      if IsSpace(s[0]) { NoEmptyField(s[1..]); } else { NoEmptyField(s[WordLength(s)..]); }
    }
  }

  /** The six fields the decoder writes for what the encoder read. */
  lemma SentFields(fen: string) returns (rs: seq<Rank>, flags: U8, ep: U8, half: U16, full: U16)
    requires Encode(fen).Ok?
    ensures var p := Fields(fen);
      && |p| == 6 && ParseRanks(SplitSlash(p[0])) == Ok(rs) && |rs| == 8 && AllPrintable(rs)
      && ParseSide(p[1]).Ok? && ParseCastling(p[2], ParseSide(p[1]).value) == Ok(flags) && flags < 32
      && ParseEp(p[3]) == Ok(ep) && (ep <= 7 || ep == NO_EP) && ParseU16(p[4]) == Ok(half) && ParseU16(p[5]) == Ok(full)
    ensures Normalise(fen) == Render(rs, flags, ep, half, full)
  {
    hide PieceToNibble, Printable, Render, UnpackRank, WordLength, Zeros;
    var p := Fields(fen);
    rs := ParseRanks(SplitSlash(p[0])).value;
    flags, ep := ParseCastling(p[2], ParseSide(p[1]).value).value, ParseEp(p[3]).value;
    half, full := ParseU16(p[4]).value, ParseU16(p[5]).value;
    EncodedDecodes(fen);
    ParsedRanksPrintable(SplitSlash(p[0]));
    UnpackPackBoard(rs);
    assert Encode(fen).value[..32] == PackBoard(rs);
  }

  lemma RenderFields(rs: seq<Rank>, flags: U8, ep: U8, half: U16, full: U16)
    requires |rs| == 8 && AllPrintable(rs) && flags < 32 && (ep <= 7 || ep == NO_EP)
    ensures Fields(Render(rs, flags, ep, half, full)) ==
      [PrintBoard(rs), SideText(flags), CastleText(flags), EpText(ep, flags), Decimal(half), Decimal(full)]
  {
    BoardIsWord(rs);
    SideRoundTrip(flags);
    CastleRoundTrip(flags);
    EpRoundTrip(ep, flags);
    ClockRoundTrip(half);
    ClockRoundTrip(full);
    SixFields(PrintBoard(rs), SideText(flags), CastleText(flags), EpText(ep, flags), Decimal(half), Decimal(full));
  }

  /** Field by field, canonical means as the decoder writes it. */
  lemma FieldsIff(p: seq<string>, rs: seq<Rank>, flags: U8, ep: U8, half: U16, full: U16)
    requires |p| == 6 && ParseRanks(SplitSlash(p[0])) == Ok(rs) && p[2] != ""
    requires ParseSide(p[1]).Ok? && ParseCastling(p[2], ParseSide(p[1]).value) == Ok(flags)
    requires ParseEp(p[3]) == Ok(ep) && ParseU16(p[4]) == Ok(half) && ParseU16(p[5]) == Ok(full)
    ensures rs != [] && AllPrintable(rs) && (ep <= 7 || ep == NO_EP) && p[1] == SideText(flags)
    ensures CanonicalFields(p) <==>
      p[0] == PrintBoard(rs) && p[2] == CastleText(flags) && p[3] == EpText(ep, flags) && p[4] == Decimal(half) &&
        p[5] == Decimal(full)
  {
    BoardIff(p[0], rs);
    RightsIff(p[2], ParseSide(p[1]).value, flags);
    EpIff(p[3], ep, flags);
    ClockIff(p[4], half);
    ClockIff(p[5], full);
  }

  /** An accepted text is unchanged by the link exactly when it is canonical. */
  lemma CanonicalIff(fen: string)
    requires Encode(fen).Ok?
    ensures Normalise(fen) == fen <==> Canonical(fen)
  {
    var p := Fields(fen);
    var rs, flags, ep, half, full := SentFields(fen);
    NoEmptyField(fen);
    FieldsIff(p, rs, flags, ep, half, full);
    RenderFields(rs, flags, ep, half, full);
    var printed := [PrintBoard(rs), SideText(flags), CastleText(flags), EpText(ep, flags), Decimal(half),
      Decimal(full)];
    assert Normalise(fen) == Joined(printed);
    if Canonical(fen) { assert p == printed; }
  }
}
