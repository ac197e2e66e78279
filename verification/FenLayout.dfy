/** Where the 38 bytes of mesh-transport/src/fen.rs keep what: the encoding, square by square and bit by bit. */
module FenLayout {
  import opened Common
  import opened Fen

  // ---------- the board ----------

  /** The codes 0 to 12 in order. */
  const CODES := " PNBRQKpnbrqk"

  function Spaces(n: nat): (t: string)
    ensures |t| == n
  {
    seq(n, _ => ' ')
  }

  /** A rank with every digit written out as so many empty squares. */
  function Expanded(text: string): string {
    if text == [] then []
    else (if '1' <= text[0] <= '9' then Spaces(text[0] as int - '0' as int) else [text[0]]) + Expanded(text[1..])
  }

  /** The nibbles are the codes of the characters. */
  ghost predicate Codes(nibs: seq<U8>, text: string) {
    |nibs| == |text| && forall i | 0 <= i < |nibs| :: nibs[i] <= 12 && CODES[nibs[i]] == text[i]
  }

  lemma PieceCode(c: char)
    requires PieceToNibble(c).Ok?
    ensures Codes([PieceToNibble(c).value], [c])
  {
  }

  lemma CodesConcat(a: seq<U8>, s: string, b: seq<U8>, t: string)
    requires Codes(a, s) && Codes(b, t)
    ensures Codes(a + b, s + t)
  {
  }

  lemma EmptyCodes(n: nat)
    ensures Codes(Zeros(n), Spaces(n))
  {
    ZerosAreZero(n);
  }

  lemma ExpandedFirst(text: string)
    requires text != []
    ensures '1' <= text[0] <= '9' ==> Expanded(text) == Spaces(text[0] as int - '0' as int) + Expanded(text[1..])
    ensures !('1' <= text[0] <= '9') ==> Expanded(text) == [text[0]] + Expanded(text[1..])
  {
  }

  lemma {:induction false} RankCodes(text: string, acc: seq<U8>, before: string)
    requires ParseRank(text, acc).Ok? && Codes(acc, before)
    ensures Codes(ParseRank(text, acc).value, before + Expanded(text))
    decreases |text|
  {
    hide Codes, PieceToNibble, Expanded;
    if text == [] {
      assert Expanded(text) == [] by { NothingExpanded(); }
      assert before + [] == before;
    } else if IsDigit(text[0]) {
      var d := DigitValue(text[0]);
      ExpandedFirst(text);
      EmptyCodes(d);
      CodesConcat(acc, before, Zeros(d), Spaces(d));
      RankCodes(text[1..], acc + Zeros(d), before + Spaces(d));
      ConcatAssoc(before, Spaces(d), Expanded(text[1..]));
    } else {
      var n := PieceToNibble(text[0]).value;
      ExpandedFirst(text);
      PieceCode(text[0]);
      CodesConcat(acc, before, [n], [text[0]]);
      RankCodes(text[1..], acc + [n], before + [text[0]]);
      ConcatAssoc(before, [text[0]], Expanded(text[1..]));
    }
  }

  lemma NothingExpanded()
    ensures Expanded([]) == []
  {
  }

  lemma {:induction false} RanksCodes(texts: seq<string>, k: nat)
    requires ParseRanks(texts).Ok? && k < |texts|
    ensures k < |ParseRanks(texts).value| && Codes(ParseRanks(texts).value[k], Expanded(texts[k]))
  {
    if k == 0 {
      RankCodes(texts[0], [], []);
      assert [] + Expanded(texts[0]) == Expanded(texts[0]);
    } else {
      RanksCodes(texts[1..], k - 1);
    }
  }

  /** The nibble of a square, two squares to a byte, the even one low. */
  function NibbleAt(b: Bytes, sq: nat): nat
    requires sq / 2 < |b|
  {
    if sq % 2 == 0 then b[sq / 2] % 16 else b[sq / 2] / 16
  }

  lemma {:induction false} PackedSquare(rs: seq<Rank>, k: nat, file: nat)
    requires k < |rs| && file < 8
    ensures NibbleAt(PackBoard(rs), 8 * (|rs| - 1 - k) + file) == rs[k][file]
  {
    var front, last := PackBoard(rs[1..]), PackRank(rs[0]);
    if k == 0 {
      UnpackOfPack(rs[0]);
      var sq := 8 * (|rs| - 1) + file;
      assert sq / 2 == |front| + file / 2 && sq % 2 == file % 2;
      assert UnpackRank(last)[file] == rs[0][file];
    } else {
      PackedSquare(rs[1..], k - 1, file);
    }
  }

  // ---------- the flags ----------

  function Weighted(b0: nat, b1: nat, b2: nat, b3: nat, b4: nat): nat {
    b0 + 2 * b1 + 4 * b2 + 8 * b3 + 16 * b4
  }

  lemma WeightedBits(b0: nat, b1: nat, b2: nat, b3: nat, b4: nat)
    requires b0 <= 1 && b1 <= 1 && b2 <= 1 && b3 <= 1 && b4 <= 1
    ensures var f := Weighted(b0, b1, b2, b3, b4);
      f < 32 && f % 2 == b0 && f / 2 % 2 == b1 && f / 4 % 2 == b2 && f / 8 % 2 == b3 && f / 16 % 2 == b4
  {
  }

  /** Setting one bit leaves the others. */
  lemma BitsAfterOr(flags: U8, bit: U8)
    requires flags < 32 && bit in {2, 4, 8, 16}
    ensures var r := OrBit(flags, bit);
      && r % 2 == flags % 2
      && r / 2 % 2 == (if bit == 2 then 1 else flags / 2 % 2) && r / 4 % 2 == (if bit == 4 then 1 else flags / 4 % 2)
      && r / 8 % 2 == (if bit == 8 then 1 else flags / 8 % 2)
      && r / 16 % 2 == if bit == 16 then 1 else flags / 16 % 2
  {
    FlagBits(flags);
    var b0, b1, b2, b3, b4 := flags % 2, flags / 2 % 2, flags / 4 % 2, flags / 8 % 2, flags / 16 % 2;
    WeightedBits(b0, if bit == 2 then 1 else b1, if bit == 4 then 1 else b2, if bit == 8 then 1 else b3,
      if bit == 16 then 1 else b4);
  }

  /** The bit of a right is set when it was, or the right is listed. */
  lemma {:induction false} RightBits(text: string, flags: U8)
    requires flags < 32 && CastleFold(text, flags).Ok?
    ensures var r := CastleFold(text, flags).value;
      && r % 2 == flags % 2
      && (r / 2 % 2 == 1 <==> flags / 2 % 2 == 1 || 'K' in text)
      && (r / 4 % 2 == 1 <==> flags / 4 % 2 == 1 || 'Q' in text)
      && (r / 8 % 2 == 1 <==> flags / 8 % 2 == 1 || 'k' in text)
      && (r / 16 % 2 == 1 <==> flags / 16 % 2 == 1 || 'q' in text)
    decreases |text|
  {
    hide OrBit;
    if text != [] {
      var bit := if text[0] == 'K' then 2 else if text[0] == 'Q' then 4 else if text[0] == 'k' then 8 else 16;
      BitsAfterOr(flags, bit);
      RightBits(text[1..], OrBit(flags, bit));
      assert text == [text[0]] + text[1..];
    }
  }

  // ---------- the clocks ----------

  /** Decimal digits read from the left. */
  function Number(text: string, before: nat): nat
    requires forall i | 0 <= i < |text| :: IsDigit(text[i])
  {
    if text == [] then before
    else
      assert IsDigit(text[0]);
      Number(text[1..], 10 * before + (text[0] as int - '0' as int))
  }

  lemma {:induction false} NumberSnoc(text: string, c: char, before: nat)
    requires IsDigit(c) && forall i | 0 <= i < |text| :: IsDigit(text[i])
    ensures Number(text + [c], before) == 10 * Number(text, before) + (c as int - '0' as int)
  {
    if text == [] {
      assert (text + [c])[1..] == [];
    } else {
      assert (text + [c])[1..] == text[1..] + [c];
      NumberSnoc(text[1..], c, 10 * before + (text[0] as int - '0' as int));
    }
  }

  lemma {:induction false} DigitsAreNumber(text: string)
    requires DigitsValue(text).Some?
    ensures (forall i | 0 <= i < |text| :: IsDigit(text[i])) && DigitsValue(text).value == Number(text, 0)
    decreases |text|
  {
    if text != [] {
      var front, c := text[..|text| - 1], text[|text| - 1];
      DigitsAreNumber(front);
      assert text == front + [c];
      NumberSnoc(front, c, 0);
    }
  }

  function Unsigned(text: string): string {
    if text != [] && text[0] == '+' then text[1..] else text
  }

  /** Two bytes, the low one first, hold the number a clock field spells. */
  ghost predicate HoldsClock(lo: U8, hi: U8, text: string) {
    var t := Unsigned(text);
    t != [] && (forall i | 0 <= i < |t| :: IsDigit(t[i])) && lo + 256 * hi == Number(t, 0)
  }

  lemma ClockHeld(text: string)
    requires ParseU16(text).Ok?
    ensures var b := Le16(ParseU16(text).value); HoldsClock(b[0], b[1], text)
  {
    DigitsAreNumber(Unsigned(text));
  }

  // ---------- the whole encoding ----------

  /**
    What every accepted text is encoded to: thirty-two bytes of squares from the first rank up, a byte with
    the side to move and the four rights, the en-passant file, and the two clocks.
   */
  lemma EncodedLayout(fen: string, rank: nat, file: nat)
    requires Encode(fen).Ok? && rank < 8 && file < 8
    ensures var f, b := Fields(fen), Encode(fen).value;
      && |f| == 6 && |b| == 38 && |SplitSlash(f[0])| == 8
      && var line := Expanded(SplitSlash(f[0])[7 - rank]);
      && |line| == 8 && NibbleAt(b, 8 * rank + file) <= 12 && CODES[NibbleAt(b, 8 * rank + file)] == line[file]
      && b[32] < 32 && (b[32] % 2 == 1 <==> f[1] == "b") && (b[32] % 2 == 0 <==> f[1] == "w")
      && (b[32] / 2 % 2 == 1 <==> 'K' in f[2]) && (b[32] / 4 % 2 == 1 <==> 'Q' in f[2])
      && (b[32] / 8 % 2 == 1 <==> 'k' in f[2]) && (b[32] / 16 % 2 == 1 <==> 'q' in f[2])
      && (if f[3] == "-" then b[33] == 0xFF else |f[3]| == 2 && b[33] == f[3][0] as int - 'a' as int <= 7)
      && HoldsClock(b[34], b[35], f[4]) && HoldsClock(b[36], b[37], f[5])
  {
    hide ParseRank, PackBoard, HoldsClock, Expanded, ParseU16, CastleFold, SplitSlash, Fields, Number;
    var f, b := Fields(fen), Encode(fen).value;
    var texts := SplitSlash(f[0]);
    var rs := ParseRanks(texts).value;
    ParsedRanksPrintable(texts);
    RanksCodes(texts, 7 - rank);
    PackedSquare(rs, 7 - rank, file);
    var board := PackBoard(rs);
    assert b[..32] == board;
    assert NibbleAt(b, 8 * rank + file) == NibbleAt(board, 8 * rank + file);
    var side := ParseSide(f[1]).value;
    if f[2] != "-" { RightBits(f[2], side); }
    ClockHeld(f[4]);
    ClockHeld(f[5]);
    ClockBytes(b, board, Le16(ParseU16(f[4]).value), Le16(ParseU16(f[5]).value));
  }

  lemma ClockBytes(b: Bytes, board: Bytes, half: Bytes, full: Bytes)
    requires |board| == 32 && |half| == |full| == 2 && |b| == 38 && b == board + b[32..34] + half + full
    ensures b[34] == half[0] && b[35] == half[1] && b[36] == full[0] && b[37] == full[1]
  {
  }

  /** The decoder names the side to move, and puts an en-passant file on the rank that side can capture on. */
  lemma DecodedSideAndFile(b: Bytes)
    requires Decode(b).Ok?
    ensures var f := Fields(Decode(b).value);
      && |f| == 6 && f[1] == (if b[32] % 2 == 1 then "b" else "w")
      && f[3] == if b[33] == 0xFF then "-" else [(b[33] + 'a' as int) as char, if b[32] % 2 == 1 then '3' else '6']
  {
    hide PrintBoard, CastleText, Decimal, ParseSide, ParseEp, ParseCastling, ParseU16, Fields, UnpackBoard, IsWord;
    var rs := UnpackBoard(b[..32]);
    FirstBadMeans(rs);
    hide FirstBad, AllPrintable;
    BoardIsWord(rs);
    SideRoundTrip(b[32]);
    CastleRoundTrip(b[32]);
    EpRoundTrip(b[33], b[32]);
    var half, full := FromLe16(b[34], b[35]), FromLe16(b[36], b[37]);
    ClockRoundTrip(half);
    ClockRoundTrip(full);
    SixFields(PrintBoard(rs), SideText(b[32]), CastleText(b[32]), EpText(b[33], b[32]), Decimal(half), Decimal(full));
  }

  // ---------- what is accepted ----------

  /** A square of the stored board, read back. */
  lemma SquareOf(b: Bytes, sq: nat)
    requires |b| == 32 && sq < 64
    ensures UnpackBoard(b)[7 - sq / 8][sq % 8] == NibbleAt(b, sq)
  {
    PackUnpackBoard(b);
    PackedSquare(UnpackBoard(b), 7 - sq / 8, sq % 8);
  }

  lemma PrintableSquares(b: Bytes)
    requires |b| == 32
    ensures AllPrintable(UnpackBoard(b)) <==> forall sq | 0 <= sq < 64 :: NibbleAt(b, sq) <= 12
  {
    hide UnpackBoard, NibbleAt;
    var rs := UnpackBoard(b);
    forall sq: nat | sq < 64 ensures rs[7 - sq / 8][sq % 8] == NibbleAt(b, sq) {
      SquareOf(b, sq);
    }
    if forall sq | 0 <= sq < 64 :: NibbleAt(b, sq) <= 12 {
      forall k, file | 0 <= k < 8 && 0 <= file < 8 ensures rs[k][file] <= 12 {
        var sq := 8 * (7 - k) + file;
        assert sq / 8 == 7 - k && sq % 8 == file;
        assert NibbleAt(b, sq) <= 12;
      }
    } else {
      var sq :| 0 <= sq < 64 && NibbleAt(b, sq) > 12;
      assert rs[7 - sq / 8][sq % 8] > 12;
      assert !Printable(rs[7 - sq / 8]);
    }
  }

  /** Bytes are decoded exactly when every square has a code and the flags and the file are in range. */
  lemma BytesAccepted(b: Bytes)
    ensures Decode(b).Ok? <==>
      && |b| == 38 && b[32] < 32 && (b[33] == 0xFF || b[33] < 8)
      && forall sq | 0 <= sq < 64 :: NibbleAt(b, sq) <= 12
  {
    hide UnpackBoard;
    if |b| == 38 {
      FirstBadMeans(UnpackBoard(b[..32]));
      PrintableSquares(b[..32]);
      assert forall sq: nat | sq < 64 :: NibbleAt(b, sq) == NibbleAt(b[..32], sq);
    }
  }

  predicate RankChar(c: char) {
    '1' <= c <= '8' || c in "PNBRQKpnbrqk"
  }

  /** Pieces and runs of one to eight empty squares that fill a rank. */
  predicate RankText(text: string) {
    (forall i | 0 <= i < |text| :: RankChar(text[i])) && |Expanded(text)| == 8
  }

  lemma PieceChars(c: char)
    ensures PieceToNibble(c).Ok? <==> c in "PNBRQKpnbrqk"
    ensures PieceToNibble(c).Ok? ==> !IsDigit(c)
  {
  }

  lemma FirstChar(text: string)
    requires text != []
    ensures (forall i | 0 <= i < |text| :: RankChar(text[i])) <==>
      RankChar(text[0]) && forall i | 0 <= i < |text[1..]| :: RankChar(text[1..][i])
  {
    assert text == [text[0]] + text[1..];
  }

  lemma {:induction false} RankAccepted(text: string, acc: seq<U8>)
    ensures ParseRank(text, acc).Ok? <==>
      (forall i | 0 <= i < |text| :: RankChar(text[i])) && |acc| + |Expanded(text)| == 8
    decreases |text|
  {
    hide RankChar, PieceToNibble, Expanded;
    if text == [] {
      NothingExpanded();
    } else {
      var c := text[0];
      FirstChar(text);
      ExpandedFirst(text);
      RankCharMeans(c);
      if IsDigit(c) {
        RankAccepted(text[1..], acc + Zeros(DigitValue(c)));
      } else if PieceToNibble(c).Ok? {
        RankAccepted(text[1..], acc + [PieceToNibble(c).value]);
      }
    }
  }

  lemma RankCharMeans(c: char)
    ensures RankChar(c) <==> '1' <= c <= '8' || PieceToNibble(c).Ok?
    ensures PieceToNibble(c).Ok? ==> !IsDigit(c)
  {
    PieceChars(c);
  }

  lemma {:induction false} RanksAccepted(texts: seq<string>)
    ensures ParseRanks(texts).Ok? <==> forall i | 0 <= i < |texts| :: RankText(texts[i])
  {
    hide RankText;
    if texts != [] {
      RankTextAccepted(texts[0]);
      RanksAccepted(texts[1..]);
      assert texts == [texts[0]] + texts[1..];
    }
  }

  lemma RankTextAccepted(text: string)
    ensures RankText(text) <==> ParseRank(text, []).Ok?
  {
    RankAccepted(text, []);
  }

  lemma {:induction false} RightsAccepted(text: string, flags: U8)
    requires flags < 32
    ensures CastleFold(text, flags).Ok? <==> forall i | 0 <= i < |text| :: text[i] in "KQkq"
    decreases |text|
  {
    hide OrBit;
    if text != [] {
      assert text == [text[0]] + text[1..];
      if text[0] in "KQkq" {
        var bit := if text[0] == 'K' then 2 else if text[0] == 'Q' then 4 else if text[0] == 'k' then 8 else 16;
        RightsAccepted(text[1..], OrBit(flags, bit));
      }
    }
  }

  /** An optional plus sign and digits of a number below 65536. */
  ghost predicate ClockText(text: string) {
    var t := Unsigned(text);
    t != [] && (forall i | 0 <= i < |t| :: IsDigit(t[i])) && Number(t, 0) <= 65535
  }

  lemma {:induction false} DigitsAccepted(text: string)
    ensures DigitsValue(text).Some? <==> forall i | 0 <= i < |text| :: IsDigit(text[i])
    decreases |text|
  {
    if text != [] {
      DigitsAccepted(text[..|text| - 1]);
      assert text == text[..|text| - 1] + [text[|text| - 1]];
    }
  }

  lemma ClockAccepted(text: string)
    ensures ParseU16(text).Ok? <==> ClockText(text)
  {
    var t := Unsigned(text);
    DigitsAccepted(t);
    if DigitsValue(t).Some? { DigitsAreNumber(t); }
  }

  /** A text is encoded exactly when its six fields are well formed, each on its own. */
  lemma TextAccepted(fen: string)
    ensures Encode(fen).Ok? <==> var f := Fields(fen);
      && |f| == 6
      && |SplitSlash(f[0])| == 8 && (forall i | 0 <= i < 8 :: RankText(SplitSlash(f[0])[i]))
      && f[1] in ["w", "b"]
      && (f[2] == "-" || forall i | 0 <= i < |f[2]| :: f[2][i] in "KQkq")
      && (f[3] == "-" || (|f[3]| == 2 && 'a' <= f[3][0] <= 'h' && '1' <= f[3][1] <= '8'))
      && ClockText(f[4]) && ClockText(f[5])
  {
    hide RankText, CastleFold, ClockText, ParseU16, ParseRanks, SplitSlash, Fields;
    var f := Fields(fen);
    if |f| == 6 {
      RanksAccepted(SplitSlash(f[0]));
      if ParseSide(f[1]).Ok? { RightsAccepted(f[2], ParseSide(f[1]).value); }
      ClockAccepted(f[4]);
      ClockAccepted(f[5]);
    }
  }
}
