/** The binary FEN codec of mesh-transport/src/fen.rs (FEN is section 16.1 of the PGN specification). */
module Fen {
  import opened Common

  const COMPRESSED_FEN_LEN := 38
  const NO_EP: U8 := 0xFF

  datatype FenError =
    | BadFieldCount | BadRank | BadPiece(c: char) | BadSide | BadCastling | BadEnPassant
    | BadClock | BadLength(len: nat) | BadNibble(n: U8) | BadFlags

  // ---------- characters ----------

  function PieceToNibble(c: char): Result<U8, FenError> {
    match c
    case 'P' => Ok(1)
    case 'N' => Ok(2)
    case 'B' => Ok(3)
    case 'R' => Ok(4)
    case 'Q' => Ok(5)
    case 'K' => Ok(6)
    case 'p' => Ok(7)
    case 'n' => Ok(8)
    case 'b' => Ok(9)
    case 'r' => Ok(10)
    case 'q' => Ok(11)
    case 'k' => Ok(12)
    case _ => Err(BadPiece(c))
  }

  function NibbleToPiece(n: U8): Result<char, FenError> {
    match n
    case 0 => Ok(' ')
    case 1 => Ok('P')
    case 2 => Ok('N')
    case 3 => Ok('B')
    case 4 => Ok('R')
    case 5 => Ok('Q')
    case 6 => Ok('K')
    case 7 => Ok('p')
    case 8 => Ok('n')
    case 9 => Ok('b')
    case 10 => Ok('r')
    case 11 => Ok('q')
    case 12 => Ok('k')
    case _ => Err(BadNibble(n))
  }

  predicate IsDigit(c: char) {
    '0' <= c <= '9'
  }

  /** `to_digit(10)` on a digit. */
  function DigitValue(c: char): (d: nat)
    requires IsDigit(c)
    ensures d <= 9
  {
    c as int - '0' as int
  }

  function DigitChar(d: nat): (c: char)
    requires d <= 9
    ensures IsDigit(c) && DigitValue(c) == d
  {
    (d + '0' as int) as char
  }

  /** Unicode White_Space, which split_whitespace splits on. */
  predicate IsSpace(c: char) {
    var u := c as int;
    9 <= u <= 13 || u == 0x20 || u == 0x85 || u == 0xA0 || u == 0x1680 || 0x2000 <= u <= 0x200A
    || u == 0x2028 || u == 0x2029 || u == 0x202F || u == 0x205F || u == 0x3000
  }

  // ---------- splitting text ----------

  /** Length of the leading run without white space. */
  function WordLength(s: string): (n: nat)
    ensures n <= |s|
  {
    if s == [] || IsSpace(s[0]) then 0 else 1 + WordLength(s[1..])
  }

  /** `split_whitespace`. */
  function Fields(s: string): seq<string>
    decreases |s|
  {
    if s == [] then []
    else if IsSpace(s[0]) then Fields(s[1..])
    else [s[..WordLength(s)]] + Fields(s[WordLength(s)..])
  }

  predicate IsWord(a: string) {
    a != [] && forall i | 0 <= i < |a| :: !IsSpace(a[i])
  }

  lemma {:induction false} WordLengthOf(a: string, rest: string)
    requires forall i | 0 <= i < |a| :: !IsSpace(a[i])
    requires rest == [] || IsSpace(rest[0])
    ensures WordLength(a + rest) == |a|
  {
    if a == [] {
      assert a + rest == rest;
    } else {
      assert (a + rest)[1..] == a[1..] + rest;
      WordLengthOf(a[1..], rest);
    }
  }

  lemma FieldsCons(a: string, rest: string)
    requires IsWord(a)
    ensures Fields(a + " " + rest) == [a] + Fields(rest)
    ensures Fields(a) == [a]
  {
    var s := a + (" " + rest);
    assert a + " " + rest == s;
    WordLengthOf(a, " " + rest);
    assert s[..|a|] == a && s[|a|..] == " " + rest && (" " + rest)[1..] == rest;
    WordLengthOf(a, "");
    assert a + "" == a && a[..|a|] == a && a[|a|..] == "";
  }

  /** `split('/')`. */
  function SplitSlash(s: string): (r: seq<string>)
    ensures |r| >= 1
  {
    if s == [] then [[]]
    else
      var rest := SplitSlash(s[1..]);
      if s[0] == '/' then [[]] + rest else [[s[0]] + rest[0]] + rest[1..]
  }

  lemma {:induction false} SplitSlashCons(a: string, rest: string)
    requires forall i | 0 <= i < |a| :: a[i] != '/'
    ensures SplitSlash(a + "/" + rest) == [a] + SplitSlash(rest)
    ensures SplitSlash(a) == [a]
  {
    if a == [] {
      assert a + "/" + rest == "/" + rest && ("/" + rest)[1..] == rest;
    } else {
      assert (a + "/" + rest)[1..] == a[1..] + "/" + rest;
      SplitSlashCons(a[1..], rest);
      assert [a[0]] + a[1..] == a;
    }
  }

  // ---------- one rank ----------

  lemma {:induction false} ZerosAdd(n: nat, m: nat)
    ensures Zeros(n) + Zeros(m) == Zeros(n + m)
  {
    if n > 0 {
      ZerosAdd(n - 1, m);
      assert Zeros(n) + Zeros(m) == [0] + (Zeros(n - 1) + Zeros(m));
    }
  }

  /** Reads a rank, acc being the squares already filled. */
  function ParseRank(text: string, acc: seq<U8>): Result<seq<U8>, FenError>
    decreases |text|
  {
    if text == [] then
      if |acc| == 8 then Ok(acc) else Err(BadRank)
    else if IsDigit(text[0]) then
      var d := DigitValue(text[0]);
      if d == 0 || d > 8 then Err(BadRank) else ParseRank(text[1..], acc + Zeros(d))
    else if |acc| >= 8 then Err(BadRank)
    else
      var n := PieceToNibble(text[0]);
      if n.Err? then Err(n.error) else ParseRank(text[1..], acc + [n.value])
  }

  function RunText(empty: nat): string
    requires empty <= 9
  {
    if empty > 0 then [DigitChar(empty)] else []
  }

  /** Writes a rank, `empty` being the length of the run of empty squares before it. */
  function PrintRank(nibs: seq<U8>, empty: nat): string
    requires |nibs| + empty <= 8 && forall i | 0 <= i < |nibs| :: nibs[i] <= 12
  {
    if nibs == [] then RunText(empty)
    else if nibs[0] == 0 then PrintRank(nibs[1..], empty + 1)
    else RunText(empty) + [NibbleToPiece(nibs[0]).value] + PrintRank(nibs[1..], 0)
  }

  lemma PieceRoundTrip(n: U8)
    requires 1 <= n <= 12
    ensures NibbleToPiece(n).Ok?
    ensures var c := NibbleToPiece(n).value; PieceToNibble(c) == Ok(n) && !IsDigit(c) && c != '/' && !IsSpace(c)
  {
  }

  lemma PieceNibble(c: char)
    requires PieceToNibble(c).Ok?
    ensures 1 <= PieceToNibble(c).value <= 12
  {
  }

  lemma ParseRun(empty: nat, rest: string, acc: seq<U8>)
    requires empty <= 8
    ensures ParseRank(RunText(empty) + rest, acc) == ParseRank(rest, acc + Zeros(empty))
  {
    if empty > 0 {
      assert (RunText(empty) + rest)[1..] == rest;
    } else {
      assert RunText(empty) + rest == rest && acc + Zeros(0) == acc;
    }
  }

  /** Reading what was written gives the same squares back. */
  lemma {:induction false} RankRoundTrip(nibs: seq<U8>, empty: nat, acc: seq<U8>)
    requires |acc| + empty + |nibs| == 8 && forall i | 0 <= i < |nibs| :: nibs[i] <= 12
    ensures ParseRank(PrintRank(nibs, empty), acc) == Ok(acc + Zeros(empty) + nibs)
    decreases |nibs|
  {
    if nibs == [] {
      ParseRun(empty, [], acc);
      assert RunText(empty) + [] == RunText(empty) && acc + Zeros(empty) + nibs == acc + Zeros(empty);
    } else if nibs[0] == 0 {
      RankRoundTrip(nibs[1..], empty + 1, acc);
      ZerosAdd(empty, 1);
      assert acc + Zeros(empty + 1) + nibs[1..] == acc + Zeros(empty) + ([0] + nibs[1..]);
      assert [0] + nibs[1..] == nibs;
    } else {
      var rest := nibs[1..];
      RankRoundTrip(rest, 0, acc + Zeros(empty) + [nibs[0]]);
      assert acc + Zeros(empty) + [nibs[0]] + Zeros(0) + rest == acc + Zeros(empty) + ([nibs[0]] + rest);
      assert [nibs[0]] + rest == nibs;
      ParsePiece(nibs[0], empty, PrintRank(rest, 0), acc);
    }
  }

  /** A run of empty squares and a piece, read from the front. */
  lemma ParsePiece(n: U8, empty: nat, rest: string, acc: seq<U8>)
    requires 1 <= n <= 12 && |acc| + empty < 8
    ensures NibbleToPiece(n).Ok?
    ensures ParseRank(RunText(empty) + [NibbleToPiece(n).value] + rest, acc) ==
      ParseRank(rest, acc + Zeros(empty) + [n])
  {
    PieceRoundTrip(n);
    var piece := NibbleToPiece(n).value;
    assert RunText(empty) + [piece] + rest == RunText(empty) + ([piece] + rest);
    ParseRun(empty, [piece] + rest, acc);
    assert ([piece] + rest)[1..] == rest;
  }

  predicate BoardChar(c: char) {
    c != '/' && !IsSpace(c)
  }

  lemma {:induction false} RankChars(nibs: seq<U8>, empty: nat)
    requires |nibs| + empty <= 8 && forall i | 0 <= i < |nibs| :: nibs[i] <= 12
    ensures forall i | 0 <= i < |PrintRank(nibs, empty)| :: BoardChar(PrintRank(nibs, empty)[i])
    ensures |nibs| + empty > 0 ==> PrintRank(nibs, empty) != []
    decreases |nibs|
  {
    if nibs != [] {
      if nibs[0] == 0 {
        RankChars(nibs[1..], empty + 1);
      } else {
        RankChars(nibs[1..], 0);
        PieceRoundTrip(nibs[0]);
      }
    }
  }

  lemma {:induction false} ParsedRank(text: string, acc: seq<U8>)
    requires forall i | 0 <= i < |acc| :: acc[i] <= 12
    requires ParseRank(text, acc).Ok?
    ensures |ParseRank(text, acc).value| == 8 && forall i | 0 <= i < 8 :: ParseRank(text, acc).value[i] <= 12
    decreases |text|
  {
    if text != [] {
      if IsDigit(text[0]) {
        ZerosAreZero(DigitValue(text[0]));
        ParsedRank(text[1..], acc + Zeros(DigitValue(text[0])));
      } else {
        ParsedRank(text[1..], acc + [PieceToNibble(text[0]).value]);
      }
    }
  }

  lemma {:induction false} ZerosAreZero(n: nat)
    ensures forall i | 0 <= i < n :: Zeros(n)[i] == 0
  {
    if n > 0 { ZerosAreZero(n - 1); }
  }

  // ---------- the board ----------

  type Rank = r: seq<U8> | |r| == 8 && forall i | 0 <= i < 8 :: r[i] <= 15
    witness [0, 0, 0, 0, 0, 0, 0, 0]

  function PackRank(r: Rank): Bytes {
    [r[0] + 16 * r[1], r[2] + 16 * r[3], r[4] + 16 * r[5], r[6] + 16 * r[7]]
  }

  function UnpackRank(b: Bytes): Rank
    requires |b| == 4
  {
    [b[0] % 16, b[0] / 16, b[1] % 16, b[1] / 16, b[2] % 16, b[2] / 16, b[3] % 16, b[3] / 16]
  }

  lemma PackOfUnpack(b: Bytes)
    requires |b| == 4
    ensures PackRank(UnpackRank(b)) == b
  {
  }

  lemma UnpackOfPack(r: Rank)
    ensures UnpackRank(PackRank(r)) == r
  {
    Nibble(r[0], r[1]);
    Nibble(r[2], r[3]);
    Nibble(r[4], r[5]);
    Nibble(r[6], r[7]);
  }

  lemma Nibble(lo: U8, hi: U8)
    requires lo <= 15 && hi <= 15
    ensures (lo + 16 * hi) % 16 == lo && (lo + 16 * hi) / 16 == hi
  {
  }

  /** Ranks as FEN lists them, top first. */
  function ParseRanks(texts: seq<string>): Result<seq<Rank>, FenError> {
    if texts == [] then Ok([])
    else
      var r := ParseRank(texts[0], []);
      if r.Err? then Err(r.error)
      else
        ParsedRank(texts[0], []);
        var rest := ParseRanks(texts[1..]);
        if rest.Err? then rest else Ok([r.value] + rest.value)
  }

  /** Ranks are stored bottom first. */
  function PackBoard(rs: seq<Rank>): (b: Bytes)
    ensures |b| == 4 * |rs|
  {
    if rs == [] then [] else PackBoard(rs[1..]) + PackRank(rs[0])
  }

  function UnpackBoard(b: Bytes): (rs: seq<Rank>)
    requires |b| % 4 == 0
    ensures |rs| == |b| / 4
    decreases |b|
  {
    if b == [] then [] else [UnpackRank(b[|b| - 4..])] + UnpackBoard(b[..|b| - 4])
  }

  lemma {:induction false} PackUnpackBoard(b: Bytes)
    requires |b| % 4 == 0
    ensures PackBoard(UnpackBoard(b)) == b
    decreases |b|
  {
    if b != [] {
      PackUnpackBoard(b[..|b| - 4]);
      PackOfUnpack(b[|b| - 4..]);
      assert b[..|b| - 4] + b[|b| - 4..] == b;
    }
  }

  lemma {:induction false} UnpackPackBoard(rs: seq<Rank>)
    ensures UnpackBoard(PackBoard(rs)) == rs
  {
    if rs != [] {
      var b := PackBoard(rs);
      UnpackPackBoard(rs[1..]);
      UnpackOfPack(rs[0]);
      assert b[..|b| - 4] == PackBoard(rs[1..]) && b[|b| - 4..] == PackRank(rs[0]);
      assert rs == [rs[0]] + rs[1..];
    }
  }

  predicate Printable(r: Rank) {
    forall i | 0 <= i < 8 :: r[i] <= 12
  }

  predicate AllPrintable(rs: seq<Rank>) {
    forall i | 0 <= i < |rs| :: Printable(rs[i])
  }

  function PrintBoard(rs: seq<Rank>): string
    requires rs != [] && AllPrintable(rs)
  {
    if |rs| == 1 then PrintRank(rs[0], 0) else PrintRank(rs[0], 0) + "/" + PrintBoard(rs[1..])
  }

  lemma ParseRanksCons(text: string, texts: seq<string>, r: Rank, rs: seq<Rank>)
    requires ParseRank(text, []) == Ok(r) && ParseRanks(texts) == Ok(rs)
    ensures ParseRanks([text] + texts) == Ok([r] + rs)
  {
    assert ([text] + texts)[1..] == texts;
  }

  lemma ParsePrintRank(r: Rank)
    requires Printable(r)
    ensures ParseRank(PrintRank(r, 0), []) == Ok(r)
  {
    RankRoundTrip(r, 0, []);
    assert [] + Zeros(0) + r == r;
  }

  lemma RankThenBoard(first: string, tail: string, r: Rank, rs: seq<Rank>)
    requires ParseRank(first, []) == Ok(r) && ParseRanks(SplitSlash(tail)) == Ok(rs)
    requires forall i | 0 <= i < |first| :: first[i] != '/'
    ensures |SplitSlash(first + "/" + tail)| == 1 + |SplitSlash(tail)|
    ensures ParseRanks(SplitSlash(first + "/" + tail)) == Ok([r] + rs)
  {
    SplitSlashCons(first, tail);
    ParseRanksCons(first, SplitSlash(tail), r, rs);
  }

  lemma OneRankBoard(first: string, r: Rank)
    requires ParseRank(first, []) == Ok(r) && forall i | 0 <= i < |first| :: first[i] != '/'
    ensures SplitSlash(first) == [first] && ParseRanks([first]) == Ok([r])
  {
    SplitSlashCons(first, "");
    ParseRanksCons(first, [], r, []);
    assert [first] + [] == [first] && [r] + [] == [r];
  }

  lemma RankText(r: Rank)
    requires Printable(r)
    ensures var t := PrintRank(r, 0);
      ParseRank(t, []) == Ok(r) && IsWord(t) && forall i | 0 <= i < |t| :: t[i] != '/'
  {
    ParsePrintRank(r);
    RankChars(r, 0);
  }

  lemma {:induction false} BoardRoundTrip(rs: seq<Rank>)
    requires rs != [] && AllPrintable(rs)
    ensures |SplitSlash(PrintBoard(rs))| == |rs| && ParseRanks(SplitSlash(PrintBoard(rs))) == Ok(rs)
  {
    hide SplitSlash, ParseRanks, PrintRank, ParseRank;
    RankText(rs[0]);
    var first := PrintRank(rs[0], 0);
    if |rs| == 1 {
      OneRankBoard(first, rs[0]);
      assert rs == [rs[0]];
    } else {
      var tail := rs[1..];
      BoardRoundTrip(tail);
      RankThenBoard(first, PrintBoard(tail), rs[0], tail);
      assert rs == [rs[0]] + tail;
    }
  }

  lemma {:induction false} BoardIsWord(rs: seq<Rank>)
    requires rs != [] && AllPrintable(rs)
    ensures IsWord(PrintBoard(rs))
  {
    RankChars(rs[0], 0);
    if |rs| > 1 {
      BoardIsWord(rs[1..]);
      JoinedWord(PrintRank(rs[0], 0), "/", PrintBoard(rs[1..]));
    }
  }

  lemma JoinedWord(a: string, b: string, c: string)
    requires IsWord(a) && IsWord(b) && IsWord(c)
    ensures IsWord(a + b + c)
  {
    var s := a + b + c;
    forall i | 0 <= i < |s| ensures !IsSpace(s[i]) {
      if i >= |a| { assert s[i] == if i < |a| + |b| then b[i - |a|] else c[i - |a| - |b|]; }
    }
  }

  lemma {:induction false} ParsedRanksPrintable(texts: seq<string>)
    requires ParseRanks(texts).Ok?
    ensures |ParseRanks(texts).value| == |texts| && AllPrintable(ParseRanks(texts).value)
  {
    if texts != [] {
      ParsedRank(texts[0], []);
      ParsedRanksPrintable(texts[1..]);
    }
  }

  // ---------- the other fields ----------

  lemma FlagBits(f: U8)
    requires f < 32
    ensures f == f % 2 + 2 * (f / 2 % 2) + 4 * (f / 4 % 2) + 8 * (f / 8 % 2) + 16 * (f / 16 % 2)
  {
    var f2, f4, f8, f16 := f / 2, f / 4, f / 8, f / 16;
    assert f2 / 2 == f4 && f4 / 2 == f8 && f8 / 2 == f16 && f16 < 2;
    HalfAndBit(f);
    HalfAndBit(f2);
    HalfAndBit(f4);
    HalfAndBit(f8);
  }

  lemma HalfAndBit(n: nat)
    ensures n == 2 * (n / 2) + n % 2
  {
  }

  /** flags | bit. */
  function OrBit(flags: U8, bit: U8): (r: U8)
    requires flags < 32 && bit in {2, 4, 8, 16}
    ensures r < 32
  {
    FlagBits(flags);
    if flags / bit % 2 == 1 then flags else flags + bit
  }

  /** The castling loop of the encoder. */
  function CastleFold(text: string, flags: U8): (r: Result<U8, FenError>)
    requires flags < 32
    ensures r.Ok? ==> r.value < 32
    decreases |text|
  {
    if text == [] then Ok(flags)
    else
      match text[0]
      case 'K' => CastleFold(text[1..], OrBit(flags, 2))
      case 'Q' => CastleFold(text[1..], OrBit(flags, 4))
      case 'k' => CastleFold(text[1..], OrBit(flags, 8))
      case 'q' => CastleFold(text[1..], OrBit(flags, 16))
      case _ => Err(BadCastling)
  }

  function ParseCastling(text: string, flags: U8): (r: Result<U8, FenError>)
    requires flags < 32
    ensures r.Ok? ==> r.value < 32
  {
    if text == "-" then Ok(flags) else CastleFold(text, flags)
  }

  function Mark(on: bool, mark: char): string {
    if on then [mark] else ""
  }

  function RightsText(k: bool, q: bool, bk: bool, bq: bool): string {
    var t := Mark(k, 'K') + Mark(q, 'Q') + Mark(bk, 'k') + Mark(bq, 'q');
    if t == "" then "-" else t
  }

  function CastleText(flags: U8): string {
    RightsText(flags / 2 % 2 == 1, flags / 4 % 2 == 1, flags / 8 % 2 == 1, flags / 16 % 2 == 1)
  }

  function ParseSide(s: string): (r: Result<U8, FenError>)
    ensures r.Ok? ==> r.value <= 1
  {
    if s == "w" then Ok(0) else if s == "b" then Ok(1) else Err(BadSide)
  }

  function SideText(flags: U8): string {
    if flags % 2 == 1 then "b" else "w"
  }

  function ParseEp(s: string): Result<U8, FenError> {
    if s == "-" then Ok(NO_EP)
    else if |s| != 2 || !('a' <= s[0] <= 'h') || !('1' <= s[1] <= '8') then Err(BadEnPassant)
    else Ok(s[0] as int - 'a' as int)
  }

  function EpText(ep: U8, flags: U8): string
    requires ep <= 7 || ep == NO_EP
  {
    if ep == NO_EP then "-" else [(ep + 'a' as int) as char] + (if flags % 2 == 1 then "3" else "6")
  }

  function DigitsValue(s: string): Option<nat>
    decreases |s|
  {
    if s == [] then Some(0)
    else if !IsDigit(s[|s| - 1]) then None
    else
      var front := DigitsValue(s[..|s| - 1]);
      if front.None? then None else Some(front.value * 10 + DigitValue(s[|s| - 1]))
  }

  /** `parse::<u16>`: an optional plus sign, at least one digit, and a value that fits. */
  function ParseU16(s: string): Result<U16, FenError> {
    var digits := if s != [] && s[0] == '+' then s[1..] else s;
    var v := DigitsValue(digits);
    if digits == [] || v.None? || v.value > 0xFFFF then Err(BadClock) else Ok(v.value)
  }

  function Decimal(n: nat): string {
    if n < 10 then [DigitChar(n)] else Decimal(n / 10) + [DigitChar(n % 10)]
  }

  lemma {:induction false} DecimalDigits(n: nat)
    ensures Decimal(n) != [] && DigitsValue(Decimal(n)) == Some(n)
    ensures forall i | 0 <= i < |Decimal(n)| :: IsDigit(Decimal(n)[i])
  {
    var d := Decimal(n);
    if n < 10 {
      assert d[..0] == [];
    } else {
      DecimalDigits(n / 10);
      assert d[..|d| - 1] == Decimal(n / 10);
    }
  }

  lemma ClockRoundTrip(n: U16)
    ensures ParseU16(Decimal(n)) == Ok(n) && IsWord(Decimal(n))
  {
    DecimalDigits(n);
    assert Decimal(n)[0] != '+';
    assert forall i | 0 <= i < |Decimal(n)| :: !IsSpace(Decimal(n)[i]);
  }

  lemma EpRoundTrip(ep: U8, flags: U8)
    requires ep <= 7 || ep == NO_EP
    ensures ParseEp(EpText(ep, flags)) == Ok(ep) && IsWord(EpText(ep, flags))
  {
  }

  /** A mark sets its bit when that bit and all above it are clear. */
  lemma CastleStep(bit: U8, mark: char, rest: string, flags: U8, on: bool)
    requires (bit == 2 && mark == 'K') || (bit == 4 && mark == 'Q') || (bit == 8 && mark == 'k') ||
      (bit == 16 && mark == 'q')
    requires flags < bit
    ensures CastleFold(Mark(on, mark) + rest, flags) == CastleFold(rest, if on then flags + bit else flags)
  {
    if on {
      assert (Mark(on, mark) + rest)[1..] == rest;
      assert flags / bit == 0;
    } else {
      assert Mark(on, mark) + rest == rest;
    }
  }

  function Weight(on: bool, bit: nat): nat {
    if on then bit else 0
  }

  lemma RightsRoundTrip(side: U8, k: bool, q: bool, bk: bool, bq: bool)
    requires side <= 1
    ensures ParseCastling(RightsText(k, q, bk, bq), side) ==
      Ok(side + Weight(k, 2) + Weight(q, 4) + Weight(bk, 8) + Weight(bq, 16))
  {
    hide OrBit;
    var a, b, c, d := Mark(k, 'K'), Mark(q, 'Q'), Mark(bk, 'k'), Mark(bq, 'q');
    var f1: U8 := side + Weight(k, 2);
    var f2: U8 := f1 + Weight(q, 4);
    var f3: U8 := f2 + Weight(bk, 8);
    CastleStep(2, 'K', b + (c + (d + "")), side, k);
    CastleStep(4, 'Q', c + (d + ""), f1, q);
    CastleStep(8, 'k', d + "", f2, bk);
    CastleStep(16, 'q', "", f3, bq);
    assert a + b + c + d == a + (b + (c + (d + "")));
    assert k ==> (a + b + c + d)[0] == 'K';
    assert a + b + c + d != "-";
  }

  lemma RightsWord(k: bool, q: bool, bk: bool, bq: bool)
    ensures IsWord(RightsText(k, q, bk, bq))
  {
    hide IsSpace;
    MarkIsPlain(k, 'K');
    MarkIsPlain(q, 'Q');
    MarkIsPlain(bk, 'k');
    MarkIsPlain(bq, 'q');
    DashIsPlain();
    hide Mark;
    PlainConcat(Mark(k, 'K'), Mark(q, 'Q'));
    PlainConcat(Mark(k, 'K') + Mark(q, 'Q'), Mark(bk, 'k'));
    PlainConcat(Mark(k, 'K') + Mark(q, 'Q') + Mark(bk, 'k'), Mark(bq, 'q'));
  }

  predicate Plain(t: string) {
    forall i | 0 <= i < |t| :: !IsSpace(t[i])
  }

  lemma MarkIsPlain(on: bool, mark: char)
    ensures !IsSpace(mark) ==> Plain(Mark(on, mark))
    ensures !IsSpace('K') && !IsSpace('Q') && !IsSpace('k') && !IsSpace('q')
  {
  }

  lemma DashIsPlain()
    ensures Plain("-")
  {
  }

  lemma PlainConcat(a: string, b: string)
    requires Plain(a) && Plain(b)
    ensures Plain(a + b)
  {
  }

  lemma CastleRoundTrip(flags: U8)
    requires flags < 32
    ensures ParseCastling(CastleText(flags), flags % 2) == Ok(flags) && IsWord(CastleText(flags))
  {
    var k, q, bk, bq := flags / 2 % 2 == 1, flags / 4 % 2 == 1, flags / 8 % 2 == 1, flags / 16 % 2 == 1;
    RightsRoundTrip(flags % 2, k, q, bk, bq);
    RightsWord(k, q, bk, bq);
    FlagBits(flags);
  }

  // ---------- the codec ----------

  function Le16(n: U16): Bytes {
    [n % 256, n / 256]
  }

  function FromLe16(lo: U8, hi: U8): U16 {
    var h: int := hi;
    lo + 256 * h
  }

  function EncodeBoard(text: string): Result<Bytes, FenError> {
    var texts := SplitSlash(text);
    if |texts| != 8 then Err(BadRank)
    else
      var rs := ParseRanks(texts);
      if rs.Err? then Err(rs.error) else Ok(PackBoard(rs.value))
  }

  /** `encode_fen`. */
  function Encode(fen: string): Result<Bytes, FenError> {
    var parts := Fields(fen);
    if |parts| != 6 then Err(BadFieldCount)
    else
      var board := EncodeBoard(parts[0]);
      if board.Err? then Err(board.error) else
      var side := ParseSide(parts[1]);
      if side.Err? then Err(side.error) else
      var flags := ParseCastling(parts[2], side.value);
      if flags.Err? then Err(flags.error) else
      var ep := ParseEp(parts[3]);
      if ep.Err? then Err(ep.error) else
      var half := ParseU16(parts[4]);
      if half.Err? then Err(half.error) else
      var full := ParseU16(parts[5]);
      if full.Err? then Err(full.error) else
      Ok(board.value + [flags.value, ep.value] + Le16(half.value) + Le16(full.value))
  }

  function BadNibbleIn(r: seq<U8>): Option<U8> {
    if r == [] then None else if r[0] > 12 then Some(r[0]) else BadNibbleIn(r[1..])
  }

  /** The first nibble, in FEN order, that names no piece. */
  function FirstBad(rs: seq<Rank>): Option<U8> {
    if rs == [] then None
    else
      var here := BadNibbleIn(rs[0]);
      if here.Some? then here else FirstBad(rs[1..])
  }

  lemma {:induction false} BadNibbleMeans(r: seq<U8>)
    ensures BadNibbleIn(r).None? <==> forall i | 0 <= i < |r| :: r[i] <= 12
  {
    if r != [] {
      BadNibbleMeans(r[1..]);
      assert forall i | 0 < i < |r| :: r[i] == r[1..][i - 1];
    }
  }

  lemma {:induction false} FirstBadMeans(rs: seq<Rank>)
    ensures FirstBad(rs).None? <==> AllPrintable(rs)
  {
    if rs != [] {
      BadNibbleMeans(rs[0]);
      FirstBadMeans(rs[1..]);
      assert forall i | 0 < i < |rs| :: rs[i] == rs[1..][i - 1];
    }
  }

  /** `decode_fen`. */
  function Decode(b: Bytes): Result<string, FenError> {
    if |b| != COMPRESSED_FEN_LEN then Err(BadLength(|b|))
    else
      var rs := UnpackBoard(b[..32]);
      var bad := FirstBad(rs);
      FirstBadMeans(rs);
      if bad.Some? then Err(BadNibble(bad.value))
      else if b[32] >= 0x20 then Err(BadFlags)
      else if b[33] != NO_EP && b[33] > 7 then Err(BadEnPassant)
      else Ok(Render(rs, b[32], b[33], FromLe16(b[34], b[35]), FromLe16(b[36], b[37])))
  }

  function Render(rs: seq<Rank>, flags: U8, ep: U8, half: U16, full: U16): string
    requires |rs| == 8 && AllPrintable(rs) && (ep <= 7 || ep == NO_EP)
  {
    PrintBoard(rs) + " " + (SideText(flags) + " " +
      (CastleText(flags) + " " + (EpText(ep, flags) + " " + (Decimal(half) + " " + Decimal(full)))))
  }

  lemma SixFields(a: string, b: string, c: string, d: string, e: string, f: string)
    requires IsWord(a) && IsWord(b) && IsWord(c) && IsWord(d) && IsWord(e) && IsWord(f)
    ensures Fields(a + " " + (b + " " + (c + " " + (d + " " + (e + " " + f))))) == [a, b, c, d, e, f]
  {
    hide IsWord, WordLength, IsSpace;
    FieldsCons(f, "");
    FieldsCons(e, f);
    FieldsCons(d, e + " " + f);
    FieldsCons(c, d + " " + (e + " " + f));
    FieldsCons(b, c + " " + (d + " " + (e + " " + f)));
    FieldsCons(a, b + " " + (c + " " + (d + " " + (e + " " + f))));
  }

  lemma EncodePrintBoard(rs: seq<Rank>)
    requires |rs| == 8 && AllPrintable(rs)
    ensures EncodeBoard(PrintBoard(rs)) == Ok(PackBoard(rs))
  {
    BoardRoundTrip(rs);
  }

  /** Encoding from the six fields. */
  lemma EncodeFields(a: string, b: string, c: string, d: string, e: string, f: string, board: Bytes, side: U8,
      flags: U8, ep: U8, half: U16, full: U16)
    requires IsWord(a) && IsWord(b) && IsWord(c) && IsWord(d) && IsWord(e) && IsWord(f)
    requires EncodeBoard(a) == Ok(board) && ParseSide(b) == Ok(side) && side <= 1 && ParseCastling(c, side) == Ok(flags)
    requires ParseEp(d) == Ok(ep) && ParseU16(e) == Ok(half) && ParseU16(f) == Ok(full)
    ensures Encode(a + " " + (b + " " + (c + " " + (d + " " + (e + " " + f))))) ==
      Ok(board + [flags, ep] + Le16(half) + Le16(full))
  {
    SixFields(a, b, c, d, e, f);
  }

  lemma SideRoundTrip(flags: U8)
    ensures ParseSide(SideText(flags)) == Ok(flags % 2) && IsWord(SideText(flags))
  {
  }

  lemma EncodeRender(rs: seq<Rank>, flags: U8, ep: U8, half: U16, full: U16)
    requires |rs| == 8 && AllPrintable(rs) && flags < 32 && (ep <= 7 || ep == NO_EP)
    ensures Encode(Render(rs, flags, ep, half, full)) == Ok(PackBoard(rs) + [flags, ep] + Le16(half) + Le16(full))
  {
    BoardIsWord(rs);
    EncodePrintBoard(rs);
    SideRoundTrip(flags);
    CastleRoundTrip(flags);
    EpRoundTrip(ep, flags);
    ClockRoundTrip(half);
    ClockRoundTrip(full);
    EncodeFields(PrintBoard(rs), SideText(flags), CastleText(flags), EpText(ep, flags), Decimal(half), Decimal(full),
                 PackBoard(rs), flags % 2, flags, ep, half, full);
  }

  lemma LeRoundTrip(lo: U8, hi: U8)
    ensures Le16(FromLe16(lo, hi)) == [lo, hi]
  {
  }

  /** Whatever bytes the decoder accepts, encoding its text gives those bytes back. */
  lemma DecodeThenEncode(b: Bytes)
    requires Decode(b).Ok?
    ensures Encode(Decode(b).value) == Ok(b)
  {
    var rs := UnpackBoard(b[..32]);
    FirstBadMeans(rs);
    PackUnpackBoard(b[..32]);
    EncodeRender(rs, b[32], b[33], FromLe16(b[34], b[35]), FromLe16(b[36], b[37]));
    LeRoundTrip(b[34], b[35]);
    LeRoundTrip(b[36], b[37]);
    Regroup(b);
  }

  lemma Regroup(b: Bytes)
    requires |b| == COMPRESSED_FEN_LEN
    ensures b[..32] + [b[32], b[33]] + [b[34], b[35]] + [b[36], b[37]] == b
  {
  }

  /** Whatever text the encoder accepts, its bytes decode. */
  lemma EncodedDecodes(fen: string)
    requires Encode(fen).Ok?
    ensures |Encode(fen).value| == COMPRESSED_FEN_LEN && Decode(Encode(fen).value).Ok?
  {
    var parts := Fields(fen);
    var texts := SplitSlash(parts[0]);
    var rs := ParseRanks(texts).value;
    var b := Encode(fen).value;
    ParsedRanksPrintable(texts);
    UnpackPackBoard(rs);
    assert b[..32] == PackBoard(rs);
    FirstBadMeans(rs);
  }

  /** What a position's text becomes on the other side of the link. */
  function Normalise(fen: string): string
    requires Encode(fen).Ok?
  {
    EncodedDecodes(fen);
    Decode(Encode(fen).value).value
  }

  /** Sending an accepted text once normalises it; sending the result again changes nothing. */
  lemma NormaliseOnce(fen: string)
    requires Encode(fen).Ok?
    ensures Encode(Normalise(fen)) == Encode(fen) && Normalise(Normalise(fen)) == Normalise(fen)
  {
    EncodedDecodes(fen);
    DecodeThenEncode(Encode(fen).value);
  }

  // ---------- the loops ----------

  function Pad(acc: seq<U8>): Rank
    requires |acc| <= 8 && forall i | 0 <= i < |acc| :: acc[i] <= 12
  {
    seq(8, i requires 0 <= i < 8 => if i < |acc| then acc[i] else 0)
  }

  /** Or-ing a nibble into a square that is still clear. */
  lemma PackSet(acc: seq<U8>, n: U8)
    requires |acc| < 8 && n <= 12 && forall i | 0 <= i < |acc| :: acc[i] <= 12
    ensures var k := |acc| / 2;
      PackRank(Pad(acc + [n])) ==
        PackRank(Pad(acc))[k := PackRank(Pad(acc))[k] as int + (if |acc| % 2 == 0 then n else 16 * n as int)]
  {
    var p, q := Pad(acc), Pad(acc + [n]);
    assert forall i | 0 <= i < 8 && i != |acc| :: q[i] == p[i];
    assert p[|acc|] == 0 && q[|acc|] == n;
  }

  /** The 38-byte buffer with the rank at index k replaced. */
  function WithRank(out: Bytes, k: nat, r: Rank): Bytes
    requires |out| == COMPRESSED_FEN_LEN && k < 8
  {
    out[..4 * k] + PackRank(r) + out[4 * k + 4..]
  }

  lemma SetInRank(out: Bytes, k: nat, acc: seq<U8>, n: U8)
    requires |out| == COMPRESSED_FEN_LEN && k < 8
    requires |acc| < 8 && n <= 12 && forall i | 0 <= i < |acc| :: acc[i] <= 12
    ensures var at := 4 * k + |acc| / 2; var w := WithRank(out, k, Pad(acc));
      WithRank(out, k, Pad(acc + [n])) == w[at := w[at] as int + (if |acc| % 2 == 0 then n else 16 * n as int)]
  {
    PackSet(acc, n);
  }

  lemma SquareSplit(k: nat, file: nat)
    ensures (8 * k + file) / 2 == 4 * k + file / 2 && (8 * k + file) % 2 == file % 2
  {
  }

  lemma PadZeros(acc: seq<U8>, d: nat)
    requires |acc| + d <= 8 && forall i | 0 <= i < |acc| :: acc[i] <= 12
    ensures (forall i | 0 <= i < |acc + Zeros(d)| :: (acc + Zeros(d))[i] <= 12) && Pad(acc + Zeros(d)) == Pad(acc)
  {
    ZerosAreZero(d);
  }

  /** The square loop of one rank, or-ing nibbles into the buffer. */
  method EncodeRank(text: string, k: nat, out0: Bytes) returns (r: Result<Bytes, FenError>)
    requires |out0| == COMPRESSED_FEN_LEN && k < 8 && out0 == WithRank(out0, k, Pad([]))
    ensures var p := ParseRank(text, []);
      if p.Err? then r == Err(p.error)
      else |p.value| == 8 && (forall i | 0 <= i < 8 :: p.value[i] <= 12) && r == Ok(WithRank(out0, k, p.value))
  {
    hide PieceToNibble, WithRank;
    var out, file := out0, 0;
    ghost var acc: seq<U8> := [];
    ghost var goal := ParseRank(text, []);
    if goal.Ok? { ParsedRank(text, []); }
    assert text[0..] == text;
    for i := 0 to |text|
      invariant |acc| == file && |out| == COMPRESSED_FEN_LEN && ParseRank(text[i..], acc) == goal
      invariant forall j | 0 <= j < |acc| :: acc[j] <= 12
      invariant file <= 8 ==> out == WithRank(out0, k, Pad(acc))
    {
      var c := text[i];
      assert text[i..][1..] == text[i + 1..];
      if IsDigit(c) {
        var d := DigitValue(c);
        if d == 0 || d > 8 {
          return Err(BadRank);
        }
        ZerosAreZero(d);
        if file + d <= 8 { PadZeros(acc, d); }
        file := file + d;
        acc := acc + Zeros(d);
      } else {
        if file >= 8 {
          return Err(BadRank);
        }
        var nib := PieceToNibble(c);
        if nib.Err? {
          return Err(nib.error);
        }
        PieceNibble(c);
        SetInRank(out0, k, acc, nib.value);
        SquareSplit(k, file);
        var sq := 8 * k + file;
        out := out[sq / 2 := out[sq / 2] as int + (if sq % 2 == 0 then nib.value else 16 * nib.value as int)];
        file := file + 1;
        acc := acc + [nib.value];
      }
    }
    assert text[|text|..] == [];
    if file != 8 {
      return Err(BadRank);
    }
    assert Pad(acc) == acc;
    r := Ok(out);
  }

  /** The buffer after the first n ranks, listed top first, are in place. */
  ghost predicate FilledTop(out: Bytes, rs: seq<Rank>)
    requires |rs| <= 8
  {
    |out| == COMPRESSED_FEN_LEN && out == Zeros(32 - 4 * |rs|) + PackBoard(rs) + Zeros(6)
  }

  lemma ClearRank(out: Bytes, rs: seq<Rank>)
    requires |rs| < 8 && FilledTop(out, rs)
    ensures out == WithRank(out, 7 - |rs|, Pad([]))
  {
    var k := 4 * (7 - |rs|);
    ZerosAreZero(k + 4);
    assert Pad([]) == [0, 0, 0, 0, 0, 0, 0, 0];
    assert out[k..k + 4] == [0, 0, 0, 0];
  }

  lemma {:induction false} PackSnoc(rs: seq<Rank>, r: Rank)
    ensures PackBoard(rs + [r]) == PackRank(r) + PackBoard(rs)
  {
    if rs == [] {
      assert [r][1..] == [] && [] + [r] == [r];
      assert PackBoard([r]) == PackRank(r);
    } else {
      assert (rs + [r])[1..] == rs[1..] + [r];
      PackSnoc(rs[1..], r);
      ConcatAssoc(PackRank(r), PackBoard(rs[1..]), PackRank(rs[0]));
    }
  }

  lemma Pieces(z: Bytes, four: Bytes, mid: Bytes, end: Bytes)
    ensures var out := z + four + mid + end;
      out[..|z|] == z && out[|z| + |four|..] == mid + end
  {
  }

  lemma FillNext(out: Bytes, rs: seq<Rank>, r: Rank)
    requires |rs| < 8 && FilledTop(out, rs)
    ensures FilledTop(WithRank(out, 7 - |rs|, r), rs + [r])
  {
    var z := Zeros(28 - 4 * |rs|);
    PackSnoc(rs, r);
    ZerosAdd(28 - 4 * |rs|, 4);
    Pieces(z, Zeros(4), PackBoard(rs), Zeros(6));
    ConcatAssoc(z + PackRank(r), PackBoard(rs), Zeros(6));
    ConcatAssoc(z, PackRank(r), PackBoard(rs));
  }

  lemma {:induction false} ParseRanksFails(texts: seq<string>, n: nat, e: FenError)
    requires n < |texts| && ParseRank(texts[n], []) == Err(e)
    requires forall j | 0 <= j < n :: ParseRank(texts[j], []).Ok?
    ensures ParseRanks(texts) == Err(e)
  {
    if n > 0 { ParseRanksFails(texts[1..], n - 1, e); }
  }

  lemma {:induction false} ParseRanksSucceeds(texts: seq<string>, rs: seq<Rank>)
    requires |rs| == |texts| && forall j | 0 <= j < |texts| :: ParseRank(texts[j], []) == Ok(rs[j])
    ensures ParseRanks(texts) == Ok(rs)
  {
    if texts != [] {
      ParseRanksSucceeds(texts[1..], rs[1..]);
      assert rs == [rs[0]] + rs[1..];
    }
  }

  /** The castling loop. */
  method EncodeCastling(text: string, flags0: U8) returns (r: Result<U8, FenError>)
    requires flags0 <= 1
    ensures r == ParseCastling(text, flags0)
  {
    var flags := flags0;
    if text != "-" {
      ghost var goal := CastleFold(text, flags);
      assert text[0..] == text;
      for i := 0 to |text|
        invariant flags < 32 && CastleFold(text[i..], flags) == goal
      {
        assert text[i..][1..] == text[i + 1..];
        match text[i] {
          case 'K' => flags := OrBit(flags, 2);
          case 'Q' => flags := OrBit(flags, 4);
          case 'k' => flags := OrBit(flags, 8);
          case 'q' => flags := OrBit(flags, 16);
          case _ => return Err(BadCastling);
        }
      }
    }
    r := Ok(flags);
  }

  /** One turn of the board loop. */
  method EncodeNextRank(text: string, ghost rs: seq<Rank>, out: Bytes, k: nat) returns (r: Result<Bytes, FenError>)
    requires |rs| < 8 && k == 7 - |rs| && FilledTop(out, rs)
    ensures var p := ParseRank(text, []);
      if p.Err? then r == Err(p.error)
      else |p.value| == 8 && (forall i | 0 <= i < 8 :: p.value[i] <= 12) && r.Ok? && FilledTop(r.value, rs + [p.value])
  {
    hide ParseRank, PackRank, PackBoard;
    ClearRank(out, rs);
    r := EncodeRank(text, k, out);
    if r.Ok? {
      ghost var rank: Rank := ParseRank(text, []).value;
      FillNext(out, rs, rank);
    }
  }

  lemma AllFilled(out: Bytes, rs: seq<Rank>)
    requires |rs| == 8 && FilledTop(out, rs)
    ensures out == PackBoard(rs) + Zeros(6)
  {
    assert Zeros(0) + PackBoard(rs) == PackBoard(rs);
  }

  lemma NoneFilled()
    ensures FilledTop(Zeros(COMPRESSED_FEN_LEN), [])
  {
    ZerosAdd(32, 6);
    assert Zeros(32) + PackBoard([]) + Zeros(6) == Zeros(32) + Zeros(6);
  }

  /** The board loop. */
  method EncodeRanks(texts: seq<string>) returns (r: Result<Bytes, FenError>)
    requires |texts| == 8
    ensures var p := ParseRanks(texts);
      if p.Err? then r == Err(p.error) else |p.value| == 8 && r == Ok(PackBoard(p.value) + Zeros(6))
  {
    hide FilledTop, ParseRank, PackBoard, ParseRanks;
    var out := Zeros(COMPRESSED_FEN_LEN);
    ghost var rs: seq<Rank> := [];
    NoneFilled();
    for ri := 0 to 8
      invariant |rs| == ri && FilledTop(out, rs) && forall j | 0 <= j < ri :: ParseRank(texts[j], []) == Ok(rs[j])
    {
      var next := EncodeNextRank(texts[ri], rs, out, 7 - ri);
      if next.Err? {
        ParseRanksFails(texts, ri, next.error);
        return next;
      }
      ghost var rank: Rank := ParseRank(texts[ri], []).value;
      out := next.value;
      rs := rs + [rank];
    }
    ParseRanksSucceeds(texts, rs);
    AllFilled(out, rs);
    r := Ok(out);
  }

  /** `encode_fen`. */
  method EncodeFen(fen: string) returns (r: Result<Bytes, FenError>)
    ensures r == Encode(fen)
  {
    var parts := Fields(fen);
    if |parts| != 6 {
      return Err(BadFieldCount);
    }
    var texts := SplitSlash(parts[0]);
    if |texts| != 8 {
      return Err(BadRank);
    }
    var board := EncodeRanks(texts);
    if board.Err? {
      return Err(board.error);
    }
    var out := board.value;
    var side := ParseSide(parts[1]);
    if side.Err? {
      return Err(side.error);
    }
    var flags := EncodeCastling(parts[2], side.value);
    if flags.Err? {
      return Err(flags.error);
    }
    out := out[32 := flags.value];
    var ep := ParseEp(parts[3]);
    if ep.Err? {
      return Err(ep.error);
    }
    out := out[33 := ep.value];
    var half := ParseU16(parts[4]);
    if half.Err? {
      return Err(half.error);
    }
    var full := ParseU16(parts[5]);
    if full.Err? {
      return Err(full.error);
    }
    out := out[..34] + Le16(half.value) + Le16(full.value);
    assert out == PackBoard(ParseRanks(texts).value) + [flags.value, ep.value] + Le16(half.value) + Le16(full.value);
    r := Ok(out);
  }

  lemma SliceOfFront(b: Bytes, n: nat, i: nat, j: nat)
    requires i <= j <= n <= |b|
    ensures b[..n][i..j] == b[i..j]
  {
  }

  lemma {:induction false} UnpackAt(b: Bytes, i: nat)
    requires |b| % 4 == 0 && 4 * i < |b|
    ensures UnpackBoard(b)[i] == UnpackRank(b[|b| - 4 - 4 * i..|b| - 4 * i])
    decreases |b|
  {
    if i > 0 {
      UnpackAt(b[..|b| - 4], i - 1);
      SliceOfFront(b, |b| - 4, |b| - 4 - 4 * i, |b| - 4 * i);
    }
  }

  lemma PrintPiece(text: string, nibs: seq<U8>, empty: nat)
    requires nibs != [] && nibs[0] != 0 && |nibs| + empty <= 8 && forall i | 0 <= i < |nibs| :: nibs[i] <= 12
    ensures NibbleToPiece(nibs[0]).Ok?
    ensures text + PrintRank(nibs, empty) ==
      text + RunText(empty) + [NibbleToPiece(nibs[0]).value] + PrintRank(nibs[1..], 0)
  {
  }

  lemma PrintGap(nibs: seq<U8>, empty: nat)
    requires nibs != [] && nibs[0] == 0 && |nibs| + empty <= 8 && forall i | 0 <= i < |nibs| :: nibs[i] <= 12
    ensures PrintRank(nibs, empty) == PrintRank(nibs[1..], empty + 1)
  {
  }

  /** What is still to print: nothing bad was found so far, and text plus the rest is the whole rank. */
  ghost predicate RankLeft(nibs: Rank, left: seq<U8>, text: string, empty: nat) {
    && |left| + empty <= 8 && BadNibbleIn(left) == BadNibbleIn(nibs)
    && (BadNibbleIn(nibs).None? ==>
          (forall i | 0 <= i < |left| :: left[i] <= 12) && (forall i | 0 <= i < 8 :: nibs[i] <= 12)
          && text + PrintRank(left, empty) == PrintRank(nibs, 0))
  }

  lemma RankStep(nibs: Rank, left: seq<U8>, text: string, empty: nat)
    requires left != [] && left[0] <= 12 && RankLeft(nibs, left, text, empty)
    ensures left[0] == 0 ==> RankLeft(nibs, left[1..], text, empty + 1)
    ensures left[0] != 0 ==>
      && NibbleToPiece(left[0]).Ok?
      && RankLeft(nibs, left[1..], text + RunText(empty) + [NibbleToPiece(left[0]).value], 0)
  {
    PieceOrSpace(left[0]);
    if BadNibbleIn(nibs).None? {
      if left[0] == 0 { PrintGap(left, empty); } else { PrintPiece(text, left, empty); }
    }
  }

  /** The file loop of the decoder: one rank's text, or its first nibble that names no piece. */
  method DecodeRank(nibs: Rank) returns (r: Result<string, FenError>)
    ensures r == if BadNibbleIn(nibs).Some? then Err(BadNibble(BadNibbleIn(nibs).value)) else (BadNibbleMeans(nibs);
      Ok(PrintRank(nibs, 0)))
  {
    hide BadNibbleIn, PrintRank, RankLeft, RunText;
    var text, empty := "", 0;
    RankStart(nibs);
    ghost var left: seq<U8> := nibs;
    for file := 0 to 8
      invariant left == nibs[file..] && RankLeft(nibs, left, text, empty)
    {
      RankEnds(nibs, left, text, empty);
      PieceOrSpace(nibs[file]);
      var piece := NibbleToPiece(nibs[file]);
      if piece.Err? {
        return Err(piece.error);
      }
      RankStep(nibs, left, text, empty);
      left := left[1..];
      if piece.value == ' ' {
        empty := empty + 1;
      } else {
        RunIsDigit(text, empty);
        if empty > 0 {
          text := text + [DigitChar(empty)];
          empty := 0;
        }
        text := text + [piece.value];
      }
    }
    RankEnds(nibs, left, text, empty);
    RunIsDigit(text, empty);
    if empty > 0 {
      text := text + [DigitChar(empty)];
    }
    r := Ok(text);
  }

  lemma RankStart(nibs: Rank)
    ensures RankLeft(nibs, nibs, "", 0)
    ensures BadNibbleIn(nibs).None? ==> forall i | 0 <= i < 8 :: nibs[i] <= 12
  {
    BadNibbleMeans(nibs);
    if BadNibbleIn(nibs).None? { assert "" + PrintRank(nibs, 0) == PrintRank(nibs, 0); }
  }

  lemma RankEnds(nibs: Rank, left: seq<U8>, text: string, empty: nat)
    requires RankLeft(nibs, left, text, empty)
    ensures |left| + empty <= 8
    ensures left != [] && left[0] > 12 ==> BadNibbleIn(nibs) == Some(left[0])
    ensures left == [] ==> BadNibbleIn(nibs).None? && (forall i | 0 <= i < 8 :: nibs[i] <= 12)
                           && text + RunText(empty) == PrintRank(nibs, 0)
  {
  }

  lemma RunIsDigit(text: string, empty: nat)
    requires empty <= 8
    ensures text + RunText(empty) == if empty > 0 then text + [DigitChar(empty)] else text
  {
  }

  lemma PieceOrSpace(n: U8)
    ensures NibbleToPiece(n).Ok? <==> n <= 12
    ensures n > 12 ==> NibbleToPiece(n) == Err(BadNibble(n))
    ensures n <= 12 ==> (NibbleToPiece(n).value == ' ' <==> n == 0)
  {
  }

  lemma PrintBoardNext(fen: string, rs: seq<Rank>, i: nat)
    requires i < |rs| && AllPrintable(rs)
    ensures fen + PrintBoard(rs[i..]) ==
      if i + 1 < |rs| then fen + PrintRank(rs[i], 0) + "/" + PrintBoard(rs[i + 1..]) else fen + PrintRank(rs[i], 0)
  {
    assert rs[i..][1..] == rs[i + 1..] && rs[i..][0] == rs[i];
  }

  /** What is still to print of the board, after fen. */
  ghost predicate BoardLeft(rs: seq<Rank>, left: seq<Rank>, fen: string) {
    && FirstBad(left) == FirstBad(rs)
    && (AllPrintable(rs) && rs != [] ==>
      AllPrintable(left) && (if left == [] then fen else fen + PrintBoard(left)) == PrintBoard(rs))
  }

  lemma BoardStep(rs: seq<Rank>, left: seq<Rank>, fen: string)
    requires left != [] && BadNibbleIn(left[0]).None? && BoardLeft(rs, left, fen)
    ensures Printable(left[0]) &&
      BoardLeft(rs, left[1..], fen + PrintRank(left[0], 0) + (if |left| > 1 then "/" else ""))
  {
    BadNibbleMeans(left[0]);
    if AllPrintable(rs) && rs != [] {
      PrintBoardNext(fen, left, 0);
      assert left[0..] == left;
    }
  }

  lemma BoardEnds(rs: seq<Rank>, left: seq<Rank>, fen: string)
    requires rs != [] && BoardLeft(rs, left, fen)
    ensures left != [] && BadNibbleIn(left[0]).Some? ==> FirstBad(rs) == BadNibbleIn(left[0])
    ensures left == [] ==> AllPrintable(rs) && FirstBad(rs).None? && fen == PrintBoard(rs)
  {
    FirstBadMeans(rs);
  }

  lemma BoardStart(rs: seq<Rank>)
    requires rs != []
    ensures BoardLeft(rs, rs, "")
  {
    if AllPrintable(rs) { assert "" + PrintBoard(rs) == PrintBoard(rs); }
  }

  /** One turn of the decoder's rank loop: the i-th rank from the top, and a slash unless it is the last. */
  method DecodeNextRank(b: Bytes, i: nat, ghost rs: seq<Rank>, fen: string) returns (r: Result<string, FenError>)
    requires |b| == 32 && i < 8 && rs == UnpackBoard(b) && BoardLeft(rs, rs[i..], fen)
    ensures r.Ok? ==> BoardLeft(rs, rs[i + 1..], r.value)
    ensures r.Err? ==> FirstBad(rs).Some? && r.error == BadNibble(FirstBad(rs).value)
  {
    hide AllPrintable, BadNibbleIn, BoardLeft, FirstBad, PrintRank, Printable, UnpackBoard, UnpackRank;
    ghost var left := rs[i..];
    var nibs := UnpackRank(b[28 - 4 * i..32 - 4 * i]);
    UnpackAt(b, i);
    assert left[0] == nibs && left[1..] == rs[i + 1..];
    var rank := DecodeRank(nibs);
    BoardEnds(rs, left, fen);
    if rank.Err? {
      return Err(rank.error);
    }
    BoardStep(rs, left, fen);
    var next := fen + rank.value;
    if i < 7 {
      next := next + "/";
    } else {
      assert next + "" == next;
    }
    r := Ok(next);
  }

  /** The rank loop of the decoder, from the top rank down. */
  method DecodeBoard(b: Bytes) returns (r: Result<string, FenError>)
    requires |b| == 32
    ensures var rs := UnpackBoard(b);
      r == if FirstBad(rs).Some? then Err(BadNibble(FirstBad(rs).value)) else (FirstBadMeans(rs); Ok(PrintBoard(rs)))
  {
    hide AllPrintable, BoardLeft, FirstBad, PrintBoard, UnpackBoard;
    ghost var rs := UnpackBoard(b);
    FirstBadMeans(rs);
    BoardStart(rs);
    assert rs[0..] == rs;
    var fen := "";
    for i := 0 to 8
      invariant BoardLeft(rs, rs[i..], fen)
    {
      var next := DecodeNextRank(b, i, rs, fen);
      if next.Err? {
        return next;
      }
      fen := next.value;
    }
    assert rs[8..] == [];
    BoardEnds(rs, rs[8..], fen);
    r := Ok(fen);
  }

  /** `decode_fen`. */
  method DecodeFen(b: Bytes) returns (r: Result<string, FenError>)
    ensures r == Decode(b)
  {
    if |b| != COMPRESSED_FEN_LEN {
      return Err(BadLength(|b|));
    }
    var board := DecodeBoard(b[..32]);
    FirstBadMeans(UnpackBoard(b[..32]));
    if board.Err? {
      return board;
    }
    var flags := b[32];
    if flags >= 0x20 {
      return Err(BadFlags);
    }
    var fen := board.value + " " + SideText(flags) + " " + CastleText(flags) + " ";
    if b[33] == NO_EP {
      fen := fen + "-";
    } else {
      if b[33] > 7 {
        return Err(BadEnPassant);
      }
      fen := fen + EpText(b[33], flags);
    }
    var half, full := FromLe16(b[34], b[35]), FromLe16(b[36], b[37]);
    fen := fen + " " + Decimal(half) + " " + Decimal(full);
    Reassociate(board.value, SideText(flags), CastleText(flags), EpText(b[33], flags), Decimal(half), Decimal(full));
    r := Ok(fen);
  }

  lemma Reassociate(a: string, b: string, c: string, d: string, e: string, f: string)
    ensures a + " " + b + " " + c + " " + d + (" " + e + " " + f) ==
      a + " " + (b + " " + (c + " " + (d + " " + (e + " " + f))))
    ensures a + " " + b + " " + c + " " + d + " " + e + " " + f ==
      a + " " + (b + " " + (c + " " + (d + " " + (e + " " + f))))
  {
  }
}
