/** LoRa fragmentation and reassembly: mesh-transport/src/packet_translator.rs. */
module Fragments {
  import opened Common
  import opened Crc

  const FRAG_HEADER_LEN := 14
  const LORA_FRAG_MTU := 241

  type Hash16 = s: Bytes | |s| == 16
    witness [0, 0, 0, 0, 0, 0, 0, 0, 0, 0, 0, 0, 0, 0, 0, 0]

  datatype ReticulumPacket = ReticulumPacket(destinationHash: Hash16, data: Bytes)

  datatype LoRaFragment = LoRaFragment(messageId: U32, index: U16, count: U16, more: bool, payload: Bytes)

  datatype TranslateError =
    | EmptyPayload
    | FragmentTooLarge(len: nat, max: nat)
    | TruncatedHeader
    | TruncatedPayload
    | BadMagic
    | UnsupportedVersion(version: U8)
    | InvalidFragmentIndex(index: U16, count: U16)
    | IncompleteReassembly(have: nat, need: nat)
    | CrcMismatch
    | InconsistentMessage

  // ---------- the wire format ----------

  function Be16(n: U16): Bytes {
    [n / 256, n % 256]
  }

  function FromBe16(b: Bytes): U16
    requires |b| == 2
  {
    var hi: int := b[0];
    hi * 256 + b[1]
  }

  function Be32(n: U32): Bytes {
    Be16(n / 0x1_0000) + Be16(n % 0x1_0000)
  }

  function FromBe32(b: Bytes): U32
    requires |b| == 4
  {
    FromBe16(b[..2]) * 0x1_0000 + FromBe16(b[2..])
  }

  lemma Be16RoundTrip(n: U16)
    ensures FromBe16(Be16(n)) == n
  {
  }

  lemma Be32RoundTrip(n: U32)
    ensures |Be32(n)| == 4 && FromBe32(Be32(n)) == n
  {
    var hi, lo: U16 := n / 0x1_0000, n % 0x1_0000;
    Be16RoundTrip(hi);
    Be16RoundTrip(lo);
    assert Be32(n)[..2] == Be16(hi) && Be32(n)[2..] == Be16(lo);
  }

  function Header(f: LoRaFragment): Bytes
    requires |f.payload| <= LORA_FRAG_MTU
  {
    [0x4D, 0x4D, 1, if f.more then 1 else 0] + Be32(f.messageId) + Be16(f.index) + Be16(f.count) + Be16(|f.payload|)
  }

  function Encode(f: LoRaFragment): Result<Bytes, TranslateError> {
    if |f.payload| > LORA_FRAG_MTU then Err(FragmentTooLarge(|f.payload|, LORA_FRAG_MTU)) else Ok(Header(f) + f.payload)
  }

  function Decode(b: Bytes): Result<LoRaFragment, TranslateError> {
    if |b| < FRAG_HEADER_LEN then Err(TruncatedHeader)
    else if b[..2] != [0x4D, 0x4D] then Err(BadMagic)
    else if b[2] != 1 then Err(UnsupportedVersion(b[2]))
    else
      var id, index, count, len := FromBe32(b[4..8]), FromBe16(b[8..10]), FromBe16(b[10..12]), FromBe16(b[12..14]);
      if FRAG_HEADER_LEN + len > |b| then Err(TruncatedPayload)
      else if count == 0 || index >= count then Err(InvalidFragmentIndex(index, count))
      else Ok(LoRaFragment(id, index, count, b[3] % 2 == 1, b[FRAG_HEADER_LEN..FRAG_HEADER_LEN + len]))
  }

  lemma HeaderFields(f: LoRaFragment)
    requires |f.payload| <= LORA_FRAG_MTU
    ensures var h := Header(f);
      && |h| == FRAG_HEADER_LEN && h[..2] == [0x4D, 0x4D] && h[2] == 1 && h[3] == (if f.more then 1 else 0)
      && h[4..8] == Be32(f.messageId) && h[8..10] == Be16(f.index) && h[10..12] == Be16(f.count) &&
        h[12..14] == Be16(|f.payload|)
  {
    Be32RoundTrip(f.messageId);
  }

  /** A fragment within its bounds survives the wire; an oversized one is refused. */
  lemma EncodeDecode(f: LoRaFragment)
    requires f.index < f.count
    ensures Encode(f).Ok? <==> |f.payload| <= LORA_FRAG_MTU
    ensures Encode(f).Ok? ==> |Encode(f).value| <= LORA_MAX_PAYLOAD && Decode(Encode(f).value) == Ok(f)
  {
    if |f.payload| <= LORA_FRAG_MTU {
      var h := Header(f);
      var b := h + f.payload;
      HeaderFields(f);
      Be32RoundTrip(f.messageId);
      Be16RoundTrip(f.index);
      Be16RoundTrip(f.count);
      Be16RoundTrip(|f.payload|);
      assert b[..2] == h[..2] && b[4..8] == h[4..8] && b[8..10] == h[8..10] && b[10..12] == h[10..12] &&
        b[12..14] == h[12..14];
      assert b[2] == h[2] && b[3] == h[3];
      assert b[FRAG_HEADER_LEN..FRAG_HEADER_LEN + |f.payload|] == f.payload;
    }
  }

  /** The number whose base-256 digits these are, the first weighing most. */
  function BigEndian(b: Bytes): nat {
    if b == [] then 0 else 256 * BigEndian(b[..|b| - 1]) + b[|b| - 1]
  }

  lemma TwoBytes(b: Bytes)
    requires |b| == 2
    ensures BigEndian(b) == FromBe16(b)
  {
    var one := b[..1];
    assert one[..0] == [] && BigEndian([]) == 0;
    assert BigEndian(one) == 256 * BigEndian(one[..0]) + one[0];
  }

  lemma FourBytes(b: Bytes)
    requires |b| == 4
    ensures BigEndian(b) == FromBe32(b)
  {
    TwoBytes(b[..2]);
    assert b[..3][..2] == b[..2] && b[2..] == [b[2], b[3]];
  }

  lemma NumbersRead(b: Bytes)
    requires |b| >= 14
    ensures BigEndian(b[4..8]) == FromBe32(b[4..8]) && BigEndian(b[8..10]) == FromBe16(b[8..10])
    ensures BigEndian(b[10..12]) == FromBe16(b[10..12]) && BigEndian(b[12..14]) == FromBe16(b[12..14])
  {
    FourBytes(b[4..8]);
    TwoBytes(b[8..10]);
    TwoBytes(b[10..12]);
    TwoBytes(b[12..14]);
  }

  /** Where the wire keeps what, every number with its high byte first. */
  predicate Laid(b: Bytes, f: LoRaFragment) {
    && |b| >= 14 + |f.payload| && b[0] == 0x4D && b[1] == 0x4D && b[2] == 1 && (b[3] % 2 == 1 <==> f.more)
    && BigEndian(b[4..8]) == f.messageId && BigEndian(b[8..10]) == f.index && BigEndian(b[10..12]) == f.count
    && BigEndian(b[12..14]) == |f.payload| && b[14..14 + |f.payload|] == f.payload
  }

  /** A fragment of at most 241 bytes is encoded as laid out, with nothing after it and no spare flag set. */
  lemma EncodedIsLaid(f: LoRaFragment)
    ensures Encode(f).Ok? <==> |f.payload| <= 241
    ensures Encode(f).Ok? ==> var b := Encode(f).value; |b| == 14 + |f.payload| && b[3] <= 1 && Laid(b, f)
  {
    if |f.payload| <= 241 {
      hide BigEndian;
      var h := Header(f);
      var b := h + f.payload;
      HeaderFields(f);
      NumbersRead(b);
      Be32RoundTrip(f.messageId);
      Be16RoundTrip(f.index);
      Be16RoundTrip(f.count);
      Be16RoundTrip(|f.payload|);
      assert b[..14] == h && b[14..] == f.payload && h[..2] == [h[0], h[1]];
      assert b[4..8] == h[4..8] && b[8..10] == h[8..10] && b[10..12] == h[10..12] && b[12..14] == h[12..14];
    }
  }

  /** Bytes are accepted exactly when some fragment with an index below its count is laid out in them. */
  lemma DecodedIsLaid(b: Bytes)
    ensures Decode(b).Ok? <==> exists f :: Laid(b, f) && f.index < f.count
    ensures Decode(b).Ok? ==> Laid(b, Decode(b).value) && Decode(b).value.index < Decode(b).value.count
  {
    hide BigEndian, FromBe16, FromBe32;
    if |b| >= 14 {
      NumbersRead(b);
      assert b[..2] == [b[0], b[1]];
    }
  }

  function ToLoraFrame(f: LoRaFragment): Result<LoraFrame, TranslateError> {
    var b := Encode(f);
    if b.Err? then Err(b.error)
    else
      var frame := NewFrame(b.value);
      if frame.Err? then Err(FragmentTooLarge(frame.error.len, frame.error.max)) else Ok(frame.value)
  }

  function FromLoraFrame(frame: LoraFrame): Result<LoRaFragment, TranslateError> {
    if !VerifyCrc(frame) then Err(CrcMismatch) else Decode(frame.payload)
  }

  lemma FrameRoundTrip(f: LoRaFragment)
    requires f.index < f.count && |f.payload| <= LORA_FRAG_MTU
    ensures ToLoraFrame(f).Ok? && FromLoraFrame(ToLoraFrame(f).value) == Ok(f)
  {
    EncodeDecode(f);
  }

  // ---------- splitting ----------

  function CeilDiv(n: nat): nat {
    (n + LORA_FRAG_MTU - 1) / LORA_FRAG_MTU
  }

  /** `div_ceil(mtu) as u16`. */
  function Count(len: nat): U16 {
    CeilDiv(len) % 0x1_0000
  }

  /** Where the payload bytes of a fragment start; below the payload's end for every index in use. */
  function StartOf(index: U16, len: nat): nat {
    Min(index * LORA_FRAG_MTU, len)
  }

  function Part(id: U32, payload: Bytes, index: U16): LoRaFragment {
    var count := Count(|payload|);
    var end := Min(index * LORA_FRAG_MTU + LORA_FRAG_MTU, |payload|);
    LoRaFragment(id, index, count, index + 1 < count, payload[StartOf(index, |payload|)..end])
  }

  function Split(id: U32, payload: Bytes): Result<seq<LoRaFragment>, TranslateError> {
    if payload == [] || Count(|payload|) == 0 then Err(EmptyPayload)
    else Ok(seq(Count(|payload|), i requires 0 <= i < Count(|payload|) => Part(id, payload, i)))
  }

  /** `fragment_payload`. */
  method FragmentPayload(id: U32, payload: Bytes) returns (r: Result<seq<LoRaFragment>, TranslateError>)
    ensures r == Split(id, payload)
  {
    if payload == [] {
      return Err(EmptyPayload);
    }
    var count: U16 := CeilDiv(|payload|) % 0x1_0000;
    if count == 0 {
      return Err(EmptyPayload);
    }
    var frags: seq<LoRaFragment> := [];
    for index := 0 to count
      invariant |frags| == index && forall i | 0 <= i < index :: frags[i] == Part(id, payload, i)
    {
      var start := index * LORA_FRAG_MTU;
      var end := Min(start + LORA_FRAG_MTU, |payload|);
      frags := frags + [LoRaFragment(id, index, count, index + 1 < count, payload[start..end])];
    }
    assert frags == Split(id, payload).value;
    r := Ok(frags);
  }

  lemma CountInFigures(len: nat)
    requires 0 < len <= 0xFFFF * 241
    ensures 0 < Count(len) && 241 * (Count(len) - 1) < len <= 241 * Count(len)
  {
    CeilDivBounds(len);
  }

  lemma PartInFigures(id: U32, payload: Bytes, i: U16)
    requires 241 * i < |payload|
    ensures Part(id, payload, i).payload == payload[241 * i..Min(241 * i + 241, |payload|)]
  {
    hide Count;
  }

  /** While its fragments can be counted in 16 bits, a payload is cut every 241 bytes, in order. */
  lemma SplitInFigures(id: U32, payload: Bytes, i: nat)
    requires 0 < |payload| <= 0xFFFF * 241
    ensures Split(id, payload).Ok?
    ensures var fs := Split(id, payload).value;
      && 241 * (|fs| - 1) < |payload| <= 241 * |fs|
      && (i < |fs| ==>
            && fs[i].messageId == id && fs[i].index == i && fs[i].count == |fs| && (fs[i].more <==> i + 1 < |fs|)
            && fs[i].payload == payload[241 * i..Min(241 * i + 241, |payload|)])
  {
    CountInFigures(|payload|);
    if i < Count(|payload|) { PartInFigures(id, payload, i); }
  }

  function Blob(p: ReticulumPacket): Bytes {
    p.destinationHash + p.data
  }

  /** `collect` into a Result: every value, or the first error. */
  function Collect<T>(rs: seq<Result<T, TranslateError>>): Result<seq<T>, TranslateError> {
    if rs == [] then Ok([])
    else if rs[0].Err? then Err(rs[0].error)
    else
      var rest := Collect(rs[1..]);
      if rest.Err? then rest else Ok([rs[0].value] + rest.value)
  }

  lemma {:induction false} CollectOk<T>(rs: seq<Result<T, TranslateError>>, xs: seq<T>)
    requires |xs| == |rs| && forall i | 0 <= i < |rs| :: rs[i] == Ok(xs[i])
    ensures Collect(rs) == Ok(xs)
  {
    if rs != [] {
      CollectOk(rs[1..], xs[1..]);
      assert xs == [xs[0]] + xs[1..];
    }
  }

  lemma {:induction false} CollectLength<T>(rs: seq<Result<T, TranslateError>>)
    ensures Collect(rs).Ok? ==> |Collect(rs).value| == |rs|
  {
    if rs != [] { CollectLength(rs[1..]); }
  }

  function ToFrames(frags: seq<LoRaFragment>): Result<seq<LoraFrame>, TranslateError> {
    Collect(seq(|frags|, i requires 0 <= i < |frags| => ToLoraFrame(frags[i])))
  }

  /** `mesh_to_lora_frames`, with the message id already derived. */
  function MeshToLoraFrames(p: ReticulumPacket, id: U32): Result<seq<LoraFrame>, TranslateError> {
    var frags := Split(id, Blob(p));
    if frags.Err? then Err(frags.error) else ToFrames(frags.value)
  }

  // ---------- reassembly ----------

  type Slots = seq<Option<Bytes>>

  predicate IsComplete(slots: Slots) {
    forall i | 0 <= i < |slots| :: slots[i].Some?
  }

  function HaveCount(slots: Slots): nat {
    if slots == [] then 0 else (if slots[0].Some? then 1 else 0) + HaveCount(slots[1..])
  }

  function Accepted(slots: Slots, id: U32, f: LoRaFragment): Result<Slots, TranslateError>
    requires |slots| < 0x1_0000
  {
    if f.messageId != id || f.count != |slots| then Err(InconsistentMessage)
    else if f.index >= |slots| then Err(InvalidFragmentIndex(f.index, |slots|))
    else if slots[f.index].Some? then
      if slots[f.index].value != f.payload then Err(InconsistentMessage) else Ok(slots)
    else Ok(slots[f.index := Some(f.payload)])
  }

  /** A fragment is taken exactly if it is of this message and its slot is empty or already holds the same bytes. */
  lemma AcceptedIff(slots: Slots, id: U32, f: LoRaFragment)
    requires |slots| < 0x1_0000
    ensures Accepted(slots, id, f).Ok? <==>
      && f.messageId == id && f.count == |slots| && f.index < |slots|
      && (slots[f.index] == None || slots[f.index] == Some(f.payload))
    ensures Accepted(slots, id, f).Ok? ==> Accepted(slots, id, f).value == slots[f.index := Some(f.payload)]
  {
  }

  function Concat(slots: Slots): Bytes {
    if slots == [] then []
    else Concat(slots[..|slots| - 1]) + (if slots[|slots| - 1].Some? then slots[|slots| - 1].value else [])
  }

  function Assembled(slots: Slots): Result<Bytes, TranslateError> {
    if !IsComplete(slots) then Err(IncompleteReassembly(HaveCount(slots), |slots|)) else Ok(Concat(slots))
  }

  class ReassemblyBuffer {
    const messageId: U32
    const count: U16
    var slots: Slots

    constructor (messageId: U32, count: U16)
      ensures this.messageId == messageId && this.count == count
      ensures |slots| == count && forall i | 0 <= i < count :: slots[i] == None
    {
      this.messageId, this.count := messageId, count;
      slots := seq(count, _ => None);
    }

    /** `accept`: fills an empty slot, tolerates an identical repeat, refuses everything else. */
    method Accept(f: LoRaFragment) returns (r: Result<bool, TranslateError>)
      requires |slots| == count
      modifies this
      ensures var a := Accepted(old(slots), messageId, f);
        && slots == (if a.Ok? then a.value else old(slots))
        && r == (if a.Ok? then Ok(IsComplete(slots)) else Err(a.error))
    {
      if f.messageId != messageId {
        return Err(InconsistentMessage);
      }
      if f.count != count {
        return Err(InconsistentMessage);
      }
      if f.index >= |slots| {
        return Err(InvalidFragmentIndex(f.index, count));
      }
      if slots[f.index].Some? {
        if slots[f.index].value != f.payload {
          return Err(InconsistentMessage);
        }
      } else {
        slots := slots[f.index := Some(f.payload)];
      }
      r := Ok(IsComplete(slots));
    }

    /** `assemble`. */
    method Assemble() returns (r: Result<Bytes, TranslateError>)
      ensures r == Assembled(slots)
    {
      if !IsComplete(slots) {
        return Err(IncompleteReassembly(HaveCount(slots), |slots|));
      }
      var out: Bytes := [];
      for i := 0 to |slots|
        invariant out == Concat(slots[..i])
      {
        assert slots[..i + 1][..i] == slots[..i];
        out := out + slots[i].value;
      }
      assert slots[..|slots|] == slots;
      r := Ok(out);
    }
  }

  function FillAll(slots: Slots, id: U32, frags: seq<LoRaFragment>): Result<Slots, TranslateError>
    requires |slots| < 0x1_0000
    decreases |frags|
  {
    if frags == [] then Ok(slots)
    else
      var next := Accepted(slots, id, frags[0]);
      if next.Err? then Err(next.error) else FillAll(next.value, id, frags[1..])
  }

  function FromFrames(frames: seq<LoraFrame>): Result<seq<LoRaFragment>, TranslateError> {
    Collect(Decoded(frames))
  }

  function Decoded(frames: seq<LoraFrame>): seq<Result<LoRaFragment, TranslateError>> {
    seq(|frames|, i requires 0 <= i < |frames| => FromLoraFrame(frames[i]))
  }

  function InsertByIndex(f: LoRaFragment, fs: seq<LoRaFragment>): (r: seq<LoRaFragment>)
    ensures |r| == |fs| + 1 && forall g :: g in r <==> g == f || g in fs
  {
    if fs == [] then [f]
    else if f.index <= fs[0].index then [f] + fs
    else
      assert fs == [fs[0]] + fs[1..];
      [fs[0]] + InsertByIndex(f, fs[1..])
  }

  /** `sort_by_key` on the index, stable. */
  function SortByIndex(fs: seq<LoRaFragment>): (r: seq<LoRaFragment>)
    ensures |r| == |fs| && forall g :: g in r <==> g in fs
  {
    if fs == [] then []
    else
      assert fs == [fs[0]] + fs[1..];
      InsertByIndex(fs[0], SortByIndex(fs[1..]))
  }

  /** What is left to do once the slots are filled. */
  function Finish(slots: Slots): Result<ReticulumPacket, TranslateError> {
    var blob := Assembled(slots);
    if blob.Err? then Err(blob.error)
    else if |blob.value| < 16 then Err(TruncatedPayload)
    else Ok(ReticulumPacket(blob.value[..16], blob.value[16..]))
  }

  function FromFragments(frags: seq<LoRaFragment>): Result<ReticulumPacket, TranslateError>
    requires frags != []
  {
    var sorted := SortByIndex(frags);
    var slots := FillAll(seq(sorted[0].count, _ => None), sorted[0].messageId, sorted);
    if slots.Err? then Err(slots.error) else Finish(slots.value)
  }

  function Reassembled(frames: seq<LoraFrame>): Result<ReticulumPacket, TranslateError> {
    if frames == [] then Err(EmptyPayload)
    else
      var frags := FromFrames(frames);
      if frags.Err? then Err(frags.error)
      else
        CollectLength(Decoded(frames));
        FromFragments(frags.value)
  }

  /** `reassemble_mesh_packet`. */
  method ReassembleMeshPacket(frames: seq<LoraFrame>) returns (r: Result<ReticulumPacket, TranslateError>)
    ensures r == Reassembled(frames)
  {
    hide FromLoraFrame;
    if frames == [] {
      return Err(EmptyPayload);
    }
    var frags := FromFrames(frames);
    if frags.Err? {
      return Err(frags.error);
    }
    CollectLength(Decoded(frames));
    var sorted := SortByIndex(frags.value);
    var first := sorted[0];
    var buf := new ReassemblyBuffer(first.messageId, first.count);
    assert buf.slots == seq(first.count, _ => None);
    ghost var goal := FillAll(buf.slots, first.messageId, sorted);
    assert sorted[0..] == sorted;
    for i := 0 to |sorted|
      invariant |buf.slots| == buf.count
      invariant FillAll(buf.slots, first.messageId, sorted[i..]) == goal
    {
      assert sorted[i..][1..] == sorted[i + 1..];
      var ok := buf.Accept(sorted[i]);
      if ok.Err? {
        return Err(ok.error);
      }
    }
    var blob := buf.Assemble();
    if blob.Err? {
      return Err(blob.error);
    }
    if |blob.value| < 16 {
      return Err(TruncatedPayload);
    }
    r := Ok(ReticulumPacket(blob.value[..16], blob.value[16..]));
  }

  // ---------- the round trip ----------

  lemma CeilDivBounds(n: nat)
    ensures n <= CeilDiv(n) * LORA_FRAG_MTU < n + LORA_FRAG_MTU
  {
  }

  /** Every fragment of a message survives framing. */
  lemma ToFramesMember(frags: seq<LoRaFragment>)
    requires forall f | f in frags :: f.index < f.count && |f.payload| <= LORA_FRAG_MTU
    ensures ToFrames(frags).Ok? && |ToFrames(frags).value| == |frags|
    ensures forall i | 0 <= i < |frags| :: FromLoraFrame(ToFrames(frags).value[i]) == Ok(frags[i])
  {
    forall i | 0 <= i < |frags|
      ensures ToLoraFrame(frags[i]).Ok? && FromLoraFrame(ToLoraFrame(frags[i]).value) == Ok(frags[i]) {
      FrameRoundTrip(frags[i]);
    }
    var frames := seq(|frags|, i requires 0 <= i < |frags| => ToLoraFrame(frags[i]).value);
    CollectOk(seq(|frags|, i requires 0 <= i < |frags| => ToLoraFrame(frags[i])), frames);
  }

  lemma SplitParts(id: U32, payload: Bytes)
    requires Split(id, payload).Ok?
    ensures forall f | f in Split(id, payload).value ::
      && f.index < f.count && |f.payload| <= LORA_FRAG_MTU
      && f.count == Count(|payload|) && f == Part(id, payload, f.index)
  {
    var c := Count(|payload|);
    forall f | f in Split(id, payload).value
      ensures f.index < f.count && |f.payload| <= LORA_FRAG_MTU && f.count == c && f == Part(id, payload, f.index) {
      var i :| 0 <= i < c && f == Part(id, payload, i);
    }
  }

  /** What arrived: frames of one message, in any order and number. */
  ghost predicate Arrived(frames: seq<LoraFrame>, sent: seq<LoraFrame>) {
    frames != [] && forall x | x in frames :: x in sent
  }

  ghost predicate IndexIn(fs: seq<LoRaFragment>, k: nat) {
    exists f :: f in fs && f.index == k
  }

  /** Slots hold exactly the parts whose index is among fs. */
  ghost predicate Holding(slots: Slots, id: U32, payload: Bytes, fs: seq<LoRaFragment>) {
    && |slots| == Count(|payload|)
    && forall k: U16 | k < |slots| :: slots[k] == if IndexIn(fs, k) then Some(Part(id, payload, k).payload) else None
  }

  lemma FillOne(slots: Slots, id: U32, payload: Bytes, fs: seq<LoRaFragment>, f: LoRaFragment)
    requires Holding(slots, id, payload, fs) && f.index < Count(|payload|) && f == Part(id, payload, f.index)
    ensures Accepted(slots, id, f).Ok? && Holding(Accepted(slots, id, f).value, id, payload, fs + [f])
  {
    var r := Accepted(slots, id, f);
    forall k: U16 | k < |slots| ensures IndexIn(fs + [f], k) <==> IndexIn(fs, k) || k == f.index {
      if IndexIn(fs, k) {
        var g :| g in fs && g.index == k;
        assert g in fs + [f];
      }
      if k == f.index { assert f in fs + [f]; }
    }
  }

  lemma {:induction false} FillMany(slots: Slots, id: U32, payload: Bytes, done: seq<LoRaFragment>,
      fs: seq<LoRaFragment>)
    requires Holding(slots, id, payload, done)
    requires forall f | f in fs :: f.index < Count(|payload|) && f == Part(id, payload, f.index)
    ensures FillAll(slots, id, fs).Ok? && Holding(FillAll(slots, id, fs).value, id, payload, done + fs)
    decreases |fs|
  {
    if fs == [] {
      assert done + fs == done;
    } else {
      FillOne(slots, id, payload, done, fs[0]);
      FillMany(Accepted(slots, id, fs[0]).value, id, payload, done + [fs[0]], fs[1..]);
      assert done + [fs[0]] + fs[1..] == done + fs;
    }
  }

  /** Full slots spell out the payload from its start. */
  lemma {:induction false} ConcatParts(slots: Slots, id: U32, payload: Bytes, n: nat)
    requires |slots| == Count(|payload|) && n <= |slots|
    requires forall k: U16 | k < |slots| :: slots[k] == Some(Part(id, payload, k).payload)
    ensures Concat(slots[..n]) == payload[..Min(n * LORA_FRAG_MTU, |payload|)]
  {
    hide Count, Part;
    if n > 0 {
      ConcatParts(slots, id, payload, n - 1);
      assert slots[..n][..n - 1] == slots[..n - 1];
      var k: U16 := n - 1;
      PartBytes(id, payload, k);
      var start := k * LORA_FRAG_MTU;
      var end := Min(start + LORA_FRAG_MTU, |payload|);
      assert slots[..n][n - 1] == Some(payload[start..end]);
      SliceJoin(payload, start, end);
    }
  }

  lemma PartBytes(id: U32, payload: Bytes, k: U16)
    requires k < Count(|payload|)
    ensures var start := k * LORA_FRAG_MTU;
      start < |payload| && Part(id, payload, k).payload == payload[start..Min(start + LORA_FRAG_MTU, |payload|)]
  {
    CeilDivBounds(|payload|);
  }

  lemma SliceJoin(b: Bytes, i: nat, j: nat)
    requires i <= j <= |b|
    ensures b[..i] + b[i..j] == b[..j]
  {
  }

  /** sent[k] decodes to fragment k of the payload. */
  ghost predicate Carries(sent: seq<LoraFrame>, id: U32, payload: Bytes) {
    |sent| == Count(|payload|) && forall k: U16 | k < |sent| :: FromLoraFrame(sent[k]) == Ok(Part(id, payload, k))
  }

  /** The fragments a message is sent in. */
  lemma SentFragments(id: U32, payload: Bytes)
    requires Split(id, payload).Ok?
    ensures ToFrames(Split(id, payload).value).Ok? && Carries(ToFrames(Split(id, payload).value).value, id, payload)
  {
    SplitParts(id, payload);
    ToFramesMember(Split(id, payload).value);
  }

  lemma OneArrival(id: U32, payload: Bytes, sent: seq<LoraFrame>, x: LoraFrame) returns (k: U16)
    requires Carries(sent, id, payload) && x in sent
    ensures k < |sent| && x == sent[k] && FromLoraFrame(x) == Ok(Part(id, payload, k))
  {
    var i :| 0 <= i < |sent| && sent[i] == x;
    k := i;
  }

  /** What the receiver decodes from the frames of one message. */
  lemma ArrivedFragments(id: U32, payload: Bytes, sent: seq<LoraFrame>, frames: seq<LoraFrame>)
    requires Carries(sent, id, payload) && Arrived(frames, sent)
    ensures FromFrames(frames).Ok? && |FromFrames(frames).value| == |frames|
    ensures forall i | 0 <= i < |frames| :: FromLoraFrame(frames[i]) == Ok(FromFrames(frames).value[i])
    ensures forall f | f in FromFrames(frames).value :: f.index < Count(|payload|) && f == Part(id, payload, f.index)
  {
    forall i | 0 <= i < |frames| ensures FromLoraFrame(frames[i]).Ok? {
      var k := OneArrival(id, payload, sent, frames[i]);
    }
    var fs := seq(|frames|, i requires 0 <= i < |frames| => FromLoraFrame(frames[i]).value);
    CollectOk(Decoded(frames), fs);
    forall f | f in fs ensures f.index < Count(|payload|) && f == Part(id, payload, f.index) {
      var i :| 0 <= i < |fs| && fs[i] == f;
      var k := OneArrival(id, payload, sent, frames[i]);
    }
  }

  lemma ArrivedIndices(id: U32, payload: Bytes, sent: seq<LoraFrame>, frames: seq<LoraFrame>, fs: seq<LoRaFragment>,
      k: U16)
    requires Carries(sent, id, payload) && Arrived(frames, sent) && k < |sent|
    requires |fs| == |frames| && forall i | 0 <= i < |frames| :: FromLoraFrame(frames[i]) == Ok(fs[i])
    ensures IndexIn(fs, k) <==> sent[k] in frames
  {
    if IndexIn(fs, k) {
      var f :| f in fs && f.index == k;
      var i :| 0 <= i < |fs| && fs[i] == f;
      var j := OneArrival(id, payload, sent, frames[i]);
    }
    if sent[k] in frames {
      var i :| 0 <= i < |frames| && frames[i] == sent[k];
      assert fs[i] in fs && fs[i].index == k;
    }
  }

  lemma {:induction false} HaveFewer(slots: Slots)
    ensures HaveCount(slots) <= |slots| && (HaveCount(slots) == |slots| <==> IsComplete(slots))
  {
    if slots != [] {
      HaveFewer(slots[1..]);
      assert forall i | 0 < i < |slots| :: slots[i] == slots[1..][i - 1];
    }
  }

  /** The slots once every fragment in fs is in. */
  lemma FilledFrom(id: U32, payload: Bytes, fs: seq<LoRaFragment>) returns (slots: Slots)
    requires fs != [] && forall f | f in fs :: f.index < Count(|payload|) && f == Part(id, payload, f.index)
    ensures |slots| == Count(|payload|) && FromFragments(fs) == Finish(slots)
    ensures forall k: U16 | k < |slots| ::
      slots[k] == if IndexIn(fs, k) then Some(Part(id, payload, k).payload) else None
  {
    var sorted := SortByIndex(fs);
    assert sorted[0] in fs;
    var empty: Slots := seq(Count(|payload|), _ => None);
    FillMany(empty, id, payload, [], sorted);
    assert [] + sorted == sorted;
    slots := FillAll(empty, id, sorted).value;
    assert forall k :: IndexIn(sorted, k) <==> IndexIn(fs, k);
  }

  /** The slots once everything that arrived is in. */
  lemma FilledSlots(id: U32, payload: Bytes, sent: seq<LoraFrame>, frames: seq<LoraFrame>) returns (slots: Slots)
    requires Carries(sent, id, payload) && Arrived(frames, sent)
    ensures |slots| == |sent| && Reassembled(frames) == Finish(slots)
    ensures forall k: U16 | k < |sent| ::
      slots[k] == if sent[k] in frames then Some(Part(id, payload, k).payload) else None
  {
    ArrivedFragments(id, payload, sent, frames);
    var fs := FromFrames(frames).value;
    slots := FilledFrom(id, payload, fs);
    forall k: U16 | k < |sent| ensures IndexIn(fs, k) <==> sent[k] in frames {
      ArrivedIndices(id, payload, sent, frames, fs, k);
    }
  }

  /**
    Any arrangement of a message's frames, with any repetitions, gives the packet back exactly when
    no frame is missing and the fragment count was not truncated to 16 bits.
   */
  lemma RoundTripIff(p: ReticulumPacket, id: U32, sent: seq<LoraFrame>, frames: seq<LoraFrame>)
    requires MeshToLoraFrames(p, id) == Ok(sent) && Arrived(frames, sent)
    ensures Reassembled(frames) == Ok(p) <==> (forall x | x in sent :: x in frames) && CeilDiv(|Blob(p)|) <= 0xFFFF
    ensures (forall x | x in sent :: x in frames) ==> Reassembled(frames).Ok?
    ensures !(forall x | x in sent :: x in frames) ==>
      exists have: nat :: have < |sent| && Reassembled(frames) == Err(IncompleteReassembly(have, |sent|))
  {
    SentFragments(id, Blob(p));
    var slots := FilledSlots(id, Blob(p), sent, frames);
    if x :| x in sent && x !in frames {
      var k := OneArrival(id, Blob(p), sent, x);
      assert slots[k] == None;
      HaveFewer(slots);
      assert Reassembled(frames) == Err(IncompleteReassembly(HaveCount(slots), |sent|));
    } else {
      forall k: U16 | k < |sent| ensures slots[k] == Some(Part(id, Blob(p), k).payload) {
        assert sent[k] in sent;
      }
      WholeMessage(p, id, slots);
    }
  }

  lemma WholeMessage(p: ReticulumPacket, id: U32, slots: Slots)
    requires |slots| == Count(|Blob(p)|) > 0
    requires forall k: U16 | k < |slots| :: slots[k] == Some(Part(id, Blob(p), k).payload)
    ensures Finish(slots).Ok? && (Finish(slots) == Ok(p) <==> CeilDiv(|Blob(p)|) <= 0xFFFF)
  {
    hide Part;
    var b := Blob(p);
    var c := |slots|;
    forall i | 0 <= i < c ensures slots[i].Some? {
      var k: U16 := i;
      assert slots[k].Some?;
    }
    ConcatParts(slots, id, b, c);
    assert slots[..c] == slots;
    CeilDivBounds(|b|);
    var got := Concat(slots);
    assert got == b[..Min(c * LORA_FRAG_MTU, |b|)];
    if CeilDiv(|b|) <= 0xFFFF {
      assert got == b && b[..16] == p.destinationHash && b[16..] == p.data;
    } else {
      assert |got| < |b|;
    }
  }

  /**
    A packet one byte past 65536 fragments is sent as a single frame, which reassembles without an
    error to something else.
   */
  lemma TruncatedCountLosesData(destination: Hash16, data: Bytes, id: U32)
    requires |data| == 0x1_0000 * LORA_FRAG_MTU - 15
    ensures var p := ReticulumPacket(destination, data);
      var r := MeshToLoraFrames(p, id);
      r.Ok? && |r.value| == 1 && Reassembled(r.value).Ok? && Reassembled(r.value) != Ok(p)
  {
    hide ToLoraFrame, VerifyCrc;
    var p := ReticulumPacket(destination, data);
    assert |Blob(p)| == 0x1_0000 * LORA_FRAG_MTU + 1 && CeilDiv(|Blob(p)|) == 0x1_0001;
    SendsIff(p, id);
    SentFragments(id, Blob(p));
    var sent := MeshToLoraFrames(p, id).value;
    assert |sent| == 1;
    RoundTripIff(p, id, sent, sent);
  }

  /** A packet can be sent at all unless its fragment count is a multiple of 65536. */
  lemma SendsIff(p: ReticulumPacket, id: U32)
    ensures MeshToLoraFrames(p, id).Ok? <==> CeilDiv(|Blob(p)|) % 0x1_0000 != 0
  {
    if Split(id, Blob(p)).Ok? { SentFragments(id, Blob(p)); }
  }
}
