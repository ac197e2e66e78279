/** Relay fragments for legacy BLE: mesh-transport/src/ble_mesh.rs. */
module BleRelay {
  import opened Common
  import opened Fragments

  const BLE_LEGACY_MTU := 20
  const BLE_RELAY_HEADER_LEN := 4
  const BLE_RELAY_PAYLOAD_LEN := 16
  const BLE_MAX_PAYLOAD := 4080

  datatype BleRelayFragment = BleRelayFragment(messageId: U16, index: U8, count: U8, payload: Bytes)

  // ---------- the wire format ----------

  function EncodeBle(f: BleRelayFragment): Bytes {
    Be16(f.messageId) + [f.index, f.count] + f.payload
  }

  function DecodeBle(b: Bytes): Option<BleRelayFragment> {
    if |b| < BLE_RELAY_HEADER_LEN || |b| > BLE_LEGACY_MTU then None
    else Some(BleRelayFragment(FromBe16(b[..2]), b[2], b[3], b[BLE_RELAY_HEADER_LEN..]))
  }

  /** The wire carries a fragment exactly when it fits the 20-byte ceiling. */
  lemma BleWireRoundTrip(f: BleRelayFragment)
    ensures DecodeBle(EncodeBle(f)) == Some(f) <==> |f.payload| <= BLE_RELAY_PAYLOAD_LEN
  {
    Be16RoundTrip(f.messageId);
    var b := EncodeBle(f);
    assert b[..2] == Be16(f.messageId) && b[2] == f.index && b[3] == f.count && b[4..] == f.payload;
  }

  /** Where the wire keeps what: message id, high byte first, then index, count and payload, in 4 to 20 bytes. */
  lemma BleLayout(b: Bytes)
    ensures DecodeBle(b).Some? <==> 4 <= |b| <= 20
    ensures DecodeBle(b).Some? ==> var f := DecodeBle(b).value;
      f.messageId == BigEndian(b[..2]) && f.index == b[2] && f.count == b[3] && f.payload == b[4..]
  {
    if |b| >= 2 { TwoBytes(b[..2]); }
  }

  /** A fragment of at most sixteen bytes is the only one its wire form stands for. */
  lemma BleEncoded(f: BleRelayFragment)
    requires |f.payload| <= 16
    ensures |EncodeBle(f)| == 4 + |f.payload| <= 20 && DecodeBle(EncodeBle(f)) == Some(f)
  {
    BleWireRoundTrip(f);
  }

  // ---------- splitting ----------

  function BleCount(len: nat): U8 {
    Min((len + BLE_RELAY_PAYLOAD_LEN - 1) / BLE_RELAY_PAYLOAD_LEN, 255)
  }

  function BlePart(id: U16, payload: Bytes, index: U8): BleRelayFragment {
    var start := Min(index * BLE_RELAY_PAYLOAD_LEN, |payload|);
    var end := Min(index * BLE_RELAY_PAYLOAD_LEN + BLE_RELAY_PAYLOAD_LEN, |payload|);
    BleRelayFragment(id, index, BleCount(|payload|), payload[start..end])
  }

  /** `fragment_ble_payload`. */
  function BleSplit(id: U16, payload: Bytes): seq<BleRelayFragment> {
    if payload == [] then []
    else seq(BleCount(|payload|), i requires 0 <= i < BleCount(|payload|) => BlePart(id, payload, i))
  }

  // ---------- reassembly ----------

  datatype BleState = BleState(messageId: Option<U16>, count: U8, parts: Slots)

  function Opened(s: BleState, f: BleRelayFragment): BleState {
    if s.messageId.None? then BleState(Some(f.messageId), f.count, seq(f.count, _ => None)) else s
  }

  function BleAccept(s0: BleState, f: BleRelayFragment): (BleState, Option<Bytes>) {
    var s := Opened(s0, f);
    if s.messageId != Some(f.messageId) || f.count != s.count then (s, None)
    else if f.index >= |s.parts| then (s, None)
    else
      var parts := s.parts[f.index := Some(f.payload)];
      if IsComplete(parts) then (BleState(None, s.count, []), Some(Concat(parts))) else (s.(parts := parts), None)
  }

  /** A fragment under an index already heard replaces what was there. */
  lemma LaterFragmentReplaces(s: BleState, f: BleRelayFragment)
    requires s.messageId == Some(f.messageId) && s.count == f.count && f.index < |s.parts|
    requires exists i :: 0 <= i < |s.parts| && i != f.index && s.parts[i].None?
    ensures BleAccept(s, f) == (s.(parts := s.parts[f.index := Some(f.payload)]), None)
  {
    var i :| 0 <= i < |s.parts| && i != f.index && s.parts[i].None?;
    assert s.parts[f.index := Some(f.payload)][i].None?;
  }

  class BleRelayReassembler {
    var messageId: Option<U16>
    var count: U8
    var parts: Slots

    function State(): BleState
      reads this
    {
      BleState(messageId, count, parts)
    }

    constructor ()
      ensures State() == BleState(None, 0, [])
    {
      messageId, count, parts := None, 0, [];
    }

    /** `accept`. */
    method Accept(f: BleRelayFragment) returns (r: Option<Bytes>)
      modifies this
      ensures (State(), r) == BleAccept(old(State()), f)
    {
      if messageId.None? {
        messageId := Some(f.messageId);
        count := f.count;
        parts := seq(f.count, _ => None);
      }
      if messageId != Some(f.messageId) || f.count != count {
        return None;
      }
      var idx := f.index;
      if idx >= |parts| {
        return None;
      }
      parts := parts[idx := Some(f.payload)];
      if IsComplete(parts) {
        var out: Bytes := [];
        for i := 0 to |parts|
          invariant out == Concat(parts[..i])
        {
          assert parts[..i + 1][..i] == parts[..i];
          out := out + parts[i].value;
        }
        assert parts[..|parts|] == parts;
        parts := [];
        messageId := None;
        return Some(out);
      } else {
        return None;
      }
    }
  }

  // ---------- runs ----------

  function AfterBle(s: BleState, fs: seq<BleRelayFragment>): BleState {
    if fs == [] then s else BleAccept(AfterBle(s, fs[..|fs| - 1]), fs[|fs| - 1]).0
  }

  /** What the reassembler answers to the last fragment of a run. */
  function LastAnswer(s: BleState, fs: seq<BleRelayFragment>): Option<Bytes>
    requires fs != []
  {
    BleAccept(AfterBle(s, fs[..|fs| - 1]), fs[|fs| - 1]).1
  }

  ghost predicate IndexSeen(fs: seq<BleRelayFragment>, k: nat) {
    exists f :: f in fs && f.index == k
  }

  /** Some fragment of the message is still missing. */
  ghost predicate StillMissing(fs: seq<BleRelayFragment>, count: nat) {
    exists k: U8 :: k < count && !IndexSeen(fs, k)
  }

  /** The state after fragments of one message that do not yet complete it. */
  ghost predicate Collecting(s: BleState, id: U16, payload: Bytes, fs: seq<BleRelayFragment>) {
    var c := BleCount(|payload|);
    && s.messageId == Some(id) && s.count == c && |s.parts| == c
    && forall k: U8 | k < c :: s.parts[k] == if IndexSeen(fs, k) then Some(BlePart(id, payload, k).payload) else None
  }

  ghost predicate OfMessage(fs: seq<BleRelayFragment>, id: U16, payload: Bytes) {
    payload != [] && forall f | f in fs :: f in BleSplit(id, payload)
  }

  lemma PartOf(f: BleRelayFragment, id: U16, payload: Bytes)
    requires payload != [] && f in BleSplit(id, payload)
    ensures f.index < BleCount(|payload|) && f == BlePart(id, payload, f.index)
  {
    var i :| 0 <= i < BleCount(|payload|) && f == BlePart(id, payload, i);
  }

  lemma SeenSnoc(fs: seq<BleRelayFragment>, f: BleRelayFragment)
    ensures forall k :: IndexSeen(fs + [f], k) <==> IndexSeen(fs, k) || k == f.index
  {
    forall k ensures IndexSeen(fs + [f], k) <==> IndexSeen(fs, k) || k == f.index {
      if IndexSeen(fs, k) {
        var g :| g in fs && g.index == k;
        assert g in fs + [f];
      }
      if k == f.index { assert f in fs + [f]; }
    }
  }

  /** The parts after one more fragment. */
  lemma PartsAfter(s: BleState, id: U16, payload: Bytes, fs: seq<BleRelayFragment>, f: BleRelayFragment)
      returns (parts: Slots)
    requires payload != [] && f in BleSplit(id, payload) && Collecting(Opened(s, f), id, payload, fs)
    ensures f.index < |parts| == BleCount(|payload|) && parts == Opened(s, f).parts[f.index := Some(f.payload)]
    ensures forall k: U8 | k < |parts| ::
      parts[k] == if IndexSeen(fs + [f], k) then Some(BlePart(id, payload, k).payload) else None
    ensures IsComplete(parts) <==> !StillMissing(fs + [f], |parts|)
    ensures f.messageId == id && f.count == |parts|
  {
    PartOf(f, id, payload);
    SeenSnoc(fs, f);
    parts := Opened(s, f).parts[f.index := Some(f.payload)];
    forall i | 0 <= i < |parts| && !StillMissing(fs + [f], |parts|) ensures parts[i].Some? {
      var k: U8 := i;
      assert IndexSeen(fs + [f], k);
    }
  }

  lemma BleReach(len: nat)
    ensures Min(BleCount(len) * BLE_RELAY_PAYLOAD_LEN, len) == Min(BLE_MAX_PAYLOAD, len)
  {
  }

  /** One more fragment: collected, or, if it was the last one missing, the payload is handed over. */
  lemma CollectOne(s: BleState, id: U16, payload: Bytes, fs: seq<BleRelayFragment>, f: BleRelayFragment)
    requires payload != [] && f in BleSplit(id, payload)
    requires Collecting(Opened(s, f), id, payload, fs)
    ensures var (t, r) := BleAccept(s, f);
      if StillMissing(fs + [f], BleCount(|payload|)) then r == None && t.messageId.Some? &&
        Collecting(t, id, payload, fs + [f])
      else r == Some(payload[..Min(BLE_MAX_PAYLOAD, |payload|)]) && t.messageId == None
  {
    var parts := PartsAfter(s, id, payload, fs, f);
    if IsComplete(parts) {
      forall k: U8 | k < |parts| ensures parts[k] == Some(BlePart(id, payload, k).payload) {
        assert parts[k].Some?;
      }
      BleConcat(parts, id, payload, |parts|);
      assert parts[..|parts|] == parts;
      BleReach(|payload|);
    }
  }

  lemma {:induction false} BleConcat(parts: Slots, id: U16, payload: Bytes, n: nat)
    requires |parts| == BleCount(|payload|) && n <= |parts|
    requires forall k: U8 | k < |parts| :: parts[k] == Some(BlePart(id, payload, k).payload)
    ensures Concat(parts[..n]) == payload[..Min(n * BLE_RELAY_PAYLOAD_LEN, |payload|)]
  {
    if n > 0 {
      BleConcat(parts, id, payload, n - 1);
      assert parts[..n][..n - 1] == parts[..n - 1];
      var k: U8 := n - 1;
      var start := Min(k * BLE_RELAY_PAYLOAD_LEN, |payload|);
      var end := Min(k * BLE_RELAY_PAYLOAD_LEN + BLE_RELAY_PAYLOAD_LEN, |payload|);
      assert parts[..n][n - 1] == Some(payload[start..end]);
      SliceJoin(payload, start, end);
    }
  }

  /**
    Fragments of one message in any order, with repetitions, into an idle reassembler: nothing comes
    out while an index is missing.
   */
  lemma {:induction false} NothingBeforeComplete(s: BleState, id: U16, payload: Bytes, fs: seq<BleRelayFragment>)
    requires s.messageId == None && OfMessage(fs, id, payload) && fs != []
    requires StillMissing(fs, BleCount(|payload|))
    ensures LastAnswer(s, fs) == None && Collecting(AfterBle(s, fs), id, payload, fs)
    decreases |fs|, 0
  {
    var n := |fs| - 1;
    var front, f := fs[..n], fs[n];
    assert fs == front + [f];
    SeenSnoc(front, f);
    Before(s, id, payload, front, f);
    CollectOne(AfterBle(s, front), id, payload, front, f);
  }

  /** The reassembler just before the last fragment of a run that was incomplete until then. */
  lemma {:induction false} Before(s: BleState, id: U16, payload: Bytes, front: seq<BleRelayFragment>,
      f: BleRelayFragment)
    requires s.messageId == None && OfMessage(front, id, payload) && f in BleSplit(id, payload)
    requires StillMissing(front, BleCount(|payload|))
    ensures Collecting(Opened(AfterBle(s, front), f), id, payload, front)
    decreases |front|, 1
  {
    PartOf(f, id, payload);
    if front != [] { NothingBeforeComplete(s, id, payload, front); }
  }

  /** ... and the fragment that completes it brings the payload, up to its first 4080 bytes. */
  lemma CompletesWithPayload(s: BleState, id: U16, payload: Bytes, fs: seq<BleRelayFragment>)
    requires s.messageId == None && OfMessage(fs, id, payload) && fs != []
    requires StillMissing(fs[..|fs| - 1], BleCount(|payload|)) && !StillMissing(fs, BleCount(|payload|))
    ensures LastAnswer(s, fs) == Some(payload[..Min(BLE_MAX_PAYLOAD, |payload|)]) && AfterBle(s, fs).messageId == None
    ensures LastAnswer(s, fs) == Some(payload) <==> |payload| <= BLE_MAX_PAYLOAD
  {
    var n := |fs| - 1;
    assert fs == fs[..n] + [fs[n]];
    Before(s, id, payload, fs[..n], fs[n]);
    CollectOne(AfterBle(s, fs[..n]), id, payload, fs[..n], fs[n]);
    TakeAll(payload, BLE_MAX_PAYLOAD);
  }

  lemma TakeAll(b: Bytes, n: nat)
    ensures b[..Min(n, |b|)] == b <==> |b| <= n
  {
    if |b| <= n { assert b[..|b|] == b; } else { assert |b[..n]| < |b|; }
  }

  /**
    A reassembler that has started on a message ignores every other message, so a late repeat of a
    finished multi-fragment message keeps it from all others.
   */
  lemma {:induction false} OthersAreIgnored(s: BleState, fs: seq<BleRelayFragment>)
    requires s.messageId.Some? && forall f | f in fs :: f.messageId != s.messageId.value
    ensures AfterBle(s, fs) == s
    ensures fs != [] ==> LastAnswer(s, fs) == None
    decreases |fs|
  {
    if fs != [] { OthersAreIgnored(s, fs[..|fs| - 1]); }
  }

  lemma LateRepeatLocksOut(s: BleState, f: BleRelayFragment)
    requires s.messageId == None
    ensures BleAccept(s, f).0.messageId == Some(f.messageId) <==> f.count != 1 || f.index != 0
  {
    if f.count == 1 && f.index == 0 {
      assert IsComplete(Opened(s, f).parts[0 := Some(f.payload)]);
    } else if f.index < f.count {
      var parts := Opened(s, f).parts[f.index := Some(f.payload)];
      assert parts[if f.index == 0 then 1 else 0] == None;
    }
  }
}
