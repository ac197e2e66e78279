/** The k-bucket routing table of mesh-transport/src/kademlia_routing.rs. */
module Routing {
  import opened Common
  import opened XorMetric
  import opened Ranking

  const BUCKET_REFRESH_COOLDOWN_TICKS := 32

  datatype TableState = TableState(
    localId: NodeId,
    buckets: seq<seq<Contact>>,
    tick: U64,
    k: nat,
    refreshedAt: seq<U64>)

  function BucketFor(s: TableState, id: NodeId): nat {
    BucketIndex(Distance(s.localId, id))
  }

  /** A bucket's contacts are filed at their log-distance, distinct, not the own id, and at most k. */
  ghost predicate BucketOk(s: TableState, i: nat, b: seq<Contact>) {
    && |b| <= s.k && DistinctIds(b)
    && forall c | c in b :: c.id != s.localId && BucketFor(s, c.id) == i
  }

  ghost predicate TableOk(s: TableState) {
    && s.k >= 1 && |s.buckets| == |s.refreshedAt| == 256
    && forall i | 0 <= i < 256 :: BucketOk(s, i, s.buckets[i])
  }

  /** Oldest contact first: stamps ascend along a bucket and none is in the future. */
  ghost predicate OldestFirst(b: seq<Contact>, tick: int) {
    && (forall i, j | 0 <= i < j < |b| :: b[i].lastSeen < b[j].lastSeen)
    && forall c | c in b :: c.lastSeen <= tick
  }

  ghost predicate TableOrdered(s: TableState)
    requires |s.buckets| == 256
  {
    forall i | 0 <= i < 256 :: OldestFirst(s.buckets[i], s.tick)
  }

  /** A new table: no contacts, no ticks, no bucket ever probed. */
  function EmptyTable(localId: NodeId, k: nat): TableState {
    TableState(localId, seq(256, _ => []), 0, k, seq(256, _ => 0))
  }

  // ---------- insert_with_probe ----------

  function NextTick(tick: U64): U64 {
    if tick == U64_MAX then 0 else tick + 1
  }

  /** now.wrapping_sub(last). */
  function TicksSince(now: U64, last: U64): U64 {
    if now >= last then now - last else now - last + U64_MAX + 1
  }

  function Position(b: seq<Contact>, id: NodeId): (p: nat)
    ensures p <= |b|
    ensures p < |b| ==> b[p].id == id
    ensures forall j | 0 <= j < p :: b[j].id != id
  {
    if b == [] || b[0].id == id then 0 else 1 + Position(b[1..], id)
  }

  datatype Verdict = OwnId | Refreshed | Added | CoolingDown | KeptHead | ReplacedHead

  /** Which of its cases an insertion takes. */
  function Decide(s: TableState, contact: Contact, probe: Contact -> bool): Verdict
    requires TableOk(s)
  {
    if contact.id == s.localId then OwnId
    else
      BucketIndexIsLog(s.localId, contact.id);
      var idx := BucketFor(s, contact.id);
      var b := s.buckets[idx];
      if Position(b, contact.id) < |b| then Refreshed
      else if |b| < s.k then Added
      else if s.refreshedAt[idx] != 0 &&
        TicksSince(NextTick(s.tick), s.refreshedAt[idx]) < BUCKET_REFRESH_COOLDOWN_TICKS then CoolingDown
      else if probe(b[0]) then KeptHead
      else ReplacedHead
  }

  /** The bucket after an insertion. */
  function NewBucket(b: seq<Contact>, contact: Contact, now: U64, v: Verdict): seq<Contact>
    requires v == ReplacedHead ==> b != []
  {
    var stamped := contact.(lastSeen := now);
    var p := Position(b, contact.id);
    match v
    case Refreshed => if p < |b| then b[..p] + b[p + 1..] + [stamped] else b
    case Added => b + [stamped]
    case ReplacedHead => b[1..] + [stamped]
    case _ => b
  }

  function Insert(s: TableState, contact: Contact, probe: Contact -> bool): TableState
    requires TableOk(s)
  {
    var v := Decide(s, contact, probe);
    if v == OwnId then s
    else
      BucketIndexIsLog(s.localId, contact.id);
      var idx, now := BucketFor(s, contact.id), NextTick(s.tick);
      s.(tick := now,
         buckets := s.buckets[idx := NewBucket(s.buckets[idx], contact, now, v)],
         refreshedAt := if v == KeptHead || v == ReplacedHead then s.refreshedAt[idx := now] else s.refreshedAt)
  }

  /** Dropping position p and appending c keeps ids distinct when c's id is not left in the bucket. */
  lemma MoveToTail(b: seq<Contact>, p: nat, c: Contact, r: seq<Contact>)
    requires DistinctIds(b) && p < |b| && r == b[..p] + b[p + 1..] + [c]
    requires forall j | 0 <= j < |b| && j != p :: b[j].id != c.id
    ensures |r| == |b| && DistinctIds(r) && c in r
    ensures forall x | x in r :: x in b || x == c
    ensures forall x | x in b && x !in r :: x == b[p]
  {
    assert forall j | 0 <= j < p :: r[j] == b[j];
    assert forall j | p <= j < |b| - 1 :: r[j] == b[j + 1];
    assert r[|b| - 1] == c;
    forall j | 0 <= j < |b| && j != p ensures b[j] in r {
      assert b[j] == r[if j < p then j else j - 1];
    }
  }

  lemma AppendNew(b: seq<Contact>, c: Contact, r: seq<Contact>)
    requires DistinctIds(b) && r == b + [c]
    requires forall j | 0 <= j < |b| :: b[j].id != c.id
    ensures |r| == |b| + 1 && DistinctIds(r) && c in r
    ensures forall x :: x in r <==> x in b || x == c
  {
    assert forall j | 0 <= j < |b| :: r[j] == b[j];
    assert r[|b|] == c;
  }

  /** What an insertion with this verdict does to the membership of its bucket. */
  ghost predicate BucketStep(b: seq<Contact>, id: NodeId, stamped: Contact, v: Verdict, r: seq<Contact>) {
    && DistinctIds(r) && |r| == (if v == Added then |b| + 1 else |b|)
    && (forall c | c in r :: c in b || c == stamped)
    && (v in {Refreshed, Added, ReplacedHead} ==> stamped in r)
    && forall c | c in b && c !in r :: (v == Refreshed && c.id == id) || (v == ReplacedHead && c == b[0])
  }

  lemma RefreshStep(b: seq<Contact>, contact: Contact, now: U64)
    requires DistinctIds(b) && Position(b, contact.id) < |b|
    ensures BucketStep(b, contact.id, contact.(lastSeen := now), Refreshed, NewBucket(b, contact, now, Refreshed))
  {
    hide DistinctIds, Position;
    var p := Position(b, contact.id);
    OtherIds(b, contact.id, p);
    MoveToTail(b, p, contact.(lastSeen := now), NewBucket(b, contact, now, Refreshed));
  }

  lemma ReplaceStep(b: seq<Contact>, contact: Contact, now: U64)
    requires DistinctIds(b) && b != [] && Position(b, contact.id) == |b|
    ensures BucketStep(b, contact.id, contact.(lastSeen := now), ReplacedHead, NewBucket(b, contact, now, ReplacedHead))
  {
    hide Ranking.DistinctIds;
    var r := NewBucket(b, contact, now, ReplacedHead);
    assert r == b[..0] + b[1..] + [contact.(lastSeen := now)];
    MoveToTail(b, 0, contact.(lastSeen := now), r);
  }

  lemma NewBucketMembers(b: seq<Contact>, contact: Contact, now: U64, v: Verdict)
    requires DistinctIds(b) && (v == ReplacedHead ==> b != [])
    requires v == Refreshed <==> Position(b, contact.id) < |b|
    ensures BucketStep(b, contact.id, contact.(lastSeen := now), v, NewBucket(b, contact, now, v))
  {
    match v {
      case Refreshed => RefreshStep(b, contact, now);
      case Added => AppendNew(b, contact.(lastSeen := now), NewBucket(b, contact, now, v));
      case ReplacedHead => ReplaceStep(b, contact, now);
      case _ =>
    }
  }

  /** Every insertion keeps the buckets well filed, distinct and bounded. */
  lemma InsertKeepsTable(s: TableState, contact: Contact, probe: Contact -> bool)
    requires TableOk(s)
    ensures TableOk(Insert(s, contact, probe))
  {
    var v := Decide(s, contact, probe);
    if v != OwnId {
      BucketIndexIsLog(s.localId, contact.id);
      var idx := BucketFor(s, contact.id);
      assert BucketOk(s, idx, s.buckets[idx]);
      var t := Insert(s, contact, probe);
      NewBucketMembers(s.buckets[idx], contact, NextTick(s.tick), v);
      forall i | 0 <= i < 256 ensures BucketOk(t, i, t.buckets[i]) {
        assert BucketOk(s, i, s.buckets[i]);
      }
    }
  }

  lemma LatestAtTail(b: seq<Contact>, p: nat, c: Contact, tick: int, r: seq<Contact>)
    requires OldestFirst(b, tick) && c.lastSeen == tick + 1 && p <= |b|
    requires r == b[..p] + (if p < |b| then b[p + 1..] else []) + [c]
    ensures OldestFirst(r, tick + 1)
  {
    var kept := b[..p] + (if p < |b| then b[p + 1..] else []);
    forall i | 0 <= i < |kept| ensures kept[i] in b && kept[i].lastSeen <= tick {
      assert kept[i] == b[if i < p then i else i + 1];
    }
    forall i, j | 0 <= i < j < |r| ensures r[i].lastSeen < r[j].lastSeen {
      assert r[i] == kept[i];
      if j < |kept| {
        assert kept[i] == b[if i < p then i else i + 1] && r[j] == b[if j < p then j else j + 1];
      }
    }
    forall x | x in r ensures x.lastSeen <= tick + 1 {
      var j :| 0 <= j < |r| && r[j] == x;
      if j < |kept| { assert x == kept[j]; }
    }
  }

  lemma StillOldestFirst(b: seq<Contact>, tick: int)
    requires OldestFirst(b, tick)
    ensures OldestFirst(b, tick + 1)
  {
  }

  lemma NewBucketOrdered(b: seq<Contact>, contact: Contact, tick: U64, v: Verdict)
    requires OldestFirst(b, tick) && tick < U64_MAX && (v == ReplacedHead ==> b != [])
    ensures OldestFirst(NewBucket(b, contact, NextTick(tick), v), NextTick(tick))
  {
    hide OldestFirst, Position;
    StillOldestFirst(b, tick);
    var p := Position(b, contact.id);
    var r := NewBucket(b, contact, tick + 1, v);
    var stamped := contact.(lastSeen := tick + 1);
    match v {
      case Refreshed => if p < |b| { LatestAtTail(b, p, stamped, tick, r); }
      case Added =>
        assert b[..|b|] + [] + [stamped] == r;
        LatestAtTail(b, |b|, stamped, tick, r);
      case ReplacedHead =>
        assert b[..0] + b[1..] + [stamped] == r;
        LatestAtTail(b, 0, stamped, tick, r);
      case _ =>
    }
  }

  /** Until the tick counter wraps, every insertion keeps each bucket ordered oldest first. */
  lemma InsertKeepsOrder(s: TableState, contact: Contact, probe: Contact -> bool)
    requires TableOk(s) && TableOrdered(s) && s.tick < U64_MAX
    ensures TableOrdered(Insert(s, contact, probe))
  {
    var v := Decide(s, contact, probe);
    if v != OwnId {
      BucketIndexIsLog(s.localId, contact.id);
      var idx := BucketFor(s, contact.id);
      var t := Insert(s, contact, probe);
      forall i | 0 <= i < 256 ensures OldestFirst(t.buckets[i], t.tick) {
        assert OldestFirst(s.buckets[i], s.tick);
        if i == idx { NewBucketOrdered(s.buckets[idx], contact, s.tick, v); }
      }
    }
  }

  /** Ids known to the table. */
  ghost function Known(s: TableState): set<NodeId> {
    set i, c | 0 <= i < |s.buckets| && c in s.buckets[i] :: c.id
  }

  /**
    A contact is only ever forgotten when its bucket is full, it is the bucket's oldest
    contact, and the probe found it dead.
   */
  lemma OnlyDeadHeadsAreForgotten(s: TableState, contact: Contact, probe: Contact -> bool, lost: NodeId)
    requires TableOk(s) && lost in Known(s) && lost !in Known(Insert(s, contact, probe))
    ensures contact.id != s.localId && BucketFor(s, contact.id) < 256
    ensures var b := s.buckets[BucketFor(s, contact.id)];
      |b| == s.k && b[0].id == lost && !probe(b[0]) && contact.id in Known(Insert(s, contact, probe))
  {
    hide BucketIndex, Ranking.DistinctIds;
    BucketIndexIsLog(s.localId, contact.id);
    var v, t := Decide(s, contact, probe), Insert(s, contact, probe);
    var i, c :| 0 <= i < |s.buckets| && c in s.buckets[i] && c.id == lost;
    var idx := BucketFor(s, contact.id);
    assert BucketOk(s, idx, s.buckets[idx]);
    assert forall j, x | 0 <= j < |t.buckets| && x in t.buckets[j] :: x.id in Known(t);
    assert c !in t.buckets[i];
    NewBucketMembers(s.buckets[idx], contact, NextTick(s.tick), v);
    assert contact.(lastSeen := NextTick(s.tick)) in t.buckets[idx];
  }

  // ---------- who is known after an insertion ----------

  /** Ids known outside one bucket. */
  ghost function Elsewhere(s: TableState, idx: nat): set<NodeId> {
    set i, c | 0 <= i < |s.buckets| && i != idx && c in s.buckets[i] :: c.id
  }

  lemma KnownSplit(s: TableState, idx: nat)
    requires idx < |s.buckets|
    ensures Known(s) == Elsewhere(s, idx) + IdSet(s.buckets[idx])
  {
    forall id ensures id in Known(s) <==> id in Elsewhere(s, idx) + IdSet(s.buckets[idx]) {
      if id in Known(s) {
        var i, c :| 0 <= i < |s.buckets| && c in s.buckets[i] && c.id == id;
      }
      if id in IdSet(s.buckets[idx]) {
        var c :| c in s.buckets[idx] && c.id == id;
      }
    }
  }

  /** Ids of a bucket are known nowhere else. */
  lemma FiledOnce(s: TableState, idx: nat, id: NodeId)
    requires TableOk(s) && idx < 256 && BucketFor(s, id) == idx
    ensures id !in Elsewhere(s, idx)
  {
    assert forall i | 0 <= i < 256 :: BucketOk(s, i, s.buckets[i]);
  }

  lemma PositionFinds(b: seq<Contact>, id: NodeId)
    ensures Position(b, id) < |b| <==> id in IdSet(b)
  {
    var p := Position(b, id);
    if p < |b| { assert b[p] in b; }
    if id in IdSet(b) {
      var c :| c in b && c.id == id;
      var i :| 0 <= i < |b| && b[i] == c;
      assert p <= i;
    }
  }

  lemma IdsAfter(b: seq<Contact>, contact: Contact, now: U64, v: Verdict)
    requires DistinctIds(b) && (v == ReplacedHead ==> b != [])
    requires v == Refreshed <==> contact.id in IdSet(b)
    ensures IdSet(NewBucket(b, contact, now, v)) ==
      match v
      case Refreshed => IdSet(b)
      case Added => IdSet(b) + {contact.id}
      case ReplacedHead => IdSet(b) - {b[0].id} + {contact.id}
      case _ => IdSet(b)
  {
    PositionFinds(b, contact.id);
    NewBucketMembers(b, contact, now, v);
    var r, stamped := NewBucket(b, contact, now, v), contact.(lastSeen := now);
    match v {
      case Refreshed =>
        forall id ensures id in IdSet(b) <==> id in IdSet(r) {
          if id in IdSet(b) && id != contact.id { var c :| c in b && c.id == id; assert c in r; }
          if id in IdSet(r) { var c :| c in r && c.id == id; }
        }
      case Added =>
        forall id ensures id in IdSet(b) + {contact.id} <==> id in IdSet(r) {
          if id in IdSet(b) { var c :| c in b && c.id == id; assert c in r; }
          if id in IdSet(r) { var c :| c in r && c.id == id; }
        }
      case ReplacedHead =>
        assert b == [b[0]] + b[1..];
        forall id ensures id in IdSet(b) - {b[0].id} + {contact.id} <==> id in IdSet(r) {
          if id in IdSet(b) && id != b[0].id { var c :| c in b && c.id == id; assert c in r; }
          if id in IdSet(r) && id != contact.id { var c :| c in r && c.id == id; assert c in b[1..]; }
        }
      case _ =>
    }
  }

  /** The bucket has never been probed, or at least 32 ticks ago, the tick counter wrapping at 64 bits. */
  predicate MayProbe(s: TableState, idx: nat)
    requires idx < |s.refreshedAt|
  {
    s.refreshedAt[idx] == 0 || (s.tick + 1 - s.refreshedAt[idx]) % 0x1_0000_0000_0000_0000 >= 32
  }

  lemma CooldownIs32Ticks(s: TableState, idx: nat)
    requires idx < |s.refreshedAt|
    ensures MayProbe(s, idx) <==> s.refreshedAt[idx] == 0 || TicksSince(NextTick(s.tick), s.refreshedAt[idx]) >= 32
  {
    var last: int := s.refreshedAt[idx];
    var d := s.tick + 1 - last;
    if s.tick == U64_MAX && last == 0 {
      assert d == 0x1_0000_0000_0000_0000;
    } else if d < 0 {
      assert d % 0x1_0000_0000_0000_0000 == d + 0x1_0000_0000_0000_0000;
    } else {
      assert d % 0x1_0000_0000_0000_0000 == d;
    }
  }

  /**
    Exactly which ids an insertion leaves known. A contact that was known or whose bucket has room is
    stored. Any other one is stored only if the bucket may be probed and its oldest contact does not
    answer, and then in its place.
   */
  lemma KnownAfterInsert(s: TableState, contact: Contact, probe: Contact -> bool)
    requires TableOk(s) && contact.id != s.localId
    ensures BucketFor(s, contact.id) < 256
    ensures var idx := BucketFor(s, contact.id); var b := s.buckets[idx];
      Known(Insert(s, contact, probe)) ==
        if contact.id in Known(s) || |b| < s.k then Known(s) + {contact.id}
        else if MayProbe(s, idx) && !probe(b[0]) then Known(s) - {b[0].id} + {contact.id}
        else Known(s)
  {
    hide BucketIndex, Dist, Distance, DistinctIds, Position, NewBucket, IdSet, Known, Elsewhere;
    BucketIndexIsLog(s.localId, contact.id);
    var idx, t, v := BucketFor(s, contact.id), Insert(s, contact, probe), Decide(s, contact, probe);
    var b := s.buckets[idx];
    assert BucketOk(s, idx, b);
    KnownSplit(s, idx);
    KnownSplit(t, idx);
    SameElsewhere(s, t, idx);
    FiledOnce(s, idx, contact.id);
    PositionFinds(b, contact.id);
    CooldownIs32Ticks(s, idx);
    IdsAfter(b, contact, NextTick(s.tick), v);
    if v == ReplacedHead { FiledOnce(s, idx, b[0].id); }
  }

  lemma SameElsewhere(s: TableState, t: TableState, idx: nat)
    requires |s.buckets| == |t.buckets| && forall i | 0 <= i < |s.buckets| && i != idx :: s.buckets[i] == t.buckets[i]
    ensures Elsewhere(s, idx) == Elsewhere(t, idx)
  {
  }

  /** An insertion reports a change exactly when the contact is known afterwards. */
  lemma StoredIsKnown(s: TableState, contact: Contact, probe: Contact -> bool)
    requires TableOk(s)
    ensures Decide(s, contact, probe) in {Refreshed, Added, ReplacedHead} <==>
      contact.id in Known(Insert(s, contact, probe))
  {
    hide BucketIndex, Dist, Distance, DistinctIds, Position, NewBucket, IdSet, Known, Elsewhere;
    if contact.id == s.localId {
      AllContacts(s);
    } else {
      BucketIndexIsLog(s.localId, contact.id);
      var idx := BucketFor(s, contact.id);
      KnownAfterInsert(s, contact, probe);
      KnownSplit(s, idx);
      FiledOnce(s, idx, contact.id);
      PositionFinds(s.buckets[idx], contact.id);
      CooldownIs32Ticks(s, idx);
    }
  }

  // ---------- oldest first over every run ----------

  /** One call of insert_with_probe, with the probe's answers at that time. */
  datatype Sighting = Sighting(contact: Contact, probe: Contact -> bool)

  ghost function RunTable(s: TableState, events: seq<Sighting>): (t: TableState)
    requires TableOk(s)
    ensures TableOk(t)
  {
    if events == [] then s
    else
      var front, e := RunTable(s, events[..|events| - 1]), events[|events| - 1];
      InsertKeepsTable(front, e.contact, e.probe);
      Insert(front, e.contact, e.probe)
  }

  /** The insertion stores its contact, new or refreshed. */
  predicate Stores(s: TableState, e: Sighting)
    requires TableOk(s)
  {
    Decide(s, e.contact, e.probe) in {Refreshed, Added, ReplacedHead}
  }

  /** When a run last stored this id: the number of events before that, or -1. */
  ghost function LastStored(s: TableState, events: seq<Sighting>, id: NodeId): (n: int)
    requires TableOk(s)
    ensures n < |events|
  {
    if events == [] then -1
    else
      var front, e := events[..|events| - 1], events[|events| - 1];
      if e.contact.id == id && Stores(RunTable(s, front), e) then |events| - 1 else LastStored(s, front, id)
  }

  /** A bucket lists its contacts in the order in which the run last stored them. */
  ghost predicate StoredInOrder(s: TableState, events: seq<Sighting>, b: seq<Contact>)
    requires TableOk(s)
  {
    forall i, j | 0 <= i < j < |b| :: LastStored(s, events, b[i].id) < LastStored(s, events, b[j].id)
  }

  lemma UntouchedInOrder(s: TableState, events: seq<Sighting>, e: Sighting, b: seq<Contact>)
    requires TableOk(s) && StoredInOrder(s, events, b)
    requires Stores(RunTable(s, events), e) ==> forall i | 0 <= i < |b| :: b[i].id != e.contact.id
    ensures StoredInOrder(s, events + [e], b)
  {
    hide TableOk, Stores, RunTable;
    assert (events + [e])[..|events|] == events;
    forall i | 0 <= i < |b| ensures LastStored(s, events + [e], b[i].id) == LastStored(s, events, b[i].id) {
    }
  }

  /** Without the contact at p, with the stored one at the tail. */
  lemma StoredGoesLast(s: TableState, events: seq<Sighting>, e: Sighting, b: seq<Contact>, p: nat, c: Contact,
      r: seq<Contact>)
    requires TableOk(s) && StoredInOrder(s, events, b) && Stores(RunTable(s, events), e) && c.id == e.contact.id
    requires p <= |b| && r == b[..p] + (if p < |b| then b[p + 1..] else []) + [c]
    requires forall i | 0 <= i < |b| && i != p :: b[i].id != c.id
    ensures StoredInOrder(s, events + [e], r)
  {
    hide TableOk, Stores, RunTable;
    var kept := b[..p] + if p < |b| then b[p + 1..] else [];
    forall i | 0 <= i < |kept| ensures kept[i] == b[if i < p then i else i + 1] {
    }
    assert StoredInOrder(s, events, kept);
    UntouchedInOrder(s, events, e, kept);
    assert (events + [e])[..|events|] == events;
    forall i | 0 <= i < |kept| ensures LastStored(s, events + [e], kept[i].id) < LastStored(s, events + [e], c.id) {
    }
    assert forall i | 0 <= i < |kept| :: r[i] == kept[i];
  }

  function StoredContact(t: TableState, e: Sighting): Contact {
    e.contact.(lastSeen := NextTick(t.tick))
  }

  /** An insertion leaves a bucket alone, or moves the stored contact to its tail and drops position p. */
  lemma BucketEffect(t: TableState, e: Sighting, i: nat) returns (touched: bool, p: nat)
    requires TableOk(t) && i < 256
    ensures var b := t.buckets[i];
      |Insert(t, e.contact, e.probe).buckets| == 256 && p <= |b| &&
      var r := Insert(t, e.contact, e.probe).buckets[i];
      if touched then
        && Stores(t, e) && r == b[..p] + (if p < |b| then b[p + 1..] else []) + [StoredContact(t, e)]
        && forall j | 0 <= j < |b| && j != p :: b[j].id != e.contact.id
      else r == b && (Stores(t, e) ==> forall j | 0 <= j < |b| :: b[j].id != e.contact.id)
  {
    hide Dist, BucketIndex, Distance, DistinctIds, Position, TableOk, BucketFor, NewBucket;
    BucketsFiled(t, i);
    var contact, v := e.contact, Decide(t, e.contact, e.probe);
    BucketIndexIsLog(t.localId, contact.id);
    var b, idx := t.buckets[i], BucketFor(t, contact.id);
    VerdictFits(t, e);
    touched := v in {Refreshed, Added, ReplacedHead} && i == idx;
    p := 0;
    if touched {
      p := if v == Refreshed then Position(b, contact.id) else if v == Added then |b| else 0;
      NewBucketForm(b, contact, NextTick(t.tick), v, p);
      OtherIds(b, contact.id, p);
    } else if v in {Refreshed, Added, ReplacedHead} {
      assert forall j | 0 <= j < |b| :: b[j] in b && b[j].id != contact.id;
    }
  }

  lemma BucketsFiled(t: TableState, i: nat)
    requires TableOk(t) && i < 256
    ensures |t.buckets| == |t.refreshedAt| == 256 && DistinctIds(t.buckets[i])
    ensures forall c | c in t.buckets[i] :: BucketFor(t, c.id) == i
  {
    assert BucketOk(t, i, t.buckets[i]);
  }

  lemma VerdictFits(t: TableState, e: Sighting)
    requires TableOk(t)
    ensures var v, idx := Decide(t, e.contact, e.probe), BucketFor(t, e.contact.id);
      && 0 <= idx < |t.buckets|
      && var b := t.buckets[idx];
      && (v == Refreshed ==> Position(b, e.contact.id) < |b|)
      && (v == Added || v == ReplacedHead ==> Position(b, e.contact.id) == |b|)
      && (v == ReplacedHead ==> b != [])
      && (v in {CoolingDown, KeptHead} ==> NewBucket(b, e.contact, NextTick(t.tick), v) == b)
  {
    hide Dist;
    BucketIndexIsLog(t.localId, e.contact.id);
  }

  lemma NewBucketForm(b: seq<Contact>, contact: Contact, now: U64, v: Verdict, p: nat)
    requires v in {Refreshed, Added, ReplacedHead} && (v == ReplacedHead ==> b != [])
    requires p == (if v == Refreshed then Position(b, contact.id) else if v == Added then |b| else 0)
    requires v == Refreshed ==> p < |b|
    ensures NewBucket(b, contact, now, v) == b[..p] + (if p < |b| then b[p + 1..] else []) + [contact.(lastSeen := now)]
  {
    hide Position;
    var stamped := contact.(lastSeen := now);
    if v == Added {
      assert b[..|b|] == b && b + [] == b;
    } else if v == ReplacedHead {
      assert b[..0] == [] && [] + b[1..] == b[1..];
    }
  }

  lemma OtherIds(b: seq<Contact>, id: NodeId, p: nat)
    requires DistinctIds(b) && (Position(b, id) < |b| ==> p == Position(b, id))
    ensures forall j | 0 <= j < |b| && j != p :: b[j].id != id
  {
  }

  lemma BucketStaysInOrder(s: TableState, events: seq<Sighting>, e: Sighting, i: nat)
    requires TableOk(s) && i < 256 && StoredInOrder(s, events, RunTable(s, events).buckets[i])
    ensures StoredInOrder(s, events + [e], RunTable(s, events + [e]).buckets[i])
  {
    var t := RunTable(s, events);
    assert (events + [e])[..|events|] == events;
    var touched, p := BucketEffect(t, e, i);
    hide StoredInOrder, Insert, Stores, BucketOk;
    var b, r := t.buckets[i], RunTable(s, events + [e]).buckets[i];
    if touched {
      StoredGoesLast(s, events, e, b, p, StoredContact(t, e), r);
    } else {
      UntouchedInOrder(s, events, e, b);
    }
  }

  /**
    Over every run from an empty table, whether or not the tick counter wraps, each bucket lists its
    contacts oldest first: in the order in which they were last stored.
   */
  lemma {:induction false} RunOldestFirst(s: TableState, events: seq<Sighting>, i: nat)
    requires TableOk(s) && i < 256 && s.buckets[i] == []
    ensures StoredInOrder(s, events, RunTable(s, events).buckets[i])
    decreases |events|
  {
    if events != [] {
      var front, e := events[..|events| - 1], events[|events| - 1];
      RunOldestFirst(s, front, i);
      assert events == front + [e];
      BucketStaysInOrder(s, front, e, i);
    }
  }

  // ---------- reading the table ----------

  function Flatten(buckets: seq<seq<Contact>>): seq<Contact> {
    if buckets == [] then [] else buckets[0] + Flatten(buckets[1..])
  }

  lemma {:induction false} FlattenMember(buckets: seq<seq<Contact>>, c: Contact)
    ensures c in Flatten(buckets) <==> exists i :: 0 <= i < |buckets| && c in buckets[i]
  {
    if buckets != [] {
      FlattenMember(buckets[1..], c);
      assert forall i | 0 <= i < |buckets[1..]| :: buckets[1..][i] == buckets[i + 1];
      if c in Flatten(buckets) && c !in buckets[0] {
        var i :| 0 <= i < |buckets[1..]| && c in buckets[1..][i];
        assert c in buckets[i + 1];
      }
      if i :| 0 <= i < |buckets| && c in buckets[i] {
        if i > 0 { assert c in buckets[1..][i - 1]; }
      }
    }
  }

  lemma {:induction false} FlattenDistinct(s: TableState, from: nat)
    requires TableOk(s) && from <= 256
    ensures DistinctIds(Flatten(s.buckets[from..]))
    decreases 256 - from
  {
    if from < 256 {
      assert s.buckets[from..][1..] == s.buckets[from + 1..];
      FlattenDistinct(s, from + 1);
      var b, rest := s.buckets[from], Flatten(s.buckets[from + 1..]);
      assert BucketOk(s, from, b);
      forall x, y | x in b && y in rest ensures x.id != y.id {
        FlattenMember(s.buckets[from + 1..], y);
        var i :| 0 <= i < |s.buckets[from + 1..]| && y in s.buckets[from + 1..][i];
        assert BucketOk(s, from + 1 + i, s.buckets[from + 1 + i]);
      }
      DistinctConcat(b, rest);
    }
  }

  lemma DistinctConcat(a: seq<Contact>, b: seq<Contact>)
    requires DistinctIds(a) && DistinctIds(b) && forall x, y | x in a && y in b :: x.id != y.id
    ensures DistinctIds(a + b)
  {
    assert forall i | 0 <= i < |a| :: a[i] in a;
    assert forall i | 0 <= i < |b| :: b[i] in b;
  }

  lemma AllContacts(s: TableState)
    requires TableOk(s)
    ensures DistinctIds(Flatten(s.buckets)) && IdSet(Flatten(s.buckets)) == Known(s)
    ensures s.localId !in Known(s)
  {
    FlattenDistinct(s, 0);
    assert s.buckets[0..] == s.buckets;
    forall c ensures c in Flatten(s.buckets) <==> exists i :: 0 <= i < |s.buckets| && c in s.buckets[i] {
      FlattenMember(s.buckets, c);
    }
    forall id ensures id in IdSet(Flatten(s.buckets)) <==> id in Known(s) {
      if id in Known(s) {
        var i, c :| 0 <= i < |s.buckets| && c in s.buckets[i] && c.id == id;
        assert c in Flatten(s.buckets);
      }
    }
    assert forall i | 0 <= i < 256 :: BucketOk(s, i, s.buckets[i]);
  }

  // ---------- the class ----------

  class RoutingTable {
    const localId: NodeId
    const k: nat
    var buckets: seq<seq<Contact>>
    var tick: U64
    var refreshedAt: seq<U64>

    function State(): TableState
      reads this
    {
      TableState(localId, buckets, tick, k, refreshedAt)
    }

    ghost predicate Valid()
      reads this
    {
      TableOk(State())
    }

    /** `with_k`; a table with k == 0 panics on its first insertion, so k is positive here. */
    constructor (localId: NodeId, k: nat)
      requires k >= 1
      ensures Valid() && TableOrdered(State()) && Known(State()) == {} && State() == EmptyTable(localId, k)
    {
      this.localId, this.k := localId, k;
      buckets, tick, refreshedAt := seq(256, _ => []), 0, seq(256, _ => 0);
    }

    /** `insert_with_probe`: the state Insert describes, and whether the table changed. */
    method InsertWithProbe(contact: Contact, probe: Contact -> bool) returns (changed: bool)
      requires Valid()
      modifies this
      ensures Valid() && State() == Insert(old(State()), contact, probe)
      ensures changed <==> Decide(old(State()), contact, probe) in {Refreshed, Added, ReplacedHead}
      ensures changed <==> contact.id in Known(State())
    {
      hide Position, Ranking.DistinctIds;
      ghost var s, t := State(), Insert(State(), contact, probe);
      InsertKeepsTable(s, contact, probe);
      StoredIsKnown(s, contact, probe);
      if contact.id == localId {
        return false;
      }
      BucketIndexIsLog(localId, contact.id);
      var d := XorDistance(localId, contact.id);
      var idx := CalculateBucketIndex(d);
      tick := NextTick(tick);
      var stamped := contact.(lastSeen := tick);
      var bucket := buckets[idx];
      var pos := Position(bucket, contact.id);
      if pos < |bucket| {
        assert Decide(s, contact, probe) == Refreshed;
        buckets := buckets[idx := bucket[..pos] + bucket[pos + 1..] + [stamped]];
        assert State() == t;
        return true;
      }
      if |bucket| < k {
        assert Decide(s, contact, probe) == Added;
        buckets := buckets[idx := bucket + [stamped]];
        return true;
      }
      var lastProbe := refreshedAt[idx];
      if lastProbe != 0 && TicksSince(tick, lastProbe) < BUCKET_REFRESH_COOLDOWN_TICKS {
        return false;
      }
      refreshedAt := refreshedAt[idx := tick];
      if probe(bucket[0]) {
        return false;
      }
      buckets := buckets[idx := bucket[1..] + [stamped]];
      return true;
    }

    /** `get`. */
    method Get(id: NodeId) returns (r: Option<Contact>)
      requires Valid()
      ensures r.Some? <==> id in Known(State())
      ensures r.Some? ==> r.value.id == id && r.value in Flatten(buckets)
    {
      BucketIndexIsLog(localId, id);
      var d := XorDistance(localId, id);
      var idx := CalculateBucketIndex(d);
      var pos := Position(buckets[idx], id);
      r := if pos < |buckets[idx]| then Some(buckets[idx][pos]) else None;
      AllContacts(State());
      if r.Some? {
        FlattenMember(buckets, r.value);
        assert r.value in buckets[idx];
      } else if id in Known(State()) {
        WrongBucket(State(), id, idx);
      }
    }

    /** `closest`: the count nearest contacts of the table, nearest first. */
    method Closest(target: NodeId, count: nat) returns (r: seq<Contact>)
      requires Valid()
      ensures IsNearest(target, Known(State()), count, r)
      ensures forall c | c in r :: c in Flatten(buckets)
    {
      AllContacts(State());
      var all := SortByDistance(target, Flatten(buckets));
      assert IdSet(all) == Known(State());
      TakeIsNearest(target, all, count);
      r := all[..Min(count, |all|)];
    }
  }

  lemma WrongBucket(s: TableState, id: NodeId, idx: nat)
    requires TableOk(s) && id in Known(s) && idx == BucketFor(s, id) && idx < 256
    ensures exists c :: c in s.buckets[idx] && c.id == id
  {
    var i, c :| 0 <= i < |s.buckets| && c in s.buckets[i] && c.id == id;
    assert BucketOk(s, i, s.buckets[i]);
  }
}
