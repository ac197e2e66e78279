/** When full buckets of mesh-transport/src/kademlia_routing.rs probe, over whole runs from an empty table. */
module Probing {
  import opened Common
  import opened XorMetric
  import opened Ranking
  import opened Routing

  lemma EmptyTableOk(localId: NodeId, k: nat)
    requires k >= 1
    ensures TableOk(EmptyTable(localId, k)) && Known(EmptyTable(localId, k)) == {}
  {
  }

  /** The table a run from empty leads to. */
  ghost function Grown(localId: NodeId, k: nat, events: seq<Sighting>): (t: TableState)
    requires k >= 1
    ensures TableOk(t)
  {
    EmptyTableOk(localId, k);
    RunTable(EmptyTable(localId, k), events)
  }

  /** A contact not yet known whose bucket is i and full. */
  ghost predicate Newcomer(t: TableState, c: Contact, i: nat)
    requires TableOk(t) && i < 256
  {
    c.id != t.localId && c.id !in Known(t) && BucketFor(t, c.id) == i && |t.buckets[i]| == t.k
  }

  /** Insertions so far, those of the own id left out. */
  function Ticks(localId: NodeId, events: seq<Sighting>): nat {
    if events == [] then 0
    else Ticks(localId, events[..|events| - 1]) + if events[|events| - 1].contact.id == localId then 0 else 1
  }

  /** The tick at which bucket i last probed, counted from one; 0 if it never did. */
  ghost function LastProbe(localId: NodeId, k: nat, events: seq<Sighting>, i: nat): (n: nat)
    requires k >= 1 && i < 256
  {
    if events == [] then 0
    else
      var front, e := events[..|events| - 1], events[|events| - 1];
      var last := LastProbe(localId, k, front, i);
      if Newcomer(Grown(localId, k, front), e.contact, i) && (last == 0 || Ticks(localId, events) - last >= 32)
      then Ticks(localId, events) else last
  }

  lemma {:induction false} TicksAtMost(localId: NodeId, events: seq<Sighting>)
    ensures Ticks(localId, events) <= |events|
  {
    if events != [] { TicksAtMost(localId, events[..|events| - 1]); }
  }

  /** An insertion counts a tick, and stamps its bucket when that is full, new to the contact and may probe. */
  lemma InsertStamps(t: TableState, e: Sighting, i: nat)
    requires TableOk(t) && i < 256
    ensures var u := Insert(t, e.contact, e.probe);
      && |u.refreshedAt| == 256 && u.localId == t.localId && u.k == t.k
      && u.tick == (if e.contact.id == t.localId then t.tick else NextTick(t.tick))
      && (Newcomer(t, e.contact, i) ==> e.contact.id != t.localId)
      && u.refreshedAt[i] ==
        if Newcomer(t, e.contact, i) && MayProbe(t, i) then NextTick(t.tick) else t.refreshedAt[i]
  {
    hide BucketIndex, Dist, Distance, DistinctIds, Position, NewBucket, IdSet, Known, Elsewhere;
    if e.contact.id != t.localId {
      BucketIndexIsLog(t.localId, e.contact.id);
      var idx := BucketFor(t, e.contact.id);
      assert BucketOk(t, idx, t.buckets[idx]);
      KnownSplit(t, idx);
      FiledOnce(t, idx, e.contact.id);
      PositionFinds(t.buckets[idx], e.contact.id);
      CooldownIs32Ticks(t, idx);
    }
  }

  lemma PaceInRange(t: TableState, i: nat)
    requires TableOk(t) && i < 256 && t.refreshedAt[i] <= t.tick
    ensures MayProbe(t, i) <==> t.refreshedAt[i] == 0 || t.tick + 1 - t.refreshedAt[i] >= 32
  {
    var d := t.tick + 1 - t.refreshedAt[i];
    assert t.refreshedAt[i] > 0 ==> d % 0x1_0000_0000_0000_0000 == d;
  }

  /** What the table records is what happened, while the tick counter has room. */
  lemma {:induction false} RunStamps(localId: NodeId, k: nat, events: seq<Sighting>, i: nat)
    requires k >= 1 && i < 256 && |events| <= U64_MAX
    ensures var t := Grown(localId, k, events);
      && t.localId == localId && t.k == k && t.tick == Ticks(localId, events)
      && t.refreshedAt[i] == LastProbe(localId, k, events, i) <= t.tick
    decreases |events|
  {
    hide Newcomer, TableOk, Insert, MayProbe;
    if events != [] {
      var front, e := events[..|events| - 1], events[|events| - 1];
      RunStamps(localId, k, front, i);
      TicksAtMost(localId, events);
      TicksAtMost(localId, front);
      PaceInRange(Grown(localId, k, front), i);
      InsertStamps(Grown(localId, k, front), e, i);
    }
  }

  /**
    After every run from an empty table a newcomer to a full bucket is taken in exactly when the bucket has
    never probed or last probed at least 32 ticks ago, and its oldest contact does not answer.
   */
  lemma NewcomersAreProbed(localId: NodeId, k: nat, events: seq<Sighting>, e: Sighting, i: nat)
    requires k >= 1 && i < 256 && |events| < U64_MAX && Newcomer(Grown(localId, k, events), e.contact, i)
    ensures var t, last := Grown(localId, k, events), LastProbe(localId, k, events, i);
      e.contact.id in Known(Insert(t, e.contact, e.probe)) <==>
        (last == 0 || Ticks(localId, events) + 1 - last >= 32) && !e.probe(t.buckets[i][0])
  {
    hide Known, TableOk, Insert;
    var t := Grown(localId, k, events);
    RunStamps(localId, k, events, i);
    TicksAtMost(localId, events);
    PaceInRange(t, i);
    KnownAfterInsert(t, e.contact, e.probe);
  }

  /** The bucket has never turned to its oldest contact. */
  ghost predicate NoNewcomerYet(localId: NodeId, k: nat, events: seq<Sighting>, i: nat)
    requires k >= 1 && i < 256
  {
    forall j | 0 <= j < |events| :: !Newcomer(Grown(localId, k, events[..j]), events[j].contact, i)
  }

  lemma {:induction false} NeverStamped(localId: NodeId, k: nat, events: seq<Sighting>, i: nat)
    requires k >= 1 && i < 256 && NoNewcomerYet(localId, k, events, i)
    ensures Grown(localId, k, events).refreshedAt[i] == 0
    decreases |events|
  {
    hide Newcomer, TableOk, Insert;
    if events != [] {
      var front, e := events[..|events| - 1], events[|events| - 1];
      assert forall j | 0 <= j < |front| :: front[..j] == events[..j] && front[j] == events[j];
      assert NoNewcomerYet(localId, k, front, i);
      NeverStamped(localId, k, front, i);
      assert !Newcomer(Grown(localId, k, events[..|front|]), events[|front|].contact, i);
      InsertStamps(Grown(localId, k, front), e, i);
    }
  }

  /** The first newcomer to a full bucket is decided by the probe alone, however long the run. */
  lemma FirstNewcomerIsProbed(localId: NodeId, k: nat, events: seq<Sighting>, e: Sighting, i: nat)
    requires k >= 1 && i < 256 && Newcomer(Grown(localId, k, events), e.contact, i)
    requires NoNewcomerYet(localId, k, events, i)
    ensures var t := Grown(localId, k, events);
      e.contact.id in Known(Insert(t, e.contact, e.probe)) <==> !e.probe(t.buckets[i][0])
  {
    hide Known, TableOk, Insert, NoNewcomerYet;
    NeverStamped(localId, k, events, i);
    KnownAfterInsert(Grown(localId, k, events), e.contact, e.probe);
  }
}
