/** When a lookup must succeed: progress at every peer, and networks whose tables guarantee it. */
module Network {
  import opened Common
  import opened XorMetric
  import opened Ranking
  import opened Routing
  import opened FindNode

  /** Some contact of cs is strictly closer to the target than `than`. */
  ghost predicate OffersCloser(target: NodeId, cs: seq<Contact>, than: NodeId) {
    exists c :: c in cs && Dist(target, c.id) < Dist(target, than)
  }

  /**
    If the own table and every queried peer other than the target offer somebody closer than
    themselves, a lookup that does not hit the round cap reaches the target.
   */
  lemma ProgressReachesTarget(s: TableState, rpc: Rpc, target: NodeId, asked: seq<NodeId>, marks: seq<nat>,
      r: FindNodeResult)
    requires TableOk(s) && LookupCorrect(s, rpc, target, asked, marks, r) && r.rounds <= ROUND_CAP
    requires OffersCloser(target, Flatten(s.buckets), s.localId)
    requires forall p | p in asked && p != target :: OffersCloser(target, rpc(p, target), p)
    ensures r.foundExact && r.closest != [] && r.closest[0].id == target
  {
    AllContacts(s);
    var first :| first in Flatten(s.buckets) && Dist(target, first.id) < Dist(target, s.localId);
    assert first.id in IdSet(Flatten(s.buckets));
    var known := KnownAfter(s, rpc, target, asked);
    var best := BestIsNearest(target, known, s.k, r.closest, first.id);
    if best.id != target {
      var c :| c in rpc(best.id, target) && Dist(target, c.id) < Dist(target, best.id);
      ReplyIsKnown(s, rpc, target, asked, best.id, c);
      var again := BestIsNearest(target, known, s.k, r.closest, c.id);
    }
  }

  lemma ReplyIsKnown(s: TableState, rpc: Rpc, target: NodeId, asked: seq<NodeId>, p: NodeId, c: Contact)
    requires p in asked && c in rpc(p, target) && c.id != s.localId
    ensures c.id in KnownAfter(s, rpc, target, asked)
  {
  }

  lemma BestIsNearest(target: NodeId, S: set<NodeId>, k: nat, cs: seq<Contact>, x: NodeId) returns (best: Contact)
    requires k >= 1 && x in S && IsNearest(target, S, k, cs)
    ensures cs != [] && best == cs[0] && best in cs && best.id in IdSet(cs) && best.id in S
    ensures Dist(target, best.id) <= Dist(target, x)
  {
    assert S == S - {x} + {x};
    best := cs[0];
    if x in IdSet(cs) {
      var c :| c in cs && c.id == x;
    }
  }

  // ---------- rounds and RPCs ----------

  ghost predicate Rising(marks: seq<nat>) {
    forall j | 0 <= j < |marks| - 1 :: marks[j] < marks[j + 1]
  }

  /** Every round asks one peer. */
  ghost predicate OneByOne(marks: seq<nat>) {
    forall j | 0 <= j < |marks| - 1 :: marks[j + 1] == marks[j] + 1
  }

  lemma MarksRise(s: TableState, rpc: Rpc, target: NodeId, asked: seq<NodeId>, marks: seq<nat>)
    requires InRounds(s, rpc, target, asked, marks)
    ensures Rising(marks)
  {
    hide RoundAsks;
    forall j | 0 <= j < |marks| - 1 ensures marks[j] < marks[j + 1] {
      assert RoundAt(s, rpc, target, asked, marks, j);
    }
  }

  lemma {:induction false} RiseAddsUp(marks: seq<nat>, i: nat, j: nat)
    requires Rising(marks) && i <= j < |marks|
    ensures marks[i] + (j - i) <= marks[j]
    decreases j
  {
    if i < j {
      RiseAddsUp(marks, i, j - 1);
      assert marks[j - 1] < marks[j - 1 + 1];
    }
  }

  lemma {:induction false} OneByOneCounts(marks: seq<nat>, j: nat)
    requires OneByOne(marks) && j < |marks|
    ensures marks[j] == marks[0] + j
  {
    if j > 0 {
      OneByOneCounts(marks, j - 1);
      assert marks[j - 1 + 1] == marks[j - 1] + 1;
    }
  }

  /** Rising marks end on their count exactly when they rise by one. */
  lemma SlowestRise(marks: seq<nat>)
    requires Rising(marks) && marks != [] && marks[0] == 0
    ensures marks[|marks| - 1] == |marks| - 1 <==> OneByOne(marks)
  {
    var last := |marks| - 1;
    if OneByOne(marks) {
      OneByOneCounts(marks, last);
    } else {
      var j :| 0 <= j < last && marks[j + 1] != marks[j] + 1;
      RiseAddsUp(marks, 0, j);
      RiseAddsUp(marks, j + 1, last);
    }
  }

  /** A lookup asks somebody unless the table is empty. */
  lemma SomebodyIsAsked(s: TableState, rpc: Rpc, target: NodeId, asked: seq<NodeId>, marks: seq<nat>, r: FindNodeResult)
    requires TableOk(s) && LookupCorrect(s, rpc, target, asked, marks, r)
    ensures asked == [] <==> Known(s) == {}
  {
    hide TableOk, Known, KnownAfter, RoundAsks;
    KnownAtFirst(s, rpc, target);
    TableHasBuckets(s);
    if asked != [] {
      assert asked[..0] == [] && asked[0] in KnownAfter(s, rpc, target, asked[..0]);
    }
    if x :| x in Known(s) {
      KnownMore(s, rpc, target, [], asked);
      var best := BestIsNearest(target, KnownAfter(s, rpc, target, asked), s.k, r.closest, x);
      assert r.rounds > ROUND_CAP || best.id in asked;
    }
  }

  /** A round asks at most as many peers as the shortlist holds; the first asks all of them, up to ALPHA. */
  lemma RoundSize(s: TableState, rpc: Rpc, target: NodeId, before: seq<NodeId>, now: seq<NodeId>)
    requires RoundAsks(s, rpc, target, before, now)
    ensures |now| <= s.k && |now| <= ALPHA
    ensures before == [] ==> |now| == Min(ALPHA, Min(s.k, |KnownAfter(s, rpc, target, [])|))
  {
    hide KnownAfter;
    var kept, peers :|
      && IsNearest(target, KnownAfter(s, rpc, target, before), s.k, kept)
      && IsNearest(target, IdSet(kept) - (set p | p in before), ALPHA, peers)
      && now == IdsOf(peers);
    RankedAreDistinct(target, kept);
    DistinctCount(kept);
    SubsetSize(IdSet(kept) - (set p | p in before), IdSet(kept));
    if before == [] { assert IdSet(kept) - (set p | p in before) == IdSet(kept); }
  }

  lemma FirstRoundSize(s: TableState, rpc: Rpc, target: NodeId, asked: seq<NodeId>, marks: seq<nat>)
    requires TableOk(s) && InRounds(s, rpc, target, asked, marks) && |marks| > 1
    ensures marks[1] == Min(ALPHA, Min(s.k, |Known(s)|))
  {
    hide TableOk, Known, KnownAfter, RoundAsks;
    assert RoundAt(s, rpc, target, asked, marks, 0) && asked[..0] == [];
    RoundSize(s, rpc, target, [], asked[0..marks[1]]);
    KnownAtFirst(s, rpc, target);
  }

  /** `rounds` is the number of RPCs exactly when somebody is known and every round asks one peer. */
  lemma RoundsAreRpcsOneByOne(s: TableState, rpc: Rpc, target: NodeId, asked: seq<NodeId>, marks: seq<nat>,
      r: FindNodeResult)
    requires TableOk(s) && LookupCorrect(s, rpc, target, asked, marks, r)
    ensures r.rounds == |asked| <==> Known(s) != {} && OneByOne(marks)
  {
    hide TableOk, Known, AskedInOrder, RoundAsks, KnownAfter, IsNearest, Rising, OneByOne;
    SomebodyIsAsked(s, rpc, target, asked, marks, r);
    MarksRise(s, rpc, target, asked, marks);
    SlowestRise(marks);
  }

  /**
    For a table that knows at least two contacts `rounds` is the number of RPCs exactly when k is one;
    otherwise, whatever the peers answer, there are fewer rounds than RPCs.
   */
  lemma RoundsAreRpcsIff(s: TableState, rpc: Rpc, target: NodeId, asked: seq<NodeId>, marks: seq<nat>,
      r: FindNodeResult)
    requires TableOk(s) && |Known(s)| >= 2 && LookupCorrect(s, rpc, target, asked, marks, r)
    ensures r.rounds <= |asked| && (r.rounds == |asked| <==> s.k == 1)
  {
    hide TableOk, Known, AskedInOrder, RoundAsks, KnownAfter, IsNearest, Rising;
    SomebodyIsAsked(s, rpc, target, asked, marks, r);
    RoundsAreRpcsOneByOne(s, rpc, target, asked, marks, r);
    FirstRoundSize(s, rpc, target, asked, marks);
    TableHasBuckets(s);
    MarksRise(s, rpc, target, asked, marks);
    RiseAddsUp(marks, 1, |marks| - 1);
    if s.k == 1 {
      forall j | 0 <= j < |marks| - 1 ensures marks[j + 1] == marks[j] + 1 {
        assert RoundAt(s, rpc, target, asked, marks, j);
        RoundSize(s, rpc, target, asked[..marks[j]], asked[marks[j]..marks[j + 1]]);
      }
    }
  }

  /** Rounds in figures: of at most three peers each, the first as large as the table and k allow. */
  lemma RoundsInFigures(s: TableState, rpc: Rpc, target: NodeId, asked: seq<NodeId>, marks: seq<nat>, j: nat)
    requires TableOk(s) && InRounds(s, rpc, target, asked, marks) && j + 1 < |marks|
    ensures marks[j] < marks[j + 1] <= marks[j] + 3
    ensures j == 0 ==> marks[0] == 0 && marks[1] == Min(3, Min(s.k, |Known(s)|))
  {
    hide TableOk, Known, KnownAfter, RoundAsks;
    if j == 0 { FirstRoundSize(s, rpc, target, asked, marks); }
    assert RoundAt(s, rpc, target, asked, marks, j);
    RoundSize(s, rpc, target, asked[..marks[j]], asked[marks[j]..marks[j + 1]]);
  }

  /** Lookups in figures: at most 257 rounds; one of fewer has asked everybody it returns. */
  lemma LookupInFigures(s: TableState, rpc: Rpc, target: NodeId, asked: seq<NodeId>, marks: seq<nat>,
      r: FindNodeResult)
    requires LookupCorrect(s, rpc, target, asked, marks, r)
    ensures r.rounds <= 257 && |asked| <= 3 * r.rounds
    ensures r.rounds <= 256 ==> forall c | c in r.closest :: c.id in asked
  {
  }

  /** Three silent contacts and room for them: three RPCs, one round. */
  lemma RoundsAreNotRpcs(s: TableState, rpc: Rpc, target: NodeId, asked: seq<NodeId>, marks: seq<nat>,
      r: FindNodeResult)
    requires TableOk(s) && |Known(s)| == 3 && s.k >= 3 && forall p :: rpc(p, target) == []
    requires LookupCorrect(s, rpc, target, asked, marks, r)
    ensures |asked| == 3 && r.rounds == 1
  {
    hide TableOk, Known, AskedInOrder, RoundAsks, KnownAfter, IsNearest, Rising;
    SomebodyIsAsked(s, rpc, target, asked, marks, r);
    FirstRoundSize(s, rpc, target, asked, marks);
    OnlyKnownAsked(s, rpc, target, asked);
    MarksRise(s, rpc, target, asked, marks);
    RiseAddsUp(marks, 1, |marks| - 1);
  }

  lemma SilentPeers(s: TableState, rpc: Rpc, target: NodeId, asked: seq<NodeId>)
    requires TableOk(s) && forall p :: rpc(p, target) == []
    ensures KnownAfter(s, rpc, target, asked) == Known(s)
  {
    AllContacts(s);
    assert Heard(rpc, target, asked) == {};
  }

  lemma OnlyKnownAsked(s: TableState, rpc: Rpc, target: NodeId, asked: seq<NodeId>)
    requires TableOk(s) && AskedInOrder(s, rpc, target, asked) && forall p :: rpc(p, target) == []
    ensures |asked| <= |Known(s)|
  {
    hide TableOk, Known, KnownAfter;
    forall i | 0 <= i < |asked| ensures asked[i] in Known(s) {
      SilentPeers(s, rpc, target, asked[..i]);
    }
    DistinctFit(asked, Known(s));
  }

  lemma {:induction false} DistinctFit(ids: seq<NodeId>, S: set<NodeId>)
    requires (forall i, j | 0 <= i < j < |ids| :: ids[i] != ids[j]) && forall i | 0 <= i < |ids| :: ids[i] in S
    ensures |ids| <= |S|
    decreases |ids|
  {
    if ids != [] {
      DistinctFit(ids[..|ids| - 1], S - {ids[|ids| - 1]});
    }
  }

  // ---------- a network of routing tables ----------

  /** Every table is well formed, knows only members, and has a contact in the bucket of every other member. */
  ghost predicate WellConnected(net: map<NodeId, TableState>) {
    forall p | p in net ::
      && TableOk(net[p]) && net[p].localId == p && Known(net[p]) <= net.Keys
      && forall t | t in net && t != p :: BucketFor(net[p], t) < 256 && net[p].buckets[BucketFor(net[p], t)] != []
  }

  /** Members answer with the closest contacts of their own table; strangers answer nothing. */
  ghost predicate AnswersFrom(net: map<NodeId, TableState>, rpc: Rpc) {
    forall p, t :: if p in net then IsNearest(t, Known(net[p]), net[p].k, rpc(p, t)) else rpc(p, t) == []
  }

  /** A filled bucket at the target's position holds somebody closer, by at least one bit. */
  lemma BucketMateIsCloser(net: map<NodeId, TableState>, p: NodeId, t: NodeId) returns (c: Contact)
    requires WellConnected(net) && p in net && t in net && p != t
    ensures c in Flatten(net[p].buckets) && c.id in Known(net[p])
    ensures Dist(t, c.id) < Pow2(BucketIndex(Distance(p, t))) <= Dist(t, p) && BucketIndex(Distance(p, t)) < 256
  {
    var s := net[p];
    var i := BucketFor(s, t);
    assert BucketOk(s, i, s.buckets[i]);
    c := s.buckets[i][0];
    assert c in s.buckets[i];
    FlattenMember(s.buckets, c);
    SameBucketIsCloser(p, c.id, t);
  }

  lemma ReplyInside(net: map<NodeId, TableState>, rpc: Rpc, p: NodeId, target: NodeId, id: NodeId)
    requires WellConnected(net) && AnswersFrom(net, rpc) && id in IdSet(rpc(p, target))
    ensures id in net
  {
    hide IdSet, Known;
    if p !in net {
      NoOffers();
    }
  }

  /** Everything a lookup hears of is a member of the network. */
  lemma {:induction false} KnownAreMembers(net: map<NodeId, TableState>, rpc: Rpc, from: NodeId, target: NodeId,
      asked: seq<NodeId>)
    requires WellConnected(net) && AnswersFrom(net, rpc) && from in net
    ensures KnownAfter(net[from], rpc, target, asked) <= net.Keys
    decreases |asked|
  {
    var s := net[from];
    if asked == [] {
      KnownAtFirst(s, rpc, target);
    } else {
      var front, p := asked[..|asked| - 1], asked[|asked| - 1];
      assert asked == front + [p];
      KnownAreMembers(net, rpc, from, target, front);
      HeardGrows(s, rpc, target, front, p);
      hide WellConnected, AnswersFrom, KnownAfter, IdSet;
      forall id | id in IdSet(rpc(p, target)) ensures id in net {
        ReplyInside(net, rpc, p, target, id);
      }
    }
  }

  /** So only members are ever asked. */
  lemma AskedAreMembers(net: map<NodeId, TableState>, rpc: Rpc, from: NodeId, target: NodeId, asked: seq<NodeId>)
    requires WellConnected(net) && AnswersFrom(net, rpc) && from in net
    requires AskedInOrder(net[from], rpc, target, asked)
    ensures forall p | p in asked :: p in net
  {
    hide WellConnected, AnswersFrom, KnownAfter;
    forall i | 0 <= i < |asked| ensures asked[i] in net {
      KnownAreMembers(net, rpc, from, target, asked[..i]);
    }
  }

  // ---------- every round gains a bit ----------

  /** The nearest of the kept contacts has been asked before the round, or is the first to be asked in it. */
  lemma BestIsAsked(target: NodeId, kept: seq<Contact>, before: seq<NodeId>, peers: seq<Contact>, best: Contact)
    requires Ranked(target, kept) && kept != [] && best == kept[0]
    requires IsNearest(target, IdSet(kept) - (set p | p in before), ALPHA, peers)
    ensures best.id in before + IdsOf(peers)
  {
    assert best in kept && best.id in IdSet(kept);
    if best.id !in before {
      var first := BestIsNearest(target, IdSet(kept) - (set p | p in before), ALPHA, peers, best.id);
      var c :| c in kept && c.id == first.id;
      DistInjective(target, first.id, best.id);
      assert IdsOf(peers)[0] == first.id;
    }
  }

  /** A member other than the target answers with somebody a bit closer. */
  lemma AnswerIsCloser(net: map<NodeId, TableState>, rpc: Rpc, p: NodeId, target: NodeId, n: nat) returns (c: Contact)
    requires WellConnected(net) && AnswersFrom(net, rpc) && p in net && target in net && p != target
    requires Dist(target, p) < Pow2(n + 1)
    ensures c in rpc(p, target) && Dist(target, c.id) < Pow2(n) && Dist(target, c.id) < Dist(target, p)
  {
    var mate := BucketMateIsCloser(net, p, target);
    var i := BucketIndex(Distance(p, target));
    PowersGrow(i, n + 1);
    PowersGrow(i, n);
    c := BestIsNearest(target, Known(net[p]), net[p].k, rpc(p, target), mate.id);
  }

  /** Somebody known after asking these peers is closer to the target than 2^n. */
  ghost predicate Within(s: TableState, rpc: Rpc, target: NodeId, asked: seq<NodeId>, n: nat) {
    exists x :: x in KnownAfter(s, rpc, target, asked) && Dist(target, x) < Pow2(n)
  }

  lemma FirstIsWithin(net: map<NodeId, TableState>, rpc: Rpc, from: NodeId, target: NodeId)
    returns (first: Contact)
    requires WellConnected(net) && from in net && target in net && from != target
    ensures first.id in Known(net[from]) && Dist(target, first.id) < Dist(target, from)
    ensures Within(net[from], rpc, target, [], 255)
  {
    first := BucketMateIsCloser(net, from, target);
    PowersGrow(BucketIndex(Distance(from, target)), 255);
    KnownAtFirst(net[from], rpc, target);
  }

  /** A round that starts within 2^(n+1) of the target ends within 2^n. */
  lemma RoundGainsABit(net: map<NodeId, TableState>, rpc: Rpc, from: NodeId, target: NodeId, before: seq<NodeId>,
      now: seq<NodeId>, n: nat)
    requires WellConnected(net) && AnswersFrom(net, rpc) && from in net && target in net && from != target
    requires RoundAsks(net[from], rpc, target, before, now) && Within(net[from], rpc, target, before, n + 1)
    ensures Within(net[from], rpc, target, before + now, n)
  {
    var s := net[from];
    var kept, peers :|
      && IsNearest(target, KnownAfter(s, rpc, target, before), s.k, kept)
      && IsNearest(target, IdSet(kept) - (set p | p in before), ALPHA, peers)
      && now == IdsOf(peers);
    var x :| x in KnownAfter(s, rpc, target, before) && Dist(target, x) < Pow2(n + 1);
    GainABit(net, rpc, from, target, before, kept, peers, x, n);
  }

  lemma GainABit(net: map<NodeId, TableState>, rpc: Rpc, from: NodeId, target: NodeId, before: seq<NodeId>,
      kept: seq<Contact>, peers: seq<Contact>, x: NodeId, n: nat)
    requires WellConnected(net) && AnswersFrom(net, rpc) && from in net && target in net && from != target
    requires IsNearest(target, KnownAfter(net[from], rpc, target, before), net[from].k, kept)
    requires IsNearest(target, IdSet(kept) - (set p | p in before), ALPHA, peers)
    requires x in KnownAfter(net[from], rpc, target, before) && Dist(target, x) < Pow2(n + 1)
    ensures Within(net[from], rpc, target, before + IdsOf(peers), n)
  {
    var s := net[from];
    TableHasRoom(net, from);
    hide WellConnected, AnswersFrom, KnownAfter, IsNearest, IdSet, Known, Dist, IdsOf, TableOk;
    var known, after := KnownAfter(s, rpc, target, before), before + IdsOf(peers);
    var best := BestIsNearest(target, known, s.k, kept, x);
    KnownMore(s, rpc, target, before, after);
    if best.id == target {
      MetricLaws(target, target);
      assert best.id in KnownAfter(s, rpc, target, after);
    } else {
      NearestIsRanked(target, known, s.k, kept);
      BestIsAsked(target, kept, before, peers, best);
      KnownAreMembers(net, rpc, from, target, before);
      var c := AnswerIsCloser(net, rpc, best.id, target, n);
      BestBeatsOwner(net, rpc, from, target, before, kept, best);
      ReplyIsKnown(s, rpc, target, after, best.id, c);
    }
  }

  lemma TableHasRoom(net: map<NodeId, TableState>, p: NodeId)
    requires WellConnected(net) && p in net
    ensures net[p].k >= 1 && net[p].localId == p
  {
  }

  lemma BestBeatsOwner(net: map<NodeId, TableState>, rpc: Rpc, from: NodeId, target: NodeId, asked: seq<NodeId>,
      kept: seq<Contact>, best: Contact)
    requires WellConnected(net) && from in net && target in net && from != target
    requires IsNearest(target, KnownAfter(net[from], rpc, target, asked), net[from].k, kept) && kept != [] &&
      best == kept[0]
    ensures Dist(target, best.id) < Dist(target, from)
  {
    TableHasRoom(net, from);
    var first := FirstIsWithin(net, rpc, from, target);
    KnownAtFirst(net[from], rpc, target);
    KnownMore(net[from], rpc, target, [], asked);
    hide KnownAfter, WellConnected, IsNearest, Dist;
    var again := BestIsNearest(target, KnownAfter(net[from], rpc, target, asked), net[from].k, kept, first.id);
  }

  lemma {:induction false} BitsGained(net: map<NodeId, TableState>, rpc: Rpc, from: NodeId, target: NodeId,
      asked: seq<NodeId>, marks: seq<nat>, j: nat)
    requires WellConnected(net) && AnswersFrom(net, rpc) && from in net && target in net && from != target
    requires InRounds(net[from], rpc, target, asked, marks) && j < |marks| && j <= 255
    ensures marks[j] <= |asked| && Within(net[from], rpc, target, asked[..marks[j]], 255 - j)
  {
    hide WellConnected, AnswersFrom, Within, RoundAsks;
    if j == 0 {
      var first := FirstIsWithin(net, rpc, from, target);
      assert asked[..0] == [];
    } else {
      BitsGained(net, rpc, from, target, asked, marks, j - 1);
      assert RoundAt(net[from], rpc, target, asked, marks, j - 1);
      var lo, hi := marks[j - 1], marks[j];
      RoundGainsABit(net, rpc, from, target, asked[..lo], asked[lo..hi], 255 - j);
      assert asked[..lo] + asked[lo..hi] == asked[..hi];
    }
  }

  /** After 255 rounds nobody closer than the target is left to find. */
  lemma KnownByRound255(net: map<NodeId, TableState>, rpc: Rpc, from: NodeId, target: NodeId, asked: seq<NodeId>,
      marks: seq<nat>)
    requires WellConnected(net) && AnswersFrom(net, rpc) && from in net && target in net && from != target
    requires InRounds(net[from], rpc, target, asked, marks) && 255 < |marks|
    ensures target in KnownAfter(net[from], rpc, target, asked)
  {
    BitsGained(net, rpc, from, target, asked, marks, 255);
    hide WellConnected, AnswersFrom, InRounds, KnownAfter;
    var front := asked[..marks[255]];
    var x :| x in KnownAfter(net[from], rpc, target, front) && Dist(target, x) < Pow2(0);
    MetricLaws(target, x);
    KnownMore(net[from], rpc, target, front, asked);
  }

  /** In a well-connected network every member finds every other, however many hops away. */
  lemma MembersFindEachOther(net: map<NodeId, TableState>, rpc: Rpc, from: NodeId, target: NodeId, asked: seq<NodeId>,
      marks: seq<nat>, r: FindNodeResult)
    requires WellConnected(net) && AnswersFrom(net, rpc) && from in net && target in net && from != target
    requires LookupCorrect(net[from], rpc, target, asked, marks, r)
    ensures r.foundExact && r.closest != [] && r.closest[0].id == target
  {
    TableHasRoom(net, from);
    if r.rounds <= ROUND_CAP {
      FoundWithinCap(net, rpc, from, target, asked, marks, r);
    } else {
      KnownByRound255(net, rpc, from, target, asked, marks);
      hide WellConnected, AnswersFrom, InRounds, KnownAfter, AskedInOrder;
      var best := BestIsNearest(target, KnownAfter(net[from], rpc, target, asked), net[from].k, r.closest, target);
      MetricLaws(target, target);
      MetricLaws(target, best.id);
    }
  }

  lemma FoundWithinCap(net: map<NodeId, TableState>, rpc: Rpc, from: NodeId, target: NodeId, asked: seq<NodeId>,
      marks: seq<nat>, r: FindNodeResult)
    requires WellConnected(net) && AnswersFrom(net, rpc) && from in net && target in net && from != target
    requires LookupCorrect(net[from], rpc, target, asked, marks, r) && r.rounds <= ROUND_CAP
    ensures r.foundExact && r.closest != [] && r.closest[0].id == target
  {
    AskedAreMembers(net, rpc, from, target, asked);
    var first := BucketMateIsCloser(net, from, target);
    forall p | p in asked && p != target ensures OffersCloser(target, rpc(p, target), p) {
      var mate := BucketMateIsCloser(net, p, target);
      var best := BestIsNearest(target, Known(net[p]), net[p].k, rpc(p, target), mate.id);
    }
    ProgressReachesTarget(net[from], rpc, target, asked, marks, r);
  }
}
