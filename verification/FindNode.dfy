/** The iterative FIND_NODE lookup of mesh-transport/src/kademlia_routing.rs (section 2.3 of the Kademlia paper). */
module FindNode {
  import opened Common
  import opened XorMetric
  import opened Ranking
  import opened Routing

  const ALPHA := 3
  const ROUND_CAP := 256

  /** A peer's answer: the contacts it offers for a target. */
  type Rpc = (NodeId, NodeId) -> seq<Contact>

  datatype FindNodeResult = FindNodeResult(closest: seq<Contact>, foundExact: bool, rounds: nat)

  // ---------- what a lookup can know ----------

  ghost function Heard(rpc: Rpc, target: NodeId, asked: seq<NodeId>): set<NodeId> {
    set p, c | p in asked && c in rpc(p, target) :: c.id
  }

  /** Every id in the local table or in a reply, the own id excluded. */
  ghost function KnownAfter(s: TableState, rpc: Rpc, target: NodeId, asked: seq<NodeId>): set<NodeId> {
    Known(s) + Heard(rpc, target, asked) - {s.localId}
  }

  /** The first contact with this id in a list. */
  function OfferOf(cs: seq<Contact>, id: NodeId): (r: Option<Contact>)
    ensures r.Some? ==> r.value in cs && r.value.id == id
  {
    var p := Position(cs, id);
    if p < |cs| then Some(cs[p]) else None
  }

  /** The contact first heard of under an id: the table's own, else that of the first reply that has one. */
  ghost function FirstHeard(s: TableState, rpc: Rpc, target: NodeId, asked: seq<NodeId>, id: NodeId): Option<Contact>
    decreases |asked|
  {
    if asked == [] then OfferOf(Flatten(s.buckets), id)
    else
      var before := FirstHeard(s, rpc, target, asked[..|asked| - 1], id);
      if before.Some? then before else OfferOf(rpc(asked[|asked| - 1], target), id)
  }

  /** Only known peers are asked, each once, never the own id. */
  ghost predicate AskedInOrder(s: TableState, rpc: Rpc, target: NodeId, asked: seq<NodeId>) {
    && (forall i, j | 0 <= i < j < |asked| :: asked[i] != asked[j])
    && forall i | 0 <= i < |asked| :: asked[i] in KnownAfter(s, rpc, target, asked[..i])
  }

  function IdsOf(cs: seq<Contact>): seq<NodeId> {
    seq(|cs|, i requires 0 <= i < |cs| => cs[i].id)
  }

  /** One round asks the ALPHA nearest unasked ids among the k nearest known ones, nearest first. */
  ghost predicate RoundAsks(s: TableState, rpc: Rpc, target: NodeId, before: seq<NodeId>, now: seq<NodeId>) {
    exists kept: seq<Contact>, peers: seq<Contact> ::
      && IsNearest(target, KnownAfter(s, rpc, target, before), s.k, kept)
      && IsNearest(target, IdSet(kept) - (set p | p in before), ALPHA, peers)
      && now == IdsOf(peers)
  }

  /** The marks cut the peers asked into rounds. */
  ghost predicate InRounds(s: TableState, rpc: Rpc, target: NodeId, asked: seq<NodeId>, marks: seq<nat>) {
    && marks != [] && marks[0] == 0 && marks[|marks| - 1] == |asked|
    && forall j | 0 <= j < |marks| - 1 :: RoundAt(s, rpc, target, asked, marks, j)
  }

  ghost predicate RoundAt(s: TableState, rpc: Rpc, target: NodeId, asked: seq<NodeId>, marks: seq<nat>, j: nat)
    requires j + 1 < |marks|
  {
    && marks[j] < marks[j + 1] <= |asked|
    && RoundAsks(s, rpc, target, asked[..marks[j]], asked[marks[j]..marks[j + 1]])
  }

  /**
    What a finished lookup guarantees; asked lists the peers queried, in order, and marks cuts them
    into rounds: `rounds` counts them, except that asking nobody counts as one. Unless the cap ended
    the lookup, every contact returned was itself asked.
   */
  ghost predicate LookupCorrect(s: TableState, rpc: Rpc, target: NodeId, asked: seq<NodeId>, marks: seq<nat>,
      r: FindNodeResult) {
    && AskedInOrder(s, rpc, target, asked) && InRounds(s, rpc, target, asked, marks)
    && r.rounds == (if asked == [] then 1 else |marks| - 1) && |asked| <= ALPHA * r.rounds
    && r.rounds <= ROUND_CAP + 1
    && IsNearest(target, KnownAfter(s, rpc, target, asked), s.k, r.closest)
    && (r.foundExact <==> target in IdSet(r.closest))
    && (forall c | c in r.closest :: FirstHeard(s, rpc, target, asked, c.id) == Some(c))
    && (r.rounds <= ROUND_CAP ==> forall c | c in r.closest :: c.id in asked)
  }

  // ---------- pieces of the loop ----------

  /** The contacts of a shortlist that are not in `skip`, in an arbitrary order. */
  method Values(m: map<NodeId, Contact>, skip: set<NodeId>) returns (cs: seq<Contact>)
    requires forall id | id in m :: m[id].id == id
    ensures DistinctIds(cs) && IdSet(cs) == m.Keys - skip
    ensures forall c | c in cs :: c.id in m && m[c.id] == c
  {
    hide IdSet, DistinctIds;
    NoOffers();
    var todo := m.Keys - skip;
    cs := [];
    while todo != {}
      invariant todo <= m.Keys - skip
      invariant DistinctIds(cs) && IdSet(cs) == m.Keys - skip - todo
      invariant forall c | c in cs :: c.id in m && m[c.id] == c
      decreases |todo|
    {
      var id :| id in todo;
      IdSetSnoc(cs, m[id]);
      DistinctSnoc(cs, m[id]);
      cs := cs + [m[id]];
      todo := todo - {id};
    }
  }

  lemma DistinctSnoc(cs: seq<Contact>, c: Contact)
    requires DistinctIds(cs) && c.id !in IdSet(cs)
    ensures DistinctIds(cs + [c])
  {
    assert forall i | 0 <= i < |cs| :: cs[i] in cs && cs[i].id in IdSet(cs);
  }

  /** The least distance of a shortlist, or all ones when it is empty. */
  method BestDistance(m: map<NodeId, Contact>, target: NodeId) returns (best: NodeId)
    requires forall id | id in m :: m[id].id == id
    ensures m == map[] ==> best == seq(32, _ => 0xff)
    ensures m != map[] ==> exists id :: id in m && best == Distance(target, id)
    ensures forall id | id in m :: Value(best) <= Dist(target, id)
  {
    if m == map[] {
      return seq(32, _ => 0xff);
    }
    var cs := Values(m, {});
    var sorted := SortByDistance(target, cs);
    assert forall id | id in m :: id in IdSet(cs);
    assert cs != [] && sorted[0] in cs;
    best := XorDistance(target, sorted[0].id);
    forall id | id in m ensures Value(best) <= Dist(target, id) {
      var c :| c in cs && c.id == id;
      var i :| 0 <= i < |sorted| && sorted[i] == c;
    }
  }

  /** Folds one reply into the shortlist: own id skipped, known contacts kept as they are. */
  method AddReplies(localId: NodeId, target: NodeId, replies: seq<Contact>, m0: map<NodeId, Contact>, found0: bool)
    returns (m: map<NodeId, Contact>, found: bool)
    ensures m.Keys == m0.Keys + (IdSet(replies) - {localId})
    ensures forall id | id in m0 :: m[id] == m0[id]
    ensures forall id | id in m && id !in m0 :: OfferOf(replies, id) == Some(m[id])
    ensures found <==> found0 || (target in IdSet(replies) && target != localId)
  {
    hide IdSet, OfferOf;
    NoOffers();
    m, found := m0, found0;
    for i := 0 to |replies|
      invariant m.Keys == m0.Keys + (IdSet(replies[..i]) - {localId})
      invariant forall id | id in m0 :: m[id] == m0[id]
      invariant forall id | id in m && id !in m0 :: OfferOf(replies[..i], id) == Some(m[id])
      invariant found <==> found0 || (target in IdSet(replies[..i]) && target != localId)
    {
      var contact := replies[i];
      assert replies[..i + 1] == replies[..i] + [contact];
      IdSetSnoc(replies[..i], contact);
      OffersGrow(replies[..i], contact);
      OfferedMeansListed(replies[..i], contact.id);
      if contact.id == localId {
        continue;
      }
      if contact.id == target {
        found := true;
      }
      if contact.id !in m {
        m := m[contact.id := contact];
      }
    }
    assert replies[..|replies|] == replies;
  }

  lemma NoOffers()
    ensures IdSet([]) == {} && DistinctIds([])
  {
  }

  lemma HeardGrows(s: TableState, rpc: Rpc, target: NodeId, asked: seq<NodeId>, p: NodeId)
    ensures Heard(rpc, target, asked + [p]) == Heard(rpc, target, asked) + IdSet(rpc(p, target))
    ensures KnownAfter(s, rpc, target, asked + [p]) ==
      KnownAfter(s, rpc, target, asked) + (IdSet(rpc(p, target)) - {s.localId})
  {
    var a, b := Heard(rpc, target, asked + [p]), Heard(rpc, target, asked) + IdSet(rpc(p, target));
    forall id ensures id in a <==> id in b {
      if id in a {
        var q, c :| q in asked + [p] && c in rpc(q, target) && c.id == id;
      }
      if id in IdSet(rpc(p, target)) {
        var c :| c in rpc(p, target) && c.id == id;
        assert p in asked + [p];
      }
      if id in Heard(rpc, target, asked) {
        var q, c :| q in asked && c in rpc(q, target) && c.id == id;
        assert q in asked + [p];
      }
    }
    assert a == b;
  }

  lemma {:induction false} PositionSnoc(cs: seq<Contact>, c: Contact, id: NodeId)
    ensures Position(cs + [c], id) == if Position(cs, id) < |cs| || c.id == id then Position(cs, id) else |cs| + 1
  {
    if cs == [] {
      assert [c][1..] == [];
    } else {
      PositionSnoc(cs[1..], c, id);
      assert (cs + [c])[1..] == cs[1..] + [c];
    }
  }

  lemma OffersGrow(cs: seq<Contact>, c: Contact)
    ensures forall id :: OfferOf(cs + [c], id) == OfferOrElse(OfferOf(cs, id), c, id)
  {
    forall id ensures OfferOf(cs + [c], id) == OfferOrElse(OfferOf(cs, id), c, id) {
      PositionSnoc(cs, c, id);
    }
  }

  function OfferOrElse(first: Option<Contact>, c: Contact, id: NodeId): Option<Contact> {
    if first.Some? then first else if c.id == id then Some(c) else None
  }

  lemma OfferedMeansListed(cs: seq<Contact>, id: NodeId)
    ensures OfferOf(cs, id).Some? <==> id in IdSet(cs)
  {
    var p := Position(cs, id);
    if id in IdSet(cs) {
      var c :| c in cs && c.id == id;
      var i :| 0 <= i < |cs| && cs[i] == c;
      assert p <= i;
    }
    if p < |cs| {
      assert cs[p] in cs;
    }
  }

  lemma NothingHeard(rpc: Rpc, target: NodeId)
    ensures Heard(rpc, target, []) == {}
  {
  }

  lemma FirstHeardSnoc(s: TableState, rpc: Rpc, target: NodeId, asked: seq<NodeId>, p: NodeId, id: NodeId)
    ensures FirstHeard(s, rpc, target, asked + [p], id) ==
      var before := FirstHeard(s, rpc, target, asked, id); if before.Some? then before else OfferOf(rpc(p, target), id)
  {
    assert (asked + [p])[..|asked|] == asked;
  }

  /** Heard of is known. */
  lemma {:induction false} HeardMeansKnown(s: TableState, rpc: Rpc, target: NodeId, asked: seq<NodeId>, id: NodeId)
    requires TableOk(s) && id != s.localId
    ensures FirstHeard(s, rpc, target, asked, id).Some? <==> id in KnownAfter(s, rpc, target, asked)
    decreases |asked|
  {
    hide TableOk, KnownAfter;
    if asked == [] {
      OfferedMeansListed(Flatten(s.buckets), id);
      KnownAtFirst(s, rpc, target);
    } else {
      var front, p := asked[..|asked| - 1], asked[|asked| - 1];
      assert asked == front + [p];
      HeardMeansKnown(s, rpc, target, front, id);
      HeardGrows(s, rpc, target, front, p);
      OfferedMeansListed(rpc(p, target), id);
    }
  }

  lemma KnownAtFirst(s: TableState, rpc: Rpc, target: NodeId)
    requires TableOk(s)
    ensures KnownAfter(s, rpc, target, []) == Known(s) == IdSet(Flatten(s.buckets))
  {
    hide TableOk, Known;
    AllContacts(s);
    NothingHeard(rpc, target);
  }

  /**
    The shortlist holds contacts as first heard, except under ids in `passed`: known ones that no
    longer compete. It covers everything else that is known.
   */
  ghost predicate Shortlist(s: TableState, rpc: Rpc, target: NodeId, asked: seq<NodeId>, m: map<NodeId, Contact>,
      passed: set<NodeId>) {
    && (forall id | id in m :: id != s.localId && m[id].id == id)
    && (forall id | id in m && id !in passed :: FirstHeard(s, rpc, target, asked, id) == Some(m[id]))
    && KnownAfter(s, rpc, target, asked) <= m.Keys + passed
  }

  /** Folding a reply in keeps the contacts first heard. */
  lemma ShortlistGrows(s: TableState, rpc: Rpc, target: NodeId, asked: seq<NodeId>, p: NodeId, m0: map<NodeId, Contact>,
      m: map<NodeId, Contact>, passed: set<NodeId>)
    requires TableOk(s) && Shortlist(s, rpc, target, asked, m0, passed)
    requires m.Keys == m0.Keys + (IdSet(rpc(p, target)) - {s.localId})
    requires forall id | id in m0 :: m[id] == m0[id]
    requires forall id | id in m && id !in m0 :: OfferOf(rpc(p, target), id) == Some(m[id])
    ensures Shortlist(s, rpc, target, asked + [p], m, passed)
  {
    hide TableOk, KnownAfter, FirstHeard, OfferOf;
    HeardGrows(s, rpc, target, asked, p);
    forall id | id in m && id !in passed ensures FirstHeard(s, rpc, target, asked + [p], id) == Some(m[id]) {
      FirstHeardSnoc(s, rpc, target, asked, p, id);
      HeardMeansKnown(s, rpc, target, asked, id);
    }
  }

  lemma AskOneMore(s: TableState, rpc: Rpc, target: NodeId, asked: seq<NodeId>, p: NodeId)
    requires AskedInOrder(s, rpc, target, asked) && p !in asked && p in KnownAfter(s, rpc, target, asked)
    ensures AskedInOrder(s, rpc, target, asked + [p])
  {
    var a := asked + [p];
    assert a[..|asked|] == asked;
    forall i | 0 <= i < |a| ensures a[i] in KnownAfter(s, rpc, target, a[..i]) {
      if i < |asked| { assert a[..i] == asked[..i]; }
    }
  }

  /** The bookkeeping of a lookup agrees with the peers asked so far. */
  ghost predicate InStep(s: TableState, rpc: Rpc, target: NodeId, asked: seq<NodeId>, m: map<NodeId, Contact>,
      passed: set<NodeId>, queried: set<NodeId>, found: bool) {
    && TableOk(s)
    && Shortlist(s, rpc, target, asked, m, passed) && AskedInOrder(s, rpc, target, asked)
    && queried == {s.localId} + (set p | p in asked)
    && (found <==> target in KnownAfter(s, rpc, target, asked))
  }

  method AskPeer(ghost s: TableState, localId: NodeId, target: NodeId, rpc: Rpc, id: NodeId, m0: map<NodeId, Contact>,
      queried0: set<NodeId>, found0: bool, ghost asked: seq<NodeId>, ghost passed: set<NodeId>)
    returns (m: map<NodeId, Contact>, queried: set<NodeId>, found: bool)
    requires localId == s.localId && InStep(s, rpc, target, asked, m0, passed, queried0, found0)
    requires id !in asked && id in KnownAfter(s, rpc, target, asked)
    ensures InStep(s, rpc, target, asked + [id], m, passed, queried, found)
    ensures m.Keys == m0.Keys + (IdSet(rpc(id, target)) - {localId})
  {
    hide InStep, KnownAfter, IdSet, OfferOf;
    queried := queried0 + {id};
    var replies := rpc(id, target);
    m, found := AddReplies(localId, target, replies, m0, found0);
    StepOn(s, rpc, target, asked, id, m0, m, passed, queried0, found0, found);
  }

  /** The bookkeeping after one more peer has answered. */
  lemma StepOn(s: TableState, rpc: Rpc, target: NodeId, asked: seq<NodeId>, id: NodeId, m0: map<NodeId, Contact>,
      m: map<NodeId, Contact>, passed: set<NodeId>, queried0: set<NodeId>, found0: bool, found: bool)
    requires InStep(s, rpc, target, asked, m0, passed, queried0, found0)
    requires id !in asked && id in KnownAfter(s, rpc, target, asked)
    requires m.Keys == m0.Keys + (IdSet(rpc(id, target)) - {s.localId})
    requires forall x | x in m0 :: m[x] == m0[x]
    requires forall x | x in m && x !in m0 :: OfferOf(rpc(id, target), x) == Some(m[x])
    requires found <==> found0 || (target in IdSet(rpc(id, target)) && target != s.localId)
    ensures InStep(s, rpc, target, asked + [id], m, passed, queried0 + {id}, found)
  {
    hide TableOk, KnownAfter, Shortlist, AskedInOrder, IdSet, OfferOf;
    HeardGrows(s, rpc, target, asked, id);
    AskOneMore(s, rpc, target, asked, id);
    ShortlistGrows(s, rpc, target, asked, id, m0, m, passed);
  }

  ghost predicate Askable(s: TableState, rpc: Rpc, target: NodeId, asked: seq<NodeId>, peers: seq<Contact>, from: nat) {
    forall j | from <= j < |peers| :: peers[j].id !in asked && peers[j].id in KnownAfter(s, rpc, target, asked)
  }

  lemma StillAskable(s: TableState, rpc: Rpc, target: NodeId, asked: seq<NodeId>, peers: seq<Contact>, i: nat)
    requires DistinctIds(peers) && i < |peers| && Askable(s, rpc, target, asked, peers, i)
    ensures Askable(s, rpc, target, asked + [peers[i].id], peers, i + 1)
  {
    var id := peers[i].id;
    HeardGrows(s, rpc, target, asked, id);
    var before, after := KnownAfter(s, rpc, target, asked), KnownAfter(s, rpc, target, asked + [id]);
    forall j | i + 1 <= j < |peers| ensures peers[j].id !in asked + [id] && peers[j].id in after {
      assert peers[j].id in before;
    }
  }

  /** One round's queries, in the order of the candidates. */
  method AskPeers(ghost s: TableState, localId: NodeId, target: NodeId, rpc: Rpc, peers: seq<Contact>,
      m0: map<NodeId, Contact>, queried0: set<NodeId>, found0: bool, ghost asked0: seq<NodeId>,
      ghost passed: set<NodeId>)
    returns (m: map<NodeId, Contact>, queried: set<NodeId>, found: bool, ghost asked: seq<NodeId>,
      ghost news: set<NodeId>)
    requires localId == s.localId && DistinctIds(peers)
    requires InStep(s, rpc, target, asked0, m0, passed, queried0, found0)
    requires Askable(s, rpc, target, asked0, peers, 0)
    ensures InStep(s, rpc, target, asked, m, passed, queried, found)
    ensures asked == asked0 + IdsOf(peers)
    ensures m.Keys == m0.Keys + news && KnownAfter(s, rpc, target, asked) == KnownAfter(s, rpc, target, asked0) + news
  {
    hide InStep, KnownAfter, IdSet;
    m, queried, found, asked, news := m0, queried0, found0, asked0, {};
    ghost var ids := IdsOf(peers);
    for i := 0 to |peers|
      invariant InStep(s, rpc, target, asked, m, passed, queried, found)
      invariant asked == asked0 + ids[..i]
      invariant Askable(s, rpc, target, asked, peers, i)
      invariant m.Keys == m0.Keys + news &&
        KnownAfter(s, rpc, target, asked) == KnownAfter(s, rpc, target, asked0) + news
    {
      var id := peers[i].id;
      ghost var reply := IdSet(rpc(id, target)) - {localId};
      HeardGrows(s, rpc, target, asked, id);
      StillAskable(s, rpc, target, asked, peers, i);
      UnionAssoc(m0.Keys, news, reply);
      UnionAssoc(KnownAfter(s, rpc, target, asked0), news, reply);
      m, queried, found := AskPeer(s, localId, target, rpc, id, m, queried, found, asked, passed);
      news := news + reply;
      assert ids[..i + 1] == ids[..i] + [id];
      asked := asked + [id];
    }
    assert ids[..|peers|] == ids;
  }

  lemma UnionAssoc<T>(a: set<T>, b: set<T>, c: set<T>)
    ensures a + b + c == a + (b + c)
  {
  }

  lemma NearestHoldsTarget(target: NodeId, S: set<NodeId>, k: nat, cs: seq<Contact>)
    requires k >= 1 && IsNearest(target, S, k, cs)
    ensures target in S <==> target in IdSet(cs)
  {
    if target in S {
      RankedAreDistinct(target, cs);
      assert S == S - {target} + {target};
      assert cs[0] in cs && cs[0].id in IdSet(cs);
      MetricLaws(target, target);
    }
  }

  /** Sorts the values of a shortlist and keeps the k nearest. */
  method Nearest(m: map<NodeId, Contact>, skip: set<NodeId>, target: NodeId, k: nat) returns (cs: seq<Contact>)
    requires forall id | id in m :: m[id].id == id
    ensures IsNearest(target, m.Keys - skip, k, cs)
    ensures forall c | c in cs :: c.id in m && m[c.id] == c
  {
    var all := Values(m, skip);
    var sorted := SortByDistance(target, all);
    assert IdSet(sorted) == IdSet(all);
    TakeIsNearest(target, sorted, k);
    cs := sorted[..Min(k, |sorted|)];
  }

  lemma IdSetSnoc(front: seq<Contact>, last: Contact)
    ensures IdSet(front + [last]) == IdSet(front) + {last.id}
  {
    var cs := front + [last];
    assert forall c :: c in cs <==> c in front || c == last;
    forall id ensures id in IdSet(cs) <==> id in IdSet(front) + {last.id} {
      if id in IdSet(front) {
        var c :| c in front && c.id == id;
        assert c in cs;
      } else if id == last.id {
        assert last in cs;
      }
    }
  }

  function ToMap(cs: seq<Contact>): (m: map<NodeId, Contact>)
    ensures m.Keys == IdSet(cs)
    ensures forall id | id in m :: m[id].id == id && m[id] in cs
  {
    if cs == [] then map[]
    else
      var front, last := cs[..|cs| - 1], cs[|cs| - 1];
      IdSetSnoc(front, last);
      assert cs == front + [last];
      ToMap(front)[last.id := last]
  }

  // ---------- the lookup ----------

  lemma SeedInStep(s: TableState, rpc: Rpc, target: NodeId, m: map<NodeId, Contact>, found: bool)
    requires TableOk(s) && forall id | id in m :: m[id].id == id && m[id] in Flatten(s.buckets)
    requires found <==> target in Known(s)
    ensures InStep(s, rpc, target, [], m, Known(s) - m.Keys, {s.localId}, found)
  {
    hide TableOk, Known, KnownAfter, OfferOf, FirstHeard, Flatten;
    AllContacts(s);
    KnownAtFirst(s, rpc, target);
    forall id | id in m ensures FirstHeard(s, rpc, target, [], id) == Some(m[id]) && id != s.localId {
      FirstInTable(s, rpc, target, m[id]);
      assert m[id].id in IdSet(Flatten(s.buckets));
    }
    assert {s.localId} + (set p: NodeId | p in []) == {s.localId};
  }

  lemma FirstInTable(s: TableState, rpc: Rpc, target: NodeId, c: Contact)
    requires DistinctIds(Flatten(s.buckets)) && c in Flatten(s.buckets)
    ensures FirstHeard(s, rpc, target, [], c.id) == Some(c)
  {
    OnlyOffer(Flatten(s.buckets), c);
  }

  lemma OnlyOffer(cs: seq<Contact>, c: Contact)
    requires DistinctIds(cs) && c in cs
    ensures OfferOf(cs, c.id) == Some(c)
  {
    var i :| 0 <= i < |cs| && cs[i] == c;
  }

  /** The shortlist a lookup starts from. */
  method Seed(local: RoutingTable, target: NodeId, ghost rpc: Rpc)
    returns (shortlist: map<NodeId, Contact>, found: bool, ghost kept: seq<Contact>)
    requires local.Valid()
    ensures InStep(local.State(), rpc, target, [], shortlist,
                   KnownAfter(local.State(), rpc, target, []) - shortlist.Keys, {local.localId}, found)
    ensures IsNearest(target, KnownAfter(local.State(), rpc, target, []), local.k, kept)
    ensures shortlist.Keys == IdSet(kept)
  {
    hide KnownAfter, InStep, IsNearest, TableOk, Known, IdSet;
    ghost var s := local.State();
    var near := local.Closest(target, local.k);
    kept := near;
    shortlist := ToMap(near);
    TableHasBuckets(s);
    NearestHoldsTarget(target, Known(s), local.k, near);
    var hit := local.Get(target);
    if hit.Some? {
      shortlist := shortlist[target := hit.value];
    }
    found := target in shortlist;
    KnownAtFirst(s, rpc, target);
    SeedInStep(s, rpc, target, shortlist, found);
  }

  lemma TableHasBuckets(s: TableState)
    requires TableOk(s)
    ensures s.k >= 1
  {
  }

  lemma CandidatesAreAskable(s: TableState, rpc: Rpc, target: NodeId, asked: seq<NodeId>, keys: set<NodeId>,
      queried: set<NodeId>, cs: seq<Contact>)
    requires keys <= KnownAfter(s, rpc, target, asked) && IsNearest(target, keys - queried, ALPHA, cs)
    requires queried == {s.localId} + (set p | p in asked)
    ensures Askable(s, rpc, target, asked, cs, 0) && DistinctIds(cs) && |cs| <= ALPHA
    ensures IsNearest(target, keys - (set p | p in asked), ALPHA, cs)
  {
    hide KnownAfter;
    assert s.localId !in KnownAfter(s, rpc, target, asked) by { OwnIdUnknown(s, rpc, target, asked); }
    assert keys - queried == keys - (set p | p in asked);
    RankedAreDistinct(target, cs);
    forall j | 0 <= j < |cs| ensures cs[j].id in keys && cs[j].id !in asked {
      assert cs[j].id in IdSet(cs);
    }
  }

  lemma OwnIdUnknown(s: TableState, rpc: Rpc, target: NodeId, asked: seq<NodeId>)
    ensures s.localId !in KnownAfter(s, rpc, target, asked)
  {
  }

  lemma KeptWhileKnown(s: TableState, rpc: Rpc, target: NodeId, asked: seq<NodeId>, m: map<NodeId, Contact>,
      passed: set<NodeId>, cs: seq<Contact>)
    requires Shortlist(s, rpc, target, asked, m, passed) && IdSet(cs) !! passed
    requires forall c | c in cs :: c.id in m && m[c.id] == c
    ensures Shortlist(s, rpc, target, asked, ToMap(cs), KnownAfter(s, rpc, target, asked) - IdSet(cs))
  {
    hide KnownAfter, FirstHeard, ToMap;
    forall id | id in IdSet(cs) ensures id in m && ToMap(cs)[id] == m[id] && id !in passed {
      assert ToMap(cs)[id] in cs;
    }
  }

  /** Truncating after a round keeps exactly the k nearest ids of everything known. */
  lemma RoundEnds(s: TableState, rpc: Rpc, target: NodeId, known: set<NodeId>, news: set<NodeId>, asked: seq<NodeId>,
      kept: seq<Contact>, m: map<NodeId, Contact>, queried: set<NodeId>, found: bool, ranked: seq<Contact>)
    requires InStep(s, rpc, target, asked, m, known - IdSet(kept), queried, found) && m.Keys == IdSet(kept) + news
    requires IsNearest(target, known, s.k, kept) && KnownAfter(s, rpc, target, asked) == known + news
    requires IsNearest(target, m.Keys - {}, s.k, ranked) && forall c | c in ranked :: c.id in m && m[c.id] == c
    ensures InStep(s, rpc, target, asked, ToMap(ranked), KnownAfter(s, rpc, target, asked) - IdSet(ranked), queried,
      found)
    ensures IsNearest(target, KnownAfter(s, rpc, target, asked), s.k, ranked)
  {
    hide KnownAfter, TableOk, Shortlist, AskedInOrder, IsNearest, ToMap, IdSet;
    assert m.Keys - {} == IdSet(kept) + news;
    NearestOfMore(target, known, news, s.k, kept, ranked);
    PassedStaysOut(target, known, news, s.k, kept, ranked);
    KeptWhileKnown(s, rpc, target, asked, m, known - IdSet(kept), ranked);
  }

  /** What was known and not kept is not among the k nearest of more. */
  lemma PassedStaysOut(target: NodeId, known: set<NodeId>, news: set<NodeId>, k: nat, kept: seq<Contact>,
      ranked: seq<Contact>)
    requires IsNearest(target, known, k, kept) && IsNearest(target, known + news, k, ranked)
    ensures IdSet(ranked) !! known - IdSet(kept)
  {
    hide Ranked, IdSet;
    var A, R := IdSet(kept), IdSet(ranked);
    forall x | x in known && x !in A ensures x !in R {
      PassedOneStaysOut(target, known, news, k, kept, ranked, x);
    }
  }

  lemma PassedOneStaysOut(target: NodeId, known: set<NodeId>, news: set<NodeId>, k: nat, kept: seq<Contact>,
      ranked: seq<Contact>, x: NodeId)
    requires IsNearest(target, known, k, kept) && IsNearest(target, known + news, k, ranked)
    requires x in known && x !in IdSet(kept)
    ensures x !in IdSet(ranked)
  {
    hide IdSet, Dist, Ranked;
    var A, R := IdSet(kept), IdSet(ranked);
    RankedAreDistinct(target, kept);
    DistinctCount(kept);
    RankedAreDistinct(target, ranked);
    DistinctCount(ranked);
    SubsetSize(A + {x}, known);
    if x in R {
      OneBeyond(A, R, x);
      var a :| a in A && a !in R;
      Beats(target, known, k, kept, x, a);
      Beats(target, known + news, k, ranked, a, x);
    }
  }

  lemma Beats(target: NodeId, S: set<NodeId>, k: nat, cs: seq<Contact>, x: NodeId, y: NodeId)
    requires IsNearest(target, S, k, cs) && x in S && x !in IdSet(cs) && y in IdSet(cs)
    ensures Dist(target, y) < Dist(target, x)
  {
  }

  lemma OneBeyond(A: set<NodeId>, R: set<NodeId>, x: NodeId)
    requires x in R && x !in A && |R| <= |A|
    ensures exists a :: a in A && a !in R
  {
    if A <= R {
      SubsetSize(A + {x}, R);
    }
  }

  lemma NearestIsRanked(target: NodeId, S: set<NodeId>, k: nat, cs: seq<Contact>)
    requires IsNearest(target, S, k, cs)
    ensures Ranked(target, cs) && |cs| <= k
  {
  }

  lemma NearestAreKnown(target: NodeId, S: set<NodeId>, k: nat, cs: seq<Contact>)
    requires IsNearest(target, S, k, cs)
    ensures IdSet(cs) <= S
  {
  }

  lemma RoundAsksThese(s: TableState, rpc: Rpc, target: NodeId, asked: seq<NodeId>, kept: seq<Contact>,
      peers: seq<Contact>)
    requires IsNearest(target, KnownAfter(s, rpc, target, asked), s.k, kept)
    requires IsNearest(target, IdSet(kept) - (set p | p in asked), ALPHA, peers)
    ensures RoundAsks(s, rpc, target, asked, IdsOf(peers))
  {
    hide KnownAfter, IsNearest, IdsOf, IdSet;
  }

  lemma KnownMore(s: TableState, rpc: Rpc, target: NodeId, a: seq<NodeId>, b: seq<NodeId>)
    requires forall p | p in a :: p in b
    ensures KnownAfter(s, rpc, target, a) <= KnownAfter(s, rpc, target, b)
  {
    forall id | id in Heard(rpc, target, a) ensures id in Heard(rpc, target, b) {
      var p, c :| p in a && c in rpc(p, target) && c.id == id;
      assert p in b;
    }
  }

  /** Whoever has been asked was known before the latest round. */
  lemma AskedWereKnown(s: TableState, rpc: Rpc, target: NodeId, before: seq<NodeId>, asked: seq<NodeId>)
    requires AskedInOrder(s, rpc, target, asked) && before <= asked
    requires RoundAsks(s, rpc, target, before, asked[|before|..])
    ensures forall p | p in asked :: p in KnownAfter(s, rpc, target, before)
  {
    var kept: seq<Contact>, peers: seq<Contact> :|
      && IsNearest(target, KnownAfter(s, rpc, target, before), s.k, kept)
      && IsNearest(target, IdSet(kept) - (set p | p in before), ALPHA, peers)
      && asked[|before|..] == IdsOf(peers);
    hide KnownAfter, IsNearest, IdSet;
    NearestAreKnown(target, KnownAfter(s, rpc, target, before), s.k, kept);
    NearestAreKnown(target, IdSet(kept) - (set p | p in before), ALPHA, peers);
    forall i | 0 <= i < |asked| ensures asked[i] in KnownAfter(s, rpc, target, before) {
      if i < |before| {
        assert asked[i] in KnownAfter(s, rpc, target, asked[..i]);
        KnownMore(s, rpc, target, asked[..i], before);
      } else {
        assert asked[i] == asked[|before|..][i - |before|];
        ListedId(peers, i - |before|);
      }
    }
  }

  lemma ListedId(cs: seq<Contact>, i: nat)
    requires i < |cs|
    ensures IdsOf(cs)[i] in IdSet(cs)
  {
    assert cs[i] in cs;
  }

  /** A new best contact was not known before the round, so it is still to be asked. */
  lemma ImprovementIsUnasked(s: TableState, rpc: Rpc, target: NodeId, before: seq<NodeId>, kept: seq<Contact>,
      prevBest: NodeId, asked: seq<NodeId>, id: NodeId)
    requires s.k >= 1 && IsNearest(target, KnownAfter(s, rpc, target, before), s.k, kept)
    requires AskedInOrder(s, rpc, target, asked) && before <= asked
    requires RoundAsks(s, rpc, target, before, asked[|before|..])
    requires forall x | x in IdSet(kept) :: Value(prevBest) <= Dist(target, x)
    requires LexLess(Distance(target, id), prevBest)
    ensures id !in asked
  {
    LexIsNumeric(Distance(target, id), prevBest);
    AskedWereKnown(s, rpc, target, before, asked);
    hide KnownAfter, RoundAsks, AskedInOrder, IdSet, Ranked;
    var known := KnownAfter(s, rpc, target, before);
    forall x | x in known ensures Value(prevBest) <= Dist(target, x) {
      NearestReach(target, known, s.k, kept, x);
    }
  }

  lemma NearestReach(target: NodeId, S: set<NodeId>, k: nat, cs: seq<Contact>, x: NodeId)
    requires k >= 1 && x in S && IsNearest(target, S, k, cs)
    ensures exists y :: y in IdSet(cs) && Dist(target, y) <= Dist(target, x)
  {
    assert S == S - {x} + {x};
    assert cs[0] in cs && cs[0].id in IdSet(cs);
  }

  /** After a round that improved somebody is left to ask. */
  lemma ImprovedGoesOn(s: TableState, rpc: Rpc, target: NodeId, before: seq<NodeId>, kept0: seq<Contact>,
      prevBest: NodeId, asked: seq<NodeId>, kept: seq<Contact>, m: map<NodeId, Contact>, queried: set<NodeId>,
      found: bool, newBest: NodeId)
    requires IsNearest(target, KnownAfter(s, rpc, target, before), s.k, kept0)
    requires InStep(s, rpc, target, asked, m, KnownAfter(s, rpc, target, asked) - IdSet(kept), queried, found)
    requires IsNearest(target, KnownAfter(s, rpc, target, asked), s.k, kept) && m.Keys == IdSet(kept)
    requires before < asked && RoundAsks(s, rpc, target, before, asked[|before|..])
    requires forall x | x in IdSet(kept0) :: Value(prevBest) <= Dist(target, x)
    requires m != map[] ==> exists id :: id in m && newBest == Distance(target, id)
    ensures LexLess(newBest, prevBest) ==> exists id :: id in m && id !in queried
  {
    hide KnownAfter, IsNearest, IdSet, RoundAsks, AskedInOrder, LexLess, TableOk, FirstHeard;
    var passed := KnownAfter(s, rpc, target, asked) - IdSet(kept);
    StepFacts(s, rpc, target, asked, m, passed, queried, found);
    if LexLess(newBest, prevBest) {
      SomebodyIsKept(s, rpc, target, asked, kept);
      var id :| id in m && newBest == Distance(target, id);
      ImprovementIsUnasked(s, rpc, target, before, kept0, prevBest, asked, id);
    }
  }

  /** Somebody is always kept once somebody has been asked. */
  lemma SomebodyIsKept(s: TableState, rpc: Rpc, target: NodeId, asked: seq<NodeId>, kept: seq<Contact>)
    requires TableOk(s) && AskedInOrder(s, rpc, target, asked) && asked != []
    requires IsNearest(target, KnownAfter(s, rpc, target, asked), s.k, kept)
    ensures kept != [] && IdSet(kept) != {}
  {
    TableHasBuckets(s);
    hide KnownAfter, TableOk;
    assert asked[0] in KnownAfter(s, rpc, target, asked[..0]);
    KnownMore(s, rpc, target, asked[..0], asked);
    hide IsNearest, IdSet;
    NearestReach(target, KnownAfter(s, rpc, target, asked), s.k, kept, asked[0]);
    if kept == [] { NoOffers(); }
  }

  /**
    A round: ask the candidates, then keep the k nearest of what is known. A better best contact is new,
    so it leaves somebody to ask.
   */
  method Round(ghost s: TableState, localId: NodeId, k: nat, target: NodeId, rpc: Rpc, candidates: seq<Contact>,
      shortlist0: map<NodeId, Contact>, queried0: set<NodeId>, found0: bool, ghost asked0: seq<NodeId>,
      ghost kept0: seq<Contact>)
    returns (shortlist: map<NodeId, Contact>, queried: set<NodeId>, found: bool, improved: bool,
      ghost asked: seq<NodeId>, ghost kept: seq<Contact>)
    requires localId == s.localId && k == s.k
    requires IsNearest(target, KnownAfter(s, rpc, target, asked0), k, kept0) && shortlist0.Keys == IdSet(kept0)
    requires InStep(s, rpc, target, asked0, shortlist0, KnownAfter(s, rpc, target, asked0) - IdSet(kept0), queried0,
      found0)
    requires IsNearest(target, shortlist0.Keys - queried0, ALPHA, candidates) && candidates != []
    ensures InStep(s, rpc, target, asked, shortlist, KnownAfter(s, rpc, target, asked) - IdSet(kept), queried, found)
    ensures IsNearest(target, KnownAfter(s, rpc, target, asked), k, kept) && shortlist.Keys == IdSet(kept)
    ensures asked0 <= asked && |asked| == |asked0| + |candidates| <= |asked0| + ALPHA
    ensures RoundAsks(s, rpc, target, asked0, asked[|asked0|..])
    ensures improved ==> exists id :: id in shortlist && id !in queried
  {
    hide KnownAfter, TableOk, InStep, Shortlist, AskedInOrder, IsNearest, IdSet, Askable, RoundAsks, DistinctIds,
      LexLess;
    ShortlistIds(s, rpc, target, asked0, shortlist0, KnownAfter(s, rpc, target, asked0) - IdSet(kept0), queried0,
      found0);
    var prevBest := BestDistance(shortlist0, target);
    ghost var known := KnownAfter(s, rpc, target, asked0);
    ghost var passed := known - IdSet(kept0);
    NearestAreKnown(target, known, k, kept0);
    CandidatesAreAskable(s, rpc, target, asked0, shortlist0.Keys, queried0, candidates);
    RoundAsksThese(s, rpc, target, asked0, kept0, candidates);
    var full;
    ghost var news;
    full, queried, found, asked, news :=
      AskPeers(s, localId, target, rpc, candidates, shortlist0, queried0, found0, asked0, passed);
    ShortlistIds(s, rpc, target, asked, full, passed, queried, found);
    var ranked := Nearest(full, {}, target, k);
    RoundEnds(s, rpc, target, known, news, asked, kept0, full, queried, found, ranked);
    shortlist := ToMap(ranked);
    kept := ranked;
    assert asked[|asked0|..] == IdsOf(candidates);
    var newBest := BestDistance(shortlist, target);
    improved := LexLess(newBest, prevBest);
    ImprovedGoesOn(s, rpc, target, asked0, kept0, prevBest, asked, kept, shortlist, queried, found, newBest);
  }

  lemma ShortlistIds(s: TableState, rpc: Rpc, target: NodeId, asked: seq<NodeId>, m: map<NodeId, Contact>,
      passed: set<NodeId>, queried: set<NodeId>, found: bool)
    requires InStep(s, rpc, target, asked, m, passed, queried, found)
    ensures forall id | id in m :: m[id].id == id
    ensures queried == {s.localId} + (set p | p in asked)
  {
  }

  /** One more round under the marks. */
  lemma MarkRound(s: TableState, rpc: Rpc, target: NodeId, asked0: seq<NodeId>, marks: seq<nat>, asked: seq<NodeId>)
    requires InRounds(s, rpc, target, asked0, marks) && asked0 < asked
    requires RoundAsks(s, rpc, target, asked0, asked[|asked0|..])
    ensures InRounds(s, rpc, target, asked, marks + [|asked|])
  {
    hide RoundAsks;
    var more := marks + [|asked|];
    forall j | 0 <= j < |more| - 1 ensures RoundAt(s, rpc, target, asked, more, j) {
      if j < |marks| - 1 {
        assert RoundAt(s, rpc, target, asked0, marks, j);
        assert asked[..more[j]] == asked0[..marks[j]];
        assert asked[more[j]..more[j + 1]] == asked0[marks[j]..marks[j + 1]];
      } else {
        assert asked[..more[j]] == asked0 && asked[more[j]..more[j + 1]] == asked[|asked0|..];
      }
    }
  }

  method IterativeFindNode(local: RoutingTable, target: NodeId, rpc: Rpc)
    returns (r: FindNodeResult, ghost asked: seq<NodeId>, ghost marks: seq<nat>)
    requires local.Valid()
    ensures LookupCorrect(local.State(), rpc, target, asked, marks, r)
    ensures Ranked(target, r.closest) && |r.closest| <= local.k && (r.foundExact <==> target in IdSet(r.closest))
  {
    hide KnownAfter, TableOk, InStep, IsNearest, IdSet, InRounds, Ranked, RoundAsks, LexLess, LookupCorrect;
    ghost var s := local.State();
    var k := local.k;
    ghost var kept;
    var shortlist, found;
    shortlist, found, kept := Seed(local, target, rpc);
    asked, marks := [], [0];
    NoRounds(s, rpc, target);
    var queried := {local.localId};
    var rounds := 0;
    while true
      invariant rounds <= ROUND_CAP && |asked| <= ALPHA * rounds && |marks| == rounds + 1
      invariant InRounds(s, rpc, target, asked, marks)
      invariant rounds > 0 ==> asked != [] && exists id :: id in shortlist && id !in queried
      invariant IsNearest(target, KnownAfter(s, rpc, target, asked), k, kept) && shortlist.Keys == IdSet(kept)
      invariant InStep(s, rpc, target, asked, shortlist, KnownAfter(s, rpc, target, asked) - IdSet(kept), queried,
        found)
      decreases ROUND_CAP - rounds
    {
      rounds := rounds + 1;
      ShortlistIds(s, rpc, target, asked, shortlist, KnownAfter(s, rpc, target, asked) - IdSet(kept), queried, found);
      var candidates := Nearest(shortlist, queried, target, ALPHA);
      if candidates == [] {
        NoneLeft(shortlist.Keys, queried, target, candidates);
        break;
      }
      ghost var asked0 := asked;
      var improved;
      shortlist, queried, found, improved, asked, kept :=
        Round(s, local.localId, k, target, rpc, candidates, shortlist, queried, found, asked, kept);
      MarkRound(s, rpc, target, asked0, marks, asked);
      marks := marks + [|asked|];
      var unqueriedLeft := exists id :: id in shortlist && id !in queried;
      if !improved && !unqueriedLeft {
        break;
      }
      if rounds > ROUND_CAP {
        break;
      }
      if !improved && unqueriedLeft {
        continue;
      }
      if !improved {
        break;
      }
    }
    ShortlistIds(s, rpc, target, asked, shortlist, KnownAfter(s, rpc, target, asked) - IdSet(kept), queried, found);
    var closest := Nearest(shortlist, {}, target, k);
    r := FindNodeResult(closest, found, rounds);
    Finish(s, rpc, target, asked, marks, kept, shortlist, queried, r);
  }

  lemma NoRounds(s: TableState, rpc: Rpc, target: NodeId)
    ensures InRounds(s, rpc, target, [], [0])
  {
  }

  lemma NoneLeft(keys: set<NodeId>, queried: set<NodeId>, target: NodeId, none: seq<Contact>)
    requires IsNearest(target, keys - queried, ALPHA, none) && none == []
    ensures forall id | id in keys :: id in queried
  {
    assert keys - queried == {};
    assert forall id | id in keys && id !in queried :: id in keys - queried;
  }

  lemma StepFacts(s: TableState, rpc: Rpc, target: NodeId, asked: seq<NodeId>, m: map<NodeId, Contact>,
      passed: set<NodeId>, queried: set<NodeId>, found: bool)
    requires InStep(s, rpc, target, asked, m, passed, queried, found)
    ensures s.k >= 1 && AskedInOrder(s, rpc, target, asked)
    ensures forall id | id in m && id !in passed :: FirstHeard(s, rpc, target, asked, id) == Some(m[id])
    ensures forall id | id in m && id in queried :: id in asked
    ensures found <==> target in KnownAfter(s, rpc, target, asked)
  {
  }

  lemma Finish(s: TableState, rpc: Rpc, target: NodeId, asked: seq<NodeId>, marks: seq<nat>, kept: seq<Contact>,
      shortlist: map<NodeId, Contact>, queried: set<NodeId>, r: FindNodeResult)
    requires IsNearest(target, KnownAfter(s, rpc, target, asked), s.k, kept) && shortlist.Keys == IdSet(kept)
    requires InStep(s, rpc, target, asked, shortlist, KnownAfter(s, rpc, target, asked) - IdSet(kept), queried,
      r.foundExact)
    requires IsNearest(target, shortlist.Keys - {}, s.k, r.closest)
    requires forall c | c in r.closest :: c.id in shortlist && shortlist[c.id] == c
    requires InRounds(s, rpc, target, asked, marks) && r.rounds == if asked == [] then 1 else |marks| - 1
    requires |asked| <= ALPHA * r.rounds && r.rounds <= ROUND_CAP + 1
    requires r.rounds <= ROUND_CAP ==> forall id | id in shortlist :: id in queried
    ensures LookupCorrect(s, rpc, target, asked, marks, r)
    ensures Ranked(target, r.closest) && |r.closest| <= s.k && (r.foundExact <==> target in IdSet(r.closest))
  {
    hide KnownAfter, IsNearest, IdSet, InRounds, AskedInOrder, FirstHeard, InStep;
    StepFacts(s, rpc, target, asked, shortlist, KnownAfter(s, rpc, target, asked) - IdSet(kept), queried, r.foundExact);
    NearestIsRanked(target, shortlist.Keys - {}, s.k, r.closest);
    var known := KnownAfter(s, rpc, target, asked);
    assert shortlist.Keys - {} == IdSet(kept) + {} && known + {} == known;
    NearestOfMore(target, known, {}, s.k, kept, r.closest);
    NearestHoldsTarget(target, known, s.k, r.closest);
    forall c | c in r.closest
      ensures FirstHeard(s, rpc, target, asked, c.id) == Some(c) && (r.rounds <= ROUND_CAP ==> c.id in asked)
    {
      assert c.id in shortlist && c.id !in known - IdSet(kept);
    }
  }
}
