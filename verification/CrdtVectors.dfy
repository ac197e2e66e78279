/**
  When version vectors of consensus/src/crdt.rs are honest: in a mesh where operations travel without
  gaps, a delta always does what a merge does.
 */
module CrdtVectors {
  import opened Common
  import opened CrdtState
  import opened CrdtSync
  import opened CrdtDelta
  import opened CrdtDoc
  import opened CrdtHistory

  function Number(op: Op): nat {
    match op
    case InsertOp(id, _, _) => id.number
    case DeleteOp(_, opId) => opId.number
    case _ => op.time.wall
  }

  /** A vector that covers p covers o. */
  predicate Reaches(p: Op, o: Op) {
    Author(p) == Author(o) && (p.IsMapOp() <==> o.IsMapOp()) && Number(o) <= Number(p)
  }

  predicate Covers(s: DocState, op: Op) {
    Covered(op, s.vector, s.mapVector)
  }

  /** The local counter an operation of this kind is numbered from. */
  function Counter(s: DocState, op: Op): nat {
    if op.IsMapOp() then s.nextWall else s.nextSeq
  }

  lemma IntegrateCovers(s: DocState, op: Op, o: Op)
    ensures Covers(Integrate(s, op), o) ==> Covers(s, o) || Reaches(op, o)
    ensures Covers(s, o) ==> Covers(Integrate(s, op), o)
    ensures !Ignored(s, op) ==> Covers(Integrate(s, op), op)
  {
    VectorsAfter(s, op);
    hide Integrate, Ignored;
  }

  lemma VectorsAfter(s: DocState, op: Op)
    ensures Integrate(s, op).vector ==
      if Ignored(s, op) || op.IsMapOp() then s.vector else Raise(s.vector, Author(op), Number(op))
    ensures Integrate(s, op).mapVector ==
      if Ignored(s, op) || !op.IsMapOp() then s.mapVector else Raise(s.mapVector, Author(op), Number(op))
  {
    hide Raise, Ignored, KidsIn;
  }

  lemma IntegrateKeepsIgnored(s: DocState, op: Op, o: Op)
    ensures Ignored(s, o) ==> Ignored(Integrate(s, op), o)
    ensures Counter(s, o) <= Counter(Integrate(s, op), o)
  {
    hide Raise;
  }

  /** What new vectors cover, the old ones covered or one of the operations reaches. */
  lemma {:induction false} AllCover(s: DocState, ops: seq<Op>, o: Op)
    requires Covers(IntegrateAll(s, ops), o)
    ensures Covers(s, o) || exists p :: p in ops && Reaches(p, o)
    decreases |ops|
  {
    hide Covers, Integrate, Reaches;
    if ops != [] {
      AllCover(Integrate(s, ops[0]), ops[1..], o);
      IntegrateCovers(s, ops[0], o);
    }
  }

  lemma {:induction false} AllKeepIgnored(s: DocState, ops: seq<Op>, o: Op)
    ensures Ignored(s, o) ==> Ignored(IntegrateAll(s, ops), o)
    ensures Counter(s, o) <= Counter(IntegrateAll(s, ops), o)
    decreases |ops|
  {
    hide Counter, Ignored, Integrate;
    if ops != [] {
      IntegrateKeepsIgnored(s, ops[0], o);
      AllKeepIgnored(Integrate(s, ops[0]), ops[1..], o);
    }
  }

  // ---------- a document's vectors cover its log ----------

  ghost predicate LogCovered(s: DocState) {
    forall op | op in s.opLog :: Covers(s, op)
  }

  lemma {:induction false} AllKeepLogCovered(s: DocState, ops: seq<Op>)
    requires LogCovered(s)
    ensures LogCovered(IntegrateAll(s, ops))
    decreases |ops|
  {
    hide Covers, Apply;
    if ops != [] {
      var t := Integrate(s, ops[0]);
      forall op | op in t.opLog ensures Covers(t, op) {
        IntegrateCovers(s, ops[0], op);
      }
      AllKeepLogCovered(t, ops[1..]);
    }
  }

  lemma LocalKeepsLogCovered(s: DocState, bumped: DocState, op: Op)
    requires LogCovered(s) && (bumped == AfterAlloc(s) || bumped == AfterTick(s))
    ensures LogCovered(Integrate(bumped, op))
  {
    assert LogCovered(bumped) by { assert forall o :: Covers(s, o) == Covers(bumped, o); }
    AllKeepLogCovered(bumped, [op]);
    assert [op][1..] == [];
  }

  /** Whatever happens to a document, its vectors cover what it logs. */
  lemma {:induction false} HistoryLogCovered(h: History)
    ensures LogCovered(Reached(h))
    decreases h
  {
    hide LogCovered, Integrate, IntegrateAll, InsertAt, DeleteAt, LocalWrite, DocOk;
    match h {
      case Fresh(agent) => assert LogCovered(NewDoc(agent)) by { NewLogCovered(agent); }
      case Inserted(b, i, c) =>
        HistoryLogCovered(b);
        LocalKeepsLogCovered(Reached(b), AfterAlloc(Reached(b)), InsertAt(Reached(b), i, c));
      case Deleted(b, i) =>
        HistoryLogCovered(b);
        var op := DeleteAt(Reached(b), i);
        if op.Some? { LocalKeepsLogCovered(Reached(b), AfterAlloc(Reached(b)), op.value); }
      case Put(b, key, value) =>
        HistoryLogCovered(b);
        LocalKeepsLogCovered(Reached(b), AfterTick(Reached(b)), LocalWrite(Reached(b), key, value));
      case Applied(b, ops) =>
        HistoryLogCovered(b);
        AllKeepLogCovered(Reached(b), ops);
      case Merged(b, r) =>
        HistoryLogCovered(b);
        AllKeepLogCovered(Reached(b), Reached(r).opLog);
    }
  }

  lemma NewLogCovered(agent: nat)
    ensures LogCovered(NewDoc(agent))
  {
  }

  // ---------- vectors that tell the truth ----------

  /** Whatever the vectors cover has been applied or is no longer needed. */
  ghost predicate Truthful(A: set<Op>, s: DocState) {
    forall op | op in A && Covers(s, op) :: Ignored(s, op)
  }

  /** The vectors cover nothing that has yet to be numbered. */
  ghost predicate Bounded(m: Mesh, s: DocState) {
    forall op | Covers(s, op) && Number(op) >= 1 ::
      Author(op) in m && Number(op) < Counter(Reached(m[Author(op)]), op)
  }

  ghost predicate VectorsOk(m: Mesh) {
    && (forall op | op in AllOps(m) :: Number(op) >= 1)
    && (forall a | a in m :: Bounded(m, Reached(m[a])))
    && forall a | a in m :: Truthful(AllOps(m), Reached(m[a]))
  }

  /**
    An operation arrives after all earlier ones of its author; a delta is asked for with the receiver's own
    vectors.
   */
  ghost predicate Gapless(m: Mesh, e: Event) {
    match e
    case Deliver(a, op) => a in m ==>
      forall o | o in AllOps(m) && o != op && Reaches(op, o) :: Ignored(Reached(m[a]), o)
    case Sync(a, _, vector, mapVector, _) =>
      a in m ==> vector == Reached(m[a]).vector && mapVector == Reached(m[a]).mapVector
    case _ => true
  }

  ghost predicate GaplessRun(events: seq<Event>) {
    forall i | 0 <= i < |events| :: Gapless(Run(events[..i]), events[i])
  }

  /** Every operation of the mesh is numbered below its author's counter. */
  lemma NumberedBelow(m: Mesh, op: Op)
    requires MeshOk(m) && op in AllOps(m)
    ensures Author(op) in m && Number(op) < Counter(Reached(m[Author(op)]), op)
  {
    ReplicaSound(m, Author(op));
  }

  /** A replica has applied or outlived every operation under its own name. */
  lemma OwnAreIgnored(m: Mesh, op: Op)
    requires MeshOk(m) && op in AllOps(m)
    ensures Author(op) in m && Ignored(Reached(m[Author(op)]), op)
  {
    ReplicaSound(m, Author(op));
    HeldIsIgnored(Ops(m[Author(op)]), Reached(m[Author(op)]), op);
  }

  // ---------- one event ----------

  /** t comes from s by operations of P: nothing forgotten, and nothing covered that neither s nor P covers. */
  ghost predicate Follows(s: DocState, t: DocState, P: set<Op>) {
    && (forall o :: Counter(s, o) <= Counter(t, o))
    && (forall o | Ignored(s, o) :: Ignored(t, o))
    && forall o | Covers(t, o) :: Covers(s, o) || exists p :: p in P && Reaches(p, o)
  }

  lemma AllFollow(s: DocState, bumped: DocState, ops: seq<Op>)
    requires bumped == s || bumped == AfterAlloc(s) || bumped == AfterTick(s)
    ensures Follows(s, IntegrateAll(bumped, ops), ToSet(ops))
  {
    hide IntegrateAll, Reaches;
    var t := IntegrateAll(bumped, ops);
    forall o ensures Counter(s, o) <= Counter(t, o) && (Ignored(s, o) ==> Ignored(t, o)) {
      AllKeepIgnored(bumped, ops, o);
    }
    forall o | Covers(t, o) ensures Covers(s, o) || exists p :: p in ToSet(ops) && Reaches(p, o) {
      AllCover(bumped, ops, o);
    }
  }

  lemma OneFollows(s: DocState, bumped: DocState, op: Op)
    requires bumped == s || bumped == AfterAlloc(s) || bumped == AfterTick(s)
    ensures Follows(s, Integrate(bumped, op), {op})
  {
    hide Follows, Integrate;
    AllFollow(s, bumped, [op]);
    assert ToSet([op]) == {op};
    assert IntegrateAll(bumped, [op]) == Integrate(bumped, op) by { assert [op][1..] == []; }
  }

  /** Bounds outlast a step: nobody covers more than what has been numbered. */
  lemma BoundsKept(m: Mesh, a: nat, h: History, P: set<Op>, b: nat)
    requires MeshOk(m) && MeshOk(m[a := h]) && a in m && b in m && Bounded(m, Reached(m[a]))
    requires Bounded(m, Reached(m[b])) && Follows(Reached(m[a]), Reached(h), P) && P <= AllOps(m[a := h])
    ensures Bounded(m[a := h], Reached(m[a := h][b]))
  {
    hide MeshOk, AllOps, Covers, Counter, Reached, Ignored;
    var n := m[a := h];
    var t := Reached(n[b]);
    forall op | Covers(t, op) && Number(op) >= 1
      ensures Author(op) in n && Number(op) < Counter(Reached(n[Author(op)]), op)
    {
      if !Covers(Reached(m[b]), op) {
        var p :| p in P && Reaches(p, op);
        NumberedBelow(n, p);
        SameCounter(Reached(n[Author(op)]), p, op);
      }
    }
  }

  lemma SameCounter(s: DocState, p: Op, o: Op)
    requires Reaches(p, o)
    ensures Counter(s, p) == Counter(s, o)
  {
  }

  /** A new operation is covered by nobody else's vectors. */
  lemma CreatedOk(m: Mesh, a: nat, h: History, op: Op)
    requires MeshOk(m) && VectorsOk(m) && a in m && MeshOk(m[a := h]) && Ops(h) == Ops(m[a]) + {op}
    requires Author(op) == a && Number(op) == Counter(Reached(m[a]), op) >= 1
    requires Follows(Reached(m[a]), Reached(h), {op})
    ensures VectorsOk(m[a := h])
  {
    hide MeshOk, AllOps, Covers, Counter, Reached, Ignored, Ops;
    var n := m[a := h];
    GrowthOfAll(m, a, h);
    ReplicaOps(m, a);
    assert AllOps(n) == AllOps(m) + {op};
    forall b | b in n ensures Bounded(n, Reached(n[b])) && Truthful(AllOps(n), Reached(n[b])) {
      BoundsKept(m, a, h, {op}, b);
      forall o | o in AllOps(n) && Covers(Reached(n[b]), o) ensures Ignored(Reached(n[b]), o) {
        if b == a && Author(o) == a {
          OwnAreIgnored(n, o);
        } else {
          assert Bounded(m, Reached(m[b])) && Covers(Reached(m[b]), o);
        }
      }
    }
  }

  lemma ReplicaOps(m: Mesh, a: nat)
    requires MeshOk(m) && a in m
    ensures Ops(m[a]) <= AllOps(m)
  {
    ReplicaSound(m, a);
  }

  /** Taking operations of the mesh in keeps the vectors truthful if the receiver's own stay so. */
  lemma TakenInOk(m: Mesh, a: nat, h: History, P: set<Op>)
    requires MeshOk(m) && VectorsOk(m) && a in m && MeshOk(m[a := h]) && AllOps(m[a := h]) == AllOps(m)
    requires Follows(Reached(m[a]), Reached(h), P) && P <= AllOps(m) && Truthful(AllOps(m), Reached(h))
    ensures VectorsOk(m[a := h])
  {
    hide MeshOk, AllOps, Reached, Follows, Truthful, Bounded;
    var n := m[a := h];
    forall b | b in n ensures Bounded(n, Reached(n[b])) && Truthful(AllOps(n), Reached(n[b])) {
      BoundsKept(m, a, h, P, b);
    }
  }

  /** Truthful vectors are honest towards every other replica. */
  lemma TruthfulIsHonest(m: Mesh, a: nat, b: nat)
    requires MeshOk(m) && VectorsOk(m) && a in m && b in m
    ensures VectorsHonest(Reached(m[a]), Reached(m[b])) && ToSet(Reached(m[b]).opLog) <= Ops(m[b]) <= AllOps(m)
  {
    hide Reached, Ops, AllOps, Ignored, MeshOk;
    ReplicaSound(m, b);
    var r, s := Reached(m[a]), Reached(m[b]);
    assert Truthful(AllOps(m), r);
    forall op | op in s.opLog ensures op in AllOps(m) && (Covered(op, r.vector, r.mapVector) ==> Ignored(r, op)) {
      assert Covers(r, op) == Covered(op, r.vector, r.mapVector);
    }
  }

  /** Holding o, a document ignores op. */
  predicate Outlives(o: Op, op: Op) {
    match op
    case InsertOp(id, _, _) => o.InsertOp? && o.id == id
    case DeleteOp(_, opId) => o.DeleteOp? && o.opId == opId
    case _ => o.IsMapOp() && o.key == op.key && !TimeLess(o.time, op.time)
  }

  lemma WhyIgnored(T: set<Op>, t: DocState, op: Op) returns (o: Op)
    requires Describes(T, t) && Ignored(t, op)
    ensures o in T && Outlives(o, op)
  {
    hide Newest, Linked;
    match op {
      case InsertOp(id, _, _) =>
        assert Inserts(T, id);
        o :| o in T && o.InsertOp? && o.id == id;
      case DeleteOp(_, opId) =>
        assert DeleteApplied(T, opId);
        o :| o in T && o.DeleteOp? && o.opId == opId;
      case _ => o :| o in T && WritesCell(o, op.key, t.lww[op.key]) && Newest(T, o);
    }
  }

  lemma OutlivedIsIgnored(S: set<Op>, s: DocState, o: Op, op: Op)
    requires Describes(S, s) && o in S && Outlives(o, op)
    ensures Ignored(s, op)
  {
    HeldIsIgnored(S, s, o);
    hide Describes;
  }

  /** What the sender has applied or outlived, the receiver has after a merge. */
  lemma MergeIgnores(S: set<Op>, s: DocState, T: set<Op>, t: DocState, op: Op)
    requires Holds(S, s) && Holds(T, t) && UniquelyNamed(S + T) && Ignored(t, op)
    ensures Ignored(MergeDocs(s, t), op)
  {
    hide MergeDocs, UniquelyNamed, Describes, Outlives, Ignored;
    MergeHolds(S, s, T, t);
    var o := WhyIgnored(T, t, op);
    OutlivedIsIgnored(S + T, MergeDocs(s, t), o, op);
  }

  lemma ReachesFurther(s: DocState, p: Op, o: Op)
    requires Reaches(p, o) && Covers(s, p)
    ensures Covers(s, o)
  {
  }

  /** Whatever amounts to a merge leaves truthful vectors. */
  lemma MergedTruthful(m: Mesh, a: nat, from: nat, t: DocState, P: set<Op>)
    requires MeshOk(m) && VectorsOk(m) && a in m && from in m
    requires Follows(Reached(m[a]), t, P) && P <= ToSet(Reached(m[from]).opLog)
    requires SameOperations(t, MergeDocs(Reached(m[a]), Reached(m[from])))
    ensures Truthful(AllOps(m), t)
  {
    hide Reached, Holds, UniquelyNamed, Linked;
    var r, s := Reached(m[a]), Reached(m[from]);
    HistoryLogCovered(m[from]);
    ReplicaSound(m, a);
    ReplicaSound(m, from);
    SubsetUniquelyNamed(Ops(m[a]) + Ops(m[from]), AllOps(m));
    assert Truthful(AllOps(m), r) && Truthful(AllOps(m), s);
    hide MeshOk, AllOps, Covers, MergeDocs, Ops, Reaches;
    forall o | o in AllOps(m) && Covers(t, o) ensures Ignored(t, o) {
      if !Covers(r, o) {
        var p :| p in P && Reaches(p, o);
        assert p in s.opLog;
        ReachesFurther(s, p, o);
        MergeIgnores(Ops(m[a]), r, Ops(m[from]), s, o);
      }
    }
  }

  // ---------- runs without gaps ----------

  lemma NothingNumbered(m: Mesh, s: DocState)
    requires s.vector == map[] && s.mapVector == map[]
    ensures Bounded(m, s) && forall op | Number(op) >= 1 :: !Covers(s, op)
  {
  }

  lemma JoinKeepsVectors(m: Mesh, a: nat)
    requires MeshOk(m) && VectorsOk(m) && a !in m
    ensures VectorsOk(m[a := Fresh(a)])
  {
    var n := m[a := Fresh(a)];
    JoinOk(m, a);
    GrowthOfAll(m, a, Fresh(a));
    assert AllOps(n) == AllOps(m);
    NothingNumbered(n, NewDoc(a));
    forall b | b in n ensures Bounded(n, Reached(n[b])) && Truthful(AllOps(n), Reached(n[b])) {
      if b != a { BoundedMore(m, a, b); }
    }
  }

  /** A newcomer's name has never been used. */
  lemma BoundedMore(m: Mesh, a: nat, b: nat)
    requires a !in m && b in m && Bounded(m, Reached(m[b]))
    ensures Bounded(m[a := Fresh(a)], Reached(m[b]))
  {
  }

  lemma GaplessOk(m: Mesh, e: Event)
    requires MeshOk(m) && VectorsOk(m) && Gapless(m, e)
    ensures VectorsOk(Next(m, e))
  {
    hide MeshOk, VectorsOk, IsDelta;
    NextOk(m, e);
    if Possible(m, e) {
      match e {
        case Join(a) => JoinKeepsVectors(m, a);
        case InsertChar(a, i, c) => InsertKeepsVectors(m, a, i, c);
        case DeleteChar(a, i) => DeleteKeepsVectors(m, a, i);
        case Write(a, key, value) => WriteKeepsVectors(m, a, key, value);
        case Deliver(a, op) => DeliverKeepsVectors(m, a, op);
        case Sync(a, from, _, _, delta) => SyncKeepsVectors(m, a, from, delta);
        case Merge(a, from) => MergeKeepsVectors(m, a, from);
      }
    }
  }

  /** The local counters start at one and only grow. */
  lemma {:induction false} HistoryCounts(h: History, op: Op)
    ensures Counter(Reached(h), op) >= 1
    decreases h
  {
    hide Integrate, IntegrateAll, InsertAt, DeleteAt, LocalWrite, DocOk;
    match h {
      case Fresh(agent) =>
      case Inserted(b, i, c) =>
        HistoryCounts(b, op);
        IntegrateKeepsIgnored(AfterAlloc(Reached(b)), InsertAt(Reached(b), i, c), op);
      case Deleted(b, i) =>
        HistoryCounts(b, op);
        var del := DeleteAt(Reached(b), i);
        if del.Some? { IntegrateKeepsIgnored(AfterAlloc(Reached(b)), del.value, op); }
      case Put(b, key, value) =>
        HistoryCounts(b, op);
        IntegrateKeepsIgnored(AfterTick(Reached(b)), LocalWrite(Reached(b), key, value), op);
      case Applied(b, ops) =>
        HistoryCounts(b, op);
        AllKeepIgnored(Reached(b), ops, op);
      case Merged(b, r) =>
        HistoryCounts(b, op);
        AllKeepIgnored(Reached(b), Reached(r).opLog, op);
    }
  }

  lemma InsertKeepsVectors(m: Mesh, a: nat, i: nat, c: char)
    requires MeshOk(m) && VectorsOk(m) && a in m && MeshOk(m[a := Inserted(m[a], i, c)])
    ensures VectorsOk(m[a := Inserted(m[a], i, c)])
  {
    hide MeshOk, VectorsOk, Follows, Integrate, Sound;
    var s := Reached(m[a]);
    ReplicaSound(m, a);
    HistoryCounts(m[a], InsertAt(s, i, c));
    OneFollows(s, AfterAlloc(s), InsertAt(s, i, c));
    CreatedOk(m, a, Inserted(m[a], i, c), InsertAt(s, i, c));
  }

  lemma DeleteKeepsVectors(m: Mesh, a: nat, i: nat)
    requires MeshOk(m) && VectorsOk(m) && a in m && MeshOk(m[a := Deleted(m[a], i)])
    ensures VectorsOk(m[a := Deleted(m[a], i)])
  {
    hide MeshOk, VectorsOk, Follows, Integrate, Sound;
    var s, h := Reached(m[a]), Deleted(m[a], i);
    ReplicaSound(m, a);
    var op := DeleteAt(s, i);
    if op.Some? {
      HistoryCounts(m[a], op.value);
      OneFollows(s, AfterAlloc(s), op.value);
      CreatedOk(m, a, h, op.value);
    } else {
      GrowthOfAll(m, a, h);
      AllFollow(s, s, []);
      assert IntegrateAll(s, []) == s && ToSet([]) == {};
      OwnTruthful(m, a);
      TakenInOk(m, a, h, {});
    }
  }

  lemma OwnTruthful(m: Mesh, a: nat)
    requires VectorsOk(m) && a in m
    ensures Truthful(AllOps(m), Reached(m[a]))
  {
  }

  lemma WriteKeepsVectors(m: Mesh, a: nat, key: string, value: Option<Bytes>)
    requires MeshOk(m) && VectorsOk(m) && a in m && MeshOk(m[a := Put(m[a], key, value)])
    ensures VectorsOk(m[a := Put(m[a], key, value)])
  {
    hide MeshOk, VectorsOk, Follows, Integrate, Sound;
    var s := Reached(m[a]);
    ReplicaSound(m, a);
    HistoryCounts(m[a], LocalWrite(s, key, value));
    OneFollows(s, AfterTick(s), LocalWrite(s, key, value));
    CreatedOk(m, a, Put(m[a], key, value), LocalWrite(s, key, value));
  }

  /** What is taken in was in the mesh already. */
  lemma SameMesh(m: Mesh, a: nat, h: History)
    requires a in m && Ops(m[a]) <= Ops(h) <= AllOps(m)
    ensures AllOps(m[a := h]) == AllOps(m)
  {
    GrowthOfAll(m, a, h);
    assert AllOps(m) + Ops(h) == AllOps(m);
    assert forall op | op in Ops(m[a]) :: op in AllOps(m);
  }

  lemma DeliverKeepsVectors(m: Mesh, a: nat, op: Op)
    requires MeshOk(m) && VectorsOk(m) && a in m && op in AllOps(m) && MeshOk(m[a := Applied(m[a], [op])])
    requires Gapless(m, Deliver(a, op))
    ensures VectorsOk(m[a := Applied(m[a], [op])])
  {
    hide MeshOk, VectorsOk, Covers, Reaches, AllOps;
    var s, h := Reached(m[a]), Applied(m[a], [op]);
    ReplicaOps(m, a);
    assert ToSet([op]) == {op};
    SameMesh(m, a, h);
    AllFollow(s, s, [op]);
    OwnTruthful(m, a);
    var t := Reached(h);
    forall o | o in AllOps(m) && Covers(t, o) ensures Ignored(t, o) {
      if !Covers(s, o) {
        var p :| p in ToSet([op]) && Reaches(p, o);
        if o == op { DeliveredIsIgnored(m, a, op); }
      }
    }
    TakenInOk(m, a, h, {op});
  }

  lemma DeliveredIsIgnored(m: Mesh, a: nat, op: Op)
    requires a in m && MeshOk(m[a := Applied(m[a], [op])])
    ensures Ignored(Reached(Applied(m[a], [op])), op)
  {
    var n := m[a := Applied(m[a], [op])];
    ReplicaSound(n, a);
    HeldIsIgnored(Ops(n[a]), Reached(n[a]), op);
  }

  lemma SyncKeepsVectors(m: Mesh, a: nat, from: nat, delta: seq<Op>)
    requires MeshOk(m) && VectorsOk(m) && a in m && from in m && MeshOk(m[a := Applied(m[a], delta)])
    requires IsDelta(Reached(m[from]), Reached(m[a]).vector, Reached(m[a]).mapVector, delta)
    ensures VectorsOk(m[a := Applied(m[a], delta)])
  {
    hide MeshOk, VectorsOk, AllOps, Ops, IsDelta, VectorsHonest, Follows, SameOperations;
    var s, h := Reached(m[a]), Applied(m[a], delta);
    TruthfulIsHonest(m, a, from);
    DeltaFromLog(m, a, from, delta);
    ReplicaOps(m, a);
    TakesInDelta(m, a, from, delta);
    AllFollow(s, s, delta);
    MergedTruthful(m, a, from, Reached(h), ToSet(delta));
    TakenInOk(m, a, h, ToSet(delta));
  }

  lemma DeltaFromLog(m: Mesh, a: nat, from: nat, delta: seq<Op>)
    requires a in m && from in m
    requires IsDelta(Reached(m[from]), Reached(m[a]).vector, Reached(m[a]).mapVector, delta)
    ensures ToSet(delta) <= ToSet(Reached(m[from]).opLog)
  {
    forall op | op in delta ensures op in Reached(m[from]).opLog {
      DeltaContents(Reached(m[from]), Reached(m[a]).vector, Reached(m[a]).mapVector, delta, op);
    }
  }

  lemma TakesInDelta(m: Mesh, a: nat, from: nat, delta: seq<Op>)
    requires MeshOk(m) && VectorsOk(m) && a in m && from in m
    requires IsDelta(Reached(m[from]), Reached(m[a]).vector, Reached(m[a]).mapVector, delta)
    ensures AllOps(m[a := Applied(m[a], delta)]) == AllOps(m)
    ensures SameOperations(Reached(Applied(m[a], delta)), Reached(Merged(m[a], m[from])))
    ensures SameView(Reached(Applied(m[a], delta)), Reached(Merged(m[a], m[from])))
  {
    hide MeshOk, VectorsOk, IsDelta, VectorsHonest, SameOperations, SameView, Reached;
    TruthfulIsHonest(m, a, from);
    DeltaFromLog(m, a, from, delta);
    ReplicaOps(m, a);
    ReplicaOps(m, from);
    SameMesh(m, a, Applied(m[a], delta));
    NamesInMesh(m, a, from);
    HistoryDelta(m[a], m[from], delta);
  }

  lemma NamesInMesh(m: Mesh, a: nat, b: nat)
    requires MeshOk(m) && a in m && b in m
    ensures UniquelyNamed(Ops(m[a]) + Ops(m[b]))
  {
    ReplicaOps(m, a);
    ReplicaOps(m, b);
    SubsetUniquelyNamed(Ops(m[a]) + Ops(m[b]), AllOps(m));
  }

  lemma MergeKeepsVectors(m: Mesh, a: nat, from: nat)
    requires MeshOk(m) && VectorsOk(m) && a in m && from in m && MeshOk(m[a := Merged(m[a], m[from])])
    ensures VectorsOk(m[a := Merged(m[a], m[from])])
  {
    hide MeshOk, VectorsOk, AllOps, VectorsHonest, Follows;
    var s, h := Reached(m[a]), Merged(m[a], m[from]);
    TruthfulIsHonest(m, a, from);
    ReplicaOps(m, a);
    SameMesh(m, a, h);
    AllFollow(s, s, Reached(m[from]).opLog);
    MergedTruthful(m, a, from, Reached(h), ToSet(Reached(m[from]).opLog));
    TakenInOk(m, a, h, ToSet(Reached(m[from]).opLog));
  }

  /** In runs without gaps every replica's vectors tell the truth about every operation of the mesh. */
  lemma {:induction false} GaplessRunOk(events: seq<Event>)
    requires GaplessRun(events)
    ensures MeshOk(Run(events)) && VectorsOk(Run(events))
    decreases |events|
  {
    RunOk(events);
    hide MeshOk, Gapless;
    if events == [] {
      assert AllOps(map[]) == {};
    } else {
      var front := events[..|events| - 1];
      assert forall i | 0 <= i < |front| :: front[..i] == events[..i] && front[i] == events[i];
      assert Gapless(Run(events[..|front|]), events[|front|]);
      GaplessRunOk(front);
      GaplessOk(Run(front), events[|front|]);
    }
  }

  /** So the vectors of every two replicas are honest, and a delta always does what a merge does. */
  lemma MeshDeltaIsMerge(events: seq<Event>, a: nat, b: nat, delta: seq<Op>)
    requires GaplessRun(events) && a in Run(events) && b in Run(events)
    requires var m := Run(events); IsDelta(Reached(m[b]), Reached(m[a]).vector, Reached(m[a]).mapVector, delta)
    ensures var m := Run(events);
      && VectorsHonest(Reached(m[a]), Reached(m[b]))
      && SameOperations(Reached(Applied(m[a], delta)), Reached(Merged(m[a], m[b])))
      && SameView(Reached(Applied(m[a], delta)), Reached(Merged(m[a], m[b])))
  {
    hide GaplessRun, MeshOk, VectorsOk, IsDelta, VectorsHonest, SameOperations, SameView, Reached;
    GaplessRunOk(events);
    TruthfulIsHonest(Run(events), a, b);
    TakesInDelta(Run(events), a, b, delta);
  }
}
