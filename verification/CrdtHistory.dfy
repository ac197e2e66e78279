/**
  Whole histories of the documents of consensus/src/crdt.rs: what a replica holds after any run of
  local edits, received operations and merges, and what a mesh of replicas can never break.
 */
module CrdtHistory {
  import opened Common
  import opened CrdtState
  import opened CrdtWalk
  import opened CrdtSync
  import opened CrdtDelta
  import opened CrdtDoc
  import opened CrdtLanding
  import opened CrdtOrder

  /** How a replica got where it is; `Applied` stands for integrate and apply_delta with any operations. */
  datatype History =
    | Fresh(agent: nat)
    | Inserted(before: History, index: nat, content: char)
    | Deleted(before: History, index: nat)
    | Put(before: History, key: string, value: Option<Bytes>)
    | Applied(before: History, ops: seq<Op>)
    | Merged(before: History, remote: History)

  lemma {:induction false} AllKeepLinks(s: DocState, ops: seq<Op>)
    requires DocOk(s)
    ensures DocOk(IntegrateAll(s, ops))
    decreases |ops|
  {
    if ops != [] {
      IntegrateKeepsLinks(s, ops[0]);
      AllKeepLinks(Integrate(s, ops[0]), ops[1..]);
    }
  }

  /** One more local step on a document. */
  lemma LocalStepsKeepLinks(s: DocState, op: Op)
    requires DocOk(s)
    ensures DocOk(Integrate(AfterAlloc(s), op)) && DocOk(Integrate(AfterTick(s), op))
  {
    IntegrateKeepsLinks(AfterAlloc(s), op);
    IntegrateKeepsLinks(AfterTick(s), op);
  }

  /** The document a history leads to; its links are sound whatever arrived. */
  ghost function Reached(h: History): (s: DocState)
    ensures DocOk(s)
  {
    match h
    case Fresh(agent) => NewDoc(agent)
    case Inserted(b, i, c) => LocalStepsKeepLinks(Reached(b), InsertAt(Reached(b), i, c)); Typed(Reached(b), i, c)
    case Deleted(b, i) =>
      var op := DeleteAt(Reached(b), i);
      if op.Some? then LocalStepsKeepLinks(Reached(b), op.value); Erased(Reached(b), i) else Reached(b)
    case Put(b, key, value) => LocalStepsKeepLinks(Reached(b), LocalWrite(Reached(b), key, value));
      Wrote(Reached(b), key, value)
    case Applied(b, ops) => AllKeepLinks(Reached(b), ops); IntegrateAll(Reached(b), ops)
    case Merged(b, r) => AllKeepLinks(Reached(b), Reached(r).opLog); MergeDocs(Reached(b), Reached(r))
  }

  /** The operation a local edit creates. */
  ghost function Created(h: History): set<Op> {
    match h
    case Inserted(b, i, c) => {InsertAt(Reached(b), i, c)}
    case Deleted(b, i) => var op := DeleteAt(Reached(b), i); if op.Some? then {op.value} else {}
    case Put(b, key, value) => {LocalWrite(Reached(b), key, value)}
    case _ => {}
  }

  /** Everything a history created or took in, stale writes of merged documents included. */
  ghost function Ops(h: History): set<Op> {
    match h
    case Fresh(_) => {}
    case Applied(b, ops) => Ops(b) + ToSet(ops)
    case Merged(b, r) => Ops(b) + Ops(r)
    case _ => Ops(h.before) + Created(h)
  }

  function Agent(h: History): nat {
    if h.Fresh? then h.agent else Agent(h.before)
  }

  // ---------- every history holds its operations ----------

  lemma {:induction false} AllKeepAgent(s: DocState, ops: seq<Op>)
    ensures IntegrateAll(s, ops).agent == s.agent
    decreases |ops|
  {
    if ops != [] { AllKeepAgent(Integrate(s, ops[0]), ops[1..]); }
  }

  lemma {:induction false} AllKeepCounters(S: set<Op>, s: DocState, ops: seq<Op>)
    requires Describes(S, s) && UniquelyNamed(S + ToSet(ops)) && CountersAhead(S, s)
    ensures CountersAhead(S + ToSet(ops), IntegrateAll(s, ops))
    decreases |ops|
  {
    if ops == [] {
      assert S + ToSet(ops) == S;
    } else {
      assert ops == [ops[0]] + ops[1..];
      assert S + ToSet(ops) == (S + {ops[0]}) + ToSet(ops[1..]);
      SubsetUniquelyNamed(S + {ops[0]}, S + ToSet(ops));
      IntegrateDescribed(S, s, ops[0]);
      IntegrateKeepsCounters(S, s, ops[0]);
      AllKeepCounters(S + {ops[0]}, Integrate(s, ops[0]), ops[1..]);
    }
  }

  /** A replica that holds S and is ahead of everything in it. */
  ghost predicate Sound(S: set<Op>, s: DocState) {
    Holds(S, s) && CountersAhead(S, s)
  }

  lemma StaleKeepsCounters(A: set<Op>, B: set<Op>, s: DocState)
    requires CountersAhead(A, s) && forall op | op in B && op !in A :: StaleUnder(A, op)
    ensures CountersAhead(B, s)
  {
    forall op | op in B && op !in A ensures op.IsMapOp() && op.time.wall < s.nextWall {
      var o :| o in A && o.IsMapOp() && o.key == op.key && !TimeLess(o.time, op.time);
    }
  }

  lemma MergeSound(S: set<Op>, s: DocState, T: set<Op>, t: DocState)
    requires Sound(S, s) && Sound(T, t) && UniquelyNamed(S + T)
    ensures Sound(S + T, MergeDocs(s, t))
  {
    var L := ToSet(t.opLog);
    MergeHolds(S, s, T, t);
    SubsetUniquelyNamed(S + L, S + T);
    AllKeepCounters(S, s, t.opLog);
    forall op | op in S + T && op !in S + L ensures StaleUnder(S + L, op) {
      StaleUnderMore(L, S + L, op);
    }
    StaleKeepsCounters(S + L, S + T, MergeDocs(s, t));
  }

  lemma BumpedHolds(S: set<Op>, s: DocState, bumped: DocState)
    requires Sound(S, s) && (bumped == AfterAlloc(s) || bumped == AfterTick(s))
    ensures Holds(S, bumped) && Describes(S, bumped) && CountersAhead(S, bumped)
  {
  }

  lemma LocalSound(S: set<Op>, s: DocState, bumped: DocState, op: Op)
    requires Sound(S, s) && UniquelyNamed(S + {op}) && (bumped == AfterAlloc(s) || bumped == AfterTick(s))
    ensures Sound(S + {op}, Integrate(bumped, op)) && Integrate(bumped, op).agent == s.agent
  {
    hide MapDescribed;
    BumpedHolds(S, s, bumped);
    hide UniquelyNamed, Holds, CountersAhead, Describes, Linked;
    IntegrateHolds(S, bumped, op);
    IntegrateKeepsCounters(S, bumped, op);
  }

  lemma AppliedSound(S: set<Op>, s: DocState, ops: seq<Op>)
    requires Sound(S, s) && UniquelyNamed(S + ToSet(ops))
    ensures Sound(S + ToSet(ops), IntegrateAll(s, ops))
  {
    IntegrateAllHolds(S, s, ops);
    AllKeepCounters(S, s, ops);
  }

  lemma NewDocSound(agent: nat)
    ensures Sound({}, NewDoc(agent))
  {
    NewDocHolds(agent);
  }

  /** A replica holds exactly the operations of its history, if these are uniquely named. */
  lemma {:induction false} HistoryHolds(h: History)
    requires UniquelyNamed(Ops(h))
    ensures Sound(Ops(h), Reached(h)) && Reached(h).agent == Agent(h)
    decreases h
  {
    hide UniquelyNamed, Holds, CountersAhead, Integrate, IntegrateAll, InsertAt, DeleteAt, LocalWrite, DocOk;
    match h {
      case Fresh(agent) => NewDocSound(agent);
      case Inserted(b, i, c) =>
        SubsetUniquelyNamed(Ops(b), Ops(h));
        HistoryHolds(b);
        LocalSound(Ops(b), Reached(b), AfterAlloc(Reached(b)), InsertAt(Reached(b), i, c));
      case Deleted(b, i) =>
        SubsetUniquelyNamed(Ops(b), Ops(h));
        HistoryHolds(b);
        var op := DeleteAt(Reached(b), i);
        if op.Some? {
          LocalSound(Ops(b), Reached(b), AfterAlloc(Reached(b)), op.value);
        } else {
          assert Ops(h) == Ops(b);
        }
      case Put(b, key, value) =>
        SubsetUniquelyNamed(Ops(b), Ops(h));
        HistoryHolds(b);
        LocalSound(Ops(b), Reached(b), AfterTick(Reached(b)), LocalWrite(Reached(b), key, value));
      case Applied(b, ops) =>
        SubsetUniquelyNamed(Ops(b), Ops(h));
        HistoryHolds(b);
        AppliedSound(Ops(b), Reached(b), ops);
        AllKeepAgent(Reached(b), ops);
      case Merged(b, r) =>
        SubsetUniquelyNamed(Ops(b), Ops(h));
        SubsetUniquelyNamed(Ops(r), Ops(h));
        HistoryHolds(b);
        HistoryHolds(r);
        MergeSound(Ops(b), Reached(b), Ops(r), Reached(r));
        AllKeepAgent(Reached(b), Reached(r).opLog);
    }
  }

  /** Histories with the same uniquely named operations show the same, however they came about. */
  lemma HistoriesConverge(g: History, h: History)
    requires Ops(g) == Ops(h) && UniquelyNamed(Ops(g))
    ensures SameView(Reached(g), Reached(h))
  {
    HistoryHolds(g);
    HistoryHolds(h);
    hide UniquelyNamed, Reached, Ops, Describes, SameView;
    SameDescriptionSameView(Ops(g), Reached(g), Reached(h));
  }

  /** Merging histories is observably commutative ... */
  lemma HistoryMergeCommutes(f: History, g: History)
    requires UniquelyNamed(Ops(f) + Ops(g))
    ensures SameView(Reached(Merged(f, g)), Reached(Merged(g, f)))
  {
    hide UniquelyNamed, Reached, SameView;
    assert Ops(Merged(f, g)) == Ops(Merged(g, f));
    HistoriesConverge(Merged(f, g), Merged(g, f));
  }

  /** ... associative ... */
  lemma HistoryMergeAssociates(f: History, g: History, h: History)
    requires UniquelyNamed(Ops(f) + Ops(g) + Ops(h))
    ensures SameView(Reached(Merged(Merged(f, g), h)), Reached(Merged(f, Merged(g, h))))
  {
    hide Reached, SameView, UniquelyNamed, VisibleIds;
    assert Ops(Merged(Merged(f, g), h)) == Ops(Merged(f, Merged(g, h)));
    HistoriesConverge(Merged(Merged(f, g), h), Merged(f, Merged(g, h)));
  }

  /** ... and idempotent. */
  lemma HistoryMergeIdempotent(f: History, g: History)
    requires UniquelyNamed(Ops(f) + Ops(g))
    ensures SameView(Reached(Merged(f, f)), Reached(f))
    ensures SameView(Reached(Merged(Merged(f, g), g)), Reached(Merged(f, g)))
  {
    hide VisibleIds;
    SubsetUniquelyNamed(Ops(f), Ops(f) + Ops(g));
    hide UniquelyNamed, Reached, SameView, DocOk;
    assert Ops(Merged(f, f)) == Ops(f);
    HistoriesConverge(Merged(f, f), f);
    assert Ops(Merged(Merged(f, g), g)) == Ops(Merged(f, g));
    HistoriesConverge(Merged(Merged(f, g), g), Merged(f, g));
  }

  /** On every pair of histories a delta does what a merge does exactly when the receiver's vectors are honest. */
  lemma HistoryDelta(h: History, from: History, delta: seq<Op>)
    requires UniquelyNamed(Ops(h) + Ops(from))
    requires IsDelta(Reached(from), Reached(h).vector, Reached(h).mapVector, delta)
    ensures SameOperations(Reached(Applied(h, delta)), Reached(Merged(h, from))) <==>
      VectorsHonest(Reached(h), Reached(from))
    ensures VectorsHonest(Reached(h), Reached(from)) ==> SameView(Reached(Applied(h, delta)), Reached(Merged(h, from)))
  {
    hide UniquelyNamed, Ops, Holds, CountersAhead, SameView, SameOperations, VectorsHonest, IsDelta, IntegrateAll,
      DocOk;
    SubsetUniquelyNamed(Ops(h), Ops(h) + Ops(from));
    SubsetUniquelyNamed(Ops(from), Ops(h) + Ops(from));
    HistoryHolds(h);
    HistoryHolds(from);
    DeltaEqualsMerge(Ops(h), Reached(h), Ops(from), Reached(from), delta);
  }

  /** In every document any history reaches, missing parents and parent cycles included, the walk is exact. */
  lemma HistoryWalk(h: History)
    ensures NoDuplicates(DocumentOrder(Reached(h)))
    ensures forall id :: id in DocumentOrder(Reached(h)) <==> Reachable(Reached(h), id)
  {
    WalkVisitsReachableOnce(Reached(h));
  }

  // ---------- a mesh of replicas ----------

  /** Each agent's replica, by its history. */
  type Mesh = map<nat, History>

  ghost function AllOps(m: Mesh): set<Op> {
    set a, op | a in m && op in Ops(m[a]) :: op
  }

  function Author(op: Op): nat {
    match op
    case InsertOp(id, _, _) => id.agent
    case DeleteOp(_, opId) => opId.agent
    case _ => op.time.agent
  }

  /** Parents and delete targets have been inserted by somebody. */
  ghost predicate Causal(S: set<Op>) {
    forall op | op in S ::
      && (op.InsertOp? && op.parent.Some? ==> Inserts(S, op.parent.value))
      && (op.DeleteOp? ==> Inserts(S, op.target))
  }

  ghost predicate MeshOk(m: Mesh) {
    && UniquelyNamed(AllOps(m)) && Causal(AllOps(m))
    && (forall a | a in m :: Agent(m[a]) == a)
    && forall op | op in AllOps(m) :: Author(op) in m && op in Ops(m[Author(op)])
  }

  datatype Event =
    | Join(agent: nat)
    | InsertChar(agent: nat, index: nat, content: char)
    | DeleteChar(agent: nat, index: nat)
    | Write(agent: nat, key: string, value: Option<Bytes>)
    | Deliver(agent: nat, op: Op)
    | Sync(agent: nat, from: nat, vector: map<nat, nat>, mapVector: map<nat, nat>, delta: seq<Op>)
    | Merge(agent: nat, from: nat)

  /** New agents take unused numbers; only operations of the mesh are delivered, one by one or as a delta. */
  ghost predicate Possible(m: Mesh, e: Event) {
    match e
    case Join(a) => a !in m
    case Deliver(a, op) => a in m && op in AllOps(m)
    case Sync(a, from, vector, mapVector, delta) =>
      a in m && from in m && IsDelta(Reached(m[from]), vector, mapVector, delta)
    case Merge(a, from) => a in m && from in m
    case _ => e.agent in m
  }

  ghost function Grown(m: Mesh, e: Event): History
    requires Possible(m, e)
  {
    match e
    case Join(a) => Fresh(a)
    case InsertChar(a, i, c) => Inserted(m[a], i, c)
    case DeleteChar(a, i) => Deleted(m[a], i)
    case Write(a, key, value) => Put(m[a], key, value)
    case Deliver(a, op) => Applied(m[a], [op])
    case Sync(a, _, _, _, delta) => Applied(m[a], delta)
    case Merge(a, from) => Merged(m[a], m[from])
  }

  ghost function Next(m: Mesh, e: Event): Mesh {
    if Possible(m, e) then m[e.agent := Grown(m, e)] else m
  }

  ghost function Run(events: seq<Event>): Mesh {
    if events == [] then map[] else Next(Run(events[..|events| - 1]), events[|events| - 1])
  }

  lemma GrowthOfAll(m: Mesh, a: nat, h: History)
    requires a in m ==> Ops(m[a]) <= Ops(h)
    ensures AllOps(m[a := h]) == AllOps(m) + Ops(h)
  {
    var n := m[a := h];
    forall op ensures op in AllOps(n) <==> op in AllOps(m) + Ops(h) {
      if op in AllOps(n) {
        var x :| x in n && op in Ops(n[x]);
        if x != a { assert x in m && op in Ops(m[x]); }
      }
      if op in AllOps(m) {
        var x :| x in m && op in Ops(m[x]);
        assert x in n && op in Ops(n[x]);
      }
      if op in Ops(h) { assert a in n && op in Ops(n[a]); }
    }
  }

  /** A replica of the mesh holds its operations and is ahead of them. */
  lemma ReplicaSound(m: Mesh, a: nat)
    requires MeshOk(m) && a in m
    ensures Sound(Ops(m[a]), Reached(m[a])) && Reached(m[a]).agent == Agent(m[a]) == a && Ops(m[a]) <= AllOps(m)
  {
    assert forall op | op in Ops(m[a]) :: op in AllOps(m);
    SubsetUniquelyNamed(Ops(m[a]), AllOps(m));
    HistoryHolds(m[a]);
  }

  /** Taking operations of the mesh in, in whatever form, keeps it sound. */
  lemma TakingInOk(m: Mesh, a: nat, h: History)
    requires MeshOk(m) && a in m && Agent(h) == a && Ops(m[a]) <= Ops(h) <= AllOps(m)
    ensures MeshOk(m[a := h])
  {
    GrowthOfAll(m, a, h);
    assert AllOps(m[a := h]) == AllOps(m);
  }

  /** Named like nothing this replica knows. */
  ghost predicate NewlyNamed(s: DocState, op: Op) {
    match op
    case InsertOp(id, _, _) => id == NextId(s)
    case DeleteOp(_, opId) => opId == NextId(s)
    case _ => op.time == LogicalTime(s.nextWall, s.agent)
  }

  ghost predicate RefersTo(s: DocState, op: Op) {
    && (op.InsertOp? && op.parent.Some? ==> op.parent.value in s.items)
    && (op.DeleteOp? ==> op.target in s.items)
  }

  predicate SameName(a: Op, b: Op) {
    || (a.InsertOp? && b.InsertOp? && a.id == b.id)
    || (a.DeleteOp? && b.DeleteOp? && a.opId == b.opId)
    || (a.IsMapOp() && b.IsMapOp() && a.time == b.time)
  }

  /** All operations under an agent's name are in its own replica, whose counters are ahead of them. */
  lemma NewNamesClashWithNothing(m: Mesh, a: nat, op: Op, other: Op)
    requires MeshOk(m) && a in m && NewlyNamed(Reached(m[a]), op) && other in AllOps(m)
    ensures !SameName(op, other)
  {
    ReplicaSound(m, a);
  }

  lemma NamedMore(S: set<Op>, op: Op)
    requires UniquelyNamed(S) && forall other | other in S :: !SameName(op, other)
    ensures UniquelyNamed(S + {op})
  {
  }

  lemma CausalMore(S: set<Op>, op: Op)
    requires Causal(S)
    requires op.InsertOp? && op.parent.Some? ==> Inserts(S, op.parent.value)
    requires op.DeleteOp? ==> Inserts(S, op.target)
    ensures Causal(S + {op})
  {
    GrowSets(S, op);
  }

  lemma ItemsAreInserted(m: Mesh, a: nat, id: ItemId)
    requires MeshOk(m) && a in m && id in Reached(m[a]).items
    ensures Inserts(AllOps(m), id)
  {
    ReplicaSound(m, a);
    assert Inserts(Ops(m[a]), id);
    var op :| op in Ops(m[a]) && op.InsertOp? && op.id == id;
    assert op in AllOps(m);
  }

  lemma CreatingOk(m: Mesh, a: nat, h: History, op: Op)
    requires MeshOk(m) && a in m && Agent(h) == a && Ops(h) == Ops(m[a]) + {op}
    requires NewlyNamed(Reached(m[a]), op) && RefersTo(Reached(m[a]), op)
    ensures MeshOk(m[a := h])
  {
    hide AllOps, Causal, DocOk, Reached, SameName, Sound, StaleUnder, ToSet, UniquelyNamed, VisibleIds, WritesCell;
    var S := AllOps(m);
    GrowthOfAll(m, a, h);
    ReplicaSound(m, a);
    assert AllOps(m[a := h]) == S + {op};
    forall other | other in S ensures !SameName(op, other) {
      NewNamesClashWithNothing(m, a, op, other);
    }
    NamedMore(S, op);
    if op.InsertOp? && op.parent.Some? { ItemsAreInserted(m, a, op.parent.value); }
    if op.DeleteOp? { ItemsAreInserted(m, a, op.target); }
    CausalMore(S, op);
  }

  lemma DeltaIsHeld(m: Mesh, from: nat, vector: map<nat, nat>, mapVector: map<nat, nat>, delta: seq<Op>)
    requires MeshOk(m) && from in m && IsDelta(Reached(m[from]), vector, mapVector, delta)
    ensures ToSet(delta) <= AllOps(m)
  {
    ReplicaSound(m, from);
    forall op | op in delta ensures op in AllOps(m) {
      DeltaContents(Reached(m[from]), vector, mapVector, delta, op);
    }
  }

  lemma JoinOk(m: Mesh, a: nat)
    requires MeshOk(m) && a !in m
    ensures MeshOk(m[a := Fresh(a)])
  {
    GrowthOfAll(m, a, Fresh(a));
    assert AllOps(m[a := Fresh(a)]) == AllOps(m);
  }

  lemma InsertCharOk(m: Mesh, a: nat, i: nat, c: char)
    requires MeshOk(m) && a in m
    ensures MeshOk(m[a := Inserted(m[a], i, c)])
  {
    hide MeshOk, Sound, VisibleIds, Linked;
    var s := Reached(m[a]);
    ReplicaSound(m, a);
    if 0 < i <= |VisibleIds(s)| { VisibleParent(s, i); }
    CreatingOk(m, a, Inserted(m[a], i, c), InsertAt(s, i, c));
  }

  lemma DeleteCharOk(m: Mesh, a: nat, i: nat)
    requires MeshOk(m) && a in m
    ensures MeshOk(m[a := Deleted(m[a], i)])
  {
    hide MeshOk, Sound, VisibleIds, Linked;
    var s := Reached(m[a]);
    ReplicaSound(m, a);
    if i < |VisibleIds(s)| {
      VisibleParent(s, i + 1);
      CreatingOk(m, a, Deleted(m[a], i), DeleteAt(s, i).value);
    } else {
      TakingInOk(m, a, Deleted(m[a], i));
    }
  }

  lemma WriteOk(m: Mesh, a: nat, key: string, value: Option<Bytes>)
    requires MeshOk(m) && a in m
    ensures MeshOk(m[a := Put(m[a], key, value)])
  {
    hide MeshOk, Sound, Linked;
    ReplicaSound(m, a);
    CreatingOk(m, a, Put(m[a], key, value), LocalWrite(Reached(m[a]), key, value));
  }

  lemma NextOk(m: Mesh, e: Event)
    requires MeshOk(m)
    ensures MeshOk(Next(m, e))
  {
    hide MeshOk, IsDelta, Sound;
    if Possible(m, e) {
      match e {
        case Join(a) => JoinOk(m, a);
        case InsertChar(a, i, c) => InsertCharOk(m, a, i, c);
        case DeleteChar(a, i) => DeleteCharOk(m, a, i);
        case Write(a, key, value) => WriteOk(m, a, key, value);
        case Deliver(a, op) =>
          ReplicaSound(m, a);
          TakingInOk(m, a, Grown(m, e));
        case Sync(a, from, _, _, delta) =>
          ReplicaSound(m, a);
          DeltaIsHeld(m, from, e.vector, e.mapVector, delta);
          TakingInOk(m, a, Grown(m, e));
        case Merge(a, from) =>
          ReplicaSound(m, a);
          ReplicaSound(m, from);
          TakingInOk(m, a, Grown(m, e));
      }
    }
  }

  /**
    Whatever the agents of a mesh do and in whatever order, their operations stay uniquely named and
    causal, and every replica holds exactly the operations of its history.
   */
  lemma {:induction false} RunOk(events: seq<Event>)
    ensures MeshOk(Run(events))
    decreases |events|
  {
    if events == [] {
      assert AllOps(map[]) == {};
    } else {
      RunOk(events[..|events| - 1]);
      NextOk(Run(events[..|events| - 1]), events[|events| - 1]);
    }
  }

  /** Convergence without hypotheses on names: in every run, replicas that hold the same operations show the same. */
  lemma MeshConverges(events: seq<Event>, a: nat, b: nat)
    requires a in Run(events) && b in Run(events) && Ops(Run(events)[a]) == Ops(Run(events)[b])
    ensures SameView(Reached(Run(events)[a]), Reached(Run(events)[b]))
  {
    RunOk(events);
    ReplicaSound(Run(events), a);
    SubsetUniquelyNamed(Ops(Run(events)[a]), AllOps(Run(events)));
    HistoriesConverge(Run(events)[a], Run(events)[b]);
  }

  /** In every run a replica shows under each key the value of the last writer it has heard of. */
  lemma MeshLastWriterWins(events: seq<Event>, a: nat, key: string)
    requires a in Run(events)
    ensures var s, S := Reached(Run(events)[a]), Ops(Run(events)[a]);
      if exists op :: LastWriter(S, op) && op.key == key
      then exists op :: LastWriter(S, op) && op.key == key && MapGet(s, key) == op.Written()
      else MapGet(s, key) == None
  {
    RunOk(events);
    ReplicaSound(Run(events), a);
    hide Reached, Ops, LastWriter, Describes, LogCovers, LogHasNewest, CountersAhead;
    LastWriterWins(Ops(Run(events)[a]), Reached(Run(events)[a]), key);
  }

  /** After two replicas have merged each other they show the same. */
  lemma MergingBothWaysConverges(events: seq<Event>, a: nat, b: nat)
    requires a in Run(events) && b in Run(events)
    ensures var m := Run(events + [Merge(a, b), Merge(b, a)]);
      a in m && b in m && SameView(Reached(m[a]), Reached(m[b]))
  {
    var e1 := events + [Merge(a, b)];
    var e2 := events + [Merge(a, b), Merge(b, a)];
    assert e1[..|e1| - 1] == events && e2[..|e2| - 1] == e1;
    var m0, m1, m := Run(events), Run(e1), Run(e2);
    assert m1 == m0[a := Merged(m0[a], m0[b])];
    assert m == m1[b := Merged(m1[b], m1[a])];
    assert Ops(m[a]) == Ops(m[b]);
    MeshConverges(e2, a, b);
  }

  /**
    In every run, no replica has anything waiting for its next local id, so `insert_char` lands at its
    index if and only if no larger sibling under the chosen parent carries visible text.
   */
  lemma InsertLandsInMesh(events: seq<Event>, a: nat, i: nat, c: char, pp: seq<ItemId>)
    requires a in Run(events) && i <= |VisibleIds(Reached(Run(events)[a]))|
    requires var s := Reached(Run(events)[a]); IsPath(s, pp) && Tip(pp) == ParentAt(s, i)
    ensures var s := Reached(Run(events)[a]); var v := VisibleIds(s);
      && NextIdUnused(s) && DocOk(Typed(s, i, c))
      && (VisibleIds(Typed(s, i, c)) == v[..i] + [NextId(s)] + v[i..] <==>
        Crowd(s, ParentAt(s, i), pp, NextId(s)) == [])
  {
    var m := Run(events);
    var s := Reached(m[a]);
    RunOk(events);
    MeshIdUnused(m, a);
    forall chain ensures !HangsFrom(s, NextId(s), chain) {
      UnusedMeansNothingHangs(s, NextId(s), chain);
    }
    InsertCharLands(s, i, c, pp);
  }

  lemma InsertedIsNotNext(m: Mesh, a: nat, id: ItemId)
    requires MeshOk(m) && a in m && Inserts(AllOps(m), id)
    ensures id != NextId(Reached(m[a]))
  {
    ReplicaSound(m, a);
    var op :| op in AllOps(m) && op.InsertOp? && op.id == id;
    if id.agent == a {
      assert op in Ops(m[a]);
    }
  }

  lemma MeshIdUnused(m: Mesh, a: nat)
    requires MeshOk(m) && a in m
    ensures NextIdUnused(Reached(m[a]))
  {
    var s, S := Reached(m[a]), Ops(m[a]);
    ReplicaSound(m, a);
    forall x | x in s.items ensures x != NextId(s) && s.items[x].parent != Some(NextId(s)) {
      assert Inserts(S, x);
      var op :| op in S && op.InsertOp? && op.id == x;
      assert op in AllOps(m);
      ItemsAreInserted(m, a, x);
      InsertedIsNotNext(m, a, x);
      if op.parent.Some? { InsertedIsNotNext(m, a, op.parent.value); }
    }
    forall x | x in s.pendingDeletes ensures x != NextId(s) {
      assert Deletes(S, x);
      var op :| op in S && op.DeleteOp? && op.target == x;
      assert op in AllOps(m);
      InsertedIsNotNext(m, a, x);
    }
  }
}
