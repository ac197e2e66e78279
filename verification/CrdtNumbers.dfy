/** The numbers agents give their operations in consensus/src/crdt.rs: in every run of a mesh, without gaps. */
module CrdtNumbers {
  import opened CrdtState
  import opened CrdtDelta
  import opened CrdtDoc
  import opened CrdtHistory
  import opened CrdtVectors

  /** The number names a sequence operation of the agent. */
  ghost predicate Numbered(m: Mesh, a: nat, k: nat) {
    exists op | op in AllOps(m) :: !op.IsMapOp() && Author(op) == a && Number(op) == k
  }

  /** Every number below an agent's counter has been given out. */
  ghost predicate Dense(m: Mesh) {
    forall a, k: nat | a in m && 1 <= k < Reached(m[a]).nextSeq :: Numbered(m, a, k)
  }

  lemma IntegrateKeepsCounter(s: DocState, op: Op)
    requires !op.IsMapOp() && Author(op) == s.agent ==> Number(op) < s.nextSeq
    ensures Integrate(s, op).agent == s.agent && Integrate(s, op).nextSeq == s.nextSeq
  {
    hide Raise;
  }

  lemma {:induction false} OldKeepCounter(s: DocState, ops: seq<Op>)
    requires forall op | op in ops && !op.IsMapOp() && Author(op) == s.agent :: Number(op) < s.nextSeq
    ensures IntegrateAll(s, ops).nextSeq == s.nextSeq
    decreases |ops|
  {
    hide Integrate;
    if ops != [] {
      IntegrateKeepsCounter(s, ops[0]);
      OldKeepCounter(Integrate(s, ops[0]), ops[1..]);
    }
  }

  /** What a replica may find in the mesh under its own name it has numbered itself. */
  lemma TakenCounter(m: Mesh, a: nat, ops: seq<Op>)
    requires MeshOk(m) && a in m && ToSet(ops) <= AllOps(m)
    ensures IntegrateAll(Reached(m[a]), ops).nextSeq == Reached(m[a]).nextSeq
  {
    ReplicaSound(m, a);
    forall op | op in ops && !op.IsMapOp() && Author(op) == a ensures Number(op) < Reached(m[a]).nextSeq {
      assert op in ToSet(ops);
      NumberedBelow(m, op);
    }
    OldKeepCounter(Reached(m[a]), ops);
  }

  lemma CreatedCounter(s: DocState, op: Op)
    requires !op.IsMapOp() && Author(op) == s.agent && Number(op) == s.nextSeq
    ensures Integrate(AfterAlloc(s), op).nextSeq == s.nextSeq + 1
  {
    IntegrateKeepsCounter(AfterAlloc(s), op);
  }

  lemma WrittenCounter(s: DocState, op: Op)
    requires op.IsMapOp()
    ensures Integrate(AfterTick(s), op).nextSeq == s.nextSeq
  {
    IntegrateKeepsCounter(AfterTick(s), op);
  }

  lemma LogIsHeld(m: Mesh, a: nat)
    requires MeshOk(m) && a in m
    ensures ToSet(Reached(m[a]).opLog) <= AllOps(m)
  {
    ReplicaSound(m, a);
  }

  /** h leaves b's counter alone, or raises it by one for the sequence operation it creates. */
  ghost predicate CountsOn(b: History, h: History, a: nat) {
    || Reached(h).nextSeq == Reached(b).nextSeq
    || (Reached(h).nextSeq == Reached(b).nextSeq + 1 && exists op | op in Ops(h) ::
          !op.IsMapOp() && Author(op) == a && Number(op) == Reached(b).nextSeq)
  }

  lemma CountOne(b: History, h: History, op: Op)
    requires Reached(h) == Integrate(AfterAlloc(Reached(b)), op) && op in Ops(h)
    requires !op.IsMapOp() && Author(op) == Reached(b).agent && Number(op) == Reached(b).nextSeq
    ensures CountsOn(b, h, Reached(b).agent)
  {
    hide Integrate, Ops;
    CreatedCounter(Reached(b), op);
  }

  lemma LocalCounts(b: History, h: History)
    requires (h.Inserted? || h.Deleted? || h.Put?) && h.before == b
    ensures CountsOn(b, h, Reached(b).agent)
  {
    hide Integrate, CountsOn;
    match h {
      case Inserted(_, i, c) => CountOne(b, h, InsertAt(Reached(b), i, c));
      case Deleted(_, i) =>
        var op := DeleteAt(Reached(b), i);
        if op.Some? { CountOne(b, h, op.value); } else { SameCount(b, h); }
      case Put(_, key, value) =>
        WrittenCounter(Reached(b), LocalWrite(Reached(b), key, value));
        SameCount(b, h);
    }
  }

  lemma SameCount(b: History, h: History)
    requires Reached(h).nextSeq == Reached(b).nextSeq
    ensures CountsOn(b, h, Reached(b).agent)
  {
    hide Reached;
  }

  lemma TakenCounts(m: Mesh, a: nat, h: History, ops: seq<Op>)
    requires MeshOk(m) && a in m && ToSet(ops) <= AllOps(m)
    requires Reached(h) == IntegrateAll(Reached(m[a]), ops)
    ensures CountsOn(m[a], h, a)
  {
    ReplicaSound(m, a);
    TakenCounter(m, a, ops);
    SameCount(m[a], h);
  }

  lemma OwnAgent(m: Mesh, a: nat)
    requires MeshOk(m) && a in m
    ensures Reached(m[a]).agent == a
  {
    ReplicaSound(m, a);
  }

  lemma CounterAfter(m: Mesh, e: Event)
    requires MeshOk(m) && Possible(m, e) && !e.Join?
    ensures CountsOn(m[e.agent], Grown(m, e), e.agent)
  {
    hide MeshOk, AllOps, Reached, IntegrateAll, CountsOn, Ops, IsDelta;
    var a := e.agent;
    OwnAgent(m, a);
    match e {
      case InsertChar(_, _, _) => LocalCounts(m[a], Grown(m, e));
      case DeleteChar(_, _) => LocalCounts(m[a], Grown(m, e));
      case Write(_, _, _) => LocalCounts(m[a], Grown(m, e));
      case Deliver(_, op) =>
        assert ToSet([op]) <= AllOps(m);
        Applying(m[a], [op]);
        TakenCounts(m, a, Grown(m, e), [op]);
      case Sync(_, from, vector, mapVector, delta) =>
        DeltaIsHeld(m, from, vector, mapVector, delta);
        Applying(m[a], delta);
        TakenCounts(m, a, Grown(m, e), delta);
      case Merge(_, from) =>
        LogIsHeld(m, from);
        Merging(m[a], m[from]);
        TakenCounts(m, a, Grown(m, e), Reached(m[from]).opLog);
    }
  }

  lemma Applying(b: History, ops: seq<Op>)
    ensures Reached(Applied(b, ops)) == IntegrateAll(Reached(b), ops)
  {
  }

  lemma Merging(b: History, r: History)
    ensures Reached(Merged(b, r)) == IntegrateAll(Reached(b), Reached(r).opLog)
  {
  }

  lemma OpsOnlyGrow(m: Mesh, e: Event)
    requires MeshOk(m) && Possible(m, e)
    ensures AllOps(Next(m, e)) == AllOps(m) + Ops(Grown(m, e))
  {
    hide MeshOk, Reached, AllOps;
    GrowthOfAll(m, e.agent, Grown(m, e));
  }

  lemma DenseNext(m: Mesh, e: Event)
    requires MeshOk(m) && Dense(m)
    ensures Dense(Next(m, e))
  {
    if Possible(m, e) {
      OpsOnlyGrow(m, e);
      if !e.Join? { CounterAfter(m, e); }
      hide MeshOk, AllOps, Possible;
      var n := Next(m, e);
      forall a, k: nat | a in n && 1 <= k < Reached(n[a]).nextSeq ensures Numbered(n, a, k) {
        if a in m && k < Reached(m[a]).nextSeq { assert Numbered(m, a, k); }
      }
    }
  }

  /**
    In every run the sequence operations of an agent are numbered 1, 2, 3, ... up to its counter: what
    lets a single highest number stand for all of them in a version vector.
   */
  lemma {:induction false} NumbersAreDense(events: seq<Event>)
    ensures Dense(Run(events))
    decreases |events|
  {
    RunOk(events);
    if events != [] {
      var front := events[..|events| - 1];
      RunOk(front);
      NumbersAreDense(front);
      DenseNext(Run(front), events[|events| - 1]);
    }
  }

  /** And none beyond it, so its numbers are exactly those below the counter. */
  lemma NumbersGivenOut(events: seq<Event>, a: nat, k: nat)
    requires a in Run(events) && k >= 1
    ensures Numbered(Run(events), a, k) <==> k < Reached(Run(events)[a]).nextSeq
  {
    RunOk(events);
    NumbersAreDense(events);
    if op :| op in AllOps(Run(events)) && !op.IsMapOp() && Author(op) == a && Number(op) == k {
      NumberedBelow(Run(events), op);
    }
  }
}
