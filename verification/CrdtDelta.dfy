/** Version-vector deltas of consensus/src/crdt.rs: what a filtered, compacted log delivers. */
module CrdtDelta {
  import opened Common
  import opened CrdtState
  import opened CrdtSync

  /** The remote's version vectors claim to cover the operation. */
  predicate Covered(op: Op, vector: map<nat, nat>, mapVector: map<nat, nat>) {
    match op
    case InsertOp(id, _, _) => id.number <= Seen(vector, id.agent)
    case DeleteOp(_, opId) => opId.number <= Seen(vector, opId.agent)
    case _ => op.time.wall <= Seen(mapVector, op.time.agent)
  }

  function Uncovered(ops: seq<Op>, vector: map<nat, nat>, mapVector: map<nat, nat>): seq<Op> {
    if ops == [] then []
    else (if Covered(ops[0], vector, mapVector) then [] else [ops[0]]) + Uncovered(ops[1..], vector, mapVector)
  }

  lemma {:induction false} UncoveredMember(ops: seq<Op>, vector: map<nat, nat>, mapVector: map<nat, nat>, op: Op)
    ensures op in Uncovered(ops, vector, mapVector) <==> op in ops && !Covered(op, vector, mapVector)
  {
    if ops != [] {
      UncoveredMember(ops[1..], vector, mapVector, op);
      assert ops == [ops[0]] + ops[1..];
    }
  }

  function SequenceOps(ops: seq<Op>): seq<Op> {
    if ops == [] then []
    else (if ops[0].IsMapOp() then [] else [ops[0]]) + SequenceOps(ops[1..])
  }

  lemma {:induction false} SequenceOpsSnoc(ops: seq<Op>, op: Op)
    ensures SequenceOps(ops + [op]) == SequenceOps(ops) + if op.IsMapOp() then [] else [op]
  {
    if ops == [] {
      assert ops + [op] == [op];
    } else {
      SequenceOpsSnoc(ops[1..], op);
      assert (ops + [op])[1..] == ops[1..] + [op];
    }
  }

  lemma {:induction false} SequenceOpsMember(ops: seq<Op>, op: Op)
    ensures op in SequenceOps(ops) <==> op in ops && !op.IsMapOp()
  {
    if ops != [] {
      SequenceOpsMember(ops[1..], op);
      assert ops == [ops[0]] + ops[1..];
    }
  }

  /** Map writes kept by compaction: the first of the newest for each key. */
  ghost predicate LatestPerKey(ops: seq<Op>, latest: map<string, Op>) {
    && (forall key | key in latest :: latest[key] in ops && latest[key].IsMapOp() && latest[key].key == key)
    && forall op | op in ops && op.IsMapOp() :: op.key in latest && !TimeLess(latest[op.key].time, op.time)
  }

  /** Sequence operations in log order, then one newest write per key, in some order. */
  ghost predicate IsCompaction(ops: seq<Op>, out: seq<Op>) {
    exists tail: seq<Op>, latest: map<string, Op> :: CompactsTo(ops, out, tail, latest)
  }

  ghost predicate CompactsTo(ops: seq<Op>, out: seq<Op>, tail: seq<Op>, latest: map<string, Op>) {
    && out == SequenceOps(ops) + tail
    && LatestPerKey(ops, latest)
    && |tail| == |latest|
    && forall op :: op in tail <==> op.IsMapOp() && op.key in latest && latest[op.key] == op
  }

  lemma NothingKept()
    ensures SequenceOps([]) == [] && LatestPerKey([], map[])
  {
  }

  lemma LatestKeys(ops: seq<Op>, latest: map<string, Op>)
    requires LatestPerKey(ops, latest)
    ensures forall key | key in latest :: latest[key].IsMapOp() && latest[key].key == key
  {
  }

  /** One more operation: a strictly newer write replaces the one kept. */
  lemma LatestSnoc(ops: seq<Op>, op: Op, latest: map<string, Op>)
    requires LatestPerKey(ops, latest)
    ensures !op.IsMapOp() ==> LatestPerKey(ops + [op], latest)
    ensures op.IsMapOp() ==>
      if op.key !in latest || TimeLess(latest[op.key].time, op.time)
      then LatestPerKey(ops + [op], latest[op.key := op]) else LatestPerKey(ops + [op], latest)
  {
    assert forall o :: o in ops + [op] <==> o in ops || o == op;
  }

  /** `compact_map_ops`; the order of the kept map writes is left open, as hash-map iteration leaves it. */
  method CompactMapOps(ops: seq<Op>) returns (out: seq<Op>)
    ensures IsCompaction(ops, out)
  {
    hide SequenceOps, LatestPerKey, TimeLess;
    var latest: map<string, Op> := map[];
    var seqOps: seq<Op> := [];
    assert ops[..0] == [];
    NothingKept();
    for i := 0 to |ops|
      invariant seqOps == SequenceOps(ops[..i]) && LatestPerKey(ops[..i], latest)
    {
      var op := ops[i];
      assert ops[..i + 1] == ops[..i] + [op];
      SequenceOpsSnoc(ops[..i], op);
      LatestSnoc(ops[..i], op, latest);
      LatestKeys(ops[..i], latest);
      if op.IsMapOp() {
        if op.key !in latest || TimeLess(latest[op.key].time, op.time) {
          latest := latest[op.key := op];
        }
      } else {
        seqOps := seqOps + [op];
      }
    }
    assert ops[..|ops|] == ops;
    LatestKeys(ops, latest);
    var tail := Values(latest);
    out := seqOps + tail;
    assert CompactsTo(ops, out, tail, latest);
  }

  /** The values of a map of writes, in an arbitrary order. */
  method Values(latest: map<string, Op>) returns (tail: seq<Op>)
    requires forall key | key in latest :: latest[key].IsMapOp() && latest[key].key == key
    ensures |tail| == |latest|
    ensures forall op :: op in tail <==> op.IsMapOp() && op.key in latest && latest[op.key] == op
  {
    tail := [];
    var rest := latest.Keys;
    while rest != {}
      invariant rest <= latest.Keys && |tail| + |rest| == |latest.Keys|
      invariant forall op :: op in tail <==> op.IsMapOp() && op.key in latest && op.key !in rest && latest[op.key] == op
      decreases |rest|
    {
      var key :| key in rest;
      tail := tail + [latest[key]];
      rest := rest - {key};
    }
  }

  /** What `delta_since` may return. */
  ghost predicate IsDelta(s: DocState, vector: map<nat, nat>, mapVector: map<nat, nat>, delta: seq<Op>) {
    IsCompaction(Uncovered(s.opLog, vector, mapVector), delta)
  }

  lemma UncoveredAt(log: seq<Op>, vector: map<nat, nat>, mapVector: map<nat, nat>, i: nat)
    requires i < |log|
    ensures Uncovered(log[i..], vector, mapVector)
         == (if Covered(log[i], vector, mapVector) then [] else [log[i]]) + Uncovered(log[i + 1..], vector, mapVector)
  {
    assert log[i..][1..] == log[i + 1..];
  }

  /** `delta_since`: filter the log against the remote's vectors, then compact. */
  method DeltaOps(log: seq<Op>, vector: map<nat, nat>, mapVector: map<nat, nat>) returns (delta: seq<Op>)
    ensures IsCompaction(Uncovered(log, vector, mapVector), delta)
  {
    var ops: seq<Op> := [];
    ghost var goal := Uncovered(log, vector, mapVector);
    assert log[0..] == log;
    for i := 0 to |log|
      invariant ops + Uncovered(log[i..], vector, mapVector) == goal
    {
      UncoveredAt(log, vector, mapVector, i);
      var here := if Covered(log[i], vector, mapVector) then [] else [log[i]];
      ConcatAssoc(ops, here, Uncovered(log[i + 1..], vector, mapVector));
      ops := ops + here;
    }
    assert log[|log|..] == [] && ops == goal;
    delta := CompactMapOps(ops);
  }

  /** A delta holds uncovered log entries only, and misses only writes that it supersedes. */
  lemma DeltaContents(s: DocState, vector: map<nat, nat>, mapVector: map<nat, nat>, delta: seq<Op>, op: Op)
    requires IsDelta(s, vector, mapVector, delta)
    ensures op in delta ==> op in s.opLog && !Covered(op, vector, mapVector)
    ensures op in s.opLog && !Covered(op, vector, mapVector) ==> op in delta || StaleUnder(ToSet(delta), op)
  {
    var ops := Uncovered(s.opLog, vector, mapVector);
    var tail: seq<Op>, latest: map<string, Op> :| CompactsTo(ops, delta, tail, latest);
    UncoveredMember(s.opLog, vector, mapVector, op);
    SequenceOpsMember(ops, op);
    if op in s.opLog && !Covered(op, vector, mapVector) && op.IsMapOp() {
      var o := latest[op.key];
      assert o in tail && o in ToSet(delta);
    }
  }

  // ---------- delta sync against a full merge ----------

  /** An uncovered log entry of the sender makes this write obsolete anyway. */
  ghost predicate SupersededInDelta(r: DocState, s: DocState, op: Op) {
    op.IsMapOp() && exists o | o in s.opLog ::
      o.IsMapOp() && !Covered(o, r.vector, r.mapVector) && o.key == op.key && !TimeLess(o.time, op.time)
  }

  /** Whatever the receiver's vectors cover, the receiver has applied or no longer needs. */
  ghost predicate VectorsHonest(r: DocState, s: DocState) {
    forall op | op in s.opLog && Covered(op, r.vector, r.mapVector) :: Ignored(r, op) || SupersededInDelta(r, s, op)
  }

  ghost predicate SameOperations(s: DocState, t: DocState) {
    s.appliedInserts == t.appliedInserts && s.appliedDeletes == t.appliedDeletes && s.lww == t.lww
  }

  lemma UncoveredArrives(R: set<Op>, r: DocState, s: DocState, delta: seq<Op>, op: Op)
    requires IsDelta(s, r.vector, r.mapVector, delta)
    requires op in s.opLog && !Covered(op, r.vector, r.mapVector)
    ensures op in R + ToSet(delta) || StaleUnder(R + ToSet(delta), op)
  {
    DeltaContents(s, r.vector, r.mapVector, delta, op);
    if StaleUnder(ToSet(delta), op) { StaleUnderMore(ToSet(delta), R + ToSet(delta), op); }
  }

  /** With honest vectors every log entry of the sender reaches the receiver or is stale there. */
  lemma LogEntryArrives(R: set<Op>, r: DocState, S: set<Op>, s: DocState, delta: seq<Op>, op: Op)
    requires Holds(R, r) && UniquelyNamed(R + S) && Holds(S, s)
    requires IsDelta(s, r.vector, r.mapVector, delta) && VectorsHonest(r, s) && op in s.opLog
    ensures op in R + ToSet(delta) || StaleUnder(R + ToSet(delta), op)
  {
    hide Newest, TimeLess, Uncovered, UniquelyNamed, WritesCell;
    if !Covered(op, r.vector, r.mapVector) {
      UncoveredArrives(R, r, s, delta, op);
    } else if Ignored(r, op) {
      SubsetUniquelyNamed(R + {op}, R + S);
      IgnoredIsCovered(R, r, op);
      if StaleUnder(ToSet(r.opLog), op) { StaleUnderMore(ToSet(r.opLog), R + ToSet(delta), op); }
    } else {
      var o :| o in s.opLog && o.IsMapOp() && !Covered(o, r.vector, r.mapVector) && o.key == op.key &&
        !TimeLess(o.time, op.time);
      UncoveredArrives(R, r, s, delta, o);
      StaleChain(R + ToSet(delta), o, op);
    }
  }

  lemma DeltaHolds(R: set<Op>, r: DocState, S: set<Op>, s: DocState, delta: seq<Op>)
    requires Holds(R, r) && Holds(S, s) && UniquelyNamed(R + S)
    requires IsDelta(s, r.vector, r.mapVector, delta)
    ensures R + ToSet(delta) <= R + S
    ensures Holds(R + ToSet(delta), IntegrateAll(r, delta))
    ensures VectorsHonest(r, s) ==> Holds(R + S, IntegrateAll(r, delta))
  {
    var D := ToSet(delta);
    forall op | op in D ensures op in S {
      DeltaContents(s, r.vector, r.mapVector, delta, op);
    }
    SubsetUniquelyNamed(R + D, R + S);
    IntegrateAllHolds(R, r, delta);
    if VectorsHonest(r, s) {
      forall op | op in R + S && op !in R + D ensures StaleUnder(R + D, op) {
        if op in s.opLog {
          LogEntryArrives(R, r, S, s, delta, op);
        } else {
          assert StaleUnder(ToSet(s.opLog), op);
          var o :| o in ToSet(s.opLog) && o.IsMapOp() && o.key == op.key && !TimeLess(o.time, op.time);
          LogEntryArrives(R, r, S, s, delta, o);
          StaleChain(R + D, o, op);
        }
      }
      HoldsAbsorbs(R + D, R + S, IntegrateAll(r, delta));
    }
  }

  lemma AppliedNamesOp(T: set<Op>, B: set<Op>, x: DocState, op: Op)
    requires Describes(T, x) && T <= B && op in B && UniquelyNamed(B)
    requires !op.IsMapOp() && Ignored(x, op)
    ensures op in T
  {
    if op.InsertOp? {
      assert Inserts(T, op.id);
      var o :| o in T && o.InsertOp? && o.id == op.id;
      assert o in B && o == op;
    } else {
      var o :| o in T && o.DeleteOp? && o.opId == op.opId;
      assert o in B && o == op;
    }
  }

  lemma NoOlderThanHeld(R: set<Op>, r: DocState, o: Op, op: Op)
    requires Describes(R, r) && o in R && o.IsMapOp() && op.IsMapOp() && o.key == op.key && !TimeLess(o.time, op.time)
    ensures Ignored(r, op)
  {
    var n :| n in R && WritesCell(n, op.key, r.lww[op.key]) && Newest(R, n);
    assert !TimeLess(n.time, o.time);
  }

  lemma CoveredWriteExplained(R: set<Op>, r: DocState, s: DocState, delta: seq<Op>, op: Op)
    requires Describes(R, r) && Describes(R + ToSet(delta), IntegrateAll(r, delta))
    requires IsDelta(s, r.vector, r.mapVector, delta)
    requires op.IsMapOp() && Ignored(IntegrateAll(r, delta), op)
    ensures Ignored(r, op) || SupersededInDelta(r, s, op)
  {
    var T, x := R + ToSet(delta), IntegrateAll(r, delta);
    var o :| o in T && WritesCell(o, op.key, x.lww[op.key]) && Newest(T, o);
    DeltaContents(s, r.vector, r.mapVector, delta, o);
    if o in R {
      NoOlderThanHeld(R, r, o, op);
    }
  }

  /** If a covered log entry is present after the delta, the receiver had it or the delta superseded it. */
  lemma CoveredEntryExplained(R: set<Op>, r: DocState, S: set<Op>, s: DocState, delta: seq<Op>, op: Op)
    requires Holds(R, r) && Holds(S, s) && UniquelyNamed(R + S)
    requires IsDelta(s, r.vector, r.mapVector, delta)
    requires op in s.opLog && Covered(op, r.vector, r.mapVector)
    requires Ignored(IntegrateAll(r, delta), op)
    ensures Ignored(r, op) || SupersededInDelta(r, s, op)
  {
    DeltaHolds(R, r, S, s, delta);
    if op.IsMapOp() {
      CoveredWriteExplained(R, r, s, delta, op);
    } else {
      AppliedNamesOp(R + ToSet(delta), R + S, IntegrateAll(r, delta), op);
      DeltaContents(s, r.vector, r.mapVector, delta, op);
      HeldIsIgnored(R, r, op);
    }
  }

  lemma HeldIsIgnored(S: set<Op>, s: DocState, op: Op)
    requires Describes(S, s) && op in S
    ensures Ignored(s, op)
  {
    match op
    case InsertOp(id, _, _) => assert Inserts(S, id);
    case DeleteOp(_, opId) => assert DeleteApplied(S, opId);
    case _ => var o :| o in S && WritesCell(o, op.key, s.lww[op.key]) && Newest(S, o);
  }

  /**
    Applying the sender's delta leaves the receiver with the same operations as merging the
    sender's whole log exactly when the receiver's vectors are honest; then both show the same.
   */
  lemma DeltaEqualsMerge(R: set<Op>, r: DocState, S: set<Op>, s: DocState, delta: seq<Op>)
    requires Holds(R, r) && Holds(S, s) && UniquelyNamed(R + S)
    requires IsDelta(s, r.vector, r.mapVector, delta)
    ensures SameOperations(IntegrateAll(r, delta), MergeDocs(r, s)) <==> VectorsHonest(r, s)
    ensures DocOk(IntegrateAll(r, delta)) && DocOk(MergeDocs(r, s))
    ensures VectorsHonest(r, s) ==> SameView(IntegrateAll(r, delta), MergeDocs(r, s))
  {
    var x, y := IntegrateAll(r, delta), MergeDocs(r, s);
    MergeHolds(R, r, S, s);
    DeltaHolds(R, r, S, s, delta);
    if VectorsHonest(r, s) {
      DescriptionUnique(R + S, x, y);
      SameDescriptionSameView(R + S, x, y);
    }
    if SameOperations(x, y) {
      forall op | op in s.opLog && Covered(op, r.vector, r.mapVector)
        ensures Ignored(r, op) || SupersededInDelta(r, s, op) {
        assert op in R + S;
        HeldIsIgnored(R + S, y, op);
        assert Ignored(x, op);
        CoveredEntryExplained(R, r, S, s, delta, op);
      }
    }
  }

  /**
    A gap defeats the vectors: a receiver that got an agent's second insert before the first
    reports both as seen, so the delta is empty and the first insert never arrives.
   */
  lemma GapLosesAnInsert()
    ensures var first, second := InsertOp(ItemId(1, 1), None, 'a'), InsertOp(ItemId(1, 2), None, 'b');
      var r, s := Integrate(NewDoc(9), second), Integrate(Integrate(NewDoc(1), first), second);
      && IsDelta(s, r.vector, r.mapVector, [])
      && ItemId(1, 1) !in IntegrateAll(r, []).appliedInserts
      && ItemId(1, 1) in MergeDocs(r, s).appliedInserts
  {
    var first, second := InsertOp(ItemId(1, 1), None, 'a'), InsertOp(ItemId(1, 2), None, 'b');
    var r, s := Integrate(NewDoc(9), second), Integrate(Integrate(NewDoc(1), first), second);
    assert r.vector == map[1 := 2];
    assert s.opLog == [first, second];
    assert s.opLog[1..] == [second] && s.opLog[1..][1..] == [];
    assert Uncovered([second], r.vector, r.mapVector) == [];
    assert Uncovered(s.opLog, r.vector, r.mapVector) == [];
    assert CompactsTo([], [], [], map[]);
    assert MergeDocs(r, s) == IntegrateAll(Integrate(r, first), [second]);
    assert [second][1..] == [];
    assert IntegrateAll(Integrate(r, first), [second]) == Integrate(Integrate(r, first), second);
  }
}
