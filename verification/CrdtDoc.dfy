/** The mutable document of consensus/src/crdt.rs, proved against the value-level operations. */
module CrdtDoc {
  import opened Common
  import opened CrdtState
  import opened CrdtWalk
  import opened CrdtSync
  import opened CrdtDelta

  class Doc {
    var items: map<ItemId, SeqItem>
    var children: map<Option<ItemId>, seq<ItemId>>
    var lww: map<string, LwwValue>
    var appliedInserts: set<ItemId>
    var appliedDeletes: set<ItemId>
    var pendingDeletes: set<ItemId>
    var opLog: seq<Op>
    var vector: map<nat, nat>
    var mapVector: map<nat, nat>
    var agent: nat
    var nextSeq: nat
    var nextWall: nat

    function State(): DocState
      reads this
    {
      DocState(items, children, lww, appliedInserts, appliedDeletes, pendingDeletes,
               opLog, vector, mapVector, agent, nextSeq, nextWall)
    }

    constructor (agent: nat)
      ensures State() == NewDoc(agent)
    {
      items, children, lww := map[], map[], map[];
      appliedInserts, appliedDeletes, pendingDeletes := {}, {}, {};
      opLog, vector, mapVector := [], map[], map[];
      this.agent, nextSeq, nextWall := agent, 1, 1;
    }

    method RecordId(id: ItemId)
      modifies this`vector, this`nextSeq
      ensures State() == NoteVector(old(State()), id)
    {
      var seen := if id.agent in vector then vector[id.agent] else 0;
      vector := vector[id.agent := if id.number > seen then id.number else seen];
      if id.agent == agent && id.number >= nextSeq {
        nextSeq := id.number + 1;
      }
    }

    method RecordMapTime(time: LogicalTime)
      modifies this`mapVector, this`nextWall
      ensures State() == NoteMapTime(old(State()), time)
    {
      if time.wall >= nextWall {
        nextWall := time.wall + 1;
      }
      var seen := if time.agent in mapVector then mapVector[time.agent] else 0;
      mapVector := mapVector[time.agent := if time.wall > seen then time.wall else seen];
    }

    method ApplyInsert(op: Op)
      requires op.InsertOp?
      modifies this
      ensures State() == Apply(old(State()), op)
    {
      var deleted := op.id in pendingDeletes;
      pendingDeletes := pendingDeletes - {op.id};
      items := items[op.id := SeqItem(op.id, op.parent, op.content, deleted)];
      children := children[op.parent := KidsIn(children, op.parent) + [op.id]];
      appliedInserts := appliedInserts + {op.id};
      RecordId(op.id);
    }

    method ApplyDelete(op: Op)
      requires op.DeleteOp?
      modifies this
      ensures State() == Apply(old(State()), op)
    {
      if op.target in items {
        items := items[op.target := items[op.target].(deleted := true)];
      } else {
        pendingDeletes := pendingDeletes + {op.target};
      }
      appliedDeletes := appliedDeletes + {op.opId};
      RecordId(op.opId);
    }

    method ApplyWrite(op: Op)
      requires op.IsMapOp()
      modifies this
      ensures State() == Apply(old(State()), op)
    {
      lww := lww[op.key := LwwValue(op.Written(), op.time)];
      RecordMapTime(op.time);
    }

    /** `integrate`. */
    method IntegrateOp(op: Op)
      modifies this
      ensures State() == Integrate(old(State()), op)
    {
      if Ignored(State(), op) {
        return;
      }
      match op {
        case InsertOp(_, _, _) => ApplyInsert(op);
        case DeleteOp(_, _) => ApplyDelete(op);
        case _ => ApplyWrite(op);
      }
      opLog := opLog + [op];
    }

    method ApplyDelta(ops: seq<Op>)
      modifies this
      ensures State() == IntegrateAll(old(State()), ops)
    {
      assert ops[0..] == ops;
      for i := 0 to |ops|
        invariant IntegrateAll(State(), ops[i..]) == IntegrateAll(old(State()), ops)
      {
        assert ops[i..][0] == ops[i] && ops[i..][1..] == ops[i + 1..];
        IntegrateOp(ops[i]);
      }
    }

    method Merge(remote: Doc)
      requires remote != this
      modifies this
      ensures State() == MergeDocs(old(State()), remote.State())
    {
      ApplyDelta(remote.opLog);
    }

    method DeltaSince(remoteVector: map<nat, nat>, remoteMapVector: map<nat, nat>) returns (delta: seq<Op>)
      ensures IsDelta(State(), remoteVector, remoteMapVector, delta)
    {
      delta := DeltaOps(opLog, remoteVector, remoteMapVector);
    }

    /** `insert_char`: the new item's parent is the visible item before the index, if there is one. */
    method InsertChar(visibleIndex: nat, content: char) returns (op: Op)
      requires DocOk(State())
      modifies this
      ensures op == InsertAt(old(State()), visibleIndex, content)
      ensures State() == Typed(old(State()), visibleIndex, content)
    {
      hide NoteVector;
      var parent := if visibleIndex == 0 then None else
        var ids := VisibleIds(State()); if visibleIndex - 1 < |ids| then Some(ids[visibleIndex - 1]) else None;
      var id := ItemId(agent, nextSeq);
      nextSeq := nextSeq + 1;
      op := InsertOp(id, parent, content);
      IntegrateOp(op);
    }

    /** `delete_char`: no operation when the index is past the end. */
    method DeleteChar(visibleIndex: nat) returns (op: Option<Op>)
      requires DocOk(State())
      modifies this
      ensures op == DeleteAt(old(State()), visibleIndex)
      ensures State() == Erased(old(State()), visibleIndex)
    {
      hide NoteVector;
      var ids := VisibleIds(State());
      if visibleIndex >= |ids| {
        return None;
      }
      var opId := ItemId(agent, nextSeq);
      nextSeq := nextSeq + 1;
      op := Some(DeleteOp(ids[visibleIndex], opId));
      IntegrateOp(op.value);
    }

    /** `map_set` and, without a value, `map_delete`. */
    method Write(key: string, value: Option<Bytes>) returns (op: Op)
      modifies this
      ensures op == LocalWrite(old(State()), key, value)
      ensures State() == Wrote(old(State()), key, value)
    {
      var time := LogicalTime(nextWall, agent);
      nextWall := nextWall + 1;
      op := if value.Some? then MapSetOp(key, value.value, time) else MapDeleteOp(key, time);
      IntegrateOp(op);
    }
  }

  function NextId(s: DocState): ItemId {
    ItemId(s.agent, s.nextSeq)
  }

  function AfterAlloc(s: DocState): DocState {
    s.(nextSeq := s.nextSeq + 1)
  }

  function AfterTick(s: DocState): DocState {
    s.(nextWall := s.nextWall + 1)
  }

  function ParentAt(s: DocState, visibleIndex: nat): Option<ItemId>
    requires DocOk(s)
  {
    if visibleIndex == 0 || visibleIndex > |VisibleIds(s)| then None else Some(VisibleIds(s)[visibleIndex - 1])
  }

  function InsertAt(s: DocState, visibleIndex: nat, content: char): Op
    requires DocOk(s)
  {
    InsertOp(NextId(s), ParentAt(s, visibleIndex), content)
  }

  /** The document after `insert_char`. */
  function Typed(s: DocState, visibleIndex: nat, content: char): DocState
    requires DocOk(s)
  {
    Integrate(AfterAlloc(s), InsertAt(s, visibleIndex, content))
  }

  function DeleteAt(s: DocState, visibleIndex: nat): Option<Op>
    requires DocOk(s)
  {
    if visibleIndex < |VisibleIds(s)| then Some(DeleteOp(VisibleIds(s)[visibleIndex], NextId(s))) else None
  }

  /** The document after `delete_char`. */
  function Erased(s: DocState, visibleIndex: nat): DocState
    requires DocOk(s)
  {
    var op := DeleteAt(s, visibleIndex);
    if op.Some? then Integrate(AfterAlloc(s), op.value) else s
  }

  /** The document after `map_set` or `map_delete`. */
  function Wrote(s: DocState, key: string, value: Option<Bytes>): DocState {
    Integrate(AfterTick(s), LocalWrite(s, key, value))
  }

  function LocalWrite(s: DocState, key: string, value: Option<Bytes>): Op {
    var time := LogicalTime(s.nextWall, s.agent);
    if value.Some? then MapSetOp(key, value.value, time) else MapDeleteOp(key, time)
  }

  // ---------- local operations are always new ----------

  /** The local counters are ahead of every id of this agent and every map write ever seen. */
  ghost predicate CountersAhead(S: set<Op>, s: DocState) {
    forall op | op in S ::
      match op
      case InsertOp(id, _, _) => id.agent == s.agent ==> id.number < s.nextSeq
      case DeleteOp(_, opId) => opId.agent == s.agent ==> opId.number < s.nextSeq
      case _ => op.time.wall < s.nextWall
  }

  lemma IntegrateKeepsCounters(S: set<Op>, s: DocState, op: Op)
    requires Describes(S, s) && UniquelyNamed(S + {op}) && CountersAhead(S, s)
    ensures CountersAhead(S + {op}, Integrate(s, op))
  {
    hide Linked, Newest, Raise, UniquelyNamed;
    if Ignored(s, op) {
      match op
      case InsertOp(id, _, _) =>
        assert Inserts(S, id);
        RepeatedInsert(S, op);
      case DeleteOp(_, opId) =>
        var o :| o in S && o.DeleteOp? && o.opId == opId;
      case _ =>
        var o :| o in S && WritesCell(o, op.key, s.lww[op.key]) && Newest(S, o);
    }
  }

  /** A local write is newer than every write seen, so it is named uniquely and takes effect. */
  lemma LocalWriteWins(S: set<Op>, s: DocState, key: string, value: Option<Bytes>)
    requires Describes(S, s) && UniquelyNamed(S) && CountersAhead(S, s)
    ensures UniquelyNamed(S + {LocalWrite(s, key, value)})
    ensures MapGet(Wrote(s, key, value), key) == value
  {
    hide Describes, UniquelyNamed;
    LocalWriteIsNew(S, s, key, value);
    LocalWriteShows(S, s, key, value);
  }

  lemma LocalWriteIsNew(S: set<Op>, s: DocState, key: string, value: Option<Bytes>)
    requires UniquelyNamed(S) && CountersAhead(S, s)
    ensures UniquelyNamed(S + {LocalWrite(s, key, value)})
  {
    var op := LocalWrite(s, key, value);
    assert forall o | o in S && o.IsMapOp() :: o.time != op.time;
  }

  lemma LocalWriteShows(S: set<Op>, s: DocState, key: string, value: Option<Bytes>)
    requires Describes(S, s) && CountersAhead(S, s)
    ensures MapGet(Wrote(s, key, value), key) == value
  {
    hide DeletesDescribed, ItemsDescribed, Newest, Linked;
    if key in s.lww {
      var o :| o in S && WritesCell(o, key, s.lww[key]) && Newest(S, o);
    }
  }

  /** A locally allocated id clashes with no operation seen before, so the operation is applied. */
  lemma LocalIdsAreNew(S: set<Op>, s: DocState, op: Op)
    requires Describes(S, s) && UniquelyNamed(S) && CountersAhead(S, s)
    requires (op.InsertOp? && op.id == NextId(s)) || (op.DeleteOp? && op.opId == NextId(s))
    ensures UniquelyNamed(S + {op}) && !Ignored(s, op)
  {
    if op.InsertOp? {
      assert op.id in s.appliedInserts <==> Inserts(S, op.id);
    } else {
      assert op.opId in s.appliedDeletes <==> DeleteApplied(S, op.opId);
    }
  }
}
