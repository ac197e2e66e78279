/**
  The document CRDT of consensus/src/crdt.rs as a value: an RGA sequence tree and a
  last-writer-wins map, changed only by integrating operations.
 */
module CrdtState {
  import opened Common

  datatype ItemId = ItemId(agent: nat, number: nat)

  /** Derived order: agent first. */
  predicate IdLess(a: ItemId, b: ItemId) {
    a.agent < b.agent || (a.agent == b.agent && a.number < b.number)
  }

  datatype LogicalTime = LogicalTime(wall: nat, agent: nat)

  /** Derived order: wall tick first. */
  predicate TimeLess(a: LogicalTime, b: LogicalTime) {
    a.wall < b.wall || (a.wall == b.wall && a.agent < b.agent)
  }

  datatype SeqItem = SeqItem(id: ItemId, parent: Option<ItemId>, content: char, deleted: bool)

  datatype Op =
    | InsertOp(id: ItemId, parent: Option<ItemId>, content: char)
    | DeleteOp(target: ItemId, opId: ItemId)
    | MapSetOp(key: string, value: Bytes, time: LogicalTime)
    | MapDeleteOp(key: string, time: LogicalTime)
  {
    predicate IsMapOp() {
      MapSetOp? || MapDeleteOp?
    }

    function Written(): Option<Bytes>
      requires IsMapOp()
    {
      if MapSetOp? then Some(value) else None
    }
  }

  datatype LwwValue = LwwValue(value: Option<Bytes>, time: LogicalTime)

  datatype DocState = DocState(
    items: map<ItemId, SeqItem>,
    children: map<Option<ItemId>, seq<ItemId>>,
    lww: map<string, LwwValue>,
    appliedInserts: set<ItemId>,
    appliedDeletes: set<ItemId>,
    pendingDeletes: set<ItemId>,
    opLog: seq<Op>,
    vector: map<nat, nat>,
    mapVector: map<nat, nat>,
    agent: nat,
    nextSeq: nat,
    nextWall: nat)

  function NewDoc(agent: nat): DocState {
    DocState(map[], map[], map[], {}, {}, {}, [], map[], map[], agent, 1, 1)
  }

  // ---------- integrate ----------

  function Seen(vector: map<nat, nat>, agent: nat): nat {
    if agent in vector then vector[agent] else 0
  }

  function Raise(vector: map<nat, nat>, agent: nat, n: nat): map<nat, nat> {
    vector[agent := Max(Seen(vector, agent), n)]
  }

  function Kids(s: DocState, parent: Option<ItemId>): seq<ItemId> {
    KidsIn(s.children, parent)
  }

  function NoteVector(s: DocState, id: ItemId): DocState {
    s.(vector := Raise(s.vector, id.agent, id.number),
       nextSeq := if id.agent == s.agent && id.number >= s.nextSeq then id.number + 1 else s.nextSeq)
  }

  function NoteMapTime(s: DocState, time: LogicalTime): DocState {
    s.(mapVector := Raise(s.mapVector, time.agent, time.wall),
       nextWall := if time.wall >= s.nextWall then time.wall + 1 else s.nextWall)
  }

  /** Already applied, or a map write no newer than the one held. */
  predicate Ignored(s: DocState, op: Op) {
    match op
    case InsertOp(id, _, _) => id in s.appliedInserts
    case DeleteOp(_, opId) => opId in s.appliedDeletes
    case _ => op.key in s.lww && !TimeLess(s.lww[op.key].time, op.time)
  }

  function Apply(s: DocState, op: Op): DocState {
    match op
    case InsertOp(id, parent, content) =>
      NoteVector(
        s.(items := s.items[id := SeqItem(id, parent, content, id in s.pendingDeletes)],
           children := s.children[parent := Kids(s, parent) + [id]],
           appliedInserts := s.appliedInserts + {id},
           pendingDeletes := s.pendingDeletes - {id}), id)
    case DeleteOp(target, opId) =>
      NoteVector(
        s.(items := if target in s.items then s.items[target := s.items[target].(deleted := true)] else s.items,
           pendingDeletes := if target in s.items then s.pendingDeletes else s.pendingDeletes + {target},
           appliedDeletes := s.appliedDeletes + {opId}), opId)
    case _ =>
      NoteMapTime(s.(lww := s.lww[op.key := LwwValue(op.Written(), op.time)]), op.time)
  }

  function Integrate(s: DocState, op: Op): DocState {
    if Ignored(s, op) then s else Apply(s, op).(opLog := s.opLog + [op])
  }

  function IntegrateAll(s: DocState, ops: seq<Op>): DocState
    decreases |ops|
  {
    if ops == [] then s else IntegrateAll(Integrate(s, ops[0]), ops[1..])
  }

  function MapGet(s: DocState, key: string): Option<Bytes> {
    if key in s.lww then s.lww[key].value else None
  }

  // ---------- what a set of operations describes ----------

  function ToSet(ops: seq<Op>): set<Op> {
    set op | op in ops
  }

  /** Insert ids, delete ids and (key, time) pairs each name one operation. */
  ghost predicate UniquelyNamed(S: set<Op>) {
    forall a, b | a in S && b in S ::
      && (a.InsertOp? && b.InsertOp? && a.id == b.id ==> a == b)
      && (a.DeleteOp? && b.DeleteOp? && a.opId == b.opId ==> a == b)
      && (a.IsMapOp() && b.IsMapOp() && a.key == b.key && a.time == b.time ==> a == b)
  }

  predicate Inserts(S: set<Op>, id: ItemId) {
    exists op | op in S :: op.InsertOp? && op.id == id
  }

  predicate Deletes(S: set<Op>, id: ItemId) {
    exists op | op in S :: op.DeleteOp? && op.target == id
  }

  predicate DeleteApplied(S: set<Op>, opId: ItemId) {
    exists op | op in S :: op.DeleteOp? && op.opId == opId
  }

  /** op is the newest write to its key in S. */
  predicate Newest(S: set<Op>, op: Op) {
    op.IsMapOp() && op in S && forall other | other in S :: other.IsMapOp() && other.key == op.key ==>
      !TimeLess(op.time, other.time)
  }

  ghost predicate ItemsDescribed(items: map<ItemId, SeqItem>, S: set<Op>) {
    && (forall id :: id in items <==> Inserts(S, id))
    && forall op | op in S && op.InsertOp? ::
         op.id in items && items[op.id] == SeqItem(op.id, op.parent, op.content, Deletes(S, op.id))
  }

  ghost predicate DeletesDescribed(applied: set<ItemId>, pending: set<ItemId>, S: set<Op>) {
    && (forall id :: id in applied <==> DeleteApplied(S, id))
    && (forall id :: id in pending <==> Deletes(S, id) && !Inserts(S, id))
  }

  ghost predicate MapDescribed(lww: map<string, LwwValue>, S: set<Op>) {
    && (forall op | op in S && op.IsMapOp() :: op.key in lww)
    && (forall key | key in lww :: exists op | op in S :: WritesCell(op, key, lww[key]) && Newest(S, op))
  }

  predicate WritesCell(op: Op, key: string, cell: LwwValue) {
    op.IsMapOp() && op.key == key && cell == LwwValue(op.Written(), op.time)
  }

  function KidsIn(children: map<Option<ItemId>, seq<ItemId>>, parent: Option<ItemId>): seq<ItemId> {
    if parent in children then children[parent] else []
  }

  ghost predicate NoDuplicates(ids: seq<ItemId>) {
    forall i, j | 0 <= i < j < |ids| :: ids[i] != ids[j]
  }

  /** Every id is filed under its parent and nowhere else, once. */
  ghost predicate Linked(items: map<ItemId, SeqItem>, children: map<Option<ItemId>, seq<ItemId>>) {
    && (forall id | id in items :: items[id].id == id)
    && (forall p, id :: id in KidsIn(children, p) <==> id in items && items[id].parent == p)
    && (forall p :: NoDuplicates(KidsIn(children, p)))
  }

  ghost predicate DocOk(s: DocState) {
    Linked(s.items, s.children) && s.appliedInserts == s.items.Keys
  }

  /** The state is the one that the set S of integrated operations describes. */
  ghost predicate Describes(S: set<Op>, s: DocState) {
    && DocOk(s)
    && ItemsDescribed(s.items, S)
    && DeletesDescribed(s.appliedDeletes, s.pendingDeletes, S)
    && MapDescribed(s.lww, S)
  }

  lemma NewDocDescribed(agent: nat)
    ensures Describes({}, NewDoc(agent)) && DocOk(NewDoc(agent))
  {
  }

  lemma LinkNewItem(items: map<ItemId, SeqItem>, children: map<Option<ItemId>, seq<ItemId>>, item: SeqItem)
    requires Linked(items, children) && item.id !in items
    ensures Linked(items[item.id := item], children[item.parent := KidsIn(children, item.parent) + [item.id]])
  {
    var k := KidsIn(children, item.parent);
    var items', children' := items[item.id := item], children[item.parent := k + [item.id]];
    forall p ensures KidsIn(children', p) == if p == item.parent then k + [item.id] else KidsIn(children, p) {
    }
    assert item.id !in k;
    forall p ensures NoDuplicates(KidsIn(children', p)) {
      assert NoDuplicates(KidsIn(children, p));
    }
    forall p, id ensures id in KidsIn(children', p) <==> id in items' && items'[id].parent == p {
      assert id in KidsIn(children, p) <==> id in items && items[id].parent == p;
    }
  }

  lemma LinkTombstone(items: map<ItemId, SeqItem>, children: map<Option<ItemId>, seq<ItemId>>, target: ItemId)
    requires Linked(items, children) && target in items
    ensures Linked(items[target := items[target].(deleted := true)], children)
  {
  }

  /** Linking survives every operation, whatever its ids and parents. */
  lemma IntegrateKeepsLinks(s: DocState, op: Op)
    requires DocOk(s)
    ensures DocOk(Integrate(s, op))
  {
    if !Ignored(s, op) {
      match op
      case InsertOp(id, parent, content) =>
        LinkNewItem(s.items, s.children, SeqItem(id, parent, content, id in s.pendingDeletes));
      case DeleteOp(target, _) =>
        if target in s.items {
          LinkTombstone(s.items, s.children, target);
        }
      case _ =>
    }
  }

  lemma GrowSets(S: set<Op>, op: Op)
    ensures forall id :: Inserts(S + {op}, id) <==> Inserts(S, id) || (op.InsertOp? && op.id == id)
    ensures forall id :: Deletes(S + {op}, id) <==> Deletes(S, id) || (op.DeleteOp? && op.target == id)
    ensures forall id :: DeleteApplied(S + {op}, id) <==> DeleteApplied(S, id) || (op.DeleteOp? && op.opId == id)
  {
    var T := S + {op};
    assert op in T;
    forall id ensures Inserts(T, id) <==> Inserts(S, id) || (op.InsertOp? && op.id == id) {
      if Inserts(S, id) {
        var o :| o in S && o.InsertOp? && o.id == id;
        assert o in T;
      }
    }
    forall id ensures Deletes(T, id) <==> Deletes(S, id) || (op.DeleteOp? && op.target == id) {
      if Deletes(S, id) {
        var o :| o in S && o.DeleteOp? && o.target == id;
        assert o in T;
      }
    }
    forall id ensures DeleteApplied(T, id) <==> DeleteApplied(S, id) || (op.DeleteOp? && op.opId == id) {
      if DeleteApplied(S, id) {
        var o :| o in S && o.DeleteOp? && o.opId == id;
        assert o in T;
      }
    }
  }

  lemma RepeatedInsert(S: set<Op>, op: Op)
    requires UniquelyNamed(S + {op}) && op.InsertOp? && Inserts(S, op.id)
    ensures S + {op} == S
  {
    var o :| o in S && o.InsertOp? && o.id == op.id;
    assert o in S + {op} && o == op;
  }

  lemma NewItemDescribed(S: set<Op>, items: map<ItemId, SeqItem>, op: Op)
    requires ItemsDescribed(items, S) && op.InsertOp? && op.id !in items
    ensures ItemsDescribed(items[op.id := SeqItem(op.id, op.parent, op.content, Deletes(S, op.id))], S + {op})
  {
    GrowSets(S, op);
    forall o | o in S && o.InsertOp? ensures o.id != op.id {
      assert Inserts(S, o.id);
    }
  }

  lemma InsertDescribed(S: set<Op>, s: DocState, op: Op)
    requires Describes(S, s) && UniquelyNamed(S + {op}) && op.InsertOp?
    ensures ItemsDescribed(Integrate(s, op).items, S + {op})
    ensures DeletesDescribed(Integrate(s, op).appliedDeletes, Integrate(s, op).pendingDeletes, S + {op})
  {
    assert op.id in s.items <==> Inserts(S, op.id);
    if Ignored(s, op) {
      RepeatedInsert(S, op);
    } else {
      NewItemDescribed(S, s.items, op);
      GrowSets(S, op);
    }
  }

  lemma DeleteDescribed(S: set<Op>, s: DocState, op: Op)
    requires Describes(S, s) && UniquelyNamed(S + {op}) && op.DeleteOp?
    ensures ItemsDescribed(Integrate(s, op).items, S + {op})
    ensures DeletesDescribed(Integrate(s, op).appliedDeletes, Integrate(s, op).pendingDeletes, S + {op})
  {
    hide Inserts, Linked, MapDescribed;
    GrowSets(S, op);
    if Ignored(s, op) {
      var o :| o in S && o.DeleteOp? && o.opId == op.opId;
      assert o in S + {op} && o == op;
      assert S + {op} == S;
    }
  }

  lemma WriteDescribed(S: set<Op>, s: DocState, op: Op)
    requires Describes(S, s) && UniquelyNamed(S + {op}) && op.IsMapOp()
    ensures MapDescribed(Integrate(s, op).lww, S + {op})
  {
    hide UniquelyNamed;
    var T, lww := S + {op}, Integrate(s, op).lww;
    assert op in T;
    forall key | key in lww ensures exists o | o in T :: WritesCell(o, key, lww[key]) && Newest(T, o) {
      if op.key == key && !Ignored(s, op) {
        if key in s.lww {
          var o :| o in S && WritesCell(o, key, s.lww[key]) && Newest(S, o);
        }
        assert WritesCell(op, key, lww[key]) && Newest(T, op);
      } else {
        var o :| o in S && WritesCell(o, key, s.lww[key]) && Newest(S, o);
        assert o in T && Newest(T, o);
      }
    }
  }

  lemma NonWriteKeepsMap(S: set<Op>, lww: map<string, LwwValue>, op: Op)
    requires MapDescribed(lww, S) && !op.IsMapOp()
    ensures MapDescribed(lww, S + {op})
  {
    forall key | key in lww ensures exists o | o in S + {op} :: WritesCell(o, key, lww[key]) && Newest(S + {op}, o) {
      var o :| o in S && WritesCell(o, key, lww[key]) && Newest(S, o);
      assert o in S + {op} && Newest(S + {op}, o);
    }
  }

  lemma ItemsDescribedMore(S: set<Op>, s: DocState, op: Op)
    requires Describes(S, s) && UniquelyNamed(S + {op})
    ensures ItemsDescribed(Integrate(s, op).items, S + {op})
    ensures DeletesDescribed(Integrate(s, op).appliedDeletes, Integrate(s, op).pendingDeletes, S + {op})
  {
    if op.InsertOp? {
      InsertDescribed(S, s, op);
    } else if op.DeleteOp? {
      DeleteDescribed(S, s, op);
    } else {
      GrowSets(S, op);
    }
  }

  lemma MapDescribedMore(S: set<Op>, s: DocState, op: Op)
    requires Describes(S, s) && UniquelyNamed(S + {op})
    ensures MapDescribed(Integrate(s, op).lww, S + {op})
  {
    if op.IsMapOp() {
      WriteDescribed(S, s, op);
    } else {
      NonWriteKeepsMap(S, s.lww, op);
      assert Integrate(s, op).lww == s.lww;
    }
  }

  /** Integrating an operation adds it to the described set, whether it was applied, held back or ignored. */
  lemma IntegrateDescribed(S: set<Op>, s: DocState, op: Op)
    requires Describes(S, s) && UniquelyNamed(S + {op})
    ensures Describes(S + {op}, Integrate(s, op))
  {
    IntegrateKeepsLinks(s, op);
    ItemsDescribedMore(S, s, op);
    MapDescribedMore(S, s, op);
  }

  lemma SubsetUniquelyNamed(S: set<Op>, T: set<Op>)
    requires S <= T && UniquelyNamed(T)
    ensures UniquelyNamed(S)
  {
  }

  lemma {:induction false} IntegrateAllDescribed(S: set<Op>, s: DocState, ops: seq<Op>)
    requires Describes(S, s) && UniquelyNamed(S + ToSet(ops))
    ensures Describes(S + ToSet(ops), IntegrateAll(s, ops))
    decreases |ops|
  {
    if ops == [] {
      assert S + ToSet(ops) == S;
    } else {
      assert ops == [ops[0]] + ops[1..];
      assert S + ToSet(ops) == (S + {ops[0]}) + ToSet(ops[1..]);
      SubsetUniquelyNamed(S + {ops[0]}, S + ToSet(ops));
      IntegrateDescribed(S, s, ops[0]);
      IntegrateAllDescribed(S + {ops[0]}, Integrate(s, ops[0]), ops[1..]);
    }
  }

  /** Operations left out of a set change nothing if a kept write to the same key is at least as new. */
  lemma AbsorbStaleWrites(A: set<Op>, B: set<Op>, s: DocState)
    requires Describes(A, s) && A <= B && UniquelyNamed(B)
    requires forall op | op in B && op !in A :: op.IsMapOp() && exists o | o in A ::
      o.IsMapOp() && o.key == op.key && !TimeLess(o.time, op.time)
    ensures Describes(B, s)
  {
    AbsorbedSequences(A, B, s);
    AbsorbedMap(A, B, s.lww);
  }

  lemma AbsorbedSequences(A: set<Op>, B: set<Op>, s: DocState)
    requires ItemsDescribed(s.items, A) && DeletesDescribed(s.appliedDeletes, s.pendingDeletes, A)
    requires A <= B && forall op | op in B && op !in A :: op.IsMapOp()
    ensures ItemsDescribed(s.items, B) && DeletesDescribed(s.appliedDeletes, s.pendingDeletes, B)
  {
    forall id ensures Inserts(B, id) <==> Inserts(A, id) {
    }
    forall id ensures Deletes(B, id) <==> Deletes(A, id) {
    }
    forall id ensures DeleteApplied(B, id) <==> DeleteApplied(A, id) {
    }
  }

  lemma AbsorbedMap(A: set<Op>, B: set<Op>, lww: map<string, LwwValue>)
    requires MapDescribed(lww, A) && A <= B
    requires forall op | op in B && op !in A && op.IsMapOp() ::
      exists o | o in A :: o.IsMapOp() && o.key == op.key && !TimeLess(o.time, op.time)
    ensures MapDescribed(lww, B)
  {
    forall key | key in lww ensures exists op | op in B :: WritesCell(op, key, lww[key]) && Newest(B, op) {
      var op :| op in A && WritesCell(op, key, lww[key]) && Newest(A, op);
      assert op in B && Newest(B, op);
    }
  }

  lemma SameItems(S: set<Op>, a: map<ItemId, SeqItem>, b: map<ItemId, SeqItem>)
    requires ItemsDescribed(a, S) && ItemsDescribed(b, S)
    ensures a == b
  {
    assert forall id :: id in a <==> id in b;
    forall id | id in a ensures a[id] == b[id] {
      assert Inserts(S, id);
      var op :| op in S && op.InsertOp? && op.id == id;
      assert a[op.id] == b[op.id];
    }
  }

  predicate WritesKey(S: set<Op>, key: string) {
    exists op | op in S :: op.IsMapOp() && op.key == key
  }

  lemma KeysWritten(S: set<Op>, lww: map<string, LwwValue>, key: string)
    requires MapDescribed(lww, S)
    ensures key in lww <==> WritesKey(S, key)
  {
    if key in lww {
      var x :| x in S && WritesCell(x, key, lww[key]) && Newest(S, x);
    }
  }

  lemma SameCell(S: set<Op>, a: map<string, LwwValue>, b: map<string, LwwValue>, key: string)
    requires MapDescribed(a, S) && MapDescribed(b, S) && UniquelyNamed(S) && key in a && key in b
    ensures a[key] == b[key]
  {
    var x :| x in S && WritesCell(x, key, a[key]) && Newest(S, x);
    var y :| y in S && WritesCell(y, key, b[key]) && Newest(S, y);
    assert !TimeLess(x.time, y.time) && !TimeLess(y.time, x.time);
  }

  lemma SameMap(S: set<Op>, a: map<string, LwwValue>, b: map<string, LwwValue>)
    requires MapDescribed(a, S) && MapDescribed(b, S) && UniquelyNamed(S)
    ensures a == b
  {
    forall key ensures (key in a <==> key in b) && (key in a ==> a[key] == b[key]) {
      KeysWritten(S, a, key);
      KeysWritten(S, b, key);
      if key in a {
        SameCell(S, a, b, key);
      }
    }
  }

  lemma KidsAreByParent(s: DocState, p: Option<ItemId>, id: ItemId)
    requires Linked(s.items, s.children)
    ensures id in Kids(s, p) <==> id in s.items && s.items[id].parent == p
  {
    assert Kids(s, p) == KidsIn(s.children, p);
  }

  /** Two states described by one set hold the same items, the same map and the same children of every parent. */
  lemma DescriptionUnique(S: set<Op>, s: DocState, t: DocState)
    requires Describes(S, s) && Describes(S, t) && UniquelyNamed(S)
    ensures s.items == t.items && s.lww == t.lww
    ensures s.appliedDeletes == t.appliedDeletes && s.pendingDeletes == t.pendingDeletes
    ensures forall p, id :: id in Kids(s, p) <==> id in Kids(t, p)
  {
    SameItems(S, s.items, t.items);
    SameMap(S, s.lww, t.lww);
    assert forall id :: id in s.appliedDeletes <==> id in t.appliedDeletes;
    assert forall id :: id in s.pendingDeletes <==> id in t.pendingDeletes;
    forall p, id ensures id in Kids(s, p) <==> id in Kids(t, p) {
      KidsAreByParent(s, p, id);
      KidsAreByParent(t, p, id);
    }
  }
}
