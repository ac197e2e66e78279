/** Whole runs of the page table of ai/src/paged_attention.rs behave as runs of the recency map. */
module PageRuns {
  import opened Common
  import opened Recency
  import opened PagePool
  import opened Paging

  /** Refused operations report an error and change nothing. */
  predicate Refused(op: Op, pageSize: nat, capacity: nat) {
    match op
    case Map(slot) => slot >= capacity
    case Write(slot, data) => slot >= capacity || |data| != pageSize
    case _ => false
  }

  function Accepted(ops: seq<Op>, pageSize: nat, capacity: nat): seq<Op> {
    if ops == [] then []
    else
      var front, op := Accepted(ops[..|ops| - 1], pageSize, capacity), ops[|ops| - 1];
      if Refused(op, pageSize, capacity) then front else front + [op]
  }

  /** The recency map after the accepted operations. */
  function ViewAfter(v: Lru, ops: seq<Op>, pageSize: nat, capacity: nat, pool: nat): Lru {
    RunAll(v, Accepted(ops, pageSize, capacity), pool, Zeros(pageSize))
  }

  lemma OneMoreOp(v: Lru, ops: seq<Op>, op: Op, pageSize: nat, capacity: nat, pool: nat)
    ensures ViewAfter(v, ops + [op], pageSize, capacity, pool) ==
      if Refused(op, pageSize, capacity) then ViewAfter(v, ops, pageSize, capacity, pool)
      else Step(ViewAfter(v, ops, pageSize, capacity, pool), op, pool, Zeros(pageSize))
  {
    assert (ops + [op])[..|ops|] == ops;
    var front := Accepted(ops, pageSize, capacity);
    assert (front + [op])[..|front|] == front;
  }

  function Lookup(v: Lru, slot: nat): Option<Bytes> {
    if slot in v.contents then Some(v.contents[slot]) else None
  }

  /** What a read would return now. */
  function Answer(v: Lru, op: Op): Option<Bytes> {
    if op.Read? then Lookup(v, op.slot) else None
  }

  /** One operation on the table. */
  method Perform(t: PageTable, op: Op) returns (answer: Option<Bytes>)
    requires t.Valid() && t.clock < U64_MAX
    modifies t
    ensures t.Valid() && t.clock <= old(t.clock) + 2
    ensures t.view == if Refused(op, t.pageSize, t.capacity) then old(t.view)
      else Step(old(t.view), op, t.maxPhysical, Zeros(t.pageSize))
    ensures answer == Answer(old(t.view), op)
  {
    hide MemOk, Aged, Contents, Recency.MapSlot, Recency.WriteSlot, Drop;
    answer := None;
    match op
    case Map(slot) =>
      var r, k := t.MapSlot(slot);
    case Write(slot, data) =>
      var r, k := t.WriteSlot(slot, data);
    case Read(slot) =>
      var r := t.ReadSlot(slot);
      answer := if r.Ok? then Some(r.value) else None;
    case Unmap(slot) =>
      var r := t.UnmapSlot(slot);
  }

  /**
    Every run of operations, refused ones included, leaves the recency map after the accepted ones,
    and every read answers from the map as it was then. When all pages are mapped, an allocation
    therefore drops exactly the least recently used slot, each time.
   */
  method RunOps(t: PageTable, ops: seq<Op>) returns (answers: seq<Option<Bytes>>)
    requires t.Valid() && t.clock + 2 * |ops| < U64_MAX
    modifies t
    ensures t.Valid() && t.view == ViewAfter(old(t.view), ops, t.pageSize, t.capacity, t.maxPhysical)
    ensures |answers| == |ops|
    ensures forall i | 0 <= i < |ops| ::
      answers[i] == Answer(ViewAfter(old(t.view), ops[..i], t.pageSize, t.capacity, t.maxPhysical), ops[i])
  {
    hide MemOk, Aged, Contents, ViewAfter, Answer, Step;
    ghost var v := t.view;
    assert ops[..0] == [];
    NoOps(v, t.pageSize, t.capacity, t.maxPhysical);
    answers := [];
    for i := 0 to |ops|
      invariant t.Valid() && t.clock <= old(t.clock) + 2 * i
      invariant t.view == ViewAfter(v, ops[..i], t.pageSize, t.capacity, t.maxPhysical)
      invariant |answers| == i
      invariant forall j | 0 <= j < i ::
        answers[j] == Answer(ViewAfter(v, ops[..j], t.pageSize, t.capacity, t.maxPhysical), ops[j])
    {
      assert ops[..i + 1] == ops[..i] + [ops[i]];
      OneMoreOp(v, ops[..i], ops[i], t.pageSize, t.capacity, t.maxPhysical);
      var answer := Perform(t, ops[i]);
      answers := answers + [answer];
    }
    assert ops[..|ops|] == ops;
  }

  lemma NoOps(v: Lru, pageSize: nat, capacity: nat, pool: nat)
    ensures ViewAfter(v, [], pageSize, capacity, pool) == v
  {
  }

  /**
    So a read returns what was last written, however long ago, as long as fewer other slots than
    pages have been used since and the slot was not unmapped, remapped or written again.
   */
  lemma ReadReturnsLastWrite(v: Lru, slot: nat, data: Bytes, ops: seq<Op>, T: set<nat>, pageSize: nat, capacity: nat,
      pool: nat)
    requires LruOk(v, pool) && pool >= 1 && slot < capacity && |data| == pageSize
    requires LeavesAlone(ops, slot) && Used(ops) - {slot} <= T && |T| < pool
    ensures Answer(ViewAfter(v, [Write(slot, data)] + ops, pageSize, capacity, pool), Read(slot)) == Some(data)
  {
    var w := Step(v, Write(slot, data), pool, Zeros(pageSize));
    StepOk(v, Write(slot, data), pool, Zeros(pageSize));
    assert w.order[|w.order| - 1] == slot && w.contents[slot] == data;
    var kept := Accepted(ops, pageSize, capacity);
    AcceptedAreOps(ops, pageSize, capacity);
    RecentlyUsedIsRetained(w, kept, slot, T, pool, Zeros(pageSize));
    RunFrom(v, Write(slot, data), ops, pageSize, capacity, pool);
  }

  lemma {:induction false} AcceptedAreOps(ops: seq<Op>, pageSize: nat, capacity: nat)
    ensures forall op | op in Accepted(ops, pageSize, capacity) :: op in ops
  {
    if ops != [] { AcceptedAreOps(ops[..|ops| - 1], pageSize, capacity); }
  }

  lemma {:induction false} RunFrom(v: Lru, first: Op, ops: seq<Op>, pageSize: nat, capacity: nat, pool: nat)
    requires !Refused(first, pageSize, capacity)
    ensures ViewAfter(v, [first] + ops, pageSize, capacity, pool)
         == ViewAfter(Step(v, first, pool, Zeros(pageSize)), ops, pageSize, capacity, pool)
    decreases |ops|
  {
    if ops == [] {
      OneMoreOp(v, [], first, pageSize, capacity, pool);
      assert [first] + ops == [] + [first];
    } else {
      var front, op := ops[..|ops| - 1], ops[|ops| - 1];
      RunFrom(v, first, front, pageSize, capacity, pool);
      assert [first] + ops == ([first] + front) + [op] && ops == front + [op];
      OneMoreOp(v, [first] + front, op, pageSize, capacity, pool);
      OneMoreOp(Step(v, first, pool, Zeros(pageSize)), front, op, pageSize, capacity, pool);
    }
  }
}
