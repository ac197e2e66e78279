/** A bounded recency map: what the page table of ai/src/paged_attention.rs is meant to be. */
module Recency {
  import opened Common

  /** Mapped slots, least recently used first, and the bytes each one holds. */
  datatype Lru = Lru(order: seq<nat>, contents: map<nat, Bytes>)

  ghost predicate Distinct(order: seq<nat>) {
    forall i, j | 0 <= i < j < |order| :: order[i] != order[j]
  }

  ghost predicate LruOk(v: Lru, pool: nat) {
    && Distinct(v.order) && |v.order| <= pool
    && forall s :: s in v.order <==> s in v.contents
  }

  function Without(order: seq<nat>, slot: nat): (r: seq<nat>)
    ensures forall s :: s in r <==> s in order && s != slot
    ensures |r| <= |order|
    ensures slot !in order ==> r == order
  {
    if order == [] then []
    else if order[0] == slot then Without(order[1..], slot)
    else [order[0]] + Without(order[1..], slot)
  }

  lemma {:induction false} WithoutDistinct(order: seq<nat>, slot: nat)
    requires Distinct(order)
    ensures Distinct(Without(order, slot))
    ensures slot in order ==> |Without(order, slot)| == |order| - 1
  {
    if order != [] {
      var rest := Without(order[1..], slot);
      WithoutDistinct(order[1..], slot);
      assert forall i | 0 <= i < |rest| :: rest[i] in rest;
      assert order[0] !in order[1..];
    }
  }

  // ---------- the operations ----------

  function Drop(v: Lru, slot: nat): Lru {
    Lru(Without(v.order, slot), v.contents - {slot})
  }

  /** Marks a mapped slot as the most recently used. */
  function Touch(v: Lru, slot: nat): Lru {
    v.(order := Without(v.order, slot) + [slot])
  }

  function Store(v: Lru, slot: nat, data: Bytes): Lru {
    Lru(Without(v.order, slot) + [slot], v.contents[slot := data])
  }

  /** Makes room for one more slot; when every page is taken the k-th least recently used slot goes. */
  function MakeRoom(v: Lru, pool: nat, k: nat): Lru {
    if |v.order| < pool then v
    else if k < |v.order| then Drop(v, v.order[k])
    else v
  }

  /** Remapping frees the slot's own page first, so it never evicts. */
  function MapSlot(v: Lru, slot: nat, pool: nat, k: nat, zeros: Bytes): Lru {
    Store(MakeRoom(Drop(v, slot), pool, k), slot, zeros)
  }

  function WriteSlot(v: Lru, slot: nat, pool: nat, k: nat, data: Bytes): Lru {
    if slot in v.contents then Store(v, slot, data) else Store(MakeRoom(v, pool, k), slot, data)
  }

  lemma DropOk(v: Lru, slot: nat, pool: nat)
    requires LruOk(v, pool)
    ensures LruOk(Drop(v, slot), pool)
    ensures slot in v.order ==> LruOk(Drop(v, slot), pool - 1)
  {
    WithoutDistinct(v.order, slot);
  }

  lemma StoreOk(v: Lru, slot: nat, data: Bytes, pool: nat)
    requires LruOk(v, pool) && (slot in v.order || |v.order| < pool)
    ensures LruOk(Store(v, slot, data), pool)
  {
    WithoutDistinct(v.order, slot);
    var rest := Without(v.order, slot);
    assert forall i | 0 <= i < |rest| :: rest[i] in rest;
  }

  lemma MakeRoomOk(v: Lru, pool: nat, k: nat)
    requires LruOk(v, pool) && pool >= 1 && (|v.order| == pool ==> k < pool)
    ensures LruOk(MakeRoom(v, pool, k), pool) && |MakeRoom(v, pool, k).order| < pool
  {
    if |v.order| == pool { DropOk(v, v.order[k], pool); }
  }

  // ---------- runs ----------

  datatype Op = Map(slot: nat) | Write(slot: nat, data: Bytes) | Read(slot: nat) | Unmap(slot: nat)

  function Step(v: Lru, op: Op, pool: nat, zeros: Bytes): Lru {
    match op
    case Map(slot) => MapSlot(v, slot, pool, 0, zeros)
    case Write(slot, data) => WriteSlot(v, slot, pool, 0, data)
    case Read(slot) => if slot in v.contents then Touch(v, slot) else v
    case Unmap(slot) => Drop(v, slot)
  }

  function RunAll(v: Lru, ops: seq<Op>, pool: nat, zeros: Bytes): Lru
    decreases |ops|
  {
    if ops == [] then v else Step(RunAll(v, ops[..|ops| - 1], pool, zeros), ops[|ops| - 1], pool, zeros)
  }

  lemma StepOk(v: Lru, op: Op, pool: nat, zeros: Bytes)
    requires LruOk(v, pool) && pool >= 1
    ensures LruOk(Step(v, op, pool, zeros), pool)
  {
    match op {
      case Map(slot) =>
        DropOk(v, slot, pool);
        MakeRoomOk(Drop(v, slot), pool, 0);
        StoreOk(MakeRoom(Drop(v, slot), pool, 0), slot, zeros, pool);
      case Write(slot, data) =>
        if slot in v.contents {
          StoreOk(v, slot, data, pool);
        } else {
          MakeRoomOk(v, pool, 0);
          StoreOk(MakeRoom(v, pool, 0), slot, data, pool);
        }
      case Read(slot) =>
        if slot in v.contents {
          StoreOk(v, slot, v.contents[slot], pool);
          assert Touch(v, slot) == Store(v, slot, v.contents[slot]);
        }
      case Unmap(slot) => DropOk(v, slot, pool);
    }
  }

  /** Other slots used by a run. */
  function Used(ops: seq<Op>): set<nat> {
    set op | op in ops && !op.Unmap? :: op.slot
  }

  /** No operation names the slot, except to read it. */
  ghost predicate LeavesAlone(ops: seq<Op>, slot: nat) {
    forall op | op in ops :: op.slot == slot ==> op.Read?
  }

  // ---------- recently used slots are retained ----------

  /** Everything used more recently than `slot` is in T. */
  ghost predicate YoungerIn(order: seq<nat>, slot: nat, T: set<nat>) {
    forall i, j | 0 <= i < j < |order| && order[i] == slot :: order[j] in T
  }

  lemma {:induction false} YoungerWithout(order: seq<nat>, slot: nat, other: nat, T: set<nat>)
    requires YoungerIn(order, slot, T)
    ensures YoungerIn(Without(order, other), slot, T)
  {
    if order != [] {
      YoungerWithout(order[1..], slot, other, T);
      var rest := Without(order[1..], other);
      if order[0] == slot {
        forall j | 0 <= j < |rest| ensures rest[j] in T {
          assert rest[j] in rest;
          var k :| 0 <= k < |order[1..]| && order[1..][k] == rest[j];
          assert order[k + 1] == rest[j];
        }
      }
    }
  }

  lemma YoungerAppend(order: seq<nat>, slot: nat, x: nat, T: set<nat>)
    requires YoungerIn(order, slot, T) && x in T
    ensures YoungerIn(order + [x], slot, T)
  {
  }

  function Slots(order: seq<nat>): set<nat> {
    set s | s in order
  }

  lemma {:induction false} DistinctSize(order: seq<nat>)
    requires Distinct(order)
    ensures |Slots(order)| == |order|
  {
    if order != [] {
      var front, last := order[..|order| - 1], order[|order| - 1];
      DistinctSize(front);
      assert forall s :: s in order <==> s in front || s == last;
      assert last !in front;
      assert Slots(order) == Slots(front) + {last};
    }
  }

  /** A full page table whose oldest slot is `slot` has seen `pool` other slots since. */
  lemma OldestNeedsFullPool(order: seq<nat>, slot: nat, x: nat, T: set<nat>, pool: nat)
    requires Distinct(order) && |order| == pool >= 1 && order[0] == slot
    requires YoungerIn(order, slot, T) && x in T && x !in order
    ensures |T| >= pool
  {
    var younger := order[1..];
    DistinctSize(younger);
    assert forall j | 0 <= j < |younger| :: younger[j] == order[j + 1];
    assert x !in Slots(younger);
    SubsetSize(Slots(younger) + {x}, T);
  }

  /** Storing x in a table that must not lose `slot`. */
  lemma StoreKeeps(v: Lru, slot: nat, x: nat, data: Bytes, T: set<nat>, pool: nat)
    requires LruOk(v, pool) && pool >= 1 && slot in v.contents && x != slot && x !in v.contents
    requires YoungerIn(v.order, slot, T) && x in T && |T| < pool
    ensures var w := Store(MakeRoom(v, pool, 0), x, data);
      slot in w.contents && w.contents[slot] == v.contents[slot] && YoungerIn(w.order, slot, T)
  {
    if |v.order| == pool && v.order[0] == slot {
      OldestNeedsFullPool(v.order, slot, x, T, pool);
    } else {
      var room := MakeRoom(v, pool, 0);
      if |v.order| == pool { YoungerWithout(v.order, slot, v.order[0], T); }
      YoungerWithout(room.order, slot, x, T);
      YoungerAppend(Without(room.order, x), slot, x, T);
    }
  }

  lemma StepKeeps(v: Lru, op: Op, slot: nat, T: set<nat>, pool: nat, zeros: Bytes)
    requires LruOk(v, pool) && pool >= 1 && slot in v.contents
    requires op.slot == slot ==> op.Read?
    requires YoungerIn(v.order, slot, T) && |T| < pool
    requires !op.Unmap? && op.slot != slot ==> op.slot in T
    ensures var w := Step(v, op, pool, zeros);
      slot in w.contents && w.contents[slot] == v.contents[slot] && YoungerIn(w.order, slot, T)
  {
    match op {
      case Map(x) =>
        YoungerWithout(v.order, slot, x, T);
        DropOk(v, x, pool);
        StoreKeeps(Drop(v, x), slot, x, zeros, T, pool);
      case Write(x, data) =>
        if x in v.contents {
          YoungerWithout(v.order, slot, x, T);
          YoungerAppend(Without(v.order, x), slot, x, T);
        } else {
          StoreKeeps(v, slot, x, data, T, pool);
        }
      case Read(x) =>
        if x == slot {
          LatestHasNoneYounger(v.order, slot, T);
        } else if x in v.contents {
          YoungerWithout(v.order, slot, x, T);
          YoungerAppend(Without(v.order, x), slot, x, T);
        }
      case Unmap(x) => YoungerWithout(v.order, slot, x, T);
    }
  }

  lemma LatestHasNoneYounger(order: seq<nat>, slot: nat, T: set<nat>)
    ensures YoungerIn(Without(order, slot) + [slot], slot, T)
  {
    var rest := Without(order, slot);
    assert forall i | 0 <= i < |rest| :: rest[i] in rest;
  }

  /**
    A slot just used keeps its bytes for as long as fewer than `pool` other slots are used: over
    any run that does not unmap, remap or write it, a later read returns what was last written.
   */
  lemma {:induction false} RecentlyUsedIsRetained(v: Lru, ops: seq<Op>, slot: nat, T: set<nat>, pool: nat, zeros: Bytes)
    requires LruOk(v, pool) && pool >= 1 && slot in v.contents && v.order[|v.order| - 1] == slot
    requires LeavesAlone(ops, slot) && Used(ops) - {slot} <= T && |T| < pool
    ensures var w := RunAll(v, ops, pool, zeros);
      LruOk(w, pool) && slot in w.contents && w.contents[slot] == v.contents[slot] && YoungerIn(w.order, slot, T)
    decreases |ops|
  {
    if ops != [] {
      var front, op := ops[..|ops| - 1], ops[|ops| - 1];
      assert op in ops;
      RecentlyUsedIsRetained(v, front, slot, T, pool, zeros);
      StepOk(RunAll(v, front, pool, zeros), op, pool, zeros);
      StepKeeps(RunAll(v, front, pool, zeros), op, slot, T, pool, zeros);
    }
  }

  // ---------- appending is a sliding window ----------

  function Window(lo: nat, hi: nat): (w: seq<nat>)
    requires lo <= hi
    ensures |w| == hi - lo
    ensures forall s :: s in w <==> lo <= s < hi
  {
    if lo == hi then [] else Window(lo, hi - 1) + [hi - 1]
  }

  lemma {:induction false} WindowTail(lo: nat, hi: nat)
    requires lo < hi
    ensures Window(lo, hi)[0] == lo && Window(lo, hi)[1..] == Window(lo + 1, hi)
    decreases hi
  {
    if lo + 1 < hi { WindowTail(lo, hi - 1); }
  }

  function Appends(data: seq<Bytes>): seq<Op> {
    seq(|data|, i requires 0 <= i < |data| => Write(i, data[i]))
  }

  lemma {:induction false} WithoutHead(order: seq<nat>)
    requires Distinct(order) && order != []
    ensures Without(order, order[0]) == order[1..]
  {
    assert order[0] !in order[1..];
  }

  /** One more append is one more write. */
  lemma RunAppends(v: Lru, data: seq<Bytes>, kv: Bytes, pool: nat, zeros: Bytes)
    ensures RunAll(v, Appends(data + [kv]), pool, zeros) ==
      WriteSlot(RunAll(v, Appends(data), pool, zeros), |data|, pool, 0, kv)
  {
    var ops := Appends(data + [kv]);
    assert ops[..|ops| - 1] == Appends(data);
    assert ops[|ops| - 1] == Write(|data|, kv);
  }

  /** The recency map after appending: exactly the last `pool` slots. */
  ghost predicate IsWindow(w: Lru, data: seq<Bytes>, pool: nat) {
    var lo := SatSub(|data|, pool);
    && LruOk(w, pool) && w.order == Window(lo, |data|)
    && forall i | lo <= i < |data| :: i in w.contents && w.contents[i] == data[i]
  }

  lemma SlideRoom(v: Lru, data: seq<Bytes>, n: nat, pool: nat)
    requires pool >= 1 && n <= |data| && IsWindow(v, data[..n], pool)
    ensures var room := MakeRoom(v, pool, 0); var lo := SatSub(n + 1, pool);
      LruOk(room, pool) && |room.order| < pool && room.order == Window(lo, n)
      && forall i | lo <= i < n :: i in room.contents && room.contents[i] == data[i]
  {
    hide LruOk, Without, Window;
    MakeRoomOk(v, pool, 0);
    if n >= pool {
      WithoutHead(v.order) by { LruDistinct(v, pool); }
      WindowTail(n - pool, n);
    }
  }

  lemma LruDistinct(v: Lru, pool: nat)
    requires LruOk(v, pool)
    ensures Distinct(v.order) && forall s :: s in v.order <==> s in v.contents
  {
  }

  lemma AppendOne(v: Lru, data: seq<Bytes>, n: nat, pool: nat)
    requires pool >= 1 && n + 1 == |data| && IsWindow(v, data[..n], pool)
    ensures IsWindow(WriteSlot(v, n, pool, 0, data[n]), data, pool)
  {
    hide LruOk, Without, Window, MakeRoom;
    var lo := SatSub(n + 1, pool);
    LruDistinct(v, pool);
    SlideRoom(v, data, n, pool);
    var room := MakeRoom(v, pool, 0);
    StoreOk(room, n, data[n], pool);
    var w := Store(room, n, data[n]);
    assert WriteSlot(v, n, pool, 0, data[n]) == w;
    WindowSnoc(lo, n);
    assert w.order == Window(lo, n) + [n];
  }

  lemma WindowSnoc(lo: nat, hi: nat)
    requires lo <= hi
    ensures Window(lo, hi + 1) == Window(lo, hi) + [hi]
  {
  }

  lemma NothingAppended(pool: nat, zeros: Bytes)
    ensures IsWindow(RunAll(Lru([], map[]), Appends([]), pool, zeros), [], pool)
  {
    assert Appends([]) == [];
  }

  /** Writing slots 0, 1, 2, ... keeps exactly the last `pool` of them. */
  lemma {:induction false} AppendsSlide(data: seq<Bytes>, pool: nat, zeros: Bytes)
    requires pool >= 1
    ensures IsWindow(RunAll(Lru([], map[]), Appends(data), pool, zeros), data, pool)
    decreases |data|
  {
    hide IsWindow, WriteSlot, RunAll, Appends;
    if data == [] {
      NothingAppended(pool, zeros);
    } else {
      var n := |data| - 1;
      AppendsSlide(data[..n], pool, zeros);
      RunAppends(Lru([], map[]), data[..n], data[n], pool, zeros);
      assert data[..n] + [data[n]] == data;
      AppendOne(RunAll(Lru([], map[]), Appends(data[..n]), pool, zeros), data, n, pool);
    }
  }
}
