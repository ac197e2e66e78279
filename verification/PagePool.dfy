/** The state of the page table of ai/src/paged_attention.rs (memory backend) and its elementary changes. */
module PagePool {
  import opened Common
  import opened Recency

  type PageId = U32

  datatype PhysicalPage = PhysicalPage(id: PageId, data: Bytes, lastUsed: U64, inUse: bool)

  datatype Mem = Mem(
    table: seq<Option<PageId>>,
    pages: map<PageId, PhysicalPage>,
    freeList: seq<PageId>,
    nextPageId: U32,
    clock: U64)

  // ---------- invariants ----------

  predicate Mapped(m: Mem, slot: nat) {
    slot < |m.table| && m.table[slot].Some?
  }

  /** order lists exactly the mapped slots, and no two slots share a page. */
  ghost predicate TableOk(m: Mem, order: seq<nat>) {
    && Distinct(order)
    && (forall s: nat :: s in order <==> Mapped(m, s))
    && (forall s: nat, t: nat | s < t && Mapped(m, s) && Mapped(m, t) :: m.table[s] != m.table[t])
  }

  /** Every page is mapped, free or in limbo, and only one of these. */
  ghost predicate PoolOk(m: Mem, limbo: set<PageId>) {
    && (forall i, j | 0 <= i < j < |m.freeList| :: m.freeList[i] != m.freeList[j])
    && (forall id | id in m.freeList :: id in m.pages && id !in limbo)
    && limbo <= m.pages.Keys
    && (forall s: nat | Mapped(m, s) ::
      m.table[s].value in m.pages && m.table[s].value !in m.freeList && m.table[s].value !in limbo)
    && (forall id | id in m.pages && id !in m.freeList && id !in limbo :: Some(id) in m.table)
  }

  ghost predicate PagesOk(m: Mem, pageSize: nat, maxPhysical: nat) {
    && (forall id | id in m.pages :: m.pages[id].id == id && |m.pages[id].data| == pageSize && id < |m.pages|)
    && |m.pages| <= maxPhysical <= 0x1_0000_0000
    && m.nextPageId == Min(|m.pages|, U32_MAX)
  }

  ghost predicate MemOk(m: Mem, order: seq<nat>, limbo: set<PageId>, pageSize: nat, maxPhysical: nat) {
    TableOk(m, order) && PoolOk(m, limbo) && PagesOk(m, pageSize, maxPhysical)
  }

  function Stamp(m: Mem, slot: nat): U64 {
    if Mapped(m, slot) && m.table[slot].value in m.pages then m.pages[m.table[slot].value].lastUsed else 0
  }

  /** Until the clock saturates, access stamps ascend along the recency order. */
  ghost predicate Aged(m: Mem, order: seq<nat>) {
    m.clock < U64_MAX ==> (forall s | s in order :: Stamp(m, s) <= m.clock) && Ascending(m, order)
  }

  ghost predicate Ascending(m: Mem, order: seq<nat>) {
    forall i, j | 0 <= i < j < |order| :: Stamp(m, order[i]) < Stamp(m, order[j])
  }

  function Contents(m: Mem): map<nat, Bytes> {
    map s: nat | 0 <= s < |m.table| && Mapped(m, s) && m.table[s].value in m.pages :: m.pages[m.table[s].value].data
  }

  // ---------- elementary changes ----------

  /** `table[slot].take()`. */
  function Detach(m: Mem, slot: nat): Mem
    requires slot < |m.table|
  {
    m.(table := m.table[slot := None])
  }

  /** `release_page`. */
  function Release(m: Mem, id: PageId): Mem {
    m.(pages := if id in m.pages then m.pages[id := m.pages[id].(inUse := false, data := Zeros(|m.pages[id].data|))]
      else m.pages,
       freeList := if id in m.freeList then m.freeList else m.freeList + [id])
  }

  /** Clears a page and marks it used. */
  function Wipe(m: Mem, id: PageId): Mem {
    m.(pages := if id in m.pages then m.pages[id := m.pages[id].(inUse := true, data := Zeros(|m.pages[id].data|))]
      else m.pages)
  }

  function PopFree(m: Mem): Mem
    requires m.freeList != []
  {
    m.(freeList := m.freeList[..|m.freeList| - 1])
  }

  function Grow(m: Mem, pageSize: nat): Mem {
    m.(pages := m.pages[m.nextPageId := PhysicalPage(m.nextPageId, Zeros(pageSize), 0, true)],
       nextPageId := Min(m.nextPageId + 1, U32_MAX))
  }

  function Attach(m: Mem, slot: nat, id: PageId): Mem
    requires slot < |m.table|
  {
    m.(table := m.table[slot := Some(id)],
       pages := if id in m.pages then m.pages[id := m.pages[id].(inUse := true)] else m.pages)
  }

  /** `touch_by_id`. */
  function TouchPage(m: Mem, id: PageId): Mem {
    var c: U64 := SatAdd(m.clock, 1);
    m.(clock := c, pages := if id in m.pages then m.pages[id := m.pages[id].(lastUsed := c)] else m.pages)
  }

  function SetData(m: Mem, id: PageId, data: Bytes): Mem
    requires id in m.pages
  {
    m.(pages := m.pages[id := m.pages[id].(data := data)])
  }

  // ---------- what they keep ----------

  lemma {:induction false} WithoutAscending(m: Mem, order: seq<nat>, slot: nat)
    requires Ascending(m, order)
    ensures Ascending(m, Without(order, slot))
  {
    if order != [] {
      assert Ascending(m, order[1..]);
      WithoutAscending(m, order[1..], slot);
      var rest := Without(order[1..], slot);
      assert forall s | s in order[1..] :: Stamp(m, order[0]) < Stamp(m, s);
      AscendingCons(m, order[0], rest);
    }
  }

  lemma AscendingCons(m: Mem, s: nat, rest: seq<nat>)
    requires Ascending(m, rest) && forall x | x in rest :: Stamp(m, s) < Stamp(m, x)
    ensures Ascending(m, [s] + rest)
  {
    var r := [s] + rest;
    assert forall j | 1 <= j < |r| :: r[j] == rest[j - 1] && rest[j - 1] in rest;
  }

  lemma DetachTable(m: Mem, order: seq<nat>, slot: nat)
    requires TableOk(m, order) && Mapped(m, slot)
    ensures TableOk(Detach(m, slot), Without(order, slot))
  {
    var n := Detach(m, slot);
    WithoutDistinct(order, slot);
    assert forall s: nat :: Mapped(n, s) <==> Mapped(m, s) && s != slot;
    forall s: nat, t: nat | s < t && Mapped(n, s) && Mapped(n, t) ensures n.table[s] != n.table[t] {
      assert n.table[s] == m.table[s] && n.table[t] == m.table[t];
    }
  }

  lemma DetachContents(m: Mem, slot: nat)
    requires Mapped(m, slot)
    ensures Contents(Detach(m, slot)) == Contents(m) - {slot}
  {
    var n := Detach(m, slot);
    assert forall s: nat | s != slot :: Mapped(n, s) == Mapped(m, s) && (Mapped(m, s) ==> n.table[s] == m.table[s]);
  }

  lemma DetachPool(m: Mem, order: seq<nat>, slot: nat)
    requires TableOk(m, order) && PoolOk(m, {}) && Mapped(m, slot)
    ensures PoolOk(Detach(m, slot), {m.table[slot].value})
  {
    var n, id := Detach(m, slot), m.table[slot].value;
    forall s: nat | Mapped(n, s) ensures n.table[s] == m.table[s] && m.table[s] != Some(id) && Mapped(m, s) {
      assert s != slot && (s < slot || slot < s);
    }
    forall x | x in m.pages && x !in m.freeList && x != id ensures Some(x) in n.table {
      var s :| 0 <= s < |m.table| && m.table[s] == Some(x);
      assert n.table[s] == Some(x);
    }
  }

  lemma DetachAged(m: Mem, order: seq<nat>, slot: nat)
    requires slot < |m.table| && Aged(m, order)
    ensures Aged(Detach(m, slot), Without(order, slot))
  {
    hide Without;
    var r, n := Without(order, slot), Detach(m, slot);
    if m.clock < U64_MAX {
      WithoutAscending(m, order, slot);
      assert forall s | s in r :: Stamp(n, s) == Stamp(m, s);
      assert forall i | 0 <= i < |r| :: r[i] in r;
    }
  }

  lemma DetachOk(m: Mem, order: seq<nat>, slot: nat, pageSize: nat, maxPhysical: nat)
    requires MemOk(m, order, {}, pageSize, maxPhysical) && Mapped(m, slot)
    ensures MemOk(Detach(m, slot), Without(order, slot), {m.table[slot].value}, pageSize, maxPhysical)
    ensures Contents(Detach(m, slot)) == Contents(m) - {slot}
    ensures Aged(m, order) ==> Aged(Detach(m, slot), Without(order, slot))
  {
    hide TableOk, PoolOk, Contents, Aged;
    DetachTable(m, order, slot);
    DetachContents(m, slot);
    DetachPool(m, order, slot);
    if Aged(m, order) { DetachAged(m, order, slot); }
  }

  lemma SameTable(m: Mem, n: Mem, order: seq<nat>)
    requires TableOk(m, order) && n.table == m.table
    ensures TableOk(n, order)
  {
    assert forall s: nat :: Mapped(n, s) == Mapped(m, s);
  }

  /** Pages of n are as in m, except that id's may differ. */
  ghost predicate AgreeBut(m: Mem, n: Mem, id: PageId) {
    && n.table == m.table && n.clock == m.clock
    && (forall s: nat | Mapped(m, s) :: m.table[s].value in m.pages && m.table[s].value != id)
    && forall x | x in m.pages && x != id :: x in n.pages && n.pages[x] == m.pages[x]
  }

  lemma SameContents(m: Mem, n: Mem, id: PageId)
    requires AgreeBut(m, n, id)
    ensures Contents(n) == Contents(m)
  {
    assert forall s: nat :: Mapped(n, s) == Mapped(m, s);
  }

  lemma SameAge(m: Mem, n: Mem, order: seq<nat>, id: PageId)
    requires AgreeBut(m, n, id) && Aged(m, order)
    ensures Aged(n, order)
  {
    assert forall s: nat :: Stamp(n, s) == Stamp(m, s);
  }

  /** Changing pages in limbo, or freeing or claiming them, leaves the table's view alone. */
  lemma LimboUnseen(m: Mem, n: Mem, order: seq<nat>, id: PageId)
    requires TableOk(m, order) && AgreeBut(m, n, id)
    ensures TableOk(n, order) && Contents(n) == Contents(m)
    ensures Aged(m, order) ==> Aged(n, order)
  {
    SameTable(m, n, order);
    SameContents(m, n, id);
    if Aged(m, order) { SameAge(m, n, order, id); }
  }

  lemma ReleaseOk(m: Mem, order: seq<nat>, id: PageId, pageSize: nat, maxPhysical: nat)
    requires MemOk(m, order, {id}, pageSize, maxPhysical)
    ensures MemOk(Release(m, id), order, {}, pageSize, maxPhysical)
    ensures Contents(Release(m, id)) == Contents(m)
    ensures Aged(m, order) ==> Aged(Release(m, id), order)
    ensures Release(m, id).freeList == m.freeList + [id]
  {
    var n := Release(m, id);
    LimboUnseen(m, n, order, id);
    assert n.pages.Keys == m.pages.Keys;
    SameSize(n.pages, m.pages);
    assert forall x :: x in n.freeList <==> x in m.freeList || x == id;
  }

  lemma SameSize<K, V>(a: map<K, V>, b: map<K, V>)
    requires a.Keys == b.Keys
    ensures |a| == |b|
  {
    assert |a| == |a.Keys| && |b| == |b.Keys|;
  }

  lemma PopFreePool(m: Mem, id: PageId)
    requires PoolOk(m, {}) && m.freeList != [] && id == m.freeList[|m.freeList| - 1]
    ensures PoolOk(Wipe(PopFree(m), id), {id})
  {
    var n := Wipe(PopFree(m), id);
    assert id in m.freeList;
    assert forall x :: x in m.freeList <==> x in n.freeList || x == id by { assert m.freeList == n.freeList + [id]; }
    assert n.pages.Keys == m.pages.Keys;
    assert forall s: nat :: Mapped(n, s) == Mapped(m, s);
  }

  lemma PopFreeOk(m: Mem, order: seq<nat>, pageSize: nat, maxPhysical: nat)
    requires MemOk(m, order, {}, pageSize, maxPhysical) && m.freeList != []
    ensures var id := m.freeList[|m.freeList| - 1]; var n := Wipe(PopFree(m), id);
      MemOk(n, order, {id}, pageSize, maxPhysical) && Contents(n) == Contents(m) && (Aged(m, order) ==> Aged(n, order))
      && n.pages[id].data == Zeros(pageSize)
  {
    var id := m.freeList[|m.freeList| - 1];
    var n := Wipe(PopFree(m), id);
    assert id in m.freeList;
    PopFreePool(m, id);
    LimboUnseen(m, n, order, id);
    assert n.pages.Keys == m.pages.Keys;
    SameSize(n.pages, m.pages);
  }

  lemma GrowPool(m: Mem, pageSize: nat)
    requires PoolOk(m, {}) && m.nextPageId !in m.pages
    ensures PoolOk(Grow(m, pageSize), {m.nextPageId})
  {
    var n := Grow(m, pageSize);
    assert n.pages.Keys == m.pages.Keys + {m.nextPageId};
    assert forall s: nat :: Mapped(n, s) == Mapped(m, s);
  }

  lemma GrowPages(m: Mem, pageSize: nat, maxPhysical: nat)
    requires PagesOk(m, pageSize, maxPhysical) && |m.pages| < maxPhysical
    ensures m.nextPageId !in m.pages && PagesOk(Grow(m, pageSize), pageSize, maxPhysical)
  {
    var id, n := m.nextPageId, Grow(m, pageSize);
    assert id !in m.pages;
    assert n.pages.Keys == m.pages.Keys + {id};
    assert |n.pages| == |m.pages| + 1;
  }

  lemma GrowOk(m: Mem, order: seq<nat>, pageSize: nat, maxPhysical: nat)
    requires MemOk(m, order, {}, pageSize, maxPhysical) && |m.pages| < maxPhysical
    ensures var id := m.nextPageId; var n := Grow(m, pageSize);
      MemOk(n, order, {id}, pageSize, maxPhysical) && Contents(n) == Contents(m) && (Aged(m, order) ==> Aged(n, order))
      && n.pages[id].data == Zeros(pageSize)
  {
    GrowPages(m, pageSize, maxPhysical);
    GrowPool(m, pageSize);
    LimboUnseen(m, Grow(m, pageSize), order, m.nextPageId);
  }

  lemma WipeOk(m: Mem, order: seq<nat>, id: PageId, pageSize: nat, maxPhysical: nat)
    requires MemOk(m, order, {id}, pageSize, maxPhysical)
    ensures var n := Wipe(m, id);
      MemOk(n, order, {id}, pageSize, maxPhysical) && Contents(n) == Contents(m) && (Aged(m, order) ==> Aged(n, order))
      && n.pages[id].data == Zeros(pageSize)
  {
    var n := Wipe(m, id);
    LimboUnseen(m, n, order, id);
    assert n.pages.Keys == m.pages.Keys;
    SameSize(n.pages, m.pages);
  }

  lemma AttachTable(m: Mem, order: seq<nat>, slot: nat, id: PageId)
    requires TableOk(m, order) && PoolOk(m, {id}) && slot < |m.table| && !Mapped(m, slot)
    ensures TableOk(Attach(m, slot, id), order + [slot])
  {
    hide PoolOk, Contents, Stamp;
    var n := Attach(m, slot, id);
    OthersStay(m, slot, id);
    assert n.table[slot] == Some(id) && Mapped(n, slot);
    assert forall s: nat | Mapped(m, s) :: m.table[s] != Some(id) by { LimboIsUnmapped(m, id); }
    assert forall i | 0 <= i < |order| :: order[i] in order;
    assert slot !in order;
  }

  lemma LimboIsUnmapped(m: Mem, id: PageId)
    requires PoolOk(m, {id})
    ensures id in m.pages && forall s: nat | Mapped(m, s) :: m.table[s].value in m.pages && m.table[s].value != id
  {
  }

  /** Attaching a page changes one slot. */
  lemma OthersStay(m: Mem, slot: nat, id: PageId)
    requires slot < |m.table|
    ensures var n := Attach(m, slot, id);
      forall s: nat | s != slot :: Mapped(n, s) == Mapped(m, s) && (Mapped(m, s) ==> n.table[s] == m.table[s])
  {
  }

  lemma AttachShows(m: Mem, order: seq<nat>, slot: nat, id: PageId)
    requires TableOk(m, order) && PoolOk(m, {id}) && slot < |m.table| && !Mapped(m, slot)
    ensures id in m.pages && Contents(Attach(m, slot, id)) == Contents(m)[slot := m.pages[id].data]
    ensures forall s | s in order :: Stamp(Attach(m, slot, id), s) == Stamp(m, s)
  {
    hide PoolOk, TableOk, Contents, Stamp;
    LimboIsUnmapped(m, id);
    AttachContents(m, slot, id);
    forall s | s in order ensures Stamp(Attach(m, slot, id), s) == Stamp(m, s) {
      ListedIsMapped(m, order, s);
      SameStamp(m, slot, id, s);
    }
  }

  lemma AttachContents(m: Mem, slot: nat, id: PageId)
    requires slot < |m.table| && !Mapped(m, slot) && id in m.pages
    requires forall s: nat | Mapped(m, s) :: m.table[s].value in m.pages && m.table[s].value != id
    ensures Contents(Attach(m, slot, id)) == Contents(m)[slot := m.pages[id].data]
  {
    var n := Attach(m, slot, id);
    OthersStay(m, slot, id);
    assert Mapped(n, slot) && n.table[slot] == Some(id);
  }

  lemma SameStamp(m: Mem, slot: nat, id: PageId, s: nat)
    requires slot < |m.table| && !Mapped(m, slot) && Mapped(m, s) && m.table[s].value != id
    ensures Stamp(Attach(m, slot, id), s) == Stamp(m, s)
  {
  }

  lemma ListedIsMapped(m: Mem, order: seq<nat>, s: nat)
    requires TableOk(m, order) && s in order
    ensures Mapped(m, s)
  {
  }

  lemma AttachPool(m: Mem, slot: nat, id: PageId)
    requires PoolOk(m, {id}) && slot < |m.table| && !Mapped(m, slot)
    ensures PoolOk(Attach(m, slot, id), {})
  {
    var n := Attach(m, slot, id);
    assert n.pages.Keys == m.pages.Keys;
    assert n.table[slot] == Some(id);
    forall s: nat | Mapped(n, s) && s != slot ensures n.table[s] == m.table[s] && Mapped(m, s) {
    }
    forall x | x in m.pages && x !in m.freeList && x != id ensures Some(x) in n.table {
      var s :| 0 <= s < |m.table| && m.table[s] == Some(x);
      assert n.table[s] == Some(x);
    }
  }

  lemma AttachOk(m: Mem, order: seq<nat>, slot: nat, id: PageId, pageSize: nat, maxPhysical: nat)
    requires MemOk(m, order, {id}, pageSize, maxPhysical) && slot < |m.table| && !Mapped(m, slot)
    ensures var n := Attach(m, slot, id);
      MemOk(n, order + [slot], {}, pageSize, maxPhysical) && Contents(n) == Contents(m)[slot := m.pages[id].data]
      && n.clock == m.clock
      && forall s | s in order :: Stamp(n, s) == Stamp(m, s)
  {
    var n := Attach(m, slot, id);
    hide TableOk, PoolOk, Contents, Stamp;
    AttachTable(m, order, slot, id);
    AttachShows(m, order, slot, id);
    AttachPool(m, slot, id);
    assert n.pages.Keys == m.pages.Keys;
    SameSize(n.pages, m.pages);
  }

  lemma YoungestTable(m: Mem, order: seq<nat>, slot: nat)
    requires TableOk(m, order) && Mapped(m, slot)
    ensures TableOk(m, Without(order, slot) + [slot])
  {
    WithoutDistinct(order, slot);
    var rest := Without(order, slot);
    assert forall i | 0 <= i < |rest| :: rest[i] in rest;
  }

  /** Restamping pages or marking them used changes neither the table nor the pool. */
  lemma SamePool(m: Mem, n: Mem, limbo: set<PageId>)
    requires PoolOk(m, limbo) && n.table == m.table && n.freeList == m.freeList && n.pages.Keys == m.pages.Keys
    ensures PoolOk(n, limbo)
  {
    assert forall s: nat :: Mapped(n, s) == Mapped(m, s);
  }

  /** Touching a mapped page makes its slot the youngest. */
  lemma TouchOk(m: Mem, order: seq<nat>, slot: nat, pageSize: nat, maxPhysical: nat)
    requires MemOk(m, order, {}, pageSize, maxPhysical) && Mapped(m, slot)
    ensures var n := TouchPage(m, m.table[slot].value); var r := Without(order, slot) + [slot];
      MemOk(n, r, {}, pageSize, maxPhysical) && Contents(n) == Contents(m)
  {
    hide TableOk, PoolOk, Contents;
    var n := TouchPage(m, m.table[slot].value);
    assert n.pages.Keys == m.pages.Keys;
    SameSize(n.pages, m.pages);
    SamePool(m, n, {});
    YoungestTable(m, order, slot);
    SameTable(m, n, Without(order, slot) + [slot]);
    TouchShows(m, m.table[slot].value);
  }

  lemma TouchShows(m: Mem, id: PageId)
    ensures Contents(TouchPage(m, id)) == Contents(m)
  {
    var n := TouchPage(m, id);
    assert forall s: nat :: Mapped(n, s) == Mapped(m, s);
  }

  lemma TouchAged(m: Mem, order: seq<nat>, slot: nat)
    requires TableOk(m, order) && Mapped(m, slot) && m.table[slot].value in m.pages
    requires m.clock < U64_MAX ==> Aged(m, Without(order, slot))
    ensures Aged(TouchPage(m, m.table[slot].value), Without(order, slot) + [slot])
  {
    var n := TouchPage(m, m.table[slot].value);
    var rest := Without(order, slot);
    var r := rest + [slot];
    assert forall i | 0 <= i < |rest| :: rest[i] in rest;
    forall s | s in rest ensures Stamp(n, s) == Stamp(m, s) {
      assert Mapped(m, s) && s != slot;
    }
    assert Stamp(n, slot) == n.clock;
  }
}
