/** The page table and the token window of ai/src/paged_attention.rs, memory backend. */
module Paging {
  import opened Common
  import opened Recency
  import opened PagePool

  datatype Error = Full | MissingPage(id: PageId) | BadSlot(slot: nat, capacity: nat) | InvalidPageSize

  // ---------- counting pages ----------

  function PageOf(m: Mem, slot: nat): PageId {
    if Mapped(m, slot) then m.table[slot].value else 0
  }

  function PagesOfSlots(m: Mem, order: seq<nat>): set<PageId> {
    set s | s in order :: PageOf(m, s)
  }

  lemma {:induction false} OnePageEach(m: Mem, order: seq<nat>)
    requires Distinct(order) && forall s | s in order :: Mapped(m, s)
    requires forall s: nat, t: nat | s < t && Mapped(m, s) && Mapped(m, t) :: m.table[s] != m.table[t]
    ensures |PagesOfSlots(m, order)| == |order|
  {
    if order != [] {
      var front, last := order[..|order| - 1], order[|order| - 1];
      assert forall s :: s in order <==> s in front || s == last;
      assert last !in front;
      OnePageEach(m, front);
      forall s | s in front ensures PageOf(m, s) != PageOf(m, last) {
        assert s < last || last < s;
      }
      assert PagesOfSlots(m, order) == PagesOfSlots(m, front) + {PageOf(m, last)};
    }
  }

  function Ids(ids: seq<PageId>): set<PageId> {
    set id | id in ids
  }

  lemma {:induction false} DistinctIds(ids: seq<PageId>)
    requires forall i, j | 0 <= i < j < |ids| :: ids[i] != ids[j]
    ensures |Ids(ids)| == |ids|
  {
    if ids != [] {
      var front, last := ids[..|ids| - 1], ids[|ids| - 1];
      DistinctIds(front);
      assert forall x :: x in ids <==> x in front || x == last;
      assert last !in front;
      assert Ids(ids) == Ids(front) + {last};
    }
  }

  lemma PagesPartition(m: Mem, order: seq<nat>)
    requires TableOk(m, order) && PoolOk(m, {})
    ensures m.pages.Keys == PagesOfSlots(m, order) + Ids(m.freeList)
    ensures PagesOfSlots(m, order) !! Ids(m.freeList)
  {
    forall id | id in m.pages && id !in m.freeList ensures id in PagesOfSlots(m, order) {
      var s :| 0 <= s < |m.table| && m.table[s] == Some(id);
      assert Mapped(m, s) && PageOf(m, s) == id;
    }
    forall s | s in order ensures PageOf(m, s) in m.pages && PageOf(m, s) !in m.freeList {
      assert Mapped(m, s);
    }
  }

  /** Pool pages are exactly the mapped ones plus the free ones. */
  lemma PagesAreMappedOrFree(m: Mem, order: seq<nat>, pageSize: nat, maxPhysical: nat)
    requires MemOk(m, order, {}, pageSize, maxPhysical)
    ensures |m.pages| == |order| + |m.freeList|
  {
    OnePageEach(m, order);
    DistinctIds(m.freeList);
    PagesPartition(m, order);
    assert |m.pages| == |m.pages.Keys|;
  }

  // ---------- eviction ----------

  /** The slot of a page with the least stamp; it is the recency order's first one until the clock saturates. */
  lemma VictimSlot(m: Mem, order: seq<nat>, victim: PageId) returns (slot: nat, k: nat)
    requires TableOk(m, order) && PoolOk(m, {}) && m.freeList == [] && victim in m.pages
    requires forall id | id in m.pages :: m.pages[victim].lastUsed <= m.pages[id].lastUsed
    ensures Mapped(m, slot) && m.table[slot] == Some(victim)
    ensures k < |order| && order[k] == slot
    ensures m.clock < U64_MAX && Aged(m, order) ==> k == 0
  {
    slot :| slot < |m.table| && m.table[slot] == Some(victim);
    assert Mapped(m, slot);
    k :| k < |order| && order[k] == slot;
    assert order[0] in order && Mapped(m, order[0]);
    if k > 0 && m.clock < U64_MAX && Aged(m, order) {
      OldestStamp(m, order, k);
    }
  }

  lemma OldestStamp(m: Mem, order: seq<nat>, k: nat)
    requires Ascending(m, order) && 0 < k < |order|
    ensures Stamp(m, order[0]) < Stamp(m, order[k])
  {
  }

  lemma EvictOk(m: Mem, order: seq<nat>, slot: nat, pageSize: nat, maxPhysical: nat)
    requires MemOk(m, order, {}, pageSize, maxPhysical) && Aged(m, order) && Mapped(m, slot)
    ensures var id := m.table[slot].value; var n := Wipe(Detach(m, slot), id);
      MemOk(n, Without(order, slot), {id}, pageSize, maxPhysical) && Aged(n, Without(order, slot))
      && Contents(n) == Contents(m) - {slot} && id in n.pages && n.pages[id].data == Zeros(pageSize)
  {
    DetachOk(m, order, slot, pageSize, maxPhysical);
    WipeOk(Detach(m, slot), Without(order, slot), m.table[slot].value, pageSize, maxPhysical);
  }

  class PageTable {
    const pageSize: nat
    const capacity: nat
    const maxPhysical: nat
    var table: seq<Option<PageId>>
    var pages: map<PageId, PhysicalPage>
    var freeList: seq<PageId>
    var nextPageId: U32
    var clock: U64
    /** Mapped slots, least recently used first. */
    ghost var order: seq<nat>
    /** What a caller sees: the recency map. */
    ghost var view: Lru

    function State(): Mem
      reads this
    {
      Mem(table, pages, freeList, nextPageId, clock)
    }

    ghost function View(): Lru
      reads this
    {
      Lru(order, Contents(State()))
    }

    /** The page bookkeeping is sound, but for pages in limbo between two steps. */
    ghost predicate Sound(limbo: set<PageId>)
      reads this
    {
      && pageSize >= 1 && maxPhysical >= 1 && |table| == capacity
      && MemOk(State(), order, limbo, pageSize, maxPhysical) && Aged(State(), order)
    }

    ghost predicate Valid()
      reads this
    {
      Sound({}) && view == View()
    }

    /** `new_memory`, for a pool whose page ids fit in u32; at least one page is always granted. */
    constructor (pageSize: nat, capacity: nat, maxPhysical: nat)
      requires pageSize >= 1 && maxPhysical <= 0x1_0000_0000
      ensures Valid() && view == Lru([], map[]) && clock == 0
      ensures this.pageSize == pageSize && this.capacity == capacity && this.maxPhysical == Max(maxPhysical, 1)
    {
      this.pageSize, this.capacity, this.maxPhysical := pageSize, capacity, Max(maxPhysical, 1);
      table := seq(capacity, _ => None);
      pages, freeList, nextPageId, clock, order, view := map[], [], 0, 0, [], Lru([], map[]);
    }

    method ReleasePage(id: PageId)
      modifies this
      ensures State() == Release(old(State()), id) && order == old(order)
    {
      if id in pages {
        pages := pages[id := pages[id].(inUse := false, data := Zeros(|pages[id].data|))];
      }
      if id !in freeList {
        freeList := freeList + [id];
      }
    }

    method TouchById(id: PageId)
      modifies this
      ensures State() == TouchPage(old(State()), id) && order == old(order)
    {
      clock := SatAdd(clock, 1);
      if id in pages {
        pages := pages[id := pages[id].(lastUsed := clock)];
      }
    }

    /** Some page with the least access stamp; which one, if several, is left open. */
    method LeastRecent() returns (victim: PageId)
      requires pages != map[]
      ensures victim in pages && forall id | id in pages :: pages[victim].lastUsed <= pages[id].lastUsed
    {
      victim :| victim in pages;
      var todo := pages.Keys;
      while todo != {}
        invariant todo <= pages.Keys && victim in pages
        invariant forall id | id in pages && id !in todo :: pages[victim].lastUsed <= pages[id].lastUsed
        decreases |todo|
      {
        var id :| id in todo;
        if pages[id].lastUsed < pages[victim].lastUsed {
          victim := id;
        }
        todo := todo - {id};
      }
    }

    /** Clears every slot that holds the page. */
    method DetachAll(id: PageId, ghost slot: nat)
      requires Mapped(State(), slot) && table[slot] == Some(id)
      requires forall s: nat, t: nat | s < t && Mapped(State(), s) && Mapped(State(), t) :: table[s] != table[t]
      modifies this`table
      ensures State() == Detach(old(State()), slot)
    {
      ghost var was := table;
      for i := 0 to |table|
        invariant |table| == |was|
        invariant forall j | 0 <= j < |was| :: table[j] == if j < i && was[j] == Some(id) then None else was[j]
      {
        if table[i] == Some(id) {
          table := table[i := None];
        }
      }
      assert forall j | 0 <= j < |was| && was[j] == Some(id) :: Mapped(old(State()), j) && j == slot;
      assert table == was[slot := None];
    }

    /** Clears a page and marks it used. */
    method WipePage(id: PageId)
      modifies this`pages
      ensures State() == Wipe(old(State()), id)
    {
      if id in pages {
        pages := pages[id := pages[id].(data := Zeros(|pages[id].data|), inUse := true)];
      }
    }

    method TakeFree() returns (id: PageId)
      requires freeList != []
      modifies this
      ensures id == old(freeList)[|old(freeList)| - 1] && State() == Wipe(PopFree(old(State())), id)
      ensures order == old(order)
    {
      id := freeList[|freeList| - 1];
      freeList := freeList[..|freeList| - 1];
      WipePage(id);
    }

    method TakeNew() returns (id: PageId)
      modifies this
      ensures id == old(nextPageId) && State() == Grow(old(State()), pageSize)
      ensures order == old(order)
    {
      id := nextPageId;
      nextPageId := Min(nextPageId + 1, U32_MAX);
      pages := pages[id := PhysicalPage(id, Zeros(pageSize), 0, true)];
    }

    /** The k-th least recently used slot gives its page up. */
    method Evict() returns (id: PageId, ghost k: nat)
      requires TableOk(State(), order) && PoolOk(State(), {}) && Aged(State(), order)
      requires freeList == [] && pages != map[]
      modifies this
      ensures k < |old(order)| && order == Without(old(order), old(order)[k])
      ensures old(Mapped(State(), order[k]) && table[order[k]] == Some(id))
      ensures State() == Wipe(Detach(old(State()), old(order)[k]), id)
      ensures old(clock) < U64_MAX ==> k == 0
    {
      id := LeastRecent();
      ghost var slot;
      slot, k := VictimSlot(State(), order, id);
      DetachAll(id, slot);
      WipePage(id);
      order := Without(order, slot);
    }

    /** With every page mapped, one slot gives its page up. */
    method TakeVictim() returns (id: PageId, ghost k: nat)
      requires Sound({}) && freeList == [] && |pages| == |order| == maxPhysical
      modifies this
      ensures Sound({id})
      ensures id in pages && pages[id].data == Zeros(pageSize) && clock == old(clock)
      ensures View() == MakeRoom(old(View()), maxPhysical, k) && k < maxPhysical
      ensures old(clock) < U64_MAX ==> k == 0
    {
      ghost var m, was := State(), order;
      id, k := Evict();
      EvictOk(m, was, was[k], pageSize, maxPhysical);
      assert State() == Wipe(Detach(m, was[k]), id);
    }

    /**
      `alloc_page`: a zeroed page that no slot holds. Slots lose a page only when every page is
      mapped, and then exactly one of them does.
     */
    method AllocPage() returns (id: PageId, ghost k: nat)
      requires Sound({})
      modifies this
      ensures Sound({id})
      ensures id in pages && pages[id].data == Zeros(pageSize) && clock == old(clock)
      ensures View() == MakeRoom(old(View()), maxPhysical, k)
      ensures |old(order)| == maxPhysical ==> k < maxPhysical
      ensures old(clock) < U64_MAX ==> k == 0
    {
      k := 0;
      ghost var m := State();
      PagesAreMappedOrFree(m, order, pageSize, maxPhysical);
      if freeList != [] {
        PopFreeOk(m, order, pageSize, maxPhysical);
        id := TakeFree();
      } else if |pages| < maxPhysical {
        GrowOk(m, order, pageSize, maxPhysical);
        id := TakeNew();
      } else {
        id, k := TakeVictim();
      }
    }

    /** Takes the slot's page, if any, back to the free list. */
    method FreeSlot(slot: nat)
      requires Sound({}) && slot < capacity
      modifies this
      ensures Sound({}) && View() == Drop(old(View()), slot) && !Mapped(State(), slot) && clock == old(clock)
    {
      hide MemOk, Aged, Contents, Release;
      ghost var m, was := State(), order;
      FreeSlotOk(m, was, slot, pageSize, maxPhysical);
      if table[slot].Some? {
        var id := table[slot].value;
        table := table[slot := None];
        ReleasePage(id);
      }
      order := Without(was, slot);
      assert State() == Freed(m, slot);
    }

    /** Maps the slot to a page in limbo and stamps it. */
    method Install(slot: nat, id: PageId)
      requires Sound({id}) && slot < capacity && !Mapped(State(), slot) && id in pages
      modifies this
      ensures Sound({}) && table[slot] == Some(id) && clock == SatAdd(old(clock), 1)
      ensures View() == Store(old(View()), slot, old(pages)[id].data)
    {
      ghost var n := State();
      TouchNew(n, order, slot, id, pageSize, maxPhysical);
      assert slot !in order;
      table := table[slot := Some(id)];
      if id in pages {
        pages := pages[id := pages[id].(inUse := true)];
      }
      assert State() == Attach(n, slot, id);
      order := order + [slot];
      TouchById(id);
    }

    /** Frees the slot's page, then allocates and installs one. */
    method Remap(slot: nat) returns (id: PageId, ghost k: nat)
      requires Sound({}) && slot < capacity
      modifies this
      ensures Sound({}) && table[slot] == Some(id) && clock == SatAdd(old(clock), 1)
      ensures View() == Recency.MapSlot(old(View()), slot, maxPhysical, k, Zeros(pageSize))
      ensures old(clock) < U64_MAX ==> k == 0
    {
      FreeSlot(slot);
      ghost var v := View();
      assert slot !in v.order;
      id, k := AllocPage();
      assert slot !in order;
      Install(slot, id);
    }

    /**
      `map_slot`: a zeroed page for the slot. Only when all pages are mapped to other slots does
      another slot lose its page, and until the clock saturates it is the least recently used one.
     */
    method MapSlot(slot: nat) returns (r: Result<PageId, Error>, ghost k: nat)
      requires Valid()
      modifies this
      ensures Valid()
      ensures slot >= capacity ==> r == Err(BadSlot(slot, capacity)) && State() == old(State()) && view == old(view)
      ensures slot < capacity ==>
        && r.Ok? && slot < |table| && table[slot] == Some(r.value)
        && view == Recency.MapSlot(old(view), slot, maxPhysical, k, Zeros(pageSize))
        && clock == SatAdd(old(clock), 1)
      ensures old(clock) < U64_MAX ==> k == 0
    {
      hide MemOk, Aged, Contents, Recency.MapSlot;
      if slot >= capacity {
        return Err(BadSlot(slot, capacity)), 0;
      }
      var id;
      id, k := Remap(slot);
      view := View();
      r := Ok(id);
    }

    /** Copies the bytes into a mapped slot's page. */
    method PutData(slot: nat, id: PageId, data: Bytes)
      requires Valid() && Mapped(State(), slot) && table[slot] == Some(id) && |data| == pageSize
      modifies this
      ensures Valid() && view == Store(old(view), slot, data) && clock == SatAdd(old(clock), 1)
    {
      hide MemOk, Aged, Contents;
      ghost var m := State();
      MappedMeansShown(m, order, slot, pageSize, maxPhysical);
      SetDataOk(m, order, slot, data, pageSize, maxPhysical);
      TouchSlot(SetData(m, id, data), order, slot, pageSize, maxPhysical);
      pages := pages[id := pages[id].(data := data)];
      assert State() == SetData(m, id, data);
      order := Without(order, slot) + [slot];
      TouchById(id);
      view := View();
    }

    /**
      `write_slot`: maps the slot first if it has no page, and then holds exactly the given bytes.
      The missing-page error is never reached.
     */
    method WriteSlot(slot: nat, data: Bytes) returns (r: Result<(), Error>, ghost k: nat)
      requires Valid()
      modifies this
      ensures Valid()
      ensures r == (if |data| != pageSize then Err(InvalidPageSize) else if slot >= capacity then
        Err(BadSlot(slot, capacity)) else Ok(()))
      ensures r.Err? ==> State() == old(State()) && view == old(view)
      ensures r.Ok? ==> view == Recency.WriteSlot(old(view), slot, maxPhysical, k, data)
      ensures r.Ok? ==> clock == SatAdd(old(clock), if slot in old(view).contents then 1 else 2)
      ensures old(clock) < U64_MAX ==> k == 0
    {
      hide MemOk, Aged, Contents, Recency.MapSlot, Store;
      k := 0;
      if |data| != pageSize {
        return Err(InvalidPageSize), 0;
      }
      ghost var v := view;
      MappedMeansShown(State(), order, slot, pageSize, maxPhysical);
      var id;
      if slot < |table| && table[slot].Some? {
        id := table[slot].value;
      } else {
        WriteMaps(v, slot, maxPhysical, Zeros(pageSize), data);
        var mapped;
        mapped, k := MapSlot(slot);
        if mapped.Err? {
          return Err(mapped.error), k;
        }
        id := mapped.value;
        MappedMeansShown(State(), order, slot, pageSize, maxPhysical);
      }
      if id !in pages {
        return Err(MissingPage(id)), k;
      }
      PutData(slot, id, data);
      r := Ok(());
    }

    /** `read_slot`: the bytes last written since the slot was mapped; the slot becomes the youngest. */
    method ReadSlot(slot: nat) returns (r: Result<Bytes, Error>)
      requires Valid()
      modifies this
      ensures Valid()
      ensures slot in old(view).contents ==>
        r == Ok(old(view).contents[slot]) && view == Touch(old(view), slot) && clock == SatAdd(old(clock), 1)
      ensures slot !in old(view).contents ==>
        r == Err(BadSlot(slot, capacity)) && view == old(view) && clock == old(clock)
    {
      hide MemOk, Aged, Contents;
      MappedMeansShown(State(), order, slot, pageSize, maxPhysical);
      if slot >= capacity {
        return Err(BadSlot(slot, capacity));
      }
      if table[slot].None? {
        return Err(BadSlot(slot, capacity));
      }
      var id := table[slot].value;
      if id !in pages {
        return Err(MissingPage(id));
      }
      TouchSlot(State(), order, slot, pageSize, maxPhysical);
      order := Without(order, slot) + [slot];
      TouchById(id);
      view := View();
      r := Ok(pages[id].data);
    }

    /** `unmap_slot`. */
    method UnmapSlot(slot: nat) returns (r: Result<(), Error>)
      requires Valid()
      modifies this
      ensures Valid()
      ensures r == if slot < capacity then Ok(()) else Err(BadSlot(slot, capacity))
      ensures view == Drop(old(view), slot) && clock == old(clock)
    {
      if slot >= capacity {
        ViewOk(this);
        DropAbsent(view, slot);
        return Err(BadSlot(slot, capacity));
      }
      FreeSlot(slot);
      view := View();
      r := Ok(());
    }
  }

  lemma DropAbsent(v: Lru, slot: nat)
    requires slot !in v.order && slot !in v.contents
    ensures Drop(v, slot) == v
  {
  }

  /** A slot shows in the view exactly when it has a page, and that page is in the pool. */
  lemma MappedMeansShown(m: Mem, order: seq<nat>, slot: nat, pageSize: nat, maxPhysical: nat)
    requires MemOk(m, order, {}, pageSize, maxPhysical)
    ensures slot in Contents(m) <==> Mapped(m, slot)
    ensures slot in order <==> Mapped(m, slot)
    ensures Mapped(m, slot) ==> m.table[slot].value in m.pages && Contents(m)[slot] == m.pages[m.table[slot].value].data
  {
  }

  /** Writing an unmapped slot is mapping it and then storing the bytes. */
  lemma WriteMaps(v: Lru, slot: nat, pool: nat, zeros: Bytes, data: Bytes)
    requires slot !in v.order && slot !in v.contents
    ensures forall k: nat ::
      Store(Recency.MapSlot(v, slot, pool, k, zeros), slot, data) == Recency.WriteSlot(v, slot, pool, k, data)
  {
    DropAbsent(v, slot);
    forall k: nat ensures Store(Recency.MapSlot(v, slot, pool, k, zeros), slot, data) ==
      Recency.WriteSlot(v, slot, pool, k, data) {
      StoreTwice(MakeRoom(v, pool, k), slot, zeros, data);
    }
  }

  lemma StoreTwice(v: Lru, slot: nat, a: Bytes, b: Bytes)
    ensures Store(Store(v, slot, a), slot, b) == Store(v, slot, b)
  {
    WithoutLast(Without(v.order, slot), slot);
  }

  function Freed(m: Mem, slot: nat): Mem
    requires slot < |m.table|
  {
    if m.table[slot].Some? then Release(Detach(m, slot), m.table[slot].value) else m
  }

  lemma FreeSlotOk(m: Mem, order: seq<nat>, slot: nat, pageSize: nat, maxPhysical: nat)
    requires MemOk(m, order, {}, pageSize, maxPhysical) && Aged(m, order) && slot < |m.table|
    ensures var n := Freed(m, slot); var r := Without(order, slot);
      MemOk(n, r, {}, pageSize, maxPhysical) && Aged(n, r) && Contents(n) == Contents(m) - {slot} && !Mapped(n, slot)
      && n.clock == m.clock && |n.table| == |m.table|
  {
    if Mapped(m, slot) {
      DetachOk(m, order, slot, pageSize, maxPhysical);
      ReleaseOk(Detach(m, slot), Without(order, slot), m.table[slot].value, pageSize, maxPhysical);
    } else {
      assert slot !in order && slot !in Contents(m);
    }
  }

  lemma SetDataContents(m: Mem, order: seq<nat>, slot: nat, data: Bytes)
    requires TableOk(m, order) && PoolOk(m, {}) && Mapped(m, slot)
    ensures var n := SetData(m, m.table[slot].value, data);
      Contents(n) == Contents(m)[slot := data] && forall s :: Stamp(n, s) == Stamp(m, s)
  {
    hide Distinct;
    var n := SetData(m, m.table[slot].value, data);
    assert forall s: nat :: Mapped(n, s) == Mapped(m, s);
    forall s: nat | Mapped(m, s) && s != slot ensures m.table[s] != m.table[slot] {
      assert s < slot || slot < s;
    }
  }

  lemma SetDataOk(m: Mem, order: seq<nat>, slot: nat, data: Bytes, pageSize: nat, maxPhysical: nat)
    requires MemOk(m, order, {}, pageSize, maxPhysical) && Aged(m, order) && Mapped(m, slot) && |data| == pageSize
    ensures var n := SetData(m, m.table[slot].value, data);
      MemOk(n, order, {}, pageSize, maxPhysical) && Aged(n, order) && Contents(n) == Contents(m)[slot := data]
  {
    var id := m.table[slot].value;
    var n := SetData(m, id, data);
    SetDataContents(m, order, slot, data);
    assert n.pages.Keys == m.pages.Keys;
    SameSize(n.pages, m.pages);
    SamePool(m, n, {});
    SameTable(m, n, order);
  }

  /** A touched slot becomes the youngest, and stamps keep ascending. */
  lemma TouchSlot(m: Mem, order: seq<nat>, slot: nat, pageSize: nat, maxPhysical: nat)
    requires MemOk(m, order, {}, pageSize, maxPhysical) && Aged(m, order) && Mapped(m, slot)
    ensures var n := TouchPage(m, m.table[slot].value); var r := Without(order, slot) + [slot];
      MemOk(n, r, {}, pageSize, maxPhysical) && Aged(n, r) && Contents(n) == Contents(m)
  {
    TouchOk(m, order, slot, pageSize, maxPhysical);
    if m.clock < U64_MAX { WithoutAscending(m, order, slot); }
    TouchAged(m, order, slot);
  }

  /** Attaching a page from limbo and touching it. */
  lemma TouchNew(m: Mem, order: seq<nat>, slot: nat, id: PageId, pageSize: nat, maxPhysical: nat)
    requires MemOk(m, order, {id}, pageSize, maxPhysical) && Aged(m, order) && slot < |m.table| && !Mapped(m, slot)
    ensures var n := TouchPage(Attach(m, slot, id), id); var r := order + [slot];
      MemOk(n, r, {}, pageSize, maxPhysical) && Aged(n, r) && Contents(n) == Contents(m)[slot := m.pages[id].data]
  {
    hide TableOk, PoolOk, PagesOk, Aged, Contents, TouchPage;
    MappedMeansListed(m, order, slot);
    AttachOk(m, order, slot, id, pageSize, maxPhysical);
    var n := Attach(m, slot, id);
    var r := order + [slot];
    WithoutLast(order, slot);
    AttachAged(m, order, slot, id);
    MappedMeansShown(n, r, slot, pageSize, maxPhysical);
    TouchOk(n, r, slot, pageSize, maxPhysical);
    TouchAged(n, r, slot);
  }

  lemma MappedMeansListed(m: Mem, order: seq<nat>, slot: nat)
    requires TableOk(m, order)
    ensures slot in order <==> Mapped(m, slot)
  {
  }

  lemma AttachAged(m: Mem, order: seq<nat>, slot: nat, id: PageId)
    requires Aged(m, order) && slot < |m.table| && slot !in order
    requires forall s | s in order :: Stamp(Attach(m, slot, id), s) == Stamp(m, s)
    ensures Aged(Attach(m, slot, id), order)
  {
    assert forall i | 0 <= i < |order| :: order[i] in order;
  }

  lemma {:induction false} WithoutLast(order: seq<nat>, slot: nat)
    requires slot !in order
    ensures Without(order + [slot], slot) == order
  {
    if order != [] {
      assert (order + [slot])[1..] == order[1..] + [slot];
      WithoutLast(order[1..], slot);
    }
  }

  /** The view of a valid table is a recency map within the pool. */
  lemma ViewOk(t: PageTable)
    requires t.Valid()
    ensures LruOk(t.view, t.maxPhysical) && forall s | s in t.view.contents :: s < t.capacity
  {
    var m := t.State();
    PagesAreMappedOrFree(m, t.order, t.pageSize, t.maxPhysical);
    assert forall s: nat | Mapped(m, s) :: s < |m.table| && m.table[s].value in m.pages;
  }
}
