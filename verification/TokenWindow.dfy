/** The token window of ai/src/paged_attention.rs: one token per page. */
module TokenWindow {
  import opened Common
  import opened Recency
  import opened PagePool
  import opened Paging

  /** The bytes of tokens start to end, one after the other. */
  function Joined(tokens: seq<Bytes>, start: nat, end: nat): Bytes
    requires start <= end <= |tokens|
    decreases end
  {
    if start == end then [] else Joined(tokens, start, end - 1) + tokens[end - 1]
  }

  /** Every slot from start to end is still mapped. */
  predicate AllIn(c: map<nat, Bytes>, start: nat, end: nat)
    requires start <= end
    decreases end
  {
    start == end || (AllIn(c, start, end - 1) && end - 1 in c)
  }

  lemma {:induction false} AllInMeans(c: map<nat, Bytes>, start: nat, end: nat)
    requires start <= end
    ensures AllIn(c, start, end) <==> forall s: nat | start <= s < end :: s in c
    decreases end
  {
    if start < end { AllInMeans(c, start, end - 1); }
  }

  /** The first slot from start to end that is no longer mapped; end when all are. */
  function FirstGone(c: map<nat, Bytes>, start: nat, end: nat): (stop: nat)
    requires start <= end
    ensures start <= stop <= end
    ensures forall s: nat | start <= s < stop :: s in c
    ensures stop < end ==> stop !in c
    decreases end - start
  {
    if start == end || start !in c then start else FirstGone(c, start + 1, end)
  }

  lemma GoneAt(c: map<nat, Bytes>, start: nat, i: nat, end: nat)
    requires start <= i <= end && AllIn(c, start, i) && (i == end || i !in c)
    ensures FirstGone(c, start, end) == i && (AllIn(c, start, end) <==> i == end)
  {
    AllInMeans(c, start, i);
    AllInMeans(c, start, end);
  }

  function Reads(start: nat, end: nat): seq<Op>
    requires start <= end
  {
    seq(end - start, i requires 0 <= i < end - start => Read(start + i))
  }

  /** The recency map after reading slots start to end, none of them gone. */
  function AfterReads(v: Lru, start: nat, end: nat, pool: nat, zeros: Bytes): Lru
    requires start <= end
  {
    RunAll(v, Reads(start, end), pool, zeros)
  }

  lemma OneMoreRead(v: Lru, start: nat, end: nat, pool: nat, zeros: Bytes)
    requires start <= end
    ensures AfterReads(v, start, start, pool, zeros) == v
    ensures AfterReads(v, start, end + 1, pool, zeros) ==
      Step(AfterReads(v, start, end, pool, zeros), Read(end), pool, zeros)
  {
    var ops := Reads(start, end + 1);
    assert ops[..|ops| - 1] == Reads(start, end);
  }

  /** Mapped slots are appended tokens, and hold their bytes. */
  ghost predicate HoldsTokens(c: map<nat, Bytes>, tokens: seq<Bytes>) {
    forall s | s in c :: s < |tokens| && c[s] == tokens[s]
  }

  /** With a page for every token, no token is ever lost. */
  ghost predicate NothingLost(c: map<nat, Bytes>, tokens: seq<Bytes>) {
    forall s: nat | s < |tokens| :: s in c
  }

  lemma JoinedNext(ts: seq<Bytes>, start: nat, i: nat, out: Bytes, c: map<nat, Bytes>, page: Bytes)
    requires start <= i < |ts| && HoldsTokens(c, ts) && i in c && page == c[i] && out == Joined(ts, start, i)
    ensures out + page == Joined(ts, start, i + 1)
  {
  }

  class PagedAttention {
    const table: PageTable
    const tokenBytes: nat
    const maxTokens: nat
    var nextToken: nat
    /** The tokens appended since the last clear. */
    ghost var tokens: seq<Bytes>

    ghost predicate Valid()
      reads this, table
    {
      && table.Valid() && table.pageSize == tokenBytes && table.capacity == maxTokens
      && nextToken == |tokens| <= maxTokens
      && HoldsTokens(table.view.contents, tokens)
      && (table.maxPhysical >= maxTokens ==> NothingLost(table.view.contents, tokens))
    }

    constructor (tokenBytes: nat, maxTokens: nat, maxPhysical: nat)
      requires tokenBytes >= 1 && maxPhysical <= 0x1_0000_0000
      ensures Valid() && fresh(table) && tokens == [] && table.view == Lru([], map[]) && table.clock == 0
      ensures this.tokenBytes == tokenBytes && this.maxTokens == maxTokens && table.maxPhysical == Max(maxPhysical, 1)
    {
      this.tokenBytes, this.maxTokens, nextToken, tokens := tokenBytes, maxTokens, 0, [];
      table := new PageTable(tokenBytes, maxTokens, maxPhysical);
    }

    /** `append_token`: what the token evicts, if anything, is what the recency map says. */
    method AppendToken(kv: Bytes) returns (r: Result<nat, Error>, ghost k: nat)
      requires Valid()
      modifies this, table
      ensures Valid()
      ensures r == (if |kv| != tokenBytes then Err(InvalidPageSize) else if |old(tokens)| >= maxTokens then Err(Full)
        else Ok(|old(tokens)|))
      ensures tokens == if r.Ok? then old(tokens) + [kv] else old(tokens)
      ensures table.view == if r.Ok? then Recency.WriteSlot(old(table.view), |old(tokens)|, table.maxPhysical, k, kv)
        else old(table.view)
      ensures table.clock == if r.Ok? then SatAdd(old(table.clock), 2) else old(table.clock)
      ensures old(table.clock) < U64_MAX ==> k == 0
    {
      hide MemOk, Aged, Contents, Recency.WriteSlot;
      if |kv| != tokenBytes {
        return Err(InvalidPageSize), 0;
      }
      if nextToken >= maxTokens {
        return Err(Full), 0;
      }
      var idx := nextToken;
      ghost var v := table.view;
      ViewOk(table);
      assert idx !in v.contents;
      var w;
      w, k := table.WriteSlot(idx, kv);
      if w.Err? {
        return Err(Full), k;
      }
      AppendHolds(v, tokens, kv, table.maxPhysical, maxTokens, k);
      nextToken := nextToken + 1;
      tokens := tokens + [kv];
      r := Ok(idx);
    }

    /**
      `gather`: succeeds exactly when every token asked for is still mapped, and then returns their
      bytes one after the other; the tokens up to the first one gone become the youngest.
     */
    method Gather(start: nat, end: nat) returns (r: Result<Bytes, Error>)
      requires Valid()
      modifies table
      ensures Valid() && table.view.contents == old(table.view.contents)
      ensures r.Ok? <==> start <= end <= |tokens| && forall s: nat | start <= s < end :: s in old(table.view.contents)
      ensures r.Ok? ==> r.value == Joined(tokens, start, end)
      ensures table.maxPhysical >= maxTokens && start <= end <= |tokens| ==> r.Ok?
      ensures table.view == if !(start <= end <= |tokens|) then old(table.view)
        else AfterReads(old(table.view), start, FirstGone(old(table.view).contents, start, end), table.maxPhysical,
          Zeros(tokenBytes))
      ensures old(table.clock) <= table.clock <= SatAdd(old(table.clock), if start <= end then end - start else 0)
    {
      hide MemOk, Aged, Contents;
      if end > nextToken || start > end {
        return Err(BadSlot(end, nextToken));
      }
      assert HoldsTokens(table.view.contents, tokens);
      AllInMeans(table.view.contents, start, end);
      r := ReadTokens(start, end, table.view.contents, tokens);
    }

    /** The loop of `gather`. */
    method ReadTokens(start: nat, end: nat, ghost c: map<nat, Bytes>, ghost ts: seq<Bytes>)
        returns (r: Result<Bytes, Error>)
      requires table.Valid() && table.view.contents == c && HoldsTokens(c, ts) && start <= end <= |ts|
      modifies table
      ensures table.Valid() && table.view.contents == c
      ensures r.Ok? <==> AllIn(c, start, end)
      ensures r.Ok? ==> r.value == Joined(ts, start, end)
      ensures table.view ==
        AfterReads(old(table.view), start, FirstGone(c, start, end), table.maxPhysical, Zeros(tokenBytes))
      ensures old(table.clock) <= table.clock <= SatAdd(old(table.clock), end - start)
    {
      hide MemOk, Aged, Contents, AfterReads, FirstGone;
      var out: Bytes := [];
      ghost var v, pool, zeros := table.view, table.maxPhysical, Zeros(tokenBytes);
      OneMoreRead(v, start, start, pool, zeros);
      for i := start to end
        invariant table.Valid() && table.view.contents == c
        invariant table.view == AfterReads(v, start, i, pool, zeros)
        invariant AllIn(c, start, i) && out == Joined(ts, start, i)
        invariant old(table.clock) <= table.clock <= SatAdd(old(table.clock), i - start)
      {
        var page := table.ReadSlot(i);
        if page.Err? {
          GoneAt(c, start, i, end);
          return Err(page.error);
        }
        OneMoreRead(v, start, i, pool, zeros);
        JoinedNext(ts, start, i, out, c, page.value);
        out := out + page.value;
      }
      GoneAt(c, start, end, end);
      r := Ok(out);
    }

    /** `clear`. */
    method Clear()
      requires Valid()
      modifies this, table
      ensures Valid() && tokens == [] && table.view == Lru([], map[]) && table.clock == old(table.clock)
    {
      hide MemOk, Aged, Contents, Drop;
      ghost var c := table.view.contents;
      for i := 0 to nextToken
        invariant table.Valid() && nextToken == |tokens| <= maxTokens && HoldsTokens(c, tokens)
        invariant table.view.contents.Keys <= c.Keys
        invariant forall s: nat | s < i :: s !in table.view.contents
        invariant table.clock == old(table.clock)
      {
        DropShows(table.view, i);
        var r := table.UnmapSlot(i);
      }
      ViewOk(table);
      Emptied(table.view, c, tokens, table.maxPhysical);
      nextToken := 0;
      tokens := [];
    }
  }

  lemma DropShows(v: Lru, slot: nat)
    ensures forall s :: s in Drop(v, slot).contents <==> s in v.contents && s != slot
  {
  }

  // ---------- what a gather does to the order ----------

  /** The order without slots start to end. */
  function Outside(order: seq<nat>, start: nat, end: nat): seq<nat>
    requires start <= end
    decreases end
  {
    if start == end then order else Without(Outside(order, start, end - 1), end - 1)
  }

  lemma WithoutFirst(a: seq<nat>, slot: nat)
    requires a != []
    ensures Without(a, slot) == (if a[0] == slot then [] else [a[0]]) + Without(a[1..], slot)
  {
  }

  lemma {:induction false} WithoutConcat(a: seq<nat>, b: seq<nat>, slot: nat)
    ensures Without(a + b, slot) == Without(a, slot) + Without(b, slot)
  {
    if a == [] {
      assert a + b == b;
    } else {
      var rest := a[1..];
      WithoutConcat(rest, b, slot);
      assert (a + b)[0] == a[0] && (a + b)[1..] == rest + b;
      hide Without;
      WithoutFirst(a, slot);
      WithoutFirst(a + b, slot);
      ConcatAssoc(if a[0] == slot then [] else [a[0]], Without(rest, slot), Without(b, slot));
    }
  }

  /** The slots read come last, in the order in which they were read; the others keep their order. */
  lemma {:induction false} ReadsComeLast(v: Lru, start: nat, end: nat, pool: nat, zeros: Bytes)
    requires start <= end && forall s: nat | start <= s < end :: s in v.contents
    ensures AfterReads(v, start, end, pool, zeros) == Lru(Outside(v.order, start, end) + Window(start, end), v.contents)
    decreases end
  {
    hide AfterReads, Without;
    OneMoreRead(v, start, if start == end then start else end - 1, pool, zeros);
    if start < end {
      ReadsComeLast(v, start, end - 1, pool, zeros);
      var outside, read := Outside(v.order, start, end - 1), Window(start, end - 1);
      WithoutConcat(outside, read, end - 1);
      ConcatAssoc(Without(outside, end - 1), read, [end - 1]);
    }
  }

  // ---------- runs of appends ----------

  /** The tokens that are taken in: those of the right size, until the window is full. */
  function Taken(kvs: seq<Bytes>, tokenBytes: nat, maxTokens: nat): (ts: seq<Bytes>)
    ensures |ts| <= maxTokens
  {
    if kvs == [] then []
    else
      var front, kv := Taken(kvs[..|kvs| - 1], tokenBytes, maxTokens), kvs[|kvs| - 1];
      if |kv| == tokenBytes && |front| < maxTokens then front + [kv] else front
  }

  /**
    Any run of appends into an empty window keeps exactly the last tokens that fit, as long as the
    clock has room for two ticks each.
   */
  method AppendAll(a: PagedAttention, kvs: seq<Bytes>)
    requires a.Valid() && a.tokens == [] && a.table.view == Lru([], map[]) && a.table.clock + 2 * |kvs| < U64_MAX
    modifies a, a.table
    ensures a.Valid() && a.tokens == Taken(kvs, a.tokenBytes, a.maxTokens)
    ensures a.table.view == RunAll(Lru([], map[]), Appends(a.tokens), a.table.maxPhysical, Zeros(a.tokenBytes))
    ensures IsWindow(a.table.view, a.tokens, a.table.maxPhysical)
  {
    hide MemOk, Aged, Contents, HoldsTokens, NothingLost, IsWindow, RunAll, Appends, Recency.WriteSlot;
    ghost var pool, zeros := a.table.maxPhysical, Zeros(a.tokenBytes);
    NoAppends(pool, zeros);
    for i := 0 to |kvs|
      invariant a.Valid() && a.tokens == Taken(kvs[..i], a.tokenBytes, a.maxTokens)
      invariant a.table.view == RunAll(Lru([], map[]), Appends(a.tokens), pool, zeros)
      invariant a.table.clock <= old(a.table.clock) + 2 * i
    {
      assert kvs[..i + 1][..i] == kvs[..i];
      RunAppends(Lru([], map[]), a.tokens, kvs[i], pool, zeros);
      var r, k := a.AppendToken(kvs[i]);
    }
    assert kvs[..|kvs|] == kvs;
    AppendsSlide(a.tokens, pool, zeros);
  }

  lemma NoAppends(pool: nat, zeros: Bytes)
    ensures RunAll(Lru([], map[]), Appends([]), pool, zeros) == Lru([], map[])
  {
    assert Appends([]) == [];
  }

  lemma {:induction false} FewSlots(order: seq<nat>, n: nat)
    requires Distinct(order) && forall s | s in order :: s < n
    ensures |order| <= n
    decreases n
  {
    if n > 0 {
      WithoutDistinct(order, n - 1);
      FewSlots(Without(order, n - 1), n - 1);
    } else {
      if order != [] { HeadIn(order); }
    }
  }

  lemma HeadIn(order: seq<nat>)
    requires order != []
    ensures order[0] in order
  {
  }

  lemma Emptied(v: Lru, c: map<nat, Bytes>, tokens: seq<Bytes>, pool: nat)
    requires LruOk(v, pool) && HoldsTokens(c, tokens) && v.contents.Keys <= c.Keys
    requires forall s: nat | s < |tokens| :: s !in v.contents
    ensures v == Lru([], map[])
  {
    assert v.contents == map[];
    FewSlots(v.order, 0);
  }

  lemma AppendHolds(v: Lru, tokens: seq<Bytes>, kv: Bytes, pool: nat, maxTokens: nat, k: nat)
    requires LruOk(v, pool) && HoldsTokens(v.contents, tokens) && |tokens| < maxTokens
    requires pool >= maxTokens ==> NothingLost(v.contents, tokens)
    ensures var w := Recency.WriteSlot(v, |tokens|, pool, k, kv);
      HoldsTokens(w.contents, tokens + [kv]) && (pool >= maxTokens ==> NothingLost(w.contents, tokens + [kv])) &&
        |tokens| in w.contents
  {
    assert |tokens| !in v.contents;
    FewSlots(v.order, |tokens|);
  }
}
