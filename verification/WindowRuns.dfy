/** Mixed runs of appends, gathers and clears on the token window of ai/src/paged_attention.rs. */
module WindowRuns {
  import opened Common
  import opened Recency
  import opened PagePool
  import opened TokenWindow

  datatype Call = Append(kv: Bytes) | Gather(start: nat, end: nat) | Clear

  /** The tokens appended since the last clear, and the recency map of their slots. */
  datatype WindowState = WindowState(tokens: seq<Bytes>, view: Lru)

  datatype Sizes = Sizes(tokenBytes: nat, maxTokens: nat, pool: nat)

  /** The page table operations a call amounts to; a gather stops at the first token gone. */
  function CallOps(w: WindowState, call: Call, z: Sizes): seq<Op> {
    match call
    case Append(kv) => if |kv| == z.tokenBytes && |w.tokens| < z.maxTokens then [Write(|w.tokens|, kv)] else []
    case Gather(start, end) =>
      if start <= end <= |w.tokens| then Reads(start, FirstGone(w.view.contents, start, end)) else []
    case Clear => []
  }

  function After(w: WindowState, call: Call, z: Sizes): WindowState {
    match call
    case Append(kv) =>
      WindowState(if CallOps(w, call, z) == [] then w.tokens else w.tokens + [kv],
                  RunAll(w.view, CallOps(w, call, z), z.pool, Zeros(z.tokenBytes)))
    case Gather(_, _) => w.(view := RunAll(w.view, CallOps(w, call, z), z.pool, Zeros(z.tokenBytes)))
    case Clear => WindowState([], Lru([], map[]))
  }

  function AfterAll(w: WindowState, calls: seq<Call>, z: Sizes): WindowState {
    if calls == [] then w else After(AfterAll(w, calls[..|calls| - 1], z), calls[|calls| - 1], z)
  }

  /** What a gather returns: the tokens asked for, if none is gone. */
  function Answer(w: WindowState, call: Call): Option<Bytes> {
    match call
    case Gather(start, end) =>
      if start <= end <= |w.tokens| && AllIn(w.view.contents, start, end) then Some(Joined(w.tokens, start, end))
      else None
    case _ => None
  }

  /** Clock ticks a call may take. */
  function Ticks(call: Call): nat {
    match call
    case Append(_) => 2
    case Gather(start, end) => if start <= end then end - start else 0
    case Clear => 0
  }

  function AllTicks(calls: seq<Call>): nat {
    if calls == [] then 0 else AllTicks(calls[..|calls| - 1]) + Ticks(calls[|calls| - 1])
  }

  function SizesOf(a: PagedAttention): Sizes
    reads a, a.table
  {
    Sizes(a.tokenBytes, a.maxTokens, a.table.maxPhysical)
  }

  ghost function StateOf(a: PagedAttention): WindowState
    reads a, a.table
  {
    WindowState(a.tokens, a.table.view)
  }

  lemma OneWrite(v: Lru, slot: nat, data: Bytes, pool: nat, zeros: Bytes)
    ensures RunAll(v, [], pool, zeros) == v
    ensures RunAll(v, [Write(slot, data)], pool, zeros) == Recency.WriteSlot(v, slot, pool, 0, data)
      == Step(v, Write(slot, data), pool, zeros)
  {
    assert [Write(slot, data)][..0] == [];
  }

  method Perform(a: PagedAttention, call: Call) returns (answer: Option<Bytes>)
    requires a.Valid() && a.table.clock + Ticks(call) < U64_MAX
    modifies a, a.table
    ensures a.Valid() && a.table.clock <= old(a.table.clock) + Ticks(call)
    ensures StateOf(a) == After(old(StateOf(a)), call, SizesOf(a))
    ensures answer == Answer(old(StateOf(a)), call)
  {
    hide MemOk, Aged, Contents, HoldsTokens, NothingLost, RunAll, Recency.WriteSlot, FirstGone;
    answer := None;
    match call
    case Append(kv) =>
      OneWrite(a.table.view, |a.tokens|, kv, a.table.maxPhysical, Zeros(a.tokenBytes));
      var r, k := a.AppendToken(kv);
    case Gather(start, end) =>
      OneWrite(a.table.view, 0, [], a.table.maxPhysical, Zeros(a.tokenBytes));
      var r := a.Gather(start, end);
      if start <= end { AllInMeans(old(a.table.view.contents), start, end); }
      answer := if r.Ok? then Some(r.value) else None;
    case Clear =>
      a.Clear();
  }

  lemma NoCalls(w: WindowState, z: Sizes)
    ensures AfterAll(w, [], z) == w && AllTicks([]) == 0
  {
  }

  lemma OneMoreCall(w: WindowState, calls: seq<Call>, i: nat, z: Sizes)
    requires i < |calls|
    ensures AfterAll(w, calls[..i + 1], z) == After(AfterAll(w, calls[..i], z), calls[i], z)
    ensures AllTicks(calls[..i + 1]) == AllTicks(calls[..i]) + Ticks(calls[i]) <= AllTicks(calls)
  {
    assert calls[..i + 1][..i] == calls[..i];
    TicksBefore(calls, i + 1);
  }

  lemma {:induction false} TicksBefore(calls: seq<Call>, i: nat)
    requires i <= |calls|
    ensures AllTicks(calls[..i]) <= AllTicks(calls)
    decreases |calls|
  {
    if i < |calls| {
      TicksBefore(calls[..|calls| - 1], i);
      assert calls[..|calls| - 1][..i] == calls[..i];
    } else {
      assert calls[..i] == calls;
    }
  }

  /** Every run of calls, refused ones included, reaches the specified window, and every gather answers from it. */
  method PerformAll(a: PagedAttention, calls: seq<Call>) returns (answers: seq<Option<Bytes>>)
    requires a.Valid() && a.table.clock + AllTicks(calls) < U64_MAX
    modifies a, a.table
    ensures a.Valid() && StateOf(a) == AfterAll(old(StateOf(a)), calls, SizesOf(a))
    ensures |answers| == |calls|
    ensures forall i | 0 <= i < |calls| ::
      answers[i] == Answer(AfterAll(old(StateOf(a)), calls[..i], SizesOf(a)), calls[i])
  {
    hide MemOk, Aged, Contents, HoldsTokens, NothingLost, After, AfterAll, Answer, Ticks, AllTicks;
    ghost var w, z := StateOf(a), SizesOf(a);
    answers := [];
    NoCalls(w, z);
    assert calls[..0] == [];
    for i := 0 to |calls|
      invariant a.Valid() && a.table.clock <= old(a.table.clock) + AllTicks(calls[..i])
      invariant StateOf(a) == AfterAll(w, calls[..i], z)
      invariant |answers| == i
      invariant forall j | 0 <= j < i :: answers[j] == Answer(AfterAll(w, calls[..j], z), calls[j])
    {
      OneMoreCall(w, calls, i, z);
      var answer := Perform(a, calls[i]);
      answers := answers + [answer];
    }
    assert calls[..|calls|] == calls;
  }

  // ---------- runs of calls are runs of the recency map ----------

  function AllOps(w: WindowState, calls: seq<Call>, z: Sizes): seq<Op> {
    if calls == [] then []
    else
      var front := calls[..|calls| - 1];
      AllOps(w, front, z) + CallOps(AfterAll(w, front, z), calls[|calls| - 1], z)
  }

  lemma {:induction false} RunConcat(v: Lru, a: seq<Op>, b: seq<Op>, pool: nat, zeros: Bytes)
    ensures RunAll(v, a + b, pool, zeros) == RunAll(RunAll(v, a, pool, zeros), b, pool, zeros)
    decreases |b|
  {
    hide Step;
    if b == [] {
      assert a + b == a;
    } else {
      var front := b[..|b| - 1];
      RunConcat(v, a, front, pool, zeros);
      assert (a + b)[..|a + b| - 1] == a + front;
    }
  }

  /** Without a clear, the window's recency map is that of its page table operations, and tokens are only added. */
  lemma {:induction false} CallsAreOps(w: WindowState, calls: seq<Call>, z: Sizes)
    requires Clear !in calls
    ensures AfterAll(w, calls, z).view == RunAll(w.view, AllOps(w, calls, z), z.pool, Zeros(z.tokenBytes))
    ensures w.tokens <= AfterAll(w, calls, z).tokens
    decreases |calls|
  {
    hide CallOps, RunAll;
    OneWrite(w.view, 0, [], z.pool, Zeros(z.tokenBytes));
    if calls != [] {
      var front, call := calls[..|calls| - 1], calls[|calls| - 1];
      assert call in calls;
      CallsAreOps(w, front, z);
      RunConcat(w.view, AllOps(w, front, z), CallOps(AfterAll(w, front, z), call, z), z.pool, Zeros(z.tokenBytes));
    }
  }

  lemma OneReadsOnly(w: WindowState, call: Call, z: Sizes, slot: nat)
    requires slot < |w.tokens|
    ensures LeavesAlone(CallOps(w, call, z), slot)
  {
    hide FirstGone;
  }

  /** Calls read old tokens and write new ones only. */
  lemma {:induction false} OldAreOnlyRead(w: WindowState, calls: seq<Call>, z: Sizes, slot: nat)
    requires Clear !in calls && slot < |w.tokens|
    ensures LeavesAlone(AllOps(w, calls, z), slot)
    decreases |calls|
  {
    hide CallOps, RunAll, AfterAll;
    if calls != [] {
      var front, call := calls[..|calls| - 1], calls[|calls| - 1];
      OldAreOnlyRead(w, front, z, slot);
      CallsAreOps(w, front, z);
      OneReadsOnly(AfterAll(w, front, z), calls[|calls| - 1], z, slot);
    }
  }

  /**
    A token just appended can be gathered for as long as appends and gathers have used fewer other
    slots than there are pages.
   */
  lemma TokenStays(w: WindowState, kv: Bytes, calls: seq<Call>, T: set<nat>, z: Sizes)
    requires LruOk(w.view, z.pool) && z.pool >= 1 && |kv| == z.tokenBytes && |w.tokens| < z.maxTokens
    requires Clear !in calls && |T| < z.pool
    requires Used(AllOps(After(w, Append(kv), z), calls, z)) - {|w.tokens|} <= T
    ensures Answer(AfterAll(After(w, Append(kv), z), calls, z), Gather(|w.tokens|, |w.tokens| + 1)) == Some(kv)
  {
    hide Recency.Step, Used;
    var slot, zeros, w1 := |w.tokens|, Zeros(z.tokenBytes), After(w, Append(kv), z);
    OneWrite(w.view, slot, kv, z.pool, zeros);
    StepOk(w.view, Write(slot, kv), z.pool, zeros);
    assert w1.view == Step(w.view, Write(slot, kv), z.pool, zeros);
    CallsAreOps(w1, calls, z);
    OldAreOnlyRead(w1, calls, z, slot);
    RecentlyUsedIsRetained(w1.view, AllOps(w1, calls, z), slot, T, z.pool, zeros);
    var w2 := AfterAll(w1, calls, z);
    assert w2.tokens[slot] == kv;
    AllInMeans(w2.view.contents, slot, slot + 1);
    assert Joined(w2.tokens, slot, slot + 1) == [] + kv == kv;
  }
}
