/** Bridging local credits into the global pool slice by slice: interop/src/openapi_gateway.rs. */
module Bridge {
  import opened Common
  import opened Amm
  import Twamm

  datatype GatewayError =
    | GatewayDormant | InsufficientBalance | UnknownAccount | NoAmount | NoPool
    | TwammFailed(cause: Twamm.Error)

  datatype BridgeReceipt = BridgeReceipt(
    account: string, orderId: nat, amountBridged: U64, quoteReceived: U64, maxSpreadSeen: U32, maxSpreadCap: U32,
      gatewayActive: bool)

  /** How far a bridge has come: totals so far, the pool, the order, and the error that ended it. */
  datatype Trail = Trail(filledIn: nat, filledOut: nat, maxSpread: nat, pool: Pool, order: Twamm.Order,
      failed: Option<Twamm.Error>)

  /** One slice: quoted at the live mid, checked against the cap, and swapped. */
  function Slice(t: Trail): Trail
    requires t.pool.base > 0 && t.pool.quote > 0
  {
    var exec := MidPrice(t.pool);
    var q := Twamm.Quote(t.order, exec);
    if q.Err? then t.(failed := if q.error.SpreadExceeded? then None else Some(q.error))
    else
      var fill := q.value;
      Trail(t.filledIn + fill.amountIn, t.filledOut +
        Payout(t.pool, Sell, fill.amountIn), Max(t.maxSpread, fill.spreadBps),
            Swapped(t.pool, Sell, fill.amountIn), Twamm.Streamed(t.order, exec), None)
  }

  predicate Fills(t: Trail) {
    Twamm.Quote(t.order, MidPrice(t.pool)).Ok?
  }

  /** Up to n slices; the first one that is not filled ends the bridge. */
  ghost function Slices(t: Trail, n: nat): Trail
    requires Good(t)
    decreases n
  {
    if n == 0 then t
    else
      SliceIsGood(t);
      if Fills(t) then Slices(Slice(t), n - 1) else Slice(t)
  }

  ghost predicate Good(t: Trail) {
    t.pool.base > 0 && t.pool.quote > 0 && t.order.side == Sell && Twamm.OrderOk(t.order)
  }

  /** The base reserve can take what is left of the order without saturating. */
  ghost predicate Fits(t: Trail) {
    t.pool.base + t.order.remainingIn <= U64_MAX
  }

  /** What a slice keeps: inflow, outflow, what is left to fill, and the product of the reserves. */
  ghost predicate Balanced(t: Trail, u: Trail) {
    && Good(u)
    && u.pool.quote + u.filledOut == t.pool.quote + t.filledOut
    && u.filledIn + u.order.remainingIn == t.filledIn + t.order.remainingIn
    && t.filledIn <= u.filledIn && u.maxSpread <= Max(t.maxSpread, Twamm.MAX_SPREAD_BPS)
    && u.order.referencePrice == t.order.referencePrice
    && (Fits(t) ==>
          && Fits(u)
          && u.pool.base - u.filledIn == t.pool.base - t.filledIn
          && u.pool.base * u.pool.quote >= t.pool.base * t.pool.quote)
  }

  lemma SliceIsGood(t: Trail)
    requires Good(t)
    ensures Balanced(t, Slice(t))
    ensures Fills(t) ==> Slice(t).filledIn > t.filledIn && Slice(t).order.slicesRemaining == t.order.slicesRemaining - 1
    ensures !Fills(t) ==> Slice(t).pool == t.pool && Slice(t).order == t.order && Slice(t).filledIn == t.filledIn
  {
    var exec := MidPrice(t.pool);
    Twamm.SliceKeepsOrder(t.order, Twamm.Attempt(exec));
    if Fills(t) && Fits(t) {
      SwapIsFair(t.pool, Sell, Twamm.SliceAmount(t.order));
    }
  }

  lemma {:induction false} SlicesBalance(t: Trail, n: nat)
    requires Good(t)
    ensures Balanced(t, Slices(t, n))
    decreases n
  {
    if n > 0 {
      SliceIsGood(t);
      if Fills(t) { SlicesBalance(Slice(t), n - 1); }
    }
  }

  /** A bridge of n slices ends with everything filled, stopped by the cap, or failed on a zero mid price. */
  ghost predicate Ended(u: Trail) {
    match u.failed
    case None => u.order.slicesRemaining == 0 ||
      (MidPrice(u.pool) > 0 && Twamm.EnforceMaxSpread(MidPrice(u.pool), u.order.referencePrice).Err?)
    case Some(e) => e == Twamm.InvalidPrice && MidPrice(u.pool) == 0 && u.order.slicesRemaining > 0
  }

  lemma QuoteErrors(o: Twamm.Order, exec: U64)
    requires Twamm.OrderOk(o) && o.slicesRemaining > 0 && Twamm.Quote(o, exec).Err?
    ensures exec == 0 ==> Twamm.Quote(o, exec).error == Twamm.InvalidPrice
    ensures exec > 0 ==>
      Twamm.Quote(o, exec).error.SpreadExceeded? && Twamm.EnforceMaxSpread(exec, o.referencePrice).Err?
  {
    Twamm.DivAtLeast(o.remainingIn, o.slicesRemaining, 1);
  }

  lemma {:induction false} SlicesEnd(t: Trail, n: nat)
    requires Good(t) && n == t.order.slicesRemaining && t.failed == None
    ensures Ended(Slices(t, n))
    decreases n
  {
    if n > 0 {
      SliceIsGood(t);
      if Fills(t) {
        SlicesEnd(Slice(t), n - 1);
      } else {
        QuoteErrors(t.order, MidPrice(t.pool));
      }
    }
  }

  function NoTrail(): Trail {
    Trail(0, 0, 0, Pool(1, 1), Twamm.Order(0, Sell, 0, 0, 0), None)
  }

  /** Where a bridge of a fresh order starts. */
  function Start(pool: Pool, id: nat, amount: U64, slices: U32): Trail {
    Trail(0, 0, 0, pool, Twamm.Order(id, Sell, amount, slices, MidPrice(pool)), None)
  }

  ghost predicate CanStart(pool: Pool, amount: U64, slices: U32) {
    pool.base > 0 && pool.quote > 0 && MidPrice(pool) > 0 && 1 <= slices <= amount
  }

  /** The first slice is quoted at the reference itself, so it is always filled. */
  lemma FirstSliceFills(pool: Pool, id: nat, amount: U64, slices: U32)
    requires CanStart(pool, amount, slices)
    ensures Good(Start(pool, id, amount, slices)) && Fills(Start(pool, id, amount, slices))
  {
    Twamm.NeverStuck(Start(pool, id, amount, slices).order);
  }

  /**
    Conservation over a whole bridge: while the base reserve does not saturate, the pool's base inflow is the
    amount bridged, its quote outflow
    is the quote received, the product of its reserves does not fall, and slicing has not bought more
    quote than one swap of the same total.
   */
  lemma BridgeConserves(pool: Pool, id: nat, amount: U64, slices: U32)
    requires CanStart(pool, amount, slices)
    ensures Good(Start(pool, id, amount, slices))
    ensures var u := Slices(Start(pool, id, amount, slices), slices);
      && 0 < u.filledIn <= amount && u.filledOut == pool.quote - u.pool.quote && u.pool.quote > 0
      && u.maxSpread <= Twamm.MAX_SPREAD_BPS && Ended(u)
      && (pool.base + amount <= U64_MAX ==>
            && u.filledIn == u.pool.base - pool.base
            && u.pool.base * u.pool.quote >= pool.base * pool.quote
            && u.filledOut <= AmountOut(pool.base, pool.quote, u.filledIn))
  {
    var t := Start(pool, id, amount, slices);
    FirstSliceFills(pool, id, amount, slices);
    SliceIsGood(t);
    SlicesBalance(Slice(t), slices - 1);
    SlicesBalance(t, slices);
    SlicesEnd(t, slices);
    var u := Slices(t, slices);
    OutIsLargestFair(pool.base, pool.quote, u.filledIn, u.filledOut);
  }

  // ---------- when a bridge fails ----------

  /**
    Told from the reserves, the reference price and the amount alone: some slice finds a mid price of
    zero, and every slice before it found one within the cap.
   */
  predicate FailsOn(p: Pool, reference: U64, remaining: U64, n: nat)
    requires p.base > 0 && p.quote > 0 && n <= remaining
    decreases n
  {
    n > 0 && (
      MidPrice(p) == 0 ||
      (Twamm.EnforceMaxSpread(MidPrice(p), reference).Ok? &&
       (LeavesEnough(remaining, n);
        FailsOn(Swapped(p, Sell, Part(remaining, n)), reference, remaining - Part(remaining, n), n - 1))))
  }

  /** What the first of n slices takes. */
  function Part(remaining: U64, n: nat): (a: U64)
    requires 0 < n <= remaining
    ensures a <= remaining
  {
    Twamm.ShareBound(remaining, n);
    if n == 1 then remaining else remaining / n
  }

  lemma LeavesEnough(remaining: U64, n: nat)
    requires 0 < n <= remaining
    ensures remaining - Part(remaining, n) >= n - 1
  {
    if n > 1 {
      DivBounds(remaining, n);
      Twamm.LeftForRest(remaining, n, remaining / n);
    }
  }

  /** A slice is filled unless the mid price is zero or outside the cap. */
  lemma FillsIff(t: Trail)
    requires Good(t) && t.order.slicesRemaining > 0
    ensures Fills(t) <==> Twamm.EnforceMaxSpread(MidPrice(t.pool), t.order.referencePrice).Ok?
    ensures !Fills(t) ==> (Slice(t).failed.Some? <==> MidPrice(t.pool) == 0)
  {
    Twamm.DivAtLeast(t.order.remainingIn, t.order.slicesRemaining, 1);
  }

  lemma {:induction false} SlicesFailIff(t: Trail, n: nat)
    requires Good(t) && n == t.order.slicesRemaining && t.failed == None
    ensures Slices(t, n).failed.Some? <==> FailsOn(t.pool, t.order.referencePrice, t.order.remainingIn, n)
    decreases n
  {
    if n > 0 {
      SliceIsGood(t);
      FillsIff(t);
      LeavesEnough(t.order.remainingIn, n);
      if Fills(t) {
        SlicesFailIff(Slice(t), n - 1);
      }
    }
  }

  /** A bridge that gets as far as its first slice fails exactly on these pools, amounts and slice counts. */
  lemma BridgeFailsIff(pool: Pool, id: nat, amount: U64, slices: U32)
    requires CanStart(pool, amount, slices)
    ensures Good(Start(pool, id, amount, slices))
    ensures Slices(Start(pool, id, amount, slices), slices).failed.Some? <==>
      FailsOn(pool, MidPrice(pool), amount, slices)
  {
    FirstSliceFills(pool, id, amount, slices);
    SlicesFailIff(Start(pool, id, amount, slices), slices);
  }

  /** One slice never fails; two do exactly when selling half the amount takes the price to zero. */
  lemma FewSlicesFailIff(pool: Pool, id: nat, amount: U64, slices: U32)
    requires CanStart(pool, amount, slices) && slices <= 2
    ensures Good(Start(pool, id, amount, slices))
    ensures Slices(Start(pool, id, amount, slices), slices).failed.Some?
      <==> slices == 2 && MidPrice(Swapped(pool, Sell, amount / 2)) == 0
  {
    BridgeFailsIff(pool, id, amount, slices);
    FirstSliceFills(pool, id, amount, slices);
    FillsIff(Start(pool, id, amount, slices));
    LeavesEnough(amount, slices);
    var a := Part(amount, slices);
    var q := Swapped(pool, Sell, a);
    if slices == 2 {
      LeavesEnough(amount - a, 1);
      assert FailsOn(q, MidPrice(pool), amount - a, 1) <==> MidPrice(q) == 0;
    }
  }

  /** And it fails only after it has moved the pool: the pool is richer while the account is not debited. */
  lemma FailureComesAfterFills(pool: Pool, id: nat, amount: U64, slices: U32)
    requires CanStart(pool, amount, slices) && FailsOn(pool, MidPrice(pool), amount, slices)
    ensures Good(Start(pool, id, amount, slices))
    ensures var u := Slices(Start(pool, id, amount, slices), slices);
      && u.failed == Some(Twamm.InvalidPrice) && u.filledIn > 0 && u.order.slicesRemaining > 0
      && (pool.base + amount <= U64_MAX ==> u.pool.base > pool.base)
  {
    BridgeFailsIff(pool, id, amount, slices);
    BridgeConserves(pool, id, amount, slices);
  }

  /** It does happen: ten million credits into a pool of one base and one quote unit, twice. */
  lemma FailedBridgeMovesPool(id: nat)
    ensures var pool, amount, slices := Pool(1, 1), 20_000_000, 2;
      && CanStart(pool, amount, slices) && Good(Start(pool, id, amount, slices))
      && var u := Slices(Start(pool, id, amount, slices), slices);
      && u.failed.Some? && u.filledIn == 10_000_000 && u.pool.base == 10_000_001
  {
    var pool, amount := Pool(1, 1), 20_000_000;
    FewSlicesFailIff(pool, id, amount, 2);
    assert Swapped(pool, Sell, 10_000_000) == Pool(10_000_001, 1);
    BridgeConserves(pool, id, amount, 2);
    FirstSliceFills(pool, id, amount, 2);
    SliceIsGood(Start(pool, id, amount, 2));
    assert !Fills(Slice(Start(pool, id, amount, 2)));
  }

  /** A guard a caller can check: the price cannot round to zero, so the bridge cannot fail. */
  ghost predicate PriceStaysPositive(pool: Pool, amount: U64) {
    && pool.quote * SCALE < 0x1_0000_0000_0000_0000 * pool.base
    && (pool.base + amount) * (pool.base + amount) <= pool.base * pool.quote * SCALE
  }

  lemma SquareMono(a: nat, b: nat)
    requires a <= b
    ensures a * a <= b * b
  {
    MulMono(a, b, a);
    MulMono(a, b, b);
  }

  lemma PriceIsPositive(base: nat, quote: nat, p: Pool)
    requires 0 < base <= p.base && 0 < p.quote <= quote && p.base * p.quote >= base * quote
    requires quote * SCALE < 0x1_0000_0000_0000_0000 * base
    requires p.base * p.base <= base * quote * SCALE
    ensures MidPrice(p) > 0
  {
    var n := p.quote * SCALE;
    MulMono(base * quote, p.base * p.quote, SCALE);
    assert p.base * p.quote * SCALE == n * p.base;
    FactorAtMost(p.base, n, p.base);
    Twamm.DivAtLeast(n, p.base, 1);
    Twamm.DivAtLeast(n, p.base, 0x1_0000_0000_0000_0000);
  }

  lemma FactorAtMost(a: nat, b: nat, d: nat)
    requires a * d <= b * d && d > 0
    ensures a <= b
  {
    if a > b { MulMono(b + 1, a, d); }
  }

  lemma GuardedBridgeSucceeds(pool: Pool, id: nat, amount: U64, slices: U32)
    requires CanStart(pool, amount, slices) && pool.base + amount <= U64_MAX && PriceStaysPositive(pool, amount)
    ensures Good(Start(pool, id, amount, slices)) && Slices(Start(pool, id, amount, slices), slices).failed == None
  {
    BridgeConserves(pool, id, amount, slices);
    var u := Slices(Start(pool, id, amount, slices), slices);
    SquareMono(u.pool.base, pool.base + amount);
    PriceIsPositive(pool.base, pool.quote, u.pool);
  }

  // ---------- the gateway ----------

  class OpenApiGateway {
    var internetReconnected: bool
    var localCredits: map<string, U64>
    const pool: GlobalAmmMock
    const twamm: Twamm.TwammEngine

    ghost predicate Valid()
      reads this, twamm
    {
      twamm.Valid()
    }

    constructor ()
      ensures Valid() && !internetReconnected && localCredits == map[] && fresh(pool) && fresh(twamm)
      ensures pool.Reserves() == Pool(1_000_000, 1_000_000_000_000)
    {
      internetReconnected, localCredits := false, map[];
      pool := new GlobalAmmMock(1_000_000, 1_000_000_000_000);
      twamm := new Twamm.TwammEngine();
    }

    /** The checks before anything moves. */
    function Refusal(account: string, amount: U64): Option<GatewayError>
      reads this, pool
    {
      if !internetReconnected then Some(GatewayDormant)
      else if amount == 0 then Some(NoAmount)
      else if account !in localCredits then Some(UnknownAccount)
      else if localCredits[account] < amount then Some(InsufficientBalance)
      else if MidPrice(pool.Reserves()) == 0 then Some(NoPool)
      else None
    }

    /** Nothing is refused up front to a connected account that has the amount, while the pool has a price. */
    lemma RefusedUnless(account: string, amount: U64)
      ensures Refusal(account, amount) == None <==>
        && internetReconnected && amount > 0 && MidPrice(pool.Reserves()) > 0
        && account in localCredits && amount <= localCredits[account]
    {
    }

    /** The slices of one bridge, while reserves do not saturate. */
    method Stream(id: nat, ghost start: Trail, slices: U32)
        returns (ghost u: Trail, filledIn: U64, filledOut: U64, maxSpread: U32, failed: Option<Twamm.Error>)
      requires Valid() && Good(start) && Twamm.Find(twamm.orders, id) < |twamm.orders|
      requires start == Trail(0, 0, 0, pool.Reserves(), twamm.orders[Twamm.Find(twamm.orders, id)], None)
      modifies pool, twamm
      ensures Valid() && u == Slices(start, slices) && pool.Reserves() == u.pool
      ensures filledIn == u.filledIn && filledOut == u.filledOut && maxSpread == u.maxSpread && failed == u.failed
    {
      hide Twamm.Find, Twamm.Quote;
      ghost var goal := Slices(start, slices);
      ghost var p := Twamm.Find(twamm.orders, id);
      u, filledIn, filledOut, maxSpread, failed := start, 0, 0, 0, None;
      for i := 0 to slices
        invariant twamm.Valid() && Twamm.Find(twamm.orders, id) == p < |twamm.orders|
        invariant Good(u) && Balanced(start, u) && Slices(u, slices - i) == goal
        invariant u == Trail(filledIn, filledOut, maxSpread, pool.Reserves(), twamm.orders[p], None)
      {
        SliceIsGood(u);
        ghost var was := twamm.orders;
        var exec := MidPrice(pool.Reserves());
        var fill := twamm.StreamSlice(id, exec);
        SameFind(was, twamm.orders, id);
        u := Slice(u);
        match fill {
          case Ok(f) =>
            var out := pool.Swap(Sell, f.amountIn);
            if out.Ok? {
              filledIn := SatAdd(filledIn, f.amountIn);
              filledOut := SatAdd(filledOut, out.value);
              maxSpread := Max(maxSpread, f.spreadBps);
            }
          case Err(e) =>
            if !e.SpreadExceeded? {
              failed := Some(e);
            }
            return;
        }
      }
    }

    /**
      `bridge_local_to_global`: on success the account is debited exactly the amount bridged, which
      is what the slices filled; on any error no account is debited, and the pool is untouched
      unless the mid price fell to zero after some slices.
     */
    method BridgeLocalToGlobal(account: string, amount: U64, slices0: U32)
        returns (r: Result<BridgeReceipt, GatewayError>, ghost u: Trail)
      requires Valid()
      modifies this`localCredits, pool, twamm
      ensures Valid()
      ensures old(Refusal(account, amount)).Some? ==> r == Err(old(Refusal(account, amount)).value)
      ensures old(Refusal(account, amount)).None? && amount < Max(slices0, 1) ==>
        r == Err(TwammFailed(Twamm.AmountTooSmall))
      ensures old(Refusal(account, amount)).Some? || amount < Max(slices0, 1) ==>
        pool.Reserves() == old(pool.Reserves()) && localCredits == old(localCredits)
      ensures old(Refusal(account, amount)).None? && amount >= Max(slices0, 1) ==>
        && Good(Start(old(pool.Reserves()), old(twamm.nextId), amount, Max(slices0, 1)))
        && u == Slices(Start(old(pool.Reserves()), old(twamm.nextId), amount, Max(slices0, 1)), Max(slices0, 1))
        && pool.Reserves() == u.pool
        && (u.failed.Some? ==> r == Err(TwammFailed(u.failed.value)) && localCredits == old(localCredits))
        && (u.failed.None? ==>
              && r.Ok? && r.value.amountBridged == u.filledIn <= amount && r.value.quoteReceived == u.filledOut
              && r.value.maxSpreadSeen == u.maxSpread && r.value.account == account
              && r.value.orderId == old(twamm.nextId) && r.value.maxSpreadCap == 200 && r.value.gatewayActive
              && account in old(localCredits)
              && localCredits == old(localCredits)[account := old(localCredits)[account] - u.filledIn])
    {
      hide AmountOut, Balanced, Ended, Fills, Good, NoTrail, Slices, Twamm.EnforceMaxSpread, Twamm.Quote;
      u := NoTrail();
      if !internetReconnected {
        return Err(GatewayDormant), u;
      }
      if amount == 0 {
        return Err(NoAmount), u;
      }
      if account !in localCredits {
        return Err(UnknownAccount), u;
      }
      if localCredits[account] < amount {
        return Err(InsufficientBalance), u;
      }
      var reference := MidPrice(pool.Reserves());
      if reference == 0 {
        return Err(NoPool), u;
      }
      var slices := Max(slices0, 1);
      var submitted := twamm.SubmitOrder(Sell, amount, slices, reference);
      if submitted.Err? {
        return Err(TwammFailed(submitted.error)), u;
      }
      var id := submitted.value;
      NewestFound(twamm.orders, id);
      ghost var start := Start(pool.Reserves(), id, amount, slices);
      FirstSliceFills(pool.Reserves(), id, amount, slices);
      BridgeConserves(pool.Reserves(), id, amount, slices);
      var filledIn, filledOut, maxSpread, failed;
      u, filledIn, filledOut, maxSpread, failed := Stream(id, start, slices);
      if failed.Some? {
        return Err(TwammFailed(failed.value)), u;
      }
      if filledIn > 0 && account in localCredits {
        localCredits := localCredits[account := SatSub(localCredits[account], filledIn)];
      }
      r := Ok(BridgeReceipt(account, id, filledIn, filledOut, maxSpread, Twamm.MAX_SPREAD_BPS, true));
    }
  }

  lemma {:induction false} NewestFound(orders: seq<Twamm.Order>, id: nat)
    requires orders != [] && orders[|orders| - 1].id == id && forall i | 0 <= i < |orders| - 1 :: orders[i].id != id
    ensures Twamm.Find(orders, id) == |orders| - 1
  {
    if |orders| > 1 { NewestFound(orders[1..], id); }
  }

  lemma SameFind(a: seq<Twamm.Order>, b: seq<Twamm.Order>, id: nat)
    requires |a| == |b| && forall i | 0 <= i < |a| :: a[i].id == b[i].id
    ensures Twamm.Find(a, id) == Twamm.Find(b, id)
  {
  }
}
