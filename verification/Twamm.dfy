/** Streaming a large order in slices under a spread cap: interop/src/twamm.rs. */
module Twamm {
  import opened Common
  import opened Amm

  const MAX_SPREAD_BPS := 200
  const BPS_DENOM := 10_000

  datatype Error =
    | SpreadExceeded(spreadBps: U32, maxBps: U32)
    | OrderExhausted | InvalidPrice | OrderNotFound | ZeroAmount | AmountTooSmall

  /** Order ids are the number n of the source's "twamm-n". */
  datatype Order = Order(id: nat, side: OrderSide, remainingIn: U64, slicesRemaining: U32, referencePrice: U64)

  datatype StreamFill = StreamFill(orderId: nat, amountIn: U64, amountOut: U64, executionPrice: U64, spreadBps: U32)

  // ---------- the spread cap ----------

  function AbsDiff(a: U64, b: U64): U64 {
    if a >= b then a - b else b - a
  }

  function SpreadBps(execution: U64, reference: U64): Result<U32, Error> {
    if reference == 0 || execution == 0 then Err(InvalidPrice)
    else
      var bps := Min(AbsDiff(execution, reference) * BPS_DENOM, U64_MAX) / reference;
      Ok(Min(bps, U32_MAX))
  }

  function EnforceMaxSpread(execution: U64, reference: U64): Result<U32, Error> {
    var r := SpreadBps(execution, reference);
    if r.Ok? && r.value > MAX_SPREAD_BPS then Err(SpreadExceeded(r.value, MAX_SPREAD_BPS)) else r
  }

  /** The cap in exact arithmetic: the deviation, in whole basis points, is at most 200. */
  predicate WithinCap(execution: U64, reference: U64)
    requires reference > 0
  {
    AbsDiff(execution, reference) * BPS_DENOM / reference <= MAX_SPREAD_BPS
  }

  lemma DivAtLeast(n: nat, d: nat, q: nat)
    requires d > 0
    ensures n / d >= q <==> n >= q * d
  {
    DivBounds(n, d);
    if n / d >= q { MulMono(q, n / d, d); } else { MulMono(n / d + 1, q, d); }
  }

  /** Saturating multiplication is harmless for references up to u64::MAX / 201. */
  lemma CapIsExact(execution: U64, reference: U64)
    requires execution > 0 && reference > 0 && 201 * reference <= U64_MAX
    ensures EnforceMaxSpread(execution, reference).Ok? <==> WithinCap(execution, reference)
    ensures EnforceMaxSpread(execution, reference).Err? ==> EnforceMaxSpread(execution, reference).error.SpreadExceeded?
  {
    var n := AbsDiff(execution, reference) * BPS_DENOM;
    DivAtLeast(n, reference, 201);
    DivAtLeast(Min(n, U64_MAX), reference, 201);
  }

  /** Beyond that bound the cap lets wildly wrong prices through: it is exact for no larger reference. */
  lemma CapIsExactIff(reference: U64)
    requires reference > 0
    ensures (forall e: U64 :: e > 0 ==> (EnforceMaxSpread(e, reference).Ok? <==> WithinCap(e, reference)))
      <==> 201 * reference <= U64_MAX
  {
    if 201 * reference <= U64_MAX {
      forall e: U64 | e > 0 ensures EnforceMaxSpread(e, reference).Ok? <==> WithinCap(e, reference) {
        CapIsExact(e, reference);
      }
    } else {
      var n := AbsDiff(1, reference) * BPS_DENOM;
      DivAtLeast(n, reference, 201);
      DivAtLeast(U64_MAX, reference, 201);
      assert n >= U64_MAX;
      assert EnforceMaxSpread(1, reference).Ok? && !WithinCap(1, reference);
    }
  }

  // ---------- quoting ----------

  function QuoteFill(side: OrderSide, amountIn: U64, price: U64): Result<U64, Error> {
    if amountIn == 0 then Err(Error.ZeroAmount)
    else if price == 0 then Err(InvalidPrice)
    else
      var out := if side == Buy then amountIn * SCALE / price else amountIn * price / SCALE;
      Ok(out % 0x1_0000_0000_0000_0000)
  }

  lemma ShareBound(r: nat, s: nat)
    requires s > 0
    ensures 0 <= r / s <= r
  {
    DivAtLeast(r, s, 0);
    DivAtLeast(r, s, r + 1);
    MulMono(1, s, r + 1);
  }

  lemma TakeOne(q: nat, s: nat)
    requires s > 0
    ensures q * s == q * (s - 1) + q
  {
  }

  function SliceAmount(o: Order): (a: U64)
    ensures a <= o.remainingIn
  {
    if o.slicesRemaining > 1 then
      ShareBound(o.remainingIn, o.slicesRemaining);
      o.remainingIn / o.slicesRemaining
    else o.remainingIn
  }

  function Quote(o: Order, execution: U64): Result<StreamFill, Error> {
    if o.slicesRemaining == 0 || o.remainingIn == 0 then Err(OrderExhausted)
    else
      var amountIn := SliceAmount(o);
      if amountIn == 0 then Err(Error.ZeroAmount)
      else
        var bps := EnforceMaxSpread(execution, o.referencePrice);
        if bps.Err? then Err(bps.error)
        else
          var out := QuoteFill(o.side, amountIn, execution);
          if out.Err? then Err(out.error)
          else Ok(StreamFill(o.id, amountIn, out.value, execution, bps.value))
  }

  /** The order after one slice. */
  function Streamed(o: Order, execution: U64): Order {
    if Quote(o, execution).Err? then o
    else o.(remainingIn := SatSub(o.remainingIn, SliceAmount(o)), slicesRemaining := o.slicesRemaining - 1)
  }

  /**
    A fill's payout is what the amount is worth at the price, scaled by a million and rounded down,
    exactly while that fits in 64 bits: a sale is worth amount times price, a purchase amount over price.
   */
  lemma PayoutAtPrice(o: Order, execution: U64)
    requires Quote(o, execution).Ok?
    ensures var f := Quote(o, execution).value;
      && f.orderId == o.id && f.executionPrice == execution > 0 && 0 < f.amountIn <= o.remainingIn
      && (o.side == Sell ==>
            (f.amountOut * 1_000_000 <= f.amountIn * execution < (f.amountOut + 1) * 1_000_000 <==>
              f.amountIn * execution < 0x1_0000_0000_0000_0000 * 1_000_000))
      && (o.side == Buy ==>
            (f.amountOut * execution <= f.amountIn * 1_000_000 < (f.amountOut + 1) * execution <==>
              f.amountIn * 1_000_000 < 0x1_0000_0000_0000_0000 * execution))
  {
    var f := Quote(o, execution).value;
    if o.side == Sell {
      FloorIff(f.amountIn * execution, SCALE, f.amountOut);
    } else {
      FloorIff(f.amountIn * SCALE, execution, f.amountOut);
    }
  }

  lemma Smaller(a: nat, b: nat, d: nat)
    requires d > 0 && a * d <= b * d
    ensures a <= b
  {
    if b + 1 <= a { MulMono(b + 1, a, d); }
  }

  /** Trading an amount and then its payout back at the same price never yields more than the amount. */
  lemma NoGainThereAndBack(there: Order, back: Order, price: U64)
    requires Quote(there, price).Ok? && Quote(back, price).Ok? && there.side != back.side
    requires Quote(back, price).value.amountIn == Quote(there, price).value.amountOut
    requires var a := Quote(there, price).value.amountIn;
      if there.side == Sell then a * price < 0x1_0000_0000_0000_0000 * 1_000_000
      else a * 1_000_000 < 0x1_0000_0000_0000_0000 * price
    ensures Quote(back, price).value.amountOut <= Quote(there, price).value.amountIn
  {
    PayoutAtPrice(there, price);
    PayoutAtPrice(back, price);
    var f, g := Quote(there, price).value, Quote(back, price).value;
    hide Quote;
    if there.side == Sell {
      ThereAndBack(f.amountIn, price, 1_000_000, f.amountOut, g.amountOut);
    } else {
      ThereAndBack(f.amountIn, 1_000_000, price, f.amountOut, g.amountOut);
    }
  }

  lemma ThereAndBack(x: U64, p: nat, q: nat, y: nat, z: nat)
    requires p > 0 && q > 0 && y * q <= x * p
    requires z * p <= y * q < (z + 1) * p <==> y * q < 0x1_0000_0000_0000_0000 * p
    ensures z <= x
  {
    MulMono(x + 1, 0x1_0000_0000_0000_0000, p);
    Smaller(z, x, p);
  }

  /** The reported spread is the deviation in basis points, rounded down. */
  lemma SpreadInFigures(execution: U64, reference: U64)
    requires EnforceMaxSpread(execution, reference).Ok?
    requires 10_000 * AbsDiff(execution, reference) <= U64_MAX
    ensures var bps := EnforceMaxSpread(execution, reference).value;
      bps <= 200 && bps * reference <= 10_000 * AbsDiff(execution, reference) < (bps + 1) * reference
  {
    DivBounds(AbsDiff(execution, reference) * BPS_DENOM, reference);
  }

  /** In figures: a price is within the cap when it deviates by less than 201 parts in 10,000. */
  lemma CapInFigures(execution: U64, reference: U64)
    requires execution > 0 && reference > 0 && 201 * reference <= U64_MAX
    ensures EnforceMaxSpread(execution, reference).Ok? <==>
      10_000 * (execution - reference) < 201 * reference && 10_000 * (reference - execution) < 201 * reference
  {
    CapIsExact(execution, reference);
    DivAtLeast(AbsDiff(execution, reference) * BPS_DENOM, reference, 201);
  }

  // ---------- the slice schedule ----------

  /** What remains is either nothing at all, or at least one unit for each slice. */
  predicate OrderOk(o: Order) {
    && o.referencePrice > 0
    && (if o.slicesRemaining == 0 then o.remainingIn == 0 else o.remainingIn >= o.slicesRemaining)
  }

  /** The amounts that r units over s slices will be filled in. */
  function Schedule(r: nat, s: nat): seq<nat> {
    if s == 0 then []
    else
      var a := if s == 1 then r else r / s;
      [a] + Schedule(if a <= r then r - a else 0, s - 1)
  }

  function Repeat(x: nat, n: nat): (r: seq<nat>)
    ensures |r| == n
  {
    if n == 0 then [] else [x] + Repeat(x, n - 1)
  }

  lemma QuotientOf(q: nat, m: nat, s: nat)
    requires s > 0 && m <= s
    ensures (q * s + m) / s == if m == s then q + 1 else q
  {
    var n := q * s + m;
    DivBounds(n, s);
    if m == s {
      assert n == (q + 1) * s;
      DivAtLeast(n, s, q + 1);
      DivAtLeast(n, s, q + 2);
    } else {
      DivAtLeast(n, s, q);
      DivAtLeast(n, s, q + 1);
    }
  }

  /** The first fill of q * s + m units over s slices, and what it leaves. */
  lemma FirstFill(q: nat, m: nat, s: nat)
    requires s > 0 && m <= s
    ensures var r := q * s + m; var a := if s == 1 then r else r / s;
      && a == (if m == s then q + 1 else q) && a <= r
      && r - a == q * (s - 1) + (if m == s then m - 1 else m)
  {
    QuotientOf(q, m, s);
    TakeOne(q, s);
    if s == 1 { TakeOne(q, 1); } else { ShareBound(q * s + m, s); }
  }

  lemma {:induction false} ScheduleSplit(q: nat, m: nat, s: nat)
    requires m <= s
    ensures Schedule(q * s + m, s) == Repeat(q, s - m) + Repeat(q + 1, m)
    decreases s
  {
    if s > 0 {
      FirstFill(q, m, s);
      ScheduleSplit(q, if m == s then m - 1 else m, s - 1);
    }
  }

  /**
    An order of A over n slices is filled as n - (A mod n) fills of floor(A / n) followed by
    A mod n fills one unit larger.
   */
  lemma ScheduleShape(amount: nat, slices: nat)
    requires slices >= 1
    ensures Schedule(amount, slices) ==
      Repeat(amount / slices, slices - amount % slices) + Repeat(amount / slices + 1, amount % slices)
    ensures Total(Schedule(amount, slices)) == amount
  {
    assert amount == amount / slices * slices + amount % slices;
    ScheduleSplit(amount / slices, amount % slices, slices);
    ScheduleTotal(amount, slices);
  }

  lemma {:induction false} ScheduleTotal(r: nat, s: nat)
    requires s >= 1
    ensures Total(Schedule(r, s)) == r
    decreases s
  {
    if s > 1 {
      ShareBound(r, s);
      ScheduleTotal(r - r / s, s - 1);
    }
  }

  // ---------- runs of one order ----------

  /** A slice attempted at a price, or an oracle refresh. */
  datatype Event = Attempt(execution: U64) | Refresh(price: U64)

  function Next(o: Order, e: Event): Order {
    match e
    case Attempt(x) => Streamed(o, x)
    case Refresh(p) => if p == 0 || o.slicesRemaining == 0 || o.remainingIn == 0 then o else o.(referencePrice := p)
  }

  function Filled(o: Order, e: Event): seq<nat> {
    if e.Attempt? && Quote(o, e.execution).Ok? then [Quote(o, e.execution).value.amountIn] else []
  }

  function AfterAll(o: Order, events: seq<Event>): Order
    decreases |events|
  {
    if events == [] then o else AfterAll(Next(o, events[0]), events[1..])
  }

  function Fills(o: Order, events: seq<Event>): seq<nat>
    decreases |events|
  {
    if events == [] then [] else Filled(o, events[0]) + Fills(Next(o, events[0]), events[1..])
  }

  lemma SliceKeepsOrder(o: Order, e: Event)
    requires OrderOk(o)
    ensures OrderOk(Next(o, e))
    ensures Schedule(o.remainingIn, o.slicesRemaining) ==
      Filled(o, e) + Schedule(Next(o, e).remainingIn, Next(o, e).slicesRemaining)
  {
    var r, s := o.remainingIn, o.slicesRemaining;
    if s > 1 {
      DivAtLeast(r, s, 1);
      DivBounds(r, s);
      LeftForRest(r, s, r / s);
    }
  }

  lemma LeftForRest(r: nat, s: nat, a: nat)
    requires s > 1 && r >= s && a * s <= r
    ensures r - a >= s - 1
  {
    if a > 0 {
      MulMono(1, a, s - 1);
      TakeOne(a, s);
    }
  }

  /**
    Whatever prices are tried and whenever the oracle is refreshed, the successful fills are the
    slices of the schedule in order, each once; what is left is the rest of the schedule.
   */
  lemma {:induction false} FillsFollowSchedule(o: Order, events: seq<Event>)
    requires OrderOk(o)
    ensures var t := AfterAll(o, events);
      OrderOk(t) && Schedule(o.remainingIn, o.slicesRemaining) ==
        Fills(o, events) + Schedule(t.remainingIn, t.slicesRemaining)
    decreases |events|
  {
    if events != [] {
      var next := Next(o, events[0]);
      SliceKeepsOrder(o, events[0]);
      FillsFollowSchedule(next, events[1..]);
      var t := AfterAll(o, events);
      ConcatAssoc(Filled(o, events[0]), Fills(next, events[1..]), Schedule(t.remainingIn, t.slicesRemaining));
    }
  }

  /** An order is never stuck: while slices are left, a price at the reference fills the next one. */
  lemma NeverStuck(o: Order)
    requires OrderOk(o) && o.slicesRemaining > 0
    ensures Quote(o, o.referencePrice).Ok? && Quote(o, o.referencePrice).value.amountIn > 0
  {
    DivAtLeast(o.remainingIn, o.slicesRemaining, 1);
    DivAtLeast(0, o.referencePrice, 1);
  }

  /** A refreshed order fills its next slice at the new price. */
  lemma RefreshUnblocks(o: Order, price: U64)
    requires OrderOk(o) && o.slicesRemaining > 0 && price > 0
    ensures var n := Next(o, Refresh(price));
      OrderOk(n) && n.referencePrice == price && n == o.(referencePrice := price) && Quote(n, price).Ok?
  {
    NeverStuck(Next(o, Refresh(price)));
  }

  /** Only prices within the cap are filled. */
  lemma FillsAreWithinCap(o: Order, execution: U64)
    requires OrderOk(o) && 201 * o.referencePrice <= U64_MAX && Quote(o, execution).Ok?
    ensures WithinCap(execution, o.referencePrice)
  {
    CapIsExact(execution, o.referencePrice);
  }

  // ---------- the book ----------

  function Find(orders: seq<Order>, id: nat): (p: nat)
    ensures p <= |orders|
    ensures p < |orders| ==> orders[p].id == id
    ensures forall j | 0 <= j < p :: orders[j].id != id
  {
    if orders == [] || orders[0].id == id then 0 else 1 + Find(orders[1..], id)
  }

  class TwammEngine {
    var orders: seq<Order>
    var nextId: nat

    ghost predicate Valid()
      reads this
    {
      && (forall i | 0 <= i < |orders| :: OrderOk(orders[i]) && orders[i].id < nextId)
      && forall i, j | 0 <= i < j < |orders| :: orders[i].id != orders[j].id
    }

    constructor ()
      ensures Valid() && orders == [] && nextId == 1
    {
      orders, nextId := [], 1;
    }

    /** `submit_order`: every accepted order can be streamed to its end. */
    method SubmitOrder(side: OrderSide, amountIn: U64, slices0: U32, reference: U64) returns (r: Result<nat, Error>)
      requires Valid()
      modifies this
      ensures Valid()
      ensures var slices := Max(slices0, 1);
        r == if amountIn == 0 then Err(Error.ZeroAmount) else if reference == 0 then Err(InvalidPrice)
             else if amountIn < slices then Err(AmountTooSmall) else Ok(old(nextId))
      ensures nextId == old(nextId) + if r.Ok? then 1 else 0
      ensures orders == if r.Ok? then old(orders) + [Order(r.value, side, amountIn, Max(slices0, 1), reference)]
        else old(orders)
    {
      if amountIn == 0 {
        return Err(Error.ZeroAmount);
      }
      if reference == 0 {
        return Err(InvalidPrice);
      }
      var slices := Max(slices0, 1);
      if amountIn < slices {
        return Err(AmountTooSmall);
      }
      var id := nextId;
      nextId := nextId + 1;
      orders := orders + [Order(id, side, amountIn, slices, reference)];
      r := Ok(id);
    }

    /** `quote_slice`. */
    method QuoteSlice(id: nat, execution: U64) returns (r: Result<StreamFill, Error>)
      requires Valid()
      ensures var p := Find(orders, id); r == if p == |orders| then Err(OrderNotFound) else Quote(orders[p], execution)
    {
      var p := Find(orders, id);
      if p == |orders| {
        return Err(OrderNotFound);
      }
      var order := orders[p];
      if order.slicesRemaining == 0 || order.remainingIn == 0 {
        return Err(OrderExhausted);
      }
      var amountIn := SliceAmount(order);
      if amountIn == 0 {
        return Err(Error.ZeroAmount);
      }
      var bps := EnforceMaxSpread(execution, order.referencePrice);
      if bps.Err? {
        return Err(bps.error);
      }
      var out := QuoteFill(order.side, amountIn, execution);
      if out.Err? {
        return Err(out.error);
      }
      r := Ok(StreamFill(order.id, amountIn, out.value, execution, bps.value));
    }

    /** `stream_slice`: one order moves on by one slice, or nothing changes at all. */
    method StreamSlice(id: nat, execution: U64) returns (r: Result<StreamFill, Error>)
      requires Valid()
      modifies this
      ensures Valid() && nextId == old(nextId)
      ensures var p := Find(old(orders), id);
        if p == |old(orders)| then r == Err(OrderNotFound) && orders == old(orders)
        else r == Quote(old(orders)[p], execution) && orders == old(orders)[p := Streamed(old(orders)[p], execution)]
    {
      r := QuoteSlice(id, execution);
      var p := Find(orders, id);
      if p < |orders| {
        SliceKeepsOrder(orders[p], Attempt(execution));
        assert orders[p := orders[p]] == orders;
      }
      if r.Ok? {
        var order := orders[p];
        orders := orders[p := order.(remainingIn := SatSub(order.remainingIn, r.value.amountIn), slicesRemaining :=
          order.slicesRemaining - 1)];
      }
    }

    /** `refresh_reference_price`. */
    method RefreshReferencePrice(id: nat, price: U64) returns (r: Result<(), Error>)
      requires Valid()
      modifies this
      ensures Valid()
      ensures var p := Find(old(orders), id);
        && r == (if price == 0 then Err(InvalidPrice)
                 else if p == |old(orders)| then Err(OrderNotFound)
                 else if old(orders)[p].slicesRemaining == 0 || old(orders)[p].remainingIn == 0 then Err(OrderExhausted)
                 else Ok(()))
        && orders == if p == |old(orders)| then old(orders) else old(orders)[p := Next(old(orders)[p], Refresh(price))]
    {
      assert forall i | 0 <= i < |orders| :: orders[i := orders[i]] == orders;
      if price == 0 {
        return Err(InvalidPrice);
      }
      var p := Find(orders, id);
      if p == |orders| {
        return Err(OrderNotFound);
      }
      if orders[p].slicesRemaining == 0 || orders[p].remainingIn == 0 {
        return Err(OrderExhausted);
      }
      orders := orders[p := orders[p].(referencePrice := price)];
      r := Ok(());
    }
  }
}
