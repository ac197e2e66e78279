/** The constant-product pool of interop/src/openapi_gateway.rs. */
module Amm {
  import opened Common

  const SCALE := 1_000_000

  datatype OrderSide = Buy | Sell

  datatype SwapError = ZeroAmount | EmptyPool

  datatype Pool = Pool(base: U64, quote: U64)

  /** Quote per base, scale 1e6, truncated to 64 bits. */
  function MidPrice(p: Pool): U64 {
    if p.base == 0 then 0 else (p.quote * SCALE / p.base) % 0x1_0000_0000_0000_0000
  }

  /** What dx put into a reserve x takes out of the other reserve y. */
  function AmountOut(x: nat, y: nat, dx: nat): (dy: nat)
    requires x > 0
  {
    y * dx / (x + dx)
  }

  /** The quotient, cut to 64 bits, is the floor of n / d exactly when that fits. */
  lemma FloorIff(n: nat, d: nat, q: nat)
    requires d > 0 && q == n / d % 0x1_0000_0000_0000_0000
    ensures q * d <= n < (q + 1) * d <==> n < 0x1_0000_0000_0000_0000 * d
  {
    var f: nat := n / d;
    assert f * d <= n < (f + 1) * d by { DivBounds(n, d); }
    FloorFits(n, d, f, q);
  }

  lemma FloorFits(n: nat, d: nat, f: nat, q: nat)
    requires f * d <= n < (f + 1) * d && q == f % 0x1_0000_0000_0000_0000
    ensures q * d <= n < (q + 1) * d <==> n < 0x1_0000_0000_0000_0000 * d
  {
    if f < 0x1_0000_0000_0000_0000 {
      MulMono(f + 1, 0x1_0000_0000_0000_0000, d);
    } else {
      MulMono(0x1_0000_0000_0000_0000, f, d);
      MulMono(q + 1, f, d);
    }
  }

  /** Quote per base in millionths, rounded down, exactly while that fits in 64 bits. */
  lemma MidPriceInFigures(p: Pool)
    requires p.base > 0
    ensures var m := MidPrice(p);
      m * p.base <= p.quote * 1_000_000 < (m + 1) * p.base <==> p.quote * 1_000_000 < 0x1_0000_0000_0000_0000 * p.base
  {
    FloorIff(p.quote * SCALE, p.base, MidPrice(p));
  }

  /** The product of the reserves after paying out dy for dx. */
  function Product(x: nat, y: nat, dx: nat, dy: nat): int {
    (x + dx) * (y - dy)
  }

  lemma ProductGap(x: nat, y: nat, dx: nat, dy: nat)
    ensures Product(x, y, dx, dy) - x * y == y * dx - dy * (x + dx)
  {
  }

  /**
    The payout is the largest one that does not lower the product of the reserves, and it never
    empties the side it is paid from.
   */
  lemma OutIsLargestFair(x: nat, y: nat, dx: nat, dy: nat)
    requires x > 0 && y > 0
    ensures dy <= AmountOut(x, y, dx) <==> Product(x, y, dx, dy) >= x * y
    ensures AmountOut(x, y, dx) < y
  {
    var d := x + dx;
    var n := y * dx;
    var out := AmountOut(x, y, dx);
    DivBounds(n, d);
    ProductGap(x, y, dx, dy);
    if dy <= out { MulMono(dy, out, d); } else { MulMono(out + 1, dy, d); }
    Expand(y, x, dx);
    FactorLess(out, y, d);
  }

  lemma Expand(y: nat, x: nat, dx: nat)
    ensures y * (x + dx) == y * x + y * dx
    ensures x > 0 && y > 0 ==> y * x > 0
  {
  }

  lemma FactorLess(a: nat, b: nat, d: nat)
    requires a * d < b * d
    ensures a < b
  {
    if a >= b { MulMono(b, a, d); }
  }

  // ---------- slicing ----------

  /** Total paid out for a sequence of deposits, each swapped on its own. */
  function SlicedOut(x: nat, y: nat, dxs: seq<nat>): nat
    requires x > 0 && y > 0
    decreases |dxs|
  {
    if dxs == [] then 0
    else
      OutIsLargestFair(x, y, dxs[0], 0);
      var dy := AmountOut(x, y, dxs[0]);
      dy + SlicedOut(x + dxs[0], y - dy, dxs[1..])
  }

  function Total(dxs: seq<nat>): nat {
    if dxs == [] then 0 else dxs[0] + Total(dxs[1..])
  }

  lemma {:induction false} SlicesKeepProduct(x: nat, y: nat, dxs: seq<nat>)
    requires x > 0 && y > 0
    ensures SlicedOut(x, y, dxs) < y
    ensures Product(x, y, Total(dxs), SlicedOut(x, y, dxs)) >= x * y
    decreases |dxs|
  {
    if dxs != [] {
      var dy := AmountOut(x, y, dxs[0]);
      OutIsLargestFair(x, y, dxs[0], dy);
      SlicesKeepProduct(x + dxs[0], y - dy, dxs[1..]);
    }
  }

  /** However a deposit is sliced, it never takes out more than one swap of the whole. */
  lemma SlicingNeverPays(x: nat, y: nat, dxs: seq<nat>)
    requires x > 0 && y > 0
    ensures SlicedOut(x, y, dxs) <= AmountOut(x, y, Total(dxs))
  {
    SlicesKeepProduct(x, y, dxs);
    OutIsLargestFair(x, y, Total(dxs), SlicedOut(x, y, dxs));
  }

  // ---------- one swap ----------

  function Payout(p: Pool, side: OrderSide, dx: U64): (dy: U64)
    requires p.base > 0 && p.quote > 0
    ensures dy < if side == Buy then p.base else p.quote
  {
    OutIsLargestFair(p.base, p.quote, dx, 0);
    OutIsLargestFair(p.quote, p.base, dx, 0);
    if side == Buy then AmountOut(p.quote, p.base, dx) else AmountOut(p.base, p.quote, dx)
  }

  function Swapped(p: Pool, side: OrderSide, dx: U64): Pool
    requires p.base > 0 && p.quote > 0
  {
    var dy := Payout(p, side, dx);
    if side == Buy then Pool(SatSub(p.base, dy), SatAdd(p.quote, dx)) else Pool(SatAdd(p.base, dx), SatSub(p.quote, dy))
  }

  /**
    While the reserve paid into does not saturate, a swap moves exactly the deposit in and the
    payout out, never lowers the product of the reserves, and never empties the pool.
   */
  lemma SwapIsFair(p: Pool, side: OrderSide, dx: U64)
    requires p.base > 0 && p.quote > 0 && dx > 0
    requires (if side == Buy then p.quote else p.base) + dx <= U64_MAX
    ensures var q, dy := Swapped(p, side, dx), Payout(p, side, dx);
      && (if side == Buy then q.base == p.base - dy && q.quote == p.quote + dx
          else q.base == p.base + dx && q.quote == p.quote - dy)
      && q.base > 0 && q.quote > 0
      && q.base * q.quote >= p.base * p.quote
  {
    OutIsLargestFair(p.base, p.quote, dx, AmountOut(p.base, p.quote, dx));
    OutIsLargestFair(p.quote, p.base, dx, AmountOut(p.quote, p.base, dx));
  }

  // ---------- the pool ----------

  class GlobalAmmMock {
    var reserveBase: U64
    var reserveQuote: U64

    function Reserves(): Pool
      reads this
    {
      Pool(reserveBase, reserveQuote)
    }

    constructor (reserveBase: U64, reserveQuote: U64)
      ensures Reserves() == Pool(reserveBase, reserveQuote)
    {
      this.reserveBase, this.reserveQuote := reserveBase, reserveQuote;
    }

    /** `swap`: the pool moves as Swapped says and the trader gets the payout. */
    method Swap(side: OrderSide, amountIn: U64) returns (r: Result<U64, SwapError>)
      modifies this
      ensures amountIn == 0 ==> r == Err(ZeroAmount)
      ensures amountIn > 0 && (old(reserveBase) == 0 || old(reserveQuote) == 0) ==> r == Err(EmptyPool)
      ensures amountIn > 0 && old(reserveBase) > 0 && old(reserveQuote) > 0 ==>
        r == Ok(Payout(old(Reserves()), side, amountIn))
      ensures Reserves() == if r.Ok? then Swapped(old(Reserves()), side, amountIn) else old(Reserves())
    {
      if amountIn == 0 {
        return Err(ZeroAmount);
      }
      if reserveBase == 0 || reserveQuote == 0 {
        return Err(EmptyPool);
      }
      var dx := amountIn;
      var dy;
      match side {
        case Buy =>
          dy := AmountOut(reserveQuote, reserveBase, dx);
          OutIsLargestFair(reserveQuote, reserveBase, dx, dy);
          reserveQuote := SatAdd(reserveQuote, dx);
          reserveBase := SatSub(reserveBase, dy);
        case Sell =>
          dy := AmountOut(reserveBase, reserveQuote, dx);
          OutIsLargestFair(reserveBase, reserveQuote, dx, dy);
          reserveBase := SatAdd(reserveBase, dx);
          reserveQuote := SatSub(reserveQuote, dy);
      }
      r := Ok(dy);
    }
  }
}
