/** Hashed timelock contracts: interop/src/htlc.rs. */
module HashedTimelock {
  import opened Common

  type Digest = s: seq<U8> | |s| == 32
    witness [0, 0, 0, 0, 0, 0, 0, 0, 0, 0, 0, 0, 0, 0, 0, 0, 0, 0, 0, 0, 0, 0, 0, 0, 0, 0, 0, 0, 0, 0, 0, 0]

  /** SHA-256, left open. */
  type Sha = Bytes -> Digest

  const VDF_MODULUS := 1_000_003

  datatype HtlcState = Funded | Claimed | Refunded | VdfCancelled

  datatype HtlcError =
    | InvalidPreimage | NotFunded | TimeoutNotReached | VdfNotComplete
    | AlreadySettled | InvalidAmount | InvalidPaymentHash

  datatype MockVdf = MockVdf(start: U64, stepsRequired: U64, stepsCompleted: U64, current: U64)

  datatype HtlcParams = HtlcParams(
    id: Digest, sender: string, receiver: string, amount: U64, paymentHash: Digest,
    timeoutHeight: U64, fundedHeight: U64, vdfSteps: U64, vdfSeed: Option<U64>)

  datatype Contract = Contract(
    id: Digest, sender: string, receiver: string, amount: U64, paymentHash: Digest,
    timeoutHeight: U64, fundedHeight: U64, state: HtlcState, claimedPreimage: Option<Bytes>, vdf: MockVdf)

  // ---------- the sequential delay ----------

  function StepOnce(v: MockVdf): MockVdf {
    if v.stepsCompleted >= v.stepsRequired then v
    else v.(current := (v.current * v.current + v.stepsCompleted + 1) % VDF_MODULUS, stepsCompleted :=
      v.stepsCompleted + 1)
  }

  function Steps(v: MockVdf, n: nat): MockVdf {
    if n == 0 then v else StepOnce(Steps(v, n - 1))
  }

  /** Work adds up, however it is split, and stops exactly at the requirement. */
  lemma {:induction false} StepsAddUp(v: MockVdf, n: nat, m: nat)
    requires v.stepsCompleted <= v.stepsRequired
    ensures Steps(Steps(v, n), m) == Steps(v, n + m)
    ensures Steps(v, n + m).stepsCompleted == Min(v.stepsRequired, v.stepsCompleted + n + m)
    ensures Steps(v, n + m).stepsRequired == v.stepsRequired
  {
    if m > 0 {
      StepsAddUp(v, n, m - 1);
      assert Steps(v, n + m) == StepOnce(Steps(v, n + (m - 1)));
    } else if n > 0 {
      StepsAddUp(v, 0, n - 1);
      StepsAddUp(v, n - 1, 0);
    }
  }

  /** The chain: each step squares the tip and adds its own number, modulo 1,000,003, until the work is done. */
  lemma ChainOfSquares(v: MockVdf, n: nat)
    requires v.stepsCompleted <= v.stepsRequired
    ensures var x, i := Steps(v, n).current, v.stepsCompleted + n + 1;
      Steps(v, n + 1).current == if i <= v.stepsRequired then (x * x + i) % 1_000_003 else x
  {
    StepsAddUp(v, n, 0);
  }

  lemma {:induction false} StepsIdle(v: MockVdf, n: nat)
    requires v.stepsCompleted >= v.stepsRequired
    ensures Steps(v, n) == v
  {
    if n > 0 { StepsIdle(v, n - 1); }
  }

  lemma {:induction false} StepsFrom(v: MockVdf, n: nat)
    requires n > 0
    ensures Steps(v, n) == Steps(StepOnce(v), n - 1)
  {
    if n > 1 { StepsFrom(v, n - 1); }
  }

  /** `MockVdf::advance`. */
  method Advance(v0: MockVdf, n: U64) returns (v: MockVdf)
    ensures v == Steps(v0, n)
  {
    v := v0;
    for i := 0 to n
      invariant Steps(v, n - i) == Steps(v0, n)
    {
      if v.stepsCompleted >= v.stepsRequired {
        StepsIdle(v, n - i);
        break;
      }
      StepsFrom(v, n - i);
      v := StepOnce(v);
    }
  }

  // ---------- the contract's transitions ----------

  function Zero32(): Digest {
    seq(32, _ => 0)
  }

  function LittleEndian(b: Bytes): (n: nat)
    ensures n < Radix(|b|)
  {
    if b == [] then 0 else b[0] + 256 * LittleEndian(b[1..])
  }

  function Radix(n: nat): nat {
    if n == 0 then 1 else 256 * Radix(n - 1)
  }

  /** The last byte weighs most. */
  lemma {:induction false} LastByteWeighsMost(b: Bytes, x: U8)
    ensures LittleEndian([]) == 0 && LittleEndian(b + [x]) == LittleEndian(b) + x * Radix(|b|)
  {
    if b == [] {
      assert [x][1..] == [];
    } else {
      assert (b + [x])[1..] == b[1..] + [x];
      LastByteWeighsMost(b[1..], x);
      assert x * Radix(|b|) == 256 * (x * Radix(|b| - 1));
    }
  }

  /** `Htlc::fund`. */
  function Fund(p: HtlcParams): Result<Contract, HtlcError> {
    if p.amount == 0 then Err(InvalidAmount)
    else if p.paymentHash == Zero32() then Err(InvalidPaymentHash)
    else
      assert Radix(8) == U64_MAX + 1;
      var seed: U64 := if p.vdfSeed.Some? then p.vdfSeed.value else LittleEndian(p.id[..8]);
      Ok(Contract(p.id, p.sender, p.receiver, p.amount, p.paymentHash, p.timeoutHeight, p.fundedHeight,
                  Funded, None, MockVdf(seed, p.vdfSteps, 0, seed)))
  }

  /** A contract is funded unless it is worth nothing or its payment hash is all zeros, and takes over its terms. */
  lemma FundsTerms(p: HtlcParams)
    ensures Fund(p).Ok? <==> p.amount > 0 && exists i :: 0 <= i < 32 && p.paymentHash[i] != 0
    ensures Fund(p).Ok? ==> var c := Fund(p).value;
      && c.id == p.id && c.sender == p.sender && c.receiver == p.receiver && c.amount == p.amount
      && c.paymentHash == p.paymentHash && c.timeoutHeight == p.timeoutHeight && c.fundedHeight == p.fundedHeight
      && c.state == Funded && c.claimedPreimage == None
      && c.vdf.stepsRequired == p.vdfSteps && c.vdf.stepsCompleted == 0
      && c.vdf.current == c.vdf.start == if p.vdfSeed.Some? then p.vdfSeed.value else LittleEndian(p.id[..8])
  {
    if forall i | 0 <= i < 32 :: p.paymentHash[i] == 0 {
      assert p.paymentHash == Zero32();
    }
  }

  function Claim(c: Contract, preimage: Bytes, sha: Sha): Result<Contract, HtlcError> {
    if c.state != Funded then Err(AlreadySettled)
    else if sha(preimage) != c.paymentHash then Err(InvalidPreimage)
    else Ok(c.(claimedPreimage := Some(preimage), state := Claimed))
  }

  function Refund(c: Contract, height: U64): Result<Contract, HtlcError> {
    if c.state != Funded then Err(AlreadySettled)
    else if height < c.timeoutHeight then Err(TimeoutNotReached)
    else Ok(c.(state := Refunded))
  }

  function AdvanceVdf(c: Contract, steps: U64): Result<Contract, HtlcError> {
    if c.state != Funded then Err(AlreadySettled) else Ok(c.(vdf := Steps(c.vdf, steps)))
  }

  function VdfCancel(c: Contract): Result<Contract, HtlcError> {
    if c.state != Funded then Err(AlreadySettled)
    else if c.vdf.stepsCompleted < c.vdf.stepsRequired then Err(VdfNotComplete)
    else Ok(c.(state := VdfCancelled))
  }

  /** The outcome of a transition for the object it was called on. */
  function After(c: Contract, r: Result<Contract, HtlcError>): Contract {
    if r.Ok? then r.value else c
  }

  function Verdict(r: Result<Contract, HtlcError>): Result<(), HtlcError> {
    if r.Ok? then Ok(()) else Err(r.error)
  }

  class Htlc {
    const id: Digest
    const sender: string
    const receiver: string
    const amount: U64
    const paymentHash: Digest
    const timeoutHeight: U64
    const fundedHeight: U64
    var state: HtlcState
    var claimedPreimage: Option<Bytes>
    var vdf: MockVdf

    function Value(): Contract
      reads this
    {
      Contract(id, sender, receiver, amount, paymentHash, timeoutHeight, fundedHeight, state, claimedPreimage, vdf)
    }

    constructor (c: Contract)
      ensures Value() == c
    {
      id, sender, receiver, amount := c.id, c.sender, c.receiver, c.amount;
      paymentHash, timeoutHeight, fundedHeight := c.paymentHash, c.timeoutHeight, c.fundedHeight;
      state, claimedPreimage, vdf := c.state, c.claimedPreimage, c.vdf;
    }

    method ClaimWith(preimage: Bytes, sha: Sha) returns (r: Result<(), HtlcError>)
      modifies this
      ensures Value() == After(old(Value()), Claim(old(Value()), preimage, sha))
      ensures r == Verdict(Claim(old(Value()), preimage, sha))
    {
      if state != Funded {
        return Err(AlreadySettled);
      }
      if sha(preimage) != paymentHash {
        return Err(InvalidPreimage);
      }
      claimedPreimage := Some(preimage);
      state := Claimed;
      r := Ok(());
    }

    method RefundAt(height: U64) returns (r: Result<(), HtlcError>)
      modifies this
      ensures Value() == After(old(Value()), Refund(old(Value()), height))
      ensures r == Verdict(Refund(old(Value()), height))
    {
      if state != Funded {
        return Err(AlreadySettled);
      }
      if height < timeoutHeight {
        return Err(TimeoutNotReached);
      }
      state := Refunded;
      r := Ok(());
    }

    method Burn(steps: U64) returns (r: Result<(), HtlcError>)
      modifies this
      ensures Value() == After(old(Value()), AdvanceVdf(old(Value()), steps))
      ensures r == Verdict(AdvanceVdf(old(Value()), steps))
    {
      if state != Funded {
        return Err(AlreadySettled);
      }
      vdf := Advance(vdf, steps);
      r := Ok(());
    }

    method Cancel() returns (r: Result<(), HtlcError>)
      modifies this
      ensures Value() == After(old(Value()), VdfCancel(old(Value())))
      ensures r == Verdict(VdfCancel(old(Value())))
    {
      if state != Funded {
        return Err(AlreadySettled);
      }
      if vdf.stepsCompleted < vdf.stepsRequired {
        return Err(VdfNotComplete);
      }
      state := VdfCancelled;
      r := Ok(());
    }
  }
}
