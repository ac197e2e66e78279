/** The escrow ledger of interop/src/credits.rs. */
module Credits {
  import opened Common
  import opened HashedTimelock

  datatype CreditError =
    | UnknownAccount(account: string)
    | InsufficientBalance(available: U64, required: U64)
    | DuplicateEscrow(id: Digest)
    | UnknownEscrow(escrow: Digest)
    | HtlcFailed(cause: HtlcError)
    | Overflow

  datatype LedgerState = LedgerState(accounts: map<string, U64>, escrows: map<Digest, Contract>)

  // ---------- sums over maps ----------

  ghost function Sum<K>(m: map<K, nat>): nat
    decreases |m|
  {
    if m == map[] then 0
    else
      var k :| k in m;
      m[k] + Sum(m - {k})
  }

  lemma {:induction false} SumOut<K>(m: map<K, nat>, k: K)
    requires k in m
    ensures Sum(m) == m[k] + Sum(m - {k})
    decreases |m|
  {
    var j :| j in m && Sum(m) == m[j] + Sum(m - {j});
    if j != k {
      SumOut(m - {j}, k);
      SumOut(m - {k}, j);
      assert m - {j} - {k} == m - {k} - {j};
    }
  }

  /** Putting one entry changes the sum by the difference. */
  lemma SumPut<K>(m: map<K, nat>, k: K, v: nat)
    ensures Sum(m[k := v]) == Sum(m) - (if k in m then m[k] else 0) + v
  {
    SumOut(m[k := v], k);
    if k in m {
      SumOut(m, k);
      assert m[k := v] - {k} == m - {k};
    } else {
      assert m[k := v] - {k} == m;
    }
  }

  lemma OneEntry<K>(m: map<K, nat>, k: K)
    requires k in m
    ensures m[k] <= Sum(m)
  {
    SumOut(m, k);
  }

  function Locked(escrows: map<Digest, Contract>): map<Digest, nat> {
    map id | id in escrows :: if escrows[id].state == Funded then escrows[id].amount else 0
  }

  /** Free balances plus open escrows. */
  ghost function Supply(s: LedgerState): nat {
    Sum(s.accounts) + Sum(Locked(s.escrows))
  }

  // ---------- operations ----------

  datatype Op =
    | Mint(account: string, amount: U64)
    | Open(params: HtlcParams)
    | ClaimOp(id: Digest, preimage: Bytes)
    | RefundOp(id: Digest, height: U64)
    | AdvanceOp(id: Digest, steps: U64)
    | CancelOp(id: Digest)

  datatype Outcome = Done | Paid(to: string, amount: U64) | Failed(error: CreditError)

  /** checked_add on one account, creating it first. */
  function CreditFree(s: LedgerState, account: string, amount: U64): Result<LedgerState, CreditError> {
    var free := if account in s.accounts then s.accounts[account] else 0;
    if free + amount > U64_MAX then Err(Overflow) else Ok(s.(accounts := s.accounts[account := free + amount]))
  }

  /** A transition of one escrow, followed by the payout to `to` when it succeeds. */
  function Settle(s: LedgerState, id: Digest, r: Result<Contract, HtlcError>, to: string): (LedgerState, Outcome)
    requires id in s.escrows
  {
    if r.Err? then (s, Failed(HtlcFailed(r.error)))
    else
      var t := s.(escrows := s.escrows[id := r.value]);
      var paid := CreditFree(t, to, r.value.amount);
      if paid.Ok? then (paid.value, Paid(to, r.value.amount)) else (t, Failed(Overflow))
  }

  function Step(s: LedgerState, op: Op, sha: Sha): (LedgerState, Outcome) {
    match op
    case Mint(account, amount) =>
      var r := CreditFree(s, account, amount);
      if r.Ok? then (r.value, Done) else (s, Failed(Overflow))
    case Open(p) =>
      if p.id in s.escrows then (s, Failed(DuplicateEscrow(p.id)))
      else if p.sender !in s.accounts then (s, Failed(UnknownAccount(p.sender)))
      else if s.accounts[p.sender] < p.amount then (s, Failed(InsufficientBalance(s.accounts[p.sender], p.amount)))
      else
        var r := Fund(p);
        if r.Err? then (s, Failed(HtlcFailed(r.error)))
        else (LedgerState(s.accounts[p.sender := s.accounts[p.sender] - p.amount], s.escrows[p.id := r.value]), Done)
    case ClaimOp(id, preimage) =>
      if id !in s.escrows then (s, Failed(UnknownEscrow(id)))
      else Settle(s, id, Claim(s.escrows[id], preimage, sha), s.escrows[id].receiver)
    case RefundOp(id, height) =>
      if id !in s.escrows then (s, Failed(UnknownEscrow(id)))
      else Settle(s, id, Refund(s.escrows[id], height), s.escrows[id].sender)
    case AdvanceOp(id, steps) =>
      if id !in s.escrows then (s, Failed(UnknownEscrow(id)))
      else
        var r := AdvanceVdf(s.escrows[id], steps);
        if r.Err? then (s, Failed(HtlcFailed(r.error))) else (s.(escrows := s.escrows[id := r.value]), Done)
    case CancelOp(id) =>
      if id !in s.escrows then (s, Failed(UnknownEscrow(id)))
      else Settle(s, id, VdfCancel(s.escrows[id]), s.escrows[id].sender)
  }

  // ---------- whose balance moves ----------

  function Balance(s: LedgerState, account: string): nat {
    if account in s.accounts then s.accounts[account] else 0
  }

  /** Each operation moves the balances its outcome names, and no others. */
  lemma BalancesMove(s: LedgerState, op: Op, sha: Sha, account: string)
    ensures var (t, o) := Step(s, op, sha);
      Balance(t, account) == Balance(s, account)
        + (if op.Mint? && o == Done && op.account == account then op.amount else 0)
        - (if op.Open? && o == Done && op.params.sender == account then op.params.amount else 0)
        + (if o.Paid? && o.to == account then o.amount else 0)
  {
    hide Steps, Radix;
  }

  /** An escrow opens exactly under a new id, with a positive amount the sender has and a non-zero hash. */
  lemma OpensIff(s: LedgerState, p: HtlcParams, sha: Sha)
    ensures Step(s, Open(p), sha).1 == Done <==>
      && p.id !in s.escrows && p.sender in s.accounts && 0 < p.amount <= s.accounts[p.sender]
      && exists i :: 0 <= i < 32 && p.paymentHash[i] != 0
    ensures var (t, o) := Step(s, Open(p), sha);
      o == Done ==>
        && p.id in t.escrows && t.escrows[p.id].sender == p.sender && t.escrows[p.id].receiver == p.receiver
        && t.escrows[p.id].amount == p.amount && t.escrows[p.id].paymentHash == p.paymentHash
        && t.escrows[p.id].timeoutHeight == p.timeoutHeight && t.escrows[p.id].vdf.stepsRequired == p.vdfSteps
        && t.escrows[p.id].vdf.stepsCompleted == 0 && t.escrows[p.id].state == Funded
  {
    FundsTerms(p);
    hide Fund;
  }

  /** An escrow's terms: who pays whom how much, against what hash, height and work. */
  function Terms(c: Contract): (string, string, U64, Digest, U64, U64) {
    (c.sender, c.receiver, c.amount, c.paymentHash, c.timeoutHeight, c.vdf.stepsRequired)
  }

  lemma {:induction false} WorkKeepsRequirement(v: MockVdf, n: nat)
    ensures Steps(v, n).stepsRequired == v.stepsRequired
  {
    if n > 0 { WorkKeepsRequirement(v, n - 1); }
  }

  lemma StepKeepsTerms(s: LedgerState, op: Op, sha: Sha, id: Digest)
    requires id in s.escrows
    ensures id in Step(s, op, sha).0.escrows && Terms(Step(s, op, sha).0.escrows[id]) == Terms(s.escrows[id])
  {
    if op.AdvanceOp? { WorkKeepsRequirement(s.escrows[id].vdf, op.steps); }
    hide Steps, Fund;
  }

  // ---------- conservation ----------

  lemma EscrowPut(escrows: map<Digest, Contract>, id: Digest, c: Contract)
    ensures Sum(Locked(escrows[id := c])) ==
      Sum(Locked(escrows)) - (if id in escrows && escrows[id].state == Funded then escrows[id].amount else 0)
      + (if c.state == Funded then c.amount else 0)
  {
    var v := if c.state == Funded then c.amount else 0;
    assert Locked(escrows[id := c]) == Locked(escrows)[id := v];
    SumPut(Locked(escrows), id, v);
  }

  /** Credits that an operation adds to or removes from the books. */
  function Issued(s: LedgerState, op: Op, sha: Sha): int {
    var o := Step(s, op, sha).1;
    if op.Mint? && o == Done then op.amount
    else if !op.Mint? && !op.Open? && o == Failed(Overflow) then -(s.escrows[op.id].amount as int)
    else 0
  }

  lemma CreditFreeConserves(s: LedgerState, to: string, amount: U64)
    ensures var r := CreditFree(s, to, amount);
      (r.Ok? ==> Supply(r.value) == Supply(s) + amount && r.value.escrows == s.escrows)
      && (r.Err? ==> r.error == Overflow && Sum(s.accounts) + amount > U64_MAX)
  {
    var free := if to in s.accounts then s.accounts[to] else 0;
    SumPut(s.accounts, to, free + amount);
    if to in s.accounts { OneEntry(s.accounts, to); }
  }

  /** A settling transition leaves the funded state and touches no amount. */
  ghost predicate Settles(c: Contract, r: Result<Contract, HtlcError>) {
    r.Ok? ==> c.state == Funded && r.value.state != Funded && r.value.amount == c.amount
  }

  lemma SettleConserves(s: LedgerState, id: Digest, r: Result<Contract, HtlcError>, to: string)
    requires id in s.escrows && Settles(s.escrows[id], r)
    ensures var (t, o) := Settle(s, id, r, to);
      && Supply(t) == Supply(s) - (if o == Failed(Overflow) then s.escrows[id].amount else 0)
      && (o == Failed(Overflow) ==> Supply(s) > U64_MAX)
  {
    if r.Ok? {
      var t := s.(escrows := s.escrows[id := r.value]);
      EscrowPut(s.escrows, id, r.value);
      CreditFreeConserves(t, to, r.value.amount);
      OneEntry(Locked(s.escrows), id);
    }
  }

  /**
    Every step conserves the supply except a successful mint, which adds its amount, and a payout
    that overflows the payee's balance, whose escrow is settled without anybody being paid. The
    latter needs a supply that does not fit in u64.
   */
  lemma StepConserves(s: LedgerState, op: Op, sha: Sha)
    ensures Supply(Step(s, op, sha).0) == Supply(s) + Issued(s, op, sha)
    ensures !op.Mint? && Step(s, op, sha).1 == Failed(Overflow) ==> Supply(s) > U64_MAX
  {
    hide Locked, Radix, Steps, Sum;
    match op {
      case Mint(account, amount) => CreditFreeConserves(s, account, amount);
      case Open(p) =>
        if Step(s, op, sha).1 == Done {
          SumPut(s.accounts, p.sender, s.accounts[p.sender] - p.amount);
          EscrowPut(s.escrows, p.id, Fund(p).value);
        }
      case ClaimOp(id, preimage) =>
        if id in s.escrows { SettleConserves(s, id, Claim(s.escrows[id], preimage, sha), s.escrows[id].receiver); }
      case RefundOp(id, height) =>
        if id in s.escrows { SettleConserves(s, id, Refund(s.escrows[id], height), s.escrows[id].sender); }
      case AdvanceOp(id, steps) =>
        if id in s.escrows && s.escrows[id].state == Funded {
          EscrowPut(s.escrows, id, AdvanceVdf(s.escrows[id], steps).value);
        }
      case CancelOp(id) =>
        if id in s.escrows { SettleConserves(s, id, VdfCancel(s.escrows[id]), s.escrows[id].sender); }
    }
  }

  // ---------- whole runs ----------

  const EMPTY := LedgerState(map[], map[])

  function RunAll(s: LedgerState, ops: seq<Op>, sha: Sha): LedgerState {
    if ops == [] then s else Step(RunAll(s, ops[..|ops| - 1], sha), ops[|ops| - 1], sha).0
  }

  /** The outcome of the i-th operation of a run. */
  function OutcomeAt(s: LedgerState, ops: seq<Op>, sha: Sha, i: nat): Outcome
    requires i < |ops|
  {
    Step(RunAll(s, ops[..i], sha), ops[i], sha).1
  }

  /** The total of successful mints. */
  function Minted(s: LedgerState, ops: seq<Op>, sha: Sha): nat {
    if ops == [] then 0
    else
      var n := |ops| - 1;
      Minted(s, ops[..n], sha) + (if ops[n].Mint? && OutcomeAt(s, ops, sha, n) == Done then ops[n].amount else 0)
  }

  ghost predicate NoPayoutOverflows(ops: seq<Op>, sha: Sha) {
    forall i | 0 <= i < |ops| && !ops[i].Mint? :: OutcomeAt(EMPTY, ops, sha, i) != Failed(Overflow)
  }

  lemma NoneSoFar(ops: seq<Op>, n: nat, sha: Sha)
    requires n + 1 == |ops| && NoPayoutOverflows(ops[..n], sha)
    requires !ops[n].Mint? ==> OutcomeAt(EMPTY, ops, sha, n) != Failed(Overflow)
    ensures NoPayoutOverflows(ops, sha)
  {
    forall i | 0 <= i < n && !ops[i].Mint? ensures OutcomeAt(EMPTY, ops, sha, i) != Failed(Overflow) {
      OutcomeOfFront(EMPTY, ops, n, i, sha);
      assert ops[..n][i] == ops[i];
    }
  }

  /**
    Over every run that mints at most u64::MAX in all, free balances plus open escrows equal the
    total minted, and no operation but a mint reports an overflow.
   */
  lemma {:induction false} RunConserves(ops: seq<Op>, sha: Sha)
    requires Minted(EMPTY, ops, sha) <= U64_MAX
    ensures Supply(RunAll(EMPTY, ops, sha)) == Minted(EMPTY, ops, sha)
    ensures NoPayoutOverflows(ops, sha)
    decreases |ops|
  {
    if ops != [] {
      var n := |ops| - 1;
      RunConserves(ops[..n], sha);
      StepConserves(RunAll(EMPTY, ops[..n], sha), ops[n], sha);
      NoneSoFar(ops, n, sha);
    }
  }

  lemma OutcomeOfFront(s: LedgerState, ops: seq<Op>, n: nat, i: nat, sha: Sha)
    requires i < n <= |ops|
    ensures OutcomeAt(s, ops[..n], sha, i) == OutcomeAt(s, ops, sha, i)
  {
    assert ops[..n][..i] == ops[..i];
  }

  /** A mint reports an overflow exactly when the account's balance would not fit. */
  lemma MintOverflows(s: LedgerState, account: string, amount: U64, sha: Sha)
    ensures Step(s, Mint(account, amount), sha).1 == Failed(Overflow) <==>
      account in s.accounts && s.accounts[account] + amount > U64_MAX
  {
  }

  /** No run changes the terms an escrow was opened with. */
  lemma {:induction false} RunKeepsTerms(s: LedgerState, ops: seq<Op>, sha: Sha, id: Digest)
    requires id in s.escrows
    ensures id in RunAll(s, ops, sha).escrows && Terms(RunAll(s, ops, sha).escrows[id]) == Terms(s.escrows[id])
    decreases |ops|
  {
    if ops != [] {
      var front := ops[..|ops| - 1];
      RunKeepsTerms(s, front, sha, id);
      StepKeepsTerms(RunAll(s, front, sha), ops[|ops| - 1], sha, id);
    }
  }

  // ---------- payouts ----------

  datatype Payout = Payout(op: Op, to: string, amount: U64)

  function PayoutOf(op: Op, o: Outcome): seq<Payout> {
    if o.Paid? then [Payout(op, o.to, o.amount)] else []
  }

  function Payouts(s: LedgerState, ops: seq<Op>, sha: Sha): seq<Payout> {
    if ops == [] then []
    else
      var n := |ops| - 1;
      Payouts(s, ops[..n], sha) + PayoutOf(ops[n], OutcomeAt(s, ops, sha, n))
  }

  predicate Settling(op: Op) {
    op.ClaimOp? || op.RefundOp? || op.CancelOp?
  }

  /** The escrow a payout came from, settled for the reason the payout gives. */
  ghost predicate Justified(c: Contract, p: Payout, sha: Sha) {
    && p.amount == c.amount
    && match p.op
       case ClaimOp(_, preimage) =>
         && p.to == c.receiver && c.state == Claimed
         && sha(preimage) == c.paymentHash && c.claimedPreimage == Some(preimage)
       case RefundOp(_, height) => p.to == c.sender && c.state == Refunded && height >= c.timeoutHeight
       case CancelOp(_) => p.to == c.sender && c.state == VdfCancelled && c.vdf.stepsCompleted >= c.vdf.stepsRequired
       case _ => false
  }

  ghost predicate EachPaidOnce(s: LedgerState, ps: seq<Payout>, sha: Sha) {
    && (forall p | p in ps :: Settling(p.op) && p.op.id in s.escrows && Justified(s.escrows[p.op.id], p, sha))
    && forall i, j | 0 <= i < j < |ps| :: Settling(ps[i].op) && Settling(ps[j].op) ==> ps[i].op.id != ps[j].op.id
  }

  /** A settled escrow never changes again; an open one keeps its terms. */
  lemma SettledForGood(s: LedgerState, op: Op, sha: Sha, id: Digest)
    requires id in s.escrows
    ensures var t := Step(s, op, sha).0;
      id in t.escrows && (s.escrows[id].state != Funded ==> t.escrows[id] == s.escrows[id])
  {
  }

  lemma PaidMeansOpen(s: LedgerState, op: Op, sha: Sha)
    requires Step(s, op, sha).1.Paid?
    ensures Settling(op) && op.id in s.escrows && s.escrows[op.id].state == Funded
    ensures var (t, o) := Step(s, op, sha);
      op.id in t.escrows && Justified(t.escrows[op.id], Payout(op, o.to, o.amount), sha)
  {
  }

  /**
    Over every run each escrow pays out at most once: to the receiver for a preimage of its hash, or
    to the sender at or after its timeout height or after its required sequential work.
   */
  lemma {:induction false} PaidAtMostOnce(s: LedgerState, ops: seq<Op>, sha: Sha)
    ensures EachPaidOnce(RunAll(s, ops, sha), Payouts(s, ops, sha), sha)
    decreases |ops|
  {
    if ops != [] {
      var n := |ops| - 1;
      var front, op := ops[..n], ops[n];
      var mid, ps := RunAll(s, front, sha), Payouts(s, front, sha);
      PaidAtMostOnce(s, front, sha);
      PayoutKeeps(mid, op, ps, sha);
      assert OutcomeAt(s, ops, sha, n) == Step(mid, op, sha).1;
    }
  }

  lemma PayoutKeeps(mid: LedgerState, op: Op, ps: seq<Payout>, sha: Sha)
    requires EachPaidOnce(mid, ps, sha)
    ensures EachPaidOnce(Step(mid, op, sha).0, ps + PayoutOf(op, Step(mid, op, sha).1), sha)
  {
    var (t, o) := Step(mid, op, sha);
    forall p | p in ps ensures p.op.id in t.escrows && Justified(t.escrows[p.op.id], p, sha) {
      SettledForGood(mid, op, sha, p.op.id);
    }
    if o.Paid? {
      PaidMeansOpen(mid, op, sha);
      forall p | p in ps ensures p.op.id != op.id {
        assert Justified(mid.escrows[p.op.id], p, sha);
      }
      var all := ps + [Payout(op, o.to, o.amount)];
      assert forall i | 0 <= i < |ps| :: all[i] == ps[i] && ps[i] in ps;
    }
  }

  ghost predicate PaidFor(ps: seq<Payout>, id: Digest) {
    exists p :: p in ps && Settling(p.op) && p.op.id == id
  }

  lemma NewlySettled(mid: LedgerState, op: Op, sha: Sha, id: Digest)
    requires id in Step(mid, op, sha).0.escrows && Step(mid, op, sha).0.escrows[id].state != Funded
    requires id in mid.escrows ==> mid.escrows[id].state == Funded
    ensures Settling(op) && op.id == id && (Step(mid, op, sha).1.Paid? || Step(mid, op, sha).1 == Failed(Overflow))
  {
  }

  /** ... and, mints being bounded, every settled escrow did pay out. */
  lemma {:induction false} SettledWasPaid(ops: seq<Op>, sha: Sha, id: Digest)
    requires Minted(EMPTY, ops, sha) <= U64_MAX
    requires id in RunAll(EMPTY, ops, sha).escrows && RunAll(EMPTY, ops, sha).escrows[id].state != Funded
    ensures PaidFor(Payouts(EMPTY, ops, sha), id)
    decreases |ops|
  {
    var n := |ops| - 1;
    var front, op := ops[..n], ops[n];
    var mid := RunAll(EMPTY, front, sha);
    var last := PayoutOf(op, OutcomeAt(EMPTY, ops, sha, n));
    if id in mid.escrows && mid.escrows[id].state != Funded {
      SettledWasPaid(front, sha, id);
      var p :| p in Payouts(EMPTY, front, sha) && Settling(p.op) && p.op.id == id;
      assert p in Payouts(EMPTY, front, sha) + last;
    } else {
      NewlySettled(mid, op, sha, id);
      RunConserves(ops, sha);
      assert OutcomeAt(EMPTY, ops, sha, n) == Step(mid, op, sha).1;
      var p := last[0];
      assert p in Payouts(EMPTY, front, sha) + last;
    }
  }

  // ---------- sequential work before a cancel ----------

  function WorkOn(ops: seq<Op>, id: Digest): nat {
    if ops == [] then 0
    else
      var op := ops[|ops| - 1];
      WorkOn(ops[..|ops| - 1], id) + (if op.AdvanceOp? && op.id == id then op.steps else 0)
  }

  ghost predicate WorkDone(start: Contract, now: Contract, work: nat) {
    now.state == Funded ==>
      && start.state == Funded && now.vdf == Steps(start.vdf, work)
      && now.vdf.stepsCompleted == Min(start.vdf.stepsRequired, start.vdf.stepsCompleted + work)
  }

  lemma WorkStep(start: Contract, s: LedgerState, op: Op, work: nat, sha: Sha, id: Digest)
    requires id in s.escrows && WorkDone(start, s.escrows[id], work) &&
      start.vdf.stepsCompleted <= start.vdf.stepsRequired
    ensures var t := Step(s, op, sha).0;
      id in t.escrows && WorkDone(start, t.escrows[id], work + if op.AdvanceOp? && op.id == id then op.steps else 0)
  {
    SettledForGood(s, op, sha, id);
    if op.AdvanceOp? && op.id == id {
      StepsAddUp(start.vdf, work, op.steps);
    }
  }

  /** An escrow that stays open has burned exactly the sequential steps asked of it, in order. */
  lemma {:induction false} WorkAccumulates(s: LedgerState, ops: seq<Op>, sha: Sha, id: Digest)
    requires id in s.escrows && s.escrows[id].vdf.stepsCompleted <= s.escrows[id].vdf.stepsRequired
    ensures id in RunAll(s, ops, sha).escrows
    ensures WorkDone(s.escrows[id], RunAll(s, ops, sha).escrows[id], WorkOn(ops, id))
    decreases |ops|
  {
    hide Zero32;
    if ops != [] {
      var front := ops[..|ops| - 1];
      WorkAccumulates(s, front, sha, id);
      WorkStep(s.escrows[id], RunAll(s, front, sha), ops[|ops| - 1], WorkOn(front, id), sha, id);
    }
  }

  // ---------- what overflows ----------

  function Payee(c: Contract, op: Op): string {
    if op.ClaimOp? then c.receiver else c.sender
  }

  /** The contract is open and the operation shows what it takes to settle it. */
  predicate Rightful(c: Contract, op: Op, sha: Sha) {
    && c.state == Funded
    && match op
       case ClaimOp(_, preimage) => sha(preimage) == c.paymentHash
       case RefundOp(_, height) => height >= c.timeoutHeight
       case CancelOp(_) => c.vdf.stepsCompleted >= c.vdf.stepsRequired
       case _ => false
  }

  predicate NoRoom(s: LedgerState, account: string, amount: U64) {
    account in s.accounts && s.accounts[account] + amount > U64_MAX
  }

  /**
    A claim, refund or cancel reports an overflow exactly when it is rightful and its payee's balance
    would not fit in u64; the escrow is settled all the same, so its amount is lost for good.
    It pays exactly when it is rightful and the balance fits.
   */
  lemma SettlementLosesCreditIff(s: LedgerState, op: Op, sha: Sha)
    requires Settling(op) && op.id in s.escrows
    ensures var c := s.escrows[op.id];
      var (t, o) := Step(s, op, sha);
      && (o == Failed(Overflow) <==> Rightful(c, op, sha) && NoRoom(s, Payee(c, op), c.amount))
      && (o == Paid(Payee(c, op), c.amount) <==> Rightful(c, op, sha) && !NoRoom(s, Payee(c, op), c.amount))
      && (o == Failed(Overflow) ==>
            Supply(t) == Supply(s) - c.amount && t.accounts == s.accounts && t.escrows[op.id].state != Funded)
  {
    StepConserves(s, op, sha);
  }

  /** A claim that is lost: minting alone can fill the receiver and still fund the sender. */
  lemma LostClaim(p: HtlcParams, preimage: Bytes, sha: Sha)
    requires p.sender != p.receiver && p.amount > 0 && p.paymentHash == sha(preimage) != Zero32()
    ensures var ops := [Mint(p.receiver, U64_MAX), Mint(p.sender, p.amount), Open(p), ClaimOp(p.id, preimage)];
      OutcomeAt(EMPTY, ops, sha, 3) == Failed(Overflow)
  {
    var ops := [Mint(p.receiver, U64_MAX), Mint(p.sender, p.amount), Open(p), ClaimOp(p.id, preimage)];
    var s1 := LedgerState(map[p.receiver := U64_MAX], map[]);
    var s2 := LedgerState(map[p.receiver := U64_MAX, p.sender := p.amount], map[]);
    assert ops[..1] == [ops[0]] && ops[..2] == [ops[0], ops[1]] && ops[..3] == [ops[0], ops[1], ops[2]];
    RunOne(EMPTY, ops[..1], sha, EMPTY, s1);
    RunOne(EMPTY, ops[..2], sha, s1, s2);
    RunOne(EMPTY, ops[..3], sha, s2, Step(s2, Open(p), sha).0);
  }

  /** A refund that is lost: the sender's account fills up while its credits are in escrow. */
  lemma LostRefund(p: HtlcParams, height: U64, sha: Sha)
    requires p.amount > 0 && p.paymentHash != Zero32() && height >= p.timeoutHeight
    ensures var ops := [Mint(p.sender, p.amount), Open(p), Mint(p.sender, U64_MAX), RefundOp(p.id, height)];
      OutcomeAt(EMPTY, ops, sha, 3) == Failed(Overflow)
  {
    hide Radix;
    var ops := [Mint(p.sender, p.amount), Open(p), Mint(p.sender, U64_MAX), RefundOp(p.id, height)];
    var s1 := LedgerState(map[p.sender := p.amount], map[]);
    var s2 := LedgerState(map[p.sender := 0], map[p.id := Fund(p).value]);
    assert ops[..1] == [ops[0]] && ops[..2] == [ops[0], ops[1]] && ops[..3] == [ops[0], ops[1], ops[2]];
    RunOne(EMPTY, ops[..1], sha, EMPTY, s1);
    RunOne(EMPTY, ops[..2], sha, s1, s2);
    RunOne(EMPTY, ops[..3], sha, s2, Step(s2, ops[2], sha).0);
  }

  lemma RunOne(s: LedgerState, ops: seq<Op>, sha: Sha, mid: LedgerState, end: LedgerState)
    requires ops != [] && RunAll(s, ops[..|ops| - 1], sha) == mid && Step(mid, ops[|ops| - 1], sha).0 == end
    ensures RunAll(s, ops, sha) == end
  {
  }

  // ---------- the ledger ----------

  class CreditLedger {
    var accounts: map<string, U64>
    var escrows: map<Digest, Htlc>

    function View(): LedgerState
      reads this, escrows.Values
    {
      LedgerState(accounts, map id | id in escrows :: escrows[id].Value())
    }

    /** No two ids share a contract object. */
    ghost predicate Valid()
      reads this
    {
      forall a, b | a in escrows && b in escrows && a != b :: escrows[a] != escrows[b]
    }

    constructor ()
      ensures Valid() && View() == EMPTY && escrows == map[]
    {
      accounts, escrows := map[], map[];
    }

    method Mint(account: string, amount: U64) returns (o: Outcome)
      requires Valid()
      modifies this`accounts
      ensures Valid() && forall sha: Sha :: (View(), o) == Step(old(View()), Op.Mint(account, amount), sha)
    {
      var free := if account in accounts then accounts[account] else 0;
      if free + amount > U64_MAX {
        return Failed(Overflow);
      }
      accounts := accounts[account := free + amount];
      assert View().escrows == old(View()).escrows;
      o := Done;
    }

    method OpenEscrow(p: HtlcParams) returns (o: Outcome)
      requires Valid()
      modifies this
      ensures Valid() && forall sha: Sha :: (View(), o) == Step(old(View()), Open(p), sha)
      ensures forall id | id in escrows && id !in old(escrows) :: fresh(escrows[id])
      ensures forall id | id in old(escrows) :: id in escrows && escrows[id] == old(escrows)[id]
    {
      hide CreditFree, Fund;
      if p.id in escrows {
        return Failed(DuplicateEscrow(p.id));
      }
      if p.sender !in accounts {
        return Failed(UnknownAccount(p.sender));
      }
      var free := accounts[p.sender];
      if free < p.amount {
        return Failed(InsufficientBalance(free, p.amount));
      }
      var funded := Fund(p);
      if funded.Err? {
        return Failed(HtlcFailed(funded.error));
      }
      var htlc := new Htlc(funded.value);
      accounts := accounts[p.sender := free - p.amount];
      escrows := escrows[p.id := htlc];
      assert View().escrows == old(View()).escrows[p.id := funded.value];
      o := Done;
    }

    /** `credit_free` for an escrow that has just been settled. */
    method PayOut(to: string, amount: U64) returns (o: Outcome)
      modifies this`accounts
      ensures var r := CreditFree(old(View()), to, amount);
        (View(), o) == if r.Ok? then (r.value, Paid(to, amount)) else (old(View()), Failed(Overflow))
    {
      var free := if to in accounts then accounts[to] else 0;
      if free + amount > U64_MAX {
        return Failed(Overflow);
      }
      accounts := accounts[to := free + amount];
      assert View().escrows == old(View()).escrows;
      o := Paid(to, amount);
    }

    method ClaimEscrow(id: Digest, preimage: Bytes, sha: Sha) returns (o: Outcome)
      requires Valid()
      modifies this`accounts, escrows.Values
      ensures Valid() && (View(), o) == Step(old(View()), ClaimOp(id, preimage), sha)
    {
      if id !in escrows {
        return Failed(UnknownEscrow(id));
      }
      var htlc := escrows[id];
      var r := htlc.ClaimWith(preimage, sha);
      if r.Err? {
        assert View() == old(View());
        return Failed(HtlcFailed(r.error));
      }
      assert View() == old(View()).(escrows := old(View()).escrows[id := htlc.Value()]);
      o := PayOut(htlc.receiver, htlc.amount);
    }

    method RefundEscrow(id: Digest, height: U64) returns (o: Outcome)
      requires Valid()
      modifies this`accounts, escrows.Values
      ensures Valid() && forall sha: Sha :: (View(), o) == Step(old(View()), RefundOp(id, height), sha)
    {
      if id !in escrows {
        return Failed(UnknownEscrow(id));
      }
      var htlc := escrows[id];
      var r := htlc.RefundAt(height);
      if r.Err? {
        assert View() == old(View());
        return Failed(HtlcFailed(r.error));
      }
      assert View() == old(View()).(escrows := old(View()).escrows[id := htlc.Value()]);
      o := PayOut(htlc.sender, htlc.amount);
    }

    method AdvanceEscrow(id: Digest, steps: U64) returns (o: Outcome)
      requires Valid()
      modifies escrows.Values
      ensures Valid() && forall sha: Sha :: (View(), o) == Step(old(View()), AdvanceOp(id, steps), sha)
    {
      if id !in escrows {
        return Failed(UnknownEscrow(id));
      }
      var htlc := escrows[id];
      var r := htlc.Burn(steps);
      if r.Err? {
        assert View() == old(View());
        return Failed(HtlcFailed(r.error));
      }
      assert View() == old(View()).(escrows := old(View()).escrows[id := htlc.Value()]);
      o := Done;
    }

    method CancelEscrow(id: Digest) returns (o: Outcome)
      requires Valid()
      modifies this`accounts, escrows.Values
      ensures Valid() && forall sha: Sha :: (View(), o) == Step(old(View()), CancelOp(id), sha)
    {
      if id !in escrows {
        return Failed(UnknownEscrow(id));
      }
      var htlc := escrows[id];
      var r := htlc.Cancel();
      if r.Err? {
        assert View() == old(View());
        return Failed(HtlcFailed(r.error));
      }
      assert View() == old(View()).(escrows := old(View()).escrows[id := htlc.Value()]);
      o := PayOut(htlc.sender, htlc.amount);
    }
  }
}
