/**
  The contract as a whole: every action it dispatches, applied one
  transaction at a time. A transaction that aborts leaves the state as it
  was; the invariant holds at every point of every run.
 */
module Contract {
  import opened Types
  import opened Tables
  import Ledger
  import LedgerProofs
  import Staking
  import StakingProofs

  /** The actions of the contract that change its tables. */
  datatype Action =
    | Create(issuer: Name, maximumSupply: Asset)
    | Issue(to: Name, quantity: Asset, memo: Memo)
    | Retire(quantity: Asset, memo: Memo)
    | Transfer(from: Name, to: Name, quantity: Asset, memo: Memo)
    | Open(owner: Name, symbol: Symbol)
    | Close(owner: Name, symbol: Symbol)
    | Stake(account: Name, quantity: Asset)
    | Unstake(account: Name, quantity: Asset)
    | Restake(account: Name)
    | Refund(account: Name)
    | RefundDef(account: Name)
    | Banish(account: Name)
    | Recalc

  /** One action, run at time `now`. */
  ghost function Step(s: State, act: Action, now: Seconds): Result<State> {
    match act
    case Create(issuer, maximumSupply) => Ledger.Create(s, issuer, maximumSupply)
    case Issue(to, quantity, memo) => Ledger.Issue(s, to, quantity, memo)
    case Retire(quantity, memo) => Ledger.Retire(s, quantity, memo)
    case Transfer(from, to, quantity, memo) => Ledger.Transfer(s, from, to, quantity, memo)
    case Open(owner, symbol) => Ledger.Open(s, owner, symbol)
    case Close(owner, symbol) => Ledger.Close(s, owner, symbol)
    case Stake(account, quantity) => Staking.Stake(s, account, quantity)
    case Unstake(account, quantity) => Staking.Unstake(s, account, quantity, now)
    case Restake(account) => Staking.Restake(s, account)
    case Refund(account) => Staking.Refund(s, account, now)
    case RefundDef(account) => Staking.RefundDef(s, account)
    case Banish(account) => Staking.Banish(s, account)
    case Recalc => Ok(Staking.Reconciled(s))
  }

  /** A sequence of transactions, each with its time; aborted ones change nothing. */
  ghost function Run(s: State, txs: seq<(Action, Seconds)>): State
    decreases |txs|
  {
    if |txs| == 0 then s
    else
      match Step(s, txs[0].0, txs[0].1)
      case Ok(next) => Run(next, txs[1..])
      case Err(_) => Run(s, txs[1..])
  }

  /** Every action keeps the contract invariant. */
  lemma StepPreservesValid(s: State, act: Action, now: Seconds)
    requires Valid(s)
    requires Step(s, act, now).Ok?
    ensures Valid(Step(s, act, now).value)
  {
    match act
    case Create(issuer, maximumSupply) => LedgerProofs.CreatePreservesValid(s, issuer, maximumSupply);
    case Issue(to, quantity, memo) => LedgerProofs.IssuePreservesValid(s, to, quantity, memo);
    case Retire(quantity, memo) => LedgerProofs.RetirePreservesValid(s, quantity, memo);
    case Transfer(from, to, quantity, memo) => LedgerProofs.TransferPreservesValid(s, from, to, quantity, memo);
    case Open(owner, symbol) => LedgerProofs.OpenPreservesValid(s, owner, symbol);
    case Close(owner, symbol) => LedgerProofs.ClosePreservesValid(s, owner, symbol);
    case Stake(account, quantity) => StakingProofs.StakePreservesValid(s, account, quantity);
    case Unstake(account, quantity) => StakingProofs.UnstakePreservesValid(s, account, quantity, now);
    case Restake(account) => StakingProofs.RestakePreservesValid(s, account);
    case Refund(account) => StakingProofs.SettlePreservesValid(s, account);
    case RefundDef(account) => StakingProofs.SettlePreservesValid(s, account);
    case Banish(account) => StakingProofs.BanishPreservesValid(s, account);
    case Recalc =>
  }

  /** Every action but `banish` keeps the total stake equal to the sum of the stakes. */
  lemma StepKeepsTotal(s: State, act: Action, now: Seconds)
    requires StakeConsistent(s)
    requires !act.Banish?
    requires Step(s, act, now).Ok?
    ensures StakeConsistent(Step(s, act, now).value)
  {
    match act
    case Stake(account, quantity) => StakingProofs.StakeKeepsTotal(s, account, quantity);
    case Unstake(account, quantity) => StakingProofs.UnstakeKeepsTotal(s, account, quantity, now);
    case Restake(account) => StakingProofs.RestakeKeepsTotal(s, account);
    case _ =>
  }

  /** The invariant holds after any run from a valid state; in particular from a fresh deployment. */
  lemma {:induction false} RunPreservesValid(s: State, txs: seq<(Action, Seconds)>)
    requires Valid(s)
    ensures Valid(Run(s, txs))
    decreases |txs|
  {
    if |txs| != 0 {
      match Step(s, txs[0].0, txs[0].1)
      case Ok(next) =>
        StepPreservesValid(s, txs[0].0, txs[0].1);
        RunPreservesValid(next, txs[1..]);
      case Err(_) =>
        RunPreservesValid(s, txs[1..]);
    }
  }

  /** Without `banish`, a run never lets the total stake drift, so `recalc` would change nothing. */
  lemma {:induction false} RunWithoutBanishKeepsTotal(s: State, txs: seq<(Action, Seconds)>)
    requires StakeConsistent(s)
    requires forall i :: 0 <= i < |txs| ==> !txs[i].0.Banish?
    ensures StakeConsistent(Run(s, txs))
    decreases |txs|
  {
    if |txs| != 0 {
      match Step(s, txs[0].0, txs[0].1)
      case Ok(next) =>
        StepKeepsTotal(s, txs[0].0, txs[0].1);
        RunWithoutBanishKeepsTotal(next, txs[1..]);
      case Err(_) =>
        RunWithoutBanishKeepsTotal(s, txs[1..]);
    }
  }

  /**
    A worked scenario, first half: the issuer creates 1000 FLX, issues 500
    and pays Alice 200.
   */
  lemma ScenarioLedger()
    ensures
      var flx := FelixSymbol;
      var s0 := Init({"issuer", "alice", StakingEscrow});
      var s1 := Ledger.Create(s0, "issuer", Asset(1000, flx)).value;
      var s2 := Ledger.Issue(s1, "issuer", Asset(500, flx), []).value;
      var s3 := Ledger.Transfer(s2, "issuer", "alice", Asset(200, flx), []).value;
      && Ledger.Create(s0, "issuer", Asset(1000, flx)).Ok?
      && Ledger.Issue(s1, "issuer", Asset(500, flx), []).Ok?
      && s2.stats[flx.code].supply.amount == 500
      && Ledger.Transfer(s2, "issuer", "alice", Asset(200, flx), []).Ok?
      && Balance(s3.accounts, "issuer", flx.code) == 300
      && Balance(s3.accounts, "alice", flx.code) == 200 && HasRow(s3.accounts, "alice", flx.code)
      && Balance(s3.accounts, StakingEscrow, flx.code) == 0
      && s3.knownAccounts == {"issuer", "alice", StakingEscrow}
      && flx.code in s3.stats && s3.stats[flx.code].supply.symbol == flx
      && s3.staking == map[] && s3.unstaking == map[] && s3.totalStake.quantity.amount == 0
  {
    var flx := FelixSymbol;
    var s0 := Init({"issuer", "alice", StakingEscrow});
    assert Ledger.Create(s0, "issuer", Asset(1000, flx)).Ok?;
    var s1 := Ledger.Create(s0, "issuer", Asset(1000, flx)).value;
    assert Ledger.Issue(s1, "issuer", Asset(500, flx), []).Ok?;
    var s2 := Ledger.Issue(s1, "issuer", Asset(500, flx), []).value;
    assert Ledger.Transfer(s2, "issuer", "alice", Asset(200, flx), []).Ok?;
  }

  /**
    Second half: from a state such as the one the first half ends in, Alice stakes 150 FLX and unstakes it at
    time 1000; her refund is refused one second before the lock period has
    elapsed and then pays her back in full.
   */
  lemma ScenarioStaking(s3: State)
    requires "alice" in s3.knownAccounts && StakingEscrow in s3.knownAccounts
    requires FelixSymbol.code in s3.stats && s3.stats[FelixSymbol.code].supply.symbol == FelixSymbol
    requires Balance(s3.accounts, "alice", FelixSymbol.code) == 200
    requires HasRow(s3.accounts, "alice", FelixSymbol.code)
    requires Balance(s3.accounts, StakingEscrow, FelixSymbol.code) == 0
    requires s3.staking == map[] && s3.unstaking == map[] && s3.totalStake.quantity.amount == 0
    ensures
      var flx := FelixSymbol;
      var s4 := Staking.Stake(s3, "alice", Asset(150, flx)).value;
      var s5 := Staking.Unstake(s4, "alice", Asset(150, flx), 1000).value;
      && Staking.Stake(s3, "alice", Asset(150, flx)).Ok?
      && Balance(s4.accounts, "alice", flx.code) == 50
      && StakeOf(s4, "alice") == 150 && s4.totalStake.quantity.amount == 150
      && Staking.Unstake(s4, "alice", Asset(150, flx), 1000).Ok?
      && "alice" !in s5.staking && PendingOf(s5, "alice") == 150
      && Staking.Refund(s5, "alice", 1000 + RefundDelaySec - 1) == Err(RefundNotAvailable)
      && Staking.Refund(s5, "alice", 1000 + RefundDelaySec).Ok?
      && Balance(Staking.Refund(s5, "alice", 1000 + RefundDelaySec).value.accounts, "alice", flx.code) == 200
  {
    var flx := FelixSymbol;
    assert Staking.Stake(s3, "alice", Asset(150, flx)).Ok?;
    var s4 := Staking.Stake(s3, "alice", Asset(150, flx)).value;
    assert Staking.Unstake(s4, "alice", Asset(150, flx), 1000).Ok?;
    var s5 := Staking.Unstake(s4, "alice", Asset(150, flx), 1000).value;
    assert s5.unstaking["alice"].quantity == Asset(150, flx);
    assert Staking.Settle(s5, "alice").Ok?;
  }

  /** The two halves joined: the staking half runs on the exact state the ledger half ends in. */
  lemma Scenario()
    ensures
      var flx := FelixSymbol;
      var s0 := Init({"issuer", "alice", StakingEscrow});
      var s1 := Ledger.Create(s0, "issuer", Asset(1000, flx)).value;
      var s2 := Ledger.Issue(s1, "issuer", Asset(500, flx), []).value;
      var s3 := Ledger.Transfer(s2, "issuer", "alice", Asset(200, flx), []).value;
      var s4 := Staking.Stake(s3, "alice", Asset(150, flx)).value;
      var s5 := Staking.Unstake(s4, "alice", Asset(150, flx), 1000).value;
      && Staking.Refund(s5, "alice", 1000 + RefundDelaySec - 1) == Err(RefundNotAvailable)
      && Staking.Refund(s5, "alice", 1000 + RefundDelaySec).Ok?
      && Balance(Staking.Refund(s5, "alice", 1000 + RefundDelaySec).value.accounts, "alice", flx.code) == 200
  {
    var flx := FelixSymbol;
    var s0 := Init({"issuer", "alice", StakingEscrow});
    var s1 := Ledger.Create(s0, "issuer", Asset(1000, flx)).value;
    var s2 := Ledger.Issue(s1, "issuer", Asset(500, flx), []).value;
    var s3 := Ledger.Transfer(s2, "issuer", "alice", Asset(200, flx), []).value;
    ScenarioLedger();
    ScenarioStaking(s3);
  }
}
