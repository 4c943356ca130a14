/**
  The staking lifecycle of the felixtoken contract (src/felixtoken.cpp):
  stake, unstake, restake, refund (with its core `_refund`), refunddef,
  banish and recalc.

  Tokens move through the ledger's own `transfer` into and out of the
  escrow account. Those inline transfers run in the same transaction and
  abort it when they fail, so each action here performs its table updates
  and then the transfer as one atomic step: any failure discards everything.
 */
module Staking {
  import opened Types
  import opened Sums
  import opened Tables
  import Ledger

  /** Memos of the inline transfers: "stake", "unstake" and "banish" as bytes. */
  const StakeMemo: Memo := [0x73, 0x74, 0x61, 0x6b, 0x65]
  const UnstakeMemo: Memo := [0x75, 0x6e, 0x73, 0x74, 0x61, 0x6b, 0x65]
  const BanishMemo: Memo := [0x62, 0x61, 0x6e, 0x69, 0x73, 0x68]

  /**
    The maturity test of `_refund`, as written: eosio's `sec_since_epoch()`
    and the delay are both 32-bit unsigned, so their sum wraps around.
   */
  predicate MaturedAsWritten(reqTime: Seconds, now: Seconds) {
    (reqTime + RefundDelaySec) % SecondsModulus <= now
  }

  /** The maturity test as intended: the full lock period has elapsed since the request. */
  predicate Matured(reqTime: Seconds, now: Seconds) {
    reqTime + RefundDelaySec <= now
  }

  /** `stake`: locks a positive FLX amount, raising the account's stake and the total. */
  function Stake(s: State, account: Name, quantity: Asset): (r: Result<State>)
    ensures quantity.amount <= 0 ==> r == Err(NonPositiveQuantity)
    ensures quantity.amount > 0 && quantity.symbol != FelixSymbol ==> r == Err(NotFelixToken)
    ensures r.Ok? <==>
      && quantity.amount > 0 && quantity.symbol == FelixSymbol
      && account != StakingEscrow && StakingEscrow in s.knownAccounts
      && FelixSymbol.code in s.stats && s.stats[FelixSymbol.code].supply.symbol == FelixSymbol
      && HasRow(s.accounts, account, FelixSymbol.code)
      && Balance(s.accounts, account, FelixSymbol.code) >= quantity.amount
    ensures r.Ok? ==>
      && Balance(r.value.accounts, account, FelixSymbol.code)
         == Balance(s.accounts, account, FelixSymbol.code) - quantity.amount
      && Balance(r.value.accounts, StakingEscrow, FelixSymbol.code)
         == Balance(s.accounts, StakingEscrow, FelixSymbol.code) + quantity.amount
      && Ledger.SameRowsExcept(r.value.accounts, s.accounts,
                               {(account, FelixSymbol.code), (StakingEscrow, FelixSymbol.code)})
      && account in r.value.staking
      && StakeOf(r.value, account) == StakeOf(s, account) + quantity.amount
      && r.value.totalStake.quantity.amount == s.totalStake.quantity.amount + quantity.amount
      && r.value.staking - {account} == s.staking - {account}
      && r.value.unstaking == s.unstaking
      && r.value.stats == s.stats && r.value.knownAccounts == s.knownAccounts
  {
    if quantity.amount <= 0 then Err(NonPositiveQuantity)
    else if quantity.symbol != FelixSymbol then Err(NotFelixToken)
    else
      var row :=
        if account in s.staking then s.staking[account].(quantity := s.staking[account].quantity.Plus(quantity))
        else StakingRow(account, quantity);
      var locked := s.(staking := s.staking[account := row],
                       totalStake := TotalStake(s.totalStake.quantity.Plus(quantity)));
      Ledger.Transfer(locked, account, StakingEscrow, quantity, StakeMemo)
  }

  /**
    `unstake`: moves `quantity` of the account's stake into its pending
    withdrawal, restarting the lock period of the whole pending amount.
   */
  function Unstake(s: State, account: Name, quantity: Asset, now: Seconds): (r: Result<State>)
    ensures quantity.amount <= 0 ==> r == Err(NonPositiveQuantity)
    ensures quantity.amount > 0 && account !in s.staking ==> r == Err(NoStakingAccount)
    ensures r.Ok? <==>
      && quantity.amount > 0
      && account in s.staking
      && quantity.symbol == s.staking[account].quantity.symbol
      && quantity.amount <= s.staking[account].quantity.amount
    ensures r.Ok? ==>
      && StakeOf(r.value, account) == StakeOf(s, account) - quantity.amount
      && (account in r.value.staking <==> StakeOf(s, account) != quantity.amount)
      && PendingOf(r.value, account) == PendingOf(s, account) + quantity.amount
      && account in r.value.unstaking && r.value.unstaking[account].reqTime == now
      && r.value.totalStake.quantity.amount == s.totalStake.quantity.amount - quantity.amount
      && r.value.staking - {account} == s.staking - {account}
      && r.value.unstaking - {account} == s.unstaking - {account}
      && r.value == s.(staking := r.value.staking, unstaking := r.value.unstaking,
                       totalStake := r.value.totalStake)
  {
    if quantity.amount <= 0 then Err(NonPositiveQuantity)
    else if account !in s.staking then Err(NoStakingAccount)
    else
      var row := s.staking[account];
      if quantity.symbol != row.quantity.symbol then Err(AssetSymbolMismatch)
      else if row.quantity.amount < quantity.amount then Err(NotEnoughStaked)
      else
        var staking :=
          if row.quantity == quantity then s.staking - {account}
          else s.staking[account := row.(quantity := row.quantity.Minus(quantity))];
        var pending :=
          if account !in s.unstaking then Unstaking(account, quantity, now)
          else s.unstaking[account].(quantity := s.unstaking[account].quantity.Plus(quantity), reqTime := now);
        Ok(s.(staking := staking,
              unstaking := s.unstaking[account := pending],
              totalStake := TotalStake(s.totalStake.quantity.Minus(quantity))))
  }

  /** `restake`: cancels the account's pending withdrawal and returns it all to its stake. */
  function Restake(s: State, account: Name): (r: Result<State>)
    ensures r.Ok? <==> account in s.unstaking
    ensures r.Err? ==> r.error == RestakeNotFound
    ensures r.Ok? ==>
      && account !in r.value.unstaking
      && account in r.value.staking
      && StakeOf(r.value, account) == StakeOf(s, account) + PendingOf(s, account)
      && r.value.totalStake.quantity.amount == s.totalStake.quantity.amount + PendingOf(s, account)
      && r.value.staking - {account} == s.staking - {account}
      && r.value.unstaking == s.unstaking - {account}
      && r.value == s.(staking := r.value.staking, unstaking := r.value.unstaking,
                       totalStake := r.value.totalStake)
  {
    if account !in s.unstaking then Err(RestakeNotFound)
    else
      var pending := s.unstaking[account].quantity;
      var row :=
        if account !in s.staking then StakingRow(account, pending)
        else s.staking[account].(quantity := s.staking[account].quantity.Plus(pending));
      Ok(s.(staking := s.staking[account := row],
            unstaking := s.unstaking - {account},
            totalStake := TotalStake(s.totalStake.quantity.Plus(pending))))
  }

  /**
    The payout shared by `_refund` and `refunddef`: the escrow pays the
    whole pending amount to the account and the request is erased.
   */
  function Settle(s: State, account: Name): (r: Result<State>)
    requires account in s.unstaking
    ensures r.Ok? <==>
      var pending := s.unstaking[account].quantity;
      && account != StakingEscrow && account in s.knownAccounts
      && pending.symbol.code in s.stats && pending.amount > 0
      && pending.symbol == s.stats[pending.symbol.code].supply.symbol
      && HasRow(s.accounts, StakingEscrow, pending.symbol.code)
      && Balance(s.accounts, StakingEscrow, pending.symbol.code) >= pending.amount
    ensures r.Ok? ==>
      var code := s.unstaking[account].quantity.symbol.code;
      && r.value.unstaking == s.unstaking - {account}
      && Balance(r.value.accounts, account, code)
         == Balance(s.accounts, account, code) + s.unstaking[account].quantity.amount
      && Balance(r.value.accounts, StakingEscrow, code)
         == Balance(s.accounts, StakingEscrow, code) - s.unstaking[account].quantity.amount
      && Ledger.SameRowsExcept(r.value.accounts, s.accounts, {(account, code), (StakingEscrow, code)})
      && r.value.staking == s.staking && r.value.totalStake == s.totalStake && r.value.stats == s.stats
      && r.value.knownAccounts == s.knownAccounts
  {
    var pending := s.unstaking[account].quantity;
    Ledger.Transfer(s.(unstaking := s.unstaking - {account}), StakingEscrow, account, pending, UnstakeMemo)
  }

  /**
    `refund` (through `_refund`): the account withdraws its pending amount once
    the maturity test passes. The test is the one the contract computes, with
    its 32-bit wrap-around (see `MaturedAsWritten`).
   */
  function Refund(s: State, account: Name, now: Seconds): (r: Result<State>)
    ensures account !in s.unstaking ==> r == Err(UnstakingNotFound)
    ensures account in s.unstaking && !MaturedAsWritten(s.unstaking[account].reqTime, now) ==>
      r == Err(RefundNotAvailable)
    ensures account in s.unstaking && MaturedAsWritten(s.unstaking[account].reqTime, now) ==>
      r == Settle(s, account)
    ensures r.Ok? ==> account in s.unstaking && account !in r.value.unstaking
  {
    if account !in s.unstaking then Err(UnstakingNotFound)
    else if !MaturedAsWritten(s.unstaking[account].reqTime, now) then Err(RefundNotAvailable)
    else Settle(s, account)
  }

  /**
    `refund` as evidently intended: the same settlement, but released only
    when the whole lock period has elapsed since the last request.
   */
  function RefundIntended(s: State, account: Name, now: Seconds): (r: Result<State>)
    ensures account !in s.unstaking ==> r == Err(UnstakingNotFound)
    ensures account in s.unstaking && now < s.unstaking[account].reqTime + RefundDelaySec ==>
      r == Err(RefundNotAvailable)
    ensures account in s.unstaking && s.unstaking[account].reqTime + RefundDelaySec <= now ==>
      r == Settle(s, account)
    ensures r.Ok? ==>
      && account in s.unstaking && account !in r.value.unstaking
      && now - s.unstaking[account].reqTime >= RefundDelaySec
      && r == Settle(s, account)
  {
    if account !in s.unstaking then Err(UnstakingNotFound)
    else if !Matured(s.unstaking[account].reqTime, now) then Err(RefundNotAvailable)
    else Settle(s, account)
  }

  /**
    `refunddef`: the settlement the delayed transaction performs. It does not
    look at the clock, and fails when there is no pending request.
   */
  function RefundDef(s: State, account: Name): (r: Result<State>)
    ensures account !in s.unstaking ==> r == Err(UnstakingNotFound)
    ensures account in s.unstaking ==> r == Settle(s, account)
  {
    if account !in s.unstaking then Err(UnstakingNotFound)
    else Settle(s, account)
  }

  /**
    `banish`: removes the account from staking. Its stake is taken out of the
    total and swept from escrow to the banish sink; its pending withdrawal is
    erased without payment and, as the contract is written, ADDED to the total.
   */
  function Banish(s: State, account: Name): (r: Result<State>)
    ensures r.Ok? ==>
      && account !in r.value.staking && account !in r.value.unstaking
      && r.value.staking == s.staking - {account}
      && r.value.unstaking == s.unstaking - {account}
      && r.value.totalStake.quantity.amount
         == s.totalStake.quantity.amount - StakeOf(s, account) + PendingOf(s, account)
      && r.value.stats == s.stats && r.value.knownAccounts == s.knownAccounts
      && (account !in s.staking ==> r.value.accounts == s.accounts)
    ensures account !in s.staking ==> r.Ok?
    ensures account in s.staking ==> (r.Ok? <==>
      var q := s.staking[account].quantity;
      && BanishSink in s.knownAccounts
      && q.symbol.code in s.stats && q.amount > 0
      && q.symbol == s.stats[q.symbol.code].supply.symbol
      && HasRow(s.accounts, StakingEscrow, q.symbol.code)
      && Balance(s.accounts, StakingEscrow, q.symbol.code) >= q.amount)
    ensures r.Ok? && account in s.staking ==>
      var q := s.staking[account].quantity;
      && Balance(r.value.accounts, StakingEscrow, q.symbol.code)
         == Balance(s.accounts, StakingEscrow, q.symbol.code) - q.amount
      && Balance(r.value.accounts, BanishSink, q.symbol.code)
         == Balance(s.accounts, BanishSink, q.symbol.code) + q.amount
      && Ledger.SameRowsExcept(r.value.accounts, s.accounts,
                               {(StakingEscrow, q.symbol.code), (BanishSink, q.symbol.code)})
  {
    var seized :=
      if account in s.staking
      then s.(totalStake := TotalStake(s.totalStake.quantity.Minus(s.staking[account].quantity)),
              staking := s.staking - {account})
      else s;
    var cleared :=
      if account in s.unstaking
      then seized.(totalStake := TotalStake(seized.totalStake.quantity.Plus(s.unstaking[account].quantity)),
                   unstaking := s.unstaking - {account})
      else seized;
    if account in s.staking
    then Ledger.Transfer(cleared, StakingEscrow, BanishSink, s.staking[account].quantity, BanishMemo)
    else Ok(cleared)
  }

  /** The state `recalc` produces: the total overwritten with the sum of all stakes. */
  ghost function Reconciled(s: State): (r: State)
    ensures StakeConsistent(r)
    ensures r.staking == s.staking && r.unstaking == s.unstaking && r.accounts == s.accounts
  {
    s.(totalStake := TotalStake(Asset(Sum(StakedAmounts(s.staking)), FelixSymbol)))
  }

  /** `recalc`: recomputes the total stake by scanning every staking row. */
  method Recalc(s: State) returns (r: State)
    ensures r == Reconciled(s)
  {
    var total := 0;
    var scanned: map<Name, int> := map[];
    var remaining := s.staking.Keys;
    while remaining != {}
      invariant remaining !! scanned.Keys
      invariant remaining + scanned.Keys == s.staking.Keys
      invariant forall a :: a in scanned ==> scanned[a] == s.staking[a].quantity.amount
      invariant total == Sum(scanned)
      decreases remaining
    {
      var a :| a in remaining;
      SumUpdate(scanned, a, s.staking[a].quantity.amount);
      total := total + s.staking[a].quantity.amount;
      scanned := scanned[a := s.staking[a].quantity.amount];
      remaining := remaining - {a};
    }
    assert scanned == StakedAmounts(s.staking);
    r := s.(totalStake := TotalStake(Asset(total, FelixSymbol)));
  }
}
