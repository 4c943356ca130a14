/**
  Properties of the staking lifecycle: the contract invariant is kept, the
  total stake tracks the staking rows under every action but `banish`,
  `recalc` restores it, stake/unstake/restake round-trips, and a pending
  withdrawal is paid at most once and never before it matures.
 */
module StakingProofs {
  import opened Types
  import opened Sums
  import opened Tables
  import Ledger
  import LedgerProofs
  import opened Staking

  // ---------------------------------------------------------------------------
  // Staked amounts under row updates

  lemma StakedAmountsSet(m: map<Name, StakingRow>, a: Name, row: StakingRow)
    ensures StakedAmounts(m[a := row]) == StakedAmounts(m)[a := row.quantity.amount]
  {
  }

  lemma StakedAmountsErase(m: map<Name, StakingRow>, a: Name)
    ensures StakedAmounts(m - {a}) == StakedAmounts(m) - {a}
  {
  }

  /** Setting one staking row moves the sum of stakes by the change of that row. */
  lemma SumStakedSet(m: map<Name, StakingRow>, a: Name, row: StakingRow)
    ensures Sum(StakedAmounts(m[a := row]))
            == Sum(StakedAmounts(m)) - (if a in m then m[a].quantity.amount else 0) + row.quantity.amount
  {
    StakedAmountsSet(m, a, row);
    SumUpdate(StakedAmounts(m), a, row.quantity.amount);
  }

  /** Erasing one staking row takes its amount out of the sum of stakes. */
  lemma SumStakedErase(m: map<Name, StakingRow>, a: Name)
    requires a in m
    ensures Sum(StakedAmounts(m - {a})) == Sum(StakedAmounts(m)) - m[a].quantity.amount
  {
    StakedAmountsErase(m, a);
    SumRemove(StakedAmounts(m), a);
  }

  // ---------------------------------------------------------------------------
  // The total stake

  /** `stake` raises a stake and the total by the same amount. */
  lemma StakeKeepsTotal(s: State, account: Name, quantity: Asset)
    requires StakeConsistent(s)
    requires Stake(s, account, quantity).Ok?
    ensures StakeConsistent(Stake(s, account, quantity).value)
  {
    var r := Stake(s, account, quantity).value;
    assert r.staking == s.staking[account := r.staking[account]];
    SumStakedSet(s.staking, account, r.staking[account]);
  }

  /** `unstake` lowers a stake (erasing a drained row) and the total by the same amount. */
  lemma UnstakeKeepsTotal(s: State, account: Name, quantity: Asset, now: Seconds)
    requires StakeConsistent(s)
    requires Unstake(s, account, quantity, now).Ok?
    ensures StakeConsistent(Unstake(s, account, quantity, now).value)
  {
    var r := Unstake(s, account, quantity, now).value;
    if account in r.staking {
      assert r.staking == s.staking[account := r.staking[account]];
      SumStakedSet(s.staking, account, r.staking[account]);
    } else {
      assert r.staking == s.staking - {account};
      SumStakedErase(s.staking, account);
    }
  }

  /** `restake` returns the pending amount to the stake and to the total. */
  lemma RestakeKeepsTotal(s: State, account: Name)
    requires StakeConsistent(s)
    requires Restake(s, account).Ok?
    ensures StakeConsistent(Restake(s, account).value)
  {
    var r := Restake(s, account).value;
    assert r.staking == s.staking[account := r.staking[account]];
    SumStakedSet(s.staking, account, r.staking[account]);
  }

  /**
    `banish` drifts the total away from the sum of stakes by exactly the
    pending amount it erased: the stake is subtracted, but the pending
    withdrawal is added back.
   */
  lemma BanishDrift(s: State, account: Name)
    requires Banish(s, account).Ok?
    ensures var r := Banish(s, account).value;
      r.totalStake.quantity.amount - Sum(StakedAmounts(r.staking))
      == s.totalStake.quantity.amount - Sum(StakedAmounts(s.staking)) + PendingOf(s, account)
  {
    var r := Banish(s, account).value;
    if account in s.staking {
      SumStakedErase(s.staking, account);
    } else {
      assert r.staking == s.staking;
    }
  }

  /** So banishing an account with a pending withdrawal breaks the total, which `recalc` must repair. */
  lemma BanishBreaksTotal(s: State, account: Name)
    requires Valid(s) && StakeConsistent(s)
    requires account in s.unstaking
    requires Banish(s, account).Ok?
    ensures !StakeConsistent(Banish(s, account).value)
    ensures StakeConsistent(Reconciled(Banish(s, account).value))
  {
    BanishDrift(s, account);
  }

  /** On a consistent state `recalc` changes nothing. */
  lemma RecalcIdle(s: State)
    requires Valid(s) && StakeConsistent(s)
    ensures Reconciled(s) == s
  {
  }

  // ---------------------------------------------------------------------------
  // Round trip and per-account amounts

  /** `unstake` only moves tokens from the stake to the pending withdrawal of the account. */
  lemma UnstakeKeepsAccountAmount(s: State, account: Name, quantity: Asset, now: Seconds)
    requires Unstake(s, account, quantity, now).Ok?
    ensures var r := Unstake(s, account, quantity, now).value;
      StakeOf(r, account) + PendingOf(r, account) == StakeOf(s, account) + PendingOf(s, account)
  {
  }

  /**
    Unstaking part of a stake and restaking it, with no other withdrawal
    pending, restores the staking rows, the total and the unstaking rows.
   */
  lemma UnstakeRestake(t: State, account: Name, quantity: Asset, now: Seconds)
    requires account !in t.unstaking
    requires account in t.staking && t.staking[account].PrimaryKey() == account
    requires t.staking[account].quantity.symbol == quantity.symbol
    requires 0 < quantity.amount <= t.staking[account].quantity.amount
    ensures Unstake(t, account, quantity, now).Ok?
    ensures Restake(Unstake(t, account, quantity, now).value, account) == Ok(t)
  {
    var row := t.staking[account];
    var unstaked := Unstake(t, account, quantity, now).value;
    var back := Restake(unstaked, account).value;
    assert back.staking == t.staking by {
      assert back.staking[account] == row;
    }
    assert back.unstaking == t.unstaking;
  }

  /**
    Staking `quantity`, unstaking the same amount and restaking gives back
    exactly the state just after the stake, provided the account had no
    pending withdrawal before.
   */
  lemma StakeUnstakeRestake(s: State, account: Name, quantity: Asset, now: Seconds)
    requires WellKeyed(s) && StakesWellFormed(s)
    requires account !in s.unstaking
    requires Stake(s, account, quantity).Ok?
    ensures var staked := Stake(s, account, quantity).value;
      && Unstake(staked, account, quantity, now).Ok?
      && Restake(Unstake(staked, account, quantity, now).value, account) == Ok(staked)
  {
    var staked := Stake(s, account, quantity).value;
    assert staked.staking[account].quantity.symbol == quantity.symbol
        && staked.staking[account].PrimaryKey() == account by {
      if account in s.staking {
        assert s.staking[account].quantity.symbol == FelixSymbol;
        assert s.staking[account].PrimaryKey() == account;
      }
    }
    UnstakeRestake(staked, account, quantity, now);
  }

  // ---------------------------------------------------------------------------
  // Settlement

  /**
    A pending withdrawal cannot be refunded before its lock period has
    elapsed, provided the request end does not pass the 32-bit wrap.
   */
  lemma RefundNotBeforeMaturity(s: State, account: Name, now: Seconds)
    requires account in s.unstaking
    requires s.unstaking[account].reqTime + RefundDelaySec < SecondsModulus
    requires now < s.unstaking[account].reqTime + RefundDelaySec
    ensures Refund(s, account, now) == Err(RefundNotAvailable)
  {
    MaturedAsWrittenAgrees(s.unstaking[account].reqTime, now);
  }

  /**
    Without that proviso the written test lets a request made in the last
    lock period before the wrap be refunded in the very second it is made.
   */
  lemma RefundPaysEarlyAtWrap(s: State, account: Name)
    requires account in s.unstaking
    requires SecondsModulus - RefundDelaySec <= s.unstaking[account].reqTime
    requires Settle(s, account).Ok?
    ensures Refund(s, account, s.unstaking[account].reqTime).Ok?
    ensures RefundIntended(s, account, s.unstaking[account].reqTime) == Err(RefundNotAvailable)
  {
    var t := s.unstaking[account].reqTime;
    assert (t + RefundDelaySec) % SecondsModulus == t + RefundDelaySec - SecondsModulus;
  }

  /** The intended refund never pays before the full lock period has elapsed, at any time. */
  lemma RefundIntendedNotBeforeMaturity(s: State, account: Name, now: Seconds)
    requires account in s.unstaking
    requires now - s.unstaking[account].reqTime < RefundDelaySec
    ensures RefundIntended(s, account, now) == Err(RefundNotAvailable)
  {
  }

  /** Away from the wrap-around the written refund and the intended one are the same action. */
  lemma RefundAgreesWithIntended(s: State, account: Name, now: Seconds)
    requires account in s.unstaking ==> s.unstaking[account].reqTime + RefundDelaySec < SecondsModulus
    ensures Refund(s, account, now) == RefundIntended(s, account, now)
  {
    if account in s.unstaking {
      MaturedAsWrittenAgrees(s.unstaking[account].reqTime, now);
    }
  }

  /**
    Once mature, a refund whose escrow holds the pending amount succeeds:
    the account is paid the whole pending amount and the request is gone.
   */
  lemma RefundAtMaturity(s: State, account: Name, now: Seconds)
    requires Valid(s)
    requires account in s.unstaking
    requires s.unstaking[account].reqTime + RefundDelaySec <= now
    requires account != StakingEscrow && account in s.knownAccounts
    requires FelixSymbol.code in s.stats && s.stats[FelixSymbol.code].supply.symbol == FelixSymbol
    requires HasRow(s.accounts, StakingEscrow, FelixSymbol.code)
    requires Balance(s.accounts, StakingEscrow, FelixSymbol.code) >= PendingOf(s, account)
    ensures Refund(s, account, now).Ok?
    ensures var r := Refund(s, account, now).value;
      && account !in r.unstaking
      && Balance(r.accounts, account, FelixSymbol.code)
         == Balance(s.accounts, account, FelixSymbol.code) + PendingOf(s, account)
  {
    MaturedAsWrittenAgrees(s.unstaking[account].reqTime, now);
  }

  /** After a successful `refund` or `refunddef` neither can pay the same account again. */
  lemma SettlementPaysOnce(s: State, account: Name, now: Seconds, later: Seconds)
    ensures Refund(s, account, now).Ok? ==>
      && Refund(Refund(s, account, now).value, account, later) == Err(UnstakingNotFound)
      && RefundDef(Refund(s, account, now).value, account) == Err(UnstakingNotFound)
    ensures RefundDef(s, account).Ok? ==>
      && RefundDef(RefundDef(s, account).value, account) == Err(UnstakingNotFound)
      && Refund(RefundDef(s, account).value, account, later) == Err(UnstakingNotFound)
  {
  }

  /** A restake invalidates the delayed settlement: the callback then fails rather than pays. */
  lemma RefundDefAfterRestakeFails(s: State, account: Name)
    requires Restake(s, account).Ok?
    ensures RefundDef(Restake(s, account).value, account) == Err(UnstakingNotFound)
  {
  }

  /** The self-service and the delayed settlement pay the same once the maturity test passes. */
  lemma RefundAgreesWithRefundDef(s: State, account: Name, now: Seconds)
    requires account in s.unstaking
    requires MaturedAsWritten(s.unstaking[account].reqTime, now)
    ensures Refund(s, account, now) == RefundDef(s, account)
  {
  }

  // ---------------------------------------------------------------------------
  // The 32-bit maturity test

  /**
    As written, a request made within the last lock period before the 32-bit
    clock wraps is already "mature" at the very second it is made.
   */
  lemma MaturityWrapCounterexample()
    ensures MaturedAsWritten(SecondsModulus - 1, SecondsModulus - 1)
    ensures !Matured(SecondsModulus - 1, SecondsModulus - 1)
  {
  }

  /** Away from the wrap-around the written test and the intended one agree. */
  lemma MaturedAsWrittenAgrees(reqTime: Seconds, now: Seconds)
    requires reqTime + RefundDelaySec < SecondsModulus
    ensures MaturedAsWritten(reqTime, now) <==> Matured(reqTime, now)
  {
  }

  /** The lock period is fifteen days. */
  lemma LockPeriodIsFifteenDays()
    ensures RefundDelaySec == 1296000
  {
  }

  /** The intended test never releases a request before the full lock period has elapsed. */
  lemma MaturedMeansDelayElapsed(reqTime: Seconds, now: Seconds)
    ensures Matured(reqTime, now) <==> now - reqTime >= RefundDelaySec
    ensures Matured(reqTime, now) ==> reqTime + RefundDelaySec < SecondsModulus
  {
  }

  // ---------------------------------------------------------------------------
  // The full invariant

  lemma StakePreservesValid(s: State, account: Name, quantity: Asset)
    requires Valid(s)
    requires Stake(s, account, quantity).Ok?
    ensures Valid(Stake(s, account, quantity).value)
  {
    var row :=
      if account in s.staking then s.staking[account].(quantity := s.staking[account].quantity.Plus(quantity))
      else StakingRow(account, quantity);
    var locked := s.(staking := s.staking[account := row],
                     totalStake := TotalStake(s.totalStake.quantity.Plus(quantity)));
    assert Valid(locked);
    assert Stake(s, account, quantity) == Ledger.Transfer(locked, account, StakingEscrow, quantity, StakeMemo);
    LedgerProofs.TransferPreservesValid(locked, account, StakingEscrow, quantity, StakeMemo);
  }

  lemma UnstakePreservesValid(s: State, account: Name, quantity: Asset, now: Seconds)
    requires Valid(s)
    requires Unstake(s, account, quantity, now).Ok?
    ensures Valid(Unstake(s, account, quantity, now).value)
  {
  }

  lemma RestakePreservesValid(s: State, account: Name)
    requires Valid(s)
    requires Restake(s, account).Ok?
    ensures Valid(Restake(s, account).value)
  {
  }

  lemma SettlePreservesValid(s: State, account: Name)
    requires Valid(s)
    requires account in s.unstaking
    requires Settle(s, account).Ok?
    ensures Valid(Settle(s, account).value)
  {
    var cleared := s.(unstaking := s.unstaking - {account});
    assert Valid(cleared);
    LedgerProofs.TransferPreservesValid(cleared, StakingEscrow, account, s.unstaking[account].quantity, UnstakeMemo);
  }

  lemma BanishPreservesValid(s: State, account: Name)
    requires Valid(s)
    requires Banish(s, account).Ok?
    ensures Valid(Banish(s, account).value)
  {
    var seized :=
      if account in s.staking
      then s.(totalStake := TotalStake(s.totalStake.quantity.Minus(s.staking[account].quantity)),
              staking := s.staking - {account})
      else s;
    var cleared :=
      if account in s.unstaking
      then seized.(totalStake := TotalStake(seized.totalStake.quantity.Plus(s.unstaking[account].quantity)),
                   unstaking := s.unstaking - {account})
      else seized;
    assert Valid(cleared);
    if account in s.staking {
      LedgerProofs.TransferPreservesValid(cleared, StakingEscrow, BanishSink, s.staking[account].quantity, BanishMemo);
    }
  }
}
