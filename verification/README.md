# felixtoken in Dafny

A model of the FELIX token contract for EOSIO. It covers two coupled parts.

- **The token ledger.** The actions are `create`, `issue`, `retire`, `transfer`, `open` and `close`, plus the private helpers `sub_balance` and `add_balance`.
- **The staking lifecycle.** The actions are `stake`, `unstake`, `restake`, `refund`/`_refund`, `refunddef`, `banish` and `recalc`.

The contract's tables live in one immutable `Tables.State`:

- `accounts`: balance rows, in one scope per owner, keyed by symbol code;
- `stats`: supply records keyed by symbol code;
- `staking` and `unstaking`: rows keyed by account;
- `totalStake`: the singleton total stake;
- `knownAccounts`: the host's set of existing accounts, which is what `is_account` answers.

Each action is a pure function that returns `Ok(new state)`, or `Err(e)` for the first `check` that fails. An inline `transfer_action(...).send` runs in the same transaction, so it is modelled as a call of `Ledger.Transfer` inside the same atomic step. When the transfer fails, the whole action fails. Time is passed in explicitly as `now`, in seconds of eosio's 32-bit `sec_since_epoch()`.

Modules:

- `Types`: names, symbols, assets, memos, seconds and errors.
- `Sums`: sums over maps.
- `Tables`: row shapes with their primary keys, the state, `get_supply`/`get_balance`, and the invariants.
- `Ledger` and `LedgerProofs`: the token ledger and its proofs.
- `Staking` and `StakingProofs`: the staking lifecycle and its proofs.
- `Contract`: dispatches every action and proves the invariant over whole runs.

The invariant `Tables.Valid` has these parts:

- every supply, staking and unstaking row sits under its own primary key;
- supplies stay within 0..max_supply;
- every balance row belongs to a created token, carries that token's exact symbol, and is non-negative;
- each token's supply equals the sum of all balances in it;
- staking and unstaking rows hold positive FLX.

`Tables.StakeConsistent` says that the total stake equals the sum of the staking rows. Every action except `banish` keeps it, and `recalc` restores it.

Uniqueness comes from the data structures themselves. There is at most one balance per (owner, symbol code), one supply record per symbol code, and one staking row and one unstaking row per account, because each is a map entry. The total stake is one field of the state, not a per-account value.

Three behaviours of the code are worth stating plainly, because a reader might expect otherwise:

- **`refunddef` with no pending request fails.** It checks for the request and aborts without one (src/felixtoken.cpp:291). So after a `restake`, the delayed settlement fails instead of doing nothing. See `StakingProofs.RefundDefAfterRestakeFails`.
- **stake → unstake → restake returns to the state just after the stake.** The tokens stay in escrow. See `StakingProofs.StakeUnstakeRestake`.
- **`restake` checks no maturity and cancels nothing.** The delayed `refunddef` is left scheduled, and it then fails as above.

## Model

| member | source | states |
|---|---|---|
| Tables.Init | src/felixtoken.cpp:11-16 | A fresh contract (empty tables, a zero FLX total) satisfies the invariant, and its total equals the sum of stakes. |
| Tables.GetSupply | include/felixtoken.hpp:61-66 | Succeeds exactly when the supply record exists, and then returns the stored supply. Otherwise it aborts. |
| Tables.GetBalance | include/felixtoken.hpp:68-73 | Succeeds exactly when the owner has a row. It returns that balance. In a valid state the balance carries the token's symbol and is non-negative. |
| Ledger.SubBalance | src/felixtoken.cpp:109-117 | Fails with "no balance object" when the row is missing and with "overdrawn" when it is short. Otherwise it debits exactly that row by the amount, keeps its symbol, and touches no other row. |
| Ledger.AddBalance | src/felixtoken.cpp:119-131 | Credits the owner by the amount and creates the row when it is absent. No other row changes. |
| Ledger.Create | src/felixtoken.cpp:20-38 | Succeeds exactly when max_supply > 0 and the symbol is new. It then adds one record with zero supply of that symbol, the given max_supply and issuer, and changes nothing else. |
| Ledger.Issue | src/felixtoken.cpp:40-62 | Succeeds exactly when the memo is at most 256 bytes, the token exists, `to` is the issuer, the amount is positive, the symbols match and the amount is at most max_supply − supply. Then the supply and the issuer's balance rise by the amount and the supply stays within max_supply. |
| Ledger.Retire | src/felixtoken.cpp:64-84 | Succeeds exactly when the memo is short enough, the token exists, the amount is positive, the symbols match, and the issuer holds a row covering the amount. Then the supply and the issuer's balance fall by the amount. |
| Ledger.Transfer | src/felixtoken.cpp:86-107 | Fails on a self-transfer, an unknown recipient, an unknown token, a non-positive amount, a symbol mismatch, a memo over 256 bytes, or a sender row that is missing or short. Otherwise `from` is debited and `to` credited by the same amount. Only those two rows change. |
| Ledger.Open | src/felixtoken.cpp:133-150 | Succeeds exactly for a known owner and a created token of that exact symbol. It creates a zero row only when none exists, and otherwise leaves the state unchanged, so it is idempotent. |
| Ledger.Close | src/felixtoken.cpp:152-160 | Fails unless the row exists and holds exactly 0. Otherwise it erases that row and nothing else. |
| Staking.Stake | src/felixtoken.cpp:162-187 | Only a positive FLX amount can be staked, and it succeeds exactly when the inline transfer into escrow can. The account's stake and the total then rise by the amount, its balance falls by it, and the escrow's balance rises by it. No other balance row, staking row, supply record or account changes. |
| Staking.Unstake | src/felixtoken.cpp:189-228 | Needs a positive amount and a staking row of the same symbol holding at least the amount. It lowers the stake by the amount and erases the row exactly when that drains it. It adds the amount to the pending row and resets the row's time to `now`. It lowers the total by the amount. Balances, supply records and accounts are untouched. |
| Staking.Restake | src/felixtoken.cpp:238-263 | Fails exactly when there is no pending row. Otherwise it moves the whole pending amount back into the stake (creating the row if needed), raises the total by it, and erases the pending row. Balances, supply records and accounts are untouched. |
| Staking.Settle | src/felixtoken.cpp:274-276 | The escrow pays the whole pending amount to the account and the pending row is erased. This succeeds exactly when that transfer can. No other balance row, staking row or the total changes. |
| Staking.Refund | src/felixtoken.cpp:265-283 | Fails without a pending row. Fails when the code's 32-bit maturity test fails, and otherwise is exactly the settlement. When it succeeds the request is erased. |
| Staking.RefundIntended | src/felixtoken.cpp:265-283 | The corrected refund: fails without a pending row, fails whenever now < req_time + 15 days, and at or after req_time + 15 days it is exactly the settlement, so a mature request is paid whenever the escrow can pay. |
| Staking.RefundDef | src/felixtoken.cpp:285-296 | Fails without a pending row. Otherwise it settles without checking the clock. |
| Staking.Banish | src/felixtoken.cpp:319-346 | Never fails for an account without a stake, and then leaves every balance alone. With a stake it succeeds exactly when the sweep from felixstaking to felixtokenio can; the escrow then loses the stake, felixtokenio gains it, and no other balance row changes. Both of the account's rows are erased. The total becomes total − stake + pending. |
| Staking.Reconciled | src/felixtoken.cpp:354-359 | The reconciled state's total equals the sum of all staking rows, and its tables are untouched. |
| Staking.Recalc | src/felixtoken.cpp:348-360 | The scan over every staking row computes exactly the reconciled total. |
| LedgerProofs.SubBalanceSum | src/felixtoken.cpp:109-117 | Debiting lowers the summed holdings of that token by exactly the amount and leaves every other token's sum alone. |
| LedgerProofs.AddBalanceSum | src/felixtoken.cpp:119-131 | Crediting raises the summed holdings of that token by exactly the amount and leaves every other token's sum alone. |
| LedgerProofs.SubBalanceFits | src/felixtoken.cpp:113-116 | A debit keeps every balance row non-negative and of its token's symbol. |
| LedgerProofs.AddBalanceFits | src/felixtoken.cpp:122-130 | Crediting a non-negative amount of a created token keeps every balance row well formed. |
| LedgerProofs.CreateConserves | src/felixtoken.cpp:29-37 | A new token starts with supply 0 and no holders, so supply = sum of balances holds for it. |
| LedgerProofs.IssueConserves | src/felixtoken.cpp:59-61 | `issue` keeps every token's supply equal to the sum of its balances. |
| LedgerProofs.RetireConserves | src/felixtoken.cpp:81-83 | `retire` keeps every token's supply equal to the sum of its balances. |
| LedgerProofs.TransferConserves | src/felixtoken.cpp:105-106 | `transfer` keeps every token's supply equal to the sum of its balances. |
| LedgerProofs.OpenConserves | src/felixtoken.cpp:144-149 | Opening a zero row keeps every sum. |
| LedgerProofs.CloseConserves | src/felixtoken.cpp:155-159 | Closing a zero row keeps every sum. |
| LedgerProofs.UnregisteredHasNoHoldings | src/felixtoken.cpp:141 | In a valid state nobody holds a token that was never created. |
| LedgerProofs.SumNonNegativeHoldings | src/felixtoken.cpp:114 | Non-negative balances sum to a non-negative total, which is why `retire` cannot push a supply below zero. |
| LedgerProofs.BalanceRowsKeyed | include/felixtoken.hpp:85-89 | Every balance row is stored under its symbol code, its primary key. |
| LedgerProofs.CreatePreservesValid | src/felixtoken.cpp:20-38 | `create` keeps the contract invariant. |
| LedgerProofs.IssuePreservesValid | src/felixtoken.cpp:40-62 | `issue` keeps the invariant, including supply ≤ max_supply. |
| LedgerProofs.RetirePreservesValid | src/felixtoken.cpp:64-84 | `retire` keeps the invariant, including supply ≥ 0. |
| LedgerProofs.TransferPreservesValid | src/felixtoken.cpp:86-107 | `transfer` keeps the invariant. In particular no balance goes negative. |
| LedgerProofs.OpenPreservesValid | src/felixtoken.cpp:133-150 | `open` keeps the invariant. |
| LedgerProofs.ClosePreservesValid | src/felixtoken.cpp:152-160 | `close` keeps the invariant. |
| StakingProofs.SumStakedSet | src/felixtoken.cpp:171-181 | Writing one staking row moves the sum of stakes by exactly that row's change. |
| StakingProofs.SumStakedErase | src/felixtoken.cpp:206 | Erasing a staking row takes exactly its amount out of the sum of stakes. |
| StakingProofs.StakeKeepsTotal | src/felixtoken.cpp:171-183 | `stake` keeps total = sum of staking rows. |
| StakingProofs.UnstakeKeepsTotal | src/felixtoken.cpp:206-228 | `unstake` keeps total = sum of staking rows, whether or not it erases the row. |
| StakingProofs.RestakeKeepsTotal | src/felixtoken.cpp:249-261 | `restake` keeps total = sum of staking rows. |
| StakingProofs.BanishDrift | src/felixtoken.cpp:327-345 | After `banish`, total − sum of stakes has grown by exactly the erased pending amount. |
| StakingProofs.BanishBreaksTotal | src/felixtoken.cpp:340-345 | Banishing an account with a pending withdrawal breaks total = sum, and `recalc` repairs it. |
| StakingProofs.RecalcIdle | src/felixtoken.cpp:348-360 | On a consistent valid state `recalc` changes nothing. |
| StakingProofs.UnstakeKeepsAccountAmount | src/felixtoken.cpp:206-226 | `unstake` keeps the account's staked + pending amount unchanged. |
| StakingProofs.UnstakeRestake | src/felixtoken.cpp:238-262 | With nothing pending before, `unstake(q)` then `restake` succeeds and restores the state exactly. |
| StakingProofs.StakeUnstakeRestake | src/felixtoken.cpp:162-262 | When nothing was pending, stake(q) → unstake(q) → restake succeeds and returns exactly to the state just after the stake. |
| StakingProofs.RefundNotBeforeMaturity | src/felixtoken.cpp:271-272 | When req_time + 15 days fits in 32 bits, a refund requested before req_time + 15 days fails with "not available yet". |
| StakingProofs.RefundPaysEarlyAtWrap | src/felixtoken.cpp:271-276 | For a request made in the last 15 days before 2^32 seconds, the code's refund pays in the very second of the request whenever the escrow can pay, while the intended refund refuses. |
| StakingProofs.RefundIntendedNotBeforeMaturity | src/felixtoken.cpp:271-272 | The intended refund fails with "not available yet" whenever less than 15 days have passed since the request, with no proviso. |
| StakingProofs.RefundAgreesWithIntended | src/felixtoken.cpp:271 | When the request's req_time + 15 days fits in 32 bits (or there is no request), the code's refund and the intended one give the same result. |
| StakingProofs.RefundAtMaturity | src/felixtoken.cpp:270-276 | Suppose the request is mature and the escrow can pay. Then the refund succeeds, erases the request, and credits the account with the whole pending amount. |
| StakingProofs.SettlementPaysOnce | src/felixtoken.cpp:274-276 | After a successful `refund` or `refunddef`, both fail for that account instead of paying twice. |
| StakingProofs.RefundDefAfterRestakeFails | src/felixtoken.cpp:291 | After a restake, the delayed `refunddef` fails rather than doing nothing. |
| StakingProofs.RefundAgreesWithRefundDef | src/felixtoken.cpp:265-296 | Whenever the code's maturity test passes, the self-service and the delayed settlement produce the same result. |
| StakingProofs.MaturityWrapCounterexample | src/felixtoken.cpp:271 | The written maturity test passes for a request made in the same second, once the 32-bit sum wraps. |
| StakingProofs.MaturedAsWrittenAgrees | src/felixtoken.cpp:271 | Wherever req_time + delay fits in 32 bits, the written and the intended maturity tests agree. |
| StakingProofs.MaturedMeansDelayElapsed | include/felixtoken.hpp:33 | The intended test holds exactly when the full lock period has elapsed. |
| StakingProofs.LockPeriodIsFifteenDays | include/felixtoken.hpp:33 | The lock period is 15·24·3600 = 1,296,000 seconds. |
| StakingProofs.StakePreservesValid | src/felixtoken.cpp:162-187 | `stake` keeps the contract invariant. |
| StakingProofs.UnstakePreservesValid | src/felixtoken.cpp:189-228 | `unstake` keeps the contract invariant. |
| StakingProofs.RestakePreservesValid | src/felixtoken.cpp:238-263 | `restake` keeps the contract invariant. |
| StakingProofs.SettlePreservesValid | src/felixtoken.cpp:265-296 | `refund` and `refunddef` keep the contract invariant. |
| StakingProofs.BanishPreservesValid | src/felixtoken.cpp:319-346 | `banish` keeps the contract invariant, even though it breaks total = sum. |
| Contract.StepPreservesValid | src/felixtoken.cpp:20-360 | Every action keeps the contract invariant. |
| Contract.StepKeepsTotal | src/felixtoken.cpp:162-360 | Every action except `banish` keeps total = sum of stakes. |
| Contract.RunPreservesValid | src/felixtoken.cpp:20-360 | Starting from a valid state, the invariant holds after any sequence of transactions. |
| Contract.RunWithoutBanishKeepsTotal | src/felixtoken.cpp:162-360 | Without `banish`, any run keeps total = sum of stakes, so `recalc` would change nothing. |
| Contract.ScenarioLedger | src/felixtoken.cpp:20-107 | A worked run: create 1000 FLX, issue 500, and pay Alice 200 leaves the issuer 300, Alice 200 and the escrow nothing. |
| Contract.ScenarioStaking | src/felixtoken.cpp:162-283 | From any state like the one `ScenarioLedger` ends in, Alice stakes and unstakes 150 at time 1000. Her refund is refused one second before 15 days have passed and pays her back to 200 at 15 days. |
| Contract.Scenario | src/felixtoken.cpp:20-283 | The two halves joined on the exact state the ledger half ends in: the refund is refused one second early and pays Alice back to 200 at 15 days. |

## Left out

- `dividend` (src/felixtoken.cpp:298-317) is not modelled. It divides in floating point, casts a `double` to `int64`, and pays through a call to the external `eosio.token` contract.
- Deferred transactions are not modelled: `cancel_deferred` and the delayed `refunddef` that `unstake` schedules (src/felixtoken.cpp:230-235), and `on_error`/`resend` (src/felixtoken.cpp:362-369). They are the host's scheduling behaviour. `Staking.RefundDef` models what the delayed transaction does when it runs.
- Authorization and notifications are omitted: `require_auth`, `has_auth` and `require_recipient`. Every action is modelled as if properly authorized.
- RAM payers are omitted: the payer choice in `transfer` and the `ram_payer` of `open`. They decide only who pays for storage, never a balance.
- `is_account` is answered by the host's set `knownAccounts`, which the contract never changes.
- eosio's `symbol::is_valid` and `asset::is_valid` are not modelled, nor the 62-bit amount range and the overflow assertions of asset arithmetic. Amounts are unbounded integers.
- eosio's "different symbol" assertions inside asset arithmetic are not modelled, except where `unstake` compares a caller-supplied asset (`AssetSymbolMismatch`). Elsewhere `Tables.Valid` implies the symbols always agree.
- The constructor and destructor that load and persist the total-stake singleton (src/felixtoken.cpp:11-18) are not modelled. The total is a field of the state.
- Time is in whole seconds, so the sub-second part of `time_point` is not modelled. The clock itself stays below 2^32 seconds, so the wrap of `sec_since_epoch()` itself (in 2106) is not modelled.

## Findings

| source | as written | input that shows it | evidently intended | confidence | as-written member | corrected member |
|---|---|---|---|---|---|---|
| src/felixtoken.cpp:271 | `req_time.sec_since_epoch() + refund_delay_sec <= now` adds two 32-bit unsigned values, so the sum wraps modulo 2^32 | req_time = now = 2^32 − 1: the sum wraps to 1,295,999, which is ≤ now, so the request counts as mature immediately | the request is mature only when now ≥ req_time + 1,296,000 | medium, not executed | Staking.Refund, StakingProofs.RefundPaysEarlyAtWrap | Staking.RefundIntended, StakingProofs.RefundIntendedNotBeforeMaturity |

The dispatcher `Contract.Step` runs `Staking.Refund` as the code is written, so runs of the model include the early payout. `Staking.RefundIntended` is the corrected action. `StakingProofs.RefundAgreesWithIntended` shows the two agree for every request whose req_time + 15 days fits in 32 bits.
