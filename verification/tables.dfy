/**
  The persistent tables of the felixtoken contract (include/felixtoken.hpp):
  row shapes with their primary keys, the whole contract state, and the
  invariants that the actions keep.
 */
module Tables {
  import opened Types
  import opened Sums

  /** The unstaking lock period: fifteen days, in seconds. */
  const RefundDelaySec: nat := 15 * 24 * 3600

  /** The token that can be staked. */
  const FelixSymbol: Symbol := Symbol("FLX", 4)

  /** The account that holds staked tokens in escrow. */
  const StakingEscrow: Name := "felixstaking"

  /** The account that receives the stake of a banished account. */
  const BanishSink: Name := "felixtokenio"

  /** A balance row, stored in its owner's scope. */
  datatype Account = Account(balance: Asset) {
    function PrimaryKey(): SymbolCode { balance.symbol.code }
  }

  /** The supply record of one token. */
  datatype CurrencyStats = CurrencyStats(supply: Asset, maxSupply: Asset, issuer: Name) {
    function PrimaryKey(): SymbolCode { supply.symbol.code }
  }

  /** The stake of one account. */
  datatype StakingRow = StakingRow(account: Name, quantity: Asset) {
    function PrimaryKey(): Name { account }
  }

  /** The pending withdrawal of one account, with the time it was last requested. */
  datatype Unstaking = Unstaking(account: Name, quantity: Asset, reqTime: Seconds) {
    function PrimaryKey(): Name { account }
  }

  /** The singleton running total of all stakes. */
  datatype TotalStake = TotalStake(quantity: Asset)

  /** Balance rows: one table per owner, keyed by symbol code. */
  type Accounts = map<Name, map<SymbolCode, Account>>

  /**
    Everything the contract stores, plus the host's set of existing
    accounts (what `is_account` answers), which the contract never changes.
   */
  datatype State = State(
    accounts: Accounts,
    stats: map<SymbolCode, CurrencyStats>,
    staking: map<Name, StakingRow>,
    unstaking: map<Name, Unstaking>,
    totalStake: TotalStake,
    knownAccounts: set<Name>)

  /** The state of a freshly deployed contract: the constructor's zero FLX total. */
  function Init(knownAccounts: set<Name>): (s: State)
    ensures Valid(s) && StakeConsistent(s)
  {
    State(map[], map[], map[], map[], TotalStake(Asset(0, FelixSymbol)), knownAccounts)
  }

  // ---------------------------------------------------------------------------
  // Reading balance rows

  /** The balance table in `owner`'s scope. */
  function Scope(accounts: Accounts, owner: Name): map<SymbolCode, Account> {
    if owner in accounts then accounts[owner] else map[]
  }

  predicate HasRow(accounts: Accounts, owner: Name, code: SymbolCode) {
    code in Scope(accounts, owner)
  }

  /** The amount held by `owner` in token `code`; zero when there is no row. */
  function Balance(accounts: Accounts, owner: Name, code: SymbolCode): int {
    if HasRow(accounts, owner, code) then Scope(accounts, owner)[code].balance.amount else 0
  }

  /** Every holder of token `code` with the amount held. */
  function Holdings(accounts: Accounts, code: SymbolCode): map<Name, int> {
    map o | o in accounts.Keys && HasRow(accounts, o, code) :: Balance(accounts, o, code)
  }

  /** Every staker with the amount staked. */
  function StakedAmounts(staking: map<Name, StakingRow>): map<Name, int> {
    map a | a in staking :: staking[a].quantity.amount
  }

  /** The stake of `account`; zero when it has no staking row. */
  function StakeOf(s: State, account: Name): int {
    if account in s.staking then s.staking[account].quantity.amount else 0
  }

  /** The pending withdrawal of `account`; zero when it has no unstaking row. */
  function PendingOf(s: State, account: Name): int {
    if account in s.unstaking then s.unstaking[account].quantity.amount else 0
  }

  // ---------------------------------------------------------------------------
  // The static accessors of the contract class

  /** `get_supply`: the circulating supply of a token; aborts when it was never created. */
  function GetSupply(s: State, code: SymbolCode): (r: Result<Asset>)
    ensures r.Ok? <==> code in s.stats
    ensures r.Ok? ==> r.value == s.stats[code].supply
    ensures r.Err? ==> r.error == SymbolNotFound
  {
    if code in s.stats then Ok(s.stats[code].supply) else Err(SymbolNotFound)
  }

  /** `get_balance`: the balance of `owner` in a token; aborts when the row is absent. */
  function GetBalance(s: State, owner: Name, code: SymbolCode): (r: Result<Asset>)
    ensures r.Ok? <==> HasRow(s.accounts, owner, code)
    ensures r.Ok? ==> r.value.amount == Balance(s.accounts, owner, code)
    ensures r.Ok? && Valid(s) ==>
      && code in s.stats && r.value.symbol == s.stats[code].supply.symbol
      && r.value.symbol.code == code && r.value.amount >= 0
    ensures r.Err? ==> r.error == NoBalanceObject
  {
    if HasRow(s.accounts, owner, code) then Ok(Scope(s.accounts, owner)[code].balance)
    else Err(NoBalanceObject)
  }

  // ---------------------------------------------------------------------------
  // Invariants

  /**
    Every supply, staking and unstaking row sits under the key its
    `primary_key()` computes (for balance rows this follows from
    `RowsFit`, see `LedgerProofs.BalanceRowsKeyed`).
   */
  ghost predicate WellKeyed(s: State) {
    && (forall c :: c in s.stats ==> s.stats[c].PrimaryKey() == c)
    && (forall a :: a in s.staking ==> s.staking[a].PrimaryKey() == a)
    && (forall a :: a in s.unstaking ==> s.unstaking[a].PrimaryKey() == a)
  }

  /**
    Supply records are well formed: supply and maximum share a symbol, the
    maximum is positive, and the supply lies between zero and the maximum.
   */
  ghost predicate SupplyBounded(s: State) {
    forall c :: c in s.stats ==>
      && s.stats[c].supply.symbol == s.stats[c].maxSupply.symbol
      && 0 < s.stats[c].maxSupply.amount
      && 0 <= s.stats[c].supply.amount <= s.stats[c].maxSupply.amount
  }

  /** Every balance row belongs to a created token, has that token's exact symbol, and is non-negative. */
  ghost predicate RowsFit(accounts: Accounts, stats: map<SymbolCode, CurrencyStats>) {
    forall o, c :: HasRow(accounts, o, c) ==>
      && c in stats
      && Scope(accounts, o)[c].balance.symbol == stats[c].supply.symbol
      && Scope(accounts, o)[c].balance.amount >= 0
  }

  /** The supply of every token is the sum of all balances in it. */
  ghost predicate Conserved(s: State) {
    forall c :: c in s.stats ==> s.stats[c].supply.amount == Sum(Holdings(s.accounts, c))
  }

  /** Staking and unstaking rows hold positive FLX amounts, and so does the total's symbol. */
  ghost predicate StakesWellFormed(s: State) {
    && (forall a :: a in s.staking ==>
          s.staking[a].quantity.symbol == FelixSymbol && s.staking[a].quantity.amount > 0)
    && (forall a :: a in s.unstaking ==>
          s.unstaking[a].quantity.symbol == FelixSymbol && s.unstaking[a].quantity.amount > 0)
    && s.totalStake.quantity.symbol == FelixSymbol
  }

  /** The invariant every action keeps. */
  ghost predicate Valid(s: State) {
    && WellKeyed(s)
    && SupplyBounded(s)
    && RowsFit(s.accounts, s.stats)
    && Conserved(s)
    && StakesWellFormed(s)
  }

  /** The total stake equals the sum of all staking rows; `banish` can break this, `recalc` restores it. */
  ghost predicate StakeConsistent(s: State) {
    s.totalStake.quantity.amount == Sum(StakedAmounts(s.staking))
  }
}
