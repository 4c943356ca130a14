/**
  The token ledger actions of the felixtoken contract (src/felixtoken.cpp):
  create, issue, retire, transfer, open and close, with the private helpers
  sub_balance and add_balance. Each action either aborts with the first
  failing check or returns the whole new state.
 */
module Ledger {
  import opened Types
  import opened Tables

  /**
    `accounts` and `other` hold the same rows everywhere except possibly at
    the listed (owner, symbol code) positions.
   */
  ghost predicate SameRowsExcept(accounts: Accounts, other: Accounts, changed: set<(Name, SymbolCode)>) {
    forall o, c :: (o, c) !in changed ==>
      && HasRow(accounts, o, c) == HasRow(other, o, c)
      && (HasRow(accounts, o, c) ==> Scope(accounts, o)[c] == Scope(other, o)[c])
  }

  /** Stores `row` as the (owner, code) balance row. */
  function SetRow(accounts: Accounts, owner: Name, code: SymbolCode, row: Account): (r: Accounts)
    ensures HasRow(r, owner, code) && Scope(r, owner)[code] == row
    ensures SameRowsExcept(r, accounts, {(owner, code)})
  {
    accounts[owner := Scope(accounts, owner)[code := row]]
  }

  /** Erases the (owner, code) balance row. */
  function EraseRow(accounts: Accounts, owner: Name, code: SymbolCode): (r: Accounts)
    ensures !HasRow(r, owner, code)
    ensures SameRowsExcept(r, accounts, {(owner, code)})
  {
    accounts[owner := Scope(accounts, owner) - {code}]
  }

  /** `sub_balance`: debits `owner`, who must hold a row with at least `value`. */
  function SubBalance(accounts: Accounts, owner: Name, value: Asset): (r: Result<Accounts>)
    ensures !HasRow(accounts, owner, value.symbol.code) ==> r == Err(NoBalanceObject)
    ensures (HasRow(accounts, owner, value.symbol.code)
             && Balance(accounts, owner, value.symbol.code) < value.amount) ==> r == Err(Overdrawn)
    ensures r.Ok? <==> HasRow(accounts, owner, value.symbol.code)
                       && Balance(accounts, owner, value.symbol.code) >= value.amount
    ensures r.Ok? ==>
      && HasRow(r.value, owner, value.symbol.code)
      && Balance(r.value, owner, value.symbol.code) == Balance(accounts, owner, value.symbol.code) - value.amount
      && Scope(r.value, owner)[value.symbol.code].balance.symbol
         == Scope(accounts, owner)[value.symbol.code].balance.symbol
      && SameRowsExcept(r.value, accounts, {(owner, value.symbol.code)})
  {
    var code := value.symbol.code;
    if !HasRow(accounts, owner, code) then Err(NoBalanceObject)
    else
      var row := Scope(accounts, owner)[code];
      if row.balance.amount < value.amount then Err(Overdrawn)
      else Ok(SetRow(accounts, owner, code, row.(balance := row.balance.Minus(value))))
  }

  /** `add_balance`: credits `owner`, creating the row seeded with `value` when absent. */
  function AddBalance(accounts: Accounts, owner: Name, value: Asset): (r: Accounts)
    ensures HasRow(r, owner, value.symbol.code)
    ensures Balance(r, owner, value.symbol.code) == Balance(accounts, owner, value.symbol.code) + value.amount
    ensures !HasRow(accounts, owner, value.symbol.code) ==> Scope(r, owner)[value.symbol.code].balance == value
    ensures HasRow(accounts, owner, value.symbol.code) ==>
              Scope(r, owner)[value.symbol.code].balance.symbol
              == Scope(accounts, owner)[value.symbol.code].balance.symbol
    ensures SameRowsExcept(r, accounts, {(owner, value.symbol.code)})
  {
    var code := value.symbol.code;
    if !HasRow(accounts, owner, code) then SetRow(accounts, owner, code, Account(value))
    else
      var row := Scope(accounts, owner)[code];
      SetRow(accounts, owner, code, row.(balance := row.balance.Plus(value)))
  }

  /** `create`: registers a token with zero supply; the symbol must be new and the maximum positive. */
  function Create(s: State, issuer: Name, maximumSupply: Asset): (r: Result<State>)
    ensures maximumSupply.amount <= 0 ==> r == Err(MaxSupplyNotPositive)
    ensures maximumSupply.amount > 0 && maximumSupply.symbol.code in s.stats ==> r == Err(SymbolAlreadyExists)
    ensures r.Ok? <==> maximumSupply.amount > 0 && maximumSupply.symbol.code !in s.stats
    ensures r.Ok? ==> r.value.stats.Keys == s.stats.Keys + {maximumSupply.symbol.code}
    ensures r.Ok? ==>
      var st := r.value.stats[maximumSupply.symbol.code];
      && st.supply == Asset(0, maximumSupply.symbol)
      && st.maxSupply == maximumSupply
      && st.issuer == issuer
      && r.value == s.(stats := r.value.stats)
      && (forall c :: c in s.stats ==> r.value.stats[c] == s.stats[c])
  {
    var code := maximumSupply.symbol.code;
    if maximumSupply.amount <= 0 then Err(MaxSupplyNotPositive)
    else if code in s.stats then Err(SymbolAlreadyExists)
    else
      var st := CurrencyStats(Asset(0, maximumSupply.symbol), maximumSupply, issuer);
      Ok(s.(stats := s.stats[code := st]))
  }

  /** `issue`: mints `quantity` to the issuer, never beyond the maximum supply. */
  function Issue(s: State, to: Name, quantity: Asset, memo: Memo): (r: Result<State>)
    ensures |memo| > MaxMemoBytes ==> r == Err(MemoTooLong)
    ensures |memo| <= MaxMemoBytes && quantity.symbol.code !in s.stats ==> r == Err(SymbolNotFound)
    ensures (|memo| <= MaxMemoBytes && quantity.symbol.code in s.stats
             && to != s.stats[quantity.symbol.code].issuer) ==> r == Err(NotIssuer)
    ensures r == Err(SupplyExceeded) ==>
      quantity.amount > s.stats[quantity.symbol.code].maxSupply.amount - s.stats[quantity.symbol.code].supply.amount
    ensures r.Ok? <==>
      && |memo| <= MaxMemoBytes
      && quantity.symbol.code in s.stats
      && to == s.stats[quantity.symbol.code].issuer
      && quantity.amount > 0
      && quantity.symbol == s.stats[quantity.symbol.code].supply.symbol
      && quantity.amount <= s.stats[quantity.symbol.code].maxSupply.amount
                            - s.stats[quantity.symbol.code].supply.amount
    ensures r.Ok? ==>
      var code := quantity.symbol.code;
      && r.value.stats == s.stats[code := s.stats[code].(supply := s.stats[code].supply.Plus(quantity))]
      && r.value.stats[code].supply.amount <= r.value.stats[code].maxSupply.amount
      && Balance(r.value.accounts, to, code) == Balance(s.accounts, to, code) + quantity.amount
      && SameRowsExcept(r.value.accounts, s.accounts, {(to, code)})
      && r.value == s.(stats := r.value.stats, accounts := r.value.accounts)
  {
    var code := quantity.symbol.code;
    if |memo| > MaxMemoBytes then Err(MemoTooLong)
    else if code !in s.stats then Err(SymbolNotFound)
    else
      var st := s.stats[code];
      if to != st.issuer then Err(NotIssuer)
      else if quantity.amount <= 0 then Err(NonPositiveQuantity)
      else if quantity.symbol != st.supply.symbol then Err(PrecisionMismatch)
      else if quantity.amount > st.maxSupply.amount - st.supply.amount then Err(SupplyExceeded)
      else
        Ok(s.(stats := s.stats[code := st.(supply := st.supply.Plus(quantity))],
              accounts := AddBalance(s.accounts, st.issuer, quantity)))
  }

  /** `retire`: burns `quantity` from the issuer's balance. */
  function Retire(s: State, quantity: Asset, memo: Memo): (r: Result<State>)
    ensures |memo| > MaxMemoBytes ==> r == Err(MemoTooLong)
    ensures |memo| <= MaxMemoBytes && quantity.symbol.code !in s.stats ==> r == Err(SymbolNotFound)
    ensures r.Ok? <==>
      && |memo| <= MaxMemoBytes
      && quantity.symbol.code in s.stats
      && quantity.amount > 0
      && quantity.symbol == s.stats[quantity.symbol.code].supply.symbol
      && HasRow(s.accounts, s.stats[quantity.symbol.code].issuer, quantity.symbol.code)
      && Balance(s.accounts, s.stats[quantity.symbol.code].issuer, quantity.symbol.code) >= quantity.amount
    ensures r.Ok? ==>
      var code := quantity.symbol.code;
      var issuer := s.stats[code].issuer;
      && r.value.stats == s.stats[code := s.stats[code].(supply := s.stats[code].supply.Minus(quantity))]
      && Balance(r.value.accounts, issuer, code) == Balance(s.accounts, issuer, code) - quantity.amount
      && SameRowsExcept(r.value.accounts, s.accounts, {(issuer, code)})
      && r.value == s.(stats := r.value.stats, accounts := r.value.accounts)
  {
    var code := quantity.symbol.code;
    if |memo| > MaxMemoBytes then Err(MemoTooLong)
    else if code !in s.stats then Err(SymbolNotFound)
    else
      var st := s.stats[code];
      if quantity.amount <= 0 then Err(NonPositiveQuantity)
      else if quantity.symbol != st.supply.symbol then Err(PrecisionMismatch)
      else
        match SubBalance(s.accounts, st.issuer, quantity)
        case Err(e) => Err(e)
        case Ok(debited) =>
          Ok(s.(stats := s.stats[code := st.(supply := st.supply.Minus(quantity))], accounts := debited))
  }

  /**
    `transfer`: moves `quantity` from `from` to `to`. Only balance rows change:
    `from` is debited and `to` credited by the same amount.
   */
  function Transfer(s: State, from: Name, to: Name, quantity: Asset, memo: Memo): (r: Result<State>)
    ensures from == to ==> r == Err(SelfTransfer)
    ensures from != to && to !in s.knownAccounts ==> r == Err(AccountMissing)
    ensures r == Err(Overdrawn) ==>
      HasRow(s.accounts, from, quantity.symbol.code) && Balance(s.accounts, from, quantity.symbol.code) < quantity.amount
    ensures r.Ok? <==>
      && from != to
      && to in s.knownAccounts
      && quantity.symbol.code in s.stats
      && quantity.amount > 0
      && quantity.symbol == s.stats[quantity.symbol.code].supply.symbol
      && |memo| <= MaxMemoBytes
      && HasRow(s.accounts, from, quantity.symbol.code)
      && Balance(s.accounts, from, quantity.symbol.code) >= quantity.amount
    ensures r.Ok? ==>
      var code := quantity.symbol.code;
      && Balance(r.value.accounts, from, code) == Balance(s.accounts, from, code) - quantity.amount
      && Balance(r.value.accounts, to, code) == Balance(s.accounts, to, code) + quantity.amount
      && HasRow(r.value.accounts, from, code) && HasRow(r.value.accounts, to, code)
      && SameRowsExcept(r.value.accounts, s.accounts, {(from, code), (to, code)})
      && r.value == s.(accounts := r.value.accounts)
  {
    var code := quantity.symbol.code;
    if from == to then Err(SelfTransfer)
    else if to !in s.knownAccounts then Err(AccountMissing)
    else if code !in s.stats then Err(SymbolNotFound)
    else if quantity.amount <= 0 then Err(NonPositiveQuantity)
    else if quantity.symbol != s.stats[code].supply.symbol then Err(PrecisionMismatch)
    else if |memo| > MaxMemoBytes then Err(MemoTooLong)
    else
      match SubBalance(s.accounts, from, quantity)
      case Err(e) => Err(e)
      case Ok(debited) => Ok(s.(accounts := AddBalance(debited, to, quantity)))
  }

  /** `open`: makes sure `owner` has a (zero) row for `symbol`; an existing row is left alone. */
  function Open(s: State, owner: Name, symbol: Symbol): (r: Result<State>)
    ensures owner !in s.knownAccounts ==> r == Err(AccountMissing)
    ensures r.Ok? <==>
      && owner in s.knownAccounts
      && symbol.code in s.stats
      && s.stats[symbol.code].supply.symbol == symbol
    ensures r.Ok? ==>
      && HasRow(r.value.accounts, owner, symbol.code)
      && Balance(r.value.accounts, owner, symbol.code) == Balance(s.accounts, owner, symbol.code)
      && (HasRow(s.accounts, owner, symbol.code) ==> r.value == s)
      && (!HasRow(s.accounts, owner, symbol.code) ==>
            Scope(r.value.accounts, owner)[symbol.code].balance == Asset(0, symbol))
      && SameRowsExcept(r.value.accounts, s.accounts, {(owner, symbol.code)})
      && r.value == s.(accounts := r.value.accounts)
  {
    if owner !in s.knownAccounts then Err(AccountMissing)
    else if symbol.code !in s.stats then Err(SymbolNotFound)
    else if s.stats[symbol.code].supply.symbol != symbol then Err(PrecisionMismatch)
    else if HasRow(s.accounts, owner, symbol.code) then Ok(s)
    else Ok(s.(accounts := SetRow(s.accounts, owner, symbol.code, Account(Asset(0, symbol)))))
  }

  /** `close`: erases the row of `owner` for `symbol`, which must exist and be empty. */
  function Close(s: State, owner: Name, symbol: Symbol): (r: Result<State>)
    ensures !HasRow(s.accounts, owner, symbol.code) ==> r == Err(BalanceRowMissing)
    ensures (HasRow(s.accounts, owner, symbol.code) && Balance(s.accounts, owner, symbol.code) != 0)
            ==> r == Err(BalanceNotZero)
    ensures r.Ok? <==> HasRow(s.accounts, owner, symbol.code) && Balance(s.accounts, owner, symbol.code) == 0
    ensures r.Ok? ==>
      && !HasRow(r.value.accounts, owner, symbol.code)
      && SameRowsExcept(r.value.accounts, s.accounts, {(owner, symbol.code)})
      && r.value == s.(accounts := r.value.accounts)
  {
    if !HasRow(s.accounts, owner, symbol.code) then Err(BalanceRowMissing)
    else if Balance(s.accounts, owner, symbol.code) != 0 then Err(BalanceNotZero)
    else Ok(s.(accounts := EraseRow(s.accounts, owner, symbol.code)))
  }
}
