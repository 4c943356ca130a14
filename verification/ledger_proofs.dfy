/**
  Properties of the token ledger: every action keeps each token's supply
  equal to the sum of its balances, keeps supplies within their maximum,
  and never lets a balance go negative.
 */
module LedgerProofs {
  import opened Types
  import opened Sums
  import opened Tables
  import opened Ledger

  // ---------------------------------------------------------------------------
  // Holdings after a change of rows

  /** `Holdings` lists exactly the owners that have a row, at their balances. */
  lemma HoldingsMeaning(a: Accounts, code: SymbolCode, o: Name)
    ensures (o in Holdings(a, code)) == HasRow(a, o, code)
    ensures HasRow(a, o, code) ==> Holdings(a, code)[o] == Balance(a, o, code)
  {
  }

  /** Rows of a token that nobody changed give the same holdings. */
  lemma HoldingsUntouched(a': Accounts, a: Accounts, changed: set<(Name, SymbolCode)>, code: SymbolCode)
    requires SameRowsExcept(a', a, changed)
    requires forall o :: (o, code) !in changed
    ensures Holdings(a', code) == Holdings(a, code)
  {
    forall o
      ensures (o in Holdings(a', code)) == (o in Holdings(a, code))
      ensures o in Holdings(a', code) ==> Holdings(a', code)[o] == Holdings(a, code)[o]
    {
      HoldingsMeaning(a', code, o);
      HoldingsMeaning(a, code, o);
    }
  }

  /** When only `owner`'s row of a token changed and is present, holdings change at `owner` only. */
  lemma HoldingsOneSet(a': Accounts, a: Accounts, changed: set<(Name, SymbolCode)>, code: SymbolCode, owner: Name)
    requires SameRowsExcept(a', a, changed)
    requires forall o :: (o, code) in changed ==> o == owner
    requires HasRow(a', owner, code)
    ensures Holdings(a', code) == Holdings(a, code)[owner := Balance(a', owner, code)]
  {
    var h := Holdings(a, code)[owner := Balance(a', owner, code)];
    forall o
      ensures (o in Holdings(a', code)) == (o in h)
      ensures o in h ==> Holdings(a', code)[o] == h[o]
    {
      HoldingsMeaning(a', code, o);
      HoldingsMeaning(a, code, o);
    }
  }

  /** When only `owner`'s row of a token changed and is gone, `owner` leaves the holdings. */
  lemma HoldingsOneErased(a': Accounts, a: Accounts, code: SymbolCode, owner: Name)
    requires SameRowsExcept(a', a, {(owner, code)})
    requires !HasRow(a', owner, code)
    ensures Holdings(a', code) == Holdings(a, code) - {owner}
  {
    var h := Holdings(a, code) - {owner};
    forall o
      ensures (o in Holdings(a', code)) == (o in h)
      ensures o in h ==> Holdings(a', code)[o] == h[o]
    {
      HoldingsMeaning(a', code, o);
      HoldingsMeaning(a, code, o);
    }
  }

  // ---------------------------------------------------------------------------
  // The two balance helpers move the sum of holdings by exactly the amount

  /** `sub_balance` lowers the holdings of the value's token by the amount and no other token's. */
  lemma SubBalanceSum(a: Accounts, owner: Name, value: Asset, c: SymbolCode)
    requires SubBalance(a, owner, value).Ok?
    ensures Sum(Holdings(SubBalance(a, owner, value).value, c))
            == Sum(Holdings(a, c)) - (if c == value.symbol.code then value.amount else 0)
  {
    var a' := SubBalance(a, owner, value).value;
    if c == value.symbol.code {
      HoldingsOneSet(a', a, {(owner, c)}, c, owner);
      HoldingsMeaning(a, c, owner);
      SumUpdate(Holdings(a, c), owner, Balance(a', owner, c));
    } else {
      HoldingsUntouched(a', a, {(owner, value.symbol.code)}, c);
    }
  }

  /** `add_balance` raises the holdings of the value's token by the amount and no other token's. */
  lemma AddBalanceSum(a: Accounts, owner: Name, value: Asset, c: SymbolCode)
    ensures Sum(Holdings(AddBalance(a, owner, value), c))
            == Sum(Holdings(a, c)) + (if c == value.symbol.code then value.amount else 0)
  {
    var a' := AddBalance(a, owner, value);
    if c == value.symbol.code {
      HoldingsOneSet(a', a, {(owner, c)}, c, owner);
      HoldingsMeaning(a, c, owner);
      SumUpdate(Holdings(a, c), owner, Balance(a', owner, c));
    } else {
      HoldingsUntouched(a', a, {(owner, value.symbol.code)}, c);
    }
  }

  /** `sub_balance` keeps every row well formed: it only debits a row that covers the amount. */
  lemma SubBalanceFits(a: Accounts, stats: map<SymbolCode, CurrencyStats>, owner: Name, value: Asset)
    requires RowsFit(a, stats)
    requires SubBalance(a, owner, value).Ok?
    ensures RowsFit(SubBalance(a, owner, value).value, stats)
  {
    var a' := SubBalance(a, owner, value).value;
    forall o, c | HasRow(a', o, c)
      ensures c in stats
      ensures Scope(a', o)[c].balance.symbol == stats[c].supply.symbol
      ensures Scope(a', o)[c].balance.amount >= 0
    {
      assert HasRow(a, o, c);
    }
  }

  /** `add_balance` of a non-negative amount of a created token keeps every row well formed. */
  lemma AddBalanceFits(a: Accounts, stats: map<SymbolCode, CurrencyStats>, owner: Name, value: Asset)
    requires RowsFit(a, stats)
    requires value.amount >= 0
    requires value.symbol.code in stats && value.symbol == stats[value.symbol.code].supply.symbol
    ensures RowsFit(AddBalance(a, owner, value), stats)
  {
    var a' := AddBalance(a, owner, value);
    forall o, c | HasRow(a', o, c)
      ensures c in stats
      ensures Scope(a', o)[c].balance.symbol == stats[c].supply.symbol
      ensures Scope(a', o)[c].balance.amount >= 0
    {
      if (o, c) != (owner, value.symbol.code) {
        assert HasRow(a, o, c);
      }
    }
  }

  // ---------------------------------------------------------------------------
  // Conservation: supply == sum of balances, action by action

  /** A token nobody holds yet has no balance rows, so its holdings sum to zero. */
  lemma UnregisteredHasNoHoldings(s: State, code: SymbolCode)
    requires RowsFit(s.accounts, s.stats)
    requires code !in s.stats
    ensures Holdings(s.accounts, code) == map[]
  {
    forall o ensures o !in Holdings(s.accounts, code) {
      HoldingsMeaning(s.accounts, code, o);
    }
  }

  lemma CreateConserves(s: State, issuer: Name, maximumSupply: Asset)
    requires Conserved(s) && RowsFit(s.accounts, s.stats)
    requires Create(s, issuer, maximumSupply).Ok?
    ensures Conserved(Create(s, issuer, maximumSupply).value)
  {
    UnregisteredHasNoHoldings(s, maximumSupply.symbol.code);
  }

  /** `issue` raises the supply and the issuer's balance by the same amount. */
  lemma IssueConserves(s: State, to: Name, quantity: Asset, memo: Memo)
    requires Conserved(s)
    requires Issue(s, to, quantity, memo).Ok?
    ensures Conserved(Issue(s, to, quantity, memo).value)
  {
    var r := Issue(s, to, quantity, memo).value;
    forall c | c in r.stats ensures r.stats[c].supply.amount == Sum(Holdings(r.accounts, c)) {
      AddBalanceSum(s.accounts, s.stats[quantity.symbol.code].issuer, quantity, c);
    }
  }

  /** `retire` lowers the supply and the issuer's balance by the same amount. */
  lemma RetireConserves(s: State, quantity: Asset, memo: Memo)
    requires Conserved(s)
    requires Retire(s, quantity, memo).Ok?
    ensures Conserved(Retire(s, quantity, memo).value)
  {
    var r := Retire(s, quantity, memo).value;
    forall c | c in r.stats ensures r.stats[c].supply.amount == Sum(Holdings(r.accounts, c)) {
      SubBalanceSum(s.accounts, s.stats[quantity.symbol.code].issuer, quantity, c);
    }
  }

  /** `transfer` debits and credits the same amount, so no supply changes and every sum is kept. */
  lemma TransferConserves(s: State, from: Name, to: Name, quantity: Asset, memo: Memo)
    requires Conserved(s)
    requires Transfer(s, from, to, quantity, memo).Ok?
    ensures Conserved(Transfer(s, from, to, quantity, memo).value)
  {
    var r := Transfer(s, from, to, quantity, memo).value;
    var debited := SubBalance(s.accounts, from, quantity).value;
    assert r.accounts == AddBalance(debited, to, quantity);
    forall c | c in r.stats ensures r.stats[c].supply.amount == Sum(Holdings(r.accounts, c)) {
      SubBalanceSum(s.accounts, from, quantity, c);
      AddBalanceSum(debited, to, quantity, c);
    }
  }

  /** `open` adds at most a zero row, which leaves every sum alone. */
  lemma OpenConserves(s: State, owner: Name, symbol: Symbol)
    requires Conserved(s)
    requires Open(s, owner, symbol).Ok?
    ensures Conserved(Open(s, owner, symbol).value)
  {
    var r := Open(s, owner, symbol).value;
    if !HasRow(s.accounts, owner, symbol.code) {
      forall c | c in r.stats ensures r.stats[c].supply.amount == Sum(Holdings(r.accounts, c)) {
        AddBalanceSum(s.accounts, owner, Asset(0, symbol), c);
      }
    }
  }

  /** `close` only erases a zero row, which leaves every sum alone. */
  lemma CloseConserves(s: State, owner: Name, symbol: Symbol)
    requires Conserved(s)
    requires Close(s, owner, symbol).Ok?
    ensures Conserved(Close(s, owner, symbol).value)
  {
    var r := Close(s, owner, symbol).value;
    forall c | c in r.stats ensures r.stats[c].supply.amount == Sum(Holdings(r.accounts, c)) {
      if c == symbol.code {
        HoldingsOneErased(r.accounts, s.accounts, c, owner);
        HoldingsMeaning(s.accounts, c, owner);
        SumRemove(Holdings(s.accounts, c), owner);
      } else {
        HoldingsUntouched(r.accounts, s.accounts, {(owner, symbol.code)}, c);
      }
    }
  }

  // ---------------------------------------------------------------------------
  // The full invariant

  /** Balance rows sit under the key their `primary_key()` computes. */
  lemma BalanceRowsKeyed(s: State, o: Name, c: SymbolCode)
    requires Valid(s)
    requires HasRow(s.accounts, o, c)
    ensures Scope(s.accounts, o)[c].PrimaryKey() == c
  {
  }

  lemma CreatePreservesValid(s: State, issuer: Name, maximumSupply: Asset)
    requires Valid(s)
    requires Create(s, issuer, maximumSupply).Ok?
    ensures Valid(Create(s, issuer, maximumSupply).value)
  {
    var r := Create(s, issuer, maximumSupply).value;
    CreateConserves(s, issuer, maximumSupply);
    forall o, c | HasRow(r.accounts, o, c)
      ensures c in r.stats && Scope(r.accounts, o)[c].balance.symbol == r.stats[c].supply.symbol
    {
    }
  }

  lemma IssuePreservesValid(s: State, to: Name, quantity: Asset, memo: Memo)
    requires Valid(s)
    requires Issue(s, to, quantity, memo).Ok?
    ensures Valid(Issue(s, to, quantity, memo).value)
  {
    var r := Issue(s, to, quantity, memo).value;
    IssueConserves(s, to, quantity, memo);
    AddBalanceFits(s.accounts, s.stats, to, quantity);
    assert RowsFit(r.accounts, s.stats);
    forall o, c | HasRow(r.accounts, o, c)
      ensures c in r.stats && Scope(r.accounts, o)[c].balance.symbol == r.stats[c].supply.symbol
    {
    }
  }

  lemma RetirePreservesValid(s: State, quantity: Asset, memo: Memo)
    requires Valid(s)
    requires Retire(s, quantity, memo).Ok?
    ensures Valid(Retire(s, quantity, memo).value)
  {
    var r := Retire(s, quantity, memo).value;
    var code := quantity.symbol.code;
    RetireConserves(s, quantity, memo);
    SubBalanceFits(s.accounts, s.stats, s.stats[code].issuer, quantity);
    assert RowsFit(r.accounts, s.stats);
    forall o, c | HasRow(r.accounts, o, c)
      ensures c in r.stats && Scope(r.accounts, o)[c].balance.symbol == r.stats[c].supply.symbol
    {
    }
    SumNonNegativeHoldings(r, code);
  }

  /** With every row non-negative, the holdings of a token sum to at least zero. */
  lemma SumNonNegativeHoldings(s: State, code: SymbolCode)
    requires RowsFit(s.accounts, s.stats)
    ensures Sum(Holdings(s.accounts, code)) >= 0
  {
    forall o | o in Holdings(s.accounts, code) ensures Holdings(s.accounts, code)[o] >= 0 {
      HoldingsMeaning(s.accounts, code, o);
    }
    SumNonNegative(Holdings(s.accounts, code));
  }

  lemma TransferPreservesValid(s: State, from: Name, to: Name, quantity: Asset, memo: Memo)
    requires Valid(s)
    requires Transfer(s, from, to, quantity, memo).Ok?
    ensures Valid(Transfer(s, from, to, quantity, memo).value)
  {
    var debited := SubBalance(s.accounts, from, quantity).value;
    TransferConserves(s, from, to, quantity, memo);
    SubBalanceFits(s.accounts, s.stats, from, quantity);
    AddBalanceFits(debited, s.stats, to, quantity);
  }

  lemma OpenPreservesValid(s: State, owner: Name, symbol: Symbol)
    requires Valid(s)
    requires Open(s, owner, symbol).Ok?
    ensures Valid(Open(s, owner, symbol).value)
  {
    OpenConserves(s, owner, symbol);
    if !HasRow(s.accounts, owner, symbol.code) {
      AddBalanceFits(s.accounts, s.stats, owner, Asset(0, symbol));
      assert Open(s, owner, symbol).value.accounts == AddBalance(s.accounts, owner, Asset(0, symbol));
    }
  }

  lemma ClosePreservesValid(s: State, owner: Name, symbol: Symbol)
    requires Valid(s)
    requires Close(s, owner, symbol).Ok?
    ensures Valid(Close(s, owner, symbol).value)
  {
    var r := Close(s, owner, symbol).value;
    CloseConserves(s, owner, symbol);
    forall o, c | HasRow(r.accounts, o, c)
      ensures c in r.stats
      ensures Scope(r.accounts, o)[c].balance.symbol == r.stats[c].supply.symbol
      ensures Scope(r.accounts, o)[c].balance.amount >= 0
    {
      assert HasRow(s.accounts, o, c);
    }
  }
}
