/**
  Basic vocabulary of the felixtoken contract: account names, symbols,
  assets, memos, seconds, and the error outcomes of the contract's `check`s.
 */
module Types {

  /** An account name (an eosio `name`). */
  type Name = string

  /** The code part of a token symbol, e.g. "FLX". */
  type SymbolCode = string

  /** A token symbol: its code and its decimal precision. */
  datatype Symbol = Symbol(code: SymbolCode, precision: nat)

  /**
    An amount of some token. Amounts are unbounded integers: the 62-bit
    range that eosio's `asset::is_valid` enforces is not modelled.
   */
  datatype Asset = Asset(amount: int, symbol: Symbol) {

    /** `a += b` on assets whose symbols agree. */
    function Plus(other: Asset): (r: Asset)
      ensures r.symbol == symbol
      ensures r.amount == amount + other.amount
    {
      Asset(amount + other.amount, symbol)
    }

    /** `a -= b` on assets whose symbols agree. */
    function Minus(other: Asset): (r: Asset)
      ensures r.symbol == symbol
      ensures r.amount == amount - other.amount
    {
      Asset(amount - other.amount, symbol)
    }
  }

  /** A transfer or issue memo, as the bytes of a `std::string`. */
  type Memo = seq<bv8>

  /** Longest memo the contract accepts, in bytes. */
  const MaxMemoBytes: nat := 256

  /** The host clock, as eosio's 32-bit `sec_since_epoch()`. */
  const SecondsModulus: int := 0x1_0000_0000
  type Seconds = x: int | 0 <= x < SecondsModulus

  /** Every `check` of the contract that can abort an action. */
  datatype Error =
    | MaxSupplyNotPositive   // "max-supply must be positive"
    | SymbolAlreadyExists    // "token with symbol already exists"
    | SymbolNotFound         // the stats row of the symbol is missing
    | NotIssuer              // "tokens can only be issued to issuer account"
    | NonPositiveQuantity    // issue, retire, transfer, stake and unstake amounts
    | PrecisionMismatch      // "symbol precision mismatch"
    | SupplyExceeded         // "quantity exceeds available supply"
    | MemoTooLong            // "memo has more than 256 bytes"
    | SelfTransfer           // "cannot transfer to self"
    | AccountMissing         // the host does not know the account
    | NoBalanceObject        // "no balance object found"
    | Overdrawn              // "overdrawn balance"
    | BalanceRowMissing      // close: "Balance row already deleted or never existed"
    | BalanceNotZero         // close: "Cannot close because the balance is not zero"
    | NotFelixToken          // "You can only stake FLX token"
    | NoStakingAccount       // "No staking account"
    | AssetSymbolMismatch    // eosio refuses to compare assets of different symbols
    | NotEnoughStaked        // "Not enough staked token"
    | RestakeNotFound        // "Restaking request not found"
    | UnstakingNotFound      // "Unstaking request not found"
    | RefundNotAvailable     // "Refund is not available yet"

  /** The outcome of an action: the new state, or the check that aborted it. */
  datatype Result<T> = Ok(value: T) | Err(error: Error)
}
