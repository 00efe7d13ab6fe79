/** Values shared by both contracts: addresses, the two outcome sides and typed failures. */
module Types {

  /** A Stellar address in its textual form. Only equality is ever used. */
  type Address = string

  datatype Prediction = Yes | No {
    function Other(): Prediction {
      match this
      case Yes => No
      case No => Yes
    }
  }

  datatype Option<+T> = None | Some(value: T)

  datatype Result<+T> = Ok(value: T) | Err(error: Error)

  /** What a call can fail with. The two contracts number their errors independently;
      the names are the same, and only the names are kept. The last three constructors
      stand for traps of the host, which revert a call just as a typed error does. */
  datatype Error =
    | AlreadyInitialized
    | InvalidStrikePrice
    | InvalidExpiry
    | InvalidGracePeriod
    | InvalidFeedId
    | InvalidFeeBps
    | InvalidLiquidity
    | InvalidReflectorConfig
    | InvalidRedstoneConfig
    | MarketNotOpen
    | TradingClosed
    | InvalidAmount
    | InsufficientBalance
    | SlippageExceeded
    | ExpiryNotReached
    | InvalidPayload
    | FeedNotFound
    | StalePrice
    | FuturePrice
    | GracePeriodNotElapsed
    | AlreadyFinalized
    | NotFinalized
    | NothingToRedeem
    | PoolDepthExceeded
    | ReflectorPriceUnavailable
    | ReflectorPriceStale
    | ReflectorDecimalsInvalid
    | ReflectorDecimalsChanged
    | OracleDivergence
    | RedstonePriceUnavailable
    | RedstonePriceStale
    | RedstoneDecimalsInvalid
    | RedstoneDecimalsChanged
    | Unauthorized
    | PriceOracleNotConfigured
    | AuthTrap          // require_auth: nobody can sign for the contract's own address
    | TokenTrap         // the collateral token refuses a transfer
    | ArithmeticTrap    // division by zero, or a price conversion beyond 128 bits
}
