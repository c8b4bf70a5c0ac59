/** The two exceptions the game can raise, as values. */
module GameErrors {

  /** `invalid_argument` from the dealer's constructor and `runtime_error`
      from dealing or exchanging on an exhausted deck. */
  datatype GameError = NotEnoughPlayers | OutOfCards

  /** Outcome of an operation that either completes or throws. */
  datatype Outcome = Pass | Fail(error: GameError)

  /** Outcome of an operation that builds a value or throws. */
  datatype Result<T> = Ok(value: T) | Err(error: GameError)
}
