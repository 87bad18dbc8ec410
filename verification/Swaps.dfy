/** Swap requests and their outcomes, as liquidity sources and the proxy exchange them. */
module Swaps {
  datatype Option<+T> = None | Some(value: T)

  datatype Result<+T, +E> = Ok(value: T) | Err(error: E) {

    predicate IsFailure() {
      Err?
    }

    function PropagateFailure<U>(): Result<U, E>
      requires Err?
    {
      Err(error)
    }

    function Extract(): T
      requires Ok?
    {
      value
    }
  }

  datatype Variant = WithDesiredInput | WithDesiredOutput

  /** A desired amount of the input or the output asset, and a limit on the other one. */
  datatype SwapAmount = SwapAmount(variant: Variant, amount: nat, limit: nat)

  datatype Outcome = Outcome(amount: nat, fee: nat)

  /** What a liquidity source answers to a request; the source itself is not modelled. */
  type Quote = SwapAmount -> Option<Outcome>

  datatype ProxyError =
    | UnavailableExchangePath
    | AggregationError
    | CalculationError
    | SlippageNotTolerated
    | SourceFailed
    | InsufficientBalance
}
