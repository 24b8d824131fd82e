/** How a call ends: normally, or by throwing. */
module Errors {
  datatype Reason =
    | NegativeResult
    | SharedOutput
    | DivisionByZero
    | DecrementOfZero
    | DoesNotFit
    | PathologicalShift
    | CommonFactor
    | BadBase
    | BadSymbol
    | DigitTooLarge
    | ZeroSignOfNonzero
    | BadArgument
    | NegativeArgument

  datatype Outcome = Ok | Threw(reason: Reason)
}
