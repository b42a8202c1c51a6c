/** The error enums of the game service. Only the variant and its structured
    context are modelled; the error_stack report chain and the rendered
    message texts are not. */
module Errors {

  /** `LowLevelErrors`: failures of the shared store itself. */
  datatype LowLevelError = PoisonedHash

  /** `MainError`: the errors of the reveal path. `NoGuessvalueForId` is
      declared by the program but never raised. */
  datatype MainError =
    | InvalidGame(gameId: string)
    | NoGuessvalueForId(gameId: string)
    | UnknownCause

  /** `CustomErrors`: the errors of the guess path. `OtherError` is the
      enum's default and is never raised. */
  datatype CustomError =
    | InvalidGame(gameId: string)
    | GuessDataMissingForGame(gameId: string)
    | OtherError
}
