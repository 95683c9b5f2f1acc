/** Failure-compatible wrappers used throughout the dice engine.
    `Option` stands for Python's `None`-or-value returns, `Result` for a
    computation that either yields a value or raises. */
module Wrappers {

  datatype Option<+T> = None | Some(value: T) {

    predicate IsFailure() {
      None?
    }

    function PropagateFailure<U>(): Option<U>
      requires None?
    {
      None
    }

    function Extract(): T
      requires Some?
    {
      value
    }
  }

  datatype Result<+T, +E> = Ok(value: T) | Err(error: E) {

    predicate IsFailure() {
      Err?
    }

    function PropagateFailure<U>(): Result<U, E>
      requires Err?
    {
      Err(error)
    }

    function Extract(): T
      requires Ok?
    {
      value
    }

    /** Forgets the failure, as a `try/except` that returns `None` does. */
    function ToOption(): Option<T>
    {
      match this
      case Ok(v) => Some(v)
      case Err(_) => None
    }
  }
}

/** The exceptions the engine raises, one constructor per distinct cause. */
module Failures {

  datatype Failure =
    /** the notation string has no `d` at all */
    | MissingD
    /** no `d<digits>` token was found in a die string */
    | NoDieToken
    /** the die token is spelled `D<digits>`; `int('D6')` fails */
    | UpperCaseDieToken
    /** the die size is not one of the supported sizes */
    | UnknownDie
    /** `rerollDie == 1` on an unsupported size slices `None` */
    | NoFaceTable
    /** a rerolled face value is not among the faces (`list.index`) */
    | FaceNotPresent
    /** the folded modifier is not a valid Python expression */
    | BadModifier
    /** a weighted choice over an empty table */
    | EmptyChoice
    /** `die[-1]` on a face set with no faces */
    | EmptyFaces
    /** an option value that cannot be compared with an integer */
    | NotNumeric
    /** at least as many dice to drop as dice rolled */
    | DropTooMany
    /** the reroll threshold is not below the maximum roll */
    | ThresholdTooHigh
    /** eleven attempts in a row did not beat the reroll threshold */
    | RerollsExhausted
    /** the connectors are not a list */
    | ConnectorsNotList
    /** a connector that is not a string */
    | ConnectorNotString
    /** a connector string other than `+` or `-` */
    | ConnectorNotSign
    /** `min()` of an empty list while dropping whole rolls */
    | EmptyPop
    /** an option key that is not a string, passed as a keyword argument */
    | KeywordNotString
    /** an option named like a positional parameter it is passed next to */
    | RepeatedArgument
    /** `.items()` or `.get` on a value that is not a dict */
    | NotAMapping
    /** iterating over a value that is not iterable */
    | NotIterable
    /** `str()` of a value the model does not render */
    | NotRenderable
    /** two die ids that `<` cannot compare */
    | NotComparable
    /** a byte-string key that is not valid UTF-8 */
    | UndecodableKey
    /** request text that `json.loads` rejects */
    | NotJson
}
