/** Failure-compatible result types used throughout the model.

    Python signals failure with exceptions; the model returns a `Result`
    whose `Failure` arm carries an `Error` describing which exception the
    source would have raised. */
module Wrappers {

  datatype Option<+T> = None | Some(value: T)

  datatype Result<+R, +E> = Success(value: R) | Failure(error: E) {

    predicate IsFailure() {
      Failure?
    }

    function PropagateFailure<U>(): Result<U, E>
      requires Failure?
    {
      Failure(error)
    }

    function Extract(): R
      requires Success?
    {
      value
    }
  }

  /** The exceptions the modelled code can raise.

      In ged2dot.py `Undecodable` and `BadLevel` are both raised as
      `Ged2DotException` (by `safe_utf8_decode` and `safe_atoi`); in
      core/core.py they surface as `UnicodeDecodeError` and `ValueError`.
      `Ambiguous` and `Dangling` are failed `assert` statements in
      `graph_find` and `resolve`; `MissingSexValue` is the `IndexError` of
      core/core.py on a value-less SEX line; `UnknownSex` is the `KeyError`
      of `get_color`; `RootNotFound` is the `Ged2DotException` raised by
      `convert`. */
  datatype Error =
    | Undecodable
    | BadLevel(token: string)
    | Ambiguous(id: string)
    | Dangling(id: string)
    | MissingSexValue
    | UnknownSex(sex: string)
    | RootNotFound(message: string)
  {
    /** True for the failures that ged2dot.py raises as its own exception type. */
    predicate IsGed2DotException() {
      Undecodable? || BadLevel? || RootNotFound?
    }
  }
}
