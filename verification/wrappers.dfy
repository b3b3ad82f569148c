/** Failure-carrying values shared by every module of the model.

    The source signals failure in two ways: a `Result` error propagated with `?`,
    and a panic (`expect`, `panic!`, an out-of-range slice). Both abort the
    command that triggered them, so both are modelled as a `Failure` carrying
    the kind of error that occurred.
 */
module Wrappers {

  datatype Option<+T> = None | Some(value: T) {
    function GetOr(default: T): T {
      match this
      case Some(v) => v
      case None => default
    }
  }

  /** The kinds of failure the modelled core can run into. */
  datatype Error =
    | WrongVariant      // `as_folder_name` on a tag that is not a sub-pot, or on an empty name
    | MissingPrice      // a funded tag has no entry in the price map
    | NoMatchingLot     // `write_shares` found no lot for (tag, custodian)
    | MissingLots       // a pot folder has no lots file to read
    | SelfReference     // the sub-pot tag ":" names the pot's own folder
    | MissingValue      // a reported symbol has no market value

  datatype Result<+R> = Success(value: R) | Failure(error: Error) {
    predicate IsFailure() {
      Failure?
    }

    function PropagateFailure<U>(): Result<U>
      requires Failure?
    {
      Failure(error)
    }

    function Extract(): R
      requires Success?
    {
      value
    }
  }
}
