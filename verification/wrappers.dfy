/** Nullable values and the outcome of a Java call that may throw. */
module Wrappers {

  /** A nullable reference: `None` stands for Java's `null`. */
  datatype Option<+T> = None | Some(value: T) {

    /** `Optional.orElse`: the wrapped value, or `default` when empty. */
    function GetOr(default: T): T {
      match this
      case Some(v) => v
      case None => default
    }
  }

  /** The unchecked exceptions the modelled code can raise. */
  datatype Exception =
    | NullPointerException
      /** `Enum.valueOf` with a name that is not a constant of the enum. */
    | IllegalArgumentException(name: string)

  /** A call that either returns a value or throws. */
  datatype Result<+T> = Ok(value: T) | Thrown(exception: Exception)
}
