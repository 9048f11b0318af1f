/** Kotlin's nullable values and `kotlin.Result`, as datatypes. */
module Wrappers {

  /** A nullable value: `None` is Kotlin's `null`. */
  datatype Option<+T> = None | Some(value: T) {

    /** `this ?: default` for a non-null default */
    function GetOr(default: T): T {
      match this
      case Some(v) => v
      case None => default
    }
  }

  /** `a ?: b` on two nullable values */
  function OrElse<T>(a: Option<T>, b: Option<T>): Option<T> {
    if a.Some? then a else b
  }

  /** `kotlin.Result<T>`: a value, or a failure whose exception the model does not keep. */
  datatype Result<+T> = Success(value: T) | Failure
}
