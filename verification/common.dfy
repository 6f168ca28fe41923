/** Small shared datatypes: an optional value and a value-or-error result. */
module Common {

  datatype Option<+T> = None | Some(value: T) {
    function GetOr(default: T): T {
      match this
      case Some(v) => v
      case None => default
    }
  }

  datatype Result<+R, +E> = Success(value: R) | Failure(error: E)

  /** `min(a, b)` on naturals, used for the clamping `slice` of typed arrays. */
  function Min(a: nat, b: nat): nat {
    if a <= b then a else b
  }
}
