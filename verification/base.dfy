/** Small shared vocabulary: an optional value, standing for JavaScript's
    `undefined`/`null` versus a present value. */
module Base {

  datatype Option<+T> = None | Some(value: T) {

    /** The value if present, otherwise `default`. */
    function GetOr(default: T): T {
      match this
      case Some(v) => v
      case None => default
    }
  }
}
