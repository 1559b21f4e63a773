/** Small vocabulary shared by every module of the model. */
module Prelude {

  /** A value the source may answer with `null` or refuse by throwing. */
  datatype Option<+T> = None | Some(value: T) {
    function GetOr(default: T): T {
      match this
      case Some(v) => v
      case None => default
    }
  }
}
