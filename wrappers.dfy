/** The `Option` type of the Rust source, used wherever a lookup or a parse may fail. */
module Wrappers {
  datatype Option<T> = None | Some(value: T)
  {
    function UnwrapOr(default: T): T
    {
      match this
      case None => default
      case Some(v) => v
    }
  }
}
