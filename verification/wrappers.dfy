/** Optional values, standing in for the adapter's nullable references and its
    `Ref<T>` out-parameters (a `Ref` "has a value" when it holds a non-null one). */
module Wrappers {

  datatype Option<+T> = None | Some(value: T) {

    /** The held value, or `default` when there is none. */
    function GetOr(default: T): T {
      match this
      case Some(v) => v
      case None => default
    }
  }
}
