/** A value that may be absent: a .NET null reference or an empty Nullable<T>. */
module Wrappers {

  datatype Option<+T> = None | Some(value: T)
}
