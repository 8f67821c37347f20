/** Present or absent: how the model writes Go's `(value, ok)` results and
    nil pointers. */
module Options {
  datatype Option<T> = None | Some(value: T)
}
