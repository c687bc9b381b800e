/** An optional value: a NaN cell, a missing label, a text int() rejects. */
module Options {
  datatype Option<T> = None | Some(value: T)
}
