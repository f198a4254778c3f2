/** A value that may be missing: the model's stand-in for pandas' NaN and
    Python's None. */
module Options {

  datatype Option<T> = None | Some(value: T)
}
