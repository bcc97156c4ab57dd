/** The optional-value type used for "not found" and "no path" results. */
module Options {

  /** Either no value, or exactly one value. */
  datatype Option<+T> = None | Some(value: T)

}
