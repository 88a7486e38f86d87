/** The optional-value wrapper used for conversions that may fail. */
module Options {

  /** `None` stands for a conversion that raised a value error. */
  datatype Option<+T> = None | Some(value: T)
}
