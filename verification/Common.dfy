/** Datatypes shared by the models. */
module Common {

  /** A value that may be missing: null, undefined, nil, None. */
  datatype Option<+T> = None | Some(value: T)

  /** A value, or the reason there is none: a thrown Error, a Go error, an Err. */
  datatype Result<+T, +E> = Ok(value: T) | Err(error: E)
}
