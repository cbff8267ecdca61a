/** Failure-carrying datatypes used across the model. */
module Wrappers {

  /** A value that may be absent: the tokenizer's `Option<Vec<String>>`, and a
      parse that would panic. */
  datatype Option<+T> = None | Some(value: T)

  /** What `str_to_bytes` returns: the bytes, or the reason there are none. */
  datatype Result<+T, +E> = Ok(value: T) | Err(error: E)
}
