/** Option and Result, used for the lookups that can miss and for the
    exceptions that escape the tokenizer. */
module Wrappers {

  datatype Option<+T> = None | Some(value: T)

  datatype Result<+R, +E> = Ok(value: R) | Err(error: E)
}
