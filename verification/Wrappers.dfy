/** The two failure types of the model: Rust's `Option`, and `Result` without
    the message an error carries. */
module Wrappers {
  datatype Option<+T> = None | Some(value: T)

  datatype Result<+T> = Ok(value: T) | Err
}
