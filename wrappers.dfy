/** Wrappers: `Option` stands for a JavaScript value that may be
    `undefined`/`null`, `Result` for a call that may throw. */
module Wrappers {

  datatype Option<+T> = None | Some(value: T)

  datatype Result<+T, +E> = Ok(value: T) | Err(error: E)
}
