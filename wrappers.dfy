/** The two failure-as-data types the map's interface uses: an optional value
    (Rust's `Option`) and a success-or-error value (Rust's `Result`). */
module Wrappers {

  datatype Option<+T> = None | Some(value: T)

  datatype Result<+R, +E> = Ok(value: R) | Err(error: E)
}
