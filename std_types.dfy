/** The shapes of Rust's `Option`, `Result` and `Poll` that the rest of the model uses. */
module StdTypes {
  datatype Option<T> = None | Some(value: T)

  datatype Result<T, E> = Ok(value: T) | Err(error: E)

  /** What a future's `poll` hands back: a final value, or "not yet". */
  datatype Poll<T> = Ready(value: T) | Pending
}
