/** Results of operations that can fail, and optional values (Go's nil and missing map keys). */
module Results {
  datatype Option<+T> = None | Some(value: T)

  datatype Result<+T> = Ok(value: T) | Err(reason: string)
}
