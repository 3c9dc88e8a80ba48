/** Failure-carrying results: a read that fails, a boot sector that is too short. */
module Results {

  datatype Option<+T> = None | Some(value: T)

  datatype Result<+T, +E> = Ok(value: T) | Err(error: E)
}
