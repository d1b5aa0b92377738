/** Outcomes of operations that, in the original program, may find nothing
    or may raise an exception. */
module Results {
  datatype Option<+T> = None | Some(value: T)

  datatype Result<+T, +E> = Ok(value: T) | Err(error: E)
}
