/** Outcomes of operations for which dz4.py raises an exception. */
module Results {

  datatype Result<T, E> = Ok(value: T) | Err(error: E)

  datatype Option<T> = None | Some(value: T)
}
