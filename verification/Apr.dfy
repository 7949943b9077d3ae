/** Status codes and optional values shared by the models of the daemon's files. */
module Apr {
  const APR_SUCCESS: int := 0
  const APR_ENOENT: int := 2
  const APR_EINVAL: int := 22
  const APR_INCOMPLETE: int := 70008
  const APR_EOF: int := 70014

  datatype Option<T> = None | Some(value: T)
}
