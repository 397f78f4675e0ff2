/** Outcomes of kernel calls: a value, or one of the negative error codes of error.h. */
module Results {
  datatype Result<+T> = Ok(value: T) | Err(code: int)

  datatype Option<+T> = None | Some(value: T)

  const EINVAL := -1
  const EBUSY := -2
  const ENOTSUP := -3
  const EIO := -5
  const EBADFMT := -6
  const ENOENT := -7
  const EBADFD := -9
  const EMFILE := -10
  const EMTHR := -12
  const ENOMEM := -14
  const EPIPE := -15
}
