/** The error codes of the C functions, and the result of a call that may fail. */
module Status {

  datatype Errno = EINVAL | ENOMEM | ENFILE | ENOENT | ESPIPE | EALREADY | EFBIG | EIO

  datatype Result<+T> = Ok(value: T) | Err(error: Errno)

  datatype Option<+T> = None | Some(value: T)

  /** The return code of a function without an out-parameter: 0 or a negated error. */
  type Code = Option<Errno>

  const SUCCESS: Code := None
}
