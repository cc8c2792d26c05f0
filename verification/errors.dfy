/** Error numbers and the success/failure shape of a system call's answer.

    A system call in this kernel returns 0 on success (with its result in
    `*retval`) or a nonzero error number. `Result` keeps exactly that split:
    `Ok(v)` is "returned 0 with *retval = v", `Err(e)` is "returned e". */
module Errors {

  /** A nonzero error code: every `if (result)` test reads 0 as success. */
  type ErrCode = c: int | c != 0 witness 1

  /** The error numbers the descriptor calls produce themselves, plus any other
      number a storage layer may hand back (passed through untouched). */
  datatype Errno =
    | EBADF        // bad file descriptor
    | ENODEV       // no such device
    | ESPIPE       // illegal seek
    | EINVAL       // invalid argument
    | EUNIMP       // not implemented
    | Other(code: ErrCode)

  datatype Result<+T> = Ok(value: T) | Err(errno: Errno)
}
