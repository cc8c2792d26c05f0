/** The vnode operations the descriptor calls delegate to (VOP_READ, VOP_WRITE,
    VOP_STAT). Their internals are outside this model; each call site takes what
    the operation reported as a parameter. */
module Vop {
  import opened Errors

  /** What VOP_READ or VOP_WRITE reported: an error, or success with `resid`
      bytes of the request left untransferred in the uio. */
  datatype IoResult = IoError(errno: Errno) | IoDone(resid: nat)

  /** What VOP_STAT reported: an error, or success with the file's size. */
  datatype StatResult = StatError(errno: Errno) | StatOk(size: int)
}
