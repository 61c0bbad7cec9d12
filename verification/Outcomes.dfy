/** How the kernel's operations report success, failure and absence. */
module Outcomes {

  datatype Option<+T> = None | Some(value: T)

  /** The error codes the modelled operations return; OK is 0. */
  datatype Errno =
    | OK
    | EACCES
    | EBADF
    | EBUSY
    | EEXIST
    | EFBIG
    | EINVAL
    | EIO
    | EISDIR
    | ENAMETOOLONG
    | ENOENT
    | ENOLCK
    | ENOMEM
    | ENOSPC
    | ENOTDIR
    | ENOTEMPTY
    | EPERM
    | EWOULDBLOCK
}
