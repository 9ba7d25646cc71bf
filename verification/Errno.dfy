/** The error codes the modelled system calls return, as negative numbers. */
module Errno {
  const EPERM := -1
  const ESRCH := -3
  const EAGAIN := -11
  const ENOMEM := -12
  const EACCES := -13
  const EFAULT := -14
  const EINVAL := -22
  const ENOSPC := -28
}
