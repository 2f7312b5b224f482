/** Error numbers of the Linux ABI. System calls return their negation. */
module Errno {
  const EPERM := 1
  const ESRCH := 3
  const ENXIO := 6
  const EAGAIN := 11
  const ENOMEM := 12
  const EACCES := 13
  const EFAULT := 14
  const EXDEV := 18
  const ENODEV := 19
  const EISDIR := 21
  const EINVAL := 22
  const ETXTBSY := 26
  const EFBIG := 27
  const ENOSPC := 28
  const EBADF := 9
  const EOVERFLOW := 75
  const EOPNOTSUPP := 95
}
