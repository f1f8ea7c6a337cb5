/** The error codes the library returns, as negative numbers. */
module Errno {
  const EPERM: int := -1
  const ENOENT: int := -2
  const EAGAIN: int := -11
  const EEXIST: int := -17
  const ENODEV: int := -19
  const ENOTDIR: int := -20
  const EISDIR: int := -21
  const EINVAL: int := -22
  const EFBIG: int := -27
  const ENOTEMPTY: int := -39
  const EINPROGRESS: int := -115
}
