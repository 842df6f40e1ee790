/** The error numbers the modelled calls return, negated as the source returns them. */
module Errno {
  const ENXIO := -6
  const EAGAIN := -11
  const ENOMEM := -12
  const EACCES := -13
  const EFAULT := -14
  const EINVAL := -22
}
