/** Error numbers and the ranges of 16-bit and 32-bit fields. */
module Linux {
  const EPERM := -1
  const ENOMEM := -12
  const EFAULT := -14
  const EBUSY := -16
  const EEXIST := -17
  const EINVAL := -22
  const EBADSLT := -57

  /** An error number as the kernel's functions return it. */
  type Errno = x: int | x < 0 witness EPERM

  const U16: nat := 0x1_0000
  const U32: nat := 0x1_0000_0000
}
