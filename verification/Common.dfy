// Definitions shared by the models of the driver's components.
module Common {

  datatype Option<+T> = None | Some(value: T)

  // Error numbers, returned negated as in the kernel.
  const EPERM := 1
  const ENOENT := 2
  const EIO := 5
  const ENOMEM := 12
  const EFAULT := 14
  const EBUSY := 16
  const EEXIST := 17
  const EINVAL := 22
  const ENOSPC := 28
  const EOPNOTSUPP := 95

  const U32 := 0x1_0000_0000
}
