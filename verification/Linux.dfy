/** Error codes and the page size of the host kernel. */
module Linux {
  const PAGE_SIZE: nat := 4096

  const ENOENT: int := -2
  const ENOMEM: int := -12
  const EACCES: int := -13
  const EFAULT: int := -14
  const EBUSY: int := -16
  const ENODEV: int := -19
  const EINVAL: int := -22
  const ENODATA: int := -61
}
