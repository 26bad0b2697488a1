/** The platform's integers and error numbers. */
module Platform {
  const WRAP: nat := 0x1_0000_0000        // 32-bit words count modulo this
  const INT_MAX: int := 0x7FFF_FFFF

  const EIO: int := 5
  const EWOULDBLOCK: int := 11
  const EACCES: int := 13
  const ENODEV: int := 19
  const EINVAL: int := 22
  const EMFILE: int := 24
  const ENOTTY: int := 25
  const EBADFD: int := 81
  const ENOSYS: int := 88
  const ENOTSUP: int := 95
}
