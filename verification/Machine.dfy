/** Machine integers of the Nios II: bytes and 32-bit words, kept as bounded mathematical integers. */
module Machine {
  type Byte = b: int | 0 <= b < 0x100
  type Half = h: int | 0 <= h < 0x1_0000
  type Word = w: int | 0 <= w < 0x1_0000_0000

  /** Number of values of a 32-bit word. */
  const WORD := 0x1_0000_0000

  datatype Option<+T> = None | Some(value: T)

  /** Negated error codes are returned to callers; these are newlib's numbers. */
  const EIO := 5
  const EWOULDBLOCK := 11
  const EACCES := 13
  const ENODEV := 19
  const EINVAL := 22
  const EMFILE := 24
  const ENOTTY := 25
  const EBADFD := 81
  const ENOSYS := 88
  const ENOTSUP := 134
}
