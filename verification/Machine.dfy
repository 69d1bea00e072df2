/** Machine integers, error numbers and small types shared by the kernel models.

    C arithmetic of the 64-bit build is written out on unbounded integers:
    `U64` and `I64` are the conversions that the C conversions and the
    wrapping additions perform. */
module Machine {

  const TWO63: int := 0x8000_0000_0000_0000
  const TWO64: int := 0x1_0000_0000_0000_0000

  type i64 = x: int | -TWO63 <= x < TWO63
  type u64 = x: int | 0 <= x < TWO64

  /** Conversion to a 64-bit unsigned word of a value that is at most one word size away, such as
      the sum or difference of two words. */
  function U64(x: int): (r: u64)
    requires -TWO64 <= x < 2 * TWO64
  {
    if x < 0 then x + TWO64 else if x < TWO64 then x else x - TWO64
  }

  /** Conversion of such a value to a 64-bit two's complement word. */
  function I64(x: int): (r: i64)
    requires -TWO64 - TWO63 <= x < TWO64 + TWO63
  {
    if x < -TWO63 then x + TWO64 else if x < TWO63 then x else x - TWO64
  }

  /** The low 64 bits of a value of any size. */
  function Low64(x: nat): (r: u64) {
    if x < TWO64 then x else x % TWO64
  }

  datatype Option<T> = None | Some(value: T)

  /** A resource limit that is switched off. */
  const RLIM_INFINITY: u64 := 0xffff_ffff_ffff_ffff

  type Byte = b: int | 0 <= b < 256

  function Min(a: int, b: int): int {
    if a <= b then a else b
  }

  function Max(a: int, b: int): int {
    if a <= b then b else a
  }

  const EPERM: int := 1
  const ESRCH: int := 3
  const ENXIO: int := 6
  const EBADF: int := 9
  const EAGAIN: int := 11
  const ENOMEM: int := 12
  const EACCES: int := 13
  const EFAULT: int := 14
  const EXDEV: int := 18
  const EISDIR: int := 21
  const EINVAL: int := 22
  const ETXTBSY: int := 26
  const EFBIG: int := 27
  const ESPIPE: int := 29
  const EOVERFLOW: int := 75
  const EOPNOTSUPP: int := 95
}
