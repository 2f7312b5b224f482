/** 64-bit machine integers over Dafny's unbounded ones: every wrapping step of the source is written out. */
module MachineInt {
  const TWO63: int := 0x8000_0000_0000_0000
  const TWO64: int := 0x1_0000_0000_0000_0000

  /** `unsigned long`, `size_t`, `uint64_t` */
  type U64 = x: int | 0 <= x < TWO64

  /** `loff_t`, `ssize_t` */
  type S64 = x: int | -TWO63 <= x < TWO63

  /** A file size or size limit: a non-negative `loff_t`. */
  type Size = x: int | 0 <= x < TWO63

  /** Conversion to an unsigned 64-bit type, and the result of unsigned 64-bit arithmetic. */
  function ToU64(x: int): U64 {
    x % TWO64
  }

  /** Conversion to a signed 64-bit type; the kernel is built with -fno-strict-overflow, so signed sums wrap too. */
  function ToS64(x: int): S64 {
    var u := x % TWO64;
    if u < TWO63 then u else u - TWO64
  }

  function Min(a: int, b: int): int {
    if a <= b then a else b
  }
}
