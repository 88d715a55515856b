/** Sizes and small arithmetic that several parts of the system share. */
module Numbers {

  const BLOCK_SIZE := 1024

  /** Zones named in an inode itself. */
  const NDIRECT := 7

  /** The device number of what belongs to no device. */
  const NO_DEV := -1

  /** Processes in the process table. */
  const NPROC := 8

  /** Where `unsigned int` wraps. */
  const UINT_MODULUS := 0x1_0000_0000

  /** A byte as a number, and as bits. */
  type Byte = x: int | 0 <= x < 256
  type Octet = bv8

  function Min(a: int, b: int): (m: int)
    ensures m <= a && m <= b && (m == a || m == b)
  {
    if a < b then a else b
  }

  /** The next index of a cycle of `n`. */
  function Succ(i: nat, n: nat): nat { if i + 1 < n then i + 1 else 0 }
}
