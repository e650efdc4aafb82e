/** Unsigned machine integers as the wire formats use them. */
module Bytes {

  /** An octet, as held by a Python `bytes`/`bytearray` element. */
  type byte = b: int | 0 <= b < 0x100

  /** An unsigned 16-bit value (struct code `H`). */
  type u16 = n: int | 0 <= n < 0x1_0000

  /** A buffer of `n` zero bytes, as `bytearray(n)` creates it. */
  function Zeros(n: nat): (r: seq<byte>)
    ensures |r| == n
    ensures forall i :: 0 <= i < n ==> r[i] == 0
  {
    seq(n, _ => 0)
  }
}
