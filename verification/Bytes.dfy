/** Octets. */
module Bytes {
  import opened Sequences

  type byte = b: nat | b < 256

  function Zeros(n: nat): (z: seq<byte>)
    ensures |z| == n && forall i :: 0 <= i < n ==> z[i] == 0
  {
    Repeat(n, 0)
  }

  /** The sum of a block's bytes. */
  function ByteSum(b: seq<byte>): (n: nat)
    ensures n <= 255 * |b|
  {
    SumAtMost(b, 255);
    Sum(b)
  }
}
