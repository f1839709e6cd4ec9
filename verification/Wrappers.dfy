/** What several components share: optional results, bytes, and runs of one value. */
module Wrappers {

  datatype Option<T> = None | Some(value: T)

  type byte = x: int | 0 <= x < 256

  function Zeros(n: nat): (z: seq<byte>)
    ensures |z| == n && forall i :: 0 <= i < n ==> z[i] == 0
  {
    if n == 0 then [] else Zeros(n - 1) + [0]
  }

  function Copies<T>(value: T, n: nat): (s: seq<T>)
    ensures |s| == n && forall i :: 0 <= i < n ==> s[i] == value
  {
    seq(n, _ => value)
  }

  /** A 16-bit word from its two bytes. */
  function Word(lo: bv8, hi: bv8): bv16 {
    (hi as bv16 << 8) | lo as bv16
  }
}
