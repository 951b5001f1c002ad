/** Bytes, little helpers on byte rows, and the C operations on `uint8_t` that the other modules use. */
module Bytes {

  type byte = x: int | 0 <= x < 256

  /** Sum and difference converted to `uint8_t`. */
  function Plus(x: int, y: int): byte {
    (x + y) % 256
  }

  function Minus(x: int, y: int): byte {
    (x - y) % 256
  }

  /** The number with the given high and low byte. */
  function U16(high: int, low: int): int {
    high * 256 + low
  }

  function Zeros(n: nat): (s: seq<byte>)
    ensures |s| == n && forall i :: 0 <= i < n ==> s[i] == 0
  {
    seq(n, i => 0)
  }

  lemma Regroup<T>(a: seq<T>, b: seq<T>, c: seq<T>)
    ensures a + (b + c) == a + b + c
  {
  }
}
