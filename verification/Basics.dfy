/**
  What several of the modules share: options, bytes, and small functions on them.
 */
module Basics {

  datatype Option<T> = None | Some(value: T)

  type Byte = b: int | 0 <= b < 256

  function Min(a: nat, b: nat): nat {
    if a <= b then a else b
  }

  function Zeros(n: nat): (s: seq<Byte>)
    ensures |s| == n && forall k | 0 <= k < n :: s[k] == 0
  {
    seq(n, _ => 0)
  }
}
