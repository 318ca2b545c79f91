/**
  Go slice operations the handlers use on byte buffers.
 */
module Bytes {

  function Min(a: nat, b: nat): (m: nat)
  {
    if a <= b then a else b
  }

  /** A buffer of `n` zero bytes (`make([]byte, n)`). */
  function Zeros(n: nat): (z: seq<bv8>)
    ensures |z| == n
  {
    seq(n, _ => 0 as bv8)
  }

  /** Go's `copy(dst, src)`: the first min(len(dst), len(src)) bytes of
      `dst` take the bytes of `src`; the rest of `dst` keeps its bytes. */
  function Copy(dst: seq<bv8>, src: seq<bv8>): (r: seq<bv8>)
    ensures |r| == |dst|
    ensures forall i | 0 <= i < |r| :: r[i] == (if i < |src| then src[i] else dst[i])
  {
    var n := Min(|dst|, |src|);
    src[..n] + dst[n..]
  }

  /** A source no longer than the destination is copied whole, in front of
      the destination's remaining bytes. */
  lemma CopyAll(dst: seq<bv8>, src: seq<bv8>)
    requires |src| <= |dst|
    ensures Copy(dst, src) == src + dst[|src|..]
  {
    assert src[..|src|] == src;
  }
}
