/** Bytes, and the operations on runs of them that several components share. */
module Bytes {

  type Byte = x: int | 0 <= x < 256

  function Zeros(n: nat): seq<Byte> {
    seq(n, _ => 0)
  }

  /** Cut `s` to `m` bytes or pad it with zeros. */
  function Fit(s: seq<Byte>, m: nat): seq<Byte> {
    if m <= |s| then s[..m] else s + Zeros(m - |s|)
  }

  /** Up to `count` bytes of `s` from `off` on. */
  function Slice(s: seq<Byte>, off: nat, count: nat): seq<Byte> {
    if off >= |s| then [] else if off + count <= |s| then s[off..off + count] else s[off..]
  }
}
