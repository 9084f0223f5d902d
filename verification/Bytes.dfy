/** Octets, 16-bit words in both byte orders, and windows of byte strings. */
module Bytes {

  type byte = x: int | 0 <= x < 0x100

  type u16 = x: int | 0 <= x < 0x1_0000

  /** The 16-bit word a little-endian machine loads from index `i`. */
  function Le16(b: seq<byte>, i: nat): (w: u16)
    requires i + 2 <= |b|
  {
    (b[i] as int) + 0x100 * (b[i + 1] as int)
  }

  /** The 16-bit word in network byte order at index `i` (the source's `ntohs` of a load). */
  function Be16(b: seq<byte>, i: nat): (w: u16)
    requires i + 2 <= |b|
  {
    0x100 * (b[i] as int) + (b[i + 1] as int)
  }

  function LeBytes(w: u16): (b: seq<byte>)
    ensures |b| == 2
  {
    [w % 0x100, w / 0x100]
  }

  function BeBytes(w: u16): (b: seq<byte>)
    ensures |b| == 2
  {
    [w / 0x100, w % 0x100]
  }

  /** `b` with the bytes from index `i` on replaced by `s`. */
  function Splice(b: seq<byte>, i: nat, s: seq<byte>): (r: seq<byte>)
    requires i + |s| <= |b|
    ensures |r| == |b|
    ensures forall k {:trigger r[k]} :: 0 <= k < |b| ==> r[k] == if i <= k < i + |s| then s[k - i] else b[k]
  {
    b[..i] + s + b[i + |s|..]
  }
}
