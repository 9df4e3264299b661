/** Octets, and the two byte orders of a 16-bit field. */
module Bytes {

  type byte = x: int | 0 <= x < 256

  /** A network-order field at `at`. */
  function Be16(f: seq<byte>, at: nat): (v: nat)
    requires at + 2 <= |f|
    ensures v < 0x1_0000
  {
    var high: int, low: int := f[at], f[at + 1];
    256 * high + low
  }

  /** A field as a little-endian machine reads it. */
  function Le16(f: seq<byte>, at: nat): (v: nat)
    requires at + 2 <= |f|
    ensures v < 0x1_0000
  {
    var low: int, high: int := f[at], f[at + 1];
    low + 256 * high
  }

  /** The octets of a 16-bit value, most significant first. */
  function BeBytes(v: nat): seq<byte>
    requires v < 0x1_0000
  {
    [v / 256, v % 256]
  }

  function LeBytes(v: nat): seq<byte>
    requires v < 0x1_0000
  {
    [v % 256, v / 256]
  }

  /** `f` with `s` written over it at `at`. */
  function Put(f: seq<byte>, at: nat, s: seq<byte>): (r: seq<byte>)
    requires at + |s| <= |f|
    ensures |r| == |f|
    ensures forall i :: 0 <= i < |f| ==> r[i] == if at <= i < at + |s| then s[i - at] else f[i]
  {
    seq(|f|, i requires 0 <= i < |f| => if at <= i < at + |s| then s[i - at] else f[i])
  }
}
