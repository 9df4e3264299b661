/** Bytes, the FNV-1a hash and the scanning loops of `samples/bmc/src/main.rs`. */

module BmcText {
  import opened Bytes

  const SPACE: byte := 0x20
  const CR: byte := 0x0D
  const NEWLINE: byte := 0x0A

  const VALUE_PREFIX: seq<byte> := [0x56, 0x41, 0x4C, 0x55, 0x45, 0x20]  // "VALUE "
  const GET_PREFIX: seq<byte> := [0x67, 0x65, 0x74, 0x20]                // "get "
  const SET_PREFIX: seq<byte> := [0x73, 0x65, 0x74, 0x20]                // "set "
  const END_LINE: seq<byte> := [0x45, 0x4E, 0x44, 0x0D, 0x0A]            // "END\r\n"

  const BMC_MAX_PACKET_LENGTH: nat := 1500
  const BMC_CACHE_ENTRY_COUNT: nat := 3250000
  const BMC_MAX_KEY_LENGTH: nat := 230
  const BMC_MAX_CACHE_DATA_SIZE: nat := 1283
  const FNV_OFFSET_BASIS_32: nat := 2166136261
  const FNV_PRIME_32: nat := 16777619

  /** Ethernet, IPv4, UDP and memcached headers. */
  const UDP_PAYLOAD: nat := 50

  function Xor(a: byte, b: byte): byte { ((a as bv8) ^ (b as bv8)) as int }

  /** `hash_func!`: only the low byte of the hash meets the value, and the product wraps. */
  function HashFunc(hash: nat, value: byte): nat {
    ((hash / 256 * 256 + Xor(hash % 256, value)) * FNV_PRIME_32) % 0x1_0000_0000
  }

  /** The hash of `p[lo..hi]`, byte by byte. */
  function HashRange(p: seq<byte>, lo: nat, hi: nat): nat
    requires lo <= hi <= |p|
    decreases hi - lo
  {
    if lo == hi then FNV_OFFSET_BASIS_32 else HashFunc(HashRange(p, lo, hi - 1), p[hi - 1])
  }

  function Fnv(key: seq<byte>): nat { HashRange(key, 0, |key|) }

  function SlotOf(hash: nat): (s: nat)
    ensures s < BMC_CACHE_ENTRY_COUNT
  {
    hash % BMC_CACHE_ENTRY_COUNT
  }

  /** Two hashes share a slot exactly when they differ by a multiple of the table size. */
  lemma ShareSlotIff(a: nat, b: nat)
    ensures SlotOf(a) == SlotOf(b) <==> (a - b) % 3250000 == 0
  {
    var q, q' := a / 3250000, b / 3250000;
    assert a - b == 3250000 * (q - q') + (SlotOf(a) - SlotOf(b));
  }

  /** `key` stands in `p` at `at`. */
  predicate KeyAt(p: seq<byte>, at: nat, key: seq<byte>) {
    at + |key| <= |p| && forall i :: 0 <= i < |key| ==> p[at + i] == key[i]
  }

  lemma {:induction false} HashOfPrefixAt(p: seq<byte>, at: nat, key: seq<byte>, n: nat)
    requires KeyAt(p, at, key) && n <= |key|
    ensures HashRange(p, at, at + n) == HashRange(key, 0, n)
  {
    if n > 0 { HashOfPrefixAt(p, at, key, n - 1); }
  }

  lemma HashOfKeyAt(p: seq<byte>, at: nat, key: seq<byte>)
    requires KeyAt(p, at, key)
    ensures HashRange(p, at, at + |key|) == Fnv(key)
  {
    HashOfPrefixAt(p, at, key, |key|);
  }

  predicate Stops(b: byte, atCr: bool) { b == SPACE || (atCr && b == CR) }

  /** `e` is where a scan from `from` ends: at the first stop byte, or at the limit. */
  predicate ScanEnds(p: seq<byte>, from: nat, limit: nat, atCr: bool, e: nat) {
    && from <= e <= limit <= |p|
    && (forall i :: from <= i < e ==> !Stops(p[i], atCr))
    && (e < limit ==> Stops(p[e], atCr))
  }

  function ScanEnd(p: seq<byte>, from: nat, limit: nat, atCr: bool): (e: nat)
    requires from <= limit <= |p|
    ensures ScanEnds(p, from, limit, atCr, e)
    decreases limit - from
  {
    if from == limit || Stops(p[from], atCr) then from else ScanEnd(p, from + 1, limit, atCr)
  }

  lemma ScanEndUnique(p: seq<byte>, from: nat, limit: nat, atCr: bool, e: nat, e': nat)
    requires ScanEnds(p, from, limit, atCr, e) && ScanEnds(p, from, limit, atCr, e')
    ensures e == e'
  {
  }

  /** The scanning loops: the hash and the end of the bytes up to a stop byte or the limit. */
  method ScanKey(p: seq<byte>, from: nat, limit: nat, atCr: bool) returns (hash: nat, e: nat)
    requires from <= limit <= |p|
    ensures e == ScanEnd(p, from, limit, atCr)
    ensures hash == HashRange(p, from, e)
  {
    hash, e := FNV_OFFSET_BASIS_32, from;
    while e < limit && !Stops(p[e], atCr)
      invariant from <= e <= limit
      invariant forall i :: from <= i < e ==> !Stops(p[i], atCr)
      invariant hash == HashRange(p, from, e)
    {
      hash := HashFunc(hash, p[e]);
      e := e + 1;
    }
    ScanEndUnique(p, from, limit, atCr, e, ScanEnd(p, from, limit, atCr));
  }

  /** A key as memcached allows it. */
  predicate IsKey(key: seq<byte>) {
    |key| >= 1 && forall i :: 0 <= i < |key| ==> key[i] != 0x20 && key[i] != 0x0D
  }

  /** A scan over a key that is followed by a stop byte, or by the limit, ends behind it. */
  lemma ScanStopsAfterKey(p: seq<byte>, from: nat, limit: nat, atCr: bool, key: seq<byte>)
    requires IsKey(key) && KeyAt(p, from, key) && from + |key| <= limit <= |p|
    requires from + |key| < limit ==> Stops(p[from + |key|], atCr)
    ensures ScanEnd(p, from, limit, atCr) == from + |key|
    ensures HashRange(p, from, ScanEnd(p, from, limit, atCr)) == Fnv(key)
  {
    forall i | from <= i < from + |key| ensures !Stops(p[i], atCr) { assert p[from + (i - from)] == key[i - from]; }
    ScanEndUnique(p, from, limit, atCr, ScanEnd(p, from, limit, atCr), from + |key|);
    HashOfKeyAt(p, from, key);
  }
}
