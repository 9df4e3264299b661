/** `compute_ip_checksum` of `rex/src/xdp/xdp_impl.rs` against the Internet checksum of
    sections 1 and 2 of RFC 1071, for the header of section 3.1 of RFC 791. */

module Ipv4Checksum {
  import opened Bytes

  const HEADER: nat := 20
  const CHECK: nat := 10   // offset of the checksum field
  const SADDR: nat := 12
  const DADDR: nat := 16

  /** The first `n` words as a little-endian machine adds them. */
  function Sum(h: seq<byte>, n: nat): nat
    requires 2 * n <= |h|
  {
    if n == 0 then 0 else Sum(h, n - 1) + Le16(h, 2 * (n - 1))
  }

  /** The first `n` words in network order. */
  function NetworkSum(h: seq<byte>, n: nat): nat
    requires 2 * n <= |h|
  {
    if n == 0 then 0 else NetworkSum(h, n - 1) + Be16(h, 2 * (n - 1))
  }

  function Total(h: seq<byte>): nat { Sum(h, |h| / 2) }

  function NetworkTotal(h: seq<byte>): nat { NetworkSum(h, |h| / 2) }

  /** The source folds the carries once. */
  function FoldOnce(s: nat): nat { s % 0x1_0000 + s / 0x1_0000 }

  /** One's-complement addition brings every carry around. */
  function Fold(s: nat): (f: nat)
    ensures f < 0x1_0000
  {
    if s < 0x1_0000 then s else Fold(FoldOnce(s))
  }

  /** `!sum as u16`. */
  function Complement(s: nat): (c: nat)
    ensures c < 0x1_0000
  {
    0xFFFF - s % 0x1_0000
  }

  function Checksum(h: seq<byte>): (c: nat)
    requires |h| == HEADER
    ensures c < 0x1_0000
  {
    Complement(FoldOnce(Total(Put(h, CHECK, [0, 0]))))
  }

  /** What RFC 1071 computes, on the same words. */
  function RfcChecksum(h: seq<byte>): (c: nat)
    requires |h| == HEADER
    ensures c < 0x1_0000
  {
    0xFFFF - Fold(Total(Put(h, CHECK, [0, 0])))
  }

  /** A receiver accepts the header: its words, in network order, add up to all ones. */
  predicate Verifies(h: seq<byte>)
    requires |h| == HEADER
  {
    Fold(NetworkTotal(h)) == 0xFFFF
  }

  /** The single fold leaves no carry. */
  predicate FoldsOnce(h: seq<byte>)
    requires |h| == HEADER
  {
    FoldOnce(Total(Put(h, CHECK, [0, 0]))) < 0x1_0000
  }

  method ComputeIpChecksum(h: array<byte>) returns (c: nat)
    requires h.Length == HEADER
    modifies h
    ensures h[..] == Put(old(h[..]), CHECK, [0, 0])
    ensures c == Checksum(old(h[..]))
  {
    var sum: nat := 0;
    h[CHECK], h[CHECK + 1] := 0, 0;
    ghost var zeroed := Put(old(h[..]), CHECK, [0, 0]);
    assert h[..] == zeroed;
    var i := 0;
    while i < h.Length / 2
      invariant i <= h.Length / 2
      invariant sum == Sum(zeroed, i)
    {
      assert h[..] == zeroed;
      sum := sum + Le16(h[..], 2 * i);
      i := i + 1;
    }
    assert sum == Total(zeroed);
    c := Complement(FoldOnce(sum));
  }

  // ------------------------------------------------------------ arithmetic modulo 65535

  lemma {:induction false} FoldModulo(s: nat)
    ensures Fold(s) % 0xFFFF == s % 0xFFFF
    ensures Fold(s) == 0 <==> s == 0
  {
    if s >= 0x1_0000 {
      FoldModulo(FoldOnce(s));
      FoldOnceModulo(s);
    }
  }

  lemma FoldOnceModulo(s: nat)
    ensures FoldOnce(s) % 0xFFFF == s % 0xFFFF
  {
    var f, q := FoldOnce(s), s / 0x1_0000;
    assert s == f + 0xFFFF * q;
    Multiple(s, f / 0xFFFF + q, f % 0xFFFF);
  }

  lemma FoldAllOnesIff(s: nat)
    ensures Fold(s) == 0xFFFF <==> s != 0 && s % 0xFFFF == 0
  {
    FoldModulo(s);
  }

  lemma {:induction false} SumBound(h: seq<byte>, n: nat)
    requires 2 * n <= |h|
    ensures Sum(h, n) <= 0xFFFF * n
  {
    if n > 0 { SumBound(h, n - 1); }
  }

  lemma Multiple(x: nat, k: int, r: nat)
    requires x == 0xFFFF * k + r && r < 0xFFFF
    ensures x % 0xFFFF == r
  {
  }

  /** The octets at the even positions, or at the odd ones, of the first `n` words. */
  function Octets(h: seq<byte>, n: nat, odd: bool): nat
    requires 2 * n <= |h|
  {
    if n == 0 then 0
    else
      var o: int := if odd then h[2 * n - 1] else h[2 * n - 2];
      Octets(h, n - 1, odd) + o
  }

  /** Exchanging the byte order of every word multiplies the sum by 256 modulo 65535. */
  lemma {:induction false} ByteOrder(h: seq<byte>, n: nat)
    requires 2 * n <= |h|
    ensures 256 * Sum(h, n) == NetworkSum(h, n) + 0xFFFF * Octets(h, n, true)
    ensures 256 * NetworkSum(h, n) == Sum(h, n) + 0xFFFF * Octets(h, n, false)
    ensures Sum(h, n) == 0 <==> NetworkSum(h, n) == 0
  {
    if n > 0 { ByteOrder(h, n - 1); }
  }

  /** So it does not matter which order the receiver adds in. */
  lemma VerifiesInEitherOrder(h: seq<byte>)
    requires |h| == HEADER
    ensures Verifies(h) <==> Fold(Total(h)) == 0xFFFF
  {
    var s, t, n := Total(h), NetworkTotal(h), |h| / 2;
    ByteOrder(h, n);
    FoldAllOnesIff(s);
    FoldAllOnesIff(t);
    if s % 0xFFFF == 0 { Multiple(t, 256 * (s / 0xFFFF) - Octets(h, n, true), 0); }
    if t % 0xFFFF == 0 { Multiple(s, 256 * (t / 0xFFFF) - Octets(h, n, false), 0); }
  }

  // ------------------------------------------------------------ the checksum

  /** The code computes the Internet checksum exactly when its one fold leaves no carry. */
  lemma ChecksumIsRfcIff(h: seq<byte>)
    requires |h| == HEADER
    ensures Checksum(h) == RfcChecksum(h) <==> FoldsOnce(h)
  {
    var zeroed := Put(h, CHECK, [0, 0]);
    SumBound(zeroed, |zeroed| / 2);
    OneFoldIff(Total(zeroed));
  }

  lemma FoldTwice(f: nat)
    requires 0x1_0000 <= f < 0x1_FFFF
    ensures Fold(f) == f - 0xFFFF && Complement(f) == 0xFFFF - (f - 0x1_0000)
  {
    assert f / 0x1_0000 == 1 && f % 0x1_0000 == f - 0x1_0000;
  }

  lemma OneFoldIff(s: nat)
    requires s <= 0xFFFF * 10
    ensures Complement(FoldOnce(s)) == 0xFFFF - Fold(s) <==> FoldOnce(s) < 0x1_0000
  {
    var f := FoldOnce(s);
    assert Fold(s) == Fold(f);
    if f >= 0x1_0000 { FoldTwice(f); }
  }

  /** A 16-bit value with its octets exchanged. */
  function SwapOctets(x: nat): (y: nat)
    requires x < 0x1_0000
    ensures y < 0x1_0000
  {
    256 * (x % 256) + x / 256
  }

  lemma SameResidue(x: nat, y: nat, k: int)
    requires x == y + 0xFFFF * k
    ensures x % 0xFFFF == y % 0xFFFF
  {
    Multiple(x, y / 0xFFFF + k, y % 0xFFFF);
  }

  /** A folded sum is determined by its residue and by whether it is zero. */
  lemma FoldedEqual(x: nat, y: nat)
    requires x < 0x1_0000 && y < 0x1_0000 && x % 0xFFFF == y % 0xFFFF && (x == 0 <==> y == 0)
    ensures x == y
  {
  }

  /** The folded network-order sum is the folded little-endian sum with its octets exchanged. */
  lemma FoldSwapped(h: seq<byte>, n: nat)
    requires 2 * n <= |h|
    ensures Fold(NetworkSum(h, n)) == SwapOctets(Fold(Sum(h, n)))
  {
    var s, t := Sum(h, n), NetworkSum(h, n);
    var f, g := Fold(s), SwapOctets(Fold(s));
    ByteOrder(h, n);
    FoldModulo(s);
    FoldModulo(t);
    var k := s / 0xFFFF - f / 0xFFFF;
    assert s == f + 0xFFFF * k;
    assert g == 256 * f - 0xFFFF * (f / 256);
    SameResidue(t, g, f / 256 + 256 * k - Octets(h, n, true));
    FoldedEqual(Fold(t), g);
  }

  lemma StoredOctets(s: nat)
    requires s < 0x1_0000
    ensures BeBytes(0xFFFF - SwapOctets(s)) == LeBytes(0xFFFF - s)
  {
    var high, low := s / 256, s % 256;
    assert 0xFFFF - s == 256 * (255 - high) + (255 - low);
    assert 0xFFFF - SwapOctets(s) == 256 * (255 - low) + (255 - high);
  }

  /** The bytes that the code stores are those of the checksum of the network-order words exactly
      when the one fold leaves no carry. */
  lemma StoredIsNetworkIff(h: seq<byte>)
    requires |h| == HEADER
    ensures LeBytes(Checksum(h)) == BeBytes(0xFFFF - Fold(NetworkTotal(Put(h, CHECK, [0, 0])))) <==> FoldsOnce(h)
  {
    var zeroed := Put(h, CHECK, [0, 0]);
    FoldSwapped(zeroed, |zeroed| / 2);
    StoredOctets(Fold(Total(zeroed)));
    ChecksumIsRfcIff(h);
    SameOctets(Checksum(h), RfcChecksum(h));
  }

  lemma SameOctets(x: nat, y: nat)
    requires x < 0x1_0000 && y < 0x1_0000
    ensures LeBytes(x) == LeBytes(y) <==> x == y
  {
    var low: int, high: int := LeBytes(x)[0], LeBytes(x)[1];
    var low': int, high': int := LeBytes(y)[0], LeBytes(y)[1];
    assert x == 256 * high + low && y == 256 * high' + low';
  }

  lemma {:induction false} SumAgrees(h: seq<byte>, g: seq<byte>, n: nat)
    requires |h| == |g| && 2 * n <= |h| && forall i :: 0 <= i < 2 * n ==> h[i] == g[i]
    ensures Sum(h, n) == Sum(g, n)
  {
    if n > 0 { SumAgrees(h, g, n - 1); }
  }

  lemma SumTail(h: seq<byte>, n: nat)
    requires |h| == HEADER && n == 6
    ensures Sum(h, n + 4) == Sum(h, n) + Le16(h, 12) + Le16(h, 14) + Le16(h, 16) + Le16(h, 18)
  {
    assert Sum(h, n + 2) == Sum(h, n + 1) + Le16(h, 14);
  }

  /** The header with its checksum stored, as a little-endian machine stores it. */
  function Stamped(h: seq<byte>): (r: seq<byte>)
    requires |h| == HEADER
    ensures |r| == HEADER
  {
    Put(h, CHECK, LeBytes(Checksum(h)))
  }

  /** Writing a word into the header changes the sum by the difference. */
  lemma {:induction false} SumPut(h: seq<byte>, k: nat, v: nat, n: nat)
    requires 2 * n <= |h| && 2 * k + 2 <= |h| && v < 0x1_0000
    ensures Sum(Put(h, 2 * k, LeBytes(v)), n) == Sum(h, n) + (if k < n then v - Le16(h, 2 * k) else 0)
  {
    if n > 0 {
      SumPut(h, k, v, n - 1);
      var g := Put(h, 2 * k, LeBytes(v));
      assert Le16(g, 2 * (n - 1)) == if k == n - 1 then v else Le16(h, 2 * (n - 1));
    }
  }

  lemma StampArithmetic(s: nat, c: nat)
    requires s <= 0xFFFF * 10 && c == Complement(FoldOnce(s))
    ensures Fold(s + c) == 0xFFFF <==> FoldOnce(s) < 0x1_0000
  {
    FoldAllOnesIff(s + c);
    var f := FoldOnce(s);
    assert s == f + 0xFFFF * (s / 0x1_0000);
    var q := s / 0x1_0000;
    if f < 0x1_0000 {
      assert c == 0xFFFF - f;
      Multiple(s + c, q + 1, 0);
    } else {
      assert c == 0xFFFF - (f - 0x1_0000);
      Multiple(s + c, q + 2, 1);
    }
  }

  /** A header stamped by the code is accepted exactly when the one fold left no carry. */
  lemma StampedVerifiesIff(h: seq<byte>)
    requires |h| == HEADER
    ensures Verifies(Stamped(h)) <==> FoldsOnce(h)
  {
    var zeroed, c := Put(h, CHECK, [0, 0]), Checksum(h);
    assert Stamped(h) == Put(zeroed, CHECK, LeBytes(c));
    SumPut(zeroed, CHECK / 2, c, |zeroed| / 2);
    assert Le16(zeroed, CHECK) == 0;
    SumBound(zeroed, |zeroed| / 2);
    StampArithmetic(Total(zeroed), c);
    VerifiesInEitherOrder(Stamped(h));
  }

  lemma SumHead(h: seq<byte>, n: nat)
    requires |h| == HEADER && n == 2
    ensures Sum(h, n + 4) == Le16(h, 0) + Le16(h, 2) + Le16(h, 4) + Le16(h, 6) + Le16(h, 8) + Le16(h, 10)
  {
    assert Sum(h, n - 1) == Le16(h, 0);
    assert Sum(h, n + 2) == Sum(h, n + 1) + Le16(h, 6);
  }

  lemma CarrySum(h: seq<byte>, n: nat)
    requires h == [0x45, 0, 0, 0, 0xBB, 0xFF, 0, 0, 0, 0, 0, 0, 0, 0, 0, 0, 0xFF, 0xFF, 0xFF, 0xFF] && n == 6
    ensures Total(h) == 0x2_FFFE
  {
    SumTail(h, n);
    SumHead(h, n - 4);
  }

  /** Such a carry does occur, on a header for the limited broadcast address. */
  lemma CarryExample()
    ensures var h: seq<byte> := [0x45, 0, 0, 0, 0xBB, 0xFF, 0, 0, 0, 0, 0, 0, 0, 0, 0, 0, 0xFF, 0xFF, 0xFF, 0xFF];
            !FoldsOnce(h) && Checksum(h) != RfcChecksum(h) && !Verifies(Stamped(h))
  {
    var h: seq<byte> := [0x45, 0, 0, 0, 0xBB, 0xFF, 0, 0, 0, 0, 0, 0, 0, 0, 0, 0, 0xFF, 0xFF, 0xFF, 0xFF];
    assert Put(h, CHECK, [0, 0]) == h;
    CarrySum(h, 6);
    ChecksumIsRfcIff(h);
    StampedVerifiesIff(h);
  }

  /** `g` is `h` with source and destination address exchanged. */
  predicate AddressesSwapped(h: seq<byte>, g: seq<byte>) {
    |h| == |g| == 20 && g[..12] == h[..12] && g[12..16] == h[16..20] && g[16..20] == h[12..16]
  }

  lemma SwappedWords(g: seq<byte>, a: nat, h: seq<byte>, b: nat)
    requires a + 4 <= |g| && b + 4 <= |h| && g[a..a + 4] == h[b..b + 4]
    ensures Le16(g, a) == Le16(h, b) && Le16(g, a + 2) == Le16(h, b + 2)
  {
    assert g[a..a + 4][0] == g[a] && g[a..a + 4][1] == g[a + 1] && g[a..a + 4][2] == g[a + 2] && g[a..a + 4][3] == g[a + 3];
    assert h[b..b + 4][0] == h[b] && h[b..b + 4][1] == h[b + 1] && h[b..b + 4][2] == h[b + 2] && h[b..b + 4][3] == h[b + 3];
  }

  lemma SwapKeepsSum(h: seq<byte>, g: seq<byte>, n: nat)
    requires AddressesSwapped(h, g) && n == 6
    ensures Total(g) == Total(h)
  {
    forall i | 0 <= i < 12 ensures g[i] == h[i] { assert g[..12][i] == h[..12][i]; }
    SumAgrees(g, h, n);
    SumTail(g, n);
    SumTail(h, n);
    SwappedWords(g, 12, h, 16);
    SwappedWords(g, 16, h, 12);
  }

  /** Exchanging source and destination keeps a header valid, and its checksum. */
  lemma SwapKeepsChecksum(h: seq<byte>, g: seq<byte>)
    requires AddressesSwapped(h, g)
    ensures Verifies(g) <==> Verifies(h)
    ensures Checksum(g) == Checksum(h)
  {
    SwapKeepsSum(h, g, 6);
    VerifiesInEitherOrder(h);
    VerifiesInEitherOrder(g);
    var h', g' := Put(h, CHECK, [0, 0]), Put(g, CHECK, [0, 0]);
    assert h'[12..16] == h[12..16] && h'[16..20] == h[16..20] && g'[12..16] == g[12..16] && g'[16..20] == g[16..20];
    forall i | 0 <= i < 12 ensures g'[i] == h'[i] { assert g[..12][i] == h[..12][i]; }
    SwapKeepsSum(h', g', 6);
  }

  /** A header whose checksum is well known: 115 bytes of UDP from 192.168.0.1 to 192.168.0.199. */
  lemma KnownHeader(h: seq<byte>)
    requires h == [0x45, 0, 0, 0x73, 0, 0, 0x40, 0, 0x40, 0x11, 0, 0, 0xC0, 0xA8, 0, 1, 0xC0, 0xA8, 0, 0xC7]
    ensures Stamped(h) == [0x45, 0, 0, 0x73, 0, 0, 0x40, 0, 0x40, 0x11, 0xB8, 0x61, 0xC0, 0xA8, 0, 1, 0xC0, 0xA8, 0, 0xC7]
    ensures Verifies(Stamped(h))
  {
    assert Put(h, CHECK, [0, 0]) == h;
    KnownSum(h, 6);
    assert Checksum(h) == 0x61B8;
    assert Stamped(h) == Put(h, CHECK, [0xB8, 0x61]);
    StampedVerifiesIff(h);
  }

  lemma KnownSum(h: seq<byte>, n: nat)
    requires h == [0x45, 0, 0, 0x73, 0, 0, 0x40, 0, 0x40, 0x11, 0, 0, 0xC0, 0xA8, 0, 1, 0xC0, 0xA8, 0, 0xC7] && n == 6
    ensures Total(h) == 0x2_9E45
  {
    SumTail(h, n);
    SumHead(h, n - 4);
  }
}
