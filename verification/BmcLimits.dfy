/** Where the promises of the BMC cache end: incomplete responses, colliding slots, long keys. */

module BmcLimits {
  import opened Bytes
  import opened BmcText
  import opened BmcCache
  import opened BmcCoherence
  import opened Options

  // ------------------------------------------------------------ incomplete responses

  /** The entry is what its hash says: the cached part of a complete response. */
  ghost predicate Consistent(e: CacheEntry)
    requires IsEntry(e)
  {
    e.valid ==> exists r :: Backs(e, r)
  }

  predicate Backs(e: CacheEntry, r: Response)
    requires IsEntry(e)
  {
    IsResponse(r) && Complete(r) && ResponseHash(r) == e.hash && Cached(r) == Stored(e)
  }

  lemma {:induction false} NewlinesOfPrefix(p: seq<byte>, n: nat, m: nat)
    requires m <= n <= |p|
    ensures Newlines(p[..n], m) == Newlines(p, m)
  {
    if m > 0 { NewlinesOfPrefix(p, n, m - 1); }
  }

  /** Responses with the same cached part are both complete or both not. */
  lemma CompleteByCached(q: Response, r: Response)
    requires Cached(q) == Cached(r)
    ensures Complete(q) <==> Complete(r)
  {
    NewlinesOfPrefix(q.payload, CopyEnd(q, 0), CopyEnd(q, 0));
    NewlinesOfPrefix(r.payload, CopyEnd(r, 0), CopyEnd(r, 0));
  }

  /** A response that is copied leaves the entry consistent exactly when it is complete or
      the entry was not valid: an incomplete one overwrites the bytes of a valid entry, and
      the entry goes on claiming the old key. */
  lemma FillConsistentIff(e: CacheEntry, r: Response)
    requires IsEntry(e) && IsResponse(r)
    ensures IsEntry(FilledEntry(e, r))
    ensures Consistent(FilledEntry(e, r)) <==> Complete(r) || !e.valid
  {
    FilledHash(e, r);
    var e' := FilledEntry(e, r);
    if Complete(r) {
      assert Backs(e', r);
    } else if e.valid && Consistent(e') {
      var q :| Backs(e', q);
      CompleteByCached(q, r);
    }
  }

  ghost predicate AllConsistent(t: seq<CacheEntry>)
    requires IsTable(t)
  {
    forall s :: 0 <= s < |t| ==> Consistent(t[s])
  }

  lemma ConsistentEntry(h: seq<Event>, ts: seq<seq<CacheEntry>>, n: nat, s: nat)
    requires IsRun(h, ts) && n < |h| && s < BMC_CACHE_ENTRY_COUNT && Consistent(ts[n][s]) && !SpoilsAt(h, ts, n)
    ensures Consistent(ts[n + 1][s])
  {
    EntryChange(h, ts, n, s);
    if CopiesTo(ts[n], h[n], s) {
      FillConsistentIff(ts[n][s], h[n].r);
    } else if !Clears(h[n], s) {
      assert ts[n + 1][s] == ts[n][s];
    }
  }

  lemma SpoiledEntry(h: seq<Event>, ts: seq<seq<CacheEntry>>, n: nat)
    requires IsRun(h, ts) && n < |h| && SpoilsAt(h, ts, n)
    ensures !ConsistentAt(h, ts, n + 1)
  {
    var s := ResponseSlot(h[n].r);
    EntryChange(h, ts, n, s);
    FillConsistentIff(ts[n][s], h[n].r);
    assert !Consistent(ts[n + 1][s]);
  }

  /** Packet `n` is an incomplete response that is copied over a valid entry. */
  ghost predicate SpoilsAt(h: seq<Event>, ts: seq<seq<CacheEntry>>, n: nat)
    requires IsRun(h, ts) && n < |h|
  {
    h[n].Fill? && Spoils(ts[n], h[n].r)
  }

  ghost predicate ConsistentAt(h: seq<Event>, ts: seq<seq<CacheEntry>>, n: nat)
    requires IsRun(h, ts) && n <= |h|
  {
    AllConsistent(ts[n])
  }

  lemma ConsistentStep(h: seq<Event>, ts: seq<seq<CacheEntry>>, n: nat)
    requires IsRun(h, ts) && n < |h| && ConsistentAt(h, ts, n) && !SpoilsAt(h, ts, n)
    ensures ConsistentAt(h, ts, n + 1)
  {
    var t := ts[n + 1];
    forall s | 0 <= s < |t| ensures Consistent(t[s]) { ConsistentEntry(h, ts, n, s); }
  }

  lemma ConsistentStart(h: seq<Event>, ts: seq<seq<CacheEntry>>)
    requires IsRun(h, ts)
    ensures ConsistentAt(h, ts, 0)
  {
  }

  lemma {:induction false} NeverSpoiled(h: seq<Event>, ts: seq<seq<CacheEntry>>, n: nat)
    requires IsRun(h, ts) && n <= |h| && forall i: nat :: i < n ==> !SpoilsAt(h, ts, i)
    ensures ConsistentAt(h, ts, n)
  {
    if n == 0 {
      ConsistentStart(h, ts);
    } else {
      NeverSpoiled(h, ts, n - 1);
      ConsistentStep(h, ts, n - 1);
    }
  }

  /** Over whole runs, of whatever packets: every table up to the `n`-th is consistent exactly
      when none of the packets was an incomplete response copied over a valid entry. */
  lemma AlwaysConsistentIff(h: seq<Event>, ts: seq<seq<CacheEntry>>, n: nat)
    requires IsRun(h, ts) && n <= |h|
    ensures (forall m: nat :: m <= n ==> ConsistentAt(h, ts, m)) <==> (forall i: nat :: i < n ==> !SpoilsAt(h, ts, i))
  {
    if i: nat :| i < n && SpoilsAt(h, ts, i) {
      SpoiledEntry(h, ts, i);
    } else {
      forall m: nat | m <= n ensures ConsistentAt(h, ts, m) { NeverSpoiled(h, ts, m); }
    }
  }

  /** A response whose key differs from the text of a valid entry of the same hash, within the
      bytes that are compared, is copied. So an entry spoiled by an incomplete response is whole
      again after the next complete one for its hash that is at least 50 bytes longer than where
      they part. */
  lemma DifferentKeyRepairs(t: seq<CacheEntry>, r: Response, off: nat)
    requires IsTable(t) && IsResponse(r) && !ScanPanics(r) && Complete(r)
    requires DiffersAt(t[ResponseSlot(r)].data, r.payload, 6, off)
    ensures Copies(t, r) && IsTable(FillStep(t, r))
    ensures var e := FillStep(t, r)[ResponseSlot(r)];
            e.valid && e.hash == ResponseHash(r) && Stored(e) == Cached(r) && Consistent(e)
  {
    var e := t[ResponseSlot(r)];
    DiffersIff(e.data, r.payload, 6);
    StepsKeepTable(t, r, []);
    FilledHash(e, r);
    FillConsistentIff(e, r);
  }

  /** Two keys that do not share a slot do not disturb each other. */
  lemma OtherSlotKept(t: seq<CacheEntry>, r: Response, key: seq<byte>)
    requires IsTable(t) && IsResponse(r) && SlotOf(Fnv(key)) != SlotOf(ResponseHash(r))
    ensures IsTable(FillStep(t, r)) && Lookup(FillStep(t, r), key) == Lookup(t, key)
  {
    StepsKeepTable(t, r, []);
    assert FillStep(t, r)[SlotOf(Fnv(key))] == t[SlotOf(Fnv(key))];
  }

  /** In particular: where key `a` is cached and a response for a longer key `b` of the same slot
      comes without its second newline, a GET of `a` is answered with the bytes of the other
      response. */
  lemma TruncatedResponseMisleads(t: seq<CacheEntry>, a: seq<byte>, b: seq<byte>, r: Response)
    requires IsTable(t) && IsKey(a) && IsKey(b) && |a| < |b| <= MAX_CACHED_KEY && a == b[..|a|]
    requires SlotOf(Fnv(a)) == SlotOf(Fnv(b)) && Fnv(a) != Fnv(b)
    requires Probe(t, a) && ResponseFor(r, b) && !Complete(r) && 6 + |b| <= CopyEnd(r, 0)
    ensures IsTable(FillStep(t, r)) && Lookup(FillStep(t, r), a) == Some(Cached(r) + END_LINE)
  {
    StepsKeepTable(t, r, []);
    ResponseAgrees(r, b);
    var e := t[SlotOf(Fnv(a))];
    FilledHash(e, r);
    MisleadingEntry(e, a, b, r);
  }

  lemma MisleadingEntry(e: CacheEntry, a: seq<byte>, b: seq<byte>, r: Response)
    requires IsEntry(e) && |a| < |b| && a == b[..|a|] && ResponseFor(r, b) && 6 + |b| <= CopyEnd(r, 0)
    ensures KeyAt(FilledEntry(e, r).data, 6, a)
  {
    var data := FilledEntry(e, r).data;
    forall i | 0 <= i < |a| ensures data[6 + i] == a[i] { assert r.payload[6 + i] == b[i]; }
  }

  // ------------------------------------------------------------ an input that shows it

  lemma Wraps(x: nat, q: nat, r: nat)
    requires x == q * 0x1_0000_0000 + r && r < 0x1_0000_0000
    ensures x % 0x1_0000_0000 == r
  {
  }

  lemma HashValue(hash: nat, value: byte, mixed: byte, q: nat, result: nat)
    requires Xor(hash % 256, value) == mixed && result < 0x1_0000_0000
    requires (hash / 256 * 256 + mixed) * FNV_PRIME_32 == q * 0x1_0000_0000 + result
    ensures HashFunc(hash, value) == result
  {
    var product := (hash / 256 * 256 + Xor(hash % 256, value)) * FNV_PRIME_32;
    Wraps(product, q, result);
    assert HashFunc(hash, value) == product % 0x1_0000_0000;
  }

  const KEY_B: seq<byte> := [0x62]                       // "b"
  const KEY_BIOF: seq<byte> := [0x62, 0x49, 0x6F, 0x66]  // "bIof"

  /** "b" and "bIof" share a slot and not a hash. */
  lemma CollidingKeys()
    ensures IsKey(KEY_B) && IsKey(KEY_BIOF) && KEY_B == KEY_BIOF[..|KEY_B|]
    ensures SlotOf(Fnv(KEY_B)) == SlotOf(Fnv(KEY_BIOF)) && Fnv(KEY_B) != Fnv(KEY_BIOF)
    ensures Fnv([0x62]) == 0xE70C_2DE5 && Fnv([0x62, 0x49, 0x6F, 0x66]) == 0x54CA_ECF5
  {
    HashValue(2166136261, 98, 167, 8461672, 3876335077);
    HashValue(3876335077, 73, 172, 15142297, 1680598468);
    HashValue(1680598468, 111, 171, 6564995, 1545243697);
    HashValue(1545243697, 102, 87, 6036253, 1422585077);
    var b := KEY_BIOF;
    assert HashRange(b, 0, 1) == 3876335077;
    assert HashRange(b, 0, 2) == 1680598468;
    assert HashRange(b, 0, 3) == 1545243697;
    assert HashRange(b, 0, 4) == 1422585077;
    assert b[..1] == KEY_B;
    HashOfPrefixAt(b, 0, b[..1], 1);
  }

  /** A published test vector of FNV-1a: the hash of "foobar". */
  lemma KnownHash(k: seq<byte>)
    requires k == [0x66, 0x6F, 0x6F, 0x62, 0x61, 0x72]
    ensures Fnv(k) == 0xBF9C_F968
  {
    HashValue(2166136261, 102, 163, 8461672, 3809224601);
    HashValue(3809224601, 111, 246, 14880141, 1646454850);
    HashValue(1646454850, 111, 45, 6431618, 2851307223);
    HashValue(2851307223, 98, 181, 11138186, 1062237935);
    HashValue(1062237935, 97, 142, 4149466, 967483786);
    HashValue(967483786, 114, 248, 3779324, 3214735720);
    assert HashRange(k, 0, 1) == 3809224601;
    assert HashRange(k, 0, 2) == 1646454850;
    assert HashRange(k, 0, 3) == 2851307223;
    assert HashRange(k, 0, 4) == 1062237935;
    assert HashRange(k, 0, 5) == 967483786;
    assert HashRange(k, 0, 6) == 3214735720;
  }

  const HEADER_B: seq<byte> := VALUE_PREFIX + KEY_B + [0x20, 0x30, 0x20, 0x31, 0x0D]  // "VALUE b 0 1\r"
  const VALUE_B: seq<byte> := [0x78, 0x0D]                                          // "x\r"

  /** "VALUE bIof 0 9\r\ny", cut after the first byte of the value. */
  const CUT: seq<byte> := VALUE_PREFIX + KEY_BIOF + [0x20, 0x30, 0x20, 0x39, 0x0D, 0x0A, 0x79]

  function Packet(payload: seq<byte>): Response { Response(payload, UDP_PAYLOAD + |payload|) }

  lemma FirstPacket()
    ensures var r := Packet(ServerReply(HEADER_B, VALUE_B)); Complete(r) && ResponseFor(r, KEY_B) && NewlineFree(KEY_B)
  {
    var r := Packet(ServerReply(HEADER_B, VALUE_B));
    assert r.payload[..6] == VALUE_PREFIX;
    HitIsWholeReply(r, HEADER_B, VALUE_B);
  }

  lemma SecondPacket()
    ensures var r := Packet(CUT); !Complete(r) && ResponseFor(r, KEY_BIOF) && Cached(r) == CUT
  {
    var r := Packet(CUT);
    assert r.payload[..6] == VALUE_PREFIX;
    NoNewlinesBetween(CUT, 0, 15);
    NoNewlinesBetween(CUT, 16, 17);
    forall m | 0 <= m < 17 ensures Newlines(CUT, m) < 2 { NewlinesGrow(CUT, m, 17); }
    CopyEndUnique(r, CopyEnd(r, 0), 17);
    assert CUT[..17] == CUT;
  }

  /** From any table without valid entries: the server's reply for "b", then the first packet of
      its reply for "bIof", and a GET of "b" is answered with the latter. */
  lemma TruncatedRun(t: seq<CacheEntry>)
    requires IsTable(t) && NoneValid(t)
    ensures var first, second := Packet(ServerReply(HEADER_B, VALUE_B)), Packet(CUT);
            && IsResponse(first) && IsResponse(second)
            && IsTable(FillStep(t, first)) && IsTable(FillStep(FillStep(t, first), second))
            && Lookup(FillStep(FillStep(t, first), second), KEY_B) == Some(CUT + END_LINE)
  {
    var first, second := Packet(ServerReply(HEADER_B, VALUE_B)), Packet(CUT);
    FirstPacket();
    SecondPacket();
    CollidingKeys();
    FilledKeyIsServed(t, first, KEY_B);
    TruncatedResponseMisleads(FillStep(t, first), KEY_B, KEY_BIOF, second);
  }

  /** From any table without valid entries: after the server's reply for "b", any further complete
      response for "b" changes nothing, whatever its value, and a GET returns the first. */
  lemma NewerIgnored(t: seq<CacheEntry>, newer: Response)
    requires IsTable(t) && NoneValid(t) && ResponseFor(newer, KEY_B) && Complete(newer)
    ensures var first := Packet(ServerReply(HEADER_B, VALUE_B));
            && IsResponse(first) && IsTable(FillStep(t, first))
            && FillStep(FillStep(t, first), newer) == FillStep(t, first)
            && Lookup(FillStep(t, first), KEY_B) == Some(first.payload)
  {
    var first := Packet(ServerReply(HEADER_B, VALUE_B));
    FirstPacket();
    CollidingKeys();
    FilledKeyIsServed(t, first, KEY_B);
    HitIsWholeReply(first, HEADER_B, VALUE_B);
    ResponseAgrees(first, KEY_B);
    FilledHash(t[SlotOf(Fnv(KEY_B))], first);
    SecondIgnored(FillStep(t, first), first, newer, KEY_B);
  }

  /** A response for the key that an entry already serves is ignored. */
  lemma SecondIgnored(t: seq<CacheEntry>, first: Response, newer: Response, key: seq<byte>)
    requires IsTable(t) && IsKey(key) && NewlineFree(key) && |key| <= 224 && ResponseFor(first, key) && ResponseFor(newer, key)
    requires var e := t[SlotOf(Fnv(key))];
             e.valid && e.hash == Fnv(key) && Stored(e) == Cached(first) && Complete(first)
    ensures FillStep(t, newer) == t
  {
    ResponseAgrees(newer, key);
    var e := t[SlotOf(Fnv(key))];
    StoredKey(e, first, key);
    SameKeySame(e.data, newer.payload, key, 6);
  }

  // ------------------------------------------------------------ long keys

  /** The fill loop reads a whole key exactly when it has at most 224 bytes, and otherwise hashes
      its first 224. */
  lemma KeyReadWholeIff(r: Response, key: seq<byte>)
    requires IsKey(key) && ResponseFor(r, key)
    ensures !ScanPanics(r)
    ensures ResponseKeyEnd(r) == 6 + |key| <==> |key| <= 224
    ensures ResponseHash(r) == Fnv(key[..if |key| <= 224 then |key| else 224])
  {
    if |key| <= MAX_CACHED_KEY {
      ResponseAgrees(r, key);
      assert key[..|key|] == key;
    } else {
      LongKeyRead(r, key, key[..MAX_CACHED_KEY]);
    }
  }

  lemma LongKeyRead(r: Response, key: seq<byte>, prefix: seq<byte>)
    requires IsKey(key) && ResponseFor(r, key) && |prefix| == MAX_CACHED_KEY < |key| && prefix == key[..|prefix|]
    ensures !ScanPanics(r) && ResponseKeyEnd(r) == BMC_MAX_KEY_LENGTH && ResponseHash(r) == Fnv(prefix)
  {
    ScanStopsAfterKey(r.payload, 6, BMC_MAX_KEY_LENGTH, false, prefix);
  }

  /** So the response for a longer key is served under its first 224 bytes, which is another
      key. */
  lemma LongKeyServedUnderPrefix(t: seq<CacheEntry>, r: Response, key: seq<byte>)
    requires IsTable(t) && IsKey(key) && NewlineFree(key) && |key| > MAX_CACHED_KEY
    requires ResponseFor(r, key) && Complete(r) && !UpToDate(t[SlotOf(Fnv(key[..MAX_CACHED_KEY]))], r)
    ensures key[..MAX_CACHED_KEY] != key
    ensures IsTable(FillStep(t, r)) && Lookup(FillStep(t, r), key[..MAX_CACHED_KEY]) == Some(Cached(r) + END_LINE)
  {
    LongKeyRead(r, key, key[..MAX_CACHED_KEY]);
    CachedCoversKey(r, key);
    CopiedKeyServed(t, r, key[..MAX_CACHED_KEY]);
  }
}
