/** What the BMC cache promises over whole runs: a hit is a response the server sent for
    that key since the last SET of it, and when that promise stops. */

module BmcCoherence {
  import opened Bytes
  import opened BmcText
  import opened BmcCache
  import opened Options

  const MAX_CACHED_KEY: nat := 224  // BMC_MAX_KEY_LENGTH less the six bytes of "VALUE "

  // ------------------------------------------------------------ which key a packet is for

  /** The response is for `key`: the key stands behind "VALUE " and ends at a space. */
  predicate ResponseFor(r: Response, key: seq<byte>) {
    && 6 + |key| < |r.payload| && r.payload[..6] == [0x56, 0x41, 0x4C, 0x55, 0x45, 0x20]
    && KeyAt(r.payload, 6, key) && r.payload[6 + |key|] == 0x20
    && r.skbLen >= 50 + |r.payload|
  }

  /** The payload sets `key`: it stands behind "set " and ends at a space or the end. */
  ghost predicate SetOf(p: seq<byte>, key: seq<byte>) {
    exists i :: SetOfAt(p, i, key)
  }

  predicate SetOfAt(p: seq<byte>, i: nat, key: seq<byte>) {
    SetBytesAt(p, i) && KeyAt(p, i + 4, key) && (i + 4 + |key| < |p| ==> p[i + 4 + |key|] == 0x20)
  }

  lemma ResponseAgrees(r: Response, key: seq<byte>)
    requires IsKey(key) && |key| <= MAX_CACHED_KEY && ResponseFor(r, key)
    ensures !ScanPanics(r) && ResponseKeyEnd(r) == 6 + |key| && ResponseHash(r) == Fnv(key)
  {
    ScanStopsAfterKey(r.payload, 6, Min(KeyLimit(r), |r.payload|), false, key);
    ScanStopsAfterKey(r.payload, 6, |r.payload|, false, key);
  }

  lemma SetAgrees(p: seq<byte>, i: nat, key: seq<byte>)
    requires IsKey(key) && SetOfAt(p, i, key)
    ensures SetAt(p, i) && SetSlot(p, i) == SlotOf(Fnv(key)) && Named(p, SlotOf(Fnv(key)))
  {
    SetAtIff(p, i);
    ScanStopsAfterKey(p, i + 4, |p|, false, key);
    assert NamesAt(p, i, SlotOf(Fnv(key)));
  }

  /** A SET from its bytes: whatever stands before and behind, the empty text included. */
  lemma SetFromBytes(before: seq<byte>, key: seq<byte>, after: seq<byte>)
    ensures SetOf(before + [0x73, 0x65, 0x74, 0x20] + key + [0x20] + after, key)
  {
    var p, i := before + [0x73, 0x65, 0x74, 0x20] + key + [0x20] + after, |before|;
    assert p[i] == 0x73 && p[i + 1] == 0x65 && p[i + 2] == 0x74 && p[i + 3] == 0x20;
    forall k | 0 <= k < |key| ensures p[i + 4 + k] == key[k] {}
    assert SetOfAt(p, i, key);
  }

  // ------------------------------------------------------------ runs

  predicate NoneValid(t: seq<CacheEntry>) { forall s :: 0 <= s < |t| ==> !t[s].valid }

  ghost predicate Stepped(h: seq<Event>, ts: seq<seq<CacheEntry>>, n: nat)
    requires n < |h| < |ts| && IsTable(ts[n]) && IsHistory(h)
  {
    ts[n + 1] == Advance(ts[n], h[n])
  }

  /** `ts` are the tables of the run over `h`, from one without valid entries: `ts[n]` is the
      table after the first `n` packets. */
  ghost predicate IsRun(h: seq<Event>, ts: seq<seq<CacheEntry>>) {
    && IsHistory(h) && |ts| == |h| + 1
    && (forall n :: 0 <= n <= |h| ==> IsTable(ts[n]))
    && NoneValid(ts[0])
    && (forall n: nat :: n < |h| ==> Stepped(h, ts, n))
  }

  /** Every history has its run, from every such table. */
  lemma {:induction false} RunExists(h: seq<Event>, t: seq<CacheEntry>) returns (ts: seq<seq<CacheEntry>>)
    requires IsHistory(h) && IsTable(t) && NoneValid(t)
    ensures IsRun(h, ts) && ts[0] == t
  {
    if h == [] {
      ts := [t];
    } else {
      var m := |h| - 1;
      var before := RunExists(h[..m], t);
      ts := before + [Advance(before[m], h[m])];
      forall n: nat | n < |h| ensures Stepped(h, ts, n) {
        if n < m { assert Stepped(h[..m], before, n); }
      }
    }
  }

  /** The response is copied into slot `s`. */
  predicate CopiesTo(t: seq<CacheEntry>, e: Event, s: nat)
    requires IsTable(t) && (e.Fill? ==> IsResponse(e.r))
  {
    e.Fill? && Copies(t, e.r) && s == ResponseSlot(e.r)
  }

  ghost predicate Clears(e: Event, s: nat) { e.Set? && Named(e.p, s) }

  /** The part of a run between two of its tables is what the packets between do to the first. */
  lemma NextTable(h: seq<Event>, ts: seq<seq<CacheEntry>>, n: nat, t: seq<CacheEntry>, e: Event)
    requires IsRun(h, ts) && n < |h| && t == ts[n] && e == h[n]
    ensures IsTable(t) && (e.Fill? ==> IsResponse(e.r)) && Advance(t, e) == ts[n + 1]
  {
    assert Stepped(h, ts, n);
  }

  lemma {:induction false} RunBetween(h: seq<Event>, ts: seq<seq<CacheEntry>>, m: nat, n: nat, es: seq<Event>, k: nat)
    requires IsRun(h, ts) && m <= n <= |h| && es == h[m..n] && k <= |es|
    ensures IsHistory(es) && AdvanceFirst(ts[m], es, k) == ts[m + k]
  {
    if k > 0 {
      RunBetween(h, ts, m, n, es, k - 1);
      NextTable(h, ts, m + k - 1, AdvanceFirst(ts[m], es, k - 1), es[k - 1]);
    }
  }

  /** How one packet changes one entry. */
  lemma EntryChange(h: seq<Event>, ts: seq<seq<CacheEntry>>, n: nat, s: nat)
    requires IsRun(h, ts) && n < |h| && s < BMC_CACHE_ENTRY_COUNT
    ensures ts[n + 1][s] ==
              if CopiesTo(ts[n], h[n], s) then FilledEntry(ts[n][s], h[n].r)
              else if Clears(h[n], s) then ts[n][s].(valid := false)
              else ts[n][s]
  {
    assert Stepped(h, ts, n);
  }

  predicate AtOwnSlot(e: CacheEntry, s: nat) { e.valid ==> SlotOf(e.hash) == s }

  lemma FilledAtOwnSlot(e: CacheEntry, r: Response)
    requires IsEntry(e) && IsResponse(r) && AtOwnSlot(e, ResponseSlot(r))
    ensures AtOwnSlot(FilledEntry(e, r), ResponseSlot(r))
  {
  }

  lemma OwnSlotStep(h: seq<Event>, ts: seq<seq<CacheEntry>>, n: nat, s: nat)
    requires IsRun(h, ts) && n < |h| && s < BMC_CACHE_ENTRY_COUNT && AtOwnSlot(ts[n][s], s)
    ensures AtOwnSlot(ts[n + 1][s], s)
  {
    EntryChange(h, ts, n, s);
    if CopiesTo(ts[n], h[n], s) { FilledAtOwnSlot(ts[n][s], h[n].r); }
  }

  /** Every valid entry sits at its own hash. */
  lemma {:induction false} ValidAtOwnSlot(h: seq<Event>, ts: seq<seq<CacheEntry>>, n: nat, s: nat)
    requires IsRun(h, ts) && n <= |h| && s < BMC_CACHE_ENTRY_COUNT
    ensures AtOwnSlot(ts[n][s], s)
  {
    if n > 0 {
      ValidAtOwnSlot(h, ts, n - 1, s);
      OwnSlotStep(h, ts, n - 1, s);
    }
  }

  // ------------------------------------------------------------ coherence

  /** Keys that fit the cache and that the hash tells apart. */
  ghost predicate KeysApart(keys: set<seq<byte>>) {
    && (forall k :: k in keys ==> IsKey(k) && |k| <= MAX_CACHED_KEY)
    && (forall k, k' :: k in keys && k' in keys && Fnv(k) == Fnv(k') ==> k == k')
  }

  ghost predicate ForSome(r: Response, keys: set<seq<byte>>) {
    exists k :: k in keys && ResponseFor(r, k)
  }

  /** An incomplete response is about to be copied over a valid entry. */
  predicate Spoils(t: seq<CacheEntry>, r: Response)
    requires IsTable(t) && IsResponse(r)
  {
    !Complete(r) && Copies(t, r) && t[ResponseSlot(r)].valid
  }

  /** Complete responses are for keys in use, and the others spoil nothing. */
  ghost predicate ServesKeys(h: seq<Event>, ts: seq<seq<CacheEntry>>, keys: set<seq<byte>>)
    requires IsRun(h, ts)
  {
    forall i :: 0 <= i < |h| && h[i].Fill? ==>
      (if Complete(h[i].r) then ForSome(h[i].r, keys) else !Spoils(ts[i], h[i].r))
  }

  /** Packet `i` was a response for `k`, and no SET of `k` came after it. */
  ghost predicate Current(h: seq<Event>, i: nat, n: nat, k: seq<byte>)
    requires n <= |h|
  {
    && i < n && h[i].Fill? && ResponseFor(h[i].r, k)
    && forall j :: i < j < n ==> !(h[j].Set? && SetOf(h[j].p, k))
  }

  ghost predicate Holds(h: seq<Event>, i: nat, n: nat, k: seq<byte>, e: CacheEntry)
    requires n <= |h| && IsEntry(e)
  {
    Current(h, i, n, k) && Complete(h[i].r) && e.hash == Fnv(k) && Stored(e) == Cached(h[i].r)
  }

  /** A valid entry in slot `s` holds the current response of some key of that slot. */
  ghost predicate Sound(h: seq<Event>, n: nat, keys: set<seq<byte>>, s: nat, e: CacheEntry)
    requires n <= |h| && IsEntry(e)
  {
    e.valid ==> exists i, k :: k in keys && SlotOf(Fnv(k)) == s && Holds(h, i, n, k, e)
  }

  lemma FillSound(h: seq<Event>, n: nat, keys: set<seq<byte>>, r: Response, e: CacheEntry)
    requires n < |h| && h[n] == Fill(r) && IsResponse(r) && Complete(r) && ForSome(r, keys) && KeysApart(keys)
    requires IsEntry(e)
    ensures IsEntry(FilledEntry(e, r)) && Sound(h, n + 1, keys, ResponseSlot(r), FilledEntry(e, r))
  {
    var k :| k in keys && ResponseFor(r, k);
    ResponseAgrees(r, k);
    FilledHash(e, r);
    assert Holds(h, n, n + 1, k, FilledEntry(e, r));
  }

  lemma CurrentKept(h: seq<Event>, i: nat, n: nat, k: seq<byte>)
    requires n < |h| && IsKey(k) && Current(h, i, n, k) && (h[n].Set? ==> !Named(h[n].p, SlotOf(Fnv(k))))
    ensures Current(h, i, n + 1, k)
  {
    if h[n].Set? && SetOf(h[n].p, k) {
      var w :| SetOfAt(h[n].p, w, k);
      SetAgrees(h[n].p, w, k);
    }
  }

  lemma KeepSound(h: seq<Event>, n: nat, keys: set<seq<byte>>, s: nat, e: CacheEntry)
    requires n < |h| && IsEntry(e) && KeysApart(keys) && Sound(h, n, keys, s, e)
    requires h[n].Set? && e.valid ==> !Named(h[n].p, s)
    ensures Sound(h, n + 1, keys, s, e)
  {
    if e.valid {
      var i, k :| k in keys && SlotOf(Fnv(k)) == s && Holds(h, i, n, k, e);
      CurrentKept(h, i, n, k);
      assert Holds(h, i, n + 1, k, e);
    }
  }

  lemma SoundStep(h: seq<Event>, ts: seq<seq<CacheEntry>>, n: nat, keys: set<seq<byte>>, s: nat)
    requires n < |h| && IsRun(h, ts) && s < BMC_CACHE_ENTRY_COUNT && KeysApart(keys) && ServesKeys(h, ts, keys)
    requires Sound(h, n, keys, s, ts[n][s])
    ensures Sound(h, n + 1, keys, s, ts[n + 1][s])
  {
    EntryChange(h, ts, n, s);
    var before, after := ts[n][s], ts[n + 1][s];
    if CopiesTo(ts[n], h[n], s) {
      if Complete(h[n].r) {
        FillSound(h, n, keys, h[n].r, before);
      } else {
        assert !before.valid;
      }
    } else if !Clears(h[n], s) {
      KeepSound(h, n, keys, s, before);
    }
  }

  lemma {:induction false} AlwaysSound(h: seq<Event>, ts: seq<seq<CacheEntry>>, n: nat, keys: set<seq<byte>>, s: nat)
    requires n <= |h| && IsRun(h, ts) && s < BMC_CACHE_ENTRY_COUNT && KeysApart(keys) && ServesKeys(h, ts, keys)
    ensures Sound(h, n, keys, s, ts[n][s])
  {
    if n > 0 {
      AlwaysSound(h, ts, n - 1, keys, s);
      SoundStep(h, ts, n - 1, keys, s);
    }
  }

  /** A lookup after `n` packets returns the cached part of the complete response `i`, which is
      for the key and was seen after its last SET. */
  ghost predicate Serves(h: seq<Event>, ts: seq<seq<CacheEntry>>, i: nat, n: nat, key: seq<byte>)
    requires n <= |h| && IsRun(h, ts)
  {
    Current(h, i, n, key) && Complete(h[i].r) && Lookup(ts[n], key) == Some(Cached(h[i].r) + END_LINE)
  }

  /** Cache coherence: for every interleaving of responses, SETs and GETs, a hit for a key in
      use is the cached part of a response for that key, seen after the last SET of it,
      followed by "END\r\n". SET packets are arbitrary. */
  lemma HitIsCurrentResponse(h: seq<Event>, ts: seq<seq<CacheEntry>>, n: nat, keys: set<seq<byte>>, key: seq<byte>)
    requires n <= |h| && IsRun(h, ts) && KeysApart(keys) && ServesKeys(h, ts, keys)
    requires key in keys && Lookup(ts[n], key).Some?
    ensures exists i: nat :: Serves(h, ts, i, n, key)
  {
    var s := SlotOf(Fnv(key));
    AlwaysSound(h, ts, n, keys, s);
    var e := ts[n][s];
    var i, k :| k in keys && SlotOf(Fnv(k)) == s && Holds(h, i, n, k, e);
    assert k == key;
    assert Serves(h, ts, i, n, key);
  }

  // ------------------------------------------------------------ what is cached

  lemma {:induction false} NoNewlinesBetween(p: seq<byte>, lo: nat, hi: nat)
    requires lo <= hi <= |p| && forall i :: lo <= i < hi ==> p[i] != NEWLINE
    ensures Newlines(p, hi) == Newlines(p, lo)
    decreases hi
  {
    if lo < hi { NoNewlinesBetween(p, lo, hi - 1); }
  }

  lemma {:induction false} NewlinesGrow(p: seq<byte>, lo: nat, hi: nat)
    requires lo <= hi <= |p|
    ensures Newlines(p, lo) <= Newlines(p, hi)
    decreases hi
  {
    if lo < hi { NewlinesGrow(p, lo, hi - 1); }
  }

  predicate NewlineFree(s: seq<byte>) { forall i :: 0 <= i < |s| ==> s[i] != 0x0A }

  /** The server's reply to a single-key GET: a header line, the value line, "END\r\n". */
  function ServerReply(header: seq<byte>, value: seq<byte>): seq<byte> {
    header + [0x0A] + value + [0x0A] + [0x45, 0x4E, 0x44, 0x0D, 0x0A]
  }

  /** When neither line holds another newline and both fit, the cached part is all but the
      last line, so that a hit is the server's reply byte for byte. */
  lemma HitIsWholeReply(r: Response, header: seq<byte>, value: seq<byte>)
    requires IsResponse(r) && r.payload == ServerReply(header, value)
    requires NewlineFree(header) && NewlineFree(value)
    requires |header| + |value| + 2 <= 1283
    ensures Complete(r) && Cached(r) + END_LINE == r.payload
  {
    var p := r.payload;
    var first, second := |header|, |header| + 1 + |value|;
    assert p[first] == NEWLINE && p[second] == NEWLINE;
    forall i | 0 <= i < first ensures p[i] != NEWLINE { assert p[i] == header[i]; }
    forall i | first + 1 <= i < second ensures p[i] != NEWLINE { assert p[i] == value[i - (first + 1)]; }
    NoNewlinesBetween(p, 0, first);
    NoNewlinesBetween(p, first + 1, second);
    forall m | 0 <= m < second + 1 ensures Newlines(p, m) < 2 { NewlinesGrow(p, m, second); }
    CopyEndUnique(r, CopyEnd(r, 0), second + 1);
  }

  /** The response is a whole reply with one-line value that fits the entry. */
  ghost predicate WholeReply(r: Response) {
    exists header, value :: IsWholeReply(r, header, value)
  }

  predicate IsWholeReply(r: Response, header: seq<byte>, value: seq<byte>) {
    && r.payload == ServerReply(header, value) && NewlineFree(header) && NewlineFree(value)
    && |header| + |value| + 2 <= 1283
  }

  /** Responses with both their newlines are whole replies for keys in use. */
  ghost predicate WholeReplies(h: seq<Event>, ts: seq<seq<CacheEntry>>, keys: set<seq<byte>>)
    requires IsRun(h, ts)
  {
    ServesKeys(h, ts, keys) && forall i :: 0 <= i < |h| && h[i].Fill? && Complete(h[i].r) ==> WholeReply(h[i].r)
  }

  /** Put together: where the server's replies are whole, every hit is, byte for byte, a reply
      that the server sent for the key after the last SET of it. */
  lemma HitIsServerReply(h: seq<Event>, ts: seq<seq<CacheEntry>>, n: nat, keys: set<seq<byte>>, key: seq<byte>)
    requires n <= |h| && IsRun(h, ts) && KeysApart(keys) && WholeReplies(h, ts, keys)
    requires key in keys && Lookup(ts[n], key).Some?
    ensures exists i: nat :: Current(h, i, n, key) && Lookup(ts[n], key) == Some(h[i].r.payload)
  {
    HitIsCurrentResponse(h, ts, n, keys, key);
    var i: nat :| Serves(h, ts, i, n, key);
    var header, value :| IsWholeReply(h[i].r, header, value);
    HitIsWholeReply(h[i].r, header, value);
    assert Current(h, i, n, key) && Lookup(ts[n], key) == Some(h[i].r.payload);
  }

  /** The keys under which a response that has just been cached is served: those with its
      hash that stand behind "VALUE ". Nothing looks at what follows them, and a key that reaches
      behind the copied bytes is compared with what the entry held before. */
  lemma ServedUnderIff(t: seq<CacheEntry>, r: Response, key: seq<byte>)
    requires IsTable(t) && IsResponse(r) && Complete(r) && Copies(t, r)
    ensures IsTable(FillStep(t, r))
    ensures SlotOf(Fnv(key)) != ResponseSlot(r) ==> Lookup(FillStep(t, r), key) == Lookup(t, key)
    ensures SlotOf(Fnv(key)) == ResponseSlot(r) ==>
              Lookup(FillStep(t, r), key) ==
                if Fnv(key) == ResponseHash(r) && |key| < BMC_MAX_KEY_LENGTH
                   && KeyAt(Cached(r) + t[ResponseSlot(r)].data[CopyEnd(r, 0)..], 6, key)
                then Some(Cached(r) + END_LINE) else None
  {
    StepsKeepTable(t, r, []);
    FilledHash(t[ResponseSlot(r)], r);
  }

  lemma KeyInPrefix(a: seq<byte>, b: seq<byte>, c: seq<byte>, n: nat, key: seq<byte>)
    requires n <= |a| && 6 + |key| <= n && c == a[..n] + b
    ensures KeyAt(c, 6, key) <==> KeyAt(a, 6, key)
  {
    assert forall i :: 0 <= i < n ==> c[i] == a[i];
  }

  lemma CopiedKeyServed(t: seq<CacheEntry>, r: Response, key: seq<byte>)
    requires IsTable(t) && IsResponse(r) && Complete(r) && Copies(t, r)
    requires KeyAt(r.payload, 6, key) && 6 + |key| <= CopyEnd(r, 0)
    requires Fnv(key) == ResponseHash(r) && |key| < BMC_MAX_KEY_LENGTH
    ensures IsTable(FillStep(t, r)) && Lookup(FillStep(t, r), key) == Some(Cached(r) + END_LINE)
  {
    ServedUnderIff(t, r, key);
    var n, stale := CopyEnd(r, 0), t[ResponseSlot(r)].data[CopyEnd(r, 0)..];
    KeyInPrefix(r.payload, stale, Cached(r) + stale, n, key);
  }

  /** A response that fits is served under its key at once. */
  lemma FilledKeyIsServed(t: seq<CacheEntry>, r: Response, key: seq<byte>)
    requires IsTable(t) && IsKey(key) && NewlineFree(key) && |key| <= MAX_CACHED_KEY
    requires ResponseFor(r, key) && Complete(r) && !UpToDate(t[SlotOf(Fnv(key))], r)
    ensures IsTable(FillStep(t, r)) && Lookup(FillStep(t, r), key) == Some(Cached(r) + END_LINE)
  {
    ResponseAgrees(r, key);
    CachedCoversKey(r, key);
    CopiedKeyServed(t, r, key);
  }

  lemma FilledHash(e: CacheEntry, r: Response)
    requires IsEntry(e) && IsResponse(r)
    ensures IsEntry(FilledEntry(e, r)) && Stored(FilledEntry(e, r)) == Cached(r)
    ensures if Complete(r) then FilledEntry(e, r).valid && FilledEntry(e, r).hash == ResponseHash(r)
            else FilledEntry(e, r).valid == e.valid && FilledEntry(e, r).hash == e.hash
  {
  }

  lemma CachedCoversKey(r: Response, key: seq<byte>)
    requires ResponseFor(r, key) && NewlineFree(key) && Complete(r)
    ensures CopyEnd(r, 0) > 6 + |key|
  {
    var p, n := r.payload, CopyEnd(r, 0);
    assert forall i :: 0 <= i < 6 ==> p[i] == VALUE_PREFIX[i];
    if n <= 6 + |key| {
      forall i | 0 <= i < n ensures p[i] != NEWLINE {
        if i >= 6 { assert p[6 + (i - 6)] == key[i - 6]; }
        else { assert p[i] == VALUE_PREFIX[i]; }
      }
      NoNewlinesBetween(p, 0, n);
    }
  }

  // ------------------------------------------------------------ which response

  /** The comparison finds no difference between two texts with the same key before a space. */
  lemma {:induction false} SameKeySame(data: seq<byte>, payload: seq<byte>, key: seq<byte>, off: nat)
    requires |data| == BMC_MAX_PACKET_LENGTH && KeyAt(data, 6, key) && KeyAt(payload, 6, key)
    requires 6 + |key| < |payload| && payload[6 + |key|] == SPACE
    requires 6 + |key| < |data| && data[6 + |key|] == SPACE
    requires 6 <= off <= 6 + |key|
    ensures !Differs(data, payload, off)
    decreases 6 + |key| - off
  {
    if off < 6 + |key| {
      SameKeySame(data, payload, key, off + 1);
      assert data[6 + (off - 6)] == key[off - 6] && payload[6 + (off - 6)] == key[off - 6];
    }
  }

  /** Keys as memcached's text protocol allows them, in a run that serves them. */
  ghost predicate PlainRun(h: seq<Event>, ts: seq<seq<CacheEntry>>, keys: set<seq<byte>>) {
    IsRun(h, ts) && KeysApart(keys) && ServesKeys(h, ts, keys) && forall k :: k in keys ==> NewlineFree(k)
  }

  /** After `n` packets the first lookup finds the key. */
  ghost predicate Held(h: seq<Event>, ts: seq<seq<CacheEntry>>, n: nat, key: seq<byte>)
    requires IsRun(h, ts) && n <= |h|
  {
    Probe(ts[n], key)
  }

  lemma StoredKey(e: CacheEntry, r: Response, key: seq<byte>)
    requires IsEntry(e) && Stored(e) == Cached(r)
    requires ResponseFor(r, key) && NewlineFree(key) && Complete(r)
    ensures KeyAt(e.data, 6, key) && 6 + |key| < |e.data| && e.data[6 + |key|] == SPACE
  {
    CachedCoversKey(r, key);
    var n := CopyEnd(r, 0);
    assert e.len == n;
    forall j | 0 <= j < n ensures e.data[j] == r.payload[j] { assert Stored(e)[j] == Cached(r)[j]; }
  }

  lemma HeldBy(h: seq<Event>, ts: seq<seq<CacheEntry>>, n: nat, keys: set<seq<byte>>, key: seq<byte>) returns (i: nat)
    requires PlainRun(h, ts, keys) && n <= |h| && key in keys && Held(h, ts, n, key)
    ensures Holds(h, i, n, key, ts[n][SlotOf(Fnv(key))])
  {
    var s := SlotOf(Fnv(key));
    AlwaysSound(h, ts, n, keys, s);
    var m, k :| k in keys && SlotOf(Fnv(k)) == s && Holds(h, m, n, k, ts[n][s]);
    i := m;
  }

  /** An entry found by a key's hash starts with the key. */
  lemma HeldData(h: seq<Event>, ts: seq<seq<CacheEntry>>, n: nat, keys: set<seq<byte>>, key: seq<byte>)
    requires PlainRun(h, ts, keys) && n <= |h| && key in keys && Held(h, ts, n, key)
    ensures var data := ts[n][SlotOf(Fnv(key))].data;
            |data| == BMC_MAX_PACKET_LENGTH && KeyAt(data, 6, key) && 6 + |key| < |data| && data[6 + |key|] == SPACE
  {
    var i := HeldBy(h, ts, n, keys, key);
    StoredKey(ts[n][SlotOf(Fnv(key))], h[i].r, key);
  }

  /** A response for a key is copied exactly when the key's slot does not hold the key: only the
      key is compared, so a newer response with another value is ignored. */
  lemma CopiedIff(h: seq<Event>, ts: seq<seq<CacheEntry>>, n: nat, keys: set<seq<byte>>, key: seq<byte>)
    requires PlainRun(h, ts, keys) && n < |h| && h[n].Fill? && key in keys && ResponseFor(h[n].r, key)
    ensures Copies(ts[n], h[n].r) <==> !Held(h, ts, n, key)
  {
    ResponseAgrees(h[n].r, key);
    if Held(h, ts, n, key) {
      HeldData(h, ts, n, keys, key);
      SameKeySame(ts[n][SlotOf(Fnv(key))].data, h[n].r.payload, key, 6);
    }
  }

  /** Response `i` found the key's slot without the key, which it has held ever since. */
  ghost predicate FirstSince(h: seq<Event>, ts: seq<seq<CacheEntry>>, i: nat, n: nat, key: seq<byte>)
    requires n <= |h| && IsRun(h, ts)
  {
    && i < n && h[i].Fill? && ResponseFor(h[i].r, key) && Complete(h[i].r)
    && !Held(h, ts, i, key)
    && forall j :: i < j <= n ==> Held(h, ts, j, key)
  }

  /** A complete response that is copied and brings the key's hash is for the key. */
  lemma CopiedForKey(h: seq<Event>, ts: seq<seq<CacheEntry>>, n: nat, keys: set<seq<byte>>, key: seq<byte>)
    requires PlainRun(h, ts, keys) && n < |h| && h[n].Fill? && key in keys
    requires Complete(h[n].r) && ResponseHash(h[n].r) == Fnv(key)
    ensures ResponseFor(h[n].r, key)
  {
    var k :| k in keys && ResponseFor(h[n].r, k);
    ResponseAgrees(h[n].r, k);
  }

  /** How the last packet left the key held: it brought the key, or did not touch the entry. */
  lemma HeldStep(h: seq<Event>, ts: seq<seq<CacheEntry>>, n: nat, keys: set<seq<byte>>, key: seq<byte>)
    requires PlainRun(h, ts, keys) && n < |h| && key in keys && Held(h, ts, n + 1, key)
    ensures var s := SlotOf(Fnv(key));
            if Held(h, ts, n, key) then ts[n + 1][s] == ts[n][s]
            else h[n].Fill? && ResponseFor(h[n].r, key) && Complete(h[n].r)
                 && Stored(ts[n + 1][s]) == Cached(h[n].r)
  {
    var s := SlotOf(Fnv(key));
    EntryChange(h, ts, n, s);
    var before, after := ts[n][s], ts[n + 1][s];
    if CopiesTo(ts[n], h[n], s) {
      FilledHash(before, h[n].r);
      if Complete(h[n].r) {
        CopiedForKey(h, ts, n, keys, key);
        CopiedIff(h, ts, n, keys, key);
      }
    }
  }

  lemma NothingHeld(h: seq<Event>, ts: seq<seq<CacheEntry>>, key: seq<byte>)
    requires IsRun(h, ts)
    ensures !Held(h, ts, 0, key)
  {
  }

  lemma {:induction false} LastRise(held: seq<bool>) returns (i: nat)
    requires |held| > 0 && !held[0] && held[|held| - 1]
    ensures i + 1 < |held| && !held[i] && forall j :: i < j < |held| ==> held[j]
  {
    i := |held| - 2;
    if held[i] { i := LastRise(held[..i + 1]); }
  }

  lemma HeldSame(h: seq<Event>, ts: seq<seq<CacheEntry>>, n: nat, keys: set<seq<byte>>, key: seq<byte>, s: nat)
    requires PlainRun(h, ts, keys) && n < |h| && key in keys && Held(h, ts, n, key) && Held(h, ts, n + 1, key)
    requires s == SlotOf(Fnv(key))
    ensures ts[n + 1][s] == ts[n][s]
  {
    HeldStep(h, ts, n, keys, key);
  }

  /** While the key is held its entry does not change. */
  lemma {:induction false} HeldEntryStays(h: seq<Event>, ts: seq<seq<CacheEntry>>, m: nat, n: nat, keys: set<seq<byte>>,
                                          key: seq<byte>, s: nat)
    requires PlainRun(h, ts, keys) && m <= n <= |h| && key in keys && s == SlotOf(Fnv(key))
    requires forall j :: m <= j <= n ==> Held(h, ts, j, key)
    ensures ts[n][s] == ts[m][s]
  {
    if m < n {
      HeldEntryStays(h, ts, m, n - 1, keys, key, s);
      HeldSame(h, ts, n - 1, keys, key, s);
    }
  }

  lemma RiseOf(h: seq<Event>, ts: seq<seq<CacheEntry>>, n: nat, key: seq<byte>) returns (i: nat)
    requires IsRun(h, ts) && n <= |h| && Held(h, ts, n, key)
    ensures i < n && !Held(h, ts, i, key) && forall j :: i < j <= n ==> Held(h, ts, j, key)
  {
    NothingHeld(h, ts, key);
    var held := seq(n + 1, j requires 0 <= j <= n => Held(h, ts, j, key));
    i := LastRise(held);
    forall j | i < j <= n ensures Held(h, ts, j, key) { assert held[j]; }
  }

  lemma HeldFirst(h: seq<Event>, ts: seq<seq<CacheEntry>>, n: nat, keys: set<seq<byte>>, key: seq<byte>, s: nat)
    requires PlainRun(h, ts, keys) && n < |h| && key in keys && !Held(h, ts, n, key) && Held(h, ts, n + 1, key)
    requires s == SlotOf(Fnv(key))
    ensures h[n].Fill? && ResponseFor(h[n].r, key) && Complete(h[n].r) && Stored(ts[n + 1][s]) == Cached(h[n].r)
  {
    HeldStep(h, ts, n, keys, key);
  }

  lemma HeldSince(h: seq<Event>, ts: seq<seq<CacheEntry>>, n: nat, keys: set<seq<byte>>, key: seq<byte>) returns (i: nat)
    requires PlainRun(h, ts, keys) && n <= |h| && key in keys && Held(h, ts, n, key)
    ensures FirstSince(h, ts, i, n, key) && Stored(ts[n][SlotOf(Fnv(key))]) == Cached(h[i].r)
  {
    i := RiseOf(h, ts, n, key);
    var s := SlotOf(Fnv(key));
    HeldFirst(h, ts, i, keys, key, s);
    HeldEntryStays(h, ts, i + 1, n, keys, key, s);
  }

  lemma SetEndsHold(h: seq<Event>, ts: seq<seq<CacheEntry>>, n: nat, key: seq<byte>)
    requires IsRun(h, ts) && n < |h| && IsKey(key) && h[n].Set? && SetOf(h[n].p, key)
    ensures !Held(h, ts, n + 1, key)
  {
    var w :| SetOfAt(h[n].p, w, key);
    SetAgrees(h[n].p, w, key);
    EntryChange(h, ts, n, SlotOf(Fnv(key)));
  }

  /** From the bytes of the packet: after a SET of a key it is not held, in any run. */
  lemma SetBytesEndHold(h: seq<Event>, ts: seq<seq<CacheEntry>>, n: nat, before: seq<byte>, key: seq<byte>, after: seq<byte>)
    requires IsRun(h, ts) && n < |h| && IsKey(key)
    requires h[n] == Set(before + [0x73, 0x65, 0x74, 0x20] + key + [0x20] + after)
    ensures !Held(h, ts, n + 1, key)
  {
    SetFromBytes(before, key, after);
    SetEndsHold(h, ts, n, key);
  }

  /** When a key that is held stops being held: at a packet that clears its slot or brings a
      complete response into it, which is then one for another key. */
  lemma HoldEndsIff(h: seq<Event>, ts: seq<seq<CacheEntry>>, n: nat, keys: set<seq<byte>>, key: seq<byte>)
    requires PlainRun(h, ts, keys) && n < |h| && key in keys && Held(h, ts, n, key)
    ensures var s := SlotOf(Fnv(key));
            !Held(h, ts, n + 1, key) <==> Clears(h[n], s) || (CopiesTo(ts[n], h[n], s) && Complete(h[n].r))
    ensures CopiesTo(ts[n], h[n], SlotOf(Fnv(key))) && Complete(h[n].r) ==> !ResponseFor(h[n].r, key)
  {
    var s := SlotOf(Fnv(key));
    EntryChange(h, ts, n, s);
    if CopiesTo(ts[n], h[n], s) {
      FilledHash(ts[n][s], h[n].r);
      if ResponseFor(h[n].r, key) { CopiedIff(h, ts, n, keys, key); }
      if Complete(h[n].r) && ResponseHash(h[n].r) == Fnv(key) { CopiedForKey(h, ts, n, keys, key); }
    }
  }

  /** Which response is served: whenever the first lookup finds a key, the second returns the
      earliest response for it since its slot last stopped holding it. That one came after the
      last SET, and every later response for the key was ignored. */
  lemma ServedIsFirstSince(h: seq<Event>, ts: seq<seq<CacheEntry>>, n: nat, keys: set<seq<byte>>, key: seq<byte>) returns (i: nat)
    requires PlainRun(h, ts, keys) && n <= |h| && key in keys && Held(h, ts, n, key)
    ensures FirstSince(h, ts, i, n, key) && Serves(h, ts, i, n, key)
    ensures forall j :: i < j < n && h[j].Fill? && ResponseFor(h[j].r, key) ==> !Copies(ts[j], h[j].r)
  {
    i := HeldSince(h, ts, n, keys, key);
    HeldData(h, ts, n, keys, key);
    forall j | i < j < n ensures !(h[j].Set? && SetOf(h[j].p, key)) {
      if h[j].Set? && SetOf(h[j].p, key) { SetEndsHold(h, ts, j, key); }
    }
    forall j | i < j < n && h[j].Fill? && ResponseFor(h[j].r, key) ensures !Copies(ts[j], h[j].r) {
      CopiedIff(h, ts, j, keys, key);
    }
  }
}
