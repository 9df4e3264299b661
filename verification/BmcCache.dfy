/** The look-aside cache of `samples/bmc/src/main.rs`: fill from server responses,
    invalidation by SETs, and the two locked lookups of a GET. */

module BmcCache {
  import opened Bytes
  import opened BmcText
  import opened Options

  /** `bmc_cache_entry`. The lock is not part of the value: each locked section is atomic. */
  datatype CacheEntry = CacheEntry(valid: bool, len: nat, hash: nat, data: seq<byte>)

  predicate IsEntry(e: CacheEntry) { |e.data| == BMC_MAX_PACKET_LENGTH && e.len <= BMC_MAX_CACHE_DATA_SIZE }

  predicate IsTable(t: seq<CacheEntry>) {
    |t| == BMC_CACHE_ENTRY_COUNT && forall s :: 0 <= s < |t| ==> IsEntry(t[s])
  }

  /** The bytes of the entry that are live. */
  function Stored(e: CacheEntry): seq<byte>
    requires IsEntry(e)
  {
    e.data[..e.len]
  }

  // ------------------------------------------------------------ fill

  function Min(a: nat, b: nat): nat { if a < b then a else b }

  /** An outgoing frame as `xdp_tx_filter` hands it on: the linear bytes behind the headers,
      which start with "VALUE ", and the length of the whole packet. */
  datatype Response = Response(payload: seq<byte>, skbLen: nat)

  predicate IsResponse(r: Response) {
    && |r.payload| >= 6 && r.payload[..6] == VALUE_PREFIX
    && r.skbLen >= UDP_PAYLOAD + |r.payload|
  }

  /** Where the scan for the key may go. In a packet with a non-linear part this can lie
      behind the linear bytes. */
  function KeyLimit(r: Response): nat
    requires IsResponse(r)
  {
    Min(BMC_MAX_KEY_LENGTH, r.skbLen - UDP_PAYLOAD)
  }

  /** The key scan runs off the linear bytes, which panics before the entry is locked. */
  predicate ScanPanics(r: Response)
    requires IsResponse(r)
  {
    |r.payload| < KeyLimit(r) && ScanEnd(r.payload, 6, |r.payload|, false) == |r.payload|
  }

  /** It does exactly when the packet goes on behind the linear bytes and these hold no space, in
      the first 230 bytes. */
  lemma ScanPanicsIff(r: Response)
    requires IsResponse(r)
    ensures ScanPanics(r) <==>
              |r.payload| < 230 && 50 + |r.payload| < r.skbLen && forall i :: 6 <= i < |r.payload| ==> r.payload[i] != 0x20
  {
    if forall i :: 6 <= i < |r.payload| ==> r.payload[i] != 0x20 {
      ScanEndUnique(r.payload, 6, |r.payload|, false, ScanEnd(r.payload, 6, |r.payload|, false), |r.payload|);
    }
  }

  function ResponseKeyEnd(r: Response): (e: nat)
    requires IsResponse(r)
    ensures 6 <= e <= |r.payload|
  {
    ScanEnd(r.payload, 6, Min(KeyLimit(r), |r.payload|), false)
  }

  function ResponseHash(r: Response): nat
    requires IsResponse(r)
  {
    HashRange(r.payload, 6, ResponseKeyEnd(r))
  }

  /** The comparison that decides whether the entry is up to date. It stops where both sides
      have a space, and `header_len` is counted a second time in its bound. */
  predicate Differs(data: seq<byte>, payload: seq<byte>, off: nat)
    requires |data| == BMC_MAX_PACKET_LENGTH
    decreases BMC_MAX_KEY_LENGTH - off
  {
    && off < BMC_MAX_KEY_LENGTH && UDP_PAYLOAD + off < |payload|
    && !(payload[off] == SPACE && data[off] == SPACE)
    && (data[off] != payload[off] || Differs(data, payload, off + 1))
  }

  /** Byte `off` is compared and differs, and the comparison got that far. */
  predicate DiffersAt(data: seq<byte>, payload: seq<byte>, from: nat, off: nat)
    requires |data| == 1500
  {
    && from <= off < 230 && 50 + off < |payload| && data[off] != payload[off]
    && forall j :: from <= j < off ==> data[j] == payload[j] != 0x20
  }

  /** The comparison finds a difference exactly when the two texts first part within the first 230
      bytes and 50 bytes before the payload's end, with no space before. */
  lemma {:induction false} DiffersIff(data: seq<byte>, payload: seq<byte>, from: nat)
    requires |data| == 1500
    ensures Differs(data, payload, from) <==> exists off: nat :: DiffersAt(data, payload, from, off)
    decreases 230 - from
  {
    if Differs(data, payload, from) {
      if data[from] != payload[from] {
        assert DiffersAt(data, payload, from, from);
      } else {
        DiffersIff(data, payload, from + 1);
        var off: nat :| DiffersAt(data, payload, from + 1, off);
        assert DiffersAt(data, payload, from, off);
      }
    }
    if off: nat :| DiffersAt(data, payload, from, off) {
      if off > from {
        DiffersIff(data, payload, from + 1);
        assert DiffersAt(data, payload, from + 1, off);
      }
    }
  }

  predicate UpToDate(e: CacheEntry, r: Response)
    requires IsEntry(e) && IsResponse(r)
  {
    e.valid && e.hash == ResponseHash(r) && !Differs(e.data, r.payload, 6)
  }

  function Newlines(p: seq<byte>, n: nat): nat
    requires n <= |p|
  {
    if n == 0 then 0 else Newlines(p, n - 1) + (if p[n - 1] == NEWLINE then 1 else 0)
  }

  function CopyLimit(r: Response): nat { Min(BMC_MAX_CACHE_DATA_SIZE, |r.payload|) }

  /** How many bytes the copy takes: through the second newline, or up to the limit. */
  predicate CopyEnds(r: Response, n: nat) {
    && n <= CopyLimit(r)
    && (forall m :: 0 <= m < n ==> Newlines(r.payload, m) < 2)
    && (n < CopyLimit(r) ==> Newlines(r.payload, n) >= 2)
  }

  function CopyEnd(r: Response, from: nat): (n: nat)
    requires from <= CopyLimit(r) && forall m :: 0 <= m < from ==> Newlines(r.payload, m) < 2
    ensures CopyEnds(r, n)
    decreases CopyLimit(r) - from
  {
    if from == CopyLimit(r) || Newlines(r.payload, from) >= 2 then from else CopyEnd(r, from + 1)
  }

  /** The part of the response that is cached. */
  function Cached(r: Response): seq<byte> { r.payload[..CopyEnd(r, 0)] }

  /** `n` bytes are the bytes through the second newline, or the first `cap`, or all there are. */
  predicate StopsAt(p: seq<byte>, cap: nat, n: nat) {
    && n <= cap && n <= |p|
    && (forall m :: 0 <= m < n ==> Newlines(p, m) < 2)
    && (n < cap && n < |p| ==> Newlines(p, n) >= 2)
  }

  /** What is copied: the bytes through the second newline, or the first 1283. */
  lemma CachedIff(r: Response, n: nat)
    ensures n == CopyEnd(r, 0) <==> StopsAt(r.payload, 1283, n)
  {
    CopyEndsIff(r, BMC_MAX_CACHE_DATA_SIZE, n);
    if CopyEnds(r, n) { CopyEndUnique(r, n, CopyEnd(r, 0)); }
  }

  lemma CopyEndsIff(r: Response, cap: nat, n: nat)
    requires cap == BMC_MAX_CACHE_DATA_SIZE
    ensures CopyEnds(r, n) <==> StopsAt(r.payload, cap, n)
  {
    assert CopyLimit(r) == Min(cap, |r.payload|);
  }

  /** Two newlines lie within the bytes that may be cached. */
  predicate Complete(r: Response) { Newlines(r.payload, CopyEnd(r, 0)) == 2 }

  function FilledEntry(e: CacheEntry, r: Response): CacheEntry
    requires IsEntry(e) && IsResponse(r)
  {
    var n := CopyEnd(r, 0);
    CacheEntry(e.valid || Complete(r), n, if Complete(r) then ResponseHash(r) else e.hash, r.payload[..n] + e.data[n..])
  }

  /** The slot of a response. */
  function ResponseSlot(r: Response): (s: nat)
    requires IsResponse(r)
    ensures s < BMC_CACHE_ENTRY_COUNT
  {
    SlotOf(ResponseHash(r))
  }

  /** The response is copied into its entry. */
  predicate Copies(t: seq<CacheEntry>, r: Response)
    requires IsTable(t) && IsResponse(r)
  {
    !ScanPanics(r) && !UpToDate(t[ResponseSlot(r)], r)
  }

  function FillStep(t: seq<CacheEntry>, r: Response): seq<CacheEntry>
    requires IsTable(t) && IsResponse(r)
  {
    var s := ResponseSlot(r);
    if Copies(t, r) then t[s := FilledEntry(t[s], r)] else t
  }

  // ------------------------------------------------------------ invalidation

  predicate SetAt(p: seq<byte>, i: nat) { i + 4 <= |p| && p[i..i + 4] == SET_PREFIX }

  /** The four bytes "set " stand at `i`. */
  predicate SetBytesAt(p: seq<byte>, i: nat) {
    i + 4 <= |p| && p[i] == 0x73 && p[i + 1] == 0x65 && p[i + 2] == 0x74 && p[i + 3] == 0x20
  }

  lemma SetAtIff(p: seq<byte>, i: nat)
    ensures SetAt(p, i) <==> SetBytesAt(p, i)
  {
    if i + 4 <= |p| {
      var w := p[i..i + 4];
      assert w[0] == p[i] && w[1] == p[i + 1] && w[2] == p[i + 2] && w[3] == p[i + 3];
    }
  }

  /** The slot that the window at `i` names. */
  function SetSlot(p: seq<byte>, i: nat): nat
    requires i + 4 <= |p|
  {
    SlotOf(HashRange(p, i + 4, ScanEnd(p, i + 4, |p|, false)))
  }

  /** The window at `i` is a "set " window and names slot `s`. */
  predicate NamesAt(p: seq<byte>, i: nat, s: nat) { SetAt(p, i) && SetSlot(p, i) == s }

  /** A "set " window among the first `n` names slot `s`. */
  ghost predicate NamedWithin(p: seq<byte>, n: nat, s: nat) {
    exists i :: 0 <= i < n && NamesAt(p, i, s)
  }

  ghost predicate Named(p: seq<byte>, s: nat) { NamedWithin(p, |p|, s) }

  /** The table after the first `n` windows. */
  ghost function SetStepWithin(t: seq<CacheEntry>, p: seq<byte>, n: nat): (t': seq<CacheEntry>)
    ensures |t'| == |t|
  {
    seq(|t|, s requires 0 <= s < |t| => if NamedWithin(p, n, s) then t[s].(valid := false) else t[s])
  }

  ghost function SetStep(t: seq<CacheEntry>, p: seq<byte>): (t': seq<CacheEntry>)
    ensures |t'| == |t|
  {
    SetStepWithin(t, p, |p|)
  }

  // ------------------------------------------------------------ lookup

  /** The first locked section of a GET. */
  predicate Probe(t: seq<CacheEntry>, key: seq<byte>)
    requires IsTable(t)
  {
    var e := t[SlotOf(Fnv(key))];
    e.valid && e.hash == Fnv(key)
  }

  /** The second: what is sent back, or None. */
  function Lookup(t: seq<CacheEntry>, key: seq<byte>): Option<seq<byte>>
    requires IsTable(t)
  {
    var e := t[SlotOf(Fnv(key))];
    if Probe(t, key) && |key| < BMC_MAX_KEY_LENGTH && KeyAt(e.data, 6, key) then Some(Stored(e) + END_LINE) else None
  }

  lemma StepsKeepTable(t: seq<CacheEntry>, r: Response, p: seq<byte>)
    requires IsTable(t)
    ensures IsResponse(r) ==> IsTable(FillStep(t, r))
    ensures IsTable(SetStep(t, p))
  {
  }

  // ------------------------------------------------------------ packets

  /** A packet as the cache sees it: a response that passes egress, a SET, or a GET. */
  datatype Event = Fill(r: Response) | Set(p: seq<byte>) | Get(key: seq<byte>)

  predicate IsHistory(h: seq<Event>) {
    forall i :: 0 <= i < |h| && h[i].Fill? ==> IsResponse(h[i].r)
  }

  /** The table after one packet. Lookups change nothing. */
  ghost function Advance(t: seq<CacheEntry>, e: Event): (t': seq<CacheEntry>)
    requires IsTable(t) && (e.Fill? ==> IsResponse(e.r))
    ensures IsTable(t')
  {
    match e
    case Fill(r) => StepsKeepTable(t, r, []); FillStep(t, r)
    case Set(p) => StepsKeepTable(t, Response([], 0), p); SetStep(t, p)
    case Get(_) => t
  }

  /** The table after the first `n` of some packets. */
  ghost function AdvanceFirst(t: seq<CacheEntry>, es: seq<Event>, n: nat): (t': seq<CacheEntry>)
    requires IsTable(t) && IsHistory(es) && n <= |es|
    ensures IsTable(t')
  {
    if n == 0 then t else Advance(AdvanceFirst(t, es, n - 1), es[n - 1])
  }

  // ------------------------------------------------------------ the object

  class Cache {
    const table: array<CacheEntry>
    var updateCount: nat
    var setRecvCount: nat
    var invalidationCount: nat
    var hitMisprediction: nat

    ghost predicate Valid()
      reads table
    {
      IsTable(table[..])
    }

    constructor ()
      ensures Valid() && fresh(table)
      ensures forall s :: 0 <= s < BMC_CACHE_ENTRY_COUNT ==> !table[s].valid
    {
      var zero: seq<byte> := seq(BMC_MAX_PACKET_LENGTH, _ => 0);
      table := new CacheEntry[BMC_CACHE_ENTRY_COUNT](_ => CacheEntry(false, 0, 0, zero));
      updateCount, setRecvCount, invalidationCount, hitMisprediction := 0, 0, 0, 0;
    }

    /** The `diff` loop of `bmc_update_cache`. */
    method KeyDiffers(data: seq<byte>, payload: seq<byte>) returns (diff: bool)
      requires |data| == BMC_MAX_PACKET_LENGTH
      ensures diff == Differs(data, payload, 6)
    {
      var off := 6;
      while off < BMC_MAX_KEY_LENGTH && UDP_PAYLOAD + off < |payload| && (payload[off] != SPACE || data[off] != SPACE)
        invariant 6 <= off <= BMC_MAX_KEY_LENGTH
        invariant Differs(data, payload, 6) == Differs(data, payload, off)
      {
        if data[off] != payload[off] {
          return true;
        }
        off := off + 1;
      }
      return false;
    }

    /** The copy loop of `bmc_update_cache`, into a copy of the entry's data. */
    method CopyResponse(data: seq<byte>, r: Response) returns (copied: seq<byte>, len: nat, count: nat)
      requires |data| == BMC_MAX_PACKET_LENGTH && IsResponse(r)
      ensures len == CopyEnd(r, 0) && count == Newlines(r.payload, len)
      ensures len <= BMC_MAX_CACHE_DATA_SIZE && copied == r.payload[..len] + data[len..]
    {
      copied, len, count := data, 0, 0;
      while len < |r.payload| && len < BMC_MAX_CACHE_DATA_SIZE && UDP_PAYLOAD + len < r.skbLen && count < 2
        invariant len <= CopyLimit(r)
        invariant count == Newlines(r.payload, len)
        invariant forall m :: 0 <= m < len ==> Newlines(r.payload, m) < 2
        invariant |copied| == |data|
        invariant forall k :: 0 <= k < |data| ==> copied[k] == if k < len then r.payload[k] else data[k]
      {
        copied := copied[len := r.payload[len]];
        if r.payload[len] == NEWLINE {
          count := count + 1;
        }
        len := len + 1;
      }
      assert copied == r.payload[..len] + data[len..];
      CopyEndUnique(r, len, CopyEnd(r, 0));
    }

    /** `bmc_update_cache`; false where the key scan panics. */
    method Update(r: Response) returns (ok: bool)
      requires Valid() && IsResponse(r)
      modifies table, `updateCount
      ensures Valid()
      ensures table[..] == FillStep(old(table[..]), r)
      ensures ok == !ScanPanics(r)
      ensures updateCount == old(updateCount) +
                (if ok && Complete(r) && !UpToDate(old(table[..])[SlotOf(ResponseHash(r))], r) then 1 else 0)
    {
      ghost var before := table[..];
      StepsKeepTable(before, r, []);
      var limit := Min(KeyLimit(r), |r.payload|);
      var hash, off := ScanKey(r.payload, 6, limit, false);
      if off == |r.payload| && off < KeyLimit(r) {
        return false;
      }
      var idx := SlotOf(hash);
      var e := table[idx];
      if e.valid && e.hash == hash {
        var diff := KeyDiffers(e.data, r.payload);
        if !diff {
          return true;
        }
      }
      var copied, len, count := CopyResponse(e.data, r);
      e := e.(data := copied, len := len);
      if count == 2 {
        e := e.(valid := true, hash := hash);
        updateCount := updateCount + 1;
      }
      table[idx] := e;
      return true;
    }

    /** The loop of `bmc_invalidate_cache`. The valid test stands outside the lock in the
        source; the whole pass over one packet is taken as atomic. */
    method Invalidate(p: seq<byte>)
      requires Valid()
      modifies table, `setRecvCount, `invalidationCount
      ensures Valid()
      ensures table[..] == SetStep(old(table[..]), p)
      ensures invalidationCount == old(invalidationCount) + |Cleared(old(table[..]), p, |p|)|
      ensures setRecvCount == old(setRecvCount) + |Windows(p, |p|)|
      ensures setRecvCount == old(setRecvCount) + |set i: nat | i < |p| && SetBytesAt(p, i)|
    {
      WindowsAreSets(p, |p|);
      ghost var before := table[..];
      var i := 0;
      assert table[..] == SetStepWithin(before, p, 0);
      assert Cleared(before, p, 0) == {} && Windows(p, 0) == {};
      while i < |p|
        invariant i <= |p| && Valid()
        invariant table[..] == SetStepWithin(before, p, i)
        invariant invalidationCount == old(invalidationCount) + |Cleared(before, p, i)|
        invariant setRecvCount == old(setRecvCount) + |Windows(p, i)|
      {
        InvalidateAt(before, p, i);
        i := i + 1;
      }
    }

    /** One turn of the loop. */
    method InvalidateAt(ghost before: seq<CacheEntry>, p: seq<byte>, i: nat)
      requires Valid() && i < |p| && |before| == table.Length && table[..] == SetStepWithin(before, p, i)
      modifies table, `setRecvCount, `invalidationCount
      ensures Valid() && table[..] == SetStepWithin(before, p, i + 1)
      ensures invalidationCount - old(invalidationCount) == |Cleared(before, p, i + 1)| - |Cleared(before, p, i)|
      ensures setRecvCount - old(setRecvCount) == |Windows(p, i + 1)| - |Windows(p, i)|
    {
      if i + 4 <= |p| && p[i..i + 4] == SET_PREFIX {
        SetStepNamed(before, p, i);
        ClearedCount(before, p, i, SetSlot(p, i));
        InvalidateWindow(p, i);
      } else {
        ClearedUnnamed(before, p, i);
      }
    }

    /** The entry of the key behind the "set " window at `i`. */
    method InvalidateWindow(p: seq<byte>, i: nat)
      requires Valid() && SetAt(p, i)
      modifies table, `setRecvCount, `invalidationCount
      ensures Valid() && table[..] == old(table[..])[SetSlot(p, i) := old(table[SetSlot(p, i)]).(valid := false)]
      ensures invalidationCount == old(invalidationCount) + (if old(table[SetSlot(p, i)].valid) then 1 else 0)
      ensures setRecvCount == old(setRecvCount) + 1
    {
      setRecvCount := setRecvCount + 1;
      var hash, e := ScanKey(p, i + 4, |p|, false);
      var idx := SlotOf(hash);
      if table[idx].valid {
        invalidationCount := invalidationCount + 1;
        table[idx] := table[idx].(valid := false);
      }
    }

    /** What other CPUs do to the cache meanwhile. */
    method Perform(es: seq<Event>)
      requires Valid() && IsHistory(es)
      modifies this, table
      ensures Valid() && table[..] == AdvanceFirst(old(table[..]), es, |es|)
    {
      ghost var before := table[..];
      var k := 0;
      while k < |es|
        invariant k <= |es| && Valid() && table[..] == AdvanceFirst(before, es, k)
      {
        PerformOne(es[k]);
        k := k + 1;
      }
    }

    method PerformOne(e: Event)
      requires Valid() && (e.Fill? ==> IsResponse(e.r))
      modifies this, table
      ensures Valid() && table[..] == Advance(old(table[..]), e)
    {
      match e {
        case Fill(r) => var _ := Update(r);
        case Set(p) => Invalidate(p);
        case Get(_) =>
      }
    }

    /** The first locked section of `hash_key`. */
    method ProbeKey(hash: nat) returns (hit: bool)
      requires Valid()
      ensures hit == (table[hash % 3250000].valid && table[hash % 3250000].hash == hash)
    {
      var e := table[SlotOf(hash)];
      return e.valid && e.hash == hash;
    }

    /** The locked section of `write_pkt_reply`. */
    method LookupKey(key: seq<byte>, hash: nat) returns (reply: Option<seq<byte>>)
      requires Valid() && hash == Fnv(key)
      modifies `hitMisprediction
      ensures reply == Lookup(table[..], key)
      ensures var e := table[hash % 3250000];
              reply == if e.valid && e.hash == hash && |key| < 230 && forall i :: 0 <= i < |key| ==> e.data[6 + i] == key[i]
                       then Some(e.data[..e.len] + [0x45, 0x4E, 0x44, 0x0D, 0x0A]) else None
      ensures hitMisprediction == old(hitMisprediction) +
                (if Probe(table[..], key) && |key| < BMC_MAX_KEY_LENGTH && reply.None? then 1 else 0)
    {
      var e := table[SlotOf(hash)];
      if !e.valid || e.hash != hash || |key| >= BMC_MAX_KEY_LENGTH {
        return None;
      }
      var i := 0;
      while i < |key|
        invariant i <= |key|
        invariant forall j :: 0 <= j < i ==> e.data[6 + j] == key[j]
      {
        if e.data[6 + i] != key[i] {
          hitMisprediction := hitMisprediction + 1;
          return None;
        }
        i := i + 1;
      }
      return Some(e.data[..e.len] + END_LINE);
    }
  }

  ghost function Windows(p: seq<byte>, n: nat): set<nat> { set i: nat | i < n && SetAt(p, i) }

  lemma CopyEndUnique(r: Response, n: nat, n': nat)
    requires CopyEnds(r, n) && CopyEnds(r, n')
    ensures n == n'
  {
  }

  /** The slots that were valid and that one of the first `n` windows names. */
  ghost function Cleared(t: seq<CacheEntry>, p: seq<byte>, n: nat): set<nat> {
    set s: nat | s < |t| && t[s].valid && NamedWithin(p, n, s)
  }

  /** The bytes from `a` to `e` are a key as a SET names it: up to the next space or the end. */
  predicate KeySpan(p: seq<byte>, a: nat, e: nat) {
    a <= e <= |p| && (forall i :: a <= i < e ==> p[i] != 0x20) && (e < |p| ==> p[e] == 0x20)
  }

  /** "set " stands at `i`, and the key behind it belongs to slot `s`. */
  predicate SetsSlot(p: seq<byte>, i: nat, e: nat, s: nat) {
    SetBytesAt(p, i) && KeySpan(p, i + 4, e) && Fnv(p[i + 4..e]) % 3250000 == s
  }

  lemma NamesAtIff(p: seq<byte>, i: nat, s: nat)
    ensures NamesAt(p, i, s) <==> exists e: nat :: SetsSlot(p, i, e, s)
  {
    SetAtIff(p, i);
    if SetAt(p, i) {
      var e := ScanEnd(p, i + 4, |p|, false);
      HashOfKeyAt(p, i + 4, p[i + 4..e]);
      assert KeySpan(p, i + 4, e);
      if NamesAt(p, i, s) { assert SetsSlot(p, i, e, s); }
      if e': nat :| SetsSlot(p, i, e', s) { ScanEndUnique(p, i + 4, |p|, false, e, e'); }
    }
  }

  /** What a SET does, from the bytes of its payload: an entry stops being valid exactly when the
      key behind some "set " belongs to its slot, and nothing else changes. */
  lemma SetStepIff(t: seq<CacheEntry>, p: seq<byte>, s: nat)
    requires s < |t|
    ensures var e := SetStep(t, p)[s];
            e == if exists i: nat, end: nat :: SetsSlot(p, i, end, s) then t[s].(valid := false) else t[s]
  {
    if Named(p, s) {
      var i: nat :| i < |p| && NamesAt(p, i, s);
      NamesAtIff(p, i, s);
      var e: nat :| SetsSlot(p, i, e, s);
      assert SetsSlot(p, i, e, s);
    } else {
      forall i: nat, e: nat ensures !SetsSlot(p, i, e, s) { NamesAtIff(p, i, s); }
    }
  }

  lemma WindowsAreSets(p: seq<byte>, n: nat)
    ensures Windows(p, n) == set i: nat | i < n && SetBytesAt(p, i)
  {
    forall i: nat | i < n ensures SetAt(p, i) <==> SetBytesAt(p, i) { SetAtIff(p, i); }
  }

  /** A payload without the four bytes "set " changes no entry. */
  lemma NoSetNoChange(t: seq<CacheEntry>, p: seq<byte>)
    requires forall i: nat :: !SetBytesAt(p, i)
    ensures SetStep(t, p) == t
  {
    forall s | 0 <= s < |t| ensures !NamedWithin(p, |p|, s) {
      forall i | 0 <= i < |p| ensures !NamesAt(p, i, s) {
        SetAtIff(p, i);
        assert !SetBytesAt(p, i);
      }
    }
  }

  lemma ClearedUnnamed(t: seq<CacheEntry>, p: seq<byte>, n: nat)
    requires !SetAt(p, n)
    ensures SetStepWithin(t, p, n + 1) == SetStepWithin(t, p, n)
    ensures Cleared(t, p, n + 1) == Cleared(t, p, n)
    ensures Windows(p, n + 1) == Windows(p, n)
  {
    forall s ensures NamedWithin(p, n + 1, s) <==> NamedWithin(p, n, s) { NamedExtend(p, n, s); }
  }

  lemma SetStepNamed(t: seq<CacheEntry>, p: seq<byte>, n: nat)
    requires SetAt(p, n) && |t| == BMC_CACHE_ENTRY_COUNT
    ensures var s, within := SetSlot(p, n), SetStepWithin(t, p, n);
            SetStepWithin(t, p, n + 1) == within[s := within[s].(valid := false)]
  {
    forall s ensures NamedWithin(p, n + 1, s) <==> NamedWithin(p, n, s) || s == SetSlot(p, n) { NamedExtend(p, n, s); }
  }

  lemma ClearedNamed(t: seq<CacheEntry>, p: seq<byte>, n: nat, s: nat)
    requires SetAt(p, n) && |t| == BMC_CACHE_ENTRY_COUNT && s == SetSlot(p, n)
    ensures Cleared(t, p, n + 1) == if t[s].valid then Cleared(t, p, n) + {s} else Cleared(t, p, n)
    ensures Windows(p, n + 1) == Windows(p, n) + {n}
  {
    forall s' ensures NamedWithin(p, n + 1, s') <==> NamedWithin(p, n, s') || s' == s { NamedExtend(p, n, s'); }
  }

  lemma ClearedCount(t: seq<CacheEntry>, p: seq<byte>, n: nat, s: nat)
    requires SetAt(p, n) && |t| == BMC_CACHE_ENTRY_COUNT && s == SetSlot(p, n)
    ensures |Cleared(t, p, n + 1)| == |Cleared(t, p, n)| + (if SetStepWithin(t, p, n)[s].valid then 1 else 0)
    ensures |Windows(p, n + 1)| == |Windows(p, n)| + 1
  {
    ClearedNamed(t, p, n, s);
    AddedOne(Cleared(t, p, n), s);
    AddedOne(Windows(p, n), n);
  }

  lemma AddedOne(a: set<nat>, x: nat)
    ensures |a + {x}| == |a| + (if x in a then 0 else 1)
  {
    if x in a { assert a + {x} == a; }
  }

  lemma NamedExtend(p: seq<byte>, n: nat, s: nat)
    ensures NamedWithin(p, n + 1, s) <==> NamedWithin(p, n, s) || NamesAt(p, n, s)
  {
    if NamedWithin(p, n + 1, s) {
      var i :| 0 <= i < n + 1 && NamesAt(p, i, s);
      assert i < n ==> NamedWithin(p, n, s);
    }
  }
}
