/** From the client's command to the frame that comes back, over whole runs of the cache of
    `samples/bmc/src/main.rs`. */

module BmcEndToEnd {
  import opened Bytes
  import opened BmcText
  import opened BmcCache
  import opened BmcCoherence
  import opened BmcPacket
  import opened Options

  /** The three differently bounded loops compute one hash and one slot for a key: for the key of
      any GET, any SET of it and any response for it. */
  lemma SlotAgreement(f: seq<byte>, p: seq<byte>, i: nat, r: Response)
    requires ParseGet(f).One? && |ParseGet(f).key| <= MAX_CACHED_KEY
    requires SetOfAt(p, i, ParseGet(f).key) && ResponseFor(r, ParseGet(f).key)
    ensures !ScanPanics(r) && ParseGet(f).hash == ResponseHash(r)
    ensures SetSlot(p, i) == ResponseSlot(r) == SlotOf(ParseGet(f).hash)
  {
    ParsedHash(f);
    SetAgrees(p, i, ParseGet(f).key);
    ResponseAgrees(r, ParseGet(f).key);
  }

  /** The frame sent back on a hit carries, behind the headers, a reply of the server for the
      key, byte for byte, that was seen after the last SET of the key. */
  lemma AnswerIsServerReply(h: seq<Event>, ts: seq<seq<CacheEntry>>, n: nat, keys: set<seq<byte>>,
                            f: seq<byte>, at: nat, key: seq<byte>, pool: seq<byte>, data: seq<byte>, v: Verdict)
    returns (i: nat)
    requires IsRun(h, ts) && n <= |h| && KeysApart(keys) && WholeReplies(h, ts, keys) && key in keys
    requires UDP_PAYLOAD + 4 <= at <= |f| && |pool| >= BMC_MAX_PACKET_LENGTH
    requires Lookup(ts[n], key).Some? && Answered(ts[n], f, at, key, true, pool, data, v)
    ensures v == Tx && Current(h, i, n, key)
    ensures |data| == at - 4 + |h[i].r.payload| && data[at - 4..] == h[i].r.payload
  {
    HitIsServerReply(h, ts, n, keys, key);
    i :| Current(h, i, n, key) && Lookup(ts[n], key) == Some(h[i].r.payload);
    var stored := Stored(ts[n][SlotOf(Fnv(key))]);
    ReplyPayload(Returned(f), at, stored, GrownTail(pool, Padding(f, at, stored)));
  }

  /** The frame comes back as it was sent, with its addresses exchanged. */
  ghost predicate Bounced(f: seq<byte>, data: seq<byte>, v: Verdict)
    requires |f| >= UDP_PAYLOAD
  {
    v == Tx && data == Returned(f)
  }

  /** The way of a GET that the client printed with `wrap_get_command`, from the client's bytes:
      the first lookup sees the table after `m` packets, the second that after `n`. Where the key
      is not held at first the frame passes unmodified. Where it is held at both it is answered
      with a reply of the server, seen after the last SET of the key. */
  lemma CommandIsAnswered(h: seq<Event>, ts: seq<seq<CacheEntry>>, m: nat, n: nat, keys: set<seq<byte>>,
                          headers: seq<byte>, key: seq<byte>, seqNo: nat, trailer: seq<byte>,
                          pool: seq<byte>, data: seq<byte>, v: Verdict)
    requires PlainRun(h, ts, keys) && WholeReplies(h, ts, keys) && m <= n <= |h| && key in keys
    requires IsGetHeader(headers) && seqNo < 0x1_0000 && |pool| >= BMC_MAX_PACKET_LENGTH
    requires GetHandled(ts[m], ts[n], GetFrame(headers, key, seqNo, trailer), true, pool, data, v)
    ensures !Held(h, ts, m, key) ==> v == Pass && data == GetFrame(headers, key, seqNo, trailer)
    ensures Held(h, ts, m, key) && Held(h, ts, n, key) ==> v == Tx && AnswersFrom(h, n, key, 50, data)
  {
    var f := GetFrame(headers, key, seqNo, trailer);
    GetRoundTrip(headers, key, seqNo, trailer);
    MissIffNotHeld(h, ts, n, keys, key);
    if Held(h, ts, m, key) && Held(h, ts, n, key) {
      var i := AnswerIsServerReply(h, ts, n, keys, f, UDP_PAYLOAD + 4, key, pool, data, v);
      assert Current(h, i, n, key) && data[UDP_PAYLOAD..] == h[i].r.payload;
    }
  }

  /** Where the key is held at the first lookup but not at the second, and exactly there, the
      request itself is bounced to the client. */
  lemma BouncedIff(h: seq<Event>, ts: seq<seq<CacheEntry>>, m: nat, n: nat, keys: set<seq<byte>>,
                   headers: seq<byte>, key: seq<byte>, seqNo: nat, trailer: seq<byte>,
                   pool: seq<byte>, data: seq<byte>, v: Verdict)
    requires PlainRun(h, ts, keys) && WholeReplies(h, ts, keys) && m <= n <= |h| && key in keys
    requires IsGetHeader(headers) && seqNo < 0x1_0000 && |pool| >= BMC_MAX_PACKET_LENGTH
    requires GetHandled(ts[m], ts[n], GetFrame(headers, key, seqNo, trailer), true, pool, data, v)
    ensures |GetFrame(headers, key, seqNo, trailer)| >= UDP_PAYLOAD
    ensures Bounced(GetFrame(headers, key, seqNo, trailer), data, v) <==> Held(h, ts, m, key) && !Held(h, ts, n, key)
  {
    var f := GetFrame(headers, key, seqNo, trailer);
    GetRoundTrip(headers, key, seqNo, trailer);
    CommandLaidOut(headers, key, seqNo, trailer);
    MissIffNotHeld(h, ts, n, keys, key);
    CommandIsAnswered(h, ts, m, n, keys, headers, key, seqNo, trailer, pool, data, v);
    if Held(h, ts, m, key) && Held(h, ts, n, key) {
      var i: nat :| Current(h, i, n, key) && data[UDP_PAYLOAD..] == h[i].r.payload;
      ReplyIsNoRequest(f, h[i].r, data);
    }
  }

  /** From byte `from` on stands a current reply of the server for the key, and nothing else. */
  ghost predicate AnswersFrom(h: seq<Event>, n: nat, key: seq<byte>, from: nat, data: seq<byte>)
    requires n <= |h|
  {
    from <= |data| && exists i: nat :: Current(h, i, n, key) && data[from..] == h[i].r.payload
  }

  lemma MissIffNotHeld(h: seq<Event>, ts: seq<seq<CacheEntry>>, n: nat, keys: set<seq<byte>>, key: seq<byte>)
    requires PlainRun(h, ts, keys) && n <= |h| && key in keys
    ensures Lookup(ts[n], key).Some? <==> Held(h, ts, n, key)
  {
    if Held(h, ts, n, key) {
      var i := ServedIsFirstSince(h, ts, n, keys, key);
    }
  }

  lemma ReplyIsNoRequest(f: seq<byte>, r: Response, data: seq<byte>)
    requires |f| >= UDP_PAYLOAD + 4 && f[UDP_PAYLOAD..UDP_PAYLOAD + 4] == GET_PREFIX
    requires IsResponse(r) && |data| >= UDP_PAYLOAD && data[UDP_PAYLOAD..] == r.payload
    ensures data != Returned(f)
  {
    ReturnedByte(f, UDP_PAYLOAD);
    assert f[UDP_PAYLOAD] == f[UDP_PAYLOAD..UDP_PAYLOAD + 4][0];
    assert data[UDP_PAYLOAD] == r.payload[..6][0] by { assert data[UDP_PAYLOAD..][0] == r.payload[0]; }
  }

  /** For instance: a SET of the key that comes after the first lookup, as the last packet before
      the second. */
  lemma SetBetweenBounces(h: seq<Event>, ts: seq<seq<CacheEntry>>, m: nat, n: nat, keys: set<seq<byte>>,
                          headers: seq<byte>, key: seq<byte>, seqNo: nat, trailer: seq<byte>,
                          pool: seq<byte>, data: seq<byte>, v: Verdict)
    requires PlainRun(h, ts, keys) && WholeReplies(h, ts, keys) && m < n <= |h| && key in keys
    requires Held(h, ts, m, key) && SetComes(h, n - 1, key)
    requires IsGetHeader(headers) && seqNo < 0x1_0000 && |pool| >= BMC_MAX_PACKET_LENGTH
    requires GetHandled(ts[m], ts[n], GetFrame(headers, key, seqNo, trailer), true, pool, data, v)
    ensures |GetFrame(headers, key, seqNo, trailer)| >= UDP_PAYLOAD
    ensures Bounced(GetFrame(headers, key, seqNo, trailer), data, v)
  {
    NotHeldAfter(h, ts, n, keys, key);
    BouncedIff(h, ts, m, n, keys, headers, key, seqNo, trailer, pool, data, v);
  }

  ghost predicate SetComes(h: seq<Event>, j: nat, key: seq<byte>) { j < |h| && h[j].Set? && SetOf(h[j].p, key) }

  lemma NotHeldAfter(h: seq<Event>, ts: seq<seq<CacheEntry>>, n: nat, keys: set<seq<byte>>, key: seq<byte>)
    requires PlainRun(h, ts, keys) && 0 < n <= |h| && key in keys && SetComes(h, n - 1, key)
    ensures !Held(h, ts, n, key)
  {
    SetEndsHold(h, ts, n - 1, key);
  }

  /** From frames: after a TCP frame to port 11211 whose payload sets a key, wherever in it, the
      next GET frame for the key passes unmodified to the server, whatever happens between its
      lookups. */
  lemma SetFrameMissed(h: seq<Event>, ts: seq<seq<CacheEntry>>, n: nat, tcp: seq<byte>,
                       before: seq<byte>, key: seq<byte>, after: seq<byte>,
                       get: seq<byte>, k: nat, t': seq<CacheEntry>, tailOk: bool, pool: seq<byte>, data: seq<byte>, v: Verdict)
    requires IsRun(h, ts) && n < |h| && |tcp| >= 54 && h[n] == Set(tcp[54..])
    requires tcp[54..] == before + [0x73, 0x65, 0x74, 0x20] + key + [0x20] + after
    requires IsKey(key) && |key| <= 230 && k < 202 && KeyBehindSpaces(get, k, key, 0x0D)
    requires IsTable(t') && |pool| >= 1500 && GetHandled(ts[n + 1], t', get, tailOk, pool, data, v)
    ensures v == Pass && data == get
  {
    SetBytesEndHold(h, ts, n, before, key, after);
    GetParsed(get, k, key);
  }

  /** From frames: after the packet that carries the server's reply for a key in use, a GET frame
      for it is answered. */
  lemma ResponseFrameServed(h: seq<Event>, ts: seq<seq<CacheEntry>>, n: nat, keys: set<seq<byte>>, udp: seq<byte>, skbLen: nat,
                            key: seq<byte>, get: seq<byte>, k: nat, pool: seq<byte>, data: seq<byte>, v: Verdict)
    requires PlainRun(h, ts, keys) && WholeReplies(h, ts, keys) && key in keys && n < |h|
    requires ResponseBytes(udp) && skbLen >= |udp| && h[n] == Fill(Response(udp[50..], skbLen))
    requires ResponseFor(h[n].r, key) && Complete(h[n].r)
    requires k < 202 && KeyBehindSpaces(get, k, key, 0x0D) && |pool| >= 1500
    requires GetHandled(ts[n + 1], ts[n + 1], get, true, pool, data, v)
    ensures v == Tx && AnswersFrom(h, n + 1, key, 50 + k, data)
  {
    ResponseHeld(h, ts, n, keys, key);
    HeldIsAnswered(h, ts, n + 1, keys, key, get, k, pool, data, v);
  }

  /** A GET frame for a key that is held at both lookups is answered. */
  lemma HeldIsAnswered(h: seq<Event>, ts: seq<seq<CacheEntry>>, n: nat, keys: set<seq<byte>>,
                       key: seq<byte>, get: seq<byte>, k: nat, pool: seq<byte>, data: seq<byte>, v: Verdict)
    requires PlainRun(h, ts, keys) && WholeReplies(h, ts, keys) && key in keys && n <= |h| && Held(h, ts, n, key)
    requires k < 202 && KeyBehindSpaces(get, k, key, 0x0D) && |pool| >= 1500
    requires GetHandled(ts[n], ts[n], get, true, pool, data, v)
    ensures v == Tx && AnswersFrom(h, n, key, 50 + k, data)
  {
    MissIffNotHeld(h, ts, n, keys, key);
    GetAnswered(ts[n], get, k, key, pool, data, v);
    var i := AnswerIsServerReply(h, ts, n, keys, get, 54 + k, key, pool, data, v);
    assert Current(h, i, n, key) && data[50 + k..] == h[i].r.payload;
  }

  /** A GET frame for a key that the table holds is answered. */
  lemma GetAnswered(t: seq<CacheEntry>, get: seq<byte>, k: nat, key: seq<byte>, pool: seq<byte>, data: seq<byte>, v: Verdict)
    requires IsTable(t) && IsKey(key) && |key| <= 230 && Lookup(t, key).Some?
    requires k < 202 && KeyBehindSpaces(get, k, key, 0x0D) && |pool| >= 1500 && GetHandled(t, t, get, true, pool, data, v)
    ensures |get| >= 54 + k && Answered(t, get, 54 + k, key, true, pool, data, v)
  {
    GetFinds(t, get, k, key);
  }

  lemma GetFinds(t: seq<CacheEntry>, get: seq<byte>, k: nat, key: seq<byte>)
    requires IsTable(t) && IsKey(key) && |key| <= 230 && Lookup(t, key).Some?
    requires k < 202 && KeyBehindSpaces(get, k, key, 0x0D)
    ensures Finds(t, get) && ParseGet(get).at == 54 + k && ParseGet(get).key == key
  {
    GetParsed(get, k, key);
  }

  /** A complete response for a key leaves the key held. */
  lemma ResponseHeld(h: seq<Event>, ts: seq<seq<CacheEntry>>, n: nat, keys: set<seq<byte>>, key: seq<byte>)
    requires PlainRun(h, ts, keys) && key in keys && n < |h| && h[n].Fill? && ResponseFor(h[n].r, key) && Complete(h[n].r)
    ensures Held(h, ts, n + 1, key)
  {
    var s := SlotOf(Fnv(key));
    EntryChange(h, ts, n, s);
    ResponseAgrees(h[n].r, key);
    CopiedIff(h, ts, n, keys, key);
    FilledHash(ts[n][s], h[n].r);
  }

  /** Ethernet pads the request for a key of up to three bytes to 60. The headers announce the
      command only, and so the reply's announce too little: the client loses the end of
      "END\r\n". */
  lemma ShortKeyReplyCut(headers: seq<byte>, key: seq<byte>, seqNo: nat, trailer: seq<byte>, stored: seq<byte>, grown: seq<byte>)
    requires IsGetHeader(headers) && 1 <= |key| <= 3 && seqNo < 0x1_0000 && |trailer| == 4 - |key|
    requires Word(headers[38], headers[39]) == 8 + |GetCommand(key, seqNo)| && |stored| <= 1283
    requires Repliable(GetFrame(headers, key, seqNo, trailer), 54, stored, grown)
    ensures var f := GetFrame(headers, key, seqNo, trailer);
            var r := ReplyFrame(Returned(f), 54, stored, grown);
            var end := 34 + Word(r[38], r[39]);
            && |f| == 60 && 50 <= end <= |r|
            && r[50..end] == stored + [0x45, 0x4E, 0x44, 0x0D, 0x0A][..1 + |key|]
  {
    ShortFrame(headers, key, seqNo, trailer);
    PaddingCutsReply(Returned(GetFrame(headers, key, seqNo, trailer)), stored, grown, |trailer|);
  }

  lemma ShortFrame(headers: seq<byte>, key: seq<byte>, seqNo: nat, trailer: seq<byte>)
    requires IsGetHeader(headers) && 1 <= |key| <= 3 && seqNo < 0x1_0000 && |trailer| == 4 - |key|
    requires Word(headers[38], headers[39]) == 8 + |GetCommand(key, seqNo)|
    ensures |GetFrame(headers, key, seqNo, trailer)| == 60
    ensures var r := Returned(GetFrame(headers, key, seqNo, trailer)); Word(r[38], r[39]) == 26 - |trailer|
  {
    var f := GetFrame(headers, key, seqNo, trailer);
    CommandLaidOut(headers, key, seqNo, trailer);
    assert f[38] == f[..42][38] && f[39] == f[..42][39];
    ReturnedByte(f, 38);
    ReturnedByte(f, 39);
  }
}
