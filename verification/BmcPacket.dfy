/** The GET path of `samples/bmc/src/main.rs` on whole frames: parsing, and the reply
    written over the request. */

module BmcPacket {
  import opened Bytes
  import opened BmcText
  import opened BmcCache
  import opened Options
  import opened Ipv4Checksum

  const IP: nat := 14
  const UDP: nat := 34
  const PROTOCOL: nat := 23
  const TOT_LEN: nat := 16
  const IP_SRC: nat := 26
  const IP_DST: nat := 30
  const UDP_SRC: nat := 34
  const UDP_DST: nat := 36
  const UDP_LEN: nat := 38
  const UDP_CHECK: nat := 40
  const TCP_DST: nat := 36
  const TCP_PAYLOAD: nat := 54

  const IPPROTO_TCP: byte := 6
  const IPPROTO_UDP: byte := 17
  const MEMCACHED_PORT: nat := 11211

  // ------------------------------------------------------------ parsing

  datatype Parsed =
    | NotGet
    | Panics                             // a slice or index out of range
    | NoKey
    | MoreKeys                           // outside the supported single-key path
    | One(at: nat, key: seq<byte>, hash: nat)  // the key, from offset `at`, and its hash

  /** Where the run of spaces behind "get " ends. */
  function SkipSpaces(f: seq<byte>, off: nat): (e: nat)
    requires UDP_PAYLOAD + off <= |f|
    ensures off <= e && UDP_PAYLOAD + e <= |f|
    ensures off <= BMC_MAX_PACKET_LENGTH ==> e <= BMC_MAX_PACKET_LENGTH
    decreases |f| - off
  {
    if off < BMC_MAX_PACKET_LENGTH && UDP_PAYLOAD + off + 1 < |f| && f[UDP_PAYLOAD + off] == SPACE
    then SkipSpaces(f, off + 1) else off
  }

  predicate IsGet(f: seq<byte>) {
    && |f| >= UDP_PAYLOAD + 4 && f[PROTOCOL] == IPPROTO_UDP
    && Be16(f, UDP_DST) == MEMCACHED_PORT && f[UDP_PAYLOAD..UDP_PAYLOAD + 4] == GET_PREFIX
  }

  /** The key scan of `hash_key`, whose bound comes from an offset kept in a `u8`. */
  function ParseKey(f: seq<byte>, at: nat): Parsed
    requires at <= |f|
  {
    var bound := Min(BMC_MAX_KEY_LENGTH + 1, |f| - at % 256);
    if at + bound > |f| then Panics
    else
      var e := ScanEnd(f, at, at + bound, true);
      if e == at + bound then Panics
      else if e == at then NoKey
      else if f[e] == SPACE then MoreKeys
      else One(at, f[at..e], HashRange(f, at, e))
  }

  /** `xdp_rx_filter` up to the first lookup. */
  function ParseGet(f: seq<byte>): Parsed {
    if |f| < UDP || (f[PROTOCOL] == IPPROTO_UDP && |f| < UDP_PAYLOAD) then Panics
    else if !IsGet(f) then NotGet
    else ParseKey(f, UDP_PAYLOAD + SkipSpaces(f, 4))
  }

  /** The Ethernet, IP and UDP headers of a packet for memcached. */
  predicate IsGetHeader(headers: seq<byte>) {
    |headers| == 42 && headers[23] == 17 && headers[36] == 0x2B && headers[37] == 0xCB
  }

  function GetCommand(key: seq<byte>, seqNo: nat): seq<byte>
    requires seqNo < 0x1_0000
  {
    BeBytes(seqNo) + [0, 0, 0, 1, 0, 0] + ([0x67, 0x65, 0x74, 0x20] + key + [0x0D, 0x0A])
  }

  /** A frame with the client's command, and what the link layer appends to it. */
  function GetFrame(headers: seq<byte>, key: seq<byte>, seqNo: nat, trailer: seq<byte>): seq<byte>
    requires seqNo < 0x1_0000
  {
    headers + GetCommand(key, seqNo) + trailer
  }

  /** `wrap_get_command` of the benchmark client: whatever headers and trailer the bytes travel
      between, the receive filter isolates the key again. */
  method WrapGetCommand(key: seq<byte>, seqNo: nat) returns (bytes: seq<byte>)
    requires seqNo < 0x1_0000
    ensures IsKey(key) && |key| <= BMC_MAX_KEY_LENGTH ==>
              forall headers, trailer :: IsGetHeader(headers) ==>
                ParseGet(headers + bytes + trailer) == One(UDP_PAYLOAD + 4, key, Fnv(key))
  {
    var header: seq<byte> := [0, 0, 0, 1, 0, 0];
    var command := GET_PREFIX + key + [CR, NEWLINE];
    bytes := [seqNo / 256, seqNo % 256];
    bytes := bytes + header;
    bytes := bytes + command;
    if IsKey(key) && |key| <= BMC_MAX_KEY_LENGTH {
      forall headers, trailer | IsGetHeader(headers)
        ensures ParseGet(headers + bytes + trailer) == One(UDP_PAYLOAD + 4, key, Fnv(key))
      {
        GetRoundTrip(headers, key, seqNo, trailer);
      }
    }
  }

  /** The bytes that make a frame a GET: UDP, port 11211, "get ". */
  predicate GetBytes(f: seq<byte>) {
    && |f| >= 54 && f[23] == 17 && f[36] == 0x2B && f[37] == 0xCB
    && f[50] == 0x67 && f[51] == 0x65 && f[52] == 0x74 && f[53] == 0x20
  }

  lemma IsGetIff(f: seq<byte>)
    ensures IsGet(f) <==> GetBytes(f)
  {
    if |f| >= 54 {
      var w := f[50..54];
      assert w[0] == f[50] && w[1] == f[51] && w[2] == f[52] && w[3] == f[53];
      PortIff(f, 36);
    }
  }

  lemma PortIff(f: seq<byte>, at: nat)
    requires at + 2 <= |f|
    ensures Be16(f, at) == 11211 <==> f[at] == 0x2B && f[at + 1] == 0xCB
  {
    var high: int, low: int := f[at], f[at + 1];
    assert 256 * high + low == 11211 ==> high == 43;
  }

  /** Which frames the filter leaves alone as no GET, and on which short ones it panics. */
  lemma NotGetIff(f: seq<byte>)
    ensures ParseGet(f) == NotGet <==> |f| >= 34 && (f[23] == 17 ==> |f| >= 50) && !GetBytes(f)
    ensures |f| < 34 || (f[23] == 17 && |f| < 50) ==> ParseGet(f) == Panics
  {
    IsGetIff(f);
  }

  lemma {:induction false} SpacesSkipped(f: seq<byte>, off: nat, end: nat)
    requires off <= end < 1500 && 50 + end + 1 < |f| && f[50 + end] != 0x20
    requires forall i :: 50 + off <= i < 50 + end ==> f[i] == 0x20
    ensures SkipSpaces(f, off) == end
    decreases end - off
  {
    if off < end { SpacesSkipped(f, off + 1, end); }
  }

  /** Behind "get " stand `k` more spaces, a key, and the byte `stop`. */
  predicate KeyBehindSpaces(f: seq<byte>, k: nat, key: seq<byte>, stop: byte) {
    && GetBytes(f) && 54 + k + |key| < |f| && KeyAt(f, 54 + k, key) && f[54 + k + |key|] == stop
    && forall i :: 54 <= i < 54 + k ==> f[i] == 0x20
  }

  /** A GET of one key is found behind any number of spaces. From 202 of them on, because the
      offset is kept in eight bits, the filter panics instead exactly when fewer than 231 bytes
      are left from the key on. */
  lemma GetParsed(f: seq<byte>, k: nat, key: seq<byte>)
    requires KeyBehindSpaces(f, k, key, 0x0D) && IsKey(key) && |key| <= 230 && k < 1496
    ensures ParseGet(f) == if k >= 202 && |f| < 54 + k + 231 then Panics else One(54 + k, key, Fnv(key))
  {
    IsGetIff(f);
    assert f[54 + k + 0] == key[0];
    SpacesSkipped(f, 4, 4 + k);
    KeyParsed(f, 54 + k, key);
  }

  lemma KeyParsed(f: seq<byte>, at: nat, key: seq<byte>)
    requires IsKey(key) && |key| <= 230 && KeyAt(f, at, key) && at + |key| < |f| && Stops(f[at + |key|], true)
    ensures ParseKey(f, at) == if at >= 256 && |f| < at + 231 then Panics
                               else if f[at + |key|] == 0x20 then MoreKeys else One(at, key, Fnv(key))
  {
    ScanBound(at, |f|);
    if at < 256 || |f| >= at + 231 {
      KeyBounded(f, at, Min(231, |f| - at % 256), key);
    }
  }

  lemma KeyBounded(f: seq<byte>, at: nat, bound: nat, key: seq<byte>)
    requires at <= |f| && bound == Min(231, |f| - at % 256) && at + bound <= |f| && |key| < bound
    requires IsKey(key) && KeyAt(f, at, key) && Stops(f[at + |key|], true)
    ensures ParseKey(f, at) == if f[at + |key|] == 0x20 then MoreKeys else One(at, key, Fnv(key))
  {
    KeyScanned(f, at, bound, key);
  }

  lemma ScanBound(at: nat, len: nat)
    requires at <= len
    ensures Min(231, len - at % 256) == if at < 256 then Min(231, len - at) else 231
  {
    assert at >= 256 ==> at % 256 <= at - 256;
  }

  lemma KeyScanned(f: seq<byte>, at: nat, bound: nat, key: seq<byte>)
    requires IsKey(key) && KeyAt(f, at, key) && |key| < bound && at + bound <= |f| && Stops(f[at + |key|], true)
    ensures ScanEnd(f, at, at + bound, true) == at + |key| && f[at..at + |key|] == key
    ensures HashRange(f, at, at + |key|) == Fnv(key)
  {
    ScanStopsAfterKey(f, at, at + bound, true, key);
    assert f[at..at + |key|] == key;
  }

  /** A second key, or none at all. */
  lemma OtherGetsParsed(f: seq<byte>, key: seq<byte>)
    ensures KeyBehindSpaces(f, 0, key, 0x20) && IsKey(key) && |key| <= 230 ==> ParseGet(f) == MoreKeys
    ensures GetBytes(f) && |f| > 55 && f[54] == 0x0D ==> ParseGet(f) == NoKey
  {
    IsGetIff(f);
    if KeyBehindSpaces(f, 0, key, 0x20) && IsKey(key) && |key| <= 230 {
      assert f[54 + 0] == key[0];
      SpacesSkipped(f, 4, 4);
      KeyParsed(f, 54, key);
    }
    if GetBytes(f) && |f| > 55 && f[54] == 0x0D {
      SpacesSkipped(f, 4, 4);
      ScanEndUnique(f, 54, 54 + Min(231, |f| - 54), true, ScanEnd(f, 54, 54 + Min(231, |f| - 54), true), 54);
    }
  }

  /** Nothing but spaces: the skip stops at the last byte, and beyond offset 255 the key scan
      leaves the frame. */
  lemma SpacesParsed(f: seq<byte>)
    requires GetBytes(f) && |f| <= 1550 && forall i :: 54 <= i < |f| ==> f[i] == 0x20
    ensures ParseGet(f) == if |f| == 54 || |f| > 256 then Panics else NoKey
  {
    IsGetIff(f);
    if |f| > 54 {
      SpacesEnd(f, 4);
      ScanBound(|f| - 1, |f|);
    }
  }

  lemma {:induction false} SpacesEnd(f: seq<byte>, off: nat)
    requires 54 <= 50 + off < |f| <= 1550 && forall i :: 54 <= i < |f| ==> f[i] == 0x20
    ensures 50 + SkipSpaces(f, off) == |f| - 1
    decreases |f| - off
  {
    if 50 + off + 1 < |f| { SpacesEnd(f, off + 1); }
  }

  lemma CommandLaidOut(headers: seq<byte>, key: seq<byte>, seqNo: nat, trailer: seq<byte>)
    requires |headers| == UDP_PAYLOAD - 8 && seqNo < 0x1_0000
    ensures var f := GetFrame(headers, key, seqNo, trailer);
            && |f| == UDP_PAYLOAD + 4 + |key| + 2 + |trailer|
            && f[..UDP_PAYLOAD - 8] == headers && f[UDP_PAYLOAD..UDP_PAYLOAD + 4] == GET_PREFIX
            && KeyAt(f, UDP_PAYLOAD + 4, key) && f[UDP_PAYLOAD + 4 + |key|] == CR
  {
    var f, at := GetFrame(headers, key, seqNo, trailer), UDP_PAYLOAD + 4;
    assert f[at..] == key + [CR, NEWLINE] + trailer;
    forall i | 0 <= i < |key| ensures f[at + i] == key[i] { assert f[at..][i] == key[i]; }
    assert f[at + |key|] == f[at..][|key|];
  }

  /** Parsing undoes printing: a frame that carries the client's command for a key of up to
      230 bytes yields exactly that key and its hash, whatever follows. */
  lemma GetRoundTrip(headers: seq<byte>, key: seq<byte>, seqNo: nat, trailer: seq<byte>)
    requires IsGetHeader(headers) && IsKey(key) && |key| <= BMC_MAX_KEY_LENGTH && seqNo < 0x1_0000
    ensures ParseGet(GetFrame(headers, key, seqNo, trailer)) == One(UDP_PAYLOAD + 4, key, Fnv(key))
  {
    var f := GetFrame(headers, key, seqNo, trailer);
    CommandLaidOut(headers, key, seqNo, trailer);
    assert f[23] == headers[23] && f[36] == headers[36] && f[37] == headers[37];
    var w := f[50..54];
    assert w[0] == f[50] && w[1] == f[51] && w[2] == f[52] && w[3] == f[53];
    GetParsed(f, 0, key);
  }

  // ------------------------------------------------------------ the reply

  /** `f` with the `n` bytes at `a` and at `b` exchanged. */
  function Swap(f: seq<byte>, a: nat, b: nat, n: nat): (r: seq<byte>)
    requires a + n <= b && b + n <= |f|
    ensures |r| == |f|
    ensures forall i :: 0 <= i < |f| ==>
              r[i] == if a <= i < a + n then f[i - a + b] else if b <= i < b + n then f[i - b + a] else f[i]
  {
    f[..a] + f[b..b + n] + f[a + n..b] + f[a..a + n] + f[b + n..]
  }

  lemma SwapStep(f: seq<byte>, a: nat, b: nat, i: nat)
    requires a + i < b && b + i < |f|
    ensures Swap(f, a, b, i)[a + i := f[b + i]][b + i := f[a + i]] == Swap(f, a, b, i + 1)
  {
    var l, r := Swap(f, a, b, i)[a + i := f[b + i]][b + i := f[a + i]], Swap(f, a, b, i + 1);
    forall j | 0 <= j < |f| ensures l[j] == r[j] {}
  }

  /** Link, network and transport addresses exchanged. */
  function Returned(f: seq<byte>): (r: seq<byte>)
    requires |f| >= UDP_PAYLOAD
    ensures |r| == |f|
  {
    Swap(Swap(Swap(f, 0, 6, 6), IP_SRC, IP_DST, 4), UDP_SRC, UDP_DST, 2)
  }

  /** `as u16` of a signed padding, and the wrapping addition to a length field. */
  function AddWrapping(v: nat, padding: int): (r: nat)
    ensures r < 0x1_0000
  {
    (v + padding % 0x1_0000) % 0x1_0000
  }

  /** `bpf_xdp_adjust_tail`: a cut, or growth by bytes that the kernel chooses. */
  function AdjustTail(f: seq<byte>, offset: int, grown: seq<byte>): (r: seq<byte>)
    requires 0 <= |f| + offset && (offset > 0 ==> |grown| == offset)
    ensures |r| == |f| + offset
  {
    if offset <= 0 then f[..|f| + offset] else f + grown
  }

  function GrownTail(pool: seq<byte>, padding: int): seq<byte>
    requires padding <= |pool|
  {
    if padding > 0 then pool[..padding] else []
  }

  /** How far the tail moves when the key stands at `at`, with `stored` to be sent. */
  function Padding(f: seq<byte>, at: nat, stored: seq<byte>): int { |stored| - (|f| - at) + 1 }

  /** A request whose key stands at `at`, and the bytes of its grown tail. */
  predicate Repliable(f: seq<byte>, at: nat, stored: seq<byte>, grown: seq<byte>) {
    && UDP_PAYLOAD + 4 <= at <= |f|
    && (Padding(f, at, stored) > 0 ==> |grown| == Padding(f, at, stored))
  }

  /** The frame being rewritten: `xdp_md`. */
  class Frame {
    var data: seq<byte>

    constructor (f: seq<byte>)
      ensures data == f
    {
      data := f;
    }

    /** Assignment through a slice of the frame. */
    method Write(at: nat, s: seq<byte>)
      requires at + |s| <= |data|
      modifies this
      ensures data == Put(old(data), at, s)
    {
      data := Put(data, at, s);
    }

    method SwapFields(a: nat, b: nat, n: nat)
      requires a + n <= b && b + n <= |data|
      modifies this
      ensures data == Swap(old(data), a, b, n)
    {
      ghost var before := data;
      var i := 0;
      assert data == Swap(before, a, b, 0);
      while i < n
        invariant i <= n && data == Swap(before, a, b, i)
      {
        var x, y := data[a + i], data[b + i];
        assert x == before[a + i] && y == before[b + i];
        SwapStep(before, a, b, i);
        data := data[a + i := y][b + i := x];
        i := i + 1;
      }
    }

    method TurnAround()
      requires |data| >= UDP_PAYLOAD
      modifies this
      ensures data == Returned(old(data))
    {
      SwapFields(0, 6, 6);
      SwapFields(IP_SRC, IP_DST, 4);
      SwapFields(UDP_SRC, UDP_DST, 2);
    }

    /** The length and checksum fields, after the tail has moved by `padding`. */
    method WriteHeaders(padding: int)
      requires |data| >= UDP_PAYLOAD
      modifies this
      ensures data == ReplyHeaders(old(data), padding)
    {
      ghost var f := data;
      Write(TOT_LEN, BeBytes(AddWrapping(Be16(data, TOT_LEN), padding)));
      ghost var lengthened := data;
      Write(IP + CHECK, [0, 0]);
      Write(IP + CHECK, LeBytes(Checksum(data[IP..UDP])));
      ghost var stamped := data;
      Write(UDP_LEN, BeBytes(AddWrapping(Be16(data, UDP_LEN), padding)));
      Write(UDP_CHECK, [0, 0]);
      WrittenHeaders(f, padding, lengthened, stamped);
    }

    method WritePayload(from: nat, stored: seq<byte>)
      requires from + |stored| + |END_LINE| <= |data|
      modifies this
      ensures data == WithPayload(old(data), from, stored)
    {
      Write(from, stored);
      WriteEnd(from + |stored|);
      LaidOut(old(data), from, stored);
    }

    method WriteEnd(at: nat)
      requires at + |END_LINE| <= |data|
      modifies this
      ensures data == Put(old(data), at, END_LINE)
    {
      var i := 0;
      while i < |END_LINE|
        invariant i <= |END_LINE| && |data| == old(|data|)
        invariant forall k :: 0 <= k < |data| ==> data[k] == if at <= k < at + i then END_LINE[k - at] else old(data)[k]
      {
        data := data[at + i := END_LINE[i]];
        i := i + 1;
      }
    }

    method Overlay(at: nat, padding: int, stored: seq<byte>)
      requires UDP_PAYLOAD + 4 <= at && |data| == at + |stored| + 1
      modifies this
      ensures data == WithPayload(ReplyHeaders(old(data), padding), at - 4, stored)
    {
      WriteHeaders(padding);
      ghost var headers := data;
      WritePayload(at - 4, stored);
      assert data == WithPayload(headers, at - 4, stored);
    }

    /** The hit branch of `write_pkt_reply`, on a request with its addresses exchanged. */
    method WriteReply(at: nat, stored: seq<byte>, tailOk: bool, grown: seq<byte>) returns (sent: bool)
      requires Repliable(data, at, stored, grown)
      modifies this
      ensures sent == tailOk
      ensures data == if tailOk then ReplyFrame(old(data), at, stored, grown) else old(data)
    {
      var padding := Padding(data, at, stored);
      if !tailOk {
        return false;
      }
      data := AdjustTail(data, padding, grown);
      Overlay(at, padding, stored);
      return true;
    }
  }

  /** The IP header with its new length, still to be stamped. */
  function LengthenedHeader(f: seq<byte>, padding: int): (h: seq<byte>)
    requires |f| >= UDP_PAYLOAD
    ensures |h| == HEADER
  {
    Put(f, TOT_LEN, BeBytes(AddWrapping(Be16(f, TOT_LEN), padding)))[IP..UDP]
  }

  /** Byte `i` of the frame with its headers rewritten for a tail moved by `padding`: both length
      fields grow by it, the IP checksum is that of the new header, and the UDP checksum is off. */
  function HeaderByte(f: seq<byte>, padding: int, i: nat): byte
    requires |f| >= UDP_PAYLOAD && i < |f|
  {
    if TOT_LEN <= i < TOT_LEN + 2 then BeBytes(AddWrapping(Be16(f, TOT_LEN), padding))[i - TOT_LEN]
    else if IP + CHECK <= i < IP + CHECK + 2 then LeBytes(Checksum(LengthenedHeader(f, padding)))[i - (IP + CHECK)]
    else if UDP_LEN <= i < UDP_LEN + 2 then BeBytes(AddWrapping(Be16(f, UDP_LEN), padding))[i - UDP_LEN]
    else if UDP_CHECK <= i < UDP_CHECK + 2 then 0
    else f[i]
  }

  function ReplyHeaders(f: seq<byte>, padding: int): (r: seq<byte>)
    requires |f| >= UDP_PAYLOAD
    ensures |r| == |f|
  {
    seq(|f|, i requires 0 <= i < |f| => HeaderByte(f, padding, i))
  }

  /** The cached bytes and "END\r\n" laid over the frame. */
  function WithPayload(f: seq<byte>, from: nat, stored: seq<byte>): (r: seq<byte>)
    requires from + |stored| + |END_LINE| <= |f|
    ensures |r| == |f|
  {
    seq(|f|, i requires 0 <= i < |f| => if from <= i < from + |stored| + |END_LINE| then (stored + END_LINE)[i - from] else f[i])
  }

  lemma LaidOut(f: seq<byte>, from: nat, stored: seq<byte>)
    requires from + |stored| + |END_LINE| <= |f|
    ensures Put(Put(f, from, stored), from + |stored|, END_LINE) == WithPayload(f, from, stored)
  {
  }

  /** Clearing the field before summing does not matter to the checksum. */
  lemma ClearedFieldSum(a: seq<byte>)
    requires |a| >= UDP_PAYLOAD
    ensures Checksum(Put(a, IP + CHECK, [0, 0])[IP..UDP]) == Checksum(a[IP..UDP])
  {
    var b := Put(a, IP + CHECK, [0, 0]);
    assert b[IP..UDP] == Put(a[IP..UDP], CHECK, [0, 0]);
    assert Put(b[IP..UDP], CHECK, [0, 0]) == b[IP..UDP];
  }

  /** The five writes, in their order, make the rewritten headers. */
  lemma WrittenHeaders(f: seq<byte>, padding: int, lengthened: seq<byte>, stamped: seq<byte>)
    requires |f| >= UDP_PAYLOAD && lengthened == Put(f, TOT_LEN, BeBytes(AddWrapping(Be16(f, TOT_LEN), padding)))
    requires var cleared := Put(lengthened, IP + CHECK, [0, 0]);
             stamped == Put(cleared, IP + CHECK, LeBytes(Checksum(cleared[IP..UDP])))
    ensures Put(Put(stamped, UDP_LEN, BeBytes(AddWrapping(Be16(stamped, UDP_LEN), padding))), UDP_CHECK, [0, 0])
            == ReplyHeaders(f, padding)
  {
    ClearedFieldSum(lengthened);
    assert Be16(stamped, UDP_LEN) == Be16(f, UDP_LEN);
  }

  function ReplyFrame(f: seq<byte>, at: nat, stored: seq<byte>, grown: seq<byte>): (r: seq<byte>)
    requires Repliable(f, at, stored, grown)
    ensures |r| == at - 4 + |stored| + |END_LINE|
  {
    var tailed := AdjustTail(f, Padding(f, at, stored), grown);
    WithPayload(ReplyHeaders(tailed, Padding(f, at, stored)), at - 4, stored)
  }

  // ------------------------------------------------------------ what the client receives

  /** The frame ends with the cached bytes and "END\r\n", and no write falls outside it. */
  lemma ReplyPayload(f: seq<byte>, at: nat, stored: seq<byte>, grown: seq<byte>)
    requires Repliable(f, at, stored, grown)
    ensures |ReplyFrame(f, at, stored, grown)| == at - 4 + |stored| + 5
    ensures ReplyFrame(f, at, stored, grown)[at - 4..] == stored + [0x45, 0x4E, 0x44, 0x0D, 0x0A]
  {
  }

  /** Adding a padding modulo 2^16 gives the new length exactly when the old length was right. */
  lemma WrappingIsExactIff(v: nat, len: nat, padding: int)
    requires v < 0x1_0000 && len < 0x1_0000 && 0 <= len + padding < 0x1_0000
    ensures AddWrapping(v, padding) == len + padding <==> v == len
  {
    WrappingOffset(v, padding);
    WrappingOffset(len, padding);
  }

  lemma WrappingOffset(v: nat, padding: int)
    ensures exists q: int :: AddWrapping(v, padding) == v + padding + q * 0x1_0000
  {
    var low := padding % 0x1_0000;
    assert low == padding - padding / 0x1_0000 * 0x1_0000;
    assert (v + low) % 0x1_0000 == v + low - (v + low) / 0x1_0000 * 0x1_0000;
    var q := -(padding / 0x1_0000) - (v + low) / 0x1_0000;
    assert AddWrapping(v, padding) == v + padding + q * 0x1_0000;
  }

  /** The fields that the reply does not rewrite. */
  predicate Kept(i: nat) {
    i < UDP_PAYLOAD && !(TOT_LEN <= i < TOT_LEN + 2) && !(IP + CHECK <= i < IP + CHECK + 2) && !(UDP_LEN <= i < UDP_CHECK + 2)
  }

  /** The headers of the reply: only the two lengths and the two checksums are rewritten. */
  lemma HeaderFields(f: seq<byte>, padding: int)
    requires |f| >= UDP_PAYLOAD
    ensures var r := ReplyHeaders(f, padding);
            && Be16(r, TOT_LEN) == AddWrapping(Be16(f, TOT_LEN), padding)
            && Be16(r, UDP_LEN) == AddWrapping(Be16(f, UDP_LEN), padding)
            && Be16(r, UDP_CHECK) == 0
            && forall i :: 0 <= i < |f| && Kept(i) ==> r[i] == f[i]
  {
  }

  /** A 16-bit field by its two bytes. */
  function Word(high: int, low: int): int { 256 * high + low }

  /** The lengths that the headers of the reply announce miss its end by as much as those of the
      request missed the end of the request: also when the reply is shorter and the padding is
      added modulo 2^16. In particular they fit exactly when they did before. */
  lemma ReplyLengthsIff(f: seq<byte>, at: nat, stored: seq<byte>, grown: seq<byte>, missed: nat)
    requires Repliable(f, at, stored, grown) && |stored| <= BMC_MAX_CACHE_DATA_SIZE && at <= UDP_PAYLOAD + BMC_MAX_PACKET_LENGTH
    requires |f| < 0x1_0000 && missed <= |END_LINE|
    ensures var r := ReplyFrame(f, at, stored, grown);
            && (Word(r[16], r[17]) == |r| - 14 - missed <==> Word(f[16], f[17]) == |f| - 14 - missed)
            && (Word(r[38], r[39]) == |r| - 34 - missed <==> Word(f[38], f[39]) == |f| - 34 - missed)
  {
    var padding := Padding(f, at, stored);
    ReplyLengthFields(f, at, stored, grown);
    WrappingIsExactIff(Be16(f, TOT_LEN), |f| - IP - missed, padding);
    WrappingIsExactIff(Be16(f, UDP_LEN), |f| - UDP - missed, padding);
  }

  /** What the receiver takes from a reply to a request that was followed by `missed` bytes of
      link-layer padding: as many bytes are cut from the end of "END\r\n". */
  lemma PaddingCutsReply(f: seq<byte>, stored: seq<byte>, grown: seq<byte>, missed: nat)
    requires Repliable(f, UDP_PAYLOAD + 4, stored, grown) && |stored| <= BMC_MAX_CACHE_DATA_SIZE
    requires |f| < 0x1_0000 && missed <= 5 && Word(f[38], f[39]) == |f| - 34 - missed
    ensures var r := ReplyFrame(f, 54, stored, grown);
            var end := 34 + Word(r[38], r[39]);
            50 <= end <= |r| && r[50..end] == stored + [0x45, 0x4E, 0x44, 0x0D, 0x0A][..5 - missed]
  {
    var r := ReplyFrame(f, UDP_PAYLOAD + 4, stored, grown);
    ReplyLengthsIff(f, UDP_PAYLOAD + 4, stored, grown, missed);
    ReplyPayload(f, UDP_PAYLOAD + 4, stored, grown);
    var end := 34 + Word(r[38], r[39]);
    assert r[UDP_PAYLOAD..end] == r[UDP_PAYLOAD..][..end - UDP_PAYLOAD];
    assert (stored + END_LINE)[..end - UDP_PAYLOAD] == stored + END_LINE[..|END_LINE| - missed];
  }

  /** The payload is laid behind the rewritten headers, and the tail moves behind both. */
  lemma ReplyByte(f: seq<byte>, at: nat, stored: seq<byte>, grown: seq<byte>, i: nat)
    requires Repliable(f, at, stored, grown) && i < UDP_PAYLOAD
    ensures var padding := Padding(f, at, stored);
            var tailed := AdjustTail(f, padding, grown);
            ReplyFrame(f, at, stored, grown)[i] == ReplyHeaders(tailed, padding)[i] && tailed[i] == f[i]
  {
  }

  lemma ReplyLengthFields(f: seq<byte>, at: nat, stored: seq<byte>, grown: seq<byte>)
    requires Repliable(f, at, stored, grown)
    ensures var r, padding := ReplyFrame(f, at, stored, grown), Padding(f, at, stored);
            && Be16(r, TOT_LEN) == AddWrapping(Be16(f, TOT_LEN), padding)
            && Be16(r, UDP_LEN) == AddWrapping(Be16(f, UDP_LEN), padding)
  {
    HeaderFields(AdjustTail(f, Padding(f, at, stored), grown), Padding(f, at, stored));
    FieldKept(f, at, stored, grown, TOT_LEN);
    FieldKept(f, at, stored, grown, UDP_LEN);
  }

  lemma FieldKept(f: seq<byte>, at: nat, stored: seq<byte>, grown: seq<byte>, i: nat)
    requires Repliable(f, at, stored, grown) && i + 2 <= UDP_PAYLOAD
    ensures var padding := Padding(f, at, stored);
            var tailed := AdjustTail(f, padding, grown);
            Be16(ReplyFrame(f, at, stored, grown), i) == Be16(ReplyHeaders(tailed, padding), i) && Be16(tailed, i) == Be16(f, i)
  {
    ReplyByte(f, at, stored, grown, i);
    ReplyByte(f, at, stored, grown, i + 1);
  }

  lemma ReplyKeeps(f: seq<byte>, at: nat, stored: seq<byte>, grown: seq<byte>, i: nat)
    requires Repliable(f, at, stored, grown) && Kept(i)
    ensures ReplyFrame(f, at, stored, grown)[i] == f[i]
  {
    HeaderFields(AdjustTail(f, Padding(f, at, stored), grown), Padding(f, at, stored));
    ReplyByte(f, at, stored, grown, i);
  }

  /** Where byte `i` of the returned headers comes from. */
  function Origin(i: nat): nat {
    if i < 6 then i + 6
    else if i < 12 then i - 6
    else if IP_SRC <= i < IP_DST then i + 4
    else if IP_DST <= i < IP_DST + 4 then i - 4
    else if UDP_SRC <= i < UDP_DST then i + 2
    else if UDP_DST <= i < UDP_LEN then i - 2
    else i
  }

  lemma ReturnedByte(f: seq<byte>, i: nat)
    requires |f| >= UDP_PAYLOAD && i < |f|
    ensures Origin(i) < |f| && Returned(f)[i] == f[Origin(i)]
  {
    var a := Swap(f, 0, 6, 6);
    var b := Swap(a, IP_SRC, IP_DST, 4);
    var j := Swapped(UDP_SRC, UDP_DST, 2, i);
    SwappedByte(b, UDP_SRC, UDP_DST, 2, i);
    var k := Swapped(IP_SRC, IP_DST, 4, j);
    SwappedByte(a, IP_SRC, IP_DST, 4, j);
    SwappedByte(f, 0, 6, 6, k);
  }

  /** Where byte `i` comes from in an exchange. */
  function Swapped(a: nat, b: nat, n: nat, i: nat): (j: nat)
    requires a + n <= b
    ensures i < b + n ==> j < b + n
    ensures i >= b + n ==> j == i
  {
    if a <= i < a + n then i - a + b else if b <= i < b + n then i - b + a else i
  }

  lemma SwappedByte(f: seq<byte>, a: nat, b: nat, n: nat, i: nat)
    requires a + n <= b && b + n <= |f| && i < |f|
    ensures Swap(f, a, b, n)[i] == f[Swapped(a, b, n, i)]
  {
  }

  /** The reply goes back where the request came from: link, network and transport addresses
      are exchanged, and the memcached header is the request's. */
  lemma ReplyGoesBack(f: seq<byte>, at: nat, stored: seq<byte>, grown: seq<byte>, i: nat)
    requires Repliable(f, at, stored, grown) && Kept(i)
    ensures ReplyFrame(Returned(f), at, stored, grown)[i] == f[Origin(i)]
  {
    ReplyKeeps(Returned(f), at, stored, grown, i);
    ReturnedByte(f, i);
  }

  /** The `n` bytes of `r` at `a` are those of `f` at `b`. */
  predicate Copied(r: seq<byte>, a: nat, f: seq<byte>, b: nat, n: nat) {
    a + n <= |r| && b + n <= |f| && forall i :: a <= i < a + n ==> r[i] == f[i - a + b]
  }

  /** A frame turned around: link and network addresses and ports exchanged. */
  predicate TurnedAround(f: seq<byte>, r: seq<byte>) {
    && Copied(r, 0, f, 6, 6) && Copied(r, 6, f, 0, 6)
    && Copied(r, 26, f, 30, 4) && Copied(r, 30, f, 26, 4)
    && Copied(r, 34, f, 36, 2) && Copied(r, 36, f, 34, 2)
  }

  lemma ReturnedRange(f: seq<byte>, a: nat, b: nat, n: nat)
    requires |f| >= 50 && a + n <= |f| && b + n <= |f| && forall i: nat :: a <= i < a + n ==> Origin(i) == i - a + b
    ensures Copied(Returned(f), a, f, b, n)
  {
    forall i | a <= i < a + n ensures Returned(f)[i] == f[i - a + b] { ReturnedByte(f, i); }
  }

  lemma ReplyRange(f: seq<byte>, at: nat, stored: seq<byte>, grown: seq<byte>, a: nat, b: nat, n: nat)
    requires Repliable(f, at, stored, grown) && a + n <= 50 && b + n <= 50
    requires forall i: nat :: a <= i < a + n ==> Kept(i) && Origin(i) == i - a + b
    ensures Copied(ReplyFrame(Returned(f), at, stored, grown), a, f, b, n)
  {
    var r := ReplyFrame(Returned(f), at, stored, grown);
    forall i | a <= i < a + n ensures r[i] == f[i - a + b] {
      assert Kept(i) && Origin(i) == i - a + b;
      ReplyGoesBack(f, at, stored, grown, i);
    }
  }

  /** The bounced request: turned around, and otherwise as it came. */
  lemma ReturnedOnWire(f: seq<byte>)
    requires |f| >= 50
    ensures var r := Returned(f);
            |r| == |f| && TurnedAround(f, r) && Copied(r, 12, f, 12, 14) && Copied(r, 38, f, 38, |f| - 38)
  {
    ReturnedRange(f, 0, 6, 6);
    ReturnedRange(f, 6, 0, 6);
    ReturnedRange(f, 26, 30, 4);
    ReturnedRange(f, 30, 26, 4);
    ReturnedRange(f, 34, 36, 2);
    ReturnedRange(f, 36, 34, 2);
    ReturnedRange(f, 12, 12, 14);
    ReturnedRange(f, 38, 38, |f| - 38);
  }

  /** The whole reply to a frame whose key stands at `at`, byte by byte: turned around, with the
      fields between kept, the UDP checksum off, and the cached bytes and "END\r\n" up to its end. */
  lemma ReplyOnWire(f: seq<byte>, at: nat, stored: seq<byte>, grown: seq<byte>)
    requires Repliable(f, at, stored, grown)
    ensures var r := ReplyFrame(Returned(f), at, stored, grown);
            && |r| == at + |stored| + 1 && TurnedAround(f, r)
            && Copied(r, 12, f, 12, 4) && Copied(r, 18, f, 18, 6) && Copied(r, 42, f, 42, 8)
            && r[40] == 0 && r[41] == 0 && r[at - 4..] == stored + [0x45, 0x4E, 0x44, 0x0D, 0x0A]
  {
    ReplyRange(f, at, stored, grown, 0, 6, 6);
    ReplyRange(f, at, stored, grown, 6, 0, 6);
    ReplyRange(f, at, stored, grown, 26, 30, 4);
    ReplyRange(f, at, stored, grown, 30, 26, 4);
    ReplyRange(f, at, stored, grown, 34, 36, 2);
    ReplyRange(f, at, stored, grown, 36, 34, 2);
    ReplyRange(f, at, stored, grown, 12, 12, 4);
    ReplyRange(f, at, stored, grown, 18, 18, 6);
    ReplyRange(f, at, stored, grown, 42, 42, 8);
    ReplyPayload(Returned(f), at, stored, grown);
    UdpChecksumOff(Returned(f), at, stored, grown);
  }

  lemma UdpChecksumOff(f: seq<byte>, at: nat, stored: seq<byte>, grown: seq<byte>)
    requires Repliable(f, at, stored, grown)
    ensures ReplyFrame(f, at, stored, grown)[40] == 0 && ReplyFrame(f, at, stored, grown)[41] == 0
  {
    HeaderFields(AdjustTail(f, Padding(f, at, stored), grown), Padding(f, at, stored));
    ReplyByte(f, at, stored, grown, 40);
    ReplyByte(f, at, stored, grown, 41);
  }

  lemma ReplyIpHeader(f: seq<byte>, at: nat, stored: seq<byte>, grown: seq<byte>)
    requires Repliable(f, at, stored, grown)
    ensures ReplyFrame(f, at, stored, grown)[IP..UDP] == Stamped(LengthenedHeader(f, Padding(f, at, stored)))
  {
    var padding := Padding(f, at, stored);
    var tailed := AdjustTail(f, padding, grown);
    HeaderIsStamped(tailed, padding);
    var r, headers := ReplyFrame(f, at, stored, grown), ReplyHeaders(tailed, padding);
    forall i | 0 <= i < UDP ensures r[i] == headers[i] && tailed[i] == f[i] {
      ReplyByte(f, at, stored, grown, i);
    }
    SameHeader(r, headers);
    SameLengthened(tailed, f, padding);
  }

  lemma SameHeader(f: seq<byte>, g: seq<byte>)
    requires |f| >= UDP && |g| >= UDP && forall i :: 0 <= i < UDP ==> f[i] == g[i]
    ensures f[IP..UDP] == g[IP..UDP]
  {
  }

  lemma SameLengthened(f: seq<byte>, g: seq<byte>, padding: int)
    requires |f| >= UDP_PAYLOAD && |g| >= UDP_PAYLOAD && forall i :: 0 <= i < UDP ==> f[i] == g[i]
    ensures LengthenedHeader(f, padding) == LengthenedHeader(g, padding)
  {
    assert Be16(f, TOT_LEN) == Be16(g, TOT_LEN);
    var bytes := BeBytes(AddWrapping(Be16(f, TOT_LEN), padding));
    SameHeader(Put(f, TOT_LEN, bytes), Put(g, TOT_LEN, bytes));
  }

  /** The IP header of the reply verifies exactly when the checksum folds in one step. */
  lemma ReplyVerifiesIff(f: seq<byte>, at: nat, stored: seq<byte>, grown: seq<byte>)
    requires Repliable(f, at, stored, grown)
    ensures Verifies(ReplyFrame(f, at, stored, grown)[14..34]) <==> FoldsOnce(LengthenedHeader(f, Padding(f, at, stored)))
  {
    ReplyIpHeader(f, at, stored, grown);
    StampedVerifiesIff(LengthenedHeader(f, Padding(f, at, stored)));
  }

  lemma HeaderIsStamped(f: seq<byte>, padding: int)
    requires |f| >= UDP_PAYLOAD
    ensures ReplyHeaders(f, padding)[IP..UDP] == Stamped(LengthenedHeader(f, padding))
  {
    var r, h := ReplyHeaders(f, padding), LengthenedHeader(f, padding);
    forall k | 0 <= k < HEADER ensures r[IP + k] == Stamped(h)[k] {
      assert r[IP + k] == HeaderByte(f, padding, IP + k);
    }
  }

  // ------------------------------------------------------------ the receive filter

  datatype Verdict = Pass | Drop | Tx | Panic | Unsupported

  method ParseRequest(f: seq<byte>) returns (p: Parsed)
    ensures p == ParseGet(f)
  {
    if |f| < UDP {
      return Panics;
    }
    if f[PROTOCOL] != IPPROTO_UDP {
      return NotGet;
    }
    if |f| < UDP_PAYLOAD {
      return Panics;
    }
    if Be16(f, UDP_DST) != MEMCACHED_PORT || |f| < UDP_PAYLOAD + 4 || f[UDP_PAYLOAD..UDP_PAYLOAD + 4] != GET_PREFIX {
      return NotGet;
    }
    var off := 4;
    while off < BMC_MAX_PACKET_LENGTH && UDP_PAYLOAD + off + 1 < |f| && f[UDP_PAYLOAD + off] == SPACE
      invariant 4 <= off && UDP_PAYLOAD + off <= |f|
      invariant SkipSpaces(f, off) == SkipSpaces(f, 4)
      decreases |f| - off
    {
      off := off + 1;
    }
    p := ParseKeyBytes(f, UDP_PAYLOAD + off);
  }

  /** The scan at the head of `hash_key`. */
  method ParseKeyBytes(f: seq<byte>, at: nat) returns (p: Parsed)
    requires at <= |f|
    ensures p == ParseKey(f, at)
  {
    var bound := Min(BMC_MAX_KEY_LENGTH + 1, |f| - at % 256);
    if at + bound > |f| {
      return Panics;
    }
    var hash, e := ScanKey(f, at, at + bound, true);
    if e == at + bound {
      return Panics;
    }
    if e == at {
      return NoKey;
    }
    return if f[e] == SPACE then MoreKeys else One(at, f[at..e], hash);
  }

  /** What becomes of a request whose key the first lookup found, in a given table. */
  ghost predicate Answered(t: seq<CacheEntry>, f: seq<byte>, at: nat, key: seq<byte>, tailOk: bool, pool: seq<byte>,
                           data: seq<byte>, v: Verdict)
    requires IsTable(t) && UDP_PAYLOAD + 4 <= at <= |f| && |pool| >= BMC_MAX_PACKET_LENGTH
  {
    if Lookup(t, key).None? then data == Returned(f) && v == Tx  // the request itself is bounced
    else if !tailOk then data == Returned(f) && v == Drop
    else
      var stored := Stored(t[SlotOf(Fnv(key))]);
      v == Tx && data == ReplyFrame(Returned(f), at, stored, GrownTail(pool, Padding(f, at, stored)))
  }

  /** The part of `hash_key` behind a potential hit, and `write_pkt_reply`. `pool` supplies the
      bytes of a grown tail. */
  method Answer(cache: Cache, frame: Frame, at: nat, key: seq<byte>, hash: nat, tailOk: bool, pool: seq<byte>)
    returns (v: Verdict)
    requires cache.Valid() && hash == Fnv(key) && UDP_PAYLOAD + 4 <= at <= |frame.data| && |pool| >= BMC_MAX_PACKET_LENGTH
    modifies frame, cache`hitMisprediction
    ensures Answered(cache.table[..], old(frame.data), at, key, tailOk, pool, frame.data, v)
  {
    frame.TurnAround();
    var reply := cache.LookupKey(key, hash);
    if reply.None? {
      return Tx;
    }
    var e := cache.table[SlotOf(hash)];
    var padding := e.len - (|frame.data| - at) + 1;
    var sent := frame.WriteReply(at, e.data[..e.len], tailOk, GrownTail(pool, padding));
    return if sent then Tx else Drop;
  }

  /** The first lookup, in table `t`, finds the key of a GET. */
  predicate Finds(t: seq<CacheEntry>, f: seq<byte>)
    requires IsTable(t)
  {
    ParseGet(f).One? && Probe(t, ParseGet(f).key)
  }

  /** What becomes of a frame that is not TCP, with the first lookup in table `t` and the second
      in table `t'`. Unless the first finds the key the frame passes as it is. */
  ghost predicate GetHandled(t: seq<CacheEntry>, t': seq<CacheEntry>, f: seq<byte>, tailOk: bool, pool: seq<byte>,
                             data: seq<byte>, v: Verdict)
    requires IsTable(t) && IsTable(t') && |pool| >= BMC_MAX_PACKET_LENGTH
  {
    var p := ParseGet(f);
    if Finds(t, f)
    then UDP_PAYLOAD + 4 <= p.at <= |f| && Answered(t', f, p.at, p.key, tailOk, pool, data, v)
    else data == f && v == (if p.Panics? then Panic else if p.MoreKeys? then Unsupported else Pass)
  }

  /** The UDP branch of `xdp_rx_filter`. `between` is what other CPUs do to the cache between the
      two locked sections. */
  method ReceiveGet(cache: Cache, frame: Frame, between: seq<Event>, tailOk: bool, pool: seq<byte>) returns (v: Verdict)
    requires cache.Valid() && IsHistory(between) && |pool| >= BMC_MAX_PACKET_LENGTH && !IsTcp(frame.data)
    modifies frame, cache, cache.table
    ensures cache.Valid()
    ensures cache.table[..] == if Finds(old(cache.table[..]), old(frame.data))
                               then AdvanceFirst(old(cache.table[..]), between, |between|) else old(cache.table[..])
    ensures GetHandled(old(cache.table[..]), cache.table[..], old(frame.data), tailOk, pool, frame.data, v)
  {
    var p := ParseRequest(frame.data);
    if !p.One? {
      return if p.Panics? then Panic else if p.MoreKeys? then Unsupported else Pass;
    }
    ParsedHash(frame.data);
    var probe := cache.ProbeKey(p.hash);
    if !probe {
      return Pass;
    }
    cache.Perform(between);
    v := Answer(cache, frame, p.at, p.key, p.hash, tailOk, pool);
  }

  /** What is handed on as it came: a frame too short for its headers aborts the program, a GET
      of several keys is refused, and what is no GET passes. */
  lemma OthersHandled(t: seq<CacheEntry>, t': seq<CacheEntry>, f: seq<byte>, key: seq<byte>, tailOk: bool, pool: seq<byte>,
                      data: seq<byte>, v: Verdict)
    requires IsTable(t) && IsTable(t') && |pool| >= 1500 && GetHandled(t, t', f, tailOk, pool, data, v)
    ensures |f| < 34 || (f[23] == 17 && |f| < 50) ==> v == Panic && data == f
    ensures |f| >= 34 && (f[23] != 17 || (|f| >= 50 && !GetBytes(f))) ==> v == Pass && data == f
    ensures KeyBehindSpaces(f, 0, key, 0x20) && IsKey(key) && |key| <= 230 ==> v == Unsupported && data == f
    ensures GetBytes(f) && |f| > 55 && f[54] == 0x0D ==> v == Pass && data == f
  {
    NotGetIff(f);
    OtherGetsParsed(f, key);
  }

  /** When the kernel cannot move the tail, a request that would be answered is dropped. */
  lemma TailRefused(t: seq<CacheEntry>, f: seq<byte>, k: nat, key: seq<byte>, pool: seq<byte>, data: seq<byte>, v: Verdict)
    requires IsTable(t) && IsKey(key) && |key| <= 230 && Lookup(t, key).Some? && k < 202 && KeyBehindSpaces(f, k, key, 0x0D)
    requires |pool| >= 1500 && GetHandled(t, t, f, false, pool, data, v)
    ensures v == Drop
  {
    GetParsed(f, k, key);
  }

  predicate IsTcp(f: seq<byte>) { |f| >= UDP && f[PROTOCOL] == IPPROTO_TCP }

  /** The table after a TCP frame: one for memcached with at least four bytes of payload is taken
      for a SET. */
  ghost function AfterTcp(t: seq<CacheEntry>, f: seq<byte>): seq<CacheEntry>
    requires IsTable(t) && IsTcp(f)
  {
    if |f| >= TCP_PAYLOAD + 4 && Be16(f, TCP_DST) == MEMCACHED_PORT then SetStep(t, f[TCP_PAYLOAD..]) else t
  }

  method ReceiveTcp(cache: Cache, f: seq<byte>) returns (v: Verdict)
    requires cache.Valid() && IsTcp(f) && |f| >= 34
    modifies cache, cache.table
    ensures cache.Valid() && cache.table[..] == AfterTcp(old(cache.table[..]), f)
    ensures cache.table[..] == if |f| >= 58 && f[36] == 0x2B && f[37] == 0xCB
                               then Advance(old(cache.table[..]), Set(f[54..])) else old(cache.table[..])
    ensures v == if |f| < 54 then Panic else Pass
  {
    if |f| >= 38 { PortIff(f, 36); }
    if |f| < TCP_PAYLOAD {
      return Panic;
    }
    if Be16(f, TCP_DST) != MEMCACHED_PORT || |f| - TCP_PAYLOAD < 4 {
      return Pass;
    }
    cache.Invalidate(f[TCP_PAYLOAD..]);
    return Pass;
  }

  /** `xdp_rx_filter`. A TCP frame passes unchanged, and is a SET to the cache exactly when it goes
      to port 11211 with at least four bytes of payload; all others leave the table to what other
      CPUs do. */
  method Receive(cache: Cache, frame: Frame, between: seq<Event>, tailOk: bool, pool: seq<byte>) returns (v: Verdict)
    requires cache.Valid() && IsHistory(between) && |pool| >= BMC_MAX_PACKET_LENGTH
    modifies frame, cache, cache.table
    ensures cache.Valid()
    ensures var f, t := old(frame.data), old(cache.table[..]);
            if |f| >= 34 && f[23] == 6
            then
              && frame.data == f && v == (if |f| < 54 then Panic else Pass)
              && cache.table[..] == (if |f| >= 58 && f[36] == 0x2B && f[37] == 0xCB then Advance(t, Set(f[54..])) else t)
            else
              && cache.table[..] == (if Finds(t, f) then AdvanceFirst(t, between, |between|) else t)
              && GetHandled(t, cache.table[..], f, tailOk, pool, frame.data, v)
  {
    if |frame.data| >= UDP && frame.data[PROTOCOL] == IPPROTO_TCP {
      v := ReceiveTcp(cache, frame.data);
    } else {
      v := ReceiveGet(cache, frame, between, tailOk, pool);
    }
  }

  /** `xdp_tx_filter`, on the linear bytes of a packet of `skbLen` bytes. It is a response to the
      cache exactly when it comes from port 11211 over UDP and its payload starts with "VALUE ". */
  method Transmit(cache: Cache, f: seq<byte>, skbLen: nat) returns (v: Verdict)
    requires cache.Valid() && skbLen >= |f|
    modifies cache, cache.table
    ensures cache.Valid()
    ensures cache.table[..] == if ResponseBytes(f) then Advance(old(cache.table[..]), Fill(Response(f[50..], skbLen)))
                               else old(cache.table[..])
    ensures v == Pass || v == Panic
    ensures !ResponseBytes(f) ==> (v == Panic <==> skbLen > 50 && (|f| < 34 || (f[23] == 17 && |f| < 42)))
    ensures ResponseBytes(f) ==>
              (v == Panic <==> |f| < 280 && |f| < skbLen && forall i :: 56 <= i < |f| ==> f[i] != 0x20)
  {
    ResponseBytesIff(f, skbLen);
    if skbLen <= UDP_PAYLOAD {
      return Pass;
    }
    if |f| < UDP {
      return Panic;
    }
    if f[PROTOCOL] != IPPROTO_UDP {
      return Pass;
    }
    if |f| < UDP + 8 {
      return Panic;
    }
    if Be16(f, UDP_SRC) != MEMCACHED_PORT || |f| < UDP_PAYLOAD + 6 || f[UDP_PAYLOAD..UDP_PAYLOAD + 6] != VALUE_PREFIX {
      return Pass;
    }
    var ok := cache.Update(Response(f[UDP_PAYLOAD..], skbLen));
    return if ok then Pass else Panic;
  }

  predicate ResponseBytes(f: seq<byte>) {
    && |f| >= 56 && f[23] == 17 && f[34] == 0x2B && f[35] == 0xCB
    && f[50..56] == [0x56, 0x41, 0x4C, 0x55, 0x45, 0x20]
  }

  lemma ResponseBytesIff(f: seq<byte>, skbLen: nat)
    requires skbLen >= |f|
    ensures |f| >= 42 ==> (Be16(f, UDP_SRC) == MEMCACHED_PORT <==> f[34] == 0x2B && f[35] == 0xCB)
    ensures ResponseBytes(f) ==> IsResponse(Response(f[50..], skbLen))
    ensures ResponseBytes(f) ==>
              (ScanPanics(Response(f[50..], skbLen)) <==>
                |f| < 280 && |f| < skbLen && forall i :: 56 <= i < |f| ==> f[i] != 0x20)
  {
    if |f| >= 42 { PortIff(f, 34); }
    if ResponseBytes(f) {
      var r := Response(f[50..], skbLen);
      assert r.payload[..6] == f[50..56];
      ScanPanicsIff(r);
      if forall i :: 56 <= i < |f| ==> f[i] != 0x20 {
        forall i | 6 <= i < |r.payload| ensures r.payload[i] != 0x20 { assert r.payload[i] == f[50 + i]; }
      }
      if forall i :: 6 <= i < |r.payload| ==> r.payload[i] != 0x20 {
        forall i | 56 <= i < |f| ensures f[i] != 0x20 { assert r.payload[i - 50] == f[i]; }
      }
    }
  }

  /** The key of a parsed GET is one, and comes with its hash. */
  lemma ParsedHash(f: seq<byte>)
    requires ParseGet(f).One?
    ensures ParseGet(f).hash == Fnv(ParseGet(f).key) && IsKey(ParseGet(f).key)
    ensures UDP_PAYLOAD + 4 <= ParseGet(f).at <= |f| && ParseGet(f).at <= UDP_PAYLOAD + BMC_MAX_PACKET_LENGTH
  {
    OneKey(f, UDP_PAYLOAD + SkipSpaces(f, 4));
  }

  lemma OneKey(f: seq<byte>, at: nat)
    requires at <= |f| && ParseKey(f, at).One?
    ensures var p := ParseKey(f, at); p.at == at && p.hash == Fnv(p.key) && IsKey(p.key)
  {
    var bound := Min(BMC_MAX_KEY_LENGTH + 1, |f| - at % 256);
    var e := ScanEnd(f, at, at + bound, true);
    HashOfKeyAt(f, at, f[at..e]);
    forall i | 0 <= i < e - at ensures f[at..e][i] != 0x20 && f[at..e][i] != 0x0D { assert !Stops(f[at + i], true); }
  }
}
