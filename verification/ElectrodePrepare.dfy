/** Prepare acceptance on a follower, `handle_prepare` and `write_buffer` of
    `samples/electrode/src/main.rs`, on decoded message fields. */

module ElectrodePrepare {
  import opened Bytes

  const MAX_DATA_LEN: nat := 64

  datatype Status = Normal | ViewChange | Recovering

  /** The three `u32` fields of the fast header, and the bytes behind it. */
  datatype PrepareMsg = PrepareMsg(view: nat, lastOp: nat, batchStart: nat, data: seq<byte>)

  /** A message and whether the ring buffer has room when it arrives. */
  datatype Delivery = Delivery(msg: PrepareMsg, room: bool)

  datatype Verdict =
    | Pass     // to user space
    | Drop
    | Aborted  // `Err(0)`, which the kernel reads as XDP_ABORTED
    | Reply    // `prepare_fast_reply`

  /** The control state, and the records submitted to `map_prepare_buffer`. */
  datatype Replica = Replica(status: Status, view: nat, lastOp: nat, log: seq<seq<byte>>)

  predicate Accepts(s: Replica, m: PrepareMsg) {
    && s.status == Normal && m.view == s.view
    && s.lastOp < m.lastOp && m.batchStart <= s.lastOp + 1
  }

  predicate Buffers(d: Delivery) { |d.msg.data| >= MAX_DATA_LEN && d.room }

  function Record(d: Delivery): seq<byte>
    requires Buffers(d)
  {
    d.msg.data[..MAX_DATA_LEN]
  }

  function Step(s: Replica, d: Delivery): Replica {
    if !Accepts(s, d.msg) then s
    else s.(lastOp := d.msg.lastOp, log := if Buffers(d) then s.log + [Record(d)] else s.log)
  }

  class Follower {
    var status: Status
    var view: nat
    var lastOp: nat
    var log: seq<seq<byte>>

    constructor (status: Status, view: nat, lastOp: nat)
      ensures State() == Replica(status, view, lastOp, [])
    {
      this.status, this.view, this.lastOp, this.log := status, view, lastOp, [];
    }

    function State(): Replica
      reads this
    {
      Replica(status, view, lastOp, log)
    }

    /** `handle_prepare`; `enough` says whether the packet holds the fast header at all. */
    method HandlePrepare(enough: bool, d: Delivery) returns (v: Verdict)
      modifies this
      ensures State() == if enough then Step(old(State()), d) else old(State())
      ensures status == old(status) && view == old(view)
      ensures lastOp == if enough && old(status) == Normal && d.msg.view == old(view)
                           && d.msg.batchStart - 1 <= old(lastOp) < d.msg.lastOp
                        then d.msg.lastOp else old(lastOp)
      ensures log == if lastOp != old(lastOp) && |d.msg.data| >= 64 && d.room
                     then old(log) + [d.msg.data[..64]] else old(log)
      ensures v == if !enough then Pass
                   else if old(status) != Normal || d.msg.view < old(view) then Drop
                   else if d.msg.view > old(view) then Pass
                   else if d.msg.lastOp <= old(lastOp) then Reply
                   else if d.msg.batchStart - 1 > old(lastOp) || |d.msg.data| < 64 then Pass
                   else if d.room then Reply else Aborted
    {
      if !enough {
        return Pass;
      }
      if status != Normal {
        return Drop;
      }
      if d.msg.view < view {
        return Drop;
      }
      if d.msg.view > view {
        return Pass;
      }
      if d.msg.lastOp <= lastOp {
        return Reply;
      }
      if d.msg.batchStart > lastOp + 1 {
        return Pass;
      }
      lastOp := d.msg.lastOp;
      v := WriteBuffer(d);
    }

    method WriteBuffer(d: Delivery) returns (v: Verdict)
      modifies `log
      ensures log == if |d.msg.data| >= 64 && d.room then old(log) + [d.msg.data[..64]] else old(log)
      ensures v == if |d.msg.data| < 64 then Pass else if d.room then Reply else Aborted
    {
      if |d.msg.data| < MAX_DATA_LEN {
        return Pass;
      }
      if !d.room {
        return Aborted;
      }
      log := log + [d.msg.data[..MAX_DATA_LEN]];
      return Reply;
    }
  }

  // ------------------------------------------------------------ whole runs

  /** The state after the first `n` deliveries, with no update from user space between. */
  function After(s: Replica, h: seq<Delivery>, n: nat): Replica
    requires n <= |h|
  {
    if n == 0 then s else Step(After(s, h, n - 1), h[n - 1])
  }

  ghost predicate AcceptedAt(s: Replica, h: seq<Delivery>, i: nat)
    requires i < |h|
  {
    Accepts(After(s, h, i), h[i].msg)
  }

  lemma {:induction false} Progress(s: Replica, h: seq<Delivery>, m: nat, n: nat)
    requires m <= n <= |h|
    ensures After(s, h, m).lastOp <= After(s, h, n).lastOp
    ensures After(s, h, n).view == s.view && After(s, h, n).status == s.status
    ensures After(s, h, m).log <= After(s, h, n).log
    decreases n
  {
    if m < n {
      Progress(s, h, m, n - 1);
    } else if n > 0 {
      Progress(s, h, n - 1, n - 1);
    }
  }

  /** Which Prepares are accepted: exactly those of the replica's view, in normal status, that go
      past `last_op` and start at most one behind it. */
  lemma RaisedIff(s: Replica, d: Delivery)
    ensures Step(s, d).lastOp > s.lastOp <==>
              s.status == Normal && d.msg.view == s.view && d.msg.batchStart - 1 <= s.lastOp && s.lastOp < d.msg.lastOp
    ensures Step(s, d).lastOp == if Step(s, d).lastOp > s.lastOp then d.msg.lastOp else s.lastOp
  {
  }

  /** The `i`-th delivery starts right behind the operations before it. */
  predicate StartsNext(s: Replica, h: seq<Delivery>, i: nat)
    requires i < |h|
  {
    && h[i].msg.view == s.view && h[i].msg.batchStart <= h[i].msg.lastOp
    && h[i].msg.batchStart == (if i == 0 then s.lastOp else h[i - 1].msg.lastOp) + 1
  }

  /** Prepares that come in order are all accepted. */
  lemma {:induction false} InOrderAccepted(s: Replica, h: seq<Delivery>, n: nat)
    requires n <= |h| && s.status == Normal && forall i: nat :: i < n ==> StartsNext(s, h, i)
    ensures After(s, h, n).lastOp == if n == 0 then s.lastOp else h[n - 1].msg.lastOp
    ensures forall i: nat :: i < n ==> AcceptedAt(s, h, i)
  {
    if n > 0 {
      InOrderAccepted(s, h, n - 1);
      Progress(s, h, 0, n - 1);
      assert StartsNext(s, h, n - 1);
    }
  }

  ghost predicate Covered(s: Replica, h: seq<Delivery>, n: nat, op: nat)
    requires n <= |h|
  {
    exists i :: 0 <= i < n && AcceptedAt(s, h, i) && h[i].msg.batchStart <= op <= h[i].msg.lastOp
  }

  /** Every operation between the first and the current `last_op` lies in the range of some
      Prepare accepted in the replica's view with normal status. */
  lemma {:induction false} NoHoles(s: Replica, h: seq<Delivery>, n: nat, op: nat)
    requires n <= |h| && s.lastOp < op <= After(s, h, n).lastOp
    ensures Covered(s, h, n, op)
    ensures s.status == Normal && exists i :: 0 <= i < n && AcceptedAt(s, h, i) && h[i].msg.view == s.view
  {
    Progress(s, h, 0, n - 1);
    var before := After(s, h, n - 1);
    if op <= before.lastOp {
      NoHoles(s, h, n - 1, op);
      var i :| 0 <= i < n - 1 && AcceptedAt(s, h, i) && h[i].msg.batchStart <= op <= h[i].msg.lastOp;
      assert AcceptedAt(s, h, i);
    } else {
      assert AcceptedAt(s, h, n - 1);
    }
  }

  // ------------------------------------------------------------ the buffer

  /** The deliveries accepted among the first `n`, in order. */
  ghost function Accepted(s: Replica, h: seq<Delivery>, n: nat): (idx: seq<nat>)
    requires n <= |h|
    ensures forall k :: 0 <= k < |idx| ==> idx[k] < n && AcceptedAt(s, h, idx[k])
  {
    if n == 0 then []
    else if AcceptedAt(s, h, n - 1) then Accepted(s, h, n - 1) + [n - 1]
    else Accepted(s, h, n - 1)
  }

  ghost predicate Lists(idx: seq<nat>, i: nat) { exists k :: 0 <= k < |idx| && idx[k] == i }

  lemma ListsSnoc(idx: seq<nat>, last: nat, i: nat)
    ensures Lists(idx + [last], i) <==> Lists(idx, i) || i == last
  {
    var more := idx + [last];
    if Lists(idx, i) {
      var k :| 0 <= k < |idx| && idx[k] == i;
      assert more[k] == i;
    }
    assert more[|idx|] == last;
  }

  /** The list holds exactly the accepted deliveries, each once and in order. */
  lemma {:induction false} AcceptedExact(s: Replica, h: seq<Delivery>, n: nat, i: nat)
    requires i < n <= |h|
    ensures AcceptedAt(s, h, i) <==> Lists(Accepted(s, h, n), i)
    ensures forall j, k :: 0 <= j < k < |Accepted(s, h, n)| ==> Accepted(s, h, n)[j] < Accepted(s, h, n)[k]
  {
    var m := n - 1;
    if i < m { AcceptedExact(s, h, m, i); } else if m > 0 { AcceptedExact(s, h, m, 0); }
    if AcceptedAt(s, h, m) { ListsSnoc(Accepted(s, h, m), m, i); }
  }

  /** The accepted deliveries raise `last_op` strictly. */
  lemma AcceptedRaise(s: Replica, h: seq<Delivery>, n: nat, j: nat, k: nat)
    requires n <= |h| && j < k < |Accepted(s, h, n)|
    ensures h[Accepted(s, h, n)[j]].msg.lastOp < h[Accepted(s, h, n)[k]].msg.lastOp
  {
    AcceptedExact(s, h, n, 0);
    var a, b := Accepted(s, h, n)[j], Accepted(s, h, n)[k];
    assert AcceptedAt(s, h, a) && AcceptedAt(s, h, b);
    Progress(s, h, a + 1, b);
  }

  /** The records of those accepted deliveries that are long enough and find room. */
  ghost function Records(s: Replica, h: seq<Delivery>, n: nat): seq<seq<byte>>
    requires n <= |h|
  {
    if n == 0 then []
    else if AcceptedAt(s, h, n - 1) && Buffers(h[n - 1]) then Records(s, h, n - 1) + [Record(h[n - 1])]
    else Records(s, h, n - 1)
  }

  lemma {:induction false} BufferIsRecords(s: Replica, h: seq<Delivery>, n: nat)
    requires n <= |h|
    ensures After(s, h, n).log == s.log + Records(s, h, n)
  {
    if n > 0 {
      BufferIsRecords(s, h, n - 1);
    }
  }

  ghost predicate AllBuffer(s: Replica, h: seq<Delivery>, n: nat)
    requires n <= |h|
  {
    forall i :: 0 <= i < n && AcceptedAt(s, h, i) ==> Buffers(h[i])
  }

  lemma {:induction false} RecordsCount(s: Replica, h: seq<Delivery>, n: nat)
    requires n <= |h|
    ensures |Records(s, h, n)| <= |Accepted(s, h, n)|
    ensures |Records(s, h, n)| == |Accepted(s, h, n)| <==> AllBuffer(s, h, n)
  {
    if n > 0 {
      RecordsCount(s, h, n - 1);
      AllBufferStep(s, h, n - 1);
    }
  }

  lemma AllBufferStep(s: Replica, h: seq<Delivery>, n: nat)
    requires n < |h|
    ensures AllBuffer(s, h, n + 1) <==> AllBuffer(s, h, n) && (AcceptedAt(s, h, n) ==> Buffers(h[n]))
  {
  }

  lemma {:induction false} RecordsMatch(s: Replica, h: seq<Delivery>, n: nat, k: nat)
    requires n <= |h| && AllBuffer(s, h, n) && k < |Accepted(s, h, n)|
    ensures |Records(s, h, n)| == |Accepted(s, h, n)|
    ensures Records(s, h, n)[k] == Record(h[Accepted(s, h, n)[k]])
  {
    RecordsCount(s, h, n);
    var m := n - 1;
    RecordsCount(s, h, m);
    AllBufferStep(s, h, m);
    if k < |Accepted(s, h, m)| {
      RecordsMatch(s, h, m, k);
    } else {
      assert Accepted(s, h, n) == Accepted(s, h, m) + [m];
    }
  }

  /** What the buffer gains is the first 64 data bytes of the accepted Prepares, in order
      and all of them, exactly when each carried 64 data bytes and found room. */
  lemma BufferIsLogIff(s: Replica, h: seq<Delivery>, n: nat)
    requires n <= |h|
    ensures s.log <= After(s, h, n).log
    ensures var idx, added := Accepted(s, h, n), After(s, h, n).log[|s.log|..];
            && (|added| == |idx| <==> forall k :: 0 <= k < |idx| ==> HasRoom(h[idx[k]]))
            && (|added| == |idx| ==> forall k :: 0 <= k < |idx| ==> Begins(added[k], h[idx[k]].msg.data))
  {
    BufferIsRecords(s, h, n);
    RecordsCount(s, h, n);
    assert After(s, h, n).log[|s.log|..] == Records(s, h, n);
    AllBufferListed(s, h, n);
    if AllBuffer(s, h, n) {
      forall k | 0 <= k < |Accepted(s, h, n)| ensures Begins(Records(s, h, n)[k], h[Accepted(s, h, n)[k]].msg.data) {
        RecordsMatch(s, h, n, k);
      }
    }
  }

  /** `record` is the first 64 bytes of `data`. */
  predicate Begins(record: seq<byte>, data: seq<byte>) {
    |record| == 64 <= |data| && forall j :: 0 <= j < 64 ==> record[j] == data[j]
  }

  /** There are 64 data bytes, and room for them. */
  predicate HasRoom(d: Delivery) { |d.msg.data| >= 64 && d.room }

  lemma AllBufferListed(s: Replica, h: seq<Delivery>, n: nat)
    requires n <= |h|
    ensures var idx := Accepted(s, h, n);
            AllBuffer(s, h, n) <==> forall k :: 0 <= k < |idx| ==> HasRoom(h[idx[k]])
  {
    var idx := Accepted(s, h, n);
    if AllBuffer(s, h, n) {
      forall k | 0 <= k < |idx| ensures HasRoom(h[idx[k]]) { assert Buffers(h[idx[k]]); }
    } else {
      var i :| 0 <= i < n && AcceptedAt(s, h, i) && !Buffers(h[i]);
      AcceptedExact(s, h, n, i);
      var k :| 0 <= k < |idx| && idx[k] == i;
      assert !HasRoom(h[idx[k]]);
    }
  }

  /** A Prepare that was accepted is never accepted again. In particular one that advanced
      `last_op` but found no room, and was therefore aborted, will not reach the buffer by
      being sent again. */
  lemma NeverAcceptedAgain(s: Replica, h: seq<Delivery>, i: nat, j: nat)
    requires i < j < |h| && AcceptedAt(s, h, i) && h[j].msg == h[i].msg
    ensures !AcceptedAt(s, h, j)
    ensures After(s, h, j + 1) == After(s, h, j)
  {
    Progress(s, h, i + 1, j);
  }
}
