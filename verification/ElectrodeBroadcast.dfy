/** The self-cloning egress broadcast of `samples/electrode/src/main.rs`. */

module ElectrodeBroadcast {
  import opened Bytes

  const SP_S: byte := 0x73
  const SP_P: byte := 0x70
  const MARK: byte := 0x4D  // 'M', in place of 'p' while a clone is on its way

  const FAST_REPLICA_MAX: nat := 100  // entries of `map_configure`

  /** A packet leaving for a replica, with its type string and what follows. */
  datatype Sent = Sent(replica: nat, text: seq<byte>)

  predicate IsRequest(a: byte, b: byte) { a == SP_S && b == SP_P }

  /** Replica to serve first. */
  function FirstReplica(leader: nat): byte { if leader == 0 then 1 else 0 }

  /** Replica to serve after `id`: the next one that is not the leader, counted in a `u8`. */
  function NextReplica(leader: nat, id: byte): byte {
    var nxt: int := (id + 1) % 256;
    if nxt == leader then (nxt + 1) % 256 else nxt
  }

  /** The replica that a packet whose type starts with `a` and `b` is for. */
  function Turn(leader: nat, a: byte, b: byte): byte { if IsRequest(a, b) then FirstReplica(leader) else a }

  /** The second byte that its clone carries. */
  function SecondByte(a: byte, b: byte): byte { if IsRequest(a, b) then MARK else b }

  /** How many times the first two bytes can still turn into "sp" on the way: a packet that is
      neither a message of the protocol nor a marked clone can, by counting up to 's'. */
  function Restarts(a: byte, b: byte): nat { if b != SP_P then 0 else if a == SP_S then 1 else 2 }

  function Left(n: nat, id: byte): nat { if id < n then n - id else n + 1 }

  /** The replicas for which the handler is entered, in order. */
  function Handled(leader: nat, n: nat, a: byte, b: byte): seq<nat>
    requires leader < n <= 255
    decreases Restarts(a, b), Left(n, Turn(leader, a, b))
  {
    var id := Turn(leader, a, b);
    var nxt := NextReplica(leader, id);
    [id] + (if nxt < n then Handled(leader, n, nxt, SecondByte(a, b)) else [])
  }

  /** What leaves for `id` itself: nothing when the configuration has no entry for it. */
  function Own(id: nat, rest: seq<byte>): seq<Sent> {
    if id < FAST_REPLICA_MAX then [Sent(id, [SP_S, SP_P] + rest)] else []
  }

  /** What a packet makes leave: first everything of its clone, then itself, with the type prefix
      restored. `rest` follows the prefix. */
  function Emitted(leader: nat, n: nat, a: byte, b: byte, rest: seq<byte>): seq<Sent>
    requires leader < n <= 255
    decreases Restarts(a, b), Left(n, Turn(leader, a, b))
  {
    var id := Turn(leader, a, b);
    var nxt := NextReplica(leader, id);
    (if nxt < n then Emitted(leader, n, nxt, SecondByte(a, b), rest) else []) + Own(id, rest)
  }

  /** Marks the packet for the next replica, and says which replica it is for now. */
  method MarkNext(text: array<byte>, leader: nat) returns (id: byte, nxt: byte)
    requires text.Length >= 2
    modifies text
    ensures id == Turn(leader, old(text[0]), old(text[1])) && nxt == NextReplica(leader, id)
    ensures id == if old(text[0]) == 0x73 && old(text[1]) == 0x70 then (if leader == 0 then 1 else 0) else old(text[0])
    ensures nxt == if (id + 1) % 256 == leader then (id + 2) % 256 else (id + 1) % 256
    ensures text[0] == nxt && text[1] == SecondByte(old(text[0]), old(text[1])) && text[2..] == old(text[2..])
    ensures text[1] == if old(text[0]) == 0x73 && old(text[1]) == 0x70 then 0x4D else old(text[1])
  {
    id := 0;
    if text[0] == SP_S && text[1] == SP_P {
      if leader == 0 {
        id := 1;
      }
      nxt := (id + 1) % 256;
      if leader == nxt {
        nxt := (nxt + 1) % 256;
      }
      text[0] := nxt;
      text[1] := MARK;
    } else {
      id := text[0];
      nxt := (id + 1) % 256;
      if leader == nxt {
        nxt := (nxt + 1) % 256;
      }
      text[0] := nxt;
    }
  }

  /** The broadcast branch of `handle_udp_fast_broad_cast`, on the bytes from the type string
      on. `bpf_clone_redirect` sends an independent copy through the handler again before the
      call returns, so the clones leave first. The cluster size is a `u8`. A replica that is not
      in the configuration is shot. */
  method HandleBroadcast(text: array<byte>, leader: nat, n: nat) returns (handled: seq<nat>, sent: seq<Sent>)
    requires text.Length >= 2 && leader < n <= 255
    modifies text
    ensures handled == Handled(leader, n, old(text[0]), old(text[1]))
    ensures sent == Emitted(leader, n, old(text[0]), old(text[1]), old(text[2..]))
    ensures text[..] == [SP_S, SP_P] + old(text[2..])
    decreases Restarts(text[0], text[1]), Left(n, Turn(leader, text[0], text[1]))
  {
    var id, nxt := MarkNext(text, leader);
    handled, sent := [], [];
    if nxt < n {
      var clone := Clone(text);
      handled, sent := HandleBroadcast(clone, leader, n);
    }
    var own := SendTo(text, id);
    handled, sent := [id] + handled, sent + own;
  }

  method Clone(text: array<byte>) returns (clone: array<byte>)
    requires text.Length >= 2
    ensures fresh(clone) && clone[..] == text[..] && clone.Length == text.Length
    ensures clone[0] == text[0] && clone[1] == text[1] && clone[2..] == text[2..]
  {
    clone := new byte[text.Length](i requires 0 <= i < text.Length reads text => text[i]);
  }

  /** The end of the handler: the prefix is restored and the destination looked up. */
  method SendTo(text: array<byte>, id: byte) returns (sent: seq<Sent>)
    requires text.Length >= 2
    modifies text
    ensures sent == Own(id, old(text[2..])) && text[..] == [0x73, 0x70] + old(text[2..])
    ensures sent == if id < 100 then [Sent(id, [0x73, 0x70] + old(text[2..]))] else []
  {
    text[0], text[1] := SP_S, SP_P;
    assert text[..] == [SP_S, SP_P] + old(text[2..]);
    sent := if id < FAST_REPLICA_MAX then [Sent(id, text[..])] else [];
  }

  // ------------------------------------------------------------ who is served

  ghost predicate Enters(handled: seq<nat>, r: nat) {
    exists i :: 0 <= i < |handled| && handled[i] == r
  }

  /** The handler is entered for each replica from `low` to `n` but the leader, once, in
      increasing order. */
  ghost predicate InOrder(handled: seq<nat>, leader: nat, low: nat, n: nat) {
    && (forall i, j :: 0 <= i < j < |handled| ==> handled[i] < handled[j])
    && (forall r: nat :: Enters(handled, r) <==> low <= r < n && r != leader)
  }

  predicate Follows(leader: nat, id: nat, nxt: nat) { nxt == if id + 1 == leader then id + 2 else id + 1 }

  /** Below the cluster size the count does not wrap, and passes over the leader only. */
  lemma NextInCluster(leader: nat, n: nat, id: byte)
    requires leader < n <= 255 && id < n && id != leader
    ensures Follows(leader, id, NextReplica(leader, id)) && NextReplica(leader, id) != leader
  {
  }

  lemma {:induction false} HandledInOrder(leader: nat, n: nat, id: byte, b: byte)
    requires leader < n <= 255 && id < n && id != leader && (b != 0x70 || n <= 0x73)
    ensures InOrder(Handled(leader, n, id, b), leader, id, n)
    decreases n - id
  {
    var nxt := NextReplica(leader, id);
    NextInCluster(leader, n, id);
    if nxt < n {
      HandledInOrder(leader, n, nxt, b);
      InOrderCons(Handled(leader, n, nxt, b), leader, id, nxt, n);
    } else {
      InOrderCons([], leader, id, nxt, n);
    }
  }

  lemma InOrderCons(tail: seq<nat>, leader: nat, id: nat, nxt: nat, n: nat)
    requires id < n && id != leader && Follows(leader, id, nxt) && InOrder(tail, leader, nxt, n)
    ensures InOrder([id] + tail, leader, id, n)
  {
    var all := [id] + tail;
    forall i | 0 <= i < |tail| ensures id < tail[i] { assert Enters(tail, tail[i]); }
    forall r: nat ensures Enters(all, r) <==> r == id || Enters(tail, r) {
      assert all[0] == id;
      if Enters(tail, r) {
        var i :| 0 <= i < |tail| && tail[i] == r;
        assert all[i + 1] == r;
      }
    }
  }

  ghost predicate Receives(sent: seq<Sent>, r: nat) {
    exists i :: 0 <= i < |sent| && sent[i].replica == r
  }

  /** The packets leave for the configured replicas from `low` to `n` but the leader, once each,
      in decreasing order, and each carries the same bytes. */
  ghost predicate Leaves(sent: seq<Sent>, leader: nat, low: nat, n: nat, text: seq<byte>) {
    && (forall i :: 0 <= i < |sent| ==> sent[i].text == text)
    && (forall i, j :: 0 <= i < j < |sent| ==> sent[j].replica < sent[i].replica)
    && (forall r: nat :: Receives(sent, r) <==> low <= r < n && r != leader && r < 100)
  }

  lemma ReceivesConcat(a: seq<Sent>, b: seq<Sent>, r: nat)
    ensures Receives(a + b, r) <==> Receives(a, r) || Receives(b, r)
  {
    if Receives(a, r) {
      var i :| 0 <= i < |a| && a[i].replica == r;
      assert (a + b)[i].replica == r;
    }
    if Receives(b, r) {
      var i :| 0 <= i < |b| && b[i].replica == r;
      assert (a + b)[|a| + i].replica == r;
    }
  }

  lemma OwnLeaves(leader: nat, id: nat, rest: seq<byte>)
    requires id != leader
    ensures Leaves(Own(id, rest), leader, id, id + 1, [0x73, 0x70] + rest)
  {
    if id < FAST_REPLICA_MAX { assert Own(id, rest)[0].replica == id; }
  }

  lemma LeavesConcat(a: seq<Sent>, b: seq<Sent>, leader: nat, low: nat, mid: nat, n: nat, text: seq<byte>)
    requires low < n && Follows(leader, low, mid)
    requires Leaves(a, leader, mid, n, text) && Leaves(b, leader, low, low + 1, text)
    ensures Leaves(a + b, leader, low, n, text)
  {
    forall r: nat ensures Receives(a + b, r) <==> low <= r < n && r != leader && r < 100 {
      ReceivesConcat(a, b, r);
    }
    forall i, j | 0 <= i < |a| && 0 <= j < |b| ensures b[j].replica < a[i].replica {
      assert Receives(a, a[i].replica) && Receives(b, b[j].replica);
    }
  }

  lemma {:induction false} EmittedLeaves(leader: nat, n: nat, id: byte, b: byte, rest: seq<byte>)
    requires leader < n <= 255 && id < n && id != leader && (b != 0x70 || n <= 0x73)
    ensures Leaves(Emitted(leader, n, id, b, rest), leader, id, n, [0x73, 0x70] + rest)
    decreases n - id
  {
    var nxt, text := NextReplica(leader, id), [0x73, 0x70] + rest;
    NextInCluster(leader, n, id);
    OwnLeaves(leader, id, rest);
    if nxt < n {
      EmittedLeaves(leader, n, nxt, b, rest);
      LeavesConcat(Emitted(leader, n, nxt, b, rest), Own(id, rest), leader, id, nxt, n, text);
    } else {
      LeavesConcat([], Own(id, rest), leader, id, nxt, n, text);
      assert [] + Own(id, rest) == Own(id, rest);
    }
  }

  /** A message of the protocol does what a clone marked for the first replica does. */
  lemma RequestIsFirst(leader: nat, n: nat, rest: seq<byte>)
    requires leader < n <= 255
    ensures Emitted(leader, n, 0x73, 0x70, rest) == Emitted(leader, n, FirstReplica(leader), MARK, rest)
    ensures Handled(leader, n, 0x73, 0x70) == Handled(leader, n, FirstReplica(leader), MARK)
  {
  }

  /** Every other replica of the cluster, and nobody else, is sent the packet. */
  ghost predicate ServesOthers(sent: seq<Sent>, leader: nat, n: nat) {
    forall r: nat :: Receives(sent, r) <==> r < n && r != leader
  }

  /** The broadcast serves exactly the other replicas if and only if there is one and each of
      them is in the configuration: with a single replica it sends to replica 1, and behind the
      hundredth entry the packets are shot. */
  lemma BroadcastServesIff(leader: nat, n: nat, rest: seq<byte>)
    requires leader < n <= 255
    ensures ServesOthers(Emitted(leader, n, 0x73, 0x70, rest), leader, n) <==>
              n >= 2 && (n <= 100 || (n == 101 && leader == 100))
  {
    RequestIsFirst(leader, n, rest);
    var sent := Emitted(leader, n, FirstReplica(leader), MARK, rest);
    if n == 1 {
      assert sent == Own(1, rest);
      assert sent[0].replica == 1;
      assert Receives(sent, 1);
    } else {
      EmittedLeaves(leader, n, FirstReplica(leader), MARK, rest);
      var first := if leader == 100 then 101 else 100;
      assert !Receives(sent, first);
    }
  }

  /** Whatever the size, what leaves is one packet for each other configured replica, all with
      the same bytes, last handled first. */
  lemma EmittedOnceEach(leader: nat, n: nat, rest: seq<byte>)
    requires leader < n <= 255 && n >= 2
    ensures Leaves(Emitted(leader, n, 0x73, 0x70, rest), leader, 0, n, [0x73, 0x70] + rest)
    ensures InOrder(Handled(leader, n, 0x73, 0x70), leader, 0, n)
  {
    RequestIsFirst(leader, n, rest);
    EmittedLeaves(leader, n, FirstReplica(leader), MARK, rest);
    HandledInOrder(leader, n, FirstReplica(leader), MARK);
  }
}
