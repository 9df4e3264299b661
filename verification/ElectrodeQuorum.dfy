/** Quorum pruning in `samples/electrode/src/main.rs`: the ring of acknowledgement
    bitsets, installed by outgoing Prepares and filled by incoming PrepareOKs. */

/** A `u32` used as a set of bit positions. */
module Bitset32 {

  const WIDTH: nat := 32

  function Pow2(n: nat): (p: nat)
    ensures p > 0
  {
    if n == 0 then 1 else 2 * Pow2(n - 1)
  }

  predicate IsWord(w: nat) { w < Pow2(WIDTH) }

  predicate Bit(w: nat, i: nat) {
    if i == 0 then w % 2 == 1 else Bit(w / 2, i - 1)
  }

  /** `w | 1 << i`. */
  function SetBit(w: nat, i: nat): nat {
    if i == 0 then w / 2 * 2 + 1 else 2 * SetBit(w / 2, i - 1) + w % 2
  }

  /** `w & ((1 << n) - 1)`. */
  function LowBits(w: nat, n: nat): nat {
    if n == 0 then 0 else 2 * LowBits(w / 2, n - 1) + w % 2
  }

  lemma {:induction false} LowBitsIff(w: nat, n: nat, i: nat)
    ensures Bit(LowBits(w, n), i) <==> i < n && Bit(w, i)
  {
    if n == 0 {
      ZeroBit(i);
    } else if i > 0 {
      LowBitsIff(w / 2, n - 1, i - 1);
      assert LowBits(w, n) / 2 == LowBits(w / 2, n - 1);
    }
  }

  /** `w >> n`. */
  function HighBits(w: nat, n: nat): nat {
    if n == 0 then w else HighBits(w / 2, n - 1)
  }

  /** Masking the low bits leaves the remainder modulo a power of two. */
  lemma {:induction false} LowBitsRemain(w: nat, n: nat)
    ensures w == Pow2(n) * HighBits(w, n) + LowBits(w, n) && LowBits(w, n) < Pow2(n)
  {
    if n > 0 {
      LowBitsRemain(w / 2, n - 1);
      Doubled(Pow2(n - 1), HighBits(w / 2, n - 1), Pow2(n - 1) * HighBits(w / 2, n - 1));
    }
  }

  lemma Doubled(p: nat, h: nat, product: nat)
    requires product == p * h
    ensures (2 * p) * h == 2 * product
  {
  }

  lemma Remainder1024(w: nat, q: nat, r: nat)
    requires w == 1024 * q + r && r < 1024
    ensures w % 1024 == r
  {
  }

  lemma TenBits(w: nat, n: nat)
    requires n == 10
    ensures LowBits(w, n) == w % 1024
  {
    LowBitsRemain(w, n);
    assert Pow2(n) == 4 * Pow2(n - 2) == 16 * Pow2(n - 4) == 64 * Pow2(n - 6) == 256 * Pow2(n - 8) == 1024;
    Remainder1024(w, HighBits(w, n), LowBits(w, n));
  }

  /** The number that `|` produces: a power of two is added unless it is there already. */
  lemma {:induction false} SetBitValue(w: nat, i: nat)
    ensures SetBit(w, i) == if Bit(w, i) then w else w + Pow2(i)
  {
    if i > 0 { SetBitValue(w / 2, i - 1); }
  }

  lemma {:induction false} SetBitFits(w: nat, i: nat, n: nat)
    requires w < Pow2(n) && i < n
    ensures SetBit(w, i) < Pow2(n)
  {
    if i > 0 { SetBitFits(w / 2, i - 1, n - 1); }
  }

  lemma {:induction false} SetBitIff(w: nat, i: nat, j: nat)
    ensures Bit(SetBit(w, i), j) <==> i == j || Bit(w, j)
  {
    if i > 0 && j > 0 {
      SetBitIff(w / 2, i - 1, j - 1);
      assert SetBit(w, i) / 2 == SetBit(w / 2, i - 1);
    } else if i == 0 && j > 0 {
      assert SetBit(w, i) / 2 == w / 2;
    }
  }

  ghost function MembersBelow(w: nat, n: nat): set<nat> { set i: nat | i < n && Bit(w, i) }

  ghost function Members(w: nat): set<nat> { MembersBelow(w, WIDTH) }

  /** `count_ones`, over the low `n` bits. */
  function CountOnes(w: nat, n: nat): nat {
    if n == 0 then 0 else CountOnes(w, n - 1) + (if Bit(w, n - 1) then 1 else 0)
  }

  lemma SetBitMembers(w: nat, i: nat)
    requires i < WIDTH
    ensures Members(SetBit(w, i)) == Members(w) + {i}
  {
    forall j: nat | j < WIDTH ensures j in Members(SetBit(w, i)) <==> j in Members(w) + {i} { SetBitIff(w, i, j); }
  }

  lemma {:induction false} ZeroBit(i: nat)
    ensures !Bit(0, i)
  {
    if i > 0 { ZeroBit(i - 1); }
  }

  lemma NoMembers()
    ensures Members(0) == {}
  {
    forall i: nat | i < WIDTH ensures i !in Members(0) { ZeroBit(i); }
  }

  lemma {:induction false} CountIsCardinality(w: nat, n: nat)
    ensures CountOnes(w, n) == |MembersBelow(w, n)|
  {
    if n == 0 {
      assert MembersBelow(w, n) == {};
    } else {
      CountIsCardinality(w, n - 1);
      var lower := MembersBelow(w, n - 1);
      if Bit(w, n - 1) {
        assert MembersBelow(w, n) == lower + {n - 1};
      } else {
        assert MembersBelow(w, n) == lower;
      }
    }
  }
}

module ElectrodeQuorum {
  import opened Bitset32

  const BROADCAST_SIGN_BIT: bv32 := 0x8000_0000
  const QUORUM_BITSET_ENTRY: nat := 1024
  const RING_BITS: nat := 10  // QUORUM_BITSET_ENTRY is 2^10

  datatype Key = Key(view: bv32, op: nat)

  datatype QuorumEntry = QuorumEntry(key: Key, bitset: nat)

  /** What reaches the two handlers: an outgoing Prepare with the view field as it stands in
      the packet, or an incoming PrepareOK. */
  datatype Message = Prepare(rawView: bv32, op: nat) | PrepareOk(key: Key, replica: nat)

  datatype Verdict = Pass | Drop

  /** The view that the egress handler records. */
  function RecordedView(rawView: bv32): bv32 { rawView ^ BROADCAST_SIGN_BIT }

  /** `op & (QUORUM_BITSET_ENTRY - 1)`. */
  function Slot(op: nat): (s: nat)
    ensures s == op % 1024
  {
    TenBits(op, RING_BITS);
    LowBits(op, RING_BITS)
  }

  function SlotOf(m: Message): (s: nat)
    ensures s < QUORUM_BITSET_ENTRY
  {
    if m.Prepare? then Slot(m.op) else Slot(m.key.op)
  }

  function KeyOf(m: Message): Key {
    if m.Prepare? then Key(RecordedView(m.rawView), m.op) else m.key
  }

  /** The bit of a replica: a release build masks the shift amount. */
  function BitOf(replica: nat): (i: nat)
    ensures i < WIDTH
  {
    replica % WIDTH
  }

  function EntryStep(e: QuorumEntry, m: Message): QuorumEntry {
    if m.Prepare? then (if e.key == KeyOf(m) then e else QuorumEntry(KeyOf(m), 0))
    else if e.key == m.key then e.(bitset := SetBit(e.bitset, BitOf(m.replica)))
    else e
  }

  function RingStep(ring: seq<QuorumEntry>, m: Message): (r: seq<QuorumEntry>)
    requires |ring| == QUORUM_BITSET_ENTRY
  {
    ring[SlotOf(m) := EntryStep(ring[SlotOf(m)], m)]
  }

  /** What `handle_prepare_ok` does with an acknowledgement, given the entry it finds. */
  function AckVerdict(e: QuorumEntry, m: Message, quorum: nat, tailOk: bool): Verdict
    requires m.PrepareOk?
  {
    if e.key != m.key then Pass
    else if CountOnes(EntryStep(e, m).bitset, WIDTH) != quorum - 1 then Drop
    else if tailOk then Pass
    else Drop
  }

  class QuorumRing {
    const entries: array<QuorumEntry>

    ghost predicate Valid() { entries.Length == QUORUM_BITSET_ENTRY }

    constructor ()
      ensures Valid() && fresh(entries) && entries[..] == ZeroRing()
    {
      entries := new QuorumEntry[QUORUM_BITSET_ENTRY](_ => ZERO_ENTRY);
      new;
      assert entries[..] == ZeroRing();
    }

    /** The Prepare branch of `handle_udp_fast_broad_cast`. */
    method RecordPrepare(rawView: bv32, op: nat)
      requires Valid()
      modifies entries
      ensures entries[..] == RingStep(old(entries[..]), Prepare(rawView, op))
      ensures forall i :: 0 <= i < 1024 && i != op % 1024 ==> entries[i] == old(entries[i])
    {
      var msgView := rawView ^ BROADCAST_SIGN_BIT;
      var idx := Slot(op);
      if entries[idx].key.view != msgView || entries[idx].key.op != op {
        entries[idx] := QuorumEntry(Key(msgView, op), 0);
      }
    }

    /** `enough` says whether the packet holds more than the fast header. */
    method HandlePrepareOk(enough: bool, view: bv32, op: nat, replica: nat, quorum: nat, tailOk: bool) returns (v: Verdict)
      requires Valid()
      modifies entries
      ensures !enough ==> v == Drop && entries[..] == old(entries[..])
      ensures enough ==> entries[..] == RingStep(old(entries[..]), PrepareOk(Key(view, op), replica))
      ensures forall i :: 0 <= i < 1024 && i != op % 1024 ==> entries[i] == old(entries[i])
      ensures enough ==> v == AckVerdict(old(entries[Slot(op)]), PrepareOk(Key(view, op), replica), quorum, tailOk)
    {
      if !enough {
        return Drop;
      }
      var idx := Slot(op);
      if entries[idx].key.view != view || entries[idx].key.op != op {
        return Pass;
      }
      entries[idx] := entries[idx].(bitset := SetBit(entries[idx].bitset, replica % WIDTH));
      if CountOnes(entries[idx].bitset, WIDTH) != quorum - 1 {
        return Drop;
      }
      return if tailOk then Pass else Drop;
    }
  }

  // ------------------------------------------------------------ the ring as a map

  const ZERO_ENTRY := QuorumEntry(Key(0, 0), 0)

  function ZeroRing(): (r: seq<QuorumEntry>)
    ensures |r| == QUORUM_BITSET_ENTRY
  {
    seq(QUORUM_BITSET_ENTRY, _ => ZERO_ENTRY)
  }

  /** The ring after the first `n` messages. */
  function RingAfter(h: seq<Message>, n: nat): (r: seq<QuorumEntry>)
    requires n <= |h|
    ensures |r| == QUORUM_BITSET_ENTRY
  {
    if n == 0 then ZeroRing() else RingStep(RingAfter(h, n - 1), h[n - 1])
  }

  /** The key of the last Prepare for slot `s` among the first `n` messages. */
  ghost function KeyAt(h: seq<Message>, n: nat, s: nat): Key
    requires n <= |h|
  {
    if n == 0 then Key(0, 0)
    else if h[n - 1].Prepare? && SlotOf(h[n - 1]) == s then KeyOf(h[n - 1])
    else KeyAt(h, n - 1, s)
  }

  /** The slot names one key from after message `i` up to message `n`. */
  ghost predicate Unbroken(h: seq<Message>, i: nat, n: nat, s: nat)
    requires i <= n <= |h|
  {
    forall m :: i <= m <= n ==> KeyAt(h, m, s) == KeyAt(h, n, s)
  }

  /** Message `i` acknowledges the key that slot `s` has named ever since, for bit `r`. */
  ghost predicate Counts(h: seq<Message>, i: nat, n: nat, s: nat, r: nat)
    requires i < n <= |h|
  {
    && h[i].PrepareOk? && SlotOf(h[i]) == s && BitOf(h[i].replica) == r
    && h[i].key == KeyAt(h, n, s)
    && Unbroken(h, i, n, s)
  }

  ghost predicate Acked(h: seq<Message>, n: nat, s: nat, r: nat)
    requires n <= |h|
  {
    exists i :: 0 <= i < n && Counts(h, i, n, s, r)
  }

  ghost function Ackers(h: seq<Message>, n: nat, s: nat): set<nat>
    requires n <= |h|
  {
    set r: nat | r < WIDTH && Acked(h, n, s, r)
  }

  /** While the key stands, an acknowledgement counted is counted for good. */
  lemma AckedStep(h: seq<Message>, n: nat, s: nat, r: nat)
    requires n < |h| && KeyAt(h, n + 1, s) == KeyAt(h, n, s)
    ensures Acked(h, n + 1, s, r) <==>
              || Acked(h, n, s, r)
              || (h[n].PrepareOk? && SlotOf(h[n]) == s && BitOf(h[n].replica) == r && h[n].key == KeyAt(h, n, s))
  {
    if Acked(h, n, s, r) {
      var i :| 0 <= i < n && Counts(h, i, n, s, r);
      assert Unbroken(h, i, n + 1, s);
      assert Counts(h, i, n + 1, s, r);
    }
    if h[n].PrepareOk? && SlotOf(h[n]) == s && BitOf(h[n].replica) == r && h[n].key == KeyAt(h, n, s) {
      assert Unbroken(h, n, n + 1, s);
      assert Counts(h, n, n + 1, s, r);
    }
    if Acked(h, n + 1, s, r) {
      var i :| 0 <= i < n + 1 && Counts(h, i, n + 1, s, r);
      if i < n {
        assert Unbroken(h, i, n, s);
        assert Counts(h, i, n, s, r);
      }
    }
  }

  /** How one message changes the acknowledgers of a slot. */
  lemma AckersStep(h: seq<Message>, n: nat, s: nat)
    requires n < |h|
    ensures Ackers(h, n + 1, s) ==
              if KeyAt(h, n + 1, s) != KeyAt(h, n, s) then {}
              else if h[n].PrepareOk? && SlotOf(h[n]) == s && h[n].key == KeyAt(h, n, s)
                   then Ackers(h, n, s) + {BitOf(h[n].replica)}
              else Ackers(h, n, s)
  {
    if KeyAt(h, n + 1, s) == KeyAt(h, n, s) {
      forall r: nat { AckedStep(h, n, s, r); }
    }
  }

  /** How one message changes the members of the entry it is for. */
  lemma EntryMembers(e: QuorumEntry, m: Message)
    ensures Members(EntryStep(e, m).bitset) ==
              if EntryStep(e, m).key != e.key then {}
              else if m.PrepareOk? && m.key == e.key then Members(e.bitset) + {BitOf(m.replica)}
              else Members(e.bitset)
  {
    NoMembers();
    SetBitMembers(e.bitset, if m.PrepareOk? then BitOf(m.replica) else 0);
  }

  /** The ring refines the map from keys to acknowledgers: for every history and slot, the
      entry names the last key prepared there, and its bits are exactly the acknowledgers of
      that key since it was installed. */
  lemma {:induction false} RingRefines(h: seq<Message>, n: nat, s: nat)
    requires n <= |h| && s < QUORUM_BITSET_ENTRY
    ensures RingAfter(h, n)[s].key == KeyAt(h, n, s)
    ensures Members(RingAfter(h, n)[s].bitset) == Ackers(h, n, s)
  {
    if n == 0 {
      NoMembers();
    } else {
      RingRefines(h, n - 1, s);
      EntryMembers(RingAfter(h, n - 1)[s], h[n - 1]);
      AckersStep(h, n - 1, s);
    }
  }

  /** The bitsets never leave the range of a `u32`. */
  lemma {:induction false} RingHoldsWords(h: seq<Message>, n: nat, s: nat)
    requires n <= |h| && s < QUORUM_BITSET_ENTRY
    ensures IsWord(RingAfter(h, n)[s].bitset)
  {
    if n > 0 {
      RingHoldsWords(h, n - 1, s);
      if h[n - 1].PrepareOk? { SetBitFits(RingAfter(h, n - 1)[s].bitset, BitOf(h[n - 1].replica), WIDTH); }
    }
  }

  // ------------------------------------------------------------ pruning

  /** Message `n` is an acknowledgement of what its slot currently names. */
  ghost predicate Matches(h: seq<Message>, n: nat)
    requires n < |h|
  {
    h[n].PrepareOk? && h[n].key == KeyAt(h, n, SlotOf(h[n]))
  }

  ghost function VerdictAt(h: seq<Message>, n: nat, quorum: nat, tailOk: bool): Verdict
    requires n < |h| && h[n].PrepareOk?
  {
    AckVerdict(RingAfter(h, n)[SlotOf(h[n])], h[n], quorum, tailOk)
  }

  /** Message `i` is the last Prepare among the first `n` messages whose operation is congruent to
      `op` modulo 1024. */
  predicate LastPrepare(h: seq<Message>, i: nat, n: nat, op: nat)
    requires n <= |h|
  {
    && i < n && h[i].Prepare? && h[i].op % 1024 == op % 1024
    && forall j :: i < j < n && h[j].Prepare? ==> h[j].op % 1024 != op % 1024
  }

  predicate NoPrepare(h: seq<Message>, n: nat, op: nat)
    requires n <= |h|
  {
    forall j :: 0 <= j < n && h[j].Prepare? ==> h[j].op % 1024 != op % 1024
  }

  /** The key that a slot names is that of the last Prepare of its residue class, or zero. */
  lemma {:induction false} KeyIsLastPrepare(h: seq<Message>, i: nat, n: nat, op: nat)
    requires n <= |h| && LastPrepare(h, i, n, op)
    ensures KeyAt(h, n, op % 1024) == Key(h[i].rawView ^ 0x8000_0000, h[i].op)
  {
    if i < n - 1 { KeyIsLastPrepare(h, i, n - 1, op); }
  }

  lemma {:induction false} KeyIsZero(h: seq<Message>, n: nat, op: nat)
    requires n <= |h| && NoPrepare(h, n, op)
    ensures KeyAt(h, n, op % 1024) == Key(0, 0)
  {
    if n > 0 { KeyIsZero(h, n - 1, op); }
  }

  lemma {:induction false} FindLastPrepare(h: seq<Message>, n: nat, op: nat) returns (i: nat)
    requires n <= |h| && !NoPrepare(h, n, op)
    ensures LastPrepare(h, i, n, op)
  {
    i := n - 1;
    if !(h[i].Prepare? && h[i].op % 1024 == op % 1024) { i := FindLastPrepare(h, n - 1, op); }
  }

  /** An acknowledgement matches exactly when the last Prepare before it, among those whose
      operation is congruent to its own modulo 1024, has its view and operation; or there is none
      and it acknowledges view 0, operation 0. */
  lemma MatchesIff(h: seq<Message>, n: nat)
    requires n < |h| && h[n].PrepareOk?
    ensures Matches(h, n) <==>
              || (NoPrepare(h, n, h[n].key.op) && h[n].key == Key(0, 0))
              || (exists i: nat :: LastPrepare(h, i, n, h[n].key.op)
                                   && h[n].key == Key(h[i].rawView ^ 0x8000_0000, h[i].op))
  {
    var op := h[n].key.op;
    if NoPrepare(h, n, op) {
      KeyIsZero(h, n, op);
    } else {
      var i := FindLastPrepare(h, n, op);
      KeyIsLastPrepare(h, i, n, op);
      forall k: nat | LastPrepare(h, k, n, op) ensures k == i {}
    }
  }

  /** The operation that a message is about. */
  function OpOf(m: Message): nat { if m.Prepare? then m.op else m.key.op }

  /** Messages for operations of other residue classes change neither what is counted for a class
      nor the verdict on an acknowledgement of it. */
  lemma {:induction false} OtherClassesIrrelevant(h: seq<Message>, m: nat, n: nat, ack: Message, quorum: nat, tailOk: bool)
    requires m <= n <= |h| && ack.PrepareOk? && forall j :: m <= j < n ==> OpOf(h[j]) % 1024 != ack.key.op % 1024
    ensures var s := ack.key.op % 1024;
            && RingAfter(h, n)[s] == RingAfter(h, m)[s] && Ackers(h, n, s) == Ackers(h, m, s)
            && AckVerdict(RingAfter(h, n)[s], ack, quorum, tailOk) == AckVerdict(RingAfter(h, m)[s], ack, quorum, tailOk)
  {
    if m < n {
      OtherClassesIrrelevant(h, m, n - 1, ack, quorum, tailOk);
      AckersStep(h, n - 1, ack.key.op % 1024);
    }
  }

  /** A matching acknowledgement is passed up exactly when, counting it, the distinct
      acknowledgers are one short of the quorum, however often each has acknowledged. */
  lemma PassIffQuorum(h: seq<Message>, n: nat, quorum: nat, tailOk: bool)
    requires n < |h| && Matches(h, n)
    ensures VerdictAt(h, n, quorum, tailOk) == Pass <==>
              tailOk && |Ackers(h, n + 1, SlotOf(h[n]))| == quorum - 1
  {
    var s := SlotOf(h[n]);
    RingRefines(h, n, s);
    RingRefines(h, n + 1, s);
    var after := RingAfter(h, n + 1)[s];
    CountIsCardinality(after.bitset, WIDTH);
  }

  /** Any other acknowledgement, of an operation 1024 away for instance, is passed up
      unjudged and leaves the ring alone. */
  lemma OtherAcksIgnored(h: seq<Message>, n: nat, quorum: nat, tailOk: bool)
    requires n < |h| && h[n].PrepareOk? && !Matches(h, n)
    ensures VerdictAt(h, n, quorum, tailOk) == Pass
    ensures RingAfter(h, n + 1) == RingAfter(h, n)
  {
    RingRefines(h, n, SlotOf(h[n]));
  }

  lemma AckersGrowStep(h: seq<Message>, n: nat, s: nat)
    requires n < |h| && KeyAt(h, n, s) == KeyAt(h, n + 1, s)
    ensures Ackers(h, n, s) <= Ackers(h, n + 1, s)
    ensures |Ackers(h, n, s)| <= |Ackers(h, n + 1, s)| <= |Ackers(h, n, s)| + 1
  {
    AckersStep(h, n, s);
    var before := Ackers(h, n, s);
    if h[n].PrepareOk? && BitOf(h[n].replica) in before {
      assert before + {BitOf(h[n].replica)} == before;
    }
  }

  lemma {:induction false} AckersGrow(h: seq<Message>, m: nat, n: nat, s: nat)
    requires m <= n <= |h| && Unbroken(h, m, n, s)
    ensures Ackers(h, m, s) <= Ackers(h, n, s)
    ensures |Ackers(h, m, s)| <= |Ackers(h, n, s)| <= |Ackers(h, m, s)| + n - m
  {
    if m < n {
      assert KeyAt(h, n - 1, s) == KeyAt(h, n, s);
      AckersGrow(h, m, n - 1, s);
      AckersGrowStep(h, n - 1, s);
    }
  }

  /** Past the quorum every later acknowledgement of the same installation is dropped. */
  lemma LateAcksDropped(h: seq<Message>, m: nat, n: nat, quorum: nat, tailOk: bool)
    requires m <= n < |h| && Matches(h, n)
    requires Unbroken(h, m, n + 1, SlotOf(h[n])) && |Ackers(h, m, SlotOf(h[n]))| > quorum - 1
    ensures VerdictAt(h, n, quorum, tailOk) == Drop
  {
    AckersGrow(h, m, n + 1, SlotOf(h[n]));
    PassIffQuorum(h, n, quorum, tailOk);
  }

  /** Message `i` makes the distinct acknowledgers reach one short of the quorum. */
  ghost predicate Completes(h: seq<Message>, i: nat, s: nat, quorum: nat)
    requires i < |h|
  {
    |Ackers(h, i, s)| < quorum - 1 <= |Ackers(h, i + 1, s)|
  }

  lemma CompletionPasses(h: seq<Message>, i: nat, s: nat, quorum: nat)
    requires i < |h| && KeyAt(h, i, s) == KeyAt(h, i + 1, s) && Completes(h, i, s, quorum)
    ensures SlotOf(h[i]) == s && Matches(h, i)
    ensures |Ackers(h, i + 1, s)| == quorum - 1 && VerdictAt(h, i, quorum, true) == Pass
  {
    AckersStep(h, i, s);
    PassIffQuorum(h, i, quorum, true);
  }

  lemma NotYetComplete(h: seq<Message>, m: nat, n: nat, s: nat, quorum: nat)
    requires m <= n <= |h| && Unbroken(h, m, n, s) && |Ackers(h, n, s)| < quorum - 1
    ensures forall j :: m <= j < n ==> !Completes(h, j, s, quorum)
  {
    forall j | m <= j < n ensures !Completes(h, j, s, quorum) { AckersGrow(h, j + 1, n, s); }
  }

  /** Whenever the acknowledgers of one installation come to reach the quorum, exactly one
      message completes them: it matches, it is not skipped over, and it is passed up. */
  lemma {:induction false} QuorumCompletesOnce(h: seq<Message>, m: nat, n: nat, s: nat, quorum: nat) returns (i: nat)
    requires m <= n <= |h| && Unbroken(h, m, n, s)
    requires |Ackers(h, m, s)| < quorum - 1 <= |Ackers(h, n, s)|
    ensures m <= i < n && Completes(h, i, s, quorum)
    ensures SlotOf(h[i]) == s && Matches(h, i)
    ensures |Ackers(h, i + 1, s)| == quorum - 1 && VerdictAt(h, i, quorum, true) == Pass
    ensures forall j :: m <= j < n && Completes(h, j, s, quorum) ==> j == i
  {
    assert m < n;
    assert KeyAt(h, n - 1, s) == KeyAt(h, n, s);
    if |Ackers(h, n - 1, s)| < quorum - 1 {
      i := n - 1;
      CompletionPasses(h, i, s, quorum);
      NotYetComplete(h, m, n - 1, s, quorum);
    } else {
      i := QuorumCompletesOnce(h, m, n - 1, s, quorum);
    }
  }

  function QuorumSize(cluster: nat): nat { (cluster + 1) / 2 }

  /** The acknowledgers behind a passed acknowledgement, with a leader that is not one of
      them, are a strict majority exactly in clusters of odd size. */
  lemma PassedIsMajorityIff(h: seq<Message>, n: nat, cluster: nat, leader: nat)
    requires n < |h| && Matches(h, n) && VerdictAt(h, n, QuorumSize(cluster), true) == Pass
    requires leader !in Ackers(h, n + 1, SlotOf(h[n]))
    ensures 2 * |Ackers(h, n + 1, SlotOf(h[n])) + {leader}| > cluster <==> cluster % 2 == 1
  {
    PassIffQuorum(h, n, QuorumSize(cluster), true);
  }

  /** The word holds at most 32 acknowledgers. */
  lemma AckersBounded(h: seq<Message>, n: nat, s: nat)
    requires n <= |h|
    ensures |Ackers(h, n, s)| <= WIDTH
  {
    BelowCount(Ackers(h, n, s), WIDTH);
  }

  lemma {:induction false} BelowCount(a: set<nat>, n: nat)
    requires forall i :: i in a ==> i < n
    ensures |a| <= n
  {
    if n == 0 {
      assert a == {};
    } else {
      BelowCount(a - {n - 1}, n - 1);
      assert a <= (a - {n - 1}) + {n - 1};
      if n - 1 in a { assert a == (a - {n - 1}) + {n - 1}; } else { assert a == a - {n - 1}; }
    }
  }

  /** Some matching acknowledgement is passed up in some history. */
  ghost predicate CanPass(cluster: nat) {
    exists h: seq<Message>, n: nat :: PassesAt(h, n, cluster)
  }

  ghost predicate PassesAt(h: seq<Message>, n: nat, cluster: nat) {
    n < |h| && Matches(h, n) && VerdictAt(h, n, QuorumSize(cluster), true) == Pass
  }

  /** A Prepare, and then an acknowledgement by each replica in turn. */
  predicate IsAckHistory(h: seq<Message>, key: Key) {
    && |h| >= 1 && h[0].Prepare? && KeyOf(h[0]) == key
    && forall i :: 1 <= i < |h| ==> h[i] == PrepareOk(key, i - 1)
  }

  function AckHistory(view: bv32, op: nat, k: nat): (h: seq<Message>)
    requires view & BROADCAST_SIGN_BIT == 0
    ensures |h| == k + 1 && IsAckHistory(h, Key(view, op))
  {
    seq(k + 1, (i: nat) => if i == 0 then Prepare(view | BROADCAST_SIGN_BIT, op) else PrepareOk(Key(view, op), i - 1))
  }

  /** After `m` messages of such a history, the first `m - 1` replicas are counted. */
  ghost predicate FirstCounted(h: seq<Message>, key: Key, m: nat)
    requires m <= |h|
  {
    && KeyAt(h, m, Slot(key.op)) == key
    && |Ackers(h, m, Slot(key.op))| == m - 1
    && forall r :: r in Ackers(h, m, Slot(key.op)) ==> r < m - 1
  }

  lemma PrepareCounted(h: seq<Message>, key: Key)
    requires IsAckHistory(h, key)
    ensures FirstCounted(h, key, 1)
  {
    var s := Slot(key.op);
    assert Ackers(h, 0, s) == {};
    AckersStep(h, 0, s);
  }

  lemma AckCounted(h: seq<Message>, key: Key, m: nat)
    requires IsAckHistory(h, key) && 1 <= m < |h| && m <= WIDTH && FirstCounted(h, key, m)
    ensures FirstCounted(h, key, m + 1)
  {
    assert h[m] == PrepareOk(key, m - 1);
    AckersStep(h, m, Slot(key.op));
    assert m - 1 !in Ackers(h, m, Slot(key.op));
  }

  lemma {:induction false} AllCounted(h: seq<Message>, key: Key, m: nat)
    requires IsAckHistory(h, key) && 1 <= m <= |h| && m <= WIDTH + 1
    ensures FirstCounted(h, key, m)
  {
    if m == 1 {
      PrepareCounted(h, key);
    } else {
      AllCounted(h, key, m - 1);
      AckCounted(h, key, m - 1);
    }
  }

  /** Up to 66 replicas, the acknowledgement that makes the quorum is passed up, for every view
      and operation. */
  lemma HistoryPasses(cluster: nat, view: bv32, op: nat)
    requires 3 <= cluster <= 66 && view & BROADCAST_SIGN_BIT == 0
    ensures var k := QuorumSize(cluster) - 1; PassesAt(AckHistory(view, op, k), k, cluster)
  {
    var k := QuorumSize(cluster) - 1;
    var h := AckHistory(view, op, k);
    AllCounted(h, Key(view, op), k);
    AllCounted(h, Key(view, op), k + 1);
    PassIffQuorum(h, k, QuorumSize(cluster), true);
  }

  /** An acknowledgement can be passed up at all exactly in clusters of 3 to 66 replicas. With
      fewer the count it is compared with is zero, and a counted acknowledgement makes it at
      least one; with more the word has too few bits to reach it. */
  lemma PassesIff(cluster: nat)
    ensures CanPass(cluster) <==> 3 <= cluster <= 66
  {
    if CanPass(cluster) {
      var h: seq<Message>, n: nat :| PassesAt(h, n, cluster);
      var s := SlotOf(h[n]);
      PassIffQuorum(h, n, QuorumSize(cluster), true);
      AckersStep(h, n, s);
      assert BitOf(h[n].replica) in Ackers(h, n + 1, s);
      AckersBounded(h, n + 1, s);
    }
    if 3 <= cluster <= 66 {
      HistoryPasses(cluster, 0, 0);
      assert PassesAt(AckHistory(0, 0, QuorumSize(cluster) - 1), QuorumSize(cluster) - 1, cluster);
    }
  }

  /** When replica indices fit the word, the acknowledgers are the replicas themselves. */
  lemma AckersAreReplicas(h: seq<Message>, n: nat, s: nat, r: nat)
    requires n <= |h| && r in Ackers(h, n, s)
    requires forall i :: 0 <= i < n && h[i].PrepareOk? ==> h[i].replica < WIDTH
    ensures exists i :: 0 <= i < n && h[i] == PrepareOk(KeyAt(h, n, s), r)
  {
    assert Acked(h, n, s, r);
    var i :| 0 <= i < n && Counts(h, i, n, s, r);
    assert h[i] == PrepareOk(KeyAt(h, n, s), r);
  }

  /** Sending the Prepare of an installed key again keeps its acknowledgers exactly when the
      view field is the same, sign bit included, or there are none yet. A clone re-entering
      the handler is the same packet. */
  lemma ResendKeepsIff(h: seq<Message>, n: nat, first: bv32)
    requires n < |h| && h[n].Prepare?
    requires KeyAt(h, n, SlotOf(h[n])) == KeyOf(Prepare(first, h[n].op))
    ensures Ackers(h, n + 1, SlotOf(h[n])) == Ackers(h, n, SlotOf(h[n])) <==>
              h[n].rawView == first || Ackers(h, n, SlotOf(h[n])) == {}
  {
    AckersStep(h, n, SlotOf(h[n]));
    assert RecordedView(h[n].rawView) == RecordedView(first) <==> h[n].rawView == first;
  }

  /** So a unicast resend, whose sign bit is clear, forgets the acknowledgements that the
      broadcast of the same view and operation collected. */
  lemma UnicastResendForgets(view: bv32, op: nat, replica: nat)
    requires view & BROADCAST_SIGN_BIT == 0
    ensures var h := [Prepare(view | BROADCAST_SIGN_BIT, op), PrepareOk(Key(view, op), replica), Prepare(view, op)];
            && Ackers(h, 2, Slot(op)) == {BitOf(replica)}
            && Ackers(h, 3, Slot(op)) == {}
  {
    var h := [Prepare(view | BROADCAST_SIGN_BIT, op), PrepareOk(Key(view, op), replica), Prepare(view, op)];
    var s := Slot(op);
    assert RecordedView(view | BROADCAST_SIGN_BIT) == view;
    assert KeyAt(h, 1, s) == Key(view, op);
    AckersStep(h, 0, s);
    AckersStep(h, 1, s);
    assert Ackers(h, 0, s) == {};
    ResendKeepsIff(h, 2, view | BROADCAST_SIGN_BIT);
    AckersStep(h, 2, s);
  }
}
