/** The per-CPU cleanup registry of `rex/src/panic.rs`, and the kernel-side
    bookkeeping that its entries refer to. */

module KernelResources {

  /** What a Rex program can hold: a spin lock, a task reference or a ring-buffer
      reservation, each named by its kernel address. */
  datatype Resource = Lock(addr: nat) | Task(ptr: nat) | Reservation(data: nat)

  /** A foreign call that changes what the program holds. */
  datatype Event = Acquire(res: Resource) | Release(res: Resource)

  /** The foreign calls made so far, oldest innermost. */
  datatype Trace = Start | Then(before: Trace, last: Event)

  function Delta(e: Event, r: Resource): int {
    if e.res != r then 0 else if e.Acquire? then 1 else -1
  }

  /** How many times `r` is held after a trace of foreign calls. */
  function Held(t: Trace, r: Resource): int {
    match t
    case Start => 0
    case Then(before, e) => Held(before, r) + Delta(e, r)
  }

  /** Nothing is released that is not held, and no lock or reservation is handed out twice. */
  predicate Allowed(t: Trace, e: Event) {
    if e.Acquire? then e.res.Task? || Held(t, e.res) == 0 else Held(t, e.res) > 0
  }

  predicate Legal(t: Trace) {
    match t
    case Start => true
    case Then(before, e) => Legal(before) && Allowed(before, e)
  }

  function Count(t: Trace, e: Event): nat {
    match t
    case Start => 0
    case Then(before, last) => Count(before, e) + (if last == e then 1 else 0)
  }

  /** Held is acquisitions minus releases. */
  lemma {:induction false} HeldIsBalance(t: Trace, r: Resource)
    ensures Held(t, r) == Count(t, Acquire(r)) - Count(t, Release(r))
  {
    match t
    case Start =>
    case Then(before, _) => HeldIsBalance(before, r);
  }

  /** At every moment of a legal trace nothing is over-released, and a lock or reservation is
      held at most once. */
  lemma {:induction false} LegalHolds(t: Trace, r: Resource)
    requires Legal(t)
    ensures 0 <= Held(t, r) && (!r.Task? ==> Held(t, r) <= 1)
  {
    match t
    case Start =>
    case Then(before, _) => LegalHolds(before, r);
  }
}

module CleanupRegistry {
  import opened KernelResources
  import opened Options

  /** Matches the kernel's per-CPU definition. */
  const ENTRIES_SIZE: nat := 64

  datatype CleanupFn = UnlockSpin | ReleaseTask

  datatype CleanupEntry = CleanupEntry(valid: nat, cleanupFn: Option<CleanupFn>, cleanupArg: nat)

  const EMPTY_ENTRY := CleanupEntry(0, None, 0)

  /** The resource that `CleanupEntry::cleanup` releases, if any. */
  function Target(e: CleanupEntry): Option<Resource> {
    if e.valid == 0 || e.cleanupFn.None? then None
    else if e.cleanupFn.value.UnlockSpin? then Some(Lock(e.cleanupArg))
    else Some(Task(e.cleanupArg))
  }

  /** `CleanupEntry::cleanup`: the trace after it. */
  function Cleanup(t: Trace, e: CleanupEntry): Trace {
    if Target(e).None? then t else Then(t, Release(Target(e).value))
  }

  /** The first `n` entries cleaned in order. */
  function CleanupFirst(t: Trace, es: seq<CleanupEntry>, n: nat): Trace
    requires n <= |es|
  {
    if n == 0 then t else Cleanup(CleanupFirst(t, es, n - 1), es[n - 1])
  }

  /** How often cleaning `e` releases `r`. */
  function Covers(e: CleanupEntry, r: Resource): nat {
    if Target(e) == Some(r) then 1 else 0
  }

  /** How often cleaning the first `n` entries would release `r`. */
  function RegisteredFirst(es: seq<CleanupEntry>, n: nat, r: Resource): nat
    requires n <= |es|
  {
    if n == 0 then 0 else RegisteredFirst(es, n - 1, r) + Covers(es[n - 1], r)
  }

  /** How often a panic would release `r`. */
  function Registered(es: seq<CleanupEntry>, r: Resource): nat { RegisteredFirst(es, |es|, r) }

  lemma {:induction false} RegisteredFirstUpdate(es: seq<CleanupEntry>, n: nat, i: nat, e: CleanupEntry, r: Resource)
    requires i < |es| && n <= |es|
    ensures RegisteredFirst(es[i := e], n, r)
            == RegisteredFirst(es, n, r) + (if i < n then Covers(e, r) - Covers(es[i], r) else 0)
  {
    if n > 0 { RegisteredFirstUpdate(es, n - 1, i, e, r); }
  }

  lemma {:induction false} RegisteredUpdate(es: seq<CleanupEntry>, i: nat, e: CleanupEntry, r: Resource)
    requires i < |es|
    ensures Registered(es[i := e], r) == Registered(es, r) - Covers(es[i], r) + Covers(e, r)
  {
    RegisteredFirstUpdate(es, |es|, i, e, r);
  }

  lemma {:induction false} RegisteredFirstEmpty(es: seq<CleanupEntry>, n: nat, r: Resource)
    requires n <= |es| && forall i :: 0 <= i < |es| ==> es[i].valid == 0
    ensures RegisteredFirst(es, n, r) == 0
  {
    if n > 0 { RegisteredFirstEmpty(es, n - 1, r); }
  }

  predicate Full(es: seq<CleanupEntry>) {
    forall i :: 0 <= i < |es| ==> es[i].valid != 0
  }

  /** The slot that `find_next_emtpy_entry` returns: the lowest free one, or the
      length of the array when every entry is in use. */
  function FirstFree(es: seq<CleanupEntry>): (i: nat)
    ensures i <= |es|
    ensures forall j :: 0 <= j < i ==> es[j].valid != 0
    ensures i < |es| ==> es[i].valid == 0
  {
    FirstFreeFrom(es, 0)
  }

  function FirstFreeFrom(es: seq<CleanupEntry>, from: nat): (i: nat)
    requires from <= |es|
    requires forall j :: 0 <= j < from ==> es[j].valid != 0
    ensures i <= |es|
    ensures forall j :: 0 <= j < i ==> es[j].valid != 0
    ensures i < |es| ==> es[i].valid == 0
    decreases |es| - from
  {
    if from == |es| || es[from].valid == 0 then from else FirstFreeFrom(es, from + 1)
  }
}
