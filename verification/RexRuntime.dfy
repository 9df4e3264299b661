/** One CPU running a Rex program, as a step relation: the RAII owners of
    `rex/src/spinlock.rs`, `rex/src/task_struct.rs` and `rex/src/map.rs`, the flag
    protocol of `termination_check!` (`rex/src/base_helper.rs`) and the panic handler
    of `rex/src/panic.rs`, interleaved with watchdog ticks at every point. */

module RexRuntime {
  import opened KernelResources
  import opened CleanupRegistry
  import opened Options

  /** A live `rex_spinlock_guard` or `OwnedTaskStruct`: what it owns and its `cleanup_idx`. */
  datatype Owner = Owner(res: Resource, idx: nat)

  /** What the expression wrapped by `termination_check!` evaluates to. */
  datatype Value = Nothing | NewOwner(owner: Owner) | NewEntry(data: nat)

  datatype Origin =
    | ProgramPanic
    | TextTimeout
    | DeferredTimeout(value: Value)  // the flag was 2 when the helper returned
    | LockRegistryFull
    | TaskRegistryFull(ptr: nat)

  /** Where the CPU is. The phases from `LockEnter` to `Reset` lie inside a `termination_check!`. */
  datatype Phase =
    | Text
    | LockEnter(addr: nat)                  // about to register
    | LockRegistered(addr: nat, idx: nat)   // about to lock
    | TaskEnter                             // about to call bpf_task_from_pid
    | TaskAcquired(ptr: nat)                // about to register
    | DropEnter(owner: Owner)               // about to deregister
    | DropDeregistered(owner: Owner)        // about to release
    | ReserveEnter
    | FinishEnter(data: nat)                // about to submit or discard
    | HelperEnter                           // inside any other helper
    | Check(value: Value)                   // about to test the flag
    | Reset(value: Value)                   // test passed, about to clear the flag
    | PanicStart(origin: Origin)            // about to set the flag
    | Cleaning(next: nat, origin: Origin)   // in cleanup_all, about to clean entry `next`
    | Landed(origin: Origin)                // left through the landing pad
    | Exited                                // returned normally

  datatype Cpu = Cpu(
    entries: seq<CleanupEntry>,
    flag: nat,
    owners: map<nat, Owner>,     // live registered owners, by identity
    reservations: set<Resource>, // live ring-buffer entries
    nextId: nat,                 // next unused identity
    trace: Trace,
    phase: Phase)

  datatype Action =
    | Tick                       // the kernel watchdog
    | NewGuard(addr: nat)
    | FromPid
    | DropOwner(id: nat)
    | Reserve
    | Finish(data: nat)          // submit, discard or drop of a ring-buffer entry
    | Helper
    | Panic
    | Exit
    | Go(ret: Option<nat>)       // next statement; `ret` is what the kernel returns, if asked

  function EntryFor(res: Resource): CleanupEntry {
    match res
    case Lock(a) => CleanupEntry(1, Some(UnlockSpin), a)
    case Task(p) => CleanupEntry(1, Some(ReleaseTask), p)
    case Reservation(_) => EMPTY_ENTRY
  }

  function InitialCpu(): Cpu {
    Cpu(seq(ENTRIES_SIZE, _ => EMPTY_ENTRY), 0, map[], {}, 0, Start, Text)
  }

  function Enter(s: Cpu, p: Phase): Cpu { s.(flag := 1, phase := p) }

  function Call(s: Cpu, e: Event, p: Phase): Cpu { s.(trace := Then(s.trace, e), phase := p) }

  /** At flag 0 the watchdog diverts to `__rex_handle_timeout`; at flag 1 it leaves a
      note; at flag 2 the note is there already. */
  function TickStep(s: Cpu): Option<Cpu> {
    if s.phase.Landed? || s.phase.Exited? then None
    else if s.flag == 0 then Some(s.(phase := PanicStart(TextTimeout)))
    else Some(s.(flag := 2))
  }

  /** `register_cleanup`, whose panic on a full array is the `full` origin. */
  function RegisterStep(s: Cpu, res: Resource, full: Origin, p: nat -> Phase): Cpu {
    var i := FirstFree(s.entries);
    if i == |s.entries| then s.(phase := PanicStart(full))
    else s.(entries := s.entries[i := EntryFor(res)], phase := p(i))
  }

  function DeliverStep(s: Cpu, v: Value): Cpu {
    match v
    case Nothing => s.(flag := 0, phase := Text)
    case NewOwner(o) => s.(flag := 0, phase := Text, owners := s.owners[s.nextId := o], nextId := s.nextId + 1)
    case NewEntry(d) => s.(flag := 0, phase := Text, reservations := s.reservations + {Reservation(d)})
  }

  function CleanStep(s: Cpu, next: nat, origin: Origin): Cpu {
    if next < |s.entries| then
      s.(trace := Cleanup(s.trace, s.entries[next]),
         entries := s.entries[next := s.entries[next].(valid := 0)],
         phase := Cleaning(next + 1, origin))
    else s.(phase := Landed(origin))
  }

  /** The statements of the constructors and drop handlers of registered owners. */
  function OwnerStep(s: Cpu, ret: Option<nat>): Option<Cpu> {
    match s.phase
    case LockEnter(a) => Some(RegisterStep(s, Lock(a), LockRegistryFull, (i: nat) => LockRegistered(a, i)))
    case LockRegistered(a, i) =>  // spins while the lock is taken
      if Held(s.trace, Lock(a)) != 0 then None
      else Some(Call(s, Acquire(Lock(a)), Check(NewOwner(Owner(Lock(a), i)))))
    case TaskEnter =>
      if ret.None? then Some(s.(phase := Check(Nothing)))
      else Some(Call(s, Acquire(Task(ret.value)), TaskAcquired(ret.value)))
    case TaskAcquired(p) =>
      Some(RegisterStep(s, Task(p), TaskRegistryFull(p), (i: nat) => Check(NewOwner(Owner(Task(p), i)))))
    case DropEnter(o) =>
      if o.idx < |s.entries| then
        Some(s.(entries := s.entries[o.idx := s.entries[o.idx].(valid := 0)], phase := DropDeregistered(o)))
      else None
    case DropDeregistered(o) => Some(Call(s, Release(o.res), Check(Nothing)))
    case _ => None
  }

  /** The bodies of the ring-buffer calls and of every other helper. */
  function HelperStep(s: Cpu, ret: Option<nat>): Option<Cpu> {
    match s.phase
    case ReserveEnter =>
      if ret.None? then Some(s.(phase := Check(Nothing)))
      else if Held(s.trace, Reservation(ret.value)) != 0 then None  // the kernel hands out free space only
      else Some(Call(s, Acquire(Reservation(ret.value)), Check(NewEntry(ret.value))))
    case FinishEnter(d) => Some(Call(s, Release(Reservation(d)), Check(Nothing)))
    case HelperEnter => Some(s.(phase := Check(Nothing)))
    case _ => None
  }

  /** The end of `termination_check!`, and the panic handler. */
  function ControlStep(s: Cpu): Option<Cpu> {
    match s.phase
    case Check(v) => Some(s.(phase := if s.flag == 2 then PanicStart(DeferredTimeout(v)) else Reset(v)))
    case Reset(v) => Some(DeliverStep(s, v))
    case PanicStart(o) => Some(s.(flag := 1, phase := Cleaning(0, o)))
    case Cleaning(n, o) => Some(CleanStep(s, n, o))
    case _ => None
  }

  predicate InOwner(p: Phase) {
    p.LockEnter? || p.LockRegistered? || p.TaskEnter? || p.TaskAcquired? || p.DropEnter? || p.DropDeregistered?
  }

  predicate InHelper(p: Phase) { p.ReserveEnter? || p.FinishEnter? || p.HelperEnter? }

  function GoStep(s: Cpu, ret: Option<nat>): Option<Cpu> {
    if InOwner(s.phase) then OwnerStep(s, ret)
    else if InHelper(s.phase) then HelperStep(s, ret)
    else ControlStep(s)
  }

  function TextStep(s: Cpu, a: Action): Option<Cpu>
    requires s.phase.Text?
  {
    match a
    case NewGuard(l) => Some(Enter(s, LockEnter(l)))
    case FromPid => Some(Enter(s, TaskEnter))
    case DropOwner(id) =>
      if id in s.owners then Some(Enter(s.(owners := s.owners - {id}), DropEnter(s.owners[id]))) else None
    case Reserve => Some(Enter(s, ReserveEnter))
    case Finish(d) =>
      if Reservation(d) in s.reservations
      then Some(Enter(s.(reservations := s.reservations - {Reservation(d)}), FinishEnter(d))) else None
    case Helper => Some(Enter(s, HelperEnter))
    case Panic => Some(s.(phase := PanicStart(ProgramPanic)))
    case Exit => if s.owners == map[] && s.reservations == {} then Some(s.(phase := Exited)) else None
    case _ => None
  }

  /** One step of the CPU, or None when the action is not possible here. */
  function Step(s: Cpu, a: Action): Option<Cpu> {
    if a.Tick? then TickStep(s)
    else if a.Go? then GoStep(s, a.ret)
    else if s.phase.Text? then TextStep(s, a)
    else None
  }

  function Run(s: Cpu, actions: seq<Action>): Option<Cpu> {
    if actions == [] then Some(s)
    else
      var before := Run(s, actions[..|actions| - 1]);
      if before.None? then None else Step(before.value, actions[|actions| - 1])
  }

  // ---------------------------------------------------------------- the invariant

  /** The owner being built or torn down whose slot is valid. */
  function Pending(p: Phase): Option<Owner> {
    if p.LockRegistered? then Some(Owner(Lock(p.addr), p.idx))
    else if p.DropEnter? then Some(p.owner)
    else if (p.Check? || p.Reset?) && p.value.NewOwner? then Some(p.value.owner)
    else if p.PanicStart? && p.origin.DeferredTimeout? && p.origin.value.NewOwner? then Some(p.origin.value.owner)
    else None
  }

  ghost predicate OwnsSlot(es: seq<CleanupEntry>, o: Owner) {
    o.idx < |es| && !o.res.Reservation? && es[o.idx] == EntryFor(o.res)
  }

  ghost predicate Occupied(owners: map<nat, Owner>, pending: Option<Owner>, i: nat) {
    (exists id :: id in owners && owners[id].idx == i) || (pending.Some? && pending.value.idx == i)
  }

  /** Valid slots and live owners correspond one to one, with matching arguments. */
  ghost predicate Bijective(es: seq<CleanupEntry>, owners: map<nat, Owner>, pending: Option<Owner>) {
    && (forall id :: id in owners ==> OwnsSlot(es, owners[id]))
    && (pending.Some? ==> OwnsSlot(es, pending.value))
    && (forall i, j :: i in owners && j in owners && i != j ==> owners[i].idx != owners[j].idx)
    && (forall id :: id in owners && pending.Some? ==> owners[id].idx != pending.value.idx)
    && (forall i :: 0 <= i < |es| && es[i].valid != 0 ==> Occupied(owners, pending, i))
  }

  function One(b: bool): nat { if b then 1 else 0 }

  /** What a panic leaves behind besides the live reservations: it is held, and no slot names it. */
  predicate LostBy(o: Origin, r: Resource) {
    || (o.TaskRegistryFull? && r == Task(o.ptr))
    || (o.DeferredTimeout? && o.value.NewEntry? && r == Reservation(o.value.data))
  }

  /** `r` is held without being registered. */
  predicate Unregistered(p: Phase, r: Resource) {
    || (p.TaskAcquired? && r == Task(p.ptr))
    || (p.DropDeregistered? && r == p.owner.res)
    || (p.FinishEnter? && r == Reservation(p.data))
    || (Delivering(p) && r == Reservation(p.value.data))
    || ((p.PanicStart? || Panicking(p)) && LostBy(p.origin, r))
  }

  /** `r` is registered without being held. */
  predicate NotYetHeld(p: Phase, r: Resource) {
    p.LockRegistered? && r == Lock(p.addr)
  }

  predicate Delivering(p: Phase) { (p.Check? || p.Reset?) && p.value.NewEntry? }

  predicate Panicking(p: Phase) { p.Cleaning? || p.Landed? }

  predicate Interruptible(p: Phase) {
    p == Text || p == Exited || p == PanicStart(ProgramPanic) || p == PanicStart(TextTimeout)
  }

  /** What the kernel has handed out is what the runtime accounts for. */
  ghost predicate Balanced(s: Cpu, r: Resource) {
    Held(s.trace, r) + One(NotYetHeld(s.phase, r))
    == Registered(s.entries, r) + One(Unregistered(s.phase, r)) + One(r in s.reservations)
  }

  ghost predicate Accounted(s: Cpu) {
    Legal(s.trace) && forall r :: Balanced(s, r)
  }

  ghost predicate Corresponds(s: Cpu) {
    !Panicking(s.phase) ==> Bijective(s.entries, s.owners, Pending(s.phase))
  }

  ghost predicate Cleared(es: seq<CleanupEntry>, n: nat) {
    n <= |es| && forall i :: 0 <= i < n ==> es[i].valid == 0
  }

  ghost predicate Shape(s: Cpu) {
    && |s.entries| == ENTRIES_SIZE
    && s.flag <= 2
    && (s.flag == 0 ==> Interruptible(s.phase))
    && (s.phase.Text? || s.phase.Exited? ==> s.flag == 0)
    && (forall id :: id in s.owners ==> id < s.nextId)
    && (forall r :: r in s.reservations ==> r.Reservation?)
    && (s.phase.Cleaning? ==> Cleared(s.entries, s.phase.next))
    && (s.phase.Landed? ==> Cleared(s.entries, ENTRIES_SIZE))
    && (Delivering(s.phase) ==> Reservation(s.phase.value.data) !in s.reservations)
    && (s.phase.Exited? ==> s.owners == map[] && s.reservations == {})
  }

  ghost predicate Inv(s: Cpu) {
    Shape(s) && Accounted(s) && Corresponds(s)
  }

  lemma {:induction false} InitialInv()
    ensures Inv(InitialCpu())
  {
    forall r ensures Balanced(InitialCpu(), r) { RegisteredFirstEmpty(InitialCpu().entries, ENTRIES_SIZE, r); }
  }

  // Accounting, statement by statement.

  lemma {:induction false} RegisterBalances(s: Cpu, res: Resource, r: Resource)
    requires FirstFree(s.entries) < |s.entries| && !res.Reservation?
    ensures Registered(s.entries[FirstFree(s.entries) := EntryFor(res)], r) == Registered(s.entries, r) + One(r == res)
  {
    RegisteredUpdate(s.entries, FirstFree(s.entries), EntryFor(res), r);
  }

  lemma {:induction false} LockRegisterBalances(s: Cpu, a: nat, r: Resource)
    requires Balanced(s, r) && s.phase == LockEnter(a)
    ensures Balanced(RegisterStep(s, Lock(a), LockRegistryFull, (i: nat) => LockRegistered(a, i)), r)
  {
    if FirstFree(s.entries) < |s.entries| { RegisterBalances(s, Lock(a), r); }
  }

  lemma {:induction false} TaskRegisterBalances(s: Cpu, p: nat, r: Resource)
    requires Balanced(s, r) && s.phase == TaskAcquired(p)
    ensures Balanced(RegisterStep(s, Task(p), TaskRegistryFull(p), (i: nat) => Check(NewOwner(Owner(Task(p), i)))), r)
  {
    if FirstFree(s.entries) < |s.entries| { RegisterBalances(s, Task(p), r); }
  }

  lemma {:induction false} InvalidateBalances(es: seq<CleanupEntry>, i: nat, r: Resource)
    requires i < |es|
    ensures Registered(es[i := es[i].(valid := 0)], r) == Registered(es, r) - Covers(es[i], r)
  {
    RegisteredUpdate(es, i, es[i].(valid := 0), r);
  }

  lemma {:induction false} DropBalances(s: Cpu, o: Owner, r: Resource)
    requires Balanced(s, r) && s.phase == DropEnter(o) && OwnsSlot(s.entries, o)
    ensures Balanced(s.(entries := s.entries[o.idx := s.entries[o.idx].(valid := 0)], phase := DropDeregistered(o)), r)
  {
    InvalidateBalances(s.entries, o.idx, r);
  }

  lemma {:induction false} CleanBalances(s: Cpu, r: Resource)
    requires Balanced(s, r) && s.phase.Cleaning?
    ensures Balanced(CleanStep(s, s.phase.next, s.phase.origin), r)
  {
    var n := s.phase.next;
    if n < |s.entries| {
      InvalidateBalances(s.entries, n, r);
    }
  }

  lemma {:induction false} CallBalances(s: Cpu, e: Event, p: Phase, r: Resource)
    requires Balanced(s, r)
    requires Delta(e, r) + One(NotYetHeld(p, r)) + One(Unregistered(s.phase, r))
             == One(NotYetHeld(s.phase, r)) + One(Unregistered(p, r))
    ensures Balanced(Call(s, e, p), r)
  {
  }

  lemma {:induction false} OwnerBalances(s: Cpu, ret: Option<nat>, r: Resource)
    requires Corresponds(s) && Balanced(s, r) && OwnerStep(s, ret).Some?
    ensures Balanced(OwnerStep(s, ret).value, r)
  {
    match s.phase
    case LockEnter(a) => LockRegisterBalances(s, a, r);
    case LockRegistered(a, i) => CallBalances(s, Acquire(Lock(a)), Check(NewOwner(Owner(Lock(a), i))), r);
    case TaskEnter =>
      if ret.Some? { CallBalances(s, Acquire(Task(ret.value)), TaskAcquired(ret.value), r); }
    case TaskAcquired(p) => TaskRegisterBalances(s, p, r);
    case DropEnter(o) => DropBalances(s, o, r);
    case DropDeregistered(o) => CallBalances(s, Release(o.res), Check(Nothing), r);
  }

  lemma {:induction false} HelperBalances(s: Cpu, ret: Option<nat>, r: Resource)
    requires Balanced(s, r) && HelperStep(s, ret).Some?
    ensures Balanced(HelperStep(s, ret).value, r)
  {
    match s.phase
    case ReserveEnter =>
      if ret.Some? { CallBalances(s, Acquire(Reservation(ret.value)), Check(NewEntry(ret.value)), r); }
    case FinishEnter(d) => CallBalances(s, Release(Reservation(d)), Check(Nothing), r);
    case HelperEnter =>
  }

  lemma {:induction false} ControlBalances(s: Cpu, r: Resource)
    requires Shape(s) && Balanced(s, r) && ControlStep(s).Some?
    ensures Balanced(ControlStep(s).value, r)
  {
    if s.phase.Cleaning? { CleanBalances(s, r); }
  }

  lemma {:induction false} CleanLegal(s: Cpu)
    requires Accounted(s) && s.phase.Cleaning?
    ensures Legal(CleanStep(s, s.phase.next, s.phase.origin).trace)
  {
    var n := s.phase.next;
    if n < |s.entries| {
      var target := Target(s.entries[n]);
      if target.Some? {
        InvalidateBalances(s.entries, n, target.value);
        assert Balanced(s, target.value);
      }
    }
  }

  lemma {:induction false} CallLegal(s: Cpu, e: Event, p: Phase)
    requires Accounted(s) && Allowed(s.trace, e)
    ensures Legal(Call(s, e, p).trace)
  {
  }

  lemma {:induction false} OwnerLegal(s: Cpu, ret: Option<nat>)
    requires Accounted(s) && OwnerStep(s, ret).Some?
    ensures Legal(OwnerStep(s, ret).value.trace)
  {
    match s.phase
    case LockRegistered(a, i) => CallLegal(s, Acquire(Lock(a)), Check(NewOwner(Owner(Lock(a), i))));
    case TaskEnter =>
      if ret.Some? { CallLegal(s, Acquire(Task(ret.value)), TaskAcquired(ret.value)); }
    case DropDeregistered(o) =>
      assert Balanced(s, o.res);
      CallLegal(s, Release(o.res), Check(Nothing));
    case _ =>
  }

  lemma {:induction false} HelperLegal(s: Cpu, ret: Option<nat>)
    requires Accounted(s) && HelperStep(s, ret).Some?
    ensures Legal(HelperStep(s, ret).value.trace)
  {
    match s.phase
    case ReserveEnter =>
      if ret.Some? { CallLegal(s, Acquire(Reservation(ret.value)), Check(NewEntry(ret.value))); }
    case FinishEnter(d) =>
      assert Balanced(s, Reservation(d));
      CallLegal(s, Release(Reservation(d)), Check(Nothing));
    case HelperEnter =>
  }

  // The correspondence of slots and owners.

  lemma {:induction false} BijectiveTake(es: seq<CleanupEntry>, owners: map<nat, Owner>, id: nat)
    requires Bijective(es, owners, None) && id in owners
    ensures Bijective(es, owners - {id}, Some(owners[id]))
  {
    forall i | 0 <= i < |es| && es[i].valid != 0
      ensures Occupied(owners - {id}, Some(owners[id]), i)
    {
      assert Occupied(owners, None, i);
      var k :| k in owners && owners[k].idx == i;
      assert k == id || k in owners - {id};
    }
  }

  lemma {:induction false} BijectivePut(es: seq<CleanupEntry>, owners: map<nat, Owner>, o: Owner, id: nat)
    requires Bijective(es, owners, Some(o)) && id !in owners
    ensures Bijective(es, owners[id := o], None)
  {
    forall i | 0 <= i < |es| && es[i].valid != 0
      ensures Occupied(owners[id := o], None, i)
    {
      assert Occupied(owners, Some(o), i);
      assert owners[id := o][id].idx == o.idx;
      if o.idx != i {
        var k :| k in owners && owners[k].idx == i;
        assert owners[id := o][k].idx == i;
      }
    }
  }

  lemma {:induction false} BijectiveRegister(es: seq<CleanupEntry>, owners: map<nat, Owner>, o: Owner)
    requires Bijective(es, owners, None) && o.idx < |es| && es[o.idx].valid == 0 && !o.res.Reservation?
    ensures Bijective(es[o.idx := EntryFor(o.res)], owners, Some(o))
  {
    forall i | 0 <= i < |es| && es[o.idx := EntryFor(o.res)][i].valid != 0
      ensures Occupied(owners, Some(o), i)
    {
      if i != o.idx { assert Occupied(owners, None, i); }
    }
  }

  lemma {:induction false} BijectiveDeregister(es: seq<CleanupEntry>, owners: map<nat, Owner>, o: Owner)
    requires Bijective(es, owners, Some(o))
    ensures Bijective(es[o.idx := es[o.idx].(valid := 0)], owners, None)
  {
    forall i | 0 <= i < |es| && es[o.idx := es[o.idx].(valid := 0)][i].valid != 0
      ensures Occupied(owners, None, i)
    {
      assert Occupied(owners, Some(o), i);
    }
  }

  lemma {:induction false} OwnerCorresponds(s: Cpu, ret: Option<nat>)
    requires Corresponds(s) && OwnerStep(s, ret).Some?
    ensures Corresponds(OwnerStep(s, ret).value)
  {
    match s.phase
    case LockEnter(l) => LockCorresponds(s, l);
    case TaskAcquired(p) => TaskCorresponds(s, p);
    case DropEnter(o) => DropCorresponds(s, o);
    case _ =>
  }

  lemma {:induction false} LockCorresponds(s: Cpu, l: nat)
    requires Corresponds(s) && s.phase == LockEnter(l)
    ensures Corresponds(RegisterStep(s, Lock(l), LockRegistryFull, (i: nat) => LockRegistered(l, i)))
  {
    var i := FirstFree(s.entries);
    if i < |s.entries| { BijectiveRegister(s.entries, s.owners, Owner(Lock(l), i)); }
  }

  lemma {:induction false} TaskCorresponds(s: Cpu, p: nat)
    requires Corresponds(s) && s.phase == TaskAcquired(p)
    ensures Corresponds(RegisterStep(s, Task(p), TaskRegistryFull(p), (i: nat) => Check(NewOwner(Owner(Task(p), i)))))
  {
    var i := FirstFree(s.entries);
    if i < |s.entries| { BijectiveRegister(s.entries, s.owners, Owner(Task(p), i)); }
  }

  lemma {:induction false} DropCorresponds(s: Cpu, o: Owner)
    requires Corresponds(s) && s.phase == DropEnter(o)
    ensures o.idx < |s.entries|
    ensures Corresponds(s.(entries := s.entries[o.idx := s.entries[o.idx].(valid := 0)], phase := DropDeregistered(o)))
  {
    BijectiveDeregister(s.entries, s.owners, o);
  }

  lemma {:induction false} OwnerShape(s: Cpu, ret: Option<nat>)
    requires Shape(s) && OwnerStep(s, ret).Some?
    ensures Shape(OwnerStep(s, ret).value)
  {
  }

  lemma {:induction false} OwnerKeepsInv(s: Cpu, ret: Option<nat>)
    requires Inv(s) && OwnerStep(s, ret).Some?
    ensures Inv(OwnerStep(s, ret).value)
  {
    OwnerShape(s, ret);
    OwnerLegal(s, ret);
    forall r ensures Balanced(OwnerStep(s, ret).value, r) { OwnerBalances(s, ret, r); }
    OwnerCorresponds(s, ret);
  }

  lemma {:induction false} HelperKeepsInv(s: Cpu, ret: Option<nat>)
    requires Inv(s) && HelperStep(s, ret).Some?
    ensures Inv(HelperStep(s, ret).value)
  {
    HelperLegal(s, ret);
    forall r ensures Balanced(HelperStep(s, ret).value, r) { HelperBalances(s, ret, r); }
    if ret.Some? { assert Balanced(s, Reservation(ret.value)); }
  }

  lemma {:induction false} ControlKeepsInv(s: Cpu)
    requires Inv(s) && ControlStep(s).Some?
    ensures Inv(ControlStep(s).value)
  {
    if s.phase.Cleaning? { CleanLegal(s); }
    forall r ensures Balanced(ControlStep(s).value, r) { ControlBalances(s, r); }
    if s.phase.Reset? && s.phase.value.NewOwner? { BijectivePut(s.entries, s.owners, s.phase.value.owner, s.nextId); }
  }

  lemma {:induction false} TextAccounted(s: Cpu, a: Action)
    requires Accounted(s) && s.phase.Text? && TextStep(s, a).Some?
    ensures Accounted(TextStep(s, a).value)
  {
    forall r ensures Balanced(TextStep(s, a).value, r) { assert Balanced(s, r); }
  }

  lemma {:induction false} TextCorresponds(s: Cpu, a: Action)
    requires Corresponds(s) && s.phase.Text? && TextStep(s, a).Some?
    ensures Corresponds(TextStep(s, a).value)
  {
    if a.DropOwner? { BijectiveTake(s.entries, s.owners, a.id); }
  }

  lemma {:induction false} TextKeepsInv(s: Cpu, a: Action)
    requires Inv(s) && s.phase.Text? && TextStep(s, a).Some?
    ensures Inv(TextStep(s, a).value)
  {
    TextAccounted(s, a);
    TextCorresponds(s, a);
  }

  lemma {:induction false} TickKeepsInv(s: Cpu)
    requires Inv(s) && TickStep(s).Some?
    ensures Inv(TickStep(s).value)
  {
    forall r ensures Balanced(TickStep(s).value, r) { assert Balanced(s, r); }
  }

  lemma {:induction false} StepKeepsInv(s: Cpu, a: Action)
    requires Inv(s) && Step(s, a).Some?
    ensures Inv(Step(s, a).value)
  {
    if a.Tick? {
      TickKeepsInv(s);
    } else if a.Go? {
      if InOwner(s.phase) { OwnerKeepsInv(s, a.ret); }
      else if InHelper(s.phase) { HelperKeepsInv(s, a.ret); }
      else { ControlKeepsInv(s); }
    } else {
      TextKeepsInv(s, a);
    }
  }

  /** Every state of every run satisfies the invariant. */
  lemma {:induction false} RunKeepsInv(s: Cpu, actions: seq<Action>)
    requires Inv(s) && Run(s, actions).Some?
    ensures Inv(Run(s, actions).value)
  {
    if actions != [] {
      var init := actions[..|actions| - 1];
      RunKeepsInv(s, init);
      StepKeepsInv(Run(s, init).value, actions[|actions| - 1]);
    }
  }

  // Composing runs.

  lemma RunSnoc(s: Cpu, actions: seq<Action>, a: Action)
    ensures Run(s, actions + [a]) == (if Run(s, actions).None? then None else Step(Run(s, actions).value, a))
  {
    assert (actions + [a])[..|actions|] == actions;
  }

  lemma {:induction false} RunConcat(s: Cpu, first: seq<Action>, second: seq<Action>)
    ensures Run(s, first + second) == (if Run(s, first).None? then None else Run(Run(s, first).value, second))
  {
    if second == [] {
      assert first + second == first;
    } else {
      var init := second[..|second| - 1];
      RunConcat(s, first, init);
      assert (first + second)[..|first + second| - 1] == first + init;
    }
  }

  function Gos(n: nat): (a: seq<Action>)
    ensures |a| == n
  {
    if n == 0 then [] else Gos(n - 1) + [Go(None)]
  }

  lemma Run2(s: Cpu, a: Action, b: Action)
    ensures Run(s, [a]) == Step(s, a)
    ensures Run(s, [a, b]) == (if Step(s, a).None? then None else Step(Step(s, a).value, b))
  {
    RunSnoc(s, [], a);
    assert [] + [a] == [a];
    RunSnoc(s, [a], b);
    assert [a] + [b] == [a, b];
  }

  lemma Run3(s: Cpu, a: Action, b: Action, c: Action)
    ensures Run(s, [a, b, c]) == (if Run(s, [a, b]).None? then None else Step(Run(s, [a, b]).value, c))
    ensures Run(s, [a, b]) == (if Step(s, a).None? then None else Step(Step(s, a).value, b))
  {
    Run2(s, a, b);
    RunSnoc(s, [a, b], c);
    assert [a, b] + [c] == [a, b, c];
  }

  lemma {:induction false} GosConcat(a: nat, b: nat)
    ensures Gos(a) + Gos(b) == Gos(a + b)
  {
    if b > 0 {
      GosConcat(a, b - 1);
      assert Gos(a) + Gos(b) == Gos(a) + Gos(b - 1) + [Go(None)];
    } else {
      assert Gos(a) + Gos(0) == Gos(a);
    }
  }

  lemma {:induction false} RunOne(s: Cpu, a: Action)
    ensures Run(s, [a]) == Step(s, a)
    ensures a == Go(None) ==> Gos(1) == [a]
  {
    RunSnoc(s, [], a);
    assert [] + [a] == [a];
  }
}
