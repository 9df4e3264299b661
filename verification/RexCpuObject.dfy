/** The same runtime in the form of its source: methods that scan and overwrite the
    per-CPU array and the termination flag in place. Each method is proved to be a run of
    the step relation of `RexRuntime`, so the theorems about runs are about this code. */

module RexCpuObject {
  import opened KernelResources
  import opened CleanupRegistry
  import opened Options
  import opened RexRuntime

  datatype Outcome = Returned | Panicked(origin: Origin)

  /** When the watchdog fires inside a helper: not at all, before the flag is tested, or between
      the test and the reset. */
  datatype TickAt = Never | BeforeTest | AfterTest

  class RexCpu {
    const entries: array<CleanupEntry>
    var flag: nat
    var owners: map<nat, Owner>
    var reservations: set<Resource>
    var nextId: nat
    var trace: Trace

    ghost predicate Valid()
      reads this
    {
      entries.Length == ENTRIES_SIZE
    }

    ghost function View(p: Phase): Cpu
      reads this, entries
    {
      Cpu(entries[..], flag, owners, reservations, nextId, trace, p)
    }

    /** Every slot is free, and what the valid ones named was released in order. */
    ghost predicate Swept(es: seq<CleanupEntry>, before: Trace)
      reads this, entries
    {
      entries[..] == Freed(es, |es|) && trace == CleanupFirst(before, es, |es|)
    }

    /** The program goes on with `v`, and with these calls made. */
    ghost predicate Resumed(v: Value, es: seq<CleanupEntry>, before: map<nat, Owner>, reserved: set<Resource>, id: nat, t: Trace)
      reads this, entries
    {
      && flag == 0 && entries[..] == es && trace == t
      && owners == (if v.NewOwner? then before[id := v.owner] else before)
      && nextId == (if v.NewOwner? then id + 1 else id)
      && reservations == (if v.NewEntry? then reserved + {Reservation(v.data)} else reserved)
    }

    constructor ()
      ensures Valid() && fresh(entries) && View(Text) == InitialCpu()
    {
      entries := new CleanupEntry[ENTRIES_SIZE](_ => EMPTY_ENTRY);
      flag, owners, reservations, nextId, trace := 0, map[], {}, 0, Start;
      new;
      assert entries[..] == InitialCpu().entries;
    }

    /** `find_next_emtpy_entry`; None where the source panics. */
    method FindNextEmptyEntry() returns (r: Option<nat>)
      requires Valid()
      ensures r == (if FirstFree(entries[..]) == ENTRIES_SIZE then None else Some(FirstFree(entries[..])))
    {
      var i := 0;
      while i < entries.Length
        invariant i <= entries.Length
        invariant forall j :: 0 <= j < i ==> entries[j].valid != 0
      {
        if entries[i].valid == 0 {
          return Some(i);
        }
        i := i + 1;
      }
      return None;
    }

    method RegisterCleanup(f: CleanupFn, arg: nat) returns (r: Option<nat>)
      requires Valid()
      modifies entries
      ensures r == (if FirstFree(old(entries[..])) == ENTRIES_SIZE then None else Some(FirstFree(old(entries[..]))))
      ensures entries[..] == (if r.None? then old(entries[..]) else old(entries[..])[r.value := CleanupEntry(1, Some(f), arg)])
    {
      r := FindNextEmptyEntry();
      if r.Some? {
        entries[r.value] := CleanupEntry(1, Some(f), arg);
      }
    }

    method DeregisterCleanup(idx: nat)
      requires Valid() && idx < ENTRIES_SIZE
      modifies entries
      ensures entries[..] == old(entries[..])[idx := old(entries[idx]).(valid := 0)]
    {
      entries[idx] := entries[idx].(valid := 0);
    }

    /** `cleanup_all`: releases what the valid entries name, in order, and frees every slot. */
    method CleanupAll(ghost o: Origin)
      requires Valid()
      modifies entries, `trace
      ensures entries[..] == Freed(old(entries[..]), entries.Length)
      ensures trace == CleanupFirst(old(trace), old(entries[..]), entries.Length)
      ensures Run(old(View(Cleaning(0, o))), Gos(entries.Length)) == Some(View(Cleaning(entries.Length, o)))
    {
      ghost var start, es := View(Cleaning(0, o)), entries[..];
      var i := 0;
      assert entries[..] == Freed(es, 0);
      while i < entries.Length
        invariant i <= entries.Length && entries[..] == Freed(es, i)
        invariant trace == CleanupFirst(old(trace), es, i)
        invariant Run(start, Gos(i)) == Some(View(Cleaning(i, o)))
      {
        CleanRun(start, i, View(Cleaning(i, o)), o);
        FreedStep(es, i);
        CleanEntry(i, o);
        i := i + 1;
      }
    }

    method CleanEntry(i: nat, ghost o: Origin)
      requires i < entries.Length
      modifies entries, `trace
      ensures entries[..] == old(entries[..])[i := old(entries[i]).(valid := 0)]
      ensures trace == Cleanup(old(trace), old(entries[i]))
      ensures View(Cleaning(i + 1, o)) == CleanStep(old(View(Cleaning(i, o))), i, o)
    {
      trace := Cleanup(trace, entries[i]);
      entries[i] := entries[i].(valid := 0);
    }

    /** The panic handler up to the landing pad: the flag is set, each entry is cleaned. */
    method HandlePanic(ghost o: Origin)
      requires Valid()
      modifies this, entries
      ensures Run(old(View(PanicStart(o))), PanicScript(entries.Length)) == Some(View(Landed(o)))
      ensures flag == 1 && Swept(old(entries[..]), old(trace))
      ensures owners == old(owners) && reservations == old(reservations) && nextId == old(nextId)
    {
      ghost var start := View(PanicStart(o));
      flag := 1;
      ghost var cleaning := View(Cleaning(0, o));
      CleanupAll(o);
      PanicRun(start, cleaning, entries.Length, View(Cleaning(entries.Length, o)), View(Landed(o)));
    }

    /** The end of `termination_check!`, where the watchdog fires as `tick` says. */
    method EndTerminationCheck(v: Value, tick: TickAt) returns (out: Outcome)
      requires Valid() && flag == 1
      modifies this, entries
      ensures out == if tick == BeforeTest then Panicked(DeferredTimeout(v)) else Returned
      ensures Run(old(View(Check(v))), CheckScript(entries.Length, tick)) == Some(View(PhaseAfter(out)))
      ensures out.Returned? ==> Resumed(v, old(entries[..]), old(owners), old(reservations), old(nextId), old(trace))
      ensures out.Panicked? ==> flag == 1 && Swept(old(entries[..]), old(trace))
      ensures out.Panicked? ==> owners == old(owners) && reservations == old(reservations)
    {
      ghost var s0 := View(Check(v));
      if tick == BeforeTest {
        flag := 2;  // written by the kernel
      }
      if flag == 2 {
        var o := DeferredTimeout(v);
        Run2(s0, Tick, Go(None));
        assert Run(s0, [Tick, Go(None)]) == Some(View(PanicStart(o)));
        HandlePanic(o);
        RunConcat(s0, [Tick, Go(None)], PanicScript(entries.Length));
        return Panicked(o);
      }
      Deliver(v, tick == AfterTest);
      return Returned;
    }

    /** The reset of the flag, and the result handed to the program. A tick between test and
        reset is overwritten. */
    method Deliver(v: Value, late: bool)
      requires flag == 1
      modifies this
      ensures Run(old(View(Check(v))), if late then [Go(None), Tick, Go(None)] else [Go(None), Go(None)]) == Some(View(Text))
      ensures Resumed(v, old(entries[..]), old(owners), old(reservations), old(nextId), old(trace))
    {
      ghost var s0 := View(Check(v));
      if late {
        flag := 2;  // written by the kernel
      }
      flag := 0;
      match v {
        case Nothing =>
        case NewOwner(o) => owners, nextId := owners[nextId := o], nextId + 1;
        case NewEntry(d) => reservations := reservations + {Reservation(d)};
      }
      Run2(s0, Go(None), Go(None));
      Run3(s0, Go(None), Tick, Go(None));
    }

    /** `rex_spinlock_guard::new`. The call does not return while the lock is held, so it is
        described for a free lock. */
    method NewSpinlockGuard(lock: nat, tick: TickAt) returns (out: Outcome)
      requires Valid() && flag == 0 && Held(trace, Lock(lock)) == 0
      modifies this, entries
      ensures out == (if FirstFree(old(entries[..])) == ENTRIES_SIZE then Panicked(LockRegistryFull)
                      else if tick == BeforeTest then Panicked(DeferredTimeout(NewOwner(Owner(Lock(lock), FirstFree(old(entries[..]))))))
                      else Returned)
      ensures Run(old(View(Text)), GuardScript(entries.Length, lock, tick, out)) == Some(View(PhaseAfter(out)))
      ensures out.Returned? ==>
                var i := FirstFree(old(entries[..]));
                Resumed(NewOwner(Owner(Lock(lock), i)), old(entries[..])[i := CleanupEntry(1, Some(UnlockSpin), lock)],
                        old(owners), old(reservations), old(nextId), Then(old(trace), Acquire(Lock(lock))))
    {
      ghost var s0 := View(Text);
      flag := 1;
      Run2(s0, NewGuard(lock), Go(None));
      var idx := RegisterCleanup(UnlockSpin, lock);
      if idx.None? {
        out := Panicked(LockRegistryFull);
        assert Run(s0, [NewGuard(lock), Go(None)]) == Some(View(PanicStart(out.origin)));
        HandlePanic(out.origin);
        RunConcat(s0, [NewGuard(lock), Go(None)], PanicScript(entries.Length));
      } else {
        assert Run(s0, [NewGuard(lock), Go(None)]) == Some(View(LockRegistered(lock, idx.value)));
        trace := Then(trace, Acquire(Lock(lock)));
        ghost var v := NewOwner(Owner(Lock(lock), idx.value));
        Run3(s0, NewGuard(lock), Go(None), Go(None));
        assert Run(s0, [NewGuard(lock), Go(None), Go(None)]) == Some(View(Check(v)));
        out := EndTerminationCheck(NewOwner(Owner(Lock(lock), idx.value)), tick);
        RunConcat(s0, [NewGuard(lock), Go(None), Go(None)], CheckScript(entries.Length, tick));
      }
    }

    /** `OwnedTaskStruct::from_pid`, where the kernel finds `task`. */
    method TaskFromPid(task: Option<nat>, tick: TickAt) returns (out: Outcome)
      requires Valid() && flag == 0
      modifies this, entries
      ensures out == (if task.Some? && FirstFree(old(entries[..])) == ENTRIES_SIZE then Panicked(TaskRegistryFull(task.value))
                      else if tick != BeforeTest then Returned
                      else if task.None? then Panicked(DeferredTimeout(Nothing))
                      else Panicked(DeferredTimeout(NewOwner(Owner(Task(task.value), FirstFree(old(entries[..])))))))
      ensures Run(old(View(Text)), if task.None? then [FromPid, Go(None)] + CheckScript(entries.Length, tick)
                                   else TaskScript(entries.Length, task, tick, out)) == Some(View(PhaseAfter(out)))
      ensures out.Returned? && task.None? ==>
                Resumed(Nothing, old(entries[..]), old(owners), old(reservations), old(nextId), old(trace))
      ensures out.Returned? && task.Some? ==>
                var i := FirstFree(old(entries[..]));
                Resumed(NewOwner(Owner(Task(task.value), i)),
                        old(entries[..])[i := CleanupEntry(1, Some(ReleaseTask), task.value)],
                        old(owners), old(reservations), old(nextId), Then(old(trace), Acquire(Task(task.value))))
    {
      ghost var s0 := View(Text);
      flag := 1;
      Run2(s0, FromPid, Go(task));
      if task.None? {
        assert Run(s0, [FromPid, Go(task)]) == Some(View(Check(Nothing)));
        out := EndTerminationCheck(Nothing, tick);
        RunConcat(s0, [FromPid, Go(task)], CheckScript(entries.Length, tick));
        return;
      }
      trace := Then(trace, Acquire(Task(task.value)));
      assert Run(s0, [FromPid, Go(task)]) == Some(View(TaskAcquired(task.value)));
      Run3(s0, FromPid, Go(task), Go(None));
      ghost var script := [FromPid, Go(task), Go(None)];
      var idx := RegisterCleanup(ReleaseTask, task.value);
      if idx.None? {
        out := Panicked(TaskRegistryFull(task.value));
        assert Run(s0, script) == Some(View(PanicStart(out.origin)));
        HandlePanic(out.origin);
        RunConcat(s0, script, PanicScript(entries.Length));
      } else {
        assert Run(s0, script) == Some(View(Check(NewOwner(Owner(Task(task.value), idx.value)))));
        out := EndTerminationCheck(NewOwner(Owner(Task(task.value), idx.value)), tick);
        RunConcat(s0, script, CheckScript(entries.Length, tick));
      }
    }

    /** The drop handlers of both owners. */
    method Drop(id: nat, tick: TickAt) returns (out: Outcome)
      requires Valid() && flag == 0 && id in owners && owners[id].idx < ENTRIES_SIZE
      modifies this, entries
      ensures out == if tick == BeforeTest then Panicked(DeferredTimeout(Nothing)) else Returned
      ensures Run(old(View(Text)), [DropOwner(id), Go(None), Go(None)] + CheckScript(entries.Length, tick)) == Some(View(PhaseAfter(out)))
      ensures out.Returned? ==>
                var o := old(owners[id]);
                Resumed(Nothing, old(entries[..])[o.idx := old(entries[..])[o.idx].(valid := 0)], old(owners) - {id},
                        old(reservations), old(nextId), Then(old(trace), Release(o.res)))
    {
      ghost var s0 := View(Text);
      var owner := owners[id];
      ghost var script := [DropOwner(id), Go(None), Go(None)];
      Run3(s0, DropOwner(id), Go(None), Go(None));
      owners := owners - {id};
      flag := 1;
      DeregisterCleanup(owner.idx);
      trace := Then(trace, Release(owner.res));
      assert Run(s0, script) == Some(View(Check(Nothing)));
      out := EndTerminationCheck(Nothing, tick);
      RunConcat(s0, script, CheckScript(entries.Length, tick));
    }

    /** `RexRingBuf::reserve`, where the kernel returns `data`, which is free space. */
    method ReserveEntry(data: Option<nat>, tick: TickAt) returns (out: Outcome)
      requires Valid() && flag == 0 && (data.Some? ==> Held(trace, Reservation(data.value)) == 0)
      modifies this, entries
      ensures out == (if tick != BeforeTest then Returned
                      else Panicked(DeferredTimeout(if data.None? then Nothing else NewEntry(data.value))))
      ensures Run(old(View(Text)), [Reserve, Go(data)] + CheckScript(entries.Length, tick)) == Some(View(PhaseAfter(out)))
      ensures out.Returned? ==>
                Resumed(if data.None? then Nothing else NewEntry(data.value), old(entries[..]), old(owners), old(reservations),
                        old(nextId), if data.None? then old(trace) else Then(old(trace), Acquire(Reservation(data.value))))
    {
      ghost var s0 := View(Text);
      Run2(s0, Reserve, Go(data));
      flag := 1;
      if data.Some? {
        trace := Then(trace, Acquire(Reservation(data.value)));
      }
      var v := if data.None? then Nothing else NewEntry(data.value);
      assert Run(s0, [Reserve, Go(data)]) == Some(View(Check(v)));
      out := EndTerminationCheck(v, tick);
      RunConcat(s0, [Reserve, Go(data)], CheckScript(entries.Length, tick));
    }

    /** `submit`, `discard` and the drop handler of a ring-buffer entry. */
    method FinishEntry(data: nat, tick: TickAt) returns (out: Outcome)
      requires Valid() && flag == 0 && Reservation(data) in reservations
      modifies this, entries
      ensures out == if tick == BeforeTest then Panicked(DeferredTimeout(Nothing)) else Returned
      ensures Run(old(View(Text)), [Finish(data), Go(None)] + CheckScript(entries.Length, tick)) == Some(View(PhaseAfter(out)))
      ensures out.Returned? ==>
                Resumed(Nothing, old(entries[..]), old(owners), old(reservations) - {Reservation(data)}, old(nextId),
                        Then(old(trace), Release(Reservation(data))))
    {
      ghost var s0 := View(Text);
      Run2(s0, Finish(data), Go(None));
      reservations := reservations - {Reservation(data)};
      flag := 1;
      trace := Then(trace, Release(Reservation(data)));
      assert Run(s0, [Finish(data), Go(None)]) == Some(View(Check(Nothing)));
      out := EndTerminationCheck(Nothing, tick);
      RunConcat(s0, [Finish(data), Go(None)], CheckScript(entries.Length, tick));
    }
  }

  /** The table with its first `n` entries freed, and everything else kept. */
  function Freed(es: seq<CleanupEntry>, n: nat): (r: seq<CleanupEntry>)
    ensures |r| == |es|
  {
    seq(|es|, i requires 0 <= i < |es| => if i < n then es[i].(valid := 0) else es[i])
  }

  lemma FreedStep(es: seq<CleanupEntry>, n: nat)
    requires n < |es|
    ensures Freed(es, n)[n] == es[n] && Freed(es, n)[n := es[n].(valid := 0)] == Freed(es, n + 1)
  {
  }

  function PhaseAfter(out: Outcome): Phase {
    if out.Returned? then Text else Landed(out.origin)
  }

  /** The statements of the panic handler: set the flag, clean each of the slots, leave. */
  function PanicScript(slots: nat): seq<Action> { Gos(slots + 2) }

  function CheckScript(slots: nat, tick: TickAt): seq<Action> {
    match tick
    case Never => [Go(None), Go(None)]
    case BeforeTest => [Tick, Go(None)] + PanicScript(slots)
    case AfterTest => [Go(None), Tick, Go(None)]
  }

  /** The steps of the lock constructor, by how it ends. */
  function GuardScript(slots: nat, lock: nat, tick: TickAt, out: Outcome): seq<Action> {
    if out == Panicked(LockRegistryFull) then [NewGuard(lock), Go(None)] + PanicScript(slots)
    else [NewGuard(lock), Go(None), Go(None)] + CheckScript(slots, tick)
  }

  function TaskScript(slots: nat, task: Option<nat>, tick: TickAt, out: Outcome): seq<Action> {
    [FromPid, Go(task), Go(None)] +
    (if out.Panicked? && out.origin.TaskRegistryFull? then PanicScript(slots) else CheckScript(slots, tick))
  }

  lemma {:induction false} CleanRun(start: Cpu, i: nat, before: Cpu, o: Origin)
    requires Run(start, Gos(i)) == Some(before) && before.phase == Cleaning(i, o)
    ensures Run(start, Gos(i + 1)) == Some(CleanStep(before, i, o))
  {
    RunSnoc(start, Gos(i), Go(None));
  }

  lemma {:induction false} PanicRun(start: Cpu, cleaning: Cpu, n: nat, cleaned: Cpu, landed: Cpu)
    requires Step(start, Go(None)) == Some(cleaning)
    requires Run(cleaning, Gos(n)) == Some(cleaned)
    requires Step(cleaned, Go(None)) == Some(landed)
    ensures Run(start, PanicScript(n)) == Some(landed)
  {
    assert Run(start, Gos(1)) == Some(cleaning) by { RunOne(start, Go(None)); }
    assert Run(cleaned, Gos(1)) == Some(landed) by { RunOne(cleaned, Go(None)); }
    RunConcat(start, Gos(1), Gos(n));
    GosConcat(1, n);
    RunConcat(start, Gos(n + 1), Gos(1));
    GosConcat(n + 1, 1);
  }
}
