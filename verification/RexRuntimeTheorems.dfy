/** What the runtime guarantees over whole runs: exactly-once release, the
    deferred-abort property, and when the guarantees stop. */

module RexRuntimeTheorems {
  import opened KernelResources
  import opened CleanupRegistry
  import opened Options
  import opened RexRuntime

  ghost predicate Reaches(actions: seq<Action>, s: Cpu) { Run(InitialCpu(), actions) == Some(s) }

  lemma ReachableInv(actions: seq<Action>, s: Cpu)
    requires Reaches(actions, s)
    ensures Inv(s)
  {
    InitialInv();
    RunKeepsInv(InitialCpu(), actions);
  }

  /** Whenever the watchdog may divert the program, valid slots and live owners correspond
      one to one, and everything held other than a reservation is named by a slot: a
      diversion never lands between register and lock or between deregister and unlock. */
  lemma DeferredAbort(actions: seq<Action>, s: Cpu)
    requires Reaches(actions, s) && s.flag == 0
    ensures Bijective(s.entries, s.owners, None)
    ensures |s.entries| == ENTRIES_SIZE
    ensures forall i :: 0 <= i < ENTRIES_SIZE ==>
              (s.entries[i].valid != 0 <==> exists id :: id in s.owners && s.owners[id].idx == i)
    ensures Legal(s.trace)
    ensures forall r: Resource :: !r.Reservation? ==> Held(s.trace, r) == Registered(s.entries, r)
  {
    ReachableInv(actions, s);
    forall r: Resource ensures !r.Reservation? ==> Held(s.trace, r) == Registered(s.entries, r) {
      assert Balanced(s, r);
    }
    forall i | 0 <= i < ENTRIES_SIZE
      ensures s.entries[i].valid != 0 <==> exists id :: id in s.owners && s.owners[id].idx == i
    {
      if s.entries[i].valid != 0 { assert Occupied(s.owners, None, i); }
    }
  }

  /** However a panic arose, when it has landed every slot is free, no release was of
      something unheld, and every lock and task reference was released as often as it was
      acquired. What stays behind is the live reservations, which are not registered, and
      the one resource that the panic caught between acquisition and registration. */
  lemma ExactlyOnceRelease(actions: seq<Action>, s: Cpu, r: Resource)
    requires Reaches(actions, s) && s.phase.Landed?
    ensures |s.entries| == ENTRIES_SIZE && forall i :: 0 <= i < ENTRIES_SIZE ==> s.entries[i].valid == 0
    ensures Legal(s.trace)
    ensures Count(s.trace, Acquire(r))
            == Count(s.trace, Release(r)) + One(r in s.reservations) + One(LostBy(s.phase.origin, r))
    ensures r.Lock? ==> Count(s.trace, Acquire(r)) == Count(s.trace, Release(r))
    ensures r.Task? && s.phase.origin != TaskRegistryFull(r.ptr) ==>
              Count(s.trace, Acquire(r)) == Count(s.trace, Release(r))
  {
    ReachableInv(actions, s);
    assert Balanced(s, r);
    RegisteredFirstEmpty(s.entries, ENTRIES_SIZE, r);
    HeldIsBalance(s.trace, r);
  }

  /** In every reachable state, each acquisition of a lock or a ring-buffer entry but the last
      has been answered by its release, and nothing was released more often than acquired. */
  lemma ReleasedAtMostOnce(actions: seq<Action>, s: Cpu, r: Resource)
    requires Reaches(actions, s)
    ensures Count(s.trace, Release(r)) <= Count(s.trace, Acquire(r))
    ensures !r.Task? ==> Count(s.trace, Acquire(r)) <= Count(s.trace, Release(r)) + 1
  {
    ReachableInv(actions, s);
    LegalHolds(s.trace, r);
    HeldIsBalance(s.trace, r);
  }

  /** A program that returns normally has released everything it acquired. */
  lemma NormalExitReleasesAll(actions: seq<Action>, s: Cpu, r: Resource)
    requires Reaches(actions, s) && s.phase.Exited?
    ensures Legal(s.trace) && Count(s.trace, Acquire(r)) == Count(s.trace, Release(r))
    ensures |s.entries| == ENTRIES_SIZE && forall i :: 0 <= i < ENTRIES_SIZE ==> s.entries[i].valid == 0
  {
    ReachableInv(actions, s);
    forall i | 0 <= i < ENTRIES_SIZE ensures s.entries[i].valid == 0 {
      assert s.entries[i].valid != 0 ==> Occupied(s.owners, None, i);
    }
    assert Balanced(s, r);
    RegisteredFirstEmpty(s.entries, ENTRIES_SIZE, r);
    HeldIsBalance(s.trace, r);
  }

  /** ... and it may return exactly when it holds nothing. */
  lemma ExitIff(actions: seq<Action>, s: Cpu)
    requires Reaches(actions, s) && s.phase.Text?
    ensures Step(s, Exit).Some? <==> forall r: Resource :: Held(s.trace, r) == 0
    ensures Step(s, Exit).Some? ==> Step(s, Exit).value == s.(phase := Exited)
  {
    ReachableInv(actions, s);
    HoldsNothingIff(s);
  }

  lemma HoldsNothingIff(s: Cpu)
    requires Inv(s) && s.phase.Text?
    ensures s.owners == map[] && s.reservations == {} <==> forall r: Resource :: Held(s.trace, r) == 0
  {
    if s.owners == map[] && s.reservations == {} {
      forall r: Resource ensures Held(s.trace, r) == 0 { UnownedIsFree(s, r); }
    } else if s.reservations != {} {
      var r :| r in s.reservations;
      ReservedIsHeld(s, r);
    } else {
      assert s.owners.Keys != {};
      var id :| id in s.owners;
      OwnedIsHeld(s, s.owners[id]);
    }
  }

  lemma ReservedIsHeld(s: Cpu, r: Resource)
    requires Inv(s) && s.phase.Text? && r in s.reservations
    ensures Held(s.trace, r) > 0
  {
    assert Balanced(s, r);
  }

  lemma OwnedIsHeld(s: Cpu, o: Owner)
    requires Inv(s) && s.phase.Text? && OwnsSlot(s.entries, o)
    ensures Held(s.trace, o.res) > 0
  {
    assert Balanced(s, o.res);
    RegisteredUpdate(s.entries, o.idx, EMPTY_ENTRY, o.res);
  }

  lemma UnownedIsFree(s: Cpu, r: Resource)
    requires Inv(s) && s.phase.Text? && s.owners == map[] && s.reservations == {}
    ensures Held(s.trace, r) == 0
  {
    forall i | 0 <= i < |s.entries| ensures s.entries[i].valid == 0 {
      assert s.entries[i].valid != 0 ==> Occupied(s.owners, None, i);
    }
    RegisteredFirstEmpty(s.entries, |s.entries|, r);
    assert Balanced(s, r);
  }

  // ------------------------------------------------------------ calls from program text

  ghost predicate RunsTo(s: Cpu, actions: seq<Action>, t: Cpu) { Run(s, actions) == Some(t) }

  lemma RunsOn(s: Cpu, first: seq<Action>, mid: Cpu, second: seq<Action>, t: Cpu)
    requires RunsTo(s, first, mid) && RunsTo(mid, second, t)
    ensures RunsTo(s, first + second, t)
  {
    RunConcat(s, first, second);
  }

  lemma RunsTwo(s: Cpu, a: Action, mid: Cpu, b: Action, t: Cpu)
    requires Step(s, a) == Some(mid) && Step(mid, b) == Some(t)
    ensures RunsTo(s, [a, b], t)
  {
    Run2(s, a, b);
  }

  /** The test and the reset of the flag. */
  const END_OF_CALL: seq<Action> := [Go(None), Go(None)]

  /** A call ends with its value in the program's hands; after a tick, in a panic. */
  lemma CallEnds(s: Cpu, v: Value)
    requires s.phase == Check(v)
    ensures s.flag == 1 ==> RunsTo(s, END_OF_CALL, DeliverStep(s, v))
    ensures s.flag == 2 ==> Step(s, Go(None)) == Some(s.(phase := PanicStart(DeferredTimeout(v))))
  {
    if s.flag == 1 { RunsTwo(s, Go(None), s.(phase := Reset(v)), Go(None), DeliverStep(s, v)); }
  }

  /** A helper returns to the program as it left it, and a tick inside it ends the program. */
  lemma HelperReturns(actions: seq<Action>, s: Cpu)
    requires Reaches(actions, s) && s.phase.Text?
    ensures RunsTo(s, [Helper, Go(None)] + END_OF_CALL, s)
    ensures RunsTo(s, [Helper, Tick] + [Go(None), Go(None)], s.(flag := 2, phase := PanicStart(DeferredTimeout(Nothing))))
  {
    ReachableInv(actions, s);
    var inside, ending := s.(flag := 1, phase := HelperEnter), s.(flag := 1, phase := Check(Nothing));
    RunsTwo(s, Helper, inside, Go(None), ending);
    CallEnds(ending, Nothing);
    RunsOn(s, [Helper, Go(None)], ending, END_OF_CALL, s);
    var ticked := s.(flag := 2, phase := HelperEnter);
    var panic := s.(flag := 2, phase := PanicStart(DeferredTimeout(Nothing)));
    RunsTwo(s, Helper, inside, Tick, ticked);
    CallEnds(ending.(flag := 2), Nothing);
    RunsTwo(ticked, Go(None), ending.(flag := 2), Go(None), panic);
    RunsOn(s, [Helper, Tick], ticked, [Go(None), Go(None)], panic);
  }

  /** A ring-buffer entry that the kernel hands out is the program's ... */
  lemma Reserves(actions: seq<Action>, s: Cpu, d: nat) returns (mine: Cpu)
    requires Reaches(actions, s) && s.phase.Text? && Held(s.trace, Reservation(d)) == 0
    ensures RunsTo(s, [Reserve, Go(Some(d))] + END_OF_CALL, mine)
    ensures mine == s.(trace := Then(s.trace, Acquire(Reservation(d))), reservations := s.reservations + {Reservation(d)})
  {
    ReachableInv(actions, s);
    var ending := s.(flag := 1, trace := Then(s.trace, Acquire(Reservation(d))), phase := Check(NewEntry(d)));
    RunsTwo(s, Reserve, s.(flag := 1, phase := ReserveEnter), Go(Some(d)), ending);
    CallEnds(ending, NewEntry(d));
    mine := DeliverStep(ending, NewEntry(d));
    RunsOn(s, [Reserve, Go(Some(d))], ending, END_OF_CALL, mine);
  }

  /** ... until it is submitted or discarded. */
  lemma Finishes(actions: seq<Action>, s: Cpu, d: nat)
    requires Reaches(actions, s) && s.phase.Text? && Reservation(d) in s.reservations
    ensures RunsTo(s, [Finish(d), Go(None)] + END_OF_CALL,
                   s.(trace := Then(s.trace, Release(Reservation(d))), reservations := s.reservations - {Reservation(d)}))
  {
    ReachableInv(actions, s);
    var finishing := s.(flag := 1, reservations := s.reservations - {Reservation(d)}, phase := FinishEnter(d));
    var ending := finishing.(trace := Then(s.trace, Release(Reservation(d))), phase := Check(Nothing));
    RunsTwo(s, Finish(d), finishing, Go(None), ending);
    CallEnds(ending, Nothing);
    RunsOn(s, [Finish(d), Go(None)], ending, END_OF_CALL, DeliverStep(ending, Nothing));
  }

  /** The program owns `res`, in the first slot that was free; nothing else has changed. */
  ghost predicate Takes(s: Cpu, res: Resource, t: Cpu)
    requires !Full(s.entries)
  {
    var i := FirstFree(s.entries);
    && i < |s.entries|
    && t == s.(entries := s.entries[i := EntryFor(res)], owners := s.owners[s.nextId := Owner(res, i)],
               nextId := s.nextId + 1, trace := Then(s.trace, Acquire(res)))
  }

  /** With a slot free, a lock that is free is taken by its guard ... */
  lemma GuardTakes(actions: seq<Action>, s: Cpu, a: nat) returns (mine: Cpu)
    requires Reaches(actions, s) && s.phase.Text? && Held(s.trace, Lock(a)) == 0 && !Full(s.entries)
    ensures RunsTo(s, [NewGuard(a), Go(None)] + ([Go(None)] + END_OF_CALL), mine) && Takes(s, Lock(a), mine)
  {
    ReachableInv(actions, s);
    var i := FirstFree(s.entries);
    var registered := s.(flag := 1, entries := s.entries[i := EntryFor(Lock(a))], phase := LockRegistered(a, i));
    RunsTwo(s, NewGuard(a), s.(flag := 1, phase := LockEnter(a)), Go(None), registered);
    mine := OwnerEnds(registered, Lock(a), i,
                      registered.(trace := Then(s.trace, Acquire(Lock(a))), phase := Check(NewOwner(Owner(Lock(a), i)))));
    RunsOn(s, [NewGuard(a), Go(None)], registered, [Go(None)] + END_OF_CALL, mine);
  }

  /** ... and a task that the kernel finds by its owner. */
  lemma TaskTakes(actions: seq<Action>, s: Cpu, p: nat) returns (mine: Cpu)
    requires Reaches(actions, s) && s.phase.Text? && !Full(s.entries)
    ensures RunsTo(s, [FromPid, Go(Some(p))] + ([Go(None)] + END_OF_CALL), mine) && Takes(s, Task(p), mine)
  {
    ReachableInv(actions, s);
    var i := FirstFree(s.entries);
    var acquired := s.(flag := 1, trace := Then(s.trace, Acquire(Task(p))), phase := TaskAcquired(p));
    RunsTwo(s, FromPid, s.(flag := 1, phase := TaskEnter), Go(Some(p)), acquired);
    mine := OwnerEnds(acquired, Task(p), i,
                      acquired.(entries := s.entries[i := EntryFor(Task(p))], phase := Check(NewOwner(Owner(Task(p), i)))));
    RunsOn(s, [FromPid, Go(Some(p))], acquired, [Go(None)] + END_OF_CALL, mine);
  }

  lemma OwnerEnds(s: Cpu, res: Resource, i: nat, ending: Cpu) returns (mine: Cpu)
    requires Step(s, Go(None)) == Some(ending) && ending.phase == Check(NewOwner(Owner(res, i))) && ending.flag == 1
    ensures RunsTo(s, [Go(None)] + END_OF_CALL, mine) && mine == DeliverStep(ending, NewOwner(Owner(res, i)))
  {
    RunOne(s, Go(None));
    CallEnds(ending, NewOwner(Owner(res, i)));
    mine := DeliverStep(ending, NewOwner(Owner(res, i)));
    RunsOn(s, [Go(None)], ending, END_OF_CALL, mine);
  }

  /** Dropping an owner frees its slot and releases what it owns; nothing else changes. */
  lemma DropReleases(actions: seq<Action>, s: Cpu, id: nat)
    requires Reaches(actions, s) && s.phase.Text? && id in s.owners
    ensures s.owners[id].idx < |s.entries|
    ensures var o := s.owners[id];
            RunsTo(s, [DropOwner(id), Go(None)] + ([Go(None)] + END_OF_CALL),
                   s.(owners := s.owners - {id}, trace := Then(s.trace, Release(o.res)),
                      entries := s.entries[o.idx := s.entries[o.idx].(valid := 0)]))
  {
    ReachableInv(actions, s);
    var o := s.owners[id];
    assert OwnsSlot(s.entries, o);
    var dropping := s.(flag := 1, owners := s.owners - {id}, phase := DropEnter(o));
    var freed := dropping.(entries := s.entries[o.idx := s.entries[o.idx].(valid := 0)], phase := DropDeregistered(o));
    RunsTwo(s, DropOwner(id), dropping, Go(None), freed);
    var ending := freed.(trace := Then(s.trace, Release(o.res)), phase := Check(Nothing));
    RunOne(freed, Go(None));
    CallEnds(ending, Nothing);
    RunsOn(freed, [Go(None)], ending, END_OF_CALL, DeliverStep(ending, Nothing));
    RunsOn(s, [DropOwner(id), Go(None)], freed, [Go(None)] + END_OF_CALL, DeliverStep(ending, Nothing));
  }

  // ------------------------------------------------------------ the panic itself

  predicate InPanic(p: Phase) { p.PanicStart? || p.Cleaning? || p.Landed? }

  predicate Quiet(a: Action) { a.Tick? || a.Go? }

  function Goes(actions: seq<Action>): nat {
    if actions == [] then 0 else Goes(actions[..|actions| - 1]) + One(actions[|actions| - 1].Go?)
  }

  /** Panics that start in program text, where the flag is still 0. A tick there starts over. */
  predicate FromText(o: Origin) { o == ProgramPanic || o == TextTimeout }

  predicate MayRestart(s: Cpu) { s.flag == 0 && s.phase.PanicStart? && FromText(s.phase.origin) }

  /** `t` is the same panic as `s`: nothing acquired, no change of owners. */
  ghost predicate SamePanic(s: Cpu, t: Cpu, r: Resource)
    requires InPanic(s.phase)
  {
    && InPanic(t.phase) && (t.flag != 0 || (MayRestart(s) && MayRestart(t)))
    && (t.phase.origin == s.phase.origin || (MayRestart(s) && FromText(t.phase.origin)))
    && t.reservations == s.reservations && t.owners == s.owners
    && Count(t.trace, Acquire(r)) == Count(s.trace, Acquire(r))
  }

  /** A panic only cleans, whatever the watchdog does. */
  lemma {:induction false} PanicOnlyReleases(s: Cpu, actions: seq<Action>, r: Resource)
    requires InPanic(s.phase) && (s.flag != 0 || MayRestart(s)) && Run(s, actions).Some?
    ensures SamePanic(s, Run(s, actions).value, r)
  {
    if actions != [] {
      PanicOnlyReleases(s, actions[..|actions| - 1], r);
      PanicStepReleases(Run(s, actions[..|actions| - 1]).value, actions[|actions| - 1], r);
    }
  }

  lemma PanicStepReleases(s: Cpu, a: Action, r: Resource)
    requires InPanic(s.phase) && (s.flag != 0 || MayRestart(s)) && Step(s, a).Some?
    ensures SamePanic(s, Step(s, a).value, r)
  {
  }

  /** From the moment it starts to the landing pad, a panic releases exactly what was held
      and registered when it started, each as often as it was held. */
  lemma PanicReleasesHeld(actions: seq<Action>, s: Cpu, more: seq<Action>, t: Cpu, r: Resource)
    requires Reaches(actions, s) && s.phase.PanicStart?
    requires Run(s, more) == Some(t) && t.phase.Landed?
    ensures Count(t.trace, Release(r)) - Count(s.trace, Release(r)) == Registered(s.entries, r)
    ensures Held(s.trace, r) - Held(t.trace, r) == Registered(s.entries, r)
  {
    ReachableInv(actions, s);
    RunKeepsInv(s, more);
    PanicOnlyReleases(s, more, r);
    assert Balanced(s, r) && Balanced(t, r);
    RegisteredFirstEmpty(t.entries, ENTRIES_SIZE, r);
    HeldIsBalance(s.trace, r);
    HeldIsBalance(t.trace, r);
  }

  /** A panic is never stuck, whatever the watchdog does. */
  lemma PanicNeverStuck(s: Cpu, a: Action)
    requires (s.phase.PanicStart? || s.phase.Cleaning?) && Quiet(a)
    ensures Step(s, a).Some?
  {
  }

  /** ... and lands after one statement per entry and two more, with any ticks between. */
  lemma {:induction false} PanicLands(s: Cpu, actions: seq<Action>)
    requires |s.entries| == ENTRIES_SIZE && s.phase.PanicStart? && (s.flag != 0 || MayRestart(s))
    requires forall i :: 0 <= i < |actions| ==> Quiet(actions[i])
    requires Run(s, actions).Some?
    ensures PanicAfter(s, Run(s, actions).value, Goes(actions))
  {
    if actions != [] {
      PanicLands(s, actions[..|actions| - 1]);
      PanicGoesOn(s, Run(s, actions[..|actions| - 1]).value, Goes(actions[..|actions| - 1]), actions[|actions| - 1]);
    }
  }

  /** `t` is `n` statements into the panic that `s` starts. */
  predicate PanicAfter(s: Cpu, t: Cpu, n: nat)
    requires s.phase.PanicStart?
  {
    && n <= ENTRIES_SIZE + 2 && |t.entries| == ENTRIES_SIZE && InPanic(t.phase)
    && (t.phase.origin == s.phase.origin || (MayRestart(s) && FromText(t.phase.origin)))
    && (t.flag != 0 || (n == 0 && MayRestart(s) && FromText(t.phase.origin)))
    && t.phase == (if n == 0 then PanicStart(t.phase.origin)
                   else if n < ENTRIES_SIZE + 2 then Cleaning(n - 1, t.phase.origin)
                   else Landed(t.phase.origin))
  }

  lemma PanicGoesOn(s: Cpu, t: Cpu, n: nat, a: Action)
    requires s.phase.PanicStart? && PanicAfter(s, t, n) && Quiet(a) && Step(t, a).Some?
    ensures PanicAfter(s, Step(t, a).value, n + One(a.Go?))
  {
  }

  lemma {:induction false} GosQuiet(n: nat)
    ensures Goes(Gos(n)) == n && forall i :: 0 <= i < n ==> Quiet(Gos(n)[i])
  {
    if n > 0 {
      GosQuiet(n - 1);
      assert Gos(n)[..n - 1] == Gos(n - 1);
    }
  }

  lemma {:induction false} PanicUnfinished(s: Cpu, n: nat)
    requires |s.entries| == ENTRIES_SIZE && s.phase.PanicStart? && (s.flag != 0 || MayRestart(s)) && n < ENTRIES_SIZE + 2
    requires Run(s, Gos(n)).Some?
    ensures Step(Run(s, Gos(n)).value, Go(None)).Some?
  {
    GosQuiet(n);
    PanicLands(s, Gos(n));
    PanicNeverStuck(Run(s, Gos(n)).value, Go(None));
  }

  lemma {:induction false} PanicRuns(s: Cpu, n: nat)
    requires |s.entries| == ENTRIES_SIZE && s.phase.PanicStart? && (s.flag != 0 || MayRestart(s)) && n <= ENTRIES_SIZE + 2
    ensures Run(s, Gos(n)).Some?
  {
    if n > 0 {
      PanicRuns(s, n - 1);
      PanicUnfinished(s, n - 1);
      RunSnoc(s, Gos(n - 1), Go(None));
    }
  }

  lemma PanicScript(s: Cpu, n: nat) returns (t: Cpu)
    requires |s.entries| == ENTRIES_SIZE && s.phase.PanicStart? && (s.flag != 0 || MayRestart(s)) && n == ENTRIES_SIZE + 2
    ensures RunsTo(s, Gos(n), t) && t.phase.Landed?
    ensures t.phase.origin == s.phase.origin || (MayRestart(s) && FromText(t.phase.origin))
  {
    PanicRuns(s, n);
    GosQuiet(n);
    PanicLands(s, Gos(n));
    t := Run(s, Gos(n)).value;
  }

  // ------------------------------------------------------------ what a tick does

  predicate BeforeTest(p: Phase) { InOwner(p) || InHelper(p) || p.Check? }

  predicate Doomed(s: Cpu) { (BeforeTest(s.phase) && s.flag == 2) || InPanic(s.phase) }

  lemma DoomedStays(s: Cpu, a: Action)
    requires Doomed(s) && Step(s, a).Some?
    ensures Doomed(Step(s, a).value)
  {
  }

  /** A tick inside a helper, before the flag is tested, is never forgotten: program text
      does not resume. */
  lemma {:induction false} DeferredTickAborts(s: Cpu, actions: seq<Action>)
    requires BeforeTest(s.phase) && s.flag != 0 && Run(s, [Tick] + actions).Some?
    ensures Doomed(Run(s, [Tick] + actions).value)
  {
    if actions == [] {
      assert [Tick][..0] == [];
      assert Run(s, []) == Some(s);
      assert Run(s, [Tick]) == Step(s, Tick);
      assert [Tick] + actions == [Tick];
    } else {
      var init := actions[..|actions| - 1];
      assert ([Tick] + actions)[..|actions|] == [Tick] + init;
      DeferredTickAborts(s, init);
      DoomedStays(Run(s, [Tick] + init).value, actions[|actions| - 1]);
    }
  }

  /** The test and the reset are two accesses. In every reachable state of a program that has
      neither landed nor returned a tick is possible, and it takes effect exactly when the state
      is not between the two; there it is overwritten. */
  lemma TickTakesEffectIff(actions: seq<Action>, s: Cpu, ret: Option<nat>)
    requires Reaches(actions, s) && !s.phase.Landed? && !s.phase.Exited?
    ensures Step(s, Tick).Some?
    ensures Doomed(Step(s, Tick).value) <==> !s.phase.Reset?
    ensures s.phase.Reset? ==> Step(Step(s, Tick).value, Go(ret)) == Step(s, Go(ret))
  {
    ReachableInv(actions, s);
  }

  /** What ends program text: the watchdog, or a panic of the program itself. */
  predicate Aborts(a: Action) { a == Tick || a == Panic }

  lemma TextAborts(actions: seq<Action>, s: Cpu, a: Action)
    requires Reaches(actions, s) && s.phase.Text? && Aborts(a)
    ensures Step(s, a).Some?
    ensures var t := Step(s, a).value;
            && t.phase == PanicStart(if a == Tick then TextTimeout else ProgramPanic)
            && MayRestart(t) && t == s.(phase := t.phase)
  {
    ReachableInv(actions, s);
  }

  /** A tick in program text, and a panic of the program, are possible in every reachable state;
      from then on, whatever follows, only releases happen and program text does not resume. */
  lemma TextAbortIsPanic(actions: seq<Action>, s: Cpu, a: Action, more: seq<Action>, t: Cpu, r: Resource)
    requires Reaches(actions, s) && s.phase.Text? && Aborts(a) && Run(s, [a] + more) == Some(t)
    ensures InPanic(t.phase) && t.owners == s.owners && t.reservations == s.reservations
    ensures Count(t.trace, Acquire(r)) == Count(s.trace, Acquire(r))
  {
    TextAborts(actions, s, a);
    RunOne(s, a);
    RunConcat(s, [a], more);
    PanicOnlyReleases(Step(s, a).value, more, r);
  }

  /** ... and it lands, after one statement for each of the 64 entries and two more, with every
      lock and task reference that was held released. */
  lemma TextAbortLands(actions: seq<Action>, s: Cpu, a: Action, n: nat) returns (t: Cpu)
    requires Reaches(actions, s) && s.phase.Text? && Aborts(a) && n == 66
    ensures Run(s, [a] + Gos(n)) == Some(t) && t.phase.Landed?
    ensures forall r: Resource :: !r.Reservation? ==> Held(t.trace, r) == 0
    ensures forall r: Resource :: !r.Reservation? ==>
              Count(t.trace, Release(r)) == Count(s.trace, Release(r)) + Held(s.trace, r)
  {
    ReachableInv(actions, s);
    TextAborts(actions, s, a);
    var first := Step(s, a).value;
    t := PanicScript(first, n);
    RunOne(s, a);
    RunConcat(s, [a], Gos(n));
    RunKeepsInv(s, [a] + Gos(n));
    forall r: Resource | !r.Reservation?
      ensures Held(t.trace, r) == 0 && Count(t.trace, Release(r)) == Count(s.trace, Release(r)) + Held(s.trace, r)
    {
      TextAbortIsPanic(actions, s, a, Gos(n), t, r);
      LandedHolds(t, r);
      HeldIsBalance(s.trace, r);
      HeldIsBalance(t.trace, r);
    }
  }

  lemma LandedHolds(t: Cpu, r: Resource)
    requires Inv(t) && t.phase.Landed?
    ensures Held(t.trace, r) == One(r in t.reservations) + One(LostBy(t.phase.origin, r))
    ensures r in t.reservations ==> r.Reservation?
  {
    assert Balanced(t, r);
    RegisteredFirstEmpty(t.entries, ENTRIES_SIZE, r);
  }

  // ------------------------------------------------------------ the leak

  /** Statement `k` of the run is `from_pid` registering into a full array. */
  ghost predicate OverflowsAt(actions: seq<Action>, k: nat)
    requires k < |actions|
  {
    var s := Run(InitialCpu(), actions[..k]);
    s.Some? && s.value.phase.TaskAcquired? && Full(s.value.entries) && actions[k].Go?
  }

  ghost predicate Overflows(actions: seq<Action>) {
    exists k :: 0 <= k < |actions| && OverflowsAt(actions, k)
  }

  predicate LostTask(p: Phase) { InPanic(p) && p.origin.TaskRegistryFull? }

  lemma LostTaskStep(s: Cpu, a: Action)
    requires Inv(s) && Step(s, a).Some?
    ensures LostTask(Step(s, a).value.phase) <==>
              LostTask(s.phase) || (s.phase.TaskAcquired? && Full(s.entries) && a.Go?)
  {
    if a.Tick? {
      assert LostTask(s.phase) ==> s.flag != 0;
    } else if a.Go? {
      LostTaskGo(s, a.ret);
    } else {
      assert !InPanic(s.phase);
    }
  }

  lemma LostTaskGo(s: Cpu, ret: Option<nat>)
    requires GoStep(s, ret).Some?
    ensures LostTask(GoStep(s, ret).value.phase) <==> LostTask(s.phase) || (s.phase.TaskAcquired? && Full(s.entries))
  {
    assert Full(s.entries) <==> FirstFree(s.entries) == |s.entries|;
  }

  lemma OverflowsExtend(actions: seq<Action>, a: Action)
    ensures Overflows(actions + [a]) <==> Overflows(actions) || OverflowsAt(actions + [a], |actions|)
  {
    var more := actions + [a];
    forall k | 0 <= k < |actions| ensures OverflowsAt(more, k) <==> OverflowsAt(actions, k) {
      assert more[..k] == actions[..k];
    }
    if Overflows(more) {
      var k :| 0 <= k < |more| && OverflowsAt(more, k);
      if k < |actions| { assert OverflowsAt(actions, k); }
    }
    if Overflows(actions) {
      var k :| 0 <= k < |actions| && OverflowsAt(actions, k);
      assert OverflowsAt(more, k);
    }
  }

  lemma {:induction false} LostTaskIff(actions: seq<Action>, s: Cpu)
    requires Reaches(actions, s)
    ensures LostTask(s.phase) <==> Overflows(actions)
  {
    if actions != [] {
      var init, a := actions[..|actions| - 1], actions[|actions| - 1];
      assert actions == init + [a];
      var before := Run(InitialCpu(), init).value;
      LostTaskIff(init, before);
      ReachableInv(init, before);
      LostTaskStep(before, a);
      OverflowsExtend(init, a);
      assert actions[..|init|] == init;
    }
  }

  /** A landed panic leaks a lock or task reference exactly when some `from_pid` found the
      registry full; then it leaks that one reference. */
  lemma LeakIffRegistryFull(actions: seq<Action>, s: Cpu)
    requires Reaches(actions, s) && s.phase.Landed?
    ensures (exists r: Resource :: !r.Reservation? && Held(s.trace, r) != 0) <==> Overflows(actions)
    ensures s.phase.origin.TaskRegistryFull? ==> Held(s.trace, Task(s.phase.origin.ptr)) == 1
  {
    ReachableInv(actions, s);
    LostTaskIff(actions, s);
    forall r: Resource ensures Held(s.trace, r) == One(r in s.reservations) + One(LostBy(s.phase.origin, r)) {
      assert Balanced(s, r);
      RegisteredFirstEmpty(s.entries, ENTRIES_SIZE, r);
    }
    if s.phase.origin.TaskRegistryFull? {
      assert Held(s.trace, Task(s.phase.origin.ptr)) != 0;
    }
  }

  // ------------------------------------------------------------ a run that leaks

  function GuardScript(addr: nat): seq<Action> { [NewGuard(addr), Go(None), Go(None), Go(None), Go(None)] }

  function FillScript(k: nat): seq<Action> {
    if k == 0 then [] else FillScript(k - 1) + GuardScript(k - 1)
  }

  /** Exactly the first `k` slots are taken, by locks below `k`. */
  ghost predicate Filled(s: Cpu, k: nat) {
    && s.phase.Text? && s.flag == 0 && k <= |s.entries| == ENTRIES_SIZE
    && (forall i :: 0 <= i < k ==> s.entries[i].valid != 0)
    && (forall i :: k <= i < ENTRIES_SIZE ==> s.entries[i].valid == 0)
    && (forall a :: a >= k ==> Held(s.trace, Lock(a)) == 0)
  }

  lemma {:induction false} OneMoreGuard(s: Cpu, k: nat) returns (done: Cpu)
    requires Filled(s, k) && k < ENTRIES_SIZE
    ensures RunsTo(s, GuardScript(k), done) && Filled(done, k + 1)
  {
    assert s.entries[k].valid == 0 && FirstFree(s.entries) == k;
    var registered := s.(flag := 1, entries := s.entries[k := EntryFor(Lock(k))], phase := LockRegistered(k, k));
    assert Run(s, [NewGuard(k), Go(None)]) == Some(registered) by { Run2(s, NewGuard(k), Go(None)); }
    var v := NewOwner(Owner(Lock(k), k));
    var locked := Call(registered, Acquire(Lock(k)), Check(v));
    assert Run(registered, [Go(None)]) == Some(locked) by { RunOne(registered, Go(None)); }
    done := DeliverStep(locked, v);
    assert Run(locked, [Go(None), Go(None)]) == Some(done) by { Run2(locked, Go(None), Go(None)); }
    RunConcat(s, [NewGuard(k), Go(None)], [Go(None)]);
    RunConcat(s, [NewGuard(k), Go(None)] + [Go(None)], [Go(None), Go(None)]);
    assert GuardScript(k) == [NewGuard(k), Go(None)] + [Go(None)] + [Go(None), Go(None)];
  }

  lemma {:induction false} FillRun(s: Cpu, k: nat) returns (full: Cpu)
    requires Filled(s, 0) && k <= ENTRIES_SIZE
    ensures RunsTo(s, FillScript(k), full) && Filled(full, k)
  {
    if k == 0 {
      full := s;
    } else {
      var before := FillRun(s, k - 1);
      full := OneMoreGuard(before, k - 1);
      RunsOn(s, FillScript(k - 1), before, GuardScript(k - 1), full);
    }
  }

  function TaskCall(ptr: nat): seq<Action> { [FromPid, Go(Some(ptr)), Go(None)] }

  lemma TaskOverflows(full: Cpu, ptr: nat) returns (panic: Cpu)
    requires Filled(full, ENTRIES_SIZE)
    ensures RunsTo(full, TaskCall(ptr), panic) && panic.phase == PanicStart(TaskRegistryFull(ptr))
    ensures panic.flag != 0 && |panic.entries| == ENTRIES_SIZE
  {
    Run3(full, FromPid, Go(Some(ptr)), Go(None));
    panic := Run(full, TaskCall(ptr)).value;
  }

  /** Sixty-four guards and one `from_pid` leak the task reference. */
  lemma FromPidCanLeak(ptr: nat) returns (actions: seq<Action>, s: Cpu)
    ensures Reaches(actions, s) && s.phase.Landed?
    ensures Held(s.trace, Task(ptr)) == 1
  {
    var n: nat := ENTRIES_SIZE;
    var full := FillRun(InitialCpu(), n);
    var panic := TaskOverflows(full, ptr);
    s := PanicScript(panic, n + 2);
    RunsOn(InitialCpu(), FillScript(n), full, TaskCall(ptr), panic);
    RunsOn(InitialCpu(), FillScript(n) + TaskCall(ptr), panic, Gos(n + 2), s);
    actions := FillScript(n) + TaskCall(ptr) + Gos(n + 2);
    LeakIffRegistryFull(actions, s);
  }
}
