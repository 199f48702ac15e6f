/** The kernel's threads taking steps in any order: synch.c and thread.c
    together.  The running thread, or an interrupt handler, makes a step of
    synch.c, and what that step does to other threads is an event of thread.c. */
module KernelSteps {
  import opened Scheduler
  import opened Synch

  datatype Kernel = Kernel(cpu: Cpu, sync: Sync)

  datatype KStep = InSynch(st: Step) | Yields | Exits | Creates(t: Tid) | Idles

  datatype Option<T> = None | Some(value: T)

  /** The call of thread.c made by a step of synch.c. */
  function EventOf(y: Sync, t: Tid, st: Step): Option<Event>
    requires t in y.pcs
  {
    match st
    case TestDown => if y.pcs[t].Down? && SemaOf(y, y.pcs[t].s).value == 0 then Some(Block) else None
    case CallUp(s) => WakeOne(y, s)
    case FinishRelease => if y.pcs[t].Released? then WakeOne(y, OfLock(y.pcs[t].l)) else None
    case FinishSignal => if y.pcs[t].Signalling? then WakeOne(y, OfWaiter(y.pcs[t].w)) else None
    case _ => None
  }

  function WakeOne(y: Sync, s: SemaId): Option<Event> {
    if SemaOf(y, s).waiters == [] then None else Some(Unblock(SemaOf(y, s).waiters[0]))
  }

  ghost predicate Sleeping(y: Sync, t: Tid) {
    PcOf(y, t).Down? && PcOf(y, t).stage == Asleep
  }

  /** A thread is blocked exactly when it sleeps in `sema_down`; the dead and the idle one are not in synch.c. */
  ghost predicate Linked(k: Kernel) {
    && (forall t :: t in k.cpu.status <==> t in k.sync.pcs)
    && (forall t :: t in k.cpu.status && t != k.cpu.idle ==> (k.cpu.status[t] == Blocked <==> Sleeping(k.sync, t)))
    && (forall t :: t in k.cpu.status && k.cpu.status[t] == Dying ==> PcOf(k.sync, t) == Free)
    && PcOf(k.sync, k.cpu.idle) == Free
  }

  ghost predicate Valid(k: Kernel) {
    Sound(k.cpu) && Consistent(k.sync) && Linked(k)
  }

  predicate CanStep(k: Kernel, s: KStep) {
    match s
    case InSynch(st) => Enabled(k.sync, k.cpu.current, st) && (k.cpu.current == k.cpu.idle ==> st.TryDown? || st.CallUp?)
    case Yields => true
    case Exits => k.cpu.current != k.cpu.idle && PcOf(k.sync, k.cpu.current) == Free
    case Creates(t) => t !in k.cpu.status
    case Idles => k.cpu.current == k.cpu.idle
  }

  function StepTo(k: Kernel, s: KStep): Kernel
    requires CanStep(k, s) && k.cpu.current in k.cpu.status
  {
    match s
    case InSynch(st) =>
      var e := EventOf(k.sync, k.cpu.current, st);
      Kernel(if e.None? then k.cpu else After(k.cpu, e.value), Stepped(k.sync, k.cpu.current, st))
    case Yields => Remaining(After(k.cpu, Yield), k.sync)
    case Exits => Remaining(After(k.cpu, Exit), k.sync)
    case Creates(t) => Kernel(After(k.cpu, Create(t)), SetPc(k.sync, t, Free))
    case Idles => Kernel(After(k.cpu, Block), k.sync)
  }

  /** A freed thread's page, and with it its stack, is gone. */
  function Remaining(c: Cpu, y: Sync): Kernel {
    Kernel(c, y.(pcs := map t | t in y.pcs && t in c.status :: y.pcs[t]))
  }

  // ---------------------------------------------------------- preservation

  /** Only blocking and unblocking change who is blocked. */
  lemma BlockedAfter(c: Cpu, e: Event)
    requires Sound(c) && Allowed(c, e)
    ensures forall t :: t in After(c, e).status && t != c.idle ==>
              (After(c, e).status[t] == Blocked <==>
                 if e.Block? && t == c.current then true else if e == Unblock(t) || e == Create(t) then false
                 else t in c.status && c.status[t] == Blocked)
    ensures forall t :: t in After(c, e).status && After(c, e).status[t] == Dying ==>
              t in c.status && (c.status[t] == Dying || (e.Exit? && t == c.current))
    ensures !e.Yield? && !e.Exit? ==> forall t :: t in After(c, e).status <==> t in c.status || e == Create(t)
    ensures After(c, e).idle == c.idle
  {
    assert c.ready != [] ==> c.ready[0] in c.ready;
    assert e.Yield? && c.ready == [] ==> (c.ready + [c.current])[0] == c.current;
    assert e.Yield? && c.ready != [] ==> (c.ready + [c.current])[0] == c.ready[0];
  }

  lemma SleepingUp(y: Sync, s: SemaId)
    requires Queues(y)
    ensures var y', e := Up(y, s), WakeOne(y, s);
            && (forall u :: u in y'.pcs <==> u in y.pcs)
            && (forall u :: Sleeping(y', u) <==> Sleeping(y, u) && e != Some(Unblock(u)))
            && (e.Some? ==> e.value.Unblock? && Sleeping(y, e.value.t) && e.value.t in y.pcs)
            && (forall u :: PcOf(y', u) == PcOf(y, u) || e == Some(Unblock(u)))
  {
    UpShape(y, s);
    hide Queues, Up;
  }

  /** Only a sleep and a wakeup change who sleeps. */
  ghost predicate SleepersBy(y: Sync, t: Tid, st: Step, y': Sync, e: Option<Event>) {
    && (forall u :: u in y'.pcs <==> u in y.pcs)
    && (forall u :: Sleeping(y', u) <==>
          if e == Some(Block) && u == t then true else if e == Some(Unblock(u)) then false else Sleeping(y, u))
    && (e.Some? ==> e == Some(Block) || (e.value.Unblock? && Sleeping(y, e.value.t) && e.value.t in y.pcs))
    && (forall u :: PcOf(y, u) == Free && (u != t || st.TryDown? || st.CallUp?) ==> PcOf(y', u) == Free)
  }

  lemma SleepingAfter(y: Sync, t: Tid, st: Step)
    requires Queues(y) && Enabled(y, t, st)
    ensures SleepersBy(y, t, st, Stepped(y, t, st), EventOf(y, t, st))
  {
    hide Queues, Up, WakeOne, TakeOne;
    if st.CallUp? || st.FinishRelease? || st.FinishSignal? {
      UpSleepers(y, t, st);
    } else {
      DownSleepers(y, t, st);
    }
  }

  lemma UpSleepers(y: Sync, t: Tid, st: Step)
    requires Queues(y) && Enabled(y, t, st) && (st.CallUp? || st.FinishRelease? || st.FinishSignal?)
    ensures SleepersBy(y, t, st, Stepped(y, t, st), EventOf(y, t, st))
  {
    hide Queues, Up, WakeOne, TakeOne;
    match st
    case CallUp(s) => SleepingUp(y, s);
    case FinishRelease => SleepingUp(y, OfLock(y.pcs[t].l));
    case FinishSignal => SleepingUp(y, OfWaiter(y.pcs[t].w));
    case _ =>
  }

  lemma DownSleepers(y: Sync, t: Tid, st: Step)
    requires Enabled(y, t, st) && !(st.CallUp? || st.FinishRelease? || st.FinishSignal?)
    ensures SleepersBy(y, t, st, Stepped(y, t, st), EventOf(y, t, st))
  {
    hide Up, WakeOne, TakeOne;
    match st
    case TryDown(s) => if SemaOf(y, s).value > 0 { TakePcs(y, s); }
    case TryAcquire(l) => if SemaOf(y, OfLock(l)).value > 0 { TakePcs(y, OfLock(l)); }
    case TestDown => if SemaOf(y, y.pcs[t].s).value > 0 { TakePcs(y, y.pcs[t].s); }
    case _ =>
  }

  lemma TakePcs(y: Sync, s: SemaId)
    requires SemaOf(y, s).value > 0
    ensures TakeOne(y, s).pcs == y.pcs
  {
  }

  lemma InSynchValid(k: Kernel, st: Step)
    requires Valid(k) && CanStep(k, InSynch(st))
    ensures Valid(StepTo(k, InSynch(st)))
  {
    hide Consistent, Queues, Stepped, EventOf, Enabled, After, Sound, SleepersBy, Linked;
    OnCpu(k);
    var y, t := k.sync, k.cpu.current;
    var e, y' := EventOf(y, t, st), Stepped(y, t, st);
    StepConsistent(y, t, st);
    ConsistentQueues(y);
    SleepingAfter(y, t, st);
    EventAllowed(k, st, e, y');
    if e.Some? {
      EventSound(k.cpu, e.value);
      BlockedAfter(k.cpu, e.value);
      StaysLinked(k, Kernel(After(k.cpu, e.value), y'), st, e);
    } else {
      StaysLinked(k, Kernel(k.cpu, y'), st, e);
    }
  }

  lemma OnCpu(k: Kernel)
    requires Valid(k)
    ensures k.cpu.current in k.cpu.status && k.cpu.current in k.sync.pcs
  {
  }

  lemma EventAllowed(k: Kernel, st: Step, e: Option<Event>, y': Sync)
    requires Linked(k) && SleepersBy(k.sync, k.cpu.current, st, y', e)
    ensures e.Some? ==> Allowed(k.cpu, e.value) && (e.value.Block? || e.value.Unblock?)
  {
  }

  lemma ConsistentQueues(y: Sync)
    requires Consistent(y)
    ensures Queues(y) && NoLostWakeup(y)
  {
  }

  lemma StaysLinked(k: Kernel, k': Kernel, st: Step, e: Option<Event>)
    requires Linked(k) && Sound(k.cpu) && Sound(k'.cpu) && k'.cpu.idle == k.cpu.idle
    requires e.None? || e.value.Block? || e.value.Unblock?
    requires k.cpu.current == k.cpu.idle ==> st.TryDown? || st.CallUp?
    requires SleepersBy(k.sync, k.cpu.current, st, k'.sync, e)
    requires forall t :: t in k'.cpu.status <==> t in k.cpu.status
    requires forall t :: t in k'.cpu.status && t != k.cpu.idle ==>
               (k'.cpu.status[t] == Blocked <==>
                  if e == Some(Block) && t == k.cpu.current then true else if e == Some(Unblock(t)) then false
                  else k.cpu.status[t] == Blocked)
    requires forall t :: t in k'.cpu.status && k'.cpu.status[t] == Dying ==> k.cpu.status[t] == Dying
    ensures Linked(k')
  {
  }

  /** Yielding, exiting, creating and idling do not touch synch.c. */
  lemma SwitchValid(k: Kernel, s: KStep)
    requires Valid(k) && CanStep(k, s) && !s.InSynch?
    ensures Valid(StepTo(k, s))
  {
    hide Consistent, After, Sound, Linked;
    var e := match s case Yields => Yield case Exits => Exit case Creates(t) => Create(t) case _ => Block;
    SwitchAllowed(k, s, e);
    EventSound(k.cpu, e);
    BlockedAfter(k.cpu, e);
    FreedFree(k, e);
    var k' := StepTo(k, s);
    SamePcOf(k, s, k');
    SamePoints(k.sync, k'.sync);
    SwitchLinked(k, s, e, k');
  }

  lemma SwitchAllowed(k: Kernel, s: KStep, e: Event)
    requires Valid(k) && CanStep(k, s)
    requires match s case InSynch(_) => false case Yields => e == Yield case Exits => e == Exit case Creates(t) => e == Create(t) case Idles => e == Block
    ensures Allowed(k.cpu, e) && k.cpu.current in k.cpu.status
  {
  }

  lemma SamePcOf(k: Kernel, s: KStep, k': Kernel)
    requires Linked(k) && CanStep(k, s) && !s.InSynch? && k.cpu.current in k.cpu.status && k' == StepTo(k, s)
    requires forall t :: t in k.cpu.status && t !in k'.cpu.status ==> PcOf(k.sync, t) == Free
    ensures k'.sync == k.sync.(pcs := k'.sync.pcs) && forall t :: PcOf(k'.sync, t) == PcOf(k.sync, t)
    ensures forall t :: t in k'.sync.pcs <==> (t in k.sync.pcs && (s.Yields? || s.Exits? ==> t in k'.cpu.status)) || s == Creates(t)
  {
    hide After;
  }

  lemma SwitchLinked(k: Kernel, s: KStep, e: Event, k': Kernel)
    requires Linked(k) && Sound(k.cpu) && !s.InSynch? && CanStep(k, s) && k'.cpu.idle == k.cpu.idle
    requires match s case InSynch(_) => false case Yields => e == Yield case Exits => e == Exit case Creates(t) => e == Create(t) case Idles => e == Block
    requires forall t :: PcOf(k'.sync, t) == PcOf(k.sync, t)
    requires forall t :: t in k'.sync.pcs <==> (t in k.sync.pcs && (s.Yields? || s.Exits? ==> t in k'.cpu.status)) || s == Creates(t)
    requires forall t :: t in k'.cpu.status ==> t in k.cpu.status || e == Create(t)
    requires !e.Yield? && !e.Exit? ==> forall t :: t in k'.cpu.status <==> t in k.cpu.status || e == Create(t)
    requires forall t :: t in k'.cpu.status && t != k.cpu.idle ==>
              (k'.cpu.status[t] == Blocked <==>
                 if e.Block? && t == k.cpu.current then true else if e == Unblock(t) || e == Create(t) then false
                 else t in k.cpu.status && k.cpu.status[t] == Blocked)
    requires forall t :: t in k'.cpu.status && k'.cpu.status[t] == Dying ==>
              t in k.cpu.status && (k.cpu.status[t] == Dying || (e.Exit? && t == k.cpu.current))
    ensures Linked(k')
  {
    forall t | t in k'.cpu.status && t != k.cpu.idle
      ensures k'.cpu.status[t] == Blocked <==> Sleeping(k'.sync, t)
    {
      assert Sleeping(k'.sync, t) == Sleeping(k.sync, t);
    }
  }

  /** Whoever is freed was at no point of synch.c. */
  lemma FreedFree(k: Kernel, e: Event)
    requires Valid(k) && Allowed(k.cpu, e)
    ensures forall t :: t in k.cpu.status && t !in After(k.cpu, e).status ==> PcOf(k.sync, t) == Free
    ensures forall t :: t in After(k.cpu, e).status ==> t in k.cpu.status || e == Create(t)
  {
    forall t | t in k.cpu.status && t !in After(k.cpu, e).status
      ensures PcOf(k.sync, t) == Free
    {
      FreedWhenDead(k.cpu, e, t);
    }
    assert k.cpu.ready != [] ==> k.cpu.ready[0] in k.cpu.ready;
  }

  // ------------------------------------------------------------- all runs

  /** When the idle thread has started: the first thread runs, and nothing has been synchronized yet. */
  function Booted(main: Tid, idle: Tid): Kernel {
    Kernel(Started(main, idle), Sync(map[main := Free, idle := Free], map[], map[], map[], map[], map[]))
  }

  lemma BootedValid(main: Tid, idle: Tid)
    requires main != idle
    ensures Valid(Booted(main, idle))
  {
    var y := Booted(main, idle).sync;
    assert forall s :: WokenOn(y.pcs, s) == {};
    assert forall l: nat :: Between(y.pcs, l) == {} && SemaOf(y, OfLock(l)).value == 1;
    assert forall t: Tid :: Signallers(y.pcs, t) == {} && !InCond(y, t) && SemaOf(y, OfWaiter(t)).value == 0;
  }

  ghost predicate Possible(k: Kernel, steps: seq<KStep>)
    decreases |steps|
  {
    steps == [] || (k.cpu.current in k.cpu.status && CanStep(k, steps[0]) && Possible(StepTo(k, steps[0]), steps[1..]))
  }

  ghost function RunFrom(k: Kernel, steps: seq<KStep>): Kernel
    requires Possible(k, steps)
    decreases |steps|
  {
    if steps == [] then k else RunFrom(StepTo(k, steps[0]), steps[1..])
  }

  lemma {:induction false} RunValid(k: Kernel, steps: seq<KStep>)
    requires Valid(k) && Possible(k, steps)
    ensures Valid(RunFrom(k, steps))
    decreases |steps|
  {
    if steps != [] {
      if steps[0].InSynch? {
        InSynchValid(k, steps[0].st);
      } else {
        SwitchValid(k, steps[0]);
      }
      RunValid(StepTo(k, steps[0]), steps[1..]);
    }
  }

  /** The invariants hold in every interleaving from boot on. */
  lemma EveryInterleaving(main: Tid, idle: Tid, steps: seq<KStep>)
    requires main != idle && Possible(Booted(main, idle), steps)
    ensures Valid(RunFrom(Booted(main, idle), steps))
  {
    BootedValid(main, idle);
    RunValid(Booted(main, idle), steps);
  }

  /** No thread is on two of the ready list, a semaphore's waiters and the destruction list. */
  lemma OneListEach(k: Kernel, t: Tid, s: SemaId, s': SemaId)
    requires Valid(k)
    ensures t in k.cpu.ready ==> t !in k.cpu.destruction && t !in SemaOf(k.sync, s).waiters && t != k.cpu.current
    ensures t in k.cpu.destruction ==> t !in SemaOf(k.sync, s).waiters && t != k.cpu.current
    ensures t in SemaOf(k.sync, s).waiters && t in SemaOf(k.sync, s').waiters ==> s == s'
  {
    ConsistentQueues(k.sync);
    assert t in SemaOf(k.sync, s).waiters ==> SleepsOn(k.sync, t, s) && Sleeping(k.sync, t) && t != k.cpu.idle;
    assert t in SemaOf(k.sync, s').waiters ==> SleepsOn(k.sync, t, s');
    hide Consistent, Queues, NoLostWakeup;
  }

  /** While threads wait on a semaphore of positive value, a thread that will take it runs or is ready. */
  lemma NeverStuck(k: Kernel, s: SemaId)
    requires Valid(k) && SemaOf(k.sync, s).waiters != [] && SemaOf(k.sync, s).value > 0
    ensures exists t :: t in k.sync.pcs && IsWoken(k.sync.pcs[t], s) && (t == k.cpu.current || t in k.cpu.ready)
  {
    ConsistentQueues(k.sync);
    SomeoneWillTake(k.sync, s);
    hide Consistent, Queues, NoLostWakeup;
    var t :| t in k.sync.pcs && IsWoken(k.sync.pcs[t], s);
    assert !Sleeping(k.sync, t) && PcOf(k.sync, t) != Free;
    assert k.cpu.status[t] == Ready || k.cpu.status[t] == Running;
  }

  // -------------------------------------------------- what calls promise

  lemma StepIsValid(k: Kernel, s: KStep)
    requires Valid(k) && CanStep(k, s)
    ensures k.cpu.current in k.cpu.status && Valid(StepTo(k, s))
  {
    OnCpu(k);
    if s.InSynch? {
      InSynchValid(k, s.st);
    } else {
      SwitchValid(k, s);
    }
  }

  /** A step outside synch.c changes nobody's point in it, no holder, no semaphore and no condition. */
  lemma OutsideSynch(k: Kernel, s: KStep)
    requires Valid(k) && CanStep(k, s) && !s.InSynch?
    ensures k.cpu.current in k.cpu.status
    ensures StepTo(k, s).sync == k.sync.(pcs := StepTo(k, s).sync.pcs)
    ensures forall t :: PcOf(StepTo(k, s).sync, t) == PcOf(k.sync, t)
  {
    hide Consistent, After, Sound, Linked;
    var e := match s case Yields => Yield case Exits => Exit case Creates(t) => Create(t) case _ => Block;
    SwitchAllowed(k, s, e);
    FreedFree(k, e);
    SamePcOf(k, s, StepTo(k, s));
  }

  /** Thread `t` is inside a call of synch.c in every state of the run but perhaps the last. */
  ghost predicate Away(k: Kernel, steps: seq<KStep>, t: Tid)
    requires Possible(k, steps)
    decreases |steps|
  {
    steps == [] || (PcOf(k.sync, t) != Free && Away(StepTo(k, steps[0]), steps[1..], t))
  }

  lemma PromiseStep(k: Kernel, s: KStep, t: Tid)
    requires Valid(k) && CanStep(k, s) && Promised(PcOf(k.sync, t)) >= 0
    ensures k.cpu.current in k.cpu.status
    ensures var y', l := StepTo(k, s).sync, Promised(PcOf(k.sync, t));
            Promised(PcOf(y', t)) == l || (PcOf(y', t) == Free && Holds(y', t, l))
  {
    hide Promised, Stepped, Queues, Enabled, After, Sound, Linked;
    OnCpu(k);
    if s.InSynch? {
      ConsistentQueues(k.sync);
      PromiseKept(k.sync, k.cpu.current, s.st, t);
    } else {
      OutsideSynch(k, s);
    }
  }

  lemma {:induction false} ComesBackHolding(k: Kernel, steps: seq<KStep>, t: Tid)
    requires Valid(k) && Possible(k, steps) && Away(k, steps, t) && Promised(PcOf(k.sync, t)) >= 0
    ensures var y := RunFrom(k, steps).sync; PcOf(y, t) == Free ==> Holds(y, t, Promised(PcOf(k.sync, t)))
    decreases |steps|
  {
    if steps != [] {
      PromiseStep(k, steps[0], t);
      StepIsValid(k, steps[0]);
      var k' := StepTo(k, steps[0]);
      if PcOf(k'.sync, t) == Free {
        assert steps[1..] == [];
      } else {
        ComesBackHolding(k', steps[1..], t);
      }
    }
  }

  /** In every interleaving, a thread that comes back from `cond_wait` holds the condition's lock. */
  lemma WaitReturnsHolding(k: Kernel, c: Cond, steps: seq<KStep>)
    requires Valid(k) && k.cpu.current in k.cpu.status && CanStep(k, InSynch(Wait(c)))
    requires var k1 := StepTo(k, InSynch(Wait(c))); Possible(k1, steps) && Away(k1, steps, k.cpu.current)
    ensures var y := RunFrom(StepTo(k, InSynch(Wait(c))), steps).sync;
            PcOf(y, k.cpu.current) == Free ==> Holds(y, k.cpu.current, c.l)
  {
    hide Consistent, Stepped, Linked, Sound, After;
    CallsPromise(k.sync, k.cpu.current, Wait(c));
    InSynchValid(k, Wait(c));
    ComesBackHolding(StepTo(k, InSynch(Wait(c))), steps, k.cpu.current);
  }

  /** Likewise from `lock_acquire`, and from a `lock_try_acquire` that found the lock free. */
  lemma AcquireReturnsHolding(k: Kernel, st: Step, l: nat, steps: seq<KStep>)
    requires Valid(k) && k.cpu.current in k.cpu.status && CanStep(k, InSynch(st))
    requires st == Acquire(l) || (st == TryAcquire(l) && SemaOf(k.sync, OfLock(l)).value > 0)
    requires var k1 := StepTo(k, InSynch(st)); Possible(k1, steps) && Away(k1, steps, k.cpu.current)
    ensures var y := RunFrom(StepTo(k, InSynch(st)), steps).sync;
            PcOf(y, k.cpu.current) == Free ==> Holds(y, k.cpu.current, l)
  {
    hide Consistent, Stepped, Linked, Sound, After;
    CallsPromise(k.sync, k.cpu.current, st);
    InSynchValid(k, st);
    ComesBackHolding(StepTo(k, InSynch(st)), steps, k.cpu.current);
  }

  /** A thread that comes back from `lock_release` does not hold the lock. */
  lemma ReleaseReturnsWithout(k: Kernel, l: nat, steps: seq<KStep>)
    requires Valid(k) && k.cpu.current in k.cpu.status && CanStep(k, InSynch(Release(l)))
    requires var k1 := StepTo(k, InSynch(Release(l))); Possible(k1, steps) && Away(k1, steps, k.cpu.current)
    ensures var y := RunFrom(StepTo(k, InSynch(Release(l))), steps).sync; !Holds(y, k.cpu.current, l)
  {
    hide Consistent, Linked, Sound, After;
    InSynchValid(k, Release(l));
    StaysWithout(StepTo(k, InSynch(Release(l))), steps, k.cpu.current, l);
  }

  lemma {:induction false} StaysWithout(k: Kernel, steps: seq<KStep>, t: Tid, l: nat)
    requires Valid(k) && Possible(k, steps) && Away(k, steps, t) && GivesUp(k.sync, t, l)
    ensures !Holds(RunFrom(k, steps).sync, t, l)
    decreases |steps|
  {
    if steps != [] {
      WithoutStep(k, steps[0], t, l);
      StepIsValid(k, steps[0]);
      var k' := StepTo(k, steps[0]);
      if PcOf(k'.sync, t) == Free {
        assert steps[1..] == [];
      } else {
        StaysWithout(k', steps[1..], t, l);
      }
    }
  }

  lemma WithoutStep(k: Kernel, s: KStep, t: Tid, l: nat)
    requires Valid(k) && CanStep(k, s) && GivesUp(k.sync, t, l)
    ensures k.cpu.current in k.cpu.status
    ensures var y' := StepTo(k, s).sync; GivesUp(y', t, l) || (PcOf(y', t) == Free && !Holds(y', t, l))
  {
    hide Stepped, Queues, Enabled, After, Sound, Linked;
    OnCpu(k);
    if s.InSynch? {
      ConsistentQueues(k.sync);
      ReleaseKept(k.sync, k.cpu.current, s.st, t, l);
    } else {
      OutsideSynch(k, s);
    }
  }

  // --------------------------------------------------------- turns in line

  predicate UpsIn(k: Kernel, s: KStep, u: SemaId) {
    s.InSynch? && Ups(k.sync, k.cpu.current, s.st, u)
  }

  ghost function UpCount(k: Kernel, steps: seq<KStep>, u: SemaId): (n: nat)
    requires Possible(k, steps)
    decreases |steps|
  {
    if steps == [] then 0 else UpCount(StepTo(k, steps[0]), steps[1..], u) + if UpsIn(k, steps[0], u) then 1 else 0
  }

  /** Waiters are served in turn: with `p` threads before it, a waiter has `p - n` before it after
      `n` ups, whatever else happens. */
  lemma {:induction false} WaitersInTurn(k: Kernel, steps: seq<KStep>, u: SemaId, p: nat)
    requires Valid(k) && Possible(k, steps) && p < |SemaOf(k.sync, u).waiters| && UpCount(k, steps, u) <= p
    ensures var q, n := SemaOf(RunFrom(k, steps).sync, u).waiters, UpCount(k, steps, u);
            p - n < |q| && q[p - n] == SemaOf(k.sync, u).waiters[p]
    decreases |steps|
  {
    hide Valid, CanStep, StepTo, UpsIn, SemaOf;
    if steps != [] {
      TurnMoves(k, steps[0], u);
      StepIsValid(k, steps[0]);
      WaitersInTurn(StepTo(k, steps[0]), steps[1..], u, if UpsIn(k, steps[0], u) then p - 1 else p);
    }
  }

  lemma TurnMoves(k: Kernel, s: KStep, u: SemaId)
    requires Valid(k) && CanStep(k, s)
    ensures k.cpu.current in k.cpu.status
    ensures var q, q' := SemaOf(k.sync, u).waiters, SemaOf(StepTo(k, s).sync, u).waiters;
            if UpsIn(k, s, u) then (q != [] ==> q' == q[1..]) else q <= q'
  {
    hide Consistent, Stepped, Queues, After, Sound, Linked;
    OnCpu(k);
    if s.InSynch? {
      WaitersMove(k.sync, k.cpu.current, s.st, u);
    } else {
      OutsideSynch(k, s);
    }
  }

  /** And the one whose turn it is is woken by the next up. */
  lemma WokenNext(k: Kernel, steps: seq<KStep>, st: Step, u: SemaId, p: nat)
    requires Valid(k) && Possible(k, steps) && p < |SemaOf(k.sync, u).waiters| && UpCount(k, steps, u) == p
    requires CanStep(RunFrom(k, steps), InSynch(st)) && UpsIn(RunFrom(k, steps), InSynch(st), u)
    ensures var k' := RunFrom(k, steps);
            && k'.cpu.current in k'.cpu.status
            && IsWoken(PcOf(StepTo(k', InSynch(st)).sync, SemaOf(k.sync, u).waiters[p]), u)
  {
    hide RunFrom, Possible, UpCount, Valid, SemaOf, IsWoken, StepTo, CanStep, UpsIn, PcOf;
    RunValid(k, steps);
    WaitersInTurn(k, steps, u, p);
    WakesFirst(RunFrom(k, steps), st, u);
  }

  lemma WakesFirst(k: Kernel, st: Step, u: SemaId)
    requires Valid(k) && CanStep(k, InSynch(st)) && UpsIn(k, InSynch(st), u) && SemaOf(k.sync, u).waiters != []
    ensures k.cpu.current in k.cpu.status
    ensures IsWoken(PcOf(StepTo(k, InSynch(st)).sync, SemaOf(k.sync, u).waiters[0]), u)
  {
    hide Consistent, Stepped, Queues, After, Sound, Linked, IsWoken;
    OnCpu(k);
    WaitersMove(k.sync, k.cpu.current, st, u);
  }

  ghost function SignalCount(steps: seq<KStep>, c: Cond): (n: nat) {
    if steps == [] then 0 else SignalCount(steps[1..], c) + if steps[0] == InSynch(Signal(c)) then 1 else 0
  }

  /** Likewise for a condition: each signal takes the first of the line. */
  lemma {:induction false} SignalsInTurn(k: Kernel, steps: seq<KStep>, c: Cond, p: nat)
    requires Valid(k) && Possible(k, steps) && p < |Waiters(k.sync, c)| && SignalCount(steps, c) <= p
    ensures var q, n := Waiters(RunFrom(k, steps).sync, c), SignalCount(steps, c);
            p - n < |q| && q[p - n] == Waiters(k.sync, c)[p]
    decreases |steps|
  {
    hide Valid, CanStep, StepTo, Waiters;
    if steps != [] {
      LineMoves(k, steps[0], c);
      StepIsValid(k, steps[0]);
      SignalsInTurn(StepTo(k, steps[0]), steps[1..], c, if steps[0] == InSynch(Signal(c)) then p - 1 else p);
    }
  }

  lemma LineMoves(k: Kernel, s: KStep, c: Cond)
    requires Valid(k) && CanStep(k, s)
    ensures k.cpu.current in k.cpu.status
    ensures var q, q' := Waiters(k.sync, c), Waiters(StepTo(k, s).sync, c);
            if s == InSynch(Signal(c)) then (q != [] ==> q' == q[1..]) else q <= q'
  {
    hide Consistent, Stepped, Queues, After, Sound, Linked;
    OnCpu(k);
    if s.InSynch? {
      ConditionMoves(k.sync, k.cpu.current, s.st, c);
    } else {
      OutsideSynch(k, s);
    }
  }
}
