/** threads/synch.c: semaphores, locks and condition variables.  Every stretch
    of code that runs with interrupts off is one step of the running thread. */
module Synch {
  import opened Scheduler

  /** A plain semaphore with its initial value, a lock's, or that of a thread waiting on a condition. */
  datatype SemaId = Plain(name: nat, initial: nat) | OfLock(l: nat) | OfWaiter(t: Tid)

  /** A condition variable, named within the one lock it is used with. */
  datatype Cond = Cond(l: nat, name: nat)

  /** Whether a thread in `sema_down` has yet to test the value, sleeps, or was woken and has to test again. */
  datatype Stage = Fresh | Asleep | Woken

  /** What follows a completed `sema_down`. */
  datatype Next = Return | Hold(l: nat) | Relock(l: nat)

  /** Where a thread is in synch.c; `Free` is anywhere else. */
  datatype Pc =
    | Free
    | Down(s: SemaId, next: Next, stage: Stage)
    | Took(l: nat)                        // semaphore taken, holder not yet set
    | Releasing(l: nat)                   // in cond_wait, about to release the lock
    | Released(l: nat, wait: bool)        // holder cleared, semaphore not yet upped
    | Signalling(w: Tid)                  // waiter taken off the condition, its semaphore not yet upped

  datatype Sema = Sema(value: nat, waiters: seq<Tid>)

  datatype Sync = Sync(
    pcs: map<Tid, Pc>, semas: map<SemaId, Sema>, holders: map<nat, Tid>, conds: map<Cond, seq<Tid>>,
    ups: map<SemaId, nat>, downs: map<SemaId, nat>)

  /** `sema_init`. */
  function InitialValue(s: SemaId): nat {
    match s case Plain(_, v) => v case OfLock(_) => 1 case OfWaiter(_) => 0
  }

  function SemaOf(y: Sync, s: SemaId): Sema {
    if s in y.semas then y.semas[s] else Sema(InitialValue(s), [])
  }

  function Count(m: map<SemaId, nat>, s: SemaId): nat {
    if s in m then m[s] else 0
  }

  function Waiters(y: Sync, c: Cond): seq<Tid> {
    if c in y.conds then y.conds[c] else []
  }

  function PcOf(y: Sync, t: Tid): Pc {
    if t in y.pcs then y.pcs[t] else Free
  }

  // ------------------------------------------------------------ invariants

  ghost predicate SleepsOn(y: Sync, t: Tid, s: SemaId) {
    PcOf(y, t).Down? && PcOf(y, t).s == s && PcOf(y, t).stage == Asleep
  }

  /** Exactly the sleeping threads are queued, each on its own semaphore and once. */
  ghost predicate Queues(y: Sync) {
    && (forall s :: Distinct(SemaOf(y, s).waiters))
    && (forall s, t :: t in SemaOf(y, s).waiters ==> SleepsOn(y, t, s))
    && (forall s, t :: SleepsOn(y, t, s) ==> t in SemaOf(y, s).waiters)
  }

  predicate IsWoken(pc: Pc, s: SemaId) {
    pc.Down? && pc.s == s && pc.stage == Woken
  }

  ghost function WokenOn(pcs: map<Tid, Pc>, s: SemaId): set<Tid> {
    set t | t in pcs && IsWoken(pcs[t], s)
  }

  /** No wakeup is lost: while threads wait, every unit of value has a woken thread about to test it. */
  ghost predicate NoLostWakeup(y: Sync) {
    forall s :: SemaOf(y, s).waiters != [] ==> SemaOf(y, s).value <= |WokenOn(y.pcs, s)|
  }

  /** A semaphore's value is what it started with, plus ups, minus completed downs. */
  ghost predicate Counted(y: Sync) {
    forall s :: SemaOf(y, s).value + Count(y.downs, s) == InitialValue(s) + Count(y.ups, s)
  }

  /** What a thread's point in synch.c says: a `sema_down` is continued by the function that
      called it, and the assertions on the holder that follow inside `cond_wait` will hold. */
  ghost predicate PcRight(holders: map<nat, Tid>, t: Tid, pc: Pc) {
    match pc
    case Down(s, Return, _) => s.Plain?
    case Down(s, Hold(l), _) => s == OfLock(l) && !(l in holders && holders[l] == t)
    case Down(s, Relock(l), _) => s == OfWaiter(t) && !(l in holders && holders[l] == t)
    case Releasing(l) => l in holders && holders[l] == t
    case _ => true
  }

  ghost predicate Right(y: Sync) {
    forall t :: t in y.pcs ==> PcRight(y.holders, t, y.pcs[t])
  }

  predicate IsBetween(pc: Pc, l: nat) {
    pc == Took(l) || (pc.Released? && pc.l == l)
  }

  /** Threads that own lock `l` without being its recorded holder. */
  ghost function Between(pcs: map<Tid, Pc>, l: nat): set<Tid> {
    set t | t in pcs && IsBetween(pcs[t], l)
  }

  /** Value and owners of a lock make one: mutual exclusion from acquire to release. */
  ghost predicate Exclusive(y: Sync) {
    forall l: nat {:trigger Between(y.pcs, l)} ::
      SemaOf(y, OfLock(l)).value + |Between(y.pcs, l)| + (if l in y.holders then 1 else 0) == 1
  }

  /** The lock of the condition that a thread is waiting on. */
  function WaitLock(pc: Pc): int {
    match pc
    case Releasing(l) => l
    case Released(l, true) => l
    case Down(_, Relock(l), _) => l
    case _ => -1
  }

  ghost predicate InCond(y: Sync, t: Tid) {
    exists c :: t in Waiters(y, c)
  }

  ghost function Signallers(pcs: map<Tid, Pc>, w: Tid): set<Tid> {
    set t | t in pcs && pcs[t] == Signalling(w)
  }

  ghost function B2N(b: bool): nat {
    if b then 1 else 0
  }

  /** Where the signal for `t` is: not sent yet, under way, or in the semaphore. */
  ghost function Tokens(y: Sync, t: Tid): nat {
    B2N(InCond(y, t)) + |Signallers(y.pcs, t)| + SemaOf(y, OfWaiter(t)).value
  }

  /** No signal is lost: it is in exactly one place for a thread in `cond_wait`, and nowhere for another thread. */
  ghost predicate Signalled(y: Sync) {
    forall t: Tid {:trigger Tokens(y, t)} :: Tokens(y, t) == B2N(WaitLock(PcOf(y, t)) >= 0)
  }

  /** Condition lists hold waiting threads of their lock, each once. */
  ghost predicate Conditions(y: Sync) {
    && (forall c :: Distinct(Waiters(y, c)))
    && (forall c, t :: t in Waiters(y, c) ==> WaitLock(PcOf(y, t)) == c.l)
    && (forall c, c', t :: t in Waiters(y, c) && t in Waiters(y, c') ==> c == c')
  }

  ghost predicate Consistent(y: Sync) {
    Queues(y) && NoLostWakeup(y) && Counted(y) && Right(y) && Exclusive(y) && Signalled(y) && Conditions(y)
  }

  // --------------------------------------------------------- atomic pieces

  function SetPc(y: Sync, t: Tid, pc: Pc): Sync {
    y.(pcs := y.pcs[t := pc])
  }

  function TakeOne(y: Sync, s: SemaId): Sync
    requires SemaOf(y, s).value > 0
  {
    y.(semas := y.semas[s := SemaOf(y, s).(value := SemaOf(y, s).value - 1)],
       downs := y.downs[s := Count(y.downs, s) + 1])
  }

  /** The loop body of `sema_down`: queue up, to be blocked next. */
  function Sleep(y: Sync, t: Tid, s: SemaId, next: Next): Sync {
    SetPc(y.(semas := y.semas[s := SemaOf(y, s).(waiters := SemaOf(y, s).waiters + [t])]), t, Down(s, next, Asleep))
  }

  /** What follows the loop. */
  function Passed(next: Next): Pc {
    match next
    case Return => Free
    case Hold(l) => Took(l)
    case Relock(l) => Down(OfLock(l), Hold(l), Fresh)
  }

  /** `sema_up`: the first waiter, if any, is woken, and the value incremented. */
  function Up(y: Sync, s: SemaId): Sync {
    var sema := SemaOf(y, s);
    var y1 := y.(ups := y.ups[s := Count(y.ups, s) + 1]);
    if sema.waiters == [] then
      y1.(semas := y.semas[s := Sema(sema.value + 1, [])])
    else
      var w := sema.waiters[0];
      SetPc(y1.(semas := y.semas[s := Sema(sema.value + 1, sema.waiters[1..])]), w,
            if PcOf(y, w).Down? then PcOf(y, w).(stage := Woken) else Free)
  }

  /** `cond_wait` starts from a semaphore of its own with value 0. */
  function InitWaiter(y: Sync, t: Tid): Sync {
    y.(semas := y.semas[OfWaiter(t) := Sema(0, [])], ups := y.ups - {OfWaiter(t)}, downs := y.downs - {OfWaiter(t)})
  }

  // ----------------------------------------------------------------- steps

  datatype Step =
    | CallDown(name: nat, initial: nat) | TestDown | TryDown(s: SemaId) | CallUp(s: SemaId)
    | Acquire(l: nat) | TryAcquire(l: nat) | SetHolder | Release(l: nat) | FinishRelease
    | Wait(c: Cond) | StartRelease | Signal(c: Cond) | FinishSignal

  predicate Holds(y: Sync, t: Tid, l: nat) {
    l in y.holders && y.holders[l] == t
  }

  /** The assertions at the head of each function, and the point in it that thread `t` has reached.
      Interrupt handlers may try a down, and up, at any point. */
  predicate Enabled(y: Sync, t: Tid, st: Step) {
    t in y.pcs &&
    match st
    case CallDown(_, _) => y.pcs[t] == Free
    case TestDown => y.pcs[t].Down? && y.pcs[t].stage != Asleep
    case TryDown(s) => s.Plain?
    case CallUp(s) => s.Plain?
    case Acquire(l) => y.pcs[t] == Free && !Holds(y, t, l)
    case TryAcquire(l) => y.pcs[t] == Free && !Holds(y, t, l)
    case SetHolder => y.pcs[t].Took?
    case Release(l) => y.pcs[t] == Free && Holds(y, t, l)
    case FinishRelease => y.pcs[t].Released?
    case Wait(c) => y.pcs[t] == Free && Holds(y, t, c.l)
    case StartRelease => y.pcs[t].Releasing?
    case Signal(c) => y.pcs[t] == Free && Holds(y, t, c.l)
    case FinishSignal => y.pcs[t].Signalling?
  }

  function Stepped(y: Sync, t: Tid, st: Step): Sync
    requires Enabled(y, t, st)
  {
    var pc := y.pcs[t];
    match st
    case CallDown(n, v) => SetPc(y, t, Down(Plain(n, v), Return, Fresh))
    case TestDown => if SemaOf(y, pc.s).value == 0 then Sleep(y, t, pc.s, pc.next) else SetPc(TakeOne(y, pc.s), t, Passed(pc.next))
    case TryDown(s) => if SemaOf(y, s).value > 0 then TakeOne(y, s) else y
    case CallUp(s) => Up(y, s)
    case Acquire(l) => SetPc(y, t, Down(OfLock(l), Hold(l), Fresh))
    case TryAcquire(l) => if SemaOf(y, OfLock(l)).value > 0 then SetPc(TakeOne(y, OfLock(l)), t, Took(l)) else y
    case SetHolder => SetPc(y.(holders := y.holders[pc.l := t]), t, Free)
    case Release(l) => SetPc(y.(holders := y.holders - {l}), t, Released(l, false))
    case FinishRelease => SetPc(Up(y, OfLock(pc.l)), t, if pc.wait then Down(OfWaiter(t), Relock(pc.l), Fresh) else Free)
    case Wait(c) => SetPc(InitWaiter(y, t).(conds := y.conds[c := Waiters(y, c) + [t]]), t, Releasing(c.l))
    case StartRelease => SetPc(y.(holders := y.holders - {pc.l}), t, Released(pc.l, true))
    case Signal(c) =>
      if Waiters(y, c) == [] then y
      else SetPc(y.(conds := y.conds[c := Waiters(y, c)[1..]]), t, Signalling(Waiters(y, c)[0]))
    case FinishSignal => SetPc(Up(y, OfWaiter(pc.w)), t, Free)
  }

  // ----------------------------------------------- queues and lost wakeups

  lemma QueuesSame(y: Sync, y': Sync)
    requires Queues(y) && (forall s :: SemaOf(y', s).waiters == SemaOf(y, s).waiters)
    requires forall t, s :: SleepsOn(y', t, s) <==> SleepsOn(y, t, s)
    ensures Queues(y')
  {
  }

  lemma QueuesSleep(y: Sync, t: Tid, s: SemaId, next: Next)
    requires Queues(y) && !(PcOf(y, t).Down? && PcOf(y, t).stage == Asleep)
    ensures Queues(Sleep(y, t, s, next))
  {
    var y' := Sleep(y, t, s, next);
    assert forall x :: SemaOf(y', x).waiters == if x == s then SemaOf(y, s).waiters + [t] else SemaOf(y, x).waiters;
    assert forall u, x :: SleepsOn(y', u, x) <==> SleepsOn(y, u, x) || (u == t && x == s);
    assert !SleepsOn(y, t, s);
    Appended(SemaOf(y, s).waiters, t);
  }

  /** After an up the first waiter is awake, and nothing else about sleeping has changed. */
  lemma UpShape(y: Sync, s: SemaId)
    requires Queues(y)
    ensures var y', q := Up(y, s), SemaOf(y, s).waiters;
            && (forall x :: x != s ==> SemaOf(y', x) == SemaOf(y, x))
            && SemaOf(y', s) == Sema(SemaOf(y, s).value + 1, if q == [] then [] else q[1..])
            && (forall u :: u in y.pcs && !(q != [] && u == q[0]) ==> u in y'.pcs && y'.pcs[u] == y.pcs[u])
            && (q == [] ==> y'.pcs == y.pcs)
            && (q != [] ==> SleepsOn(y, q[0], s) && q[0] in y.pcs && y'.pcs == y.pcs[q[0] := y.pcs[q[0]].(stage := Woken)])
  {
    var q := SemaOf(y, s).waiters;
    assert q != [] ==> q[0] in q;
  }

  lemma QueuesUp(y: Sync, s: SemaId)
    requires Queues(y)
    ensures Queues(Up(y, s))
  {
    UpShape(y, s);
    var y', q := Up(y, s), SemaOf(y, s).waiters;
    hide Up;
    if q != [] {
      assert q == [q[0]] + q[1..];
      assert forall u, x :: SleepsOn(y', u, x) <==> SleepsOn(y, u, x) && u != q[0];
      assert q[0] in SemaOf(y, s).waiters;
    } else {
      QueuesSame(y, y');
    }
  }

  lemma WokenAfter(pcs: map<Tid, Pc>, t: Tid, pc: Pc, s: SemaId)
    ensures WokenOn(pcs[t := pc], s) == if IsWoken(pc, s) then WokenOn(pcs, s) + {t} else WokenOn(pcs, s) - {t}
  {
  }

  /** A thread whose semaphore it is has an empty queue while it is elsewhere. */
  lemma NoOneElseWaits(y: Sync, t: Tid)
    requires Queues(y) && Right(y) && !PcOf(y, t).Down?
    ensures SemaOf(y, OfWaiter(t)).waiters == []
  {
    var q := SemaOf(y, OfWaiter(t)).waiters;
    assert q != [] ==> q[0] in q && SleepsOn(y, q[0], OfWaiter(t));
  }

  lemma SetPcQueues(y: Sync, t: Tid, pc: Pc)
    requires Queues(y) && !(PcOf(y, t).Down? && PcOf(y, t).stage == Asleep) && !(pc.Down? && pc.stage == Asleep)
    ensures Queues(SetPc(y, t, pc))
  {
    QueuesSame(y, SetPc(y, t, pc));
  }

  lemma TakeQueues(y: Sync, s: SemaId)
    requires Queues(y) && SemaOf(y, s).value > 0
    ensures Queues(TakeOne(y, s))
  {
    QueuesSame(y, TakeOne(y, s));
  }

  lemma QueuesKept(y: Sync, t: Tid, st: Step)
    requires Queues(y) && Right(y) && Enabled(y, t, st)
    ensures Queues(Stepped(y, t, st))
  {
    hide Queues, SleepsOn;
    var pc := y.pcs[t];
    match st
    case CallDown(n, v) => SetPcQueues(y, t, Down(Plain(n, v), Return, Fresh));
    case TestDown =>
      if SemaOf(y, pc.s).value == 0 {
        QueuesSleep(y, t, pc.s, pc.next);
      } else {
        TakeQueues(y, pc.s);
        SetPcQueues(TakeOne(y, pc.s), t, Passed(pc.next));
      }
    case TryDown(s) => if SemaOf(y, s).value > 0 { TakeQueues(y, s); }
    case CallUp(s) => QueuesUp(y, s);
    case Acquire(l) => SetPcQueues(y, t, Down(OfLock(l), Hold(l), Fresh));
    case TryAcquire(l) =>
      if SemaOf(y, OfLock(l)).value > 0 {
        TakeQueues(y, OfLock(l));
        SetPcQueues(TakeOne(y, OfLock(l)), t, Took(l));
      }
    case SetHolder =>
      var y1 := y.(holders := y.holders[pc.l := t]);
      FieldsQueues(y, y1);
      SetPcQueues(y1, t, Free);
    case Release(l) =>
      var y1 := y.(holders := y.holders - {l});
      FieldsQueues(y, y1);
      SetPcQueues(y1, t, Released(l, false));
    case FinishRelease => UpQueues(y, OfLock(pc.l), t, if pc.wait then Down(OfWaiter(t), Relock(pc.l), Fresh) else Free);
    case Wait(c) =>
      NoOneElseWaits(y, t);
      var y1 := InitWaiter(y, t).(conds := y.conds[c := Waiters(y, c) + [t]]);
      InitQueues(y, t, y1);
      SetPcQueues(y1, t, Releasing(c.l));
    case StartRelease =>
      var y1 := y.(holders := y.holders - {pc.l});
      FieldsQueues(y, y1);
      SetPcQueues(y1, t, Released(pc.l, true));
    case Signal(c) =>
      if Waiters(y, c) != [] {
        var y1 := y.(conds := y.conds[c := Waiters(y, c)[1..]]);
        FieldsQueues(y, y1);
        SetPcQueues(y1, t, Signalling(Waiters(y, c)[0]));
      }
    case FinishSignal => UpQueues(y, OfWaiter(pc.w), t, Free);
  }

  lemma FieldsQueues(y: Sync, y': Sync)
    requires Queues(y) && y'.pcs == y.pcs && y'.semas == y.semas
    ensures Queues(y')
  {
    QueuesSame(y, y');
  }

  lemma InitQueues(y: Sync, t: Tid, y': Sync)
    requires Queues(y) && SemaOf(y, OfWaiter(t)).waiters == [] && y'.pcs == y.pcs && y'.semas == InitWaiter(y, t).semas
    ensures Queues(y')
  {
    QueuesSame(y, y');
  }

  lemma UpQueues(y: Sync, s: SemaId, t: Tid, pc: Pc)
    requires Queues(y) && t in y.pcs && !y.pcs[t].Down? && !(pc.Down? && pc.stage == Asleep)
    ensures Queues(SetPc(Up(y, s), t, pc))
  {
    QueuesUp(y, s);
    UpShape(y, s);
    hide Queues, Up;
    SetPcQueues(Up(y, s), t, pc);
  }

  // -------------------------------------------------- no wakeup is lost

  lemma SetPcWakeups(y: Sync, t: Tid, pc: Pc)
    requires NoLostWakeup(y) && !(PcOf(y, t).Down? && PcOf(y, t).stage == Woken) && !(pc.Down? && pc.stage == Woken)
    ensures NoLostWakeup(SetPc(y, t, pc))
  {
    forall s | SemaOf(y, s).waiters != []
      ensures WokenOn(SetPc(y, t, pc).pcs, s) == WokenOn(y.pcs, s)
    {
      WokenAfter(y.pcs, t, pc, s);
    }
    var y' := SetPc(y, t, pc);
    assert forall s :: SemaOf(y', s) == SemaOf(y, s);
  }

  /** A thread that takes a unit, woken or not, leaves as many units as woken threads at most. */
  lemma TakeWakeups(y: Sync, t: Tid, s: SemaId, pc: Pc)
    requires NoLostWakeup(y) && SemaOf(y, s).value > 0 && !(pc.Down? && pc.stage == Woken)
    requires PcOf(y, t).Down? && PcOf(y, t).stage == Woken ==> PcOf(y, t).s == s
    ensures NoLostWakeup(SetPc(TakeOne(y, s), t, pc))
  {
    var y' := SetPc(TakeOne(y, s), t, pc);
    forall x | SemaOf(y', x).waiters != []
      ensures SemaOf(y', x).value <= |WokenOn(y'.pcs, x)|
    {
      WokenAfter(y.pcs, t, pc, x);
      assert SemaOf(y, x).waiters != [];
    }
  }

  lemma SleepWakeups(y: Sync, t: Tid, s: SemaId, next: Next)
    requires NoLostWakeup(y) && SemaOf(y, s).value == 0
    requires PcOf(y, t).Down? && PcOf(y, t).stage == Woken ==> PcOf(y, t).s == s
    ensures NoLostWakeup(Sleep(y, t, s, next))
  {
    var y' := Sleep(y, t, s, next);
    forall x | SemaOf(y', x).waiters != []
      ensures SemaOf(y', x).value <= |WokenOn(y'.pcs, x)|
    {
      WokenAfter(y.pcs, t, Down(s, next, Asleep), x);
    }
  }

  lemma UpWakeups(y: Sync, s: SemaId)
    requires NoLostWakeup(y) && Queues(y)
    ensures NoLostWakeup(Up(y, s))
  {
    UpShape(y, s);
    var y', q := Up(y, s), SemaOf(y, s).waiters;
    hide Up, Queues;
    forall x | SemaOf(y', x).waiters != []
      ensures SemaOf(y', x).value <= |WokenOn(y'.pcs, x)|
    {
      if q != [] {
        WokenAfter(y.pcs, q[0], y'.pcs[q[0]], x);
      }
      assert SemaOf(y, x).waiters != [];
    }
  }

  lemma FieldsWakeups(y: Sync, y': Sync)
    requires NoLostWakeup(y) && y'.pcs == y.pcs
    requires forall s :: SemaOf(y', s) == SemaOf(y, s) || SemaOf(y', s).waiters == []
    ensures NoLostWakeup(y')
  {
  }

  lemma WakeupsKept(y: Sync, t: Tid, st: Step)
    requires NoLostWakeup(y) && Queues(y) && Enabled(y, t, st)
    ensures NoLostWakeup(Stepped(y, t, st))
  {
    hide Queues, NoLostWakeup;
    var pc := y.pcs[t];
    match st
    case CallDown(n, v) => SetPcWakeups(y, t, Down(Plain(n, v), Return, Fresh));
    case TestDown =>
      if SemaOf(y, pc.s).value == 0 {
        SleepWakeups(y, t, pc.s, pc.next);
      } else {
        TakeWakeups(y, t, pc.s, Passed(pc.next));
      }
    case TryDown(s) => if SemaOf(y, s).value > 0 { TryWakeups(y, s); }
    case CallUp(s) => UpWakeups(y, s);
    case Acquire(l) => SetPcWakeups(y, t, Down(OfLock(l), Hold(l), Fresh));
    case TryAcquire(l) => if SemaOf(y, OfLock(l)).value > 0 { TakeWakeups(y, t, OfLock(l), Took(l)); }
    case SetHolder =>
      FieldsWakeups(y, y.(holders := y.holders[pc.l := t]));
      SetPcWakeups(y.(holders := y.holders[pc.l := t]), t, Free);
    case Release(l) =>
      FieldsWakeups(y, y.(holders := y.holders - {l}));
      SetPcWakeups(y.(holders := y.holders - {l}), t, Released(l, false));
    case FinishRelease =>
      UpWakeups(y, OfLock(pc.l));
      UpShape(y, OfLock(pc.l));
      SetPcWakeups(Up(y, OfLock(pc.l)), t, if pc.wait then Down(OfWaiter(t), Relock(pc.l), Fresh) else Free);
    case Wait(c) =>
      var y1 := InitWaiter(y, t).(conds := y.conds[c := Waiters(y, c) + [t]]);
      FieldsWakeups(y, y1);
      SetPcWakeups(y1, t, Releasing(c.l));
    case StartRelease =>
      FieldsWakeups(y, y.(holders := y.holders - {pc.l}));
      SetPcWakeups(y.(holders := y.holders - {pc.l}), t, Released(pc.l, true));
    case Signal(c) =>
      if Waiters(y, c) != [] {
        var y1 := y.(conds := y.conds[c := Waiters(y, c)[1..]]);
        FieldsWakeups(y, y1);
        SetPcWakeups(y1, t, Signalling(Waiters(y, c)[0]));
      }
    case FinishSignal =>
      UpWakeups(y, OfWaiter(pc.w));
      UpShape(y, OfWaiter(pc.w));
      SetPcWakeups(Up(y, OfWaiter(pc.w)), t, Free);
  }

  lemma TryWakeups(y: Sync, s: SemaId)
    requires NoLostWakeup(y) && SemaOf(y, s).value > 0
    ensures NoLostWakeup(TakeOne(y, s))
  {
    assert forall x :: SemaOf(TakeOne(y, s), x).waiters == SemaOf(y, x).waiters && SemaOf(TakeOne(y, s), x).value <= SemaOf(y, x).value;
  }

  // --------------------------------------------------------- counting

  lemma TakeCounted(y: Sync, s: SemaId)
    requires Counted(y) && SemaOf(y, s).value > 0
    ensures Counted(TakeOne(y, s))
  {
    var y' := TakeOne(y, s);
    assert forall x :: Count(y'.downs, x) == if x == s then Count(y.downs, s) + 1 else Count(y.downs, x);
    assert forall x :: SemaOf(y', x).value == if x == s then SemaOf(y, s).value - 1 else SemaOf(y, x).value;
  }

  lemma FieldsCounted(y: Sync, y': Sync)
    requires Counted(y) && y'.ups == y.ups && y'.downs == y.downs && forall s :: SemaOf(y', s).value == SemaOf(y, s).value
    ensures Counted(y')
  {
  }

  lemma UpCounted(y: Sync, s: SemaId)
    requires Counted(y) && Queues(y)
    ensures Counted(Up(y, s))
  {
    UpShape(y, s);
    var y' := Up(y, s);
    hide Queues;
    assert forall x :: Count(y'.ups, x) == if x == s then Count(y.ups, s) + 1 else Count(y.ups, x);
    assert y'.downs == y.downs;
    hide Up;
  }

  lemma InitCounted(y: Sync, t: Tid)
    requires Counted(y)
    ensures Counted(InitWaiter(y, t))
  {
  }

  lemma CountedKept(y: Sync, t: Tid, st: Step)
    requires Counted(y) && Queues(y) && Enabled(y, t, st)
    ensures Counted(Stepped(y, t, st))
  {
    hide Counted, Queues;
    var pc := y.pcs[t];
    var y' := Stepped(y, t, st);
    match st
    case TestDown =>
      if SemaOf(y, pc.s).value == 0 {
        SleepCounted(y, t, pc.s, pc.next);
      } else {
        TakeCounted(y, pc.s);
        FieldsCounted(TakeOne(y, pc.s), y');
      }
    case TryDown(s) => if SemaOf(y, s).value > 0 { TakeCounted(y, s); }
    case CallUp(s) => UpCounted(y, s);
    case TryAcquire(l) =>
      if SemaOf(y, OfLock(l)).value > 0 {
        TakeCounted(y, OfLock(l));
        FieldsCounted(TakeOne(y, OfLock(l)), y');
      }
    case FinishRelease =>
      UpCounted(y, OfLock(pc.l));
      FieldsCounted(Up(y, OfLock(pc.l)), y');
    case Wait(c) =>
      InitCounted(y, t);
      FieldsCounted(InitWaiter(y, t), y');
    case FinishSignal =>
      UpCounted(y, OfWaiter(pc.w));
      FieldsCounted(Up(y, OfWaiter(pc.w)), y');
    case _ => FieldsCounted(y, y');
  }

  lemma SleepCounted(y: Sync, t: Tid, s: SemaId, next: Next)
    requires Counted(y)
    ensures Counted(Sleep(y, t, s, next))
  {
    FieldsCounted(y, Sleep(y, t, s, next));
  }

  // ------------------------------------------------- callers and holders

  lemma SetPcRight(y: Sync, t: Tid, pc: Pc)
    requires Right(y) && PcRight(y.holders, t, pc)
    ensures Right(SetPc(y, t, pc))
  {
  }

  lemma UpRight(y: Sync, s: SemaId)
    requires Right(y) && Queues(y)
    ensures Right(Up(y, s)) && Up(y, s).holders == y.holders
  {
    UpShape(y, s);
    var y' := Up(y, s);
    assert y'.holders == y.holders;
    hide Up, Queues;
    forall t | t in y'.pcs
      ensures PcRight(y'.holders, t, y'.pcs[t])
    {
      assert t in y.pcs && PcRight(y.holders, t, y.pcs[t]);
    }
  }

  /** `lock->holder = NULL` by the holder. */
  lemma ClearRight(y: Sync, t: Tid, l: nat, pc: Pc)
    requires Right(y) && Holds(y, t, l) && PcRight(y.holders - {l}, t, pc)
    ensures Right(SetPc(y.(holders := y.holders - {l}), t, pc))
  {
    var h := y.holders - {l};
    forall u | u in y.pcs && u != t
      ensures PcRight(h, u, y.pcs[u])
    {
      assert PcRight(y.holders, u, y.pcs[u]);
    }
  }

  /** `lock->holder = thread_current ()`: the semaphore taken, nobody is recorded yet. */
  lemma HoldRight(y: Sync, t: Tid, l: nat)
    requires Right(y) && Exclusive(y) && t in y.pcs && y.pcs[t] == Took(l)
    ensures Right(SetPc(y.(holders := y.holders[l := t]), t, Free))
  {
    assert t in Between(y.pcs, l);
    assert l !in y.holders;
    forall u | u in y.pcs && u != t
      ensures PcRight(y.holders[l := t], u, y.pcs[u])
    {
      assert PcRight(y.holders, u, y.pcs[u]);
    }
  }

  lemma RightKept(y: Sync, t: Tid, st: Step)
    requires Right(y) && Exclusive(y) && Queues(y) && Enabled(y, t, st)
    ensures Right(Stepped(y, t, st))
  {
    var pc := y.pcs[t];
    assert PcRight(y.holders, t, pc);
    hide Right, Exclusive, Queues;
    match st
    case TestDown =>
      if SemaOf(y, pc.s).value == 0 {
        FieldsRight(y, y.(semas := Sleep(y, t, pc.s, pc.next).semas));
        SetPcRight(y.(semas := Sleep(y, t, pc.s, pc.next).semas), t, Down(pc.s, pc.next, Asleep));
      } else {
        FieldsRight(y, TakeOne(y, pc.s));
        SetPcRight(TakeOne(y, pc.s), t, Passed(pc.next));
      }
    case TryDown(s) => if SemaOf(y, s).value > 0 { FieldsRight(y, TakeOne(y, s)); }
    case CallUp(s) => UpRight(y, s);
    case TryAcquire(l) =>
      if SemaOf(y, OfLock(l)).value > 0 {
        FieldsRight(y, TakeOne(y, OfLock(l)));
        SetPcRight(TakeOne(y, OfLock(l)), t, Took(l));
      }
    case SetHolder => HoldRight(y, t, pc.l);
    case Release(l) => ClearRight(y, t, l, Released(l, false));
    case StartRelease => ClearRight(y, t, pc.l, Released(pc.l, true));
    case FinishRelease => AfterRelease(y, t);
    case Wait(c) =>
      var y1 := InitWaiter(y, t).(conds := y.conds[c := Waiters(y, c) + [t]]);
      FieldsRight(y, y1);
      SetPcRight(y1, t, Releasing(c.l));
    case Signal(c) =>
      if Waiters(y, c) != [] {
        FieldsRight(y, y.(conds := y.conds[c := Waiters(y, c)[1..]]));
        SetPcRight(y.(conds := y.conds[c := Waiters(y, c)[1..]]), t, Signalling(Waiters(y, c)[0]));
      }
    case FinishSignal =>
      UpRight(y, OfWaiter(pc.w));
      SetPcRight(Up(y, OfWaiter(pc.w)), t, Free);
    case CallDown(n, v) => SetPcRight(y, t, Down(Plain(n, v), Return, Fresh));
    case Acquire(l) => SetPcRight(y, t, Down(OfLock(l), Hold(l), Fresh));
  }

  lemma FieldsRight(y: Sync, y': Sync)
    requires Right(y) && y'.pcs == y.pcs && y'.holders == y.holders
    ensures Right(y')
  {
  }

  /** A thread that has given up a lock is not its holder. */
  lemma AfterRelease(y: Sync, t: Tid)
    requires Right(y) && Exclusive(y) && Queues(y) && t in y.pcs && y.pcs[t].Released?
    ensures Right(Stepped(y, t, FinishRelease))
  {
    var pc := y.pcs[t];
    assert t in Between(y.pcs, pc.l);
    assert pc.l !in y.holders;
    UpRight(y, OfLock(pc.l));
    hide Right, Exclusive, Queues, Up;
    SetPcRight(Up(y, OfLock(pc.l)), t, if pc.wait then Down(OfWaiter(t), Relock(pc.l), Fresh) else Free);
  }

  // ------------------------------------------------------ mutual exclusion

  lemma BetweenAfter(pcs: map<Tid, Pc>, t: Tid, pc: Pc, l: nat)
    ensures Between(pcs[t := pc], l) == if IsBetween(pc, l) then Between(pcs, l) + {t} else Between(pcs, l) - {t}
  {
  }

  /** What one step may do to a lock: to its value, its holder and one thread's place. */
  lemma ExclusiveBy(y: Sync, y': Sync, t: Tid, pc: Pc)
    requires Exclusive(y) && t in y.pcs
    requires forall l: nat {:trigger Between(y'.pcs, l)} :: Between(y'.pcs, l) == Between(y.pcs[t := pc], l)
    requires forall l: nat {:trigger SemaOf(y', OfLock(l))} ::
               SemaOf(y', OfLock(l)).value + B2N(IsBetween(pc, l)) + B2N(l in y'.holders)
               == SemaOf(y, OfLock(l)).value + B2N(IsBetween(y.pcs[t], l)) + B2N(l in y.holders)
    ensures Exclusive(y')
  {
    forall l: nat
      ensures SemaOf(y', OfLock(l)).value + |Between(y'.pcs, l)| + (if l in y'.holders then 1 else 0) == 1
    {
      BetweenAfter(y.pcs, t, pc, l);
      assert t in Between(y.pcs, l) <==> IsBetween(y.pcs[t], l);
      assert SemaOf(y, OfLock(l)).value + |Between(y.pcs, l)| + (if l in y.holders then 1 else 0) == 1;
    }
  }

  /** Waking a thread changes nobody's place in a lock. */
  lemma UpBetween(y: Sync, s: SemaId, t: Tid, pc: Pc)
    requires Queues(y) && t in y.pcs && !(y.pcs[t].Down? && y.pcs[t].stage == Asleep)
    ensures forall l {:trigger Between(Up(y, s).pcs[t := pc], l)} :: Between(Up(y, s).pcs[t := pc], l) == Between(y.pcs[t := pc], l)
    ensures Up(y, s).holders == y.holders && Up(y, s).conds == y.conds
    ensures forall x {:trigger SemaOf(Up(y, s), x)} :: SemaOf(Up(y, s), x).value == SemaOf(y, x).value + if x == s then 1 else 0
  {
    UpShape(y, s);
    var y', q := Up(y, s), SemaOf(y, s).waiters;
    assert y'.holders == y.holders;
    hide Up, Queues;
    var p', p := y'.pcs[t := pc], y.pcs[t := pc];
    forall l: nat
      ensures Between(p', l) == Between(p, l)
    {
      if q != [] {
        BetweenAfter(y.pcs, q[0], y'.pcs[q[0]], l);
        BetweenAfter(y'.pcs, t, pc, l);
        BetweenAfter(y.pcs, t, pc, l);
        assert q[0] !in Between(y.pcs, l);
      }
    }
  }

  lemma ExclusiveKept(y: Sync, t: Tid, st: Step)
    requires Right(y) && Exclusive(y) && Queues(y) && Enabled(y, t, st)
    ensures Exclusive(Stepped(y, t, st))
  {
    hide Right, Exclusive, Queues, Between;
    match st
    case TestDown => ExclusiveTest(y, t);
    case TryDown(s) => if SemaOf(y, s).value > 0 { ExclusiveTry(y, s); }
    case CallUp(s) => ExclusiveUp(y, s);
    case TryAcquire(l) => if SemaOf(y, OfLock(l)).value > 0 { ExclusiveBy(y, Stepped(y, t, st), t, Took(l)); }
    case SetHolder => ExclusiveHolders(y, t, st);
    case Release(l) => ExclusiveHolders(y, t, st);
    case StartRelease => ExclusiveHolders(y, t, st);
    case FinishRelease => ExclusiveUps(y, t, st);
    case FinishSignal => ExclusiveUps(y, t, st);
    case Wait(c) => ExclusiveElse(y, Stepped(y, t, st), t, Releasing(c.l));
    case Signal(c) => if Waiters(y, c) != [] { ExclusiveElse(y, Stepped(y, t, st), t, Signalling(Waiters(y, c)[0])); }
    case CallDown(n, v) => ExclusiveElse(y, Stepped(y, t, st), t, Down(Plain(n, v), Return, Fresh));
    case Acquire(l) => ExclusiveElse(y, Stepped(y, t, st), t, Down(OfLock(l), Hold(l), Fresh));
  }

  lemma ExclusiveTest(y: Sync, t: Tid)
    requires Right(y) && Exclusive(y) && Enabled(y, t, TestDown)
    ensures Exclusive(Stepped(y, t, TestDown))
  {
    var pc := y.pcs[t];
    assert PcRight(y.holders, t, pc);
    hide Right, Exclusive, Between;
    if SemaOf(y, pc.s).value == 0 {
      ExclusiveElse(y, Sleep(y, t, pc.s, pc.next), t, Down(pc.s, pc.next, Asleep));
    } else {
      ExclusiveTake(y, t, pc.s, pc.next);
    }
  }

  lemma ExclusiveTake(y: Sync, t: Tid, s: SemaId, next: Next)
    requires Exclusive(y) && SemaOf(y, s).value > 0 && t in y.pcs && y.pcs[t].Down?
    requires forall l :: s == OfLock(l) <==> next == Hold(l)
    ensures Exclusive(SetPc(TakeOne(y, s), t, Passed(next)))
  {
    hide Exclusive, Between;
    var y' := SetPc(TakeOne(y, s), t, Passed(next));
    assert forall l :: SemaOf(y', OfLock(l)).value == SemaOf(y, OfLock(l)).value - if s == OfLock(l) then 1 else 0;
    ExclusiveBy(y, y', t, Passed(next));
  }

  lemma ExclusiveTry(y: Sync, s: SemaId)
    requires Exclusive(y) && s.Plain? && SemaOf(y, s).value > 0
    ensures Exclusive(TakeOne(y, s))
  {
    assert forall l :: SemaOf(TakeOne(y, s), OfLock(l)) == SemaOf(y, OfLock(l));
  }

  lemma ExclusiveHolders(y: Sync, t: Tid, st: Step)
    requires Right(y) && Exclusive(y) && Enabled(y, t, st) && (st.SetHolder? || st.Release? || st.StartRelease?)
    ensures Exclusive(Stepped(y, t, st))
  {
    var pc := y.pcs[t];
    assert PcRight(y.holders, t, pc);
    var y' := Stepped(y, t, st);
    assert y'.semas == y.semas;
    if st.SetHolder? {
      TookUnheld(y, t, pc.l);
    }
    hide Right, Exclusive, Between;
    ExclusiveBy(y, y', t, y'.pcs[t]);
  }

  lemma ExclusiveUps(y: Sync, t: Tid, st: Step)
    requires Exclusive(y) && Queues(y) && Enabled(y, t, st) && (st.FinishRelease? || st.FinishSignal?)
    ensures Exclusive(Stepped(y, t, st))
  {
    var pc := y.pcs[t];
    var y' := Stepped(y, t, st);
    var s := if st.FinishRelease? then OfLock(pc.l) else OfWaiter(pc.w);
    UpBetween(y, s, t, y'.pcs[t]);
    hide Exclusive, Queues, Between, Up;
    assert forall x :: SemaOf(y', x) == SemaOf(Up(y, s), x);
    ExclusiveBy(y, y', t, y'.pcs[t]);
  }

  /** Steps that have nothing to do with the values and holders of locks. */
  lemma ExclusiveElse(y: Sync, y': Sync, t: Tid, pc: Pc)
    requires Exclusive(y) && t in y.pcs && y'.pcs == y.pcs[t := pc] && y'.holders == y.holders
    requires forall l :: SemaOf(y', OfLock(l)).value == SemaOf(y, OfLock(l)).value
    requires forall l :: IsBetween(pc, l) == IsBetween(y.pcs[t], l)
    ensures Exclusive(y')
  {
    hide Exclusive, Between;
    ExclusiveBy(y, y', t, pc);
  }

  lemma TookUnheld(y: Sync, t: Tid, l: nat)
    requires Exclusive(y) && t in y.pcs && y.pcs[t] == Took(l)
    ensures l !in y.holders
  {
    assert t in Between(y.pcs, l);
  }

  lemma ExclusiveUp(y: Sync, s: SemaId)
    requires Exclusive(y) && Queues(y) && s.Plain?
    ensures Exclusive(Up(y, s))
  {
    UpShape(y, s);
    var y', q := Up(y, s), SemaOf(y, s).waiters;
    assert y'.holders == y.holders;
    hide Up, Queues;
    if q != [] {
      ExclusiveBy(y, y', q[0], y'.pcs[q[0]]);
    }
  }

  // ------------------------------------------------------ no signal is lost

  lemma SignallersAfter(pcs: map<Tid, Pc>, t: Tid, pc: Pc, w: Tid)
    ensures Signallers(pcs[t := pc], w) == if pc == Signalling(w) then Signallers(pcs, w) + {t} else Signallers(pcs, w) - {t}
  {
  }

  ghost predicate Waits(y: Sync, t: Tid) {
    WaitLock(PcOf(y, t)) >= 0
  }

  /** What one step may do to the signal for a thread: move it, or have it arrive. */
  lemma SignalledBy(y: Sync, y': Sync, t: Tid, pc: Pc)
    requires Signalled(y) && t in y.pcs
    requires forall u: Tid {:trigger Signallers(y'.pcs, u)} :: Signallers(y'.pcs, u) == Signallers(y.pcs[t := pc], u)
    requires forall u: Tid {:trigger Waits(y', u)} ::
               SemaOf(y', OfWaiter(u)).value + B2N(InCond(y', u)) + B2N(pc == Signalling(u)) + B2N(Waits(y, u))
               == SemaOf(y, OfWaiter(u)).value + B2N(InCond(y, u)) + B2N(y.pcs[t] == Signalling(u)) + B2N(Waits(y', u))
    ensures Signalled(y')
  {
    forall u: Tid
      ensures Tokens(y', u) == B2N(WaitLock(PcOf(y', u)) >= 0)
    {
      SignallersAfter(y.pcs, t, pc, u);
      assert t in Signallers(y.pcs, u) <==> y.pcs[t] == Signalling(u);
      assert Tokens(y, u) == B2N(Waits(y, u));
      assert Waits(y', u) == (WaitLock(PcOf(y', u)) >= 0);
      hide InCond;
    }
  }

  /** Steps that leave the condition lists and the waiters' semaphores alone. */
  lemma SignalledElse(y: Sync, y': Sync, t: Tid, pc: Pc)
    requires Signalled(y) && t in y.pcs && y'.pcs == y.pcs[t := pc] && y'.conds == y.conds
    requires forall u :: SemaOf(y', OfWaiter(u)).value == SemaOf(y, OfWaiter(u)).value
    requires !pc.Signalling? && !y.pcs[t].Signalling? && (WaitLock(pc) >= 0 <==> WaitLock(y.pcs[t]) >= 0)
    ensures Signalled(y')
  {
    assert forall u :: InCond(y', u) <==> InCond(y, u) by {
      assert forall c :: Waiters(y', c) == Waiters(y, c);
    }
    hide Signalled, InCond, Signallers;
    SignalledBy(y, y', t, pc);
  }

  lemma UpSignallers(y: Sync, s: SemaId, t: Tid, pc: Pc)
    requires Queues(y) && t in y.pcs && !(y.pcs[t].Down? && y.pcs[t].stage == Asleep)
    ensures forall u: Tid {:trigger Signallers(Up(y, s).pcs[t := pc], u)} ::
              Signallers(Up(y, s).pcs[t := pc], u) == Signallers(y.pcs[t := pc], u)
    ensures forall u: Tid {:trigger PcOf(Up(y, s), u)} :: WaitLock(PcOf(Up(y, s), u)) == WaitLock(PcOf(y, u))
  {
    UpShape(y, s);
    var y', q := Up(y, s), SemaOf(y, s).waiters;
    hide Up, Queues;
    if q != [] {
      var p', p := y'.pcs[t := pc], y.pcs[t := pc];
      forall u: Tid
        ensures Signallers(p', u) == Signallers(p, u)
      {
        SignallersAfter(y.pcs, q[0], y'.pcs[q[0]], u);
        SignallersAfter(y'.pcs, t, pc, u);
        SignallersAfter(y.pcs, t, pc, u);
        assert q[0] !in Signallers(y.pcs, u);
      }
    }
  }

  lemma CondsSame(y: Sync, y': Sync)
    requires y'.conds == y.conds
    ensures forall u: Tid {:trigger InCond(y', u)} :: InCond(y', u) <==> InCond(y, u)
  {
    assert forall c :: Waiters(y', c) == Waiters(y, c);
  }

  lemma SignalledUp(y: Sync, t: Tid, st: Step)
    requires Signalled(y) && Queues(y) && Enabled(y, t, st) && (st.FinishRelease? || st.FinishSignal?)
    ensures Signalled(Stepped(y, t, st))
  {
    hide Signalled, Queues, Up;
    var pc := y.pcs[t];
    if st.FinishRelease? {
      SignalledUpBy(y, OfLock(pc.l), t, if pc.wait then Down(OfWaiter(t), Relock(pc.l), Fresh) else Free);
    } else {
      SignalledUpBy(y, OfWaiter(pc.w), t, Free);
    }
  }

  lemma SignalledUpBy(y: Sync, s: SemaId, t: Tid, next: Pc)
    requires Signalled(y) && Queues(y) && t in y.pcs && !y.pcs[t].Down? && (WaitLock(next) >= 0 <==> WaitLock(y.pcs[t]) >= 0)
    requires forall u :: s == OfWaiter(u) <==> y.pcs[t] == Signalling(u)
    requires !next.Signalling?
    ensures Signalled(SetPc(Up(y, s), t, next))
  {
    var y' := SetPc(Up(y, s), t, next);
    UpSignallers(y, s, t, next);
    UpBetween(y, s, t, next);
    CondsSame(y, y');
    assert forall u :: Waits(y', u) == if u == t then WaitLock(next) >= 0 else WaitLock(PcOf(Up(y, s), u)) >= 0;
    hide Signalled, Queues, Up, Signallers, InCond, Waits, WaitLock;
    forall u: Tid
      ensures Waits(y', u) == Waits(y, u)
      ensures SemaOf(y', OfWaiter(u)).value == SemaOf(y, OfWaiter(u)).value + if s == OfWaiter(u) then 1 else 0
    {
      WaitsIs(y, u);
      assert SemaOf(y', OfWaiter(u)) == SemaOf(Up(y, s), OfWaiter(u));
    }
    SignalledBy(y, y', t, next);
  }

  lemma WaitsIs(y: Sync, u: Tid)
    ensures Waits(y, u) == (WaitLock(PcOf(y, u)) >= 0)
  {
  }

  lemma SignalledPlainUp(y: Sync, s: SemaId)
    requires Signalled(y) && Queues(y) && s.Plain?
    ensures Signalled(Up(y, s))
  {
    UpShape(y, s);
    var y', q := Up(y, s), SemaOf(y, s).waiters;
    assert y'.conds == y.conds;
    CondsSame(y, y');
    hide Up, Queues;
    if q != [] {
      SignalledElse(y, y', q[0], y'.pcs[q[0]]);
    } else {
      assert forall u :: Tokens(y', u) == Tokens(y, u);
    }
  }

  lemma SignalledTest(y: Sync, t: Tid)
    requires Signalled(y) && Right(y) && Enabled(y, t, TestDown)
    ensures Signalled(Stepped(y, t, TestDown))
  {
    var pc := y.pcs[t];
    assert PcRight(y.holders, t, pc);
    hide Right, Signalled, InCond;
    if SemaOf(y, pc.s).value == 0 {
      SignalledElse(y, Sleep(y, t, pc.s, pc.next), t, Down(pc.s, pc.next, Asleep));
    } else {
      SignalledTake(y, t, pc.s, pc.next);
    }
  }

  lemma SignalledTake(y: Sync, t: Tid, s: SemaId, next: Next)
    requires Signalled(y) && SemaOf(y, s).value > 0 && t in y.pcs && y.pcs[t].Down? && y.pcs[t].next == next
    requires forall u :: s == OfWaiter(u) <==> next.Relock? && u == t
    ensures Signalled(SetPc(TakeOne(y, s), t, Passed(next)))
  {
    hide Signalled, InCond, Signallers;
    var y' := SetPc(TakeOne(y, s), t, Passed(next));
    CondsSame(y, y');
    assert forall u :: Waits(y', u) == if u == t then WaitLock(Passed(next)) >= 0 else Waits(y, u);
    assert forall u :: SemaOf(y', OfWaiter(u)).value == SemaOf(y, OfWaiter(u)).value - if s == OfWaiter(u) then 1 else 0;
    SignalledBy(y, y', t, Passed(next));
  }

  /** A thread outside `cond_wait` is on no list, no signal is under way to it, and its semaphore is 0. */
  lemma NoTokens(y: Sync, t: Tid)
    requires Signalled(y) && WaitLock(PcOf(y, t)) < 0
    ensures !InCond(y, t) && SemaOf(y, OfWaiter(t)).value == 0 && Signallers(y.pcs, t) == {}
  {
    assert Tokens(y, t) == 0;
  }

  lemma ListAppended(y: Sync, c: Cond, t: Tid, conds: map<Cond, seq<Tid>>)
    requires conds == y.conds[c := Waiters(y, c) + [t]]
    ensures forall u: Tid {:trigger InCond(y.(conds := conds), u)} :: InCond(y.(conds := conds), u) <==> InCond(y, u) || u == t
  {
    var y' := y.(conds := conds);
    assert forall d :: Waiters(y', d) == if d == c then Waiters(y, c) + [t] else Waiters(y, d);
    forall u: Tid
      ensures InCond(y', u) <==> InCond(y, u) || u == t
    {
      if InCond(y, u) {
        var d :| u in Waiters(y, d);
        assert u in Waiters(y', d);
      }
      if u == t {
        assert t in Waiters(y', c);
      }
    }
  }

  lemma ListShortened(y: Sync, c: Cond, conds: map<Cond, seq<Tid>>)
    requires Conditions(y) && Waiters(y, c) != [] && conds == y.conds[c := Waiters(y, c)[1..]]
    ensures forall u: Tid {:trigger InCond(y.(conds := conds), u)} ::
              InCond(y.(conds := conds), u) <==> InCond(y, u) && u != Waiters(y, c)[0]
    ensures InCond(y, Waiters(y, c)[0])
  {
    var y' := y.(conds := conds);
    var q := Waiters(y, c);
    assert q == [q[0]] + q[1..] && q[0] in q;
    assert forall d :: Waiters(y', d) == if d == c then q[1..] else Waiters(y, d);
    forall u: Tid
      ensures InCond(y', u) <==> InCond(y, u) && u != q[0]
    {
      if InCond(y, u) && u != q[0] {
        var d :| u in Waiters(y, d);
        assert u in Waiters(y', d);
      }
    }
  }

  lemma SignalledWait(y: Sync, t: Tid, c: Cond)
    requires Signalled(y) && Enabled(y, t, Wait(c))
    ensures Signalled(Stepped(y, t, Wait(c)))
  {
    var y' := Stepped(y, t, Wait(c));
    NoTokens(y, t);
    ListAppended(y, c, t, y'.conds);
    CondsSame(y.(conds := y'.conds), y');
    assert forall u :: SemaOf(y', OfWaiter(u)).value == SemaOf(y, OfWaiter(u)).value;
    assert forall u :: Waits(y', u) == if u == t then true else Waits(y, u);
    hide Signalled, InCond, Signallers, Waits;
    SignalledBy(y, y', t, Releasing(c.l));
  }

  lemma SignalledSignal(y: Sync, t: Tid, c: Cond)
    requires Signalled(y) && Conditions(y) && Enabled(y, t, Signal(c)) && Waiters(y, c) != []
    ensures Signalled(Stepped(y, t, Signal(c)))
  {
    var y' := Stepped(y, t, Signal(c));
    ListShortened(y, c, y'.conds);
    CondsSame(y.(conds := y'.conds), y');
    assert forall u :: Waits(y', u) == Waits(y, u);
    assert y'.semas == y.semas;
    hide Signalled, InCond, Signallers, Waits, Conditions;
    SignalledBy(y, y', t, Signalling(Waiters(y, c)[0]));
  }

  lemma SignalledKept(y: Sync, t: Tid, st: Step)
    requires Signalled(y) && Conditions(y) && Right(y) && Queues(y) && Enabled(y, t, st)
    ensures Signalled(Stepped(y, t, st))
  {
    hide Signalled, Conditions, Right, Queues;
    match st
    case TestDown => SignalledTest(y, t);
    case TryDown(s) => if SemaOf(y, s).value > 0 { SignalledTry(y, s); }
    case CallUp(s) => SignalledPlainUp(y, s);
    case TryAcquire(l) => if SemaOf(y, OfLock(l)).value > 0 { SignalledElse(y, Stepped(y, t, st), t, Took(l)); }
    case SetHolder => SignalledElse(y, Stepped(y, t, st), t, Free);
    case Release(l) => SignalledElse(y, Stepped(y, t, st), t, Released(l, false));
    case StartRelease => SignalledElse(y, Stepped(y, t, st), t, Released(y.pcs[t].l, true));
    case FinishRelease => SignalledUp(y, t, st);
    case FinishSignal => SignalledUp(y, t, st);
    case Wait(c) => SignalledWait(y, t, c);
    case Signal(c) => if Waiters(y, c) != [] { SignalledSignal(y, t, c); }
    case CallDown(n, v) => SignalledElse(y, Stepped(y, t, st), t, Down(Plain(n, v), Return, Fresh));
    case Acquire(l) => SignalledElse(y, Stepped(y, t, st), t, Down(OfLock(l), Hold(l), Fresh));
  }

  lemma SignalledTry(y: Sync, s: SemaId)
    requires Signalled(y) && s.Plain? && SemaOf(y, s).value > 0
    ensures Signalled(TakeOne(y, s))
  {
    CondsSame(y, TakeOne(y, s));
    assert forall u :: Tokens(TakeOne(y, s), u) == Tokens(y, u);
  }

  /** Condition lists stay right while no listed thread stops waiting. */
  lemma ConditionsSame(y: Sync, y': Sync)
    requires Conditions(y) && y'.conds == y.conds
    requires forall u :: InCond(y, u) ==> WaitLock(PcOf(y', u)) == WaitLock(PcOf(y, u))
    ensures Conditions(y')
  {
    assert forall c :: Waiters(y', c) == Waiters(y, c);
    assert forall c, u :: u in Waiters(y, c) ==> InCond(y, u);
  }

  lemma ConditionsElse(y: Sync, y': Sync, t: Tid, pc: Pc)
    requires Conditions(y) && Signalled(y) && y'.conds == y.conds && y'.pcs == y.pcs[t := pc]
    requires WaitLock(pc) == WaitLock(PcOf(y, t)) || !InCond(y, t)
    ensures Conditions(y')
  {
    hide Conditions, Signalled, InCond;
    ConditionsSame(y, y');
  }

  lemma ConditionsUp(y: Sync, t: Tid, st: Step)
    requires Conditions(y) && Signalled(y) && Queues(y) && Enabled(y, t, st) && (st.FinishRelease? || st.FinishSignal?)
    ensures Conditions(Stepped(y, t, st))
  {
    var pc := y.pcs[t];
    var y' := Stepped(y, t, st);
    var s := if st.FinishRelease? then OfLock(pc.l) else OfWaiter(pc.w);
    UpSignallers(y, s, t, y'.pcs[t]);
    UpBetween(y, s, t, y'.pcs[t]);
    assert forall u :: WaitLock(PcOf(y', u)) == if u == t then WaitLock(y'.pcs[t]) else WaitLock(PcOf(Up(y, s), u));
    hide Conditions, Signalled, Queues, InCond, Up;
    ConditionsSame(y, y');
  }

  lemma ConditionsTest(y: Sync, t: Tid)
    requires Conditions(y) && Signalled(y) && Right(y) && Enabled(y, t, TestDown)
    ensures Conditions(Stepped(y, t, TestDown))
  {
    var pc := y.pcs[t];
    assert PcRight(y.holders, t, pc);
    if SemaOf(y, pc.s).value > 0 && pc.next.Relock? {
      assert Tokens(y, t) <= 1;
    }
    hide Conditions, Signalled, Right, InCond;
    ConditionsElse(y, Stepped(y, t, TestDown), t, if SemaOf(y, pc.s).value == 0 then Down(pc.s, pc.next, Asleep) else Passed(pc.next));
  }

  lemma ConditionsWait(y: Sync, t: Tid, c: Cond)
    requires Conditions(y) && Signalled(y) && Enabled(y, t, Wait(c))
    ensures Conditions(Stepped(y, t, Wait(c)))
  {
    var y' := Stepped(y, t, Wait(c));
    NoTokens(y, t);
    Appended(Waiters(y, c), t);
    assert forall d :: t !in Waiters(y, d);
    assert forall d :: Waiters(y', d) == if d == c then Waiters(y, c) + [t] else Waiters(y, d);
    assert forall u :: u != t ==> PcOf(y', u) == PcOf(y, u);
  }

  lemma ConditionsSignal(y: Sync, t: Tid, c: Cond)
    requires Conditions(y) && Enabled(y, t, Signal(c)) && Waiters(y, c) != []
    ensures Conditions(Stepped(y, t, Signal(c)))
  {
    var y', q := Stepped(y, t, Signal(c)), Waiters(y, c);
    assert q == [q[0]] + q[1..];
    assert forall d :: Waiters(y', d) == if d == c then q[1..] else Waiters(y, d);
    forall d
      ensures t !in Waiters(y, d)
    {
      assert t in Waiters(y, d) ==> WaitLock(PcOf(y, t)) == d.l;
    }
    assert forall u :: u != t ==> PcOf(y', u) == PcOf(y, u);
  }

  lemma ConditionsKept(y: Sync, t: Tid, st: Step)
    requires Signalled(y) && Conditions(y) && Right(y) && Queues(y) && Enabled(y, t, st)
    ensures Conditions(Stepped(y, t, st))
  {
    hide Signalled, Conditions, Right, Queues;
    match st
    case TestDown => ConditionsTest(y, t);
    case TryDown(s) => if SemaOf(y, s).value > 0 { ConditionsSame(y, TakeOne(y, s)); }
    case CallUp(s) => ConditionsPlainUp(y, s);
    case TryAcquire(l) => if SemaOf(y, OfLock(l)).value > 0 { ConditionsElse(y, Stepped(y, t, st), t, Took(l)); }
    case SetHolder => ConditionsElse(y, Stepped(y, t, st), t, Free);
    case Release(l) => ConditionsElse(y, Stepped(y, t, st), t, Released(l, false));
    case StartRelease => ConditionsElse(y, Stepped(y, t, st), t, Released(y.pcs[t].l, true));
    case FinishRelease => ConditionsUp(y, t, st);
    case FinishSignal => ConditionsUp(y, t, st);
    case Wait(c) => ConditionsWait(y, t, c);
    case Signal(c) => if Waiters(y, c) != [] { ConditionsSignal(y, t, c); }
    case CallDown(n, v) => ConditionsElse(y, Stepped(y, t, st), t, Down(Plain(n, v), Return, Fresh));
    case Acquire(l) => ConditionsElse(y, Stepped(y, t, st), t, Down(OfLock(l), Hold(l), Fresh));
  }

  lemma ConditionsPlainUp(y: Sync, s: SemaId)
    requires Conditions(y) && Queues(y)
    ensures Conditions(Up(y, s))
  {
    UpShape(y, s);
    assert Up(y, s).conds == y.conds;
    hide Up, Queues, Conditions;
    ConditionsSame(y, Up(y, s));
  }

  // ------------------------------------------------------------- all of it

  /** Every step of synch.c keeps the whole invariant. */
  lemma StepConsistent(y: Sync, t: Tid, st: Step)
    requires Consistent(y) && Enabled(y, t, st)
    ensures Consistent(Stepped(y, t, st))
  {
    hide Queues, NoLostWakeup, Counted, Right, Exclusive, Signalled, Conditions;
    QueuesKept(y, t, st);
    WakeupsKept(y, t, st);
    CountedKept(y, t, st);
    RightKept(y, t, st);
    ExclusiveKept(y, t, st);
    SignalledKept(y, t, st);
    ConditionsKept(y, t, st);
  }

  /** Threads that come and go outside synch.c make no difference to it. */
  lemma SamePoints(y: Sync, y': Sync)
    requires Consistent(y) && y' == y.(pcs := y'.pcs) && forall t :: PcOf(y', t) == PcOf(y, t)
    ensures Consistent(y')
  {
    hide Queues, NoLostWakeup, Counted, Right, Exclusive, Signalled, Conditions;
    forall t | t in y.pcs && y.pcs[t] != Free
      ensures t in y'.pcs && y'.pcs[t] == y.pcs[t]
    {
      assert PcOf(y', t) == PcOf(y, t);
    }
    forall t | t in y'.pcs && y'.pcs[t] != Free
      ensures t in y.pcs && y.pcs[t] == y'.pcs[t]
    {
      assert PcOf(y', t) == PcOf(y, t);
    }
    FieldsCounted(y, y');
    SamePointsQueues(y, y');
    SamePointsLocks(y, y');
    SamePointsSignals(y, y');
  }

  lemma SamePointsQueues(y: Sync, y': Sync)
    requires Queues(y) && NoLostWakeup(y) && y' == y.(pcs := y'.pcs) && forall t :: PcOf(y', t) == PcOf(y, t)
    requires forall t :: t in y.pcs && y.pcs[t] != Free ==> t in y'.pcs && y'.pcs[t] == y.pcs[t]
    requires forall t :: t in y'.pcs && y'.pcs[t] != Free ==> t in y.pcs && y.pcs[t] == y'.pcs[t]
    ensures Queues(y') && NoLostWakeup(y')
  {
    forall s
      ensures WokenOn(y'.pcs, s) == WokenOn(y.pcs, s) && SemaOf(y', s) == SemaOf(y, s)
    {
    }
    QueuesSame(y, y');
  }

  lemma SamePointsLocks(y: Sync, y': Sync)
    requires Exclusive(y) && Right(y) && y' == y.(pcs := y'.pcs)
    requires forall t :: t in y.pcs && y.pcs[t] != Free ==> t in y'.pcs && y'.pcs[t] == y.pcs[t]
    requires forall t :: t in y'.pcs && y'.pcs[t] != Free ==> t in y.pcs && y.pcs[t] == y'.pcs[t]
    ensures Exclusive(y') && Right(y')
  {
    forall l: nat
      ensures Between(y'.pcs, l) == Between(y.pcs, l) && SemaOf(y', OfLock(l)) == SemaOf(y, OfLock(l))
    {
    }
  }

  lemma SamePointsSignals(y: Sync, y': Sync)
    requires Signalled(y) && Conditions(y) && y' == y.(pcs := y'.pcs) && forall t :: PcOf(y', t) == PcOf(y, t)
    requires forall t :: t in y.pcs && y.pcs[t] != Free ==> t in y'.pcs && y'.pcs[t] == y.pcs[t]
    requires forall t :: t in y'.pcs && y'.pcs[t] != Free ==> t in y.pcs && y.pcs[t] == y'.pcs[t]
    ensures Signalled(y') && Conditions(y')
  {
    CondsSame(y, y');
    forall u: Tid
      ensures Tokens(y', u) == Tokens(y, u)
    {
      assert Signallers(y'.pcs, u) == Signallers(y.pcs, u);
      assert SemaOf(y', OfWaiter(u)) == SemaOf(y, OfWaiter(u));
    }
    hide Signalled, InCond;
    ConditionsSame(y, y');
    AllSignalled(y, y');
  }

  lemma AllSignalled(y: Sync, y': Sync)
    requires Signalled(y) && forall u: Tid {:trigger Tokens(y', u)} :: Tokens(y', u) == Tokens(y, u)
    requires forall t :: PcOf(y', t) == PcOf(y, t)
    ensures Signalled(y')
  {
  }

  // ---------------------------------------------------------- consequences

  /** From taking a lock's semaphore to upping it again a thread owns the lock. */
  ghost predicate Owns(y: Sync, t: Tid, l: nat) {
    Holds(y, t, l) || IsBetween(PcOf(y, t), l)
  }

  /** At most one thread owns a lock. */
  lemma OneOwner(y: Sync, l: nat, t: Tid, u: Tid)
    requires Exclusive(y) && Owns(y, t, l) && Owns(y, u, l)
    ensures t == u
  {
    var b := Between(y.pcs, l);
    assert IsBetween(PcOf(y, t), l) ==> t in b;
    assert IsBetween(PcOf(y, u), l) ==> u in b;
    if t != u && t in b && u in b {
      assert |{t, u}| <= |b| by {
        SubsetSize({t, u}, b);
      }
    }
  }

  lemma SubsetSize(a: set<Tid>, b: set<Tid>)
    requires a <= b
    ensures |a| <= |b|
  {
    assert b == a + (b - a);
  }

  /** While threads wait although the value is positive, a woken thread is about to take it. */
  lemma SomeoneWillTake(y: Sync, s: SemaId)
    requires NoLostWakeup(y) && SemaOf(y, s).waiters != [] && SemaOf(y, s).value > 0
    ensures exists t :: t in y.pcs && IsWoken(y.pcs[t], s)
  {
    var w := WokenOn(y.pcs, s);
    assert w != {};
    var t :| t in w;
  }

  // -------------------------------------------------- what calls promise

  /** The lock that the call a thread is in returns with; -1 for other calls. */
  function Promised(pc: Pc): int {
    match pc
    case Down(_, Hold(l), _) => l
    case Down(_, Relock(l), _) => l
    case Took(l) => l
    case Releasing(l) => l
    case Released(l, true) => l
    case _ => -1
  }

  /** A call that promises a lock goes on promising it until it returns, and then its thread holds the lock. */
  lemma PromiseKept(y: Sync, t: Tid, st: Step, u: Tid)
    requires Queues(y) && Enabled(y, t, st) && Promised(PcOf(y, u)) >= 0
    ensures var pc, l := PcOf(Stepped(y, t, st), u), Promised(PcOf(y, u));
            Promised(pc) == l || (pc == Free && Holds(Stepped(y, t, st), u, l))
  {
    hide Queues, Up, TakeOne, Sleep, InitWaiter;
    if u != t || st.TryDown? || st.CallUp? {
      OthersGoOn(y, t, st, u);
    } else if st.TestDown? && SemaOf(y, y.pcs[t].s).value == 0 {
      SleepIs(y, t, y.pcs[t].s, y.pcs[t].next);
    }
  }

  lemma SleepIs(y: Sync, t: Tid, s: SemaId, next: Next)
    ensures PcOf(Sleep(y, t, s, next), t) == Down(s, next, Asleep)
  {
  }

  /** Another thread's point changes only when it is woken. */
  lemma OthersGoOn(y: Sync, t: Tid, st: Step, u: Tid)
    requires Queues(y) && Enabled(y, t, st) && (u != t || st.TryDown? || st.CallUp?)
    ensures var pc, pc' := PcOf(y, u), PcOf(Stepped(y, t, st), u); pc' == pc || (pc.Down? && pc' == pc.(stage := Woken))
  {
    hide Queues, Up, TakeOne;
    match st
    case TestDown => if SemaOf(y, y.pcs[t].s).value > 0 { TakeKeepsPcs(y, y.pcs[t].s); }
    case TryDown(s) => if SemaOf(y, s).value > 0 { TakeKeepsPcs(y, s); }
    case TryAcquire(l) => if SemaOf(y, OfLock(l)).value > 0 { TakeKeepsPcs(y, OfLock(l)); }
    case CallUp(s) => UpWakes(y, s, u);
    case FinishRelease => UpWakes(y, OfLock(y.pcs[t].l), u);
    case FinishSignal => UpWakes(y, OfWaiter(y.pcs[t].w), u);
    case _ =>
  }

  lemma TakeKeepsPcs(y: Sync, s: SemaId)
    requires SemaOf(y, s).value > 0
    ensures TakeOne(y, s).pcs == y.pcs && TakeOne(y, s).holders == y.holders
  {
  }

  lemma UpWakes(y: Sync, s: SemaId, u: Tid)
    requires Queues(y)
    ensures var pc, pc' := PcOf(y, u), PcOf(Up(y, s), u); pc' == pc || (pc.Down? && pc' == pc.(stage := Woken))
    ensures Up(y, s).holders == y.holders
  {
    assert SemaOf(y, s).waiters != [] ==> SemaOf(y, s).waiters[0] in SemaOf(y, s).waiters;
  }

  lemma CallsPromise(y: Sync, t: Tid, st: Step)
    requires Enabled(y, t, st)
    ensures st.Acquire? ==> Promised(PcOf(Stepped(y, t, st), t)) == st.l
    ensures st.Wait? ==> Promised(PcOf(Stepped(y, t, st), t)) == st.c.l
    ensures st.TryAcquire? ==>
              if SemaOf(y, OfLock(st.l)).value > 0 then Promised(PcOf(Stepped(y, t, st), t)) == st.l
              else Stepped(y, t, st) == y
  {
  }

  /** A test of a semaphore passes exactly if the value is not 0: the thread is then done with the
      semaphore, and back from a plain `sema_down`; otherwise it sleeps on it. */
  lemma TestMeans(y: Sync, t: Tid)
    requires Enabled(y, t, TestDown)
    ensures var pc, y' := y.pcs[t], Stepped(y, t, TestDown);
            if SemaOf(y, pc.s).value == 0 then SleepsOn(y', t, pc.s)
            else if pc.next == Return then PcOf(y', t) == Free
            else PcOf(y', t) != Free && Promised(PcOf(y', t)) == Promised(pc)
                 && (pc.next.Hold? ==> !PcOf(y', t).Down?)
  {
  }

  /** Between clearing the holder and returning, a thread that releases a lock does not hold it. */
  ghost predicate GivesUp(y: Sync, u: Tid, l: nat) {
    PcOf(y, u) == Released(l, false) && !Holds(y, u, l)
  }

  lemma ReleaseKept(y: Sync, t: Tid, st: Step, u: Tid, l: nat)
    requires Queues(y) && Enabled(y, t, st) && GivesUp(y, u, l)
    ensures GivesUp(Stepped(y, t, st), u, l)
            || (PcOf(Stepped(y, t, st), u) == Free && !Holds(Stepped(y, t, st), u, l))
  {
    hide Queues, Up, TakeOne, Sleep, InitWaiter;
    HoldersMove(y, t, st, l);
    if u != t || st.TryDown? || st.CallUp? {
      OthersGoOn(y, t, st, u);
    }
  }

  /** A lock's holder changes only by the thread that sets itself, or clears itself to release or to wait. */
  lemma HoldersMove(y: Sync, t: Tid, st: Step, l: nat)
    requires Queues(y) && Enabled(y, t, st)
    ensures forall u :: Holds(Stepped(y, t, st), u, l) <==>
              if st.SetHolder? && y.pcs[t].l == l then u == t
              else Holds(y, u, l) && !(st == Release(l) || (st.StartRelease? && y.pcs[t].l == l))
  {
    hide Queues, Up, TakeOne;
    match st
    case TestDown => if SemaOf(y, y.pcs[t].s).value > 0 { TakeKeepsPcs(y, y.pcs[t].s); }
    case TryDown(s) => if SemaOf(y, s).value > 0 { TakeKeepsPcs(y, s); }
    case TryAcquire(l') => if SemaOf(y, OfLock(l')).value > 0 { TakeKeepsPcs(y, OfLock(l')); }
    case CallUp(s) => UpWakes(y, s, t);
    case FinishRelease => UpWakes(y, OfLock(y.pcs[t].l), t);
    case FinishSignal => UpWakes(y, OfWaiter(y.pcs[t].w), t);
    case _ =>
  }

  // ----------------------------------------------- values, and turns in line

  /** The step ups semaphore `s`. */
  predicate Ups(y: Sync, t: Tid, st: Step, s: SemaId) {
    st == CallUp(s)
    || (st.FinishRelease? && PcOf(y, t).Released? && s == OfLock(PcOf(y, t).l))
    || (st.FinishSignal? && PcOf(y, t).Signalling? && s == OfWaiter(PcOf(y, t).w))
  }

  /** The step is a try or a test of semaphore `s`. */
  predicate Tries(y: Sync, t: Tid, st: Step, s: SemaId) {
    st == TryDown(s) || (st.TryAcquire? && s == OfLock(st.l)) || (st.TestDown? && PcOf(y, t).Down? && s == PcOf(y, t).s)
  }

  lemma UpSemas(y: Sync, s: SemaId, u: SemaId)
    ensures SemaOf(Up(y, s), u) ==
              if u != s then SemaOf(y, u)
              else Sema(SemaOf(y, s).value + 1, if SemaOf(y, s).waiters == [] then [] else SemaOf(y, s).waiters[1..])
  {
  }

  lemma DownSemas(y: Sync, t: Tid, s: SemaId, next: Next, u: SemaId)
    ensures SemaOf(Sleep(y, t, s, next), u) ==
              if u != s then SemaOf(y, u) else SemaOf(y, s).(waiters := SemaOf(y, s).waiters + [t])
    ensures SemaOf(y, s).value > 0 ==>
              SemaOf(TakeOne(y, s), u) == if u != s then SemaOf(y, u) else SemaOf(y, s).(value := SemaOf(y, s).value - 1)
  {
  }

  /** What a step does to a semaphore, by the kind of the step alone. */
  ghost function SemaAfter(y: Sync, t: Tid, st: Step, s: SemaId): Sema {
    var q := SemaOf(y, s);
    if st.Wait? && s == OfWaiter(t) then Sema(0, [])
    else if Ups(y, t, st, s) then Sema(q.value + 1, if q.waiters == [] then [] else q.waiters[1..])
    else if !Tries(y, t, st, s) then q
    else if q.value > 0 then q.(value := q.value - 1)
    else if st.TestDown? then q.(waiters := q.waiters + [t])
    else q
  }

  lemma SemasMove(y: Sync, t: Tid, st: Step, s: SemaId)
    requires Enabled(y, t, st)
    ensures SemaOf(Stepped(y, t, st), s) == SemaAfter(y, t, st, s)
  {
    if st.TestDown? || st.TryDown? || st.TryAcquire? {
      TryMoves(y, t, st, s);
    } else if st.CallUp? || st.FinishRelease? || st.FinishSignal? {
      UpMoves(y, t, st, s);
    }
  }

  lemma UpMoves(y: Sync, t: Tid, st: Step, s: SemaId)
    requires Enabled(y, t, st) && (st.CallUp? || st.FinishRelease? || st.FinishSignal?)
    ensures SemaOf(Stepped(y, t, st), s) == SemaAfter(y, t, st, s)
  {
    hide Up, TakeOne, Sleep;
    match st
    case CallUp(u) => UpSemas(y, u, s);
    case FinishRelease => UpSemas(y, OfLock(y.pcs[t].l), s);
    case FinishSignal => UpSemas(y, OfWaiter(y.pcs[t].w), s);
  }

  lemma TryMoves(y: Sync, t: Tid, st: Step, s: SemaId)
    requires Enabled(y, t, st) && (st.TestDown? || st.TryDown? || st.TryAcquire?)
    ensures SemaOf(Stepped(y, t, st), s) == SemaAfter(y, t, st, s)
  {
    hide Up, TakeOne, Sleep;
    match st
    case TestDown => DownSemas(y, t, y.pcs[t].s, y.pcs[t].next, s);
    case TryDown(u) => DownSemas(y, t, u, Return, s);
    case TryAcquire(l) => DownSemas(y, t, OfLock(l), Return, s);
  }

  /** An up adds one; a try or a test takes one unless there is none; nothing else
      changes a value, but that a wait starts with a semaphore of its own at 0. */
  lemma ValuesMove(y: Sync, t: Tid, st: Step, s: SemaId)
    requires Enabled(y, t, st) && !(st.Wait? && s == OfWaiter(t))
    ensures var v, v' := SemaOf(y, s).value, SemaOf(Stepped(y, t, st), s).value;
            v' == if Ups(y, t, st, s) then v + 1 else if Tries(y, t, st, s) && v > 0 then v - 1 else v
  {
    SemasMove(y, t, st, s);
    hide Stepped;
  }

  /** Who waits on a semaphore, in order: an up takes the first off the line and
      wakes it, a test that finds the value 0 goes to the end of it. */
  lemma WaitersMove(y: Sync, t: Tid, st: Step, s: SemaId)
    requires Consistent(y) && Enabled(y, t, st)
    ensures var q, q' := SemaOf(y, s).waiters, SemaOf(Stepped(y, t, st), s).waiters;
            if Ups(y, t, st, s) && q != [] then q' == q[1..]
            else if st.TestDown? && PcOf(y, t).s == s && SemaOf(y, s).value == 0 then q' == q + [t]
            else q' == q
    ensures Ups(y, t, st, s) && SemaOf(y, s).waiters != [] ==> IsWoken(PcOf(Stepped(y, t, st), SemaOf(y, s).waiters[0]), s)
  {
    assert Queues(y);
    hide Consistent, NoLostWakeup, Counted, Right, Exclusive, Signalled, Conditions, Stepped;
    SemasMove(y, t, st, s);
    if st.Wait? {
      ElsewhereWait(y, t);
    }
    if Ups(y, t, st, s) && SemaOf(y, s).waiters != [] {
      FirstWakes(y, t, st, s);
    }
  }

  /** Nobody waits on the semaphore of a thread outside `cond_wait`. */
  lemma ElsewhereWait(y: Sync, t: Tid)
    requires Consistent(y) && PcOf(y, t) == Free
    ensures SemaOf(y, OfWaiter(t)).waiters == []
  {
    NoOneElseWaits(y, t);
  }

  lemma FirstWakes(y: Sync, t: Tid, st: Step, s: SemaId)
    requires Queues(y) && Enabled(y, t, st) && Ups(y, t, st, s) && SemaOf(y, s).waiters != []
    ensures IsWoken(PcOf(Stepped(y, t, st), SemaOf(y, s).waiters[0]), s)
  {
    var w := SemaOf(y, s).waiters[0];
    assert w in SemaOf(y, s).waiters && SleepsOn(y, w, s);
  }

  /** Who waits on a condition, in order: a signal takes the first off the line, a wait goes to its end. */
  lemma ConditionMoves(y: Sync, t: Tid, st: Step, c: Cond)
    requires Enabled(y, t, st)
    ensures var q, q' := Waiters(y, c), Waiters(Stepped(y, t, st), c);
            if st == Signal(c) && q != [] then q' == q[1..] && PcOf(Stepped(y, t, st), t) == Signalling(q[0])
            else if st == Wait(c) then q' == q + [t]
            else q' == q
  {
  }
}
