/** threads/thread.c: the state of the scheduler and what block, unblock, yield,
    exit and create make of it.  A thread is named by the page that holds it, so
    a name may be used again once the page is freed. */
module Scheduler {

  type Tid = nat

  datatype Status = Running | Ready | Blocked | Dying

  datatype Cpu = Cpu(status: map<Tid, Status>, ready: seq<Tid>, current: Tid, destruction: seq<Tid>, idle: Tid, main: Tid)

  ghost predicate Distinct(q: seq<Tid>) {
    forall i, j :: 0 <= i < j < |q| ==> q[i] != q[j]
  }

  /** The ready list and the destruction list hold what they should, each thread once. */
  ghost predicate Listed(c: Cpu, leaving: set<Tid>) {
    && c.idle in c.status && c.status[c.idle] != Dying && c.idle != c.main
    && Distinct(c.ready)
    && (forall t :: t in c.ready <==> t in c.status && c.status[t] == Ready && t != c.idle)
    && Distinct(c.destruction)
    && (forall t :: t in c.destruction <==> t in c.status && c.status[t] == Dying && t != c.main && t !in leaving)
  }

  /** After start-up: exactly one thread runs, every other ready thread but the
      idle one is queued once, every dead one but the first awaits its freeing. */
  ghost predicate Sound(c: Cpu) {
    && c.current in c.status && (forall t :: t in c.status ==> (c.status[t] == Running <==> t == c.current))
    && Listed(c, {})
  }

  /** On entry to `schedule`: the current thread has given up the CPU. */
  ghost predicate Leaving(c: Cpu) {
    && c.current in c.status && (forall t :: t in c.status ==> c.status[t] != Running)
    && Listed(c, {c.current})
  }

  function NextToRun(c: Cpu): Tid {
    if c.ready == [] then c.idle else c.ready[0]
  }

  /** `schedule`. */
  function Schedule(c: Cpu): Cpu
    requires c.current in c.status
  {
    var next := NextToRun(c);
    Cpu(c.status[next := Running],
        if c.ready == [] then [] else c.ready[1..],
        next,
        if next != c.current && c.status[c.current] == Dying && c.current != c.main then c.destruction + [c.current] else c.destruction,
        c.idle, c.main)
  }

  /** The pages of the dead threads are given back. */
  function Reap(c: Cpu): Cpu {
    c.(status := map t | t in c.status && t !in c.destruction :: c.status[t], destruction := [])
  }

  /** `do_schedule`. */
  function DoSchedule(c: Cpu, s: Status): Cpu {
    Schedule(Become(Reap(c), s))
  }

  function Become(c: Cpu, s: Status): Cpu {
    c.(status := c.status[c.current := s])
  }

  datatype Event = Block | Unblock(t: Tid) | Yield | Exit | Create(t: Tid)

  /** What the callers of thread.c must respect: its assertions, and that a new page is not in use. */
  predicate Allowed(c: Cpu, e: Event) {
    match e
    case Block => true
    case Unblock(t) => t in c.status && c.status[t] == Blocked && t != c.idle
    case Yield => true
    case Exit => c.current != c.idle
    case Create(t) => t !in c.status
  }

  /** The current thread gives up the CPU. */
  predicate Picks(e: Event) {
    e.Block? || e.Yield? || e.Exit?
  }

  function After(c: Cpu, e: Event): Cpu
    requires c.current in c.status
  {
    match e
    case Block => Schedule(Become(c, Blocked))
    case Unblock(t) => c.(status := c.status[t := Ready], ready := c.ready + [t])
    case Yield => DoSchedule(if c.current == c.idle then c else c.(ready := c.ready + [c.current]), Ready)
    case Exit => DoSchedule(c, Dying)
    case Create(t) => c.(status := c.status[t := Ready], ready := c.ready + [t])
  }

  /** Threads that have not been freed, and whether they are blocked, stay as they are. */
  ghost predicate BlockedSame(c: Cpu, c': Cpu) {
    forall t :: t in c'.status && t != c.idle ==> t in c.status && (c'.status[t] == Blocked <==> c.status[t] == Blocked)
  }

  lemma ScheduleSound(c: Cpu)
    requires Leaving(c)
    ensures Sound(Schedule(c)) && Schedule(c).status.Keys == c.status.Keys && BlockedSame(c, Schedule(c))
  {
    var next, c' := NextToRun(c), Schedule(c);
    assert c.ready != [] ==> c.ready[0] in c.ready;
    assert next in c.status && c'.status[next] == Running;
    assert c.ready != [] ==> c.ready == [c.ready[0]] + c.ready[1..];
  }

  /** The current thread steps down: it is queued if it is to be ready, but for the idle one. */
  lemma LeavingBy(c: Cpu, s: Status)
    requires Sound(c) && s != Running && (s == Dying ==> c.current != c.idle)
    ensures var q := if s == Ready && c.current != c.idle then c.(ready := c.ready + [c.current]) else c;
            Leaving(Become(q, s))
  {
    var q := if s == Ready && c.current != c.idle then c.(ready := c.ready + [c.current]) else c;
    Appended(c.ready, c.current);
    assert forall t :: t in Become(q, s).status ==> Become(q, s).status[t] == if t == c.current then s else c.status[t];
  }

  lemma Appended(q: seq<Tid>, t: Tid)
    ensures forall x :: x in q + [t] <==> x in q || x == t
    ensures Distinct(q) && t !in q ==> Distinct(q + [t])
  {
  }

  /** Freeing the dead changes nothing for the others. */
  lemma ReapLeaving(c: Cpu, s: Status)
    requires Leaving(Become(c, s)) && c.current in c.status && c.current !in c.destruction
    ensures Leaving(Become(Reap(c), s))
  {
    assert c.idle !in c.destruction;
    var d, r := Become(c, s), Become(Reap(c), s);
    assert forall t :: t in r.status <==> t in d.status && t !in c.destruction;
    assert forall t :: t in r.status ==> r.status[t] == d.status[t];
  }

  /** Every event keeps the scheduler sound; only an event about a thread changes whether it is blocked. */
  lemma EventSound(c: Cpu, e: Event)
    requires Sound(c) && Allowed(c, e)
    ensures Sound(After(c, e)) && After(c, e).idle == c.idle && After(c, e).main == c.main
  {
    match e
    case Block =>
      LeavingBy(c, Blocked);
      ScheduleSound(Become(c, Blocked));
    case Unblock(t) =>
      Appended(c.ready, t);
    case Yield =>
      var q := if c.current == c.idle then c else c.(ready := c.ready + [c.current]);
      LeavingBy(c, Ready);
      ReapLeaving(q, Ready);
      ScheduleSound(Become(Reap(q), Ready));
    case Exit =>
      LeavingBy(c, Dying);
      ReapLeaving(c, Dying);
      ScheduleSound(Become(Reap(c), Dying));
    case Create(t) =>
      Appended(c.ready, t);
  }

  /** A page is freed exactly when its thread is dead, has left the CPU and is not the first one,
      at the next yield or exit of any thread. */
  lemma FreedWhenDead(c: Cpu, e: Event, t: Tid)
    requires Sound(c) && Allowed(c, e) && t in c.status
    ensures t !in After(c, e).status <==> (e.Yield? || e.Exit?) && c.status[t] == Dying && t != c.main
    ensures t !in After(c, e).status ==> t != c.current && t !in After(c, e).destruction
  {
    EventSound(c, e);
    assert c.ready != [] ==> c.ready[0] in c.ready;
  }

  /** What an event does to the thread it is about: a thread that blocks, yields
      or exits is blocked, ready or dead, unless it is picked again at once; one
      that is unblocked or created is ready; every other thread stays as it was,
      but for the one that is picked. */
  lemma EventMeans(c: Cpu, e: Event, t: Tid)
    requires Sound(c) && Allowed(c, e) && t in After(c, e).status
    ensures t == After(c, e).current <==> After(c, e).status[t] == Running
    ensures !Picks(e) ==> After(c, e).current == c.current
    ensures t != After(c, e).current && t == c.current ==>
              (e.Block? ==> After(c, e).status[t] == Blocked) && (e.Yield? ==> After(c, e).status[t] == Ready)
              && (e.Exit? ==> After(c, e).status[t] == Dying)
    ensures t != After(c, e).current && (e == Unblock(t) || e == Create(t)) ==> After(c, e).status[t] == Ready
    ensures t != After(c, e).current && t != c.current && e != Unblock(t) && e != Create(t) ==>
              t in c.status && After(c, e).status[t] == c.status[t]
  {
    if e.Yield? {
      QueueAfter(c, e);
    } else {
      EventSound(c, e);
      QueueAfter(c, e);
    }
  }

  /** Who runs next comes from the ready list as it is when the current thread has stepped down. */
  lemma QueueAfter(c: Cpu, e: Event)
    requires Sound(c) && Allowed(c, e)
    ensures c.ready != [] ==> c.ready[0] in c.ready
    ensures Picks(e) && c.ready != [] ==> After(c, e).current == c.ready[0]
    ensures Picks(e) && c.ready == [] ==> After(c, e).current == if e.Yield? then c.current else c.idle
  {
    assert e.Yield? && c.ready == [] ==> (c.ready + [c.current])[0] == c.current;
    assert e.Yield? && c.ready != [] ==> (c.ready + [c.current])[0] == c.ready[0];
  }

  /** The idle thread is picked only when no other thread is ready. */
  lemma IdleIsLast(c: Cpu, e: Event, t: Tid)
    requires Sound(c) && Allowed(c, e) && Picks(e) && After(c, e).current == c.idle
    requires t in After(c, e).status && t != c.idle
    ensures After(c, e).status[t] != Ready
  {
    EventSound(c, e);
    QueueAfter(c, e);
    assert c.ready == [];
    assert After(c, e).ready == [];
  }

  /** An exiting thread, the first one excepted, is dead, waits to be freed and is not queued. */
  lemma ExitIsFinal(c: Cpu)
    requires Sound(c) && Allowed(c, Exit)
    ensures var t, c' := c.current, After(c, Exit);
            && t in c'.status && c'.status[t] == Dying && t != c'.current && t !in c'.ready
            && (t != c.main ==> t in c'.destruction)
  {
    EventSound(c, Exit);
    EventMeans(c, Exit, c.current);
    QueueAfter(c, Exit);
  }

  // ------------------------------------------------------------------ runs

  ghost predicate Legal(c: Cpu, es: seq<Event>)
    decreases |es|
  {
    es == [] || (c.current in c.status && Allowed(c, es[0]) && Legal(After(c, es[0]), es[1..]))
  }

  ghost function Run(c: Cpu, es: seq<Event>): Cpu
    requires Legal(c, es)
    decreases |es|
  {
    if es == [] then c else Run(After(c, es[0]), es[1..])
  }

  /** When the idle thread has set itself up and the first thread runs again. */
  function Started(main: Tid, idle: Tid): Cpu {
    Cpu(map[main := Running, idle := Blocked], [], main, [], idle, main)
  }

  lemma {:induction false} RunSound(c: Cpu, es: seq<Event>)
    requires Sound(c) && Legal(c, es)
    ensures Sound(Run(c, es))
    decreases |es|
  {
    if es != [] {
      EventSound(c, es[0]);
      RunSound(After(c, es[0]), es[1..]);
    }
  }

  lemma ReachableIsSound(main: Tid, idle: Tid, es: seq<Event>)
    requires main != idle && Legal(Started(main, idle), es)
    ensures Sound(Run(Started(main, idle), es))
  {
    RunSound(Started(main, idle), es);
  }

  /** A dead thread does nothing any more: as long as it is not freed it is dead and does not run,
      and the next yield or exit frees it, the first thread excepted. */
  lemma DeadStaysDead(c: Cpu, e: Event, t: Tid)
    requires Sound(c) && Allowed(c, e) && t in c.status && c.status[t] == Dying
    ensures t in After(c, e).status ==> After(c, e).status[t] == Dying && After(c, e).current != t
    ensures t in After(c, e).status <==> t == c.main || !(e.Yield? || e.Exit?)
  {
    EventSound(c, e);
    QueueAfter(c, e);
    FreedWhenDead(c, e, t);
    if t in After(c, e).status {
      EventMeans(c, e, t);
    }
  }

  /** The name is not given to a new thread in this run. */
  ghost predicate NotReused(es: seq<Event>, t: Tid) {
    forall i :: 0 <= i < |es| ==> es[i] != Create(t)
  }

  predicate Frees(e: Event) {
    e.Yield? || e.Exit?
  }

  /** After its exit a thread never runs again, in any continuation, until its page is given to a new thread; and its
      page is free as soon as some thread has yielded or exited, the first thread's excepted. */
  lemma {:induction false} NeverRunsAgain(c: Cpu, es: seq<Event>, t: Tid)
    requires Sound(c) && Legal(c, es) && NotReused(es, t)
    requires t in c.status ==> c.status[t] == Dying
    ensures Run(c, es).current != t
    ensures t in Run(c, es).status ==> Run(c, es).status[t] == Dying
    ensures t != c.main && (exists i :: 0 <= i < |es| && Frees(es[i])) ==> t !in Run(c, es).status
    decreases |es|
  {
    if es != [] {
      var c' := After(c, es[0]);
      EventSound(c, es[0]);
      if t in c.status {
        DeadStaysDead(c, es[0], t);
      } else {
        GoneStaysGone(c, es[0], t);
      }
      forall i | 0 <= i < |es[1..]|
        ensures es[1..][i] != Create(t)
      {
        assert es[1..][i] == es[i + 1];
      }
      NeverRunsAgain(c', es[1..], t);
      if exists i :: 0 <= i < |es| && Frees(es[i]) {
        var i :| 0 <= i < |es| && Frees(es[i]);
        if i > 0 {
          assert es[1..][i - 1] == es[i];
        } else if t != c.main {
          StaysGone(c', es[1..], t);
        }
      }
    }
  }

  lemma GoneStaysGone(c: Cpu, e: Event, t: Tid)
    requires Sound(c) && Allowed(c, e) && t !in c.status && e != Create(t)
    ensures t !in After(c, e).status && After(c, e).current != t
  {
    EventSound(c, e);
    QueueAfter(c, e);
  }

  lemma {:induction false} StaysGone(c: Cpu, es: seq<Event>, t: Tid)
    requires Sound(c) && Legal(c, es) && NotReused(es, t) && t !in c.status
    ensures t !in Run(c, es).status
    decreases |es|
  {
    if es != [] {
      EventSound(c, es[0]);
      GoneStaysGone(c, es[0], t);
      forall i | 0 <= i < |es[1..]|
        ensures es[1..][i] != Create(t)
      {
        assert es[1..][i] == es[i + 1];
      }
      StaysGone(After(c, es[0]), es[1..], t);
    }
  }

  /** From its exit on. */
  lemma ExitedForGood(c: Cpu, es: seq<Event>)
    requires Sound(c) && Allowed(c, Exit) && Legal(After(c, Exit), es) && NotReused(es, c.current)
    ensures Run(After(c, Exit), es).current != c.current
    ensures c.current != c.main && (exists i :: 0 <= i < |es| && Frees(es[i])) ==> c.current !in Run(After(c, Exit), es).status
  {
    EventSound(c, Exit);
    ExitIsFinal(c);
    NeverRunsAgain(After(c, Exit), es, c.current);
  }

  function PickCount(es: seq<Event>): (n: nat)
    ensures n <= |es|
  {
    if es == [] then 0 else PickCount(es[1..]) + if Picks(es[0]) then 1 else 0
  }

  lemma QueueMoves(c: Cpu, e: Event, p: nat)
    requires Sound(c) && Allowed(c, e) && p < |c.ready|
    ensures !Picks(e) ==> p < |After(c, e).ready| && After(c, e).ready[p] == c.ready[p]
    ensures Picks(e) && 0 < p ==> p - 1 < |After(c, e).ready| && After(c, e).ready[p - 1] == c.ready[p]
    ensures Picks(e) && p == 0 ==> After(c, e).current == c.ready[p]
  {
  }

  /** First come, first served: with `p` threads before it, a ready thread
      moves up at every pick and runs at the next one. */
  lemma {:induction false} FirstComeFirstServed(c: Cpu, es: seq<Event>, p: nat)
    requires Sound(c) && Legal(c, es) && p < |c.ready| && PickCount(es) <= p
    ensures var c' := Run(c, es); p - PickCount(es) < |c'.ready| && c'.ready[p - PickCount(es)] == c.ready[p]
    decreases |es|
  {
    if es != [] {
      EventSound(c, es[0]);
      QueueMoves(c, es[0], p);
      FirstComeFirstServed(After(c, es[0]), es[1..], if Picks(es[0]) then p - 1 else p);
    }
  }

  lemma ServedNext(c: Cpu, es: seq<Event>, e: Event, p: nat)
    requires Sound(c) && Legal(c, es) && p < |c.ready| && PickCount(es) == p && Picks(e) && Allowed(Run(c, es), e)
    ensures Run(c, es).current in Run(c, es).status && After(Run(c, es), e).current == c.ready[p]
  {
    RunSound(c, es);
    FirstComeFirstServed(c, es, p);
    QueueMoves(Run(c, es), e, 0);
  }

  // ------------------------------------------------- the code of thread.c

  lemma ReapOne(c: Cpu)
    requires c.destruction != []
    ensures Reap(c.(status := c.status - {c.destruction[0]}, destruction := c.destruction[1..])) == Reap(c)
  {
    assert c.destruction == [c.destruction[0]] + c.destruction[1..];
  }

  lemma ReapNone(c: Cpu)
    requires c.destruction == []
    ensures Reap(c) == c
  {
  }

  class Threads {
    var status: map<Tid, Status>
    var readyList: seq<Tid>
    var running: Tid
    var destructionReq: seq<Tid>
    const idleThread: Tid
    const initialThread: Tid

    function Now(): Cpu
      reads this
    {
      Cpu(status, readyList, running, destructionReq, idleThread, initialThread)
    }

    constructor (main: Tid, idle: Tid)
      requires main != idle
      ensures Now() == Started(main, idle) && Sound(Now())
    {
      status, readyList, running, destructionReq := map[main := Running, idle := Blocked], [], main, [];
      idleThread, initialThread := idle, main;
    }

    method NextThreadToRun() returns (t: Tid)
      modifies this`readyList
      ensures t == NextToRun(old(Now())) && readyList == if old(readyList) == [] then [] else old(readyList)[1..]
    {
      if readyList == [] {
        return idleThread;
      }
      t, readyList := readyList[0], readyList[1..];
    }

    method ScheduleNext()
      requires Leaving(Now())
      modifies this
      ensures Now() == Schedule(old(Now())) && Sound(Now())
    {
      ScheduleSound(Now());
      var curr := running;
      var next := NextThreadToRun();
      status := status[next := Running];
      if curr != next {
        if status[curr] == Dying && curr != initialThread {
          destructionReq := destructionReq + [curr];
        }
        running := next;
      }
    }

    method DoScheduleWith(s: Status)
      requires running in status && running !in destructionReq && Leaving(Become(Now(), s))
      modifies this
      ensures Now() == DoSchedule(old(Now()), s) && Sound(Now())
    {
      hide Reap;
      ReapLeaving(Now(), s);
      ghost var c := Now();
      while destructionReq != []
        invariant Reap(Now()) == Reap(c) && running == c.current
        decreases |destructionReq|
      {
        ReapOne(Now());
        var victim := destructionReq[0];
        destructionReq := destructionReq[1..];
        status := status - {victim};
      }
      ReapNone(Now());
      status := status[running := s];
      ScheduleNext();
    }

    method ThreadBlock()
      requires Sound(Now())
      modifies this
      ensures Now() == After(old(Now()), Block) && Sound(Now())
    {
      LeavingBy(Now(), Blocked);
      status := status[running := Blocked];
      ScheduleNext();
    }

    method ThreadUnblock(t: Tid)
      requires Sound(Now()) && Allowed(Now(), Unblock(t))
      modifies this
      ensures Now() == After(old(Now()), Unblock(t)) && Sound(Now())
    {
      EventSound(Now(), Unblock(t));
      readyList := readyList + [t];
      status := status[t := Ready];
    }

    method ThreadYield()
      requires Sound(Now())
      modifies this
      ensures Now() == After(old(Now()), Yield) && Sound(Now())
    {
      LeavingBy(Now(), Ready);
      if running != idleThread {
        readyList := readyList + [running];
      }
      DoScheduleWith(Ready);
    }

    method ThreadExit()
      requires Sound(Now()) && running != idleThread
      modifies this
      ensures Now() == After(old(Now()), Exit) && Sound(Now())
      ensures var t := old(running);
              t in status && status[t] == Dying && t != running && t !in readyList && (t != initialThread ==> t in destructionReq)
    {
      ExitIsFinal(Now());
      LeavingBy(Now(), Dying);
      DoScheduleWith(Dying);
    }

    /** `t` is the page that `palloc_get_page` returned. */
    method ThreadCreate(t: Tid)
      requires Sound(Now()) && t !in status
      modifies this
      ensures Now() == After(old(Now()), Create(t)) && Sound(Now())
    {
      EventSound(Now(), Create(t));
      status := status[t := Blocked];
      readyList := readyList + [t];
      status := status[t := Ready];
    }
  }
}
