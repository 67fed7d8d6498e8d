/** The round-robin scheduler of threads/thread.c, from the moment thread_start has created the
    idle thread, for runs without signals. Each action is one region with interrupts off. */
module Scheduler {
  import opened Wrappers
  import opened Slices

  type Tid = nat

  datatype Status = Running | Ready | Blocked | Dying

  /** status covers the threads whose page has not been freed; freed lists the pages given back
      to palloc, in order. */
  datatype State = State(
    current: Tid, ready: seq<Tid>, status: map<Tid, Status>,
    idle: Tid, initial: Tid, nextTid: Tid, freed: seq<Tid>)

  datatype Action = Create | Block | Unblock(t: Tid) | Yield | Exit

  function Init(): State
  {
    State(1, [], map[1 := Running, 2 := Blocked], 2, 1, 3, [])
  }

  ghost predicate Enabled(s: State, a: Action)
  {
    match a
    case Create => true
    case Block => true
    case Unblock(t) => t in s.status && s.status[t] == Blocked && t != s.idle
    case Yield => true
    case Exit => s.current != s.idle
  }

  /** schedule: picks the front of the ready list or the idle thread, switches to it, and frees
      the page of the thread switched from if that one is dying. */
  function Schedule(s: State): State
  {
    var next := if s.ready == [] then s.idle else s.ready[0];
    var rest := if s.ready == [] then [] else s.ready[1..];
    var running := s.(current := next, ready := rest, status := s.status[next := Running]);
    if next != s.current && s.current in s.status && s.status[s.current] == Dying && s.current != s.initial
    then running.(status := running.status - {s.current}, freed := running.freed + [s.current])
    else running
  }

  /** thread_yield before it calls schedule. */
  function Yielded(s: State): State
  {
    s.(status := s.status[s.current := Ready], ready := if s.current != s.idle then s.ready + [s.current] else s.ready)
  }

  function Step(s: State, a: Action): State
  {
    match a
    case Create =>
      s.(status := s.status[s.nextTid := Ready], ready := s.ready + [s.nextTid], nextTid := s.nextTid + 1)
    case Block => Schedule(s.(status := s.status[s.current := Blocked]))
    case Unblock(t) => s.(status := s.status[t := Ready], ready := s.ready + [t])
    case Yield => Schedule(Yielded(s))
    case Exit => Schedule(s.(status := s.status[s.current := Dying]))
  }

  predicate Schedules(a: Action)
  {
    a.Block? || a.Yield? || a.Exit?
  }

  ghost predicate IsReady(s: State, t: Tid)
  {
    t in s.status && s.status[t] == Ready && t != s.idle
  }

  /** The ready list holds exactly the ready threads other than the idle thread, once each. */
  ghost predicate ReadyOk(s: State)
  {
    && NoDup(s.ready)
    && (forall t {:trigger IsReady(s, t)} {:trigger t in s.ready} :: t in s.ready <==> IsReady(s, t))
  }

  /** A page is freed once, and only after its thread has gone. */
  ghost predicate FreedOk(s: State)
  {
    && NoDup(s.freed)
    && (forall t :: t in s.freed ==> t !in s.status && t < s.nextTid)
    && (forall t :: t in s.status ==> t < s.nextTid)
  }

  ghost predicate Common(s: State)
  {
    ReadyOk(s) && FreedOk(s) && s.idle in s.status && s.status[s.idle] != Dying && s.idle != s.initial && s.current in s.status
  }

  /** Exactly the current thread is running; only the initial thread can stay dying. */
  ghost predicate Inv(s: State)
  {
    && Common(s)
    && (forall t :: t in s.status ==> (s.status[t] == Running <==> t == s.current) && (s.status[t] == Dying ==> t == s.initial))
  }

  /** What holds when schedule is called: nobody is marked running. */
  ghost predicate Descheduled(s: State)
  {
    && Common(s)
    && (forall t :: t in s.status ==> s.status[t] != Running && (s.status[t] == Dying ==> t == s.initial || t == s.current))
  }

  lemma ScheduleReady(s: State)
    requires Descheduled(s)
    ensures ReadyOk(Schedule(s)) && Schedule(s).current in s.status && s.status[Schedule(s).current] != Dying
  {
    var e := Schedule(s);
    if s.ready != [] {
      assert s.ready[0] in s.ready && IsReady(s, s.ready[0]);
      assert s.ready == [s.ready[0]] + e.ready;
    }
    forall t
      ensures t in e.ready <==> IsReady(e, t)
    {
      assert t in s.ready <==> IsReady(s, t);
    }
  }

  lemma ScheduleFreed(s: State)
    requires Descheduled(s)
    ensures FreedOk(Schedule(s))
  {
    ScheduleReady(s);
  }

  lemma ScheduleEstablishesInv(s: State)
    requires Descheduled(s)
    ensures Inv(Schedule(s))
    ensures s.status[s.current] == Dying ==> Schedule(s).current != s.current
  {
    ScheduleReady(s);
    ScheduleFreed(s);
  }

  lemma StepKeepsInv(s: State, a: Action)
    requires Inv(s) && Enabled(s, a)
    ensures Inv(Step(s, a))
  {
    match a
    case Create => AppendReady(s, Step(s, a), s.nextTid);
    case Unblock(t) => AppendReady(s, Step(s, a), t);
    case Block =>
      ScheduleEstablishesInv(s.(status := s.status[s.current := Blocked]));
    case Yield =>
      YieldDeschedules(s);
      ScheduleEstablishesInv(Yielded(s));
    case Exit =>
      ScheduleEstablishesInv(s.(status := s.status[s.current := Dying]));
  }

  lemma AppendReady(s: State, e: State, t: Tid)
    requires ReadyOk(s) && t !in s.ready && t != s.idle
    requires e.status == s.status[t := Ready] && e.ready == s.ready + [t] && e.idle == s.idle
    ensures ReadyOk(e)
  {
    forall u
      ensures u in e.ready <==> IsReady(e, u)
    {
      assert u in s.ready <==> IsReady(s, u);
    }
  }

  lemma YieldDeschedules(s: State)
    requires Inv(s)
    ensures Descheduled(Yielded(s))
  {
    if s.current != s.idle { AppendReady(s, Yielded(s), s.current); }
  }

  // ----- whole runs

  ghost predicate Run(s: State, acts: seq<Action>, e: State)
    decreases |acts|
  {
    if acts == [] then e == s
    else Enabled(s, acts[0]) && Run(Step(s, acts[0]), acts[1..], e)
  }

  lemma {:induction false} RunKeepsInv(s: State, acts: seq<Action>, e: State)
    requires Inv(s) && Run(s, acts, e)
    ensures Inv(e)
    decreases |acts|
  {
    if acts != [] {
      StepKeepsInv(s, acts[0]);
      RunKeepsInv(Step(s, acts[0]), acts[1..], e);
    }
  }

  /** Over every run exactly one thread is running, the ready list is a duplicate-free list of
      exactly the ready non-idle threads, and every page freed belonged to a thread that is
      neither running nor ready and is freed once. */
  lemma SchedulerCorrect(acts: seq<Action>, e: State)
    requires Run(Init(), acts, e)
    ensures (set t | t in e.status && e.status[t] == Running) == {e.current}
    ensures ReadyOk(e)
    ensures NoDup(e.freed)
    ensures forall t :: t in e.freed ==> t !in e.status && t != e.current && t !in e.ready
  {
    RunKeepsInv(Init(), acts, e);
  }

  function Count(acts: seq<Action>): nat
  {
    if acts == [] then 0 else (if Schedules(acts[0]) then 1 else 0) + Count(acts[1..])
  }

  /** One step moves every ready thread one place forward if it schedules, and not at all otherwise;
      a step that schedules runs the front of the list. */
  lemma StepAdvances(s: State, a: Action, k: nat)
    requires k < |s.ready|
    ensures !Schedules(a) ==> k < |Step(s, a).ready| && Step(s, a).ready[k] == s.ready[k]
    ensures Schedules(a) && k > 0 ==> k - 1 < |Step(s, a).ready| && Step(s, a).ready[k - 1] == s.ready[k]
    ensures Schedules(a) ==> Step(s, a).current == s.ready[0]
  {
  }

  /** Round robin: the thread at position k of the ready list is still waiting, j places further on,
      after any run with j <= k calls of schedule, and the (k+1)-th call runs it. */
  lemma {:induction false} RoundRobin(s: State, acts: seq<Action>, e: State, k: nat)
    requires k < |s.ready| && Run(s, acts, e) && Count(acts) <= k
    ensures k - Count(acts) < |e.ready| && e.ready[k - Count(acts)] == s.ready[k]
    ensures Count(acts) == k ==> forall a :: Schedules(a) ==> Step(e, a).current == s.ready[k]
    decreases |acts|
  {
    if acts == [] {
      forall a | Schedules(a) ensures k == 0 ==> Step(e, a).current == s.ready[k] { StepAdvances(e, a, 0); }
    } else {
      StepAdvances(s, acts[0], k);
      var k' := if Schedules(acts[0]) then k - 1 else k;
      RoundRobin(Step(s, acts[0]), acts[1..], e, k');
    }
  }

  /** A thread that is unblocked is queued last: once schedule has been called for those ahead of it,
      whatever happens in between, the next call runs it. */
  lemma UnblockedRuns(s: State, t: Tid, acts: seq<Action>, e: State)
    requires Inv(s) && Enabled(s, Unblock(t)) && Run(Step(s, Unblock(t)), acts, e) && Count(acts) == |s.ready|
    ensures forall a :: Schedules(a) ==> Step(e, a).current == t
  {
    RoundRobin(Step(s, Unblock(t)), acts, e, |s.ready|);
  }

  /** So is a new thread. */
  lemma CreatedRuns(s: State, acts: seq<Action>, e: State)
    requires Inv(s) && Run(Step(s, Create), acts, e) && Count(acts) == |s.ready|
    ensures s.nextTid !in s.status && forall a :: Schedules(a) ==> Step(e, a).current == s.nextTid
  {
    RoundRobin(Step(s, Create), acts, e, |s.ready|);
  }

  /** And a thread that yields, which goes on at once when no other is ready. */
  lemma YieldedRuns(s: State, acts: seq<Action>, e: State)
    requires Inv(s) && s.current != s.idle && Run(Step(s, Yield), acts, e)
    ensures s.ready == [] ==> Step(s, Yield).current == s.current
    ensures s.ready != [] && Count(acts) + 1 == |s.ready| ==> forall a :: Schedules(a) ==> Step(e, a).current == s.current
  {
    if s.ready != [] && Count(acts) + 1 == |s.ready| { RoundRobin(Step(s, Yield), acts, e, |s.ready| - 1); }
  }

  /** Only schedule switches threads. */
  lemma {:induction false} RunsOn(s: State, acts: seq<Action>, e: State)
    requires Run(s, acts, e) && Count(acts) == 0
    ensures e.current == s.current
    decreases |acts|
  {
    if acts != [] { RunsOn(Step(s, acts[0]), acts[1..], e); }
  }

  /** The thread that an action queues, if any. */
  function Queued(s: State, a: Action): seq<Tid>
  {
    match a
    case Create => [s.nextTid]
    case Unblock(t) => [t]
    case Yield => if s.current != s.idle then [s.current] else []
    case _ => []
  }

  /** The thread other than the idle one that an action switches to, if any. */
  function Chosen(s: State, a: Action): seq<Tid>
  {
    if Schedules(a) && Step(s, a).current != s.idle then [Step(s, a).current] else []
  }

  ghost function QueuedIn(s: State, acts: seq<Action>): seq<Tid>
    decreases |acts|
  {
    if acts == [] then [] else Queued(s, acts[0]) + QueuedIn(Step(s, acts[0]), acts[1..])
  }

  ghost function ChosenIn(s: State, acts: seq<Action>): seq<Tid>
    decreases |acts|
  {
    if acts == [] then [] else Chosen(s, acts[0]) + ChosenIn(Step(s, acts[0]), acts[1..])
  }

  lemma DispatchStep(s: State, a: Action)
    requires Inv(s) && Enabled(s, a)
    ensures Chosen(s, a) + Step(s, a).ready == s.ready + Queued(s, a)
  {
    assert !IsReady(s, s.idle);
    match a
    case Block => FrontChosen(s.(status := s.status[s.current := Blocked]));
    case Exit => FrontChosen(s.(status := s.status[s.current := Dying]));
    case Yield =>
      YieldDeschedules(s);
      FrontChosen(Yielded(s));
    case _ =>
  }

  lemma FrontChosen(s: State)
    requires s.idle !in s.ready
    ensures (if Schedule(s).current != s.idle then [Schedule(s).current] else []) + Schedule(s).ready == s.ready
  {
  }

  /** First come, first served, over every run: the threads given the processor, and then those still
      ready, are those ready at the start and then those created, unblocked or yielding since, in that
      order. Threads that block or exit are not among them. */
  lemma {:induction false} DispatchInOrder(s: State, acts: seq<Action>, e: State)
    requires Inv(s) && Run(s, acts, e)
    ensures ChosenIn(s, acts) + e.ready == s.ready + QueuedIn(s, acts)
    decreases |acts|
  {
    if acts != [] {
      var a, rest := acts[0], acts[1..];
      var m := Step(s, a);
      DispatchStep(s, a);
      StepKeepsInv(s, a);
      DispatchInOrder(m, rest, e);
      CatAssoc(Chosen(s, a), ChosenIn(m, rest), e.ready);
      CatAssoc(Chosen(s, a), m.ready, QueuedIn(m, rest));
      CatAssoc(s.ready, Queued(s, a), QueuedIn(m, rest));
    }
  }

  /** t sleeps, and can be unblocked. */
  ghost predicate Asleep(s: State, t: Tid) { Enabled(s, Unblock(t)) }

  lemma AsleepStep(s: State, a: Action, t: Tid)
    requires Inv(s) && Asleep(s, t) && Enabled(s, a) && a != Unblock(t)
    ensures Asleep(Step(s, a), t)
  {
    if s.ready != [] { assert IsReady(s, s.ready[0]); }
  }

  lemma {:induction false} StaysAsleep(s: State, acts: seq<Action>, e: State, t: Tid)
    requires Inv(s) && Asleep(s, t) && Run(s, acts, e) && Unblock(t) !in acts
    ensures Inv(e) && Asleep(e, t) && t != e.current && t !in e.ready
    decreases |acts|
  {
    if acts == [] {
      assert !IsReady(s, t);
    } else {
      assert acts[0] in acts;
      AsleepStep(s, acts[0], t);
      StepKeepsInv(s, acts[0]);
      StaysAsleep(Step(s, acts[0]), acts[1..], e, t);
    }
  }

  /** A thread other than the idle one that blocks is neither running nor ready until it is unblocked,
      which can be done at any time. */
  lemma BlockedWaits(s: State, acts: seq<Action>, e: State)
    requires Inv(s) && s.current != s.idle && Run(Step(s, Block), acts, e) && Unblock(s.current) !in acts
    ensures e.current != s.current && s.current !in e.ready && Enabled(e, Unblock(s.current))
  {
    if s.ready != [] { assert IsReady(s, s.ready[0]); }
    StepKeepsInv(s, Block);
    StaysAsleep(Step(s, Block), acts, e, s.current);
  }

  /** t has exited. */
  ghost predicate Exited(s: State, t: Tid)
  {
    t < s.nextTid && t != s.idle && t != s.current && (t in s.status ==> s.status[t] == Dying)
  }

  lemma ExitedStep(s: State, a: Action, t: Tid)
    requires Inv(s) && Exited(s, t) && Enabled(s, a)
    ensures Exited(Step(s, a), t)
  {
    if s.ready != [] { assert IsReady(s, s.ready[0]); }
  }

  lemma {:induction false} StaysExited(s: State, acts: seq<Action>, e: State, t: Tid)
    requires Inv(s) && Exited(s, t) && Run(s, acts, e)
    ensures Exited(e, t) && t !in e.ready
    decreases |acts|
  {
    if acts == [] {
      assert !IsReady(s, t);
    } else {
      ExitedStep(s, acts[0], t);
      StepKeepsInv(s, acts[0]);
      StaysExited(Step(s, acts[0]), acts[1..], e, t);
    }
  }

  /** A thread that exits never runs or becomes ready again. */
  lemma ExitedNeverRuns(s: State, acts: seq<Action>, e: State)
    requires Inv(s) && Enabled(s, Exit) && Run(Step(s, Exit), acts, e)
    ensures e.current != s.current && s.current !in e.ready
  {
    if s.ready != [] { assert IsReady(s, s.ready[0]); }
    StepKeepsInv(s, Exit);
    StaysExited(Step(s, Exit), acts, e, s.current);
  }

  /** A thread that exits has its page freed at once, after another thread has taken over; only
      the initial thread's page, which palloc did not provide, is kept. */
  lemma ExitFreesOnce(s: State)
    requires Inv(s) && Enabled(s, Exit)
    ensures var e := Step(s, Exit);
            && e.current != s.current
            && e.freed == (if s.current == s.initial then s.freed else s.freed + [s.current])
            && (s.current != s.initial ==> s.current !in s.freed && s.current !in e.status)
  {
    ScheduleEstablishesInv(s.(status := s.status[s.current := Dying]));
  }

  // ----- the imperative scheduler

  class Threads {
    var current: Tid
    var readyList: seq<Tid>
    var status: map<Tid, Status>
    var idleThread: Tid
    var initialThread: Tid
    var nextTid: Tid
    var freed: seq<Tid>

    ghost function View(): State
      reads this
    {
      State(current, readyList, status, idleThread, initialThread, nextTid, freed)
    }

    constructor ()
      ensures View() == Init() && Inv(View())
    {
      current, readyList, status := 1, [], map[1 := Running, 2 := Blocked];
      idleThread, initialThread, nextTid, freed := 2, 1, 3, [];
    }

    /** next_thread_to_run */
    method NextThreadToRun() returns (t: Tid)
      modifies this`readyList
      ensures old(readyList) == [] ==> t == idleThread && readyList == []
      ensures old(readyList) != [] ==> [t] + readyList == old(readyList)
    {
      if readyList == [] {
        t := idleThread;
      } else {
        t := readyList[0];
        readyList := readyList[1..];
      }
    }

    /** thread_schedule_tail: runs in the new current thread. */
    method ScheduleTail(prev: Tid, switched: bool)
      requires switched ==> prev != current
      modifies this`status, this`freed
      ensures var s := old(status)[current := Running];
              if switched && prev in old(status) && old(status)[prev] == Dying && prev != initialThread
              then status == s - {prev} && freed == old(freed) + [prev]
              else status == s && freed == old(freed)
    {
      status := status[current := Running];
      if switched && prev in status && status[prev] == Dying && prev != initialThread {
        status := status - {prev};
        freed := freed + [prev];
      }
    }

    /** schedule: called with the running thread already marked as something else. */
    method ScheduleNext()
      requires Descheduled(View())
      modifies this`current, this`readyList, this`status, this`freed
      ensures View() == Schedule(old(View())) && Inv(View())
    {
      ScheduleEstablishesInv(View());
      var prev := current;
      var next := NextThreadToRun();
      current := next;
      ScheduleTail(prev, prev != next);
    }

    /** thread_create, up to the new thread being ready; without a page there is none. */
    method ThreadCreate(pageOk: bool) returns (r: Option<Tid>)
      requires Inv(View())
      modifies this`readyList, this`status, this`nextTid
      ensures Inv(View()) && (r.Some? <==> pageOk)
      ensures r.Some? ==> View() == Step(old(View()), Create) && r.value !in old(status) && readyList == old(readyList) + [r.value]
      ensures r.None? ==> View() == old(View())
    {
      if !pageOk {
        return None;
      }
      StepKeepsInv(View(), Create);
      var t := nextTid;
      nextTid := nextTid + 1;
      status := status[t := Blocked];
      readyList := readyList + [t];
      status := status[t := Ready];
      assert status == old(status)[t := Ready];
      r := Some(t);
    }

    method ThreadBlock()
      requires Inv(View())
      modifies this`current, this`readyList, this`status, this`freed
      ensures View() == Step(old(View()), Block) && Inv(View())
      ensures old(current) != idleThread ==> Enabled(View(), Unblock(old(current))) && current != old(current) && old(current) !in readyList
    {
      if current != idleThread { BlockedWaits(View(), [], Step(View(), Block)); }
      status := status[current := Blocked];
      ScheduleNext();
    }

    method ThreadUnblock(t: Tid)
      requires Inv(View()) && Enabled(View(), Unblock(t))
      modifies this`readyList, this`status
      ensures View() == Step(old(View()), Unblock(t)) && Inv(View())
      ensures readyList == old(readyList) + [t] && t in status && status[t] == Ready && current == old(current)
    {
      StepKeepsInv(View(), Unblock(t));
      readyList := readyList + [t];
      status := status[t := Ready];
    }

    method ThreadYield()
      requires Inv(View())
      modifies this`current, this`readyList, this`status, this`freed
      ensures View() == Step(old(View()), Yield) && Inv(View())
      ensures old(current) != idleThread ==> [current] + readyList == old(readyList) + [old(current)]
    {
      ghost var s := View();
      DispatchStep(s, Yield);
      assert !IsReady(s, idleThread);
      if current != idleThread {
        readyList := readyList + [current];
      }
      status := status[current := Ready];
      YieldDeschedules(s);
      assert View() == Yielded(s);
      ScheduleNext();
    }

    method ThreadExit()
      requires Inv(View()) && current != idleThread
      modifies this`current, this`readyList, this`status, this`freed
      ensures View() == Step(old(View()), Exit) && Inv(View())
      ensures Exited(View(), old(current)) && old(current) !in readyList
    {
      ExitedNeverRuns(View(), [], Step(View(), Exit));
      status := status[current := Dying];
      ScheduleNext();
    }
  }
}
