/** Semaphores (threads/synch.c) as an interleaving of the regions that run with interrupts
    off: entering sema_down, rechecking the value after a wake-up, sema_try_down, sema_up. */
module Semaphore {
  import opened Slices

  type Tid = nat

  /** The semaphore, and the threads that sema_up has readied but that have not yet looked
      at the value again. The counters record completed downs and ups. */
  datatype Sema = Sema(value: nat, waiters: seq<Tid>, woken: set<Tid>, downs: nat, ups: nat)

  datatype Action = Down(t: Tid) | Recheck(t: Tid) | TryDown | Up

  function Init(value: nat): Sema
  {
    Sema(value, [], {}, 0, 0)
  }

  /** The body of the wait loop: take a unit, or queue and sleep. */
  function TakeOrSleep(s: Sema, t: Tid): Sema
  {
    if s.value == 0 then s.(waiters := s.waiters + [t])
    else s.(value := s.value - 1, downs := s.downs + 1)
  }

  ghost predicate Enabled(s: Sema, a: Action)
  {
    match a
    case Down(t) => t !in s.waiters && t !in s.woken     // t is running, not inside sema_down
    case Recheck(t) => t in s.woken
    case TryDown => true
    case Up => true
  }

  function Step(s: Sema, a: Action): Sema
  {
    match a
    case Down(t) => TakeOrSleep(s, t)
    case Recheck(t) => TakeOrSleep(s.(woken := s.woken - {t}), t)
    case TryDown => if s.value > 0 then s.(value := s.value - 1, downs := s.downs + 1) else s
    case Up =>
      var u := if s.waiters != [] then s.(waiters := s.waiters[1..], woken := s.woken + {s.waiters[0]}) else s;
      u.(value := u.value + 1, ups := u.ups + 1)
  }

  /** The state after the actions of a run, all of which are enabled when taken. */
  ghost predicate Run(s: Sema, acts: seq<Action>, e: Sema)
    decreases |acts|
  {
    if acts == [] then e == s
    else Enabled(s, acts[0]) && Run(Step(s, acts[0]), acts[1..], e)
  }

  ghost predicate Inv(s: Sema, init: nat)
  {
    && s.value + s.downs == init + s.ups
    && (s.waiters != [] ==> s.value <= |s.woken|)
    && NoDup(s.waiters)
    && (forall i :: 0 <= i < |s.waiters| ==> s.waiters[i] !in s.woken)
  }

  lemma StepKeepsInv(s: Sema, a: Action, init: nat)
    requires Inv(s, init) && Enabled(s, a)
    ensures Inv(Step(s, a), init)
  {
    match a
    case Down(t) =>
    case Recheck(t) =>
      assert |s.woken - {t}| == |s.woken| - 1;
    case TryDown =>
    case Up =>
      if s.waiters != [] {
        assert s.waiters[0] !in s.woken;
        assert |s.woken + {s.waiters[0]}| == |s.woken| + 1;
      }
  }

  lemma {:induction false} RunKeepsInv(s: Sema, acts: seq<Action>, e: Sema, init: nat)
    requires Inv(s, init) && Run(s, acts, e)
    ensures Inv(e, init)
    decreases |acts|
  {
    if acts != [] {
      StepKeepsInv(s, acts[0], init);
      RunKeepsInv(Step(s, acts[0]), acts[1..], e, init);
    }
  }

  /** Conservation and no lost wake-up, over every interleaving: units are neither created nor
      destroyed, and while a thread sleeps every available unit has an awake thread that will
      look at it. In particular, once all woken threads have rechecked, nobody sleeps next to
      an available unit. */
  lemma SemaphoreCorrect(init: nat, acts: seq<Action>, e: Sema)
    requires Run(Init(init), acts, e)
    ensures e.value + e.downs == init + e.ups
    ensures e.waiters != [] ==> e.value <= |e.woken|
    ensures e.waiters != [] && e.woken == {} ==> e.value == 0
    ensures forall t :: t in e.waiters ==> t !in e.woken
  {
    RunKeepsInv(Init(init), acts, e, init);
  }

  /** The thread that an action puts to sleep, if any. */
  function Sleeps(s: Sema, a: Action): seq<Tid>
  {
    match a
    case Down(t) => if s.value == 0 then [t] else []
    case Recheck(t) => if s.value == 0 then [t] else []
    case _ => []
  }

  /** The thread that an action wakes, if any. */
  function Wakes(s: Sema, a: Action): seq<Tid>
  {
    if a.Up? && s.waiters != [] then [s.waiters[0]] else []
  }

  /** The threads that go to sleep in a run, in order, each as often as it does. */
  ghost function Slept(s: Sema, acts: seq<Action>): seq<Tid>
    decreases |acts|
  {
    if acts == [] then [] else Sleeps(s, acts[0]) + Slept(Step(s, acts[0]), acts[1..])
  }

  /** The threads that are woken in a run, in order. */
  ghost function Woken(s: Sema, acts: seq<Action>): seq<Tid>
    decreases |acts|
  {
    if acts == [] then [] else Wakes(s, acts[0]) + Woken(Step(s, acts[0]), acts[1..])
  }

  lemma QueueStep(s: Sema, a: Action)
    ensures Wakes(s, a) + Step(s, a).waiters == s.waiters + Sleeps(s, a)
  {
  }

  /** First come, first woken, over every run: the threads woken and then those still asleep are
      the threads that were asleep at the start and then those that went to sleep, in that order. */
  lemma {:induction false} FifoWakeup(s: Sema, acts: seq<Action>, e: Sema)
    requires Run(s, acts, e)
    ensures Woken(s, acts) + e.waiters == s.waiters + Slept(s, acts)
    decreases |acts|
  {
    if acts != [] {
      var m, rest := Step(s, acts[0]), acts[1..];
      FifoWakeup(m, rest, e);
      QueueStep(s, acts[0]);
      CatAssoc(Wakes(s, acts[0]), Woken(m, rest), e.waiters);
      CatAssoc(Wakes(s, acts[0]), m.waiters, Slept(m, rest));
      CatAssoc(s.waiters, Sleeps(s, acts[0]), Slept(m, rest));
    }
  }

  /** How many actions of a run are ups, and how many try to take a unit. */
  function UpCount(acts: seq<Action>): nat
  {
    if acts == [] then 0 else (if acts[0].Up? then 1 else 0) + UpCount(acts[1..])
  }

  function TryCount(acts: seq<Action>): nat
  {
    if acts == [] then 0 else (if acts[0].Up? then 0 else 1) + TryCount(acts[1..])
  }

  /** How many calls of sema_try_down in a run find no unit. */
  ghost function Refused(s: Sema, acts: seq<Action>): nat
    decreases |acts|
  {
    if acts == [] then 0
    else (if acts[0].TryDown? && s.value == 0 then 1 else 0) + Refused(Step(s, acts[0]), acts[1..])
  }

  /** Accounting over every run: each up adds a unit, and each attempt to take one takes it, puts its
      thread to sleep or is refused. */
  lemma {:induction false} Accounting(s: Sema, acts: seq<Action>, e: Sema)
    requires Run(s, acts, e)
    ensures e.value + e.downs == s.value + s.downs + UpCount(acts)
    ensures e.downs + |Slept(s, acts)| + Refused(s, acts) == s.downs + TryCount(acts)
    decreases |acts|
  {
    if acts != [] { Accounting(Step(s, acts[0]), acts[1..], e); }
  }

  /** The thread that looks at the value again, if any. */
  function Rechecker(a: Action): multiset<Tid> { if a.Recheck? then multiset{a.t} else multiset{} }

  /** The threads that look at the value again, as often as they do. */
  function Rechecks(acts: seq<Action>): multiset<Tid>
  {
    if acts == [] then multiset{} else Rechecker(acts[0]) + Rechecks(acts[1..])
  }

  lemma WokenStep(s: Sema, a: Action, init: nat)
    requires Inv(s, init) && Enabled(s, a)
    ensures multiset(Wakes(s, a)) + multiset(s.woken) == Rechecker(a) + multiset(Step(s, a).woken)
  {
    if a.Recheck? {
      assert s.woken == (s.woken - {a.t}) + {a.t};
    } else if a.Up? && s.waiters != [] {
      assert s.waiters[0] !in s.woken;
    }
  }

  lemma Chained(a: multiset<Tid>, b: multiset<Tid>, c: multiset<Tid>, x: multiset<Tid>, y: multiset<Tid>, z: multiset<Tid>, w: multiset<Tid>)
    requires a + x == b + y && c + y == z + w
    ensures (a + c) + x == (b + z) + w
  {
    assert a + c + x == c + (a + x);
    assert c + (b + y) == b + (c + y);
  }

  /** Over every run, a thread looks at the value again once for each time it is woken. */
  lemma {:induction false} RechecksOnce(s: Sema, acts: seq<Action>, e: Sema, init: nat)
    requires Inv(s, init) && Run(s, acts, e)
    ensures multiset(Woken(s, acts)) + multiset(s.woken) == Rechecks(acts) + multiset(e.woken)
    decreases |acts|
  {
    if acts != [] {
      var a, rest := acts[0], acts[1..];
      var m := Step(s, a);
      WokenStep(s, a, init);
      StepKeepsInv(s, a, init);
      RechecksOnce(m, rest, e, init);
      Chained(multiset(Wakes(s, a)), Rechecker(a), multiset(Woken(m, rest)), multiset(s.woken), multiset(m.woken), Rechecks(rest), multiset(e.woken));
    }
  }

  /** A unit given by sema_up to a sleeping semaphore reaches a thread: after an up, if some
      thread still has to recheck, letting it recheck first completes its down. */
  lemma UpServesWoken(s: Sema, t: Tid)
    requires s.waiters != [] && t == s.waiters[0]
    ensures var u := Step(s, Up);
            Enabled(u, Recheck(t)) && Step(u, Recheck(t)).downs == u.downs + 1
            && Step(u, Recheck(t)).value == s.value && Step(u, Recheck(t)).woken == s.woken - {t}
  {
    assert s.woken + {t} - {t} == s.woken - {t};
  }

  // ----- the imperative semaphore

  class SemaphoreObject {
    var value: nat
    var waiters: seq<Tid>
    ghost var woken: set<Tid>
    ghost var downs: nat
    ghost var ups: nat
    ghost const init: nat

    ghost function View(): Sema
      reads this
    {
      Sema(value, waiters, woken, downs, ups)
    }

    ghost predicate Valid()
      reads this
    {
      Inv(View(), init)
    }

    /** sema_init */
    constructor (v: nat)
      ensures Valid() && init == v && View() == Init(v)
    {
      value, waiters, woken, downs, ups, init := v, [], {}, 0, 0, v;
    }

    /** One pass of the loop in sema_down, up to the point where the thread sleeps or leaves. */
    method DownRegion(t: Tid) returns (taken: bool)
      requires Valid() && (Enabled(View(), Down(t)) || Enabled(View(), Recheck(t)))
      modifies this
      ensures Valid() && View() == Step(old(View()), if t in old(woken) then Recheck(t) else Down(t))
      ensures taken <==> downs == old(downs) + 1
      ensures !taken ==> waiters == old(waiters) + [t]
      ensures t !in woken
    {
      StepKeepsInv(View(), if t in woken then Recheck(t) else Down(t), init);
      woken := woken - {t};
      if value == 0 {
        waiters := waiters + [t];
        taken := false;
      } else {
        value := value - 1;
        downs := downs + 1;
        taken := true;
      }
    }

    method TryDownRegion() returns (success: bool)
      requires Valid()
      modifies this
      ensures Valid() && View() == Step(old(View()), TryDown) && (success <==> old(value) > 0)
      ensures if success then downs == old(downs) + 1 else View() == old(View())
    {
      success := value > 0;
      if value > 0 {
        value := value - 1;
        downs := downs + 1;
      }
    }

    method UpRegion()
      requires Valid()
      modifies this
      ensures Valid() && View() == Step(old(View()), Up)
    {
      StepKeepsInv(View(), Up, init);
      if waiters != [] {
        woken := woken + {waiters[0]};
        waiters := waiters[1..];
      }
      value := value + 1;
      ups := ups + 1;
    }
  }
}
