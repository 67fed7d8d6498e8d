/** Locks and condition variables (threads/synch.c): one lock, any number of conditions and
    threads, interleaved between the regions that run with interrupts off. Setting and clearing
    the holder, queueing on a condition and popping a waiter are separate steps. */
module Monitor {
  import opened Wrappers
  import opened Slices
  import S = Semaphore

  type Tid = nat
  type Cond = nat

  /** Where a thread is in the code. */
  datatype PC =
    | Outside                   // not using the lock
    | LockQueued                // asleep in lock_acquire
    | LockWoken                 // woken in lock_acquire, has to recheck
    | Acquired                  // took the lock's unit, holder not yet set
    | Inside                    // holds the lock
    | Releasing                 // cleared holder, sema_up still to come
    | WaitListed(c: Cond)       // cond_wait: on the condition's list, still holding the lock
    | WaitReleasing(c: Cond)    // cond_wait: cleared holder, sema_up still to come
    | WaitDown(c: Cond)         // cond_wait: lock released, about to down its own semaphore
    | WaitQueued(c: Cond)       // cond_wait: asleep on its own semaphore
    | WaitWoken(c: Cond)        // cond_wait: woken, has to recheck its own semaphore
    | Relock                    // cond_wait: signalled, about to reacquire the lock
    | Signalling(w: Tid)        // cond_signal: popped w, sema_up on its semaphore still to come

  /** value and queue belong to the lock's semaphore; own[t] is the semaphore of t's current
      cond_wait; signals and passes count, per thread, signals received and waits completed. */
  datatype State = State(
    value: nat, queue: seq<Tid>, holder: Option<Tid>,
    pc: seq<PC>, own: seq<nat>, conds: seq<seq<Tid>>,
    signals: seq<nat>, passes: seq<nat>)

  datatype Action =
    | Acquire | TryAcquire | SetHolder | ClearHolder | UpLock
    | WaitEnter(c: Cond) | OwnDown | SignalPop(c: Cond) | SignalUp

  function Init(threads: nat, conds: nat): State
  {
    State(1, [], None, seq(threads, _ => Outside), seq(threads, _ => 0), seq(conds, _ => []),
          seq(threads, _ => 0), seq(threads, _ => 0))
  }

  /** The thread owns the lock's unit. */
  predicate Critical(p: PC)
  {
    p.Acquired? || p.Inside? || p.Releasing? || p.WaitListed? || p.WaitReleasing? || p.Signalling?
  }

  /** The thread is the recorded holder. */
  predicate Holding(p: PC)
  {
    p.Inside? || p.WaitListed? || p.Signalling?
  }

  /** The thread is in cond_wait, not yet past its own semaphore. */
  predicate Waiting(p: PC)
  {
    p.WaitListed? || p.WaitReleasing? || p.WaitDown? || p.WaitQueued? || p.WaitWoken?
  }

  ghost predicate Shaped(s: State)
  {
    && |s.own| == |s.pc| && |s.signals| == |s.pc| && |s.passes| == |s.pc|
    && (forall t :: 0 <= t < |s.pc| && Waiting(s.pc[t]) ==> s.pc[t].c < |s.conds|)
    && (forall t :: 0 <= t < |s.pc| && s.pc[t].Signalling? ==> s.pc[t].w < |s.pc|)
    && (forall i :: 0 <= i < |s.queue| ==> s.queue[i] < |s.pc|)
    && (forall c, i :: 0 <= c < |s.conds| && 0 <= i < |s.conds[c]| ==> s.conds[c][i] < |s.pc|)
  }

  ghost predicate Enabled(s: State, t: Tid, a: Action)
  {
    t < |s.pc| &&
    match a
    case Acquire => s.pc[t].Outside? || s.pc[t].Relock? || s.pc[t].LockWoken?
    case TryAcquire => s.pc[t].Outside?
    case SetHolder => s.pc[t].Acquired?
    case ClearHolder => s.pc[t].Inside? || s.pc[t].WaitListed?
    case UpLock => s.pc[t].Releasing? || s.pc[t].WaitReleasing?
    case WaitEnter(c) => s.pc[t].Inside? && c < |s.conds|
    case OwnDown => s.pc[t].WaitDown? || s.pc[t].WaitWoken?
    case SignalPop(c) => s.pc[t].Inside? && c < |s.conds|
    case SignalUp => s.pc[t].Signalling?
  }

  function Step(s: State, t: Tid, a: Action): State
    requires Shaped(s) && Enabled(s, t, a)
  {
    match a
    case Acquire =>
      if s.value == 0 then s.(queue := s.queue + [t], pc := s.pc[t := LockQueued])
      else s.(value := s.value - 1, pc := s.pc[t := Acquired])
    case TryAcquire =>
      if s.value == 0 then s else s.(value := s.value - 1, pc := s.pc[t := Acquired])
    case SetHolder =>
      s.(holder := Some(t), pc := s.pc[t := Inside])
    case ClearHolder =>
      s.(holder := None, pc := s.pc[t := if s.pc[t].Inside? then Releasing else WaitReleasing(s.pc[t].c)])
    case UpLock =>
      var u := if s.queue == [] then s
               else s.(queue := s.queue[1..], pc := s.pc[s.queue[0] := LockWoken]);
      u.(value := u.value + 1, pc := u.pc[t := if s.pc[t].Releasing? then Outside else WaitDown(s.pc[t].c)])
    case WaitEnter(c) =>
      s.(own := s.own[t := 0], conds := s.conds[c := s.conds[c] + [t]], pc := s.pc[t := WaitListed(c)])
    case OwnDown =>
      if s.own[t] == 0 then s.(pc := s.pc[t := WaitQueued(s.pc[t].c)])
      else s.(own := s.own[t := s.own[t] - 1], pc := s.pc[t := Relock], passes := s.passes[t := s.passes[t] + 1])
    case SignalPop(c) =>
      if s.conds[c] == [] then s
      else s.(conds := s.conds[c := s.conds[c][1..]], pc := s.pc[t := Signalling(s.conds[c][0])])
    case SignalUp =>
      var w := s.pc[t].w;
      var u := if s.pc[w].WaitQueued? then s.(pc := s.pc[w := WaitWoken(s.pc[w].c)]) else s;
      u.(own := u.own[w := u.own[w] + 1], signals := u.signals[w := u.signals[w] + 1], pc := u.pc[t := Inside])
  }

  // ----- invariant

  /** The lock's unit is free and nobody is inside, or it is taken and exactly one thread is. */
  ghost predicate Exclusive(s: State)
  {
    && s.value <= 1
    && (s.value == 1 ==> forall t :: 0 <= t < |s.pc| ==> !Critical(s.pc[t]))
    && (s.value == 0 ==> exists t :: 0 <= t < |s.pc| && Critical(s.pc[t]))
    && (forall t, u :: 0 <= t < |s.pc| && 0 <= u < |s.pc| && Critical(s.pc[t]) && Critical(s.pc[u]) ==> t == u)
  }

  ghost predicate HolderOk(s: State)
  {
    && (s.holder.Some? ==> s.holder.value < |s.pc| && Holding(s.pc[s.holder.value]))
    && (forall t :: 0 <= t < |s.pc| && Holding(s.pc[t]) ==> s.holder == Some(t))
  }

  /** The lock's queue holds exactly its sleepers, and a free lock has no sleeper without
      somebody awake to take it. */
  ghost predicate QueueOk(s: State)
  {
    && NoDup(s.queue)
    && (forall i :: 0 <= i < |s.queue| ==> s.queue[i] < |s.pc| && s.pc[s.queue[i]].LockQueued?)
    && (forall t :: 0 <= t < |s.pc| && s.pc[t].LockQueued? ==> t in s.queue)
    && (s.queue != [] && s.value > 0 ==> exists t :: 0 <= t < |s.pc| && s.pc[t].LockWoken?)
  }

  ghost predicate Listed(s: State, t: Tid, c: Cond)
  {
    c < |s.conds| && t in s.conds[c]
  }

  /** Some thread has popped t and is about to up its semaphore. */
  ghost predicate Pending(s: State, t: Tid)
  {
    exists u :: 0 <= u < |s.pc| && s.pc[u] == Signalling(t)
  }

  /** A waiter is on its condition's list, or popped by a signaller that has not yet raised its
      semaphore, or its semaphore has been raised: always exactly one of the three. */
  ghost predicate WaiterOk(s: State, t: Tid)
    requires Shaped(s) && t < |s.pc| && Waiting(s.pc[t])
  {
    && s.own[t] <= 1
    && (Listed(s, t, s.pc[t].c) ==> s.own[t] == 0 && !Pending(s, t))
    && (Pending(s, t) ==> s.own[t] == 0)
    && (s.own[t] == 0 ==> Listed(s, t, s.pc[t].c) || Pending(s, t))
    && (s.pc[t].WaitQueued? ==> s.own[t] == 0)
    && (s.pc[t].WaitWoken? ==> s.own[t] == 1)
  }

  ghost predicate CondOk(s: State)
    requires Shaped(s)
  {
    && (forall c :: 0 <= c < |s.conds| ==> NoDup(s.conds[c]))
    && (forall c, i :: 0 <= c < |s.conds| && 0 <= i < |s.conds[c]| ==>
          var t := s.conds[c][i]; t < |s.pc| && Waiting(s.pc[t]) && s.pc[t].c == c)
    && (forall u :: 0 <= u < |s.pc| && s.pc[u].Signalling? ==> s.pc[u].w < |s.pc| && Waiting(s.pc[s.pc[u].w]))
    && (forall t :: 0 <= t < |s.pc| && Waiting(s.pc[t]) ==> WaiterOk(s, t))
  }

  /** Every signal received is a wait completed, or about to be. */
  ghost predicate CountsOk(s: State)
    requires Shaped(s)
  {
    forall t :: 0 <= t < |s.pc| ==> s.signals[t] == s.passes[t] + (if Waiting(s.pc[t]) then s.own[t] else 0)
  }

  ghost predicate Inv(s: State)
  {
    Shaped(s) && Exclusive(s) && HolderOk(s) && QueueOk(s) && CondOk(s) && CountsOk(s)
  }

  // ----- each kind of step keeps the invariant

  lemma ShapedStep(s: State, t: Tid, a: Action)
    requires Shaped(s) && Enabled(s, t, a)
    ensures Shaped(Step(s, t, a)) && |Step(s, t, a).pc| == |s.pc|
  {
    var s' := Step(s, t, a);
    if a.SignalPop? && s.conds[a.c] != [] {
      assert forall i :: 0 <= i < |s'.conds[a.c]| ==> s'.conds[a.c][i] == s.conds[a.c][i + 1];
      assert s.conds[a.c][0] < |s.pc|;
    }
  }

  /** The only thread besides t whose program counter a step may change, and how. */
  lemma OtherThread(s: State, t: Tid, a: Action, u: Tid)
    requires Shaped(s) && QueueOk(s) && CondOk(s) && Enabled(s, t, a)
    requires u < |s.pc| && u != t
    ensures var s' := Step(s, t, a);
            || s'.pc[u] == s.pc[u]
            || (a.UpLock? && s.pc[u].LockQueued? && s'.pc[u].LockWoken?)
            || (a.SignalUp? && s.pc[u].WaitQueued? && s'.pc[u] == WaitWoken(s.pc[u].c))
  {
  }

  lemma OwnThread(s: State, t: Tid, a: Action)
    requires Shaped(s) && HolderOk(s) && QueueOk(s) && CondOk(s) && Enabled(s, t, a)
    ensures var s' := Step(s, t, a);
            && (Critical(s.pc[t]) && !a.UpLock? ==> Critical(s'.pc[t]) && s'.value == s.value)
            && (!Critical(s.pc[t]) ==> s'.value == s.value - (if Critical(s'.pc[t]) then 1 else 0))
            && (a.UpLock? ==> Critical(s.pc[t]) && !Critical(s'.pc[t]) && s'.value == s.value + 1)
            && (if Holding(s'.pc[t]) then s'.holder == Some(t)
                else s'.holder == (if Holding(s.pc[t]) then None else s.holder))
  {
  }

  lemma ExclusiveStep(s: State, t: Tid, a: Action)
    requires Inv(s) && Enabled(s, t, a)
    ensures Exclusive(Step(s, t, a)) && HolderOk(Step(s, t, a))
  {
    var s' := Step(s, t, a);
    OwnThread(s, t, a);
    ShapedStep(s, t, a);
    forall u | 0 <= u < |s.pc| && u != t
      ensures Critical(s'.pc[u]) == Critical(s.pc[u]) && Holding(s'.pc[u]) == Holding(s.pc[u])
    {
      OtherThread(s, t, a, u);
    }
    ExclusiveFrame(s, s', t);
    HolderFrame(s, s', t);
  }

  lemma ExclusiveFrame(s: State, s': State, t: Tid)
    requires Exclusive(s) && |s'.pc| == |s.pc| && t < |s.pc|
    requires forall u :: 0 <= u < |s.pc| && u != t ==> Critical(s'.pc[u]) == Critical(s.pc[u])
    requires s'.value + (if Critical(s'.pc[t]) then 1 else 0) == s.value + (if Critical(s.pc[t]) then 1 else 0)
    ensures Exclusive(s')
  {
    if s'.value == 0 && !Critical(s'.pc[t]) {
      var o :| 0 <= o < |s.pc| && Critical(s.pc[o]);
      assert o != t && Critical(s'.pc[o]);
    }
  }

  lemma HolderFrame(s: State, s': State, t: Tid)
    requires HolderOk(s) && |s'.pc| == |s.pc| && t < |s.pc| && Exclusive(s')
    requires forall u :: 0 <= u < |s.pc| && u != t ==> Holding(s'.pc[u]) == Holding(s.pc[u])
    requires if Holding(s'.pc[t]) then s'.holder == Some(t)
             else s'.holder == (if Holding(s.pc[t]) then None else s.holder)
    ensures HolderOk(s')
  {
    forall u | 0 <= u < |s'.pc| && Holding(s'.pc[u])
      ensures s'.holder == Some(u)
    {
      if Holding(s'.pc[t]) { assert Critical(s'.pc[t]) && Critical(s'.pc[u]); }
    }
  }

  lemma QueueStep(s: State, t: Tid, a: Action)
    requires Inv(s) && Enabled(s, t, a)
    ensures QueueOk(Step(s, t, a))
  {
    var s' := Step(s, t, a);
    ShapedStep(s, t, a);
    forall u | 0 <= u < |s.pc| && u != t
      ensures s'.pc[u] == s.pc[u] || (a.UpLock? && s.pc[u].LockQueued? && s'.pc[u].LockWoken?)
              || (!s.pc[u].LockQueued? && !s'.pc[u].LockQueued? && !s.pc[u].LockWoken?)
    {
      OtherThread(s, t, a, u);
    }
    if a.Acquire? {
      QueueAcquire(s, s', t);
    } else if a.UpLock? {
      QueueUp(s, s', t);
    } else {
      QueueFrame(s, s', t);
    }
  }

  lemma QueueAcquire(s: State, s': State, t: Tid)
    requires Shaped(s) && QueueOk(s) && Exclusive(s) && Enabled(s, t, Acquire) && s' == Step(s, t, Acquire)
    ensures QueueOk(s')
  {
    if s.value == 0 {
      assert s'.queue[|s.queue|] == t;
      forall u | 0 <= u < |s'.pc| && s'.pc[u].LockQueued?
        ensures u in s'.queue
      {
        if u != t { assert u in s.queue; }
      }
    }
  }

  lemma QueueUp(s: State, s': State, t: Tid)
    requires Shaped(s) && QueueOk(s) && Enabled(s, t, UpLock) && s' == Step(s, t, UpLock)
    ensures QueueOk(s')
  {
    if s.queue != [] {
      assert s'.pc[s.queue[0]].LockWoken?;
      forall u | 0 <= u < |s'.pc| && s'.pc[u].LockQueued?
        ensures u in s'.queue
      {
        assert u in s.queue;
      }
    }
  }

  lemma QueueFrame(s: State, s': State, t: Tid)
    requires Shaped(s) && QueueOk(s) && |s'.pc| == |s.pc| && t < |s.pc| && s'.queue == s.queue
    requires s'.value <= s.value
    requires !s.pc[t].LockQueued? && !s'.pc[t].LockQueued? && !s.pc[t].LockWoken?
    requires forall u :: 0 <= u < |s.pc| && u != t ==>
               s'.pc[u] == s.pc[u] || (!s.pc[u].LockQueued? && !s'.pc[u].LockQueued? && !s.pc[u].LockWoken?)
    ensures QueueOk(s')
  {
    if s.queue != [] && s'.value > 0 {
      var w :| 0 <= w < |s.pc| && s.pc[w].LockWoken?;
      assert s'.pc[w].LockWoken?;
    }
  }

  // ----- conditions

  /** Steps of the lock leave the waiters' bookkeeping alone. */
  predicate SameWait(p: PC, q: PC)
  {
    && Waiting(p) == Waiting(q) && (Waiting(p) ==> p.c == q.c)
    && p.WaitQueued? == q.WaitQueued? && p.WaitWoken? == q.WaitWoken?
    && (p.Signalling? || q.Signalling? ==> p == q)
  }

  lemma CondFrame(s: State, s': State)
    requires Shaped(s) && Shaped(s') && CondOk(s) && CountsOk(s)
    requires s'.own == s.own && s'.conds == s.conds && s'.signals == s.signals && s'.passes == s.passes
    requires |s'.pc| == |s.pc| && forall u :: 0 <= u < |s.pc| ==> SameWait(s.pc[u], s'.pc[u])
    ensures CondOk(s') && CountsOk(s')
  {
    forall u
      ensures Pending(s', u) <==> Pending(s, u)
    {
      PendingFrame(s, s', u);
      PendingFrame(s', s, u);
    }
  }

  lemma PendingFrame(s: State, s': State, u: Tid)
    requires |s'.pc| == |s.pc| && forall u :: 0 <= u < |s.pc| ==> (s.pc[u].Signalling? ==> s.pc[u] == s'.pc[u])
    ensures Pending(s, u) ==> Pending(s', u)
  {
    if Pending(s, u) {
      var v :| 0 <= v < |s.pc| && s.pc[v] == Signalling(u);
      assert s'.pc[v] == Signalling(u);
    }
  }

  lemma WaitEnterStep(s: State, s': State, t: Tid, c: Cond)
    requires Shaped(s) && CondOk(s) && CountsOk(s) && Enabled(s, t, WaitEnter(c))
    requires s' == Step(s, t, WaitEnter(c)) && Shaped(s')
    ensures CondOk(s') && CountsOk(s')
  {
    assert s'.conds[c][|s.conds[c]|] == t;
    forall d, i | 0 <= d < |s'.conds| && 0 <= i < |s'.conds[d]|
      ensures var u := s'.conds[d][i]; u < |s'.pc| && Waiting(s'.pc[u]) && s'.pc[u].c == d
    {
      if d == c && i == |s.conds[c]| { } else { assert s'.conds[d][i] == s.conds[d][i]; }
    }
    forall u | 0 <= u < |s'.pc| && Waiting(s'.pc[u])
      ensures WaiterOk(s', u)
    {
      PendingFrame(s, s', u);
      PendingFrame(s', s, u);
      if u == t {
        assert Listed(s', t, c);
      } else {
        assert WaiterOk(s, u);
        assert Listed(s', u, s.pc[u].c) <==> Listed(s, u, s.pc[u].c);
      }
    }
  }

  lemma OwnDownStep(s: State, s': State, t: Tid)
    requires Shaped(s) && CondOk(s) && CountsOk(s) && Enabled(s, t, OwnDown)
    requires s' == Step(s, t, OwnDown) && Shaped(s')
    ensures CondOk(s') && CountsOk(s')
  {
    assert WaiterOk(s, t);
    forall d, i | 0 <= d < |s'.conds| && 0 <= i < |s'.conds[d]|
      ensures var u := s'.conds[d][i]; u < |s'.pc| && Waiting(s'.pc[u]) && s'.pc[u].c == d
    {
      var u := s.conds[d][i];
      if u == t { assert Listed(s, t, d); }
    }
    forall u | 0 <= u < |s'.pc| && s'.pc[u].Signalling?
      ensures Waiting(s'.pc[s'.pc[u].w])
    {
      assert Pending(s, s.pc[u].w);
    }
    forall u | 0 <= u < |s'.pc| && Waiting(s'.pc[u])
      ensures WaiterOk(s', u)
    {
      PendingFrame(s, s', u);
      PendingFrame(s', s, u);
      assert WaiterOk(s, u);
    }
  }

  lemma SignalPopStep(s: State, s': State, t: Tid, c: Cond)
    requires Shaped(s) && CondOk(s) && CountsOk(s) && Enabled(s, t, SignalPop(c))
    requires s' == Step(s, t, SignalPop(c)) && Shaped(s')
    ensures CondOk(s') && CountsOk(s')
  {
    if s.conds[c] != [] {
      var w := s.conds[c][0];
      assert Listed(s, w, c) && Waiting(s.pc[w]) && s.pc[w].c == c && WaiterOk(s, w);
      assert s'.pc[t] == Signalling(w);
      assert forall i :: 0 <= i < |s'.conds[c]| ==> s'.conds[c][i] == s.conds[c][i + 1];
      forall u | 0 <= u < |s'.pc| && Waiting(s'.pc[u])
        ensures WaiterOk(s', u)
      {
        assert WaiterOk(s, u);
        PendingFrame(s, s', u);
        PoppedOrPending(s, s', t, w, u);
        if u != w && Listed(s, u, s.pc[u].c) {
          var i :| 0 <= i < |s.conds[s.pc[u].c]| && s.conds[s.pc[u].c][i] == u;
          assert s.pc[u].c == c ==> s'.conds[c][i - 1] == u;
        }
      }
    }
  }

  lemma PoppedOrPending(s: State, s': State, t: Tid, w: Tid, u: Tid)
    requires t < |s.pc| && s'.pc == s.pc[t := Signalling(w)]
    ensures Pending(s', u) ==> u == w || Pending(s, u)
  {
    if Pending(s', u) {
      var v :| 0 <= v < |s'.pc| && s'.pc[v] == Signalling(u);
      if v != t { assert s.pc[v] == Signalling(u); }
    }
  }

  /** Only one thread can be between popping a waiter and upping its semaphore. */
  lemma OneSignaller(s: State, t: Tid, v: Tid)
    requires Shaped(s) && Exclusive(s) && 0 <= t < |s.pc| && 0 <= v < |s.pc|
    requires s.pc[t].Signalling? && s.pc[v].Signalling?
    ensures v == t
  {
    assert Critical(s.pc[v]) && Critical(s.pc[t]);
  }

  lemma SignalUpWaiter(s: State, s': State, t: Tid, u: Tid)
    requires Shaped(s) && Exclusive(s) && CondOk(s) && Enabled(s, t, SignalUp)
    requires s' == Step(s, t, SignalUp) && Shaped(s')
    requires 0 <= u < |s'.pc| && Waiting(s'.pc[u])
    requires forall v :: 0 <= v < |s'.pc| ==> !s'.pc[v].Signalling?
    ensures WaiterOk(s', u)
  {
    var w := s.pc[t].w;
    assert WaiterOk(s, u);
    if u != w && Pending(s, u) {
      var v :| 0 <= v < |s.pc| && s.pc[v] == Signalling(u);
      OneSignaller(s, t, v);
    }
  }

  lemma SignalUpStep(s: State, s': State, t: Tid)
    requires Shaped(s) && Exclusive(s) && CondOk(s) && CountsOk(s) && Enabled(s, t, SignalUp)
    requires s' == Step(s, t, SignalUp) && Shaped(s')
    ensures CondOk(s') && CountsOk(s')
  {
    var w := s.pc[t].w;
    assert Pending(s, w) && WaiterOk(s, w) && w != t;
    forall v | 0 <= v < |s'.pc|
      ensures !s'.pc[v].Signalling?
    {
      if s'.pc[v].Signalling? { OneSignaller(s, t, v); }
    }
    forall u | 0 <= u < |s'.pc| && Waiting(s'.pc[u])
      ensures WaiterOk(s', u)
    {
      SignalUpWaiter(s, s', t, u);
    }
  }

  /** The other actions change nobody's place in a condition's protocol. */
  lemma SameWaitStep(s: State, t: Tid, a: Action)
    requires Inv(s) && Enabled(s, t, a) && Shaped(Step(s, t, a))
    requires !a.WaitEnter? && !a.OwnDown? && !a.SignalPop? && !a.SignalUp?
    ensures CondOk(Step(s, t, a)) && CountsOk(Step(s, t, a))
  {
    var s' := Step(s, t, a);
    forall u | 0 <= u < |s.pc|
      ensures SameWait(s.pc[u], s'.pc[u])
    {
      if u != t { OtherThread(s, t, a, u); }
    }
    CondFrame(s, s');
  }

  lemma CondStep(s: State, t: Tid, a: Action)
    requires Inv(s) && Enabled(s, t, a)
    ensures Shaped(Step(s, t, a)) && CondOk(Step(s, t, a)) && CountsOk(Step(s, t, a))
  {
    var s' := Step(s, t, a);
    ShapedStep(s, t, a);
    match a
    case WaitEnter(c) => WaitEnterStep(s, s', t, c);
    case OwnDown => OwnDownStep(s, s', t);
    case SignalPop(c) => SignalPopStep(s, s', t, c);
    case SignalUp => SignalUpStep(s, s', t);
    case _ => SameWaitStep(s, t, a);
  }

  lemma StepKeepsInv(s: State, t: Tid, a: Action)
    requires Inv(s) && Enabled(s, t, a)
    ensures Inv(Step(s, t, a))
  {
    CondStep(s, t, a);
    ExclusiveStep(s, t, a);
    QueueStep(s, t, a);
  }

  // ----- whole runs

  /** acts is a run from s to e: each action is taken by its thread when enabled. */
  ghost predicate Run(s: State, acts: seq<(Tid, Action)>, e: State)
    decreases |acts|
  {
    if acts == [] then e == s
    else
      && Shaped(s) && Enabled(s, acts[0].0, acts[0].1)
      && Run(Step(s, acts[0].0, acts[0].1), acts[1..], e)
  }

  lemma {:induction false} RunKeepsInv(s: State, acts: seq<(Tid, Action)>, e: State)
    requires Inv(s) && Run(s, acts, e)
    ensures Inv(e) && |e.pc| == |s.pc|
    decreases |acts|
  {
    if acts != [] {
      StepKeepsInv(s, acts[0].0, acts[0].1);
      ShapedStep(s, acts[0].0, acts[0].1);
      RunKeepsInv(Step(s, acts[0].0, acts[0].1), acts[1..], e);
    }
  }

  // ----- the lock's semaphore and the waiters' semaphores are those of Semaphore

  /** x is the lock's semaphore in state s; its counters of downs and ups are its own. */
  ghost predicate IsLock(x: S.Sema, s: State)
  {
    && x.value == s.value && x.waiters == s.queue
    && (forall u :: u in x.woken <==> 0 <= u < |s.pc| && s.pc[u].LockWoken?)
  }

  /** What an action of t does to the lock's semaphore. */
  function LockActs(s: State, t: Tid, a: Action): seq<S.Action>
  {
    match a
    case Acquire => [if t < |s.pc| && s.pc[t].LockWoken? then S.Recheck(t) else S.Down(t)]
    case TryAcquire => [S.TryDown]
    case UpLock => [S.Up]
    case _ => []
  }

  lemma LockDown(x: S.Sema, s: State, t: Tid, a: Action)
    requires Shaped(s) && QueueOk(s) && (a.Acquire? || a.TryAcquire?) && Enabled(s, t, a) && IsLock(x, s)
    ensures var b := LockActs(s, t, a)[0]; S.Enabled(x, b) && IsLock(S.Step(x, b), Step(s, t, a))
  {
  }

  lemma LockUp(x: S.Sema, s: State, t: Tid)
    requires Shaped(s) && QueueOk(s) && Enabled(s, t, UpLock) && IsLock(x, s)
    ensures IsLock(S.Step(x, S.Up), Step(s, t, UpLock))
  {
  }

  lemma LockStep(x: S.Sema, s: State, t: Tid, a: Action)
    requires Shaped(s) && QueueOk(s) && CondOk(s) && Enabled(s, t, a) && IsLock(x, s)
    ensures LockActs(s, t, a) == [] ==> IsLock(x, Step(s, t, a))
    ensures LockActs(s, t, a) != [] ==>
              var b := LockActs(s, t, a)[0]; S.Enabled(x, b) && IsLock(S.Step(x, b), Step(s, t, a))
  {
    match a
    case Acquire => LockDown(x, s, t, a);
    case TryAcquire => LockDown(x, s, t, a);
    case UpLock => LockUp(x, s, t);
    case _ =>
      forall u | 0 <= u < |s.pc|
        ensures Step(s, t, a).pc[u].LockWoken? == s.pc[u].LockWoken?
      {
        if u != t { OtherThread(s, t, a, u); }
      }
  }

  /** All that a run does to the lock's semaphore, in order. */
  ghost function LockRun(s: State, acts: seq<(Tid, Action)>): seq<S.Action>
    decreases |acts|
  {
    if acts == [] || !Shaped(s) || !Enabled(s, acts[0].0, acts[0].1) then []
    else LockActs(s, acts[0].0, acts[0].1) + LockRun(Step(s, acts[0].0, acts[0].1), acts[1..])
  }

  /** Every run of lock and condition steps is a run of the lock's semaphore, and so all that holds
      of those holds of the lock. In particular it is handed on in the order of going to sleep. */
  lemma {:induction false} LockIsSemaphore(x: S.Sema, s: State, acts: seq<(Tid, Action)>, e: State) returns (y: S.Sema)
    requires Inv(s) && Run(s, acts, e) && IsLock(x, s)
    ensures S.Run(x, LockRun(s, acts), y) && IsLock(y, e)
    ensures S.Woken(x, LockRun(s, acts)) + e.queue == s.queue + S.Slept(x, LockRun(s, acts))
    decreases |acts|
  {
    y := x;
    if acts != [] {
      var (t, a) := acts[0];
      var b, s' := LockActs(s, t, a), Step(s, t, a);
      LockStep(x, s, t, a);
      StepKeepsInv(s, t, a);
      y := LockIsSemaphore(if b == [] then x else S.Step(x, b[0]), s', acts[1..], e);
      assert b == [] ==> b + LockRun(s', acts[1..]) == LockRun(s', acts[1..]);
      assert b != [] ==> (b + LockRun(s', acts[1..]))[1..] == LockRun(s', acts[1..]);
    }
    S.FifoWakeup(x, LockRun(s, acts), y);
  }

  /** x is the semaphore of u's cond_wait in state s. */
  ghost predicate IsOwn(x: S.Sema, s: State, u: Tid)
    requires u < |s.pc| == |s.own|
  {
    && x.value == s.own[u]
    && x.waiters == (if s.pc[u].WaitQueued? then [u] else [])
    && x.woken == (if s.pc[u].WaitWoken? then {u} else {})
  }

  /** cond_wait makes a semaphore of value 0 and its owner downs it. */
  lemma OwnerSteps(x: S.Sema, s: State, t: Tid, a: Action)
    requires Shaped(s) && CondOk(s) && Enabled(s, t, a) && IsOwn(x, s, t) && Shaped(Step(s, t, a))
    ensures t < |Step(s, t, a).pc| && var s' := Step(s, t, a);
            if a.WaitEnter? then IsOwn(S.Init(0), s', t)
            else if a.OwnDown? then
              var b := if s.pc[t].WaitWoken? then S.Recheck(t) else S.Down(t);
              S.Enabled(x, b) && IsOwn(S.Step(x, b), s', t)
            else IsOwn(x, s', t)
  {
    if a.UpLock? && s.queue != [] { assert s.queue[0] < |s.pc|; }
  }

  /** Signallers up it, and nobody else touches it. */
  lemma OthersSteps(x: S.Sema, s: State, t: Tid, a: Action, u: Tid)
    requires Shaped(s) && QueueOk(s) && CondOk(s) && Enabled(s, t, a) && u < |s.pc| && u != t && IsOwn(x, s, u)
    requires Shaped(Step(s, t, a)) && |Step(s, t, a).pc| == |s.pc|
    ensures IsOwn(if a.SignalUp? && s.pc[t].w == u then S.Step(x, S.Up) else x, Step(s, t, a), u)
  {
    OtherThread(s, t, a, u);
  }

  ghost function InsideThreads(s: State): set<Tid>
  {
    set t | 0 <= t < |s.pc| && Critical(s.pc[t])
  }

  lemma ExclusiveCount(e: State)
    requires Exclusive(e) && HolderOk(e)
    ensures e.value + |InsideThreads(e)| == 1
    ensures e.holder.Some? ==> InsideThreads(e) == {e.holder.value}
  {
    if e.value == 0 {
      var o :| 0 <= o < |e.pc| && Critical(e.pc[o]);
      assert InsideThreads(e) == {o};
    } else {
      assert InsideThreads(e) == {};
    }
  }

  /** Mutual exclusion over every interleaving: the lock's value plus the number of threads
      inside is 1, and the holder, once set, is the thread inside. */
  lemma MutualExclusion(threads: nat, conds: nat, acts: seq<(Tid, Action)>, e: State)
    requires Run(Init(threads, conds), acts, e)
    ensures e.value + |InsideThreads(e)| == 1
    ensures e.holder.Some? ==> InsideThreads(e) == {e.holder.value}
  {
    RunKeepsInv(Init(threads, conds), acts, e);
    ExclusiveCount(e);
  }

  /** No lost wake-up on the lock: a sleeper next to a free lock means another thread is awake
      in lock_acquire and will take it. */
  lemma LockWakesUp(threads: nat, conds: nat, acts: seq<(Tid, Action)>, e: State)
    requires Run(Init(threads, conds), acts, e)
    ensures e.value > 0 && (exists t :: 0 <= t < |e.pc| && e.pc[t].LockQueued?) ==>
              exists t :: 0 <= t < |e.pc| && e.pc[t].LockWoken? && Enabled(e, t, Acquire)
  {
    RunKeepsInv(Init(threads, conds), acts, e);
    if e.value > 0 && exists t :: 0 <= t < |e.pc| && e.pc[t].LockQueued? {
      var w :| 0 <= w < |e.pc| && e.pc[w].LockWoken?;
      assert Enabled(e, w, Acquire);
    }
  }

  /** No signal is lost and none is invented: in every reachable state a thread asleep in
      cond_wait is still on its condition's list or is being signalled at this moment; a raised
      semaphore belongs to a waiter that is awake; and waits completed equal signals received,
      except for a signal that has arrived but has not been consumed yet. */
  lemma SignalsNotLost(threads: nat, conds: nat, acts: seq<(Tid, Action)>, e: State, t: Tid)
    requires Run(Init(threads, conds), acts, e) && t < threads
    ensures Shaped(e) && t < |e.pc|
    ensures e.pc[t].WaitQueued? ==> Listed(e, t, e.pc[t].c) || Pending(e, t)
    ensures Waiting(e.pc[t]) && e.own[t] > 0 ==> !e.pc[t].WaitQueued? && !Listed(e, t, e.pc[t].c)
    ensures e.signals[t] == e.passes[t] + (if Waiting(e.pc[t]) then e.own[t] else 0)
    ensures e.passes[t] <= e.signals[t] <= e.passes[t] + 1
  {
    RunKeepsInv(Init(threads, conds), acts, e);
    if Waiting(e.pc[t]) { assert WaiterOk(e, t); }
  }

  /** While t owns the lock's unit, a step of another thread changes neither the conditions' lists
      nor the signals given, nor where t is. */
  lemma OthersStandBy(s: State, t: Tid, u: Tid, a: Action)
    requires Inv(s) && t < |s.pc| && Critical(s.pc[t]) && u != t && Enabled(s, u, a)
    ensures var e := Step(s, u, a); e.conds == s.conds && e.signals == s.signals && |e.pc| == |s.pc| && e.pc[t] == s.pc[t]
  {
    assert !Critical(s.pc[u]);
    OtherThread(s, u, a, t);
  }

  /** Between popping w and upping its semaphore, whatever the other threads do: the signaller
      stays put, w keeps waiting, and no list and no signal count changes. */
  lemma {:induction false} SignalPending(s: State, t: Tid, w: Tid, acts: seq<(Tid, Action)>, e: State)
    requires Inv(s) && t < |s.pc| && s.pc[t] == Signalling(w) && Run(s, acts, e) && (t, SignalUp) !in acts
    ensures Inv(e) && |e.pc| == |s.pc| && e.pc[t] == Signalling(w) && e.conds == s.conds && e.signals == s.signals
    ensures w < |e.pc| && Waiting(e.pc[w]) && e.own[w] == 0 && e.passes[w] == e.signals[w]
    decreases |acts|
  {
    if acts == [] {
      assert Pending(s, w) && WaiterOk(s, w);
    } else {
      var (u, a) := acts[0];
      assert acts[0] in acts && (u == t ==> a == SignalUp);
      OthersStandBy(s, t, u, a);
      StepKeepsInv(s, u, a);
      SignalPending(Step(s, u, a), t, w, acts[1..], e);
    }
  }

  /** A signal with a waiter releases exactly the oldest one, under every interleaving of the other
      threads with its two steps and whatever the waiter is doing between queueing and sleeping.
      Until the second step t is the signaller of w and only w is off the list; that step raises
      w's semaphore and gives w, and nobody else, a signal, so w is not asleep. */
  lemma SignalReleasesOldest(s: State, t: Tid, c: Cond, acts: seq<(Tid, Action)>, e: State)
    requires Inv(s) && Enabled(s, t, SignalPop(c)) && s.conds[c] != []
    requires Run(Step(s, t, SignalPop(c)), acts, e) && (t, SignalUp) !in acts
    ensures Inv(e) && |e.pc| == |s.pc| && Enabled(e, t, SignalUp) && e.pc[t] == Signalling(s.conds[c][0])
    ensures e.conds == s.conds[c := s.conds[c][1..]] && e.signals == s.signals
    ensures Released(e, Step(e, t, SignalUp), t, s.conds[c][0])
  {
    var w := s.conds[c][0];
    StepKeepsInv(s, t, SignalPop(c));
    SignalPending(Step(s, t, SignalPop(c)), t, w, acts, e);
    UpReleases(e, t, w);
  }

  /** From e to f, t has given waiter w, and nobody else, the signal it lacked. */
  ghost predicate Released(e: State, f: State, t: Tid, w: Tid)
  {
    && w < |e.pc| == |f.pc| && |e.own| == |e.pc| && |e.signals| == |e.pc|
    && Waiting(e.pc[w]) && e.own[w] == 0 && Waiting(f.pc[w]) && !f.pc[w].WaitQueued?
    && f.own == e.own[w := 1] && f.signals == e.signals[w := e.signals[w] + 1] && f.conds == e.conds
    && (forall u :: 0 <= u < |e.pc| && u != w && u != t ==> f.pc[u] == e.pc[u])
  }

  lemma UpReleases(e: State, t: Tid, w: Tid)
    requires Inv(e) && t < |e.pc| && e.pc[t] == Signalling(w)
    ensures Enabled(e, t, SignalUp) && Released(e, Step(e, t, SignalUp), t, w)
  {
    assert Pending(e, w) && WaiterOk(e, w);
  }

  // ----- order of waiting

  /** The threads that call cond_wait on c, in that order. */
  function Entered(acts: seq<(Tid, Action)>, c: Cond): seq<Tid>
  {
    if acts == [] then [] else (if acts[0].1 == WaitEnter(c) then [acts[0].0] else []) + Entered(acts[1..], c)
  }

  /** The waiter whose semaphore t is about to up once it has signalled c. */
  ghost function Picked(s: State, t: Tid, a: Action, c: Cond): seq<Tid>
    requires Shaped(s) && Enabled(s, t, a)
  {
    if a == SignalPop(c) && Step(s, t, a).pc[t].Signalling? then [Step(s, t, a).pc[t].w] else []
  }

  /** The waiters picked by the signals on c in a run, in that order. */
  ghost function PickedIn(s: State, acts: seq<(Tid, Action)>, c: Cond): seq<Tid>
    decreases |acts|
  {
    if acts == [] || !Shaped(s) || !Enabled(s, acts[0].0, acts[0].1) then []
    else Picked(s, acts[0].0, acts[0].1, c) + PickedIn(Step(s, acts[0].0, acts[0].1), acts[1..], c)
  }

  lemma ListStep(s: State, t: Tid, a: Action, c: Cond)
    requires Shaped(s) && Enabled(s, t, a) && c < |s.conds|
    ensures c < |Step(s, t, a).conds|
    ensures Picked(s, t, a, c) + Step(s, t, a).conds[c] == s.conds[c] + if a == WaitEnter(c) then [t] else []
  {
    if a.SignalPop? && s.conds[a.c] != [] { assert [s.conds[a.c][0]] + s.conds[a.c][1..] == s.conds[a.c]; }
  }

  /** First come, first signalled, over every run: the waiters picked by signals on c, and then those
      still listed, are those listed at the start and then those that have called cond_wait since. */
  lemma {:induction false} SignalsInOrder(s: State, acts: seq<(Tid, Action)>, e: State, c: Cond)
    requires Run(s, acts, e) && c < |s.conds|
    ensures c < |e.conds| && PickedIn(s, acts, c) + e.conds[c] == s.conds[c] + Entered(acts, c)
    decreases |acts|
  {
    if acts != [] {
      var (t, a) := acts[0];
      var m, rest := Step(s, t, a), acts[1..];
      ListStep(s, t, a, c);
      SignalsInOrder(m, rest, e, c);
      var enters := if a == WaitEnter(c) then [t] else [];
      CatAssoc(Picked(s, t, a, c), PickedIn(m, rest, c), e.conds[c]);
      CatAssoc(Picked(s, t, a, c), m.conds[c], Entered(rest, c));
      CatAssoc(s.conds[c], enters, Entered(rest, c));
    }
  }

  // ----- what the calls end with

  /** lock_acquire and lock_try_acquire get the lock at once if and only if nobody has it; otherwise
      the first queues last and the second leaves everything as it was. */
  lemma AcquireOutcome(s: State, t: Tid)
    requires Inv(s)
    ensures Enabled(s, t, Acquire) ==>
              var e := Step(s, t, Acquire);
              if InsideThreads(s) == {} then InsideThreads(e) == {t} && e.queue == s.queue
              else InsideThreads(e) == InsideThreads(s) && e.queue == s.queue + [t]
    ensures Enabled(s, t, TryAcquire) ==>
              if InsideThreads(s) == {} then InsideThreads(Step(s, t, TryAcquire)) == {t} else Step(s, t, TryAcquire) == s
  {
    ExclusiveCount(s);
  }

  /** Then the caller becomes the holder, inside alone, and can release the lock again. */
  lemma AcquireEnds(s: State, t: Tid)
    requires Inv(s) && Enabled(s, t, SetHolder)
    ensures var e := Step(s, t, SetHolder);
            e.holder == Some(t) && e.pc[t].Inside? && InsideThreads(e) == {t} && Enabled(e, t, ClearHolder)
  {
    StepKeepsInv(s, t, SetHolder);
    ExclusiveCount(Step(s, t, SetHolder));
  }

  /** lock_release, whatever other threads do between its two steps, ends with the caller outside and
      the lock free. */
  lemma ReleaseEnds(s: State, t: Tid, acts: seq<(Tid, Action)>, e: State)
    requires Inv(s) && t < |s.pc| && s.pc[t].Inside? && Run(Step(s, t, ClearHolder), acts, e) && (t, UpLock) !in acts
    ensures Inv(e) && e.holder == None && Enabled(e, t, UpLock)
    ensures var f := Step(e, t, UpLock); InsideThreads(f) == {} && f.value == 1 && f.pc[t].Outside?
  {
    StepKeepsInv(s, t, ClearHolder);
    StaysReleasing(Step(s, t, ClearHolder), t, acts, e);
    StepKeepsInv(e, t, UpLock);
    ExclusiveCount(e);
    ExclusiveCount(Step(e, t, UpLock));
  }

  lemma {:induction false} StaysReleasing(s: State, t: Tid, acts: seq<(Tid, Action)>, e: State)
    requires Inv(s) && t < |s.pc| && s.pc[t].Releasing? && s.holder == None && Run(s, acts, e) && (t, UpLock) !in acts
    ensures Inv(e) && t < |e.pc| && e.pc[t].Releasing? && e.holder == None
    decreases |acts|
  {
    if acts != [] {
      var (u, a) := acts[0];
      assert acts[0] in acts && (u == t ==> a == UpLock);
      OthersStandBy(s, t, u, a);
      StepKeepsInv(s, u, a);
      assert !Critical(s.pc[u]);
      StaysReleasing(Step(s, u, a), t, acts[1..], e);
    }
  }

  /** A thread that is not asleep can go on, and one that holds the lock can release it, wait on any
      condition and signal any. */
  lemma AwakeGoesOn(s: State, t: Tid)
    requires t < |s.pc| && !s.pc[t].LockQueued? && !s.pc[t].WaitQueued?
    ensures s.pc[t].Outside? ==> Enabled(s, t, Acquire) && Enabled(s, t, TryAcquire)
    ensures s.pc[t].Inside? ==> Enabled(s, t, ClearHolder) && forall c :: 0 <= c < |s.conds| ==> Enabled(s, t, WaitEnter(c)) && Enabled(s, t, SignalPop(c))
    ensures exists a :: Enabled(s, t, a)
  {
    assert || Enabled(s, t, Acquire) || Enabled(s, t, SetHolder) || Enabled(s, t, ClearHolder)
           || Enabled(s, t, UpLock) || Enabled(s, t, OwnDown) || Enabled(s, t, SignalUp);
  }

  /** In cond_wait, up to and including the call of lock_acquire at its end. */
  predicate InWait(p: PC)
  {
    Waiting(p) || p.Relock? || p.LockQueued? || p.LockWoken? || p.Acquired?
  }

  lemma InWaitStep(s: State, t: Tid, u: Tid, a: Action)
    requires Inv(s) && t < |s.pc| && InWait(s.pc[t]) && Enabled(s, u, a) && (u, a) != (t, SetHolder)
    ensures t < |Step(s, u, a).pc| && InWait(Step(s, u, a).pc[t])
  {
    ShapedStep(s, u, a);
    if u != t { OtherThread(s, u, a, t); }
  }

  /** cond_wait returns only with the lock: under every interleaving, from queueing on, t is in
      cond_wait until the step that makes it the holder again. */
  lemma {:induction false} WaitReturnsWithLock(s: State, t: Tid, acts: seq<(Tid, Action)>, e: State)
    requires Inv(s) && t < |s.pc| && InWait(s.pc[t]) && Run(s, acts, e) && (t, SetHolder) !in acts
    ensures Inv(e) && t < |e.pc| && InWait(e.pc[t])
    ensures Enabled(e, t, SetHolder) ==> Step(e, t, SetHolder).holder == Some(t) && InsideThreads(Step(e, t, SetHolder)) == {t}
    decreases |acts|
  {
    if acts != [] {
      var (u, a) := acts[0];
      assert acts[0] in acts;
      InWaitStep(s, t, u, a);
      StepKeepsInv(s, u, a);
      WaitReturnsWithLock(Step(s, u, a), t, acts[1..], e);
    } else if Enabled(e, t, SetHolder) {
      AcquireEnds(e, t);
    }
  }

  /** The first k waiters of s on c have had one signal each, and nobody else any. */
  ghost predicate Signalled(s: State, e: State, c: Cond, k: nat)
    requires c < |s.conds| && k <= |s.conds[c]|
  {
    && |e.signals| == |s.signals|
    && forall u {:trigger e.signals[u]} :: 0 <= u < |s.signals| ==>
         e.signals[u] == s.signals[u] + if u in s.conds[c][..k] then 1 else 0
  }

  /** t has popped k waiters off the list of c since s, and is in between two signals or has still
      to up the semaphore of the last one popped. */
  ghost predicate Broadcasting(s: State, e: State, t: Tid, c: Cond, k: nat)
  {
    && c < |s.conds| && k <= |s.conds[c]| && e.conds == s.conds[c := s.conds[c][k..]] && t < |e.pc|
    && (|| (e.pc[t].Inside? && Signalled(s, e, c, k))
        || (k > 0 && e.pc[t] == Signalling(s.conds[c][k - 1]) && Signalled(s, e, c, k - 1)))
  }

  lemma BroadcastPop(s: State, m: State, t: Tid, c: Cond, k: nat)
    requires Broadcasting(s, m, t, c, k) && Inv(m) && Enabled(m, t, SignalPop(c)) && k < |s.conds[c]|
    ensures Broadcasting(s, Step(m, t, SignalPop(c)), t, c, k + 1)
  {
    assert m.conds[c] == s.conds[c][k..] && s.conds[c][k..][1..] == s.conds[c][k + 1..];
  }

  lemma BroadcastUp(s: State, m: State, t: Tid, c: Cond, k: nat)
    requires Inv(s) && Broadcasting(s, m, t, c, k) && Inv(m) && Enabled(m, t, SignalUp)
    ensures Broadcasting(s, Step(m, t, SignalUp), t, c, k)
  {
    var e, w, l := Step(m, t, SignalUp), m.pc[t].w, s.conds[c];
    assert l[..k] == l[..k - 1] + [w];
    assert w !in l[..k - 1];
  }

  /** One step of anybody during a broadcast. */
  lemma BroadcastStep(s: State, m: State, t: Tid, c: Cond, k: nat, u: Tid, a: Action) returns (k': nat)
    requires Inv(s) && Broadcasting(s, m, t, c, k) && Inv(m) && Enabled(m, u, a)
    requires u == t ==> a == SignalPop(c) || a == SignalUp
    ensures Broadcasting(s, Step(m, u, a), t, c, k')
  {
    k' := k;
    if u != t {
      OthersStandBy(m, t, u, a);
    } else if a == SignalUp {
      BroadcastUp(s, m, t, c, k);
    } else if k < |s.conds[c]| {
      BroadcastPop(s, m, t, c, k);
      k' := k + 1;
    }
  }

  lemma {:induction false} BroadcastRun(s: State, m: State, t: Tid, c: Cond, k: nat, acts: seq<(Tid, Action)>, e: State) returns (k': nat)
    requires Inv(s) && Broadcasting(s, m, t, c, k) && Inv(m) && Run(m, acts, e)
    requires forall a :: a in acts && a.0 == t ==> a.1 == SignalPop(c) || a.1 == SignalUp
    ensures Broadcasting(s, e, t, c, k')
    decreases |acts|
  {
    k' := k;
    if acts != [] {
      assert acts[0] in acts;
      var k1 := BroadcastStep(s, m, t, c, k, acts[0].0, acts[0].1);
      StepKeepsInv(m, acts[0].0, acts[0].1);
      k' := BroadcastRun(s, Step(m, acts[0].0, acts[0].1), t, c, k1, acts[1..], e);
    }
  }

  /** cond_broadcast, under every interleaving: if t, holding the lock, does nothing but signal c
      until the list is empty, then exactly the threads that were on the list have been signalled,
      once each, and no other list has changed. */
  lemma BroadcastReleasesAll(s: State, t: Tid, c: Cond, acts: seq<(Tid, Action)>, e: State)
    requires Inv(s) && Enabled(s, t, SignalPop(c)) && Run(s, acts, e)
    requires forall a :: a in acts && a.0 == t ==> a.1 == SignalPop(c) || a.1 == SignalUp
    requires t < |e.pc| && e.pc[t].Inside? && c < |e.conds| && e.conds[c] == []
    ensures e.conds == s.conds[c := []] && |e.signals| == |s.signals|
    ensures forall u {:trigger e.signals[u]} :: 0 <= u < |s.signals| ==>
              e.signals[u] == s.signals[u] + if u in s.conds[c] then 1 else 0
  {
    assert s.conds[c][..0] == [] && s.conds[c][0..] == s.conds[c];
    var k := BroadcastRun(s, s, t, c, 0, acts, e);
    assert k == |s.conds[c]|;
    assert s.conds[c][..k] == s.conds[c];
  }

  /** t is in the cond_wait that it entered when its counts were `before`, or has left it. */
  ghost predicate OneWait(before: nat, e: State, t: Tid)
  {
    && Shaped(e) && t < |e.pc|
    && e.passes[t] == before + if Waiting(e.pc[t]) then 0 else 1
  }

  lemma OneWaitStep(before: nat, m: State, t: Tid, u: Tid, a: Action)
    requires Inv(m) && OneWait(before, m, t) && Enabled(m, u, a) && (u == t ==> !a.WaitEnter?)
    ensures OneWait(before, Step(m, u, a), t)
  {
    ShapedStep(m, u, a);
    if u != t { OtherThread(m, u, a, t); }
  }

  lemma {:induction false} OneWaitRun(before: nat, m: State, t: Tid, acts: seq<(Tid, Action)>, e: State)
    requires Inv(m) && OneWait(before, m, t) && Run(m, acts, e) && forall a :: a in acts && a.0 == t ==> !a.1.WaitEnter?
    ensures Inv(e) && OneWait(before, e, t)
    decreases |acts|
  {
    if acts != [] {
      var (u, a) := acts[0];
      assert acts[0] in acts;
      StepKeepsInv(m, u, a);
      OneWaitStep(before, m, t, u, a);
      OneWaitRun(before, Step(m, u, a), t, acts[1..], e);
    }
  }

  /** t, which had received n signals when it queued, is past its semaphore and has received one
      more; or is waiting with none more, listed or about to be signalled; or is waiting with one
      more, and then it is awake and gets past at its next look. */
  ghost predicate WaitState(e: State, t: Tid, n: nat)
  {
    && Shaped(e) && t < |e.pc|
    && if !Waiting(e.pc[t]) then e.passes[t] == n + 1 && e.signals[t] == n + 1
       else
         && e.passes[t] == n
         && if e.signals[t] == n then Listed(e, t, e.pc[t].c) || Pending(e, t)
            else e.signals[t] == n + 1 && !e.pc[t].WaitQueued? && !Listed(e, t, e.pc[t].c) && e.own[t] == 1
  }

  lemma WaitOutcome(before: nat, e: State, t: Tid)
    requires Inv(e) && OneWait(before, e, t)
    ensures WaitState(e, t, before)
  {
    if Waiting(e.pc[t]) { assert WaiterOk(e, t); }
  }

  /** One call of cond_wait, from queueing on, under every interleaving: t is past its own semaphore
      if and only if it was signalled since it queued and has looked again, and it was signalled
      exactly once; no wait ends without a signal, and no signal is lost. */
  lemma WaitEndsIffSignalled(s: State, t: Tid, c: Cond, acts: seq<(Tid, Action)>, e: State)
    requires Inv(s) && Enabled(s, t, WaitEnter(c)) && Run(Step(s, t, WaitEnter(c)), acts, e)
    requires forall a :: a in acts && a.0 == t ==> !a.1.WaitEnter?
    ensures Inv(e) && WaitState(e, t, s.signals[t])
    ensures Enabled(e, t, OwnDown) ==> (Waiting(Step(e, t, OwnDown).pc[t]) <==> e.signals[t] == s.signals[t])
  {
    StepKeepsInv(s, t, WaitEnter(c));
    OneWaitRun(s.passes[t], Step(s, t, WaitEnter(c)), t, acts, e);
    WaitOutcome(s.passes[t], e, t);
    if Enabled(e, t, OwnDown) {
      StepKeepsInv(e, t, OwnDown);
      OneWaitStep(s.passes[t], e, t, t, OwnDown);
      LookAgain(e, t);
    }
  }

  lemma LookAgain(e: State, t: Tid)
    requires Inv(e) && Enabled(e, t, OwnDown)
    ensures Waiting(Step(e, t, OwnDown).pc[t]) <==> e.own[t] == 0
    ensures e.signals[t] == e.passes[t] + e.own[t]
  {
    assert WaiterOk(e, t);
  }
}
