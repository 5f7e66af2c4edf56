/**
 What each step of the thread machine does, field by field (src/environment.rs, src/environment/mutex.rs,
 src/libc/pthread/cond.rs, src/libc/semaphore.rs): what becomes of a thread that the scheduler looks at, and what an
 action changes before control goes on.
 */
module ThreadSteps {
  import opened Common
  import opened GuestMemory
  import opened ThreadModel
  import opened Threads
  import opened ThreadRuns
  import opened MutualExclusion

  // ----- a candidate

  /** Of the threads only `t` has changed, and only what it is blocked by. */
  predicate OnlyBlock(w: World, w2: World, t: nat, block: Block) {
    && t < |w.threads| == |w2.threads| && w2.threads[t] == w.threads[t].(blockedBy := block)
    && forall u :: 0 <= u < |w.threads| && u != t ==> w2.threads[u] == w.threads[u]
  }

  /** Thread `t` goes on. */
  predicate GoesOn(w: World, w2: World, t: nat) {
    OnlyBlock(w, w2, t, NotBlocked) && w2.mutexCount == w.mutexCount
      && w2.current == w.current && w2.cpu == w.cpu && w2.running == w.running
  }

  /** Mutex `m` is `t`'s, locked once, and has one waiter less if it had any; all others are as they were. */
  predicate Given(w: World, w2: World, t: nat, m: nat) {
    && m in w.mutexes && w2.mutexes.Keys == w.mutexes.Keys
    && (forall k :: k in w.mutexes && k != m ==> w2.mutexes[k] == w.mutexes[k])
    && w2.mutexes[m].kind == w.mutexes[m].kind && w2.mutexes[m].locked == Some(Lock(t, 1))
    && w2.mutexes[m].waitingCount + 1 == if w.mutexes[m].waitingCount == 0 then 1 else w.mutexes[m].waitingCount
  }

  /** Condition variable `c` has become `cond`; all others are as they were. */
  predicate OnlyCond(w: World, w2: World, c: nat, cond: CondObject) {
    && c in w.conditions && w2.conditions.Keys == w.conditions.Keys && w2.conditions[c] == cond
    && forall k :: k in w.conditions && k != c ==> w2.conditions[k] == w.conditions[k]
  }

  /** `r` are the members of `s` other than `x`, in their order. */
  ghost predicate Leaves(s: seq<nat>, x: nat, r: seq<nat>)
    decreases |s|
  {
    if s == [] then r == []
    else if s[0] == x then Leaves(s[1..], x, r)
    else r != [] && r[0] == s[0] && Leaves(s[1..], x, r[1..])
  }

  lemma {:induction false} WithoutLeaves(s: seq<nat>, x: nat)
    ensures Leaves(s, x, Without(s, x))
    decreases |s|
  {
    if s != [] {
      WithoutFirst(s, x);
      WithoutLeaves(s[1..], x);
      assert s[0] != x ==> Without(s, x)[1..] == Without(s[1..], x);
      assert s[0] == x ==> Without(s, x) == Without(s[1..], x);
    }
  }

  lemma {:induction false} WithoutFirst(s: seq<nat>, x: nat)
    requires s != []
    ensures Without(s, x) == (if s[0] == x then [] else [s[0]]) + Without(s[1..], x)
    decreases |s|
  {
    if |s| == 1 {
      assert s[..0] == [] && s[1..] == [];
    } else {
      WithoutFirst(s[..|s| - 1], x);
      assert s[..|s| - 1][1..] == s[1..][..|s| - 2] && s[1..][|s| - 2] == s[|s| - 1];
    }
  }

  /** Waiting for a mutex: given to the thread if it is free. */
  ghost predicate MutexTried(w: World, t: nat, m: nat, r: Attempt) {
    if m !in w.mutexes then r.Failure?
    else if !Free(w, m) then r == Passed(w, None)
    else
      && r.Chosen? && GoesOn(w, r.world, t) && Given(w, r.world, t, m)
      && r.world == w.(threads := r.world.threads, mutexes := r.world.mutexes)
  }

  /**
   Waiting on a condition variable: signalled, first among those and with the mutex free, the thread gets the mutex.
   Else, when its time is over, it leaves the queues, is noted as timed out, and gets the mutex or waits for that.
   */
  ghost predicate ConditionTried(w: World, t: nat, c: nat, deadline: Option<nat>, now: nat, r: Attempt) {
    if c !in w.conditions || w.conditions[c].mutex.None? then r.Failure?
    else
      var cond, m := w.conditions[c], w.conditions[c].mutex.value;
      var first := cond.waking != [] && cond.waking[0] == t;
      if first && Free(w, m) then
        && r.Chosen? && GoesOn(w, r.world, t) && Given(w, r.world, t, m)
        && c in r.world.conditions && OnlyCond(w, r.world, c, cond.(waking := r.world.conditions[c].waking))
        && cond.waking == [t] + r.world.conditions[c].waking
        && r.world.semaphores == w.semaphores && r.world.memory == w.memory
      else if first && m !in w.mutexes then r.Failure?
      else if deadline.None? then r == Passed(w, None)
      else if deadline.value > now then r == Passed(w, deadline)
      else if t in cond.timedOut || m !in w.mutexes then r.Failure?
      else
        && !r.Failure?
        && c in r.world.conditions
        && OnlyCond(w, r.world, c, CondObject(r.world.conditions[c].waiting, r.world.conditions[c].waking, cond.mutex,
             cond.timedOut + {t}))
        && Leaves(cond.waiting, t, r.world.conditions[c].waiting)
        && Leaves(cond.waking, t, r.world.conditions[c].waking)
        && r.world.semaphores == w.semaphores && r.world.memory == w.memory
        && if Free(w, m) then r.Chosen? && GoesOn(w, r.world, t) && Given(w, r.world, t, m)
           else
             && r.Passed? && r.wake.None? && OnlyBlock(w, r.world, t, Mutex(m))
             && r.world == w.(threads := r.world.threads, conditions := r.world.conditions)
  }

  /** Every reason to wait that the scheduler knows. */
  ghost predicate Tried(w: World, t: nat, now: nat, r: Attempt)
    requires t < |w.threads|
  {
    if !w.threads[t].active then r == Passed(w, None)
    else match w.threads[t].blockedBy
      case NotBlocked => r == Chosen(w)
      case Sleeping(until) =>
        if until > now then r == Passed(w, Some(until))
        else r.Chosen? && GoesOn(w, r.world, t) && r.world == w.(threads := r.world.threads)
      case Mutex(m) => MutexTried(w, t, m, r)
      case Semaphore(s) =>
        if s !in w.semaphores then r.Failure?
        else if w.semaphores[s] <= 0 then r == Passed(w, None)
        else
          && r.Chosen? && GoesOn(w, r.world, t)
          && r.world == w.(threads := r.world.threads, semaphores := w.semaphores[s := w.semaphores[s] - 1])
      case Condition(c, deadline) => ConditionTried(w, t, c, deadline, now, r)
      case Joining(j, ptr) =>
        if j < |w.threads| && w.threads[j].active then r == Passed(w, None)
        else if j >= |w.threads| || (ptr != 0 && w.threads[j].returnValue.None?) then r.Failure?
        else
          && r.Chosen? && GoesOn(w, r.world, t)
          && r.world == w.(threads := r.world.threads,
               memory := if ptr == 0 then w.memory else w.memory[ptr := w.threads[j].returnValue.value])
      case Suspended(count, _) => if count > 0 then r == Passed(w, None) else r.Failure?
  }

  lemma {:induction false} GrantGives(w: World, t: nat, m: nat)
    requires t < |w.threads|
    ensures Free(w, m) ==>
      && Grant(w, t, m).Chosen? && var w2 := Grant(w, t, m).world;
      && GoesOn(w, w2, t) && Given(w, w2, t, m) && w2 == w.(threads := w2.threads, mutexes := w2.mutexes)
    ensures m !in w.mutexes ==> Grant(w, t, m).Failure?
  {
  }

  lemma {:induction false} ConditionOutcome(w: World, t: nat, c: nat, deadline: Option<nat>, now: nat)
    requires t < |w.threads| && w.threads[t].blockedBy == Condition(c, deadline)
    ensures ConditionTried(w, t, c, deadline, now, TryCondition(w, t, c, deadline, now))
  {
    if c in w.conditions && w.conditions[c].mutex.Some? {
      var cond, m := w.conditions[c], w.conditions[c].mutex.value;
      if cond.waking != [] && cond.waking[0] == t && Free(w, m) {
        SignalledOutcome(w, t, c, deadline, now);
      } else if deadline.Some? && deadline.value <= now {
        OverdueOutcome(w, t, c, deadline.value, now);
      }
    }
  }

  lemma {:induction false} SignalledOutcome(w: World, t: nat, c: nat, deadline: Option<nat>, now: nat)
    requires t < |w.threads| && c in w.conditions && w.conditions[c].mutex.Some?
    requires w.conditions[c].waking != [] && w.conditions[c].waking[0] == t && Free(w, w.conditions[c].mutex.value)
    ensures ConditionTried(w, t, c, deadline, now, TryCondition(w, t, c, deadline, now))
  {
    var cond := w.conditions[c];
    var popped := w.(conditions := w.conditions[c := cond.(waking := cond.waking[1..])]);
    GrantGives(popped, t, w.conditions[c].mutex.value);
    assert TryCondition(w, t, c, deadline, now) == Grant(popped, t, w.conditions[c].mutex.value);
    hide Grant, TryCondition;
  }

  lemma {:induction false} OverdueOutcome(w: World, t: nat, c: nat, deadline: nat, now: nat)
    requires t < |w.threads| && c in w.conditions && w.conditions[c].mutex.Some? && deadline <= now
    requires !(w.conditions[c].waking != [] && w.conditions[c].waking[0] == t && Free(w, w.conditions[c].mutex.value))
    ensures ConditionTried(w, t, c, Some(deadline), now, TryCondition(w, t, c, Some(deadline), now))
  {
    var cond, m := w.conditions[c], w.conditions[c].mutex.value;
    WithoutLeaves(cond.waiting, t);
    WithoutLeaves(cond.waking, t);
    GrantGives(TimeOut(w, t, c), t, m);
    hide Grant, Leaves, Without;
  }

  /** What becomes of a thread that the scheduler looks at. */
  lemma {:induction false} CandidateOutcome(w: World, t: nat, now: nat)
    requires t < |w.threads|
    ensures Tried(w, t, now, Try(w, t, now))
  {
    match w.threads[t].blockedBy
    case Mutex(m) => GrantGives(w, t, m);
      hide Grant;
    case Condition(c, deadline) =>
      ConditionOutcome(w, t, c, deadline, now);
      hide TryCondition, ConditionTried;
    case _ => hide TryCondition, Grant;
  }

  // ----- an action that keeps control

  function Suspensions(b: Block): nat {
    if b.Suspended? then b.count else 0
  }

  /** The threads waiting on a condition variable, in the order in which they will go on when all are signalled. */
  function Queue(cond: CondObject): seq<nat> {
    cond.waking + cond.waiting
  }

  /** Of the semaphores only `s` has changed, to `units`. */
  predicate OnlySem(w: World, w2: World, s: nat, units: int) {
    && w2 == w.(semaphores := w2.semaphores) && s in w2.semaphores && w2.semaphores.Keys == w.semaphores.Keys + {s}
    && w2.semaphores[s] == units && forall k :: k in w.semaphores && k != s ==> w2.semaphores[k] == w.semaphores[k]
  }

  /** Suspending and resuming: `change` is added to the suspensions, and what the thread waits for meanwhile stays. */
  predicate Resuspended(w: World, w2: World, t: nat, change: int)
    requires t < |w.threads|
  {
    && t < |w2.threads| && var b, b2 := w.threads[t].blockedBy, w2.threads[t].blockedBy;
    && OnlyBlock(w, w2, t, b2) && w2 == w.(threads := w2.threads)
    && if Suspensions(b) + change > 0 then b2 == Suspended(Suspensions(b) + change, Base(b)) else b2 == Base(b)
  }

  /** Signalling: the first `n` of the queue are woken and nobody's place in it changes. */
  predicate Signalled(w: World, w2: World, c: nat, n: nat) {
    && c in w.conditions && c in w2.conditions && w2 == w.(conditions := w2.conditions)
    && OnlyCond(w, w2, c, w.conditions[c].(waiting := w2.conditions[c].waiting, waking := w2.conditions[c].waking))
    && Queue(w2.conditions[c]) == Queue(w.conditions[c]) && |w2.conditions[c].waking| == n
  }

  /** The thread that has been made is ready to run on its own stack; the others are as they were. */
  predicate Made(w: World, w2: World, stackAddr: nat) {
    && w2 == w.(threads := w2.threads) && |w2.threads| == |w.threads| + 1
    && (forall u :: 0 <= u < |w.threads| ==> w2.threads[u] == w.threads[u])
    && var made := w2.threads[|w.threads|];
    && made.active && made.blockedBy.NotBlocked? && made.returnValue.None? && made.stack == Some(stackAddr)
    && made.host == Some(Coroutine(|w.threads|, Ordinary)) && made.guest.Some?
  }

  ghost predicate Acted(w: World, a: Action, w2: World)
    requires w.current < |w.threads| && Allowed(w, a)
  {
    match a
    case Create(stackAddr) => Made(w, w2, stackAddr)
    case Suspend(t) => Resuspended(w, w2, t, 1)
    case Resume(t) => if w.threads[t].blockedBy.Suspended? then Resuspended(w, w2, t, -1) else w2 == w
    case SemInit(s, value) => OnlySem(w, w2, s, if s in w.semaphores then w.semaphores[s] else value)
    case SemPost(s) => OnlySem(w, w2, s, w.semaphores[s] + 1)
    case SemWait(s) => w.semaphores[s] > 0 && OnlySem(w, w2, s, w.semaphores[s] - 1)
    case SemTryWait(s) => OnlySem(w, w2, s, if w.semaphores[s] > 0 then w.semaphores[s] - 1 else w.semaphores[s])
    case InitMutex(kind) =>
      && w2 == w.(mutexes := w2.mutexes, mutexCount := w.mutexCount + 1)
      && w2.mutexes.Keys == w.mutexes.Keys + {w.mutexCount} && w2.mutexes[w.mutexCount] == MutexObject(kind, 0, None)
      && forall k :: k in w.mutexes && k != w.mutexCount ==> w2.mutexes[k] == w.mutexes[k]
    case InitCond(c) =>
      && c in w2.conditions && w2 == w.(conditions := w2.conditions)
      && w2.conditions.Keys == w.conditions.Keys + {c} && w2.conditions[c] == CondObject([], [], None, {})
      && forall k :: k in w.conditions && k != c ==> w2.conditions[k] == w.conditions[k]
    case Wait(_, _, _) => w2 == w
    case Signal(c) =>
      var n := |w.conditions[c].waking|;
      Signalled(w, w2, c, if w.conditions[c].waiting == [] then n else n + 1)
    case Broadcast(c) => Signalled(w, w2, c, |Queue(w.conditions[c])|)
    case Compute(regs) => w2.cpu == regs && w2.(cpu := w.cpu) == w
    case Lock_(m) => w2 == w.(mutexes := w2.mutexes)
    case Unlock(m) => w2 == w.(mutexes := w2.mutexes)
    case _ => true
  }

  lemma {:induction false} SemOutcome(w: World, a: Action, clocks: seq<Clock>)
    requires w.current < |w.threads| && Allowed(w, a) && !Dispatches(w, a)
    requires a.SemInit? || a.SemPost? || a.SemWait? || a.SemTryWait?
    ensures Perform(w, a, clocks).Resumed? && Acted(w, a, Perform(w, a, clocks).world)
  {
    hide Yield;
    assert a.sem in w.semaphores ==> w.semaphores.Keys == w.semaphores.Keys + {a.sem};
  }

  lemma {:induction false} CondOutcome(w: World, a: Action, clocks: seq<Clock>)
    requires w.current < |w.threads| && Allowed(w, a) && (a.InitCond? || a.Signal? || a.Broadcast?)
    ensures Perform(w, a, clocks).Resumed? && Acted(w, a, Perform(w, a, clocks).world)
  {
    hide Awaited;
    match a
    case Broadcast(c) => assert Queue(WakeAll(w, c).conditions[c]) == Queue(w.conditions[c]);
    case Signal(c) => assert Queue(SignalOne(w, c).conditions[c]) == Queue(w.conditions[c]);
    case _ =>
  }

  lemma {:induction false} SuspensionOutcome(w: World, a: Action, clocks: seq<Clock>)
    requires w.current < |w.threads| && Allowed(w, a) && !Dispatches(w, a) && Perform(w, a, clocks).Resumed?
    requires a.Suspend? || a.Resume?
    ensures Acted(w, a, Perform(w, a, clocks).world)
  {
    hide Yield;
  }

  /** What an action that keeps control has done; for locks see `LockOutcome` and `UnlockOutcome`. */
  lemma {:induction false} ActionOutcome(w: World, a: Action, clocks: seq<Clock>)
    requires w.current < |w.threads| && Allowed(w, a) && !Dispatches(w, a) && Perform(w, a, clocks).Resumed?
    ensures Acted(w, a, Perform(w, a, clocks).world)
  {
    if a.SemInit? || a.SemPost? || a.SemWait? || a.SemTryWait? {
      hide *;
      SemOutcome(w, a, clocks);
    } else if a.InitCond? || a.Signal? || a.Broadcast? {
      hide *;
      CondOutcome(w, a, clocks);
    } else if a.Suspend? || a.Resume? {
      hide *;
      SuspensionOutcome(w, a, clocks);
    } else {
      hide Yield, Dispatch;
    }
  }

  // ----- an action that gives up control

  /** What the coroutine of the current thread does when it is resumed. */
  function FrameFor(a: Action): Frame {
    if a.Wait? then CondWait(a.cond, a.mutex, a.deadline.Some?) else Ordinary
  }

  /**
   The state in which the executor takes over: a thread that ends keeps what it returns; any other has its reason to
   wait. One that waits on a condition variable stands last in its queue, not yet woken.
   */
  ghost predicate Handed(w: World, a: Action, v: World)
    requires w.current < |w.threads|
  {
    && v.current == w.current && v.cpu == w.cpu && v.semaphores == w.semaphores && v.memory == w.memory
    && v.mutexCount == w.mutexCount && w.current < |v.threads|
    && (if a.Exit? then
          var now, was := v.threads[w.current], w.threads[w.current];
          && |v.threads| == |w.threads| && v.running.None?
          && !now.active && now.returnValue == Some(a.value) && now.stack.None? && now.blockedBy == was.blockedBy
          && forall u :: 0 <= u < |w.threads| && u != w.current ==> v.threads[u] == w.threads[u]
        else
          && OnlyBlock(w, v, w.current, v.threads[w.current].blockedBy)
          && v.running.Some? && w.running.Some? && v.running.value == Coroutine(w.running.value.thread, FrameFor(a)))
    && (if a.Wait? then
          && a.cond in w.conditions && a.cond in v.conditions
          && var was, now := w.conditions[a.cond], v.conditions[a.cond];
          && OnlyCond(w, v, a.cond, CondObject(now.waiting, was.waking, Some(a.mutex), was.timedOut))
          && Queue(now) == Queue(was) + [w.current]
        else v.conditions == w.conditions)
    && match a
       case Sleep(until) => v.threads[w.current].blockedBy == Sleeping(until)
       case Join(j, ptr) => v.threads[w.current].blockedBy == Joining(j, ptr)
       case SemWait(s) => s in w.semaphores && w.semaphores[s] <= 0 && v.threads[w.current].blockedBy == Semaphore(s)
       case Lock_(m) => v.threads[w.current].blockedBy == Mutex(m)
       case Wait(c, _, deadline) => v.threads[w.current].blockedBy == Condition(c, deadline)
       case Suspend(_) => v.threads[w.current].blockedBy == Suspended(1, NotBlocked)
       case _ => v.threads[w.current].blockedBy == NotBlocked
  }

  lemma {:induction false} WaitOutcome(w: World, a: Action, v: World)
    requires w.current < |w.threads| && Allowed(w, a) && a.Wait? && w.running.Some? && UnlockMutex(w, a.mutex).Done?
    requires Enqueue(UnlockMutex(w, a.mutex).world, a.cond, a.mutex).Some?
    requires v == Blocked(Enqueue(UnlockMutex(w, a.mutex).world, a.cond, a.mutex).value, Condition(a.cond, a.deadline),
      FrameFor(a))
    ensures Handed(w, a, v)
  {
    assert Queue(v.conditions[a.cond]) == Queue(w.conditions[a.cond]) + [w.current];
  }

  lemma {:induction false} YieldOutcome(w: World, a: Action, v: World)
    requires w.current < |w.threads| && Allowed(w, a) && Dispatches(w, a) && !a.Wait? && !a.Exit? && w.running.Some?
    requires v == Blocked(if a.Lock_? then LockMutex(w, a.mutex).world else w, BlockFor(a), Ordinary)
    ensures Handed(w, a, v)
  {
  }

  /** What an action that gives up control leaves to the executor. */
  lemma {:induction false} HandedOutcome(w: World, a: Action, clocks: seq<Clock>) returns (v: World)
    requires Running(w) && w.current < |w.threads| && Allowed(w, a) && Dispatches(w, a)
    ensures Perform(w, a, clocks) == Dispatch(v, clocks) && Handed(w, a, v)
  {
    CurrentExists(w);
    if a.Lock_? {
      hide Running, Dispatch, WellBlocked, Handed;
      v := Blocked(LockMutex(w, a.mutex).world, Mutex(a.mutex), Ordinary);
      YieldOutcome(w, a, v);
    } else if a.Wait? {
      hide Running, Dispatch, WellBlocked, Handed, UnlockMutex;
      WaitHandsOver(w, a.cond, a.mutex, a.deadline, clocks);
      v := Blocked(Enqueue(UnlockMutex(w, a.mutex).world, a.cond, a.mutex).value, Condition(a.cond, a.deadline),
        FrameFor(a));
      WaitOutcome(w, a, v);
    } else if a.Exit? {
      hide Running, Dispatch, WellBlocked, Awaited;
      StackIsThere(w);
      v := Finish(w, a.value);
    } else {
      hide Running, Dispatch, WellBlocked, Handed;
      v := Blocked(w, BlockFor(a), Ordinary);
      YieldOutcome(w, a, v);
    }
  }

  // ----- what fails

  /**
   The coroutine in hand is that of the current thread, which is not blocked; and if it returns from a condition wait,
   the variable is there and has not timed out a wait without a deadline.
   */
  predicate MayGoOn(w: World) {
    && w.current < |w.threads| && w.threads[w.current].blockedBy == NotBlocked
    && w.running.Some? && w.running.value.thread == w.current
    && match w.running.value.frame
       case Ordinary => true
       case CondWait(c, _, timed) => c in w.conditions && (w.current in w.conditions[c].timedOut ==> timed)
  }

  /** A thread goes on exactly if it may; one that returns from a condition wait is no longer noted as timed out. */
  lemma {:induction false} GoesOnIff(w: World)
    ensures if !MayGoOn(w) then GoOn(w).Crashed?
      else
        && GoOn(w).Resumed? && var w2 := GoOn(w).world;
        && w2.running == Some(Coroutine(w.current, Ordinary))
        && w2 == w.(running := w2.running, conditions := w2.conditions)
        && match w.running.value.frame
           case Ordinary => w2.conditions == w.conditions
           case CondWait(c, _, _) =>
             OnlyCond(w, w2, c, w.conditions[c].(timedOut := w.conditions[c].timedOut - {w.current}))
  {
  }

  /** The other thread can be switched to, and this one has been left in the CPU, with its coroutine unless it ended. */
  predicate MaySwitch(w: World, t: nat) {
    && t < |w.threads| && w.current < |w.threads| && t != w.current
    && w.threads[t].active && w.threads[t].guest.Some? && w.threads[t].host.Some?
    && w.threads[w.current].guest.None? && (w.threads[w.current].active ==> w.running.Some?)
  }

  /** Switching succeeds exactly then, and exchanges registers and coroutine of the two threads and nothing else. */
  lemma {:induction false} SwitchesIff(w: World, t: nat)
    ensures SwitchThread(w, t).Some? <==> MaySwitch(w, t)
    ensures MaySwitch(w, t) ==>
      var w2 := SwitchThread(w, t).value;
      && w2 == w.(threads := w2.threads, cpu := w2.cpu, running := w2.running, current := t)
      && Some(w2.cpu) == w.threads[t].guest && w2.running == w.threads[t].host
      && |w2.threads| == |w.threads|
      && w2.threads[t] == w.threads[t].(guest := None, host := None)
      && w2.threads[w.current] == w.threads[w.current].(guest := Some(w.cpu), host := w.running)
      && forall u :: 0 <= u < |w.threads| && u != t && u != w.current ==> w2.threads[u] == w.threads[u]
  {
  }

  /** Yielding fails, before anything else, exactly for a thread that is blocked already or has no coroutine in hand. */
  lemma {:induction false} YieldsIff(w: World, block: Block, frame: Frame, clocks: seq<Clock>)
    requires w.current < |w.threads|
    ensures if w.threads[w.current].blockedBy == NotBlocked && w.running.Some? then
        Yield(w, block, frame, clocks) == Dispatch(Blocked(w, block, frame), clocks)
      else Yield(w, block, frame, clocks).Crashed?
  {
    hide Dispatch;
  }

  /** Of the actions that keep control only resuming fails, for a thread that is suspended zero times. */
  lemma {:induction false} ActionFails(w: World, a: Action, clocks: seq<Clock>)
    requires w.current < |w.threads| && Allowed(w, a) && !Dispatches(w, a) && !(a.Suspend? && a.thread == w.current)
    ensures Perform(w, a, clocks).Crashed? <==>
      a.Resume? && w.threads[a.thread].blockedBy.Suspended? && Suspensions(w.threads[a.thread].blockedBy) == 0
  {
    hide Dispatch, Yield, Awaited;
  }

  /** A thread can end only once its stack is freed, and wait only with the mutex that others wait with, if any. */
  lemma {:induction false} EndingFails(w: World, value: nat, clocks: seq<Clock>, c: nat, m: nat)
    requires w.current < |w.threads|
    ensures w.current != 0 && w.threads[w.current].stack.None? ==> Perform(w, Exit(value), clocks).Crashed?
    ensures c in w.conditions ==> (Enqueue(w, c, m).None? <==>
      Queue(w.conditions[c]) != [] && w.conditions[c].mutex != Some(m))
  {
    hide Dispatch;
  }
}
