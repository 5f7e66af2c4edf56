/**
 What scheduling does to what threads wait for, followed over whole runs: locks are granted only when
 free, semaphore units are conserved, and a thread that can run is not kept waiting for more than a round.
 */
module ThreadRuns {
  import opened Common
  import opened ThreadModel
  import opened Threads
  import opened Scheduling

  // ----- effects of scheduling

  /**
   What a thread waits for changes in one way only: a timed condition wait that is over becomes a wait for
   the mutex.
   */
  predicate WaitKept(w: World, w2: World, u: nat)
    requires u < |w.threads| == |w2.threads|
  {
    var a, b := w.threads[u].blockedBy, w2.threads[u].blockedBy;
    a == b || (a.Condition? && a.deadline.Some? && a.cond in w.conditions && w.conditions[a.cond].mutex.Some?
      && b == Mutex(w.conditions[a.cond].mutex.value))
  }

  ghost predicate WaitsKept(w: World, w2: World, except: int) {
    |w2.threads| == |w.threads| && forall u: nat :: u < |w.threads| ==>
      w2.threads[u].active == w.threads[u].active && (u != except ==> WaitKept(w, w2, u))
  }

  ghost predicate PassEffect(w: World, w2: World) {
    && w2.semaphores == w.semaphores && w2.mutexes == w.mutexes && w2.current == w.current && WaitsKept(w, w2, -1)
    && w.conditions.Keys == w2.conditions.Keys && forall c :: c in w.conditions ==>
      w2.conditions[c].mutex == w.conditions[c].mutex
  }

  /** The mutex a thread needs in order to go on. */
  predicate NeedsMutex(w: World, t: nat, m: nat)
    requires t < |w.threads|
  {
    match w.threads[t].blockedBy
    case Mutex(k) => k == m
    case Condition(c, _) => c in w.conditions && w.conditions[c].mutex == Some(m)
    case _ => false
  }

  /** Locks stay with their owners; a new one goes to `t`, which needed it, and was free. */
  ghost predicate LocksGranted(w: World, w2: World, t: nat)
    requires t < |w.threads|
  {
    w2.mutexes.Keys == w.mutexes.Keys && forall m :: m in w.mutexes ==>
      || w2.mutexes[m].locked == w.mutexes[m].locked
      || (w.mutexes[m].locked.None? && w2.mutexes[m].locked == Some(Lock(t, 1)) && NeedsMutex(w, t, m))
  }

  /** One unit of the semaphore that `t` waits for, if any, is taken. */
  ghost predicate UnitsTaken(w: World, w2: World, t: nat)
    requires t < |w.threads|
  {
    match w.threads[t].blockedBy
    case Semaphore(s) => s in w.semaphores && w.semaphores[s] > 0
      && w2.semaphores == w.semaphores[s := w.semaphores[s] - 1]
    case _ => w2.semaphores == w.semaphores
  }

  ghost predicate ChoiceEffect(w: World, w2: World, t: nat) {
    t < |w.threads| && WaitsKept(w, w2, t) && LocksGranted(w, w2, t) && UnitsTaken(w, w2, t)
  }

  ghost predicate AttemptEffect(w: World, t: nat, r: Attempt) {
    match r
    case Passed(w2, _) => PassEffect(w, w2)
    case Chosen(w2) => ChoiceEffect(w, w2, t)
    case Failure => true
  }

  lemma {:induction false} TryConditionEffect(w: World, t: nat, now: nat)
    requires t < |w.threads| && w.threads[t].blockedBy.Condition?
    ensures AttemptEffect(w, t, Try(w, t, now))
  {
  }

  lemma {:induction false} TryEffect(w: World, t: nat, now: nat)
    requires t < |w.threads|
    ensures AttemptEffect(w, t, Try(w, t, now))
  {
    if w.threads[t].blockedBy.Condition? {
      hide AttemptEffect, Try;
      TryConditionEffect(w, t, now);
    } else {
      hide TryCondition;
    }
  }

  lemma {:induction false} EffectAfterPass(w: World, v: World, w2: World, t: nat)
    requires PassEffect(w, v) && ChoiceEffect(v, w2, t)
    ensures ChoiceEffect(w, w2, t)
  {
    assert WaitKept(w, v, t);
  }

  lemma {:induction false} PassEffectTransitive(u: World, v: World, w: World)
    requires PassEffect(u, v) && PassEffect(v, w)
    ensures PassEffect(u, w)
  {
  }

  lemma {:induction false} PassEffectRefl(w: World)
    ensures PassEffect(w, w)
  {
  }

  ghost predicate ScheduleEffect(w: World, r: Scheduled) {
    match r
    case Nothing(w2, _) => PassEffect(w, w2)
    case Found(w2, t) => ChoiceEffect(w, w2, t)
    case Broken => true
  }

  lemma {:induction false} EffectsCompose(w: World, v: World, r: Scheduled)
    requires PassEffect(w, v) && ScheduleEffect(v, r)
    ensures ScheduleEffect(w, r)
  {
    hide PassEffect, ChoiceEffect;
    match r
    case Nothing(w2, _) => PassEffectTransitive(w, v, w2);
    case Found(w2, t) => EffectAfterPass(w, v, w2, t);
    case Broken =>
  }

  lemma {:induction false} ScanEffect(w: World, clock: Clock, i: nat, wake: Option<nat>)
    ensures ScheduleEffect(w, Scan(w, clock, i, wake))
    decreases |w.threads| - i
  {
    hide PassEffect, ChoiceEffect, Try, Candidate;
    PassEffectRefl(w);
    if i < |w.threads| {
      var t := Candidate(w, i);
      TryEffect(w, t, clock(i));
      var r := Try(w, t, clock(i));
      if r.Passed? {
        ScanEffect(r.world, clock, i + 1, Earlier(wake, r.wake));
        EffectsCompose(w, r.world, Scan(r.world, clock, i + 1, Earlier(wake, r.wake)));
      }
    }
  }

  lemma {:induction false} ScheduleHasEffect(w: World, clocks: seq<Clock>)
    ensures ScheduleEffect(w, Schedule(w, clocks))
    decreases |clocks|
  {
    hide PassEffect, ChoiceEffect, Scan;
    PassEffectRefl(w);
    if clocks != [] {
      ScanEffect(w, clocks[0], 0, None);
      var r := Scan(w, clocks[0], 0, None);
      if r.Nothing? {
        ScheduleHasEffect(r.world, clocks[1..]);
        EffectsCompose(w, r.world, Schedule(r.world, clocks[1..]));
      }
    }
  }

  /**
   The executor resumes the first ready thread, which takes just what it waited for; all other threads
   go on waiting, all other locks stay as they are.
   */
  lemma {:induction false} DispatchHasEffect(w: World, clocks: seq<Clock>)
    requires Contexts(w) && Waiting(w) && Dispatch(w, clocks).Resumed?
    ensures var w2 := Dispatch(w, clocks).world;
      w.threads != [] && Choice(w, clocks) == Some(w2.current) && ChoiceEffect(w, w2, w2.current)
  {
    hide Contexts, Waiting, Schedule, Choice;
    ScheduleChooses(w, clocks);
    ScheduleHasEffect(w, clocks);
    ScheduleKeeps(w, clocks);
    var Found(v, t) := Schedule(w, clocks);
    var w2 := Dispatch(w, clocks).world;
    if t != v.current {
      SwitchKeeps(v, t);
    }
    assert w2.current == t && w2.mutexes == v.mutexes && w2.semaphores == v.semaphores && |w2.threads| == |v.threads|;
    assert forall u: nat :: u < |v.threads| ==>
      w2.threads[u].blockedBy == v.threads[u].blockedBy && w2.threads[u].active == v.threads[u].active;
    SameWaitsLater(w, v, w2, t);
  }

  lemma {:induction false} SameWaitsLater(w: World, v: World, w2: World, t: nat)
    requires ChoiceEffect(w, v, t) && w2.mutexes == v.mutexes && w2.semaphores == v.semaphores
      && |w2.threads| == |v.threads|
    requires forall u: nat :: u < |v.threads| ==>
      w2.threads[u].blockedBy == v.threads[u].blockedBy && w2.threads[u].active == v.threads[u].active
    ensures ChoiceEffect(w, w2, t)
  {
    forall u: nat | u < |w.threads| && u != t
      ensures WaitKept(w, w2, u)
    {
      assert WaitKept(w, v, u);
    }
  }

  // ----- actions as seen by the executor

  /** Whether an action gives up control. */
  predicate Dispatches(w: World, a: Action)
    requires w.current < |w.threads| && Allowed(w, a)
  {
    match a
    case SemWait(s) => w.semaphores[s] <= 0
    case Lock_(m) => LockMutex(w, m).MustWait?
    case Wait(_, m, _) => UnlockMutex(w, m).Done?
    case Suspend(t) => t == w.current
    case _ => a.TimeSlice? || a.Sleep? || a.Exit? || a.Join?
  }

  /** What the current thread is blocked by when it gives up control. */
  function BlockFor(a: Action): Block {
    match a
    case Sleep(until) => Sleeping(until)
    case Join(j, ptr) => Joining(j, ptr)
    case SemWait(s) => Semaphore(s)
    case Lock_(m) => Mutex(m)
    case Wait(c, _, deadline) => Condition(c, deadline)
    case Suspend(_) => Suspended(1, NotBlocked)
    case _ => NotBlocked
  }

  /** The state in which the executor takes over. */
  ghost predicate HandsOver(w: World, a: Action, v: World) {
    && Contexts(v) && Waiting(v) && v.current == w.current < |w.threads| == |v.threads| && v.semaphores == w.semaphores
    && v.threads[w.current].blockedBy == BlockFor(a)
    && forall u: nat :: u < |w.threads| && u != w.current ==>
      v.threads[u].blockedBy == w.threads[u].blockedBy && v.threads[u].active == w.threads[u].active
  }

  lemma {:induction false} YieldHandsOver(w: World, a: Action, clocks: seq<Clock>, v: World)
    requires Running(w) && w.current < |w.threads| && Allowed(w, a)
    requires a.TimeSlice? || a.Sleep? || a.Join? || (a.SemWait? && w.semaphores[a.sem] <= 0)
      || (a.Suspend? && a.thread == w.current)
    requires w.running.Some? && v == Blocked(w, BlockFor(a), Ordinary)
    ensures Perform(w, a, clocks) == Dispatch(v, clocks) && HandsOver(w, a, v)
  {
    hide Contexts, Waiting, Dispatch;
    BlockingKeeps(w, BlockFor(a));
  }

  lemma {:induction false} LockHandsOver(w: World, m: nat, clocks: seq<Clock>)
    requires Running(w) && w.current < |w.threads| && m in w.mutexes && LockMutex(w, m).MustWait?
    ensures w.running.Some? && var v := Blocked(LockMutex(w, m).world, Mutex(m), Ordinary);
      Perform(w, Lock_(m), clocks) == Dispatch(v, clocks) && HandsOver(w, Lock_(m), v)
  {
    hide Contexts, Waiting, Dispatch;
    LockKeeps(w, m);
    BlockingKeeps(LockMutex(w, m).world, Mutex(m));
  }

  lemma {:induction false} WaitHandsOver(w: World, c: nat, m: nat, deadline: Option<nat>, clocks: seq<Clock>)
    requires Running(w) && w.current < |w.threads| && Allowed(w, Wait(c, m, deadline)) && UnlockMutex(w, m).Done?
    ensures var w2 := UnlockMutex(w, m).world;
      && w.running.Some? && Enqueue(w2, c, m).Some? && var v :=
        Blocked(Enqueue(w2, c, m).value, Condition(c, deadline), CondWait(c, m, deadline.Some?));
      Perform(w, Wait(c, m, deadline), clocks) == Dispatch(v, clocks) && HandsOver(w, Wait(c, m, deadline), v)
  {
    hide Contexts, Waiting, Dispatch;
    UnlockKeeps(w, m);
    WaitingKeeps(UnlockMutex(w, m).world, c, m, deadline);
  }

  lemma {:induction false} ExitHandsOver(w: World, value: nat)
    requires Running(w) && w.current != 0
    ensures HandsOver(w, Exit(value), Finish(w, value))
  {
    CurrentExists(w);
    FinishKeeps(w, value);
  }

  /** The mutexes when the executor takes over. */
  function HandedMutexes(w: World, a: Action): map<nat, MutexObject>
    requires w.current < |w.threads| && Allowed(w, a) && Dispatches(w, a)
  {
    match a
    case Lock_(m) => LockMutex(w, m).world.mutexes
    case Wait(_, m, _) => UnlockMutex(w, m).world.mutexes
    case _ => w.mutexes
  }

  /** An action that gives up control is the executor's turn from a state that keeps all invariants. */
  lemma {:induction false} PerformHandsOver(w: World, a: Action, clocks: seq<Clock>) returns (v: World)
    requires Running(w) && w.current < |w.threads| && Allowed(w, a) && Dispatches(w, a)
    ensures Perform(w, a, clocks) == Dispatch(v, clocks) && HandsOver(w, a, v)
    ensures v.mutexes == HandedMutexes(w, a)
  {
    CurrentExists(w);
    hide Running, LockMutex, UnlockMutex, Dispatch, HandsOver, WellBlocked;
    if a.Lock_? {
      LockHandsOver(w, a.mutex, clocks);
      v := Blocked(LockMutex(w, a.mutex).world, Mutex(a.mutex), Ordinary);
    } else if a.Wait? {
      WaitHandsOver(w, a.cond, a.mutex, a.deadline, clocks);
      v := Blocked(Enqueue(UnlockMutex(w, a.mutex).world, a.cond, a.mutex).value, Condition(a.cond, a.deadline),
        CondWait(a.cond, a.mutex, a.deadline.Some?));
    } else if a.Exit? {
      StackIsThere(w);
      ExitHandsOver(w, a.value);
      v := Finish(w, a.value);
    } else {
      v := Blocked(w, BlockFor(a), Ordinary);
      YieldHandsOver(w, a, clocks, v);
    }
  }

  lemma {:induction false} SyncActionStays(w: World, a: Action, clocks: seq<Clock>)
    requires w.current < |w.threads| && Allowed(w, a) && !Dispatches(w, a) && Perform(w, a, clocks).Resumed?
    requires !a.Create? && !a.Suspend? && !a.Resume?
    ensures var w2 := Perform(w, a, clocks).world; w2.current == w.current && w2.threads == w.threads
  {
    hide Yield, Dispatch;
  }

  /** Control is kept, and no thread's reason to wait changes, suspension apart. */
  ghost predicate Stayed(w: World, a: Action, w2: World) {
    && w2.current == w.current && |w.threads| <= |w2.threads| && (!a.Create? ==> |w2.threads| == |w.threads|)
    && forall u: nat :: u < |w.threads| ==>
      w2.threads[u].active == w.threads[u].active && Base(w2.threads[u].blockedBy) == Base(w.threads[u].blockedBy)
      && (a != Suspend(u) && w.threads[u].blockedBy.NotBlocked? ==> w2.threads[u].blockedBy.NotBlocked?)
  }

  lemma {:induction false} ReblockStays(w: World, a: Action, t: nat, b: Block)
    requires w.current < |w.threads| && t < |w.threads| && Base(b) == Base(w.threads[t].blockedBy)
    requires a == Suspend(t) || (a.Resume? && !w.threads[t].blockedBy.NotBlocked?)
    ensures Stayed(w, a, SetBlock(w, t, b))
  {
  }

  lemma {:induction false} SuspendStays(w: World, t: nat)
    requires t < |w.threads| && w.current < |w.threads| && WellBlocked(w, t)
    ensures Stayed(w, Suspend(t), SuspendOther(w, t))
  {
    hide Stayed, SetBlock;
    match w.threads[t].blockedBy
    case Suspended(count, previous) => ReblockStays(w, Suspend(t), t, Suspended(count + 1, previous));
    case b => ReblockStays(w, Suspend(t), t, Suspended(1, b));
  }

  lemma {:induction false} ResumeStays(w: World, t: nat)
    requires t < |w.threads| && w.current < |w.threads| && WellBlocked(w, t)
    ensures ResumeThread(w, t).Some? ==> Stayed(w, Resume(t), ResumeThread(w, t).value)
  {
    hide SetBlock;
    match w.threads[t].blockedBy
    case Suspended(count, previous) =>
      hide Stayed;
      ReblockStays(w, Resume(t), t, if count > 1 then Suspended(count - 1, previous) else previous);
    case b =>
  }

  /** An action that keeps control. */
  lemma {:induction false} PerformStays(w: World, a: Action, clocks: seq<Clock>)
    requires Running(w) && w.current < |w.threads| && Allowed(w, a) && !Dispatches(w, a)
      && Perform(w, a, clocks).Resumed?
    ensures Stayed(w, a, Perform(w, a, clocks).world)
  {
    if a.Suspend? || a.Resume? {
      assert WellBlocked(w, a.thread);
      hide Running, SuspendOther, ResumeThread, Stayed, Yield, WellBlocked;
      SuspendStays(w, a.thread);
      ResumeStays(w, a.thread);
    } else if a.Create? {
      hide Running;
    } else {
      hide Running, Perform;
      SyncActionStays(w, a, clocks);
    }
  }

  // ----- semaphores

  function Posted(a: Action, s: nat): nat {
    if a == SemPost(s) then 1 else 0
  }

  /**
   The thread that an action, ending in `w2`, gave a unit of `s`: the current one at once, or the one that
   was waiting.
   */
  function Receiver(w: World, a: Action, w2: World, s: nat): Option<nat> {
    if w.current >= |w.threads| || !Allowed(w, a) || w2.current >= |w.threads| then None
    else if (a == SemWait(s) || a == SemTryWait(s)) && w.semaphores[s] > 0 then Some(w.current)
    else if Dispatches(w, a) && (if w2.current == w.current then BlockFor(a) else w.threads[w2.current].blockedBy) ==
      Semaphore(s) then Some(w2.current)
    else None
  }

  function Count<T>(o: Option<T>): nat {
    if o.Some? then 1 else 0
  }

  lemma {:induction false} HandedOverSemaphores(w: World, a: Action, v: World, clocks: seq<Clock>, s: nat)
    requires HandsOver(w, a, v) && Dispatch(v, clocks).Resumed? && s in w.semaphores && Allowed(w, a)
      && Dispatches(w, a)
    ensures var w2 := Dispatch(v, clocks).world;
      && w2.current < |w.threads| && s in w2.semaphores
      && w2.semaphores[s] == w.semaphores[s] + Posted(a, s) - Count(Receiver(w, a, w2, s))
      && (w.semaphores[s] >= 0 ==> w2.semaphores[s] >= 0)
  {
    hide Contexts, Waiting, Dispatch, Choice, LocksGranted, WaitsKept;
    DispatchHasEffect(v, clocks);
  }

  /** Each action changes a semaphore by exactly what it posts and hands out, and never below zero. */
  lemma {:induction false} ActionConservesUnits(w: World, a: Action, clocks: seq<Clock>, s: nat)
    requires Running(w) && w.current < |w.threads| && Allowed(w, a) && Perform(w, a, clocks).Resumed?
      && s in w.semaphores
    ensures var w2 := Perform(w, a, clocks).world;
      && w2.current < |w.threads| && s in w2.semaphores
      && w2.semaphores[s] == w.semaphores[s] + Posted(a, s) - Count(Receiver(w, a, w2, s))
      && (w.semaphores[s] >= 0 ==> w2.semaphores[s] >= 0)
  {
    if Dispatches(w, a) {
      hide Running, Dispatch, HandsOver, Dispatches, Perform;
      var v := PerformHandsOver(w, a, clocks);
      HandedOverSemaphores(w, a, v, clocks, s);
    } else {
      hide Running, Perform;
      StayingConservesUnits(w, a, clocks, s);
    }
  }

  lemma {:induction false} StayingConservesUnits(w: World, a: Action, clocks: seq<Clock>, s: nat)
    requires w.current < |w.threads| && Allowed(w, a) && Perform(w, a, clocks).Resumed? && s in w.semaphores
      && !Dispatches(w, a)
    ensures var w2 := Perform(w, a, clocks).world;
      && w2.current < |w.threads| && s in w2.semaphores
      && w2.semaphores[s] == w.semaphores[s] + Posted(a, s) - Count(Receiver(w, a, w2, s))
      && (w.semaphores[s] >= 0 ==> w2.semaphores[s] >= 0)
  {
    hide Yield, Dispatch;
    if a.SemPost? || a.SemWait? || a.SemTryWait? || a.SemInit? {
      hide LockMutex, UnlockMutex, WaitFor, SuspendOther, ResumeThread;
    }
  }

  function PostsIn(turns: seq<Turn>, s: nat): nat {
    if turns == [] then 0 else Posted(turns[0].action, s) + PostsIn(turns[1..], s)
  }

  function GrantsIn(w: World, turns: seq<Turn>, worlds: seq<World>, s: nat): nat
    requires |worlds| == |turns|
    decreases |turns|
  {
    if turns == [] then 0
    else Count(Receiver(w, turns[0].action, worlds[0], s)) + GrantsIn(worlds[0], turns[1..], worlds[1..], s)
  }

  /** Over any run a semaphore's value is what it was, plus the posts, less the grants, and never negative. */
  lemma {:induction false} RunConservesUnits(w: World, turns: seq<Turn>, worlds: seq<World>, s: nat)
    requires Running(w) && Run(w, turns, worlds) && s in w.semaphores && w.semaphores[s] >= 0
    ensures var end := EndOf(w, worlds);
      s in end.semaphores && end.semaphores[s] == w.semaphores[s]
        + PostsIn(turns, s) - GrantsIn(w, turns, worlds, s) >= 0
    decreases |turns|
  {
    hide Running, Perform, Receiver;
    if turns != [] {
      PerformKeeps(w, turns[0].action, turns[0].clocks);
      ActionConservesUnits(w, turns[0].action, turns[0].clocks, s);
      RunConservesUnits(worlds[0], turns[1..], worlds[1..], s);
      assert EndOf(worlds[0], worlds[1..]) == EndOf(w, worlds);
    }
  }

  function GrantsTo(w: World, turns: seq<Turn>, worlds: seq<World>, s: nat, t: nat): nat
    requires |worlds| == |turns|
    decreases |turns|
  {
    if turns == [] then 0
    else
      (if Receiver(w, turns[0].action, worlds[0], s) == Some(t) then 1 else 0)
      + GrantsTo(worlds[0], turns[1..], worlds[1..], s, t)
  }

  lemma {:induction false} HandedOverWaiter(w: World, a: Action, v: World, clocks: seq<Clock>, s: nat, t: nat)
    requires HandsOver(w, a, v) && Dispatch(v, clocks).Resumed? && t < |w.threads| && t != w.current
      && Base(w.threads[t].blockedBy) == Semaphore(s)
    ensures var w2 := Dispatch(v, clocks).world;
      && w2.current < |w.threads| == |w2.threads|
      && (w2.current == t ==> w.threads[t].blockedBy == Semaphore(s))
      && (w2.current != t ==> Base(w2.threads[t].blockedBy) == Semaphore(s))
  {
    hide Contexts, Waiting, Dispatch, Choice, LocksGranted, UnitsTaken;
    DispatchHasEffect(v, clocks);
    ChosenIsReady(v, clocks);
    var w2 := Dispatch(v, clocks).world;
    assert w2.current != t ==> WaitKept(v, w2, t);
  }

  lemma {:induction false} WaiterStep(w: World, a: Action, clocks: seq<Clock>, s: nat, t: nat)
    requires Running(w) && w.current < |w.threads| && Allowed(w, a) && Perform(w, a, clocks).Resumed?
    requires t < |w.threads| && t != w.current && Base(w.threads[t].blockedBy) == Semaphore(s)
    ensures var w2 := Perform(w, a, clocks).world;
      && (Receiver(w, a, w2, s) == Some(t) <==> w2.current == t)
      && (w2.current != t ==> t < |w2.threads| && Base(w2.threads[t].blockedBy) == Semaphore(s))
  {
    hide Running, Dispatches, Perform, Dispatch, HandsOver, Stayed;
    if Dispatches(w, a) {
      var v := PerformHandsOver(w, a, clocks);
      HandedOverWaiter(w, a, v, clocks, s, t);
      GrantsAtOnceKeepControl(w, a, s);
    } else {
      PerformStays(w, a, clocks);
      StayedBlocked(w, a, Perform(w, a, clocks).world, t);
    }
  }

  lemma {:induction false} StayedBlocked(w: World, a: Action, w2: World, u: nat)
    requires Stayed(w, a, w2) && u < |w.threads|
    ensures w2.current == w.current && u < |w2.threads| && Base(w2.threads[u].blockedBy) == Base(w.threads[u].blockedBy)
    ensures w2.threads[u].active == w.threads[u].active && (!a.Create? ==> |w2.threads| == |w.threads|)
    ensures a != Suspend(u) && w.threads[u].blockedBy.NotBlocked? ==> w2.threads[u].blockedBy.NotBlocked?
  {
  }

  lemma {:induction false} GrantsAtOnceKeepControl(w: World, a: Action, s: nat)
    requires w.current < |w.threads| && Allowed(w, a) && Dispatches(w, a)
    ensures !((a == SemWait(s) || a == SemTryWait(s)) && w.semaphores[s] > 0)
  {
  }

  /** A thread blocked on a semaphore goes on after exactly one grant made on its behalf. */
  lemma {:induction false} WaiterGetsOneUnit(w: World, turns: seq<Turn>, worlds: seq<World>, s: nat, t: nat)
    requires Running(w) && Run(w, turns, worlds) && t < |w.threads| && t != w.current
      && Base(w.threads[t].blockedBy) == Semaphore(s)
    requires forall i :: 0 <= i < |worlds| - 1 ==> worlds[i].current != t
    ensures GrantsTo(w, turns, worlds, s, t) == if EndOf(w, worlds).current == t then 1 else 0
    decreases |turns|
  {
    hide Running, Perform, Receiver;
    if turns != [] {
      PerformKeeps(w, turns[0].action, turns[0].clocks);
      WaiterStep(w, turns[0].action, turns[0].clocks, s, t);
      if |turns| > 1 {
        assert worlds[0].current != t;
        assert forall i :: 0 <= i < |worlds[1..]| - 1 ==> worlds[1..][i] == worlds[i + 1];
        WaiterGetsOneUnit(worlds[0], turns[1..], worlds[1..], s, t);
        assert EndOf(worlds[0], worlds[1..]) == EndOf(w, worlds);
      } else {
        assert turns[1..] == [] && worlds[1..] == [];
      }
    }
  }

  // ----- bounded waiting

  /** Moving on to a thread that comes before `t` brings `t` nearer. */
  lemma {:induction false} PlaceDecreases(w: World, w2: World, t: nat)
    requires w.current < |w.threads| == |w2.threads| && w2.current < |w.threads| && t < |w.threads| && t != w2.current
    requires Place(w, w2.current) <= Place(w, t)
    ensures Place(w2, t) < Place(w, t)
  {
  }

  lemma {:induction false} HandedOverUnblocked(w: World, a: Action, v: World, clocks: seq<Clock>, t: nat)
    requires HandsOver(w, a, v) && Dispatch(v, clocks).Resumed?
    requires t < |w.threads| && t != w.current && w.threads[t].active && w.threads[t].blockedBy.NotBlocked?
    ensures var w2 := Dispatch(v, clocks).world;
      && w2.current < |w2.threads| == |w.threads|
      && (w2.current != t ==> w2.threads[t].active && w2.threads[t].blockedBy.NotBlocked? && Place(w2, t) < Place(w, t))
  {
    DispatchNeedsAClock(v, clocks);
    hide Contexts, Waiting, Dispatch, Choice, LocksGranted, UnitsTaken;
    DispatchHasEffect(v, clocks);
    assert Ready(v, t, clocks[0](Place(v, t)));
    ReadyThreadIsNotPassed(v, clocks, t);
    var w2 := Dispatch(v, clocks).world;
    if w2.current != t {
      assert WaitKept(v, w2, t);
      PlaceDecreases(v, w2, t);
    }
  }

  lemma {:induction false} UnblockedStep(w: World, a: Action, clocks: seq<Clock>, t: nat)
    requires Running(w) && w.current < |w.threads| && Allowed(w, a) && Perform(w, a, clocks).Resumed?
    requires t < |w.threads| && t != w.current && w.threads[t].active && w.threads[t].blockedBy.NotBlocked?
      && a != Suspend(t)
    ensures var w2 := Perform(w, a, clocks).world;
      && w2.current < |w2.threads| && t < |w2.threads|
      && (w2.current != t ==> w2.threads[t].active && w2.threads[t].blockedBy.NotBlocked?)
      && (w2.current != t ==>
        Place(w2, t) + (if Dispatches(w, a) then 1 else 0) <= Place(w, t) + if a.Create? then 1 else 0)
  {
    hide Running, Dispatches, Perform, Dispatch, HandsOver, Stayed;
    if Dispatches(w, a) {
      var v := PerformHandsOver(w, a, clocks);
      HandedOverUnblocked(w, a, v, clocks, t);
    } else {
      PerformStays(w, a, clocks);
      StayedBlocked(w, a, Perform(w, a, clocks).world, t);
      if a.Create? {
        CreateAddsOne(w, a, clocks);
      }
    }
  }

  lemma {:induction false} CreateAddsOne(w: World, a: Action, clocks: seq<Clock>)
    requires w.current < |w.threads| && Allowed(w, a) && a.Create?
    ensures Perform(w, a, clocks).Resumed? && |Perform(w, a, clocks).world.threads| == |w.threads| + 1
  {
  }

  lemma {:induction false} DispatchNeedsAClock(w: World, clocks: seq<Clock>)
    requires Dispatch(w, clocks).Resumed?
    ensures clocks != []
  {
  }

  function DispatchesIn(w: World, turns: seq<Turn>, worlds: seq<World>): nat
    requires |worlds| == |turns|
    decreases |turns|
  {
    if turns == [] then 0
    else
      (if w.current < |w.threads| && Allowed(w, turns[0].action) && Dispatches(w, turns[0].action) then 1 else 0)
      + DispatchesIn(worlds[0], turns[1..], worlds[1..])
  }

  function CreatesIn(turns: seq<Turn>): nat {
    if turns == [] then 0 else (if turns[0].action.Create? then 1 else 0) + CreatesIn(turns[1..])
  }

  /**
   A thread that can run, and is not suspended meanwhile, is passed over at most as often as there are
   threads between the current one and it, counting those created in the meantime.
   */
  lemma {:induction false} BoundedWaiting(w: World, turns: seq<Turn>, worlds: seq<World>, t: nat)
    requires Running(w) && Run(w, turns, worlds) && w.current < |w.threads|
    requires t < |w.threads| && t != w.current && w.threads[t].active && w.threads[t].blockedBy.NotBlocked?
    requires forall i :: 0 <= i < |turns| ==> turns[i].action != Suspend(t)
    requires forall i :: 0 <= i < |worlds| ==> worlds[i].current != t
    ensures DispatchesIn(w, turns, worlds) <= Place(w, t) + CreatesIn(turns) && Place(w, t) < |w.threads| - 1
    decreases |turns|
  {
    hide Running, Perform, Dispatches;
    if turns != [] {
      PerformKeeps(w, turns[0].action, turns[0].clocks);
      UnblockedStep(w, turns[0].action, turns[0].clocks, t);
      assert forall i :: 0 <= i < |worlds[1..]| ==> worlds[1..][i] == worlds[i + 1];
      assert forall i :: 0 <= i < |turns[1..]| ==> turns[1..][i] == turns[i + 1];
      assert worlds[0].current != t;
      BoundedWaiting(worlds[0], turns[1..], worlds[1..], t);
    }
  }
}
