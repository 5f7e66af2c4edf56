/**
 Initialising condition variables once more and destroying condition variables and semaphores
 (src/libc/pthread/cond.rs, src/libc/semaphore.rs), which the emulator does without asking who waits on them:
 what goes wrong then, and exactly when.
 */
module Stranding {
  import opened Common
  import opened GuestMemory
  import opened ThreadModel
  import opened Threads
  import opened Scheduling
  import opened ThreadRuns
  import opened MutexDestruction

  /** `pthread_cond_init`, of a variable that is there already too. */
  function InitialisedCond(w: World, c: nat): World {
    w.(conditions := w.conditions[c := CondObject([], [], None, {})])
  }

  /** `sem_destroy`; without a semaphore it reports an error and changes nothing. */
  function DestroyedSemaphore(w: World, s: nat): World {
    w.(semaphores := w.semaphores - {s})
  }

  /** `pthread_cond_destroy`, with its assertion. */
  function DestroyCond(w: World, c: nat): Outcome
    requires c in w.conditions
  {
    if w.conditions[c].waiting == [] && w.conditions[c].waking == [] then Resumed(WithoutCond(w, c)) else Crashed
  }

  function WithoutCond(w: World, c: nat): World {
    w.(conditions := w.conditions - {c})
  }

  /** Some thread, suspended or not, waits for a unit of the semaphore. */
  predicate SemAwaited(w: World, s: nat) {
    exists t :: 0 <= t < |w.threads| && w.threads[t].active && Base(w.threads[t].blockedBy) == Semaphore(s)
  }

  // ----- threads that nothing can be done about

  /** The thread waits on something that is gone or knows no mutex, so that looking at it fails an unwrap. */
  predicate Stranded(w: World, t: nat) {
    && w.current < |w.threads| && t < |w.threads| && w.threads[t].active
    && match Base(w.threads[t].blockedBy)
       case Condition(c, _) => c in w.conditions ==> w.conditions[c].mutex.None?
       case Semaphore(s) => s !in w.semaphores
       case _ => false
  }

  /** It is not suspended, so that a scan that gets there fails. */
  predicate Exposed(w: World, t: nat) {
    Stranded(w, t) && !w.threads[t].blockedBy.Suspended?
  }

  /** Looking at another thread changes nothing about it. */
  lemma {:induction false} TryExposed(w: World, u: nat, now: nat, t: nat)
    requires Exposed(w, t) && u < |w.threads|
    ensures u == t ==> Try(w, u, now).Failure?
    ensures !Try(w, u, now).Failure? ==> u != t && Exposed(Try(w, u, now).world, t)
  {
  }

  /** A scan does not get past the thread. */
  lemma {:induction false} ScanExposed(w: World, clock: Clock, i: nat, wake: Option<nat>, t: nat)
    requires Exposed(w, t) && i <= Place(w, t)
    ensures match Scan(w, clock, i, wake)
      case Broken => true
      case Nothing(_, _) => false
      case Found(v, u) =>
        u < |w.threads| && Place(w, u) <= Place(w, t) && Exposed(v, t) && u != t && |v.threads| == |w.threads|
        && v.current == w.current
    decreases Place(w, t) - i
  {
    hide Try, Candidate, Stranded;
    StrandedInBounds(w, t);
    PlaceIsCandidate(w, t);
    CandidateHasPlace(w, i);
    var u := Candidate(w, i);
    TryExposed(w, u, clock(i), t);
    match Try(w, u, clock(i))
    case Passed(v, soon) =>
      SamePlaces(w, v, i);
      ScanExposed(v, clock, i + 1, Earlier(wake, soon), t);
    case _ =>
  }

  lemma {:induction false} StrandedInBounds(w: World, t: nat)
    requires Stranded(w, t)
    ensures w.current < |w.threads| && t < |w.threads|
  {
  }

  lemma {:induction false} SamePlaces(w: World, v: World, i: nat)
    requires w.current < |w.threads| == |v.threads| && v.current == w.current
    ensures Candidate(v, i) == Candidate(w, i)
    ensures forall t: nat :: t < |w.threads| ==> Place(v, t) == Place(w, t)
  {
  }

  /** Handing over to another thread changes nothing about it either. */
  lemma {:induction false} HandedExposed(v: World, u: nat, t: nat)
    requires Exposed(v, t) && u != t && Handed(v, u).Resumed?
    ensures var v2 := Handed(v, u).world;
      Exposed(v2, t) && v2.current == u && |v2.threads| == |v.threads|
  {
  }

  /** One more time slice ends in a crash or brings the turn of the thread nearer. */
  lemma {:induction false} SliceExposed(w: World, t: nat, clock: Clock)
    requires Exposed(w, t)
    ensures match Perform(w, TimeSlice, [clock])
      case Crashed => true
      case Asleep => false
      case Resumed(v) => Exposed(v, t) && Place(v, t) < Place(w, t)
  {
    if w.threads[w.current].blockedBy.NotBlocked? && w.running.Some? {
      var b := Blocked(w, NotBlocked, Ordinary);
      assert Exposed(b, t);
      DispatchIsHanded(b, clock);
      SamePlaces(w, b, 0);
      hide Scan, Handed, Dispatch, Stranded;
      StrandedInBounds(b, t);
      ScanExposed(b, clock, 0, None, t);
      match Scan(b, clock, 0, None)
      case Found(v, u) =>
        if Handed(v, u).Resumed? {
          HandedExposed(v, u, t);
          PlaceDecreases(b, Handed(v, u).world, t);
        }
      case _ =>
    }
  }

  lemma {:induction false} ExposedCrashes(w: World, t: nat) returns (n: nat)
    requires Exposed(w, t)
    ensures CanCrash(w, n)
    decreases Place(w, t)
  {
    var clock: Clock := i => 0;
    SliceExposed(w, t, clock);
    StrandedInBounds(w, t);
    hide Perform, CanCrash, Stranded, Place;
    if Perform(w, TimeSlice, [clock]).Crashed? {
      CrashesNow(w, TimeSlice, [clock]);
      n := 0;
    } else {
      var k := ExposedCrashes(Perform(w, TimeSlice, [clock]).world, t);
      CrashesLater(w, TimeSlice, [clock], k);
      n := k + 1;
    }
  }

  lemma {:induction false} ResumeStranded(w: World, t: nat)
    requires Stranded(w, t) && w.threads[t].blockedBy.Suspended?
    ensures match Perform(w, Resume(t), [])
      case Crashed => true
      case Asleep => false
      case Resumed(v) => Stranded(v, t) && Suspensions(v.threads[t].blockedBy) < Suspensions(w.threads[t].blockedBy)
  {
  }

  /** If a thread is stranded, some actions make the machine crash. */
  lemma {:induction false} StrandedCrashes(w: World, t: nat) returns (n: nat)
    requires Stranded(w, t)
    ensures CanCrash(w, n)
    decreases Suspensions(w.threads[t].blockedBy)
  {
    StrandedInBounds(w, t);
    if !w.threads[t].blockedBy.Suspended? {
      n := ExposedCrashes(w, t);
    } else {
      ResumeStranded(w, t);
      hide Perform, CanCrash, Stranded;
      if Perform(w, Resume(t), []).Crashed? {
        CrashesNow(w, Resume(t), []);
        n := 0;
      } else {
        var k := StrandedCrashes(Perform(w, Resume(t), []).world, t);
        CrashesLater(w, Resume(t), [], k);
        n := k + 1;
      }
    }
  }

  // ----- when it is safe

  lemma {:induction false} NeverIfRunning(w: World)
    requires Running(w)
    ensures !exists n :: CanCrash(w, n)
  {
    hide Running, CanCrash;
    forall n
      ensures !CanCrash(w, n)
    {
      SoundNeverCrashes(w, n);
    }
  }

  /**
   After a condition variable is initialised, for the first time or once more, some course of actions ends in a
   crash exactly if a thread waits on it; otherwise the machine is as sound as before.
   */
  lemma {:induction false} ReinitIsSafeIffUnawaited(w: World, c: nat)
    requires Running(w)
    ensures Awaited(w, c) <==> exists n :: CanCrash(InitialisedCond(w, c), n)
    ensures !Awaited(w, c) ==> Running(InitialisedCond(w, c))
  {
    var w2 := InitialisedCond(w, c);
    if Awaited(w, c) {
      var t :| 0 <= t < |w.threads| && w.threads[t].active && WaitsOn(w.threads[t].blockedBy, c);
      assert Stranded(w2, t);
      var n := StrandedCrashes(w2, t);
    } else {
      InitCondKeeps(w, c);
      NeverIfRunning(w2);
    }
  }

  lemma {:induction false} UnawaitedSemaphore(w: World, s: nat, u: nat)
    requires Running(w) && !SemAwaited(w, s) && u < |w.threads|
    ensures WellBlocked(DestroyedSemaphore(w, s), u)
  {
    assert WellBlocked(w, u) && Holds(w, u);
  }

  /** The same is true of destroying a semaphore. */
  lemma {:induction false} SemDestroyIsSafeIffUnawaited(w: World, s: nat)
    requires Running(w)
    ensures SemAwaited(w, s) <==> exists n :: CanCrash(DestroyedSemaphore(w, s), n)
    ensures !SemAwaited(w, s) ==> Running(DestroyedSemaphore(w, s))
  {
    var w2 := DestroyedSemaphore(w, s);
    if SemAwaited(w, s) {
      var t :| 0 <= t < |w.threads| && w.threads[t].active && Base(w.threads[t].blockedBy) == Semaphore(s);
      assert Stranded(w2, t);
      var n := StrandedCrashes(w2, t);
    } else {
      forall u: nat | u < |w.threads|
        ensures WellBlocked(w2, u)
      {
        UnawaitedSemaphore(w, s, u);
      }
      hide WellBlocked;
      SameQueues(w, w2);
      assert forall m :: m in w2.mutexes ==> MutexOk(w, m);
      assert Contexts(w2) by { ContextsOfMutexes(w, w2); }
      NeverIfRunning(w2);
    }
  }

  // ----- condition variables

  /** The coroutine of thread `t` is in the middle of a wait on the condition variable, be it timed out already. */
  predicate InWait(w: World, t: nat, c: nat)
    requires t < |w.threads|
  {
    FrameOf(w, t).CondWait? && FrameOf(w, t).cond == c
  }

  /** The assertion of `pthread_cond_destroy` fails exactly if a thread waits. */
  lemma {:induction false} CondDestroyFailsIffAwaited(w: World, c: nat)
    requires Running(w) && c in w.conditions
    ensures DestroyCond(w, c).Crashed? <==> Awaited(w, c)
  {
    var cond := w.conditions[c];
    assert QueueOk(w, c);
    if cond.waiting + cond.waking != [] {
      var t := (cond.waiting + cond.waking)[0];
      assert InQueue(w, c, t) && Holds(w, t);
    }
    if Awaited(w, c) {
      var t :| 0 <= t < |w.threads| && w.threads[t].active && WaitsOn(w.threads[t].blockedBy, c);
      assert WellBlocked(w, t);
      assert InQueue(w, c, t);
    }
  }

  lemma {:induction false} UnconcernedByDestruction(w: World, c: nat, u: nat)
    requires WellBlockedAt(w, u) && !InWait(w, u, c)
    ensures WellBlocked(WithoutCond(w, c), u)
  {
  }

  predicate WellBlockedAt(w: World, u: nat) {
    u < |w.threads| && WellBlocked(w, u)
  }

  /** If no thread is in the middle of a wait, destroying a condition variable leaves a sound machine. */
  lemma {:induction false} CondDestroyKeeps(w: World, c: nat)
    requires Running(w) && c in w.conditions && forall t: nat :: t < |w.threads| ==> !InWait(w, t, c)
    ensures Running(WithoutCond(w, c))
  {
    var w2 := WithoutCond(w, c);
    forall u: nat | u < |w.threads|
      ensures WellBlocked(w2, u)
    {
      assert WellBlockedAt(w, u);
      UnconcernedByDestruction(w, c, u);
    }
    hide WellBlocked;
    forall k | k in w2.conditions
      ensures QueueOk(w2, k)
    {
      assert QueueOk(w, k);
      assert forall x: nat :: InQueue(w2, k, x) <==> InQueue(w, k, x);
      assert forall x: nat :: x < |w.threads| ==> FrameOf(w2, x) == FrameOf(w, x);
    }
    assert forall m :: m in w2.mutexes ==> MutexOk(w, m);
    assert Contexts(w2) by { ContextsOfMutexes(w, w2); }
  }

  ghost predicate SameWithout(c: nat, r: Attempt, r2: Attempt) {
    match r
    case Chosen(v) => r2 == Chosen(WithoutCond(v, c)) && !Awaited(v, c)
    case Passed(v, wake) => r2 == Passed(WithoutCond(v, c), wake) && !Awaited(v, c)
    case Failure => r2.Failure?
  }

  lemma {:induction false} TryWithout(w: World, c: nat, u: nat, now: nat)
    requires u < |w.threads| && !Awaited(w, c)
    ensures SameWithout(c, Try(w, u, now), Try(WithoutCond(w, c), u, now))
  {
    var thread := w.threads[u];
    if thread.active && thread.blockedBy.Condition? {
      assert WaitsOn(thread.blockedBy, thread.blockedBy.cond);
      ConditionWithout(w, c, u, thread.blockedBy.cond, thread.blockedBy.deadline, now);
    } else {
      OtherWithout(w, c, u, now);
    }
    hide TryCondition, Grant, Awaited;
  }

  lemma {:induction false} OtherWithout(w: World, c: nat, u: nat, now: nat)
    requires u < |w.threads| && !Awaited(w, c) && !(w.threads[u].active && w.threads[u].blockedBy.Condition?)
    ensures SameWithout(c, Try(w, u, now), Try(WithoutCond(w, c), u, now))
  {
    hide TryCondition;
    if !Try(w, u, now).Failure? {
      StillUnawaited(w, Try(w, u, now).world, c);
    }
    hide Awaited;
  }

  predicate SameOrElsewhere(a: Thread, b: Thread) {
    b.active == a.active && (b.blockedBy == a.blockedBy || !Base(b.blockedBy).Condition?)
  }

  /** Looking at one thread makes nobody wait on a condition variable. */
  lemma {:induction false} StillUnawaited(w: World, v: World, c: nat)
    requires !Awaited(w, c) && |v.threads| == |w.threads|
    requires forall t :: 0 <= t < |w.threads| ==> SameOrElsewhere(w.threads[t], v.threads[t])
    ensures !Awaited(v, c)
  {
  }

  lemma {:induction false} UpdateWithout<T>(m: map<nat, T>, k: nat, o: T, c: nat)
    requires k != c
    ensures m[k := o] - {c} == (m - {c})[k := o]
  {
  }

  lemma {:induction false} GrantWithout(w: World, t: nat, m: nat, c: nat)
    requires t < |w.threads| && !Awaited(w, c)
    ensures SameWithout(c, Grant(w, t, m), Grant(WithoutCond(w, c), t, m))
  {
    if Grant(w, t, m).Chosen? {
      StillUnawaited(w, Grant(w, t, m).world, c);
    }
  }

  /** The thread has been signalled and its mutex is free. */
  predicate IsNext(w: World, t: nat, k: nat)
    requires k in w.conditions && w.conditions[k].mutex.Some?
  {
    w.conditions[k].waking != [] && w.conditions[k].waking[0] == t && !IsLocked(w, w.conditions[k].mutex.value)
  }

  lemma {:induction false} ConditionWithout(w: World, c: nat, t: nat, k: nat, deadline: Option<nat>, now: nat)
    requires t < |w.threads| && !Awaited(w, c) && k != c
    ensures SameWithout(c, TryCondition(w, t, k, deadline, now), TryCondition(WithoutCond(w, c), t, k, deadline, now))
  {
    if k in w.conditions && w.conditions[k].mutex.Some? {
      hide TryCondition, Awaited;
      if IsNext(w, t, k) {
        NextWithout(w, c, t, k, deadline, now);
      } else {
        LaterWithout(w, c, t, k, deadline, now);
      }
    }
  }

  lemma {:induction false} NextWithout(w: World, c: nat, t: nat, k: nat, deadline: Option<nat>, now: nat)
    requires t < |w.threads| && !Awaited(w, c) && k != c && k in w.conditions && w.conditions[k].mutex.Some?
    requires IsNext(w, t, k)
    ensures SameWithout(c, TryCondition(w, t, k, deadline, now), TryCondition(WithoutCond(w, c), t, k, deadline, now))
  {
    var m := w.conditions[k].mutex.value;
    PopWithout(w, c, k);
    GrantWithout(PopWaking(w, k), t, m, c);
    SameCondition(w, c, k, m);
    hide Grant, Awaited, TimeOut, IsLocked, WithoutCond;
    assert TryCondition(w, t, k, deadline, now) == Grant(PopWaking(w, k), t, m);
    assert TryCondition(WithoutCond(w, c), t, k, deadline, now) == Grant(PopWaking(WithoutCond(w, c), k), t, m);
  }

  lemma {:induction false} LaterWithout(w: World, c: nat, t: nat, k: nat, deadline: Option<nat>, now: nat)
    requires t < |w.threads| && !Awaited(w, c) && k != c && k in w.conditions && w.conditions[k].mutex.Some?
    requires !IsNext(w, t, k)
    ensures SameWithout(c, TryCondition(w, t, k, deadline, now), TryCondition(WithoutCond(w, c), t, k, deadline, now))
  {
    var m := w.conditions[k].mutex.value;
    var o := TimeOut(w, t, k);
    TimeOutWithout(w, c, t, k);
    GrantWithout(o, t, m, c);
    StillUnawaited(w, SetBlock(o, t, Mutex(m)), c);
    SameCondition(w, c, k, m);
    assert SetBlock(WithoutCond(o, c), t, Mutex(m)) == WithoutCond(SetBlock(o, t, Mutex(m)), c);
    hide Grant, Awaited, TimeOut, IsLocked, WithoutCond, SetBlock;
  }

  lemma {:induction false} SameCondition(w: World, c: nat, k: nat, m: nat)
    requires k in w.conditions && k != c
    ensures k in WithoutCond(w, c).conditions && WithoutCond(w, c).conditions[k] == w.conditions[k]
    ensures IsLocked(WithoutCond(w, c), m) == IsLocked(w, m)
  {
  }

  lemma {:induction false} PopWithout(w: World, c: nat, k: nat)
    requires k in w.conditions && k != c && w.conditions[k].waking != [] && !Awaited(w, c)
    ensures PopWaking(WithoutCond(w, c), k) == WithoutCond(PopWaking(w, k), c) && !Awaited(PopWaking(w, k), c)
  {
    UpdateWithout(w.conditions, k, w.conditions[k].(waking := w.conditions[k].waking[1..]), c);
  }

  lemma {:induction false} TimeOutWithout(w: World, c: nat, t: nat, k: nat)
    requires k in w.conditions && k != c && !Awaited(w, c)
    ensures TimeOut(WithoutCond(w, c), t, k) == WithoutCond(TimeOut(w, t, k), c) && !Awaited(TimeOut(w, t, k), c)
  {
    UpdateWithout(w.conditions, k, TimeOut(w, t, k).conditions[k], c);
  }

  ghost predicate SameScheduled(c: nat, r: Scheduled, r2: Scheduled) {
    match r
    case Found(v, t) => r2 == Found(WithoutCond(v, c), t)
    case Nothing(v, wake) => r2 == Nothing(WithoutCond(v, c), wake) && !Awaited(v, c)
    case Broken => r2.Broken?
  }

  lemma {:induction false} ScanWithout(w: World, c: nat, clock: Clock, i: nat, wake: Option<nat>)
    requires !Awaited(w, c)
    ensures SameScheduled(c, Scan(w, clock, i, wake), Scan(WithoutCond(w, c), clock, i, wake))
    decreases |w.threads| - i
  {
    hide Try, Awaited, Candidate;
    if i < |w.threads| {
      var u := Candidate(w, i);
      CandidateWithout(w, c, i);
      TryWithout(w, c, u, clock(i));
      match Try(w, u, clock(i))
      case Passed(v, soon) => ScanWithout(v, c, clock, i + 1, Earlier(wake, soon));
      case _ =>
    }
  }

  lemma {:induction false} CandidateWithout(w: World, c: nat, i: nat)
    requires w.threads != []
    ensures Candidate(WithoutCond(w, c), i) == Candidate(w, i)
  {
  }

  lemma {:induction false} ScheduleWithout(w: World, c: nat, clocks: seq<Clock>)
    requires !Awaited(w, c)
    ensures SameScheduled(c, Schedule(w, clocks), Schedule(WithoutCond(w, c), clocks))
    decreases |clocks|
  {
    hide Scan, Awaited;
    if clocks != [] {
      ScanWithout(w, c, clocks[0], 0, None);
      match Scan(w, clocks[0], 0, None)
      case Nothing(v, _) => ScheduleWithout(v, c, clocks[1..]);
      case _ =>
    }
  }

  lemma {:induction false} HandedWithout(v: World, c: nat, t: nat)
    requires t < |v.threads|
    ensures match Handed(v, t)
      case Resumed(v2) => v2.current == t &&
        Handed(WithoutCond(v, c), t) == if InWait(v, t, c) then Crashed else Resumed(WithoutCond(v2, c))
      case _ => true
  {
    if FrameOf(v, t).CondWait? && FrameOf(v, t).cond in v.conditions && FrameOf(v, t).cond != c {
      var k := FrameOf(v, t).cond;
      UpdateWithout(v.conditions, k, v.conditions[k].(timedOut := v.conditions[k].timedOut - {t}), c);
    }
  }

  /**
   A thread whose wait has timed out and that waits for its mutex is not noticed. Once the condition variable is
   gone, an unwrap fails in the turn in which such a thread goes on, and in no other.
   */
  lemma {:induction false} CondDestroyBreaksTurn(w: World, c: nat, clocks: seq<Clock>)
    requires Contexts(w) && Waiting(w) && !Awaited(w, c)
    ensures match Dispatch(w, clocks)
      case Resumed(v) => v.current < |w.threads| && Dispatch(WithoutCond(w, c), clocks) ==
        if InWait(w, v.current, c) then Crashed else Resumed(WithoutCond(v, c))
      case Asleep => Dispatch(WithoutCond(w, c), clocks).Asleep?
      case Crashed => false
  {
    hide Contexts, Waiting, Schedule, Handed, Awaited, FrameOf;
    DispatchKeeps(w, clocks);
    ScheduleKeeps(w, clocks);
    ScheduleWithout(w, c, clocks);
    DispatchByHand(w, clocks);
    DispatchByHand(WithoutCond(w, c), clocks);
    match Schedule(w, clocks)
    case Found(v, t) =>
      HandedWithout(v, c, t);
      SameContextsFacts(w, v, t);
    case _ =>
  }

  lemma {:induction false} DispatchByHand(w: World, clocks: seq<Clock>)
    ensures Dispatch(w, clocks) == match Schedule(w, clocks)
      case Broken => Crashed
      case Nothing(_, _) => Asleep
      case Found(v, t) => Handed(v, t)
  {
    hide Schedule, SwitchThread, GoOn;
  }
}
