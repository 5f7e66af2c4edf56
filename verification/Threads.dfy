/**
 What the thread machine keeps over whole runs: who holds which register file and coroutine, that no
 assertion of the scheduler can fail, that locks and semaphore units are granted properly, and that
 scheduling is fair.
 */
module Threads {
  import opened Common
  import opened GuestMemory
  import opened ThreadModel

  // ----- the invariant

  function FrameOf(w: World, t: nat): Frame
    requires t < |w.threads|
  {
    if t == w.current then (if w.running.Some? then w.running.value.frame else Ordinary)
    else if w.threads[t].host.Some? then w.threads[t].host.value.frame
    else Ordinary
  }

  predicate InQueue(w: World, c: nat, t: nat) {
    c in w.conditions && (t in w.conditions[c].waiting || t in w.conditions[c].waking)
  }

  /** Everything a thread is blocked by exists, and agrees with what its coroutine is in the middle of. */
  predicate WellBlocked(w: World, t: nat)
    requires t < |w.threads|
  {
    var block := w.threads[t].blockedBy;
    var frame := FrameOf(w, t);
    && (block.Suspended? ==> block.count > 0 && !block.previous.Suspended?)
    && match Base(block)
       case Semaphore(s) => frame.Ordinary? && s in w.semaphores
       case Mutex(m) => m in w.mutexes && (frame.CondWait? ==>
         frame.mutex == m && frame.timed && frame.cond in w.conditions)
       case Condition(c, deadline) =>
         && InQueue(w, c, t) && w.conditions[c].mutex.Some? && w.conditions[c].mutex.value in w.mutexes
         && t !in w.conditions[c].timedOut
         && frame == CondWait(c, w.conditions[c].mutex.value, deadline.Some?)
       case Joining(j, _) => frame.Ordinary? && j < |w.threads|
       case _ => frame.Ordinary?
  }

  /** The scheduler has chosen this thread; if it was in a condition wait, it owns the mutex again. */
  predicate Woken(w: World, t: nat)
    requires t < |w.threads|
  {
    && w.threads[t].active && w.threads[t].blockedBy.NotBlocked?
    && (FrameOf(w, t).CondWait? ==> OwnsMutexOf(w, t, FrameOf(w, t)))
  }

  predicate OwnsMutexOf(w: World, t: nat, frame: Frame)
    requires frame.CondWait?
  {
    frame.cond in w.conditions && frame.mutex in w.mutexes && w.mutexes[frame.mutex].locked == Some(Lock(t, 1))
  }

  /** A condition's queues hold threads that wait on it, each once; timed-out threads still have to be told. */
  ghost predicate QueueOk(w: World, c: nat)
    requires c in w.conditions
  {
    var cond := w.conditions[c];
    && NoRepeats(cond.waiting) && NoRepeats(cond.waking) && (forall x :: x in cond.waiting ==> x !in cond.waking)
    && (forall x: nat :: InQueue(w, c, x) ==> x < |w.threads| && WaitsOn(w.threads[x].blockedBy, c))
    && (forall x :: x in cond.timedOut ==>
      x < |w.threads| && FrameOf(w, x).CondWait? && FrameOf(w, x).cond == c && FrameOf(w, x).timed)
  }

  predicate MutexOk(w: World, m: nat)
    requires m in w.mutexes
  {
    m < w.mutexCount && match w.mutexes[m].locked
    case None => true
    case Some(Lock(owner, count)) => count >= 1 && (count > 1 ==> w.mutexes[m].kind.Recursive?)
  }

  ghost predicate SyncOk(w: World) {
    (forall c :: c in w.conditions ==> QueueOk(w, c)) && (forall m :: m in w.mutexes ==> MutexOk(w, m))
  }

  ghost predicate OthersWellBlocked(w: World, t: int) {
    forall u: nat :: u < |w.threads| && u != t ==> WellBlocked(w, u)
  }

  ghost predicate Waiting(w: World) {
    SyncOk(w) && OthersWellBlocked(w, -1)
  }

  ghost predicate ReadyFor(w: World, t: nat) {
    t < |w.threads| && SyncOk(w) && OthersWellBlocked(w, t) && Woken(w, t)
  }

  /**
   Who holds what: every thread but the current one has a register file; every active thread but the
   current one holds its own coroutine, the run loop holds the current one's; a finished thread has a
   return value, neither coroutine nor stack, and waits for nothing.
   */
  ghost predicate Contexts(w: World) {
    && w.current < |w.threads| && w.threads[0].active
    && w.threads[w.current].guest.None? && w.threads[w.current].host.None?
    && (w.threads[w.current].active <==> w.running.Some?) && (w.running.Some? ==> w.running.value.thread == w.current)
    && forall t: nat :: t < |w.threads| ==> Holds(w, t)
  }

  predicate Holds(w: World, t: nat)
    requires t < |w.threads|
  {
    var thread := w.threads[t];
    && (t != w.current ==>
      thread.guest.Some? && (thread.active <==> thread.host.Some?)
      && (thread.host.Some? ==> thread.host.value.thread == t))
    && (thread.active ==> thread.stack.Some? && thread.returnValue.None?)
    && (!thread.active ==> thread.stack.None? && thread.returnValue.Some? && Base(thread.blockedBy).NotBlocked?)
  }

  /** A state in which guest or host code of the current thread executes. */
  ghost predicate Running(w: World) {
    Contexts(w) && Waiting(w) && w.threads[w.current].active && w.threads[w.current].blockedBy.NotBlocked?
  }

  // ----- frames

  /** The scheduler changes nothing of a thread but what it is blocked by, and nothing of a finished one. */
  ghost predicate SameContexts(w: World, w2: World) {
    && w2.current == w.current && w2.cpu == w.cpu && w2.running == w.running && w2.mutexCount == w.mutexCount
    && |w2.threads| == |w.threads|
    && forall t :: 0 <= t < |w.threads| ==> SameButBlock(w.threads[t], w2.threads[t])
  }

  predicate SameButBlock(a: Thread, b: Thread) {
    b == a.(blockedBy := b.blockedBy) && (!a.active ==> b == a)
  }

  ghost predicate SameCondFor(w: World, w2: World, u: nat) {
    forall c :: c in w.conditions ==>
      c in w2.conditions && (u in w.conditions[c].timedOut <==> u in w2.conditions[c].timedOut)
      && (InQueue(w, c, u) ==> InQueue(w2, c, u) && w2.conditions[c].mutex == w.conditions[c].mutex)
  }

  lemma {:induction false} WellBlockedFrame(w: World, w2: World, u: nat)
    requires u < |w.threads| <= |w2.threads| && WellBlocked(w, u)
    requires w2.threads[u].blockedBy == w.threads[u].blockedBy && FrameOf(w2, u) == FrameOf(w, u)
    requires w.semaphores.Keys <= w2.semaphores.Keys && w.mutexes.Keys <= w2.mutexes.Keys && SameCondFor(w, w2, u)
    ensures WellBlocked(w2, u)
  {
  }

  // ----- granting

  /** `t` is about to be given mutex `m`: it is in no queue any more, and its coroutine, if in a wait, waits for `m`. */
  ghost predicate MayGrant(w: World, t: nat, m: nat) {
    && t < |w.threads| && w.threads[t].active && m in w.mutexes && w.mutexes[m].locked.None?
    && SyncOk(w) && OthersWellBlocked(w, t) && (forall c :: c in w.conditions ==> !InQueue(w, c, t))
    && (FrameOf(w, t).CondWait? ==> FrameOf(w, t).mutex == m && FrameOf(w, t).cond in w.conditions)
  }

  lemma {:induction false} GrantKeeps(w: World, t: nat, m: nat)
    requires MayGrant(w, t, m)
    ensures Grant(w, t, m).Chosen? && var w2 := Grant(w, t, m).world;
      ReadyFor(w2, t) && SameContexts(w, w2) && w2.mutexes[m].locked == Some(Lock(t, 1))
  {
    var w2 := Grant(w, t, m).world;
    hide WellBlocked;
    forall u: nat | u < |w.threads| && u != t
      ensures WellBlocked(w2, u)
    {
      WellBlockedFrame(w, w2, u);
    }
    forall c | c in w2.conditions
      ensures QueueOk(w2, c)
    {
      assert QueueOk(w, c) && !InQueue(w, c, t);
      assert forall x: nat :: InQueue(w2, c, x) ==> InQueue(w, c, x);
    }
    assert forall k :: k in w2.mutexes ==> k in w.mutexes && MutexOk(w, k);
  }

  lemma {:induction false} WithoutKeepsNoRepeats(s: seq<nat>, x: nat)
    requires NoRepeats(s)
    ensures NoRepeats(Without(s, x))
  {
    if s != [] {
      var init := s[..|s| - 1];
      WithoutKeepsNoRepeats(init, x);
      assert s[|s| - 1] !in init;
    }
  }

  /** A change of one condition variable's queues that concerns no thread but `t` leaves the others well blocked. */
  lemma {:induction false} OthersUnconcerned(w: World, w2: World, t: int)
    requires OthersWellBlocked(w, t) && |w2.threads| == |w.threads|
    requires forall u: nat :: u < |w.threads| && u != t ==>
      w2.threads[u].blockedBy == w.threads[u].blockedBy && FrameOf(w2, u) == FrameOf(w, u) && SameCondFor(w, w2, u)
    requires w.semaphores.Keys <= w2.semaphores.Keys && w.mutexes.Keys <= w2.mutexes.Keys
    ensures OthersWellBlocked(w2, t)
  {
    hide WellBlocked, SameCondFor;
    forall u: nat | u < |w.threads| && u != t
      ensures WellBlocked(w2, u)
    {
      WellBlockedFrame(w, w2, u);
    }
  }

  /** `t` waits on `c` only, so out of that queue it is out of all. */
  lemma {:induction false} OnlyQueue(w: World, t: nat, c: nat)
    requires t < |w.threads| && SyncOk(w) && WaitsOn(w.threads[t].blockedBy, c)
    ensures forall k: nat :: k in w.conditions && InQueue(w, k, t) ==> k == c
  {
    forall k: nat | k in w.conditions && InQueue(w, k, t)
      ensures k == c
    {
      assert QueueOk(w, k);
    }
  }

  lemma {:induction false} TimeOutKeeps(w: World, t: nat, c: nat, deadline: nat)
    requires t < |w.threads| && SyncOk(w) && OthersWellBlocked(w, t) && WellBlocked(w, t)
    requires w.threads[t].active && w.threads[t].blockedBy == Condition(c, Some(deadline))
    ensures var w2 := TimeOut(w, t, c);
      && SyncOk(w2) && OthersWellBlocked(w2, t) && (forall k :: k in w2.conditions ==> !InQueue(w2, k, t))
      && t in w2.conditions[c].timedOut
  {
    hide WellBlocked;
    ConditionFacts(w, t);
    var w2 := TimeOut(w, t, c);
    OnlyQueue(w, t, c);
    TimeOutQueues(w, w2, t, c);
    forall u: nat | u != t
      ensures SameCondFor(w, w2, u)
    {
      TimeOutElsewhere(w, t, c, u);
    }
    hide SameCondFor, QueueOk;
    OthersUnconcerned(w, w2, t);
    assert forall k :: k in w2.mutexes ==> MutexOk(w, k);
  }

  lemma {:induction false} TimeOutElsewhere(w: World, t: nat, c: nat, u: nat)
    requires c in w.conditions && u != t
    ensures SameCondFor(w, TimeOut(w, t, c), u)
  {
  }

  lemma {:induction false} TimeOutQueues(w: World, w2: World, t: nat, c: nat)
    requires c in w.conditions && w2 == TimeOut(w, t, c) && SyncOk(w) && t < |w.threads|
    requires FrameOf(w, t).CondWait? && FrameOf(w, t).cond == c && FrameOf(w, t).timed
    ensures forall k :: k in w2.conditions ==> QueueOk(w2, k)
  {
    assert QueueOk(w, c);
    WithoutKeepsNoRepeats(w.conditions[c].waiting, t);
    WithoutKeepsNoRepeats(w.conditions[c].waking, t);
    QueueOkAfter(w, w2, c);
  }

  lemma {:induction false} ConditionFacts(w: World, t: nat)
    requires t < |w.threads| && WellBlocked(w, t) && Base(w.threads[t].blockedBy).Condition?
    ensures var Condition(c, deadline) := Base(w.threads[t].blockedBy);
      && c in w.conditions && w.conditions[c].mutex.Some? && w.conditions[c].mutex.value in w.mutexes
      && t !in w.conditions[c].timedOut
      && InQueue(w, c, t) && FrameOf(w, t) == CondWait(c, w.conditions[c].mutex.value, deadline.Some?)
  {
  }

  /**
   Taking threads out of one condition's queues, and adding ones whose wait has timed out, keeps all queues
   in order.
   */
  lemma {:induction false} QueueOkAfter(w: World, w2: World, c: nat)
    requires SyncOk(w) && c in w.conditions && w2.conditions.Keys == w.conditions.Keys && |w2.threads| == |w.threads|
    requires forall k :: k in w.conditions && k != c ==> w2.conditions[k] == w.conditions[k]
    requires w2.threads == w.threads && w2.current == w.current && w2.running == w.running
    requires NoRepeats(w2.conditions[c].waiting) && NoRepeats(w2.conditions[c].waking)
    requires forall x :: x in w2.conditions[c].waiting ==> x in w.conditions[c].waiting
    requires forall x :: x in w2.conditions[c].waking ==> x in w.conditions[c].waking
    requires forall x :: x in w2.conditions[c].timedOut && x !in w.conditions[c].timedOut ==>
      x < |w.threads| && FrameOf(w, x).CondWait? && FrameOf(w, x).cond == c && FrameOf(w, x).timed
    ensures forall k :: k in w2.conditions ==> QueueOk(w2, k)
  {
    forall k | k in w2.conditions
      ensures QueueOk(w2, k)
    {
      assert QueueOk(w, k);
      if k == c {
        assert forall x: nat :: InQueue(w2, c, x) ==> InQueue(w, c, x);
      } else {
        assert forall x: nat :: InQueue(w2, k, x) <==> InQueue(w, k, x);
      }
      assert forall x: nat :: x < |w.threads| ==> FrameOf(w2, x) == FrameOf(w, x);
    }
  }

  function PopWaking(w: World, c: nat): World
    requires c in w.conditions && w.conditions[c].waking != []
  {
    w.(conditions := w.conditions[c := w.conditions[c].(waking := w.conditions[c].waking[1..])])
  }

  lemma {:induction false} PopKeeps(w: World, t: nat, c: nat, deadline: Option<nat>)
    requires t < |w.threads| && SyncOk(w) && OthersWellBlocked(w, t)
    requires w.threads[t].blockedBy == Condition(c, deadline) && c in w.conditions && w.conditions[c].waking != []
      && w.conditions[c].waking[0] == t
    ensures var w2 := PopWaking(w, c);
      SyncOk(w2) && OthersWellBlocked(w2, t) && (forall k :: k in w2.conditions ==> !InQueue(w2, k, t))
  {
    hide WellBlocked;
    var w2 := PopWaking(w, c);
    var waking := w.conditions[c].waking;
    OnlyQueue(w, t, c);
    assert QueueOk(w, c);
    assert forall x :: x in waking <==> x == t || x in waking[1..];
    assert t !in waking[1..] && NoRepeats(waking[1..]);
    QueueOkAfter(w, w2, c);
    OthersUnconcerned(w, w2, t);
    assert forall k :: k in w2.mutexes ==> MutexOk(w, k);
  }

  // ----- one candidate

  /** Unblocking a thread that waits in no queue and is in no condition wait. */
  lemma {:induction false} UnblockKeeps(w: World, t: nat, w2: World)
    requires t < |w.threads| && Waiting(w) && w.threads[t].active && FrameOf(w, t).Ordinary?
      && !Base(w.threads[t].blockedBy).Condition?
    requires w2.threads == SetBlock(w, t, NotBlocked).threads && SameContexts(w, w2)
    requires w2.semaphores.Keys == w.semaphores.Keys && w2.mutexes == w.mutexes && w2.conditions == w.conditions
    ensures ReadyFor(w2, t)
  {
    hide WellBlocked;
    OthersUnconcerned(w, w2, t);
    forall c | c in w2.conditions
      ensures QueueOk(w2, c)
    {
      assert QueueOk(w, c);
      assert forall x: nat :: InQueue(w2, c, x) ==> InQueue(w, c, x) && x != t;
    }
    assert forall m :: m in w2.mutexes ==> MutexOk(w, m);
  }

  /** A thread whose wait timed out while the mutex was held goes on to wait for the mutex. */
  lemma {:induction false} TimedOutWaitsForMutex(w: World, t: nat, c: nat, m: nat, w2: World)
    requires t < |w.threads| && SyncOk(w) && OthersWellBlocked(w, t)
      && (forall k :: k in w.conditions ==> !InQueue(w, k, t))
    requires m in w.mutexes && c in w.conditions && t in w.conditions[c].timedOut
      && FrameOf(w, t) == CondWait(c, m, true)
    requires w2 == SetBlock(w, t, Mutex(m))
    ensures Waiting(w2)
  {
    hide WellBlocked;
    OthersUnconcerned(w, w2, t);
    forall k | k in w2.conditions
      ensures QueueOk(w2, k)
    {
      assert QueueOk(w, k);
      assert forall x: nat :: InQueue(w2, k, x) ==> InQueue(w, k, x) && x != t;
    }
    assert forall k :: k in w2.mutexes ==> MutexOk(w, k);
    MutexBlockOk(w2, t, c, m);
  }

  lemma {:induction false} MutexBlockOk(w: World, t: nat, c: nat, m: nat)
    requires t < |w.threads| && w.threads[t].blockedBy == Mutex(m) && m in w.mutexes && c in w.conditions
      && t in w.conditions[c].timedOut
    requires FrameOf(w, t) == CondWait(c, m, true)
    ensures WellBlocked(w, t)
  {
  }

  /** What looking at one candidate leaves behind. */
  ghost predicate AttemptOk(w: World, t: nat, r: Attempt) {
    !r.Failure? && SameContexts(w, r.world) && if r.Chosen? then ReadyFor(r.world, t) else Waiting(r.world)
  }

  lemma {:induction false} TryConditionKeeps(w: World, t: nat, now: nat)
    requires t < |w.threads| && Waiting(w) && w.threads[t].active && w.threads[t].blockedBy.Condition?
    ensures AttemptOk(w, t, Try(w, t, now))
  {
    hide WellBlocked, SyncOk, OthersWellBlocked, Woken;
    assert OthersWellBlocked(w, t) && WellBlocked(w, t) by { Except(w, t); }
    ConditionFacts(w, t);
    var Condition(c, deadline) := w.threads[t].blockedBy;
    var cond := w.conditions[c];
    var m := cond.mutex.value;
    if cond.waking != [] && cond.waking[0] == t && !IsLocked(w, m) {
      PopKeeps(w, t, c, deadline);
      GrantKeeps(PopWaking(w, c), t, m);
    } else if deadline.Some? && deadline.value <= now {
      TimeOutKeeps(w, t, c, deadline.value);
      var w2 := TimeOut(w, t, c);
      if IsLocked(w, m) {
        TimedOutWaitsForMutex(w2, t, c, m, SetBlock(w2, t, Mutex(m)));
      } else {
        GrantKeeps(w2, t, m);
      }
    }
  }

  lemma {:induction false} Except(w: World, t: nat)
    requires t < |w.threads| && Waiting(w)
    ensures OthersWellBlocked(w, t) && WellBlocked(w, t)
  {
  }

  /** No assertion fails at a candidate, and whether it is chosen or not all others stay as they should. */
  lemma {:induction false} TryKeeps(w: World, t: nat, now: nat)
    requires t < |w.threads| && Waiting(w) && Contexts(w)
    ensures AttemptOk(w, t, Try(w, t, now))
  {
    var thread := w.threads[t];
    if thread.active {
      Except(w, t);
      if thread.blockedBy.Condition? {
        TryConditionKeeps(w, t, now);
      } else if thread.blockedBy.Mutex? {
        TryMutexKeeps(w, t, now);
      } else {
        TryOtherKeeps(w, t, now);
      }
    }
  }

  lemma {:induction false} TryMutexKeeps(w: World, t: nat, now: nat)
    requires t < |w.threads| && Waiting(w) && w.threads[t].active && w.threads[t].blockedBy.Mutex?
    ensures AttemptOk(w, t, Try(w, t, now))
  {
    Except(w, t);
    var m := w.threads[t].blockedBy.mutex;
    forall c | c in w.conditions
      ensures !InQueue(w, c, t)
    {
      assert QueueOk(w, c);
    }
    if !IsLocked(w, m) {
      hide WellBlocked;
      GrantKeeps(w, t, m);
    }
  }

  lemma {:induction false} TryOtherKeeps(w: World, t: nat, now: nat)
    requires t < |w.threads| && Waiting(w) && Contexts(w) && w.threads[t].active
    requires !w.threads[t].blockedBy.Mutex? && !w.threads[t].blockedBy.Condition?
    ensures AttemptOk(w, t, Try(w, t, now))
  {
    Except(w, t);
    var r := Try(w, t, now);
    if w.threads[t].blockedBy.Joining? {
      assert Holds(w, w.threads[t].blockedBy.joinee);
    }
    if r.Chosen? {
      assert FrameOf(w, t).Ordinary?;
      hide WellBlocked;
      UnblockKeeps(w, t, r.world);
    }
  }

  // ----- scheduling

  lemma {:induction false} SameContextsTransitive(u: World, v: World, w: World)
    requires SameContexts(u, v) && SameContexts(v, w)
    ensures SameContexts(u, w)
  {
    forall t | 0 <= t < |u.threads|
      ensures SameButBlock(u.threads[t], w.threads[t])
    {
      assert SameButBlock(u.threads[t], v.threads[t]) && SameButBlock(v.threads[t], w.threads[t]);
    }
  }

  lemma {:induction false} ContextsKept(w: World, w2: World)
    requires Contexts(w) && SameContexts(w, w2)
    ensures Contexts(w2)
  {
    forall t: nat | t < |w.threads|
      ensures Holds(w2, t) && w2.threads[t].active == w.threads[t].active
    {
      assert Holds(w, t) && SameButBlock(w.threads[t], w2.threads[t]);
    }
    assert SameButBlock(w.threads[0], w2.threads[0]) && SameButBlock(w.threads[w.current], w2.threads[w.current]);
  }

  ghost predicate ScheduleOk(w: World, r: Scheduled) {
    match r
    case Found(w2, t) => SameContexts(w, w2) && Contexts(w2) && ReadyFor(w2, t)
    case Nothing(w2, _) => SameContexts(w, w2) && Contexts(w2) && Waiting(w2)
    case Broken => false
  }

  lemma {:induction false} SameContextsRefl(w: World)
    ensures SameContexts(w, w)
  {
  }

  lemma {:induction false} ScanKeeps(w: World, clock: Clock, i: nat, wake: Option<nat>)
    requires Contexts(w) && Waiting(w)
    ensures ScheduleOk(w, Scan(w, clock, i, wake))
    decreases |w.threads| - i
  {
    hide Contexts, Waiting, ReadyFor, Try, SameContexts;
    SameContextsRefl(w);
    if i < ThreadCount(w) {
      var t := Candidate(w, i);
      TryKeeps(w, t, clock(i));
      var r := Try(w, t, clock(i));
      ContextsKept(w, r.world);
      if r.Passed? {
        ScanKeeps(r.world, clock, i + 1, Earlier(wake, r.wake));
        match Scan(r.world, clock, i + 1, Earlier(wake, r.wake))
        case Found(w2, _) => SameContextsTransitive(w, r.world, w2);
        case Nothing(w2, _) => SameContextsTransitive(w, r.world, w2);
      }
    }
  }

  function ThreadCount(w: World): nat {
    |w.threads|
  }

  lemma {:induction false} ScheduleKeeps(w: World, clocks: seq<Clock>)
    requires Contexts(w) && Waiting(w)
    ensures ScheduleOk(w, Schedule(w, clocks))
    decreases |clocks|
  {
    hide Contexts, Waiting, ReadyFor, Scan, SameContexts;
    SameContextsRefl(w);
    if clocks != [] {
      ScanKeeps(w, clocks[0], 0, None);
      var r := Scan(w, clocks[0], 0, None);
      if r.Nothing? {
        ScheduleKeeps(r.world, clocks[1..]);
        match Schedule(r.world, clocks[1..])
        case Found(w2, _) => SameContextsTransitive(w, r.world, w2);
        case Nothing(w2, _) => SameContextsTransitive(w, r.world, w2);
      }
    }
  }

  // ----- switching

  /** A thread's registers: in the CPU while it is current, in its bookkeeping otherwise. */
  function RegistersOf(w: World, t: nat): Option<Registers>
    requires t < |w.threads|
  {
    if t == w.current then Some(w.cpu) else w.threads[t].guest
  }

  /** No assertion of `switch_thread` fails, every coroutine stays with its thread, and all registers survive. */
  lemma {:induction false} SwitchKeeps(w: World, t: nat)
    requires Contexts(w) && t < |w.threads| && t != w.current && w.threads[t].active
    ensures SwitchThread(w, t).Some? && var w2 := SwitchThread(w, t).value;
      && Contexts(w2) && w2.current == t && |w2.threads| == |w.threads|
      && w2.mutexes == w.mutexes && w2.conditions == w.conditions && w2.semaphores == w.semaphores
      && w2.mutexCount == w.mutexCount && w2.memory == w.memory
      && forall u: nat :: u < |w.threads| ==>
        RegistersOf(w2, u) == RegistersOf(w, u) && FrameOf(w2, u) == FrameOf(w, u)
        && w2.threads[u].blockedBy == w.threads[u].blockedBy && w2.threads[u].active == w.threads[u].active
  {
    assert Holds(w, t) && Holds(w, w.current);
    var w2 := SwitchThread(w, t).value;
    forall u: nat | u < |w.threads|
      ensures Holds(w2, u)
    {
      assert Holds(w, u);
    }
  }

  lemma {:induction false} ReadyAfterSwitch(w: World, w2: World, t: nat)
    requires ReadyFor(w, t) && |w2.threads| == |w.threads|
    requires w2.mutexes == w.mutexes && w2.conditions == w.conditions && w2.semaphores == w.semaphores
      && w2.mutexCount == w.mutexCount
    requires forall u: nat :: u < |w.threads| ==>
      FrameOf(w2, u) == FrameOf(w, u) && w2.threads[u].blockedBy == w.threads[u].blockedBy
        && w2.threads[u].active == w.threads[u].active
    ensures ReadyFor(w2, t)
  {
    OthersUnconcerned(w, w2, t);
    forall c | c in w2.conditions
      ensures QueueOk(w2, c)
    {
      assert QueueOk(w, c);
      assert forall x: nat :: InQueue(w2, c, x) <==> InQueue(w, c, x);
    }
    assert forall m :: m in w2.mutexes ==> MutexOk(w, m);
  }

  /** A coroutine goes on as its own thread, unblocked; and only those who waited for a time can have timed out. */
  lemma {:induction false} EpilogueSucceeds(w: World)
    requires Contexts(w) && ReadyFor(w, w.current)
    ensures !Misplaced(w) && !EpilogueFails(w)
  {
    CurrentHasCoroutine(w);
    hide WellBlocked, Contexts, Waiting;
    var t := w.current;
    if FrameOf(w, t).CondWait? {
      assert QueueOk(w, FrameOf(w, t).cond);
    }
  }

  lemma {:induction false} EpilogueKeeps(w: World)
    requires Contexts(w) && ReadyFor(w, w.current)
    ensures var w2 := Epilogue(w);
      && !Misplaced(w) && !EpilogueFails(w)
      && Running(w2) && w2.current == w.current && w2.threads == w.threads && w2.cpu == w.cpu
      && w2.mutexes == w.mutexes && w2.semaphores == w.semaphores && w2.memory == w.memory
  {
    var w2 := Epilogue(w);
    var t := w.current;
    EpilogueSucceeds(w);
    EpilogueContexts(w);
    EpilogueFrames(w);
    EpilogueQueues(w);
    NotBlockedOk(w2, t);
    hide WellBlocked, Epilogue, Contexts;
    OthersUnconcerned(w, w2, t);
    assert forall m :: m in w2.mutexes ==> MutexOk(w, m);
  }

  lemma {:induction false} EpilogueContexts(w: World)
    requires Contexts(w) && w.threads[w.current].active
    ensures Contexts(Epilogue(w)) && FrameOf(Epilogue(w), w.current).Ordinary?
  {
    var w2 := Epilogue(w);
    forall u: nat | u < |w.threads|
      ensures Holds(w2, u)
    {
      assert Holds(w, u);
    }
  }

  /** What the epilogue leaves alone. */
  lemma {:induction false} EpilogueFrames(w: World)
    requires Contexts(w) && w.threads[w.current].active
    ensures var w2 := Epilogue(w);
      && w2.current == w.current && w2.threads == w.threads && w2.cpu == w.cpu && w2.mutexes == w.mutexes
      && w2.mutexCount == w.mutexCount
      && w2.semaphores == w.semaphores && w2.memory == w.memory && w2.conditions.Keys == w.conditions.Keys
      && forall u: nat :: u < |w.threads| && u != w.current ==> FrameOf(w2, u) == FrameOf(w, u) && SameCondFor(w, w2, u)
  {
    forall u: nat | u < |w.threads| && u != w.current
      ensures SameCondFor(w, Epilogue(w), u)
    {
      EpilogueElsewhere(w, u);
    }
    hide SameCondFor;
  }

  lemma {:induction false} EpilogueElsewhere(w: World, u: nat)
    requires u != w.current
    ensures SameCondFor(w, Epilogue(w), u)
  {
  }

  lemma {:induction false} NotBlockedOk(w: World, t: nat)
    requires t < |w.threads| && w.threads[t].blockedBy.NotBlocked? && FrameOf(w, t).Ordinary?
    ensures WellBlocked(w, t)
  {
  }

  lemma {:induction false} EpilogueQueues(w: World)
    requires Contexts(w) && SyncOk(w) && w.threads[w.current].active
    ensures forall c :: c in Epilogue(w).conditions ==> QueueOk(Epilogue(w), c)
  {
    EpilogueFrames(w);
    forall c | c in Epilogue(w).conditions
      ensures QueueOk(Epilogue(w), c)
    {
      EpilogueQueue(w, c);
    }
  }

  lemma {:induction false} EpilogueQueue(w: World, c: nat)
    requires Contexts(w) && w.threads[w.current].active && c in w.conditions && QueueOk(w, c)
    ensures c in Epilogue(w).conditions && QueueOk(Epilogue(w), c)
  {
    var w2 := Epilogue(w);
    EpilogueFrames(w);
    EpilogueCond(w, c);
    hide Epilogue, Contexts;
    assert forall x: nat :: InQueue(w2, c, x) <==> InQueue(w, c, x);
  }

  lemma {:induction false} EpilogueCond(w: World, c: nat)
    requires Contexts(w) && w.threads[w.current].active && c in w.conditions && QueueOk(w, c)
    ensures var a, b := w.conditions[c], Epilogue(w).conditions[c];
      b.waiting == a.waiting && b.waking == a.waking && b.timedOut == a.timedOut - {w.current}
  {
    hide WellBlocked;
  }

  /** How the executor gets from one running thread to the next. */
  ghost predicate DispatchOk(w: World, r: Outcome) {
    match r
    case Resumed(w2) =>
      && Running(w2) && |w2.threads| == |w.threads|
      && (forall u: nat :: u < |w.threads| ==> RegistersOf(w2, u) == RegistersOf(w, u))
      && (FrameOf(w, w2.current).CondWait? ==> OwnsMutexOf(w2, w2.current, FrameOf(w, w2.current)))
    case Asleep => true
    case Crashed => false
  }

  lemma {:induction false} SameContextsFacts(w: World, w2: World, t: nat)
    requires SameContexts(w, w2) && t < |w.threads|
    ensures RegistersOf(w2, t) == RegistersOf(w, t) && FrameOf(w2, t) == FrameOf(w, t)
  {
    assert SameButBlock(w.threads[t], w2.threads[t]);
  }

  /**
   Handing over control never fails an assertion or an unwrap, loses no thread's registers, and a thread
   that was waiting on a condition variable, woken or timed out, goes on as the owner of its mutex.
   */
  lemma {:induction false} DispatchKeeps(w: World, clocks: seq<Clock>)
    requires Contexts(w) && Waiting(w)
    ensures DispatchOk(w, Dispatch(w, clocks))
  {
    hide Contexts, Waiting, WellBlocked, Schedule, SwitchThread, Epilogue, EpilogueFails, Misplaced, SyncOk;
    ScheduleKeeps(w, clocks);
    match Schedule(w, clocks)
    case Nothing(_, _) =>
    case Found(w2, t) =>
      forall u: nat | u < |w.threads|
        ensures RegistersOf(w2, u) == RegistersOf(w, u) && FrameOf(w2, u) == FrameOf(w, u)
      {
        SameContextsFacts(w, w2, u);
      }
      if t == w2.current {
        CurrentHasCoroutine(w2);
        EpilogueKeeps(w2);
        EpilogueConditions(w2);
      } else {
        SwitchKeeps(w2, t);
        var w3 := SwitchThread(w2, t).value;
        ReadyAfterSwitch(w2, w3, t);
        EpilogueKeeps(w3);
        EpilogueConditions(w3);
      }
  }

  lemma {:induction false} CurrentHasCoroutine(w: World)
    requires Contexts(w) && w.threads[w.current].active
    ensures w.running.Some? && w.running.value.thread == w.current
  {
  }

  lemma {:induction false} EpilogueConditions(w: World)
    ensures Epilogue(w).conditions.Keys == w.conditions.Keys
  {
  }

  // ----- actions that do not yield

  /** Changing one mutex, or adding one. */
  lemma {:induction false} MutexChangeKeeps(w: World, w2: World, m: nat)
    requires Running(w) && w2 == w.(mutexes := w2.mutexes, mutexCount := w2.mutexCount) && w.mutexCount <= w2.mutexCount
    requires w2.mutexes.Keys == w.mutexes.Keys + {m} && (forall k :: k in w.mutexes && k != m ==>
      w2.mutexes[k] == w.mutexes[k]) && MutexOk(w2, m)
    ensures Running(w2)
  {
    hide WellBlocked, Contexts;
    assert Contexts(w2) by { ContextsOfMutexes(w, w2); }
    forall k | k in w2.mutexes
      ensures MutexOk(w2, k)
    {
      assert k != m ==> MutexOk(w, k);
    }
    SameQueues(w, w2);
    OthersUnconcerned(w, w2, -1);
  }

  lemma {:induction false} ContextsOfMutexes(w: World, w2: World)
    requires Contexts(w) && w2.threads == w.threads && w2.current == w.current && w2.running == w.running
    ensures Contexts(w2)
  {
    forall u: nat | u < |w.threads|
      ensures Holds(w2, u)
    {
      assert Holds(w, u);
    }
  }

  lemma {:induction false} SameQueues(w: World, w2: World)
    requires (forall c :: c in w.conditions ==> QueueOk(w, c)) && w2.conditions == w.conditions
    requires w2.threads == w.threads && w2.current == w.current && w2.running == w.running
    ensures forall c :: c in w2.conditions ==> QueueOk(w2, c)
  {
    forall c | c in w2.conditions
      ensures QueueOk(w2, c)
    {
      assert QueueOk(w, c);
      assert forall x: nat :: InQueue(w2, c, x) <==> InQueue(w, c, x);
      assert forall x: nat :: x < |w.threads| ==> FrameOf(w2, x) == FrameOf(w, x);
    }
  }

  lemma {:induction false} LockKeeps(w: World, m: nat)
    requires Running(w) && m in w.mutexes
    ensures var r := LockMutex(w, m);
      (r.Done? || r.MustWait? ==>
        Running(r.world) && r.world.threads == w.threads && r.world.running == w.running && r.world.cpu == w.cpu
        && r.world.current == w.current && m in r.world.mutexes)
  {
    hide Contexts, OthersWellBlocked;
    assert MutexOk(w, m);
    var r := LockMutex(w, m);
    if r.Done? || r.MustWait? {
      MutexChangeKeeps(w, r.world, m);
    }
  }

  lemma {:induction false} UnlockKeeps(w: World, m: nat)
    requires Running(w) && m in w.mutexes
    ensures var r := UnlockMutex(w, m);
      !r.MustWait? && (r.Done? ==>
        Running(r.world) && r.world == w.(mutexes := r.world.mutexes) && m in r.world.mutexes)
  {
    hide Contexts, OthersWellBlocked;
    assert MutexOk(w, m);
    var r := UnlockMutex(w, m);
    if r.Done? {
      MutexChangeKeeps(w, r.world, m);
    }
  }

  lemma {:induction false} InitMutexKeeps(w: World, kind: MutexKind)
    requires Running(w)
    ensures var r := Perform(w, InitMutex(kind), []);
      r.Resumed? && Running(r.world) && r.world.threads == w.threads && r.world.cpu == w.cpu
      && r.world.current == w.current
  {
    MutexChangeKeeps(w, Perform(w, InitMutex(kind), []).world, w.mutexCount);
  }

  lemma {:induction false} SemaphoreChangeKeeps(w: World, semaphores: map<nat, int>)
    requires Running(w) && w.semaphores.Keys <= semaphores.Keys
    ensures Running(w.(semaphores := semaphores))
  {
    hide WellBlocked, Contexts;
    var w2 := w.(semaphores := semaphores);
    assert Contexts(w2) by { ContextsOfMutexes(w, w2); }
    SameQueues(w, w2);
    assert forall m :: m in w2.mutexes ==> MutexOk(w, m);
    OthersUnconcerned(w, w2, -1);
  }

  /** Moving threads from a condition's waiting queue to its waking queue. */
  lemma {:induction false} MoveKeeps(w: World, w2: World, c: nat)
    requires Running(w) && c in w.conditions && w2 == w.(conditions := w2.conditions)
      && w2.conditions.Keys == w.conditions.Keys
    requires forall k :: k in w.conditions && k != c ==> w2.conditions[k] == w.conditions[k]
    requires var a, b := w.conditions[c], w2.conditions[c];
      b.mutex == a.mutex && b.timedOut == a.timedOut && b.waking + b.waiting == a.waking + a.waiting
    ensures Running(w2)
  {
    hide WellBlocked, Contexts;
    assert Contexts(w2) by { ContextsOfMutexes(w, w2); }
    assert forall m :: m in w2.mutexes ==> MutexOk(w, m);
    SplitElsewhere(w.conditions[c].waking, w.conditions[c].waiting, w2.conditions[c].waking, w2.conditions[c].waiting);
    forall k | k in w2.conditions
      ensures QueueOk(w2, k)
    {
      assert QueueOk(w, k);
      assert forall x: nat :: InQueue(w2, k, x) <==> InQueue(w, k, x);
      assert forall x: nat :: x < |w.threads| ==> FrameOf(w2, x) == FrameOf(w, x);
    }
    OthersUnconcerned(w, w2, -1);
  }

  /** Where a sequence without duplicates is cut does not matter. */
  lemma {:induction false} SplitElsewhere(a: seq<nat>, b: seq<nat>, c: seq<nat>, d: seq<nat>)
    requires a + b == c + d && NoRepeats(a) && NoRepeats(b) && forall x :: x in b ==> x !in a
    ensures NoRepeats(c) && NoRepeats(d) && (forall x :: x in d ==> x !in c)
    ensures forall x :: x in c || x in d <==> x in a || x in b
  {
    var s := a + b;
    assert forall i :: 0 <= i < |s| ==> s[i] == if i < |a| then a[i] else b[i - |a|];
    forall i, j | 0 <= i < j < |s|
      ensures s[i] != s[j]
    {
      if i < |a| <= j {
        assert s[j] in b;
      }
    }
    assert forall i :: 0 <= i < |c| ==> c[i] == s[i];
    assert forall i :: 0 <= i < |d| ==> d[i] == s[i + |c|];
    assert forall x :: x in s <==> x in a || x in b;
    assert forall x :: x in c + d <==> x in c || x in d;
  }

  lemma {:induction false} SignalKeeps(w: World, c: nat)
    requires Running(w) && c in w.conditions
    ensures Running(SignalOne(w, c)) && Running(WakeAll(w, c))
  {
    hide Contexts, Waiting;
    var cond := w.conditions[c];
    if cond.waiting != [] {
      assert [cond.waiting[0]] + cond.waiting[1..] == cond.waiting;
      assert (cond.waking + [cond.waiting[0]]) + cond.waiting[1..] == cond.waking + cond.waiting;
      MoveKeeps(w, SignalOne(w, c), c);
    }
    assert (cond.waking + cond.waiting) + [] == cond.waking + cond.waiting;
    MoveKeeps(w, WakeAll(w, c), c);
  }

  /** A condition variable that no thread waits on can be initialised, even once more. */
  lemma {:induction false} InitCondKeeps(w: World, c: nat)
    requires Running(w) && !Awaited(w, c)
    ensures Running(w.(conditions := w.conditions[c := CondObject([], [], None, {})]))
  {
    var w2 := w.(conditions := w.conditions[c := CondObject([], [], None, {})]);
    assert Contexts(w2) by { ContextsOfMutexes(w, w2); }
    forall u: nat | u < |w.threads|
      ensures WellBlocked(w2, u)
    {
      UnconcernedByInit(w, w2, c, u);
    }
    hide WellBlocked, Contexts;
    assert forall m :: m in w2.mutexes ==> MutexOk(w, m);
    forall k | k in w2.conditions
      ensures QueueOk(w2, k)
    {
      if k != c {
        assert QueueOk(w, k);
        assert forall x: nat :: InQueue(w2, k, x) <==> InQueue(w, k, x);
        assert forall x: nat :: x < |w.threads| ==> FrameOf(w2, x) == FrameOf(w, x);
      }
    }
  }

  lemma {:induction false} UnconcernedByInit(w: World, w2: World, c: nat, u: nat)
    requires Running(w) && !Awaited(w, c) && u < |w.threads|
    requires w2 == w.(conditions := w.conditions[c := CondObject([], [], None, {})])
    ensures WellBlocked(w2, u)
  {
    assert WellBlocked(w, u) && Holds(w, u);
    if Base(w.threads[u].blockedBy).Condition? {
      assert WaitsOn(w.threads[u].blockedBy, Base(w.threads[u].blockedBy).cond);
    }
  }

  /** Suspending or resuming another thread does not touch what it is blocked by underneath. */
  lemma {:induction false} RebaseKeeps(w: World, t: nat, b: Block)
    requires Running(w) && t < |w.threads| && t != w.current && Base(b) == Base(w.threads[t].blockedBy)
    requires b.Suspended? ==> b.count > 0 && !b.previous.Suspended?
    ensures Running(SetBlock(w, t, b))
  {
    var w2 := SetBlock(w, t, b);
    assert WellBlocked(w2, t) by { assert WellBlocked(w, t); }
    hide WellBlocked;
    OthersUnconcerned(w, w2, t);
    forall c | c in w2.conditions
      ensures QueueOk(w2, c)
    {
      assert QueueOk(w, c);
      assert forall x: nat :: InQueue(w2, c, x) <==> InQueue(w, c, x);
      assert forall x: nat :: x < |w.threads| ==> FrameOf(w2, x) == FrameOf(w, x);
    }
    assert forall m :: m in w2.mutexes ==> MutexOk(w, m);
    forall u: nat | u < |w.threads|
      ensures Holds(w2, u)
    {
      assert Holds(w, u);
    }
  }

  lemma {:induction false} SuspendKeeps(w: World, t: nat)
    requires Running(w) && t < |w.threads| && t != w.current
    ensures Running(SuspendOther(w, t)) && SuspendOther(w, t).threads[t].blockedBy.Suspended?
  {
    assert WellBlocked(w, t);
    hide Waiting, Contexts, WellBlocked;
    RebaseKeeps(w, t, SuspendOther(w, t).threads[t].blockedBy);
  }

  lemma {:induction false} ResumeKeeps(w: World, t: nat)
    requires Running(w) && t < |w.threads|
    ensures ResumeThread(w, t).Some? && Running(ResumeThread(w, t).value)
  {
    assert WellBlocked(w, t);
    if w.threads[t].blockedBy.Suspended? {
      hide Waiting, Contexts, WellBlocked;
      RebaseKeeps(w, t, ResumeThread(w, t).value.threads[t].blockedBy);
    }
  }

  /** Suspensions nest: resuming as often as suspending restores what a thread is blocked by. */
  lemma {:induction false} ResumeUndoesSuspend(w: World, t: nat)
    requires Running(w) && t < |w.threads| && t != w.current
    ensures ResumeThread(SuspendOther(w, t), t) == Some(w)
  {
    assert WellBlocked(w, t);
    var w2 := ResumeThread(SuspendOther(w, t), t).value;
    assert w2.threads[t] == w.threads[t];
    assert w2.threads == w.threads;
  }

  lemma {:induction false} NewThreadKeeps(w: World, stackAddr: nat, blank: Registers)
    requires Running(w)
    ensures Running(NewThread(w, stackAddr, blank))
  {
    var w2 := NewThread(w, stackAddr, blank);
    var n := |w.threads|;
    assert WellBlocked(w2, n);
    hide WellBlocked;
    forall u: nat | u < n
      ensures WellBlocked(w2, u) && Holds(w2, u)
    {
      assert Holds(w, u);
      WellBlockedFrame(w, w2, u);
    }
    forall c | c in w2.conditions
      ensures QueueOk(w2, c)
    {
      assert QueueOk(w, c);
      assert forall x: nat :: InQueue(w2, c, x) <==> InQueue(w, c, x);
      assert forall x: nat :: x < n ==> FrameOf(w2, x) == FrameOf(w, x);
    }
    assert forall m :: m in w2.mutexes ==> MutexOk(w, m);
    assert Holds(w2, n);
  }

  // ----- actions that yield

  /** The state the executor sees after the current thread has blocked itself. */
  function Blocked(w: World, block: Block, frame: Frame): World
    requires w.current < |w.threads| && w.running.Some?
  {
    SetBlock(w, w.current, block).(running := Some(w.running.value.(frame := frame)))
  }

  lemma {:induction false} BlockingKeeps(w: World, block: Block)
    requires Running(w) && !Base(block).Condition? && (block.Suspended? ==> block == Suspended(1, NotBlocked))
    requires Base(block).Semaphore? ==> Base(block).sem in w.semaphores
    requires Base(block).Mutex? ==> Base(block).mutex in w.mutexes
    requires Base(block).Joining? ==> Base(block).joinee < |w.threads|
    ensures w.running.Some? && var w2 := Blocked(w, block, Ordinary);
      && Contexts(w2) && Waiting(w2) && |w2.threads| == |w.threads|
      && (forall u: nat :: u < |w.threads| ==> RegistersOf(w2, u) == RegistersOf(w, u))
  {
    var t := w.current;
    var w2 := Blocked(w, block, Ordinary);
    assert WellBlocked(w2, t) && FrameOf(w, t).Ordinary? by { assert WellBlocked(w, t); }
    hide WellBlocked;
    OthersUnconcerned(w, w2, t);
    forall c | c in w2.conditions
      ensures QueueOk(w2, c)
    {
      assert QueueOk(w, c);
      assert forall x: nat :: InQueue(w2, c, x) <==> InQueue(w, c, x);
      assert forall x: nat :: x < |w.threads| ==> FrameOf(w2, x) == FrameOf(w, x);
    }
    assert forall m :: m in w2.mutexes ==> MutexOk(w, m);
    forall u: nat | u < |w.threads|
      ensures Holds(w2, u)
    {
      assert Holds(w, u);
    }
  }

  lemma {:induction false} YieldKeeps(w: World, block: Block, clocks: seq<Clock>)
    requires Running(w) && !Base(block).Condition? && (block.Suspended? ==> block == Suspended(1, NotBlocked))
    requires Base(block).Semaphore? ==> Base(block).sem in w.semaphores
    requires Base(block).Mutex? ==> Base(block).mutex in w.mutexes
    requires Base(block).Joining? ==> Base(block).joinee < |w.threads|
    ensures StepOk(w, Yield(w, block, Ordinary, clocks))
  {
    hide Waiting, Contexts, Dispatch;
    BlockingKeeps(w, block);
    assert w.current < |w.threads| by { CurrentExists(w); }
    DispatchKeeps(Blocked(w, block, Ordinary), clocks);
  }

  lemma {:induction false} CurrentExists(w: World)
    requires Running(w)
    ensures w.current < |w.threads| && w.running.Some? && WellBlocked(w, w.current) && FrameOf(w, w.current).Ordinary?
    ensures forall c :: c in w.conditions ==> !InQueue(w, c, w.current) && w.current !in w.conditions[c].timedOut
  {
    assert WellBlocked(w, w.current);
    assert forall c :: c in w.conditions ==> QueueOk(w, c);
  }

  /** Whatever an action is, it ends with some thread running, all threads' registers as they were. */
  ghost predicate StepOk(w: World, r: Outcome) {
    match r
    case Resumed(w2) => Running(w2) && |w.threads| <= |w2.threads| && forall u: nat :: u < |w.threads| ==>
      RegistersOf(w2, u) == RegistersOf(w, u)
    case Asleep => true
    case Crashed => false
  }

  /** Blocking the current thread moves nobody's registers or coroutine. */
  lemma {:induction false} BlockedContexts(w: World, block: Block, frame: Frame)
    requires Contexts(w) && w.threads[w.current].active
    ensures var w2 := Blocked(w, block, frame);
      && Contexts(w2) && |w2.threads| == |w.threads| && w2.current == w.current && w2.mutexCount == w.mutexCount
      && w2.mutexes == w.mutexes && w2.semaphores == w.semaphores && w2.conditions == w.conditions
      && w2.threads[w.current].blockedBy == block
      && (forall u: nat :: u < |w.threads| ==> RegistersOf(w2, u) == RegistersOf(w, u))
      && (forall u: nat :: u < |w.threads| && u != w.current ==>
        FrameOf(w2, u) == FrameOf(w, u) && w2.threads[u].blockedBy == w.threads[u].blockedBy)
  {
    var w2 := Blocked(w, block, frame);
    forall u: nat | u < |w.threads|
      ensures Holds(w2, u)
    {
      assert Holds(w, u);
    }
  }

  lemma {:induction false} EnqueueElsewhere(w: World, c: nat, m: nat, u: nat)
    requires c in w.conditions && Enqueue(w, c, m).Some? && u != w.current
    ensures SameCondFor(w, Enqueue(w, c, m).value, u)
  {
  }

  lemma {:induction false} WaitingKeeps(w: World, c: nat, m: nat, deadline: Option<nat>)
    requires Running(w) && Allowed(w, Wait(c, m, deadline))
    ensures Enqueue(w, c, m).Some? && w.running.Some? && var w2 :=
      Blocked(Enqueue(w, c, m).value, Condition(c, deadline), CondWait(c, m, deadline.Some?));
      && Contexts(w2) && Waiting(w2) && |w2.threads| == |w.threads|
      && (forall u: nat :: u < |w.threads| ==> RegistersOf(w2, u) == RegistersOf(w, u))
  {
    var t := w.current;
    CurrentExists(w);
    var w1 := Enqueue(w, c, m).value;
    EnqueueFrame(w, c, m);
    ContextsOfMutexes(w, w1);
    var w2 := Blocked(w1, Condition(c, deadline), CondWait(c, m, deadline.Some?));
    BlockedContexts(w1, Condition(c, deadline), CondWait(c, m, deadline.Some?));
    NewWaiterOk(w, w2, c, m, deadline);
    forall u: nat | u < |w.threads| && u != t
      ensures SameCondFor(w, w2, u) && FrameOf(w2, u) == FrameOf(w, u)
    {
      EnqueueElsewhere(w, c, m, u);
    }
    NewWaiterQueues(w, w2, c, m);
    hide WellBlocked, Contexts, SameCondFor, Blocked, Enqueue, FrameOf, QueueOk;
    OthersUnconcerned(w, w2, t);
    assert forall k :: k in w2.mutexes ==> MutexOk(w, k);
  }

  lemma {:induction false} NewWaiterOk(w: World, w2: World, c: nat, m: nat, deadline: Option<nat>)
    requires Running(w) && Allowed(w, Wait(c, m, deadline)) && Enqueue(w, c, m).Some? && w.running.Some?
    requires w2 == Blocked(Enqueue(w, c, m).value, Condition(c, deadline), CondWait(c, m, deadline.Some?))
    ensures WellBlocked(w2, w.current)
  {
    CurrentExists(w);
  }

  lemma {:induction false} NewWaiterQueues(w: World, w2: World, c: nat, m: nat)
    requires Running(w) && c in w.conditions && Enqueue(w, c, m).Some? && |w2.threads| == |w.threads|
    requires w2.conditions == Enqueue(w, c, m).value.conditions && WaitsOn(w2.threads[w.current].blockedBy, c)
    requires forall u: nat :: u < |w.threads| && u != w.current ==>
      FrameOf(w2, u) == FrameOf(w, u) && w2.threads[u].blockedBy == w.threads[u].blockedBy
    ensures forall k :: k in w2.conditions ==> QueueOk(w2, k)
  {
    CurrentExists(w);
    forall k | k in w2.conditions
      ensures QueueOk(w2, k)
    {
      assert QueueOk(w, k) && !InQueue(w, k, w.current);
      if k == c {
        assert forall x: nat :: InQueue(w2, c, x) <==> x == w.current || InQueue(w, c, x);
      } else {
        assert forall x: nat :: InQueue(w2, k, x) <==> InQueue(w, k, x);
      }
    }
  }

  lemma {:induction false} WaitForKeeps(w: World, c: nat, m: nat, deadline: Option<nat>, clocks: seq<Clock>)
    requires Running(w) && Allowed(w, Wait(c, m, deadline))
    ensures StepOk(w, WaitFor(w, c, m, deadline, clocks))
  {
    hide Waiting, Contexts, Dispatch, UnlockMutex, Enqueue, RegistersOf;
    UnlockKeeps(w, m);
    match UnlockMutex(w, m)
    case Done(w2, _) =>
      CurrentExists(w2);
      WaitingKeeps(w2, c, m, deadline);
      var w3 := Enqueue(w2, c, m).value;
      assert w3.threads == w2.threads && w3.current == w2.current
        && w3.running == w2.running by { EnqueueFrame(w2, c, m); }
      DispatchKeeps(Blocked(w3, Condition(c, deadline), CondWait(c, m, deadline.Some?)), clocks);
      RegistersFrame(w, w2);
    case _ =>
  }

  lemma {:induction false} EnqueueFrame(w: World, c: nat, m: nat)
    requires c in w.conditions && Enqueue(w, c, m).Some?
    ensures Enqueue(w, c, m).value == w.(conditions := Enqueue(w, c, m).value.conditions)
  {
  }

  lemma {:induction false} RegistersFrame(w: World, w2: World)
    requires w2.threads == w.threads && w2.cpu == w.cpu && w2.current == w.current
    ensures forall u: nat :: u < |w.threads| ==> RegistersOf(w2, u) == RegistersOf(w, u)
  {
  }

  lemma {:induction false} FinishKeeps(w: World, value: nat)
    requires Running(w) && w.current != 0
    ensures w.current < |w.threads| && var w2 := Finish(w, value);
      && Contexts(w2) && Waiting(w2) && |w2.threads| == |w.threads| && forall u: nat :: u < |w.threads| ==>
        RegistersOf(w2, u) == RegistersOf(w, u)
  {
    var w2 := Finish(w, value);
    CurrentExists(w);
    assert WellBlocked(w2, w.current);
    hide WellBlocked;
    OthersUnconcerned(w, w2, w.current);
    forall c | c in w2.conditions
      ensures QueueOk(w2, c)
    {
      assert QueueOk(w, c);
      assert forall x: nat :: InQueue(w2, c, x) <==> InQueue(w, c, x);
      assert forall x: nat :: x < |w.threads| ==> FrameOf(w2, x) == FrameOf(w, x);
    }
    assert forall m :: m in w2.mutexes ==> MutexOk(w, m);
    forall u: nat | u < |w.threads|
      ensures Holds(w2, u)
    {
      assert Holds(w, u);
    }
  }

  lemma {:induction false} StackIsThere(w: World)
    requires Running(w)
    ensures w.current < |w.threads| && w.threads[w.current].stack.Some?
  {
    CurrentExists(w);
    assert Holds(w, w.current);
  }

  lemma {:induction false} ExitKeeps(w: World, value: nat, clocks: seq<Clock>)
    requires Running(w) && w.current != 0
    ensures w.current < |w.threads| && StepOk(w, Dispatch(Finish(w, value), clocks))
  {
    hide Dispatch, Finish;
    FinishKeeps(w, value);
    hide Running;
    DispatchKeeps(Finish(w, value), clocks);
  }

  // ----- every action, and whole runs

  /** What any action guarantees. Only computing changes registers, and only those of the current thread. */
  ghost predicate ActionOk(w: World, a: Action, r: Outcome) {
    match r
    case Resumed(w2) =>
      Running(w2) && |w.threads| <= |w2.threads|
      && forall u: nat :: u < |w.threads| && !(a.Compute? && u == w.current) ==> RegistersOf(w2, u) == RegistersOf(w, u)
    case Asleep => true
    case Crashed => false
  }

  lemma {:induction false} YieldActionKeeps(w: World, a: Action, clocks: seq<Clock>)
    requires Running(w) && w.current < |w.threads| && Allowed(w, a)
    requires a.TimeSlice? || a.Sleep? || a.Join? || a.Exit? || a.Wait? || a.SemWait?
    ensures ActionOk(w, a, Perform(w, a, clocks))
  {
    hide Running, Yield, WaitFor, Dispatch;
    match a
    case TimeSlice => YieldKeeps(w, NotBlocked, clocks);
    case Sleep(until) => YieldKeeps(w, Sleeping(until), clocks);
    case Join(j, ptr) => YieldKeeps(w, Joining(j, ptr), clocks);
    case Exit(value) =>
      StackIsThere(w);
      ExitKeeps(w, value, clocks);
    case Wait(c, m, deadline) => WaitForKeeps(w, c, m, deadline, clocks);
    case SemWait(s) =>
      if w.semaphores[s] > 0 {
        SemaphoreChangeKeeps(w, w.semaphores[s := w.semaphores[s] - 1]);
      } else {
        YieldKeeps(w, Semaphore(s), clocks);
      }
  }

  lemma {:induction false} MutexActionKeeps(w: World, m: nat, a: Action, clocks: seq<Clock>)
    requires Running(w) && w.current < |w.threads| && m in w.mutexes && (a == Lock_(m) || a == Unlock(m))
    ensures ActionOk(w, a, Perform(w, a, clocks))
  {
    hide Contexts, Waiting, LockMutex, UnlockMutex, Yield;
    LockKeeps(w, m);
    UnlockKeeps(w, m);
    if a.Lock_? && LockMutex(w, m).MustWait? {
      YieldKeeps(LockMutex(w, m).world, Mutex(m), clocks);
    }
  }

  lemma {:induction false} SuspendActionKeeps(w: World, t: nat, clocks: seq<Clock>)
    requires Running(w) && w.current < |w.threads| && t < |w.threads|
    ensures ActionOk(w, Suspend(t), Perform(w, Suspend(t), clocks))
      && ActionOk(w, Resume(t), Perform(w, Resume(t), clocks))
  {
    hide Contexts, Waiting, Yield;
    assert w.threads[w.current].blockedBy.NotBlocked?;
    ResumeKeeps(w, t);
    if t == w.current {
      YieldKeeps(w, Suspended(1, NotBlocked), clocks);
    } else {
      SuspendKeeps(w, t);
    }
  }

  /**
   No action of a running thread fails an assertion or an unwrap; it ends with some thread running, and
   every thread's registers are what they were, wherever they are kept meanwhile.
   */
  lemma {:induction false} PerformKeeps(w: World, a: Action, clocks: seq<Clock>)
    requires Running(w) && w.current < |w.threads| && Allowed(w, a)
    ensures ActionOk(w, a, Perform(w, a, clocks))
  {
    hide Contexts, Waiting, Yield, LockMutex, UnlockMutex, WaitFor, Dispatch;
    match a
    case Compute(regs) => ComputeKeeps(w, regs);
    case Create(stackAddr) => NewThreadKeeps(w, stackAddr, seq(16, _ => 0));
    case Suspend(t) => SuspendActionKeeps(w, t, clocks);
    case Resume(t) => SuspendActionKeeps(w, t, clocks);
    case SemInit(s, value) => SemaphoreChangeKeeps(w, w.semaphores[s := value]);
    case SemPost(s) => SemaphoreChangeKeeps(w, w.semaphores[s := w.semaphores[s] + 1]);
    case SemTryWait(s) => SemaphoreChangeKeeps(w, w.semaphores[s := w.semaphores[s] - 1]);
    case InitMutex(kind) => InitMutexKeeps(w, kind);
    case Lock_(m) => MutexActionKeeps(w, m, a, clocks);
    case Unlock(m) => MutexActionKeeps(w, m, a, clocks);
    case InitCond(c) => InitCondKeeps(w, c);
    case Signal(c) => SignalKeeps(w, c);
    case Broadcast(c) => SignalKeeps(w, c);
    case _ => YieldActionKeeps(w, a, clocks);
  }

  lemma {:induction false} ComputeKeeps(w: World, regs: Registers)
    requires Running(w)
    ensures ActionOk(w, Compute(regs), Resumed(w.(cpu := regs)))
  {
    hide WellBlocked;
    var w2 := w.(cpu := regs);
    ContextsOfMutexes(w, w2);
    SameQueues(w, w2);
    assert forall m :: m in w2.mutexes ==> MutexOk(w, m);
    OthersUnconcerned(w, w2, -1);
  }

  datatype Turn = Turn(action: Action, clocks: seq<Clock>)

  /** `worlds` are the states after each of `turns`, starting from `w`. */
  ghost predicate Run(w: World, turns: seq<Turn>, worlds: seq<World>)
    decreases |turns|
  {
    |worlds| == |turns| && (turns != [] ==>
      && w.current < |w.threads| && Allowed(w, turns[0].action)
      && Perform(w, turns[0].action, turns[0].clocks) == Resumed(worlds[0])
      && Run(worlds[0], turns[1..], worlds[1..]))
  }

  function EndOf(w: World, worlds: seq<World>): World {
    if worlds == [] then w else worlds[|worlds| - 1]
  }

  /** Thread `t` computes in none of the turns. */
  ghost predicate NeverComputes(t: nat, w: World, turns: seq<Turn>, worlds: seq<World>)
    requires |worlds| == |turns|
    decreases |turns|
  {
    turns != [] ==>
      !(turns[0].action.Compute? && w.current == t) && NeverComputes(t, worlds[0], turns[1..], worlds[1..])
  }

  /** The machine before the main thread first runs: its coroutine has been handed to the run loop. */
  function Initial(cpu: Registers, stackAddr: nat): World {
    World([Thread(true, NotBlocked, None, None, None, Some(stackAddr))], 0, cpu, Some(Coroutine(0, Ordinary)), map[],
      0, map[], map[], map[])
  }

  lemma {:induction false} InitialRunning(cpu: Registers, stackAddr: nat)
    ensures Running(Initial(cpu, stackAddr))
  {
    var w := Initial(cpu, stackAddr);
    assert WellBlocked(w, 0) && Holds(w, 0);
  }

  /** Over any run: the invariant, and the registers of a thread that did not compute, however often it was switched. */
  lemma {:induction false} RunKeeps(w: World, turns: seq<Turn>, worlds: seq<World>, t: nat)
    requires Running(w) && Run(w, turns, worlds) && t < |w.threads|
    ensures var end := EndOf(w, worlds);
      Running(end) && t < |end.threads| && (NeverComputes(t, w, turns, worlds) ==>
        RegistersOf(end, t) == RegistersOf(w, t))
    decreases |turns|
  {
    hide Running, Perform, RegistersOf;
    if turns != [] {
      PerformKeeps(w, turns[0].action, turns[0].clocks);
      RunKeeps(worlds[0], turns[1..], worlds[1..], t);
      assert EndOf(worlds[0], worlds[1..]) == EndOf(w, worlds);
    }
  }
}
