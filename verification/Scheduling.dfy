/**
 What the scheduler chooses: the first ready thread in cyclic order, repeatably, and nobody who is ready
 waits for more than one round. Semaphore units are neither made nor lost.
 */
module Scheduling {
  import opened Common
  import opened ThreadModel
  import opened Threads

  // ----- readiness

  /** Whether a thread could go on at a time, as the things it may wait for stand. */
  predicate Ready(w: World, t: nat, now: nat)
    requires t < |w.threads|
  {
    w.threads[t].active && match w.threads[t].blockedBy
      case NotBlocked => true
      case Sleeping(until) => until <= now
      case Mutex(m) => !IsLocked(w, m)
      case Semaphore(s) => s in w.semaphores && w.semaphores[s] > 0
      case Condition(c, deadline) => c in w.conditions && w.conditions[c].mutex.Some?
        && !IsLocked(w, w.conditions[c].mutex.value)
        && (AtFront(w, c, t) || (deadline.Some? && deadline.value <= now))
      case Joining(j, _) => j < |w.threads| && !w.threads[j].active
      case Suspended(_, _) => false
  }

  predicate AtFront(w: World, c: nat, t: nat) {
    c in w.conditions && w.conditions[c].waking != [] && w.conditions[c].waking[0] == t
  }

  /** A thread in a timed wait that is over. */
  predicate Overdue(w: World, t: nat, now: nat)
    requires t < |w.threads|
  {
    w.threads[t].active && w.threads[t].blockedBy.Condition? && w.threads[t].blockedBy.deadline.Some?
      && w.threads[t].blockedBy.deadline.value <= now
  }

  /** A candidate is chosen exactly when it is ready; passing over it changes nothing unless it is overdue. */
  lemma {:induction false} ChosenMeansReady(w: World, t: nat, now: nat)
    requires Contexts(w) && Waiting(w) && t < |w.threads|
    ensures !Try(w, t, now).Failure? && (Try(w, t, now).Chosen? <==> Ready(w, t, now))
    ensures Try(w, t, now).Passed? && !Overdue(w, t, now) ==> Try(w, t, now).world == w
  {
    hide Contexts, Waiting;
    TryKeeps(w, t, now);
    assert WellBlocked(w, t) by { Except(w, t); }
  }

  /** Passing over one candidate makes nobody ready and nobody unready. */
  lemma {:induction false} PassingKeepsReadiness(w: World, t: nat, now: nat, u: nat, at: nat)
    requires Contexts(w) && Waiting(w) && t < |w.threads| && u < |w.threads| && Try(w, t, now).Passed?
    ensures var w2 := Try(w, t, now).world;
      Ready(w2, u, at) == Ready(w, u, at) && (u != t ==> Overdue(w2, u, at) == Overdue(w, u, at))
        && !Overdue(w2, t, now)
  {
    ChosenMeansReady(w, t, now);
    hide Contexts, Waiting;
    if Overdue(w, t, now) {
      assert WellBlocked(w, t) by { Except(w, t); }
      assert u != t ==> WellBlocked(w, u) by { Except(w, u); }
      var c := w.threads[t].blockedBy.cond;
      assert IsLocked(w, w.conditions[c].mutex.value);
      assert Try(w, t, now).world == SetBlock(TimeOut(w, t, c), t, Mutex(w.conditions[c].mutex.value));
    }
  }

  /** Choosing one candidate makes nobody else ready, and nobody overdue. */
  lemma {:induction false} ChoosingReadiesNobody(w: World, t: nat, now: nat, u: nat, at: nat)
    requires Contexts(w) && Waiting(w) && t < |w.threads| && u < |w.threads| && u != t
    requires Try(w, t, now).Chosen? && !Ready(w, u, at)
    ensures var w2 := Try(w, t, now).world; !Ready(w2, u, at) && Overdue(w2, u, at) == Overdue(w, u, at)
  {
    hide Contexts, Waiting;
    if w.threads[t].blockedBy.Condition? {
      ChoosingWaiter(w, t, now, u, at);
    } else {
      Except(w, u);
      if w.threads[t].blockedBy.Mutex? {
        ChoosingForMutex(w, t, now, u, at);
      } else {
        ChoosingOther(w, t, now, u, at);
      }
    }
    hide Try, Ready, Overdue, WellBlocked;
  }

  lemma {:induction false} ChoosingForMutex(w: World, t: nat, now: nat, u: nat, at: nat)
    requires t < |w.threads| && u < |w.threads| && u != t && WellBlocked(w, u) && w.threads[t].blockedBy.Mutex?
    requires Try(w, t, now).Chosen? && !Ready(w, u, at)
    ensures var w2 := Try(w, t, now).world; !Ready(w2, u, at) && Overdue(w2, u, at) == Overdue(w, u, at)
  {
    hide TryCondition;
  }

  lemma {:induction false} ChoosingOther(w: World, t: nat, now: nat, u: nat, at: nat)
    requires t < |w.threads| && u < |w.threads| && u != t && WellBlocked(w, u)
    requires !w.threads[t].blockedBy.Condition? && !w.threads[t].blockedBy.Mutex?
    requires Try(w, t, now).Chosen? && !Ready(w, u, at)
    ensures var w2 := Try(w, t, now).world; !Ready(w2, u, at) && Overdue(w2, u, at) == Overdue(w, u, at)
  {
    hide TryCondition, Grant;
  }

  /** What waking a thread that waits on condition `c` does to the things other threads wait for. */
  ghost predicate WakesWaiter(w: World, w2: World, t: nat, c: nat)
    requires t < |w.threads|
  {
    && w2.threads == w.threads[t := w.threads[t].(blockedBy := NotBlocked)] && w2.semaphores == w.semaphores
    && w2.conditions.Keys == w.conditions.Keys && (forall k :: k in w.conditions ==>
      w2.conditions[k].mutex == w.conditions[k].mutex)
    && (forall k :: k in w.conditions && k != c ==> w2.conditions[k] == w.conditions[k])
    && c in w.conditions && w.conditions[c].mutex.Some? && !IsLocked(w, w.conditions[c].mutex.value)
    && forall m: nat :: IsLocked(w2, m) <==> m == w.conditions[c].mutex.value || IsLocked(w, m)
  }

  lemma {:induction false} ChosenWaiterEffect(w: World, t: nat, now: nat)
    requires t < |w.threads| && WellBlocked(w, t) && w.threads[t].blockedBy.Condition? && Try(w, t, now).Chosen?
    ensures WakesWaiter(w, Try(w, t, now).world, t, w.threads[t].blockedBy.cond)
  {
  }

  lemma {:induction false} ChoosingWaiter(w: World, t: nat, now: nat, u: nat, at: nat)
    requires Waiting(w) && t < |w.threads| && u < |w.threads| && u != t
    requires Try(w, t, now).Chosen? && w.threads[t].blockedBy.Condition? && !Ready(w, u, at)
    ensures var w2 := Try(w, t, now).world; !Ready(w2, u, at) && Overdue(w2, u, at) == Overdue(w, u, at)
  {
    Except(w, t);
    Except(w, u);
    hide Waiting, Try;
    ChosenWaiterEffect(w, t, now);
    assert w.threads[u].active && w.threads[u].blockedBy.Condition? ==> InQueue(w, w.threads[u].blockedBy.cond, u);
    hide WellBlocked;
  }

  // ----- the first ready thread

  /** The first place in the cyclic order whose thread is ready when looked at. */
  function FirstReady(w: World, clock: Clock, i: nat): Option<nat>
    decreases |w.threads| - i
  {
    if i >= |w.threads| then None
    else if Ready(w, Candidate(w, i), clock(i)) then Some(i)
    else FirstReady(w, clock, i + 1)
  }

  /** The same threads are ready at all times. */
  ghost predicate SameReadiness(w: World, w2: World) {
    |w2.threads| == |w.threads| && w2.current == w.current
    && forall u: nat, at: nat :: u < |w.threads| ==> Ready(w2, u, at) == Ready(w, u, at)
  }

  lemma {:induction false} PassingKeepsAllReadiness(w: World, t: nat, now: nat)
    requires Contexts(w) && Waiting(w) && t < |w.threads| && Try(w, t, now).Passed?
    ensures SameReadiness(w, Try(w, t, now).world)
  {
    hide Contexts, Waiting, Try, Ready;
    forall u: nat, at: nat | u < |w.threads|
      ensures Ready(Try(w, t, now).world, u, at) == Ready(w, u, at)
    {
      PassingKeepsReadiness(w, t, now, u, at);
    }
  }

  lemma {:induction false} FirstReadyFrame(w: World, w2: World, clock: Clock, i: nat)
    requires SameReadiness(w, w2)
    ensures FirstReady(w2, clock, i) == FirstReady(w, clock, i)
    decreases |w.threads| - i
  {
    hide Ready;
    if i < |w.threads| {
      assert Candidate(w2, i) == Candidate(w, i);
      FirstReadyFrame(w, w2, clock, i + 1);
    }
  }

  /** What a scan of the places from `i` on should have found. */
  ghost predicate FoundFirst(w: World, clock: Clock, i: nat, r: Scheduled)
    requires w.threads != []
  {
    match r
    case Found(_, t) => FirstReady(w, clock, i).Some? && t == Candidate(w, FirstReady(w, clock, i).value)
    case Nothing(_, _) => FirstReady(w, clock, i).None?
    case Broken => false
  }

  lemma {:induction false} FoundFirstAfterPass(w: World, w2: World, clock: Clock, i: nat, r: Scheduled)
    requires w.threads != [] && i < |w.threads| && SameReadiness(w, w2) && !Ready(w, Candidate(w, i), clock(i))
    requires FoundFirst(w2, clock, i + 1, r)
    ensures FoundFirst(w, clock, i, r)
  {
    hide Ready;
    FirstReadyFrame(w, w2, clock, i + 1);
    SameOrder(w, w2);
  }

  /** A scan finds the first ready thread of the state it started from, and fails only if there is none. */
  lemma {:induction false} ScanFindsFirstReady(w: World, clock: Clock, i: nat, wake: Option<nat>)
    requires Contexts(w) && Waiting(w)
    ensures w.threads != [] && FoundFirst(w, clock, i, Scan(w, clock, i, wake))
    decreases |w.threads| - i
  {
    assert w.threads != [];
    if i < |w.threads| {
      hide Contexts, Waiting, Try, Ready, SameReadiness, SameContexts, Overdue, Candidate;
      var t := Candidate(w, i);
      ChosenMeansReady(w, t, clock(i));
      var r := Try(w, t, clock(i));
      if r.Passed? {
        hide FoundFirst;
        PassStep(w, t, clock(i));
        PassingKeepsAllReadiness(w, t, clock(i));
        ScanFindsFirstReady(r.world, clock, i + 1, Earlier(wake, r.wake));
        FoundFirstAfterPass(w, r.world, clock, i, Scan(r.world, clock, i + 1, Earlier(wake, r.wake)));
      }
    }
  }

  lemma {:induction false} SameOrder(w: World, w2: World)
    requires w.threads != [] && |w2.threads| == |w.threads| && w2.current == w.current
    ensures forall k :: Candidate(w2, k) == Candidate(w, k)
  {
  }

  lemma {:induction false} PassStep(w: World, t: nat, now: nat)
    requires Contexts(w) && Waiting(w) && t < |w.threads| && Try(w, t, now).Passed?
    ensures var w2 := Try(w, t, now).world; Contexts(w2) && Waiting(w2) && SameContexts(w, w2)
  {
    hide Contexts, Waiting;
    TryKeeps(w, t, now);
    ContextsKept(w, Try(w, t, now).world);
  }

  // ----- the cyclic order

  /** How many threads are looked at before `t`. */
  function Place(w: World, t: nat): nat
    requires w.current < |w.threads| && t < |w.threads|
  {
    if t > w.current then t - w.current - 1 else t + |w.threads| - w.current - 1
  }

  lemma {:induction false} Wrap(k: nat, n: nat)
    requires 0 < n && k < 2 * n
    ensures k % n == if k < n then k else k - n
  {
    if k >= n {
      assert k == n + (k - n) && 0 <= k - n < n;
      var q, r := k / n, k % n;
      assert k == n * q + r;
      TimesMonotone(n, 2, q);
      TimesMonotone(n, q, 0);
      assert q == 1;
    }
  }

  lemma {:induction false} TimesMonotone(n: nat, a: int, b: int)
    ensures a <= b ==> n * a <= n * b
  {
  }

  lemma {:induction false} CandidateIs(w: World, i: nat)
    requires w.current < |w.threads| && i < |w.threads|
    ensures var k := w.current + 1 + i; Candidate(w, i) == if k < |w.threads| then k else k - |w.threads|
  {
    Wrap(w.current + 1 + i, |w.threads|);
  }

  lemma {:induction false} PlaceIsCandidate(w: World, t: nat)
    requires w.current < |w.threads| && t < |w.threads|
    ensures Place(w, t) < |w.threads| && Candidate(w, Place(w, t)) == t
  {
    hide Candidate;
    CandidateIs(w, Place(w, t));
  }

  lemma {:induction false} CandidateHasPlace(w: World, i: nat)
    requires w.current < |w.threads| && i < |w.threads|
    ensures Place(w, Candidate(w, i)) == i
  {
    hide Candidate;
    CandidateIs(w, i);
  }

  lemma {:induction false} FirstReadyBounds(w: World, clock: Clock, i: nat, p: nat)
    requires i <= p < |w.threads| && Ready(w, Candidate(w, p), clock(p))
    ensures FirstReady(w, clock, i).Some? && i <= FirstReady(w, clock, i).value <= p
    decreases p - i
  {
    hide Ready;
    if !Ready(w, Candidate(w, i), clock(i)) {
      FirstReadyBounds(w, clock, i + 1, p);
    }
  }

  lemma {:induction false} FirstReadyIsReady(w: World, clock: Clock, i: nat)
    ensures var r := FirstReady(w, clock, i);
      r.Some? ==> i <= r.value < |w.threads| && Ready(w, Candidate(w, r.value), clock(r.value))
    decreases |w.threads| - i
  {
    hide Ready;
    if i < |w.threads| {
      FirstReadyIsReady(w, clock, i + 1);
    }
  }

  // ----- soundness and completeness over several scans

  /** Which thread the scheduler gives, by the readiness of the state it starts from alone. */
  function Choice(w: World, clocks: seq<Clock>): Option<nat>
    requires w.threads != []
    decreases |clocks|
  {
    if clocks == [] then None
    else match FirstReady(w, clocks[0], 0)
      case Some(i) => Some(Candidate(w, i))
      case None => Choice(w, clocks[1..])
  }

  lemma {:induction false} ScanKeepsReadiness(w: World, clock: Clock, i: nat, wake: Option<nat>)
    requires Contexts(w) && Waiting(w) && Scan(w, clock, i, wake).Nothing?
    ensures SameReadiness(w, Scan(w, clock, i, wake).world)
    decreases |w.threads| - i
  {
    hide Contexts, Waiting, Try, SameContexts, Ready;
    if i < |w.threads| {
      var t := Candidate(w, i);
      PassStep(w, t, clock(i));
      PassingKeepsAllReadiness(w, t, clock(i));
      var r := Try(w, t, clock(i));
      ScanKeepsReadiness(r.world, clock, i + 1, Earlier(wake, r.wake));
    }
  }

  lemma {:induction false} ChoiceFrame(w: World, w2: World, clocks: seq<Clock>)
    requires w.threads != [] && SameReadiness(w, w2)
    ensures Choice(w2, clocks) == Choice(w, clocks)
    decreases |clocks|
  {
    hide Ready, FirstReady;
    if clocks != [] {
      FirstReadyFrame(w, w2, clocks[0], 0);
      SameOrder(w, w2);
      ChoiceFrame(w, w2, clocks[1..]);
    }
  }

  /** The scheduler gives the first ready thread of the first scan in which any is ready, and goes on while none is. */
  lemma {:induction false} ScheduleChooses(w: World, clocks: seq<Clock>)
    requires Contexts(w) && Waiting(w)
    ensures w.threads != [] && !Schedule(w, clocks).Broken?
    ensures Choice(w, clocks) == if Schedule(w, clocks).Found? then Some(Schedule(w, clocks).thread) else None
    decreases |clocks|
  {
    assert w.threads != [];
    hide Contexts, Waiting, Scan, Ready, FirstReady, SameReadiness, SameContexts;
    if clocks != [] {
      ScanFindsFirstReady(w, clocks[0], 0, None);
      var r := Scan(w, clocks[0], 0, None);
      if r.Nothing? {
        ScanKeeps(w, clocks[0], 0, None);
        ScanKeepsReadiness(w, clocks[0], 0, None);
        ScheduleChooses(r.world, clocks[1..]);
        ChoiceFrame(w, r.world, clocks[1..]);
      }
    }
  }

  /** The chosen thread was ready at some reading of the clock; so it is active and not suspended. */
  lemma {:induction false} ChosenIsReady(w: World, clocks: seq<Clock>)
    requires w.current < |w.threads| && Choice(w, clocks).Some?
    ensures var t := Choice(w, clocks).value;
      t < |w.threads| && w.threads[t].active && !w.threads[t].blockedBy.Suspended? && exists now :: Ready(w, t, now)
    decreases |clocks|
  {
    FirstReadyIsReady(w, clocks[0], 0);
    if FirstReady(w, clocks[0], 0).None? {
      ChosenIsReady(w, clocks[1..]);
    } else {
      var i := FirstReady(w, clocks[0], 0).value;
      assert Ready(w, Candidate(w, i), clocks[0](i));
    }
  }

  /**
   With a ready thread that stays ready there is no waiting and no deadlock: the first scan gives a thread no
   later in the order.
   */
  lemma {:induction false} ReadyThreadIsNotPassed(w: World, clocks: seq<Clock>, t: nat)
    requires w.current < |w.threads| && t < |w.threads| && clocks != [] && Ready(w, t, clocks[0](Place(w, t)))
    ensures Choice(w, clocks).Some? && Choice(w, clocks).value < |w.threads|
      && Place(w, Choice(w, clocks).value) <= Place(w, t)
  {
    hide Ready;
    PlaceIsCandidate(w, t);
    FirstReadyBounds(w, clocks[0], 0, Place(w, t));
    CandidateHasPlace(w, FirstReady(w, clocks[0], 0).value);
  }

  // ----- scheduling twice in a row

  /** Nothing would happen to the threads in places `[i, k)` of another scan. */
  ghost predicate NothingToDo(w: World, clock: Clock, i: nat, k: nat)
    requires w.threads != []
  {
    forall j: nat {:trigger Idle(w, Candidate(w, j), clock(j))} :: i <= j < k && j < |w.threads| ==>
      Idle(w, Candidate(w, j), clock(j))
  }

  predicate Idle(w: World, t: nat, now: nat)
    requires t < |w.threads|
  {
    !Ready(w, t, now) && !Overdue(w, t, now)
  }

  lemma {:induction false} IdleAfterPass(w: World, t: nat, now: nat, u: nat, at: nat)
    requires Contexts(w) && Waiting(w) && t < |w.threads| && u < |w.threads| && Try(w, t, now).Passed?
    requires Idle(w, u, at) || (u == t && at == now)
    ensures Idle(Try(w, t, now).world, u, at)
  {
    hide Contexts, Waiting, Try;
    PassingKeepsReadiness(w, t, now, u, at);
    ChosenMeansReady(w, t, now);
    if u == t && at != now {
      PassingOverdue(w, t, now, at);
    }
  }

  lemma {:induction false} PassingOverdue(w: World, t: nat, now: nat, at: nat)
    requires Contexts(w) && Waiting(w) && t < |w.threads| && Try(w, t, now).Passed? && !Overdue(w, t, at)
    ensures !Overdue(Try(w, t, now).world, t, at)
  {
    ChosenMeansReady(w, t, now);
  }

  lemma {:induction false} IdleAfterChoice(w: World, t: nat, now: nat, u: nat, at: nat)
    requires Contexts(w) && Waiting(w) && t < |w.threads| && u < |w.threads| && u != t
    requires Try(w, t, now).Chosen? && Idle(w, u, at)
    ensures Idle(Try(w, t, now).world, u, at)
  {
    hide Contexts, Waiting, Try;
    ChoosingReadiesNobody(w, t, now, u, at);
  }

  lemma {:induction false} NothingToDoAfterPass(w: World, clock: Clock, i: nat)
    requires Contexts(w) && Waiting(w) && i < |w.threads| && NothingToDo(w, clock, 0, i)
      && Try(w, Candidate(w, i), clock(i)).Passed?
    ensures var w2 := Try(w, Candidate(w, i), clock(i)).world; w2.threads != [] && NothingToDo(w2, clock, 0, i + 1)
  {
    hide Contexts, Waiting, Try, Idle, Candidate;
    var w2 := Try(w, Candidate(w, i), clock(i)).world;
    SameOrder(w, w2);
    forall j: nat | j < i + 1 && j < |w.threads|
      ensures Idle(w2, Candidate(w2, j), clock(j))
    {
      assert j < i ==> Idle(w, Candidate(w, j), clock(j));
      IdleAfterPass(w, Candidate(w, i), clock(i), Candidate(w, j), clock(j));
    }
  }

  lemma {:induction false} NothingToDoAfterChoice(w: World, clock: Clock, i: nat)
    requires Contexts(w) && Waiting(w) && i < |w.threads| && NothingToDo(w, clock, 0, i)
      && Try(w, Candidate(w, i), clock(i)).Chosen?
    ensures var w2 := Try(w, Candidate(w, i), clock(i)).world; w2.threads != [] && NothingToDo(w2, clock, 0, i)
  {
    var t := Candidate(w, i);
    assert w.current < |w.threads|;
    hide Contexts, Waiting, Try, Idle, Candidate;
    var w2 := Try(w, t, clock(i)).world;
    SameOrder(w, w2);
    CandidateHasPlace(w, i);
    forall j: nat | j < i
      ensures Idle(w2, Candidate(w2, j), clock(j))
    {
      CandidateHasPlace(w, j);
      assert Idle(w, Candidate(w, j), clock(j));
      IdleAfterChoice(w, t, clock(i), Candidate(w, j), clock(j));
    }
  }

  /** A scan that finds a thread leaves everybody it passed idle, and the thread ready to go. */
  lemma {:induction false} ScanLeavesIdle(w: World, clock: Clock, i: nat, wake: Option<nat>)
    requires Contexts(w) && Waiting(w) && w.threads != [] && NothingToDo(w, clock, 0, i)
      && Scan(w, clock, i, wake).Found?
    ensures var Found(w2, t) := Scan(w, clock, i, wake);
      && w2.current < |w2.threads| && t < |w2.threads| && NothingToDo(w2, clock, 0, Place(w2, t))
      && Contexts(w2) && ReadyFor(w2, t)
    decreases |w.threads| - i
  {
    assert w.current < |w.threads|;
    ScanKeeps(w, clock, i, wake);
    hide Contexts, Waiting, Try, NothingToDo, SameContexts, Candidate;
    if i < |w.threads| {
      var t := Candidate(w, i);
      TryKeeps(w, t, clock(i));
      var r := Try(w, t, clock(i));
      if r.Passed? {
        PassStep(w, t, clock(i));
        NothingToDoAfterPass(w, clock, i);
        ScanLeavesIdle(r.world, clock, i + 1, Earlier(wake, r.wake));
      } else {
        NothingToDoAfterChoice(w, clock, i);
        CandidateHasPlace(w, i);
      }
    }
  }

  lemma {:induction false} IdleIsPassed(w: World, t: nat, now: nat)
    requires Contexts(w) && t < |w.threads| && WellBlocked(w, t) && Idle(w, t, now)
    ensures Try(w, t, now).Passed? && Try(w, t, now).world == w
  {
    if w.threads[t].blockedBy.Joining? {
      assert Holds(w, w.threads[t].blockedBy.joinee);
    }
  }

  lemma {:induction false} RescanFinds(w: World, clock: Clock, i: nat, wake: Option<nat>, t: nat)
    requires Contexts(w) && ReadyFor(w, t) && w.current < |w.threads| && i <= Place(w, t)
      && NothingToDo(w, clock, 0, Place(w, t))
    ensures Scan(w, clock, i, wake) == Found(w, t)
    decreases Place(w, t) - i
  {
    hide Contexts, Try, Candidate, WellBlocked, SyncOk, Idle;
    PlaceIsCandidate(w, t);
    if i < Place(w, t) {
      var u := Candidate(w, i);
      CandidateHasPlace(w, i);
      assert Idle(w, u, clock(i));
      IdleIsPassed(w, u, clock(i));
      RescanFinds(w, clock, i + 1, Earlier(wake, Try(w, u, clock(i)).wake), t);
    } else {
      NotBlockedIsChosen(w, t, clock(i));
    }
  }

  lemma {:induction false} NotBlockedIsChosen(w: World, t: nat, now: nat)
    requires t < |w.threads| && Woken(w, t)
    ensures Try(w, t, now) == Chosen(w)
  {
  }

  lemma {:induction false} ScanningIsRepeatable(w: World, clock: Clock)
    requires Contexts(w) && Waiting(w) && Scan(w, clock, 0, None).Found?
    ensures var Found(w2, t) := Scan(w, clock, 0, None); Scan(w2, clock, 0, None) == Found(w2, t)
  {
    assert w.threads != [];
    hide Contexts, Waiting, Scan, ReadyFor;
    ScanLeavesIdle(w, clock, 0, None);
    var Found(w2, t) := Scan(w, clock, 0, None);
    RescanFinds(w2, clock, 0, None, t);
  }

  /** The readings of the last scan that a call makes: the first one to find a thread. */
  function LastClock(w: World, clocks: seq<Clock>): Clock
    requires clocks != []
    decreases |clocks|
  {
    match Scan(w, clocks[0], 0, None)
    case Nothing(w2, _) => if |clocks| == 1 then clocks[0] else LastClock(w2, clocks[1..])
    case _ => clocks[0]
  }

  /**
   Scheduling again gives the same thread and changes nothing, if the clock stands where the last scan
   read it, however many scans and sleeps the first call took.
   */
  lemma {:induction false} SchedulingIsRepeatable(w: World, clocks: seq<Clock>, more: seq<Clock>)
    requires Contexts(w) && Waiting(w) && Schedule(w, clocks).Found?
    ensures clocks != [] && var Found(w2, t) := Schedule(w, clocks);
      Schedule(w2, [LastClock(w, clocks)] + more) == Found(w2, t)
    decreases |clocks|
  {
    hide Contexts, Waiting, Scan;
    match Scan(w, clocks[0], 0, None)
    case Nothing(w2, _) =>
      ScanKeeps(w, clocks[0], 0, None);
      SchedulingIsRepeatable(w2, clocks[1..], more);
    case Found(w2, t) =>
      ScanningIsRepeatable(w, clocks[0]);
  }

  /** Scheduling at these readings of the clock would give `t` at once and change nothing. */
  ghost predicate RepeatsAt(clock: Clock, w: World, t: nat) {
    forall more: seq<Clock> :: Schedule(w, [clock] + more) == Found(w, t)
  }

  lemma {:induction false} RepeatsAfter(w: World, clocks: seq<Clock>)
    requires Contexts(w) && Waiting(w) && Schedule(w, clocks).Found?
    ensures clocks != [] && RepeatsAt(LastClock(w, clocks), Schedule(w, clocks).world, Schedule(w, clocks).thread)
  {
    SchedulingIsRepeatable(w, clocks, []);
    hide Contexts, Waiting;
    forall more: seq<Clock>
      ensures Schedule(Schedule(w, clocks).world, [LastClock(w, clocks)] + more) == Schedule(w, clocks)
    {
      SchedulingIsRepeatable(w, clocks, more);
    }
  }
}
