/**
 Destroying mutexes (src/environment/mutex.rs). `destroy_mutex` refuses while its count of waiting threads
 is not zero, but that count misses threads in condition waits and can be used up by them: what goes wrong
 then, and exactly when.
 */
module MutexDestruction {
  import opened Common
  import opened GuestMemory
  import opened ThreadModel
  import opened Threads
  import opened Scheduling
  import opened ThreadRuns

  /** The machine after mutex `m` is gone. */
  function Unlisted(w: World, m: nat): World {
    w.(mutexes := w.mutexes - {m})
  }

  predicate IsFree(w: World, m: nat) {
    m in w.mutexes && w.mutexes[m].locked.None?
  }

  /** Destroying takes a free mutex away and does nothing else. */
  lemma {:induction false} DestroyingUnlists(w: World, m: nat)
    requires m in w.mutexes && DestroyMutex(w, m).Done?
    ensures IsFree(w, m) && DestroyMutex(w, m).world == Unlisted(w, m)
  {
  }

  // ----- scans with and without the mutex

  /** What becomes of a candidate without the mutex: if it needs the mutex and would be chosen, an unwrap fails. */
  ghost predicate SameAttempt(w: World, m: nat, t: nat, r: Attempt, r2: Attempt)
    requires t < |w.threads|
  {
    match r
    case Chosen(v) => if NeedsMutex(w, t, m) then r2.Failure? else r2 == Chosen(Unlisted(v, m)) && IsFree(v, m)
    case Passed(v, wake) => r2 == Passed(Unlisted(v, m), wake) && v.mutexes == w.mutexes
    case Failure => true
  }

  lemma {:induction false} GrantUnlisted(w: World, t: nat, m: nat, k: nat)
    requires t < |w.threads| && IsFree(w, m) && k != m
    ensures match Grant(w, t, k)
      case Chosen(v) => Grant(Unlisted(w, m), t, k) == Chosen(Unlisted(v, m)) && IsFree(v, m)
      case _ => Grant(Unlisted(w, m), t, k).Failure?
  {
    if k in w.mutexes && w.mutexes[k].locked.None? {
      var v := Relock(SetBlock(w, t, NotBlocked), t, k);
      assert Relock(SetBlock(Unlisted(w, m), t, NotBlocked), t, k).mutexes == Unlisted(v, m).mutexes;
    }
  }

  lemma {:induction false} TryUnlisted(w: World, m: nat, t: nat, now: nat)
    requires t < |w.threads| && IsFree(w, m)
    ensures SameAttempt(w, m, t, Try(w, t, now), Try(Unlisted(w, m), t, now))
  {
    var thread := w.threads[t];
    if thread.active && thread.blockedBy.Mutex? && thread.blockedBy.mutex != m {
      GrantUnlisted(w, t, m, thread.blockedBy.mutex);
    } else if thread.active && thread.blockedBy.Condition? {
      ConditionUnlisted(w, m, t, now);
    }
  }

  lemma {:induction false} ConditionUnlisted(w: World, m: nat, t: nat, now: nat)
    requires t < |w.threads| && IsFree(w, m) && w.threads[t].active && w.threads[t].blockedBy.Condition?
    ensures SameAttempt(w, m, t, Try(w, t, now), Try(Unlisted(w, m), t, now))
  {
    var Condition(c, deadline) := w.threads[t].blockedBy;
    if c in w.conditions && w.conditions[c].mutex.Some? && w.conditions[c].mutex.value != m {
      var k := w.conditions[c].mutex.value;
      if w.conditions[c].waking != [] {
        GrantUnlisted(PopWaking(w, c), t, m, k);
      }
      GrantUnlisted(TimeOut(w, t, c), t, m, k);
      hide Grant;
    }
  }

  lemma {:induction false} NeedStays(w: World, v: World, t: nat, m: nat)
    requires PassEffect(w, v) && t < |w.threads|
    ensures t < |v.threads| && (NeedsMutex(v, t, m) <==> NeedsMutex(w, t, m))
  {
    assert WaitKept(w, v, t);
  }

  ghost predicate SameScan(w: World, m: nat, r: Scheduled, r2: Scheduled) {
    match r
    case Found(v, t) => t < |w.threads| && if NeedsMutex(w, t, m) then r2.Broken?
      else r2 == Found(Unlisted(v, m), t) && IsFree(v, m)
    case Nothing(v, wake) => r2 == Nothing(Unlisted(v, m), wake)
    case Broken => true
  }

  /** Without the mutex a scan does the same, unless the thread it would find needs the mutex. */
  lemma {:induction false} ScanUnlisted(w: World, m: nat, clock: Clock, i: nat, wake: Option<nat>)
    requires IsFree(w, m)
    ensures SameScan(w, m, Scan(w, clock, i, wake), Scan(Unlisted(w, m), clock, i, wake))
    decreases |w.threads| - i
  {
    hide Try, PassEffect, ChoiceEffect, NeedsMutex, Candidate;
    if i < |w.threads| {
      var t := Candidate(w, i);
      SameCandidate(w, m, i);
      TryUnlisted(w, m, t, clock(i));
      var r := Try(w, t, clock(i));
      if r.Passed? {
        TryEffect(w, t, clock(i));
        ScanUnlisted(r.world, m, clock, i + 1, Earlier(wake, r.wake));
        match Scan(r.world, clock, i + 1, Earlier(wake, r.wake))
        case Found(_, u) => NeedStays(w, r.world, u, m);
        case _ =>
      }
    }
  }

  lemma {:induction false} SameCandidate(w: World, m: nat, i: nat)
    requires w.threads != []
    ensures Candidate(Unlisted(w, m), i) == Candidate(w, i)
  {
  }

  /**
   After a mutex was destroyed a scan fails an unwrap exactly if the first ready thread in cyclic order,
   as things stood before, needs the mutex: blocked on it, at the front of those woken, or overdue.
   */
  lemma {:induction false} DestroyingBreaksScan(w: World, m: nat, clock: Clock)
    requires Contexts(w) && Waiting(w) && m in w.mutexes && DestroyMutex(w, m).Done?
    ensures w.threads != [] && var first := FirstReady(w, clock, 0);
      Scan(DestroyMutex(w, m).world, clock, 0, None).Broken? <==>
        first.Some? && NeedsMutex(w, Candidate(w, first.value), m)
  {
    assert w.threads != [];
    DestroyingUnlists(w, m);
    hide Contexts, Waiting, Scan, FirstReady, NeedsMutex, Candidate;
    ScanUnlisted(w, m, clock, 0, None);
    ScanFindsFirstReady(w, clock, 0, None);
  }

  // ----- what the machine can come to

  /** Some `n + 1` actions at some clock readings end in a crash. */
  ghost predicate CanCrash(w: World, n: nat)
    decreases n
  {
    w.current < |w.threads| && exists a: Action, clocks: seq<Clock> {:trigger Perform(w, a, clocks)} ::
      Allowed(w, a) && match Perform(w, a, clocks)
        case Crashed => true
        case Resumed(w2) => n > 0 && CanCrash(w2, n - 1)
        case Asleep => false
  }

  lemma {:induction false} CrashesNow(w: World, a: Action, clocks: seq<Clock>)
    requires w.current < |w.threads| && Allowed(w, a) && Perform(w, a, clocks).Crashed?
    ensures CanCrash(w, 0)
  {
    hide Perform, Allowed;
  }

  lemma {:induction false} CrashesLater(w: World, a: Action, clocks: seq<Clock>, n: nat)
    requires w.current < |w.threads| && Allowed(w, a) && Perform(w, a, clocks).Resumed?
      && CanCrash(Perform(w, a, clocks).world, n)
    ensures CanCrash(w, n + 1)
  {
    hide Perform, Allowed;
  }

  /** A sound state never crashes. */
  lemma {:induction false} SoundNeverCrashes(w: World, n: nat)
    requires Running(w)
    ensures !CanCrash(w, n)
    decreases n
  {
    hide Running, Perform, Allowed;
    if CanCrash(w, n) {
      var a: Action, clocks: seq<Clock> :| Allowed(w, a) && match Perform(w, a, clocks)
        case Crashed => true
        case Resumed(w2) => n > 0 && CanCrash(w2, n - 1)
        case Asleep => false;
      PerformKeeps(w, a, clocks);
      if Perform(w, a, clocks).Resumed? {
        SoundNeverCrashes(Perform(w, a, clocks).world, n - 1);
      }
    }
  }

  // ----- threads that will ask for a mutex

  /** Some thread, suspended or not, will ask for mutex `m` when it goes on. */
  ghost predicate Wanted(w: World, m: nat) {
    exists t: nat :: t < |w.threads| && w.threads[t].active && WantsMutex(w, t, m)
  }

  predicate WantsMutex(w: World, t: nat, m: nat)
    requires t < |w.threads|
  {
    match Base(w.threads[t].blockedBy)
    case Mutex(k) => k == m
    case Condition(c, _) => c in w.conditions && w.conditions[c].mutex == Some(m)
    case _ => false
  }

  /** Suspension apart, the thread goes on as soon as the mutex is free. */
  predicate NextForMutex(w: World, t: nat, m: nat) {
    t < |w.threads| && w.threads[t].active && WantsMutex(w, t, m)
    && (Base(w.threads[t].blockedBy).Condition? ==> AtFront(w, Base(w.threads[t].blockedBy).cond, t))
  }

  lemma {:induction false} NextIsReady(w: World, t: nat, m: nat, now: nat)
    requires NextForMutex(w, t, m) && IsFree(w, m) && !w.threads[t].blockedBy.Suspended?
    ensures Ready(w, t, now) && NeedsMutex(w, t, m)
  {
  }

  /** Looking at a thread that does not get the mutex leaves the next one for it as it is. */
  lemma {:induction false} TryKeepsNext(w: World, u: nat, now: nat, t: nat, m: nat)
    requires u < |w.threads| && IsFree(w, m) && NextForMutex(w, t, m) && !w.threads[t].blockedBy.Suspended?
    requires WellBlocked(w, u) && (Try(w, u, now).Passed? || (Try(w, u, now).Chosen? && !NeedsMutex(w, u, m)))
    ensures NextForMutex(Try(w, u, now).world, t, m) && !Try(w, u, now).world.threads[t].blockedBy.Suspended?
  {
  }

  lemma {:induction false} ScanKeepsNext(w: World, clock: Clock, i: nat, wake: Option<nat>, t: nat, m: nat)
    requires Contexts(w) && Waiting(w) && IsFree(w, m) && NextForMutex(w, t, m) && !w.threads[t].blockedBy.Suspended?
    requires Scan(w, clock, i, wake).Found? && Scan(w, clock, i, wake).thread < |w.threads|
    requires !NeedsMutex(w, Scan(w, clock, i, wake).thread, m)
    ensures var v := Scan(w, clock, i, wake).world; NextForMutex(v, t, m) && !v.threads[t].blockedBy.Suspended?
    decreases |w.threads| - i
  {
    hide Contexts, Waiting, Try, Ready, NeedsMutex, NextForMutex, WellBlocked, PassEffect, ChoiceEffect, SameContexts,
      Candidate;
    if i < |w.threads| {
      var u := Candidate(w, i);
      Except(w, u);
      var r := Try(w, u, clock(i));
      TryKeepsNext(w, u, clock(i), t, m);
      if r.Passed? {
        PassStep(w, u, clock(i));
        TryUnlisted(w, m, u, clock(i));
        TryEffect(w, u, clock(i));
        NeedStays(w, r.world, Scan(w, clock, i, wake).thread, m);
        ScanKeepsNext(r.world, clock, i + 1, Earlier(wake, r.wake), t, m);
      }
    }
  }

  // ----- the executor's turn with and without the mutex

  /** Giving up a time slice is the executor's turn from the state as it is. */
  lemma {:induction false} TimeSliceDispatches(w: World, m: nat, clock: Clock)
    requires Running(w) && w.current < |w.threads|
    ensures Perform(w, TimeSlice, [clock]) == Dispatch(w, [clock])
    ensures Perform(Unlisted(w, m), TimeSlice, [clock]) == Dispatch(Unlisted(w, m), [clock])
  {
    CurrentExists(w);
    assert Blocked(w, NotBlocked, Ordinary) == w by { assert SetBlock(w, w.current, NotBlocked).threads == w.threads; }
    assert Blocked(Unlisted(w, m), NotBlocked, Ordinary) == Unlisted(w, m);
    hide Dispatch, Running;
  }

  lemma {:induction false} OneScan(w: World, clock: Clock)
    ensures Schedule(w, [clock]) == match Scan(w, clock, 0, None)
      case Nothing(v, _) => Nothing(v, None)
      case r => r
  {
    hide Scan;
    assert [clock][1..] == [];
  }

  /** The chosen thread is switched to, if it is not the current one, and goes on. */
  function Handed(v: World, t: nat): Outcome {
    if t != v.current then match SwitchThread(v, t) { case None => Crashed case Some(v2) => GoOn(v2) }
    else if v.running.None? then Crashed
    else GoOn(v)
  }

  lemma {:induction false} HandedUnlisted(v: World, m: nat, t: nat)
    ensures match Handed(v, t)
      case Resumed(v2) => Handed(Unlisted(v, m), t) == Resumed(Unlisted(v2, m)) && v2.mutexes == v.mutexes
      case _ => true
  {
  }

  lemma {:induction false} HandedKeepsNext(v: World, u: nat, t: nat, m: nat)
    requires Handed(v, u).Resumed? && NextForMutex(v, t, m) && !v.threads[t].blockedBy.Suspended?
    ensures var v2 := Handed(v, u).world;
      NextForMutex(v2, t, m) && !v2.threads[t].blockedBy.Suspended? && |v2.threads| == |v.threads|
  {
  }

  lemma {:induction false} DispatchIsHanded(w: World, clock: Clock)
    ensures Dispatch(w, [clock]) == match Scan(w, clock, 0, None)
      case Broken => Crashed
      case Nothing(_, _) => Asleep
      case Found(v, t) => Handed(v, t)
  {
    hide Scan, SwitchThread, GoOn;
    OneScan(w, clock);
  }

  /**
   One more time slice: either the machine without the mutex crashes, or both go on in step and the thread
   that is next for the mutex has come nearer.
   */
  lemma {:induction false} SliceTowardsCrash(w: World, m: nat, t: nat, clock: Clock)
    requires Running(w) && w.current < |w.threads| && IsFree(w, m) && NextForMutex(w, t, m)
      && !w.threads[t].blockedBy.Suspended?
    ensures t != w.current && match Dispatch(Unlisted(w, m), [clock])
      case Crashed => true
      case Asleep => false
      case Resumed(w2) =>
        && Dispatch(w, [clock]).Resumed? && var v := Dispatch(w, [clock]).world;
        && w2 == Unlisted(v, m) && Running(v) && v.current < |v.threads| && IsFree(v, m) && NextForMutex(v, t, m)
        && !v.threads[t].blockedBy.Suspended?
        && Place(v, t) < Place(w, t)
  {
    NextIsReady(w, t, m, clock(Place(w, t)));
    DispatchKeeps(w, [clock]);
    DispatchIsHanded(w, clock);
    DispatchIsHanded(Unlisted(w, m), clock);
    ScanUnlisted(w, m, clock, 0, None);
    ScanIsFirst(w, clock, t);
    hide Contexts, Waiting, WellBlocked, Scan, Handed, Dispatch, NextForMutex, NeedsMutex, Ready;
    var Found(v, u) := Scan(w, clock, 0, None);
    if !NeedsMutex(w, u, m) {
      ScanKeepsNext(w, clock, 0, None, t, m);
      HandedUnlisted(v, m, u);
      HandedKeepsNext(v, u, t, m);
      HandedTo(v, u);
      PlaceDecreases(w, Dispatch(w, [clock]).world, t);
    }
  }

  lemma {:induction false} HandedTo(v: World, u: nat)
    requires Handed(v, u).Resumed?
    ensures Handed(v, u).world.current == u
  {
  }

  lemma {:induction false} ScanIsFirst(w: World, clock: Clock, t: nat)
    requires Running(w) && w.current < |w.threads| && t < |w.threads| && Ready(w, t, clock(Place(w, t)))
    ensures Scan(w, clock, 0, None).Found? && var u := Scan(w, clock, 0, None).thread;
      u < |w.threads| && Place(w, u) <= Place(w, t) && |Scan(w, clock, 0, None).world.threads| == |w.threads|
  {
    ScanKeeps(w, clock, 0, None);
    hide Contexts, Waiting, Scan, Ready, FirstReady, Candidate, SameButBlock;
    ScanFindsFirstReady(w, clock, 0, None);
    PlaceIsCandidate(w, t);
    FirstReadyBounds(w, clock, 0, Place(w, t));
    CandidateHasPlace(w, FirstReady(w, clock, 0).value);
  }

  /** With a thread next for the mutex and not suspended, time slices lead to a crash. */
  lemma {:induction false} SlicesCrash(w: World, m: nat, t: nat) returns (n: nat)
    requires Running(w) && w.current < |w.threads| && IsFree(w, m) && NextForMutex(w, t, m)
      && !w.threads[t].blockedBy.Suspended?
    ensures CanCrash(Unlisted(w, m), n)
    decreases Place(w, t)
  {
    var clock: Clock := i => 0;
    TimeSliceDispatches(w, m, clock);
    SliceTowardsCrash(w, m, t, clock);
    hide Running, Dispatch, Perform, NextForMutex, CanCrash, Place;
    if Perform(Unlisted(w, m), TimeSlice, [clock]).Crashed? {
      CrashesNow(Unlisted(w, m), TimeSlice, [clock]);
      n := 0;
    } else {
      var v := Dispatch(w, [clock]).world;
      var k := SlicesCrash(v, m, t);
      CrashesLater(Unlisted(w, m), TimeSlice, [clock], k);
      n := k + 1;
    }
  }

  function Suspensions(b: Block): nat {
    if b.Suspended? then b.count else 0
  }

  lemma {:induction false} ResumeTowardsCrash(w: World, m: nat, t: nat)
    requires Running(w) && w.current < |w.threads| && IsFree(w, m) && NextForMutex(w, t, m)
      && w.threads[t].blockedBy.Suspended?
    ensures Allowed(w, Resume(t)) && Perform(w, Resume(t), []).Resumed? && var v := Perform(w, Resume(t), []).world;
      && Allowed(Unlisted(w, m), Resume(t)) && Perform(Unlisted(w, m), Resume(t), []) == Resumed(Unlisted(v, m))
      && v.current < |v.threads| && IsFree(v, m) && NextForMutex(v, t, m)
      && Suspensions(v.threads[t].blockedBy) < Suspensions(w.threads[t].blockedBy)
  {
    assert WellBlocked(w, t);
  }

  /** A suspended one is resumed first. */
  lemma {:induction false} ResumingCrashes(w: World, m: nat, t: nat) returns (n: nat)
    requires Running(w) && w.current < |w.threads| && IsFree(w, m) && NextForMutex(w, t, m)
    ensures CanCrash(Unlisted(w, m), n)
    decreases Suspensions(w.threads[t].blockedBy)
  {
    if !w.threads[t].blockedBy.Suspended? {
      n := SlicesCrash(w, m, t);
    } else {
      ResumeTowardsCrash(w, m, t);
      PerformKeeps(w, Resume(t), []);
      hide Running, Perform, NextForMutex, CanCrash;
      var k := ResumingCrashes(Perform(w, Resume(t), []).world, m, t);
      CrashesLater(Unlisted(w, m), Resume(t), [], k);
      n := k + 1;
    }
  }

  /** Waking all that wait on a condition brings one of them to the front. */
  lemma {:induction false} BroadcastTowardsCrash(w: World, m: nat, t: nat) returns (u: nat)
    requires Running(w) && w.current < |w.threads| && IsFree(w, m) && t < |w.threads| && WantsMutex(w, t, m)
    requires Base(w.threads[t].blockedBy).Condition?
    ensures var a := Broadcast(Base(w.threads[t].blockedBy).cond);
      && Allowed(w, a) && Perform(w, a, []).Resumed? && var v := Perform(w, a, []).world;
      && Allowed(Unlisted(w, m), a) && Perform(Unlisted(w, m), a, []) == Resumed(Unlisted(v, m))
      && v.current < |v.threads| && IsFree(v, m) && NextForMutex(v, u, m)
  {
    var c := Base(w.threads[t].blockedBy).cond;
    assert WellBlocked(w, t);
    ConditionFacts(w, t);
    SignalKeeps(w, c);
    var v := WakeAll(w, c);
    hide WellBlocked;
    u := v.conditions[c].waking[0];
    assert QueueOk(v, c) && InQueue(v, c, u);
    assert Holds(v, u);
  }

  /** If a thread wants the mutex, some actions make the machine crash once the mutex is gone. */
  lemma {:induction false} WantedCrashes(w: World, m: nat) returns (n: nat)
    requires Running(w) && w.current < |w.threads| && IsFree(w, m) && Wanted(w, m)
    ensures CanCrash(Unlisted(w, m), n)
  {
    var t: nat :| t < |w.threads| && w.threads[t].active && WantsMutex(w, t, m);
    if Base(w.threads[t].blockedBy).Condition? {
      var u := BroadcastTowardsCrash(w, m, t);
      var a := Broadcast(Base(w.threads[t].blockedBy).cond);
      PerformKeeps(w, a, []);
      hide Running, Perform, NextForMutex, CanCrash;
      var k := ResumingCrashes(Perform(w, a, []).world, m, u);
      CrashesLater(Unlisted(w, m), a, [], k);
      n := k + 1;
    } else {
      hide Running, Perform, CanCrash;
      n := ResumingCrashes(w, m, t);
    }
  }

  /** A mutex that nobody wants leaves a sound machine. */
  lemma {:induction false} UnwantedKeeps(w: World, m: nat)
    requires Running(w) && m in w.mutexes && !Wanted(w, m)
    ensures Running(Unlisted(w, m))
  {
    var w2 := Unlisted(w, m);
    forall t: nat | t < |w.threads|
      ensures WellBlocked(w2, t) && Holds(w2, t)
    {
      assert WellBlocked(w, t) && Holds(w, t);
      assert !w.threads[t].active ==> Base(w.threads[t].blockedBy).NotBlocked?;
      assert !WantsMutex(w, t, m);
    }
    hide WellBlocked;
    SameQueues(w, w2);
    assert forall k :: k in w2.mutexes ==> MutexOk(w, k);
  }

  /**
   After destroying a mutex some course of actions ends in a crash exactly if a thread wants the mutex;
   otherwise the machine is as sound as before.
   */
  lemma {:induction false} DestroyIsSafeIffUnwanted(w: World, m: nat)
    requires Running(w) && m in w.mutexes && DestroyMutex(w, m).Done?
    ensures Wanted(w, m) <==> exists n :: CanCrash(DestroyMutex(w, m).world, n)
    ensures !Wanted(w, m) ==> Running(DestroyMutex(w, m).world)
  {
    DestroyingUnlists(w, m);
    assert w.current < |w.threads|;
    hide Running, CanCrash, Wanted;
    if Wanted(w, m) {
      var n := WantedCrashes(w, m);
    } else {
      UnwantedKeeps(w, m);
      forall n
        ensures !CanCrash(Unlisted(w, m), n)
      {
        SoundNeverCrashes(Unlisted(w, m), n);
      }
    }
  }

  // ----- how the count of a waiting thread gets lost

  /** Some turns lead from `w` to `v`. */
  ghost predicate Reachable(w: World, v: World) {
    exists turns: seq<Turn>, worlds: seq<World> {:trigger Run(w, turns, worlds)} ::
      Run(w, turns, worlds) && EndOf(w, worlds) == v
  }

  lemma {:induction false} RunSnoc(w: World, turns: seq<Turn>, worlds: seq<World>, turn: Turn, v: World)
    requires Run(w, turns, worlds) && EndOf(w, worlds).current < |EndOf(w, worlds).threads|
      && Allowed(EndOf(w, worlds), turn.action)
    requires Perform(EndOf(w, worlds), turn.action, turn.clocks) == Resumed(v)
    ensures Run(w, turns + [turn], worlds + [v]) && EndOf(w, worlds + [v]) == v
    decreases |turns|
  {
    hide Perform, Allowed;
    if turns == [] {
      assert [turn][1..] == [] && [v][1..] == [];
      assert turns + [turn] == [turn] && worlds + [v] == [v];
    } else {
      assert EndOf(worlds[0], worlds[1..]) == EndOf(w, worlds);
      RunSnoc(worlds[0], turns[1..], worlds[1..], turn, v);
      assert (turns + [turn])[1..] == turns[1..] + [turn] && (worlds + [v])[1..] == worlds[1..] + [v];
    }
  }

  /** One action leads from `v` to `v2`. */
  predicate Steps(v: World, a: Action, clocks: seq<Clock>, v2: World) {
    v.current < |v.threads| && Allowed(v, a) && Perform(v, a, clocks) == Resumed(v2)
  }

  lemma {:induction false} ReachableStep(w: World, v: World, a: Action, clocks: seq<Clock>, v2: World)
    requires Reachable(w, v) && Steps(v, a, clocks, v2)
    ensures Reachable(w, v2)
  {
    hide Perform, Allowed, Run;
    var turns: seq<Turn>, worlds: seq<World> :| Run(w, turns, worlds) && EndOf(w, worlds) == v;
    RunSnoc(w, turns, worlds, Turn(a, clocks), v2);
  }

  function Blank(): Registers {
    seq(16, _ => 0)
  }

  function Midnight(): Clock {
    i => 0
  }

  /** A thread that is not running: in the middle of `frame`, waiting for `block`. */
  function Off(t: nat, block: Block, frame: Frame): Thread {
    Thread(true, block, None, Some(Blank()), Some(Coroutine(t, frame)), Some(0))
  }

  /** The thread that runs. */
  function On(): Thread {
    Thread(true, NotBlocked, None, None, None, Some(0))
  }

  /** A thread that is off without waiting. */
  function Idling(t: nat): Thread {
    Off(t, NotBlocked, Ordinary)
  }

  function Waiter(): Thread {
    Off(1, Condition(5, None), CondWait(5, 0, false))
  }

  /** Some threads, one mutex and one condition variable. */
  function Scene(threads: seq<Thread>, current: nat, mutex: MutexObject, cond: CondObject): World {
    World(threads, current, Blank(), Some(Coroutine(current, Ordinary)), map[0 := mutex], 1, map[], map[5 := cond],
      map[])
  }

  function FreeMutex(): MutexObject {
    MutexObject(Normal, 0, None)
  }

  function NewCond(): CondObject {
    CondObject([], [], None, {})
  }

  /** Two more threads, the mutex and the condition variable have been created. */
  function Start(): World {
    Scene([On(), Idling(1), Idling(2)], 0, FreeMutex(), NewCond())
  }

  lemma {:induction false} CondStep(w: World)
    requires w == Start().(conditions := map[])
    ensures Steps(w, InitCond(5), [], Start())
  {
    assert !Awaited(w, 5);
  }

  lemma {:induction false} StartReachable()
    ensures Reachable(Initial(Blank(), 0), Start())
  {
    var w0 := Initial(Blank(), 0);
    assert Reachable(w0, w0) by { assert Run(w0, [], []) && EndOf(w0, []) == w0; }
    var w1 := w0.(threads := [On(), Idling(1)]);
    var w2 := w0.(threads := [On(), Idling(1), Idling(2)]);
    var w3 := w2.(mutexes := map[0 := FreeMutex()], mutexCount := 1);
    assert Steps(w0, Create(0), [], w1);
    assert Steps(w1, Create(0), [], w2);
    assert Steps(w2, InitMutex(Normal), [], w3);
    CondStep(w3);
    hide Steps, Reachable;
    ReachableStep(w0, w0, Create(0), [], w1);
    ReachableStep(w0, w1, Create(0), [], w2);
    ReachableStep(w0, w2, InitMutex(Normal), [], w3);
    ReachableStep(w0, w3, InitCond(5), [], Start());
  }

  /** Handing over to a thread that is not in a condition wait only swaps contexts. */
  lemma {:induction false} HandedOver(v: World, t: nat, w: World)
    requires v.current < |v.threads| && t < |v.threads| && t != v.current && v.threads[t] == Idling(t)
    requires v.threads[v.current].guest.None? && v.cpu == Blank() && v.running.Some?
    requires w.threads == v.threads[t := On()][v.current :=
      v.threads[v.current].(guest := Some(Blank()), host := v.running)]
    requires w == v.(threads := w.threads, running := Some(Coroutine(t, Ordinary)), current := t)
    ensures Handed(v, t) == Resumed(w)
  {
  }

  /** A scan whose first candidate does not wait. */
  lemma {:induction false} FirstIsIdling(v: World, t: nat)
    requires v.threads != [] && t == Candidate(v, 0) && v.threads[t].active && v.threads[t].blockedBy.NotBlocked?
    ensures Scan(v, Midnight(), 0, None) == Found(v, t)
  {
  }

  lemma {:induction false} LockStep(v: World)
    requires v.current < |v.threads| && v.mutexes == map[0 := FreeMutex()]
    ensures Steps(v, Lock_(0), [], v.(mutexes := map[0 := MutexObject(Normal, 0, Some(Lock(v.current, 1)))]))
  {
  }

  lemma {:induction false} UnlockStep(v: World, count: nat)
    requires v.current < |v.threads| && v.mutexes == map[0 := MutexObject(Normal, count, Some(Lock(v.current, 1)))]
    ensures Steps(v, Unlock(0), [], v.(mutexes := map[0 := MutexObject(Normal, count, None)]))
  {
  }

  /** The first of the new threads waits on the condition variable, the main thread is about to go on. */
  function WaitingOnCond(): World {
    Scene([On(), Waiter(), Idling(2)], 0, FreeMutex(), CondObject([1], [], Some(0), {}))
  }

  lemma {:induction false} WaitingReachable()
    ensures Reachable(Initial(Blank(), 0), WaitingOnCond())
  {
    StartReachable();
    var start := Initial(Blank(), 0);
    var w1 := Scene([Idling(0), On(), Idling(2)], 1, FreeMutex(), NewCond());
    var w2 := Scene([Idling(0), On(), Idling(2)], 1, MutexObject(Normal, 0, Some(Lock(1, 1))), NewCond());
    var w3 := Scene([Idling(0), Waiter(), On()], 2, FreeMutex(), CondObject([1], [], Some(0), {}));
    ToFirst(w1);
    LockStep(w1);
    FirstWaits(w2, w3);
    BackToMain(w3);
    hide Steps, Reachable;
    ReachableStep(start, Start(), TimeSlice, [Midnight()], w1);
    ReachableStep(start, w1, Lock_(0), [], w2);
    ReachableStep(start, w2, Wait(5, 0, None), [Midnight()], w3);
    ReachableStep(start, w3, TimeSlice, [Midnight()], WaitingOnCond());
  }

  lemma {:induction false} ToFirst(w1: World)
    requires w1 == Scene([Idling(0), On(), Idling(2)], 1, FreeMutex(), NewCond())
    ensures Steps(Start(), TimeSlice, [Midnight()], w1)
  {
    var v := Start();
    assert Blocked(v, NotBlocked, Ordinary) == v;
    FirstIsIdling(v, 1);
    HandedOver(v, 1, w1);
    DispatchIsHanded(v, Midnight());
    hide Dispatch;
  }

  lemma {:induction false} FirstWaits(w2: World, w3: World)
    requires w2 == Scene([Idling(0), On(), Idling(2)], 1, MutexObject(Normal, 0, Some(Lock(1, 1))), NewCond())
    requires w3 == Scene([Idling(0), Waiter(), On()], 2, FreeMutex(), CondObject([1], [], Some(0), {}))
    ensures Steps(w2, Wait(5, 0, None), [Midnight()], w3)
  {
    var v := w2.(
      threads := [Idling(0), On().(blockedBy := Condition(5, None)), Idling(2)],
        running := Some(Coroutine(1, CondWait(5, 0, false))),
      mutexes := w3.mutexes, conditions := w3.conditions);
    var w := UnlockMutex(w2, 0).world;
    assert w.mutexes == w3.mutexes;
    assert [] + [1] == [1];
    assert Enqueue(w, 5, 0).value.conditions == w3.conditions;
    assert Blocked(Enqueue(w, 5, 0).value, Condition(5, None), CondWait(5, 0, false)) == v;
    FirstIsIdling(v, 2);
    HandedOver(v, 2, w3);
    DispatchIsHanded(v, Midnight());
    hide Dispatch;
  }

  lemma {:induction false} BackToMain(w3: World)
    requires w3 == Scene([Idling(0), Waiter(), On()], 2, FreeMutex(), CondObject([1], [], Some(0), {}))
    ensures Steps(w3, TimeSlice, [Midnight()], WaitingOnCond())
  {
    assert Blocked(w3, NotBlocked, Ordinary) == w3;
    FirstIsIdling(w3, 0);
    HandedOver(w3, 0, WaitingOnCond());
    DispatchIsHanded(w3, Midnight());
    hide Dispatch;
  }

  /**
   The main thread holds the mutex; thread 1 was signalled and thread 2 blocked in `lock_mutex`, and counted;
   both need it.
   */
  function Contended(): World {
    Scene([On(), Waiter(), Off(2, Mutex(0), Ordinary)], 0, MutexObject(Normal, 1, Some(Lock(0, 1))),
      CondObject([], [1], Some(0), {}))
  }

  lemma {:induction false} ContendedReachable()
    ensures Reachable(Initial(Blank(), 0), Contended())
  {
    WaitingReachable();
    var start := Initial(Blank(), 0);
    var held := MutexObject(Normal, 0, Some(Lock(0, 1)));
    var w1 := Scene([On(), Waiter(), Idling(2)], 0, held, CondObject([1], [], Some(0), {}));
    var w2 := Scene([On(), Waiter(), Idling(2)], 0, held, CondObject([], [1], Some(0), {}));
    var w3 := Scene([Idling(0), Waiter(), On()], 2, held, CondObject([], [1], Some(0), {}));
    LockStep(WaitingOnCond());
    SignalFirst(w1, w2);
    PastWaiter(w2, w3);
    SecondBlocks(w3);
    hide Steps, Reachable, Scene, Start, Initial;
    ReachableStep(start, WaitingOnCond(), Lock_(0), [], w1);
    ReachableStep(start, w1, Signal(5), [], w2);
    ReachableStep(start, w2, TimeSlice, [Midnight()], w3);
    ReachableStep(start, w3, Lock_(0), [Midnight()], Contended());
  }

  lemma {:induction false} SignalFirst(w1: World, w2: World)
    requires w1.conditions == map[5 := CondObject([1], [], Some(0), {})]
      && w2 == w1.(conditions := map[5 := CondObject([], [1], Some(0), {})])
    requires w1.current < |w1.threads|
    ensures Steps(w1, Signal(5), [], w2)
  {
    assert [1][1..] == [] && [] + [1] == [1];
  }

  lemma {:induction false} PastWaiter(w2: World, w3: World)
    requires w2 == Scene([On(), Waiter(), Idling(2)], 0, MutexObject(Normal, 0, Some(Lock(0, 1))),
      CondObject([], [1], Some(0), {}))
    requires w3 == Scene([Idling(0), Waiter(), On()], 2, MutexObject(Normal, 0, Some(Lock(0, 1))),
      CondObject([], [1], Some(0), {}))
    ensures Steps(w2, TimeSlice, [Midnight()], w3)
  {
    assert Blocked(w2, NotBlocked, Ordinary) == w2;
    assert Candidate(w2, 0) == 1 && Candidate(w2, 1) == 2;
    assert Try(w2, 1, 0) == Passed(w2, None) && Try(w2, 2, 0) == Chosen(w2);
    hide Try;
    assert Scan(w2, Midnight(), 1, None) == Found(w2, 2);
    assert Scan(w2, Midnight(), 0, None) == Found(w2, 2);
    HandedOver(w2, 2, w3);
    DispatchIsHanded(w2, Midnight());
    hide Dispatch, Scan;
  }

  lemma {:induction false} SecondBlocks(w3: World)
    requires w3 == Scene([Idling(0), Waiter(), On()], 2, MutexObject(Normal, 0, Some(Lock(0, 1))),
      CondObject([], [1], Some(0), {}))
    ensures Steps(w3, Lock_(0), [Midnight()], Contended())
  {
    var w := LockMutex(w3, 0).world;
    assert w.mutexes == Contended().mutexes;
    var v := Blocked(w, Mutex(0), Ordinary);
    assert v.threads == [Idling(0), Waiter(), On().(blockedBy := Mutex(0))];
    FirstIsIdling(v, 0);
    HandedOver(v, 0, Contended());
    DispatchIsHanded(v, Midnight());
    hide Dispatch;
  }

  /**
   Then: thread 1 has been given the mutex and has unlocked it again. Thread 2 is still blocked, but not
   counted any more.
   */
  function Uncounted(): World {
    Scene([Idling(0), On(), Off(2, Mutex(0), Ordinary)], 1, FreeMutex(), CondObject([], [], Some(0), {}))
  }

  lemma {:induction false} UncountedReachable()
    ensures Reachable(Initial(Blank(), 0), Uncounted())
  {
    ContendedReachable();
    var start := Initial(Blank(), 0);
    var w1 := Contended().(mutexes := map[0 := MutexObject(Normal, 1, None)]);
    var w2 := Uncounted().(mutexes := map[0 := MutexObject(Normal, 0, Some(Lock(1, 1)))]);
    UnlockStep(Contended(), 1);
    GrantUsesCount(w1, w2);
    UnlockStep(w2, 0);
    hide Steps, Reachable;
    ReachableStep(start, Contended(), Unlock(0), [], w1);
    ReachableStep(start, w1, TimeSlice, [Midnight()], w2);
    ReachableStep(start, w2, Unlock(0), [], Uncounted());
  }

  /** In between: thread 1 is chosen and not switched to yet. */
  lemma {:induction false} TryGrants(w1: World, v: World)
    requires w1 == Contended().(mutexes := map[0 := MutexObject(Normal, 1, None)])
    requires v == Scene([On(), Off(1, NotBlocked, CondWait(5, 0, false)), Off(2, Mutex(0), Ordinary)], 0,
      MutexObject(Normal, 0, Some(Lock(1, 1))), CondObject([], [], Some(0), {}))
    ensures Try(w1, 1, 0) == Chosen(v)
  {
    var g := Try(w1, 1, 0).world;
    assert [1][1..] == [];
    assert g.threads == v.threads && g.mutexes == v.mutexes && g.conditions == v.conditions;
  }

  lemma {:induction false} WaiterGoesOn(v: World, w2: World)
    requires v == Scene([On(), Off(1, NotBlocked, CondWait(5, 0, false)), Off(2, Mutex(0), Ordinary)], 0,
      MutexObject(Normal, 0, Some(Lock(1, 1))), CondObject([], [], Some(0), {}))
    requires w2 == Uncounted().(mutexes := map[0 := MutexObject(Normal, 0, Some(Lock(1, 1)))])
    ensures Handed(v, 1) == Resumed(w2)
  {
    var w := SwitchThread(v, 1).value;
    assert w.threads == w2.threads;
    var none: set<nat> := {};
    assert none - {1} == none;
    assert Epilogue(w).conditions == w2.conditions;
  }

  lemma {:induction false} GrantUsesCount(w1: World, w2: World)
    requires w1 == Contended().(mutexes := map[0 := MutexObject(Normal, 1, None)])
    requires w2 == Uncounted().(mutexes := map[0 := MutexObject(Normal, 0, Some(Lock(1, 1)))])
    ensures Steps(w1, TimeSlice, [Midnight()], w2)
  {
    var v := Scene([On(), Off(1, NotBlocked, CondWait(5, 0, false)), Off(2, Mutex(0), Ordinary)], 0,
      MutexObject(Normal, 0, Some(Lock(1, 1))), CondObject([], [], Some(0), {}));
    assert Blocked(w1, NotBlocked, Ordinary) == w1;
    assert Candidate(w1, 0) == 1;
    TryGrants(w1, v);
    hide Try;
    assert Scan(w1, Midnight(), 0, None) == Found(v, 1);
    WaiterGoesOn(v, w2);
    DispatchIsHanded(w1, Midnight());
    hide Dispatch, Handed, Scan;
  }

  /**
   The waiting count does not always keep a mutex that is waited for. From the start of the machine a
   state can be reached in which a thread is blocked in `lock_mutex` and counted, and from there one in
   which it is still blocked but the count is zero: granting the mutex to a thread that left a condition
   wait used it up. Then the mutex can be destroyed, and the next time slice ends in a crash.
   */
  lemma {:induction false} WaitingCountCanBeLost()
    ensures Reachable(Initial(Blank(), 0), Contended()) && Reachable(Initial(Blank(), 0), Uncounted())
    ensures Contended().threads[2].blockedBy == Uncounted().threads[2].blockedBy == Mutex(0)
    ensures Contended().mutexes[0].waitingCount == 1 && Uncounted().mutexes[0].waitingCount == 0
    ensures Wanted(Uncounted(), 0) && DestroyMutex(Uncounted(), 0).Done?
    ensures Perform(DestroyMutex(Uncounted(), 0).world, TimeSlice, [Midnight()]) == Crashed
  {
    ContendedReachable();
    UncountedReachable();
    var w := Unlisted(Uncounted(), 0);
    assert WantsMutex(Uncounted(), 2, 0);
    DestroyingUnlists(Uncounted(), 0);
    assert Blocked(w, NotBlocked, Ordinary) == w;
    assert Candidate(w, 0) == 2 && Try(w, 2, 0) == Failure;
    assert Scan(w, Midnight(), 0, None) == Broken;
    DispatchIsHanded(w, Midnight());
    hide Dispatch, Scan, Reachable;
  }
}
