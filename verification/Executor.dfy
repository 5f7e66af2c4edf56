/**
 The thread machinery in place: `schedule_next_thread`, `switch_thread` and the executor's turn of `run`
 in src/environment.rs, with the locks of src/environment/mutex.rs and the condition variables of
 src/libc/pthread/cond.rs. Each method does to the fields what `ThreadModel` says.
 */
module Executor {
  import opened Common
  import opened GuestMemory
  import opened ThreadModel
  import opened Threads
  import opened Scheduling

  // ----- what a scan that finds nothing tells

  /** When a thread wants to be looked at again. */
  function Deadline(thread: Thread): Option<nat> {
    if !thread.active then None
    else match thread.blockedBy
      case Sleeping(until) => Some(until)
      case Condition(_, deadline) => deadline
      case _ => None
  }

  lemma {:induction false} PassedTellsDeadline(w: World, t: nat, now: nat)
    requires t < |w.threads| && Try(w, t, now).Passed?
    ensures var Passed(w2, wake) := Try(w, t, now);
      && wake == Deadline(w2.threads[t]) && (wake.Some? ==> w2 == w)
      && forall u: nat :: u < |w.threads| && u != t ==> w2.threads[u] == w.threads[u]
    ensures Deadline(w.threads[t]).Some? && Deadline(w.threads[t]).value <= now ==>
      w.threads[t].blockedBy.Condition? && Deadline(Try(w, t, now).world.threads[t]).None?
  {
  }

  /** The threads in places before `i` are not touched by a scan from `i` on. */
  lemma {:induction false} ScanLeavesEarlier(w: World, clock: Clock, i: nat, wake: Option<nat>, j: nat)
    requires w.current < |w.threads| && j < i && j < |w.threads| && Scan(w, clock, i, wake).Nothing?
    ensures var w2 := Scan(w, clock, i, wake).world;
      |w2.threads| == |w.threads| && w2.current == w.current
        && w2.threads[Candidate(w, j)] == w.threads[Candidate(w, j)]
    decreases |w.threads| - i
  {
    hide Try, Candidate;
    if i < |w.threads| {
      var t := Candidate(w, i);
      PassedTellsDeadline(w, t, clock(i));
      CandidateHasPlace(w, i);
      CandidateHasPlace(w, j);
      var r := Try(w, t, clock(i));
      SameOrder(w, r.world);
      ScanLeavesEarlier(r.world, clock, i + 1, Earlier(wake, r.wake), j);
    }
  }

  /** The wake-up time covers every thread from place `i` on that has a deadline, and is one of theirs. */
  ghost predicate WakeCovers(w: World, i: nat, before: Option<nat>, wake: Option<nat>)
    requires w.threads != []
  {
    && (forall j: nat {:trigger Candidate(w, j)} ::
      i <= j < |w.threads| && Deadline(w.threads[Candidate(w, j)]).Some? ==>
      wake.Some? && wake.value <= Deadline(w.threads[Candidate(w, j)]).value)
    && (before.Some? ==> wake.Some? && wake.value <= before.value)
    && (wake.Some? && wake != before ==> exists j: nat ::
      i <= j < |w.threads| && Deadline(w.threads[Candidate(w, j)]) == wake)
  }

  lemma {:induction false} ScanCoversDeadlines(w: World, clock: Clock, i: nat, wake: Option<nat>)
    requires w.current < |w.threads| && Scan(w, clock, i, wake).Nothing?
    ensures var Nothing(w2, last) := Scan(w, clock, i, wake);
      w2.current == w.current && |w2.threads| == |w.threads| && WakeCovers(w2, i, wake, last)
    decreases |w.threads| - i
  {
    hide Try, Candidate, Deadline;
    if i < |w.threads| {
      var t := Candidate(w, i);
      PassedTellsDeadline(w, t, clock(i));
      var r := Try(w, t, clock(i));
      SameOrder(w, r.world);
      ScanCoversDeadlines(r.world, clock, i + 1, Earlier(wake, r.wake));
      ScanLeavesEarlier(r.world, clock, i + 1, Earlier(wake, r.wake), i);
      var Nothing(w2, last) := Scan(w, clock, i, wake);
      SameOrder(w, w2);
      assert Deadline(w2.threads[Candidate(w2, i)]) == r.wake;
      forall j: nat | i <= j < |w2.threads| && Deadline(w2.threads[Candidate(w2, j)]).Some?
        ensures last.Some? && last.value <= Deadline(w2.threads[Candidate(w2, j)]).value
      {
        if j == i {
          assert Earlier(wake, r.wake).Some?;
        }
      }
      assert last.Some? && last != wake && last == r.wake ==> Deadline(w2.threads[Candidate(w2, i)]) == last;
    }
  }

  ghost function TimedWaits(w: World): set<nat> {
    set t: nat | t < |w.threads| && w.threads[t].blockedBy.Condition? && Deadline(w.threads[t]).Some?
  }

  lemma {:induction false} ScanOnlyEndsWaits(w: World, clock: Clock, i: nat, wake: Option<nat>)
    requires w.current < |w.threads| && Scan(w, clock, i, wake).Nothing?
    ensures TimedWaits(Scan(w, clock, i, wake).world) <= TimedWaits(w)
    decreases |w.threads| - i
  {
    hide Candidate;
    if i < |w.threads| {
      var r := Try(w, Candidate(w, i), clock(i));
      TryOnlyEndsWaits(w, Candidate(w, i), clock(i));
      hide Try;
      ScanOnlyEndsWaits(r.world, clock, i + 1, Earlier(wake, r.wake));
    }
  }

  lemma {:induction false} TryOnlyEndsWaits(w: World, t: nat, now: nat)
    requires t < |w.threads| && Try(w, t, now).Passed?
    ensures TimedWaits(Try(w, t, now).world) <= TimedWaits(w)
  {
  }

  /**
   A thread whose deadline is over when a scan looks at it is not still waiting for it after a scan that
   finds nothing.
   */
  lemma {:induction false} ScanEndsOverdueWaits(w: World, clock: Clock, i: nat, wake: Option<nat>, k: nat)
    requires w.current < |w.threads| && i <= k < |w.threads| && Scan(w, clock, i, wake).Nothing?
    requires Deadline(w.threads[Candidate(w, k)]).Some? && Deadline(w.threads[Candidate(w, k)]).value <= clock(k)
    ensures var w2 := Scan(w, clock, i, wake).world;
      |w2.threads| == |w.threads| && Deadline(w2.threads[Candidate(w, k)]).None?
        && w.threads[Candidate(w, k)].blockedBy.Condition?
    decreases |w.threads| - i
  {
    hide Try, Candidate, Deadline;
    var t := Candidate(w, i);
    PassedTellsDeadline(w, t, clock(i));
    var r := Try(w, t, clock(i));
    SameOrder(w, r.world);
    if i == k {
      ScanLeavesEarlier(r.world, clock, i + 1, Earlier(wake, r.wake), i);
    } else {
      CandidateHasPlace(w, i);
      CandidateHasPlace(w, k);
      ScanEndsOverdueWaits(r.world, clock, i + 1, Earlier(wake, r.wake), k);
    }
  }

  lemma {:induction false} ScheduleSnoc(w: World, clocks: seq<Clock>, clock: Clock)
    requires Schedule(w, clocks).Nothing?
    ensures Schedule(w, clocks + [clock]) == match Scan(Schedule(w, clocks).world, clock, 0, None)
      case Nothing(w2, _) => Nothing(w2, None)
      case other => other
    decreases |clocks|
  {
    hide Scan;
    if clocks == [] {
      assert Schedule(w, [clock]) ==
        match Scan(w, clock, 0, None) { case Nothing(w2, _) => Nothing(w2, None) case other => other };
    } else {
      assert (clocks + [clock])[1..] == clocks[1..] + [clock];
      ScheduleSnoc(Scan(w, clocks[0], 0, None).world, clocks[1..], clock);
    }
  }

  /** The scheduler gives up: nobody was ready in the last scan, and nobody is waiting for a time. */
  ghost predicate Deadlocked(w: World, clock: Clock) {
    w.threads != [] && FirstReady(w, clock, 0).None? && forall t :: 0 <= t < |w.threads| ==>
      Deadline(w.threads[t]).None?
  }

  /** The clock during one scan: never behind the time slept for, by however much. */
  function Readings(slept: nat, lag: nat -> nat): Clock {
    i => slept + lag(i)
  }

  lemma {:induction false} NothingMeansDeadlocked(w: World, clock: Clock)
    requires Contexts(w) && Waiting(w) && Scan(w, clock, 0, None).Nothing? && Scan(w, clock, 0, None).wake.None?
    ensures Deadlocked(Scan(w, clock, 0, None).world, clock)
  {
    ScanFindsFirstReady(w, clock, 0, None);
    ScanKeepsReadiness(w, clock, 0, None);
    var w2 := Scan(w, clock, 0, None).world;
    FirstReadyFrame(w, w2, clock, 0);
    ScanCoversDeadlines(w, clock, 0, None);
    hide Scan, Contexts, Waiting, FirstReady, Deadline, Candidate;
    forall t: nat | t < |w2.threads|
      ensures Deadline(w2.threads[t]).None?
    {
      PlaceIsCandidate(w2, t);
      assert Deadline(w2.threads[Candidate(w2, Place(w2, t))]) == Deadline(w2.threads[t]);
    }
  }

  /** Some thread's deadline is over at any reading of a clock that starts at `slept`. */
  ghost predicate SomeoneDue(w: World, slept: nat)
    requires w.threads != []
  {
    exists k: nat ::
      k < |w.threads| && Deadline(w.threads[Candidate(w, k)]).Some?
      && Deadline(w.threads[Candidate(w, k)]).value <= slept
  }

  lemma {:induction false} DueScanMakesProgress(w: World, slept: nat, lag: nat -> nat)
    requires w.current < |w.threads| && SomeoneDue(w, slept) && Scan(w, Readings(slept, lag), 0, None).Nothing?
    ensures TimedWaits(Scan(w, Readings(slept, lag), 0, None).world) < TimedWaits(w)
  {
    hide Scan;
    var clock := Readings(slept, lag);
    var k: nat :| k < |w.threads| && Deadline(w.threads[Candidate(w, k)]).Some?
      && Deadline(w.threads[Candidate(w, k)]).value <= slept;
    assert clock(k) >= slept;
    ScanEndsOverdueWaits(w, clock, 0, None, k);
    ScanOnlyEndsWaits(w, clock, 0, None);
    var t := Candidate(w, k);
    assert t in TimedWaits(w) && t !in TimedWaits(Scan(w, clock, 0, None).world);
  }

  lemma {:induction false} WakingMakesSomeoneDue(w: World, clock: Clock)
    requires w.current < |w.threads| && Scan(w, clock, 0, None).Nothing? && Scan(w, clock, 0, None).wake.Some?
    ensures var Nothing(w2, wake) := Scan(w, clock, 0, None); w2.threads != [] && SomeoneDue(w2, wake.value)
  {
    hide Scan, Candidate, Deadline;
    ScanCoversDeadlines(w, clock, 0, None);
  }

  lemma {:induction false} SmallerSet<T>(a: set<T>, b: set<T>)
    requires a < b
    ensures |a| < |b|
  {
    var x :| x in b && x !in a;
    assert a <= b - {x};
    SubsetSize(a, b - {x});
  }

  class Environment {
    var threads: seq<Thread>
    var current: nat
    var cpu: Registers
    var running: Option<Coroutine>
    var mutexes: map<nat, MutexObject>
    var mutexCount: nat
    var semaphores: map<nat, int>
    var conditions: map<nat, CondObject>
    var memory: map<nat, nat>
    var graceCount: nat

    function Snapshot(): World
      reads this
    {
      World(threads, current, cpu, running, mutexes, mutexCount, semaphores, conditions, memory)
    }

    constructor (cpu: Registers, stackAddr: nat)
      ensures Snapshot() == Initial(cpu, stackAddr) && graceCount == 0
    {
      threads := [Thread(true, NotBlocked, None, None, None, Some(stackAddr))];
      current, this.cpu, running := 0, cpu, Some(Coroutine(0, Ordinary));
      mutexes, mutexCount, semaphores, conditions, memory := map[], 0, map[], map[], map[];
      graceCount := 0;
    }

    // ----- scheduling

    method RelockUnblockedMutexForThread(t: nat, m: nat)
      requires m in mutexes && mutexes[m].locked.None?
      modifies `mutexes
      ensures Snapshot() == Relock(old(Snapshot()), t, m)
    {
      mutexes := mutexes[m := mutexes[m].(locked := Some(Lock(t, 1)))];
      if mutexes[m].waitingCount > 0 {
        mutexes := mutexes[m := mutexes[m].(waitingCount := mutexes[m].waitingCount - 1)];
      }
    }

    method Unblock(t: nat, block: Block)
      requires t < |threads|
      modifies `threads
      ensures Snapshot() == SetBlock(old(Snapshot()), t, block)
    {
      threads := threads[t := threads[t].(blockedBy := block)];
    }

    /** The case of a thread that waits on a condition variable. */
    method TryWaiter(t: nat, now: nat) returns (chosen: bool, wake: Option<nat>)
      requires t < |threads| && threads[t].active && threads[t].blockedBy.Condition?
        && !Try(Snapshot(), t, now).Failure?
      modifies `threads, `mutexes, `conditions
      ensures Try(old(Snapshot()), t, now) == if chosen then Chosen(Snapshot()) else Passed(Snapshot(), wake)
    {
      var Condition(c, deadline) := threads[t].blockedBy;
      var m := conditions[c].mutex.value;
      chosen, wake := false, None;
      if conditions[c].waking != [] && conditions[c].waking[0] == t && !IsLocked(Snapshot(), m) {
        conditions := conditions[c := conditions[c].(waking := conditions[c].waking[1..])];
        Unblock(t, NotBlocked);
        RelockUnblockedMutexForThread(t, m);
        chosen := true;
      } else if deadline.Some? {
        if deadline.value <= now {
          var cond := conditions[c];
          conditions := conditions[c := cond.(timedOut := cond.timedOut + {t}, waking := Without(cond.waking, t),
            waiting := Without(cond.waiting, t))];
          if IsLocked(Snapshot(), m) {
            Unblock(t, Mutex(m));
          } else {
            Unblock(t, NotBlocked);
            RelockUnblockedMutexForThread(t, m);
            chosen := true;
          }
        } else {
          wake := deadline;
        }
      }
    }

    method TryThread(t: nat, now: nat) returns (chosen: bool, wake: Option<nat>)
      requires t < |threads| && !Try(Snapshot(), t, now).Failure?
      modifies `threads, `mutexes, `semaphores, `conditions, `memory
      ensures Try(old(Snapshot()), t, now) == if chosen then Chosen(Snapshot()) else Passed(Snapshot(), wake)
    {
      chosen, wake := false, None;
      if !threads[t].active {
        return;
      }
      match threads[t].blockedBy
      case Sleeping(until) =>
        if until <= now {
          Unblock(t, NotBlocked);
          chosen := true;
        } else {
          wake := Some(until);
        }
      case Mutex(m) =>
        if !IsLocked(Snapshot(), m) {
          Unblock(t, NotBlocked);
          RelockUnblockedMutexForThread(t, m);
          chosen := true;
        }
      case Semaphore(s) =>
        if semaphores[s] > 0 {
          semaphores := semaphores[s := semaphores[s] - 1];
          Unblock(t, NotBlocked);
          chosen := true;
        }
      case Condition(_, _) =>
        chosen, wake := TryWaiter(t, now);
      case Joining(j, ptr) =>
        if !threads[j].active {
          if ptr != 0 {
            memory := memory[ptr := threads[j].returnValue.value];
          }
          Unblock(t, NotBlocked);
          chosen := true;
        }
      case NotBlocked =>
        chosen := true;
      case Suspended(_, _) =>
    }

    method ScanThreads(clock: Clock) returns (found: Option<nat>, wake: Option<nat>)
      requires Contexts(Snapshot()) && Waiting(Snapshot())
      modifies `threads, `mutexes, `semaphores, `conditions, `memory
      ensures Scan(old(Snapshot()), clock, 0, None) ==
        match found { case Some(t) => Found(Snapshot(), t) case None => Nothing(Snapshot(), wake) }
    {
      hide Contexts, Waiting, Try, Candidate;
      wake := None;
      ghost var w0 := Snapshot();
      assert current < |threads| by { CurrentInBounds(w0); }
      for i := 0 to |threads|
        invariant |threads| == |w0.threads| && current == w0.current < |threads|
        invariant Contexts(Snapshot()) && Waiting(Snapshot())
        invariant Scan(w0, clock, 0, None) == Scan(Snapshot(), clock, i, wake)
      {
        var t := (current + 1 + i) % |threads|;
        assert t == Candidate(Snapshot(), i) by { CandidateFormula(Snapshot(), i); }
        TryKeeps(Snapshot(), t, clock(i));
        ghost var before := Snapshot();
        var chosen, soon := TryThread(t, clock(i));
        if chosen {
          return Some(t), None;
        }
        PassStep(before, t, clock(i));
        wake := Earlier(wake, soon);
      }
      found := None;
    }

    /** `schedule_next_thread`. `lags` says how the clock runs; `None` is the panic about a deadlock. */
    method ScheduleNextThread(lags: nat -> nat -> nat) returns (found: Option<nat>, ghost clocks: seq<Clock>)
      requires Contexts(Snapshot()) && Waiting(Snapshot())
      modifies `threads, `mutexes, `semaphores, `conditions, `memory, `graceCount
      ensures found.Some? ==> Schedule(old(Snapshot()), clocks) == Found(Snapshot(), found.value)
      ensures found.Some? ==> clocks != [] && RepeatsAt(LastClock(old(Snapshot()), clocks), Snapshot(), found.value)
      ensures found.None? ==>
        clocks != [] && Schedule(old(Snapshot()), clocks) == Nothing(Snapshot(), None)
        && Deadlocked(Snapshot(), clocks[|clocks| - 1])
    {
      hide Contexts, Waiting, Scan, Deadlocked, SameContexts, RepeatsAt, LastClock;
      ghost var w0 := Snapshot();
      assert w0.current < |w0.threads| by { CurrentInBounds(w0); }
      var slept, scans: nat := 0, 0;
      ghost var due := false;
      clocks := [];
      while true
        invariant Contexts(Snapshot()) && Waiting(Snapshot()) && current < |threads|
        invariant Schedule(w0, clocks) == Nothing(Snapshot(), None)
        invariant due ==> SomeoneDue(Snapshot(), slept)
        decreases |TimedWaits(Snapshot())|, if due then 0 else 1, 4 - graceCount
      {
        ghost var w := Snapshot();
        var clock := Readings(slept, lags(scans));
        var wake;
        ScanKeeps(w, clock, 0, None);
        ScheduleSnoc(w0, clocks, clock);
        found, wake := ScanThreads(clock);
        clocks := clocks + [clock];
        if found.Some? {
          RepeatsAfter(w0, clocks);
          return;
        }
        ScanOnlyEndsWaits(w, clock, 0, None);
        SubsetSize(TimedWaits(Snapshot()), TimedWaits(w));
        if due {
          DueScanMakesProgress(w, slept, lags(scans));
          SmallerSet(TimedWaits(Snapshot()), TimedWaits(w));
        }
        assert current < |threads| by { CurrentInBounds(Snapshot()); }
        scans := scans + 1;
        if wake.Some? {
          WakingMakesSomeoneDue(w, clock);
          slept := wake.value;
          due := true;
        } else {
          NothingMeansDeadlocked(w, clock);
          due := false;
          var count := graceCount;
          graceCount := graceCount + 1;
          if count >= 3 {
            graceCount := 0;
            return;
          }
        }
      }
    }

    // ----- switching

    method Switch(t: nat)
      requires SwitchThread(Snapshot(), t).Some?
      modifies `threads, `cpu, `running, `current
      ensures SwitchThread(old(Snapshot()), t) == Some(Snapshot())
    {
      var guest := threads[t].guest.value;
      threads := threads[t := threads[t].(guest := None)];
      guest, cpu := cpu, guest;
      threads := threads[current := threads[current].(guest := Some(guest))];
      var host := threads[t].host;
      threads := threads[t := threads[t].(host := None)];
      threads := threads[current := threads[current].(host := running)];
      running := host;
      assert threads == SwitchThread(old(Snapshot()), t).value.threads;
      current := t;
    }

    /** The executor's turn in `run`: after a coroutine was suspended, or ended and was dropped. */
    method ExecutorTurn(lags: nat -> nat -> nat) returns (ok: bool, ghost clocks: seq<Clock>)
      requires Contexts(Snapshot()) && Waiting(Snapshot())
      modifies this
      ensures ok ==> Dispatch(old(Snapshot()), clocks) == Resumed(Epilogue(Snapshot())) && Running(Epilogue(Snapshot()))
      ensures ok ==> !Misplaced(Snapshot()) && !EpilogueFails(Snapshot())
      ensures !ok ==>
        clocks != [] && Dispatch(old(Snapshot()), clocks) == Asleep && Deadlocked(Snapshot(), clocks[|clocks| - 1])
    {
      hide Contexts, Waiting, Schedule, Deadlocked, SwitchThread, Running, SyncOk, OthersWellBlocked, WellBlocked;
      ghost var w := Snapshot();
      var found;
      found, clocks := ScheduleNextThread(lags);
      ScheduleKeeps(w, clocks);
      DispatchKeeps(w, clocks);
      ok := found.Some?;
      if ok && found.value != current {
        SwitchKeeps(Snapshot(), found.value);
        Switch(found.value);
      }
    }

    // ----- threads

    method CreateThread(stackAddr: nat) returns (t: nat)
      modifies `threads
      ensures t == old(|threads|) && Snapshot() == NewThread(old(Snapshot()), stackAddr, seq(16, _ => 0))
    {
      t := |threads|;
      var blank: Registers := seq(16, _ => 0);
      threads := threads + [Thread(true, NotBlocked, None, Some(blank), Some(Coroutine(t, Ordinary)), Some(stackAddr))];
    }

    /** The end of a thread's routine, and what `run` does with its coroutine and stack. */
    method FinishThread(value: nat)
      requires Running(Snapshot()) && current < |threads|
      modifies `threads, `running
      ensures Snapshot() == Finish(old(Snapshot()), value) && old(threads[current].stack).Some?
    {
      StackIsThere(Snapshot());
      threads := threads[current := threads[current].(returnValue := Some(value))];
      threads := threads[current := threads[current].(active := false)];
      running := None;
      threads := threads[current := threads[current].(stack := None)];
    }

    /** `yield_thread` up to the suspension of the coroutine. */
    method BeginYield(block: Block, frame: Frame)
      requires current < |threads| && threads[current].blockedBy.NotBlocked? && running.Some?
      modifies `threads, `running
      ensures Snapshot() == Blocked(old(Snapshot()), block, frame)
    {
      Unblock(current, block);
      running := Some(Coroutine(running.value.thread, frame));
    }

    /** Whether the thread suspended itself, and has to yield. */
    method SuspendThread(t: nat) returns (self: bool)
      requires Running(Snapshot()) && t < |threads|
      modifies `threads, `running
      ensures self <==> t == current
      ensures Snapshot() == if self then Blocked(old(Snapshot()), Suspended(1, NotBlocked), Ordinary)
        else SuspendOther(old(Snapshot()), t)
    {
      CurrentExists(Snapshot());
      hide Contexts, Waiting;
      self := false;
      var previous := threads[t].blockedBy;
      if previous.Suspended? {
        Unblock(t, Suspended(previous.count + 1, previous.previous));
      } else {
        Unblock(t, NotBlocked);
        if t == current {
          self := true;
          BeginYield(Suspended(1, previous), Ordinary);
        } else {
          Unblock(t, Suspended(1, previous));
        }
      }
    }

    method ResumeSuspended(t: nat)
      requires t < |threads| && ResumeThread(Snapshot(), t).Some?
      modifies `threads
      ensures ResumeThread(old(Snapshot()), t) == Some(Snapshot())
    {
      var before := threads[t].blockedBy;
      Unblock(t, NotBlocked);
      match before
      case Suspended(count, previous) =>
        if count > 1 {
          Unblock(t, Suspended(count - 1, previous));
        } else {
          Unblock(t, previous);
        }
        assert threads == ResumeThread(old(Snapshot()), t).value.threads;
      case other =>
        Unblock(t, other);
        assert threads == old(threads);
    }

    // ----- semaphores

    /** `None`: the thread has to wait, and is marked as waiting. */
    method SemDecrement(s: nat, wait: bool) returns (r: Option<bool>)
      requires s in semaphores && current < |threads| && threads[current].blockedBy.NotBlocked? && running.Some?
      modifies `semaphores, `threads, `running
      ensures r == if old(semaphores[s]) > 0 then Some(true) else if wait then None else Some(false)
      ensures Snapshot() ==
        if old(semaphores[s]) > 0 then old(Snapshot()).(semaphores := old(semaphores)[s := old(semaphores[s]) - 1])
        else if wait then Blocked(old(Snapshot()), Semaphore(s), Ordinary) else old(Snapshot())
    {
      if semaphores[s] > 0 {
        semaphores := semaphores[s := semaphores[s] - 1];
        return Some(true);
      }
      if !wait {
        return Some(false);
      }
      BeginYield(Semaphore(s), Ordinary);
      r := None;
    }

    method SemIncrement(s: nat)
      requires s in semaphores
      modifies `semaphores
      ensures Snapshot() == old(Snapshot()).(semaphores := old(semaphores)[s := old(semaphores[s]) + 1])
    {
      semaphores := semaphores[s := semaphores[s] + 1];
    }

    // ----- mutexes

    method Lock_(m: nat) returns (r: MutexResult)
      requires m in mutexes
      modifies `mutexes
      ensures r == LockMutex(old(Snapshot()), m) && Snapshot() == (if r.Refused? then old(Snapshot()) else r.world)
    {
      var mutex := mutexes[m];
      if mutex.locked.None? {
        mutexes := mutexes[m := mutex.(locked := Some(Lock(current, 1)))];
        return Done(Snapshot(), 1);
      }
      var Lock(owner, count) := mutex.locked.value;
      if owner == current {
        match mutex.kind
        case Normal => return Refused(EDEADLK);
        case ErrorCheck => return Refused(EDEADLK);
        case Recursive =>
          mutexes := mutexes[m := mutex.(locked := Some(Lock(owner, count + 1)))];
          return Done(Snapshot(), count + 1);
      }
      mutexes := mutexes[m := mutex.(waitingCount := mutex.waitingCount + 1)];
      r := MustWait(Snapshot());
    }

    method Unlock(m: nat) returns (r: MutexResult)
      requires Running(Snapshot()) && m in mutexes
      modifies `mutexes
      ensures r == UnlockMutex(old(Snapshot()), m) && Snapshot() == (if r.Refused? then old(Snapshot()) else r.world)
    {
      assert MutexOk(Snapshot(), m);
      hide Running;
      var mutex := mutexes[m];
      if mutex.locked.None? {
        return Refused(EPERM);
      }
      var Lock(owner, count) := mutex.locked.value;
      if owner != current && !mutex.kind.Normal? {
        return Refused(EPERM);
      }
      if count == 1 {
        mutexes := mutexes[m := mutex.(locked := None)];
        r := Done(Snapshot(), 0);
      } else {
        assert mutex.kind.Recursive?;
        mutexes := mutexes[m := mutex.(locked := Some(Lock(owner, count - 1)))];
        r := Done(Snapshot(), count - 1);
      }
    }

    method Destroy(m: nat) returns (r: MutexResult)
      requires m in mutexes
      modifies `mutexes
      ensures r == DestroyMutex(old(Snapshot()), m) && Snapshot() == (if r.Refused? then old(Snapshot()) else r.world)
    {
      if mutexes[m].locked.Some? || mutexes[m].waitingCount != 0 {
        return Refused(EBUSY);
      }
      mutexes := mutexes - {m};
      r := Done(Snapshot(), 0);
    }

    // ----- condition variables

    /** The current thread is queued; its mutex is that of all who wait. */
    method JoinQueue(c: nat, m: nat)
      requires c in conditions && Enqueue(Snapshot(), c, m).Some?
      modifies `conditions
      ensures Enqueue(old(Snapshot()), c, m) == Some(Snapshot())
    {
      conditions := conditions[c := conditions[c].(mutex := Some(m))];
      conditions := conditions[c := conditions[c].(waiting := conditions[c].waiting + [current])];
      assert conditions == Enqueue(old(Snapshot()), c, m).value.conditions;
    }

    /** `pthread_cond_(timed)wait` up to the suspension of the coroutine; false if the mutex could not be released. */
    method BeginWait(c: nat, m: nat, deadline: Option<nat>) returns (waits: bool)
      requires Running(Snapshot()) && Allowed(Snapshot(), Wait(c, m, deadline))
      modifies `mutexes, `conditions, `threads, `running
      ensures waits <==> UnlockMutex(old(Snapshot()), m).Done?
      ensures waits ==> Enqueue(UnlockMutex(old(Snapshot()), m).world, c, m).Some? && old(running).Some?
      ensures waits ==> Snapshot() == Blocked(Enqueue(UnlockMutex(old(Snapshot()), m).world, c, m).value,
        Condition(c, deadline), CondWait(c, m, deadline.Some?))
      ensures !waits ==> Snapshot() == old(Snapshot())
    {
      CurrentExists(Snapshot());
      UnlockKeeps(Snapshot(), m);
      hide Contexts, Waiting, UnlockMutex;
      var r := Unlock(m);
      waits := r.Done?;
      if waits {
        JoinQueue(c, m);
        BeginYield(Condition(c, deadline), CondWait(c, m, deadline.Some?));
      }
    }

    /** The rest of it, when the thread is resumed. */
    method EndWait() returns (timedOut: bool)
      requires running.Some? && running.value.frame.CondWait? && !EpilogueFails(Snapshot())
      modifies `conditions, `running
      ensures timedOut <==> current in old(conditions)[old(running).value.frame.cond].timedOut
      ensures Snapshot() == Epilogue(old(Snapshot()))
    {
      var c := running.value.frame.cond;
      var cond := conditions[c];
      running := Some(Coroutine(running.value.thread, Ordinary));
      timedOut := current in cond.timedOut;
      assert timedOut ==> old(running).value.frame.timed;
      if timedOut {
        conditions := conditions[c := cond.(timedOut := cond.timedOut - {current})];
      } else {
        assert cond.timedOut - {current} == cond.timedOut;
        assert conditions[c := cond] == conditions;
      }
    }

    method SignalCond(c: nat)
      requires c in conditions
      modifies `conditions
      ensures Snapshot() == SignalOne(old(Snapshot()), c)
    {
      var cond := conditions[c];
      if cond.waiting != [] {
        var t := cond.waiting[0];
        conditions := conditions[c := cond.(waiting := cond.waiting[1..], waking := cond.waking + [t])];
      }
    }

    method BroadcastCond(c: nat)
      requires c in conditions
      modifies `conditions
      ensures Snapshot() == WakeAll(old(Snapshot()), c)
    {
      conditions := conditions[c := conditions[c].(waking := conditions[c].waking + conditions[c].waiting,
        waiting := [])];
    }
  }

  lemma {:induction false} CurrentInBounds(w: World)
    requires Contexts(w)
    ensures w.current < |w.threads|
  {
  }

  lemma {:induction false} CandidateFormula(w: World, i: nat)
    requires w.threads != []
    ensures Candidate(w, i) == (w.current + 1 + i) % |w.threads|
  {
  }
}
