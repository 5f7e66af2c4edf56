/**
 The cooperative thread machine as functions on a snapshot of the emulator (src/environment.rs,
 src/environment/mutex.rs, src/libc/pthread/cond.rs). Exactly one thread runs at a time: its registers
 are in the CPU and its coroutine is held by the run loop; all others keep both in their bookkeeping.
 */
module ThreadModel {
  import opened Common
  import opened GuestMemory

  // ----- state

  datatype Block =
    | NotBlocked
    | Sleeping(until: nat)
    | Mutex(mutex: nat)
    | Semaphore(sem: nat)
    | Condition(cond: nat, deadline: Option<nat>)
    | Joining(joinee: nat, ptr: nat)
    | Suspended(count: nat, previous: Block)

  /** What a suspended coroutine does when it is resumed: return, or finish `pthread_cond_(timed)wait`. */
  datatype Frame = Ordinary | CondWait(cond: nat, mutex: nat, timed: bool)

  /** A suspended host call stack, tagged with the thread it belongs to. */
  datatype Coroutine = Coroutine(thread: nat, frame: Frame)

  datatype Thread = Thread(active: bool, blockedBy: Block, returnValue: Option<nat>, guest: Option<Registers>,
    host: Option<Coroutine>, stack: Option<nat>)

  datatype MutexKind = Normal | ErrorCheck | Recursive

  datatype Lock = Lock(owner: nat, count: nat)

  datatype MutexObject = MutexObject(kind: MutexKind, waitingCount: nat, locked: Option<Lock>)

  datatype CondObject = CondObject(waiting: seq<nat>, waking: seq<nat>, mutex: Option<nat>, timedOut: set<nat>)

  /** `running` is the coroutine in the hands of the run loop; `memory` the words written for joins. */
  datatype World = World(
    threads: seq<Thread>, current: nat, cpu: Registers, running: Option<Coroutine>,
    mutexes: map<nat, MutexObject>, mutexCount: nat, semaphores: map<nat, int>, conditions: map<nat, CondObject>,
      memory: map<nat, nat>)

  function SetBlock(w: World, t: nat, block: Block): World
    requires t < |w.threads|
  {
    w.(threads := w.threads[t := w.threads[t].(blockedBy := block)])
  }

  /** What a thread is blocked by, disregarding suspension. */
  function Base(b: Block): Block {
    if b.Suspended? then b.previous else b
  }

  predicate WaitsOn(b: Block, c: nat) {
    Base(b).Condition? && Base(b).cond == c
  }

  /** Some thread, suspended or not, waits on the condition variable. */
  predicate Awaited(w: World, c: nat) {
    exists t :: 0 <= t < |w.threads| && w.threads[t].active && WaitsOn(w.threads[t].blockedBy, c)
  }

  // ----- mutexes

  predicate IsLocked(w: World, m: nat) {
    m in w.mutexes && w.mutexes[m].locked.Some?
  }

  /** `relock_unblocked_mutex_for_thread` */
  function Relock(w: World, t: nat, m: nat): World
    requires m in w.mutexes
  {
    var mutex := w.mutexes[m];
    var count := if mutex.waitingCount > 0 then mutex.waitingCount - 1 else 0;
    w.(mutexes := w.mutexes[m := mutex.(locked := Some(Lock(t, 1)), waitingCount := count)])
  }

  const EPERM := 1
  const EDEADLK := 11
  const EBUSY := 16

  datatype MutexResult = Done(world: World, lockCount: nat) | Refused(errno: int) | MustWait(world: World)

  /** `lock_mutex` up to where it would block. */
  function LockMutex(w: World, m: nat): MutexResult
    requires m in w.mutexes
  {
    var mutex := w.mutexes[m];
    match mutex.locked
    case None => Done(w.(mutexes := w.mutexes[m := mutex.(locked := Some(Lock(w.current, 1)))]), 1)
    case Some(Lock(owner, count)) =>
      if owner != w.current then MustWait(w.(mutexes := w.mutexes[m := mutex.(waitingCount := mutex.waitingCount + 1)]))
      else if mutex.kind.Recursive? then Done(w.(mutexes :=
        w.mutexes[m := mutex.(locked := Some(Lock(owner, count + 1)))]), count + 1)
      else Refused(EDEADLK)
  }

  /** `unlock_mutex` */
  function UnlockMutex(w: World, m: nat): MutexResult
    requires m in w.mutexes
  {
    var mutex := w.mutexes[m];
    match mutex.locked
    case None => Refused(EPERM)
    case Some(Lock(owner, count)) =>
      if owner != w.current && !mutex.kind.Normal? then Refused(EPERM)
      else if count <= 1 then Done(w.(mutexes := w.mutexes[m := mutex.(locked := None)]), 0)
      else Done(w.(mutexes := w.mutexes[m := mutex.(locked := Some(Lock(owner, count - 1)))]), count - 1)
  }

  /** `destroy_mutex` */
  function DestroyMutex(w: World, m: nat): MutexResult
    requires m in w.mutexes
  {
    var mutex := w.mutexes[m];
    if mutex.locked.Some? || mutex.waitingCount != 0 then Refused(EBUSY) else Done(w.(mutexes := w.mutexes - {m}), 0)
  }

  // ----- the scheduler

  /** All occurrences of `x` taken out of a queue. */
  function Without(s: seq<nat>, x: nat): (r: seq<nat>)
    ensures x !in r && |r| <= |s|
    ensures forall y :: y != x ==> (y in r <==> y in s)
  {
    if s == [] then []
    else if s[|s| - 1] == x then Without(s[..|s| - 1], x)
    else Without(s[..|s| - 1], x) + [s[|s| - 1]]
  }

  /** One candidate: chosen, passed over (with the time it wants to be looked at again), or an assertion fails. */
  datatype Attempt = Chosen(world: World) | Passed(world: World, wake: Option<nat>) | Failure

  function Try(w: World, t: nat, now: nat): (r: Attempt)
    requires t < |w.threads|
    ensures !r.Failure? ==> |r.world.threads| == |w.threads| && r.world.current == w.current
  {
    var thread := w.threads[t];
    if !thread.active then Passed(w, None)
    else match thread.blockedBy
      case NotBlocked => Chosen(w)
      case Sleeping(until) => if until <= now then Chosen(SetBlock(w, t, NotBlocked)) else Passed(w, Some(until))
      case Mutex(m) => if IsLocked(w, m) then Passed(w, None) else Grant(w, t, m)
      case Semaphore(s) =>
        if s !in w.semaphores then Failure
        else if w.semaphores[s] <= 0 then Passed(w, None)
        else Chosen(SetBlock(w, t, NotBlocked).(semaphores := w.semaphores[s := w.semaphores[s] - 1]))
      case Condition(c, deadline) => TryCondition(w, t, c, deadline, now)
      case Joining(j, ptr) =>
        if j >= |w.threads| then Failure
        else if w.threads[j].active then Passed(w, None)
        else if ptr == 0 then Chosen(SetBlock(w, t, NotBlocked))
        else if w.threads[j].returnValue.None? then Failure
        else Chosen(SetBlock(w, t, NotBlocked).(memory := w.memory[ptr := w.threads[j].returnValue.value]))
      case Suspended(count, _) => if count > 0 then Passed(w, None) else Failure
  }

  /** Unblock a thread and give it a mutex that is free. */
  function Grant(w: World, t: nat, m: nat): (r: Attempt)
    requires t < |w.threads|
    ensures !r.Failure? ==> |r.world.threads| == |w.threads| && r.world.current == w.current
  {
    if m !in w.mutexes || w.mutexes[m].locked.Some? then Failure else Chosen(Relock(SetBlock(w, t, NotBlocked), t, m))
  }

  /** The condition variable without a thread whose wait has timed out. */
  function TimeOut(w: World, t: nat, c: nat): World
    requires c in w.conditions
  {
    var cond := w.conditions[c];
    w.(conditions := w.conditions[c := cond.(waiting := Without(cond.waiting, t), waking := Without(cond.waking, t),
      timedOut := cond.timedOut + {t})])
  }

  function TryCondition(w: World, t: nat, c: nat, deadline: Option<nat>, now: nat): (r: Attempt)
    requires t < |w.threads|
    ensures !r.Failure? ==> |r.world.threads| == |w.threads| && r.world.current == w.current
  {
    if c !in w.conditions || w.conditions[c].mutex.None? then Failure
    else
      var cond := w.conditions[c];
      var m := cond.mutex.value;
      if cond.waking != [] && cond.waking[0] == t && !IsLocked(w, m) then
        Grant(w.(conditions := w.conditions[c := cond.(waking := cond.waking[1..])]), t, m)
      else if deadline.None? then Passed(w, None)
      else if deadline.value > now then Passed(w, deadline)
      else if t in cond.timedOut then Failure
      else if IsLocked(w, m) then Passed(SetBlock(TimeOut(w, t, c), t, Mutex(m)), None)
      else Grant(TimeOut(w, t, c), t, m)
  }

  /** The reading of the clock for each candidate of one scan. */
  type Clock = nat -> nat

  /** The thread looked at in the `i`th place, starting after the current one. */
  function Candidate(w: World, i: nat): (t: nat)
    requires w.threads != []
    ensures t < |w.threads|
  {
    (w.current + 1 + i) % |w.threads|
  }

  function Earlier(a: Option<nat>, b: Option<nat>): Option<nat> {
    if a.None? then b else if b.None? || a.value <= b.value then a else b
  }

  datatype Scheduled = Found(world: World, thread: nat) | Nothing(world: World, wake: Option<nat>) | Broken

  /** One pass over the threads, from place `i` on. */
  function Scan(w: World, clock: Clock, i: nat, wake: Option<nat>): Scheduled
    decreases |w.threads| - i
  {
    if i >= |w.threads| then Nothing(w, wake)
    else
      var t := Candidate(w, i);
      match Try(w, t, clock(i))
      case Chosen(w2) => Found(w2, t)
      case Passed(w2, soon) => Scan(w2, clock, i + 1, Earlier(wake, soon))
      case Failure => Broken
  }

  /** Passes until one finds a thread; `clocks` are the readings of the successive passes. */
  function Schedule(w: World, clocks: seq<Clock>): Scheduled
    decreases |clocks|
  {
    if clocks == [] then Nothing(w, None)
    else match Scan(w, clocks[0], 0, None)
      case Nothing(w2, _) => Schedule(w2, clocks[1..])
      case other => other
  }

  // ----- switching

  /** `switch_thread`; `None` where one of its assertions or unwraps would fail. */
  function SwitchThread(w: World, t: nat): Option<World> {
    if t >= |w.threads| || w.current >= |w.threads| || t == w.current || !w.threads[t].active then None
    else
      var next := w.threads[t];
      var last := w.threads[w.current];
      if next.guest.None? || last.guest.Some? || (w.running.None? && last.active) || next.host.None? then None
      else
        Some(w.(
          threads := w.threads[t := next.(guest := None, host := None)][w.current :=
            last.(guest := Some(w.cpu), host := w.running)],
          cpu := next.guest.value, running := next.host, current := t))
  }

  /** What a resumed coroutine does first: a condition wait forgets that it timed out. */
  function Epilogue(w: World): World {
    match w.running
    case Some(Coroutine(t, CondWait(c, m, timed))) =>
      var w2 := w.(running := Some(Coroutine(t, Ordinary)));
      if c in w.conditions then w2.(conditions := w.conditions[c :=
        w.conditions[c].(timedOut := w.conditions[c].timedOut - {w.current})]) else w2
    case _ => w
  }

  /** Its condition variable is gone, or it was not to time out and did. */
  predicate EpilogueFails(w: World) {
    match w.running
    case Some(Coroutine(_, CondWait(c, _, timed))) => c !in w.conditions
      || (!timed && w.current in w.conditions[c].timedOut)
    case _ => false
  }

  /**
   The coroutine is not that of the current thread, as `run_call` asserts, or the thread is still blocked,
   which `yield_thread` asserts it is not.
   */
  predicate Misplaced(w: World) {
    || w.current >= |w.threads| || w.running.None? || w.running.value.thread != w.current
    || !w.threads[w.current].blockedBy.NotBlocked?
  }

  /** `Asleep`: no thread could run at the clock readings given. */
  datatype Outcome = Resumed(world: World) | Asleep | Crashed

  function GoOn(w: World): Outcome {
    if Misplaced(w) || EpilogueFails(w) then Crashed else Resumed(Epilogue(w))
  }

  /** The executor's turn, from a coroutine's suspension or end to the resumption of the next. */
  function Dispatch(w: World, clocks: seq<Clock>): Outcome {
    match Schedule(w, clocks)
    case Broken => Crashed
    case Nothing(_, _) => Asleep
    case Found(w2, t) =>
      if t != w2.current then match SwitchThread(w2, t) { case None => Crashed case Some(w3) => GoOn(w3) }
      else if w2.running.None? then Crashed
      else GoOn(w2)
  }

  /** `yield_thread`, up to its return in whichever thread is resumed next. */
  function Yield(w: World, block: Block, frame: Frame, clocks: seq<Clock>): Outcome {
    if w.current >= |w.threads| || !w.threads[w.current].blockedBy.NotBlocked? || w.running.None? then Crashed
    else Dispatch(SetBlock(w, w.current, block).(running := Some(w.running.value.(frame := frame))), clocks)
  }

  // ----- what a running thread can do

  datatype Action =
    | Compute(regs: Registers)
    | TimeSlice
    | Sleep(until: nat)
    | Create(stackAddr: nat)
    | Exit(value: nat)
    | Join(joinee: nat, ptr: nat)
    | Suspend(thread: nat)
    | Resume(thread: nat)
    | SemInit(sem: nat, initial: int)
    | SemPost(sem: nat)
    | SemWait(sem: nat)
    | SemTryWait(sem: nat)
    | InitMutex(kind: MutexKind)
    | Lock_(mutex: nat)
    | Unlock(mutex: nat)
    | InitCond(cond: nat)
    | Wait(cond: nat, mutex: nat, deadline: Option<nat>)
    | Signal(cond: nat)
    | Broadcast(cond: nat)

  /** `new_thread` */
  function NewThread(w: World, stackAddr: nat, blank: Registers): World {
    w.(threads := w.threads + [Thread(true, NotBlocked, None, Some(blank), Some(Coroutine(|w.threads|, Ordinary)),
      Some(stackAddr))])
  }

  /** A thread's routine has returned: its coroutine ends and its stack is freed. */
  function Finish(w: World, value: nat): World
    requires w.current < |w.threads|
  {
    var thread := w.threads[w.current];
    w.(threads := w.threads[w.current := thread.(returnValue := Some(value), active := false, stack := None)],
      running := None)
  }

  function SuspendOther(w: World, t: nat): World
    requires t < |w.threads|
  {
    match w.threads[t].blockedBy
    case Suspended(count, previous) => SetBlock(w, t, Suspended(count + 1, previous))
    case other => SetBlock(w, t, Suspended(1, other))
  }

  /** `resume_thread`; `None` where its assertion would fail. */
  function ResumeThread(w: World, t: nat): Option<World>
    requires t < |w.threads|
  {
    match w.threads[t].blockedBy
    case Suspended(count, previous) =>
      if count == 0 then None else if count > 1 then Some(SetBlock(w, t, Suspended(count - 1, previous)))
        else Some(SetBlock(w, t, previous))
    case _ => Some(w)
  }

  /** The part of `pthread_cond_(timed)wait` after the mutex was released; `None` where its assertion would fail. */
  function Enqueue(w: World, c: nat, m: nat): Option<World>
    requires c in w.conditions
  {
    var cond := w.conditions[c];
    if cond.mutex == Some(m) || (cond.waking == [] && cond.waiting == []) then
      Some(w.(conditions := w.conditions[c := cond.(mutex := Some(m), waiting := cond.waiting + [w.current])]))
    else None
  }

  function WaitFor(w: World, c: nat, m: nat, deadline: Option<nat>, clocks: seq<Clock>): Outcome
    requires c in w.conditions && m in w.mutexes
  {
    match UnlockMutex(w, m)
    case Done(w2, _) =>
      (match Enqueue(w2, c, m)
       case None => Crashed
       case Some(w3) => Yield(w3, Condition(c, deadline), CondWait(c, m, deadline.Some?), clocks))
    case _ => Resumed(w)
  }

  function SignalOne(w: World, c: nat): World
    requires c in w.conditions
  {
    var cond := w.conditions[c];
    if cond.waiting == [] then w
    else w.(conditions := w.conditions[c := cond.(waiting := cond.waiting[1..],
      waking := cond.waking + [cond.waiting[0]])])
  }

  function WakeAll(w: World, c: nat): World
    requires c in w.conditions
  {
    var cond := w.conditions[c];
    w.(conditions := w.conditions[c := cond.(waiting := [], waking := cond.waking + cond.waiting)])
  }

  /** What the source demands of a caller (or what POSIX leaves undefined and the source does not check). */
  predicate Allowed(w: World, a: Action) {
    match a
    case Exit(_) => w.current != 0
    case Join(j, _) => j < |w.threads|
    case Suspend(t) => t < |w.threads|
    case Resume(t) => t < |w.threads|
    case SemPost(s) => s in w.semaphores
    case SemWait(s) => s in w.semaphores
    case SemTryWait(s) => s in w.semaphores
    case Lock_(m) => m in w.mutexes
    case Unlock(m) => m in w.mutexes
    case InitCond(c) => !Awaited(w, c)
    case Wait(c, m, _) => c in w.conditions && m in w.mutexes
      && (w.conditions[c].mutex == Some(m) || (w.conditions[c].waking == [] && w.conditions[c].waiting == []))
    case Signal(c) => c in w.conditions
    case Broadcast(c) => c in w.conditions
    case _ => true
  }

  /** One action of the running thread, up to where it or another thread goes on. */
  function Perform(w: World, a: Action, clocks: seq<Clock>): Outcome
    requires w.current < |w.threads| && Allowed(w, a)
  {
    match a
    case Compute(regs) => Resumed(w.(cpu := regs))
    case TimeSlice => Yield(w, NotBlocked, Ordinary, clocks)
    case Sleep(until) => Yield(w, Sleeping(until), Ordinary, clocks)
    case Create(stackAddr) => Resumed(NewThread(w, stackAddr, seq(16, _ => 0)))
    case Exit(value) => if w.threads[w.current].stack.None? then Crashed else Dispatch(Finish(w, value), clocks)
    case Join(j, ptr) => Yield(w, Joining(j, ptr), Ordinary, clocks)
    case Suspend(t) => if t == w.current && w.threads[t].blockedBy.NotBlocked? then
      Yield(w, Suspended(1, NotBlocked), Ordinary, clocks) else Resumed(SuspendOther(w, t))
    case Resume(t) => (match ResumeThread(w, t) case None => Crashed case Some(w2) => Resumed(w2))
    case SemInit(s, value) => Resumed(if s in w.semaphores then w else w.(semaphores := w.semaphores[s := value]))
    case SemPost(s) => Resumed(w.(semaphores := w.semaphores[s := w.semaphores[s] + 1]))
    case SemWait(s) =>
      if w.semaphores[s] > 0 then Resumed(w.(semaphores := w.semaphores[s := w.semaphores[s] - 1]))
      else Yield(w, Semaphore(s), Ordinary, clocks)
    case SemTryWait(s) => Resumed(if w.semaphores[s] > 0 then w.(semaphores := w.semaphores[s := w.semaphores[s] - 1])
      else w)
    case InitMutex(kind) => Resumed(w.(mutexes := w.mutexes[w.mutexCount := MutexObject(kind, 0, None)],
      mutexCount := w.mutexCount + 1))
    case Lock_(m) =>
      (match LockMutex(w, m)
       case Done(w2, _) => Resumed(w2)
       case Refused(_) => Resumed(w)
       case MustWait(w2) => Yield(w2, Mutex(m), Ordinary, clocks))
    case Unlock(m) => (match UnlockMutex(w, m) case Done(w2, _) => Resumed(w2) case _ => Resumed(w))
    case InitCond(c) => Resumed(w.(conditions := w.conditions[c := CondObject([], [], None, {})]))
    case Wait(c, m, deadline) => WaitFor(w, c, m, deadline, clocks)
    case Signal(c) => Resumed(SignalOne(w, c))
    case Broadcast(c) => Resumed(WakeAll(w, c))
  }
}
