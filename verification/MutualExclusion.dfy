/**
 Mutual exclusion (src/environment/mutex.rs): what locking and unlocking do for every kind of mutex, and that over
 any run a mutex stays with the thread that locked it until it is unlocked as often as it was locked.
 */
module MutualExclusion {
  import opened Common
  import opened GuestMemory
  import opened ThreadModel
  import opened Threads
  import opened Scheduling
  import opened ThreadRuns

  // ----- one operation

  /** Thread `t` has locked mutex `m`, `n` times. */
  predicate Locked(w: World, m: nat, t: nat, n: int) {
    m in w.mutexes && w.mutexes[m].locked.Some? && w.mutexes[m].locked.value.owner == t
    && w.mutexes[m].locked.value.count == n
  }

  predicate Free(w: World, m: nat) {
    m in w.mutexes && w.mutexes[m].locked.None?
  }

  predicate LockedByOther(w: World, m: nat) {
    m in w.mutexes && w.mutexes[m].locked.Some? && w.mutexes[m].locked.value.owner != w.current
  }

  /** Of mutex `m` at most the lock has changed, and its waiters are `more`; nothing else has. */
  predicate OnlyLock(w: World, w2: World, m: nat, more: nat)
    requires m in w.mutexes
  {
    && w2 == w.(mutexes := w2.mutexes) && w2.mutexes.Keys == w.mutexes.Keys
    && (forall k :: k in w.mutexes && k != m ==> w2.mutexes[k] == w.mutexes[k])
    && w2.mutexes[m].kind == w.mutexes[m].kind && w2.mutexes[m].waitingCount == w.mutexes[m].waitingCount + more
  }

  /**
   Locking, for every kind of mutex: at once if it is free; once more if the current thread has it and it is
   recursive; refused if that has it and it is not; and if another thread has it, the current one has to wait, is
   counted, and the lock stays.
   */
  lemma {:induction false} LockOutcome(w: World, m: nat)
    requires m in w.mutexes
    ensures var r := LockMutex(w, m); var mutex := w.mutexes[m];
      && (Free(w, m) ==> r.Done? && OnlyLock(w, r.world, m, 0) && Locked(r.world, m, w.current, 1) && r.lockCount == 1)
      && (LockedByOther(w, m) ==>
            r.MustWait? && OnlyLock(w, r.world, m, 1) && r.world.mutexes[m].locked == mutex.locked)
      && (forall n :: Locked(w, m, w.current, n) && mutex.kind == Recursive ==>
            r.Done? && OnlyLock(w, r.world, m, 0) && Locked(r.world, m, w.current, n + 1) && r.lockCount == n + 1)
      && (forall n :: Locked(w, m, w.current, n) && mutex.kind != Recursive ==> r == Refused(11))
  {
  }

  /** A lock that succeeds leaves the current thread as owner; nobody else had it before. */
  lemma {:induction false} LockedMeansOwner(w: World, m: nat)
    requires m in w.mutexes && LockMutex(w, m).Done?
    ensures !LockedByOther(w, m) && Locked(LockMutex(w, m).world, m, w.current, LockMutex(w, m).lockCount)
  {
    LockOutcome(w, m);
    hide LockMutex;
    if !Free(w, m) && !LockedByOther(w, m) {
      assert Locked(w, m, w.current, w.mutexes[m].locked.value.count);
    }
  }

  /**
   Unlocking: refused if the mutex is free, or is another thread's and recursive or error-checking; else the lock
   is one level less, and gone with the last.
   */
  lemma {:induction false} UnlockOutcome(w: World, m: nat)
    requires m in w.mutexes && (w.mutexes[m].locked.Some? ==> w.mutexes[m].locked.value.count >= 1)
    ensures var r := UnlockMutex(w, m); var mutex := w.mutexes[m];
      && (Free(w, m) || (LockedByOther(w, m) && mutex.kind != Normal) ==> r == Refused(1))
      && (forall t, n :: Locked(w, m, t, n) && (t == w.current || mutex.kind == Normal) ==>
            && r.Done? && OnlyLock(w, r.world, m, 0) && r.lockCount == n - 1
            && if n == 1 then Free(r.world, m) else Locked(r.world, m, t, n - 1))
  {
  }

  /** Unlocking undoes locking. */
  lemma {:induction false} UnlockUndoesLock(w: World, m: nat)
    requires m in w.mutexes && LockMutex(w, m).Done?
      && (w.mutexes[m].locked.Some? ==> w.mutexes[m].locked.value.count >= 1)
    ensures var w2 := LockMutex(w, m).world;
      m in w2.mutexes && UnlockMutex(w2, m) == Done(w, LockMutex(w, m).lockCount - 1)
  {
    var w2 := LockMutex(w, m).world;
    assert UnlockMutex(w2, m).world.mutexes == w.mutexes;
  }

  /** Destroying goes ahead for a free mutex that nobody is counted to wait for, and takes away just that. */
  lemma {:induction false} DestroyOutcome(w: World, m: nat)
    requires m in w.mutexes
    ensures var r := DestroyMutex(w, m);
      if Free(w, m) && w.mutexes[m].waitingCount == 0 then
        && r.Done? && r.world == w.(mutexes := r.world.mutexes) && r.world.mutexes.Keys == w.mutexes.Keys - {m}
        && forall k :: k in r.world.mutexes ==> r.world.mutexes[k] == w.mutexes[k]
      else r == Refused(16)
  {
  }

  // ----- one action of a run

  /** The action takes a level off the lock: the owner unlocks or waits with it, or anyone does if it is normal. */
  predicate Releases(w: World, a: Action, m: nat) {
    && m in w.mutexes && w.mutexes[m].locked.Some? && (a == Unlock(m) || (a.Wait? && a.mutex == m))
    && (w.mutexes[m].locked.value.owner == w.current || w.mutexes[m].kind == Normal)
  }

  /** The owner locks a recursive mutex once more. */
  predicate Deepens(w: World, a: Action, m: nat) {
    && m in w.mutexes && w.mutexes[m].locked.Some? && a == Lock_(m) && w.mutexes[m].kind == Recursive
    && w.mutexes[m].locked.value.owner == w.current
  }

  function Change(w: World, a: Action, m: nat): int {
    if Releases(w, a, m) then -1 else if Deepens(w, a, m) then 1 else 0
  }

  /** What an action that keeps control, or the part of one before the executor takes over, makes of a lock. */
  predicate LockChanged(w: World, a: Action, mutexes: map<nat, MutexObject>, m: nat, t: nat, n: int) {
    && m in mutexes && m in w.mutexes && mutexes[m].kind == w.mutexes[m].kind
    && mutexes[m].locked == if n + Change(w, a, m) <= 0 then None else Some(Lock(t, n + Change(w, a, m)))
  }

  lemma {:induction false} KeptLock(w: World, a: Action, clocks: seq<Clock>, m: nat, t: nat, n: nat)
    requires Running(w) && w.current < |w.threads| && Allowed(w, a) && !Dispatches(w, a)
      && Perform(w, a, clocks).Resumed?
    requires Locked(w, m, t, n)
    ensures LockChanged(w, a, Perform(w, a, clocks).world.mutexes, m, t, n)
  {
    assert MutexOk(w, m);
    hide Yield, Dispatch, Contexts, Waiting;
    if a.Lock_? || a.Unlock? || a.Wait? {
      LockingKept(w, a, clocks, m, t, n);
    } else {
      hide LockMutex, UnlockMutex, WaitFor;
    }
  }

  lemma {:induction false} LockingKept(w: World, a: Action, clocks: seq<Clock>, m: nat, t: nat, n: nat)
    requires w.current < |w.threads| && Allowed(w, a) && !Dispatches(w, a) && (a.Lock_? || a.Unlock? || a.Wait?)
      && Perform(w, a, clocks).Resumed?
    requires Locked(w, m, t, n) && n >= 1
    ensures LockChanged(w, a, Perform(w, a, clocks).world.mutexes, m, t, n)
  {
    hide Yield, Dispatch;
    var k := a.mutex;
    if a.Lock_? {
      LockOutcome(w, k);
    } else {
      if w.mutexes[k].locked.Some? && k == m {
        UnlockOutcome(w, k);
      }
    }
  }

  lemma {:induction false} HandedLock(w: World, a: Action, m: nat, t: nat, n: nat)
    requires w.current < |w.threads| && Allowed(w, a) && Dispatches(w, a) && Locked(w, m, t, n) && n >= 1
    ensures LockChanged(w, a, HandedMutexes(w, a), m, t, n)
  {
  }

  /** An action changes the depth of a lock by just what it adds or takes off; its owner stays while there is any. */
  lemma {:induction false} LockStep(w: World, a: Action, clocks: seq<Clock>, m: nat, t: nat, n: nat)
    requires Running(w) && w.current < |w.threads| && Allowed(w, a) && Perform(w, a, clocks).Resumed?
    requires Locked(w, m, t, n)
    ensures var w2 := Perform(w, a, clocks).world;
      && m in w2.mutexes && (n + Change(w, a, m) > 0 ==> Locked(w2, m, t, n + Change(w, a, m)))
      && (a == Unlock(m) && n + Change(w, a, m) <= 0 ==> Free(w2, m))
  {
    assert MutexOk(w, m);
    if Dispatches(w, a) {
      HandedLock(w, a, m, t, n);
      hide Running, Dispatch, HandsOver, Dispatches, Perform, HandedMutexes, Change, LockMutex, UnlockMutex, Choice,
        ChoiceEffect;
      var v := PerformHandsOver(w, a, clocks);
      HandedDispatch(w, a, v, clocks);
      LocksStay(v, Dispatch(v, clocks).world, m);
    } else {
      KeptLock(w, a, clocks, m, t, n);
    }
  }

  lemma {:induction false} HandedDispatch(w: World, a: Action, v: World, clocks: seq<Clock>)
    requires HandsOver(w, a, v) && Dispatch(v, clocks).Resumed?
    ensures ChoiceEffect(v, Dispatch(v, clocks).world, Dispatch(v, clocks).world.current)
  {
    hide Contexts, Waiting, Dispatch, Choice, ChoiceEffect;
    DispatchHasEffect(v, clocks);
  }

  lemma {:induction false} LocksStay(v: World, w2: World, m: nat)
    requires ChoiceEffect(v, w2, w2.current) && m in v.mutexes
    ensures m in w2.mutexes && (v.mutexes[m].locked.Some? ==> w2.mutexes[m].locked == v.mutexes[m].locked)
  {
  }

  // ----- runs

  /** The state before turn `i`. */
  function Before(w: World, worlds: seq<World>, i: nat): World
    requires i <= |worlds|
  {
    if i == 0 then w else worlds[i - 1]
  }

  /** The levels that the first `i` turns add to the lock, less those that they take off. */
  function Balance(w: World, turns: seq<Turn>, worlds: seq<World>, m: nat, i: nat): int
    requires i <= |turns| == |worlds|
    decreases i
  {
    if i == 0 then 0
    else Balance(w, turns, worlds, m, i - 1) + Change(Before(w, worlds, i - 1), turns[i - 1].action, m)
  }

  /** The `n` levels are not all taken off before the last turn is over. */
  ghost predicate StaysHeld(w: World, turns: seq<Turn>, worlds: seq<World>, m: nat, n: nat)
    requires |turns| == |worlds|
  {
    forall i {:trigger Balance(w, turns, worlds, m, i)} :: 0 <= i <= |turns| ==> n + Balance(w, turns, worlds, m, i) > 0
  }

  lemma {:induction false} RunPrefix(w: World, turns: seq<Turn>, worlds: seq<World>, i: nat)
    requires Run(w, turns, worlds) && Running(w) && i <= |turns|
    ensures i <= |worlds| && Running(Before(w, worlds, i))
    ensures i < |turns| ==>
      && var v := Before(w, worlds, i);
      v.current < |v.threads| && Allowed(v, turns[i].action)
      && Perform(v, turns[i].action, turns[i].clocks) == Resumed(worlds[i])
    decreases i
  {
    hide Running, Perform, Allowed;
    if i > 0 {
      PerformKeeps(w, turns[0].action, turns[0].clocks);
      RunPrefix(worlds[0], turns[1..], worlds[1..], i - 1);
      assert Before(worlds[0], worlds[1..], i - 1) == Before(w, worlds, i);
    }
  }

  lemma {:induction false} BalanceStep(w: World, turns: seq<Turn>, worlds: seq<World>, m: nat, n: nat, i: nat)
    requires i < |turns| == |worlds| && StaysHeld(w, turns, worlds, m, n)
    ensures var d := Change(Before(w, worlds, i), turns[i].action, m);
      && Balance(w, turns, worlds, m, i + 1) == Balance(w, turns, worlds, m, i) + d
      && n + Balance(w, turns, worlds, m, i) > 0 && n + Balance(w, turns, worlds, m, i) + d > 0
  {
    hide Change;
    assert n + Balance(w, turns, worlds, m, i + 1) > 0;
  }

  /** The lock after the first `i` turns. */
  lemma {:induction false} HeldAfter(w: World, turns: seq<Turn>, worlds: seq<World>, m: nat, t: nat, n: nat, i: nat)
    requires Running(w) && Run(w, turns, worlds) && Locked(w, m, t, n) && |turns| == |worlds|
      && StaysHeld(w, turns, worlds, m, n) && i <= |turns|
    ensures Locked(Before(w, worlds, i), m, t, n + Balance(w, turns, worlds, m, i))
    decreases i
  {
    hide Running, Perform, Allowed, Run, Change, Locked, StaysHeld;
    if i == 0 {
      assert Balance(w, turns, worlds, m, 0) == 0;
    } else {
      assert Before(w, worlds, i) == worlds[i - 1];
      hide Balance, Before;
      HeldAfter(w, turns, worlds, m, t, n, i - 1);
      RunPrefix(w, turns, worlds, i - 1);
      BalanceStep(w, turns, worlds, m, n, i - 1);
      var v, k := Before(w, worlds, i - 1), n + Balance(w, turns, worlds, m, i - 1);
      HeldNext(v, turns[i - 1], worlds[i - 1], m, t, k);
    }
  }

  lemma {:induction false} HeldNext(v: World, turn: Turn, v2: World, m: nat, t: nat, k: nat)
    requires Running(v) && v.current < |v.threads| && Allowed(v, turn.action) && Locked(v, m, t, k)
    requires Perform(v, turn.action, turn.clocks) == Resumed(v2) && k + Change(v, turn.action, m) > 0
    ensures Locked(v2, m, t, k + Change(v, turn.action, m))
  {
    hide Running, Perform, Allowed, Change, Locked;
    LockStep(v, turn.action, turn.clocks, m, t, k);
  }

  /**
   Mutual exclusion over any run. From when thread `t` has locked a mutex, `n` times, it has it until as many levels
   have been taken off, with the levels added meanwhile; and until then no lock of another thread succeeds: it has to
   wait, and is not given the mutex.
   */
  lemma {:induction false} LockExcludes(w: World, turns: seq<Turn>, worlds: seq<World>, m: nat, t: nat, n: nat)
    requires Running(w) && Run(w, turns, worlds) && Locked(w, m, t, n) && |turns| == |worlds|
      && StaysHeld(w, turns, worlds, m, n)
    ensures forall i: nat :: i <= |turns| ==> Locked(Before(w, worlds, i), m, t, n + Balance(w, turns, worlds, m, i))
    ensures forall i: nat :: i < |turns| ==> OthersWait(Before(w, worlds, i), turns[i].action, m, t)
  {
    assert |worlds| == |turns|;
    hide Running, Perform, Allowed, Run, Balance, StaysHeld, OthersWait, Locked;
    forall i: nat | i <= |turns|
      ensures Locked(Before(w, worlds, i), m, t, n + Balance(w, turns, worlds, m, i))
    {
      HeldAfter(w, turns, worlds, m, t, n, i);
    }
    forall i: nat | i < |turns|
      ensures OthersWait(Before(w, worlds, i), turns[i].action, m, t)
    {
      HeldAfter(w, turns, worlds, m, t, n, i);
      LockedKeepsOthersOut(Before(w, worlds, i), turns[i].action, m, t, n + Balance(w, turns, worlds, m, i));
    }
  }

  /** If the action is that of another thread that locks the mutex, this has to wait. */
  predicate OthersWait(w: World, a: Action, m: nat, t: nat) {
    m in w.mutexes && (a == Lock_(m) && w.current != t ==> LockMutex(w, m).MustWait?)
  }

  lemma {:induction false} LockedKeepsOthersOut(w: World, a: Action, m: nat, t: nat, n: int)
    requires Locked(w, m, t, n)
    ensures OthersWait(w, a, m, t)
  {
    LockOutcome(w, m);
  }

  /** And with the last level, taken off by unlocking, the mutex is free. */
  lemma {:induction false} LastUnlockFrees(w: World, turns: seq<Turn>, worlds: seq<World>, m: nat, t: nat, n: nat,
      clocks: seq<Clock>)
    requires Running(w) && Run(w, turns, worlds) && Locked(w, m, t, n) && |turns| == |worlds|
      && StaysHeld(w, turns, worlds, m, n)
    requires n + Balance(w, turns, worlds, m, |turns|) == 1
    ensures var end := EndOf(w, worlds);
      end.current == t < |end.threads| && Allowed(end, Unlock(m)) && Perform(end, Unlock(m), clocks).Resumed? ==>
        Free(Perform(end, Unlock(m), clocks).world, m)
  {
    assert |worlds| == |turns|;
    hide Running, Perform, Allowed, Run, Balance, StaysHeld;
    HeldAfter(w, turns, worlds, m, t, n, |turns|);
    RunPrefix(w, turns, worlds, |turns|);
    var end := EndOf(w, worlds);
    if end.current == t < |end.threads| && Allowed(end, Unlock(m)) && Perform(end, Unlock(m), clocks).Resumed? {
      CurrentExists(end);
      LockStep(end, Unlock(m), clocks, m, t, 1);
    }
  }
}
