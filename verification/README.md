# Proofs about the emulator core

A Dafny model of the parts of touchHLE (a high-level emulator for old iPhone OS applications) where
state is shared, rewritten or marshalled, with proofs that these parts keep their promises. The model
follows the code: same branches, same constants, same errors. `dafny verify dfyconfig.toml` checks all of it.

| files | what they model |
|---|---|
| `Common`, `GuestMemory` | optional values; the flat 32-bit little-endian guest memory and the sixteen registers |
| `LinkerModel`, `Symbols`, `Linker`, `Dyld` | the lazy linker, which rewrites the stubs that call it: functions on a snapshot with a small A32 interpreter and a JIT cache; which symbol a stub has and what a symbol means, in terms of the tables; the theorems; the methods of `Dyld` in place |
| `ThreadModel`, `Threads`, `Scheduling`, `ThreadRuns`, `MutualExclusion`, `ThreadSteps`, `MutexDestruction`, `Stranding`, `Executor` | cooperative threads, the scheduler, mutexes, semaphores, condition variables: functions on a snapshot; invariants over every run; what the scheduler chooses; runs; mutual exclusion over them; what each step changes, field by field; what destroying a mutex does; what destroying the others, or initialising them again, does; the class with the loops |
| `LoadOrder` | Kahn's algorithm for the order of static initialisers, over hash maps in any order |
| `GuestPaths`, `FileTree`, `NodeLookup`, `HostMirror`, `Vfs`, `NoLeftovers`, `DisjointMounts`, `Launch`, `Runs`, `OneMount`, `NameIndex`, `GuestFs` | the guest file system: path resolution; the tree; lookups that may ignore case; the tree's mirror on the host; the operations; the case that the host has nothing left over from earlier runs; trees that share nothing on the host; the tree at the start; what can fail in a run, and in one that keeps away from one of the library's two mounts; enumeration and lookup by name; the class |
| `SourceLines`, `LineBreaking` | splitting of text at its line endings; wrapping of the lines at words and characters |
| `CallingConvention`, `StartStack` | argument passing between host and guest (compare section 5.5 of the AAPCS, Arm IHI 0042F), and the initial stack |
| `Adts` | ADTS framing (Annex 1.A of ISO/IEC 14496-3) of AAC packets |

In each group the operations that change state are methods of a class or loops, and their `ensures` tie
the new state to a function of the old one; the theorems are about that function. Things the code
cannot know are parameters of the model and the theorems hold for all of them: the iteration order of
hash maps, the clock, the addresses the allocator returns, the effects of guest code and of host
functions, glyph widths.

## What the code does not do as one would expect

Each of these is a lemma with a concrete case or an exact condition.

- A mutex that a thread waits for can be destroyed. `lock_mutex` counts its waiters to prevent that, but
  giving the mutex to a thread that leaves a condition wait uses up a count that thread never added
  (`MutexDestruction.WaitingCountCanBeLost`, a run from the start of the machine). Afterwards a scan fails
  an unwrap exactly if the first ready thread needs the mutex (`MutexDestruction.DestroyingBreaksScan`), and
  some course of actions leads to that exactly if any thread wants it (`MutexDestruction.DestroyIsSafeIffUnwanted`).
- Condition variables are initialised again, and semaphores destroyed, without regard to who waits. Some course
  of actions then leads to a crash exactly if a thread waits on them (`Stranding.ReinitIsSafeIffUnawaited`,
  `Stranding.SemDestroyIsSafeIffUnawaited`). Destroying a condition variable asserts that nobody waits
  (`Stranding.CondDestroyFailsIffAwaited`), but does not see a thread whose wait has timed out and that now
  waits for its mutex; when that goes on, an unwrap fails (`Stranding.CondDestroyBreaksTurn`).
- The comments in `src/stack.rs` promise that argv is NULL-terminated and that r1, r2 and r3 point to
  argv, envp and apple. Nothing is pushed after argv, so argv runs into envp and r2 and r3 are one word
  off. The promise holds for argv exactly if envp is empty, for envp exactly if envp and apple are, and
  for apple exactly if it is empty and the word behind the table, which belongs to the strings, happens to
  be zero (`StartStack.DocumentedArgumentsHold`).
- A 4-byte stub keeps its pointer two entries behind the one that belongs to it, so that the last two
  stubs write behind the table (`Linker.SlotIsTwoPast`). Restoring such a stub gives a load of `pc`
  exactly if the offset between the sections leaves the opcode alone (`Linker.RestoredLoad`).
- From SVC number 0x800000 on, numbers decode to the wrong entry; only 4-byte stubs assert that this is
  not reached (`Linker.SvcDecodes`).
- The home directory's `Library` and `/var/mobile/Library` share a host directory (lines 775 to 787 of
  `src/fs.rs`), so that what is removed or renamed through one is gone for the other without its tree knowing.
  In every launch that is not read-only two changes lead to a failing unwrap: rename the library in the home
  directory, create a directory in the other one (`Runs.SharedLibraryFails`). With a file in the library:
  remove it here, open it there (`Runs.SharedFileFails`, `Runs.FirstLaunchFails`). In general removing keeps
  tree and host in step exactly if no other node has that host path, and renaming exactly if none stays with a
  host path at or under the old one (`Vfs.RemoveKeepsMirror`, `Vfs.RenameKeepsMirrorIffCarried`).
- The sandbox of an application is mounted without being read, so that what an earlier run left there has no
  node. Creating a file where a directory is left over panics, and so does removing a directory that is empty
  for the guest but not on the host (`Vfs.OpenKeepsMirror`, `Vfs.RemoveKeepsMirror`, each with the exact
  condition). `create_dir` takes over what is left even if it is a file; then nothing can be created in the
  new directory and it cannot be removed (`Vfs.CreateDirOverLeftover`, `Vfs.CreateAllKeepsMirror`).
- `rename` looks its source up ignoring case, but then takes it out of the tree by the name as written. If the
  host agrees, an unwrap fails (`Vfs.RenameOtherCase`); in every launch that is not read-only a single rename
  does it (`Runs.OtherCaseFails`).
- Over whole runs, renames by names of another case included, all is well exactly as long as every change is
  fair: an unfair one panics or makes some node fail that could be opened, read or created in before
  (`Runs.RunKeepsMirror`). On a first launch that can be told from the guest tree
  (`Runs.FirstRunFailsIffShared`). There an application is safe that keeps away from `/var/mobile/Library`,
  opens with valid access modes, and renames nothing by a name of another case, into itself or with a mount
  inside (`OneMount.OneMountNeverFails`).
- Renaming a directory breaks the mirror between guest tree and host also if the host does not carry along
  everything that is reached in it, as with another host directory mounted inside
  (`Vfs.RenameKeepsMirrorIffCarried`). If the target lies inside the moved directory, beyond a mount, an unwrap fails
  after the host has renamed (`Vfs.RenameIntoItself`).
- Renaming over an ordinary directory loses more than that empty directory exactly if something is mounted or
  read-only right below it; what is lost for the guest stays on the host (`Vfs.RenameOverwrites`). If other
  nodes still list the host directory it is in, it is left over there (`NoLeftovers.RenameKeepsFullIff`).
- The host cannot pass on a variable argument list: a zero is written in its place
  (`CallingConvention.VaListRoundTrip`).
- An index of names cached for a relative base path stays that of the directory it led to when it was first
  asked for, whatever the working directory is now; `GuestFs.Fs.FindFileByName` says when that is the same.
- Stripping a repeated sandbox prefix is not idempotent: a stored working directory is read back as it
  was exactly if it does not still look repeated (`GuestPaths.AbsoluteStringResolvesBack`).
- Wrapped at words, an empty source line leaves no line at all exactly if the width of nothing exceeds the
  wrap width (`LineBreaking.BreakLine`).

## Model

| member | source | states |
|---|---|---|
| Linker.StubReachesGuest | src/dyld.rs:1447-1570 | in every state that keeps the invariant, calling a rewritten stub of 4, 12 or 16 bytes arrives, within the stub's own instructions, plus one turn if it has yet to be linked, at the guest code that its symbol means, with every register but r12 and pc as at the call, and leaves the stub linked to that address; its symbol is the one that the first section covering the stub names for that entry |
| Linker.StubCallsHost | src/dyld.rs:1575-1637 | a stub whose symbol, so named, no guest binary exports calls, as the very next thing and with all registers intact, the first host function exported under that name, or the return-0 fallback, and stays linked to it |
| Linker.HostCallReturns | src/environment.rs:2051-2083 | whatever the host function did meanwhile, including running guest code that linked other stubs, control then goes to the address in LR, with or without a return instruction behind the SVC |
| Linker.HostCallFromStart | src/environment.rs:2034-2083 | a whole call from stub to return: the function that the symbol of its entry means, with registers intact, then any run of the emulator, then control at LR; and the stub still means that function |
| Linker.LinkingFixesTarget | src/dyld.rs:1508-1639 | linking a stub fixes just what a call would have reached before, which is what the symbol of its entry means: the cached trampoline, else the export of the first binary that has it, else host code; and it disturbs no other stub or trampoline |
| Symbols.LinksOwnSymbol | src/dyld.rs:1508-1639 | linking entry k of a binary's stubs restores or rewrites it for what entry k of its indirect symbols means, said in terms of the tables alone |
| Symbols.StubFound | src/dyld.rs:1508-1531 | a stub with a symbol is found at an address exactly if that is an entry of the first section that covers it and the symbol is the entry's own |
| Symbols.LinksNothingElse | src/dyld.rs:1508-1531 | off every section, between entries or without a symbol the linker panics |
| Symbols.LinkingForgets | src/dyld.rs:1456-1600 | the JIT forgets just the words that were rewritten |
| Symbols.SvcLeads | src/dyld.rs:1408-1443 | which SVC numbers leave the loop, link, call which function, or start over, and which of them return for the guest |
| Linker.LinkedTargetIsFinal | src/dyld.rs:1408-1443 | over any run of emulator turns, new trampolines and outside writes, a linked stub keeps its target |
| Linker.RunKeepsInv | src/dyld.rs:396-435 | over any run SVC numbers, cached trampolines and links only grow, every linked SVC word decodes to the entry recorded for its own symbol, and nothing stale is cached for an instruction of a stub or trampoline |
| Linker.TickKeepsInv | src/environment.rs:2031-2083 | one turn of the emulator keeps all that in whatever state the registers are, if the linker's SVCs occur in stubs only |
| Linker.RestoringLinks | src/dyld.rs:1456-1505 | restoring a stub makes it a jump through its pointer to the given address, changes memory in the stub and its pointer only, and leaves no stale instruction cached |
| Linker.HostLinks | src/dyld.rs:1575-1600 | the host link of a stub is the entry just appended for its symbol, and only the rewritten word has changed |
| Linker.SetupKeepsInv | src/dyld.rs:703-775 | rewriting a binary's stubs adds every entry that looked like a stub as one waiting to be linked, and changes no stub rewritten before |
| Linker.SetsUpEntries | src/dyld.rs:703-775 | an entry with the words of a stub gets the words that call the linker; every other entry, and memory outside, stays |
| Linker.RestoringUndoesSetup | src/dyld.rs:757-770 | for 12 and 16-byte stubs, restoring leaves memory as it was before setup but for the pointer |
| Linker.RestoredLoad | src/dyld.rs:1485-1490 | the restored 4-byte stub is a load of pc with the given low offset bits exactly if the rest of the offset changes nothing in the opcode, as is so below 0x1000 |
| Linker.SlotIsTwoPast | src/dyld.rs:1498-1503 | the pointer written for stub i is entry i + 2 of the lazy pointer section |
| Linker.SvcDecodes | src/dyld.rs:1429-1443 | an SVC number decodes to its index exactly if the index leaves the return flag free |
| Linker.TrampolineCallsHost | src/dyld.rs:1693-1710 | executing a trampoline calls the function it was made for |
| Linker.TrampolineReturns | src/dyld.rs:1705-1709 | and then returns to LR |
| Linker.ProcAddressKeepsInv | src/dyld.rs:1648-1692 | making or finding a trampoline keeps the invariant, whatever the JIT had translated at the block before, and answers exactly for the binder and for names that the host exports, with the function first exported under that name |
| Linker.EarlyProcAddressKeepsInv | src/dyld.rs:1660-1692 | without invalidation it does so where nothing is cached for the block |
| Linker.ProcAddressIsStable | src/dyld.rs:1662-1692 | asked again at any later time the linker gives the same address and makes nothing |
| Dyld.Emulator.SetupLazyLinking | src/dyld.rs:703-775 | the loop over a section's entries rewrites memory as the theorems assume |
| Dyld.Emulator.LinkByRestoringStub | src/dyld.rs:1456-1505 | the new memory and cache are those of the restored stub |
| Dyld.Emulator.DoLazyLink | src/dyld.rs:1447-1639 | the loops over sections, binaries and host exports find the stub, choose and link as `Symbols.LinksOwnSymbol` states, and return the host function to call, if any |
| Dyld.Emulator.SvcHandler | src/dyld.rs:1408-1443 | links, or looks the number up, or finds nothing |
| Dyld.Emulator.DispatchSvc | src/environment.rs:2034-2083 | restarts at the SVC if there is no host function to call |
| Dyld.Emulator.CreateFunction | src/dyld.rs:1693-1710 | appends the entry and writes the trampoline |
| Dyld.Emulator.ProcAddress | src/dyld.rs:1648-1692 | makes at most one trampoline, keeps it, and invalidates it |
| Threads.PerformKeeps | src/environment.rs:1197-1420 | no action of a running thread fails an assertion or an unwrap, among them that a finished thread has a stack to free and that a coroutine goes on as its own thread, unblocked; it ends with some thread running that is active and unblocked, and all registers but those of a computing thread as they were |
| Threads.RunKeeps | src/environment.rs:1486-1720 | over any run: every thread but the current one has a register file, every active one its own coroutine, finished ones a return value, neither coroutine nor stack, and nothing they wait for; a thread that does not compute finds its registers unchanged |
| Threads.DispatchKeeps | src/environment.rs:1557-1643 | handing over control loses nobody's registers or coroutine, and a thread that was in a condition wait, signalled or timed out, goes on as the owner of the mutex it waited with |
| Threads.SwitchKeeps | src/environment.rs:1702-1720 | no assertion of the switch can fail; registers and what each coroutine is in the middle of stay with their threads |
| Threads.InitialRunning | src/environment.rs:767-790 | the machine starts in a state that keeps the invariant |
| Threads.ScanKeeps | src/environment.rs:2226-2385 | no assertion of a scan can fail, and it changes nothing of a thread but what it is blocked by |
| ThreadSteps.CandidateOutcome | src/environment.rs:2241-2376 | for each reason to wait: when the thread goes on, is passed over, until when, or an assertion fails; and what the choice changes in the thread, its mutex, condition variable, semaphore or memory, with nothing else changed |
| ThreadSteps.ActionOutcome | src/environment.rs:1197-1420 | what an action that keeps control changes: signals wake the longest waiting and keep everybody's place, suspensions nest around what a thread waits for, a semaphore gains or loses one unit |
| ThreadSteps.HandedOutcome | src/environment.rs:1197-1420 | what one that gives up control leaves to the executor: its reason to wait, its place at the end of the queue, what a finished thread returns |
| ThreadSteps.GoesOnIff | src/environment.rs:1557-1683 | the thread switched to goes on exactly if the coroutine is its own, it is not blocked, and a condition wait it returns from finds its variable and was to time out if it did |
| ThreadSteps.SwitchesIff | src/environment.rs:1702-1720 | switching fails none of its assertions exactly if the other thread has all of its context and this one none; then the two exchange them and nothing else changes |
| Threads.GrantKeeps | src/environment/mutex.rs:126-155 | a free mutex given to a waiting thread is owned by it, once, and all others wait as before |
| Threads.ResumeUndoesSuspend | src/environment.rs:1274-1325 | resuming as often as suspending restores what a thread was blocked by |
| Scheduling.ScanFindsFirstReady | src/environment.rs:2232-2379 | a scan finds the first thread, in cyclic order after the current one, that is ready in the state the scan began with, and fails only if none is; passing over expired waits makes nobody ready or unready |
| Scheduling.ScheduleChooses | src/environment.rs:2226-2421 | over several scans the thread given is the one of the first scan in which any is ready |
| Scheduling.ChosenIsReady | src/environment.rs:2377-2384 | it was active and not suspended, and ready |
| Scheduling.ReadyThreadIsNotPassed | src/environment.rs:2234-2239 | with a ready thread there is no deadlock, and nobody later in the order goes first |
| Scheduling.SchedulingIsRepeatable | src/environment.rs:2227-2230 | however many scans a call took, scheduling again with the clock as its last scan read it gives the same thread and changes nothing |
| ThreadRuns.DispatchHasEffect | src/environment.rs:2241-2376 | the resumed thread takes just what it waited for: mutexes are granted only when free and only to a thread that needs them, other locks stay, one semaphore unit is taken if it waited for one, and all others go on waiting |
| ThreadRuns.ActionConservesUnits | src/environment.rs:1347-1401 | one action changes a semaphore by its posts less its grants |
| ThreadRuns.RunConservesUnits | src/environment.rs:1347-1401 | over any run the value is the initial one plus posts less grants, immediate and by the scheduler, and never negative |
| ThreadRuns.WaiterGetsOneUnit | src/environment.rs:2262-2281 | a thread blocked on a semaphore goes on after exactly one grant made on its behalf |
| ThreadRuns.BoundedWaiting | src/environment.rs:2234-2239 | a thread that can run and is not suspended is passed over at most as often as there are threads between the current one and it, counting those created meanwhile |
| MutualExclusion.LockExcludes | src/environment/mutex.rs:158-272 | over any run: from when a thread has locked a mutex, of whatever kind, it stays its owner until it was unlocked as often as locked, and until then every other thread that locks it has to wait |
| MutualExclusion.LockStep | src/environment/mutex.rs:158-272 | one action of any thread changes the depth of a lock by just the level it adds or takes off |
| MutualExclusion.LastUnlockFrees | src/environment/mutex.rs:261-272 | the unlock that takes off the last level frees it, and none before |
| MutualExclusion.LockOutcome | src/environment/mutex.rs:158-205 | for every kind and state: locked at once, once more, refused, or one waiter more with the lock untouched |
| MutualExclusion.UnlockOutcome | src/environment/mutex.rs:210-272 | refused if free, or another thread's and recursive or error-checking; else one level less |
| MutualExclusion.UnlockUndoesLock | src/environment/mutex.rs:158-272 | unlocking after a successful lock restores the state |
| MutualExclusion.DestroyOutcome | src/environment/mutex.rs:82-98 | only a free mutex without counted waiters is destroyed, and no other |
| MutexDestruction.DestroyingBreaksScan | src/environment.rs:2234-2357 | after a mutex was destroyed a scan fails an unwrap exactly if the first ready thread needs it: blocked on it, at the front of those woken, or overdue |
| MutexDestruction.DestroyIsSafeIffUnwanted | src/environment/mutex.rs:82-98 | some course of actions after the destruction ends in a crash exactly if an active thread wants the mutex; else the machine is as sound as before |
| MutexDestruction.WaitingCountCanBeLost | src/environment/mutex.rs:126-155 | a run from the start of the machine to a state in which a thread is blocked on a mutex whose count is zero; destroyed, the next time slice crashes |
| Stranding.ReinitIsSafeIffUnawaited | src/libc/pthread/cond.rs:62-103 | after initialising a condition variable, once more or not, some course of actions ends in a crash exactly if an active thread waits on it; else the machine is as sound as before |
| Stranding.SemDestroyIsSafeIffUnawaited | src/libc/semaphore.rs:69-80 | the same of destroying a semaphore |
| Stranding.CondDestroyFailsIffAwaited | src/libc/pthread/cond.rs:282-292 | the assertion of destroying a condition variable fails exactly if an active thread waits on it |
| Stranding.CondDestroyKeeps | src/libc/pthread/cond.rs:282-292 | if no thread is in the middle of a wait, timed out or not, destroying it leaves a sound machine |
| Stranding.CondDestroyBreaksTurn | src/libc/pthread/cond.rs:173-185 | otherwise every turn of the executor goes as with the variable, but that it crashes exactly if the thread that goes on is in the middle of such a wait |
| Executor.Environment.ScheduleNextThread | src/environment.rs:2226-2421 | terminates for every clock that reaches the time slept for; gives a thread as specified, which a repeated call would give at once, or reports deadlock, and then nobody was ready in the last scan and nobody waits for a time |
| Executor.Environment.ScanThreads | src/environment.rs:2234-2379 | the loop over candidates is the scan |
| Executor.Environment.TryThread | src/environment.rs:2241-2376 | each case of the scheduler's match, in place |
| Executor.Environment.Switch | src/environment.rs:1702-1720 | the sequence of takes and swaps is the switch |
| Executor.Environment.ExecutorTurn | src/environment.rs:1557-1683 | one turn of the run loop, up to resuming a coroutine, hands over control or ends in deadlock |
| Executor.Environment.SemDecrement | src/environment.rs:1347-1383 | takes a unit, fails, or marks the thread as waiting |
| Executor.Environment.BeginWait | src/libc/pthread/cond.rs:187-222 | releases the mutex, enters the queue and blocks, or does nothing if the mutex could not be released |
| Executor.Environment.EndWait | src/libc/pthread/cond.rs:171-236 | reports and forgets a time-out; the assertion that an untimed wait has none holds |
| Executor.Environment.Lock_ | src/environment/mutex.rs:158-205 | locks, locks again, refuses or counts a waiter, as `MutualExclusion.LockOutcome` states |
| Executor.Environment.Unlock | src/environment/mutex.rs:210-272 | unlocks, counts down or refuses; its assertion holds |
| Executor.Environment.SuspendThread | src/environment.rs:1274-1293 | counts suspensions; the current thread blocks itself |
| LoadOrder.GenerateBinaryLoadOrder | src/environment.rs:168-247 | for every iteration order: Ok exactly if the bundled dependencies, named with or without `/usr/lib/` before the name, are acyclic, then every binary once and after all it depends on; else the name of one that leads to a cycle |
| LoadOrder.StripMeans | src/environment.rs:182-191 | a dependency stands for a name exactly if it is `/usr/lib/` and the name, or lacks that prefix and is the name |
| LoadOrder.DistinctNamesAllLoaded | src/environment.rs:168-247 | with distinct names the order is a permutation of all indices |
| LoadOrder.OrderedIsAcyclic | src/environment.rs:168-247 | a load order exists only without cycles |
| LoadOrder.StuckReachesCycle | src/environment.rs:237-245 | from any vertex that is never finished a cycle can be reached |
| GuestPaths.ResolvePath | src/fs.rs:297-369 | the loops resolve as the lemmas assume |
| GuestPaths.OneMoreStep | src/fs.rs:297-333 | one more component leads to the parent for `..`, which the root is to itself, nowhere for `.` or nothing, else to the name |
| GuestPaths.ResolvedSteps | src/fs.rs:297-369 | a path is resolved by those steps from the root, or from the directory if it is relative, and then stripped |
| GuestPaths.StripsToSecondMarker | src/fs.rs:335-364 | stripping goes to the second place where the directory of applications stands, or nowhere |
| GuestPaths.ResolvedIsClean | src/fs.rs:297-369 | the result has no empty, `.` or `..` component |
| GuestPaths.ResolveRelative | src/fs.rs:317-334 | resolving a relative path against a directory is resolving the joined path |
| GuestPaths.AbsoluteStringResolvesBack | src/fs.rs:883-903 | clean components written as a path are read back exactly if they do not look like a repeated sandbox prefix |
| GuestPaths.WorkingDirectoryResolvesBack | src/fs.rs:883-903 | the stored working directory is read back if the sandbox marker stood in the path at most twice |
| HostMirror.AddingLeafKeepsMirror | src/fs.rs:1615-1642 | a node for a host entry of its kind, new or left over, keeps the mirror, whoever else has that entry |
| HostMirror.RemovalKeepsMirrorIffUnshared | src/fs.rs:1500-1541 | removing a leaf and its host entry keeps it exactly if no other node has that entry |
| HostMirror.MoveKeepsMirrorIffCarried | src/fs.rs:157-176 | moving a subtree keeps it exactly if under the old host path there is an entry of the right kind for all that gets a new one, and, unless both host paths are equal, no node that stays has a host path at or under the old one |
| Vfs.CreateDirKeepsMirror | src/fs.rs:1581-1643 | never fails on the host; succeeds exactly in a writeable directory without that name; adds that directory and nothing else; keeps the mirror exactly if the host has no file there |
| Vfs.CreateDirRefuses | src/fs.rs:1581-1643 | for which reason it is refused, in any tree |
| Vfs.CreateAllKeepsMirror | src/fs.rs:1545-1578 | fails exactly if the host has a file where a parent has to go; only adds directories on the way; when done, everything on the way is there |
| Vfs.OpenKeepsMirror | src/fs.rs:1331-1463 | an existing file is opened just if it may be, by its own reference; its contents stay unless it is truncated, and all else stays; it is not opened, or fails on the host, in exactly the cases given, among them access modes that the host does not take and a host directory without a node; else it creates or takes over a host file with its node |
| Vfs.OpeningNeedsHost | src/fs.rs:1372-1398 | in any tree, a node that may be opened is, exactly if it is a directory, a host file that the host has, or read-only content of the bundle |
| Vfs.CreationNeedsHost | src/fs.rs:1399-1463 | in any tree, a file or directory is created exactly if the host has the directory for it, or already has it |
| Vfs.RemoveKeepsMirror | src/fs.rs:1468-1541 | goes ahead exactly for what may be removed; fails exactly if the host has more inside; else removes a leaf, its host entry and nothing else, and keeps the mirror exactly if no other node has that host path |
| Vfs.RemoveRefuses | src/fs.rs:1468-1541 | for which reason a removal is refused, in any tree |
| Vfs.RemovalNeedsHost | src/fs.rs:1500-1541 | otherwise it is removed, in any tree, exactly if the host has it as what it is for the guest and has nothing more inside |
| Vfs.RenameKeepsMirrorIffCarried | src/fs.rs:1267-1328 | moves the subtree, overwrites the target, changes no other path, and keeps the mirror exactly if the host carries along what is reached, as it does without mounts, and no node stays with a host path that goes |
| Vfs.RenameMovesContents | src/fs.rs:1267-1328 | every host file of the subtree that lies where it belongs is found under the new path with its contents |
| Vfs.RenameMovesNodes | src/fs.rs:1267-1328 | every node of the subtree is found below the target with its kind and access, and its new host path if reached; the host has moved what is under the old path, and nothing else |
| Vfs.AgreesIffCanRename | src/fs.rs:1276-1301 | when a rename goes through, in terms of both parents, access and the host's entries at the two paths |
| Vfs.RenameOverwrites | src/fs.rs:1303-1325 | below an ordinary target exactly what is at or under something mounted or read-only right below it is lost; the host keeps what is lost, but for host paths that are moved or replaced |
| Vfs.RenameReplacesLikeByLike | src/fs.rs:1290-1301 | a target that the host has is a file or a directory as the source is |
| Vfs.RenameIntoItself | src/fs.rs:1290-1313 | into itself: refused, or a failing unwrap if the host agrees because of a mount |
| Vfs.RenameOtherCase | src/fs.rs:1276-1311 | what was found only by ignoring case: refused, or a failing unwrap once the host has agreed |
| Vfs.RenameInPlace | src/fs.rs:1267-1328 | by another spelling of the same path: nothing changes exactly if nothing there is mounted |
| Vfs.MirrorIffUsable | src/fs.rs:413-427 | the mirror holds exactly if every file can be opened and read, and opened for writing where the tree allows it, and every directory created where the tree allows it |
| Vfs.ChangeKeepsMirrorIffFair | src/fs.rs:413-427 | a change, also a rename whose source is found only by ignoring case, neither fails unexpectedly nor breaks the mirror exactly if it is fair, on any tree, with host directories mounted twice or not |
| Vfs.FairIffNothingFails | src/fs.rs:413-427 | an unfair change fails itself or makes some node fail; a fair one does neither |
| Vfs.HistoryKeepsMirror | src/fs.rs:413-427 | after any fair history, also of a launch with leftovers and shared directories and with renames by whatever name the lookup accepts, the mirror holds and the same is true of the next change |
| Vfs.HistoryKeepsAttached | src/fs.rs:1267-1643 | over any history every node in a writeable directory has that directory's host path with its own name, but for what was mounted at the start |
| Vfs.RemovalStrandsSharers | src/fs.rs:775-787 | after a removal, opening fails exactly for files that shared the removed host path |
| Vfs.CreateDirOverLeftover | src/fs.rs:1616-1630 | over a directory: removing it again fails exactly if it is not empty on the host; over a file: creating in it and removing it fail |
| NoLeftovers.FairIffPrivate | src/fs.rs:413-427 | if there is a node for all the host has, a change is fair exactly if no other node shares what it adds, removes or renames, and what is renamed is named exactly |
| NoLeftovers.RenameKeepsFullIff | src/fs.rs:1303-1325 | then a fair rename without mounts leaves nothing over exactly if it overwrites no last node for an entry of a directory that remains |
| NoLeftovers.NothingFailsIffPrivate | src/fs.rs:413-427 | over any history of such changes there stays a node for all the host has, and the next change fails, or makes a node fail, exactly if it is not of that kind |
| DisjointMounts.HistoryKeepsAligned | src/fs.rs:413-427 | if no host directory is mounted twice or inside another, that stays so over any fair history, and fairness is about leftovers and mounts only |
| DisjointMounts.NothingFailsWithoutLeftovers | src/fs.rs:413-427 | if moreover nothing is left over, a change fails, or makes a node fail, exactly if its access mode is invalid or it renames something into itself, with a mount inside or by a name of another case |
| Launch.ViewFromHost | src/fs.rs:81-119 | a host directory read in has a node for just what the host has |
| Launch.MountingKeepsMirror | src/fs.rs:121-143 | mounting a tree that mirrors the host keeps the mirror, also if its host directory is mounted already |
| Launch.StartMirrors | src/fs.rs:773-845 | the tree that a launch builds, with both mounts of the library, mirrors the host whatever earlier runs left, and has a node for all of it if they left nothing in the sandbox |
| Launch.StartHas | src/fs.rs:775-845 | both mounts of the library have nodes for just what the host has there |
| Launch.MountedTwiceIsNotAligned | src/fs.rs:775-787 | so host paths are not in step with guest paths |
| Runs.RunKeepsMirror | src/fs.rs:773-845 | from that tree over any fair history the mirror holds; the next change, whatever node its lookup finds, fails, or makes a node fail, exactly if it is unfair |
| Runs.FirstRunFailsIffShared | src/fs.rs:773-845 | with an empty sandbox directory: exactly if another node shares what it adds, removes or renames, or it renames by a name of another case |
| Runs.SharedLibraryFails | src/fs.rs:775-787 | in every launch: after the library is renamed in the home directory, a directory cannot be created in its other mount |
| Runs.SharedFileFails | src/fs.rs:775-787 | in every launch with a file in the library: removed through one mount, it fails to open in the other |
| Runs.OtherCaseFails | src/fs.rs:1276-1311 | in every launch: renaming the library in the home directory by a name of another case fails an unwrap |
| Runs.FirstLaunchFails | src/fs.rs:775-787 | a concrete first launch that does |
| Runs.ReadOnlyLaunchChangesNothing | src/fs.rs:773-845 | a read-only launch never changes tree or host, and fails only for access modes that the host does not take |
| OneMount.ChangeElsewhere | src/fs.rs:1267-1643 | a change that keeps away from a node, for the source of a rename also in other cases, does the same, panics included, as it would without that node |
| OneMount.OneMountNeverFails | src/fs.rs:773-845 | on a first launch an application that keeps away from `/var/mobile/Library`, opens with valid modes and renames nothing into itself, with a mount inside or by a name of another case never fails, nor makes anything else fail |
| NameIndex.EnumerateRecursive | src/fs.rs:1106-1136 | the two-stack loop ends with both stacks empty and is the recursive preorder, for any iteration order |
| NameIndex.EnumeratesAll | src/fs.rs:1103-1136 | what is listed is just what lies below the directory |
| NameIndex.WalkNoRepeats | src/fs.rs:1106-1136 | nothing is listed twice |
| NameIndex.WalkParentsFirst | src/fs.rs:1106-1136 | a directory is listed before its contents |
| NameIndex.FileNameOfJoin | src/fs.rs:214-231 | a relative path has a file name exactly if it has a slash |
| NameIndex.FileNameIs | src/fs.rs:214-231 | of any path: what is behind the last slash but for trailing ones; none without such a slash |
| NameIndex.BuildIndex | src/fs.rs:1177-1207 | the index holds, sorted, the paths of all nodes at least one directory down, under their lower-case names |
| NameIndex.PathLeMeans | src/fs.rs:1190-1207 | the order of the paths found: fewer components first, then alphabetical |
| GuestFs.Fs.FindFileByName | src/fs.rs:1154-1216 | whatever was looked up or changed before and however maps are walked: the first file by depth and path with the name, ignoring case, at least one directory below the directory the base leads to; nothing if there is none |
| GuestFs.Fs.CandidatesForName | src/fs.rs:1177-1216 | cached or not, the candidates are those of the present tree, in the directory the base leads to |
| GuestFs.Fs.ChangeWorkingDirectory | src/fs.rs:883-903 | stores the resolved path, for directories only |
| GuestFs.Fs.LookupNodeInner | src/fs.rs:906-938 | ends at a node by exact names where they are there and names of another case elsewhere, or where no name agrees |
| NodeLookup.FoundIsIt | src/fs.rs:906-938 | an exact path is found; another is found exactly if it is there ignoring case, as long as no siblings differ in case only |
| NodeLookup.SameNamesMeans | src/fs.rs:906-938 | names agree if they differ in nothing but the case of ASCII letters |
| GuestFs.StepsReadAreSteps | src/fs.rs:1552-1572 | the prefixes that are written and resolved again are the prefixes, unless a sandbox path stands behind another |
| GuestFs.Fs.CreateDirectory | src/fs.rs:1581-1643 | ends as `Vfs.CreateDir` on the resolved path; beyond that: names and the cached index stay sound, a refusal changes nothing, and the mirror is kept without a panic exactly if the change is fair |
| GuestFs.Fs.CreateDirectoryAll | src/fs.rs:1545-1578 | the loop over prefixes, each written as a path and resolved again, ends as `Vfs.CreateAll` over the prefixes themselves; names and cache stay sound, and the mirror is kept exactly if fair |
| GuestFs.Fs.OpenWithOptions | src/fs.rs:1331-1463 | ends as `Vfs.Open`; names and cache stay sound, the mirror is kept exactly if fair, and what is opened is what was there, emptied just if asked for, or the new file; the cache survives opens that cannot create |
| GuestFs.Fs.RemoveAt | src/fs.rs:1468-1541 | ends as `Vfs.RemoveNode`; names and cache stay sound, and the mirror is kept exactly if fair |
| GuestFs.Fs.RenameTo | src/fs.rs:1267-1328 | ends as `Vfs.RenameFound` for the node that the lookup finds, also if only by ignoring case; names and cache stay sound, and the mirror is kept without a panic exactly if the change is fair, by whatever name |
| LineBreaking.BreakLines | src/font.rs:344-460 | the lines tile the text with its line endings, and the pieces of all lines make up the text without those, or at words without whitespace; for every line: the pieces cover it in order, and there is none exactly for an empty line wrapped at words when nothing is too wide; for monotone widths each fits, and ends without trailing whitespace if it was wrapped at a word, or is part of a too wide word broken at characters, a single one if it does not fit; and taking in the next wrap point would reach or exceed the width |
| SourceLines.LinesTile | src/font.rs:352 | the first line starts where the text does, each is followed by its newline, with the carriage return before it if any, and the next starts right behind; no line holds a newline |
| SourceLines.OneTiling | src/font.rs:352 | only this division of the text does |
| SourceLines.TiledText | src/font.rs:352 | together the lines are the text without its line endings |
| LineBreaking.BreakLine | src/font.rs:397-457 | terminates for every width function, and does so for one line |
| LineBreaking.BreakWord | src/font.rs:424-438 | a word that is too wide is broken at characters by the same procedure |
| LineBreaking.BinarySearch | src/font.rs:408-415 | the contract of the standard binary search |
| LineBreaking.WordPoints | src/font.rs:367-383 | the wrap points are just the starts of words and the end of the line |
| LineBreaking.WrapsAtWords | src/font.rs:367-383 | a wrap point is where a longest run without whitespace starts, other than at the start of the line, and none is inside one |
| LineBreaking.PiecesConserveText | src/font.rs:344-463 | for every width function: at characters the pieces make up the line; at words they do once whitespace is left out |
| CallingConvention.ArgRoundTrip | src/abi.rs:468-635 | every argument type but a variable list is read back from the words it was turned into |
| CallingConvention.RegistersHold | src/abi.rs:468-635 | the words for an argument: the low half of a doubleword first, short integers extended by their sign |
| CallingConvention.ReadMeans | src/abi.rs:468-635 | whatever words stand there, what is read is their low bits in the range of the type |
| CallingConvention.ValidIntegers | src/abi.rs:468-635 | integers of one, two, four and eight bytes are passed in their whole range |
| CallingConvention.VaListRoundTrip | src/abi.rs:543-561 | a variable list is read back from the word written for it exactly if it is at address zero |
| CallingConvention.Machine.WriteArgs | src/abi.rs:416-440 | arguments fill r0 to r3 and then the stack, and disturb nothing else |
| CallingConvention.Machine.ReadArgs | src/abi.rs:370-393 | reading in the same order gives the same values, wherever they split |
| CallingConvention.Machine.ReadVariadic | src/abi.rs:455-468 | a variable argument list continues just after the named arguments |
| CallingConvention.Machine.ReadPassedList | src/abi.rs:543-552 | a host function given a list as a pointer finds the arguments laid out from there on |
| CallingConvention.Machine.CallFromGuest | src/abi.rs:120-177 | the adapter passes what was marshalled and returns the result in registers or memory, changing nothing else |
| CallingConvention.Machine.CallHostFunction | src/abi.rs:233-271 | every argument arrives and the result comes back, although the implicit pointer is not counted; SP is restored and nothing at or above it changes |
| CallingConvention.Machine.EnterGuestFunction | src/abi.rs:277-318 | the callee starts with its arguments in place, its frame pushed and LR at the return routine |
| CallingConvention.Machine.CallGuestFunction | src/abi.rs:273-345 | afterwards PC, LR, SP, frame pointer and Thumb bit are the caller's again |
| StartStack.PrepStackForStart | src/stack.rs:39-148 | the reversed image is copied to the end of memory, exactly if it is below 1 MiB |
| StartStack.StartedIsLaid | src/stack.rs:47-120 | from SP on stand argc, the argv, envp and apple pointers and two zeros, each pointer leading to its string |
| StartStack.StackRoundTrip | src/stack.rs:47-120 | reading the lists as a program does gives envp and apple back, and argv by argc |
| StartStack.RegisterArguments | src/stack.rs:121-147 | what a program finds through r0 to r3 |
| StartStack.DocumentedArgumentsHold | src/stack.rs:121-147 | exactly when each of r1, r2 and r3 leads to what is documented |
| Adts.WrapPackets | src/audio.rs:477-545 | each payload gets its header; boundaries are recorded as the parser finds them |
| Adts.ParseAdtsAac | src/audio.rs:563-618 | the loop parses as the lemmas assume |
| Adts.ParsedTilesInput | src/audio.rs:563-618 | for any input the packets tile a prefix of it, with strictly increasing offsets |
| Adts.FrameReadsBack | src/audio.rs:460-472 | the header of a wrapped packet is parsed back |
| Adts.ReadsFields | src/audio.rs:563-618 | any header with the syncword is taken, MPEG-2 or MPEG-4, and its length, rate and channels are those of the fields of the standard; a header with checksum is two bytes longer |
| Adts.WritesFields | src/audio.rs:460-472 | every field of the header written |
| Adts.AdtsRoundTrip | src/audio.rs:460-618 | parsing wrapped packets gives the same boundaries, bytes, rate and channel count |

## Left out

- The threads of the debugger stub (single stepping, waiting for GDB), panic unwinding, `Drop` and the fallback of `yield_thread` without a coroutine.
- The set of waiting threads of a semaphore: the scheduler removes the wrong thread from it, and nothing reads it.
- `Stranding.SemDestroyIsSafeIffUnawaited`: named semaphores (`sem_open`, `sem_close`, `sem_unlink`) are not modelled.
- `Stranding.ReinitIsSafeIffUnawaited`: a timed-out wait that is still to be reported is reported as an ordinary wake-up after that; runs do not keep track of it.
- `pthread_join`'s own checks (detached threads, joining oneself); only the wait is modelled.
- One clock stands for the two that the scheduler reads; a candidate is looked at with one reading.
- What a guest function or a thread scheduled meanwhile does to memory during a host-to-guest call, beyond giving back the stack.
- Non-lazy relocations, Objective-C registration, stubs on the null page and the option that zeroes the stack after host calls; they are outside writes to the linker model.
- Instructions other than those of stubs and trampolines; Thumb code.
- `OneMount.OneMountNeverFails`: speaks of applications that keep away from `/var/mobile/Library`; one that uses it instead of the home directory's is not treated apart.
- `NoLeftovers.NothingFailsIffPrivate`: over histories whose renames have no mount inside and leave nothing over; all others are covered by `Runs.RunKeepsMirror`, whose condition speaks of the host.
- `Linker.TickKeepsInv`: assumes that guest code holds the linker's own SVCs nowhere but in rewritten stubs.
- `GuestFs.Fs.FindFileByName`: says nothing of an empty base path, of paths below the base that hold the sandbox marker twice, of siblings that differ in case only where the base is not exact, and of a relative base path that led elsewhere when its index was built.
- Host links, Windows path separators, host file systems that ignore case, and hosts on which a directory cannot be opened for reading.
- `LineBreaking.BreakLines`: slices of UTF-8 are spans of characters; rounding of widths and Arabic shaping are part of the abstract width.
- `Adts.AdtsRoundTrip`: the CAF container is the list of payloads it yields; sample rates are whole numbers.
- `LoadOrder.GenerateBinaryLoadOrder`: in-degrees do not overflow.
- Codec tables, graphics, windows, configuration and the application database: case lists or drivers without deep properties.
