# no-deadlocks: a verified model of the deadlock detector

`no-deadlocks` is a Rust crate of drop-in replacements for `std::sync` locks.
Each lock registers with a lock manager. The manager records, for every lock,
who holds it and who is waiting for it. When a thread has waited longer than
the analysis timeout, the manager builds a wait-for graph and looks for a
loop. It panics with a report if the waiting thread is on the loop the
search returns. Only that one loop is examined per analysis: when the search
happens to return a loop elsewhere in the table, a loop through the waiting
thread goes unreported by that analysis (`Scenarios.OtherLoopHidesOwnLoop`).

This project models that detector in Dafny, in three modules that follow the
crate's source files:

- `Graphs` (`graphs.dfy`, for `src/graphs.rs`). A `Graph` class whose nodes
  map to successor sets, and the backtracking loop search `FindLoop` /
  `LoopBacktracker`, which drives a path `history` with pushes, pops and a
  rotation. The search is proved sound: what it returns is a simple cycle.
  It is also proved complete: it returns `None` only when the graph has no
  cycle. Map iteration order is left open, as an arbitrary choice.
- `Locks` (`lock_manager.dfy`, for `src/lock_manager.rs`). It holds:
  - the per-lock state machine `LockRepresentation`, with its write flag,
    owner entries and pending requests;
  - the manager's `LockManager` table, with its key counter;
  - `Analyse`, which builds the wait-for graph of the table, runs the loop
    search and classifies the result as a `Verdict`.

  The wait-for relation `WaitsFor` is stated once, as the specification of
  the graph that `analyse` builds. Every verdict is proved to describe the
  current table (`Explains`).
- `Mutexes` (`mutex.dfy`, for `src/mutex.rs`). The `Mutex` handle (key,
  sticky poison flag, value) and its guard: `try_lock`, one iteration of
  `lock`, the guard's drop, `into_inner` and `Drop`.

A fourth module, `Scenarios` (`scenarios.dfy`), replays the crate's own
tests as verified straight-line programs on the model:

- `graph_loop_detection`;
- `reentrance_detection`;
- `with_deadlock`, where the waiting thread panics with a deadlock;
- `without_deadlock`, where nothing is analysed and both locks are taken in
  turn.

It also shows that a panicking guard drop poisons the mutex.

A few modelling choices:

- The calling thread is an explicit `ThreadId` parameter. It stands for
  `std::thread::current().id()`.
- Every captured `Backtrace` is an opaque token, also passed in.
- The source's panic in `handle_deadlock` is modelled as a returned
  `Verdict` whose `Panics()` holds.
- `LockManagerInner` and its `UnsafeCell` wrapper `LockManager` are one
  class. Each manager operation is one atomic step.

## Model

| member | source | states |
|---|---|---|
| Graphs.Graph.constructor | src/graphs.rs:9-11 | a new graph has no nodes |
| Graphs.Graph.AddNode | src/graphs.rs:13-17 | the node set grows by exactly `node`; existing successor sets are untouched, so adding a present node is a no-op; a new node gets no successors; closure is preserved |
| Graphs.Graph.AddEdge | src/graphs.rs:19-21 | requires `from` to be a node (the source unwraps); the node set is unchanged and `to` is not added; the edges are the old edges plus `from -> to`; closure is kept when `to` was already a node |
| Graphs.Graph.AddEdgeAndNodes | src/graphs.rs:23-34 | both endpoints become nodes; the edges are exactly the old edges plus `from -> to`, so every other successor set is unchanged; closure ("every successor is a node") is preserved |
| Graphs.Graph.FindLoop | src/graphs.rs:36-46 | on a closed graph: a returned loop is a simple cycle (non-empty, consecutive edges, an edge from the last node back to the first, no repeated node); `None` exactly when the graph has no cycle at all |
| Graphs.Graph.LoopBacktracker | src/graphs.rs:48-65 | from a simple path, either returns a simple cycle, or returns the path exactly as it was on entry (push/pop balance) after every simple extension of it ended in a dead end; terminates because the path never outgrows the node count |
| Graphs.Graph.ClosedLoop | src/graphs.rs:51-56 | the suffix of a simple path from a successor of its last node is a simple cycle, which is what the rotate-and-cut leaves |
| Graphs.Position | src/graphs.rs:51 | the first index holding `x`, or `None` exactly when `x` is not on the path |
| Graphs.RotateAndCut | src/graphs.rs:52-55 | rotating left by `start` and popping `start` times leaves exactly the suffix from `start` |
| Graphs.SimplePathBound | src/graphs.rs:48-65 | a duplicate-free path over a node set is no longer than the set: the bound on the search's recursion depth |
| Graphs.CycleIsNotExhausted | src/graphs.rs:36-46 | a search started at a node of a cycle cannot end without finding a loop: the completeness step of `find_loop` |
| Graphs.CycleOnEdges | src/graphs.rs:51-56 | a duplicate-free, non-empty sequence whose consecutive and wrap-around pairs are edges is a simple cycle |
| Graphs.SameEdgesSameCycles | src/lock_manager.rs:175-187 | two successor maps with the same edges have the same cycles, so the loop found in the graph `analyse` builds is a loop of the wait-for relation |
| Graphs.RankedGraphIsAcyclic | src/graphs.rs:70-78 | a graph whose edges all strictly decrease a rank has no cycle (the acyclic graph of `graph_loop_detection`) |
| Locks.LockRepresentation.constructor | src/lock_manager.rs:77-83 | a new lock is not write-locked and has no owners and no requests |
| Locks.LockRepresentation.TryWriteLock | src/lock_manager.rs:86-96 | succeeds exactly when there are no owner entries; then the lock is write-locked, the owners are exactly `[(t, trace)]` and `t`'s request is gone; on failure nothing changes; keeps "write-locked implies one owner entry" |
| Locks.LockRepresentation.Unsubscribe | src/lock_manager.rs:98-100 | removes `t`'s request and nothing else |
| Locks.LockRepresentation.SubscribeWrite | src/lock_manager.rs:102-109 | an existing write request of `t` is kept with its trace; otherwise `t`'s entry becomes a write request with the new trace; other requests and the owners are untouched |
| Locks.LockRepresentation.TryReadLock | src/lock_manager.rs:112-121 | fails, changing nothing, exactly when write-locked; on success `(t, trace)` is appended to the owners and `t`'s request is removed |
| Locks.LockRepresentation.SubscribeRead | src/lock_manager.rs:123-130 | an existing read request of `t` is kept with its trace; otherwise `t`'s entry becomes a read request; nothing else changes |
| Locks.LockRepresentation.Unlock | src/lock_manager.rs:132-138 | clears the write flag; the owners become `Released(old owners, t)`; requests are unchanged |
| Locks.LockRepresentation.FindReader | src/lock_manager.rs:135 | the linear search returns `FirstIndex(readers, t)` |
| Locks.FirstIndex | src/lock_manager.rs:135 | `None` exactly when `t` owns no entry; otherwise the index of an entry of `t` with no entry of `t` before it |
| Locks.SwapRemove | src/lock_manager.rs:136 | one element shorter, the removed element leaves the multiset, and every other index keeps its element (the last one fills the hole) |
| Locks.Released | src/lock_manager.rs:132-138 | when `t` owns no entry the owners are unchanged; otherwise exactly one entry of `t` is removed and the rest stay as a multiset |
| Locks.SubscribedKeys | src/lock_manager.rs:102-109 | subscribing adds `t` to the requesters and no other thread |
| Locks.LockManager.constructor | src/lock_manager.rs:157-164 | a new manager has key counter 0 and an empty table |
| Locks.LockManager.CreateLock | src/lock_manager.rs:313-319 | returns the old counter, bumps it by one, and registers a fresh, free lock under a key not used before; other entries are unchanged |
| Locks.LockManager.RemoveLock | src/lock_manager.rs:321-324 | deletes only the given key, whatever the state of its lock; the counter is unchanged |
| Locks.LockManager.WaitForEdges | src/lock_manager.rs:176-186 | the edges of the wait-for graph are exactly the wait-for relation: a lock waits for each thread owning an entry of it, a thread for a lock it has a blocked request on |
| Locks.LockManager.AddLockEdges | src/lock_manager.rs:177-185 | adds exactly the edges of one lock: Lock -> Thread for each owner entry, Thread -> Lock for each request when the lock is write-locked or the request is a write |
| Locks.LockManager.BuildWaitForGraph | src/lock_manager.rs:175-186 | the graph built over the whole table is closed and its edges are exactly the wait-for relation |
| Locks.LockManager.Analyse | src/lock_manager.rs:174-190 | the verdict explains the current table: `NoCycle` only when the wait-for graph has no cycle, otherwise the verdict's loop is a simple cycle of it |
| Locks.LockManager.HandleDeadlock | src/lock_manager.rs:193-238 | a loop avoiding `t` is left alone; a loop through `t` of length 2 is a reentrance on its lock node, with the trace of the lock's first owner entry and of `t`'s request; any other loop through `t` is a deadlock |
| Locks.LockManager.WaitForCycleIsEven | src/lock_manager.rs:176-186 | lock and thread nodes alternate along any wait-for loop (node `i` is of the kind of node 0 exactly when `i` is even), and every loop has even length |
| Locks.LockManager.DeadlockCycleLength | src/lock_manager.rs:233-238 | a reported deadlock loop has even length of at least four, and its first four nodes are two distinct locks and two distinct threads |
| Locks.LockManager.ReentranceIsSelfWait | src/lock_manager.rs:212-227 | a reentrance is `t` blocked on a lock it owns; when that lock is write-locked, the "lock taken at" trace reported is `t`'s own |
| Mutexes.Mutex.constructor | src/mutex.rs:21-43 | registers exactly one new key (the old counter) with a fresh, free lock, leaves the other locks alone, and starts unpoisoned |
| Mutexes.Mutex.GetMut | src/mutex.rs:67-78 | returns the value, as an error exactly when the mutex is poisoned |
| Mutexes.Mutex.TryLock | src/mutex.rs:80-93 | `WouldBlock`, changing nothing, exactly when the lock has an owner; otherwise the caller holds it alone, even when poisoned, and the guard comes back as `Poisoned` exactly when the flag is set |
| Mutexes.Mutex.LockStep | src/mutex.rs:99-116 | acquires and returns (as an error exactly when poisoned) when the lock is free; yields, changing nothing, when it is not and the timeout has not passed; otherwise subscribes a write request and returns the analysis' verdict for the table after subscribing |
| Mutexes.Mutex.IntoInner | src/mutex.rs:45-57 | removes the key from the manager, leaving the key counter alone so the key is never handed out again, and returns the value, as an error exactly when poisoned |
| Mutexes.Mutex.Drop | src/mutex.rs:60-64 | removes the key from the manager and leaves the key counter alone, so the key is never handed out again |
| Mutexes.MutexGuard.constructor | src/mutex.rs:84 | the guard refers to its mutex |
| Mutexes.MutexGuard.Drop | src/mutex.rs:139-146 | the lock is unlocked for thread `t` (write flag cleared, `t`'s first owner entry released) with its requests unchanged; the flag becomes set if `t` is panicking and is never cleared |
| Scenarios.StarTestGraph | src/graphs.rs:70-73 | after the first three insertions the edges are exactly 0->1, 0->2, 0->3 |
| Scenarios.AcyclicTestGraph | src/graphs.rs:70-75 | the five edges before 2->4 form no cycle |
| Scenarios.FourNodeLoop | src/graphs.rs:79 | four distinct nodes joined in a ring of edges form a cycle |
| Scenarios.GraphLoopDetection | src/graphs.rs:68-85 | `find_loop` returns `None` on the first graph and a loop once 2->4 is added |
| Scenarios.SelfWaitGraph | src/lock_manager.rs:419-426 | a lock write-held by `t` and requested by `t` again gives a wait-for graph with a cycle, and every cycle is the two-node loop through `t` |
| Scenarios.ReentranceDetection | src/lock_manager.rs:419-426 | locking a fresh mutex twice from one thread: the first call returns, and the second, past the timeout, is analysed as a reentrance |
| Scenarios.CrossedEdges | src/lock_manager.rs:376-395 | the edges of the two-lock table of `with_deadlock`, before and after the main thread blocks |
| Scenarios.HalfCrossedIsAcyclic | src/lock_manager.rs:376-395 | while only the spawned thread waits, the table has no cycle |
| Scenarios.CrossedIsDeadlock | src/lock_manager.rs:376-395 | once both threads wait, there is a cycle and every cycle is a deadlock through the main thread |
| Scenarios.NewPair | src/lock_manager.rs:381-382 | two mutexes on one fresh manager: two distinct keys, both locks free |
| Scenarios.HoldOneEach | src/lock_manager.rs:381-388 | the main thread takes `mut1` and the spawned thread `mut2`, both without error |
| Scenarios.WithDeadlock | src/lock_manager.rs:376-395 | the spawned thread's wait is analysed with no cycle; the main thread's wait is analysed as a deadlock, on which it panics |
| Scenarios.HoldBoth | src/lock_manager.rs:403-414 | the main thread takes both mutexes while the spawned thread, within the timeout, only yields |
| Scenarios.ReleaseBoth | src/lock_manager.rs:415 | dropping both guards without panicking frees both locks and poisons neither |
| Scenarios.WithoutDeadlock | src/lock_manager.rs:397-417 | nothing is analysed: the spawned thread first yields, then takes both locks once they are released, all without error |
| Scenarios.PoisonOnPanic | src/mutex.rs:139-146 | a guard dropped while its thread panics poisons the mutex: the next lock succeeds but as an error, and so does `get_mut` |
| Scenarios.OtherLoopHidesOwnLoop | src/lock_manager.rs:187-197 | with two self-waits in the table, the verdict for `t` may be `Unaffected` by the other thread's loop although `t` is on a loop of its own: one analysis reports only the loop the search returns |

## Left out

- The manager's own spin lock (`read_lock`, `write_lock` and their guards). Each manager operation is one atomic step; concurrency is out of scope.
- `get_global_manager`. It is lazy initialisation through an atomic pointer. `Mutex::new` and `with_manager` are one constructor taking the manager.
- Report rendering in `handle_deadlock`, and `resolve_and_trim`: the `NO_DEADLOCKS` variable, the choice of file or stderr, the output lines and backtrace resolution. They are I/O. The panic is the verdict's `Panics()`.
- Timing in `lock`: `Instant`, `analysis_timeout` and `yield_now`. The `timedOut` input says whether the timeout has passed. Only one iteration of the retry loop is modelled, because the loop is unbounded blocking.
- Value access through `UnsafeCell`, `Deref`/`DerefMut` and the `Send`/`Sync` impls. They carry no logic beyond handing out the value.
- `src/condvar.rs`, `src/rwlock.rs` and `src/lib.rs` are not part of this model. They are a wrapper over blocking primitives, declarations only, and module wiring. `Map`/`Set` are Dafny `map`/`set`.
- `next_key` is a `usize` in the source. `LockManager.CreateLock` uses an unbounded counter, so wrap-around after 2^64 locks is not modelled.
- `Mutex.IsPoisoned` reads the flag and carries no contract of its own. Its meaning is stated through `GetMut`, `TryLock` and `LockStep`.
- `Graph.FindLoop` leaves open which loop is reported, because that depends on hash-map iteration order. The contract says only that it is a simple cycle.
- Behaviours the code does not have are not modelled. The code grants no FIFO or batched order; threads spin and retry. It raises no error when a held lock is removed, and removes it unconditionally. Only the analysing thread panics, not every thread on the loop. The model follows the code on all three points.
