/**
 * The repository's own tests, replayed against the model as verified
 * scenarios: each thread's calls are issued in the order the test's sleeps
 * arrange, and each `lock` call that has to wait is one loop iteration past
 * the analysis timeout.
 */
module Scenarios {
  import opened Options
  import opened Graphs
  import opened Locks
  import opened Mutexes

  /** Along a cycle, the only successor of a node on it is on it too. */
  lemma SuccessorOnCycle<N>(g: map<N, set<N>>, c: seq<N>, x: N, y: N)
    requires IsSimpleCycle(g, c) && x in c
    requires forall z :: Edge(g, x, z) ==> z == y
    ensures y in c
  {
    var i :| 0 <= i < |c| && c[i] == x;
    if i < |c| - 1 {
      assert Edge(g, c[i], c[i + 1]);
    } else {
      assert Edge(g, c[i], c[0]);
    }
  }

  /** Four distinct nodes joined in a ring of edges form a cycle. */
  lemma FourNodeLoop<N>(g: map<N, set<N>>, a: N, b: N, c: N, d: N)
    requires a != b && a != c && a != d && b != c && b != d && c != d
    requires Edge(g, a, b) && Edge(g, b, c) && Edge(g, c, d) && Edge(g, d, a)
    ensures IsSimpleCycle(g, [a, b, c, d])
  {
    var loop := [a, b, c, d];
    assert forall i :: 0 <= i < |loop| - 1 ==> Edge(g, loop[i], loop[i + 1]);
    CycleOnEdges(g, loop);
  }

  function TestRank(x: int): nat {
    if x == 4 then 4 else if x == 0 then 3 else if x == 1 then 2 else 0
  }

  /** The first three edges of `graph_loop_detection`: 0->1, 0->2, 0->3. */
  method StarTestGraph() returns (graph: Graph<int>)
    ensures fresh(graph) && Closed(graph.nodes)
    ensures forall u, v :: Edge(graph.nodes, u, v) <==> u == 0 && 1 <= v <= 3
  {
    graph := new Graph<int>();
    graph.AddEdgeAndNodes(0, 1);
    assert forall u, v :: Edge(graph.nodes, u, v) ==> u == 0 && v == 1;
    graph.AddEdgeAndNodes(0, 2);
    assert forall u, v :: Edge(graph.nodes, u, v) ==> u == 0 && 1 <= v <= 2;
    graph.AddEdgeAndNodes(0, 3);
  }

  /** With 1->2 and 4->0 added, the five edges of `graph_loop_detection` still form no loop. */
  method AcyclicTestGraph() returns (graph: Graph<int>)
    ensures fresh(graph) && Closed(graph.nodes) && !HasCycle(graph.nodes)
    ensures Edge(graph.nodes, 0, 1) && Edge(graph.nodes, 1, 2) && Edge(graph.nodes, 4, 0)
  {
    graph := StarTestGraph();
    graph.AddEdgeAndNodes(1, 2);
    assert forall u, v :: Edge(graph.nodes, u, v) ==> TestRank(v) < TestRank(u) && u != 4;
    graph.AddEdgeAndNodes(4, 0);
    assert forall u, v :: Edge(graph.nodes, u, v) ==> TestRank(v) < TestRank(u);
    RankedGraphIsAcyclic(graph.nodes, TestRank);
  }

  /**
   * `graph_loop_detection`: no loop in the graph 0->1, 0->2, 0->3, 1->2,
   * 4->0; once 2->4 is added, a loop is found.
   */
  method GraphLoopDetection() returns (before: Option<seq<int>>, after: Option<seq<int>>)
    ensures before.None?
    ensures after.Some?
  {
    var graph := AcyclicTestGraph();
    before := graph.FindLoop();
    ghost var acyclic := graph.nodes;
    graph.AddEdgeAndNodes(2, 4);
    assert Edge(acyclic, 0, 1) && Edge(acyclic, 1, 2) && Edge(acyclic, 4, 0);
    FourNodeLoop(graph.nodes, 0, 1, 2, 4);
    after := graph.FindLoop();
  }

  /** In a graph whose only edges run between `x` and `y`, every cycle is the two of them. */
  lemma TwoNodeCycles<N(!new)>(g: map<N, set<N>>, x: N, y: N)
    requires x != y
    requires forall u, v :: Edge(g, u, v) ==> (u == x && v == y) || (u == y && v == x)
    ensures forall c :: IsSimpleCycle(g, c) ==> |c| == 2 && x in c && y in c
  {
    forall c | IsSimpleCycle(g, c)
      ensures |c| == 2 && x in c && y in c
    {
      forall i | 0 <= i < |c|
        ensures c[i] in {x, y}
      {
        if i < |c| - 1 {
          assert Edge(g, c[i], c[i + 1]);
        } else {
          assert Edge(g, c[i], c[0]);
        }
      }
      SimplePathBound(c, {x, y});
    }
  }

  /** A table whose one lock `k` is write-locked by `t` while `t` requests it again. */
  lemma SelfWaitGraph(manager: LockManager, k: nat, t: ThreadId)
    requires manager.locks.Keys == {k}
    requires manager.locks[k].writeLocked && |manager.locks[k].readers| == 1 && manager.locks[k].readers[0].0 == t
    requires manager.locks[k].requests.Keys == {t}
    ensures forall c :: IsSimpleCycle(manager.WaitForGraph(), c) ==> |c| == 2 && Thread(t) in c
    ensures HasCycle(manager.WaitForGraph())
  {
    var g := manager.WaitForGraph();
    var representation := manager.locks[k];
    manager.WaitForEdges();
    assert Holders(representation.readers) == {t};
    assert representation.Blockers() == {t};
    assert Edge(g, Lock(k), Thread(t)) && Edge(g, Thread(t), Lock(k));
    TwoNodeCycles(g, Lock(k), Thread(t));
    CycleOnEdges(g, [Lock(k), Thread(t)]);
  }

  /**
   * `reentrance_detection`: a thread locks a mutex and locks it again; once
   * the second call is past the analysis timeout, the analysis reports a
   * reentrance.
   */
  method ReentranceDetection(t: ThreadId) returns (first: LockIteration<int>, second: LockIteration<int>)
    ensures first.Returned? && first.result.Ok?
    ensures second.Analysed? && second.verdict.Reentrance?
  {
    var manager := new LockManager();
    var mutex := new Mutex(manager, 0);
    first := mutex.LockStep(t, 0, false);
    ghost var representation := mutex.Representation();
    assert representation.readers == [(t, 0)] && representation.writeLocked;
    second := mutex.LockStep(t, 1, true);
    assert second.Analysed?;
    SubscribedKeys(map[], representation.requests, t, Write, 1);
    SelfWaitGraph(manager, mutex.key, t);
  }

  /** In a ring of four edges every cycle runs through `a` and is longer than two. */
  lemma RingCycles<N(!new)>(g: map<N, set<N>>, a: N, b: N, c: N, d: N)
    requires a != b && a != c && a != d && b != c && b != d && c != d
    requires forall u, v :: Edge(g, u, v) <==>
      (u == a && v == b) || (u == b && v == c) || (u == c && v == d) || (u == d && v == a)
    ensures forall cycle :: IsSimpleCycle(g, cycle) ==> a in cycle && |cycle| != 2
  {
    forall cycle | IsSimpleCycle(g, cycle)
      ensures a in cycle && |cycle| != 2
    {
      var i1 := if |cycle| > 1 then 1 else 0;
      var i2 := if |cycle| > 2 then 2 else 0;
      assert Edge(g, cycle[0], cycle[i1]);
      assert Edge(g, cycle[i1], cycle[i2]);
      if b in cycle {
        SuccessorOnCycle(g, cycle, b, c);
      }
      if c in cycle {
        SuccessorOnCycle(g, cycle, c, d);
      }
      if d in cycle {
        SuccessorOnCycle(g, cycle, d, a);
      }
    }
  }

  function CrossRank(n: DependencyNode, k1: nat, k2: nat, b: ThreadId): nat {
    if n == Lock(k2) then 3 else if n == Thread(b) then 2 else if n == Lock(k1) then 1 else 0
  }

  /**
   * `a` write-holds `k1` and `b` write-holds `k2`; `b` is blocked on `k1`,
   * and `a` on `k2` exactly when `crossed`.
   */
  ghost predicate CrossedTable(manager: LockManager, k1: nat, k2: nat, a: ThreadId, b: ThreadId, crossed: bool)
    reads manager, manager.locks.Values
  {
    && k1 != k2 && a != b && manager.locks.Keys == {k1, k2}
    && manager.locks[k1].writeLocked && |manager.locks[k1].readers| == 1 && manager.locks[k1].readers[0].0 == a
    && manager.locks[k2].writeLocked && |manager.locks[k2].readers| == 1 && manager.locks[k2].readers[0].0 == b
    && manager.locks[k1].requests.Keys == {b}
    && manager.locks[k2].requests.Keys == if crossed then {a} else {}
  }

  /** The edges of a crossed table: `k1 -> a`, `b -> k1`, `k2 -> b`, and `a -> k2` when crossed. */
  lemma CrossedEdges(manager: LockManager, k1: nat, k2: nat, a: ThreadId, b: ThreadId, crossed: bool)
    requires CrossedTable(manager, k1, k2, a, b, crossed)
    ensures forall u, v :: Edge(manager.WaitForGraph(), u, v) <==>
      || (u == Lock(k1) && v == Thread(a)) || (u == Thread(b) && v == Lock(k1))
      || (u == Lock(k2) && v == Thread(b)) || (crossed && u == Thread(a) && v == Lock(k2))
  {
    manager.WaitForEdges();
    assert Holders(manager.locks[k1].readers) == {a};
    assert Holders(manager.locks[k2].readers) == {b};
    assert manager.locks[k1].Blockers() == {b};
    assert manager.locks[k2].Blockers() == if crossed then {a} else {};
  }

  /** Before `a` blocks on `k2`, the table has no cycle. */
  lemma HalfCrossedIsAcyclic(manager: LockManager, k1: nat, k2: nat, a: ThreadId, b: ThreadId)
    requires CrossedTable(manager, k1, k2, a, b, false)
    ensures !HasCycle(manager.WaitForGraph())
  {
    CrossedEdges(manager, k1, k2, a, b, false);
    RankedGraphIsAcyclic(manager.WaitForGraph(), n => CrossRank(n, k1, k2, b));
  }

  /** Once `a` blocks on `k2`, the table has a cycle, and every cycle is a deadlock of `a`. */
  lemma CrossedIsDeadlock(manager: LockManager, k1: nat, k2: nat, a: ThreadId, b: ThreadId)
    requires CrossedTable(manager, k1, k2, a, b, true)
    ensures HasCycle(manager.WaitForGraph())
    ensures forall c :: IsSimpleCycle(manager.WaitForGraph(), c) ==> Thread(a) in c && |c| != 2
  {
    var g := manager.WaitForGraph();
    CrossedEdges(manager, k1, k2, a, b, true);
    RingCycles(g, Thread(a), Lock(k2), Thread(b), Lock(k1));
    FourNodeLoop(g, Thread(a), Lock(k2), Thread(b), Lock(k1));
  }

  /** Two unpoisoned mutexes registered with one manager. */
  ghost predicate MutexPair(mut1: Mutex<int>, mut2: Mutex<int>)
    reads mut1, mut2, mut1.manager, mut1.manager.locks.Values
  {
    && mut1.manager == mut2.manager && mut1.key != mut2.key && mut1.Valid() && mut2.Valid()
    && !mut1.poisoned && !mut2.poisoned
  }

  /** `Mutex::new(0)` twice, on a fresh manager: two free locks and nothing else. */
  method NewPair() returns (mut1: Mutex<int>, mut2: Mutex<int>)
    ensures MutexPair(mut1, mut2) && mut1.manager.locks.Keys == {mut1.key, mut2.key}
    ensures fresh(mut1) && fresh(mut2) && fresh(mut1.Representation()) && fresh(mut2.Representation())
    ensures var r1 := mut1.Representation(); !r1.writeLocked && r1.readers == [] && r1.requests == map[]
    ensures var r2 := mut2.Representation(); !r2.writeLocked && r2.readers == [] && r2.requests == map[]
  {
    var manager := new LockManager();
    mut1 := new Mutex(manager, 0);
    mut2 := new Mutex(manager, 0);
  }

  /** The first half of `with_deadlock`: `a` locks `mut1` and `b` locks `mut2`. */
  method HoldOneEach(mut1: Mutex<int>, mut2: Mutex<int>, a: ThreadId, b: ThreadId)
    returns (lock1: LockIteration<int>, lock2: LockIteration<int>)
    requires MutexPair(mut1, mut2)
    requires mut1.Representation().readers == [] && mut1.Representation().requests == map[]
    requires mut2.Representation().readers == [] && mut2.Representation().requests == map[]
    modifies mut1.Representation(), mut2.Representation()
    ensures MutexPair(mut1, mut2)
    ensures lock1.Returned? && lock1.result.Ok? && lock2.Returned? && lock2.result.Ok?
    ensures var r1 := mut1.Representation(); r1.writeLocked && r1.readers == [(a, 0)] && r1.requests == map[]
    ensures var r2 := mut2.Representation(); r2.writeLocked && r2.readers == [(b, 1)] && r2.requests == map[]
  {
    assert mut1.Representation() != mut2.Representation();
    lock1 := mut1.LockStep(a, 0, false);
    lock2 := mut2.LockStep(b, 1, false);
  }

  /**
   * `with_deadlock`: the main thread `a` locks `mut1`, the spawned thread
   * `b` locks `mut2` and then waits for `mut1`, past the timeout, finding no
   * cycle; then `a` waits for `mut2` past the timeout and the analysis
   * reports a deadlock, on which `a` panics.
   */
  method WithDeadlock(a: ThreadId, b: ThreadId)
    returns (lock1: LockIteration<int>, lock2: LockIteration<int>, wait1: LockIteration<int>, wait2: LockIteration<int>)
    requires a != b
    ensures lock1.Returned? && lock1.result.Ok? && lock2.Returned? && lock2.result.Ok?
    ensures wait1 == Analysed(NoCycle)
    ensures wait2.Analysed? && wait2.verdict.Deadlock? && wait2.verdict.Panics()
  {
    var mut1, mut2 := NewPair();
    lock1, lock2 := HoldOneEach(mut1, mut2, a, b);
    ghost var r1 := mut1.Representation();
    ghost var r2 := mut2.Representation();
    wait1 := mut1.LockStep(b, 2, true);
    SubscribedKeys(map[], r1.requests, b, Write, 2);
    HalfCrossedIsAcyclic(mut1.manager, mut1.key, mut2.key, a, b);
    wait2 := mut2.LockStep(a, 3, true);
    SubscribedKeys(map[], r2.requests, a, Write, 3);
    CrossedIsDeadlock(mut1.manager, mut1.key, mut2.key, a, b);
  }

  /**
   * The first half of `without_deadlock`: `a` locks `mut1`, `b` waits for
   * it within the timeout, and `a` locks `mut2`.
   */
  method HoldBoth(mut1: Mutex<int>, mut2: Mutex<int>, a: ThreadId, b: ThreadId)
    returns (lock1: LockIteration<int>, wait: LockIteration<int>, lock2: LockIteration<int>)
    requires MutexPair(mut1, mut2)
    requires mut1.Representation().readers == [] && mut2.Representation().readers == []
    modifies mut1.Representation(), mut2.Representation()
    ensures MutexPair(mut1, mut2)
    ensures lock1.Returned? && lock1.result.Ok? && lock1.result.value.mutex == mut1
    ensures lock2.Returned? && lock2.result.Ok? && lock2.result.value.mutex == mut2
    ensures wait.Yielded?
    ensures mut1.Representation().readers == [(a, 0)] && mut2.Representation().readers == [(a, 2)]
  {
    assert mut1.Representation() != mut2.Representation();
    lock1 := mut1.LockStep(a, 0, false);
    wait := mut1.LockStep(b, 1, false);
    lock2 := mut2.LockStep(a, 2, false);
  }

  /** `a` drops both guards, without panicking: both locks are free again and nobody is poisoned. */
  method ReleaseBoth(mut1: Mutex<int>, mut2: Mutex<int>, guard1: MutexGuard<int>, guard2: MutexGuard<int>, a: ThreadId)
    requires MutexPair(mut1, mut2) && guard1.mutex == mut1 && guard2.mutex == mut2
    requires mut1.Representation().readers == [(a, 0)] && mut2.Representation().readers == [(a, 2)]
    modifies mut1.Representation(), mut2.Representation(), mut1, mut2
    ensures MutexPair(mut1, mut2)
    ensures mut1.Representation().readers == [] && mut2.Representation().readers == []
  {
    assert mut1.Representation() != mut2.Representation();
    guard1.Drop(a, false);
    guard2.Drop(a, false);
  }

  /**
   * `without_deadlock`: the main thread `a` locks `mut1`; `b` waits for it,
   * within the timeout; `a` locks `mut2` and releases both; then `b` takes
   * `mut1` and `mut2` in turn. Nothing is analysed and nobody is poisoned.
   */
  method WithoutDeadlock(a: ThreadId, b: ThreadId)
    returns (lock1: LockIteration<int>, wait: LockIteration<int>, lock2: LockIteration<int>,
             relock1: LockIteration<int>, relock2: LockIteration<int>)
    ensures lock1.Returned? && lock1.result.Ok? && lock2.Returned? && lock2.result.Ok?
    ensures wait.Yielded?
    ensures relock1.Returned? && relock1.result.Ok? && relock2.Returned? && relock2.result.Ok?
  {
    var mut1, mut2 := NewPair();
    lock1, wait, lock2 := HoldBoth(mut1, mut2, a, b);
    ReleaseBoth(mut1, mut2, lock1.result.value, lock2.result.value, a);
    ghost var r2 := mut2.Representation();
    relock1 := mut1.LockStep(b, 3, false);
    assert r2.readers == [] && !mut2.poisoned;
    relock2 := mut2.LockStep(b, 4, false);
  }

  /**
   * A guard dropped while its thread panics poisons the mutex: the next
   * `lock` still takes it, but as an error, and so does `get_mut`.
   */
  method PoisonOnPanic(a: ThreadId, b: ThreadId) returns (held: LockIteration<int>, relocked: LockIteration<int>, value: LockResult<int>)
    ensures held.Returned? && held.result.Ok?
    ensures relocked.Returned? && relocked.result.Err?
    ensures value == Err(7)
  {
    var manager := new LockManager();
    var mutex := new Mutex(manager, 7);
    held := mutex.LockStep(a, 0, false);
    held.result.value.Drop(a, true);
    relocked := mutex.LockStep(b, 1, false);
    value := mutex.GetMut();
  }

  /**
   * One analysis reports only the loop the search returns. With two
   * self-waits in the table (`t` on `k1`, `u` on `k2`), the search may
   * return `u`'s loop first; the verdict for `t` is then `Unaffected`
   * although `t` is on a loop of its own.
   */
  lemma OtherLoopHidesOwnLoop(manager: LockManager, k1: nat, k2: nat, t: ThreadId, u: ThreadId)
    requires k1 != k2 && t != u && manager.locks.Keys == {k1, k2}
    requires manager.locks[k1].writeLocked && manager.locks[k1].readers == [(t, 0)]
    requires manager.locks[k1].requests == map[t := (Write, 1)]
    requires manager.locks[k2].writeLocked && manager.locks[k2].readers == [(u, 2)]
    requires manager.locks[k2].requests == map[u := (Write, 3)]
    ensures IsSimpleCycle(manager.WaitForGraph(), [Lock(k1), Thread(t)])
    ensures manager.Explains(t, Unaffected([Lock(k2), Thread(u)]))
  {
    var g := manager.WaitForGraph();
    manager.WaitForEdges();
    var r1, r2 := manager.locks[k1], manager.locks[k2];
    assert r1.readers[0].0 == t && t in r1.requests;
    assert r2.readers[0].0 == u && u in r2.requests;
    assert t in Holders(r1.readers) && t in r1.Blockers();
    assert u in Holders(r2.readers) && u in r2.Blockers();
    assert manager.WaitsFor(Lock(k1), Thread(t)) && manager.WaitsFor(Thread(t), Lock(k1));
    assert manager.WaitsFor(Lock(k2), Thread(u)) && manager.WaitsFor(Thread(u), Lock(k2));
    CycleOnEdges(g, [Lock(k1), Thread(t)]);
    CycleOnEdges(g, [Lock(k2), Thread(u)]);
  }
}
