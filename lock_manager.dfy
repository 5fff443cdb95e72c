/**
 * The lock table of `src/lock_manager.rs`: the per-lock state machine
 * (`LockRepresentation`), the manager's table of locks, and the analysis
 * that turns a snapshot of the table into a wait-for graph and classifies
 * a loop through the calling thread as a reentrance or a deadlock.
 *
 * The manager's own spin lock is not modelled: every manager operation is
 * one atomic step. The calling thread and every captured backtrace are
 * explicit parameters.
 */
module Locks {
  import opened Options
  import opened Graphs

  /** Stands for `std::thread::ThreadId`, supplied by the caller. */
  type ThreadId = nat

  /** An opaque token standing for an unresolved `Backtrace`. */
  type Backtrace = nat

  /** A reader (owner) entry: the owning thread and where it took the lock. */
  type ReaderEntry = (ThreadId, Backtrace)

  /** A node of the wait-for graph. */
  datatype DependencyNode = Thread(thread: ThreadId) | Lock(id: nat)

  datatype RequestType = Read | Write

  /**
   * What an analysis finds: no loop at all, a loop the calling thread is
   * not on (the source returns quietly), or a loop through the calling
   * thread, which the source reports and then panics on.
   */
  datatype Verdict =
    | NoCycle
    | Unaffected(cycle: seq<DependencyNode>)
    | Reentrance(cycle: seq<DependencyNode>, lock: nat, lockedAt: Backtrace, reentryAt: Backtrace)
    | Deadlock(cycle: seq<DependencyNode>)
  {
    predicate Panics() {
      Reentrance? || Deadlock?
    }
  }

  /**
   * `after` is `before` with `t` subscribed for `kind`: a request of that
   * kind is kept with its trace, anything else is replaced by a new one, and
   * other threads' requests are untouched.
   */
  ghost predicate Subscribed(before: map<ThreadId, (RequestType, Backtrace)>, after: map<ThreadId, (RequestType, Backtrace)>,
                             t: ThreadId, kind: RequestType, trace: Backtrace)
  {
    && t in after && after[t].0 == kind
    && (t in before && before[t].0 == kind ==> after[t] == before[t])
    && (!(t in before && before[t].0 == kind) ==> after[t] == (kind, trace))
    && after - {t} == before - {t}
  }

  /** Subscribing adds `t` to the requesters and no one else. */
  lemma SubscribedKeys(before: map<ThreadId, (RequestType, Backtrace)>, after: map<ThreadId, (RequestType, Backtrace)>,
                       t: ThreadId, kind: RequestType, trace: Backtrace)
    requires Subscribed(before, after, t, kind, trace)
    ensures after.Keys == before.Keys + {t}
  {
    forall u | u != t
      ensures u in after <==> u in before
    {
      assert u in after <==> u in after - {t};
      assert u in before <==> u in before - {t};
    }
  }

  /** The threads that own an entry of `readers`. */
  ghost function Holders(readers: seq<ReaderEntry>): set<ThreadId> {
    set i | 0 <= i < |readers| :: readers[i].0
  }

  /** The index of the first entry of `readers` owned by `t`, if any. */
  function FirstIndex(readers: seq<ReaderEntry>, t: ThreadId): (r: Option<nat>)
    ensures r.None? <==> t !in Holders(readers)
    ensures r.Some? ==> r.value < |readers| && readers[r.value].0 == t
    ensures r.Some? ==> forall j :: 0 <= j < r.value ==> readers[j].0 != t
  {
    if readers == [] then None
    else if readers[0].0 == t then Some(0)
    else
      match FirstIndex(readers[1..], t)
      case None =>
        assert forall i :: 0 < i < |readers| ==> readers[i] == readers[1..][i - 1];
        None
      case Some(i) =>
        assert readers[i + 1] == readers[1..][i];
        Some(i + 1)
  }

  /** `Vec::swap_remove`: the last element takes the place of the removed one. */
  function SwapRemove<X>(s: seq<X>, i: nat): (r: seq<X>)
    requires i < |s|
    ensures |r| == |s| - 1
    ensures multiset(r) == multiset(s) - multiset{s[i]}
    ensures forall j :: 0 <= j < |r| && j != i ==> r[j] == s[j]
  {
    var last := |s| - 1;
    assert s == s[..last] + [s[last]];
    if i == last then
      s[..last]
    else
      assert s[..last] == s[..i] + [s[i]] + s[i + 1..last];
      assert s[i := s[last]][..last] == s[..i] + [s[last]] + s[i + 1..last];
      s[i := s[last]][..last]
  }

  /**
   * The readers left after `t` unlocks: its first entry, if any, is
   * swap-removed; every other entry stays.
   */
  function Released(readers: seq<ReaderEntry>, t: ThreadId): (r: seq<ReaderEntry>)
    ensures t !in Holders(readers) ==> r == readers
    ensures t in Holders(readers) ==>
      |r| == |readers| - 1 &&
      exists i :: 0 <= i < |readers| && readers[i].0 == t && multiset(r) == multiset(readers) - multiset{readers[i]}
  {
    match FirstIndex(readers, t)
    case None => readers
    case Some(i) => SwapRemove(readers, i)
  }

  /** The state of one lock: `src/lock_manager.rs`'s `LockRepresentation`. */
  class LockRepresentation {
    var writeLocked: bool
    var readers: seq<ReaderEntry>
    var requests: map<ThreadId, (RequestType, Backtrace)>

    /** A write lock has exactly one owner entry. */
    ghost predicate Valid()
      reads this
    {
      writeLocked ==> |readers| == 1
    }

    /** The requesters that are blocked: all of them under a write lock, else the writers. */
    ghost function Blockers(): set<ThreadId>
      reads this
    {
      set t | t in requests && (writeLocked || requests[t].0 == Write)
    }

    constructor ()
      ensures Valid()
      ensures !writeLocked && readers == [] && requests == map[]
    {
      writeLocked := false;
      readers := [];
      requests := map[];
    }

    /** `try_write_lock`: succeeds exactly when nobody holds the lock. */
    method TryWriteLock(t: ThreadId, trace: Backtrace) returns (ok: bool)
      requires Valid()
      modifies this
      ensures Valid()
      ensures ok <==> old(readers) == []
      ensures ok ==> writeLocked && readers == [(t, trace)] && requests == old(requests) - {t}
      ensures !ok ==> unchanged(this)
    {
      if readers == [] {
        writeLocked := true;
        readers := readers + [(t, trace)];
        Unsubscribe(t);
        ok := true;
      } else {
        ok := false;
      }
    }

    /** `unsubscribe`: drops `t`'s pending request, if any. */
    method Unsubscribe(t: ThreadId)
      modifies this
      ensures requests == old(requests) - {t}
      ensures writeLocked == old(writeLocked) && readers == old(readers)
    {
      requests := requests - {t};
    }

    /** `subscribe_write`: an existing write request of `t` is kept with its trace. */
    method SubscribeWrite(t: ThreadId, trace: Backtrace)
      modifies this
      ensures Subscribed(old(requests), requests, t, Write, trace)
      ensures writeLocked == old(writeLocked) && readers == old(readers)
    {
      if t in requests && requests[t].0 == Write {
        return;
      }
      requests := requests[t := (Write, trace)];
    }

    /** `try_read_lock`: succeeds exactly when the lock is not write-locked. */
    method TryReadLock(t: ThreadId, trace: Backtrace) returns (ok: bool)
      requires Valid()
      modifies this
      ensures Valid()
      ensures ok <==> !old(writeLocked)
      ensures ok ==> !writeLocked && readers == old(readers) + [(t, trace)] && requests == old(requests) - {t}
      ensures !ok ==> unchanged(this)
    {
      if writeLocked {
        ok := false;
      } else {
        readers := readers + [(t, trace)];
        Unsubscribe(t);
        ok := true;
      }
    }

    /** `subscribe_read`: an existing read request of `t` is kept with its trace. */
    method SubscribeRead(t: ThreadId, trace: Backtrace)
      modifies this
      ensures Subscribed(old(requests), requests, t, Read, trace)
      ensures writeLocked == old(writeLocked) && readers == old(readers)
    {
      if t in requests && requests[t].0 == Read {
        return;
      }
      requests := requests[t := (Read, trace)];
    }

    /** `unlock`: clears the write flag and swap-removes `t`'s first owner entry. */
    method Unlock(t: ThreadId)
      modifies this
      ensures Valid()
      ensures !writeLocked
      ensures readers == Released(old(readers), t)
      ensures requests == old(requests)
    {
      writeLocked := false;
      var index := FindReader(t);
      if index.Some? {
        readers := SwapRemove(readers, index.value);
      }
    }

    /** `readers.iter().position(..)` on the thread of each entry. */
    method FindReader(t: ThreadId) returns (index: Option<nat>)
      ensures index == FirstIndex(readers, t)
    {
      var i := 0;
      while i < |readers|
        invariant 0 <= i <= |readers|
        invariant forall j :: 0 <= j < i ==> readers[j].0 != t
      {
        if readers[i].0 == t {
          return Some(i);
        }
        i := i + 1;
      }
      return None;
    }
  }

  /**
   * The manager's table: `next_key` and `locks` of `LockManagerInner`, with
   * `create_lock`/`remove_lock` of `LockManager` and the analysis.
   */
  class LockManager {
    var nextKey: nat
    var locks: map<nat, LockRepresentation>

    /**
     * Every lock is in a valid state, every key was handed out already, and
     * no two keys share a representation.
     */
    ghost predicate Valid()
      reads this, locks.Values
    {
      && (forall id :: id in locks ==> locks[id].Valid())
      && (forall id :: id in locks ==> id < nextKey)
      && (forall a, b :: a in locks && b in locks && a != b ==> locks[a] != locks[b])
    }

    constructor ()
      ensures Valid()
      ensures nextKey == 0 && locks == map[]
    {
      nextKey := 0;
      locks := map[];
    }

    /** `create_lock`: hands out the current key, bumps it, and registers a free lock under it. */
    method CreateLock() returns (key: nat)
      requires Valid()
      modifies this
      ensures Valid()
      ensures key == old(nextKey) && nextKey == key + 1
      ensures key !in old(locks)
      ensures locks.Keys == old(locks.Keys) + {key}
      ensures forall id :: id in old(locks) ==> locks[id] == old(locks)[id]
      ensures fresh(locks[key])
      ensures !locks[key].writeLocked && locks[key].readers == [] && locks[key].requests == map[]
    {
      key := nextKey;
      nextKey := nextKey + 1;
      var representation := new LockRepresentation();
      locks := locks[key := representation];
    }

    /** `remove_lock`: forgets the key, whatever the state of its lock. */
    method RemoveLock(key: nat)
      requires Valid()
      modifies this
      ensures Valid()
      ensures locks == old(locks) - {key}
      ensures nextKey == old(nextKey)
    {
      locks := locks - {key};
    }

    // -------------------------------------------------------------------
    // The wait-for graph
    // -------------------------------------------------------------------

    /**
     * The edges `analyse` draws for the locks in `ids`: a lock waits for
     * each thread owning one of its reader entries, and a thread waits for
     * a lock it has a blocked request on.
     */
    ghost predicate WaitsVia(ids: set<nat>, u: DependencyNode, v: DependencyNode)
      reads this, locks.Values
    {
      match u
      case Lock(id) => v.Thread? && id in ids && id in locks && v.thread in Holders(locks[id].readers)
      case Thread(t) => v.Lock? && v.id in ids && v.id in locks && t in locks[v.id].Blockers()
    }

    ghost predicate WaitsFor(u: DependencyNode, v: DependencyNode)
      reads this, locks.Values
    {
      WaitsVia(locks.Keys, u, v)
    }

    /** Every lock of the table and every thread that owns or requests one. */
    ghost function WaitForNodes(): set<DependencyNode>
      reads this, locks.Values
    {
      (set id | id in locks :: Lock(id)) +
      (set id, i | id in locks && 0 <= i < |locks[id].readers| :: Thread(locks[id].readers[i].0)) +
      (set id, t | id in locks && t in locks[id].requests :: Thread(t))
    }

    /** The wait-for graph of the current table. */
    ghost function WaitForGraph(): map<DependencyNode, set<DependencyNode>>
      reads this, locks.Values
    {
      var nodes := WaitForNodes();
      map u | u in nodes :: set v | v in nodes && WaitsFor(u, v)
    }

    /** The edges of the wait-for graph are exactly the wait-for relation. */
    lemma WaitForEdges()
      ensures forall u, v :: Edge(WaitForGraph(), u, v) <==> WaitsFor(u, v)
    {
      var nodes := WaitForNodes();
      forall u, v | WaitsFor(u, v)
        ensures u in nodes && v in nodes
      {
        match u
        case Lock(id) =>
          var i :| 0 <= i < |locks[id].readers| && locks[id].readers[i].0 == v.thread;
          assert Thread(locks[id].readers[i].0) in nodes;
        case Thread(t) =>
          assert t in locks[v.id].requests;
      }
    }

    /**
     * The body of `analyse`'s loop for one lock: an edge to each reader,
     * then an edge from each requester that is blocked.
     */
    method AddLockEdges(graph: Graph<DependencyNode>, id: nat)
      requires id in locks
      modifies graph
      ensures Closed(old(graph.nodes)) ==> Closed(graph.nodes)
      ensures forall u, v :: Edge(graph.nodes, u, v) <==> Edge(old(graph.nodes), u, v) || WaitsVia({id}, u, v)
    {
      var representation := locks[id];
      var lockNode := Lock(id);
      ghost var before := graph.nodes;
      var i := 0;
      while i < |representation.readers|
        invariant 0 <= i <= |representation.readers|
        invariant Closed(before) ==> Closed(graph.nodes)
        invariant forall u, v :: Edge(graph.nodes, u, v) <==>
          Edge(before, u, v) ||
          (u == lockNode && v.Thread? && exists j :: 0 <= j < i && representation.readers[j].0 == v.thread)
      {
        graph.AddEdgeAndNodes(lockNode, Thread(representation.readers[i].0));
        i := i + 1;
      }
      ghost var middle := graph.nodes;
      var todo := representation.requests.Keys;
      while todo != {}
        invariant todo <= representation.requests.Keys
        invariant Closed(before) ==> Closed(graph.nodes)
        invariant forall u, v :: Edge(graph.nodes, u, v) <==>
          Edge(middle, u, v) ||
          (v == lockNode && u.Thread? && u.thread in representation.Blockers() && u.thread !in todo)
        decreases todo
      {
        var requester :| requester in todo;
        todo := todo - {requester};
        if representation.writeLocked || representation.requests[requester].0 == Write {
          graph.AddEdgeAndNodes(Thread(requester), lockNode);
        }
      }
    }

    /** The graph-building part of `analyse`: one pass over the table. */
    method BuildWaitForGraph() returns (graph: Graph<DependencyNode>)
      ensures fresh(graph)
      ensures Closed(graph.nodes)
      ensures forall u, v :: Edge(graph.nodes, u, v) <==> WaitsFor(u, v)
    {
      graph := new Graph();
      var todo := locks.Keys;
      while todo != {}
        invariant todo <= locks.Keys
        invariant fresh(graph)
        invariant Closed(graph.nodes)
        invariant forall u, v :: Edge(graph.nodes, u, v) <==> WaitsVia(locks.Keys - todo, u, v)
        decreases todo
      {
        var id :| id in todo;
        AddLockEdges(graph, id);
        todo := todo - {id};
      }
    }

    /** What a verdict for the calling thread `t` says about the current table. */
    ghost predicate Explains(t: ThreadId, v: Verdict)
      reads this, locks.Values
    {
      match v
      case NoCycle => !HasCycle(WaitForGraph())
      case Unaffected(c) => IsSimpleCycle(WaitForGraph(), c) && Thread(t) !in c
      case Reentrance(c, id, lockedAt, reentryAt) =>
        && IsSimpleCycle(WaitForGraph(), c) && Thread(t) in c && |c| == 2 && Lock(id) in c
        && id in locks && |locks[id].readers| > 0 && t in locks[id].requests
        && lockedAt == locks[id].readers[0].1 && reentryAt == locks[id].requests[t].1
      case Deadlock(c) => IsSimpleCycle(WaitForGraph(), c) && Thread(t) in c && |c| != 2
    }

    /**
     * `analyse` for the calling thread `t`: builds the wait-for graph, looks
     * for a loop and classifies it.
     */
    method Analyse(t: ThreadId) returns (v: Verdict)
      ensures Explains(t, v)
    {
      var graph := BuildWaitForGraph();
      var found := graph.FindLoop();
      WaitForEdges();
      SameEdgesSameCycles(graph.nodes, WaitForGraph());
      if found.None? {
        return NoCycle;
      }
      v := HandleDeadlock(found.value, t);
    }

    /**
     * The classification part of `handle_deadlock`: a loop that avoids `t`
     * is left alone, a loop of two nodes is a reentrance (reported with the
     * trace of the lock's first owner entry and of `t`'s request), any other
     * loop a deadlock.
     */
    method HandleDeadlock(cycle: seq<DependencyNode>, t: ThreadId) returns (v: Verdict)
      requires IsSimpleCycle(WaitForGraph(), cycle)
      ensures Explains(t, v)
      ensures v.Unaffected? <==> Thread(t) !in cycle
      ensures !v.NoCycle? && v.cycle == cycle
    {
      if Thread(t) !in cycle {
        return Unaffected(cycle);
      }
      if |cycle| != 2 {
        return Deadlock(cycle);
      }
      WaitForEdges();
      assert Edge(WaitForGraph(), cycle[0], cycle[1]) && Edge(WaitForGraph(), cycle[1], cycle[0]);
      var lockId := 0;
      match cycle[0] {
        case Lock(id) => lockId := id;
        case Thread(_) =>
          match cycle[1] {
            case Lock(id) => lockId := id;
            case Thread(_) => assert false;
          }
      }
      var representation := locks[lockId];
      var lockedAt := representation.readers[0].1;
      var reentryAt := representation.requests[t].1;
      return Reentrance(cycle, lockId, lockedAt, reentryAt);
    }
  
    /**
     * Every wait-for edge joins a lock and a thread, so lock and thread nodes
     * alternate along a loop and every loop has even length.
     */
    lemma {:induction false} WaitForCycleIsEven(c: seq<DependencyNode>)
      requires IsSimpleCycle(WaitForGraph(), c)
      ensures forall i :: 0 <= i < |c| ==> c[i].Lock? == (c[0].Lock? == (i % 2 == 0))
      ensures |c| % 2 == 0
    {
      WaitForEdges();
      var i := 0;
      while i < |c| - 1
        invariant 0 <= i <= |c| - 1
        invariant forall j :: 0 <= j <= i ==> c[j].Lock? == (c[0].Lock? == (j % 2 == 0))
      {
        assert WaitsFor(c[i], c[i + 1]);
        i := i + 1;
      }
      assert WaitsFor(c[|c| - 1], c[0]);
    }

    /**
     * A deadlock, as opposed to a reentrance, runs through two distinct
     * locks and two distinct threads: the loop alternates kinds and has
     * even length of at least four.
     */
    lemma DeadlockCycleLength(t: ThreadId, c: seq<DependencyNode>)
      requires Explains(t, Deadlock(c))
      ensures |c| >= 4 && |c| % 2 == 0
      ensures c[0].Lock? == c[2].Lock? && c[1].Lock? == c[3].Lock? && c[0].Lock? != c[1].Lock?
      ensures c[0] != c[2] && c[1] != c[3]
    {
      WaitForCycleIsEven(c);
    }

    /**
     * A reentrance is `t` waiting for a lock it owns itself; when that lock
     * is write-locked, the reported "lock taken at" trace is `t`'s own.
     */
    lemma ReentranceIsSelfWait(t: ThreadId, c: seq<DependencyNode>, id: nat, lockedAt: Backtrace, reentryAt: Backtrace)
      requires Valid()
      requires Explains(t, Reentrance(c, id, lockedAt, reentryAt))
      ensures c == [Lock(id), Thread(t)] || c == [Thread(t), Lock(id)]
      ensures t in Holders(locks[id].readers) && t in locks[id].Blockers()
      ensures locks[id].writeLocked ==> locks[id].readers == [(t, lockedAt)]
    {
      WaitForEdges();
      assert WaitsFor(c[0], c[1]) && WaitsFor(c[1], c[0]);
      if locks[id].writeLocked {
        assert locks[id].Valid();
      }
    }
  }
}
