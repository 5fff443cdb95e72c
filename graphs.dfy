/**
 * The directed graph of `src/graphs.rs`: a map from each node to the set of
 * its successors, and the exhaustive backtracking search that finds a loop.
 */
module Graphs {
  import opened Options

  // ---------------------------------------------------------------------
  // Paths and cycles of a successor map
  // ---------------------------------------------------------------------

  /** `u -> v` is an edge of the successor map `g`. */
  ghost predicate Edge<N>(g: map<N, set<N>>, u: N, v: N) {
    u in g && v in g[u]
  }

  /** Every successor is itself a node, so the search can look it up. */
  ghost predicate Closed<N(!new)>(g: map<N, set<N>>) {
    forall u, v :: Edge(g, u, v) ==> v in g
  }

  ghost predicate Distinct<N>(s: seq<N>) {
    forall i, j :: 0 <= i < j < |s| ==> s[i] != s[j]
  }

  /** A non-empty path of nodes of `g`, following edges, visiting no node twice. */
  ghost predicate IsSimplePath<N>(g: map<N, set<N>>, p: seq<N>) {
    && |p| > 0
    && (forall i :: 0 <= i < |p| ==> p[i] in g)
    && (forall i :: 0 <= i < |p| - 1 ==> Edge(g, p[i], p[i + 1]))
    && Distinct(p)
  }

  /** A simple path whose last node has an edge back to its first. */
  ghost predicate IsSimpleCycle<N>(g: map<N, set<N>>, c: seq<N>) {
    IsSimplePath(g, c) && Edge(g, c[|c| - 1], c[0])
  }

  ghost predicate HasCycle<N(!new)>(g: map<N, set<N>>) {
    exists c :: IsSimpleCycle(g, c)
  }

  /** No successor of the last node of `p` lies on `p`. */
  ghost predicate DeadEnd<N>(g: map<N, set<N>>, p: seq<N>) {
    |p| > 0 && p[|p| - 1] in g && forall s :: s in g[p[|p| - 1]] ==> s !in p
  }

  /**
   * The search from `h` is over without a loop: every simple path that
   * extends `h` ends in a dead end.
   */
  ghost predicate Exhausted<N(!new)>(g: map<N, set<N>>, h: seq<N>) {
    forall p :: IsSimplePath(g, p) && h <= p ==> DeadEnd(g, p)
  }

  /** A simple path is never longer than the node count: the search's depth bound. */
  lemma {:induction false} SimplePathBound<N>(s: seq<N>, nodes: set<N>)
    requires Distinct(s)
    requires forall i :: 0 <= i < |s| ==> s[i] in nodes
    ensures |s| <= |nodes|
  {
    if |s| > 0 {
      var rest := nodes - {s[0]};
      forall i | 0 <= i < |s[1..]|
        ensures s[1..][i] in rest
      {
        assert s[1..][i] == s[i + 1] && s[i + 1] != s[0];
      }
      SimplePathBound(s[1..], rest);
    }
  }

  /** A graph whose edges all strictly decrease a rank has no cycle. */
  lemma RankedGraphIsAcyclic<N(!new)>(g: map<N, set<N>>, rank: N -> nat)
    requires forall u, v :: Edge(g, u, v) ==> rank(v) < rank(u)
    ensures !HasCycle(g)
  {
    if c :| IsSimpleCycle(g, c) {
      var i := 0;
      while i < |c| - 1
        invariant 0 <= i <= |c| - 1
        invariant rank(c[i]) + i <= rank(c[0])
      {
        assert Edge(g, c[i], c[i + 1]);
        i := i + 1;
      }
    }
  }

  /** A search started at a node of a cycle is not exhausted: the cycle itself closes a loop. */
  lemma CycleIsNotExhausted<N(!new)>(g: map<N, set<N>>, c: seq<N>)
    requires IsSimpleCycle(g, c)
    ensures !Exhausted(g, [c[0]])
  {
    assert [c[0]] <= c;
    assert !DeadEnd(g, c) by {
      assert c[0] in g[c[|c| - 1]] && c[0] in c;
    }
  }

  /** Two successor maps with the same edges have the same cycles. */
  lemma SameEdgesSameCycles<N(!new)>(g: map<N, set<N>>, h: map<N, set<N>>)
    requires forall u, v :: Edge(g, u, v) <==> Edge(h, u, v)
    ensures forall c :: IsSimpleCycle(g, c) <==> IsSimpleCycle(h, c)
    ensures HasCycle(g) <==> HasCycle(h)
  {
    forall c | IsSimpleCycle(g, c) ensures IsSimpleCycle(h, c) {
      CycleOnEdges(h, c);
    }
    forall c | IsSimpleCycle(h, c) ensures IsSimpleCycle(g, c) {
      CycleOnEdges(g, c);
    }
  }

  /** A duplicate-free sequence whose consecutive pairs and wrap-around pair are edges is a cycle. */
  lemma CycleOnEdges<N>(g: map<N, set<N>>, c: seq<N>)
    requires |c| > 0 && Distinct(c)
    requires forall i :: 0 <= i < |c| - 1 ==> Edge(g, c[i], c[i + 1])
    requires Edge(g, c[|c| - 1], c[0])
    ensures IsSimpleCycle(g, c)
  {
    forall i | 0 <= i < |c| ensures c[i] in g {
      if i < |c| - 1 { assert Edge(g, c[i], c[i + 1]); }
    }
  }

  // ---------------------------------------------------------------------
  // The graph object
  // ---------------------------------------------------------------------

  class Graph<N(==, !new)> {
    var nodes: map<N, set<N>>

    /** `Graph::new`: no nodes. */
    constructor ()
      ensures nodes == map[]
    {
      nodes := map[];
    }

    /** `add_node`: inserts an empty successor set only when `node` is absent. */
    method AddNode(node: N)
      modifies this
      ensures nodes.Keys == old(nodes.Keys) + {node}
      ensures forall n :: n in old(nodes) ==> nodes[n] == old(nodes)[n]
      ensures node !in old(nodes) ==> nodes[node] == {}
      ensures Closed(old(nodes)) ==> Closed(nodes)
    {
      if node !in nodes {
        nodes := nodes[node := {}];
        assert forall u, v :: Edge(nodes, u, v) ==> Edge(old(nodes), u, v);
      }
    }

    /** `add_edge`: `from` must already be a node (the source unwraps it); `to` is not added as a node. */
    method AddEdge(from: N, to: N)
      requires from in nodes
      modifies this
      ensures nodes.Keys == old(nodes.Keys)
      ensures forall u, v :: Edge(nodes, u, v) <==> Edge(old(nodes), u, v) || (u == from && v == to)
      ensures to in old(nodes) && Closed(old(nodes)) ==> Closed(nodes)
    {
      nodes := nodes[from := nodes[from] + {to}];
    }

    /** `add_edge_and_nodes`: adds both endpoints as nodes, then the edge. */
    method AddEdgeAndNodes(from: N, to: N)
      modifies this
      ensures nodes.Keys == old(nodes.Keys) + {from, to}
      ensures forall u, v :: Edge(nodes, u, v) <==> Edge(old(nodes), u, v) || (u == from && v == to)
      ensures Closed(old(nodes)) ==> Closed(nodes)
    {
      if to !in nodes {
        nodes := nodes[to := {}];
      }
      if from !in nodes {
        nodes := nodes[from := {to}];
      } else {
        nodes := nodes[from := nodes[from] + {to}];
      }
    }

    /**
     * `find_loop`: tries every node as a start, in the map's (unspecified)
     * order. The loop found is a simple cycle, and none is found only when
     * the graph has no cycle at all.
     */
    method FindLoop() returns (r: Option<seq<N>>)
      requires Closed(nodes)
      ensures r.Some? ==> IsSimpleCycle(nodes, r.value)
      ensures r.None? <==> !HasCycle(nodes)
    {
      var history: seq<N> := [];
      var todo := nodes.Keys;
      while todo != {}
        invariant todo <= nodes.Keys
        invariant history == []
        invariant forall x :: x in nodes.Keys - todo ==> Exhausted(nodes, [x])
        decreases todo
      {
        var node :| node in todo;
        todo := todo - {node};
        history := history + [node];
        var found;
        found, history := LoopBacktracker(history);
        if found {
          return Some(history);
        }
        history := history[..|history| - 1];
      }
      forall c | IsSimpleCycle(nodes, c)
        ensures !Exhausted(nodes, [c[0]])
      {
        CycleIsNotExhausted(nodes, c);
      }
      return None;
    }

    /**
     * `loop_backtracker`: extends the path `history` one successor at a time.
     * A successor already on the path closes a loop: the path is rotated to
     * start there and cut to the loop. Otherwise the path is extended and the
     * search recurses; a failed branch is popped again, so on failure the
     * path is what it was on entry.
     */
    method LoopBacktracker(history: seq<N>) returns (found: bool, after: seq<N>)
      requires Closed(nodes)
      requires IsSimplePath(nodes, history)
      ensures found ==> IsSimpleCycle(nodes, after)
      ensures !found ==> after == history && Exhausted(nodes, history)
      decreases |nodes.Keys| - |history|
    {
      SimplePathBound(history, nodes.Keys);
      after := history;
      var current := after[|after| - 1];
      var successors := nodes[current];
      var todo := successors;
      while todo != {}
        invariant todo <= successors
        invariant after == history
        invariant forall s :: s in successors - todo ==> s !in history && Exhausted(nodes, history + [s])
        decreases todo
      {
        var node :| node in todo;
        todo := todo - {node};
        var position := Position(after, node);
        if position.Some? {
          var start := position.value;
          after := RotateAndCut(after, start);
          assert after == history[start..];
          ClosedLoop(history, start);
          return true, after;
        }
        assert Edge(nodes, current, node);
        after := after + [node];
        found, after := LoopBacktracker(after);
        if found {
          return true, after;
        }
        after := after[..|after| - 1];
        assert after == history;
      }
      forall p | IsSimplePath(nodes, p) && history <= p
        ensures DeadEnd(nodes, p)
      {
        if |p| > |history| {
          var n := p[|history|];
          assert p[|history| - 1] == current;
          assert Edge(nodes, current, n);
          assert history + [n] <= p;
        } else {
          assert p == history;
        }
      }
      return false, history;
    }

    /** The suffix of a simple path that starts at a successor of its last node is a cycle. */
    lemma ClosedLoop(path: seq<N>, start: nat)
      requires IsSimplePath(nodes, path)
      requires start < |path| && path[start] in nodes[path[|path| - 1]]
      ensures IsSimpleCycle(nodes, path[start..])
    {
      var c := path[start..];
      forall i | 0 <= i < |c| - 1 ensures Edge(nodes, c[i], c[i + 1]) {
        assert c[i] == path[start + i] && c[i + 1] == path[start + i + 1];
      }
    }
  }

  /** `history.iter().position(..)`: the first index holding `x`, if any. */
  method Position<N(==)>(s: seq<N>, x: N) returns (r: Option<nat>)
    ensures r.Some? ==> r.value < |s| && s[r.value] == x && x !in s[..r.value]
    ensures r.None? <==> x !in s
  {
    var i := 0;
    while i < |s|
      invariant 0 <= i <= |s|
      invariant x !in s[..i]
    {
      if s[i] == x {
        return Some(i);
      }
      i := i + 1;
    }
    return None;
  }

  /**
   * `history.rotate_left(start)` followed by `start` pops: what is left is
   * the suffix that starts at index `start`.
   */
  method RotateAndCut<N>(s: seq<N>, start: nat) returns (r: seq<N>)
    requires start <= |s|
    ensures r == s[start..]
  {
    r := s[start..] + s[..start];
    var k := 0;
    while k < start
      invariant 0 <= k <= start
      invariant r == s[start..] + s[..start - k]
    {
      r := r[..|r| - 1];
      k := k + 1;
    }
  }
}
