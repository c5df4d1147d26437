/** Dependency graphs: node i lists in g[i] the nodes it depends on (duplicates allowed). */
module Graph {

  type Graph = seq<seq<nat>>

  ghost predicate InRange(g: Graph) {
    forall x, t :: 0 <= x < |g| && 0 <= t < |g[x]| ==> g[x][t] < |g|
  }

  /** p[0] depends on p[1], ..., and the last node depends on p[0] again. */
  ghost predicate IsCycle(g: Graph, p: seq<nat>) {
    && |p| > 0
    && IsWalk(g, p)
    && p[0] in g[p[|p| - 1]]
  }

  ghost predicate IsWalk(g: Graph, p: seq<nat>) {
    && (forall t :: 0 <= t < |p| ==> p[t] < |g|)
    && (forall t :: 0 <= t < |p| - 1 ==> p[t + 1] in g[p[t]])
  }

  ghost predicate Acyclic(g: Graph) {
    forall p :: !IsCycle(g, p)
  }

  ghost predicate Distinct(s: seq<nat>) {
    forall a, b :: 0 <= a < b < |s| ==> s[a] != s[b]
  }

  ghost predicate Below(s: seq<nat>, n: nat) {
    forall a :: 0 <= a < |s| ==> s[a] < n
  }

  /** Every node of `order` comes after all the nodes it depends on. */
  ghost predicate DepsFirst(g: Graph, order: seq<nat>) {
    && Below(order, |g|)
    && forall a, d :: 0 <= a < |order| && d in g[order[a]] ==> d in order[..a]
  }

  /** A topological order: a permutation of the nodes with dependencies first. */
  ghost predicate IsOrder(g: Graph, order: seq<nat>) {
    && |order| == |g| && Distinct(order)
    && (forall x: nat :: x < |g| ==> x in order)
    && DepsFirst(g, order)
  }

  // ---------------------------------------------------------------- counting

  /** More than n numbers below n repeat one of them. */
  lemma {:induction false} Pigeonhole(s: seq<nat>, n: nat)
    requires Below(s, n) && |s| > n
    ensures !Distinct(s)
  {
    var first := s[0];
    if Distinct(s) {
      if k: nat :| k < |s| && s[k] == n - 1 {
        var t := s[..k] + s[k + 1..];
        assert Below(t, n - 1) && Distinct(t);
        Pigeonhole(t, n - 1);
      } else {
        assert Below(s[1..], n - 1);
        Pigeonhole(s[1..], n - 1);
      }
    }
  }

  /** n different numbers below n are all of them. */
  lemma Full(s: seq<nat>, n: nat, x: nat)
    requires Below(s, n) && Distinct(s) && |s| == n && x < n
    ensures x in s
  {
    if x !in s {
      Pigeonhole(s + [x], n);
    }
  }

  /** Fewer than n numbers miss one below n. */
  lemma {:induction false} Missing(s: seq<nat>, n: nat) returns (x: nat)
    requires |s| < n
    ensures x < n && x !in s
  {
    if n - 1 !in s {
      x := n - 1;
    } else {
      var k: nat :| k < |s| && s[k] == n - 1;
      var t := s[..k] + s[k + 1..];
      x := Missing(t, n - 1);
      forall j | 0 <= j < |s| && j != k ensures s[j] != x {
        assert t[if j < k then j else j - 1] == s[j];
      }
    }
  }

  // ---------------------------------------------------------------- orders and cycles

  /** A topological order excludes cycles: positions drop along every dependency. */
  lemma OrderExcludesCycles(g: Graph, order: seq<nat>)
    requires IsOrder(g, order)
    ensures InRange(g) && Acyclic(g)
  {
    forall x, t | 0 <= x < |g| && 0 <= t < |g[x]|
      ensures g[x][t] < |g|
    {
      var a := Position(order, x);
      assert g[order[a]][t] in order[..a];
    }
    forall p | IsCycle(g, p)
      ensures false
    {
      var a := Position(order, p[0]);
      PositionsDrop(g, order, p, |p| - 1);
      var z := Position(order, p[|p| - 1]);
      assert order[z] == p[|p| - 1];
      DependencyEarlier(g, order, p[|p| - 1], p[0]);
    }
  }

  ghost function Position(order: seq<nat>, x: nat): (a: nat)
    requires x in order
    ensures a < |order| && order[a] == x
  {
    var a: nat :| a < |order| && order[a] == x;
    a
  }

  lemma DependencyEarlier(g: Graph, order: seq<nat>, x: nat, d: nat)
    requires IsOrder(g, order) && x < |g| && d in g[x]
    ensures d < |g| && Position(order, d) < Position(order, x)
  {
    var a := Position(order, x);
    assert d in order[..a];
    var b: nat :| b < a && order[b] == d;
    assert Position(order, d) == b;
  }

  lemma {:induction false} PositionsDrop(g: Graph, order: seq<nat>, p: seq<nat>, t: nat)
    requires IsOrder(g, order) && IsWalk(g, p) && t < |p|
    ensures Position(order, p[t]) + t <= Position(order, p[0])
  {
    if t > 0 {
      PositionsDrop(g, order, p, t - 1);
      DependencyEarlier(g, order, p[t - 1], p[t]);
    }
  }

  /** x waits for another node of the set. */
  ghost predicate Blocked(g: Graph, waiting: set<nat>, x: nat) {
    x < |g| && exists d :: d in g[x] && d in waiting
  }

  /** Nodes that all wait for one another contain a cycle. */
  lemma StuckHasCycle(g: Graph, waiting: set<nat>, start: nat)
    requires start in waiting && forall x :: x in waiting ==> Blocked(g, waiting, x)
    ensures !Acyclic(g)
  {
    hide IsWalk, IsCycle, Blocked;
    var walk := LongWalk(g, waiting, start, |g|);
    WalkBelow(g, walk);
    Pigeonhole(walk, |g|);
    var a, b :| 0 <= a < b < |walk| && walk[a] == walk[b];
    LoopIsCycle(g, walk, a, b);
  }

  lemma WalkBelow(g: Graph, walk: seq<nat>)
    requires IsWalk(g, walk)
    ensures Below(walk, |g|)
  {
  }

  lemma LoopIsCycle(g: Graph, walk: seq<nat>, a: nat, b: nat)
    requires IsWalk(g, walk) && a < b < |walk| && walk[a] == walk[b]
    ensures IsCycle(g, walk[a..b])
  {
    var p := walk[a..b];
    forall t | 0 <= t < |p| - 1
      ensures p[t + 1] in g[p[t]]
    {
      assert walk[a + t + 1] in g[walk[a + t]];
    }
    assert p[|p| - 1] == walk[b - 1] && walk[b - 1 + 1] in g[walk[b - 1]];
  }

  lemma {:induction false} LongWalk(g: Graph, waiting: set<nat>, start: nat, steps: nat) returns (walk: seq<nat>)
    requires start in waiting && forall x :: x in waiting ==> Blocked(g, waiting, x)
    ensures |walk| == steps + 1 && IsWalk(g, walk)
    ensures forall t :: 0 <= t < |walk| ==> walk[t] in waiting
  {
    if steps == 0 {
      walk := [start];
      assert Blocked(g, waiting, start);
    } else {
      hide IsWalk, Blocked;
      var before := LongWalk(g, waiting, start, steps - 1);
      var d := WaitsFor(g, waiting, before[|before| - 1]);
      assert Blocked(g, waiting, d);
      WalkOn(g, waiting, before, d);
      walk := before + [d];
    }
  }

  lemma WaitsFor(g: Graph, waiting: set<nat>, x: nat) returns (d: nat)
    requires Blocked(g, waiting, x)
    ensures x < |g| && d in g[x] && d in waiting
  {
    d :| d in g[x] && d in waiting;
  }

  lemma WalkOn(g: Graph, waiting: set<nat>, walk: seq<nat>, d: nat)
    requires IsWalk(g, walk) && walk != [] && walk[|walk| - 1] < |g| && d in g[walk[|walk| - 1]]
    requires Blocked(g, waiting, d)
    ensures IsWalk(g, walk + [d])
  {
    var more := walk + [d];
    forall t | 0 <= t < |more| - 1
      ensures more[t + 1] in g[more[t]]
    {
      if t + 1 < |walk| {
        assert walk[t + 1] in g[walk[t]];
      }
    }
  }

  // ---------------------------------------------------------------- depth

  /** Longest-path depth: 0 without dependencies, else one more than the deepest of them. */
  ghost predicate IsDepth(g: Graph, depth: seq<nat>) {
    && |depth| == |g| && InRange(g)
    && forall x :: 0 <= x < |g| ==> DepthAt(g, depth, x)
  }

  ghost predicate DepthAt(g: Graph, depth: seq<nat>, x: nat)
    requires |depth| == |g| && InRange(g) && x < |g|
  {
    && (g[x] == [] ==> depth[x] == 0)
    && (forall d :: d in g[x] ==> depth[d] < depth[x])
    && (g[x] != [] ==> exists d :: d in g[x] && depth[x] == depth[d] + 1)
  }

  /** No node overtakes one whose dependencies were finished earlier: wherever a node's
      dependency sits, every later node has a dependency at least as late. */
  ghost predicate Fifo(g: Graph, order: seq<nat>) {
    && Below(order, |g|)
    && forall a, b, p :: 0 <= a < b < |order| && 0 <= p < |order| && order[p] in g[order[a]] ==>
         exists r :: p <= r < b && order[r] in g[order[b]]
  }

  /** A first-in-first-out topological order visits the nodes by non-decreasing depth. */
  lemma {:induction false} FifoByDepth(g: Graph, order: seq<nat>, depth: seq<nat>, a: nat, b: nat)
    requires IsOrder(g, order) && Fifo(g, order) && IsDepth(g, depth) && a <= b < |order|
    ensures depth[order[a]] <= depth[order[b]]
    decreases b
  {
    assert order[a] < |g| && order[b] < |g|;
    var x, y := order[a], order[b];
    assert DepthAt(g, depth, x) && DepthAt(g, depth, y);
    hide IsOrder, Fifo, IsDepth;
    if a < b {
      if g[x] != [] {
        var d :| d in g[x] && depth[x] == depth[d] + 1;
        var r := LaterDependency(g, order, a, b, d);
        FifoByDepth(g, order, depth, Position(order, d), r);
      }
    }
  }

  lemma LaterDependency(g: Graph, order: seq<nat>, a: nat, b: nat, d: nat) returns (r: nat)
    requires IsOrder(g, order) && Fifo(g, order) && a < b < |order| && d in g[order[a]]
    ensures d in order && Position(order, d) <= r < b && order[r] in g[order[b]]
  {
    assert d in order[..a];
    var p := Position(order, d);
    r :| p <= r < b && order[r] in g[order[b]];
  }

  /** Depths exist, level by level along any topological order. */
  lemma {:induction false} DepthExists(g: Graph, order: seq<nat>) returns (depth: seq<nat>)
    requires IsOrder(g, order)
    ensures IsDepth(g, depth)
  {
    OrderExcludesCycles(g, order);
    depth := DepthPrefix(g, order, |order|);
    forall x | 0 <= x < |g|
      ensures DepthAt(g, depth, x)
    {
      assert order[..|order|] == order && x in order;
    }
  }

  lemma {:induction false} DepthPrefix(g: Graph, order: seq<nat>, n: nat) returns (depth: seq<nat>)
    requires IsOrder(g, order) && InRange(g) && n <= |order|
    ensures |depth| == |g| && forall x :: x in order[..n] ==> DepthAt(g, depth, x)
  {
    if n == 0 {
      depth := seq(|g|, _ => 0);
    } else {
      var before := DepthPrefix(g, order, n - 1);
      var x := order[n - 1];
      var level := Deepest(before, g[x]);
      depth := before[x := level];
      forall y | y in order[..n]
        ensures DepthAt(g, depth, y)
      {
        DependenciesBefore(g, order, n, y);
        if y != x {
          assert y in order[..n - 1];
          assert DepthAt(g, before, y);
        }
      }
    }
  }

  /** The dependencies of the first n nodes of an order are among the first n - 1. */
  lemma DependenciesBefore(g: Graph, order: seq<nat>, n: nat, y: nat)
    requires IsOrder(g, order) && 0 < n <= |order| && y in order[..n]
    ensures y < |g| && forall d :: d in g[y] ==> d != order[n - 1] && d in order[..n - 1]
  {
    var a: nat :| a < n && order[a] == y;
    forall d | d in g[y]
      ensures d != order[n - 1] && d in order[..n - 1]
    {
      assert d in order[..a];
      var b: nat :| b < a && order[b] == d;
      assert order[b] != order[n - 1];
    }
  }

  lemma {:induction false} Deepest(depth: seq<nat>, deps: seq<nat>) returns (level: nat)
    requires Below(deps, |depth|)
    ensures deps == [] ==> level == 0
    ensures forall d :: d in deps ==> depth[d] < level
    ensures deps != [] ==> exists d :: d in deps && level == depth[d] + 1
  {
    if deps == [] {
      level := 0;
    } else {
      var rest := Deepest(depth, deps[1..]);
      var first := depth[deps[0]] + 1;
      level := if rest < first then first else rest;
      assert deps[0] in deps;
      if rest >= first && deps[1..] != [] {
        var d :| d in deps[1..] && rest == depth[d] + 1;
        assert d in deps;
      }
    }
  }
}
