/** The command graph of src/dxgraph/dxgraph.cpp: nodes with dependencies, compiled by
    Kahn's algorithm with a first-in-first-out queue. */
module CommandGraphs {
  import opened Graph

  datatype Node<F> = Node(id: nat, name: string, func: F, dependencies: seq<nat>)

  datatype Status = Ok | InvalidDependency | ContainsCycle

  /** The dependency lists of the nodes. */
  function DepsOf<F>(nodes: seq<Node<F>>): (g: Graph)
    ensures |g| == |nodes|
  {
    seq(|nodes|, i requires 0 <= i < |nodes| => nodes[i].dependencies)
  }

  // ---------------------------------------------------------------- in-degrees

  /** Dependencies not done yet, counted with repetition. */
  function Pending(deps: seq<nat>, done: seq<nat>): nat {
    if deps == [] then 0 else (if deps[0] in done then 0 else 1) + Pending(deps[1..], done)
  }

  lemma {:induction false} PendingStart(deps: seq<nat>)
    ensures Pending(deps, []) == |deps|
  {
    if deps != [] {
      PendingStart(deps[1..]);
    }
  }

  lemma {:induction false} PendingNone(deps: seq<nat>, done: seq<nat>)
    ensures Pending(deps, done) == 0 <==> forall d :: d in deps ==> d in done
  {
    if deps != [] {
      PendingNone(deps[1..], done);
      assert deps == [deps[0]] + deps[1..];
    }
  }

  lemma {:induction false} PendingStep(deps: seq<nat>, done: seq<nat>, id: nat)
    requires id !in done
    ensures Pending(deps, done) == Pending(deps, done + [id]) + multiset(deps)[id]
  {
    if deps != [] {
      PendingStep(deps[1..], done, id);
      assert deps == [deps[0]] + deps[1..];
      assert multiset(deps) == multiset{deps[0]} + multiset(deps[1..]);
    }
  }

  /** adj[d] lists, with repetition, the nodes that depend on d; inDegree counts
      dependencies.  Here for the first i nodes and the first t dependencies of node i. */
  ghost predicate Reversed(g: Graph, adj: seq<seq<nat>>, inDegree: seq<nat>, i: nat, t: nat)
    requires i <= |g| && t <= if i < |g| then |g[i]| else 0
  {
    && |adj| == |inDegree| == |g|
    && (forall d :: 0 <= d < |g| ==> Below(adj[d], |g|))
    && (forall x :: 0 <= x < |g| ==> inDegree[x] == |SeenDeps(g, i, t, x)|)
    && (forall d, x :: 0 <= d < |g| && 0 <= x < |g| ==>
          multiset(adj[d])[x] == multiset(SeenDeps(g, i, t, x))[d])
  }

  function SeenDeps(g: Graph, i: nat, t: nat, x: nat): (s: seq<nat>)
    requires i <= |g| && x < |g| && t <= if i < |g| then |g[i]| else 0
  {
    if x < i then g[x] else if x == i then g[x][..t] else []
  }

  // ---------------------------------------------------------------- the queue

  /** State of the main loop.  `rest` is what is left of the adjacency list of the node
      popped last. */
  ghost predicate Progress(g: Graph, inDegree: seq<nat>, order: seq<nat>, ready: seq<nat>, rest: seq<nat>) {
    && |inDegree| == |g|
    && (forall x :: 0 <= x < |g| ==> inDegree[x] == Pending(g[x], order) + multiset(rest)[x])
    && (forall x :: 0 <= x < |g| ==> (inDegree[x] == 0 <==> x in order + ready))
    && Distinct(order + ready) && Below(order + ready, |g|)
    && DepsFirst(g, order)
    && Queued(g, order, order + ready)
  }

  /** The first-in-first-out property, for the nodes already popped and those queued. */
  ghost predicate Queued(g: Graph, order: seq<nat>, all: seq<nat>)
    requires Below(all, |g|)
  {
    forall a, b, p :: 0 <= a < b < |all| && 0 <= p < |order| && order[p] in g[all[a]] ==>
      exists r :: p <= r < |order| && r < b && order[r] in g[all[b]]
  }

  /** A released node has all its dependencies done. */
  lemma ReleasedDepsDone(g: Graph, inDegree: seq<nat>, order: seq<nat>, ready: seq<nat>, rest: seq<nat>, x: nat)
    requires Progress(g, inDegree, order, ready, rest) && x in order + ready
    ensures x < |g| && forall d :: d in g[x] ==> d in order
  {
    PendingNone(g[x], order);
  }

  lemma PopKeeps(g: Graph, inDegree: seq<nat>, order: seq<nat>, ready: seq<nat>, next: seq<nat>)
    requires Progress(g, inDegree, order, ready, []) && ready != []
    requires forall x :: 0 <= x < |g| ==> multiset(next)[x] == multiset(g[x])[ready[0]]
    ensures Progress(g, inDegree, order + [ready[0]], ready[1..], next)
  {
    PopDistinct(g, inDegree, order, ready);
    hide Queued, DepsFirst, Distinct, Below;
    var id := ready[0];
    var order' := order + [id];
    assert order' + ready[1..] == order + ready;
    forall x | 0 <= x < |g|
      ensures inDegree[x] == Pending(g[x], order') + multiset(next)[x]
    {
      PendingStep(g[x], order, id);
    }
    PopDepsFirst(g, inDegree, order, ready);
    PopQueued(g, inDegree, order, ready);
  }

  lemma PopDistinct(g: Graph, inDegree: seq<nat>, order: seq<nat>, ready: seq<nat>)
    requires Progress(g, inDegree, order, ready, []) && ready != []
    ensures forall a :: 0 <= a < |order| ==> order[a] != ready[0]
    ensures ready[0] < |g|
  {
    hide Queued, DepsFirst;
    var all := order + ready;
    assert all[|order|] == ready[0];
    forall a | 0 <= a < |order| ensures order[a] != ready[0] {
      assert all[a] == order[a] && all[a] != all[|order|];
    }
  }

  lemma PopDepsFirst(g: Graph, inDegree: seq<nat>, order: seq<nat>, ready: seq<nat>)
    requires Progress(g, inDegree, order, ready, []) && ready != []
    ensures DepsFirst(g, order + [ready[0]])
  {
    var order' := order + [ready[0]];
    assert (order + ready)[|order|] == ready[0];
    forall a, d | 0 <= a < |order'| && d in g[order'[a]]
      ensures d in order'[..a]
    {
      if a < |order| {
        assert order'[..a] == order[..a];
      } else {
        ReleasedDepsDone(g, inDegree, order, ready, [], ready[0]);
        assert order'[..a] == order;
      }
    }
  }

  lemma PopQueued(g: Graph, inDegree: seq<nat>, order: seq<nat>, ready: seq<nat>)
    requires Progress(g, inDegree, order, ready, []) && ready != [] && ready[0] !in order
    ensures Queued(g, order + [ready[0]], order + ready)
  {
    var all, order' := order + ready, order + [ready[0]];
    forall a, b, p | 0 <= a < b < |all| && 0 <= p < |order'| && order'[p] in g[all[a]]
      ensures exists r :: p <= r < |order'| && r < b && order'[r] in g[all[b]]
    {
      assert all[a] in all;
      ReleasedDepsDone(g, inDegree, order, ready, [], all[a]);
      assert p < |order| && order[p] in g[all[a]];
      var r :| p <= r < |order| && r < b && order[r] in g[all[b]];
      assert order'[r] == order[r];
    }
  }

  /** One turn of the inner loop: node x = rest[0] loses one pending dependency, and is
      queued when it has none left. */
  lemma DropKeeps(g: Graph, inDegree: seq<nat>, order: seq<nat>, ready: seq<nat>, rest: seq<nat>)
    requires Progress(g, inDegree, order, ready, rest) && rest != [] && Below(rest, |g|)
    requires order != [] && order[|order| - 1] in g[rest[0]]
    ensures inDegree[rest[0]] > 0
    ensures var x := rest[0];
      var less := inDegree[x := inDegree[x] - 1];
      Progress(g, less, order, if less[x] == 0 then ready + [x] else ready, rest[1..])
  {
    hide Queued, DepsFirst;
    var x := rest[0];
    var less := inDegree[x := inDegree[x] - 1];
    PendingCounts(g, inDegree, order, rest);
    if less[x] == 0 {
      PushQueued(g, order, ready, x);
    }
  }

  lemma PendingCounts(g: Graph, inDegree: seq<nat>, order: seq<nat>, rest: seq<nat>)
    requires |inDegree| == |g| && rest != [] && rest[0] < |g|
    requires forall x :: 0 <= x < |g| ==> inDegree[x] == Pending(g[x], order) + multiset(rest)[x]
    ensures inDegree[rest[0]] > 0
    ensures var less := inDegree[rest[0] := inDegree[rest[0]] - 1];
      forall x :: 0 <= x < |g| ==> less[x] == Pending(g[x], order) + multiset(rest[1..])[x]
  {
    assert multiset(rest) == multiset{rest[0]} + multiset(rest[1..]) by {
      assert rest == [rest[0]] + rest[1..];
    }
  }

  /** A node queued now depends on the node popped last, which no other dependency follows. */
  lemma PushQueued(g: Graph, order: seq<nat>, ready: seq<nat>, x: nat)
    requires Below(order + ready, |g|) && x < |g| && Queued(g, order, order + ready)
    requires order != [] && order[|order| - 1] in g[x]
    ensures order + (ready + [x]) == order + ready + [x]
    ensures Below(order + ready + [x], |g|) && Queued(g, order, order + ready + [x])
  {
    var all := order + ready;
    forall a, b, p | 0 <= a < b < |all + [x]| && 0 <= p < |order| && order[p] in g[(all + [x])[a]]
      ensures exists r :: p <= r < |order| && r < b && order[r] in g[(all + [x])[b]]
    {
      if b == |all| {
        assert order[|order| - 1] in g[(all + [x])[b]];
      } else {
        assert order[p] in g[all[a]];
        var r :| p <= r < |order| && r < b && order[r] in g[all[b]];
      }
    }
  }

  /** The queue ran dry with everything popped: the order is complete. */
  lemma DryComplete(g: Graph, inDegree: seq<nat>, order: seq<nat>)
    requires Progress(g, inDegree, order, [], []) && |order| == |g|
    ensures IsOrder(g, order) && Fifo(g, order)
  {
    hide Queued, DepsFirst;
    assert order + [] == order;
    forall x: nat | x < |g| ensures x in order {
      Full(order, |g|, x);
    }
    QueuedIsFifo(g, order);
  }

  lemma QueuedIsFifo(g: Graph, order: seq<nat>)
    requires Below(order, |g|) && Queued(g, order, order)
    ensures Fifo(g, order)
  {
    forall a, b, p | 0 <= a < b < |order| && 0 <= p < |order| && order[p] in g[order[a]]
      ensures exists r :: p <= r < b && order[r] in g[order[b]]
    {
      var r :| p <= r < |order| && r < b && order[r] in g[order[b]];
    }
  }

  /** The queue ran dry early: the nodes left over wait for each other. */
  lemma DryStuck(g: Graph, inDegree: seq<nat>, order: seq<nat>)
    requires InRange(g) && Progress(g, inDegree, order, [], []) && |order| < |g|
    ensures !Acyclic(g)
  {
    assert order + [] == order;
    var waiting := set x: nat | x < |g| && x !in order;
    var start := Missing(order, |g|);
    forall x | x in waiting ensures Blocked(g, waiting, x) {
      assert inDegree[x] == Pending(g[x], order);
      PendingNone(g[x], order);
      var t :| 0 <= t < |g[x]| && g[x][t] !in order;
      assert g[x][t] in waiting;
    }
    StuckHasCycle(g, waiting, start);
  }

  // ---------------------------------------------------------------- building the edges

  lemma AddEdge(g: Graph, adj: seq<seq<nat>>, inDegree: seq<nat>, i: nat, t: nat)
    requires i < |g| && t < |g[i]| && g[i][t] < |g|
    requires Reversed(g, adj, inDegree, i, t)
    ensures var dep := g[i][t];
      Reversed(g, adj[dep := adj[dep] + [i]], inDegree[i := inDegree[i] + 1], i, t + 1)
  {
    var dep := g[i][t];
    var more := adj[dep := adj[dep] + [i]];
    SeenOneMore(g, i, t);
    hide SeenDeps;
    forall d, x | 0 <= d < |g| && 0 <= x < |g|
      ensures multiset(more[d])[x] == multiset(SeenDeps(g, i, t + 1, x))[d]
    {
      assert multiset(adj[d])[x] == multiset(SeenDeps(g, i, t, x))[d];
      CountAppend(adj[dep], i, x);
      CountAppend(SeenDeps(g, i, t, i), dep, d);
    }
  }

  lemma SeenOneMore(g: Graph, i: nat, t: nat)
    requires i < |g| && t < |g[i]|
    ensures SeenDeps(g, i, t + 1, i) == SeenDeps(g, i, t, i) + [g[i][t]]
    ensures forall x :: 0 <= x < |g| && x != i ==> SeenDeps(g, i, t + 1, x) == SeenDeps(g, i, t, x)
  {
  }

  lemma CountAppend(s: seq<nat>, y: nat, x: nat)
    ensures multiset(s + [y])[x] == multiset(s)[x] + if x == y then 1 else 0
  {
  }

  lemma NoEdges(g: Graph, adj: seq<seq<nat>>, inDegree: seq<nat>)
    requires adj == seq(|g|, _ => []) && inDegree == seq(|g|, _ => 0)
    ensures Reversed(g, adj, inDegree, 0, 0)
  {
  }

  /** The inner loop: the edges of node i. */
  method NodeEdges(ghost g: Graph, i: nat, dependencies: seq<nat>, was: seq<seq<nat>>, degrees: seq<nat>)
    returns (ok: bool, adj: seq<seq<nat>>, inDegree: seq<nat>)
    requires i < |g| == |was| == |degrees| && g[i] == dependencies && Reversed(g, was, degrees, i, 0)
    ensures |adj| == |inDegree| == |g|
    ensures !ok ==> !InRange(g)
    ensures ok ==> Below(g[i], |g|) && Reversed(g, adj, inDegree, i, |g[i]|)
  {
    hide Reversed;
    adj, inDegree := was, degrees;
    var t := 0;
    while t < |dependencies|
      invariant t <= |dependencies| && |adj| == |inDegree| == |g|
      invariant Reversed(g, adj, inDegree, i, t)
      invariant forall s :: 0 <= s < t ==> g[i][s] < |g|
    {
      var dep := dependencies[t];
      if dep >= |adj| {
        assert g[i][t] >= |g|;
        return false, adj, inDegree;
      }
      AddEdge(g, adj, inDegree, i, t);
      adj := adj[dep := adj[dep] + [i]];
      inDegree := inDegree[i := inDegree[i] + 1];
      t := t + 1;
    }
    ok := true;
  }

  lemma AllInRange(g: Graph)
    requires forall x :: 0 <= x < |g| ==> Below(g[x], |g|)
    ensures InRange(g)
  {
  }

  lemma NextNode(g: Graph, adj: seq<seq<nat>>, inDegree: seq<nat>, i: nat)
    requires i < |g| && Reversed(g, adj, inDegree, i, |g[i]|)
    ensures Reversed(g, adj, inDegree, i + 1, 0)
  {
    forall x | 0 <= x < |g|
      ensures SeenDeps(g, i + 1, 0, x) == SeenDeps(g, i, |g[i]|, x)
      ensures inDegree[x] == |SeenDeps(g, i + 1, 0, x)|
    {
      assert g[i][..|g[i]|] == g[i];
      if x == i + 1 {
        assert g[x][..0] == [];
      }
    }
    forall d, x | 0 <= d < |g| && 0 <= x < |g|
      ensures multiset(adj[d])[x] == multiset(SeenDeps(g, i + 1, 0, x))[d]
    {
      assert SeenDeps(g, i + 1, 0, x) == SeenDeps(g, i, |g[i]|, x);
    }
  }

  /** The nodes of in-degree 0 below n, in order. */
  function Zeros(inDegree: seq<nat>, n: nat): (s: seq<nat>)
    requires n <= |inDegree|
    ensures Below(s, n) && Distinct(s)
    ensures forall x: nat :: x in s <==> x < n && inDegree[x] == 0
  {
    if n == 0 then []
    else if inDegree[n - 1] == 0 then Zeros(inDegree, n - 1) + [n - 1]
    else Zeros(inDegree, n - 1)
  }

  /** adj[d] lists the nodes that depend on d, as often as they name it. */
  ghost predicate Dependents(g: Graph, adj: seq<seq<nat>>) {
    && |adj| == |g|
    && (forall d :: 0 <= d < |g| ==> Below(adj[d], |g|))
    && (forall d, x :: 0 <= d < |g| && 0 <= x < |g| ==> multiset(adj[d])[x] == multiset(g[x])[d])
  }

  lemma DependentsDepend(g: Graph, adj: seq<seq<nat>>, id: nat, t: nat)
    requires Dependents(g, adj) && id < |g| && t < |adj[id]|
    ensures adj[id][t] < |g| && id in g[adj[id][t]]
  {
    var x := adj[id][t];
    assert x in multiset(adj[id]);
    assert multiset(g[x])[id] > 0;
  }

  /** The main loop starts with every node free of dependencies queued. */
  lemma Start(g: Graph, adj: seq<seq<nat>>, inDegree: seq<nat>)
    requires Reversed(g, adj, inDegree, |g|, 0)
    ensures Dependents(g, adj)
    ensures Progress(g, inDegree, [], Zeros(inDegree, |g|), [])
  {
    var ready := Zeros(inDegree, |g|);
    assert [] + ready == ready;
    forall x | 0 <= x < |g|
      ensures inDegree[x] == Pending(g[x], [])
    {
      PendingStart(g[x]);
    }
  }

  lemma OrderShort(g: Graph, inDegree: seq<nat>, order: seq<nat>, ready: seq<nat>)
    requires Progress(g, inDegree, order, ready, []) && ready != []
    ensures |order| < |g|
  {
    if |order + ready| > |g| {
      Pigeonhole(order + ready, |g|);
    }
  }

  lemma ReadyInside(g: Graph, inDegree: seq<nat>, order: seq<nat>, ready: seq<nat>)
    requires Progress(g, inDegree, order, ready, []) && ready != []
    ensures ready[0] < |g|
  {
    assert (order + ready)[|order|] == ready[0];
  }

  lemma OrderAtMost(g: Graph, inDegree: seq<nat>, order: seq<nat>)
    requires Progress(g, inDegree, order, [], [])
    ensures |order| <= |g|
  {
    assert order + [] == order;
    if |order| > |g| {
      Pigeonhole(order, |g|);
    }
  }

  /** The inner loop over the dependents of the node popped last. */
  method Release(ghost g: Graph, inDegree: seq<nat>, ghost order: seq<nat>, ready: seq<nat>, dependents: seq<nat>)
    returns (less: seq<nat>, queue: seq<nat>)
    requires Progress(g, inDegree, order, ready, dependents) && Below(dependents, |g|) && order != []
    requires forall t :: 0 <= t < |dependents| ==> order[|order| - 1] in g[dependents[t]]
    ensures Progress(g, less, order, queue, [])
  {
    hide Progress;
    less, queue := inDegree, ready;
    assert dependents[0..] == dependents;
    assert |less| == |g| by {
      ProgressLength(g, less, order, queue, dependents);
    }
    for t := 0 to |dependents|
      invariant |less| == |g|
      invariant Progress(g, less, order, queue, dependents[t..])
    {
      var next := dependents[t];
      assert dependents[t..][1..] == dependents[t + 1..];
      DropKeeps(g, less, order, queue, dependents[t..]);
      less := less[next := less[next] - 1];
      if less[next] == 0 {
        queue := queue + [next];
      }
    }
    assert dependents[|dependents|..] == [];
  }

  lemma ProgressLength(g: Graph, inDegree: seq<nat>, order: seq<nat>, ready: seq<nat>, rest: seq<nat>)
    requires Progress(g, inDegree, order, ready, rest)
    ensures |inDegree| == |g|
  {
  }

  // ---------------------------------------------------------------- the class

  class CommandGraph<F> {
    var nodes: seq<Node<F>>
    var order: seq<nat>
    var compiled: bool

    ghost function Deps(): (g: Graph)
      reads this
      ensures |g| == |nodes|
    {
      DepsOf(nodes)
    }

    /** Node ids are positions, and a compiled graph holds a valid order of its nodes. */
    ghost predicate Valid()
      reads this
    {
      && (forall i :: 0 <= i < |nodes| ==> nodes[i].id == i)
      && (compiled ==> IsOrder(Deps(), order) && Fifo(Deps(), order))
    }

    constructor ()
      ensures Valid() && nodes == [] && order == [] && !compiled
    {
      nodes, order, compiled := [], [], false;
    }

    method AddNode(name: string, func: F, deps: seq<nat>) returns (id: nat)
      requires Valid()
      modifies this
      ensures Valid() && !compiled && order == old(order)
      ensures id == |old(nodes)| && nodes == old(nodes) + [Node(id, name, func, deps)]
    {
      id := |nodes|;
      nodes := nodes + [Node(id, name, func, deps)];
      compiled := false;
    }

    /** Counts dependencies and reverses the edges; None if one is out of range. */
    method BuildEdges() returns (ok: bool, adj: seq<seq<nat>>, inDegree: seq<nat>)
      requires Valid()
      ensures ok <==> InRange(Deps())
      ensures ok ==> |adj| == |inDegree| == |nodes| && Reversed(Deps(), adj, inDegree, |nodes|, 0)
    {
      ghost var g := Deps();
      inDegree := seq(|nodes|, _ => 0);
      adj := seq(|nodes|, _ => []);
      NoEdges(g, adj, inDegree);
      hide IsOrder, Fifo, Reversed, InRange;
      var i := 0;
      while i < |nodes|
        invariant i <= |nodes| && |adj| == |inDegree| == |nodes|
        invariant Reversed(g, adj, inDegree, i, 0)
        invariant forall x :: 0 <= x < i ==> Below(g[x], |g|)
      {
        ok, adj, inDegree := NodeEdges(g, nodes[i].id, nodes[i].dependencies, adj, inDegree);
        if !ok {
          return;
        }
        NextNode(g, adj, inDegree, i);
        i := i + 1;
      }
      AllInRange(g);
      ok := true;
    }

    /** Kahn's algorithm.  It succeeds on exactly the graphs whose dependencies are in
        range and that have no cycle; the order is then topological and visits nodes
        first in, first out. */
    method Compile() returns (status: Status)
      requires Valid()
      modifies this
      ensures Valid() && nodes == old(nodes)
      ensures status == Ok <==> InRange(Deps()) && Acyclic(Deps())
      ensures status == InvalidDependency <==> !InRange(Deps())
      ensures status == Ok ==> compiled && IsOrder(Deps(), order) && Fifo(Deps(), order)
      ensures status != Ok ==> compiled == old(compiled) == false
      ensures status == InvalidDependency ==> order == old(order)
    {
      hide Progress, Reversed, IsOrder, Fifo, Acyclic, InRange, DepsOf, Distinct, Below;
      ghost var g := Deps();
      if compiled {
        OrderExcludesCycles(g, order);
      }
      var ok, adj, inDegree := BuildEdges();
      if !ok {
        return InvalidDependency;
      }
      var ready: seq<nat> := [];
      for i := 0 to |nodes|
        invariant ready == Zeros(inDegree, i)
      {
        if inDegree[i] == 0 {
          ready := ready + [i];
        }
      }
      order := [];
      Start(g, adj, inDegree);
      while ready != []
        invariant nodes == old(nodes) && compiled == old(compiled)
        invariant Progress(g, inDegree, order, ready, [])
        decreases |g| - |order|
      {
        var id := ready[0];
        OrderShort(g, inDegree, order, ready);
        assert id < |g| by {
          ReadyInside(g, inDegree, order, ready);
        }
        PopKeeps(g, inDegree, order, ready, adj[id]);
        ready := ready[1..];
        order := order + [id];
        forall t | 0 <= t < |adj[id]|
          ensures adj[id][t] < |g| && order[|order| - 1] in g[adj[id][t]]
        {
          DependentsDepend(g, adj, id, t);
        }
        assert Below(adj[id], |g|);
        inDegree, ready := Release(g, inDegree, order, ready, adj[id]);
      }
      if |order| != |nodes| {
        OrderAtMost(g, inDegree, order);
        DryStuck(g, inDegree, order);
        return ContainsCycle;
      }
      DryComplete(g, inDegree, order);
      OrderExcludesCycles(g, order);
      compiled := true;
      return Ok;
    }

    /** Compiles if need be and runs the node functions in the compiled order. */
    method Execute() returns (status: Status, ran: seq<F>)
      requires Valid()
      modifies this
      ensures Valid() && nodes == old(nodes)
      ensures status == Ok <==> InRange(Deps()) && Acyclic(Deps())
      ensures status == Ok ==> compiled && |ran| == |order| == |nodes|
      ensures status == Ok ==>
        forall a :: 0 <= a < |order| ==> order[a] < |nodes| && ran[a] == nodes[order[a]].func
      ensures old(compiled) ==> status == Ok && order == old(order)
      ensures status != Ok ==> ran == [] && !compiled
    {
      ran, status := [], Ok;
      if compiled {
        OrderExcludesCycles(Deps(), order);
      } else {
        status := Compile();
        if status != Ok {
          return;
        }
      }
      for a := 0 to |order|
        invariant |ran| == a
        invariant forall b :: 0 <= b < a ==> ran[b] == nodes[order[b]].func
      {
        ran := ran + [nodes[order[a]].func];
      }
    }
  }
}
