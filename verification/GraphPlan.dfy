/** The operator graph and plan of src/core/dx_graph_api.cpp: nodes that may only depend on
    earlier nodes, compiled by a marked depth-first search. */
module GraphPlans {
  import opened Counting
  import opened Graph

  datatype GraphNode = GraphNode(id: nat, operatorName: string, dependencies: seq<nat>)

  function DepsOf(nodes: seq<GraphNode>): (g: Graph)
    ensures |g| == |nodes|
  {
    seq(|nodes|, i requires 0 <= i < |nodes| => nodes[i].dependencies)
  }

  predicate ContainsNode(nodes: seq<GraphNode>, id: nat) {
    id < |nodes| && nodes[id].id == id
  }

  /** The dependencies of a node are all in the order. */
  ghost predicate DepsIn(nodes: seq<GraphNode>, id: nat, order: seq<nat>)
    requires id < |nodes|
  {
    forall d :: d in nodes[id].dependencies ==> d in order
  }

  /** What a graph must be for its compilation to succeed. */
  ghost predicate Compilable(nodes: seq<GraphNode>) {
    && (forall i :: 0 <= i < |nodes| ==> nodes[i].id == i)
    && InRange(DepsOf(nodes))
    && Acyclic(DepsOf(nodes))
  }

  // ---------------------------------------------------------------- the search

  /** Marks: 0 not seen, 1 on the stack, 2 in the order. */
  ghost predicate Searching(nodes: seq<GraphNode>, marks: seq<nat>, order: seq<nat>, path: seq<nat>) {
    && |marks| == |nodes|
    && (forall x :: 0 <= x < |marks| ==> marks[x] <= 2)
    && (forall x :: 0 <= x < |marks| ==> (marks[x] == 2 <==> x in order))
    && (forall x :: 0 <= x < |marks| ==> (marks[x] == 1 <==> x in path))
    && Distinct(order) && DepsFirst(DepsOf(nodes), order)
    && IsWalk(DepsOf(nodes), path)
  }

  ghost function Unseen(marks: seq<nat>): set<nat> {
    set x: nat | x < |marks| && marks[x] == 0
  }

  lemma UnseenShrinks(before: seq<nat>, after: seq<nat>)
    requires |before| == |after|
    requires forall x :: 0 <= x < |before| ==> before[x] != 0 ==> after[x] != 0
    ensures |Unseen(after)| <= |Unseen(before)|
    ensures forall y :: 0 <= y < |before| && before[y] == 0 && after[y] != 0 ==> |Unseen(after)| < |Unseen(before)|
  {
    assert Unseen(after) <= Unseen(before);
    SubsetSize(Unseen(after), Unseen(before));
    forall y | 0 <= y < |before| && before[y] == 0 && after[y] != 0
      ensures |Unseen(after)| < |Unseen(before)|
    {
      assert y in Unseen(before) - Unseen(after);
      SubsetSize(Unseen(after), Unseen(before) - {y});
    }
  }

  /** A node met again while on the stack closes a cycle. */
  lemma BackEdge(g: Graph, path: seq<nat>, id: nat)
    requires IsWalk(g, path) && id in path && id in g[path[|path| - 1]]
    ensures !Acyclic(g)
  {
    var k :| 0 <= k < |path| && path[k] == id;
    var p := path[k..];
    forall t | 0 <= t < |p| - 1
      ensures p[t + 1] in g[p[t]]
    {
      assert path[k + t + 1] in g[path[k + t]];
    }
    assert IsCycle(g, p);
  }

  class Plan {
    var order: seq<nat>
    var names: map<nat, string>

    constructor ()
      ensures order == [] && names == map[]
    {
      order, names := [], map[];
    }

    /** The id and operator name at a position of the order, if the name (with its
        terminator) fits in `capacity` characters. */
    method NodeAt(index: nat, capacity: nat) returns (code: int, id: nat, name: string)
      ensures code in {0, -1, -2}
      ensures code == -1 <==> capacity == 0 || index >= |order|
      ensures code == 0 <==>
        capacity > 0 && index < |order| && order[index] in names && |names[order[index]]| < capacity
      ensures code == 0 ==> id == order[index] && name == names[id]
    {
      if capacity == 0 || index >= |order| {
        return -1, 0, "";
      }
      var nodeId := order[index];
      if nodeId !in names || |names[nodeId]| + 1 > capacity {
        return -2, 0, "";
      }
      return 0, nodeId, names[nodeId];
    }
  }

  /** Depth-first visit of `id`, with the stack of open nodes as ghost `path`.  It fails
      only on a graph that cannot be compiled. */
  method VisitNode(nodes: seq<GraphNode>, id: nat, marks: array<nat>, plan: Plan, ghost path: seq<nat>)
    returns (ok: bool)
    requires Searching(nodes, marks[..], plan.order, path)
    requires path == [] ==> id < |nodes|
    requires path != [] ==> id in DepsOf(nodes)[path[|path| - 1]]
    modifies marks, plan`order
    ensures !ok ==> !Compilable(nodes)
    ensures ok ==> id < |nodes| && nodes[id].id == id && marks[id] == 2
    ensures ok ==> Searching(nodes, marks[..], plan.order, path)
    ensures ok ==> old(plan.order) <= plan.order
    ensures ok && old(id < |nodes| && marks[id] == 2) ==> plan.order == old(plan.order)
    ensures ok && old(id < |nodes| && marks[id] == 0) && DepsIn(nodes, id, old(plan.order)) ==>
      plan.order == old(plan.order) + [id]
    ensures forall x :: 0 <= x < marks.Length && old(marks[x]) != 0 ==> marks[x] != 0
    ensures ok ==> forall x :: 0 <= x < marks.Length && old(marks[x]) != 0 ==> marks[x] == old(marks[x])
    decreases |Unseen(marks[..])|, 0
  {
    ghost var g := DepsOf(nodes);
    if !ContainsNode(nodes, id) {
      if path != [] {
        var last := path[|path| - 1];
        var t :| 0 <= t < |g[last]| && g[last][t] == id;
        assert InRange(g) ==> g[last][t] < |g|;
      }
      return false;
    }
    if marks[id] == 1 {
      BackEdge(g, path, id);
      return false;
    }
    if marks[id] == 2 {
      return true;
    }
    ghost var seen := marks[..];
    Open(nodes, seen, plan.order, path, id);
    marks[id] := 1;
    UnseenShrinks(seen, marks[..]);
    ok := VisitDependencies(nodes, id, marks, plan, path + [id]);
    if !ok {
      return;
    }
    ghost var order := plan.order;
    Finish(nodes, marks[..], order, path, id);
    marks[id] := 2;
    plan.order := plan.order + [id];
  }

  /** The loop over the dependencies of the node opened last. */
  method VisitDependencies(nodes: seq<GraphNode>, id: nat, marks: array<nat>, plan: Plan, ghost path: seq<nat>)
    returns (ok: bool)
    requires Searching(nodes, marks[..], plan.order, path)
    requires path != [] && path[|path| - 1] == id && id < |nodes|
    modifies marks, plan`order
    ensures !ok ==> !Compilable(nodes)
    ensures ok ==> Searching(nodes, marks[..], plan.order, path)
    ensures ok ==> old(plan.order) <= plan.order && DepsIn(nodes, id, plan.order)
    ensures ok && DepsIn(nodes, id, old(plan.order)) ==> plan.order == old(plan.order)
    ensures forall x :: 0 <= x < marks.Length && old(marks[x]) != 0 ==> marks[x] != 0
    ensures ok ==> forall x :: 0 <= x < marks.Length && old(marks[x]) != 0 ==> marks[x] == old(marks[x])
    decreases |Unseen(marks[..])|, 1
  {
    hide Compilable, IsWalk, Distinct, DepsFirst, Unseen;
    ghost var seen := marks[..];
    var t := 0;
    while t < |nodes[id].dependencies|
      invariant t <= |nodes[id].dependencies|
      invariant Searching(nodes, marks[..], plan.order, path)
      invariant old(plan.order) <= plan.order
      invariant forall s :: 0 <= s < t ==> nodes[id].dependencies[s] in plan.order
      invariant forall x :: 0 <= x < marks.Length && seen[x] != 0 ==> marks[x] == seen[x]
      invariant |Unseen(marks[..])| <= |Unseen(seen)|
      invariant DepsIn(nodes, id, old(plan.order)) ==> plan.order == old(plan.order)
    {
      ghost var now := marks[..];
      var dependency := nodes[id].dependencies[t];
      ok := VisitNode(nodes, dependency, marks, plan, path);
      if !ok {
        return;
      }
      UnseenShrinks(now, marks[..]);
      t := t + 1;
    }
    ok := true;
  }

  /** Opening a node not seen before. */
  lemma Open(nodes: seq<GraphNode>, marks: seq<nat>, order: seq<nat>, path: seq<nat>, id: nat)
    requires Searching(nodes, marks, order, path) && id < |nodes| && marks[id] == 0
    requires path != [] ==> id in DepsOf(nodes)[path[|path| - 1]]
    ensures Searching(nodes, marks[id := 1], order, path + [id])
  {
    hide Distinct, DepsFirst;
  }

  /** Closing a node whose dependencies are all in the order. */
  lemma Finish(nodes: seq<GraphNode>, marks: seq<nat>, order: seq<nat>, path: seq<nat>, id: nat)
    requires Searching(nodes, marks, order, path + [id]) && id < |nodes| && id !in path
    requires DepsIn(nodes, id, order)
    ensures Searching(nodes, marks[id := 2], order + [id], path)
  {
    var g := DepsOf(nodes);
    assert (path + [id])[|path|] == id;
    assert id !in order;
    forall a, d | 0 <= a < |order + [id]| && d in g[(order + [id])[a]]
      ensures d in (order + [id])[..a]
    {
      if a < |order| {
        assert (order + [id])[..a] == order[..a];
      } else {
        assert (order + [id])[..a] == order;
      }
    }
    forall t | 0 <= t < |path|
      ensures path[t] < |g|
    {
      assert (path + [id])[t] < |g|;
    }
    forall t | 0 <= t < |path| - 1
      ensures path[t + 1] in g[path[t]]
    {
      assert (path + [id])[t + 1] in g[(path + [id])[t]];
    }
  }

  // ---------------------------------------------------------------- compiling

  /** Compilation succeeds on exactly the graphs whose ids are positions, whose
      dependencies are in range and that have no cycle; the plan is then a topological
      order of all nodes with their names. */
  method Compile(nodes: seq<GraphNode>) returns (code: int, plan: Plan?)
    ensures code == 0 <==> Compilable(nodes)
    ensures code in {0, -2} && (code == 0 <==> plan != null)
    ensures code == 0 ==> fresh(plan) && IsOrder(DepsOf(nodes), plan.order)
    ensures code == 0 ==> plan.names == NamesOf(nodes, |nodes|)
    ensures code == 0 && EarlierOnly(DepsOf(nodes)) ==> plan.order == UpTo(|nodes|)
  {
    hide Searching, EarlierOnly, DepsIn, Compilable, IsOrder, NamesOf, UpTo, DepsOf;
    ghost var g := DepsOf(nodes);
    var result := new Plan();
    var marks := new nat[|nodes|](_ => 0);
    NothingSeen(nodes, marks[..]);
    NothingNamed(nodes);
    var id := 0;
    while id < |nodes|
      invariant id <= |nodes|
      invariant Searching(nodes, marks[..], result.order, [])
      invariant forall x :: 0 <= x < id ==> marks[x] == 2 && nodes[x].id == x
      invariant result.names == NamesOf(nodes, id)
      invariant EarlierOnly(g) ==> result.order == UpTo(id)
    {
      if EarlierOnly(g) {
        NextIsReady(nodes, marks[..], result.order, id);
      }
      OneMoreNamed(nodes, id);
      var ok := VisitNode(nodes, id, marks, result, []);
      if !ok {
        return -2, null;
      }
      result.names := result.names[id := nodes[id].operatorName];
      id := id + 1;
    }
    Complete(nodes, marks[..], result.order);
    return 0, result;
  }

  /** The names of the first n nodes, by id. */
  function NamesOf(nodes: seq<GraphNode>, n: nat): map<nat, string>
    requires n <= |nodes|
  {
    map i | 0 <= i < n :: nodes[i].operatorName
  }

  function UpTo(n: nat): seq<nat> {
    seq(n, i => i)
  }

  lemma NothingNamed(nodes: seq<GraphNode>)
    ensures NamesOf(nodes, 0) == map[] && UpTo(0) == []
  {
  }

  lemma OneMoreNamed(nodes: seq<GraphNode>, id: nat)
    requires id < |nodes|
    ensures NamesOf(nodes, id + 1) == NamesOf(nodes, id)[id := nodes[id].operatorName]
    ensures UpTo(id + 1) == UpTo(id) + [id]
  {
  }

  lemma NothingSeen(nodes: seq<GraphNode>, marks: seq<nat>)
    requires |marks| == |nodes| && forall x :: 0 <= x < |marks| ==> marks[x] == 0
    ensures Searching(nodes, marks, [], [])
  {
  }

  /** Where nodes depend on earlier ones only, the next node finds them all in the order. */
  lemma NextIsReady(nodes: seq<GraphNode>, marks: seq<nat>, order: seq<nat>, id: nat)
    requires Searching(nodes, marks, order, []) && EarlierOnly(DepsOf(nodes)) && id < |nodes|
    requires order == UpTo(id)
    ensures |marks| == |nodes| && marks[id] == 0 && DepsIn(nodes, id, order)
  {
    forall d | d in nodes[id].dependencies ensures d in order {
      assert d in DepsOf(nodes)[id];
      assert order[d] == d;
    }
  }

  /** With every node marked, the order is a permutation of the nodes. */
  lemma Complete(nodes: seq<GraphNode>, marks: seq<nat>, order: seq<nat>)
    requires Searching(nodes, marks, order, [])
    requires forall x :: 0 <= x < |nodes| ==> marks[x] == 2 && nodes[x].id == x
    ensures IsOrder(DepsOf(nodes), order) && Compilable(nodes)
  {
    AllOrdered(nodes, marks, order);
    OrderExcludesCycles(DepsOf(nodes), order);
  }

  lemma AllOrdered(nodes: seq<GraphNode>, marks: seq<nat>, order: seq<nat>)
    requires Searching(nodes, marks, order, [])
    requires forall x :: 0 <= x < |nodes| ==> marks[x] == 2
    ensures IsOrder(DepsOf(nodes), order)
  {
    var n := |nodes|;
    if |order| > n {
      Pigeonhole(order, n);
    }
    forall x: nat | x < n ensures x in order {
      assert marks[x] == 2;
    }
    if |order| < n {
      var x := Missing(order, n);
      assert false;
    }
  }

  // ---------------------------------------------------------------- building

  /** Every node depends on earlier nodes only. */
  ghost predicate EarlierOnly(g: Graph) {
    forall x, d :: 0 <= x < |g| && d in g[x] ==> d < x
  }

  lemma EarlierOnlyIsAcyclic(g: Graph)
    requires EarlierOnly(g)
    ensures InRange(g) && Acyclic(g)
  {
    var order := seq(|g|, i => i);
    forall a, d | 0 <= a < |order| && d in g[order[a]]
      ensures d in order[..a]
    {
      assert order[..a][d] == d;
    }
    forall x: nat | x < |g| ensures x in order {
      assert order[x] == x;
    }
    OrderExcludesCycles(g, order);
  }

  class OperatorRegistry {
    var operators: set<string>
    var frozen: bool

    constructor ()
      ensures operators == {} && !frozen
    {
      operators, frozen := {}, false;
    }

    method Register(name: string) returns (code: int)
      modifies this
      ensures frozen == old(frozen)
      ensures code == if name == "" then -1 else if old(frozen) then -2 else 0
      ensures operators == if code == 0 then old(operators) + {name} else old(operators)
    {
      if name == "" {
        return -1;
      }
      if frozen {
        return -2;
      }
      operators := operators + {name};
      code := 0;
    }

    method Freeze()
      modifies this
      ensures frozen && operators == old(operators)
    {
      frozen := true;
    }
  }

  class DxGraph {
    const registry: OperatorRegistry
    var nodes: seq<GraphNode>

    /** What every sequence of AddNode calls keeps. */
    ghost predicate Valid()
      reads this
    {
      && (forall i :: 0 <= i < |nodes| ==> nodes[i].id == i)
      && EarlierOnly(DepsOf(nodes))
    }

    constructor (registry: OperatorRegistry)
      ensures Valid() && this.registry == registry && nodes == []
    {
      this.registry := registry;
      nodes := [];
    }

    method AddNode(operatorName: string, dependencies: seq<nat>) returns (code: int, id: nat)
      requires Valid()
      modifies this
      ensures Valid()
      ensures code == if operatorName == "" then -1
                      else if operatorName !in registry.operators then -2
                      else if exists t :: 0 <= t < |dependencies| && dependencies[t] >= |old(nodes)| then -3
                      else 0
      ensures code == 0 ==> id == |old(nodes)| && nodes == old(nodes) + [GraphNode(id, operatorName, dependencies)]
      ensures code != 0 ==> nodes == old(nodes)
    {
      id := 0;
      if operatorName == "" {
        return -1, id;
      }
      if operatorName !in registry.operators {
        return -2, id;
      }
      for index := 0 to |dependencies|
        invariant forall t :: 0 <= t < index ==> dependencies[t] < |nodes|
      {
        if dependencies[index] >= |nodes| {
          return -3, id;
        }
      }
      id := |nodes|;
      ghost var g := DepsOf(nodes);
      nodes := nodes + [GraphNode(id, operatorName, dependencies)];
      forall x, d | 0 <= x < |nodes| && d in DepsOf(nodes)[x]
        ensures d < x
      {
        if x < id {
          assert DepsOf(nodes)[x] == g[x];
        }
      }
      code := 0;
    }

    /** A graph built through AddNode always compiles, to the order 0, 1, ..., n - 1. */
    method CompileBuilt() returns (code: int, plan: Plan?)
      requires Valid()
      ensures code == 0 && plan != null && fresh(plan)
      ensures plan.order == UpTo(|nodes|)
      ensures plan.names == map i | 0 <= i < |nodes| :: nodes[i].operatorName
    {
      EarlierOnlyIsAcyclic(DepsOf(nodes));
      code, plan := Compile(nodes);
    }
  }
}
