/** Plans, dependency paths and ranks. */
module Plans {

  import opened Options

  type Id = string

  datatype Compensation = Compensation(toolName: string, args: string, taintLevel: int)

  datatype Node = Node(id: Id, toolName: string, args: string, taintLevel: int, dependsOn: seq<Id>,
                       compensation: Option<Compensation>)

  type Plan = seq<Node>

  const MAX_NODES := 50
  const MAX_DEPTH := 10

  predicate UniqueIds(plan: Plan) {
    forall i, j :: 0 <= i < j < |plan| ==> plan[i].id != plan[j].id
  }

  /** Every dependency is a node of the plan. */
  ghost predicate ClosedDeps(plan: Plan) {
    forall i, d :: 0 <= i < |plan| && d in plan[i].dependsOn ==> exists j :: 0 <= j < |plan| && plan[j].id == d
  }

  type Graph = map<Id, seq<Id>>

  function Deps(g: Graph, id: Id): seq<Id> {
    if id in g then g[id] else []
  }

  /** The adjacency of the first `n` nodes; a repeated id keeps its last dependencies. */
  function Adjacency(plan: Plan, n: nat): Graph
    requires n <= |plan|
  {
    if n == 0 then map[] else Adjacency(plan, n - 1)[plan[n - 1].id := plan[n - 1].dependsOn]
  }

  lemma {:induction false} AdjacencyUnique(plan: Plan, n: nat, i: nat)
    requires UniqueIds(plan) && i < n <= |plan|
    ensures plan[i].id in Adjacency(plan, n) && Adjacency(plan, n)[plan[i].id] == plan[i].dependsOn
    decreases n
  {
    if i < n - 1 {
      AdjacencyUnique(plan, n - 1, i);
    }
  }

  lemma {:induction false} AdjacencyKeys(plan: Plan, n: nat, id: Id)
    requires n <= |plan|
    ensures id in Adjacency(plan, n) <==> exists i :: 0 <= i < n && plan[i].id == id
    decreases n
  {
    if n > 0 {
      AdjacencyKeys(plan, n - 1, id);
    }
  }

  /** The step to position `t` follows a dependency. */
  predicate StepAt(g: Graph, path: seq<Id>, t: nat)
    requires 0 < t < |path|
  {
    path[t] in Deps(g, path[t - 1])
  }

  ghost predicate Path(g: Graph, path: seq<Id>) {
    path != [] && forall t :: 0 < t < |path| ==> StepAt(g, path, t)
  }

  ghost predicate Cycle(g: Graph, path: seq<Id>) {
    Path(g, path) && |path| > 1 && path[0] == path[|path| - 1]
  }

  ghost predicate HasCycle(g: Graph) {
    exists path :: Cycle(g, path)
  }

  /** Some path has more than `n` edges. */
  ghost predicate HasPathOver(g: Graph, n: nat) {
    exists path :: Path(g, path) && |path| == n + 2
  }

  /** All the dependencies have ranks below `limit`. */
  ghost predicate RankedBelow(deps: seq<Id>, rank: map<Id, nat>, limit: nat) {
    forall n :: 0 <= n < |deps| ==> deps[n] in rank && rank[deps[n]] < limit
  }

  ghost predicate RankedAt(g: Graph, rank: map<Id, nat>, id: Id) {
    id in rank ==> RankedBelow(Deps(g, id), rank, rank[id])
  }

  /** Every ranked id depends only on ranked ids of smaller rank. */
  ghost predicate Ranks(g: Graph, rank: map<Id, nat>) {
    forall id :: RankedAt(g, rank, id)
  }

  /** The first `n` nodes are ranked. */
  ghost predicate NodesRanked(plan: Plan, n: nat, rank: map<Id, nat>) {
    n <= |plan| && forall i :: 0 <= i < n ==> plan[i].id in rank
  }

  lemma {:induction false} RankFalls(g: Graph, rank: map<Id, nat>, path: seq<Id>)
    requires Ranks(g, rank) && Path(g, path) && path[0] in rank && |path| > 1
    ensures path[|path| - 1] in rank && rank[path[|path| - 1]] < rank[path[0]]
    decreases |path|
  {
    RankFallsOnce(g, rank, path);
    if |path| > 2 {
      PathPiece(g, path, 1, |path|);
      RankFalls(g, rank, path[1..|path|]);
    }
  }

  lemma RankFallsOnce(g: Graph, rank: map<Id, nat>, path: seq<Id>)
    requires Ranks(g, rank) && Path(g, path) && path[0] in rank && |path| > 1
    ensures path[1] in rank && rank[path[1]] < rank[path[0]]
  {
    assert StepAt(g, path, 1) && RankedAt(g, rank, path[0]);
  }

  lemma PathSnoc(g: Graph, path: seq<Id>, id: Id)
    requires path != [] ==> Path(g, path) && id in Deps(g, path[|path| - 1])
    ensures Path(g, path + [id])
  {
    forall t | 0 < t < |path + [id]| ensures StepAt(g, path + [id], t) {
      assert t < |path| ==> StepAt(g, path, t);
    }
  }

  lemma PathPiece(g: Graph, path: seq<Id>, lo: nat, hi: nat)
    requires Path(g, path) && lo < hi <= |path|
    ensures Path(g, path[lo..hi])
  {
    forall t | 0 < t < hi - lo ensures StepAt(g, path[lo..hi], t) {
      assert StepAt(g, path, lo + t);
    }
  }

  /** A graph all of whose ids are ranked has no cycle. */
  lemma RankedIsAcyclic(g: Graph, rank: map<Id, nat>)
    requires Ranks(g, rank) && g.Keys <= rank.Keys
    ensures !HasCycle(g)
  {
    forall path ensures !Cycle(g, path) {
      if Path(g, path) && |path| > 1 {
        assert StepAt(g, path, 1);
        RankFalls(g, rank, path);
      }
    }
  }

  /** Neither the node nor another one of its id depends on anything, and nobody depends on it. */
  ghost predicate IsIsolated(plan: Plan, k: nat)
    requires k < |plan|
  {
    forall j :: 0 <= j < |plan| ==> (plan[j].id == plan[k].id ==> plan[j].dependsOn == []) && plan[k].id !in plan[j].dependsOn
  }

  /** What the validation asks of a plan. */
  ghost predicate Acceptable(plan: Plan) {
    && |plan| <= MAX_NODES
    && (|plan| > 1 ==> forall k: nat :: k < |plan| ==> !IsIsolated(plan, k))
    && !HasCycle(Adjacency(plan, |plan|)) && !HasPathOver(Adjacency(plan, |plan|), MAX_DEPTH)
  }

  /** A path is no longer than the rank it starts from allows. */
  lemma {:induction false} PathsAreRanked(g: Graph, rank: map<Id, nat>, path: seq<Id>)
    requires Ranks(g, rank) && Path(g, path) && path[0] in rank
    ensures |path| <= rank[path[0]] + 1
    decreases |path|
  {
    if |path| > 1 {
      RankFallsOnce(g, rank, path);
      PathPiece(g, path, 1, |path|);
      PathsAreRanked(g, rank, path[1..|path|]);
    }
  }
}

/** pkg/cognition/kernel/dag_executor.go: validateDAGTopology. */
module DagTopology {
  import opened Options
  import opened Plans
  import opened SearchOrder
  import opened DepthFirst

  datatype Color = White | Gray | Black

  function ColorOf(color: map<Id, Color>, id: Id): Color {
    if id in color then color[id] else White
  }

  /** Gray ids are on the stack, black ones are ranked. */
  ghost predicate Colours(color: map<Id, Color>, stack: seq<Id>, rank: map<Id, nat>) {
    && (forall id :: ColorOf(color, id) == Gray <==> id in stack)
    && (forall id :: ColorOf(color, id) == Black <==> id in rank)
  }

  lemma Blacken(color: map<Id, Color>, below: seq<Id>, rank: map<Id, nat>, id: Id, r: nat)
    requires Colours(color, below + [id], rank) && id !in below
    ensures Colours(color[id := Black], below, rank[id := r]) && id !in rank
  {
    var stack := below + [id];
    assert stack[|below|] == id;
    forall x | x != id ensures x in stack <==> x in below {
      assert forall k :: 0 <= k < |below| ==> stack[k] == below[k];
    }
  }

  /** The depth-first search with its colours, and its stack and ranks for the proof. */
  class Search {
    const g: Graph
    var color: map<Id, Color>
    ghost var stack: seq<Id>
    ghost var rank: map<Id, nat>

    ghost predicate Valid()
      reads this
    {
      Colours(color, stack, rank)
    }

    constructor (g: Graph)
      ensures Valid() && this.g == g && stack == [] && color == map[] && rank == map[]
    {
      this.g, color, stack, rank := g, map[], [], map[];
    }

    /** The outcome of the walk `w`, which began with `stack` on the stack and has ended there unless it failed. */
    ghost predicate Walked(w: Walk, stack: seq<Id>, err: Option<TopologyError>)
      reads this
    {
      match w
      case Failed(e) => err == Some(e)
      case Through(after) => err == None && Valid() && this.stack == stack && rank == after
    }

    method Visit(id: Id, depth: nat) returns (err: Option<TopologyError>)
      requires Valid() && ColorOf(color, id) == White && depth == |stack| <= MAX_DEPTH + 1
      modifies this
      ensures Walked(WalkTo(g, old(stack), id, old(rank)), old(stack), err)
      decreases MAX_DEPTH + 1 - depth, 2
    {
      if depth > MAX_DEPTH {
        return Some(DepthExceeded(id));
      }
      color := color[id := Gray];
      stack := stack + [id];
      err := VisitDeps(id, depth);
      if err.None? {
        Blacken(color, old(stack), rank, id, |rank|);
        color := color[id := Black];
        stack := old(stack);
        rank := rank[id := |rank|];
      }
    }

    /** The loop over the dependencies of the node on top of the stack. */
    method VisitDeps(id: Id, depth: nat) returns (err: Option<TopologyError>)
      requires Valid() && depth + 1 == |stack| <= MAX_DEPTH + 1 && stack[depth] == id
      modifies this
      ensures Walked(WalkDeps(g, old(stack), 0, old(rank)), old(stack), err)
      decreases MAX_DEPTH + 1 - depth, 1
    {
      var deps := Deps(g, id);
      for n := 0 to |deps|
        invariant Valid() && stack == old(stack)
        invariant WalkDeps(g, stack, n, rank) == WalkDeps(g, stack, 0, old(rank))
      {
        err := CheckDep(deps[n], depth);
        if err.Some? { return; }
      }
      return None;
    }

    /** The body of the loop over all nodes. */
    method VisitNode(id: Id) returns (err: Option<TopologyError>)
      requires Valid() && stack == []
      modifies this
      ensures Walked(if id in old(rank) then Through(old(rank)) else WalkTo(g, [], id, old(rank)), [], err)
    {
      if ColorOf(color, id) == White {
        err := Visit(id, 0);
      } else {
        err := None;
      }
    }

    method CheckDep(dep: Id, depth: nat) returns (err: Option<TopologyError>)
      requires Valid() && depth + 1 == |stack| <= MAX_DEPTH + 1
      modifies this
      ensures if dep in old(stack) then err == Some(CycleDetected(dep))
              else if dep in old(rank) then err == None && Valid() && stack == old(stack) && rank == old(rank)
              else Walked(WalkTo(g, old(stack), dep, old(rank)), old(stack), err)
      decreases MAX_DEPTH + 1 - depth, 0
    {
      if ColorOf(color, dep) == Gray { return Some(CycleDetected(dep)); }
      if ColorOf(color, dep) == White {
        err := Visit(dep, depth + 1);
      } else {
        err := None;
      }
    }
  }

  // --- isolated nodes -----------------------------------------------------------------------

  function Degree(deg: map<Id, nat>, id: Id): nat {
    if id in deg then deg[id] else 0
  }

  /** How many dependencies the first `n` nodes with this id declare. */
  function Declared(plan: Plan, n: nat, id: Id): nat
    requires n <= |plan|
  {
    if n == 0 then 0 else Declared(plan, n - 1, id) + if plan[n - 1].id == id then |plan[n - 1].dependsOn| else 0
  }

  /** How often the first `n` nodes depend on this id. */
  function Named(plan: Plan, n: nat, id: Id): nat
    requires n <= |plan|
  {
    if n == 0 then 0 else Named(plan, n - 1, id) + multiset(plan[n - 1].dependsOn)[id]
  }

  lemma {:induction false} DeclaredSome(plan: Plan, n: nat, id: Id)
    requires n <= |plan|
    ensures Declared(plan, n, id) > 0 <==> exists j :: 0 <= j < n && plan[j].id == id && plan[j].dependsOn != []
    ensures Named(plan, n, id) > 0 <==> exists j :: 0 <= j < n && id in plan[j].dependsOn
  {
    if n > 0 {
      DeclaredSome(plan, n - 1, id);
      assert id in plan[n - 1].dependsOn <==> id in multiset(plan[n - 1].dependsOn);
    }
  }

  method CountDegrees(plan: Plan) returns (inDeg: map<Id, nat>, outDeg: map<Id, nat>)
    ensures forall id :: Degree(inDeg, id) == Declared(plan, |plan|, id)
    ensures forall id :: Degree(outDeg, id) == Named(plan, |plan|, id)
  {
    inDeg, outDeg := map[], map[];
    for n := 0 to |plan|
      invariant forall id :: Degree(inDeg, id) == Declared(plan, n, id)
      invariant forall id :: Degree(outDeg, id) == Named(plan, n, id)
    {
      inDeg, outDeg := CountNode(plan[n], inDeg, outDeg);
    }
  }

  method CountNode(node: Node, inDeg0: map<Id, nat>, outDeg0: map<Id, nat>) returns (inDeg: map<Id, nat>, outDeg: map<Id, nat>)
    ensures forall id :: Degree(inDeg, id) == Degree(inDeg0, id) + if id == node.id then |node.dependsOn| else 0
    ensures forall id :: Degree(outDeg, id) == Degree(outDeg0, id) + multiset(node.dependsOn)[id]
  {
    inDeg, outDeg := inDeg0, outDeg0;
    assert node.dependsOn[..0] == [];
    for m := 0 to |node.dependsOn|
      invariant forall id :: Degree(inDeg, id) == Degree(inDeg0, id) + if id == node.id then m else 0
      invariant forall id :: Degree(outDeg, id) == Degree(outDeg0, id) + multiset(node.dependsOn[..m])[id]
    {
      var dep := node.dependsOn[m];
      assert node.dependsOn[..m + 1] == node.dependsOn[..m] + [dep];
      outDeg := outDeg[dep := Degree(outDeg, dep) + 1];
      inDeg := inDeg[node.id := Degree(inDeg, node.id) + 1];
    }
    assert node.dependsOn[..|node.dependsOn|] == node.dependsOn;
  }

  /** `id` is the id of the first isolated node. */
  ghost predicate FirstIsolated(plan: Plan, id: Id) {
    exists k: nat :: k < |plan| && plan[k].id == id && IsIsolated(plan, k) && forall j: nat :: j < k ==> !IsIsolated(plan, j)
  }

  method FindIsolated(plan: Plan) returns (found: Option<Id>)
    ensures found.None? <==> forall k: nat :: k < |plan| ==> !IsIsolated(plan, k)
    ensures found.Some? ==> FirstIsolated(plan, found.value)
  {
    var inDeg, outDeg := CountDegrees(plan);
    for n := 0 to |plan|
      invariant forall k: nat :: k < n ==> !IsIsolated(plan, k)
    {
      var id := plan[n].id;
      DeclaredSome(plan, |plan|, id);
      assert IsIsolated(plan, n) <==> Degree(inDeg, id) == 0 && Degree(outDeg, id) == 0;
      if Degree(inDeg, id) == 0 && Degree(outDeg, id) == 0 && |plan[n].dependsOn| == 0 {
        return Some(id);
      }
    }
    return None;
  }

  // --- the verdict --------------------------------------------------------------------------

  /** Accepted are exactly the plans of at most fifty nodes without isolated node and cycle on which the search does not get
      too deep. Acceptance comes with a rank function on all ids, and each refusal with its reason. So a plan without long
      paths is accepted, and so is one in execution order, however long its paths are. */
  method ValidateDAGTopology(plan: Plan) returns (err: Option<TopologyError>, ghost rank: map<Id, nat>)
    ensures err.None? <==> Passes(plan)
    ensures err.None? ==> Ranks(Adjacency(plan, |plan|), rank) && NodesRanked(plan, |plan|, rank)
    ensures err.Some? && err.value.TooManyNodes? <==> |plan| > MAX_NODES
    ensures err.Some? && err.value.Isolated? <==>
              1 < |plan| <= MAX_NODES && exists k: nat :: k < |plan| && IsIsolated(plan, k)
    ensures err.Some? && err.value.Isolated? ==> FirstIsolated(plan, err.value.id)
    ensures err.Some? && (err.value.CycleDetected? || err.value.DepthExceeded?) ==> Explains(plan, err.value)
    ensures Acceptable(plan) ==> err.None?
    ensures |plan| <= MAX_NODES && NoneIsolated(plan) && UniqueIds(plan) && InOrder(plan) ==> err.None?
  {
    rank := map[];
    if |plan| > MAX_NODES { return Some(TooManyNodes(|plan|)), rank; }
    var adj := BuildAdjacency(plan);
    AcceptablePasses(plan);
    InOrderPasses(plan);
    if |plan| > 1 {
      var isolated := FindIsolated(plan);
      if isolated.Some? { return Some(Isolated(isolated.value)), rank; }
    }
    err, rank := SearchAll(plan, adj);
    WalkExactly(plan);
  }

  ghost predicate NoneIsolated(plan: Plan) {
    |plan| > 1 ==> forall k: nat :: k < |plan| ==> !IsIsolated(plan, k)
  }

  ghost predicate Passes(plan: Plan) {
    |plan| <= MAX_NODES && NoneIsolated(plan) && !HasCycle(Adjacency(plan, |plan|)) && !TooDeep(plan)
  }

  lemma AcceptablePasses(plan: Plan)
    ensures Acceptable(plan) ==> Passes(plan)
  {
    forall t | DeepTrail(plan, t) ensures HasPathOver(Adjacency(plan, |plan|), MAX_DEPTH) {
      TrailIsPath(plan, t);
    }
  }

  lemma InOrderPasses(plan: Plan)
    ensures |plan| <= MAX_NODES && NoneIsolated(plan) && UniqueIds(plan) && InOrder(plan) ==> Passes(plan)
  {
    if UniqueIds(plan) && InOrder(plan) {
      InOrderNotDeep(plan);
      InOrderAcyclic(plan);
    }
  }

  method BuildAdjacency(plan: Plan) returns (adj: Graph)
    ensures adj == Adjacency(plan, |plan|)
  {
    adj := map[];
    for n := 0 to |plan|
      invariant adj == Adjacency(plan, n)
    {
      adj := adj[plan[n].id := plan[n].dependsOn];
    }
  }

  method SearchAll(plan: Plan, adj: Graph) returns (err: Option<TopologyError>, ghost rank: map<Id, nat>)
    requires adj == Adjacency(plan, |plan|)
    ensures match WalkNodes(plan, |plan|) case Failed(e) => err == Some(e) case Through(after) => err == None && rank == after
  {
    var search := new Search(adj);
    for n := 0 to |plan|
      invariant search.Valid() && search.stack == [] && fresh(search) && search.g == adj
      invariant WalkNodes(plan, n) == Through(search.rank)
    {
      err := search.VisitNode(plan[n].id);
      if err.Some? {
        WalkFailed(plan, n + 1, |plan|);
        return err, map[];
      }
    }
    return None, search.rank;
  }

  lemma {:induction false} WalkFailed(plan: Plan, m: nat, n: nat)
    requires m <= n <= |plan| && WalkNodes(plan, m).Failed?
    ensures WalkNodes(plan, n) == WalkNodes(plan, m)
    decreases n
  {
    if m < n {
      WalkFailed(plan, m, n - 1);
    }
  }
}
