/** The way down that a depth-first search takes: what it has finished before is not on it. */
module SearchOrder {
  import opened Plans

  /** From node `root` down, each time to dependency number `picks[k]` of the id before. */
  datatype Trail = Trail(root: nat, path: seq<Id>, picks: seq<nat>)

  predicate PickAt(g: Graph, t: Trail, k: nat)
    requires k < |t.picks| && k + 1 < |t.path|
  {
    t.picks[k] < |Deps(g, t.path[k])| && Deps(g, t.path[k])[t.picks[k]] == t.path[k + 1]
  }

  ghost predicate IsTrail(plan: Plan, t: Trail) {
    && t.root < |plan| && |t.path| == |t.picks| + 1 && t.path[0] == plan[t.root].id
    && forall k :: 0 <= k < |t.picks| ==> PickAt(Adjacency(plan, |plan|), t, k)
  }

  predicate SkippedAt(g: Graph, t: Trail, k: nat, m: nat, id: Id) {
    k < |t.picks| && k < |t.path| && m < t.picks[k] && m < |Deps(g, t.path[k])| && Deps(g, t.path[k])[m] == id
  }

  /** A node listed before the root, or a dependency listed before one that the trail takes. */
  ghost predicate Earlier(plan: Plan, t: Trail, id: Id) {
    (exists j :: 0 <= j < t.root && j < |plan| && plan[j].id == id) ||
    (exists k: nat, m: nat :: SkippedAt(Adjacency(plan, |plan|), t, k, m, id))
  }

  ghost predicate LeadsTo(plan: Plan, t: Trail, path: seq<Id>, id: Id) {
    Path(Adjacency(plan, |plan|), path) && Earlier(plan, t, path[0]) && path[|path| - 1] == id
  }

  /** Something earlier is the id or depends on it, directly or not. */
  ghost predicate ReachedEarlier(plan: Plan, t: Trail, id: Id) {
    exists path :: LeadsTo(plan, t, path, id)
  }

  /** No id on the trail is reached from what is listed earlier. */
  ghost predicate Untouched(plan: Plan, t: Trail) {
    forall k :: 0 <= k < |t.path| ==> !ReachedEarlier(plan, t, t.path[k])
  }

  ghost predicate DeepTrail(plan: Plan, t: Trail) {
    IsTrail(plan, t) && |t.path| == MAX_DEPTH + 2 && Untouched(plan, t)
  }

  /** Some trail has more than ten steps although nothing listed earlier reaches it. */
  ghost predicate TooDeep(plan: Plan) {
    exists t :: DeepTrail(plan, t)
  }

  ghost predicate ClosedAt(g: Graph, ids: iset<Id>, id: Id) {
    id in ids ==> forall n :: 0 <= n < |Deps(g, id)| ==> Deps(g, id)[n] in ids
  }

  ghost predicate Closed(g: Graph, ids: iset<Id>) {
    forall id :: ClosedAt(g, ids, id)
  }

  /** A set that is closed under dependencies, holds whatever is listed earlier, and nothing of the trail. */
  ghost predicate Apart(plan: Plan, t: Trail, behind: iset<Id>) {
    && Closed(Adjacency(plan, |plan|), behind)
    && (forall id :: Earlier(plan, t, id) ==> id in behind)
    && (forall k :: 0 <= k < |t.path| ==> t.path[k] !in behind)
  }

  ghost function AllReachedEarlier(plan: Plan, t: Trail): iset<Id> {
    iset id | ReachedEarlier(plan, t, id)
  }

  lemma UntouchedIsApart(plan: Plan, t: Trail)
    requires Untouched(plan, t)
    ensures Apart(plan, t, AllReachedEarlier(plan, t))
  {
    var behind, g := AllReachedEarlier(plan, t), Adjacency(plan, |plan|);
    forall id ensures ClosedAt(g, behind, id) {
      forall n | id in behind && 0 <= n < |Deps(g, id)| ensures Deps(g, id)[n] in behind {
        DepReached(plan, t, id, Deps(g, id)[n]);
      }
    }
    forall id | Earlier(plan, t, id) ensures id in behind {
      EarlierReached(plan, t, id);
    }
  }

  /** Every node depends only on nodes listed before it. */
  ghost predicate InOrder(plan: Plan) {
    forall i, d :: 0 <= i < |plan| && d in plan[i].dependsOn ==> exists j :: 0 <= j < i && plan[j].id == d
  }

  lemma EarlierReached(plan: Plan, t: Trail, id: Id)
    requires Earlier(plan, t, id)
    ensures ReachedEarlier(plan, t, id)
  {
    assert LeadsTo(plan, t, [id], id);
  }

  lemma DepReached(plan: Plan, t: Trail, id: Id, dep: Id)
    requires ReachedEarlier(plan, t, id) && dep in Deps(Adjacency(plan, |plan|), id)
    ensures ReachedEarlier(plan, t, dep)
  {
    var path :| LeadsTo(plan, t, path, id);
    PathSnoc(Adjacency(plan, |plan|), path, dep);
    assert LeadsTo(plan, t, path + [dep], dep);
  }

  lemma TrailIsPath(plan: Plan, t: Trail)
    requires IsTrail(plan, t)
    ensures Path(Adjacency(plan, |plan|), t.path)
  {
    var g := Adjacency(plan, |plan|);
    forall k | 0 < k < |t.path| ensures StepAt(g, t.path, k) {
      assert PickAt(g, t, k - 1);
    }
  }

  /** What is ranked is closed: if everything earlier is ranked, so is all that it reaches. */
  lemma RankedReach(plan: Plan, t: Trail, rank: map<Id, nat>, id: Id)
    requires Ranks(Adjacency(plan, |plan|), rank) && forall x :: Earlier(plan, t, x) ==> x in rank
    requires ReachedEarlier(plan, t, id)
    ensures id in rank
  {
    var path :| LeadsTo(plan, t, path, id);
    if |path| > 1 {
      RankFalls(Adjacency(plan, |plan|), rank, path);
    }
  }

  /** A plan in execution order is never too deep, however long its dependency paths are. */
  lemma InOrderNotDeep(plan: Plan)
    requires UniqueIds(plan) && InOrder(plan)
    ensures !TooDeep(plan)
  {
    forall t ensures !DeepTrail(plan, t) {
      if IsTrail(plan, t) && |t.path| == MAX_DEPTH + 2 {
        AdjacencyUnique(plan, |plan|, t.root);
        assert PickAt(Adjacency(plan, |plan|), t, 0);
        assert t.path[1] in plan[t.root].dependsOn;
        assert Earlier(plan, t, t.path[1]);
        EarlierReached(plan, t, t.path[1]);
      }
    }
  }

  /** The nodes in execution order are ranked by their positions. */
  lemma {:induction false} OrderRanks(plan: Plan, n: nat) returns (rank: map<Id, nat>)
    requires UniqueIds(plan) && InOrder(plan) && n <= |plan|
    ensures Ranks(Adjacency(plan, |plan|), rank)
    ensures forall id :: id in rank <==> exists i :: 0 <= i < n && plan[i].id == id
    ensures forall id :: id in rank ==> rank[id] < n
  {
    rank := map[];
    if n > 0 {
      rank := OrderRanks(plan, n - 1);
      var id, g := plan[n - 1].id, Adjacency(plan, |plan|);
      AdjacencyUnique(plan, |plan|, n - 1);
      var more := rank[id := n - 1];
      forall x ensures RankedAt(g, more, x) {
        assert RankedAt(g, rank, x);
        forall m | x in more && 0 <= m < |Deps(g, x)| ensures Deps(g, x)[m] in more && more[Deps(g, x)[m]] < more[x] {
          assert x == id ==> Deps(g, x)[m] in plan[n - 1].dependsOn;
        }
      }
      rank := more;
    }
  }

  lemma InOrderAcyclic(plan: Plan)
    requires UniqueIds(plan) && InOrder(plan)
    ensures !HasCycle(Adjacency(plan, |plan|))
  {
    var rank := OrderRanks(plan, |plan|);
    forall id | id in Adjacency(plan, |plan|) ensures id in rank {
      AdjacencyKeys(plan, |plan|, id);
    }
    RankedIsAcyclic(Adjacency(plan, |plan|), rank);
  }

  /** Each node depends on the next one alone. */
  ghost predicate Backwards(plan: Plan) {
    forall k :: 0 <= k < |plan| - 1 ==> plan[k].dependsOn == [plan[k + 1].id]
  }

  /** The same chain listed from its end is too deep from twelve nodes on: whether a plan passes depends on the order in
      which its nodes are listed. */
  lemma BackwardsIsDeep(plan: Plan)
    requires UniqueIds(plan) && Backwards(plan) && |plan| >= MAX_DEPTH + 2
    ensures TooDeep(plan)
  {
    var g := Adjacency(plan, |plan|);
    var t := Trail(0, seq(MAX_DEPTH + 2, k requires 0 <= k < MAX_DEPTH + 2 => plan[k].id), seq(MAX_DEPTH + 1, _ => 0));
    forall k | 0 <= k < |t.picks| ensures PickAt(g, t, k) {
      AdjacencyUnique(plan, |plan|, k);
      assert plan[k].dependsOn == [plan[k + 1].id];
    }
    forall id ensures !Earlier(plan, t, id) {
    }
    assert DeepTrail(plan, t);
  }
}

/** The depth-first search as a function of its stack and of the ranks of what it has left behind. */
module DepthFirst {
  import opened Plans
  import opened Sequences
  import opened SearchOrder

  datatype TopologyError = TooManyNodes(count: nat) | Isolated(id: Id) | DepthExceeded(id: Id) | CycleDetected(id: Id)

  datatype Walk = Failed(err: TopologyError) | Through(rank: map<Id, nat>)

  function WalkTo(g: Graph, stack: seq<Id>, id: Id, rank: map<Id, nat>): Walk
    requires |stack| <= MAX_DEPTH + 1
    decreases MAX_DEPTH + 1 - |stack|, 0, 0
  {
    if |stack| > MAX_DEPTH then Failed(DepthExceeded(id))
    else
      match WalkDeps(g, stack + [id], 0, rank)
      case Failed(err) => Failed(err)
      case Through(after) => Through(after[id := |after|])
  }

  /** The dependencies from number `n` on of the id on top of the stack. */
  function WalkDeps(g: Graph, stack: seq<Id>, n: nat, rank: map<Id, nat>): Walk
    requires 0 < |stack| <= MAX_DEPTH + 1 && n <= |Deps(g, Last(stack))|
    decreases MAX_DEPTH + 1 - |stack|, 1, |Deps(g, Last(stack))| - n
  {
    var deps := Deps(g, Last(stack));
    if n == |deps| then Through(rank)
    else if deps[n] in stack then Failed(CycleDetected(deps[n]))
    else if deps[n] in rank then WalkDeps(g, stack, n + 1, rank)
    else
      match WalkTo(g, stack, deps[n], rank)
      case Failed(err) => Failed(err)
      case Through(after) => WalkDeps(g, stack, n + 1, after)
  }

  /** The first `n` nodes of the plan. */
  function WalkNodes(plan: Plan, n: nat): Walk
    requires n <= |plan|
  {
    if n == 0 then Through(map[])
    else
      match WalkNodes(plan, n - 1)
      case Failed(err) => Failed(err)
      case Through(rank) =>
        var id := plan[n - 1].id;
        if id in rank then Through(rank) else WalkTo(Adjacency(plan, |plan|), [], id, rank)
  }

  // --- ranks ---------------------------------------------------------------------------------

  ghost predicate UpTo(ids: seq<Id>, n: nat, rank: map<Id, nat>) {
    n <= |ids| && forall m :: 0 <= m < n ==> ids[m] in rank
  }

  ghost predicate Kept(rank: map<Id, nat>, rank': map<Id, nat>) {
    forall id :: id in rank ==> id in rank'
  }

  ghost predicate Bounded(rank: map<Id, nat>) {
    forall id :: id in rank ==> rank[id] < |rank|
  }

  lemma RankOneMore(g: Graph, rank: map<Id, nat>, id: Id)
    requires Ranks(g, rank) && Bounded(rank) && id !in rank
    requires UpTo(Deps(g, id), |Deps(g, id)|, rank)
    ensures Ranks(g, rank[id := |rank|]) && Bounded(rank[id := |rank|])
  {
    var more := rank[id := |rank|];
    assert more.Keys == rank.Keys + {id} && |more| == |rank| + 1;
    forall x ensures RankedAt(g, more, x) {
      var deps := Deps(g, x);
      assert RankedAt(g, rank, x);
      forall n | x in more && 0 <= n < |deps| ensures deps[n] in more && more[deps[n]] < more[x] {
        assert deps[n] in rank && deps[n] != id;
      }
    }
  }

  ghost predicate Disjoint(stack: seq<Id>, rank: map<Id, nat>) {
    forall id :: id in stack ==> id !in rank
  }

  ghost predicate Sound(g: Graph, stack: seq<Id>, rank: map<Id, nat>) {
    Ranks(g, rank) && Bounded(rank) && Disjoint(stack, rank)
  }

  lemma {:induction false} WalkToRanks(g: Graph, stack: seq<Id>, id: Id, rank: map<Id, nat>)
    requires |stack| <= MAX_DEPTH + 1 && Sound(g, stack, rank) && id !in stack && id !in rank
    ensures var w := WalkTo(g, stack, id, rank);
            w.Through? ==> Sound(g, stack, w.rank) && Kept(rank, w.rank) && id in w.rank
    decreases MAX_DEPTH + 1 - |stack|, 0, 0
  {
    if |stack| <= MAX_DEPTH {
      var w := WalkDeps(g, stack + [id], 0, rank);
      WalkDepsRanks(g, stack + [id], 0, rank);
      if w.Through? {
        assert id in stack + [id] && forall x :: x in stack ==> x in stack + [id];
        RankOneMore(g, w.rank, id);
      }
    }
  }

  lemma {:induction false} WalkDepsRanks(g: Graph, stack: seq<Id>, n: nat, rank: map<Id, nat>)
    requires 0 < |stack| <= MAX_DEPTH + 1 && n <= |Deps(g, Last(stack))|
    requires Sound(g, stack, rank) && UpTo(Deps(g, Last(stack)), n, rank)
    ensures var w := WalkDeps(g, stack, n, rank);
            w.Through? ==> Sound(g, stack, w.rank) && Kept(rank, w.rank) && UpTo(Deps(g, Last(stack)), |Deps(g, Last(stack))|, w.rank)
    decreases MAX_DEPTH + 1 - |stack|, 1, |Deps(g, Last(stack))| - n
  {
    var deps := Deps(g, Last(stack));
    if n < |deps| && deps[n] !in stack {
      if deps[n] in rank {
        WalkDepsRanks(g, stack, n + 1, rank);
      } else {
        WalkToRanks(g, stack, deps[n], rank);
        var w := WalkTo(g, stack, deps[n], rank);
        if w.Through? {
          WalkDepsRanks(g, stack, n + 1, w.rank);
        }
      }
    }
  }

  // --- what a failure means --------------------------------------------------------------------

  /** Some cycle goes through the id. */
  ghost predicate OnCycle(g: Graph, id: Id) {
    exists path :: Cycle(g, path) && path[0] == id
  }

  lemma CycleOnStack(g: Graph, stack: seq<Id>, dep: Id)
    requires Path(g, stack) && dep in stack && dep in Deps(g, stack[|stack| - 1])
    ensures OnCycle(g, dep)
  {
    var k :| 0 <= k < |stack| && stack[k] == dep;
    PathPiece(g, stack, k, |stack|);
    assert stack[k..] == stack[k..|stack|];
    PathSnoc(g, stack[k..], dep);
    assert Cycle(g, stack[k..] + [dep]);
  }

  /** Where the search is: it started from node `root`, and each id on the stack looks at its dependency number `at`. */
  datatype Descent = Descent(root: nat, stack: seq<Id>, at: seq<nat>)

  predicate LooksAt(g: Graph, p: Descent, k: nat, id: Id)
    requires k < |p.stack| == |p.at|
  {
    p.at[k] < |Deps(g, p.stack[k])| && Deps(g, p.stack[k])[p.at[k]] == id
  }

  predicate Linked(g: Graph, p: Descent, k: nat)
    requires k + 1 < |p.stack| == |p.at|
  {
    LooksAt(g, p, k, p.stack[k + 1])
  }

  /** What the id at `k` has looked at is ranked. */
  ghost predicate DoneAt(g: Graph, p: Descent, rank: map<Id, nat>, k: nat)
    requires k < |p.stack| == |p.at|
  {
    UpTo(Deps(g, p.stack[k]), p.at[k], rank)
  }

  /** The stack is a path down from the root, and all that lies before it is ranked. */
  ghost predicate DescentOk(plan: Plan, p: Descent, rank: map<Id, nat>) {
    && |p.at| == |p.stack| && NodesRanked(plan, p.root, rank)
    && (p.stack != [] ==> p.root < |plan| && p.stack[0] == plan[p.root].id && Path(Adjacency(plan, |plan|), p.stack))
    && (forall k :: 0 <= k && k + 1 < |p.stack| ==> Linked(Adjacency(plan, |plan|), p, k))
    && (forall k :: 0 <= k < |p.stack| ==> DoneAt(Adjacency(plan, |plan|), p, rank, k))
  }

  /** The search is about to go to `id`. */
  ghost predicate GoesTo(plan: Plan, p: Descent, id: Id) {
    && |p.at| == |p.stack|
    && if p.stack == [] then p.root < |plan| && id == plan[p.root].id
       else LooksAt(Adjacency(plan, |plan|), p, |p.stack| - 1, id)
  }

  function Pushed(p: Descent, id: Id): Descent {
    p.(stack := p.stack + [id], at := p.at + [0])
  }

  function LookingAt(p: Descent, n: nat): Descent
    requires p.at != []
  {
    p.(at := p.at[|p.at| - 1 := n])
  }

  lemma DescentPushed(plan: Plan, p: Descent, rank: map<Id, nat>, id: Id)
    requires DescentOk(plan, p, rank) && GoesTo(plan, p, id)
    ensures DescentOk(plan, Pushed(p, id), rank)
  {
    var g, q := Adjacency(plan, |plan|), Pushed(p, id);
    PathSnoc(g, p.stack, id);
    forall k | 0 <= k && k + 1 < |q.stack| ensures Linked(g, q, k) {
      assert k + 1 < |p.stack| ==> Linked(g, p, k);
    }
    forall k | 0 <= k < |q.stack| ensures DoneAt(g, q, rank, k) {
      assert k < |p.stack| ==> DoneAt(g, p, rank, k);
    }
  }

  lemma DescentMoved(plan: Plan, p: Descent, rank: map<Id, nat>, id: Id)
    requires DescentOk(plan, p, rank) && p.stack != [] && GoesTo(plan, p, id) && id in rank
    ensures DescentOk(plan, LookingAt(p, p.at[|p.at| - 1] + 1), rank)
  {
    var g, top := Adjacency(plan, |plan|), |p.at| - 1;
    var q := LookingAt(p, p.at[top] + 1);
    assert DoneAt(g, p, rank, top);
    forall k | 0 <= k && k + 1 < |q.stack| ensures Linked(g, q, k) {
      assert Linked(g, p, k);
    }
    forall k | 0 <= k < |q.stack| ensures DoneAt(g, q, rank, k) {
      assert DoneAt(g, p, rank, k);
    }
  }

  lemma DescentKept(plan: Plan, p: Descent, rank: map<Id, nat>, rank': map<Id, nat>)
    requires DescentOk(plan, p, rank) && Kept(rank, rank')
    ensures DescentOk(plan, p, rank')
  {
    forall k | 0 <= k < |p.stack| ensures DoneAt(Adjacency(plan, |plan|), p, rank', k) {
      assert DoneAt(Adjacency(plan, |plan|), p, rank, k);
    }
  }

  /** A failing search has come down a trail that leads to a cycle or too deep. */
  ghost predicate Explains(plan: Plan, err: TopologyError) {
    match err
    case CycleDetected(id) => OnCycle(Adjacency(plan, |plan|), id)
    case DepthExceeded(id) => exists t :: DeepTrail(plan, t) && t.path[MAX_DEPTH + 1] == id
    case _ => false
  }

  ghost predicate Within(rank: map<Id, nat>, behind: iset<Id>) {
    forall id :: id in rank ==> id in behind
  }

  /** A trail that is too deep, and what is reached from earlier. */
  ghost predicate IsGoal(plan: Plan, t: Trail, behind: iset<Id>) {
    IsTrail(plan, t) && |t.path| == MAX_DEPTH + 2 && Apart(plan, t, behind)
  }

  lemma {:induction false} WalkToFails(plan: Plan, p: Descent, id: Id, rank: map<Id, nat>)
    requires |p.stack| <= MAX_DEPTH + 1 && id !in p.stack && id !in rank
    requires Sound(Adjacency(plan, |plan|), p.stack, rank) && DescentOk(plan, p, rank) && GoesTo(plan, p, id)
    ensures var w := WalkTo(Adjacency(plan, |plan|), p.stack, id, rank); w.Failed? ==> Explains(plan, w.err)
    decreases MAX_DEPTH + 1 - |p.stack|, 0, 0
  {
    if |p.stack| > MAX_DEPTH {
      CameDown(plan, p, rank, id);
    } else {
      DescentPushed(plan, p, rank, id);
      WalkDepsFails(plan, Pushed(p, id), rank);
    }
  }

  lemma {:induction false} WalkDepsFails(plan: Plan, p: Descent, rank: map<Id, nat>)
    requires 0 < |p.stack| == |p.at| <= MAX_DEPTH + 1 && Last(p.at) <= |Deps(Adjacency(plan, |plan|), Last(p.stack))|
    requires Sound(Adjacency(plan, |plan|), p.stack, rank) && DescentOk(plan, p, rank)
    ensures var w := WalkDeps(Adjacency(plan, |plan|), p.stack, Last(p.at), rank); w.Failed? ==> Explains(plan, w.err)
    decreases MAX_DEPTH + 1 - |p.stack|, 1, |Deps(Adjacency(plan, |plan|), Last(p.stack))| - Last(p.at)
  {
    var g, n := Adjacency(plan, |plan|), Last(p.at);
    var deps := Deps(g, Last(p.stack));
    if n < |deps| {
      if deps[n] in p.stack {
        CycleOnStack(g, p.stack, deps[n]);
      } else if deps[n] in rank {
        DescentMoved(plan, p, rank, deps[n]);
        WalkDepsFails(plan, LookingAt(p, n + 1), rank);
      } else {
        WalkToFails(plan, p, deps[n], rank);
        WalkToRanks(g, p.stack, deps[n], rank);
        var w := WalkTo(g, p.stack, deps[n], rank);
        if w.Through? {
          DescentKept(plan, p, rank, w.rank);
          DescentMoved(plan, p, w.rank, deps[n]);
          WalkDepsFails(plan, LookingAt(p, n + 1), w.rank);
        }
      }
    }
  }

  // --- a trail that is too deep makes the search fail -------------------------------------------

  /** A search that has come down to `id` too deep has come down a trail. */
  lemma CameDown(plan: Plan, p: Descent, rank: map<Id, nat>, id: Id)
    requires DescentOk(plan, p, rank) && GoesTo(plan, p, id) && |p.stack| == MAX_DEPTH + 1
    requires Ranks(Adjacency(plan, |plan|), rank) && id !in rank && forall x :: x in p.stack ==> x !in rank
    ensures DeepTrail(plan, Trail(p.root, p.stack + [id], p.at))
  {
    var g, t := Adjacency(plan, |plan|), Trail(p.root, p.stack + [id], p.at);
    forall k | 0 <= k < |t.picks| ensures PickAt(g, t, k) {
      assert k + 1 < |p.stack| ==> Linked(g, p, k);
    }
    forall x | Earlier(plan, t, x) ensures x in rank {
      if k: nat, m: nat :| SkippedAt(g, t, k, m, x) {
        assert DoneAt(g, p, rank, k);
      }
    }
    forall k | 0 <= k < |t.path| ensures !ReachedEarlier(plan, t, t.path[k]) {
      assert t.path[k] == id || t.path[k] in p.stack;
      if ReachedEarlier(plan, t, t.path[k]) {
        RankedReach(plan, t, rank, t.path[k]);
      }
    }
  }

  /** On its way down the trail `t` the search is about to go to `id`. */
  ghost predicate Heads(t: Trail, p: Descent, id: Id) {
    p.root == t.root && p.stack + [id] <= t.path && p.at <= t.picks && |p.at| == |p.stack|
  }

  /** On its way down the trail the search has put the last id on the stack and looks at a dependency of it. */
  ghost predicate OnTheWay(t: Trail, p: Descent) {
    && p.root == t.root && p.stack <= t.path && 0 < |p.stack| == |p.at| <= |t.picks|
    && p.at[..|p.at| - 1] <= t.picks && p.at[|p.at| - 1] <= t.picks[|p.at| - 1]
  }

  /** That is on the trail too, or skipped by it. */
  lemma OnTheWayDown(plan: Plan, t: Trail, behind: iset<Id>, p: Descent, id: Id)
    requires IsGoal(plan, t, behind) && OnTheWay(t, p) && GoesTo(plan, p, id)
    ensures Heads(t, p, id) || (id in behind && OnTheWay(t, LookingAt(p, p.at[|p.at| - 1] + 1)))
  {
    var g, top := Adjacency(plan, |plan|), |p.at| - 1;
    assert PickAt(g, t, top);
    if p.at[top] == t.picks[top] {
      assert p.at == p.at[..top] + [p.at[top]];
    } else {
      assert SkippedAt(g, t, top, p.at[top], id);
      assert LookingAt(p, p.at[top] + 1).at[..top] == p.at[..top];
    }
  }

  lemma HeadsPushed(plan: Plan, t: Trail, behind: iset<Id>, p: Descent, id: Id)
    requires IsGoal(plan, t, behind) && Heads(t, p, id) && |p.stack| <= MAX_DEPTH
    ensures OnTheWay(t, Pushed(p, id))
  {
    assert (p.at + [0])[..|p.at|] == p.at;
  }

  /** What a trail leads to is not reached before. */
  lemma HeadsApart(plan: Plan, t: Trail, behind: iset<Id>, p: Descent, id: Id)
    requires IsGoal(plan, t, behind) && Heads(t, p, id)
    ensures id !in behind
  {
    assert t.path[|p.stack|] == id;
  }

  lemma NotPastTheEnd(plan: Plan, t: Trail, behind: iset<Id>, p: Descent)
    requires IsGoal(plan, t, behind) && OnTheWay(t, p)
    ensures p.at[|p.at| - 1] < |Deps(Adjacency(plan, |plan|), p.stack[|p.at| - 1])|
  {
    assert PickAt(Adjacency(plan, |plan|), t, |p.at| - 1);
  }

  /** From an id that is reached from earlier the search comes to nothing else. */
  lemma {:induction false} WalkToWithin(g: Graph, stack: seq<Id>, id: Id, rank: map<Id, nat>, behind: iset<Id>)
    requires |stack| <= MAX_DEPTH + 1 && Closed(g, behind) && Within(rank, behind) && id in behind
    ensures var w := WalkTo(g, stack, id, rank); w.Through? ==> Within(w.rank, behind)
    decreases MAX_DEPTH + 1 - |stack|, 0, 0
  {
    if |stack| <= MAX_DEPTH {
      WalkDepsWithin(g, stack + [id], 0, rank, behind);
    }
  }

  lemma {:induction false} WalkDepsWithin(g: Graph, stack: seq<Id>, n: nat, rank: map<Id, nat>, behind: iset<Id>)
    requires 0 < |stack| <= MAX_DEPTH + 1 && n <= |Deps(g, Last(stack))|
    requires Closed(g, behind) && Within(rank, behind) && Last(stack) in behind
    ensures var w := WalkDeps(g, stack, n, rank); w.Through? ==> Within(w.rank, behind)
    decreases MAX_DEPTH + 1 - |stack|, 1, |Deps(g, Last(stack))| - n
  {
    var deps := Deps(g, Last(stack));
    if n < |deps| && deps[n] !in stack {
      if deps[n] in rank {
        WalkDepsWithin(g, stack, n + 1, rank, behind);
      } else {
        assert ClosedAt(g, behind, Last(stack));
        WalkToWithin(g, stack, deps[n], rank, behind);
        var w := WalkTo(g, stack, deps[n], rank);
        if w.Through? {
          WalkDepsWithin(g, stack, n + 1, w.rank, behind);
        }
      }
    }
  }

  lemma {:induction false} WalkToGoal(plan: Plan, t: Trail, behind: iset<Id>, p: Descent, id: Id, rank: map<Id, nat>)
    requires IsGoal(plan, t, behind) && Within(rank, behind) && Heads(t, p, id)
    ensures |p.stack| <= MAX_DEPTH + 1 && WalkTo(Adjacency(plan, |plan|), p.stack, id, rank).Failed?
    decreases MAX_DEPTH + 1 - |p.stack|, 0, 0
  {
    if |p.stack| <= MAX_DEPTH {
      HeadsPushed(plan, t, behind, p, id);
      WalkDepsGoal(plan, t, behind, Pushed(p, id), rank);
    }
  }

  lemma {:induction false} WalkDepsGoal(plan: Plan, t: Trail, behind: iset<Id>, p: Descent, rank: map<Id, nat>)
    requires IsGoal(plan, t, behind) && Within(rank, behind) && OnTheWay(t, p)
    ensures |p.stack| <= MAX_DEPTH + 1 && Last(p.at) <= |Deps(Adjacency(plan, |plan|), Last(p.stack))|
    ensures WalkDeps(Adjacency(plan, |plan|), p.stack, Last(p.at), rank).Failed?
    decreases MAX_DEPTH + 1 - |p.stack|, 1, t.picks[|p.at| - 1] - Last(p.at)
  {
    var g, n := Adjacency(plan, |plan|), Last(p.at);
    NotPastTheEnd(plan, t, behind, p);
    var dep := Deps(g, Last(p.stack))[n];
    OnTheWayDown(plan, t, behind, p, dep);
    if dep !in p.stack {
      if Heads(t, p, dep) {
        HeadsApart(plan, t, behind, p, dep);
        WalkToGoal(plan, t, behind, p, dep, rank);
      } else if dep in rank {
        WalkDepsGoal(plan, t, behind, LookingAt(p, n + 1), rank);
      } else {
        WalkToWithin(g, p.stack, dep, rank, behind);
        var w := WalkTo(g, p.stack, dep, rank);
        if w.Through? {
          WalkDepsGoal(plan, t, behind, LookingAt(p, n + 1), w.rank);
        }
      }
    }
  }

  // --- the whole search -----------------------------------------------------------------------

  lemma {:induction false} WalkNodesRanks(plan: Plan, n: nat)
    requires n <= |plan|
    ensures var w := WalkNodes(plan, n);
            w.Through? ==> Sound(Adjacency(plan, |plan|), [], w.rank) && NodesRanked(plan, n, w.rank)
  {
    if n > 0 {
      WalkNodesRanks(plan, n - 1);
      var before, id := WalkNodes(plan, n - 1), plan[n - 1].id;
      if before.Through? && id !in before.rank {
        WalkToRanks(Adjacency(plan, |plan|), [], id, before.rank);
      }
    }
  }

  lemma {:induction false} WalkNodesFails(plan: Plan, n: nat)
    requires n <= |plan|
    ensures WalkNodes(plan, n).Failed? ==> Explains(plan, WalkNodes(plan, n).err)
  {
    if n > 0 {
      WalkNodesFails(plan, n - 1);
      WalkNodesRanks(plan, n - 1);
      var before, id := WalkNodes(plan, n - 1), plan[n - 1].id;
      if before.Through? && id !in before.rank {
        WalkToFails(plan, Descent(n - 1, [], []), id, before.rank);
      }
    }
  }

  lemma {:induction false} WalkNodesGoal(plan: Plan, t: Trail, behind: iset<Id>, n: nat)
    requires IsGoal(plan, t, behind) && n <= |plan|
    ensures var w := WalkNodes(plan, n); w.Through? ==> n <= t.root && Within(w.rank, behind)
  {
    if n > 0 {
      WalkNodesGoal(plan, t, behind, n - 1);
      var before, id := WalkNodes(plan, n - 1), plan[n - 1].id;
      if before.Through? {
        FromNode(plan, t, behind, n - 1);
        if n - 1 == t.root {
          WalkToGoal(plan, t, behind, Descent(n - 1, [], []), id, before.rank);
        } else if id !in before.rank {
          WalkToWithin(Adjacency(plan, |plan|), [], id, before.rank, behind);
        }
      }
    }
  }

  /** Node `n` is where the trail begins, or listed before it. */
  lemma FromNode(plan: Plan, t: Trail, behind: iset<Id>, n: nat)
    requires IsGoal(plan, t, behind) && n <= t.root
    ensures if n == t.root then Heads(t, Descent(n, [], []), plan[n].id) && plan[n].id !in behind else plan[n].id in behind
  {
    if n == t.root {
      HeadsApart(plan, t, behind, Descent(n, [], []), plan[n].id);
    } else {
      assert Earlier(plan, t, plan[n].id);
    }
  }

  /** A search that gets through proves that there is neither a cycle nor a trail that is too deep; one that fails has met
      what it reports. */
  lemma WalkExactly(plan: Plan)
    ensures var w := WalkNodes(plan, |plan|);
            && (w.Through? <==> !HasCycle(Adjacency(plan, |plan|)) && !TooDeep(plan))
            && (w.Through? ==> Ranks(Adjacency(plan, |plan|), w.rank) && NodesRanked(plan, |plan|, w.rank))
            && (w.Failed? ==> Explains(plan, w.err))
  {
    var w, g := WalkNodes(plan, |plan|), Adjacency(plan, |plan|);
    WalkNodesRanks(plan, |plan|);
    WalkNodesFails(plan, |plan|);
    if w.Through? {
      forall id | id in g ensures id in w.rank {
        AdjacencyKeys(plan, |plan|, id);
      }
      RankedIsAcyclic(g, w.rank);
      forall t ensures !DeepTrail(plan, t) {
        if DeepTrail(plan, t) {
          UntouchedIsApart(plan, t);
          WalkNodesGoal(plan, t, AllReachedEarlier(plan, t), |plan|);
        }
      }
    }
  }
}
