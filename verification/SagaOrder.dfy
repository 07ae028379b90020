/** Saga compensation: what is undone, in which order, and when. */
module SagaOrder {
  import opened Options
  import opened Plans
  import opened DagRuns

  /** A success whose node has a compensation. */
  predicate Undoable(plan: Plan, r: NodeResult) {
    r.node < |plan| && !r.failed && plan[r.node].compensation.Some?
  }

  /** The compensation of the node, with the node's taint instead of its own. */
  function Inherited(plan: Plan, r: NodeResult): Compensation
    requires Undoable(plan, r)
  {
    var c := plan[r.node].compensation.value;
    Compensation(c.toolName, c.args, plan[r.node].taintLevel)
  }

  /** The positions of the undoable results, in completion order. */
  function Positions(plan: Plan, settled: seq<NodeResult>): seq<nat> {
    if settled == [] then []
    else
      var n := |settled| - 1;
      Positions(plan, settled[..n]) + if Undoable(plan, settled[n]) then [n] else []
  }

  lemma {:induction false} PositionsExact(plan: Plan, settled: seq<NodeResult>)
    ensures forall k :: 0 <= k < |Positions(plan, settled)| ==>
              Positions(plan, settled)[k] < |settled| && Undoable(plan, settled[Positions(plan, settled)[k]])
    ensures forall k, l :: 0 <= k < l < |Positions(plan, settled)| ==> Positions(plan, settled)[k] < Positions(plan, settled)[l]
    ensures forall a :: 0 <= a < |settled| && Undoable(plan, settled[a]) ==> a in Positions(plan, settled)
  {
    if settled != [] {
      var n := |settled| - 1;
      PositionsExact(plan, settled[..n]);
      var p := Positions(plan, settled[..n]);
      forall a | 0 <= a < |settled| && Undoable(plan, settled[a]) ensures a in Positions(plan, settled) {
        if a < n {
          assert settled[..n][a] == settled[a];
          assert a in p;
        } else {
          assert Positions(plan, settled)[|p|] == n;
        }
      }
    }
  }

  /** The `k`-th undo is for the `k`-th undoable result from the end. */
  function Undone(plan: Plan, settled: seq<NodeResult>, k: nat): (r: NodeResult)
    requires k < |Positions(plan, settled)|
    ensures r in settled && Undoable(plan, r)
  {
    PositionsExact(plan, settled);
    settled[Positions(plan, settled)[|Positions(plan, settled)| - 1 - k]]
  }

  ghost predicate IsReverseCompletion(plan: Plan, settled: seq<NodeResult>, undo: seq<Compensation>) {
    && |undo| == |Positions(plan, settled)|
    && forall k :: 0 <= k < |undo| ==> UndoesAt(plan, settled, undo[k], k)
  }

  /** `c` undoes the `k`-th undoable result from the end. */
  predicate UndoesAt(plan: Plan, settled: seq<NodeResult>, c: Compensation, k: nat) {
    k < |Positions(plan, settled)| && c == Inherited(plan, Undone(plan, settled, k))
  }

  lemma PositionsMore(plan: Plan, settled: seq<NodeResult>, r: NodeResult)
    ensures Positions(plan, settled + [r]) == Positions(plan, settled) + if Undoable(plan, r) then [|settled|] else []
  {
    assert (settled + [r])[..|settled|] == settled;
  }

  lemma UndoesMore(plan: Plan, settled: seq<NodeResult>, r: NodeResult, c: Compensation, k: nat)
    requires UndoesAt(plan, settled, c, k)
    ensures UndoesAt(plan, settled + [r], c, if Undoable(plan, r) then k + 1 else k)
  {
    PositionsMore(plan, settled, r);
    PositionsExact(plan, settled);
    var p := Positions(plan, settled);
    assert p[|p| - 1 - k] < |settled|;
  }

  lemma UndoSame(plan: Plan, settled: seq<NodeResult>, undo: seq<Compensation>, r: NodeResult)
    requires IsReverseCompletion(plan, settled, undo) && !Undoable(plan, r)
    ensures IsReverseCompletion(plan, settled + [r], undo)
  {
    PositionsMore(plan, settled, r);
    forall k | 0 <= k < |undo| ensures UndoesAt(plan, settled + [r], undo[k], k) {
      UndoesMore(plan, settled, r, undo[k], k);
    }
  }

  lemma UndoFirst(plan: Plan, settled: seq<NodeResult>, undo: seq<Compensation>, r: NodeResult)
    requires IsReverseCompletion(plan, settled, undo) && Undoable(plan, r)
    ensures IsReverseCompletion(plan, settled + [r], [Inherited(plan, r)] + undo)
  {
    var longer := [Inherited(plan, r)] + undo;
    PositionsMore(plan, settled, r);
    forall k | 0 <= k < |longer| ensures UndoesAt(plan, settled + [r], longer[k], k) {
      if k > 0 {
        assert longer[k] == undo[k - 1];
        UndoesMore(plan, settled, r, undo[k - 1], k - 1);
      }
    }
  }

  lemma UndoStep(plan: Plan, s: State, e: Event)
    requires Legal(plan, s, e) && IsReverseCompletion(plan, s.settled, s.undo)
    requires e.Settle? ==> s.place[e.node].result.node == e.node
    ensures IsReverseCompletion(plan, Next(plan, s, e).settled, Next(plan, s, e).undo)
  {
    if e.Settle? {
      var r := s.place[e.node].result;
      if Undoable(plan, r) {
        UndoFirst(plan, s.settled, s.undo, r);
      } else {
        UndoSame(plan, s.settled, s.undo, r);
      }
    }
  }

  /** Under every interleaving the undo queue is exactly the compensations of the nodes that succeeded, the latest
      first, each with its node's taint. */
  lemma {:induction false} UndoIsReverseCompletion(plan: Plan, log: seq<Event>)
    requires Valid(plan, log)
    ensures IsReverseCompletion(plan, Run(plan, log).settled, Run(plan, log).undo)
  {
    if log != [] {
      var rest := log[..|log| - 1];
      UndoIsReverseCompletion(plan, rest);
      AlwaysInv(plan, rest);
      UndoStep(plan, Run(plan, rest), log[|log| - 1]);
    }
  }

  /** Every result came after what it depends on. */
  ghost predicate InOrder(plan: Plan, settled: seq<NodeResult>) {
    forall a :: 0 <= a < |settled| ==> settled[a].node < |plan| && DepsProduced(plan, settled, a, settled[a].node)
  }

  lemma AlwaysInOrder(plan: Plan, log: seq<Event>)
    requires Valid(plan, log)
    ensures InOrder(plan, Run(plan, log).settled) && Distinct(Run(plan, log).settled)
  {
    AlwaysInv(plan, log);
  }

  lemma {:induction false} DirectBefore(plan: Plan, settled: seq<NodeResult>, a: nat, dep: Id) returns (b: nat)
    requires InOrder(plan, settled) && UniqueIds(plan) && a < |settled|
    requires dep in Deps(Adjacency(plan, |plan|), plan[settled[a].node].id)
    ensures b < a && Produces(plan, settled[b], dep)
  {
    var i := settled[a].node;
    AdjacencyUnique(plan, |plan|, i);
    var m :| 0 <= m < |plan[i].dependsOn| && plan[i].dependsOn[m] == dep;
    assert Produced(plan, settled, a, plan[i].dependsOn[m]);
    b :| 0 <= b < a && b < |settled| && Produces(plan, settled[b], dep);
  }

  /** Along a dependency path, results lie further and further back. */
  lemma {:induction false} SettledBefore(plan: Plan, settled: seq<NodeResult>, path: seq<Id>, a: nat) returns (b: nat)
    requires InOrder(plan, settled) && UniqueIds(plan) && a < |settled|
    requires Path(Adjacency(plan, |plan|), path) && |path| > 1 && plan[settled[a].node].id == path[0]
    ensures b < a && Produces(plan, settled[b], path[|path| - 1])
    decreases |path|
  {
    assert StepAt(Adjacency(plan, |plan|), path, 1);
    b := DirectBefore(plan, settled, a, path[1]);
    if |path| > 2 {
      PathPiece(Adjacency(plan, |plan|), path, 1, |path|);
      b := SettledBefore(plan, settled, path[1..|path|], b);
    }
  }

  lemma SameNode(plan: Plan, settled: seq<NodeResult>, b: nat, c: nat)
    requires UniqueIds(plan) && Distinct(settled) && InOrder(plan, settled) && b < |settled| && c < |settled|
    requires plan[settled[b].node].id == plan[settled[c].node].id
    ensures b == c
  {
    SameId(plan, settled[b].node, settled[c].node);
  }

  /** Node `i` depends on node `j`, directly or through others. */
  ghost predicate DependsOn(plan: Plan, i: nat, j: nat) {
    i < |plan| && j < |plan| && exists path :: PathBetween(plan, path, plan[i].id, plan[j].id)
  }

  ghost predicate PathBetween(plan: Plan, path: seq<Id>, from: Id, to: Id) {
    Path(Adjacency(plan, |plan|), path) && |path| > 1 && path[0] == from && path[|path| - 1] == to
  }

  /** The `k`-th entry of the undo queue belongs to node `i`. */
  predicate UndoIsOf(plan: Plan, s: State, k: nat, i: nat) {
    k < |Positions(plan, s.settled)| && Undone(plan, s.settled, k).node == i
  }

  lemma QueueOrder(plan: Plan, s: State, k: nat, l: nat, i: nat, j: nat)
    requires UniqueIds(plan) && InOrder(plan, s.settled) && Distinct(s.settled)
    requires UndoIsOf(plan, s, k, i) && UndoIsOf(plan, s, l, j) && DependsOn(plan, i, j)
    ensures k < l
  {
    var p := Positions(plan, s.settled);
    PositionsExact(plan, s.settled);
    var path :| PathBetween(plan, path, plan[i].id, plan[j].id);
    var b := SettledBefore(plan, s.settled, path, p[|p| - 1 - k]);
    SameNode(plan, s.settled, b, p[|p| - 1 - l]);
  }

  /** The undo of a node comes before the undo of anything it depends on, directly or not. */
  lemma {:induction false} UndoneBeforeItsDependencies(plan: Plan, log: seq<Event>, k: nat, l: nat, i: nat, j: nat)
    requires Valid(plan, log) && UniqueIds(plan) && DependsOn(plan, i, j)
    requires UndoIsOf(plan, Run(plan, log), k, i) && UndoIsOf(plan, Run(plan, log), l, j)
    ensures k < l
  {
    AlwaysInOrder(plan, log);
    QueueOrder(plan, Run(plan, log), k, l, i, j);
  }

  /** The turns of runCompensation, in order. */
  function Turns(log: seq<Event>): seq<Compensation> {
    if log == [] then []
    else
      var e := log[|log| - 1];
      Turns(log[..|log| - 1]) + if e.Undo? then [e.action] else []
  }

  /** The compensations that are called: in replay mode a turn calls nothing. */
  function Attempted(log: seq<Event>): seq<Compensation> {
    if log == [] then []
    else
      var e := log[|log| - 1];
      Attempted(log[..|log| - 1]) + if e.Undo? && e.called then [e.action] else []
  }

  predicate TimedOut(log: seq<Event>) {
    exists n :: 0 <= n < |log| && log[n].TimeOut?
  }

  /** No turn is taken in replay mode. */
  predicate AllCalled(log: seq<Event>) {
    forall n :: 0 <= n < |log| && log[n].Undo? ==> log[n].called
  }

  ghost predicate TurnsOk(s: State, turns: seq<Compensation>, timedOut: bool) {
    match s.phase
    case Compensating(n) => n <= |s.undo| && turns == s.undo[..n] && !timedOut
    case Returned(false) => turns <= s.undo && (turns == s.undo <==> !timedOut)
    case _ => turns == [] && !timedOut
  }

  /** Compensation walks down the undo queue, each entry once, and to its end exactly if the deadline does not pass. */
  lemma {:induction false} TurnsFollowTheQueue(plan: Plan, log: seq<Event>)
    requires Valid(plan, log)
    ensures TurnsOk(Run(plan, log), Turns(log), TimedOut(log))
  {
    if log != [] {
      var rest, e := log[..|log| - 1], log[|log| - 1];
      TurnsFollowTheQueue(plan, rest);
      assert TimedOut(log) <==> TimedOut(rest) || e.TimeOut? by {
        assert forall n :: 0 <= n < |rest| ==> rest[n] == log[n];
      }
      TurnsStep(plan, Run(plan, rest), e, Turns(rest), TimedOut(rest));
    }
  }

  lemma TurnsStep(plan: Plan, s: State, e: Event, turns: seq<Compensation>, timedOut: bool)
    requires Legal(plan, s, e) && TurnsOk(s, turns, timedOut)
    ensures TurnsOk(Next(plan, s, e), turns + (if e.Undo? then [e.action] else []), timedOut || e.TimeOut?)
  {
  }

  /** Outside replay mode every turn calls its compensation. */
  lemma {:induction false} AttemptedIsTurns(log: seq<Event>)
    requires AllCalled(log)
    ensures Attempted(log) == Turns(log)
  {
    if log != [] {
      assert forall n :: 0 <= n < |log| - 1 ==> log[..|log| - 1][n] == log[n];
      AttemptedIsTurns(log[..|log| - 1]);
    }
  }

  /** When a failed run returns before the deadline and outside replay mode, every compensation has been called, once,
      the latest success first. */
  lemma {:induction false} EverythingIsUndone(plan: Plan, log: seq<Event>)
    requires Valid(plan, log) && Run(plan, log).phase == Returned(false) && !TimedOut(log) && AllCalled(log)
    ensures Attempted(log) == Run(plan, log).undo
    ensures IsReverseCompletion(plan, Run(plan, log).settled, Attempted(log))
  {
    TurnsFollowTheQueue(plan, log);
    AttemptedIsTurns(log);
    UndoIsReverseCompletion(plan, log);
  }

  predicate Ending(s: State) {
    s.phase.Compensating? || s.phase == Returned(false)
  }

  lemma {:induction false} StaysEnding(plan: Plan, log: seq<Event>, p: nat)
    requires Valid(plan, log) && p <= |log| && Ending(Run(plan, log[..p]))
    ensures Ending(Run(plan, log))
    decreases |log|
  {
    if p < |log| {
      assert log[..|log| - 1][..p] == log[..p];
      StaysEnding(plan, log[..|log| - 1], p);
    } else {
      assert log[..p] == log;
    }
  }

  /** When a compensation starts no node is at work, and after it nothing but compensations and the return follows: no
      forward call starts after the first undo. */
  lemma {:induction false} OnlyUndosAfterUndo(plan: Plan, log: seq<Event>, p: nat, q: nat)
    requires Valid(plan, log) && p < q < |log| && log[p].Undo?
    ensures log[q].Undo? || log[q].TimeOut? || log[q].Leave?
    ensures WaveDone(Run(plan, log[..p]).place) && Run(plan, log[..p]).failed
  {
    LegalAt(plan, log, p);
    LegalAt(plan, log, q);
    AlwaysInv(plan, log[..p]);
    assert log[..q][..p] == log[..p];
    StaysEnding(plan, log[..q], p);
  }
}
