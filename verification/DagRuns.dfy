/** pkg/cognition/kernel/dag_executor.go, Execute: waves of ready nodes, any interleaving of their goroutines, and the
    compensation that follows a failure, as a transition system. Nodes are named by their position in the plan. */
module DagRuns {
  import opened Options
  import opened Plans

  const MAX_CONCURRENCY := 4

  /** What a tool returns; None is Go's nil slice. */
  type Output = Option<string>

  /** One entry of allResults. */
  datatype NodeResult = NodeResult(node: nat, output: Output, failed: bool)

  datatype Phase = Scheduling | InWave | Compensating(next: nat) | Returned(ok: bool)

  /** Where a node is: not in a wave yet; in the wave but not marked; its goroutine before the semaphore; inside
      executeNode; with its result recorded but not acted upon; through. */
  datatype Place = Idle | Pending | Waiting | Running | Reported(result: NodeResult) | Past

  datatype State = State(
    completed: map<Id, Output>,  // e.completed, with None also for "in progress"
    undo: seq<Compensation>,     // e.executedUndo
    failed: bool,
    results: seq<NodeResult>,    // allResults
    settled: seq<NodeResult>,    // results acted upon, in that order: the completion order
    place: seq<Place>,
    waves: nat,
    phase: Phase)

  function Start(plan: Plan): State {
    State(map[], [], false, [], [], seq(|plan|, _ => Idle), 0, Scheduling)
  }

  datatype Event =
    | Open                                      // the ready nodes make up a wave
    | Launch(node: nat)                         // a node is marked in progress and its goroutine started
    | Begin(node: nat)                          // a goroutine enters executeNode
    | Skip(node: nat)                           // a goroutine finds the failed flag set
    | Report(result: NodeResult)                // executeNode returns and the result is recorded
    | Settle(node: nat)                         // the failed flag is set, or output and compensation are stored
    | EndWave                                   // wg.Wait returns
    | Finish                                    // no node is ready
    | Undo(action: Compensation, called: bool)  // one turn of runCompensation; not called in replay mode
    | TimeOut                                   // the next turn finds the thirty seconds over
    | Leave                                     // the undo queue is done

  predicate IsReady(plan: Plan, completed: map<Id, Output>, i: nat) {
    i < |plan| && plan[i].id !in completed && DepsDone(plan[i].dependsOn, completed)
  }

  predicate DepsDone(deps: seq<Id>, completed: map<Id, Output>) {
    forall n :: 0 <= n < |deps| ==> deps[n] in completed && completed[deps[n]].Some?
  }

  predicate AnyReady(plan: Plan, completed: map<Id, Output>) {
    exists i: nat :: i < |plan| && IsReady(plan, completed, i)
  }

  function Opened(plan: Plan, completed: map<Id, Output>, place: seq<Place>): seq<Place> {
    seq(|place|, i requires 0 <= i < |place| => if IsReady(plan, completed, i) then Pending else place[i])
  }

  predicate Holds(p: Place) {
    p.Running? || p.Reported?
  }

  /** The goroutines that hold the semaphore. */
  function Busy(place: seq<Place>): set<nat> {
    set i | 0 <= i < |place| && Holds(place[i])
  }

  predicate WaveDone(place: seq<Place>) {
    forall i :: 0 <= i < |place| ==> place[i].Idle? || place[i].Past?
  }

  /** A goroutine can get past the semaphore. */
  predicate CanEnter(s: State, i: nat) {
    s.phase.InWave? && i < |s.place| && s.place[i].Waiting? && |Busy(s.place)| < MAX_CONCURRENCY
  }

  predicate Legal(plan: Plan, s: State, e: Event) {
    match e
    case Open => s.phase.Scheduling? && AnyReady(plan, s.completed)
    case Launch(i) => s.phase.InWave? && i < |s.place| && i < |plan| && s.place[i].Pending?
    case Begin(i) => CanEnter(s, i) && !s.failed
    case Skip(i) => CanEnter(s, i) && s.failed
    case Report(r) => s.phase.InWave? && r.node < |s.place| && s.place[r.node].Running?
    case Settle(i) => s.phase.InWave? && i < |s.place| && i < |plan| && s.place[i].Reported?
    case EndWave => s.phase.InWave? && WaveDone(s.place)
    case Finish => s.phase.Scheduling? && !AnyReady(plan, s.completed)
    case Undo(a, _) => s.phase.Compensating? && s.phase.next < |s.undo| && s.undo[s.phase.next] == a
    case TimeOut => s.phase.Compensating? && s.phase.next < |s.undo|
    case Leave => s.phase.Compensating? && s.phase.next >= |s.undo|
  }

  /** The compensation of a node, carrying the node's own taint. */
  function UndoOf(n: Node): seq<Compensation> {
    if n.compensation.Some? then [n.compensation.value.(taintLevel := n.taintLevel)] else []
  }

  function Next(plan: Plan, s: State, e: Event): State
    requires Legal(plan, s, e)
  {
    match e
    case Open => s.(place := Opened(plan, s.completed, s.place), waves := s.waves + 1, phase := InWave)
    case Launch(i) => s.(completed := s.completed[plan[i].id := None], place := s.place[i := Waiting])
    case Begin(i) => s.(place := s.place[i := Running])
    case Skip(i) => s.(place := s.place[i := Past])
    case Report(r) => s.(results := s.results + [r], place := s.place[r.node := Reported(r)])
    case Settle(i) =>
      var r := s.place[i].result;
      var s1 := s.(place := s.place[i := Past], settled := s.settled + [r]);
      if r.failed then s1.(failed := true)
      else s1.(completed := s.completed[plan[i].id := r.output], undo := UndoOf(plan[i]) + s.undo)
    case EndWave => s.(phase := if s.failed then Compensating(0) else Scheduling)
    case Finish => s.(phase := Returned(true))
    case Undo(_, _) => s.(phase := Compensating(s.phase.next + 1))
    case TimeOut => s.(phase := Returned(false))
    case Leave => s.(phase := Returned(false))
  }

  function Run(plan: Plan, log: seq<Event>): State {
    if log == [] then Start(plan)
    else
      var s, e := Run(plan, log[..|log| - 1]), log[|log| - 1];
      if Legal(plan, s, e) then Next(plan, s, e) else s
  }

  /** Every event of the log happens when it may. */
  predicate Valid(plan: Plan, log: seq<Event>) {
    log == [] || (Valid(plan, log[..|log| - 1]) && Legal(plan, Run(plan, log[..|log| - 1]), log[|log| - 1]))
  }

  lemma RunSnoc(plan: Plan, log: seq<Event>, e: Event)
    requires Valid(plan, log) && Legal(plan, Run(plan, log), e)
    ensures Valid(plan, log + [e]) && Run(plan, log + [e]) == Next(plan, Run(plan, log), e)
  {
    assert (log + [e])[..|log|] == log;
  }

  lemma {:induction false} PrefixValid(plan: Plan, log: seq<Event>, n: nat)
    requires Valid(plan, log) && n <= |log|
    ensures Valid(plan, log[..n])
    decreases |log|
  {
    if n < |log| {
      PrefixValid(plan, log[..|log| - 1], n);
      assert log[..|log| - 1][..n] == log[..n];
    } else {
      assert log[..n] == log;
    }
  }

  // --- the invariant ------------------------------------------------------------------------

  /** A node named `id` has succeeded among the first `n` results, and its output is not nil. */
  ghost predicate Produced(plan: Plan, settled: seq<NodeResult>, n: nat, id: Id) {
    exists a :: 0 <= a < n && a < |settled| && Produces(plan, settled[a], id)
  }

  predicate Produces(plan: Plan, r: NodeResult, id: Id) {
    r.node < |plan| && plan[r.node].id == id && !r.failed && r.output.Some?
  }

  ghost predicate DepsProduced(plan: Plan, settled: seq<NodeResult>, n: nat, i: nat)
    requires i < |plan|
  {
    forall m :: 0 <= m < |plan[i].dependsOn| ==> Produced(plan, settled, n, plan[i].dependsOn[m])
  }

  predicate HasResult(results: seq<NodeResult>, i: nat) {
    exists a :: 0 <= a < |results| && results[a].node == i
  }

  /** Where the goroutines are. */
  ghost predicate PlacesOk(plan: Plan, s: State) {
    && |s.place| == |plan|
    && |Busy(s.place)| <= MAX_CONCURRENCY
    && (!s.phase.InWave? ==> WaveDone(s.place))
    && (forall i :: 0 <= i < |s.place| && s.place[i].Reported? ==> s.place[i].result.node == i)
  }

  /** Each node that is through has one result, unless it was skipped. */
  ghost predicate SettledOk(s: State) {
    Accounted(s.settled, s.place, s.failed)
  }

  ghost predicate Accounted(settled: seq<NodeResult>, place: seq<Place>, failed: bool) {
    && (forall a :: 0 <= a < |settled| ==> settled[a].node < |place| && place[settled[a].node].Past?)
    && Distinct(settled)
    && (!failed ==> forall i :: 0 <= i < |place| && place[i].Past? ==> HasResult(settled, i))
  }

  /** No two results are of the same node. */
  ghost predicate Distinct(results: seq<NodeResult>) {
    forall a, b :: 0 <= a < b < |results| ==> results[a].node != results[b].node
  }

  /** Recorded results are those acted upon and those about to be. */
  ghost predicate ResultsOk(s: State) {
    && (forall a :: 0 <= a < |s.results| ==> s.results[a].node < |s.place| && Recorded(s, s.results[a]))
    && Distinct(s.results)
    && (forall i :: 0 <= i < |s.place| && s.place[i].Reported? ==> s.place[i].result in s.results)
    && (forall a :: 0 <= a < |s.settled| ==> s.settled[a] in s.results)
  }

  predicate Recorded(s: State, r: NodeResult)
    requires r.node < |s.place|
  {
    s.place[r.node] == Reported(r) || (s.place[r.node].Past? && r in s.settled)
  }

  predicate Marked(p: Place) {
    !p.Idle? && !p.Pending?
  }

  ghost predicate MarkedBy(plan: Plan, place: seq<Place>, id: Id) {
    exists i :: 0 <= i < |place| && i < |plan| && Marked(place[i]) && plan[i].id == id
  }

  /** What is marked, and what the marks are worth. */
  ghost predicate MarksOk(plan: Plan, s: State) {
    && (forall i :: 0 <= i < |s.place| && i < |plan| && Marked(s.place[i]) ==> plan[i].id in s.completed)
    && (forall id :: id in s.completed ==> MarkedBy(plan, s.place, id))
    && (forall id :: id in s.completed && s.completed[id].Some? ==> Produced(plan, s.settled, |s.settled|, id))
  }

  /** Nothing starts before its dependencies have produced their outputs. */
  ghost predicate OrderOk(plan: Plan, s: State) {
    && (forall i :: 0 <= i < |s.place| && i < |plan| && InTheWave(s.place[i]) ==> DepsProduced(plan, s.settled, |s.settled|, i))
    && (forall a :: 0 <= a < |s.settled| && s.settled[a].node < |plan| ==> DepsProduced(plan, s.settled, a, s.settled[a].node))
  }

  predicate InTheWave(p: Place) {
    !p.Idle? && !p.Past?
  }

  ghost predicate PhaseOk(s: State) {
    match s.phase
    case Scheduling => !s.failed
    case Returned(ok) => ok == !s.failed
    case Compensating(n) => s.failed && n <= |s.undo|
    case InWave => true
  }

  ghost predicate FlagsOk(s: State) {
    s.failed <==> exists a :: 0 <= a < |s.settled| && s.settled[a].failed
  }

  /** The nodes that were ever part of a wave. */
  function Seen(place: seq<Place>): set<nat> {
    set i | 0 <= i < |place| && !place[i].Idle?
  }

  ghost predicate Inv(plan: Plan, s: State) {
    && PlacesOk(plan, s) && SettledOk(s) && ResultsOk(s) && MarksOk(plan, s) && OrderOk(plan, s) && PhaseOk(s)
    && FlagsOk(s) && s.waves <= |Seen(s.place)|
  }

  lemma ReadyIsIdle(plan: Plan, s: State)
    requires |s.place| == |plan| && MarksOk(plan, s) && WaveDone(s.place)
    ensures forall i :: 0 <= i < |plan| && IsReady(plan, s.completed, i) ==> s.place[i].Idle?
  {
    assert forall i :: 0 <= i < |plan| && Marked(s.place[i]) ==> plan[i].id in s.completed;
  }

  lemma BusyAfter(place: seq<Place>, i: nat, p: Place)
    requires i < |place|
    ensures Busy(place[i := p]) == if Holds(p) then Busy(place) + {i} else Busy(place) - {i}
    ensures !p.Idle? ==> Seen(place) <= Seen(place[i := p])
  {
  }

  lemma OpenedPlaces(plan: Plan, s: State)
    requires |s.place| == |plan| && MarksOk(plan, s) && WaveDone(s.place)
    ensures Busy(Opened(plan, s.completed, s.place)) == {} == Busy(s.place)
    ensures Seen(s.place) <= Seen(Opened(plan, s.completed, s.place))
    ensures forall i :: 0 <= i < |plan| && IsReady(plan, s.completed, i) ==> i in Seen(Opened(plan, s.completed, s.place))
  {
    ReadyIsIdle(plan, s);
    var after := Opened(plan, s.completed, s.place);
    forall i | i in Seen(s.place) ensures i in Seen(after) {
      assert !after[i].Idle?;
    }
    forall i | 0 <= i < |plan| && IsReady(plan, s.completed, i) ensures i in Seen(after) {
      assert after[i].Pending?;
    }
  }

  lemma PlacesOpen(plan: Plan, s: State)
    requires PlacesOk(plan, s) && MarksOk(plan, s) && Legal(plan, s, Open)
    ensures PlacesOk(plan, Next(plan, s, Open))
  {
    OpenedPlaces(plan, s);
    ReadyIsIdle(plan, s);
  }

  lemma PlacesMove(plan: Plan, s: State, i: nat, p: Place)
    requires PlacesOk(plan, s) && s.phase.InWave? && i < |s.place| && (p.Reported? ==> p.result.node == i)
    requires Holds(p) ==> i in Busy(s.place) || |Busy(s.place)| < MAX_CONCURRENCY
    ensures PlacesOk(plan, s.(place := s.place[i := p]))
  {
    BusyAfter(s.place, i, p);
    if !Holds(p) {
      Cardinality(Busy(s.place) - {i}, Busy(s.place));
    } else if i in Busy(s.place) {
      assert Busy(s.place) + {i} == Busy(s.place);
    }
  }

  lemma PlacesStep(plan: Plan, s: State, e: Event)
    requires PlacesOk(plan, s) && MarksOk(plan, s) && Legal(plan, s, e)
    ensures PlacesOk(plan, Next(plan, s, e))
  {
    match e
    case Open => PlacesOpen(plan, s);
    case Launch(i) => PlacesMove(plan, s, i, Waiting);
    case Begin(i) => PlacesMove(plan, s, i, Running);
    case Skip(i) => PlacesMove(plan, s, i, Past);
    case Report(r) => PlacesMove(plan, s, r.node, Reported(r));
    case Settle(i) => PlacesMove(plan, s, i, Past);
    case _ =>
  }

  lemma SettledStep(plan: Plan, s: State, e: Event)
    requires PlacesOk(plan, s) && MarksOk(plan, s) && SettledOk(s) && Legal(plan, s, e)
    ensures SettledOk(Next(plan, s, e))
  {
    match e
    case Open => SettledOpen(plan, s);
    case Launch(i) => SettledMove(s.settled, s.place, s.failed, i, Waiting);
    case Begin(i) => SettledMove(s.settled, s.place, s.failed, i, Running);
    case Skip(i) => SettledMove(s.settled, s.place, s.failed, i, Past);
    case Report(r) => SettledMove(s.settled, s.place, s.failed, r.node, Reported(r));
    case Settle(i) => SettledMore(s.settled, s.place[i].result, s.place, Next(plan, s, e).failed);
    case _ =>
  }

  lemma SettledOpen(plan: Plan, s: State)
    requires PlacesOk(plan, s) && MarksOk(plan, s) && SettledOk(s) && Legal(plan, s, Open)
    ensures SettledOk(Next(plan, s, Open))
  {
    ReadyIsIdle(plan, s);
  }

  lemma SettledMove(settled: seq<NodeResult>, place: seq<Place>, failed: bool, i: nat, p: Place)
    requires Accounted(settled, place, failed) && i < |place| && !place[i].Past? && (p.Past? ==> failed)
    ensures Accounted(settled, place[i := p], failed)
  {
  }

  lemma SettledMore(settled: seq<NodeResult>, r: NodeResult, place: seq<Place>, failed: bool)
    requires Accounted(settled, place, failed) && r.node < |place| && place[r.node] == Reported(r)
    ensures Accounted(settled + [r], place[r.node := Past], failed)
  {
    var more := settled + [r];
    assert more[|settled|] == r;
    forall i | 0 <= i < |place| && (i == r.node || place[i].Past?) && !failed ensures HasResult(more, i) {
      if i != r.node {
        var a :| 0 <= a < |settled| && settled[a].node == i;
        assert more[a].node == i;
      }
    }
  }

  lemma ResultsStep(plan: Plan, s: State, e: Event)
    requires PlacesOk(plan, s) && MarksOk(plan, s) && SettledOk(s) && ResultsOk(s) && Legal(plan, s, e)
    ensures ResultsOk(Next(plan, s, e))
  {
    var s' := Next(plan, s, e);
    if e.Open? {
      ReadyIsIdle(plan, s);
      forall a | 0 <= a < |s.results| ensures Recorded(s', s.results[a]) {
        assert Recorded(s, s.results[a]);
      }
    } else if e.Report? {
      ResultsReport(plan, s, e.result);
    } else if e.Settle? {
      ResultsSettle(plan, s, e.node);
    } else {
      forall a | 0 <= a < |s.results| ensures Recorded(s', s.results[a]) {
        assert Recorded(s, s.results[a]);
      }
    }
  }

  lemma ResultsReport(plan: Plan, s: State, r: NodeResult)
    requires PlacesOk(plan, s) && SettledOk(s) && ResultsOk(s) && Legal(plan, s, Report(r))
    ensures ResultsOk(Next(plan, s, Report(r)))
  {
    var s', n := Next(plan, s, Report(r)), |s.results|;
    assert s'.results[n] == r;
    forall a | 0 <= a < |s'.results| ensures s'.results[a].node < |s'.place| && Recorded(s', s'.results[a]) {
      if a < n {
        assert s'.results[a] == s.results[a] && Recorded(s, s.results[a]);
      }
    }
    forall a, b | 0 <= a < b < |s'.results| ensures s'.results[a].node != s'.results[b].node {
      assert Recorded(s, s.results[a]);
    }
  }

  lemma ResultsSettle(plan: Plan, s: State, i: nat)
    requires PlacesOk(plan, s) && SettledOk(s) && ResultsOk(s) && Legal(plan, s, Settle(i))
    ensures ResultsOk(Next(plan, s, Settle(i)))
  {
    var s' := Next(plan, s, Settle(i));
    forall a | 0 <= a < |s'.results| ensures s'.results[a].node < |s'.place| && Recorded(s', s'.results[a]) {
      assert Recorded(s, s.results[a]);
      RecordedSettle(plan, s, i, s.results[a]);
    }
    assert s.place[i].result in s.results;
  }

  lemma RecordedSettle(plan: Plan, s: State, i: nat, r: NodeResult)
    requires Legal(plan, s, Settle(i)) && r.node < |s.place| && Recorded(s, r)
    ensures Recorded(Next(plan, s, Settle(i)), r)
  {
    var s', n := Next(plan, s, Settle(i)), |s.settled|;
    if s.place[r.node] == Reported(r) && r.node == i {
      assert s'.settled[n] == r;
    } else if s.place[r.node].Past? {
      var a :| 0 <= a < n && s.settled[a] == r;
      assert s'.settled[a] == r;
    }
  }

  lemma ProducedMore(plan: Plan, settled: seq<NodeResult>, r: NodeResult, n: nat, id: Id)
    requires Produced(plan, settled, n, id) && n <= |settled|
    ensures Produced(plan, settled + [r], n, id) && Produced(plan, settled + [r], |settled| + 1, id)
  {
    var a :| 0 <= a < n && a < |settled| && Produces(plan, settled[a], id);
    assert (settled + [r])[a] == settled[a];
  }

  lemma DepsProducedMore(plan: Plan, settled: seq<NodeResult>, r: NodeResult, n: nat, i: nat)
    requires i < |plan| && n <= |settled| && DepsProduced(plan, settled, n, i)
    ensures DepsProduced(plan, settled + [r], n, i) && DepsProduced(plan, settled + [r], |settled| + 1, i)
  {
    forall m | 0 <= m < |plan[i].dependsOn|
      ensures Produced(plan, settled + [r], n, plan[i].dependsOn[m]) && Produced(plan, settled + [r], |settled| + 1, plan[i].dependsOn[m])
    {
      ProducedMore(plan, settled, r, n, plan[i].dependsOn[m]);
    }
  }

  lemma MarksStep(plan: Plan, s: State, e: Event)
    requires PlacesOk(plan, s) && MarksOk(plan, s) && Legal(plan, s, e)
    ensures MarksOk(plan, Next(plan, s, e))
  {
    var s' := Next(plan, s, e);
    if e.Open? {
      ReadyIsIdle(plan, s);
    }
    forall id | id in s'.completed ensures MarkedBy(plan, s'.place, id) {
      if e.Launch? && id == plan[e.node].id {
        assert Marked(s'.place[e.node]);
      } else {
        StillMarked(plan, s, e, id);
      }
    }
    if e.Settle? {
      MarksSettle(plan, s, e.node);
    }
  }

  lemma StillMarked(plan: Plan, s: State, e: Event, id: Id)
    requires PlacesOk(plan, s) && MarksOk(plan, s) && Legal(plan, s, e)
    requires id in s.completed || (e.Settle? && id == plan[e.node].id)
    ensures MarkedBy(plan, Next(plan, s, e).place, id)
  {
    var s' := Next(plan, s, e);
    if e.Settle? && id == plan[e.node].id {
      assert Marked(s'.place[e.node]);
    } else {
      var i :| 0 <= i < |s.place| && i < |plan| && Marked(s.place[i]) && plan[i].id == id;
      if e.Open? {
        ReadyIsIdle(plan, s);
      }
      assert Marked(s'.place[i]);
    }
  }

  lemma MarksSettle(plan: Plan, s: State, i: nat)
    requires PlacesOk(plan, s) && MarksOk(plan, s) && Legal(plan, s, Settle(i))
    ensures var s' := Next(plan, s, Settle(i));
            forall id :: id in s'.completed && s'.completed[id].Some? ==> Produced(plan, s'.settled, |s'.settled|, id)
  {
    var s', r := Next(plan, s, Settle(i)), s.place[i].result;
    forall id | id in s'.completed && s'.completed[id].Some? ensures Produced(plan, s'.settled, |s'.settled|, id) {
      if !r.failed && id == plan[i].id {
        assert Produces(plan, s'.settled[|s.settled|], id);
      } else {
        ProducedMore(plan, s.settled, r, |s.settled|, id);
      }
    }
  }

  lemma OrderStep(plan: Plan, s: State, e: Event)
    requires PlacesOk(plan, s) && MarksOk(plan, s) && OrderOk(plan, s) && Legal(plan, s, e)
    ensures OrderOk(plan, Next(plan, s, e))
  {
    var s' := Next(plan, s, e);
    if e.Open? {
      forall i | 0 <= i < |s'.place| && InTheWave(s'.place[i]) ensures DepsProduced(plan, s.settled, |s.settled|, i) {
        assert IsReady(plan, s.completed, i);
        forall m | 0 <= m < |plan[i].dependsOn| ensures Produced(plan, s.settled, |s.settled|, plan[i].dependsOn[m]) {
          assert plan[i].dependsOn[m] in s.completed;
        }
      }
    } else if e.Settle? {
      OrderSettle(plan, s, e.node);
    }
  }

  lemma OrderSettle(plan: Plan, s: State, i: nat)
    requires PlacesOk(plan, s) && OrderOk(plan, s) && Legal(plan, s, Settle(i))
    ensures OrderOk(plan, Next(plan, s, Settle(i)))
  {
    var s', n, r := Next(plan, s, Settle(i)), |s.settled|, s.place[i].result;
    forall j | 0 <= j < |s'.place| && InTheWave(s'.place[j]) ensures DepsProduced(plan, s'.settled, |s'.settled|, j) {
      DepsProducedMore(plan, s.settled, r, n, j);
    }
    forall a | 0 <= a < |s'.settled| && s'.settled[a].node < |plan| ensures DepsProduced(plan, s'.settled, a, s'.settled[a].node) {
      if a < n {
        assert s'.settled[a] == s.settled[a];
        DepsProducedMore(plan, s.settled, r, a, s.settled[a].node);
      } else {
        DepsProducedMore(plan, s.settled, r, n, i);
      }
    }
  }

  lemma FlagsStep(plan: Plan, s: State, e: Event)
    requires FlagsOk(s) && Legal(plan, s, e)
    ensures FlagsOk(Next(plan, s, e))
  {
    if e.Settle? {
      var s' := Next(plan, s, e);
      assert s'.settled[|s.settled|] == s.place[e.node].result;
      assert forall a :: 0 <= a < |s.settled| ==> s'.settled[a] == s.settled[a];
    }
  }

  lemma WavesStep(plan: Plan, s: State, e: Event)
    requires PlacesOk(plan, s) && MarksOk(plan, s) && s.waves <= |Seen(s.place)| && Legal(plan, s, e)
    ensures Next(plan, s, e).waves <= |Seen(Next(plan, s, e).place)|
  {
    var s' := Next(plan, s, e);
    match e
    case Open =>
      OpenedPlaces(plan, s);
      ReadyIsIdle(plan, s);
      var i: nat :| i < |plan| && IsReady(plan, s.completed, i);
      assert i !in Seen(s.place);
      Cardinality(Seen(s.place) + {i}, Seen(s'.place));
    case Launch(i) => BusyAfter(s.place, i, Waiting); Cardinality(Seen(s.place), Seen(s'.place));
    case Begin(i) => BusyAfter(s.place, i, Running); Cardinality(Seen(s.place), Seen(s'.place));
    case Skip(i) => BusyAfter(s.place, i, Past); Cardinality(Seen(s.place), Seen(s'.place));
    case Report(r) => BusyAfter(s.place, r.node, Reported(r)); Cardinality(Seen(s.place), Seen(s'.place));
    case Settle(i) => BusyAfter(s.place, i, Past); Cardinality(Seen(s.place), Seen(s'.place));
    case _ =>
  }

  lemma Cardinality(a: set<nat>, b: set<nat>)
    requires a <= b
    ensures |a| <= |b|
  {
    assert b == a + (b - a);
  }

  lemma {:induction false} AlwaysInv(plan: Plan, log: seq<Event>)
    requires Valid(plan, log)
    ensures Inv(plan, Run(plan, log))
  {
    if log != [] {
      var rest, e := log[..|log| - 1], log[|log| - 1];
      AlwaysInv(plan, rest);
      InvStep(plan, Run(plan, rest), e);
    }
  }

  lemma InvStep(plan: Plan, s: State, e: Event)
    requires Inv(plan, s) && Legal(plan, s, e)
    ensures Inv(plan, Next(plan, s, e))
  {
    PlacesStep(plan, s, e);
    SettledStep(plan, s, e);
    ResultsStep(plan, s, e);
    MarksStep(plan, s, e);
    OrderStep(plan, s, e);
    FlagsStep(plan, s, e);
    WavesStep(plan, s, e);
  }

  // --- order and progress -------------------------------------------------------------------

  /** A node starts only when every dependency has succeeded and returned an output. */
  lemma StartsAfterDependencies(plan: Plan, log: seq<Event>, p: nat)
    requires Valid(plan, log) && p < |log| && log[p].Begin?
    ensures log[p].node < |plan| && DepsProduced(plan, Run(plan, log[..p]).settled, |Run(plan, log[..p]).settled|, log[p].node)
  {
    LegalAt(plan, log, p);
    AlwaysInv(plan, log[..p]);
  }

  lemma {:induction false} LegalAt(plan: Plan, log: seq<Event>, p: nat)
    requires Valid(plan, log) && p < |log|
    ensures Valid(plan, log[..p]) && Legal(plan, Run(plan, log[..p]), log[p])
  {
    PrefixValid(plan, log, p + 1);
    assert log[..p + 1][..p] == log[..p];
  }

  predicate Begun(p: Place) {
    Holds(p) || p.Past?
  }

  lemma {:induction false} BegunIsGone(plan: Plan, log: seq<Event>, p: nat)
    requires Valid(plan, log) && p < |log| && log[p].Begin?
    ensures log[p].node < |Run(plan, log).place| && Begun(Run(plan, log).place[log[p].node])
    decreases |log|
  {
    var rest, e := log[..|log| - 1], log[|log| - 1];
    if p < |rest| {
      assert rest[p] == log[p];
      BegunIsGone(plan, rest, p);
      AlwaysInv(plan, rest);
      BegunStep(plan, Run(plan, rest), e, log[p].node);
    }
  }

  lemma BegunStep(plan: Plan, s: State, e: Event, i: nat)
    requires PlacesOk(plan, s) && MarksOk(plan, s) && Legal(plan, s, e) && i < |s.place| && Begun(s.place[i])
    ensures i < |Next(plan, s, e).place| && Begun(Next(plan, s, e).place[i])
  {
    if e.Open? {
      ReadyIsIdle(plan, s);
    }
  }

  /** No node is started twice. */
  lemma StartsOnce(plan: Plan, log: seq<Event>, p: nat, q: nat)
    requires Valid(plan, log) && p < q < |log| && log[p].Begin? && log[q].Begin?
    ensures log[p].node != log[q].node
  {
    LegalAt(plan, log, q);
    assert log[..q][p] == log[p];
    BegunIsGone(plan, log[..q], p);
  }

  // --- what runs, and what a failure keeps from running ------------------------------------------

  /** Event `p` starts node `i`, and no failure has been acted upon before it. */
  ghost predicate StartAt(plan: Plan, log: seq<Event>, p: int, i: nat) {
    0 <= p < |log| && log[p] == Begin(i) && !Run(plan, log[..p]).failed
  }

  ghost predicate Started(plan: Plan, log: seq<Event>, i: nat) {
    exists p :: StartAt(plan, log, p, i)
  }

  /** The tool of the node is being called, or has returned. */
  predicate Called(s: State, i: nat) {
    i < |s.place| && (s.place[i].Running? || HasResult(s.results, i))
  }

  lemma StartedSnoc(plan: Plan, log: seq<Event>, e: Event, i: nat)
    ensures Started(plan, log + [e], i) <==> Started(plan, log, i) || (e == Begin(i) && !Run(plan, log).failed)
  {
    var more := log + [e];
    forall p | 0 <= p < |log| ensures StartAt(plan, more, p, i) <==> StartAt(plan, log, p, i) {
      assert more[..p] == log[..p];
    }
    assert more[..|log|] == log;
    assert StartAt(plan, more, |log|, i) <==> e == Begin(i) && !Run(plan, log).failed;
    if p :| StartAt(plan, log, p, i) {
      assert StartAt(plan, more, p, i);
    }
  }

  lemma ResultMore(results: seq<NodeResult>, r: NodeResult, i: nat)
    ensures HasResult(results + [r], i) <==> HasResult(results, i) || r.node == i
  {
    var more := results + [r];
    assert more[|results|] == r && forall a :: 0 <= a < |results| ==> more[a] == results[a];
  }

  lemma CalledStep(plan: Plan, s: State, e: Event, i: nat)
    requires PlacesOk(plan, s) && MarksOk(plan, s) && Legal(plan, s, e)
    ensures Called(Next(plan, s, e), i) <==> Called(s, i) || e == Begin(i)
  {
    match e
    case Open => ReadyIsIdle(plan, s);
    case Report(r) => ResultMore(s.results, r, i);
    case _ =>
  }

  /** In every run the nodes whose tools are called are exactly those that were started before any failure was acted upon:
      once the failed flag is set, nothing new is called. */
  lemma {:induction false} CalledExactly(plan: Plan, log: seq<Event>, i: nat)
    requires Valid(plan, log)
    ensures Called(Run(plan, log), i) <==> Started(plan, log, i)
  {
    if log != [] {
      var rest, e := log[..|log| - 1], log[|log| - 1];
      CalledExactly(plan, rest, i);
      AlwaysPlaces(plan, rest);
      CalledStep(plan, Run(plan, rest), e, i);
      StartedSnoc(plan, rest, e, i);
      assert rest + [e] == log;
    }
  }

  /** So between waves the results are those of the nodes started before any failure was acted upon. */
  lemma {:induction false} ResultsExactly(plan: Plan, log: seq<Event>, i: nat)
    requires Valid(plan, log) && !Run(plan, log).phase.InWave?
    ensures HasResult(Run(plan, log).results, i) <==> Started(plan, log, i)
  {
    CalledExactly(plan, log, i);
    AlwaysInv(plan, log);
    var s := Run(plan, log);
    if HasResult(s.results, i) {
      var a :| 0 <= a < |s.results| && s.results[a].node == i;
      assert Recorded(s, s.results[a]);
    }
  }

  /** A node that is skipped is never started, neither before nor after. */
  lemma {:induction false} SkippedNeverRuns(plan: Plan, log: seq<Event>, p: nat)
    requires Valid(plan, log) && p < |log| && log[p].Skip?
    ensures Run(plan, log[..p]).failed && !Started(plan, log, log[p].node) && !Called(Run(plan, log), log[p].node)
    decreases |log|
  {
    LegalAt(plan, log, p);
    CalledExactly(plan, log, log[p].node);
    forall q: nat | q < |log| && log[q] == Begin(log[p].node) ensures false {
      SkipOrBegin(plan, log, p, q);
    }
  }

  lemma {:induction false} SkipOrBegin(plan: Plan, log: seq<Event>, p: nat, q: nat)
    requires Valid(plan, log) && p < |log| && q < |log| && log[p].Skip? && log[q].Begin?
    ensures log[p].node != log[q].node
  {
    if q < p {
      EntersOnce(plan, log, q, p);
    } else {
      EntersOnce(plan, log, p, q);
    }
  }

  lemma {:induction false} EntersOnce(plan: Plan, log: seq<Event>, p: nat, q: nat)
    requires Valid(plan, log) && p < q < |log| && (log[p].Skip? || log[p].Begin?) && (log[q].Skip? || log[q].Begin?)
    ensures log[p].node != log[q].node
  {
    EntersFromWaiting(plan, log, q);
    var front := log[..q];
    assert front[p] == log[p];
    NotWaiting(plan, front, p);
  }

  lemma {:induction false} NotWaiting(plan: Plan, log: seq<Event>, p: nat)
    requires Valid(plan, log) && p < |log| && (log[p].Skip? || log[p].Begin?)
    ensures log[p].node < |Run(plan, log).place| && !Run(plan, log).place[log[p].node].Waiting?
  {
    if log[p].Skip? {
      SkippedIsPast(plan, log, p);
    } else {
      BegunIsGone(plan, log, p);
    }
  }

  /** Starting or skipped, a goroutine was waiting for the semaphore. */
  lemma {:induction false} EntersFromWaiting(plan: Plan, log: seq<Event>, p: nat)
    requires Valid(plan, log) && p < |log| && (log[p].Skip? || log[p].Begin?)
    ensures Valid(plan, log[..p]) && log[p].node < |Run(plan, log[..p]).place|
    ensures Run(plan, log[..p]).place[log[p].node].Waiting?
  {
    LegalAt(plan, log, p);
  }

  lemma {:induction false} SkippedIsPast(plan: Plan, log: seq<Event>, p: nat)
    requires Valid(plan, log) && p < |log| && log[p].Skip?
    ensures log[p].node < |Run(plan, log).place| && Run(plan, log).place[log[p].node].Past?
    decreases |log|
  {
    var rest, e := log[..|log| - 1], log[|log| - 1];
    if p < |rest| {
      assert rest[p] == log[p];
      SkippedIsPast(plan, rest, p);
      AlwaysPlaces(plan, rest);
      InWaveStep(plan, Run(plan, rest), e, log[p].node);
    }
  }

  lemma {:induction false} AlwaysPlaces(plan: Plan, log: seq<Event>)
    requires Valid(plan, log)
    ensures PlacesOk(plan, Run(plan, log)) && MarksOk(plan, Run(plan, log))
  {
    AlwaysInv(plan, log);
  }

  lemma InWaveStep(plan: Plan, s: State, e: Event, i: nat)
    requires PlacesOk(plan, s) && MarksOk(plan, s) && Legal(plan, s, e) && i < |s.place|
    ensures !s.place[i].Idle? ==> !Next(plan, s, e).place[i].Idle?
    ensures s.place[i].Past? ==> Next(plan, s, e).place[i].Past?
  {
    if e.Open? {
      ReadyIsIdle(plan, s);
    }
  }

  /** A node that is ready when a wave opens is through, run or skipped, when that wave or any later one has ended. */
  lemma ReadyJoinsTheWave(plan: Plan, log: seq<Event>, p: nat, i: nat)
    requires Valid(plan, log) && p < |log| && log[p].Open? && IsReady(plan, Run(plan, log[..p]).completed, i)
    requires !Run(plan, log).phase.InWave?
    ensures i < |Run(plan, log).place| && Run(plan, log).place[i].Past?
  {
    JoinsTheWave(plan, log, p, i);
    AlwaysPlaces(plan, log);
  }

  lemma {:induction false} JoinsTheWave(plan: Plan, log: seq<Event>, p: nat, i: nat)
    requires Valid(plan, log) && p < |log| && log[p].Open? && IsReady(plan, Run(plan, log[..p]).completed, i)
    ensures i < |Run(plan, log).place| && !Run(plan, log).place[i].Idle?
    decreases |log|
  {
    var rest, e := log[..|log| - 1], log[|log| - 1];
    AlwaysPlaces(plan, rest);
    if p < |rest| {
      assert rest[p] == log[p] && rest[..p] == log[..p];
      JoinsTheWave(plan, rest, p, i);
      InWaveStep(plan, Run(plan, rest), e, i);
    }
  }

  lemma {:induction false} BelowSize(nodes: set<nat>, n: nat)
    requires forall i :: i in nodes ==> i < n
    ensures |nodes| <= n
  {
    if n == 0 {
      assert nodes == {};
    } else {
      BelowSize(nodes - {n - 1}, n - 1);
    }
  }

  /** There are never more waves than nodes, and never more than four nodes at work. */
  lemma WavesBounded(plan: Plan, log: seq<Event>)
    requires Valid(plan, log)
    ensures Run(plan, log).waves <= |plan| && |Busy(Run(plan, log).place)| <= MAX_CONCURRENCY
  {
    AlwaysInv(plan, log);
    BelowSize(Seen(Run(plan, log).place), |plan|);
  }

  /** Between waves the results recorded for the caller are those acted upon, one per node. */
  lemma {:induction false} RecordsWhatSettled(plan: Plan, log: seq<Event>)
    requires Valid(plan, log) && !Run(plan, log).phase.InWave?
    ensures Distinct(Run(plan, log).results) && forall r :: r in Run(plan, log).results <==> r in Run(plan, log).settled
    ensures Run(plan, log).phase == Returned(true) ==> forall r :: r in Run(plan, log).results ==> !r.failed
    ensures Run(plan, log).phase == Returned(false) ==> exists r :: r in Run(plan, log).results && r.failed
  {
    AlwaysInv(plan, log);
    var s := Run(plan, log);
    forall r | r in s.results ensures r in s.settled {
      assert Recorded(s, r);
    }
    if s.failed {
      var a :| 0 <= a < |s.settled| && s.settled[a].failed;
      assert s.settled[a] in s.results;
    }
  }

  /** When Execute returns without error, the nodes that have run are exactly those all of whose dependencies ran and
      returned an output: a nil output, like an unknown dependency, silently keeps everything behind it from running. */
  lemma RanExactly(plan: Plan, log: seq<Event>, i: nat)
    requires Valid(plan, log) && Run(plan, log).phase == Returned(true) && UniqueIds(plan) && i < |plan|
    ensures HasResult(Run(plan, log).settled, i) <==>
              DepsProduced(plan, Run(plan, log).settled, |Run(plan, log).settled|, i)
  {
    AlwaysInv(plan, log);
    AlwaysKept(plan, log);
    var s := Run(plan, log);
    if HasResult(s.settled, i) {
      var a :| 0 <= a < |s.settled| && s.settled[a].node == i;
      forall m | 0 <= m < |plan[i].dependsOn| ensures Produced(plan, s.settled, |s.settled|, plan[i].dependsOn[m]) {
        assert Produced(plan, s.settled, a, plan[i].dependsOn[m]);
      }
    } else if DepsProduced(plan, s.settled, |s.settled|, i) {
      if plan[i].id in s.completed {
        NotRunNotMarked(plan, s, i);
      }
      forall m | 0 <= m < |plan[i].dependsOn|
        ensures plan[i].dependsOn[m] in s.completed && s.completed[plan[i].dependsOn[m]].Some?
      {
        var d := plan[i].dependsOn[m];
        assert Produced(plan, s.settled, |s.settled|, d);
        var a :| 0 <= a < |s.settled| && Produces(plan, s.settled[a], d);
        assert SettledAt(plan, s, a);
      }
      assert IsReady(plan, s.completed, i);
    }
  }

  lemma NotRunNotMarked(plan: Plan, s: State, i: nat)
    requires Inv(plan, s) && UniqueIds(plan) && i < |plan| && !s.failed && !s.phase.InWave? && plan[i].id in s.completed
    ensures HasResult(s.settled, i)
  {
    assert MarkedBy(plan, s.place, plan[i].id);
    var j :| 0 <= j < |s.place| && j < |plan| && Marked(s.place[j]) && plan[j].id == plan[i].id;
    SameId(plan, i, j);
  }

  /** The mark of a node that has succeeded is its output. */
  predicate SettledAt(plan: Plan, s: State, a: nat)
    requires a < |s.settled|
  {
    var r := s.settled[a];
    r.node < |plan| && plan[r.node].id in s.completed && (!r.failed ==> s.completed[plan[r.node].id] == r.output)
  }

  ghost predicate MarksKept(plan: Plan, s: State) {
    && (forall a :: 0 <= a < |s.settled| ==> SettledAt(plan, s, a))
    && (s.phase == Returned(true) ==> !AnyReady(plan, s.completed))
  }

  lemma {:induction false} AlwaysKept(plan: Plan, log: seq<Event>)
    requires Valid(plan, log) && UniqueIds(plan)
    ensures MarksKept(plan, Run(plan, log))
  {
    if log != [] {
      var rest, e := log[..|log| - 1], log[|log| - 1];
      AlwaysKept(plan, rest);
      AlwaysInv(plan, rest);
      KeptStep(plan, Run(plan, rest), e);
    }
  }

  lemma KeptStep(plan: Plan, s: State, e: Event)
    requires PlacesOk(plan, s) && SettledOk(s) && MarksOk(plan, s) && MarksKept(plan, s) && UniqueIds(plan) && Legal(plan, s, e)
    ensures MarksKept(plan, Next(plan, s, e))
  {
    var s' := Next(plan, s, e);
    forall a | 0 <= a < |s'.settled| ensures SettledAt(plan, s', a) {
      if a < |s.settled| {
        assert s.place[s.settled[a].node].Past?;
        KeptAt(plan, s, e, a);
      }
    }
  }

  lemma {:induction false} KeptAt(plan: Plan, s: State, e: Event, a: nat)
    requires Legal(plan, s, e) && UniqueIds(plan) && a < |s.settled| && SettledAt(plan, s, a)
    requires s.settled[a].node < |s.place| && s.place[s.settled[a].node].Past?
    ensures SettledAt(plan, Next(plan, s, e), a)
  {
    assert Next(plan, s, e).settled[a] == s.settled[a];
    if e.Launch? || e.Settle? {
      SameId(plan, s.settled[a].node, e.node);
    }
  }

  lemma SameId(plan: Plan, i: nat, j: nat)
    requires UniqueIds(plan) && i < |plan| && j < |plan|
    ensures plan[i].id == plan[j].id <==> i == j
  {
    assert if i < j then plan[i].id != plan[j].id else i == j || plan[j].id != plan[i].id;
  }

  // --- on an accepted plan everything runs --------------------------------------------------

  predicate Needed(plan: Plan, id: Id) {
    exists i :: 0 <= i < |plan| && id in plan[i].dependsOn
  }

  /** No node that others wait for returned nil. */
  ghost predicate NoNilNeeded(plan: Plan, results: seq<NodeResult>) {
    forall r :: r in results && r.node < |plan| && Needed(plan, plan[r.node].id) ==> r.output.Some?
  }

  ghost predicate AllRan(plan: Plan, results: seq<NodeResult>) {
    forall i :: 0 <= i < |plan| ==> HasResult(results, i)
  }

  lemma {:induction false} RanByRank(plan: Plan, log: seq<Event>, rank: map<Id, nat>, i: nat)
    requires Valid(plan, log) && Run(plan, log).phase == Returned(true) && UniqueIds(plan) && ClosedDeps(plan) && i < |plan|
    requires Ranks(Adjacency(plan, |plan|), rank) && NodesRanked(plan, |plan|, rank)
    requires NoNilNeeded(plan, Run(plan, log).results)
    ensures HasResult(Run(plan, log).settled, i)
    decreases rank[plan[i].id]
  {
    var s := Run(plan, log);
    AdjacencyUnique(plan, |plan|, i);
    assert RankedAt(Adjacency(plan, |plan|), rank, plan[i].id);
    RanExactly(plan, log, i);
    forall m | 0 <= m < |plan[i].dependsOn| ensures Produced(plan, s.settled, |s.settled|, plan[i].dependsOn[m]) {
      var d := plan[i].dependsOn[m];
      assert d in plan[i].dependsOn;
      var j: nat :| j < |plan| && plan[j].id == d;
      RanByRank(plan, log, rank, j);
      NeededProduced(plan, log, j);
    }
  }

  lemma NeededProduced(plan: Plan, log: seq<Event>, j: nat)
    requires Valid(plan, log) && Run(plan, log).phase == Returned(true) && j < |plan| && Needed(plan, plan[j].id)
    requires NoNilNeeded(plan, Run(plan, log).results) && HasResult(Run(plan, log).settled, j)
    ensures Produced(plan, Run(plan, log).settled, |Run(plan, log).settled|, plan[j].id)
  {
    RecordsWhatSettled(plan, log);
    var settled := Run(plan, log).settled;
    var a :| 0 <= a < |settled| && settled[a].node == j;
    assert settled[a] in Run(plan, log).results;
    assert Produces(plan, settled[a], plan[j].id);
  }

  lemma RanNeedsOutputs(plan: Plan, log: seq<Event>, r: NodeResult)
    requires Valid(plan, log) && Run(plan, log).phase == Returned(true) && UniqueIds(plan)
    requires AllRan(plan, Run(plan, log).settled)
    requires r in Run(plan, log).settled && r.node < |plan| && Needed(plan, plan[r.node].id)
    ensures r.output.Some?
  {
    AlwaysInv(plan, log);
    var settled, id := Run(plan, log).settled, plan[r.node].id;
    var i :| 0 <= i < |plan| && id in plan[i].dependsOn;
    RanExactly(plan, log, i);
    var m :| 0 <= m < |plan[i].dependsOn| && plan[i].dependsOn[m] == id;
    assert Produced(plan, settled, |settled|, plan[i].dependsOn[m]);
    var a :| 0 <= a < |settled| && Produces(plan, settled[a], id);
    var c :| 0 <= c < |settled| && settled[c] == r;
    SameId(plan, settled[a].node, r.node);
    assert a == c;
  }

  lemma {:induction false} RanNeedsNodes(plan: Plan, log: seq<Event>)
    requires Valid(plan, log) && Run(plan, log).phase == Returned(true) && UniqueIds(plan)
    requires AllRan(plan, Run(plan, log).settled)
    ensures ClosedDeps(plan)
  {
    var settled := Run(plan, log).settled;
    forall i, d | 0 <= i < |plan| && d in plan[i].dependsOn ensures exists j :: 0 <= j < |plan| && plan[j].id == d {
      RanExactly(plan, log, i);
      var m :| 0 <= m < |plan[i].dependsOn| && plan[i].dependsOn[m] == d;
      assert Produced(plan, settled, |settled|, plan[i].dependsOn[m]);
      var a :| 0 <= a < |settled| && Produces(plan, settled[a], d);
      assert plan[settled[a].node].id == d;
    }
  }

  /** On an accepted plan with unique ids, returning without error means that no node failed and none ran twice; and every
      node ran exactly when every dependency names a node and no node that others depend on returned nil. */
  lemma EveryNodeRan(plan: Plan, log: seq<Event>, rank: map<Id, nat>)
    requires Valid(plan, log) && Run(plan, log).phase == Returned(true) && UniqueIds(plan)
    requires Ranks(Adjacency(plan, |plan|), rank) && NodesRanked(plan, |plan|, rank)
    ensures AllRan(plan, Run(plan, log).results) <==> ClosedDeps(plan) && NoNilNeeded(plan, Run(plan, log).results)
    ensures Distinct(Run(plan, log).results) && forall r :: r in Run(plan, log).results ==> !r.failed
  {
    RecordsWhatSettled(plan, log);
    var s := Run(plan, log);
    SameRan(plan, s.results, s.settled);
    if AllRan(plan, s.results) {
      RanNeedsNodes(plan, log);
      forall r | r in s.results && r.node < |plan| && Needed(plan, plan[r.node].id) ensures r.output.Some? {
        RanNeedsOutputs(plan, log, r);
      }
    }
    if ClosedDeps(plan) && NoNilNeeded(plan, s.results) {
      forall i | 0 <= i < |plan| ensures HasResult(s.settled, i) {
        RanByRank(plan, log, rank, i);
      }
    }
  }

  lemma SameRan(plan: Plan, a: seq<NodeResult>, b: seq<NodeResult>)
    requires forall r :: r in a <==> r in b
    ensures AllRan(plan, a) <==> AllRan(plan, b)
  {
    forall i: nat ensures HasResult(a, i) <==> HasResult(b, i) {
      assert HasResult(a, i) <==> exists r :: r in a && r.node == i;
      assert HasResult(b, i) <==> exists r :: r in b && r.node == i;
    }
  }

  const PAIR: Plan := [Node("a", "", "", 0, [], None), Node("b", "", "", 0, ["a"], None)]
  const NIL_RESULT := NodeResult(0, None, false)

  lemma PairReady(completed: map<Id, Output>)
    requires "a" in completed ==> completed["a"].None?
    ensures IsReady(PAIR, completed, 0) <==> "a" !in completed
    ensures !IsReady(PAIR, completed, 1)
  {
    assert PAIR[1].dependsOn[0] == "a";
  }

  lemma PairRanked() returns (rank: map<Id, nat>)
    ensures Adjacency(PAIR, 2) == map["a" := [], "b" := ["a"]]
    ensures Ranks(Adjacency(PAIR, 2), rank) && rank == map["a" := 0, "b" := 1]
  {
    rank := map["a" := 0, "b" := 1];
    assert Adjacency(PAIR, 1) == map["a" := []];
    var g := Adjacency(PAIR, 2);
    assert RankedBelow(Deps(g, "a"), rank, 0) && RankedBelow(Deps(g, "b"), rank, 1);
  }

  lemma PairPaths()
    ensures !HasCycle(Adjacency(PAIR, 2)) && !HasPathOver(Adjacency(PAIR, 2), MAX_DEPTH)
  {
    var rank := PairRanked();
    var g := Adjacency(PAIR, 2);
    RankedIsAcyclic(g, rank);
    forall path | Path(g, path) ensures |path| <= 2 {
      assert |path| > 1 ==> StepAt(g, path, 1);
      if path[0] in rank {
        PathsAreRanked(g, rank, path);
      }
    }
  }

  lemma PairNotIsolated()
    ensures !IsIsolated(PAIR, 0) && !IsIsolated(PAIR, 1) && ClosedDeps(PAIR)
  {
    assert PAIR[1].dependsOn == ["a"] && "a" in PAIR[1].dependsOn && PAIR[1].id == PAIR[1].id;
    assert PAIR[0].id == "a";
  }

  /** The plan passes the validation, its ids are unique and its dependencies closed. */
  lemma PairAccepted()
    ensures Acceptable(PAIR) && UniqueIds(PAIR) && ClosedDeps(PAIR)
  {
    PairPaths();
    PairNotIsolated();
  }

  lemma PairBegins() returns (log: seq<Event>)
    ensures Valid(PAIR, log) && Run(PAIR, log) == State(map["a" := None], [], false, [], [], [Running, Idle], 1, InWave)
  {
    log := [];
    PairReady(map[]);
    assert Run(PAIR, log) == State(map[], [], false, [], [], [Idle, Idle], 0, Scheduling);
    RunSnoc(PAIR, log, Open);
    log := log + [Open];
    assert Run(PAIR, log) == State(map[], [], false, [], [], [Pending, Idle], 1, InWave);
    RunSnoc(PAIR, log, Launch(0));
    log := log + [Launch(0)];
    assert Run(PAIR, log) == State(map["a" := None], [], false, [], [], [Waiting, Idle], 1, InWave);
    assert Busy([Waiting, Idle]) == {};
    RunSnoc(PAIR, log, Begin(0));
    log := log + [Begin(0)];
  }

  lemma PairSettles() returns (log: seq<Event>)
    ensures Valid(PAIR, log)
    ensures Run(PAIR, log) == State(map["a" := None], [], false, [NIL_RESULT], [NIL_RESULT], [Past, Idle], 1, InWave)
  {
    log := PairBegins();
    RunSnoc(PAIR, log, Report(NIL_RESULT));
    log := log + [Report(NIL_RESULT)];
    assert Run(PAIR, log) == State(map["a" := None], [], false, [NIL_RESULT], [], [Reported(NIL_RESULT), Idle], 1, InWave);
    RunSnoc(PAIR, log, Settle(0));
    log := log + [Settle(0)];
  }

  /** An accepted plan of two nodes whose first one succeeds without output: Execute reports success, and the second
      never runs. */
  lemma NilOutputBlocks() returns (log: seq<Event>)
    ensures Acceptable(PAIR) && UniqueIds(PAIR) && ClosedDeps(PAIR)
    ensures Valid(PAIR, log) && Run(PAIR, log).phase == Returned(true) && !HasResult(Run(PAIR, log).results, 1)
  {
    PairAccepted();
    log := PairSettles();
    RunSnoc(PAIR, log, EndWave);
    log := log + [EndWave];
    PairReady(map["a" := None]);
    RunSnoc(PAIR, log, Finish);
    log := log + [Finish];
  }

  const ORPHAN: Plan := [Node("a", "", "", 0, ["ghost"], None)]

  lemma OrphanAccepted()
    ensures Acceptable(ORPHAN) && UniqueIds(ORPHAN)
  {
    var rank: map<Id, nat> := map["a" := 1, "ghost" := 0];
    var g := Adjacency(ORPHAN, 1);
    assert g == map["a" := ["ghost"]];
    assert RankedBelow(Deps(g, "a"), rank, 1) && RankedBelow(Deps(g, "ghost"), rank, 0);
    RankedIsAcyclic(g, rank);
    forall path | Path(g, path) ensures |path| <= 2 {
      assert |path| > 1 ==> StepAt(g, path, 1);
      if path[0] in rank {
        PathsAreRanked(g, rank, path);
      }
    }
  }

  /** An accepted plan whose only node depends on an id that names no node: Execute reports success at once, and the node
      never runs. */
  lemma UnknownDependencyBlocks() returns (log: seq<Event>)
    ensures Acceptable(ORPHAN) && UniqueIds(ORPHAN) && !ClosedDeps(ORPHAN)
    ensures Valid(ORPHAN, log) && Run(ORPHAN, log).phase == Returned(true) && Run(ORPHAN, log).results == []
  {
    OrphanAccepted();
    assert "ghost" in ORPHAN[0].dependsOn;
    log := [];
    assert !IsReady(ORPHAN, map[], 0) by { assert ORPHAN[0].dependsOn[0] == "ghost"; }
    RunSnoc(ORPHAN, log, Finish);
    log := log + [Finish];
  }

  // --- progress -----------------------------------------------------------------------------

  /** A run that has not returned can always go on: the semaphore and the waves never block for good, and a goroutine gets
      past the semaphore whenever fewer than four nodes are at work. */
  lemma NeverStuck(plan: Plan, log: seq<Event>)
    requires Valid(plan, log) && !Run(plan, log).phase.Returned?
    ensures exists e :: Legal(plan, Run(plan, log), e)
    ensures var s := Run(plan, log);
            forall i: nat :: s.phase.InWave? && i < |s.place| && s.place[i].Waiting? && |Busy(s.place)| < 4 ==>
              Legal(plan, s, if s.failed then Skip(i) else Begin(i))
  {
    AlwaysInv(plan, log);
    var s := Run(plan, log);
    match s.phase
    case Scheduling => assert if AnyReady(plan, s.completed) then Legal(plan, s, Open) else Legal(plan, s, Finish);
    case Compensating(n) => assert if n < |s.undo| then Legal(plan, s, Undo(s.undo[n], true)) else Legal(plan, s, Leave);
    case InWave => WaveMoves(plan, s);
  }

  lemma WaveMoves(plan: Plan, s: State)
    requires s.phase.InWave? && |s.place| == |plan| && |Busy(s.place)| <= MAX_CONCURRENCY
    ensures exists e :: Legal(plan, s, e)
  {
    if WaveDone(s.place) {
      assert Legal(plan, s, EndWave);
    } else if Busy(s.place) != {} {
      var i :| i in Busy(s.place);
      assert if s.place[i].Running? then Legal(plan, s, Report(NodeResult(i, None, true))) else Legal(plan, s, Settle(i));
    } else {
      var i :| 0 <= i < |s.place| && !s.place[i].Idle? && !s.place[i].Past?;
      assert i !in Busy(s.place);
      assert if s.place[i].Pending? then Legal(plan, s, Launch(i)) else if s.failed then Legal(plan, s, Skip(i)) else Legal(plan, s, Begin(i));
    }
  }

  /** Steps a node can still cause. */
  function Left(p: Place): nat {
    match p
    case Idle => 7
    case Pending => 5
    case Waiting => 4
    case Running => 3
    case Reported(_) => 2
    case Past => 0
  }

  function Work(place: seq<Place>): nat {
    if place == [] then 0 else Work(place[..|place| - 1]) + Left(place[|place| - 1])
  }

  /** Steps the whole run can still take. */
  function Potential(s: State): nat {
    match s.phase
    case Scheduling => Work(s.place) + |s.undo| + 1
    case InWave => Work(s.place) + |s.undo| + 2
    case Compensating(n) => (if n < |s.undo| then |s.undo| - n else 0) + 1
    case Returned(_) => 0
  }

  lemma {:induction false} WorkAfter(place: seq<Place>, i: nat, p: Place)
    requires i < |place|
    ensures Work(place[i := p]) + Left(place[i]) == Work(place) + Left(p)
  {
    var n := |place| - 1;
    if i < n {
      WorkAfter(place[..n], i, p);
      assert place[i := p][..n] == place[..n][i := p];
    } else {
      assert place[i := p][..n] == place[..n];
    }
  }

  lemma {:induction false} WorkFalls(a: seq<Place>, b: seq<Place>)
    requires |a| == |b| && forall i :: 0 <= i < |a| ==> Left(b[i]) <= Left(a[i])
    ensures Work(b) <= Work(a)
    ensures (exists i :: 0 <= i < |a| && Left(b[i]) + 2 <= Left(a[i])) ==> Work(b) + 2 <= Work(a)
  {
    if a != [] {
      WorkFalls(a[..|a| - 1], b[..|b| - 1]);
      if i :| 0 <= i < |a| && Left(b[i]) + 2 <= Left(a[i]) {
        assert i < |a| - 1 ==> a[..|a| - 1][i] == a[i] && b[..|b| - 1][i] == b[i];
      }
    }
  }

  lemma {:induction false} WorkAtStart(n: nat)
    ensures Work(seq(n, _ => Idle)) == 7 * n
  {
    if n > 0 {
      WorkAtStart(n - 1);
      assert seq(n, _ => Idle)[..n - 1] == seq(n - 1, _ => Idle);
    }
  }

  lemma PotentialOpen(plan: Plan, s: State)
    requires PlacesOk(plan, s) && MarksOk(plan, s) && Legal(plan, s, Open)
    ensures Potential(Next(plan, s, Open)) < Potential(s)
  {
    ReadyIsIdle(plan, s);
    var i: nat :| i < |plan| && IsReady(plan, s.completed, i);
    var after := Opened(plan, s.completed, s.place);
    assert after[i].Pending?;
    WorkFalls(s.place, after);
  }

  lemma PotentialFalls(plan: Plan, s: State, e: Event)
    requires Legal(plan, s, e) && (e.Open? ==> PlacesOk(plan, s) && MarksOk(plan, s))
    ensures Potential(Next(plan, s, e)) < Potential(s)
  {
    match e
    case Open => PotentialOpen(plan, s);
    case Launch(i) => WorkAfter(s.place, i, Waiting);
    case Begin(i) => WorkAfter(s.place, i, Running);
    case Skip(i) => WorkAfter(s.place, i, Past);
    case Report(r) => WorkAfter(s.place, r.node, Reported(r));
    case Settle(i) => PotentialSettle(plan, s, i);
    case _ =>
  }

  lemma PotentialSettle(plan: Plan, s: State, i: nat)
    requires Legal(plan, s, Settle(i))
    ensures Potential(Next(plan, s, Settle(i))) < Potential(s)
  {
    WorkAfter(s.place, i, Past);
    assert |UndoOf(plan[i])| <= 1;
  }

  /** Every run ends: at most seven events a node and one more. */
  lemma {:induction false} RunsAreShort(plan: Plan, log: seq<Event>)
    requires Valid(plan, log)
    ensures |log| + Potential(Run(plan, log)) <= 7 * |plan| + 1
  {
    if log == [] {
      WorkAtStart(|plan|);
    } else {
      var rest := log[..|log| - 1];
      RunsAreShort(plan, rest);
      AlwaysInv(plan, rest);
      PotentialFalls(plan, Run(plan, rest), log[|log| - 1]);
    }
  }
}
