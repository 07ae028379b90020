/** pkg/cognition/kernel/dag_executor.go: DAGExecutor, whose fields are updated by Execute, its goroutines and
    runCompensation. */
module DagExecutors {
  import opened Options
  import opened Plans
  import opened DepthFirst
  import opened DagTopology
  import opened DagRuns
  import opened SagaOrder

  /** What the tools return by node, the turns that find the thirty seconds over, and the replay switch. */
  datatype Surroundings = Surroundings(output: nat -> Output, fails: nat -> bool, late: nat -> bool, replaying: bool)

  /** The event is what the surroundings make of it. */
  predicate DecidedBy(world: Surroundings, e: Event) {
    match e
    case Report(r) => r == NodeResult(r.node, world.output(r.node), world.fails(r.node))
    case Undo(_, called) => called == !world.replaying
    case _ => true
  }

  ghost predicate AllDecided(world: Surroundings, log: seq<Event>) {
    forall p :: 0 <= p < |log| ==> DecidedBy(world, log[p])
  }

  /** Every result is what the tool of its node has returned. */
  lemma {:induction false} ResultsDecided(world: Surroundings, plan: Plan, log: seq<Event>)
    requires AllDecided(world, log)
    ensures forall r :: r in Run(plan, log).results ==> DecidedBy(world, Report(r))
  {
    if log != [] {
      ResultsDecided(world, plan, log[..|log| - 1]);
    }
  }

  datatype Outcome = Rejected(error: TopologyError) | Done(ok: bool)

  class DAGExecutor {
    const world: Surroundings
    var completed: map<Id, Output>
    var executedUndo: seq<Compensation>
    // Shared by Execute and the goroutines it starts.
    var allResults: seq<NodeResult>
    var failed: bool
    var place: seq<Place>
    // The history of the current call.
    ghost var settled: seq<NodeResult>
    ghost var waves: nat
    ghost var phase: Phase
    ghost var log: seq<Event>

    ghost function Now(): State
      reads this
    {
      State(completed, executedUndo, failed, allResults, settled, place, waves, phase)
    }

    /** The fields are what the events so far make of them. */
    ghost predicate Follows(plan: Plan)
      reads this
    {
      Valid(plan, log) && Run(plan, log) == Now() && AllDecided(world, log)
    }

    constructor (world: Surroundings)
      ensures this.world == world && completed == map[] && executedUndo == []
    {
      this.world := world;
      completed, executedUndo, allResults, failed, place := map[], [], [], false, [];
      settled, waves, phase, log := [], 0, Scheduling, [];
    }

    method Reset(plan: Plan)
      modifies this
      ensures Follows(plan) && log == []
    {
      completed, executedUndo, allResults, failed, place := map[], [], [], false, seq(|plan|, _ => Idle);
      settled, waves, phase, log := [], 0, Scheduling, [];
    }

    /** The nodes that are not marked and all of whose dependencies are marked with an output, each once, by id. */
    method FindReadyNodes(plan: Plan) returns (ready: seq<nat>)
      ensures ReadyOnce(plan, completed, ready)
      ensures SortedById(plan, ready)
    {
      ready := [];
      for n := 0 to |plan|
        invariant forall i: nat :: multiset(ready)[i] == if i < n && IsReady(plan, completed, i) then 1 else 0
      {
        if plan[n].id !in completed {
          var allReady := CheckDeps(plan[n].dependsOn);
          if allReady { ready := ready + [n]; }
        }
      }
      ready := SortById(plan, ready);
    }

    /** Any sort will do; nodes of one id may end up in either order. */
    method SortById(plan: Plan, nodes: seq<nat>) returns (sorted: seq<nat>)
      ensures multiset(sorted) == multiset(nodes) && SortedById(plan, sorted)
    {
      sorted := [];
      assert nodes[..0] == [];
      for n := 0 to |nodes|
        invariant multiset(sorted) == multiset(nodes[..n]) && SortedById(plan, sorted)
      {
        assert nodes[..n + 1] == nodes[..n] + [nodes[n]];
        var p := |sorted|;
        while p > 0 && !LexLe(IdOf(plan, sorted[p - 1]), IdOf(plan, nodes[n]))
          invariant 0 <= p <= |sorted|
          invariant forall q :: p <= q < |sorted| ==> !LexLe(IdOf(plan, sorted[q]), IdOf(plan, nodes[n]))
        {
          p := p - 1;
        }
        InsertedById(plan, sorted, nodes[n], p);
        sorted := sorted[..p] + [nodes[n]] + sorted[p..];
      }
      assert nodes[..|nodes|] == nodes;
    }

    method CheckDeps(deps: seq<Id>) returns (allReady: bool)
      ensures allReady == DepsDone(deps, completed)
    {
      for n := 0 to |deps|
        invariant DepsDone(deps[..n], completed)
      {
        if deps[n] !in completed || completed[deps[n]].None? {
          return false;
        }
        assert deps[..n + 1] == deps[..n] + [deps[n]];
      }
      assert deps[..|deps|] == deps;
      return true;
    }

    /** Appends the event that has just happened to the history. */
    ghost method Log(plan: Plan, before: State, e: Event)
      requires Valid(plan, log) && Run(plan, log) == before && Legal(plan, before, e) && Now() == Next(plan, before, e)
      requires AllDecided(world, log) && DecidedBy(world, e)
      modifies this`log
      ensures Follows(plan) && log == old(log) + [e]
    {
      RunSnoc(plan, log, e);
      log := log + [e];
    }

    method OpenWave(plan: Plan, ready: seq<nat>)
      requires Follows(plan) && Legal(plan, Now(), Open) && forall i: nat :: i in ready <==> IsReady(plan, completed, i)
      modifies this
      ensures Follows(plan) && log == old(log) + [Open] && phase.InWave?
    {
      ghost var before := Now();
      var now := place;
      place := seq(|now|, i requires 0 <= i < |now| => if i in ready then Pending else now[i]);
      waves, phase := waves + 1, InWave;
      assert place == Opened(plan, completed, before.place);
      Log(plan, before, Open);
    }

    /** The body of the loop over the ready nodes. */
    method MarkInFlight(plan: Plan, i: nat)
      requires Follows(plan) && Legal(plan, Now(), Launch(i))
      modifies this
      ensures Follows(plan) && log == old(log) + [Launch(i)]
    {
      ghost var before := Now();
      completed := completed[plan[i].id := None];
      place := place[i := Waiting];
      Log(plan, before, Launch(i));
    }

    /** A goroutine gets the semaphore and looks at the failed flag. */
    method Enter(plan: Plan, i: nat)
      requires Follows(plan) && CanEnter(Now(), i)
      modifies this
      ensures Follows(plan) && log == old(log) + [if old(failed) then Skip(i) else Begin(i)]
    {
      ghost var before := Now();
      if failed {
        place := place[i := Past];
        Log(plan, before, Skip(i));
      } else {
        place := place[i := Running];
        Log(plan, before, Begin(i));
      }
    }

    /** executeNode comes back with what the tool returns, and the result is recorded. */
    method ReportResult(plan: Plan, r: NodeResult)
      requires Follows(plan) && Legal(plan, Now(), Report(r)) && DecidedBy(world, Report(r))
      modifies this
      ensures Follows(plan) && log == old(log) + [Report(r)]
    {
      ghost var before := Now();
      allResults := allResults + [r];
      place := place[r.node := Reported(r)];
      Log(plan, before, Report(r));
    }

    /** The rest of the goroutine: a failure sets the flag, a success stores output and compensation. */
    method StoreOutcome(plan: Plan, i: nat)
      requires Follows(plan) && Legal(plan, Now(), Settle(i))
      modifies this
      ensures Follows(plan) && log == old(log) + [Settle(i)]
    {
      ghost var before := Now();
      var r := place[i].result;
      if r.failed {
        failed := true;
      } else {
        completed := completed[plan[i].id := r.output];
        if plan[i].compensation.Some? {
          var comp := plan[i].compensation.value.(taintLevel := plan[i].taintLevel);
          executedUndo := [comp] + executedUndo;
        }
      }
      place := place[i := Past];
      settled := settled + [r];
      Log(plan, before, Settle(i));
    }

    method EndOfWave(plan: Plan)
      requires Follows(plan) && Legal(plan, Now(), EndWave)
      modifies this
      ensures Follows(plan) && log == old(log) + [EndWave]
      ensures phase == if failed then Compensating(0) else Scheduling
      ensures failed == old(failed) && executedUndo == old(executedUndo)
    {
      ghost var before := Now();
      phase := if failed then Compensating(0) else Scheduling;
      Log(plan, before, EndWave);
    }

    method Return(plan: Plan, e: Event)
      requires e.Finish? || e.TimeOut? || e.Leave?
      requires Follows(plan) && Legal(plan, Now(), e)
      modifies this
      ensures Follows(plan) && log == old(log) + [e] && phase == Returned(e.Finish?) && executedUndo == old(executedUndo)
    {
      ghost var before := Now();
      phase := Returned(e.Finish?);
      Log(plan, before, e);
    }

    method UndoOne(plan: Plan, comp: Compensation, called: bool)
      requires Follows(plan) && Legal(plan, Now(), Undo(comp, called)) && called == !world.replaying
      modifies this
      ensures Follows(plan) && log == old(log) + [Undo(comp, called)]
      ensures phase == Compensating(old(phase).next + 1) && executedUndo == old(executedUndo)
    {
      ghost var before := Now();
      phase := Compensating(phase.next + 1);
      Log(plan, before, Undo(comp, called));
    }

    /** Walks down a copy of the undo queue until it is done or a turn finds the thirty seconds over. */
    method RunCompensation(plan: Plan)
      requires Follows(plan) && phase == Compensating(0)
      modifies this
      ensures Follows(plan) && phase == Returned(false) && executedUndo == old(executedUndo)
      ensures Turns(log) <= executedUndo && (Turns(log) == executedUndo <==> !TimedOut(log))
      ensures StopsWhenLate(world, Turns(log), executedUndo)
    {
      var undos := executedUndo;
      var n := 0;
      while n < |undos|
        invariant Follows(plan) && phase == Compensating(n) && executedUndo == undos && n <= |undos|
        invariant forall m :: 0 <= m < n ==> !world.late(m)
      {
        if world.late(n) { break; }
        UndoOne(plan, undos[n], !world.replaying);
        n := n + 1;
      }
      StopHere(plan, if n < |undos| then TimeOut else Leave);
    }

    /** The end of the compensation, which is no turn. */
    method StopHere(plan: Plan, e: Event)
      requires Follows(plan) && phase.Compensating? && (e.TimeOut? || e.Leave?) && Legal(plan, Now(), e)
      modifies this
      ensures Follows(plan) && phase == Returned(false) && executedUndo == old(executedUndo)
      ensures |Turns(log)| == old(phase).next && Turns(log) <= executedUndo && (Turns(log) == executedUndo <==> !TimedOut(log))
    {
      TurnsFollowTheQueue(plan, log);
      Return(plan, e);
      assert log[..|log| - 1] == old(log);
      TurnsFollowTheQueue(plan, log);
    }

    /** Any one goroutine of the wave, or the loop that starts them, takes its next step. */
    method Move(plan: Plan, i: nat)
      requires Follows(plan) && phase.InWave? && |place| == |plan| && CanMove(place, i)
      modifies this
      ensures Follows(plan) && exists e :: log == old(log) + [e] && Legal(plan, old(Now()), e) && !e.Open? && !e.EndWave?
    {
      match place[i]
      case Pending => MarkInFlight(plan, i);
      case Waiting => Enter(plan, i);
      case Running =>
        ReportResult(plan, NodeResult(i, world.output(i), world.fails(i)));
      case Reported(_) => StoreOutcome(plan, i);
    }

    /** A wave under any interleaving, up to wg.Wait. */
    method RunWave(plan: Plan)
      requires Follows(plan) && phase.InWave?
      modifies this
      ensures Follows(plan) && phase.InWave? && WaveDone(place)
      ensures Potential(Now()) <= old(Potential(Now()))
    {
      while !WaveDone(place)
        invariant Follows(plan) && phase.InWave? && Potential(Now()) <= old(Potential(Now()))
        decreases Potential(Now())
      {
        AlwaysInv(plan, log);
        SomeoneMoves(place);
        var i: nat :| CanMove(place, i);
        ghost var past := log;
        Move(plan, i);
        Moved(plan, past, log);
      }
    }

    /** Refused plans change nothing. Otherwise Execute is a complete run of the transition system, whatever the
        interleaving. */
    method Execute(plan: Plan) returns (outcome: Outcome, results: seq<NodeResult>)
      modifies this
      ensures outcome.Rejected? <==> !Passes(plan)
      ensures outcome.Rejected? ==> Now() == old(Now()) && results == []
      ensures outcome.Done? ==> Follows(plan) && phase == Returned(outcome.ok) && results == allResults
      ensures outcome.Done? && UniqueIds(plan) && outcome.ok ==>
                (AllRan(plan, results) <==> ClosedDeps(plan) && NoNilNeeded(plan, results))
      ensures outcome.Done? ==> forall i: nat :: HasResult(results, i) <==> Started(plan, log, i)
      ensures outcome.Done? ==> IsReverseCompletion(plan, settled, executedUndo) && Distinct(results)
      ensures outcome == Done(false) ==> Turns(log) <= executedUndo && (Turns(log) == executedUndo <==> !TimedOut(log))
      ensures outcome.Done? ==> forall r :: r in results ==> r == NodeResult(r.node, world.output(r.node), world.fails(r.node))
      ensures outcome == Done(false) ==> StopsWhenLate(world, Turns(log), executedUndo)
      ensures outcome == Done(false) ==> Attempted(log) == if world.replaying then [] else Turns(log)
      ensures outcome == Done(false) ==> exists r :: r in results && r.failed
      ensures outcome == Done(true) ==> Turns(log) == [] && forall r :: r in results ==> !r.failed
    {
      results := [];
      var err, rank := ValidateDAGTopology(plan);
      if err.Some? {
        return Rejected(err.value), results;
      }
      Reset(plan);
      ExecuteWaves(plan);
      results := allResults;
      outcome := Done(!failed);
      ReturnedResults(world, plan, log);
      ReturnedUndos(world, plan, log);
      if outcome.ok && UniqueIds(plan) {
        EveryNodeRan(plan, log, rank);
      }
    }

    method OneWave(plan: Plan, ready: seq<nat>)
      requires Follows(plan) && phase.Scheduling? && ready != []
      requires ReadyOnce(plan, completed, ready)
      modifies this
      ensures Follows(plan) && phase == if failed then Compensating(0) else Scheduling
      ensures Potential(Now()) < old(Potential(Now()))
    {
      ReadyMembers(plan, completed, ready);
      assert ready[0] in ready;
      AlwaysInv(plan, log);
      PotentialFalls(plan, Now(), Open);
      OpenWave(plan, ready);
      RunWave(plan);
      PotentialFalls(plan, Now(), EndWave);
      EndOfWave(plan);
    }

    method ExecuteWaves(plan: Plan)
      requires Follows(plan) && log == []
      modifies this
      ensures Follows(plan) && phase.Returned?
      ensures phase == Returned(false) ==> StopsWhenLate(world, Turns(log), executedUndo)
    {
      var ready := FindReadyNodes(plan);
      while ready != []
        invariant Follows(plan) && phase.Scheduling? && ReadyOnce(plan, completed, ready)
        decreases Potential(Now())
      {
        OneWave(plan, ready);
        if failed {
          RunCompensation(plan);
          return;
        }
        ready := FindReadyNodes(plan);
      }
      ReadyMembers(plan, completed, ready);
      Return(plan, Finish);
    }
  }

  /** What a run that has returned has in its results. */
  lemma ReturnedResults(world: Surroundings, plan: Plan, log: seq<Event>)
    requires Valid(plan, log) && AllDecided(world, log) && Run(plan, log).phase.Returned?
    ensures var s := Run(plan, log);
            && s.phase.ok == !s.failed && Distinct(s.results)
            && (forall i: nat :: HasResult(s.results, i) <==> Started(plan, log, i))
            && (forall r :: r in s.results ==> r == NodeResult(r.node, world.output(r.node), world.fails(r.node)))
            && (s.phase.ok ==> forall r :: r in s.results ==> !r.failed)
            && (!s.phase.ok ==> exists r :: r in s.results && r.failed)
  {
    AlwaysInv(plan, log);
    RecordsWhatSettled(plan, log);
    forall i: nat ensures HasResult(Run(plan, log).results, i) <==> Started(plan, log, i) {
      ResultsExactly(plan, log, i);
    }
    ResultsDecided(world, plan, log);
  }

  /** And what it has undone. */
  lemma ReturnedUndos(world: Surroundings, plan: Plan, log: seq<Event>)
    requires Valid(plan, log) && AllDecided(world, log) && Run(plan, log).phase.Returned?
    ensures var s := Run(plan, log);
            && IsReverseCompletion(plan, s.settled, s.undo)
            && Attempted(log) == (if world.replaying then [] else Turns(log))
            && (s.phase.ok ==> Turns(log) == [])
            && (!s.phase.ok ==> Turns(log) <= s.undo && (Turns(log) == s.undo <==> !TimedOut(log)))
  {
    AttemptedByWorld(world, log);
    UndoIsReverseCompletion(plan, log);
    TurnsFollowTheQueue(plan, log);
  }

  /** The turns go on until one finds the thirty seconds over. */
  predicate StopsWhenLate(world: Surroundings, turns: seq<Compensation>, queue: seq<Compensation>) {
    && (forall n :: 0 <= n < |turns| ==> !world.late(n))
    && (|turns| < |queue| ==> world.late(|turns|))
  }

  /** Every turn calls its compensation, or none does in replay mode. */
  lemma {:induction false} AttemptedByWorld(world: Surroundings, log: seq<Event>)
    requires AllDecided(world, log)
    ensures Attempted(log) == if world.replaying then [] else Turns(log)
  {
    if log != [] {
      AttemptedByWorld(world, log[..|log| - 1]);
    }
  }

  /** `ready` lists the ready nodes, each once. */
  ghost predicate ReadyOnce(plan: Plan, completed: map<Id, Output>, ready: seq<nat>) {
    forall i: nat :: multiset(ready)[i] == if IsReady(plan, completed, i) then 1 else 0
  }

  lemma ReadyMembers(plan: Plan, completed: map<Id, Output>, ready: seq<nat>)
    requires ReadyOnce(plan, completed, ready)
    ensures forall i: nat :: i in ready <==> IsReady(plan, completed, i)
  {
    forall i: nat ensures i in ready <==> IsReady(plan, completed, i) {
      assert i in ready <==> i in multiset(ready);
    }
  }

  // --- ids in dictionary order --------------------------------------------------------------

  predicate LexLe(a: Id, b: Id) {
    a == "" || (b != "" && (a[0] < b[0] || (a[0] == b[0] && LexLe(a[1..], b[1..]))))
  }

  lemma {:induction false} LexTotal(a: Id, b: Id)
    ensures LexLe(a, b) || LexLe(b, a)
  {
    if a != "" && b != "" && a[0] == b[0] {
      LexTotal(a[1..], b[1..]);
    }
  }

  lemma {:induction false} LexTransitive(a: Id, b: Id, c: Id)
    requires LexLe(a, b) && LexLe(b, c)
    ensures LexLe(a, c)
  {
    if a != "" && a[0] == b[0] == c[0] {
      LexTransitive(a[1..], b[1..], c[1..]);
    }
  }

  function IdOf(plan: Plan, i: nat): Id {
    if i < |plan| then plan[i].id else ""
  }

  ghost predicate SortedById(plan: Plan, nodes: seq<nat>) {
    forall k, l :: 0 <= k < l < |nodes| ==> LexLe(IdOf(plan, nodes[k]), IdOf(plan, nodes[l]))
  }

  lemma InsertedById(plan: Plan, sorted: seq<nat>, i: nat, p: nat)
    requires SortedById(plan, sorted) && p <= |sorted|
    requires p > 0 ==> LexLe(IdOf(plan, sorted[p - 1]), IdOf(plan, i))
    requires forall q :: p <= q < |sorted| ==> !LexLe(IdOf(plan, sorted[q]), IdOf(plan, i))
    ensures SortedById(plan, sorted[..p] + [i] + sorted[p..])
    ensures multiset(sorted[..p] + [i] + sorted[p..]) == multiset(sorted) + multiset{i}
  {
    var more := sorted[..p] + [i] + sorted[p..];
    InsertedOnce(sorted, i, p);
    forall k, l | 0 <= k < l < |more| ensures LexLe(IdOf(plan, more[k]), IdOf(plan, more[l])) {
      InsertedPair(plan, sorted, i, p, k, l);
    }
  }

  lemma InsertedOnce(sorted: seq<nat>, i: nat, p: nat)
    requires p <= |sorted|
    ensures multiset(sorted[..p] + [i] + sorted[p..]) == multiset(sorted) + multiset{i}
  {
    assert sorted == sorted[..p] + sorted[p..];
  }

  lemma InsertedPair(plan: Plan, sorted: seq<nat>, i: nat, p: nat, k: nat, l: nat)
    requires SortedById(plan, sorted) && p <= |sorted| && k < l <= |sorted|
    requires p > 0 ==> LexLe(IdOf(plan, sorted[p - 1]), IdOf(plan, i))
    requires forall q :: p <= q < |sorted| ==> !LexLe(IdOf(plan, sorted[q]), IdOf(plan, i))
    ensures var more := sorted[..p] + [i] + sorted[p..]; LexLe(IdOf(plan, more[k]), IdOf(plan, more[l]))
  {
    if l == p && k < p - 1 {
      LexTransitive(IdOf(plan, sorted[k]), IdOf(plan, sorted[p - 1]), IdOf(plan, i));
    } else if k == p {
      LexTotal(IdOf(plan, i), IdOf(plan, sorted[l - 1]));
    }
  }

  /** Node `i` has a step to take: it is in the wave, and not held up by the semaphore. */
  predicate CanMove(place: seq<Place>, i: nat) {
    i < |place| && InTheWave(place[i]) && (place[i].Waiting? ==> |Busy(place)| < MAX_CONCURRENCY)
  }

  lemma SomeoneMoves(place: seq<Place>)
    requires !WaveDone(place) && |Busy(place)| <= MAX_CONCURRENCY
    ensures exists i: nat :: CanMove(place, i)
  {
    if Busy(place) != {} {
      var i :| i in Busy(place);
      assert CanMove(place, i);
    } else {
      var i :| 0 <= i < |place| && !place[i].Idle? && !place[i].Past?;
      assert CanMove(place, i);
    }
  }

  lemma {:induction false} Moved(plan: Plan, past: seq<Event>, log: seq<Event>)
    requires Valid(plan, past) && Valid(plan, log) && Run(plan, past).phase.InWave?
    requires exists e :: log == past + [e] && Legal(plan, Run(plan, past), e) && !e.Open? && !e.EndWave?
    ensures Potential(Run(plan, log)) < Potential(Run(plan, past)) && Run(plan, log).phase.InWave?
  {
    var e :| log == past + [e] && Legal(plan, Run(plan, past), e) && !e.Open? && !e.EndWave?;
    RunSnoc(plan, past, e);
    PotentialFalls(plan, Run(plan, past), e);
  }
}
