/** pkg/substrate/mutation_bus_execute.go: one flush as a function, and runs of flushes. */
module MutationBus {
  import opened Options
  import opened SqlStore

  datatype Reason = BeginFailed | StatementFailed | Cancelled | CommitFailed
  datatype Answer = Acked | StaleLease | Failed(reason: Reason)

  /** What the surroundings decide during one flush: the two lease checks of each intent, database failures, the
      cancellation seen before COMMIT. */
  datatype Env = Env(hasChecker: bool, first: nat -> bool, second: nat -> bool, beginOk: bool,
                     fault: nat -> bool, cancelled: bool, commitOk: bool)

  predicate LeaseLost(batch: seq<Intent>, env: Env, p: nat)
    requires p < |batch|
  {
    batch[p].taskId != "" && batch[p].agentId != "" && env.hasChecker && !env.first(p)
  }

  predicate Below(ps: seq<nat>, n: nat) {
    forall a :: 0 <= a < |ps| ==> ps[a] < n
  }

  predicate Ascending(ps: seq<nat>) {
    forall a, b :: 0 <= a < b < |ps| ==> ps[a] < ps[b]
  }

  /** The positions below `n` whose lease check failed, or held, in ascending order. */
  function Positions(batch: seq<Intent>, env: Env, lost: bool, n: nat): (ps: seq<nat>)
    requires n <= |batch|
    ensures Below(ps, n) && Below(ps, |batch|)
  {
    if n == 0 then []
    else Positions(batch, env, lost, n - 1) + if LeaseLost(batch, env, n - 1) == lost then [n - 1] else []
  }

  lemma {:induction false} PositionsExact(batch: seq<Intent>, env: Env, lost: bool, n: nat)
    requires n <= |batch|
    ensures Ascending(Positions(batch, env, lost, n))
    ensures forall p :: p in Positions(batch, env, lost, n) <==> 0 <= p < n && LeaseLost(batch, env, p) == lost
    decreases n
  {
    if n > 0 {
      PositionsExact(batch, env, lost, n - 1);
    }
  }

  predicate KillsGroup(batch: seq<Intent>, env: Env, p: nat)
    requires p < |batch|
  {
    !LeaseLost(batch, env, p) && batch[p].group != "" && batch[p].taskId != "" && env.hasChecker && !env.second(p)
  }

  /** The groups whose members are all turned away in this flush. */
  function DeadGroups(batch: seq<Intent>, env: Env, n: nat): set<string>
    requires n <= |batch|
  {
    set p | 0 <= p < n && KillsGroup(batch, env, p) :: batch[p].group
  }

  type Results = seq<(nat, Answer)>

  predicate InBatch(batch: seq<Intent>, rs: Results) {
    forall a :: 0 <= a < |rs| ==> rs[a].0 < |batch|
  }

  function Each(ps: seq<nat>, a: Answer): (rs: Results)
    ensures |rs| == |ps| && forall i :: 0 <= i < |ps| ==> rs[i] == (ps[i], a)
  {
    seq(|ps|, i requires 0 <= i < |ps| => (ps[i], a))
  }

  datatype Progress = Broken | Going(tx: Db, results: Results)

  /** The statements of the first `n` intents of `kept`, until one breaks the transaction. */
  function Process(c: Config, db: Db, batch: seq<Intent>, env: Env, dead: set<string>, kept: seq<nat>, n: nat): Progress
    requires n <= |kept| && Below(kept, |batch|)
  {
    if n == 0 then Going(db, [])
    else
      match Process(c, db, batch, env, dead, kept, n - 1)
      case Broken => Broken
      case Going(tx, results) =>
        var p := kept[n - 1];
        if batch[p].group != "" && batch[p].group in dead then Going(tx, results + [(p, StaleLease)])
        else
          match Exec(c, tx, batch[p], env.fault(p))
          case Done(tx') => Going(tx', results + [(p, Acked)])
          case Stale => Going(tx, results + [(p, StaleLease)])
          case Fatal => Broken
  }

  /** The transaction on the intents that kept their lease: the committed state and what each of them is told. */
  function Transact(c: Config, db: Db, batch: seq<Intent>, env: Env, dead: set<string>, kept: seq<nat>): (Db, Results)
    requires Below(kept, |batch|)
  {
    if !env.beginOk then (db, Each(kept, Failed(BeginFailed)))
    else
      match Process(c, db, batch, env, dead, kept, |kept|)
      case Broken => (db, Each(kept, Failed(StatementFailed)))
      case Going(tx, results) =>
        if env.cancelled then (db, Each(kept, Failed(Cancelled)))
        else if !env.commitOk then (db, Each(kept, Failed(CommitFailed)))
        else (tx, results)
  }

  /** A whole flush: the committed state and the decision on every intent, in the order in which they are made. */
  function Flush(c: Config, db: Db, batch: seq<Intent>, env: Env): (Db, Results) {
    var lost := Each(Positions(batch, env, true, |batch|), StaleLease);
    var kept := Positions(batch, env, false, |batch|);
    if kept == [] then (db, lost)
    else
      var (db', answers) := Transact(c, db, batch, env, DeadGroups(batch, env, |batch|), kept);
      (db', lost + answers)
  }

  // --- each intent is answered once ---------------------------------------------------------

  lemma {:induction false} ProcessAnswers(c: Config, db: Db, batch: seq<Intent>, env: Env, dead: set<string>, kept: seq<nat>, n: nat)
    requires n <= |kept| && Below(kept, |batch|)
    ensures var pr := Process(c, db, batch, env, dead, kept, n);
            pr.Going? ==> |pr.results| == n && forall a :: 0 <= a < n ==> pr.results[a].0 == kept[a]
    decreases n
  {
    if n > 0 {
      ProcessAnswers(c, db, batch, env, dead, kept, n - 1);
    }
  }

  lemma TransactAnswers(c: Config, db: Db, batch: seq<Intent>, env: Env, dead: set<string>, kept: seq<nat>)
    requires Below(kept, |batch|)
    ensures var rs := Transact(c, db, batch, env, dead, kept).1;
            |rs| == |kept| && forall a :: 0 <= a < |rs| ==> rs[a].0 == kept[a]
  {
    ProcessAnswers(c, db, batch, env, dead, kept, |kept|);
  }

  /** First the intents with a lost lease, then the others, each in batch order. */
  lemma FlushOrder(c: Config, db: Db, batch: seq<Intent>, env: Env)
    ensures var order := Positions(batch, env, true, |batch|) + Positions(batch, env, false, |batch|);
            var rs := Flush(c, db, batch, env).1;
            |rs| == |order| && forall a :: 0 <= a < |rs| ==> rs[a].0 == order[a]
  {
    TransactAnswers(c, db, batch, env, DeadGroups(batch, env, |batch|), Positions(batch, env, false, |batch|));
  }

  ghost predicate DecidedAt(rs: Results, p: nat, a: nat) {
    a < |rs| && rs[a].0 == p
  }

  ghost predicate DecidedExactlyOnce(rs: Results, p: nat) {
    (exists a: nat :: DecidedAt(rs, p, a)) && forall a: nat, b: nat :: DecidedAt(rs, p, a) && DecidedAt(rs, p, b) ==> a == b
  }

  lemma OnceInOrder(rs: Results, lost: seq<nat>, kept: seq<nat>, p: nat)
    requires Ascending(lost) && Ascending(kept) && |rs| == |lost| + |kept|
    requires forall a :: 0 <= a < |rs| ==> rs[a].0 == (lost + kept)[a]
    requires (p in lost) != (p in kept)
    ensures DecidedExactlyOnce(rs, p)
  {
    if p in lost {
      var a :| 0 <= a < |lost| && lost[a] == p;
      assert DecidedAt(rs, p, a);
    } else {
      var a :| 0 <= a < |kept| && kept[a] == p;
      assert (lost + kept)[|lost| + a] == p;
      assert DecidedAt(rs, p, |lost| + a);
    }
    forall a: nat, b: nat | DecidedAt(rs, p, a) && DecidedAt(rs, p, b) ensures a == b {
      assert (lost + kept)[a] == p == (lost + kept)[b];
    }
  }

  /** Whatever fails, every intent of the batch is decided, and decided once. */
  lemma DecidedOnce(c: Config, db: Db, batch: seq<Intent>, env: Env, p: nat)
    requires p < |batch|
    ensures DecidedExactlyOnce(Flush(c, db, batch, env).1, p)
  {
    FlushOrder(c, db, batch, env);
    PositionsExact(batch, env, true, |batch|);
    PositionsExact(batch, env, false, |batch|);
    OnceInOrder(Flush(c, db, batch, env).1, Positions(batch, env, true, |batch|), Positions(batch, env, false, |batch|), p);
  }

  // --- the table is the fold of the acknowledged intents -------------------------------------

  function AckedOf(batch: seq<Intent>, rs: Results): seq<Change>
    requires InBatch(batch, rs)
  {
    if rs == [] then []
    else AckedOf(batch, rs[..|rs| - 1]) + if rs[|rs| - 1].1 == Acked then [ByBus(batch[rs[|rs| - 1].0])] else []
  }

  lemma AckedSnoc(batch: seq<Intent>, rs: Results, r: (nat, Answer))
    requires InBatch(batch, rs) && r.0 < |batch|
    ensures AckedOf(batch, rs + [r]) == AckedOf(batch, rs) + if r.1 == Acked then [ByBus(batch[r.0])] else []
  {
    assert (rs + [r])[..|rs|] == rs;
  }

  lemma {:induction false} NothingAcked(batch: seq<Intent>, rs: Results)
    requires InBatch(batch, rs) && forall a :: 0 <= a < |rs| ==> rs[a].1 != Acked
    ensures AckedOf(batch, rs) == []
    decreases |rs|
  {
    if rs != [] {
      NothingAcked(batch, rs[..|rs| - 1]);
    }
  }

  lemma {:induction false} AckedBehind(batch: seq<Intent>, rs: Results, ss: Results)
    requires InBatch(batch, rs) && forall a :: 0 <= a < |rs| ==> rs[a].1 != Acked
    requires InBatch(batch, ss)
    ensures AckedOf(batch, rs + ss) == AckedOf(batch, ss)
    decreases |ss|
  {
    if ss == [] {
      assert rs + ss == rs;
      NothingAcked(batch, rs);
    } else {
      assert (rs + ss)[..|rs + ss| - 1] == rs + ss[..|ss| - 1];
      AckedBehind(batch, rs, ss[..|ss| - 1]);
    }
  }

  /** The transaction's state is the fold of the intents acknowledged so far. */
  ghost predicate Tracks(c: Config, db: Db, batch: seq<Intent>, tx: Db, rs: Results) {
    InBatch(batch, rs) && Accepted(c, db, AckedOf(batch, rs)) && tx == PlainAll(c, db, AckedOf(batch, rs))
  }

  lemma {:induction false} ProcessRefines(c: Config, db: Db, batch: seq<Intent>, env: Env, dead: set<string>, kept: seq<nat>, n: nat)
    requires n <= |kept| && Below(kept, |batch|)
    ensures var pr := Process(c, db, batch, env, dead, kept, n); pr.Going? ==> Tracks(c, db, batch, pr.tx, pr.results)
    decreases n
  {
    if n > 0 {
      ProcessRefines(c, db, batch, env, dead, kept, n - 1);
      var pr := Process(c, db, batch, env, dead, kept, n - 1);
      if pr.Going? {
        var p := kept[n - 1];
        RefusedTracks(c, db, batch, pr.tx, pr.results, p);
        if Exec(c, pr.tx, batch[p], env.fault(p)).Done? {
          ExecIsPlain(c, pr.tx, batch[p], env.fault(p));
          AckedTracks(c, db, batch, pr.tx, pr.results, p);
        }
      }
    }
  }

  lemma RefusedTracks(c: Config, db: Db, batch: seq<Intent>, tx: Db, rs: Results, p: nat)
    requires Tracks(c, db, batch, tx, rs) && p < |batch|
    ensures Tracks(c, db, batch, tx, rs + [(p, StaleLease)])
  {
    AckedSnoc(batch, rs, (p, StaleLease));
    assert AckedOf(batch, rs + [(p, StaleLease)]) == AckedOf(batch, rs);
  }

  lemma AckedTracks(c: Config, db: Db, batch: seq<Intent>, tx: Db, rs: Results, p: nat)
    requires Tracks(c, db, batch, tx, rs) && p < |batch| && Possible(c, tx, ByBus(batch[p]))
    ensures Tracks(c, db, batch, Changed(c, tx, ByBus(batch[p])), rs + [(p, Acked)])
  {
    AckedSnoc(batch, rs, (p, Acked));
    AcceptedSnoc(c, db, AckedOf(batch, rs), ByBus(batch[p]));
  }

  lemma {:induction false} TransactRefines(c: Config, db: Db, batch: seq<Intent>, env: Env, dead: set<string>, kept: seq<nat>)
    requires Below(kept, |batch|)
    ensures var (db', rs) := Transact(c, db, batch, env, dead, kept);
            && InBatch(batch, rs) && Accepted(c, db, AckedOf(batch, rs)) && db' == PlainAll(c, db, AckedOf(batch, rs))
  {
    var (db', rs) := Transact(c, db, batch, env, dead, kept);
    TransactAnswers(c, db, batch, env, dead, kept);
    ProcessRefines(c, db, batch, env, dead, kept, |kept|);
    if !env.beginOk || Process(c, db, batch, env, dead, kept, |kept|).Broken? || env.cancelled || !env.commitOk {
      NothingAcked(batch, rs);
    }
  }

  /** One flush leaves exactly the effect that the acknowledged intents have on a plain store, and none of the others. */
  lemma FlushRefines(c: Config, db: Db, batch: seq<Intent>, env: Env)
    ensures var (db', rs) := Flush(c, db, batch, env);
            && InBatch(batch, rs)
            && Accepted(c, db, AckedOf(batch, rs)) && db' == PlainAll(c, db, AckedOf(batch, rs))
  {
    var lost := Each(Positions(batch, env, true, |batch|), StaleLease);
    var kept, dead := Positions(batch, env, false, |batch|), DeadGroups(batch, env, |batch|);
    if kept == [] {
      NothingAcked(batch, lost);
    } else {
      TransactRefines(c, db, batch, env, dead, kept);
      AckedBehind(batch, lost, Transact(c, db, batch, env, dead, kept).1);
    }
  }

  // --- what each intent is told -------------------------------------------------------------

  /** The transaction is reached, broken by no statement, not cancelled, and committed. */
  predicate Commits(c: Config, db: Db, batch: seq<Intent>, env: Env) {
    var kept := Positions(batch, env, false, |batch|);
    env.beginOk && Process(c, db, batch, env, DeadGroups(batch, env, |batch|), kept, |kept|).Going? &&
    !env.cancelled && env.commitOk
  }

  /** The transaction when the turn of intent `p` comes: after those before it that kept their lease. */
  function AtTurn(c: Config, db: Db, batch: seq<Intent>, env: Env, p: nat): Progress
    requires p < |batch|
  {
    Process(c, db, batch, env, DeadGroups(batch, env, |batch|), Positions(batch, env, false, p), |Positions(batch, env, false, p)|)
  }

  /** What executing intent `p` in its turn gives. */
  function InTurn(c: Config, db: Db, batch: seq<Intent>, env: Env, p: nat): Outcome
    requires p < |batch|
  {
    match AtTurn(c, db, batch, env, p)
    case Broken => Fatal
    case Going(tx, _) => Exec(c, tx, batch[p], env.fault(p))
  }

  predicate InDeadGroup(batch: seq<Intent>, env: Env, p: nat)
    requires p < |batch|
  {
    batch[p].group != "" && batch[p].group in DeadGroups(batch, env, |batch|)
  }

  predicate Acknowledged(c: Config, db: Db, batch: seq<Intent>, env: Env, p: nat)
    requires p < |batch|
  {
    Commits(c, db, batch, env) && !LeaseLost(batch, env, p) && !InDeadGroup(batch, env, p) && InTurn(c, db, batch, env, p).Done?
  }

  lemma {:induction false} KeptPrefix(batch: seq<Intent>, env: Env, p: nat, n: nat)
    requires p <= n <= |batch|
    ensures Positions(batch, env, false, p) <= Positions(batch, env, false, n)
    decreases n
  {
    if p < n {
      KeptPrefix(batch, env, p, n - 1);
    }
  }

  /** Where a kept intent stands among the kept ones. */
  lemma {:induction false} KeptAt(batch: seq<Intent>, env: Env, p: nat)
    requires p < |batch| && !LeaseLost(batch, env, p)
    ensures var kept, a := Positions(batch, env, false, |batch|), |Positions(batch, env, false, p)|;
            a < |kept| && kept[a] == p && kept[..a] == Positions(batch, env, false, p)
  {
    KeptPrefix(batch, env, p + 1, |batch|);
    assert Positions(batch, env, false, p + 1) == Positions(batch, env, false, p) + [p];
  }

  lemma {:induction false} ProcessOfPrefix(c: Config, db: Db, batch: seq<Intent>, env: Env, dead: set<string>, kept: seq<nat>, m: nat, n: nat)
    requires n <= m <= |kept| && Below(kept, |batch|)
    ensures Process(c, db, batch, env, dead, kept[..m], n) == Process(c, db, batch, env, dead, kept, n)
    decreases n
  {
    if n > 0 {
      ProcessOfPrefix(c, db, batch, env, dead, kept, m, n - 1);
    }
  }

  /** The `a`-th kept intent gets its own answer, and keeps it. */
  lemma {:induction false} ProcessDecides(c: Config, db: Db, batch: seq<Intent>, env: Env, dead: set<string>, kept: seq<nat>, a: nat, n: nat)
    requires a < n <= |kept| && Below(kept, |batch|) && Process(c, db, batch, env, dead, kept, n).Going?
    ensures var pr, before := Process(c, db, batch, env, dead, kept, n), Process(c, db, batch, env, dead, kept, a);
            && before.Going? && |pr.results| == n
            && pr.results[a] == (kept[a], if batch[kept[a]].group != "" && batch[kept[a]].group in dead then StaleLease
                                          else if Exec(c, before.tx, batch[kept[a]], env.fault(kept[a])).Done? then Acked
                                          else StaleLease)
    decreases n
  {
    ProcessAnswers(c, db, batch, env, dead, kept, n);
    ProcessAnswers(c, db, batch, env, dead, kept, n - 1);
    if a < n - 1 {
      ProcessDecides(c, db, batch, env, dead, kept, a, n - 1);
    }
  }

  lemma {:induction false} KeptAnswer(c: Config, db: Db, batch: seq<Intent>, env: Env, p: nat)
    requires p < |batch| && !LeaseLost(batch, env, p)
    ensures var kept, a := Positions(batch, env, false, |batch|), |Positions(batch, env, false, p)|;
            var rs := Transact(c, db, batch, env, DeadGroups(batch, env, |batch|), kept).1;
            a < |rs| && rs[a].0 == p && (rs[a].1 == Acked <==> Acknowledged(c, db, batch, env, p))
  {
    var kept, dead, a := Positions(batch, env, false, |batch|), DeadGroups(batch, env, |batch|), |Positions(batch, env, false, p)|;
    KeptAt(batch, env, p);
    TransactAnswers(c, db, batch, env, dead, kept);
    if Commits(c, db, batch, env) {
      ProcessDecides(c, db, batch, env, dead, kept, a, |kept|);
      ProcessOfPrefix(c, db, batch, env, dead, kept, a, a);
    }
  }

  /** Whether an intent is acknowledged, read off the inputs of the flush: the transaction commits, its lease held, its
      group is not turned away, and its statement succeeds in its turn. */
  lemma AcknowledgedExactly(c: Config, db: Db, batch: seq<Intent>, env: Env, p: nat, b: nat)
    requires p < |batch| && DecidedAt(Flush(c, db, batch, env).1, p, b)
    ensures Flush(c, db, batch, env).1[b].1 == Acked <==> Acknowledged(c, db, batch, env, p)
  {
    var kept, lost := Positions(batch, env, false, |batch|), Positions(batch, env, true, |batch|);
    var rs := Flush(c, db, batch, env).1;
    DecidedOnce(c, db, batch, env, p);
    PositionsExact(batch, env, true, |batch|);
    PositionsExact(batch, env, false, |batch|);
    if LeaseLost(batch, env, p) {
      var i :| 0 <= i < |lost| && lost[i] == p;
      assert DecidedAt(rs, p, i) && rs[i].1 == StaleLease;
    } else {
      KeptAnswer(c, db, batch, env, p);
      assert p in kept;
      assert DecidedAt(rs, p, |lost| + |Positions(batch, env, false, p)|);
    }
  }

  /** The two lease checks, read off the inputs: without a checker or a task nothing is fenced; a failing first check refuses
      an intent that names task and agent, and a failing second check refuses every member of the group. */
  lemma FencedOut(c: Config, db: Db, batch: seq<Intent>, env: Env, p: nat, b: nat)
    requires p < |batch| && DecidedAt(Flush(c, db, batch, env).1, p, b)
    ensures env.hasChecker && batch[p].taskId != "" && batch[p].agentId != "" && !env.first(p) ==>
              Flush(c, db, batch, env).1[b].1 == StaleLease
    ensures forall q: nat ::
              q < |batch| && env.hasChecker && batch[q].group == batch[p].group != "" && batch[q].taskId != "" &&
              (batch[q].agentId == "" || env.first(q)) && !env.second(q) ==>
                Flush(c, db, batch, env).1[b].1 != Acked
    ensures Commits(c, db, batch, env) && InTurn(c, db, batch, env, p).Done? ==>
              (Flush(c, db, batch, env).1[b].1 != Acked <==>
                 env.hasChecker && (
                   || (batch[p].taskId != "" && batch[p].agentId != "" && !env.first(p))
                   || exists q: nat ::
                        q < |batch| && batch[q].group == batch[p].group != "" && batch[q].taskId != "" &&
                        (batch[q].agentId == "" || env.first(q)) && !env.second(q)))
  {
    AcknowledgedExactly(c, db, batch, env, p, b);
    if LeaseLost(batch, env, p) {
      LostIsStale(c, db, batch, env, p, b);
    }
    forall q: nat | q < |batch| && KillsGroup(batch, env, q) ensures batch[q].group in DeadGroups(batch, env, |batch|) {
    }
    if InDeadGroup(batch, env, p) {
      var q: nat :| q < |batch| && KillsGroup(batch, env, q) && batch[q].group == batch[p].group;
      assert batch[q].taskId != "" && (batch[q].agentId == "" || env.first(q)) && !env.second(q);
    }
  }

  lemma LostIsStale(c: Config, db: Db, batch: seq<Intent>, env: Env, p: nat, b: nat)
    requires p < |batch| && DecidedAt(Flush(c, db, batch, env).1, p, b) && LeaseLost(batch, env, p)
    ensures Flush(c, db, batch, env).1[b].1 == StaleLease
  {
    var lost := Positions(batch, env, true, |batch|);
    DecidedOnce(c, db, batch, env, p);
    PositionsExact(batch, env, true, |batch|);
    var i :| 0 <= i < |lost| && lost[i] == p;
    assert DecidedAt(Flush(c, db, batch, env).1, p, i);
  }

  /** An intent that nothing in the tables can refuse. */
  predicate Unconditional(i: Intent) {
    match i.op
    case Insert => i.claimedVersion <= 0 && i.key.0 != "events" && i.key.0 != "decision_log"
    case Upsert => i.claimedVersion <= 0 && i.key.0 != "events" && i.key.0 != "decision_log"
    case Delete => true
    case InsertDecision(e) => e.Some?
    case _ => false
  }

  predicate AllAcked(rs: Results) {
    forall a :: 0 <= a < |rs| ==> rs[a].1 == Acked
  }

  lemma {:induction false} UnconditionalProcess(c: Config, db: Db, batch: seq<Intent>, env: Env, kept: seq<nat>, n: nat)
    requires n <= |kept| && Below(kept, |batch|)
    requires forall p :: 0 <= p < |batch| ==> Unconditional(batch[p]) && !env.fault(p)
    ensures var pr := Process(c, db, batch, env, {}, kept, n); pr.Going? && AllAcked(pr.results)
  {
    if n > 0 {
      UnconditionalProcess(c, db, batch, env, kept, n - 1);
    }
  }

  /** While database and leases are well, deletes, decisions and writes without version are all acknowledged. */
  lemma UnconditionalAcked(c: Config, db: Db, batch: seq<Intent>, env: Env)
    requires !env.hasChecker && env.beginOk && !env.cancelled && env.commitOk
    requires forall p :: 0 <= p < |batch| ==> Unconditional(batch[p]) && !env.fault(p)
    ensures AllAcked(Flush(c, db, batch, env).1)
    ensures forall p :: 0 <= p < |batch| ==> DecidedExactlyOnce(Flush(c, db, batch, env).1, p)
  {
    var kept, lost := Positions(batch, env, false, |batch|), Positions(batch, env, true, |batch|);
    assert lost != [] ==> lost[0] in lost;
    PositionsExact(batch, env, true, |batch|);
    assert DeadGroups(batch, env, |batch|) == {};
    UnconditionalProcess(c, db, batch, env, kept, |kept|);
    forall p | 0 <= p < |batch| ensures DecidedExactlyOnce(Flush(c, db, batch, env).1, p) {
      DecidedOnce(c, db, batch, env, p);
    }
  }

  // --- composite groups ---------------------------------------------------------------------

  predicate Member(batch: seq<Intent>, g: string, p: nat) {
    p < |batch| && batch[p].group == g
  }

  /** Some member of the group is answered so. */
  ghost predicate SomeAnswer(batch: seq<Intent>, rs: Results, g: string, acked: bool) {
    exists b :: 0 <= b < |rs| && Member(batch, g, rs[b].0) && (rs[b].1 == Acked) == acked
  }

  /** Some member has its effect in the tables, and some other one was refused. */
  ghost predicate CommittedInPart(c: Config, db: Db, batch: seq<Intent>, env: Env, g: string) {
    var rs := Flush(c, db, batch, env).1;
    SomeAnswer(batch, rs, g, true) && SomeAnswer(batch, rs, g, false)
  }

  ghost predicate SomeAcknowledged(c: Config, db: Db, batch: seq<Intent>, env: Env, g: string, ack: bool) {
    exists p: nat :: Member(batch, g, p) && Acknowledged(c, db, batch, env, p) == ack
  }

  lemma SomeAnswerExactly(c: Config, db: Db, batch: seq<Intent>, env: Env, g: string, ack: bool)
    ensures SomeAnswer(batch, Flush(c, db, batch, env).1, g, ack) <==> SomeAcknowledged(c, db, batch, env, g, ack)
  {
    var rs := Flush(c, db, batch, env).1;
    if SomeAnswer(batch, rs, g, ack) {
      var b :| 0 <= b < |rs| && Member(batch, g, rs[b].0) && (rs[b].1 == Acked) == ack;
      assert DecidedAt(rs, rs[b].0, b);
      AcknowledgedExactly(c, db, batch, env, rs[b].0, b);
    }
    if SomeAcknowledged(c, db, batch, env, g, ack) {
      var p: nat :| Member(batch, g, p) && Acknowledged(c, db, batch, env, p) == ack;
      DecidedOnce(c, db, batch, env, p);
      var b: nat :| DecidedAt(rs, p, b);
      AcknowledgedExactly(c, db, batch, env, p, b);
      assert Member(batch, g, rs[b].0);
    }
  }

  /** The flush commits, and nobody in the group loses the lease at the second check only. */
  predicate GroupProceeds(c: Config, db: Db, batch: seq<Intent>, env: Env, g: string) {
    Commits(c, db, batch, env) && g !in DeadGroups(batch, env, |batch|)
  }

  /** The member keeps its lease and its statement succeeds. */
  predicate Succeeds(c: Config, db: Db, batch: seq<Intent>, env: Env, g: string, p: nat) {
    Member(batch, g, p) && !LeaseLost(batch, env, p) && InTurn(c, db, batch, env, p).Done?
  }

  /** The member loses its lease at the first check, or is version-stale when its turn comes. */
  predicate DropsOut(c: Config, db: Db, batch: seq<Intent>, env: Env, g: string, p: nat) {
    Member(batch, g, p) && (LeaseLost(batch, env, p) || InTurn(c, db, batch, env, p).Stale?)
  }

  lemma NoFatalTurn(c: Config, db: Db, batch: seq<Intent>, env: Env, p: nat)
    requires p < |batch| && Commits(c, db, batch, env) && !LeaseLost(batch, env, p) && !InDeadGroup(batch, env, p)
    ensures !InTurn(c, db, batch, env, p).Fatal?
  {
    var kept, dead, a := Positions(batch, env, false, |batch|), DeadGroups(batch, env, |batch|), |Positions(batch, env, false, p)|;
    KeptAt(batch, env, p);
    ProcessOfPrefix(c, db, batch, env, dead, kept, a, a);
    StillGoing(c, db, batch, env, dead, kept, a + 1, |kept|);
    StillGoing(c, db, batch, env, dead, kept, a, |kept|);
  }

  lemma {:induction false} StillGoing(c: Config, db: Db, batch: seq<Intent>, env: Env, dead: set<string>, kept: seq<nat>, m: nat, n: nat)
    requires m <= n <= |kept| && Below(kept, |batch|) && Process(c, db, batch, env, dead, kept, n).Going?
    ensures Process(c, db, batch, env, dead, kept, m).Going?
    decreases n
  {
    if m < n {
      StillGoing(c, db, batch, env, dead, kept, m, n - 1);
    }
  }

  /** A group is committed in part exactly when the flush commits, no member kills the group, some member succeeds, and
      some other one lost its lease at the first check or is stale. */
  lemma CommittedInPartExactly(c: Config, db: Db, batch: seq<Intent>, env: Env, g: string)
    requires g != ""
    ensures CommittedInPart(c, db, batch, env, g) <==>
              && GroupProceeds(c, db, batch, env, g)
              && (exists p: nat :: Succeeds(c, db, batch, env, g, p)) && (exists q: nat :: DropsOut(c, db, batch, env, g, q))
  {
    SomeAnswerExactly(c, db, batch, env, g, true);
    SomeAnswerExactly(c, db, batch, env, g, false);
    if CommittedInPart(c, db, batch, env, g) {
      var p: nat :| Member(batch, g, p) && Acknowledged(c, db, batch, env, p);
      assert Succeeds(c, db, batch, env, g, p);
      var q: nat :| Member(batch, g, q) && !Acknowledged(c, db, batch, env, q);
      if !LeaseLost(batch, env, q) {
        NoFatalTurn(c, db, batch, env, q);
      }
      assert DropsOut(c, db, batch, env, g, q);
    } else if GroupProceeds(c, db, batch, env, g) {
      forall p: nat | Succeeds(c, db, batch, env, g, p) ensures Acknowledged(c, db, batch, env, p) {
      }
      forall q: nat | DropsOut(c, db, batch, env, g, q) ensures !Acknowledged(c, db, batch, env, q) {
      }
    }
  }

  /** A member that keeps its lease at the first check and loses it at the second takes its whole group down. */
  lemma KilledGroupIsRefused(c: Config, db: Db, batch: seq<Intent>, env: Env, p: nat, q: nat)
    requires p < |batch| && KillsGroup(batch, env, p) && Member(batch, batch[p].group, q)
    ensures !Acknowledged(c, db, batch, env, q)
  {
    assert batch[p].group in DeadGroups(batch, env, |batch|);
  }

  /** The flush commits some member of the group. */
  ghost predicate CommitsSome(c: Config, db: Db, batch: seq<Intent>, env: Env, g: string) {
    GroupProceeds(c, db, batch, env, g) && exists p: nat :: Succeeds(c, db, batch, env, g, p)
  }

  /** The flush refuses some member: all of them if it does not commit or the group is killed, else those that drop out. */
  ghost predicate RefusesSome(c: Config, db: Db, batch: seq<Intent>, env: Env, g: string) {
    (exists p: nat :: Member(batch, g, p)) &&
    (!GroupProceeds(c, db, batch, env, g) || exists q: nat :: DropsOut(c, db, batch, env, g, q))
  }

  lemma AnswersExactly(c: Config, db: Db, batch: seq<Intent>, env: Env, g: string)
    requires g != ""
    ensures SomeAnswer(batch, Flush(c, db, batch, env).1, g, true) <==> CommitsSome(c, db, batch, env, g)
    ensures SomeAnswer(batch, Flush(c, db, batch, env).1, g, false) <==> RefusesSome(c, db, batch, env, g)
  {
    SomeAnswerExactly(c, db, batch, env, g, true);
    SomeAnswerExactly(c, db, batch, env, g, false);
    forall p: nat | Member(batch, g, p)
      ensures Acknowledged(c, db, batch, env, p) <==> GroupProceeds(c, db, batch, env, g) && Succeeds(c, db, batch, env, g, p)
      ensures !Acknowledged(c, db, batch, env, p) <==>
                !GroupProceeds(c, db, batch, env, g) || DropsOut(c, db, batch, env, g, p)
    {
      if GroupProceeds(c, db, batch, env, g) && !LeaseLost(batch, env, p) {
        NoFatalTurn(c, db, batch, env, p);
      }
    }
  }

  /** Each batch decides on its own: a group whose members fall into two batches is committed in part exactly when one of
      the flushes commits and has a member that succeeds, and one of them does not commit or has a member that drops out. */
  lemma OverTwoBatches(c: Config, db: Db, b1: seq<Intent>, e1: Env, b2: seq<Intent>, e2: Env, g: string)
    requires g != ""
    ensures var db', r1 := Flush(c, db, b1, e1).0, Flush(c, db, b1, e1).1;
            var r2 := Flush(c, db', b2, e2).1;
            (SomeAnswer(b1, r1, g, true) || SomeAnswer(b2, r2, g, true)) && (SomeAnswer(b1, r1, g, false) || SomeAnswer(b2, r2, g, false))
            <==> (CommitsSome(c, db, b1, e1, g) || CommitsSome(c, db', b2, e2, g)) &&
                 (RefusesSome(c, db, b1, e1, g) || RefusesSome(c, db', b2, e2, g))
  {
    AnswersExactly(c, db, b1, e1, g);
    AnswersExactly(c, Flush(c, db, b1, e1).0, b2, e2, g);
  }

  const PAIR := [Intent(Insert, ("t", "x"), "", 0, "task", "a", "g", true), Intent(Insert, ("t", "y"), "", 0, "task", "b", "g", true)]
  const FIRST_LOST := Env(true, p => p == 1, p => true, true, p => false, false, true)

  lemma PairPositions()
    ensures Positions(PAIR, FIRST_LOST, true, 2) == [0] && Positions(PAIR, FIRST_LOST, false, 2) == [1]
    ensures DeadGroups(PAIR, FIRST_LOST, 2) == {}
  {
    assert LeaseLost(PAIR, FIRST_LOST, 0) && !LeaseLost(PAIR, FIRST_LOST, 1);
    assert Positions(PAIR, FIRST_LOST, true, 1) == [0];
    assert Positions(PAIR, FIRST_LOST, false, 1) == [];
  }

  /** A group whose first member has lost its lease is committed without it. */
  lemma GroupsAreNotAtomic(c: Config, db: Db)
    ensures Flush(c, db, PAIR, FIRST_LOST).1 == [(0, StaleLease), (1, Acked)]
  {
    PairPositions();
    assert Process(c, db, PAIR, FIRST_LOST, {}, [1], 0) == Going(db, []);
    assert Exec(c, db, PAIR[1], false).Done?;
    assert Process(c, db, PAIR, FIRST_LOST, {}, [1], 1).results == [(1, Acked)];
  }

  const ALL_WELL := Env(false, p => true, p => true, true, p => false, false, true)
  const ROLLED_BACK := Env(false, p => true, p => true, true, p => false, false, false)

  lemma OneMember(c: Config, db: Db, i: Intent, env: Env)
    requires env in {ALL_WELL, ROLLED_BACK} && i in PAIR
    ensures Flush(c, db, [i], env).1 == [(0, if env.commitOk then Acked else Failed(CommitFailed))]
  {
    assert Positions([i], env, false, 0) == [] && Positions([i], env, true, 0) == [];
    assert Positions([i], env, false, 1) == [0] && Positions([i], env, true, 1) == [];
    assert DeadGroups([i], env, 1) == {};
    assert Process(c, db, [i], env, {}, [0], 0) == Going(db, []);
    assert Exec(c, db, i, false).Done?;
    assert Process(c, db, [i], env, {}, [0], 1).results == [(0, Acked)];
  }

  /** One flush commits its half of the group, the next one is rolled back with the other half. */
  lemma HalvesPartWays(c: Config, db: Db)
    ensures var db' := Flush(c, db, [PAIR[0]], ALL_WELL).0;
            Flush(c, db, [PAIR[0]], ALL_WELL).1 == [(0, Acked)] && Flush(c, db', [PAIR[1]], ROLLED_BACK).1 == [(0, Failed(CommitFailed))]
  {
    OneMember(c, db, PAIR[0], ALL_WELL);
    OneMember(c, Flush(c, db, [PAIR[0]], ALL_WELL).0, PAIR[1], ROLLED_BACK);
  }

  // --- writes that no log table takes -------------------------------------------------------

  /** An insert or upsert that names a log table breaks its whole batch, as long as it gets as far as the transaction. */
  lemma LogWriteBreaksTheBatch(c: Config, db: Db, batch: seq<Intent>, env: Env, p: nat)
    requires p < |batch| && (batch[p].op == Insert || batch[p].op == Upsert) && IsLog(batch[p].key)
    requires !LeaseLost(batch, env, p) && !InDeadGroup(batch, env, p)
    ensures Flush(c, db, batch, env).0 == db
    ensures forall b :: 0 <= b < |Flush(c, db, batch, env).1| ==> Flush(c, db, batch, env).1[b].1 != Acked
  {
    assert InTurn(c, db, batch, env, p).Fatal?;
    if Commits(c, db, batch, env) {
      NoFatalTurn(c, db, batch, env, p);
    }
    var rs := Flush(c, db, batch, env).1;
    FlushRefines(c, db, batch, env);
    forall b | 0 <= b < |rs| ensures rs[b].1 != Acked {
      AcknowledgedExactly(c, db, batch, env, rs[b].0, b);
    }
  }

  // --- runs ---------------------------------------------------------------------------------

  /** The database has one connection: flushes and the inserts of other writers come one after the other. */
  datatype Step = FlushOf(batch: seq<Intent>, env: Env) | ForeignInsert(body: EventBody)

  function StepDb(c: Config, db: Db, s: Step): Db {
    match s
    case FlushOf(batch, env) => Flush(c, db, batch, env).0
    case ForeignInsert(body) => if TakenId(db.events, body) then db else WithForeign(db, body)
  }

  function RunDb(c: Config, db: Db, ss: seq<Step>): Db {
    if ss == [] then db else StepDb(c, RunDb(c, db, ss[..|ss| - 1]), ss[|ss| - 1])
  }

  /** What one step does to the tables: the intents it acknowledges, or the foreign row. */
  ghost function StepChanges(c: Config, db: Db, s: Step): seq<Change> {
    match s
    case FlushOf(batch, env) =>
      FlushRefines(c, db, batch, env);
      AckedOf(batch, Flush(c, db, batch, env).1)
    case ForeignInsert(body) => if TakenId(db.events, body) then [] else [ByOthers(body)]
  }

  ghost function RunChanges(c: Config, db: Db, ss: seq<Step>): seq<Change> {
    if ss == [] then []
    else RunChanges(c, db, ss[..|ss| - 1]) + StepChanges(c, RunDb(c, db, ss[..|ss| - 1]), ss[|ss| - 1])
  }

  lemma {:induction false} StepRefines(c: Config, db: Db, s: Step)
    ensures Accepted(c, db, StepChanges(c, db, s)) && StepDb(c, db, s) == PlainAll(c, db, StepChanges(c, db, s))
  {
    match s
    case FlushOf(batch, env) => FlushRefines(c, db, batch, env);
    case ForeignInsert(body) =>
      AcceptedSnoc(c, db, [], ByOthers(body));
      assert [] + [ByOthers(body)] == [ByOthers(body)];
  }

  /** Over any run, with any failures: the tables are the fold of exactly the acknowledged intents and the foreign rows. */
  lemma {:induction false} RunRefines(c: Config, db: Db, ss: seq<Step>)
    ensures Accepted(c, db, RunChanges(c, db, ss)) && RunDb(c, db, ss) == PlainAll(c, db, RunChanges(c, db, ss))
    decreases |ss|
  {
    if ss != [] {
      var rest, s := ss[..|ss| - 1], ss[|ss| - 1];
      RunRefines(c, db, rest);
      StepRefines(c, RunDb(c, db, rest), s);
      AcceptedConcat(c, db, RunChanges(c, db, rest), StepChanges(c, RunDb(c, db, rest), s));
    }
  }

  /** So over any run the acknowledged versioned writes to a key that is only written with versions lose no update. */
  lemma {:induction false} RunLosesNoUpdate(c: Config, db: Db, ss: seq<Step>, k: Key)
    ensures var xs := RunChanges(c, db, ss);
            OnlyVersioned(xs, k) ==> NoLostUpdate(db, RunDb(c, db, ss), WritesTo(xs, k), k)
  {
    RunRefines(c, db, ss);
    if OnlyVersioned(RunChanges(c, db, ss), k) {
      VersionsConsecutive(c, db, RunChanges(c, db, ss), k);
    }
  }

  /** In every run, with any failures and versioned or not: a row is what the last acknowledged insert or upsert of it says,
      gone if an acknowledged delete came last, and as at the start if nothing acknowledged names it. */
  lemma {:induction false} RunKeepsLastWrite(c: Config, db: Db, ss: seq<Step>, k: Key)
    requires !IsLog(k)
    ensures LastWriteStands(c, db, RunDb(c, db, ss), RunChanges(c, db, ss), k)
  {
    RunRefines(c, db, ss);
    LastTouchDecides(c, db, RunChanges(c, db, ss), k);
  }

  /** In every run: the decision log holds exactly the acknowledged decisions, numbered in order, except the deleted ones. */
  lemma {:induction false} RunKeepsDecisions(c: Config, db: Db, ss: seq<Step>)
    requires Numbered(db)
    ensures var db', xs := RunDb(c, db, ss), RunChanges(c, db, ss);
            && db'.lastDecision == db.lastDecision + |Entries(xs)|
            && forall n, v :: HasDecision(c, db, xs, n, v) <==> n in db'.decisions && db'.decisions[n] == v
  {
    RunRefines(c, db, ss);
    DecisionsExactly(c, db, RunChanges(c, db, ss));
  }

  /** In every run without acknowledged deletes of events: the table holds every acknowledged event as it was sent, and the
      foreign rows, in order. */
  lemma {:induction false} RunKeepsEvents(c: Config, db: Db, ss: seq<Step>)
    ensures var xs := RunChanges(c, db, ss);
            OnlyAppends(xs) ==> Origins(RunDb(c, db, ss).events) == Origins(db.events) + Appended(xs)
  {
    RunRefines(c, db, ss);
    if OnlyAppends(RunChanges(c, db, ss)) {
      EventsInOrder(c, db, RunChanges(c, db, ss));
    }
  }

  /** In every run, with any deletes: ids stay unique in the events table, and so do idempotency keys that are not empty. */
  lemma {:induction false} RunKeepsEventsUnique(c: Config, db: Db, ss: seq<Step>)
    requires UniqueEvents(db.events) && UniqueKeys(db.events)
    ensures UniqueEvents(RunDb(c, db, ss).events) && UniqueKeys(RunDb(c, db, ss).events)
  {
    RunRefines(c, db, ss);
    IdsStayUnique(c, db, RunChanges(c, db, ss));
    KeysStayUnique(c, db, RunChanges(c, db, ss));
  }

  /** In every run: as long as no delete of an event is acknowledged, the events table only grows, and the bus has written
      one chain exactly when no other writer put a row between two of its own. */
  lemma {:induction false} RunKeepsOneChainExactly(c: Config, db: Db, ss: seq<Step>)
    requires Written(c, db.events)
    ensures var events := RunDb(c, db, ss).events;
            OnlyAppends(RunChanges(c, db, ss)) ==>
              db.events <= events && Written(c, events) && (OneChain(events) <==> !Interrupted(events))
  {
    RunRefines(c, db, ss);
    if OnlyAppends(RunChanges(c, db, ss)) {
      EventsStayWritten(c, db, RunChanges(c, db, ss));
      OneChainExactly(c, RunDb(c, db, ss).events);
    }
  }

  /** In every run, with any deletes: the bus has one chain after every acknowledged change exactly if no acknowledged
      change inserts an event behind a foreign row or deletes one from within the chain. */
  lemma {:induction false} RunAlwaysOneChainExactly(c: Config, db: Db, ss: seq<Step>)
    requires UniqueEvents(db.events)
    ensures var xs := RunChanges(c, db, ss);
            && RunDb(c, db, ss) == PlainAll(c, db, xs)
            && ((forall n :: 0 <= n <= |xs| ==> ChainAt(c, db, xs, n)) <==>
                  OneChain(db.events) && forall n :: 0 <= n < |xs| ==> KeepsAt(c, db, xs, n))
  {
    RunRefines(c, db, ss);
    AlwaysOneChainExactly(c, db, RunChanges(c, db, ss));
  }

  function EventOf(id: string): Intent {
    Intent(InsertEvent(Some(EventBody(id, "", ""))), (EVENTS, id), "", 0, "", "", "", true)
  }

  function DeleteOf(id: string): Intent {
    Intent(Delete, (EVENTS, id), "", 0, "", "", "", true)
  }

  lemma OneFlushed(c: Config, db: Db, i: Intent)
    requires i.taskId == "" && i.group == "" && Exec(c, db, i, false).Done?
    ensures Flush(c, db, [i], ALL_WELL).0 == Plain(c, db, i)
  {
    var batch := [i];
    assert Positions(batch, ALL_WELL, false, 0) == [] && Positions(batch, ALL_WELL, false, 1) == [0];
    assert DeadGroups(batch, ALL_WELL, 1) == {};
    assert Process(c, db, batch, ALL_WELL, {}, [0], 0) == Going(db, []);
    ExecIsPlain(c, db, i, false);
  }

  const EMPTY := Db(map[], [], map[], 0)

  function RowOf(c: Config, id: string, prev: Option<Hash>): EventRow {
    EventRow(EventBody(id, "", ""), prev, Some(c.sha(EventBody(id, "", ""), prev)))
  }

  /** A flush of a single intent, with database and leases well: which intents are acknowledged, by what the tables hold. */
  lemma OneIntentExactly(c: Config, db: Db, i: Intent)
    requires i.taskId == "" && i.group == ""
    ensures var rs := Flush(c, db, [i], ALL_WELL).1;
            var log := i.key.0 == "events" || i.key.0 == "decision_log";
            var next := i.key in db.rows && db.rows[i.key].version == Some(i.claimedVersion - 1);
            && |rs| == 1 && rs[0].0 == 0
            && (rs[0].1 == Acked <==>
                  match i.op
                  case Insert => !log && (i.claimedVersion <= 0 || next)
                  case Upsert => !log && (i.claimedVersion <= 0 || next || i.key !in db.rows)
                  case Delete => true
                  case InsertEvent(b) => b.Some? && forall n :: 0 <= n < |db.events| ==>
                      db.events[n].body.id != b.value.id &&
                      (b.value.idempotencyKey != "" ==> db.events[n].body.idempotencyKey != b.value.idempotencyKey)
                  case InsertDecision(e) => e.Some?
                  case Unknown => false)
  {
    var batch := [i];
    assert Positions(batch, ALL_WELL, true, 0) == [] && Positions(batch, ALL_WELL, true, 1) == [];
    assert Positions(batch, ALL_WELL, false, 0) == [] && Positions(batch, ALL_WELL, false, 1) == [0];
    assert DeadGroups(batch, ALL_WELL, 1) == {};
    assert Process(c, db, batch, ALL_WELL, {}, [0], 0) == Going(db, []);
    if i.op.InsertEvent? && i.op.body.Some? {
      FreshExactly(db.events, i.op.body.value);
    }
  }

  lemma FreshExactly(events: seq<EventRow>, b: EventBody)
    ensures !TakenId(events, b) <==> forall n :: 0 <= n < |events| ==>
              events[n].body.id != b.id && (b.idempotencyKey != "" ==> events[n].body.idempotencyKey != b.idempotencyKey)
  {
  }

  /** A run of one step more. */
  lemma NextEvents(c: Config, ss: seq<Step>, i: Intent)
    requires i.taskId == "" && i.group == "" && Exec(c, RunDb(c, EMPTY, ss), i, false).Done?
    ensures RunDb(c, EMPTY, ss + [FlushOf([i], ALL_WELL)]) == Plain(c, RunDb(c, EMPTY, ss), i)
  {
    RunSnoc(c, EMPTY, ss, FlushOf([i], ALL_WELL));
    OneFlushed(c, RunDb(c, EMPTY, ss), i);
  }

  lemma FirstEvent(c: Config) returns (ss: seq<Step>)
    ensures ss == [FlushOf([EventOf("a")], ALL_WELL)]
    ensures RunDb(c, EMPTY, ss).events == [RowOf(c, "a", None)]
  {
    NextEvents(c, [], EventOf("a"));
    ss := [] + [FlushOf([EventOf("a")], ALL_WELL)];
  }

  /** One audit record between two events of the bus is enough: the second event starts a new chain. */
  lemma ForeignRowBreaksTheChain(c: Config) returns (ss: seq<Step>)
    ensures ss == [FlushOf([EventOf("a")], ALL_WELL), ForeignInsert(EventBody("audit", "", "")), FlushOf([EventOf("b")], ALL_WELL)]
    ensures var events := RunDb(c, EMPTY, ss).events;
            |events| == 3 && events[0].hash.Some? && events[2].hash.Some? && events[2].prevHash == None && !OneChain(events)
  {
    ss := FirstEvent(c);
    var audit := EventBody("audit", "", "");
    RunSnoc(c, EMPTY, ss, ForeignInsert(audit));
    ss := ss + [ForeignInsert(audit)];
    var r0, r1, r2 := RowOf(c, "a", None), EventRow(audit, None, None), RowOf(c, "b", None);
    assert RunDb(c, EMPTY, ss).events == [r0] + [r1];
    NextEvents(c, ss, EventOf("b"));
    ss := ss + [FlushOf([EventOf("b")], ALL_WELL)];
    assert RunDb(c, EMPTY, ss).events == [r0] + [r1] + [r2];
    BusRowsSnoc([], r0);
    BusRowsSnoc([r0], r1);
    BusRowsSnoc([r0] + [r1], r2);
    assert [] + [r0] == [r0] && BusRows([r0] + [r1] + [r2]) == [r0, r2];
    assert !Linked([r0, r2], 1);
  }

  lemma AfterDelete(c: Config, ss: seq<Step>)
    ensures RunDb(c, EMPTY, ss + [FlushOf([DeleteOf("a")], ALL_WELL)]).events == WithoutId(RunDb(c, EMPTY, ss).events, "a")
  {
    NextEvents(c, ss, DeleteOf("a"));
  }

  lemma SecondEvent(c: Config) returns (ss: seq<Step>)
    ensures ss == [FlushOf([EventOf("a")], ALL_WELL), FlushOf([EventOf("b")], ALL_WELL)]
    ensures RunDb(c, EMPTY, ss).events == [RowOf(c, "a", None)] + [RowOf(c, "b", RowOf(c, "a", None).hash)]
  {
    ss := FirstEvent(c);
    NextEvents(c, ss, EventOf("b"));
    ss := ss + [FlushOf([EventOf("b")], ALL_WELL)];
  }

  /** Deleting the first of two events is enough, too: nothing interrupts, but the second one points at a row that is not
      there. */
  lemma DeletedEventBreaksTheChain(c: Config) returns (ss: seq<Step>)
    ensures ss == [FlushOf([EventOf("a")], ALL_WELL), FlushOf([EventOf("b")], ALL_WELL), FlushOf([DeleteOf("a")], ALL_WELL)]
    ensures var events := RunDb(c, EMPTY, ss).events;
            |events| == 1 && events[0].body.id == "b" && !Interrupted(events) && !OneChain(events)
  {
    ss := SecondEvent(c);
    var r0 := RowOf(c, "a", None);
    var r1 := RowOf(c, "b", r0.hash);
    AfterDelete(c, ss);
    ss := ss + [FlushOf([DeleteOf("a")], ALL_WELL)];
    FirstDeleted(r0, r1);
  }

  lemma FirstDeleted(r0: EventRow, r1: EventRow)
    requires r0.body.id == "a" && r1.body.id == "b" && IsBus(r1) && r1.prevHash.Some?
    ensures WithoutId([r0] + [r1], "a") == [r1] && !Interrupted([r1]) && !OneChain([r1])
  {
    assert ([r0] + [r1])[..1] == [r0] && [r0][..0] == [];
    assert WithoutId([r0], "a") == [];
    BusRowsSnoc([], r1);
    assert [] + [r1] == [r1] && !Linked([r1], 0);
  }

  lemma RunSnoc(c: Config, db: Db, ss: seq<Step>, s: Step)
    ensures RunDb(c, db, ss + [s]) == StepDb(c, RunDb(c, db, ss), s)
  {
    assert (ss + [s])[..|ss|] == ss;
  }

  // --- the answers that are sent ---------------------------------------------------------------

  /** The answers that go out: an intent without a result channel gets none. */
  function SentOf(batch: seq<Intent>, rs: Results): Results
    requires InBatch(batch, rs)
  {
    if rs == [] then []
    else SentOf(batch, rs[..|rs| - 1]) + if batch[rs[|rs| - 1].0].hasResultCh then [rs[|rs| - 1]] else []
  }

  lemma {:induction false} SentConcat(batch: seq<Intent>, rs: Results, ss: Results)
    requires InBatch(batch, rs)
    requires InBatch(batch, ss)
    ensures SentOf(batch, rs + ss) == SentOf(batch, rs) + SentOf(batch, ss)
    decreases |ss|
  {
    if ss == [] {
      assert rs + ss == rs;
    } else {
      assert (rs + ss)[..|rs + ss| - 1] == rs + ss[..|ss| - 1];
      SentConcat(batch, rs, ss[..|ss| - 1]);
    }
  }

  /** How many of the results are for intent `p`. */
  function Tally(rs: Results, p: nat): nat {
    if rs == [] then 0 else Tally(rs[..|rs| - 1], p) + if rs[|rs| - 1].0 == p then 1 else 0
  }

  lemma {:induction false} OnceIsOne(rs: Results, p: nat)
    ensures (forall a: nat :: !DecidedAt(rs, p, a)) ==> Tally(rs, p) == 0
    ensures DecidedExactlyOnce(rs, p) ==> Tally(rs, p) == 1
    decreases |rs|
  {
    if rs != [] {
      var rest, n := rs[..|rs| - 1], |rs| - 1;
      OnceIsOne(rest, p);
      forall a: nat ensures DecidedAt(rest, p, a) <==> DecidedAt(rs, p, a) && a != n {
      }
      assert DecidedAt(rs, p, n) <==> rs[n].0 == p;
    }
  }

  lemma {:induction false} SentTally(batch: seq<Intent>, rs: Results, p: nat)
    requires InBatch(batch, rs) && p < |batch|
    ensures Tally(SentOf(batch, rs), p) == if batch[p].hasResultCh then Tally(rs, p) else 0
    decreases |rs|
  {
    if rs != [] {
      var rest, r := rs[..|rs| - 1], rs[|rs| - 1];
      SentTally(batch, rest, p);
      var sent := SentOf(batch, rest);
      if batch[r.0].hasResultCh {
        assert (sent + [r])[..|sent|] == sent;
      } else {
        assert SentOf(batch, rs) == sent;
      }
    }
  }

  /** Every intent with a result channel is answered exactly once, whatever fails. */
  lemma AnsweredOnce(c: Config, db: Db, batch: seq<Intent>, env: Env, p: nat)
    requires p < |batch|
    ensures InBatch(batch, Flush(c, db, batch, env).1)
    ensures Tally(SentOf(batch, Flush(c, db, batch, env).1), p) == if batch[p].hasResultCh then 1 else 0
  {
    FlushRefines(c, db, batch, env);
    DecidedOnce(c, db, batch, env, p);
    OnceIsOne(Flush(c, db, batch, env).1, p);
    SentTally(batch, Flush(c, db, batch, env).1, p);
  }
}
