/** pkg/substrate/mutation_bus_execute.go: the methods of DatabaseWriter. */
module DatabaseWriters {
  import opened Options
  import opened SqlStore
  import opened MutationBus

  /** executeInsert on the transaction's state. */
  method ExecuteInsert(c: Config, tx: Db, i: Intent, fault: bool) returns (o: Outcome)
    requires i.op == Insert
    ensures o == Exec(c, tx, i, fault)
  {
    if fault || IsLog(i.key) { return Fatal; }
    if i.claimedVersion > 0 {
      var count := if HasVersion(tx, i.key, i.claimedVersion - 1) then 1 else 0;
      if count == 0 { return Stale; }
    }
    return Done(tx.(rows := tx.rows[i.key := VersionedRow(i.payload, Some(i.claimedVersion))]));
  }

  /** The UPDATE of executeUpsert: the new state and the number of rows it changed. */
  method UpdateVersion(tx: Db, i: Intent) returns (tx': Db, rows: nat)
    ensures rows == if HasVersion(tx, i.key, i.claimedVersion - 1) then 1 else 0
    ensures tx' == if rows == 1 then tx.(rows := tx.rows[i.key := VersionedRow(i.payload, Some(i.claimedVersion))]) else tx
  {
    if HasVersion(tx, i.key, i.claimedVersion - 1) {
      return tx.(rows := tx.rows[i.key := VersionedRow(i.payload, Some(i.claimedVersion))]), 1;
    }
    return tx, 0;
  }

  /** executeUpsert: UPDATE, then INSERT, then on a taken key UPDATE once more. */
  method ExecuteUpsert(c: Config, tx: Db, i: Intent, fault: bool) returns (o: Outcome)
    requires i.op == Upsert
    ensures o == Exec(c, tx, i, fault)
  {
    if fault || IsLog(i.key) { return Fatal; }
    if i.claimedVersion > 0 {
      var tx', rows := UpdateVersion(tx, i);
      if rows == 0 {
        var unique := i.key !in tx'.rows;
        if !unique {
          tx', rows := UpdateVersion(tx', i);
          if rows == 0 { return Stale; }
          return Done(tx');
        }
        tx' := tx'.(rows := tx'.rows[i.key := VersionedRow(i.payload, Some(i.claimedVersion))]);
      }
      return Done(tx');
    }
    return Done(tx.(rows := tx.rows[i.key := VersionedRow(i.payload, c.defaultVersion)]));
  }

  method ExecuteInsertEvent(c: Config, tx: Db, i: Intent, fault: bool) returns (o: Outcome)
    requires i.op.InsertEvent?
    ensures o == Exec(c, tx, i, fault)
  {
    if i.op.body.None? { return Fatal; }
    var body := i.op.body.value;
    var prevHash := LastHash(tx.events);
    var currentHash := c.sha(body, prevHash);
    if fault || TakenId(tx.events, body) { return Fatal; }
    return Done(tx.(events := tx.events + [EventRow(body, prevHash, Some(currentHash))]));
  }

  /** executeDelete checks no version, and takes the table as the intent names it. */
  method ExecuteDelete(c: Config, tx: Db, i: Intent, fault: bool) returns (o: Outcome)
    requires i.op == Delete
    ensures o == Exec(c, tx, i, fault)
  {
    if fault { return Fatal; }
    if i.key.0 == EVENTS {
      var kept: seq<EventRow> := [];
      assert tx.events[..0] == [];
      for n := 0 to |tx.events|
        invariant kept == WithoutId(tx.events[..n], i.key.1)
      {
        assert tx.events[..n + 1][..n] == tx.events[..n];
        if tx.events[n].body.id != i.key.1 { kept := kept + [tx.events[n]]; }
      }
      assert tx.events[..|tx.events|] == tx.events;
      return Done(tx.(events := kept));
    }
    if i.key.0 == DECISIONS {
      var n := c.decisionId(i.key.1);
      return Done(if n.None? then tx else tx.(decisions := tx.decisions - {n.value}));
    }
    return Done(tx.(rows := tx.rows - {i.key}));
  }

  method Execute(c: Config, tx: Db, i: Intent, fault: bool) returns (o: Outcome)
    ensures o == Exec(c, tx, i, fault)
  {
    match i.op {
      case Insert => o := ExecuteInsert(c, tx, i, fault);
      case Upsert => o := ExecuteUpsert(c, tx, i, fault);
      case Delete => o := ExecuteDelete(c, tx, i, fault);
      case InsertEvent(_) => o := ExecuteInsertEvent(c, tx, i, fault);
      case InsertDecision(e) =>
        o := if fault || e.None? then Fatal
             else Done(tx.(decisions := tx.decisions[tx.lastDecision + 1 := e.value], lastDecision := tx.lastDecision + 1));
      case Unknown => o := Fatal;
    }
  }

  class DatabaseWriter {
    const c: Config
    var db: Db
    var batch: seq<Intent>

    constructor (c: Config, db: Db)
      ensures this.c == c && this.db == db && batch == []
    {
      this.c, this.db, batch := c, db, [];
    }

    /** What AuditTrail and the import do on the same connection, past the bus. */
    method InsertForeign(body: EventBody) returns (ok: bool)
      modifies this`db
      ensures ok == !TakenId(old(db).events, body) && db == StepDb(c, old(db), ForeignInsert(body))
    {
      ok := !TakenId(db.events, body);
      if ok { db := db.(events := db.events + [EventRow(body, None, None)]); }
    }

    method Enqueue(i: Intent)
      modifies this`batch
      ensures batch == old(batch) + [i]
    {
      batch := batch + [i];
    }

    /** `sent` are the answers that leave, in order; `decided` also shows those that have no channel to go to. */
    method FlushBatch(env: Env) returns (sent: Results, ghost decided: Results)
      modifies this
      ensures batch == [] && (db, decided) == Flush(c, old(db), old(batch), env)
      ensures InBatch(old(batch), decided) && sent == SentOf(old(batch), decided)
    {
      var taken := batch;
      batch := [];
      ghost var lost := Each(Positions(taken, env, true, |taken|), StaleLease);
      var kept, dead;
      sent, kept, dead := CheckLeases(taken, env);
      decided := lost;
      if |kept| == 0 { return; }
      var answers := Commit(taken, env, dead, kept);
      decided := lost + answers;
      SentConcat(taken, lost, answers);
      var out := Notify(taken, answers);
      sent := sent + out;
    }

    /** Steps 2 to 5: the transaction, and what everyone in it is told. */
    method Commit(taken: seq<Intent>, env: Env, dead: set<string>, kept: seq<nat>) returns (answers: Results)
      requires Below(kept, |taken|) && kept != []
      modifies this`db
      ensures InBatch(taken, answers)
      ensures (db, answers) == Transact(c, old(db), taken, env, dead, kept)
    {
      if !env.beginOk { return Each(kept, Failed(BeginFailed)); }
      var pr := RunStatements(taken, env, dead, kept);
      if pr.Broken? { return Each(kept, Failed(StatementFailed)); }
      if env.cancelled { return Each(kept, Failed(Cancelled)); }
      if !env.commitOk { return Each(kept, Failed(CommitFailed)); }
      ProcessAnswers(c, db, taken, env, dead, kept, |kept|);
      db := pr.tx;
      return pr.results;
    }

    /** Steps 0 and 1: the answers to intents whose lease is gone, the others, and the groups that go down. */
    method CheckLeases(taken: seq<Intent>, env: Env) returns (sent: Results, kept: seq<nat>, dead: set<string>)
      ensures kept == Positions(taken, env, false, |taken|) && dead == DeadGroups(taken, env, |taken|)
      ensures sent == SentOf(taken, Each(Positions(taken, env, true, |taken|), StaleLease))
    {
      sent, kept, dead := [], [], {};
      assert Each(Positions(taken, env, true, 0), StaleLease) == [];
      for p := 0 to |taken|
        invariant kept == Positions(taken, env, false, p) && dead == DeadGroups(taken, env, p)
        invariant sent == SentOf(taken, Each(Positions(taken, env, true, p), StaleLease))
      {
        DeadGroupsStep(taken, env, p);
        SentLostStep(taken, env, p);
        var lost, kills := CheckLease(taken, env, p);
        if lost {
          if taken[p].hasResultCh { sent := sent + [(p, StaleLease)]; }
        } else {
          kept := kept + [p];
          if kills { dead := dead + {taken[p].group}; }
        }
      }
    }

    /** Both lease checks of one intent; the second one is made for members of a group only. */
    method CheckLease(taken: seq<Intent>, env: Env, p: nat) returns (lost: bool, kills: bool)
      requires p < |taken|
      ensures lost == LeaseLost(taken, env, p) && kills == KillsGroup(taken, env, p)
    {
      var i := taken[p];
      if i.taskId != "" && i.agentId != "" {
        if env.hasChecker && !env.first(p) { return true, false; }
      }
      if i.group != "" && i.taskId != "" {
        if env.hasChecker && !env.second(p) { return false, true; }
      }
      return false, false;
    }

    method RunStatements(taken: seq<Intent>, env: Env, dead: set<string>, kept: seq<nat>) returns (pr: Progress)
      requires Below(kept, |taken|)
      ensures pr == Process(c, db, taken, env, dead, kept, |kept|)
    {
      var tx, results: Results := db, [];
      for n := 0 to |kept|
        invariant Process(c, db, taken, env, dead, kept, n) == Going(tx, results)
      {
        var p := kept[n];
        if taken[p].group != "" && taken[p].group in dead {
          results := results + [(p, StaleLease)];
          continue;
        }
        var o := Execute(c, tx, taken[p], env.fault(p));
        if o.Fatal? {
          BrokenStays(c, db, taken, env, dead, kept, n + 1, |kept|);
          return Broken;
        }
        if o.Stale? {
          results := results + [(p, StaleLease)];
        } else {
          tx := o.db;
          results := results + [(p, Acked)];
        }
      }
      return Going(tx, results);
    }

    /** The closing loop, and failAll when the results say so. */
    method Notify(taken: seq<Intent>, answers: Results) returns (sent: Results)
      requires InBatch(taken, answers)
      ensures sent == SentOf(taken, answers)
    {
      sent := [];
      for a := 0 to |answers|
        invariant sent == SentOf(taken, answers[..a])
      {
        assert answers[..a + 1][..a] == answers[..a];
        if taken[answers[a].0].hasResultCh { sent := sent + [answers[a]]; }
      }
      assert answers[..|answers|] == answers;
    }
  }

  lemma DeadGroupsStep(batch: seq<Intent>, env: Env, p: nat)
    requires p < |batch|
    ensures DeadGroups(batch, env, p + 1) == DeadGroups(batch, env, p) + if KillsGroup(batch, env, p) then {batch[p].group} else {}
  {
  }

  lemma SentLostStep(batch: seq<Intent>, env: Env, p: nat)
    requires p < |batch|
    ensures SentOf(batch, Each(Positions(batch, env, true, p + 1), StaleLease)) ==
            SentOf(batch, Each(Positions(batch, env, true, p), StaleLease)) +
            if LeaseLost(batch, env, p) && batch[p].hasResultCh then [(p, StaleLease)] else []
  {
    var before, after := Positions(batch, env, true, p), Positions(batch, env, true, p + 1);
    if LeaseLost(batch, env, p) {
      assert Each(after, StaleLease)[..|before|] == Each(before, StaleLease);
    } else {
      assert after == before;
    }
  }

  lemma {:induction false} BrokenStays(c: Config, db: Db, batch: seq<Intent>, env: Env, dead: set<string>, kept: seq<nat>, m: nat, n: nat)
    requires m <= n <= |kept| && Below(kept, |batch|)
    requires Process(c, db, batch, env, dead, kept, m).Broken?
    ensures Process(c, db, batch, env, dead, kept, n).Broken?
    decreases n
  {
    if m < n {
      BrokenStays(c, db, batch, env, dead, kept, m, n - 1);
    }
  }
}
