/** pkg/substrate/outbox_worker.go: the worker itself. Its ghost trace shows that whatever the handlers, the clock and the
    status writes do, the database goes through the states of a run of the transition system, so that stopping the worker
    anywhere leaves a state of such a run. */
module OutboxWorkers {
  import opened Options
  import opened OutboxRuns
  import opened Sequences

  /** What the surroundings decide during one tick, by row: failing statements, replay mode, which engines have a handler,
      and which handlers fail. */
  datatype Surroundings = Surroundings(mainFails: bool, suppFails: bool, replaying: nat -> bool, registered: nat -> bool,
                                       handlerFails: nat -> bool, markFails: nat -> bool, saveFails: bool)

  /** The event is what the surroundings make of it. */
  ghost predicate DecidedBy(env: Surroundings, s: State, e: Event) {
    match e
    case Fetch(_, _, _, answered) => !env.mainFails && answered == !env.suppFails
    case Handle(_, called, ok) =>
      HasWork(s.phase) && var rec := Head(s.phase);
      && called == (!env.replaying(rec.id) && rec.crashCount < POISON && env.registered(rec.id))
      && ok == !(called && env.handlerFails(rec.id))
    case Mark(_, written) => HasWork(s.phase) && written == !env.markFails(Head(s.phase).id)
    case Save(written) => written == !env.saveFails
    case EndBatch => true
    case _ => false
  }

  ghost predicate DecidedFrom(maxRetries: nat, env: Surroundings, trace: seq<Event>, from: nat) {
    forall n :: from <= n < |trace| ==> DecidedAt(maxRetries, env, trace, n)
  }

  ghost predicate DecidedAt(maxRetries: nat, env: Surroundings, trace: seq<Event>, n: nat)
    requires n < |trace|
  {
    DecidedBy(env, Run(maxRetries, trace[..n]), trace[n])
  }

  lemma DecidedSnoc(maxRetries: nat, env: Surroundings, trace: seq<Event>, e: Event, from: nat)
    requires DecidedFrom(maxRetries, env, trace, from) && DecidedBy(env, Run(maxRetries, trace), e)
    ensures DecidedFrom(maxRetries, env, trace + [e], from)
  {
    var more := trace + [e];
    assert more[..|trace|] == trace;
    forall n | from <= n < |more| ensures DecidedAt(maxRetries, env, more, n) {
      if n < |trace| {
        assert DecidedAt(maxRetries, env, trace, n) && more[..n] == trace[..n];
      }
    }
  }

  lemma DecidedOn(maxRetries: nat, env: Surroundings, before: seq<Event>, trace: seq<Event>, from: nat)
    requires before <= trace && from <= |before|
    requires DecidedFrom(maxRetries, env, before, from) && DecidedFrom(maxRetries, env, trace, |before|)
    ensures DecidedFrom(maxRetries, env, trace, from)
  {
    forall n | from <= n < |trace| ensures DecidedAt(maxRetries, env, trace, n) {
      if n < |before| {
        assert DecidedAt(maxRetries, env, before, n) && trace[..n] == before[..n];
      }
    }
  }

  /** How many batches have been fetched. */
  function Fetches(trace: seq<Event>): nat {
    if trace == [] then 0 else Fetches(trace[..|trace| - 1]) + if trace[|trace| - 1].Fetch? then 1 else 0
  }

  /** How many of the ticks have a working main query. */
  function Working(envs: seq<Surroundings>): nat {
    if envs == [] then 0 else Working(envs[..|envs| - 1]) + if envs[|envs| - 1].mainFails then 0 else 1
  }

  class OutboxWorker {
    const maxRetries: nat
    var rows: Table           // outbox
    var nextId: nat           // its AUTOINCREMENT counter
    var saved: int            // sys_config: outbox_cursor
    var clock: int
    ghost var trace: seq<Event>

    ghost predicate Valid()
      reads this
    {
      && Run(maxRetries, trace).rows == rows && Run(maxRetries, trace).saved == saved
      && nextId > 0 && forall id :: id in rows ==> id < nextId
    }

    ghost function Phase(): Phase
      reads this
    {
      Run(maxRetries, trace).phase
    }

    constructor (maxRetries: int)
      ensures Valid() && trace == [] && this.maxRetries == if maxRetries <= 0 then 3 else maxRetries
    {
      this.maxRetries := if maxRetries <= 0 then 3 else maxRetries;
      rows, nextId, saved, clock, trace := map[], 1, 0, 0, [];
    }

    /** Some step of the transition system that is legal here. */
    ghost method Take(e: Event)
      requires Legal(Run(maxRetries, trace), e)
      modifies this`trace
      ensures trace == old(trace) + [e] && Run(maxRetries, trace) == Step(maxRetries, Run(maxRetries, old(trace)), e)
      ensures Fetches(trace) == Fetches(old(trace)) + if e.Fetch? then 1 else 0
      ensures trace[..|trace| - 1] == old(trace)
    {
      RunSnoc(maxRetries, trace, e);
      trace := trace + [e];
    }

    /** A row arrives from a producer. */
    method Enqueue(crashCount: nat) returns (id: nat)
      requires Valid()
      modifies this`rows, this`nextId, this`trace
      ensures Valid() && id == old(nextId) && rows == old(rows)[id := Row(Pending, 0, None, crashCount)]
      ensures trace == old(trace) + [Insert(id, crashCount)]
    {
      id := nextId;
      Take(Insert(id, crashCount));
      rows := rows[id := Row(Pending, 0, None, crashCount)];
      nextId := nextId + 1;
    }

    /** The wall clock: any time that is not earlier than the last one read. */
    method Now() returns (t: int)
      modifies this`clock
      ensures t == clock >= old(clock)
    {
      assert clock >= clock;
      t :| t >= clock;
      clock := t;
    }

    /** The status query over the rows behind the cursor, in id order. */
    method QueryMain(cursor: int, now: int) returns (rs: seq<Record>)
      requires Valid()
      ensures MainAnswer(rows, cursor, now, rs)
    {
      rs := [];
      for id := 0 to nextId
        invariant MainSoFar(rows, cursor, now, rs, id)
      {
        if MainMatch(rows, cursor, now, id) && |rs| < BATCH_SIZE {
          MainSnoc(rows, cursor, now, rs, id);
          rs := rs + [Record(id, rows[id].attempts, rows[id].crashCount)];
        }
      }
    }

    /** The failed rows at or below the cursor, in id order. */
    method QuerySupplement(cursor: int, now: int) returns (rs: seq<Record>)
      requires Valid()
      ensures SupplementRows(rows, cursor, now, rs)
    {
      rs := [];
      for id := 0 to nextId
        invariant SupplementSoFar(rows, cursor, now, rs, id)
      {
        if SupplementMatch(rows, cursor, now, id) && |rs| < SUPPLEMENT {
          SupplementSnoc(rows, cursor, now, rs, id);
          rs := rs + [Record(id, rows[id].attempts, rows[id].crashCount)];
        }
      }
    }

    /** `none` means that the main query failed; a failing supplementary query just contributes nothing. */
    method FetchBatch(cursor: int, env: Surroundings) returns (none: bool, main: seq<Record>, supp: seq<Record>)
      requires Valid() && Phase() == Idle(cursor)
      modifies this`clock, this`trace
      ensures Valid() && none == env.mainFails
      ensures none ==> trace == old(trace) && Phase() == Idle(cursor)
      ensures !none ==> exists now :: trace == old(trace) + [Fetch(now, main, supp, !env.suppFails)] &&
                                      MainAnswer(rows, cursor, now, main) &&
                                      if cursor > 0 && !env.suppFails then SupplementRows(rows, cursor, now, supp) else supp == []
      ensures !none ==> Phase() == Busy(cursor, main, supp, cursor) && Fetches(trace) == Fetches(old(trace)) + 1
    {
      var now := Now();
      if env.mainFails { return true, [], []; }
      main := QueryMain(cursor, now);
      supp := [];
      if cursor > 0 {
        if !env.suppFails {
          supp := QuerySupplement(cursor, now);
        }
      }
      Take(Fetch(now, main, supp, !env.suppFails));
      none := false;
    }

    /** Replay mode, a poisoned row or an unknown engine: nothing is called and the record counts as handled. */
    method Process(record: Record, env: Surroundings) returns (called: bool, ok: bool)
      ensures called <==> !env.replaying(record.id) && record.crashCount < POISON && env.registered(record.id)
      ensures ok <==> !(called && env.handlerFails(record.id))
    {
      if env.replaying(record.id) { return false, true; }
      if record.crashCount >= POISON { return false, true; }
      if !env.registered(record.id) { return false, true; }
      return true, !env.handlerFails(record.id);
    }

    /** Process and the status write that follows it. */
    method ProcessAndMark(record: Record, env: Surroundings)
      requires Valid() && Phase().Busy? && HasWork(Phase()) && Head(Phase()) == record
      modifies this`rows, this`clock, this`trace
      ensures Valid() && |trace| == |old(trace)| + 2 && old(trace) <= trace
      ensures DecidedFrom(maxRetries, env, trace, |old(trace)|) && Fetches(trace) == Fetches(old(trace))
      ensures Phase() == Popped(Handled(old(Phase()).cursor, old(Phase()).main, old(Phase()).supp, old(Phase()).maxId, true))
    {
      AlwaysSafe(maxRetries, trace);
      assert record.id in rows;
      var start := Now();
      var called, ok := Process(record, env);
      DecidedSnoc(maxRetries, env, trace, Handle(start, called, ok), |trace|);
      Take(Handle(start, called, ok));
      WriteStatus(record, ok, env, |old(trace)|);
    }

    /** The same, behind what `env` has decided from `from` on. */
    method ProcessNext(record: Record, env: Surroundings, ghost from: nat)
      requires Valid() && Phase().Busy? && HasWork(Phase()) && Head(Phase()) == record
      requires from <= |trace| && DecidedFrom(maxRetries, env, trace, from)
      modifies this`rows, this`clock, this`trace
      ensures Valid() && old(trace) <= trace && DecidedFrom(maxRetries, env, trace, from) && Fetches(trace) == Fetches(old(trace))
      ensures Phase() == Popped(Handled(old(Phase()).cursor, old(Phase()).main, old(Phase()).supp, old(Phase()).maxId, true))
    {
      ProcessAndMark(record, env);
      DecidedOn(maxRetries, env, old(trace), trace, from);
    }

    /** The source ignores a failing status write. `from` is where the part of the trace that `env` decides begins. */
    method WriteStatus(record: Record, ok: bool, env: Surroundings, ghost from: nat)
      requires Valid() && Phase().Handled? && HasWork(Phase()) && Head(Phase()) == record && Phase().ok == ok
      requires record.id in rows && DecidedFrom(maxRetries, env, trace, from)
      modifies this`rows, this`clock, this`trace
      ensures Valid() && |trace| == |old(trace)| + 1 && old(trace) <= trace && Phase() == Popped(old(Phase()))
      ensures DecidedFrom(maxRetries, env, trace, from) && Fetches(trace) == Fetches(old(trace))
    {
      var now := Now();
      DecidedSnoc(maxRetries, env, trace, Mark(now, !env.markFails(record.id)), from);
      Take(Mark(now, !env.markFails(record.id)));
      if !env.markFails(record.id) {
        rows := rows[record.id := Marked(maxRetries, rows[record.id], record, ok, now)];
      }
    }

    method ProcessBatch(cursor: int, env: Surroundings) returns (newCursor: int, err: bool)
      requires Valid() && Phase() == Idle(cursor)
      modifies this`rows, this`clock, this`trace
      ensures Valid() && old(trace) <= trace && DecidedFrom(maxRetries, env, trace, |old(trace)|)
      ensures err == env.mainFails && newCursor >= cursor && (err ==> newCursor == cursor && trace == old(trace))
      ensures Fetches(trace) == Fetches(old(trace)) + if err then 0 else 1
      ensures !err ==> Last(trace) == EndBatch
      ensures Phase() == if newCursor > cursor then Saving(newCursor) else Idle(cursor)
    {
      var none, main, supp := FetchBatch(cursor, env);
      if none { return cursor, true; }
      Fetched(env, old(trace), cursor);
      var records := main + supp;
      var maxId := cursor;
      for n := 0 to |records|
        invariant Valid() && old(trace) <= trace && DecidedFrom(maxRetries, env, trace, |old(trace)|)
        invariant Phase().Busy? && Phase().cursor == cursor && Phase().maxId == maxId >= cursor
        invariant Phase().main + Phase().supp == records[n..] && Fetches(trace) == Fetches(old(trace)) + 1
      {
        HeadOfRest(Phase(), records, n);
        ProcessNext(records[n], env, |old(trace)|);
        if records[n].id > maxId { maxId := records[n].id; }
      }
      assert Phase().main + Phase().supp == [];
      DecidedSnoc(maxRetries, env, trace, EndBatch, |old(trace)|);
      Take(EndBatch);
      return maxId, false;
    }

    lemma Fetched(env: Surroundings, before: seq<Event>, cursor: int)
      requires |trace| == |before| + 1 && before <= trace && trace[|before|].Fetch?
      requires !env.mainFails && trace[|before|].answered == !env.suppFails
      ensures DecidedFrom(maxRetries, env, trace, |before|)
    {
    }

    method LoadCursor() returns (cursor: int)
      requires Valid() && (Phase().Down? || Phase().Idle?)
      modifies this`trace
      ensures Valid() && trace == old(trace) + [Boot] && cursor == saved && Phase() == Idle(cursor)
      ensures Fetches(trace) == Fetches(old(trace))
    {
      Take(Boot);
      cursor := saved;
    }

    method SaveCursor(cursor: int, env: Surroundings)
      requires Valid() && Phase() == Saving(cursor)
      modifies this`saved, this`trace
      ensures Valid() && trace == old(trace) + [Save(!env.saveFails)] && Phase() == Idle(cursor)
      ensures Fetches(trace) == Fetches(old(trace))
      ensures saved == if env.saveFails then old(saved) else cursor
    {
      Take(Save(!env.saveFails));
      if !env.saveFails { saved := cursor; }
    }

    /** One tick of the polling loop: what the batch has reached is saved, if that is more than before. */
    method Tick(cursor: int, env: Surroundings) returns (newCursor: int)
      requires Valid() && Phase() == Idle(cursor)
      modifies this
      ensures Valid() && old(trace) <= trace && Phase() == Idle(newCursor) && newCursor >= cursor
      ensures DecidedFrom(maxRetries, env, trace, |old(trace)|)
      ensures Fetches(trace) == Fetches(old(trace)) + if env.mainFails then 0 else 1
      ensures saved == if newCursor > cursor && !env.saveFails then newCursor else old(saved)
      ensures newCursor > cursor ==> Last(trace) == Save(!env.saveFails)
    {
      var err;
      newCursor, err := ProcessBatch(cursor, env);
      if err { return; }
      if newCursor > cursor {
        DecidedSnoc(maxRetries, env, trace, Save(!env.saveFails), |old(trace)|);
        SaveCursor(newCursor, env);
      }
    }

    /** The polling loop: one batch in each tick whose main query works. */
    method Poll(envs: seq<Surroundings>)
      requires Valid() && (Phase().Down? || Phase().Idle?)
      modifies this
      ensures Valid() && old(trace) <= trace && Fetches(trace) == Fetches(old(trace)) + Working(envs)
      ensures forall id :: id in rows && id <= saved ==> id in Run(maxRetries, trace).processed
      ensures AllMarksWritten(trace) ==> forall id :: id in rows && id <= saved ==> rows[id].status != Pending
    {
      var cursor := LoadCursor();
      for t := 0 to |envs|
        invariant Valid() && old(trace) <= trace && Phase() == Idle(cursor)
        invariant Fetches(trace) == Fetches(old(trace)) + Working(envs[..t])
      {
        assert envs[..t + 1][..t] == envs[..t];
        cursor := Tick(cursor, envs[t]);
      }
      assert envs[..|envs|] == envs;
      forall id | id in rows && id <= saved ensures id in Run(maxRetries, trace).processed &&
          (AllMarksWritten(trace) ==> rows[id].status != Pending) {
        NothingIsLost(maxRetries, trace, id);
      }
    }

    /** The process dies: the memory is gone, the database stays. */
    method Die()
      requires Valid()
      modifies this`trace
      ensures Valid() && trace == old(trace) + [Crash] && Phase() == Down
    {
      Take(Crash);
    }
  }

  /** The answer of the main query among the rows below `upto`. */
  ghost predicate MainSoFar(t: Table, cursor: int, now: int, rs: seq<Record>, upto: nat) {
    && Ascending(rs) && |rs| <= BATCH_SIZE
    && (forall i :: 0 <= i < |rs| ==> rs[i].id < upto && Snapshot(t, rs[i]) && MainMatch(t, cursor, now, rs[i].id))
    && (forall k: nat :: k < upto && MainMatch(t, cursor, now, k) && !Listed(rs, k) ==>
          |rs| == BATCH_SIZE && rs[|rs| - 1].id < k)
  }

  lemma MainSnoc(t: Table, cursor: int, now: int, rs: seq<Record>, id: nat)
    requires MainSoFar(t, cursor, now, rs, id) && MainMatch(t, cursor, now, id) && |rs| < BATCH_SIZE
    ensures MainSoFar(t, cursor, now, rs + [Record(id, t[id].attempts, t[id].crashCount)], id + 1)
  {
    ListedSnoc(rs, Record(id, t[id].attempts, t[id].crashCount));
  }

  /** The answer of the supplementary query among the rows below `upto`. */
  ghost predicate SupplementSoFar(t: Table, cursor: int, now: int, rs: seq<Record>, upto: nat) {
    && Ascending(rs) && |rs| <= SUPPLEMENT
    && (forall i :: 0 <= i < |rs| ==> rs[i].id < upto && Snapshot(t, rs[i]) && SupplementMatch(t, cursor, now, rs[i].id))
    && (forall k: nat :: k < upto && SupplementMatch(t, cursor, now, k) && !Listed(rs, k) ==>
          |rs| == SUPPLEMENT && rs[|rs| - 1].id < k)
  }

  lemma SupplementSnoc(t: Table, cursor: int, now: int, rs: seq<Record>, id: nat)
    requires SupplementSoFar(t, cursor, now, rs, id) && SupplementMatch(t, cursor, now, id) && |rs| < SUPPLEMENT
    ensures SupplementSoFar(t, cursor, now, rs + [Record(id, t[id].attempts, t[id].crashCount)], id + 1)
  {
    ListedSnoc(rs, Record(id, t[id].attempts, t[id].crashCount));
  }

  lemma ListedSnoc(rs: seq<Record>, r: Record)
    ensures Listed(rs + [r], r.id) && forall id :: Listed(rs, id) ==> Listed(rs + [r], id)
  {
    assert (rs + [r])[|rs|] == r;
    forall id | Listed(rs, id) ensures Listed(rs + [r], id) {
      var i :| 0 <= i < |rs| && rs[i].id == id;
      assert (rs + [r])[i].id == id;
    }
  }

  lemma HeadOfRest(p: Phase, records: seq<Record>, n: nat)
    requires p.Busy? && n < |records| && p.main + p.supp == records[n..]
    ensures HasWork(p) && Head(p) == records[n]
    ensures (if p.main != [] then p.main[1..] + p.supp else p.supp[1..]) == records[n + 1..]
  {
    var rest := p.main + p.supp;
    assert rest[0] == records[n] && rest[1..] == records[n + 1..];
    if p.main != [] {
      assert p.main[1..] + p.supp == rest[1..];
    } else {
      assert p.supp == rest;
    }
  }
}
