/** pkg/substrate/outbox_worker.go as a transition system: one worker, its writes one at a time, a crash between any two
    of them, and rows arriving meanwhile. */
module OutboxRuns {

  import opened Options

  datatype Status = Pending | Failed | Done | Dead

  datatype Row = Row(status: Status, attempts: nat, nextRetryAt: Option<int>, crashCount: nat)
  datatype Record = Record(id: nat, attempts: nat, crashCount: nat)

  type Table = map<nat, Row>

  const BATCH_SIZE := 50
  const SUPPLEMENT := 12     // BATCH_SIZE / 4
  const POISON := 3          // crash_recovery_count from which a row is not handled any more
  const TWO_63 := 0x8000_0000_0000_0000
  const TWO_64 := 0x1_0000_0000_0000_0000

  /** Two's complement wrap-around of a 64-bit integer. */
  function Wrap64(x: int): int {
    (x + TWO_63) % TWO_64 - TWO_63
  }

  function Pow2(n: nat): nat {
    if n == 0 then 1 else 2 * Pow2(n - 1)
  }

  /** The backoff in milliseconds as the source computes it. */
  function Backoff(attempts: nat): int {
    Wrap64(Pow2(attempts) * 5000)
  }

  // --- the two queries ----------------------------------------------------------------------

  predicate Due(r: Row, now: int) {
    r.nextRetryAt.None? || r.nextRetryAt.value <= now
  }

  predicate MainMatch(t: Table, cursor: int, now: int, id: nat) {
    id in t && id > cursor && (t[id].status == Pending || t[id].status == Failed) && Due(t[id], now)
  }

  predicate SupplementMatch(t: Table, cursor: int, now: int, id: nat) {
    id in t && id <= cursor && t[id].status == Failed && Due(t[id], now)
  }

  predicate Snapshot(t: Table, r: Record) {
    r.id in t && r.attempts == t[r.id].attempts && r.crashCount == t[r.id].crashCount
  }

  predicate Ascending(rs: seq<Record>) {
    forall i, j :: 0 <= i < j < |rs| ==> rs[i].id < rs[j].id
  }

  predicate Listed(rs: seq<Record>, id: nat) {
    exists i :: 0 <= i < |rs| && rs[i].id == id
  }

  /** The first `limit` matching rows in id order. */
  ghost predicate MainAnswer(t: Table, cursor: int, now: int, rs: seq<Record>) {
    && Ascending(rs) && |rs| <= BATCH_SIZE
    && (forall i :: 0 <= i < |rs| ==> Snapshot(t, rs[i]) && MainMatch(t, cursor, now, rs[i].id))
    && (forall id :: MainMatch(t, cursor, now, id) && !Listed(rs, id) ==>
          |rs| == BATCH_SIZE && rs[|rs| - 1].id < id)
  }

  /** The first twelve failed and due rows up to the cursor, in id order. */
  ghost predicate SupplementRows(t: Table, cursor: int, now: int, rs: seq<Record>) {
    && Ascending(rs) && |rs| <= SUPPLEMENT
    && (forall i :: 0 <= i < |rs| ==> Snapshot(t, rs[i]) && SupplementMatch(t, cursor, now, rs[i].id))
    && (forall id :: SupplementMatch(t, cursor, now, id) && !Listed(rs, id) ==>
          |rs| == SUPPLEMENT && rs[|rs| - 1].id < id)
  }

  /** The second query is made behind the start only, and when it fails its rows are simply missing, all of them. */
  ghost predicate SupplementAnswer(t: Table, cursor: int, now: int, rs: seq<Record>, answered: bool) {
    if cursor > 0 && answered then SupplementRows(t, cursor, now, rs) else rs == []
  }

  // --- states and steps ---------------------------------------------------------------------

  /** Where the worker stands. `main` and `supp` are the records of the batch still to be processed, in that order. */
  datatype Phase =
    | Down
    | Idle(cursor: int)
    | Busy(cursor: int, main: seq<Record>, supp: seq<Record>, maxId: int)
    | Handled(cursor: int, main: seq<Record>, supp: seq<Record>, maxId: int, ok: bool)
    | Saving(cursor: int)

  /** The database (`rows`, `saved`), the worker's memory (`phase`), and what has happened: which rows went through
      Process, when their handler ran, and whose status write was lost. */
  datatype State = State(rows: Table, saved: int, phase: Phase,
                         processed: set<nat>, runs: map<nat, seq<int>>, unmarked: set<nat>)

  const START := State(map[], 0, Down, {}, map[], {})

  datatype Event =
    | Insert(id: nat, crashCount: nat)
    | Boot
    | Fetch(now: int, mainRows: seq<Record>, suppRows: seq<Record>, answered: bool)  // whether the second query works
    | Handle(now: int, called: bool, ok: bool)
    | Mark(now: int, written: bool)
    | EndBatch
    | Save(written: bool)
    | Crash

  function Head(p: Phase): Record
    requires (p.Busy? || p.Handled?) && (p.main != [] || p.supp != [])
  {
    if p.main != [] then p.main[0] else p.supp[0]
  }

  predicate HasWork(p: Phase) {
    (p.Busy? || p.Handled?) && (p.main != [] || p.supp != [])
  }

  ghost predicate Legal(s: State, e: Event) {
    match e
    case Insert(id, _) => id > 0 && forall k :: k in s.rows ==> k < id
    case Boot => s.phase.Down? || s.phase.Idle?
    case Fetch(now, main, supp, answered) =>
      s.phase.Idle? && MainAnswer(s.rows, s.phase.cursor, now, main) &&
      SupplementAnswer(s.rows, s.phase.cursor, now, supp, answered)
    case Handle(_, called, ok) =>
      s.phase.Busy? && HasWork(s.phase) && (called ==> Head(s.phase).crashCount < POISON) && (!called ==> ok)
    case Mark(_, _) => s.phase.Handled? && HasWork(s.phase)
    case EndBatch => s.phase.Busy? && !HasWork(s.phase)
    case Save(_) => s.phase.Saving?
    case Crash => true
  }

  function RunsOf(s: State, id: nat): seq<int> {
    if id in s.runs then s.runs[id] else []
  }

  /** The row after processAndMark, from the record as it was fetched. */
  function Marked(maxRetries: nat, r: Row, rec: Record, ok: bool, now: int): Row {
    if ok then r.(status := Done)
    else if rec.attempts + 1 >= maxRetries || rec.crashCount >= POISON then r.(status := Dead, attempts := rec.attempts + 1)
    else r.(status := Failed, attempts := rec.attempts + 1, nextRetryAt := Some(Wrap64(now + Backoff(rec.attempts + 1))))
  }

  /** The batch without its head, with the running maximum of the ids. */
  function Popped(p: Phase): Phase
    requires p.Handled? && HasWork(p)
  {
    var m := if Head(p).id > p.maxId then Head(p).id else p.maxId;
    if p.main != [] then Busy(p.cursor, p.main[1..], p.supp, m) else Busy(p.cursor, [], p.supp[1..], m)
  }

  function Take(maxRetries: nat, s: State, e: Event): State
    requires e.Fetch? ==> s.phase.Idle?
    requires e.Handle? ==> s.phase.Busy? && HasWork(s.phase)
    requires e.Mark? ==> s.phase.Handled? && HasWork(s.phase)
    requires e.EndBatch? ==> s.phase.Busy?
    requires e.Save? ==> s.phase.Saving?
  {
    match e
    case Insert(id, crashCount) => s.(rows := s.rows[id := Row(Pending, 0, None, crashCount)])
    case Boot => s.(phase := Idle(s.saved))
    case Fetch(now, main, supp, _) => s.(phase := Busy(s.phase.cursor, main, supp, s.phase.cursor))
    case Handle(now, called, ok) =>
      var p, id := s.phase, Head(s.phase).id;
      s.(phase := Handled(p.cursor, p.main, p.supp, p.maxId, ok), processed := s.processed + {id},
         runs := if called then s.runs[id := RunsOf(s, id) + [now]] else s.runs)
    case Mark(now, written) =>
      var rec := Head(s.phase);
      if written && rec.id in s.rows then
        s.(phase := Popped(s.phase), rows := s.rows[rec.id := Marked(maxRetries, s.rows[rec.id], rec, s.phase.ok, now)])
      else s.(phase := Popped(s.phase), unmarked := s.unmarked + {rec.id})
    case EndBatch => s.(phase := if s.phase.maxId > s.phase.cursor then Saving(s.phase.maxId) else Idle(s.phase.cursor))
    case Save(written) => s.(phase := Idle(s.phase.cursor), saved := if written then s.phase.cursor else s.saved)
    case Crash => s.(phase := Down)
  }

  ghost function Step(maxRetries: nat, s: State, e: Event): State {
    if Legal(s, e) then Take(maxRetries, s, e) else s
  }

  ghost function Run(maxRetries: nat, es: seq<Event>): State {
    if es == [] then START else Step(maxRetries, Run(maxRetries, es[..|es| - 1]), es[|es| - 1])
  }

  // --- nothing is lost ----------------------------------------------------------------------

  /** The row has been through Process, and if it is still pending then only because its status write was lost. */
  predicate Covered(s: State, id: nat) {
    id in s.rows ==> id in s.processed && (s.rows[id].status == Pending ==> id in s.unmarked)
  }

  ghost predicate CoveredUpTo(s: State, m: int) {
    forall id :: id in s.rows && id <= m ==> Covered(s, id)
  }

  predicate RowOk(s: State, id: nat)
    requires id in s.rows
  {
    if s.rows[id].status == Pending then s.rows[id].nextRetryAt == None else id in s.processed
  }

  ghost predicate RowsOk(s: State) {
    forall id :: id in s.rows ==> RowOk(s, id)
  }

  /** A cursor is 0 or the id of a row. */
  predicate CursorOk(s: State, c: int) {
    c == 0 || (c > 0 && c in s.rows)
  }

  /** Up to where the worker has got, by its own account. */
  function Reached(s: State): int {
    match s.phase
    case Down => s.saved
    case Idle(c) => c
    case Busy(_, _, _, m) => m
    case Handled(_, _, _, m, _) => m
    case Saving(c) => c
  }

  function LastId(rs: seq<Record>, none: int): int {
    if rs == [] then none else rs[|rs| - 1].id
  }

  /** No uncovered row is skipped by the records still ahead. */
  ghost predicate MainOk(s: State, main: seq<Record>, maxId: int) {
    && Ascending(main)
    && (forall i :: 0 <= i < |main| ==> main[i].id in s.rows && main[i].id > maxId)
    && (forall id :: id in s.rows && maxId < id <= LastId(main, maxId) && !Listed(main, id) ==> Covered(s, id))
  }

  ghost predicate SuppOk(s: State, supp: seq<Record>, cursor: int) {
    forall i :: 0 <= i < |supp| ==>
      supp[i].id in s.rows && supp[i].id <= cursor && s.rows[supp[i].id].status != Pending && supp[i].id in s.processed
  }

  ghost predicate BatchOk(s: State) {
    match s.phase
    case Busy(c, main, supp, m) => c <= m && MainOk(s, main, m) && SuppOk(s, supp, c)
    case Handled(c, main, supp, m, _) =>
      c <= m && MainOk(s, main, m) && SuppOk(s, supp, c) && (HasWork(s.phase) ==> Head(s.phase).id in s.processed)
    case _ => true
  }

  ghost predicate Safe(s: State) {
    && RowsOk(s) && s.saved <= Reached(s) && CursorOk(s, s.saved) && CursorOk(s, Reached(s))
    && CoveredUpTo(s, Reached(s)) && BatchOk(s)
  }

  lemma SafeInsert(k: nat, s: State, e: Event)
    requires Safe(s) && e.Insert? && Legal(s, e)
    ensures Safe(Step(k, s, e))
  {
    var s' := Step(k, s, e);
    forall id | id in s.rows ensures id in s'.rows && s'.rows[id] == s.rows[id] && RowOk(s', id) && (Covered(s, id) ==> Covered(s', id)) {
      assert RowOk(s, id);
    }
    assert Reached(s) < e.id;
    if s.phase.Busy? || s.phase.Handled? {
      assert LastId(s.phase.main, s.phase.maxId) < e.id;
    }
  }

  lemma SafeFetch(k: nat, s: State, e: Event)
    requires Safe(s) && e.Fetch? && Legal(s, e)
    ensures Safe(Step(k, s, e))
  {
    var s', c := Step(k, s, e), s.phase.cursor;
    forall id | id in s.rows && c < id <= LastId(e.mainRows, c) && !Listed(e.mainRows, id) ensures Covered(s', id) {
      assert RowOk(s, id);
      assert !MainMatch(s.rows, c, e.now, id);
    }
    forall i | 0 <= i < |e.suppRows| ensures e.suppRows[i].id in s.processed {
      assert SupplementMatch(s.rows, c, e.now, e.suppRows[i].id) && RowOk(s, e.suppRows[i].id);
    }
  }

  lemma SafeHandle(k: nat, s: State, e: Event)
    requires Safe(s) && e.Handle? && Legal(s, e)
    ensures Safe(Step(k, s, e))
  {
    var s' := Step(k, s, e);
    forall id | id in s.rows ensures RowOk(s', id) && (Covered(s, id) ==> Covered(s', id)) {
      assert RowOk(s, id);
    }
  }

  lemma ListedTail(rs: seq<Record>, id: nat)
    requires Listed(rs, id) && rs[0].id != id
    ensures Listed(rs[1..], id)
  {
    var i :| 0 <= i < |rs| && rs[i].id == id;
    assert rs[1..][i - 1].id == id;
  }

  /** The head of the main list is done with: it is covered, and so is everything up to it. */
  lemma PopMain(s: State, s': State, main: seq<Record>, maxId: int)
    requires main != [] && MainOk(s, main, maxId) && CoveredUpTo(s, maxId)
    requires s'.rows.Keys == s.rows.Keys && Covered(s', main[0].id)
    requires forall id :: id in s.rows && Covered(s, id) ==> Covered(s', id)
    ensures MainOk(s', main[1..], main[0].id) && CoveredUpTo(s', main[0].id)
  {
    var rest, m := main[1..], main[0].id;
    forall id | id in s.rows && id < m ensures Covered(s', id) {
      if id > maxId {
        assert !Listed(main, id);
      }
    }
    forall id | id in s.rows && m < id <= LastId(rest, m) && !Listed(rest, id) ensures Covered(s', id) {
      if Listed(main, id) {
        ListedTail(main, id);
      }
    }
  }

  /** A status write covers the row of the head and leaves every other row as it was. */
  lemma MarkCovers(k: nat, s: State, e: Event, id: nat)
    requires Safe(s) && e.Mark? && Legal(s, e) && id in s.rows
    ensures var s', head := Step(k, s, e), Head(s.phase).id;
            && head in s.rows && s'.rows.Keys == s.rows.Keys && s'.processed == s.processed
            && RowOk(s', id) && (Covered(s, id) ==> Covered(s', id)) && Covered(s', head)
            && (s.rows[id].status != Pending ==> s'.rows[id].status != Pending)
  {
    assert RowOk(s, id);
    assert Head(s.phase).id in s.rows;
  }

  lemma SafeMark(k: nat, s: State, e: Event)
    requires Safe(s) && e.Mark? && Legal(s, e)
    ensures Safe(Step(k, s, e))
  {
    var s', p := Step(k, s, e), s.phase;
    assert Head(p).id in s.rows;
    forall id | id in s.rows
      ensures RowOk(s', id) && (Covered(s, id) ==> Covered(s', id)) && s'.rows.Keys == s.rows.Keys && s'.processed == s.processed
      ensures s.rows[id].status != Pending ==> s'.rows[id].status != Pending
    {
      MarkCovers(k, s, e, id);
    }
    MarkCovers(k, s, e, Head(p).id);
    assert s'.saved == s.saved;
    if p.main != [] {
      PopMain(s, s', p.main, p.maxId);
      assert s'.phase == Busy(p.cursor, p.main[1..], p.supp, p.main[0].id);
      assert SuppOk(s', p.supp, p.cursor);
    } else {
      assert s'.phase == Busy(p.cursor, [], p.supp[1..], p.maxId);
      assert SuppOk(s', p.supp[1..], p.cursor);
    }
  }

  lemma SafeStep(k: nat, s: State, e: Event)
    requires Safe(s)
    ensures Safe(Step(k, s, e))
  {
    if Legal(s, e) {
      match e {
        case Insert(_, _) => SafeInsert(k, s, e);
        case Fetch(_, _, _, _) => SafeFetch(k, s, e);
        case Handle(_, _, _) => SafeHandle(k, s, e);
        case Mark(_, _) => SafeMark(k, s, e);
        case _ => SafeRest(k, s, e);
      }
    }
  }

  lemma SafeRest(k: nat, s: State, e: Event)
    requires Safe(s) && (e.Boot? || e.EndBatch? || e.Save? || e.Crash?) && Legal(s, e)
    ensures Safe(Step(k, s, e))
  {
    var s' := Step(k, s, e);
    forall id | id in s.rows ensures RowOk(s', id) && (Covered(s, id) ==> Covered(s', id)) {
      assert RowOk(s, id);
    }
  }

  lemma {:induction false} AlwaysSafe(k: nat, es: seq<Event>)
    ensures Safe(Run(k, es))
  {
    if es != [] {
      AlwaysSafe(k, es[..|es| - 1]);
      SafeStep(k, Run(k, es[..|es| - 1]), es[|es| - 1]);
    }
  }

  ghost predicate AllMarksWritten(es: seq<Event>) {
    forall i :: 0 <= i < |es| && es[i].Mark? ==> es[i].written
  }

  lemma {:induction false} NothingUnmarked(k: nat, es: seq<Event>)
    requires AllMarksWritten(es)
    ensures Run(k, es).unmarked == {}
  {
    if es != [] {
      var rest := es[..|es| - 1];
      assert forall i :: 0 <= i < |rest| ==> rest[i] == es[i];
      NothingUnmarked(k, rest);
      AlwaysSafe(k, rest);
      StaysMarked(k, Run(k, rest), es[|es| - 1]);
    }
  }

  lemma StaysMarked(k: nat, s: State, e: Event)
    requires Safe(s) && (e.Mark? ==> e.written)
    ensures Step(k, s, e).unmarked == s.unmarked
  {
    if Legal(s, e) && e.Mark? {
      assert Head(s.phase).id in s.rows;
    }
  }

  /** In every run, with crashes between any two writes: each row at or below the saved cursor has been through Process,
      and is pending exactly if no status write of it has reached the database. */
  lemma NothingIsLost(k: nat, es: seq<Event>, id: nat)
    requires id in Run(k, es).rows && id <= Run(k, es).saved
    ensures id in Run(k, es).processed
    ensures Run(k, es).rows[id].status == Pending <==> !EverMarked(k, es, id)
    ensures Run(k, es).rows[id].status == Pending ==> id in Run(k, es).unmarked
    ensures AllMarksWritten(es) ==> Run(k, es).rows[id].status != Pending
  {
    AlwaysSafe(k, es);
    assert Covered(Run(k, es), id);
    PendingExactly(k, es, id);
    if AllMarksWritten(es) {
      NothingUnmarked(k, es);
    }
  }

  // --- status writes ------------------------------------------------------------------------

  /** Event `m` writes the status of row `id`. */
  ghost predicate MarkedAt(k: nat, es: seq<Event>, m: int, id: nat) {
    0 <= m < |es| && Marks(Run(k, es[..m]), es[m], id)
  }

  ghost predicate Marks(s: State, e: Event, id: nat) {
    e.Mark? && e.written && Legal(s, e) && Head(s.phase).id == id
  }

  ghost predicate EverMarked(k: nat, es: seq<Event>, id: nat) {
    exists m :: MarkedAt(k, es, m, id)
  }

  lemma EverMarkedSnoc(k: nat, es: seq<Event>, e: Event, id: nat)
    ensures EverMarked(k, es + [e], id) <==> EverMarked(k, es, id) || Marks(Run(k, es), e, id)
  {
    var more := es + [e];
    assert more[..|es|] == es && more[|es|] == e;
    forall m | 0 <= m < |es| ensures MarkedAt(k, more, m, id) <==> MarkedAt(k, es, m, id) {
      assert more[..m] == es[..m] && more[m] == es[m];
    }
    assert MarkedAt(k, more, |es|, id) <==> Marks(Run(k, es), e, id);
  }

  lemma PendingStep(k: nat, s: State, e: Event, id: nat)
    requires Safe(s)
    ensures var s' := Step(k, s, e);
            && (id in s.rows ==> id in s'.rows && (s'.rows[id].status == Pending <==> s.rows[id].status == Pending && !Marks(s, e, id)))
            && (id !in s.rows ==> !Marks(s, e, id) && (id in s'.rows ==> s'.rows[id].status == Pending))
  {
  }

  /** In every run a row is pending exactly as long as no status write of it has reached the database. */
  lemma {:induction false} PendingExactly(k: nat, es: seq<Event>, id: nat)
    ensures id in Run(k, es).rows ==> (Run(k, es).rows[id].status == Pending <==> !EverMarked(k, es, id))
    ensures id !in Run(k, es).rows ==> !EverMarked(k, es, id)
  {
    if es != [] {
      var rest, e := es[..|es| - 1], es[|es| - 1];
      assert es == rest + [e];
      PendingExactly(k, rest, id);
      AlwaysSafe(k, rest);
      PendingStep(k, Run(k, rest), e, id);
      EverMarkedSnoc(k, rest, e, id);
    }
  }

  /** The last write of the row's status. */
  ghost predicate LastMark(k: nat, es: seq<Event>, m: int, id: nat) {
    MarkedAt(k, es, m, id) && forall n :: m < n < |es| ==> !MarkedAt(k, es, n, id)
  }

  lemma LastMarkSnoc(k: nat, es: seq<Event>, e: Event, m: int, id: nat)
    ensures LastMark(k, es + [e], m, id) <==> if Marks(Run(k, es), e, id) then m == |es| else LastMark(k, es, m, id)
  {
    var more := es + [e];
    assert more[..|es|] == es && more[|es|] == e;
    forall n | 0 <= n < |es| ensures MarkedAt(k, more, n, id) <==> MarkedAt(k, es, n, id) {
      assert more[..n] == es[..n];
    }
    assert MarkedAt(k, more, |es|, id) <==> Marks(Run(k, es), e, id);
    assert !MarkedAt(k, es, |es|, id) && !MarkedAt(k, more, |es| + 1, id);
    if LastMark(k, more, m, id) && !Marks(Run(k, es), e, id) {
      assert forall n :: m < n < |es| ==> !MarkedAt(k, more, n, id);
    }
  }

  /** What a status write leaves: done after a success; after a failure dead at the limit, and otherwise failed with one
      attempt more, due when the backoff is over. */
  ghost predicate Outcome(k: nat, p: Phase, now: int, r: Row)
    requires p.Handled? && HasWork(p)
  {
    var rec := Head(p);
    if p.ok then r.status == Done
    else if rec.attempts + 1 >= k || rec.crashCount >= POISON then r.status == Dead && r.attempts == rec.attempts + 1
    else r.status == Failed && r.attempts == rec.attempts + 1 && r.nextRetryAt == Some(Wrap64(now + Backoff(rec.attempts + 1)))
  }

  /** In every run the last status write decides what has become of a row. */
  lemma {:induction false} LastMarkDecides(k: nat, es: seq<Event>, m: nat, id: nat)
    requires LastMark(k, es, m, id)
    ensures id in Run(k, es).rows && Outcome(k, Run(k, es[..m]).phase, es[m].now, Run(k, es).rows[id])
    decreases |es|
  {
    var rest, e := es[..|es| - 1], es[|es| - 1];
    assert es == rest + [e];
    LastMarkSnoc(k, rest, e, m, id);
    AlwaysSafe(k, rest);
    if Marks(Run(k, rest), e, id) {
      assert es[..m] == rest;
    } else {
      LastMarkDecides(k, rest, m, id);
      assert es[..m] == rest[..m];
      UnmarkedStays(k, Run(k, rest), e, id);
    }
  }

  lemma UnmarkedStays(k: nat, s: State, e: Event, id: nat)
    requires id in s.rows && !Marks(s, e, id)
    ensures id in Step(k, s, e).rows && Step(k, s, e).rows[id] == s.rows[id]
  {
  }

  // --- what is fetched is handled ----------------------------------------------------------------

  ghost predicate Handles(s: State, e: Event, id: nat) {
    e.Handle? && Legal(s, e) && Head(s.phase).id == id
  }

  /** The row goes through Process after event `p` and before event `q`. */
  ghost predicate HandledBetween(k: nat, es: seq<Event>, p: int, q: int, id: nat) {
    exists m :: 0 <= p < m < q <= |es| && HandlesAt(k, es, m, id)
  }

  ghost predicate HandlesAt(k: nat, es: seq<Event>, m: int, id: nat) {
    0 <= m < |es| && Handles(Run(k, es[..m]), es[m], id)
  }

  predicate InBatch(p: Phase, id: nat) {
    (p.Busy? || p.Handled?) && (Listed(p.main, id) || Listed(p.supp, id))
  }

  /** Events `p` and `q` begin and end one batch, without a crash between them. */
  ghost predicate OneBatch(k: nat, es: seq<Event>, p: nat, q: nat) {
    && p < q < |es| && es[p].Fetch? && Legal(Run(k, es[..p]), es[p]) && es[q].EndBatch? && Legal(Run(k, es[..q]), es[q])
    && forall m :: p < m < q ==> !es[m].Crash? && !(es[m].EndBatch? && Legal(Run(k, es[..m]), es[m]))
  }

  lemma InBatchStep(k: nat, s: State, e: Event, id: nat)
    requires (s.phase.Busy? || s.phase.Handled?) && !e.Crash? && !(e.EndBatch? && Legal(s, e))
    ensures var s' := Step(k, s, e);
            && (s'.phase.Busy? || s'.phase.Handled?)
            && (InBatch(s.phase, id) ==> InBatch(s'.phase, id) || (s.phase.Handled? && HasWork(s.phase) && Head(s.phase).id == id))
            && (s'.phase.Handled? && HasWork(s'.phase) && Head(s'.phase).id == id ==>
                  Handles(s, e, id) || (s.phase.Handled? && HasWork(s.phase) && Head(s.phase).id == id))
  {
    if Legal(s, e) && e.Mark? && InBatch(s.phase, id) && Head(s.phase).id != id {
      if Listed(s.phase.main, id) {
        ListedTail(s.phase.main, id);
      } else if s.phase.main == [] {
        ListedTail(s.phase.supp, id);
      }
    }
  }

  /** Until the batch ends a fetched row is still in hand or has been handled. */
  lemma {:induction false} StillInHand(k: nat, es: seq<Event>, p: nat, q: nat, n: nat, id: nat)
    requires OneBatch(k, es, p, q) && p < n <= q && (Listed(es[p].mainRows, id) || Listed(es[p].suppRows, id))
    ensures var ph := Run(k, es[..n]).phase;
            && (ph.Busy? || ph.Handled?) && (InBatch(ph, id) || HandledBetween(k, es, p, n, id))
            && (ph.Handled? && HasWork(ph) && Head(ph).id == id ==> HandledBetween(k, es, p, n, id))
    decreases n
  {
    var s, e := Run(k, es[..n - 1]), es[n - 1];
    assert es[..n] == es[..n - 1] + [e];
    RunSnoc(k, es[..n - 1], e);
    if n - 1 > p {
      StillInHand(k, es, p, q, n - 1, id);
      InBatchStep(k, s, e, id);
      assert HandlesAt(k, es, n - 1, id) <==> Handles(s, e, id);
      if HandledBetween(k, es, p, n - 1, id) {
        var m :| p < m < n - 1 && HandlesAt(k, es, m, id);
        assert HandledBetween(k, es, p, n, id);
      }
    }
  }

  /** Every row that a batch has fetched goes through Process before the batch ends. */
  lemma {:induction false} FetchedIsHandled(k: nat, es: seq<Event>, p: nat, q: nat, id: nat)
    requires OneBatch(k, es, p, q) && (Listed(es[p].mainRows, id) || Listed(es[p].suppRows, id))
    ensures HandledBetween(k, es, p, q, id)
  {
    StillInHand(k, es, p, q, q, id);
    var ph := Run(k, es[..q]).phase;
    assert !HasWork(ph);
  }

  /** A failed row behind the cursor that is due is handled again in the next batch whose second query works, unless twelve
      such rows with lower ids come before it. */
  lemma {:induction false} FailedIsRetried(k: nat, es: seq<Event>, p: nat, q: nat, id: nat)
    requires OneBatch(k, es, p, q) && es[p].answered && Run(k, es[..p]).phase.cursor > 0
    requires id in Run(k, es[..p]).rows && id <= Run(k, es[..p]).phase.cursor && Run(k, es[..p]).rows[id].status == Failed
    requires var retry := Run(k, es[..p]).rows[id].nextRetryAt; retry.None? || retry.value <= es[p].now
    ensures HandledBetween(k, es, p, q, id) || |es[p].suppRows| == 12
    ensures !HandledBetween(k, es, p, q, id) ==>
              forall i :: 0 <= i < 12 ==> es[p].suppRows[i].id < id && HandledBetween(k, es, p, q, es[p].suppRows[i].id)
  {
    var rs := es[p].suppRows;
    if Listed(rs, id) {
      FetchedIsHandled(k, es, p, q, id);
    } else {
      assert SupplementMatch(Run(k, es[..p]).rows, Run(k, es[..p]).phase.cursor, es[p].now, id);
      forall i | 0 <= i < |rs| ensures rs[i].id < id && HandledBetween(k, es, p, q, rs[i].id) {
        assert Listed(rs, rs[i].id);
        FetchedIsHandled(k, es, p, q, rs[i].id);
      }
    }
  }

  /** An open row ahead of the cursor that is due is handled in the next batch, unless fifty such rows with lower ids come
      before it. */
  lemma {:induction false} OpenIsHandled(k: nat, es: seq<Event>, p: nat, q: nat, id: nat)
    requires OneBatch(k, es, p, q) && id in Run(k, es[..p]).rows && id > Run(k, es[..p]).phase.cursor
    requires Run(k, es[..p]).rows[id].status in {Pending, Failed}
    requires var retry := Run(k, es[..p]).rows[id].nextRetryAt; retry.None? || retry.value <= es[p].now
    ensures HandledBetween(k, es, p, q, id) || |es[p].mainRows| == 50
    ensures !HandledBetween(k, es, p, q, id) ==>
              forall i :: 0 <= i < 50 ==> es[p].mainRows[i].id < id && HandledBetween(k, es, p, q, es[p].mainRows[i].id)
  {
    var rs := es[p].mainRows;
    if Listed(rs, id) {
      FetchedIsHandled(k, es, p, q, id);
    } else {
      assert MainMatch(Run(k, es[..p]).rows, Run(k, es[..p]).phase.cursor, es[p].now, id);
      forall i | 0 <= i < |rs| ensures rs[i].id < id && HandledBetween(k, es, p, q, rs[i].id) {
        assert Listed(rs, rs[i].id);
        FetchedIsHandled(k, es, p, q, rs[i].id);
      }
    }
  }

  // --- poisoned rows ------------------------------------------------------------------------

  /** A poisoned row is never handled, and never failed or dead. */
  predicate PoisonOk(s: State, id: nat)
    requires id in s.rows
  {
    s.rows[id].crashCount >= POISON ==> (s.rows[id].status == Pending || s.rows[id].status == Done) && RunsOf(s, id) == []
  }

  predicate Counted(t: Table, r: Record) {
    r.id in t && r.crashCount == t[r.id].crashCount
  }

  /** The records in hand know the crash counts of their rows, and a poisoned one counts as handled. */
  ghost predicate BatchCounted(s: State) {
    s.phase.Busy? || s.phase.Handled? ==>
      && (forall i :: 0 <= i < |s.phase.main| ==> Counted(s.rows, s.phase.main[i]))
      && (forall i :: 0 <= i < |s.phase.supp| ==> Counted(s.rows, s.phase.supp[i]))
      && (s.phase.Handled? && HasWork(s.phase) && Head(s.phase).crashCount >= POISON ==> s.phase.ok)
  }

  ghost predicate PoisonsOk(s: State) {
    (forall id :: id in s.rows ==> PoisonOk(s, id)) && BatchCounted(s) && (forall id :: id in s.runs ==> id in s.rows)
  }

  lemma PoisonRow(k: nat, s: State, e: Event, id: nat)
    requires PoisonsOk(s) && id in Step(k, s, e).rows
    ensures PoisonOk(Step(k, s, e), id)
  {
    if id in s.rows {
      assert PoisonOk(s, id);
    }
    if Legal(s, e) && (e.Handle? || e.Mark?) {
      assert Counted(s.rows, Head(s.phase));
    }
  }

  lemma PoisonBatch(k: nat, s: State, e: Event)
    requires PoisonsOk(s)
    ensures BatchCounted(Step(k, s, e))
  {
  }

  lemma {:induction false} AlwaysPoisonsOk(k: nat, es: seq<Event>)
    ensures PoisonsOk(Run(k, es))
  {
    if es != [] {
      var rest, e := es[..|es| - 1], es[|es| - 1];
      AlwaysPoisonsOk(k, rest);
      PoisonBatch(k, Run(k, rest), e);
      forall id | id in Run(k, es).rows ensures PoisonOk(Run(k, es), id) {
        PoisonRow(k, Run(k, rest), e, id);
      }
      if Legal(Run(k, rest), e) && e.Handle? {
        assert Counted(Run(k, rest).rows, Head(Run(k, rest).phase));
      }
    }
  }

  /** In every run a poisoned row is pending or done, never failed or dead, and its handler never runs. */
  lemma {:induction false} PoisonedNeverDead(k: nat, es: seq<Event>, id: nat)
    requires id in Run(k, es).rows && Run(k, es).rows[id].crashCount >= POISON
    ensures Run(k, es).rows[id].status == Pending || Run(k, es).rows[id].status == Done
    ensures RunsOf(Run(k, es), id) == []
  {
    AlwaysPoisonsOk(k, es);
    assert PoisonOk(Run(k, es), id);
  }

  /** In every run a row becomes dead exactly when its handler has failed, the attempts that the record counts reach the
      limit with this one, and the write gets through; it is then not poisoned. */
  lemma {:induction false} DeadExactly(k: nat, es: seq<Event>, e: Event, id: nat)
    requires id in Run(k, es).rows && Run(k, es).rows[id].status != Dead
    ensures var s, s' := Run(k, es), Run(k, es + [e]);
            && id in s'.rows
            && (s'.rows[id].status == Dead <==> Marks(s, e, id) && !s.phase.ok && Head(s.phase).attempts + 1 >= k)
            && (s'.rows[id].status == Dead ==> s'.rows[id].crashCount < POISON)
  {
    RunSnoc(k, es, e);
    AlwaysSafe(k, es);
    AlwaysPoisonsOk(k, es);
    PoisonRow(k, Run(k, es), e, id);
    if Legal(Run(k, es), e) && e.Mark? {
      assert Counted(Run(k, es).rows, Head(Run(k, es).phase));
    }
  }

  // --- what a lost status write does --------------------------------------------------------

  lemma StuckStep(k: nat, s: State, e: Event, id: nat)
    requires Safe(s) && id in s.rows && s.rows[id].status == Pending && id <= s.saved
    ensures var s' := Step(k, s, e);
            id in s'.rows && s'.rows[id].status == Pending && id <= s'.saved && RunsOf(s', id) == RunsOf(s, id)
  {
  }

  /** A row that is pending behind the saved cursor stays so for ever: neither query ever returns it again. */
  lemma {:induction false} StuckForever(k: nat, es: seq<Event>, n: nat, id: nat)
    requires n <= |es| && id in Run(k, es[..n]).rows
    requires Run(k, es[..n]).rows[id].status == Pending && id <= Run(k, es[..n]).saved
    ensures var s := Run(k, es);
            id in s.rows && s.rows[id].status == Pending && id <= s.saved && RunsOf(s, id) == RunsOf(Run(k, es[..n]), id)
    decreases |es| - n
  {
    if n < |es| {
      var rest := es[..|es| - 1];
      assert rest[..n] == es[..n];
      StuckForever(k, rest, n, id);
      AlwaysSafe(k, rest);
      StuckStep(k, Run(k, rest), es[|es| - 1], id);
    } else {
      assert es[..n] == es;
    }
  }

  lemma RunSnoc(k: nat, es: seq<Event>, e: Event)
    ensures Run(k, es + [e]) == Step(k, Run(k, es), e)
  {
    assert (es + [e])[..|es|] == es;
  }

  function OneRow(crashCount: nat): Table {
    map[1 := Row(Pending, 0, None, crashCount)]
  }

  lemma OneAnswer(crashCount: nat)
    ensures MainAnswer(OneRow(crashCount), 0, 0, [Record(1, 0, crashCount)]) && SupplementAnswer(OneRow(crashCount), 0, 0, [], true)
  {
    assert [Record(1, 0, crashCount)][0].id == 1;
  }

  lemma OneFetched(k: nat, crashCount: nat) returns (es: seq<Event>)
    ensures Run(k, es) == State(OneRow(crashCount), 0, Busy(0, [Record(1, 0, crashCount)], [], 0), {}, map[], {})
  {
    RunSnoc(k, [], Insert(1, crashCount));
    es := [] + [Insert(1, crashCount)];
    assert Run(k, es) == State(OneRow(crashCount), 0, Down, {}, map[], {});
    RunSnoc(k, es, Boot);
    es := es + [Boot];
    assert Run(k, es) == State(OneRow(crashCount), 0, Idle(0), {}, map[], {});
    OneAnswer(crashCount);
    RunSnoc(k, es, Fetch(0, [Record(1, 0, crashCount)], [], true));
    es := es + [Fetch(0, [Record(1, 0, crashCount)], [], true)];
  }

  /** A poisoned row ends up done, without ever having been handled. */
  lemma PoisonedEndsDone(k: nat) returns (es: seq<Event>)
    ensures var s := Run(k, es);
            1 in s.rows && s.rows[1] == Row(Done, 0, None, POISON) && RunsOf(s, 1) == []
  {
    es := OneFetched(k, POISON);
    RunSnoc(k, es, Handle(0, false, true));
    es := es + [Handle(0, false, true)];
    assert {} + {1} == {1};
    assert Run(k, es) == State(OneRow(POISON), 0, Handled(0, [Record(1, 0, POISON)], [], 0, true), {1}, map[], {});
    RunSnoc(k, es, Mark(0, true));
    es := es + [Mark(0, true)];
  }

  lemma OneHandled(k: nat) returns (es: seq<Event>)
    ensures Run(k, es) == State(OneRow(0), 0, Handled(0, [Record(1, 0, 0)], [], 0, false), {1}, map[1 := [0]], {})
  {
    es := OneFetched(k, 0);
    RunSnoc(k, es, Handle(0, true, false));
    es := es + [Handle(0, true, false)];
    var none: map<nat, seq<int>>, first: seq<int> := map[], [];
    assert first + [0] == [0];
    assert {} + {1} == {1} && none[1 := first + [0]] == map[1 := [0]];
  }

  /** One failing status write is enough: here the handler fails, the write that should schedule the retry is lost, and
      the cursor moves past the row. */
  lemma OneLostWriteLosesARow(k: nat) returns (es: seq<Event>)
    ensures var s := Run(k, es);
            1 in s.rows && s.rows[1].status == Pending && s.saved == 1 && RunsOf(s, 1) == [0]
    ensures !EverMarked(k, es, 1)
  {
    es := OneHandled(k);
    RunSnoc(k, es, Mark(0, false));
    es := es + [Mark(0, false)];
    assert Run(k, es).phase == Busy(0, [], [], 1) && Run(k, es).rows == OneRow(0);
    RunSnoc(k, es, EndBatch);
    es := es + [EndBatch];
    RunSnoc(k, es, Save(true));
    es := es + [Save(true)];
    PendingExactly(k, es, 1);
  }
}
