/** How often and how soon a handler is retried, in runs without crashes and lost status writes. */
module OutboxRetries {
  import opened Options
  import opened OutboxRuns

  const LAST_GOOD := 50                         // attempts up to which the backoff fits into 64 bits
  const MAX_CLOCK := 3_500_000_000_000_000_000  // milliseconds; far beyond any wall clock

  lemma {:induction false} Pow2Grows(a: nat, b: nat)
    requires a <= b
    ensures 1 <= Pow2(a) <= Pow2(b)
    decreases b
  {
    if a < b {
      Pow2Grows(a, b - 1);
    } else if b > 0 {
      Pow2Grows(b - 1, b - 1);
    }
  }

  lemma Pow2Five(n: nat)
    ensures Pow2(n + 5) == 32 * Pow2(n)
  {
    assert Pow2(n + 2) == 4 * Pow2(n);
    assert Pow2(n + 4) == 4 * Pow2(n + 2);
  }

  lemma Pow2Fifty()
    ensures Pow2(50) == 1125899906842624 && Pow2(51) == 2251799813685248
  {
    Pow2Five(0);
    Pow2Five(5);
    Pow2Five(10);
    Pow2Five(15);
    Pow2Five(20);
    Pow2Five(25);
    Pow2Five(30);
    Pow2Five(35);
    Pow2Five(40);
    Pow2Five(45);
  }

  /** The 64-bit computation gives the intended backoff exactly up to 50 attempts. */
  lemma BackoffFits(a: nat)
    ensures Backoff(a) == Pow2(a) * 5000 <==> a <= 50
    ensures a <= 50 ==> Pow2(a) * 5000 + MAX_CLOCK < TWO_63
  {
    Pow2Fifty();
    if a <= 50 {
      Pow2Grows(a, 50);
    } else {
      Pow2Grows(51, a);
    }
  }

  lemma NegativeBackoff()
    ensures Backoff(51) < 0
  {
    Pow2Fifty();
  }

  // --- calm runs ----------------------------------------------------------------------------

  function TimeOf(e: Event, before: int): int {
    match e
    case Fetch(now, _, _, _) => now
    case Handle(now, _, _) => now
    case Mark(now, _) => now
    case _ => before
  }

  /** The last time read so far. */
  function Clock(es: seq<Event>): int {
    if es == [] then 0 else TimeOf(es[|es| - 1], Clock(es[..|es| - 1]))
  }

  /** No crash, no lost status write, and a clock that does not run backwards. */
  predicate Calm(es: seq<Event>) {
    es == [] || (
      var rest, e := es[..|es| - 1], es[|es| - 1];
      Calm(rest) && !e.Crash? && (e.Mark? ==> e.written) && Clock(rest) <= TimeOf(e, Clock(rest)) <= MAX_CLOCK)
  }

  /** The first fifty restarts of one handler keep at least the backoff between them. */
  predicate Spaced(rs: seq<int>) {
    forall j :: 0 < j < |rs| && j <= LAST_GOOD ==> GapAt(rs, j)
  }

  predicate GapAt(rs: seq<int>, j: nat)
    requires 0 < j < |rs|
  {
    rs[j] - rs[j - 1] >= Pow2(j) * 5000
  }

  predicate InHand(s: State, id: nat) {
    s.phase.Handled? && HasWork(s.phase) && Head(s.phase).id == id
  }

  /** A row and the starts of its handler: as many as failed attempts, one more while its outcome is not written. */
  ghost predicate RetryOk(k: nat, s: State, clock: int, id: nat)
    requires id in s.rows
  {
    var r, rs := s.rows[id], RunsOf(s, id);
    && Spaced(rs) && |rs| <= k
    && (rs != [] ==> rs[|rs| - 1] <= clock)
    && (r.status == Pending || r.status == Failed ==>
          && r.attempts < k
          && (if InHand(s, id) then r.attempts <= |rs| <= r.attempts + 1 && (!s.phase.ok ==> |rs| == r.attempts + 1)
              else |rs| == r.attempts)
          && (r.status == Pending ==> r.attempts == 0)
          && (rs != [] && |rs| == r.attempts ==>
                r.attempts <= LAST_GOOD ==>
                r.nextRetryAt.Some? && r.nextRetryAt.value >= rs[|rs| - 1] + Pow2(r.attempts) * 5000))
  }

  /** A fetched record still describes its row, which is open and due. */
  predicate Fresh(s: State, clock: int, rec: Record) {
    Snapshot(s.rows, rec) && (s.rows[rec.id].status == Pending || s.rows[rec.id].status == Failed) &&
    Due(s.rows[rec.id], clock)
  }

  ghost predicate AllFresh(s: State, clock: int, recs: seq<Record>) {
    forall i :: 0 <= i < |recs| ==> Fresh(s, clock, recs[i])
  }

  ghost predicate BatchFresh(s: State, clock: int) {
    s.phase.Busy? || s.phase.Handled? ==>
      && AllFresh(s, clock, s.phase.main) && AllFresh(s, clock, s.phase.supp)
      && Ascending(s.phase.main) && Ascending(s.phase.supp)
      && (forall i :: 0 <= i < |s.phase.main| ==> s.phase.main[i].id > s.phase.cursor)
      && (forall i :: 0 <= i < |s.phase.supp| ==> s.phase.supp[i].id <= s.phase.cursor)
  }

  ghost predicate Retrying(k: nat, s: State, clock: int) {
    (forall id :: id in s.rows ==> RetryOk(k, s, clock, id)) && BatchFresh(s, clock) &&
    (forall id :: id in s.runs ==> id in s.rows)
  }

  lemma SpacedSnoc(rs: seq<int>, now: int)
    requires Spaced(rs) && (rs != [] && |rs| <= LAST_GOOD ==> now >= rs[|rs| - 1] + Pow2(|rs|) * 5000)
    ensures Spaced(rs + [now])
  {
    var more := rs + [now];
    forall j | 0 < j < |more| && j <= LAST_GOOD ensures GapAt(more, j) {
      assert j < |rs| && j <= LAST_GOOD ==> GapAt(rs, j);
    }
  }

  lemma RetryHandle(k: nat, s: State, e: Event, clock: int, id: nat)
    requires Retrying(k, s, clock) && e.Handle? && Legal(s, e) && clock <= e.now && id in s.rows
    ensures RetryOk(k, Step(k, s, e), e.now, id)
  {
    assert RetryOk(k, s, clock, id);
    var head := Head(s.phase);
    assert Fresh(s, clock, head);
    if id == head.id && e.called {
      SpacedSnoc(RunsOf(s, id), e.now);
    }
  }

  lemma RetryMark(k: nat, s: State, e: Event, clock: int, id: nat)
    requires Retrying(k, s, clock) && e.Mark? && Legal(s, e) && e.written && clock <= e.now <= MAX_CLOCK && id in s.rows
    requires k > 0 && clock >= 0
    ensures RetryOk(k, Step(k, s, e), e.now, id)
  {
    assert RetryOk(k, s, clock, id);
    var head := Head(s.phase);
    assert Fresh(s, clock, head);
    MarkRow(k, s.rows[head.id], head, s.phase.ok, e.now);
  }

  /** The row that a status write leaves, with the wrap-around computed away. */
  lemma MarkRow(k: nat, r: Row, rec: Record, ok: bool, now: int)
    requires 0 <= now <= MAX_CLOCK
    ensures var r' := Marked(k, r, rec, ok, now);
            && (ok ==> r' == r.(status := Done))
            && (!ok ==> r'.attempts == rec.attempts + 1 && r'.status in {Dead, Failed})
            && (r'.status == Failed && !ok ==> r'.attempts < k)
            && (r'.status == Failed && !ok && r'.attempts <= LAST_GOOD ==> r'.nextRetryAt == Some(now + Pow2(r'.attempts) * 5000))
  {
    BackoffFits(rec.attempts + 1);
  }

  lemma {:induction false} FreshLater(s: State, clock: int, recs: seq<Record>, s': State, clock': int)
    requires AllFresh(s, clock, recs) && clock <= clock'
    requires forall i :: 0 <= i < |recs| ==> recs[i].id in s'.rows && s'.rows[recs[i].id] == s.rows[recs[i].id]
    ensures AllFresh(s', clock', recs)
  {
    forall i | 0 <= i < |recs| ensures Fresh(s', clock', recs[i]) {
      assert Fresh(s, clock, recs[i]);
    }
  }

  lemma BatchMark(k: nat, s: State, e: Event, clock: int)
    requires Retrying(k, s, clock) && e.Mark? && Legal(s, e) && e.written && clock <= e.now
    ensures BatchFresh(Step(k, s, e), e.now)
  {
    var s', p := Step(k, s, e), s.phase;
    if p.main != [] {
      FreshTail(s, clock, p.main);
      FreshLater(s, clock, p.main[1..], s', e.now);
      FreshLater(s, clock, p.supp, s', e.now);
      assert s'.phase.main == p.main[1..] && s'.phase.supp == p.supp;
    } else {
      FreshTail(s, clock, p.supp);
      FreshLater(s, clock, p.supp[1..], s', e.now);
      assert s'.phase.main == [] && s'.phase.supp == p.supp[1..];
    }
  }

  lemma FreshTail(s: State, clock: int, recs: seq<Record>)
    requires AllFresh(s, clock, recs) && Ascending(recs) && recs != []
    ensures recs[0].id in s.rows && AllFresh(s, clock, recs[1..]) && Ascending(recs[1..])
    ensures forall i :: 0 <= i < |recs[1..]| ==> recs[1..][i].id > recs[0].id
  {
    assert Fresh(s, clock, recs[0]);
  }

  lemma BatchOther(k: nat, s: State, e: Event, clock: int)
    requires Retrying(k, s, clock) && (e.Handle? || e.Insert? || e.Fetch?) && Legal(s, e) && clock <= TimeOf(e, clock)
    ensures BatchFresh(Step(k, s, e), TimeOf(e, clock))
  {
    var s', t := Step(k, s, e), TimeOf(e, clock);
    if s.phase.Busy? || s.phase.Handled? {
      assert forall i :: 0 <= i < |s.phase.main| ==> Fresh(s, clock, s.phase.main[i]);
      assert forall i :: 0 <= i < |s.phase.supp| ==> Fresh(s, clock, s.phase.supp[i]);
      FreshLater(s, clock, s.phase.main, s', t);
      FreshLater(s, clock, s.phase.supp, s', t);
    }
  }

  lemma RetryRest(k: nat, s: State, e: Event, clock: int, id: nat)
    requires Retrying(k, s, clock) && !e.Handle? && !e.Mark? && !e.Crash? && k > 0 && clock <= TimeOf(e, clock)
    requires id in Step(k, s, e).rows
    ensures RetryOk(k, Step(k, s, e), TimeOf(e, clock), id)
  {
    if id in s.rows {
      assert RetryOk(k, s, clock, id);
    }
  }

  lemma RetryingStep(k: nat, s: State, e: Event, clock: int)
    requires Retrying(k, s, clock) && Safe(s) && k > 0 && clock >= 0
    requires !e.Crash? && (e.Mark? ==> e.written) && clock <= TimeOf(e, clock) <= MAX_CLOCK
    ensures Retrying(k, Step(k, s, e), TimeOf(e, clock))
  {
    var s', t := Step(k, s, e), TimeOf(e, clock);
    if !Legal(s, e) {
      forall id | id in s.rows ensures RetryOk(k, s, t, id) {
        assert RetryOk(k, s, clock, id);
      }
      if s.phase.Busy? || s.phase.Handled? {
        FreshLater(s, clock, s.phase.main, s, t);
        FreshLater(s, clock, s.phase.supp, s, t);
      }
    } else {
      forall id | id in s'.rows ensures RetryOk(k, s', t, id) {
        match e {
          case Handle(_, _, _) => RetryHandle(k, s, e, clock, id);
          case Mark(_, _) => RetryMark(k, s, e, clock, id);
          case _ => RetryRest(k, s, e, clock, id);
        }
      }
      match e {
        case Mark(_, _) => BatchMark(k, s, e, clock);
        case Handle(_, _, _) => BatchOther(k, s, e, clock);
        case Insert(_, _) => BatchOther(k, s, e, clock);
        case Fetch(_, _, _, _) => BatchOther(k, s, e, clock);
        case _ =>
      }
    }
  }

  lemma {:induction false} AlwaysRetrying(k: nat, es: seq<Event>)
    requires Calm(es) && k > 0
    ensures Retrying(k, Run(k, es), Clock(es)) && Clock(es) >= 0
  {
    if es != [] {
      var rest := es[..|es| - 1];
      AlwaysRetrying(k, rest);
      AlwaysSafe(k, rest);
      RetryingStep(k, Run(k, rest), es[|es| - 1], Clock(rest));
    }
  }

  lemma {:induction false} SpacedTotal(rs: seq<int>, n: nat)
    requires Spaced(rs) && n < |rs| && n <= LAST_GOOD
    ensures rs[n] - rs[0] >= 5000 * (Pow2(n + 1) - 2)
    decreases n
  {
    if n > 0 {
      SpacedTotal(rs, n - 1);
      assert GapAt(rs, n);
    }
  }

  /** In a calm run a handler is called at most maxRetries times for one row. Up to the fifty-first call the waiting
      times add up; so for maxRetries up to 51 the last of all those calls starts at least 5000 * (2^maxRetries - 2)
      milliseconds after the first. */
  lemma RetriesAreBounded(k: nat, es: seq<Event>, id: nat)
    requires Calm(es) && k > 0 && id in Run(k, es).rows
    ensures var rs := RunsOf(Run(k, es), id);
            && |rs| <= k
            && (forall n: nat :: n < |rs| && n <= LAST_GOOD ==> rs[n] - rs[0] >= 5000 * (Pow2(n + 1) - 2))
            && (|rs| == k <= 51 ==> rs[k - 1] - rs[0] >= 5000 * (Pow2(k) - 2))
  {
    AlwaysRetrying(k, es);
    var rs := RunsOf(Run(k, es), id);
    assert RetryOk(k, Run(k, es), Clock(es), id);
    forall n: nat | n < |rs| && n <= LAST_GOOD ensures rs[n] - rs[0] >= 5000 * (Pow2(n + 1) - 2) {
      SpacedTotal(rs, n);
    }
  }

  /** The failure that calls for retry `a` leaves the row waiting for its backoff. */
  predicate Waits(k: nat, rec: Record, now: int) {
    var r := Marked(k, Row(Pending, 0, None, rec.crashCount), rec, false, now);
    r.status == Failed ==> r.nextRetryAt == Some(now + Pow2(rec.attempts + 1) * 5000)
  }

  /** The limit of 51 is exact: beyond it the fifty-first failure overflows, and the row is due again at once. */
  lemma WaitsExactly(k: nat)
    ensures (forall rec, now :: 0 <= now <= MAX_CLOCK ==> Waits(k, rec, now)) <==> k <= 51
    ensures k > 51 ==> Due(Marked(k, Row(Failed, 50, None, 0), Record(1, 50, 0), false, 0), 0)
  {
    forall rec: Record, now | 0 <= now <= MAX_CLOCK && k <= 51 ensures Waits(k, rec, now) {
      MarkRow(k, Row(Pending, 0, None, rec.crashCount), rec, false, now);
    }
    if k > 51 {
      NegativeBackoff();
      assert !Waits(k, Record(1, 50, 0), 0);
    }
  }
}
