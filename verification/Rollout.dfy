/** pkg/swarm/rollout_store.go and the rules in pkg/swarm/rollout.go: progressive rollout of agent versions. ConfirmShadow
    and AdvanceGate are a SELECT and a later UPDATE without a transaction: two steps, with anything in between. */
module Rollout {
  import opened Options

  type Version = string

  const SECOND := 1_000_000_000  // nanoseconds
  const DAY := 24 * 3600         // seconds
  const CANARY_STEPS: seq<int> := [1, 5, 25, 50, 100]

  datatype Status = Pending | Running | RolledBack | Committed

  datatype Row = Row(gate: int, percent: int, status: Status, evalScore: real, shadowOk: bool, lastAdvancedAt: int)

  type Table = map<Version, Row>

  datatype Stats = Stats(errorRate: real, baselineErrorRate: real, p95Latency: real, baselineP95Latency: real,
                         safetyViolations: int, surpriseIndexDegrade: bool)

  /** Whole seconds of an instant given in nanoseconds, as time.Unix stores them. */
  function Unix(now: int): int {
    now / SECOND
  }

  predicate HardStop(s: Stats) {
    s.errorRate > s.baselineErrorRate * 1.2 || s.p95Latency > s.baselineP95Latency * 1.4 ||
    s.safetyViolations > 0 || s.surpriseIndexDegrade
  }

  /** The least canary step above `percent`, or 100 when there is none. */
  function StepAbove(percent: int): int {
    if percent < 1 then 1 else if percent < 5 then 5 else if percent < 25 then 25 else if percent < 50 then 50 else 100
  }

  // --- the two halves of a call -------------------------------------------------------------

  /** What a call keeps in its hands between SELECT and UPDATE: the row as it has read it, and what it will do. */
  datatype Held =
    | Confirming(version: Version, row: Row)
    | Advancing(version: Version, row: Row, readAt: int)
    | Stopping(version: Version, row: Row)

  /** ConfirmShadow up to its UPDATE. */
  function ConfirmRead(t: Table, v: Version): Option<Held> {
    if v in t && t[v].gate == 1 then Some(Confirming(v, t[v])) else None
  }

  /** AdvanceGate up to its UPDATE. */
  function AdvanceRead(t: Table, v: Version, stats: Stats, now: int): Option<Held> {
    if v !in t || t[v].status == RolledBack || t[v].status == Committed then None
    else if HardStop(stats) then Some(Stopping(v, t[v]))
    else if t[v].gate <= 1 || now - t[v].lastAdvancedAt * SECOND < DAY * SECOND then None
    else Some(Advancing(v, t[v], now))
  }

  /** The UPDATE of a call on the row as it is by then. */
  function Rewritten(h: Held, r: Row, now: int): Row {
    match h
    case Confirming(_, _) => r.(shadowOk := true, gate := 2, percent := 5, status := Running, lastAdvancedAt := Unix(now))
    case Advancing(_, read, _) =>
      r.(gate := read.gate + 1, percent := StepAbove(read.percent),
         status := if StepAbove(read.percent) >= 100 then Committed else Running, lastAdvancedAt := Unix(now))
    case Stopping(_, _) => r.(status := RolledBack)
  }

  function WriteIn(t: Table, h: Held, now: int): Table {
    if h.version in t then t[h.version := Rewritten(h, t[h.version], now)] else t
  }

  function SubmitIn(t: Table, v: Version, now: int): Table {
    if v in t then t else t[v := Row(1, 1, Pending, -1.0, false, Unix(now))]
  }

  function RollBackIn(t: Table, v: Version): Table {
    if v in t then t[v := t[v].(status := RolledBack)] else t
  }

  function ScoreIn(t: Table, v: Version, passRate: real, baseline: real, now: int): Table {
    if passRate < baseline * 0.95 then RollBackIn(t, v)
    else if v in t && t[v].status == Pending then
      t[v := t[v].(evalScore := passRate, status := Running, lastAdvancedAt := Unix(now))]
    else t
  }

  // --- runs ---------------------------------------------------------------------------------

  datatype Event =
    | Submit(version: Version, now: int)
    | Score(version: Version, passRate: real, baseline: real, now: int)
    | RollBack(version: Version)
    | ReadConfirm(version: Version)
    | ReadAdvance(version: Version, stats: Stats, now: int)
    | Write(call: nat, now: int)  // the UPDATE of a call, with the time it has taken for last_advanced_at

  /** Calls are numbered in the order of their SELECTs; `held` are those that will still write. */
  datatype State = State(rows: Table, held: map<nat, Held>, calls: nat)

  function Begin(s: State, h: Option<Held>): State {
    s.(held := if h.Some? then s.held[s.calls := h.value] else s.held, calls := s.calls + 1)
  }

  /** The call is between its SELECT and its UPDATE, and its clock has not run backwards. */
  predicate Live(s: State, e: Event) {
    e.Write? && e.call in s.held && (s.held[e.call].Advancing? ==> s.held[e.call].readAt <= e.now)
  }

  function Apply(s: State, e: Event): State {
    match e
    case Submit(v, now) => s.(rows := SubmitIn(s.rows, v, now))
    case Score(v, passRate, baseline, now) => s.(rows := ScoreIn(s.rows, v, passRate, baseline, now))
    case RollBack(v) => s.(rows := RollBackIn(s.rows, v))
    case ReadConfirm(v) => Begin(s, ConfirmRead(s.rows, v))
    case ReadAdvance(v, stats, now) => Begin(s, AdvanceRead(s.rows, v, stats, now))
    case Write(call, now) =>
      if Live(s, e) then s.(rows := WriteIn(s.rows, s.held[call], now), held := s.held - {call}) else s
  }

  function Run(es: seq<Event>): State {
    if es == [] then State(map[], map[], 0) else Apply(Run(es[..|es| - 1]), es[|es| - 1])
  }

  lemma RunSnoc(es: seq<Event>, e: Event)
    ensures Run(es + [e]) == Apply(Run(es), e)
  {
    assert (es + [e])[..|es|] == es;
  }

  lemma {:induction false} RowsStay(es: seq<Event>, k: nat, v: Version)
    requires k <= |es| && v in Run(es[..k]).rows
    ensures v in Run(es).rows
    decreases |es| - k
  {
    if k < |es| {
      assert es[..|es| - 1][..k] == es[..k];
      RowsStay(es[..|es| - 1], k, v);
    } else {
      assert es[..k] == es;
    }
  }

  // --- the store ----------------------------------------------------------------------------

  class SQLiteRolloutStore {
    var rows: Table

    constructor ()
      ensures rows == map[]
    {
      rows := map[];
    }

    method SubmitCandidate(version: Version, now: int)
      modifies this
      ensures rows == if version in old(rows) then old(rows) else old(rows)[version := Row(1, 1, Pending, -1.0, false, Unix(now))]
    {
      if version !in rows {
        rows := rows[version := Row(1, 1, Pending, -1.0, false, Unix(now))];
      }
    }

    method RecordEvalScore(version: Version, passRate: real, baseline: real, now: int)
      modifies this
      ensures rows == ScoreIn(old(rows), version, passRate, baseline, now) && rows.Keys == old(rows).Keys
      ensures forall v :: v in rows && v != version ==> rows[v] == old(rows)[v]
      ensures version in rows ==>
                var before := old(rows)[version];
                rows[version] == if passRate < baseline * 0.95 then before.(status := RolledBack)
                                 else if before.status != Pending then before
                                 else before.(evalScore := passRate, status := Running, lastAdvancedAt := Unix(now))
    {
      if passRate < baseline * 0.95 {
        Rollback(version);
      } else if version in rows && rows[version].status == Pending {
        rows := rows[version := rows[version].(evalScore := passRate, status := Running, lastAdvancedAt := Unix(now))];
      }
    }

    method Rollback(version: Version)
      modifies this
      ensures rows == RollBackIn(old(rows), version)
    {
      if version in rows {
        rows := rows[version := rows[version].(status := RolledBack)];
      }
    }

    /** `found` is false when the version is unknown, which the source reports as an error. */
    method SelectForConfirm(version: Version) returns (found: bool, h: Option<Held>)
      ensures found == (version in rows) && h == ConfirmRead(rows, version)
      ensures h.Some? <==> version in rows && rows[version].gate == 1
    {
      if version !in rows { return false, None; }
      var state := rows[version];
      if state.gate != 1 { return true, None; }
      return true, Some(Confirming(version, state));
    }

    method SelectForAdvance(version: Version, stats: Stats, now: int) returns (found: bool, h: Option<Held>)
      ensures found == (version in rows) && h == AdvanceRead(rows, version, stats, now)
      ensures var bad := stats.errorRate > stats.baselineErrorRate * 1.2 || stats.p95Latency > stats.baselineP95Latency * 1.4 ||
                         stats.safetyViolations > 0 || stats.surpriseIndexDegrade;
              var open := version in rows && rows[version].status in {Pending, Running};
              var rested := open && rows[version].gate >= 2 && now - rows[version].lastAdvancedAt * SECOND >= DAY * SECOND;
              && (h.Some? && h.value.Stopping? <==> open && bad)
              && (h.Some? && h.value.Advancing? <==> rested && !bad)
    {
      if version !in rows { return false, None; }
      var state := rows[version];
      if state.status == RolledBack || state.status == Committed { return true, None; }
      if HardStop(stats) { return true, Some(Stopping(version, state)); }
      if state.gate <= 1 { return true, None; }
      if now - state.lastAdvancedAt * SECOND < DAY * SECOND { return true, None; }
      return true, Some(Advancing(version, state, now));
    }

    method Update(h: Held, now: int)
      modifies this
      ensures rows == WriteIn(old(rows), h, now)
    {
      if h.version !in rows { return; }
      var row := rows[h.version];
      match h {
        case Confirming(_, _) =>
          row := row.(shadowOk := true, gate := 2, percent := 5, status := Running, lastAdvancedAt := Unix(now));
        case Advancing(_, state, _) =>
          var nextPercent, nextGate := NextStep(state.percent, state.gate);
          var newStatus := Running;
          if nextPercent >= 100 { newStatus := Committed; }
          row := row.(gate := nextGate, percent := nextPercent, status := newStatus, lastAdvancedAt := Unix(now));
        case Stopping(_, _) =>
          row := row.(status := RolledBack);
      }
      rows := rows[h.version := row];
    }

    /** Other calls may do anything to the table between two statements. */
    method OtherCalls()
      modifies this
    {
      rows := *;
    }

    /** The UPDATE overwrites whatever has become of the row since the SELECT. */
    method ConfirmShadow(version: Version, now: int) returns (found: bool)
      modifies this
      ensures found == (version in old(rows))
      ensures var h := ConfirmRead(old(rows), version);
              if h.None? then rows == old(rows)
              else version in rows ==> rows[version] == Rewritten(h.value, rows[version], now)
      ensures version in old(rows) && old(rows)[version].gate == 1 && version in rows ==>
                rows[version].gate == 2 && rows[version].percent == 5 && rows[version].status == Running && rows[version].shadowOk
    {
      var h;
      found, h := SelectForConfirm(version);
      if h.None? { return; }
      OtherCalls();
      Update(h.value, now);
    }

    method AdvanceGate(version: Version, stats: Stats, now: int, later: int) returns (found: bool)
      modifies this
      ensures found == (version in old(rows))
      ensures var h := AdvanceRead(old(rows), version, stats, now);
              if h.None? then rows == old(rows)
              else version in rows ==> rows[version] == Rewritten(h.value, rows[version], later)
      ensures version in old(rows) && old(rows)[version].status in {Pending, Running} && HardStop(stats) && version in rows ==>
                rows[version].status == RolledBack
    {
      var h;
      found, h := SelectForAdvance(version, stats, now);
      if h.None? { return; }
      OtherCalls();
      Update(h.value, later);
    }

    method NextStep(currentPercent: int, currentGate: int) returns (percent: int, gate: int)
      ensures percent == StepAbove(currentPercent) && gate == currentGate + 1
    {
      var steps := CANARY_STEPS;
      for k := 0 to |steps|
        invariant forall j :: 0 <= j < k ==> steps[j] <= currentPercent
      {
        if steps[k] > currentPercent {
          assert k > 0 ==> steps[k - 1] <= currentPercent;
          return steps[k], currentGate + 1;
        }
      }
      assert steps[4] <= currentPercent;
      return 100, currentGate + 1;
    }
  }

  // --- gates, percentages and days ----------------------------------------------------------

  /** Every ConfirmShadow of the version writes in second `since` or later. */
  ghost predicate OpenedFrom(es: seq<Event>, v: Version, since: int) {
    forall m :: 0 <= m < |es| ==> OpensFrom(Run(es[..m]), es[m], v, since)
  }

  predicate OpensFrom(s: State, e: Event, v: Version, since: int) {
    Live(s, e) && s.held[e.call].Confirming? && s.held[e.call].version == v ==> Unix(e.now) >= since
  }

  /** Gate and percentage move together, and every gate above 2 has cost a day. */
  ghost predicate RowOk(r: Row, since: int) {
    && 1 <= r.gate <= 5 && r.percent == CANARY_STEPS[r.gate - 1]
    && (r.status == Pending ==> r.gate == 1)
    && (r.gate == 5 ==> r.status == Committed || r.status == RolledBack) && (r.status == Committed ==> r.gate == 5)
    && (r.gate >= 2 ==> r.lastAdvancedAt >= since + (r.gate - 2) * DAY)
  }

  ghost predicate HeldOk(h: Held, since: int) {
    match h
    case Confirming(_, r) => r.gate == 1
    case Advancing(_, r, readAt) => RowOk(r, since) && 2 <= r.gate <= 4 && readAt - r.lastAdvancedAt * SECOND >= DAY * SECOND
    case Stopping(_, _) => true
  }

  ghost predicate StateOk(s: State, v: Version, since: int) {
    && (v in s.rows ==> RowOk(s.rows[v], since))
    && (forall call :: call in s.held && s.held[call].version == v ==> HeldOk(s.held[call], since))
    && (forall call :: call in s.held ==> call < s.calls && s.held[call].version in s.rows)
  }

  lemma RewriteOk(h: Held, r: Row, now: int, since: int)
    requires RowOk(r, since) && HeldOk(h, since)
    requires h.Advancing? ==> h.readAt <= now
    requires h.Confirming? ==> Unix(now) >= since
    ensures RowOk(Rewritten(h, r, now), since)
  {
    if h.Advancing? {
      assert Unix(now) >= h.row.lastAdvancedAt + DAY;
    }
  }

  lemma StepOk(s: State, e: Event, v: Version, since: int)
    requires StateOk(s, v, since) && OpensFrom(s, e, v, since)
    ensures StateOk(Apply(s, e), v, since)
  {
    if Live(s, e) && s.held[e.call].version == v {
      RewriteOk(s.held[e.call], s.rows[v], e.now, since);
    }
  }

  lemma {:induction false} AlwaysOk(es: seq<Event>, v: Version, since: int)
    requires OpenedFrom(es, v, since)
    ensures StateOk(Run(es), v, since)
  {
    if es != [] {
      var rest := es[..|es| - 1];
      assert forall m :: 0 <= m < |rest| ==> rest[..m] == es[..m] && rest[m] == es[m];
      AlwaysOk(rest, v, since);
      StepOk(Run(rest), es[|es| - 1], v, since);
    }
  }

  /** Some second no ConfirmShadow of a run comes before. */
  lemma {:induction false} SomeSince(es: seq<Event>, v: Version) returns (since: int)
    ensures OpenedFrom(es, v, since)
  {
    since := 0;
    if es != [] {
      var rest, e := es[..|es| - 1], es[|es| - 1];
      since := SomeSince(rest, v);
      if e.Write? && Unix(e.now) < since { since := Unix(e.now); }
      forall m | 0 <= m < |es| ensures OpensFrom(Run(es[..m]), es[m], v, since) {
        if m < |rest| {
          assert rest[..m] == es[..m] && rest[m] == es[m];
        }
      }
    }
  }

  /** In every run a version is committed exactly if it has all the traffic and is not rolled back. */
  lemma {:induction false} CommittedExactly(es: seq<Event>, v: Version)
    requires v in Run(es).rows
    ensures Run(es).rows[v].status == Committed <==> Run(es).rows[v].percent == 100 && Run(es).rows[v].status != RolledBack
  {
    var since := SomeSince(es, v);
    AlwaysOk(es, v, since);
  }

  /** In every run, overlapping calls or not, the percentage is the one the gate stands for. */
  lemma {:induction false} PercentFollowsGate(es: seq<Event>, v: Version)
    requires v in Run(es).rows
    ensures 1 <= Run(es).rows[v].gate <= 5 && Run(es).rows[v].percent == CANARY_STEPS[Run(es).rows[v].gate - 1]
  {
    var since := SomeSince(es, v);
    AlwaysOk(es, v, since);
  }

  lemma OpenedFromFront(es: seq<Event>, e: Event, v: Version, since: int)
    requires OpenedFrom(es + [e], v, since)
    ensures OpenedFrom(es, v, since)
  {
    forall m | 0 <= m < |es| ensures OpensFrom(Run(es[..m]), es[m], v, since) {
      assert (es + [e])[..m] == es[..m] && (es + [e])[m] == es[m];
    }
  }

  lemma FullStep(s: State, e: Event, v: Version, since: int)
    requires StateOk(s, v, since) && v in s.rows && s.rows[v].percent < 100
    requires v in Apply(s, e).rows && Apply(s, e).rows[v].percent >= 100
    ensures Live(s, e) && s.held[e.call].Advancing? && s.held[e.call].version == v && Unix(e.now) >= since + 3 * DAY
  {
    if Live(s, e) && s.held[e.call].version == v && s.held[e.call].Advancing? {
      assert s.held[e.call].row.gate == 4;
    }
  }

  /** In every run, overlapping calls or not, all traffic is reached no earlier than three days after the second of the
      earliest ConfirmShadow. */
  lemma {:induction false} FullTrafficTakesThreeDays(es: seq<Event>, e: Event, v: Version, since: int)
    requires OpenedFrom(es + [e], v, since)
    requires v in Run(es).rows && Run(es).rows[v].percent < 100
    requires v in Run(es + [e]).rows && Run(es + [e]).rows[v].percent >= 100
    ensures Live(Run(es), e) && Run(es).held[e.call].Advancing? && Run(es).held[e.call].version == v
    ensures Unix(e.now) >= since + 3 * DAY
  {
    RunSnoc(es, e);
    OpenedFromFront(es, e, v, since);
    AlwaysOk(es, v, since);
    FullStep(Run(es), e, v, since);
  }

  // --- when a gate falls --------------------------------------------------------------------

  /** A live write of the version by a call that has read its row two gates or more below the present one. */
  predicate Late(s: State, e: Event, v: Version) {
    Live(s, e) && s.held[e.call].version == v && !s.held[e.call].Stopping? && v in s.rows &&
    s.rows[v].gate >= s.held[e.call].row.gate + 2
  }

  ghost predicate LateAt(es: seq<Event>, m: int, v: Version) {
    0 <= m < |es| && Late(Run(es[..m]), es[m], v)
  }

  /** One step lowers gate and percentage exactly if it is such a late write. */
  lemma {:induction false} DropsExactly(es: seq<Event>, e: Event, v: Version)
    requires v in Run(es).rows
    ensures v in Run(es + [e]).rows
    ensures Run(es + [e]).rows[v].gate < Run(es).rows[v].gate <==> Late(Run(es), e, v)
    ensures Run(es + [e]).rows[v].percent < Run(es).rows[v].percent <==> Late(Run(es), e, v)
  {
    RunSnoc(es, e);
    var since := SomeSince(es, v);
    AlwaysOk(es, v, since);
    PercentFollowsGate(es, v);
    PercentFollowsGate(es + [e], v);
  }

  ghost predicate FallsBetween(es: seq<Event>, m: int, n: int, v: Version) {
    0 <= m <= n <= |es| && v in Run(es[..m]).rows && v in Run(es[..n]).rows && Run(es[..n]).rows[v].gate < Run(es[..m]).rows[v].gate
  }

  lemma {:induction false} RisesWithoutLateWrites(es: seq<Event>, m: nat, n: nat, v: Version)
    requires m <= n <= |es| && v in Run(es[..m]).rows
    requires forall x :: m <= x < n ==> !LateAt(es, x, v)
    ensures v in Run(es[..n]).rows && Run(es[..m]).rows[v].gate <= Run(es[..n]).rows[v].gate
    decreases n - m
  {
    if m < n {
      RisesWithoutLateWrites(es, m, n - 1, v);
      assert es[..n] == es[..n - 1] + [es[n - 1]];
      DropsExactly(es[..n - 1], es[n - 1], v);
      assert !LateAt(es, n - 1, v);
    }
  }

  /** In every run: the gate of a version ever falls after position `k` exactly if a late write happens after it. */
  lemma {:induction false} FallsExactly(es: seq<Event>, k: nat, v: Version)
    requires k <= |es| && v in Run(es[..k]).rows
    ensures (exists m, n :: k <= m && FallsBetween(es, m, n, v)) <==> exists m :: k <= m && LateAt(es, m, v)
  {
    if m :| k <= m && LateAt(es, m, v) {
      assert es[..m + 1] == es[..m] + [es[m]];
      DropsExactly(es[..m], es[m], v);
      assert FallsBetween(es, m, m + 1, v);
    } else {
      forall m: nat, n: nat | k <= m ensures !FallsBetween(es, m, n, v) {
        if m <= n <= |es| && v in Run(es[..m]).rows {
          RisesWithoutLateWrites(es, m, n, v);
        }
      }
    }
  }

  /** A call holds the row as it stood when the call read it. */
  lemma {:induction false} HeldWasRead(es: seq<Event>, call: nat) returns (p: nat)
    requires call in Run(es).held
    ensures p < |es| && Run(es[..p]).calls == call && (es[p].ReadConfirm? || es[p].ReadAdvance?)
    ensures var h := Run(es).held[call];
            es[p].version == h.version && h.version in Run(es[..p]).rows && h.row == Run(es[..p]).rows[h.version]
    ensures Run(es).held[call].Advancing? ==> es[p].ReadAdvance? && Run(es).held[call].readAt == es[p].now && !HardStop(es[p].stats)
    ensures Run(es).held[call].Stopping? ==> es[p].ReadAdvance? && HardStop(es[p].stats)
    ensures Run(es).held[call].Confirming? ==> es[p].ReadConfirm?
    decreases |es|
  {
    var rest, e := es[..|es| - 1], es[|es| - 1];
    if call in Run(rest).held && Run(rest).held[call] == Run(es).held[call] {
      p := HeldWasRead(rest, call);
      assert rest[..p] == es[..p];
    } else {
      p := |es| - 1;
    }
  }

  // --- what rolls a version back ------------------------------------------------------------

  /** A rollback, a score below 95 percent of the baseline, or the write of a call that has found a hard stop. */
  predicate RollsBack(s: State, e: Event, v: Version) {
    v in s.rows && (
    || e == RollBack(v)
    || (e.Score? && e.version == v && e.passRate < e.baseline * 0.95)
    || (Live(s, e) && s.held[e.call].version == v && s.held[e.call].Stopping?))
  }

  /** The write of a ConfirmShadow or of an AdvanceGate that goes on. */
  predicate GoesOn(s: State, e: Event, v: Version) {
    Live(s, e) && s.held[e.call].version == v && !s.held[e.call].Stopping?
  }

  ghost predicate RollsBackAt(es: seq<Event>, m: int, v: Version) {
    0 <= m < |es| && RollsBack(Run(es[..m]), es[m], v)
  }

  ghost predicate GoesOnAt(es: seq<Event>, m: int, v: Version) {
    0 <= m < |es| && GoesOn(Run(es[..m]), es[m], v)
  }

  /** Rolled back at event `m`, and nothing has gone on since. */
  ghost predicate OutSince(es: seq<Event>, m: int, v: Version) {
    RollsBackAt(es, m, v) && forall n :: m < n < |es| ==> !GoesOnAt(es, n, v)
  }

  lemma OutSinceSnoc(es: seq<Event>, e: Event, m: int, v: Version)
    ensures OutSince(es + [e], m, v) <==>
              (m == |es| && RollsBack(Run(es), e, v)) || (OutSince(es, m, v) && !GoesOn(Run(es), e, v))
  {
    var more := es + [e];
    assert more[..|es|] == es && more[|es|] == e;
    forall n | 0 <= n < |es| ensures RollsBackAt(more, n, v) == RollsBackAt(es, n, v) && GoesOnAt(more, n, v) == GoesOnAt(es, n, v) {
      assert more[..n] == es[..n];
    }
    assert GoesOnAt(more, |es|, v) <==> GoesOn(Run(es), e, v);
    assert RollsBackAt(more, |es|, v) <==> RollsBack(Run(es), e, v);
    assert !RollsBackAt(es, |es|, v);
    if OutSince(more, m, v) && m < |es| {
      assert forall n :: m < n < |es| ==> !GoesOnAt(more, n, v);
    }
  }

  lemma RollsBackStep(s: State, e: Event, v: Version)
    ensures v in Apply(s, e).rows && Apply(s, e).rows[v].status == RolledBack <==>
              RollsBack(s, e, v) || (v in s.rows && s.rows[v].status == RolledBack && !GoesOn(s, e, v))
  {
  }

  /** In every run: a version is rolled back exactly if a rollback, a score below 95 percent of the baseline or a hard stop
      has put it out, and no ConfirmShadow or AdvanceGate has written since. */
  lemma {:induction false} RolledBackExactly(es: seq<Event>, v: Version)
    ensures v in Run(es).rows && Run(es).rows[v].status == RolledBack <==> exists m :: OutSince(es, m, v)
  {
    if es != [] {
      var rest, e := es[..|es| - 1], es[|es| - 1];
      assert es == rest + [e];
      RolledBackExactly(rest, v);
      RollsBackStep(Run(rest), e, v);
      forall m ensures OutSince(es, m, v) <==> (m == |rest| && RollsBack(Run(rest), e, v)) || (OutSince(rest, m, v) && !GoesOn(Run(rest), e, v)) {
        OutSinceSnoc(rest, e, m, v);
      }
      if RollsBack(Run(rest), e, v) {
        assert OutSince(es, |rest|, v);
      }
    }
  }

  /** An AdvanceGate that finds a version running or pending and its metrics too bad puts it out when it writes, whatever has
      happened in between. */
  lemma HardStopRollsBack(es: seq<Event>, v: Version, stats: Stats, now: int, later: seq<Event>, e: Event)
    requires v in Run(es).rows && Run(es).rows[v].status in {Pending, Running}
    requires stats.errorRate > stats.baselineErrorRate * 1.2 || stats.p95Latency > stats.baselineP95Latency * 1.4 ||
             stats.safetyViolations > 0 || stats.surpriseIndexDegrade
    requires e.Write? && e.call == Run(es).calls && forall m :: 0 <= m < |later| && later[m].Write? ==> later[m].call != e.call
    ensures var all := es + [ReadAdvance(v, stats, now)] + later + [e];
            v in Run(all).rows && Run(all).rows[v].status == RolledBack
  {
    var read := es + [ReadAdvance(v, stats, now)];
    RunSnoc(es, ReadAdvance(v, stats, now));
    StillHolds(read, later, e.call, Stopping(v, Run(es).rows[v]));
    assert read[..|read|] == read && (read + later)[..|read|] == read;
    RowsStay(read + later, |read|, v);
    RunSnoc(read + later, e);
  }

  /** Until it writes, a call holds what it has read. */
  lemma {:induction false} StillHolds(es: seq<Event>, later: seq<Event>, call: nat, h: Held)
    requires call in Run(es).held && Run(es).held[call] == h && call < Run(es).calls
    requires forall m :: 0 <= m < |later| && later[m].Write? ==> later[m].call != call
    ensures call in Run(es + later).held && Run(es + later).held[call] == h && call < Run(es + later).calls
    decreases |later|
  {
    if later == [] {
      assert es + later == es;
    } else {
      var n := |later| - 1;
      StillHolds(es, later[..n], call, h);
      assert es + later == (es + later[..n]) + [later[n]];
      RunSnoc(es + later[..n], later[n]);
    }
  }

  // --- when a rolled back version comes back -------------------------------------------------

  /** A write by a ConfirmShadow or an AdvanceGate that made its decision before position `k`. */
  predicate Stale(s: State, e: Event, calls: nat, v: Version) {
    Live(s, e) && s.held[e.call].version == v && !s.held[e.call].Stopping? && e.call < calls
  }

  ghost predicate StaleAt(es: seq<Event>, m: int, k: nat, v: Version)
    requires k <= |es|
  {
    k <= m < |es| && Stale(Run(es[..m]), es[m], Run(es[..k]).calls, v)
  }

  ghost predicate BackAt(es: seq<Event>, n: int, v: Version) {
    0 <= n <= |es| && v in Run(es[..n]).rows && Run(es[..n]).rows[v].status != RolledBack
  }

  /** Rolled back beyond gate 1, and no call begun since means to write the version. */
  ghost predicate Out(s: State, calls: nat, v: Version) {
    && v in s.rows && s.rows[v].status == RolledBack && s.rows[v].gate >= 2
    && (forall call :: call in s.held && s.held[call].version == v && !s.held[call].Stopping? ==> call < calls)
  }

  lemma StaysOut(s: State, e: Event, calls: nat, v: Version)
    requires Out(s, calls, v) && !Stale(s, e, calls, v)
    ensures Out(Apply(s, e), calls, v)
  {
  }

  lemma {:induction false} OutUntilStale(es: seq<Event>, k: nat, n: nat, v: Version)
    requires k <= n <= |es| && Out(Run(es[..k]), Run(es[..k]).calls, v)
    requires forall m :: k <= m < n ==> !StaleAt(es, m, k, v)
    ensures Out(Run(es[..n]), Run(es[..k]).calls, v)
    decreases n - k
  {
    if k < n {
      OutUntilStale(es, k, n - 1, v);
      assert es[..n] == es[..n - 1] + [es[n - 1]];
      RunSnoc(es[..n - 1], es[n - 1]);
      assert !StaleAt(es, n - 1, k, v);
      StaysOut(Run(es[..n - 1]), es[n - 1], Run(es[..k]).calls, v);
    }
  }

  lemma StaleRevives(s: State, e: Event, calls: nat, v: Version)
    requires Stale(s, e, calls, v) && v in s.rows
    ensures v in Apply(s, e).rows && Apply(s, e).rows[v].status != RolledBack
  {
  }

  /** In every run: a version rolled back at gate 2 or above comes back exactly if a ConfirmShadow or an AdvanceGate that
      decided before that point writes after it. */
  lemma {:induction false} RevivedExactly(es: seq<Event>, k: nat, v: Version)
    requires k <= |es| && v in Run(es[..k]).rows && Run(es[..k]).rows[v].status == RolledBack && Run(es[..k]).rows[v].gate >= 2
    ensures (exists n :: k <= n && BackAt(es, n, v)) <==> exists m :: StaleAt(es, m, k, v)
  {
    var since := SomeSince(es[..k], v);
    AlwaysOk(es[..k], v, since);
    assert Out(Run(es[..k]), Run(es[..k]).calls, v);
    if m :| StaleAt(es, m, k, v) {
      assert es[..m][..k] == es[..k];
      RowsStay(es[..m], k, v);
      assert es[..m + 1] == es[..m] + [es[m]];
      RunSnoc(es[..m], es[m]);
      StaleRevives(Run(es[..m]), es[m], Run(es[..k]).calls, v);
      assert BackAt(es, m + 1, v);
    } else {
      forall n: nat | k <= n ensures !BackAt(es, n, v) {
        if n <= |es| {
          OutUntilStale(es, k, n, v);
        }
      }
    }
  }

  /** At gate 1 a rollback is never final: the next ConfirmShadow undoes it. */
  lemma GateOneComesBack(es: seq<Event>, v: Version, now: int)
    requires v in Run(es).rows && Run(es).rows[v].gate == 1
    ensures var more := es + [ReadConfirm(v)] + [Write(Run(es).calls, now)];
            v in Run(more).rows && Run(more).rows[v].status == Running && Run(more).rows[v].gate == 2
  {
    RunSnoc(es, ReadConfirm(v));
    RunSnoc(es + [ReadConfirm(v)], Write(Run(es).calls, now));
  }

  // --- calls that do not overlap ------------------------------------------------------------

  /** Every UPDATE follows directly upon the SELECT of its call. */
  ghost predicate OneByOne(es: seq<Event>) {
    forall m :: 0 <= m < |es| && es[m].Write? ==>
      m > 0 && (es[m - 1].ReadConfirm? || es[m - 1].ReadAdvance?) && es[m].call == Run(es[..m - 1]).calls
  }

  lemma {:induction false} CallsGrow(es: seq<Event>, k: nat)
    requires k <= |es|
    ensures Run(es[..k]).calls <= Run(es).calls
    decreases |es| - k
  {
    if k < |es| {
      assert es[..|es| - 1][..k] == es[..k];
      CallsGrow(es[..|es| - 1], k);
    } else {
      assert es[..k] == es;
    }
  }

  /** A write that follows upon its SELECT meets the row it has read. */
  lemma {:induction false} FreshWrite(es: seq<Event>, m: nat)
    requires OneByOne(es) && m < |es| && Live(Run(es[..m]), es[m])
    ensures var s, s' := Run(es[..m - 1]), Run(es[..m]);
            && m > 0 && s'.rows == s.rows && es[m].call == s.calls
            && var h := s'.held[es[m].call];
               h.version in s.rows && h.row == s.rows[h.version] && (!h.Stopping? ==> h.row.gate == 1 || h.row.status != RolledBack)
  {
    assert es[..m] == es[..m - 1] + [es[m - 1]];
    RunSnoc(es[..m - 1], es[m - 1]);
    AlwaysBelow(es[..m - 1]);
  }

  lemma {:induction false} AlwaysBelow(es: seq<Event>)
    ensures forall call :: call in Run(es).held ==> call < Run(es).calls
  {
    if es != [] {
      AlwaysBelow(es[..|es| - 1]);
    }
  }

  /** When calls do not overlap, neither gate nor percentage ever falls. */
  lemma {:induction false} OneByOneNeverFalls(es: seq<Event>, m: nat, n: nat, v: Version)
    requires OneByOne(es) && m <= n <= |es| && v in Run(es[..m]).rows
    ensures v in Run(es[..n]).rows && Run(es[..m]).rows[v].gate <= Run(es[..n]).rows[v].gate
    ensures Run(es[..m]).rows[v].percent <= Run(es[..n]).rows[v].percent
  {
    forall x | m <= x < n ensures !LateAt(es, x, v) {
      if Live(Run(es[..x]), es[x]) {
        FreshWrite(es, x);
      }
    }
    RisesWithoutLateWrites(es, m, n, v);
    PercentFollowsGate(es[..m], v);
    PercentFollowsGate(es[..n], v);
  }

  /** And from gate 2 on a rollback is final. */
  lemma {:induction false} OneByOneStaysOut(es: seq<Event>, k: nat, n: nat, v: Version)
    requires OneByOne(es) && k <= n <= |es| && v in Run(es[..k]).rows
    requires Run(es[..k]).rows[v].status == RolledBack && Run(es[..k]).rows[v].gate >= 2
    ensures v in Run(es[..n]).rows && Run(es[..n]).rows[v].status == RolledBack
  {
    forall m ensures !StaleAt(es, m, k, v) {
      if k <= m < |es| && Live(Run(es[..m]), es[m]) {
        FreshWrite(es, m);
        if m > k {
          assert es[..m - 1][..k] == es[..k];
          CallsGrow(es[..m - 1], k);
        }
      }
    }
    RevivedExactly(es, k, v);
    assert es[..n][..k] == es[..k];
    RowsStay(es[..n], k, v);
    assert !BackAt(es, n, v);
  }

  // --- concrete runs ------------------------------------------------------------------------

  const CALM := Stats(0.0, 0.0, 0.0, 0.0, 0, false)

  function At(gate: int, percent: int, status: Status, last: int): Row {
    Row(gate, percent, status, -1.0, true, last)
  }

  /** Submitted, and gate 2 opened at instant `opening`. */
  lemma Opened(opening: int) returns (es: seq<Event>)
    ensures Run(es) == State(map["v" := At(2, 5, Running, Unix(opening))], map[], 1)
    ensures OneByOne(es) && OpenedFrom(es, "v", Unix(opening))
  {
    var e0, e1, e2 := Submit("v", opening), ReadConfirm("v"), Write(0, opening);
    es := [e0, e1, e2];
    RunSnoc([], e0);
    RunSnoc([e0], e1);
    RunSnoc([e0, e1], e2);
    assert [] + [e0] == [e0] && [e0] + [e1] == [e0, e1] && [e0, e1] + [e2] == es;
    assert es[..0] == [] && es[..1] == [e0] && es[..2] == [e0, e1];
    var row := Row(1, 1, Pending, -1.0, false, Unix(opening));
    assert Run([e0]) == State(map["v" := row], map[], 0);
    assert Run([e0, e1]) == State(map["v" := row], map[0 := Confirming("v", row)], 1);
  }

  lemma Reads(es: seq<Event>, row: Row, now: int) returns (more: seq<Event>)
    requires Run(es).rows == map["v" := row] && 2 <= row.gate <= 4 && row.status == Running
    requires now == (row.lastAdvancedAt + DAY) * SECOND
    ensures more == es + [ReadAdvance("v", CALM, now)]
    ensures Run(more) == State(map["v" := row], Run(es).held[Run(es).calls := Advancing("v", row, now)], Run(es).calls + 1)
  {
    more := es + [ReadAdvance("v", CALM, now)];
    RunSnoc(es, ReadAdvance("v", CALM, now));
  }

  lemma Writes(es: seq<Event>, row: Row, call: nat, h: Held, now: int) returns (more: seq<Event>)
    requires Run(es).rows == map["v" := row] && call in Run(es).held && Run(es).held[call] == h
    requires h.Advancing? && h.version == "v" && h.readAt == now
    ensures more == es + [Write(call, now)]
    ensures Run(more) == State(map["v" := Rewritten(h, row, now)], Run(es).held - {call}, Run(es).calls)
  {
    more := es + [Write(call, now)];
    RunSnoc(es, Write(call, now));
  }

  /** An uninterrupted AdvanceGate a day after the last step. */
  lemma Advanced(es: seq<Event>, row: Row, now: int) returns (more: seq<Event>)
    requires Run(es).rows == map["v" := row] && Run(es).held == map[] && 2 <= row.gate <= 4
    requires row.status == Running && now == (row.lastAdvancedAt + DAY) * SECOND
    ensures |more| == |es| + 2 && more[|es| + 1] == Write(Run(es).calls, now)
    ensures Run(more) == State(map["v" := Rewritten(Advancing("v", row, now), row, now)], map[], Run(es).calls + 1)
  {
    more := Reads(es, row, now);
    more := Writes(more, row, Run(es).calls, Advancing("v", row, now), now);
    assert map[Run(es).calls := Advancing("v", row, now)] - {Run(es).calls} == map[];
  }

  /** Counted from the call itself the three days can fall short, by less than a second, exactly when the call does not
      fall on a full second: the stored instant is truncated. */
  lemma WaitExactly(opening: int)
    ensures (forall reached :: Unix(reached) >= Unix(opening) + 3 * DAY ==> reached - opening >= 3 * DAY * SECOND)
            <==> opening % SECOND == 0
    ensures forall reached :: Unix(reached) >= Unix(opening) + 3 * DAY ==> reached - opening > 3 * DAY * SECOND - SECOND
  {
    var earliest := (Unix(opening) + 3 * DAY) * SECOND;
    assert Unix(earliest) == Unix(opening) + 3 * DAY;
    assert opening == Unix(opening) * SECOND + opening % SECOND;
  }

  /** For every such opening there is a run that takes the short way. */
  lemma ShortWay(opening: int) returns (es: seq<Event>, reached: int)
    ensures Run(es).rows == map["v" := At(5, 100, Committed, Unix(reached))]
    ensures es != [] && es[|es| - 1].Write? && es[|es| - 1].now == reached
    ensures opening % SECOND != 0 ==> reached - opening < 3 * DAY * SECOND
  {
    var first := Unix(opening);
    es := Opened(opening);
    FullSecond(first + DAY);
    FullSecond(first + 2 * DAY);
    FullSecond(first + 3 * DAY);
    es := Advanced(es, At(2, 5, Running, first), (first + DAY) * SECOND);
    es := Advanced(es, At(3, 25, Running, first + DAY), (first + 2 * DAY) * SECOND);
    es := Advanced(es, At(4, 50, Running, first + 2 * DAY), (first + 3 * DAY) * SECOND);
    reached := (first + 3 * DAY) * SECOND;
    assert opening == first * SECOND + opening % SECOND;
  }

  lemma FullSecond(u: int)
    ensures Unix(u * SECOND) == u
  {
  }

  const SLOW := Advancing("v", At(2, 5, Running, 0), DAY * SECOND)

  /** Call 1 has read gate 2 and decided to advance. */
  lemma SlowCall() returns (es: seq<Event>)
    ensures Run(es) == State(map["v" := At(2, 5, Running, 0)], map[1 := SLOW], 2)
  {
    es := Opened(0);
    es := Reads(es, At(2, 5, Running, 0), DAY * SECOND);
  }

  /** A reachable run in which a rollback at gate 2 is undone by an AdvanceGate that had read its row before. */
  lemma OverlapRevives() returns (es: seq<Event>)
    ensures Run(es) == State(map["v" := At(2, 5, RolledBack, 0)], map[1 := SLOW], 2)
    ensures Run(es + [Write(1, DAY * SECOND)]).rows == map["v" := At(3, 25, Running, DAY)]
  {
    es := SlowCall();
    RunSnoc(es, RollBack("v"));
    es := es + [RollBack("v")];
    FullSecond(DAY);
    var more := Writes(es, At(2, 5, RolledBack, 0), 1, SLOW, DAY * SECOND);
  }

  /** A reachable run in which an AdvanceGate that had read gate 2 takes the version from gate 4 back to gate 3. */
  lemma OverlapLowersTraffic() returns (es: seq<Event>)
    ensures Run(es).rows == map["v" := At(4, 50, Running, 2 * DAY)]
    ensures Run(es + [Write(1, DAY * SECOND)]).rows == map["v" := At(3, 25, Running, DAY)]
  {
    var row2, row3, row4 := At(2, 5, Running, 0), At(3, 25, Running, DAY), At(4, 50, Running, 2 * DAY);
    FullSecond(DAY);
    FullSecond(2 * DAY);
    es := SlowCall();
    es := Reads(es, row2, DAY * SECOND);
    es := Writes(es, row2, 2, SLOW, DAY * SECOND);
    es := Reads(es, row3, 2 * DAY * SECOND);
    es := Writes(es, row3, 3, Advancing("v", row3, 2 * DAY * SECOND), 2 * DAY * SECOND);
    var more := Writes(es, row4, 1, SLOW, DAY * SECOND);
  }
}
