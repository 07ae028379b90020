/** How the scan compares times: both are texts, RFC 3339 with a T before the time of day, and SQLite's with a space. */
module SqlTimes {

  predicate TextLess(a: string, b: string) {
    b != "" && (a == "" || a[0] < b[0] || (a[0] == b[0] && TextLess(a[1..], b[1..])))
  }

  /** So it is the dates alone that decide, and on one date the lease is never the earlier one. */
  lemma {:induction false} DatesDecide(date: string, time: string, date': string, time': string)
    requires |date| == |date'|
    ensures TextLess(date + "T" + time, date' + " " + time') <==> TextLess(date, date')
    decreases |date|
  {
    var a, b := date + "T" + time, date' + " " + time';
    if date != "" {
      assert a[0] == date[0] && b[0] == date'[0];
      assert a[1..] == date[1..] + "T" + time && b[1..] == date'[1..] + " " + time';
      DatesDecide(date[1..], time, date'[1..], time');
    }
  }
}

/** pkg/swarm/sqlite_blackboard.go: the lease protocol on task rows. Every SQL statement is one atomic step; the reaper
    takes two, a scan and a later write-back for each row it saw, with anything in between. */
module Leases {

  import opened Options

  type Task = string
  type Agent = string
  type Reaper = nat

  const LEASE_TTL := 60
  const COMPENSATION_TTL := 300
  const DAY := 86400
  const MAX_TOXICITY := 3

  datatype Status = Pending | Claimed | Running | Done | Failed | Suspended | Compensating

  datatype Row = Row(status: Status, claimedBy: Option<Agent>, expiresAt: Option<int>, version: int, toxicity: int)

  const NEW_ROW := Row(Pending, None, None, 0, 0)

  type Table = map<Task, Row>

  /** What an agent can ask for on one task. */
  datatype Request =
    | Claim
    | Start
    | Complete
    | Fail
    | RenewLease
    | SuspendForHITL(timeout: int)
    | ResumeFromHITL(approved: bool)
    | BeginCompensation
    | EndCompensation

  predicate InFlight(s: Status) {
    s == Claimed || s == Running
  }

  /** The WHERE clause of the request's UPDATE. */
  predicate Matches(r: Row, a: Agent, q: Request) {
    match q
    case Claim => r.status == Pending
    case Start => r.claimedBy == Some(a) && r.status == Claimed
    case Complete => r.claimedBy == Some(a) && InFlight(r.status)
    case Fail => r.claimedBy == Some(a) && InFlight(r.status)
    case RenewLease => r.claimedBy == Some(a) && r.status == Claimed
    case SuspendForHITL(_) => r.claimedBy == Some(a) && r.status == Running
    case ResumeFromHITL(_) => r.claimedBy == Some(a) && r.status == Suspended
    case BeginCompensation => r.claimedBy == Some(a) && r.status == Running
    case EndCompensation => r.claimedBy == Some(a) && r.status == Compensating
  }

  /** The SET clause. */
  function Updated(r: Row, a: Agent, q: Request, now: int): Row {
    var w := r.(version := r.version + 1);
    match q
    case Claim => w.(status := Claimed, claimedBy := Some(a), expiresAt := Some(now + LEASE_TTL))
    case Start => w.(status := Running)
    case Complete => w.(status := Done)
    case Fail => w.(status := Failed)
    case RenewLease => w.(expiresAt := Some(now + LEASE_TTL))
    case SuspendForHITL(timeout) => w.(status := Suspended, expiresAt := Some(timeout))
    case ResumeFromHITL(approved) => w.(status := if approved then Running else Failed, expiresAt := Some(now + LEASE_TTL))
    case BeginCompensation => w.(status := Compensating, expiresAt := Some(now + COMPENSATION_TTL))
    case EndCompensation => w.(status := Failed)
  }

  /** What the reaper writes back; it does not look at the holder, the lease or the version. */
  function Evicted(r: Row): Row {
    Row(if r.toxicity + 1 >= MAX_TOXICITY then Failed else Pending, None, None, r.version + 1, r.toxicity + 1)
  }

  function Stopped(r: Row): Row {
    if InFlight(r.status) then r.(status := Suspended, version := r.version + 1) else r
  }

  /** The lease is over. */
  predicate Lapsed(r: Row, now: int) {
    r.expiresAt.Some? && r.expiresAt.value < now
  }

  /** The WHERE clause of the scan, which compares texts: it finds leases that ended on an earlier UTC day. */
  predicate Expired(r: Row, now: int) {
    InFlight(r.status) && r.claimedBy.Some? && r.expiresAt.Some? && r.expiresAt.value / DAY < now / DAY
  }

  /** What a scan remembers of a row. */
  datatype Seen = Seen(task: Task, agent: Agent)

  predicate Distinct(seen: seq<Seen>) {
    forall i, j :: 0 <= i < j < |seen| ==> seen[i].task != seen[j].task
  }

  /** `seen` lists exactly the rows whose lease ended on an earlier day, each once, with its holder. */
  ghost predicate IsScan(t: Table, now: int, seen: seq<Seen>) {
    && Distinct(seen)
    && (forall i :: 0 <= i < |seen| ==>
          seen[i].task in t && Expired(t[seen[i].task], now) && t[seen[i].task].claimedBy == Some(seen[i].agent))
    && (forall k :: k in t && Expired(t[k], now) ==> exists i :: 0 <= i < |seen| && seen[i].task == k)
  }

  /** Whatever the scan finds has lapsed; a lapsed lease is found exactly from the next UTC day on. */
  lemma FoundExactly(t: Table, now: int, seen: seq<Seen>, k: Task)
    requires IsScan(t, now, seen) && k in t && InFlight(t[k].status) && t[k].claimedBy.Some?
    ensures (exists i :: 0 <= i < |seen| && seen[i].task == k) <==> t[k].expiresAt.Some? && t[k].expiresAt.value / 86400 < now / 86400
    ensures (exists i :: 0 <= i < |seen| && seen[i].task == k) ==> Lapsed(t[k], now)
  {
  }

  // --- the protocol as a transition system --------------------------------------------------

  datatype Step =
    | Post(task: Task)
    | Ask(task: Task, agent: Agent, request: Request)
    | StopAll
    | Scan(reaper: Reaper, seen: seq<Seen>)
    | WriteBack(reaper: Reaper, written: bool)  // an eviction that the database refuses is forgotten
    | GiveUp(reaper: Reaper)

  datatype Event = Event(step: Step, now: int)

  /** The table and, for every reaper, the rows it has scanned and not written back yet. */
  datatype State = State(tasks: Table, scans: map<Reaper, seq<Seen>>)

  function Outstanding(s: State, r: Reaper): seq<Seen> {
    if r in s.scans then s.scans[r] else []
  }

  function EvictIn(t: Table, k: Task): Table {
    if k in t && InFlight(t[k].status) then t[k := Evicted(t[k])] else t
  }

  function AskIn(t: Table, k: Task, a: Agent, q: Request, now: int): Table {
    if k in t && Matches(t[k], a, q) then t[k := Updated(t[k], a, q, now)] else t
  }

  function StopIn(t: Table): Table {
    map k | k in t :: Stopped(t[k])
  }

  ghost function Apply(s: State, e: Event): State {
    match e.step
    case Post(k) => if k in s.tasks then s else s.(tasks := s.tasks[k := NEW_ROW])
    case Ask(k, a, q) => s.(tasks := AskIn(s.tasks, k, a, q, e.now))
    case StopAll => s.(tasks := StopIn(s.tasks))
    case Scan(r, seen) => if IsScan(s.tasks, e.now, seen) then s.(scans := s.scans[r := seen]) else s
    case WriteBack(r, written) =>
      var out := Outstanding(s, r);
      if out == [] then s
      else State(if written then EvictIn(s.tasks, out[0].task) else s.tasks, s.scans[r := out[1..]])
    case GiveUp(r) => s.(scans := s.scans[r := []])
  }

  ghost function Run(es: seq<Event>): State {
    if es == [] then State(map[], map[]) else Apply(Run(es[..|es| - 1]), es[|es| - 1])
  }

  lemma RunSnoc(es: seq<Event>, e: Event)
    ensures Run(es + [e]) == Apply(Run(es), e)
  {
    assert (es + [e])[..|es|] == es;
  }

  // --- every change raises the version, and terminal rows do not change ----------------------

  lemma StepOnRow(s: State, e: Event, k: Task)
    requires k in s.tasks
    ensures k in Apply(s, e).tasks
    ensures Apply(s, e).tasks[k] == s.tasks[k] || Apply(s, e).tasks[k].version == s.tasks[k].version + 1
    ensures s.tasks[k].status in {Done, Failed} ==> Apply(s, e).tasks[k] == s.tasks[k]
  {
  }

  /** Along a run the version of a row never falls, and rows with the same version are the same row. */
  lemma {:induction false} VersionsFence(es: seq<Event>, i: nat, k: Task)
    requires i <= |es| && k in Run(es[..i]).tasks
    ensures k in Run(es).tasks
    ensures Run(es[..i]).tasks[k].version <= Run(es).tasks[k].version
    ensures Run(es[..i]).tasks[k].version == Run(es).tasks[k].version ==> Run(es[..i]).tasks[k] == Run(es).tasks[k]
    decreases |es| - i
  {
    if i == |es| {
      assert es[..i] == es;
    } else {
      var rest := es[..|es| - 1];
      assert rest[..i] == es[..i];
      VersionsFence(rest, i, k);
      StepOnRow(Run(rest), es[|es| - 1], k);
    }
  }

  lemma {:induction false} TerminalForever(es: seq<Event>, i: nat, k: Task)
    requires i <= |es| && k in Run(es[..i]).tasks && Run(es[..i]).tasks[k].status in {Done, Failed}
    ensures k in Run(es).tasks && Run(es).tasks[k] == Run(es[..i]).tasks[k]
    decreases |es| - i
  {
    if i == |es| {
      assert es[..i] == es;
    } else {
      var rest := es[..|es| - 1];
      assert rest[..i] == es[..i];
      TerminalForever(rest, i, k);
      StepOnRow(Run(rest), es[|es| - 1], k);
    }
  }

  // --- the side-effect check ----------------------------------------------------------------

  datatype Verdict = Allowed | NotOwned | Stale | Internal

  const MAX_INT32 := 0x7FFF_FFFF

  /** SideEffectPreCheck in the order of the source: a NULL lease or a version that does not fit an int32 fails in the
      row scan, before anything is compared. */
  function PreCheck(t: Table, k: Task, a: Agent, v: int, now: int): Verdict {
    if k !in t then NotOwned
    else if t[k].expiresAt.None? || t[k].version > MAX_INT32 then Internal
    else if t[k].claimedBy != Some(a) then Stale
    else if t[k].version != v then Stale
    else if t[k].status != Running then Stale
    else if now > t[k].expiresAt.value then Stale
    else Allowed
  }

  /** Whoever passes the check twice with one version passes it on the same untouched row: two agents never both pass
      with the same version, and nothing happened to the task in between. */
  lemma PreCheckFences(es: seq<Event>, i: nat, j: nat, k: Task, a: Agent, b: Agent, v: int, now: int, now': int)
    requires i <= j <= |es|
    requires PreCheck(Run(es[..i]).tasks, k, a, v, now) == Allowed
    requires PreCheck(Run(es[..j]).tasks, k, b, v, now') == Allowed
    ensures a == b
    ensures forall m :: i <= m <= j ==>
              k in Run(es[..m]).tasks && Run(es[..m]).tasks[k] == Run(es[..i]).tasks[k]
  {
    forall m | i <= m <= j
      ensures k in Run(es[..m]).tasks && Run(es[..m]).tasks[k] == Run(es[..i]).tasks[k]
    {
      assert es[..m][..i] == es[..i];
      VersionsFence(es[..m], i, k);
      assert es[..j][..m] == es[..m];
      VersionsFence(es[..j], m, k);
    }
  }

  // --- claim accounting ---------------------------------------------------------------------

  predicate Wins(s: State, e: Event, k: Task) {
    e.step.Ask? && e.step.task == k && e.step.request == Claim && k in s.tasks && s.tasks[k].status == Pending
  }

  predicate Evicts(s: State, e: Event, k: Task) {
    e.step.WriteBack? && e.step.written && Outstanding(s, e.step.reaper) != [] && Outstanding(s, e.step.reaper)[0].task == k &&
    k in s.tasks && InFlight(s.tasks[k].status)
  }

  ghost function Claims(es: seq<Event>, k: Task): nat {
    if es == [] then 0
    else Claims(es[..|es| - 1], k) + if Wins(Run(es[..|es| - 1]), es[|es| - 1], k) then 1 else 0
  }

  ghost function Evictions(es: seq<Event>, k: Task): nat {
    if es == [] then 0
    else Evictions(es[..|es| - 1], k) + if Evicts(Run(es[..|es| - 1]), es[|es| - 1], k) then 1 else 0
  }

  function Held(r: Row): nat {
    if r.claimedBy.Some? then 1 else 0
  }

  /** What the columns of a row say about each other. */
  ghost predicate RowOk(r: Row) {
    && 0 <= r.toxicity <= MAX_TOXICITY && r.version >= 0
    && (r.claimedBy.None? <==> r.status == Pending || r.toxicity == MAX_TOXICITY)
    && (r.toxicity == MAX_TOXICITY ==> r.status == Failed)
    && (InFlight(r.status) ==> r.expiresAt.Some?)
  }

  lemma RowStepOk(s: State, e: Event, k: Task)
    requires k in s.tasks ==> RowOk(s.tasks[k])
    ensures k in Apply(s, e).tasks ==> RowOk(Apply(s, e).tasks[k])
  {
  }

  lemma AccountStep(s: State, e: Event, k: Task)
    requires k in s.tasks && RowOk(s.tasks[k])
    ensures var r, r' := s.tasks[k], Apply(s, e).tasks[k];
            && r'.toxicity == r.toxicity + (if Evicts(s, e, k) then 1 else 0)
            && r'.toxicity + Held(r') == r.toxicity + Held(r) + (if Wins(s, e, k) then 1 else 0)
  {
  }

  /** In every run, with any number of reapers: a task has been claimed once for every eviction and once more if it is
      held, toxicity counts the evictions, a pending task is free, and nothing is claimed more than three times. */
  lemma {:induction false} ClaimAccounting(es: seq<Event>, k: Task)
    ensures k !in Run(es).tasks ==> Claims(es, k) == 0 && Evictions(es, k) == 0
    ensures k in Run(es).tasks ==>
      && RowOk(Run(es).tasks[k])
      && Claims(es, k) == Run(es).tasks[k].toxicity + Held(Run(es).tasks[k])
      && Evictions(es, k) == Run(es).tasks[k].toxicity
    ensures Claims(es, k) <= MAX_TOXICITY
  {
    if es != [] {
      var rest, e := es[..|es| - 1], es[|es| - 1];
      ClaimAccounting(rest, k);
      RowStepOk(Run(rest), e, k);
      if k in Run(rest).tasks {
        AccountStep(Run(rest), e, k);
      }
    }
  }

  /** The counters only grow along a run. */
  lemma {:induction false} CountersGrow(es: seq<Event>, i: nat, k: Task)
    requires i <= |es|
    ensures Claims(es[..i], k) <= Claims(es, k) && Evictions(es[..i], k) <= Evictions(es, k)
    decreases |es| - i
  {
    if i < |es| {
      var rest := es[..|es| - 1];
      assert rest[..i] == es[..i];
      CountersGrow(rest, i, k);
    } else {
      assert es[..i] == es;
    }
  }

  ghost predicate EvictsAt(es: seq<Event>, m: int, k: Task) {
    0 <= m < |es| && Evicts(Run(es[..m]), es[m], k)
  }

  /** The counter stands still exactly while nothing is evicted. */
  lemma {:induction false} NoEvictionExactly(es: seq<Event>, i: nat, k: Task)
    requires i <= |es|
    ensures Evictions(es, k) == Evictions(es[..i], k) <==> !exists m :: i <= m < |es| && EvictsAt(es, m, k)
    decreases |es| - i
  {
    if i < |es| {
      var rest, n := es[..|es| - 1], |es| - 1;
      assert rest[..i] == es[..i];
      NoEvictionExactly(rest, i, k);
      CountersGrow(rest, i, k);
      assert EvictsAt(es, n, k) <==> Evicts(Run(rest), es[n], k);
      forall m | i <= m < n ensures EvictsAt(es, m, k) <==> EvictsAt(rest, m, k) {
        assert rest[..m] == es[..m];
      }
    } else {
      assert es[..i] == es;
    }
  }

  lemma {:induction false} SomeEvictionBetween(es: seq<Event>, i: nat, k: Task) returns (w: nat)
    requires i <= |es| && Evictions(es, k) > Evictions(es[..i], k)
    ensures i <= w < |es| && EvictsAt(es, w, k)
  {
    NoEvictionExactly(es, i, k);
    w :| i <= w < |es| && EvictsAt(es, w, k);
  }

  /** Successful claims at positions `i` and `j`, and none between them. */
  ghost predicate ConsecutiveClaims(es: seq<Event>, i: nat, j: nat, k: Task) {
    && i < j < |es|
    && Wins(Run(es[..i]), es[i], k) && Wins(Run(es[..j]), es[j], k)
    && Claims(es[..j], k) == Claims(es[..i], k) + 1
  }

  /** Between two consecutive successful claims of a task it was evicted exactly once, with any number of reapers. */
  lemma OneEvictionBetweenClaims(es: seq<Event>, i: nat, j: nat, k: Task)
    requires ConsecutiveClaims(es, i, j, k)
    ensures Evictions(es[..j], k) == Evictions(es[..i], k) + 1
  {
    ClaimAccounting(es[..i], k);
    ClaimAccounting(es[..j], k);
  }

  // --- what a write-back hits ---------------------------------------------------------------

  /** Where in the run the reaper's last scan stands, or -1. */
  ghost function LastScan(es: seq<Event>, r: Reaper): int {
    if es == [] then -1
    else
      var rest, e := es[..|es| - 1], es[|es| - 1];
      if e.step.Scan? && e.step.reaper == r && IsScan(Run(rest).tasks, e.now, e.step.seen) then |rest| else LastScan(rest, r)
  }

  /** The scan at position `j` saw `w`, held and with an expired lease. */
  ghost predicate SeenAt(es: seq<Event>, j: int, w: Seen) {
    0 <= j < |es| && es[j].step.Scan? && w in es[j].step.seen && IsScan(Run(es[..j]).tasks, es[j].now, es[j].step.seen)
  }

  lemma SeenExpired(es: seq<Event>, j: int, w: Seen)
    requires SeenAt(es, j, w)
    ensures w.task in Run(es[..j]).tasks && Expired(Run(es[..j]).tasks[w.task], es[j].now)
    ensures Run(es[..j]).tasks[w.task].claimedBy == Some(w.agent)
  {
    var seen := es[j].step.seen;
    var i :| 0 <= i < |seen| && seen[i] == w;
  }

  ghost predicate AllSeen(es: seq<Event>, r: Reaper) {
    var out := Outstanding(Run(es), r);
    Distinct(out) && forall i :: 0 <= i < |out| ==> SeenAt(es, LastScan(es, r), out[i])
  }

  lemma SeenSnoc(es: seq<Event>, e: Event, j: int, w: Seen)
    requires SeenAt(es, j, w)
    ensures SeenAt(es + [e], j, w)
  {
    assert (es + [e])[..j] == es[..j] && (es + [e])[j] == es[j];
  }

  lemma ScanSees(es: seq<Event>, e: Event, r: Reaper)
    requires e.step.Scan? && e.step.reaper == r && IsScan(Run(es).tasks, e.now, e.step.seen)
    ensures LastScan(es + [e], r) == |es| && Outstanding(Run(es + [e]), r) == e.step.seen && AllSeen(es + [e], r)
  {
    RunSnoc(es, e);
    assert (es + [e])[..|es|] == es && (es + [e])[|es|] == e;
    var out := Outstanding(Run(es + [e]), r);
    forall i | 0 <= i < |out| ensures SeenAt(es + [e], |es|, out[i]) {
      assert out[i] in e.step.seen;
    }
  }

  /** Other steps leave the reaper's list alone or shorten it from the front. */
  lemma OutstandingStep(es: seq<Event>, e: Event, r: Reaper)
    requires !(e.step.Scan? && e.step.reaper == r && IsScan(Run(es).tasks, e.now, e.step.seen))
    ensures LastScan(es + [e], r) == LastScan(es, r)
    ensures var out, out' := Outstanding(Run(es), r), Outstanding(Run(es + [e]), r);
            out' == out || out' == [] || (e.step.WriteBack? && e.step.reaper == r && out != [] && out' == out[1..])
  {
    RunSnoc(es, e);
    assert (es + [e])[..|es|] == es;
  }

  /** In every run the rows a reaper has still to write back are those that its last scan saw. */
  lemma {:induction false} AlwaysSeen(es: seq<Event>, r: Reaper)
    ensures AllSeen(es, r)
  {
    if es != [] {
      var rest, e := es[..|es| - 1], es[|es| - 1];
      assert es == rest + [e];
      AlwaysSeen(rest, r);
      if e.step.Scan? && e.step.reaper == r && IsScan(Run(rest).tasks, e.now, e.step.seen) {
        ScanSees(rest, e, r);
      } else {
        OutstandingStep(rest, e, r);
        var out, out' := Outstanding(Run(rest), r), Outstanding(Run(es), r);
        forall i | 0 <= i < |out'| ensures SeenAt(es, LastScan(es, r), out'[i]) {
          SeenSnoc(rest, e, LastScan(rest, r), out[if out' == out then i else i + 1]);
        }
      }
    }
  }

  /** The claim that holds the task now is the one that held it at position `j`. */
  ghost predicate SameClaim(es: seq<Event>, j: int, k: Task) {
    0 <= j <= |es| && Claims(es, k) == Claims(es[..j], k)
  }

  /** With any number of reapers: a write-back that evicts hits the very claim its own reaper's scan saw with an expired
      lease exactly when no other eviction of the task lies between the two. */
  lemma {:induction false} HitsSeenClaimExactly(es: seq<Event>, e: Event, k: Task)
    requires Evicts(Run(es), e, k)
    ensures var j := LastScan(es, e.step.reaper);
            && 0 <= j < |es| && k in Run(es[..j]).tasks && Expired(Run(es[..j]).tasks[k], es[j].now)
            && (SameClaim(es, j, k) <==> !exists m :: j <= m < |es| && EvictsAt(es, m, k))
            && (SameClaim(es, j, k) ==> Run(es).tasks[k].claimedBy == Run(es[..j]).tasks[k].claimedBy)
  {
    var r := e.step.reaper;
    AlwaysSeen(es, r);
    var j, w := LastScan(es, r), Outstanding(Run(es), r)[0];
    SeenExpired(es, j, w);
    ClaimAccounting(es, k);
    ClaimAccounting(es[..j], k);
    NoEvictionExactly(es, j, k);
    if SameClaim(es, j, k) {
      SameToxicitySameHolder(es, j, k);
    }
  }

  // --- one sequential reaper ----------------------------------------------------------------

  /** Only reaper 0 exists, and it scans only when it has nothing left to write back. */
  ghost predicate Sequential(es: seq<Event>) {
    es == [] || (
      var rest, step := es[..|es| - 1], es[|es| - 1].step;
      Sequential(rest) &&
      match step
      case Scan(r, _) => r == 0 && Outstanding(Run(rest), 0) == []
      case WriteBack(r, _) => r == 0
      case GiveUp(r) => r == 0
      case _ => true)
  }

  /** No task that is still to be written back has been evicted since the scan. */
  ghost predicate Watched(es: seq<Event>) {
    var out, j := Outstanding(Run(es), 0), LastScan(es, 0);
    forall i :: 0 <= i < |out| ==> UnevictedSince(es, j, out[i].task)
  }

  ghost predicate UnevictedSince(es: seq<Event>, j: int, k: Task) {
    0 <= j < |es| && Evictions(es, k) == Evictions(es[..j], k)
  }

  lemma EvictionsSnoc(es: seq<Event>, e: Event, j: nat, k: Task)
    requires j <= |es|
    ensures Evictions(es + [e], k) == Evictions(es, k) + (if Evicts(Run(es), e, k) then 1 else 0)
    ensures (es + [e])[..j] == es[..j]
  {
    assert (es + [e])[..|es|] == es;
  }

  /** A step of a sequential run evicts nothing that stays on the list. */
  lemma EvictsOnlyTheHead(es: seq<Event>, e: Event, w: Seen)
    requires Sequential(es + [e]) && Distinct(Outstanding(Run(es), 0))
    requires w in Outstanding(Run(es), 0) && w in Outstanding(Run(es + [e]), 0) && !e.step.Scan?
    ensures !Evicts(Run(es), e, w.task)
  {
    assert (es + [e])[..|es|] == es;
    RunSnoc(es, e);
    var out := Outstanding(Run(es), 0);
    assert forall i :: 0 <= i < |out[1..]| ==> out[1..][i] == out[i + 1] && out[i + 1].task != out[0].task;
  }

  lemma {:induction false} AlwaysWatched(es: seq<Event>)
    requires Sequential(es)
    ensures Watched(es)
  {
    if es != [] {
      var rest, e := es[..|es| - 1], es[|es| - 1];
      assert es == rest + [e];
      AlwaysWatched(rest);
      AlwaysSeen(rest, 0);
      if e.step.Scan? && IsScan(Run(rest).tasks, e.now, e.step.seen) {
        ScanSees(rest, e, 0);
        forall i | 0 <= i < |e.step.seen| ensures UnevictedSince(es, |rest|, e.step.seen[i].task) {
          EvictionsSnoc(rest, e, |rest|, e.step.seen[i].task);
        }
      } else {
        OutstandingStep(rest, e, 0);
        var out', j := Outstanding(Run(es), 0), LastScan(es, 0);
        forall i | 0 <= i < |out'| ensures UnevictedSince(es, j, out'[i].task) {
          WatchedStep(rest, e, i);
        }
      }
    }
  }

  lemma {:induction false} WatchedStep(es: seq<Event>, e: Event, i: nat)
    requires Sequential(es + [e]) && Watched(es) && AllSeen(es, 0)
    requires !(e.step.Scan? && e.step.reaper == 0 && IsScan(Run(es).tasks, e.now, e.step.seen))
    requires i < |Outstanding(Run(es + [e]), 0)|
    ensures UnevictedSince(es + [e], LastScan(es + [e], 0), Outstanding(Run(es + [e]), 0)[i].task)
  {
    OutstandingStep(es, e, 0);
    var out, out' := Outstanding(Run(es), 0), Outstanding(Run(es + [e]), 0);
    var w, j := out'[i], LastScan(es, 0);
    assert w == out[if out' == out then i else i + 1];
    assert w in out && w in out';
    EvictionsSnoc(es, e, j, w.task);
    if !e.step.Scan? {
      EvictsOnlyTheHead(es, e, w);
    }
  }

  /** With one sequential reaper whoever is evicted holds the task by the very claim whose lease the last scan saw
      expired, and nothing else was evicted from that task in between. */
  lemma {:induction false} EvictsTheExpiredClaim(es: seq<Event>, e: Event, k: Task)
    requires Sequential(es + [e]) && Evicts(Run(es), e, k)
    ensures var j := LastScan(es, 0);
            && 0 <= j < |es| && k in Run(es[..j]).tasks && Expired(Run(es[..j]).tasks[k], es[j].now)
            && Claims(es, k) == Claims(es[..j], k) && Evictions(es, k) == Evictions(es[..j], k)
            && Run(es).tasks[k].claimedBy == Run(es[..j]).tasks[k].claimedBy
  {
    assert (es + [e])[..|es|] == es;
    AlwaysWatched(es);
    AlwaysSeen(es, 0);
    var j := LastScan(es, 0);
    assert Outstanding(Run(es), 0)[0].task == k;
    NoEvictionExactly(es, j, k);
    HitsSeenClaimExactly(es, e, k);
  }

  /** In a sequential run exactly one eviction lies between two consecutive claims of a task, and both that write-back
      and the scan it belongs to lie strictly between them. */
  lemma {:induction false} ScanAndWriteBackBetweenClaims(es: seq<Event>, i: nat, j: nat, k: Task) returns (s: nat, w: nat)
    requires Sequential(es) && ConsecutiveClaims(es, i, j, k)
    ensures i < s < w < j && EvictsAt(es, w, k) && forall m :: i <= m <= j && EvictsAt(es, m, k) ==> m == w
    ensures es[s].step.Scan? && s == LastScan(es[..w], 0) && k in Run(es[..s]).tasks && Expired(Run(es[..s]).tasks[k], es[s].now)
  {
    OneEvictionBetweenClaims(es, i, j, k);
    var front := es[..j];
    assert front[..i] == es[..i];
    w := SomeEvictionBetween(front, i, k);
    assert front[..w] == es[..w];
    EvictionIsUnique(es, i, j, w, k);
    s := ScanOfWriteBack(es, w, k);
    ScanAfterClaim(es, i, s, w, k);
  }

  lemma {:induction false} ScanOfWriteBack(es: seq<Event>, w: nat, k: Task) returns (s: nat)
    requires Sequential(es) && w < |es| && EvictsAt(es, w, k)
    ensures s < w && es[s].step.Scan? && s == LastScan(es[..w], 0) && Claims(es[..w], k) == Claims(es[..s], k)
    ensures k in Run(es[..s]).tasks && Expired(Run(es[..s]).tasks[k], es[s].now)
  {
    SequentialPrefix(es, w + 1);
    assert es[..w + 1] == es[..w] + [es[w]];
    EvictsTheExpiredClaim(es[..w], es[w], k);
    s := LastScan(es[..w], 0);
    AlwaysSeen(es[..w], 0);
    assert es[..w][..s] == es[..s] && es[..w][s] == es[s];
  }

  lemma {:induction false} SequentialPrefix(es: seq<Event>, n: nat)
    requires Sequential(es) && n <= |es|
    ensures Sequential(es[..n])
    decreases |es|
  {
    if n < |es| {
      SequentialPrefix(es[..|es| - 1], n);
      assert es[..|es| - 1][..n] == es[..n];
    } else {
      assert es[..n] == es;
    }
  }

  /** One more event, one more eviction. */
  lemma CountAt(es: seq<Event>, m: nat, k: Task)
    requires m < |es|
    ensures Evictions(es[..m + 1], k) == Evictions(es[..m], k) + (if EvictsAt(es, m, k) then 1 else 0)
    ensures Claims(es[..m + 1], k) == Claims(es[..m], k) + (if Wins(Run(es[..m]), es[m], k) then 1 else 0)
  {
    assert es[..m + 1][..m] == es[..m];
  }

  lemma CountersBetween(es: seq<Event>, m: nat, n: nat, k: Task)
    requires m <= n <= |es|
    ensures Evictions(es[..m], k) <= Evictions(es[..n], k) && Claims(es[..m], k) <= Claims(es[..n], k)
  {
    assert es[..n][..m] == es[..m];
    CountersGrow(es[..n], m, k);
  }

  lemma TwoEvictionsCount(es: seq<Event>, i: nat, lo: nat, hi: nat, j: nat, k: Task)
    requires i <= lo < hi < j <= |es| && EvictsAt(es, lo, k) && EvictsAt(es, hi, k)
    ensures Evictions(es[..j], k) >= Evictions(es[..i], k) + 2
  {
    CountAt(es, lo, k);
    CountAt(es, hi, k);
    CountersBetween(es, i, lo, k);
    CountersBetween(es, lo + 1, hi, k);
    CountersBetween(es, hi + 1, j, k);
  }

  lemma {:induction false} EvictionIsUnique(es: seq<Event>, i: nat, j: nat, w: nat, k: Task)
    requires i <= w < j < |es| && EvictsAt(es, w, k) && Evictions(es[..j], k) == Evictions(es[..i], k) + 1
    requires es[j].step.Ask?
    ensures forall m :: i <= m <= j && EvictsAt(es, m, k) ==> m == w
  {
    forall m | i <= m <= j && EvictsAt(es, m, k) ensures m == w {
      if m < w {
        TwoEvictionsCount(es, i, m, w, j, k);
      } else if w < m < j {
        TwoEvictionsCount(es, i, w, m, j, k);
      }
    }
  }

  lemma ScanAfterClaim(es: seq<Event>, i: nat, s: nat, w: nat, k: Task)
    requires i <= w < |es| && s < w && Wins(Run(es[..i]), es[i], k) && EvictsAt(es, w, k)
    requires Claims(es[..w], k) == Claims(es[..s], k) && es[s].step.Scan?
    ensures i < s && i < w
  {
    CountAt(es, i, k);
    if i < w {
      CountersBetween(es, i + 1, w, k);
    }
    if s <= i {
      CountersBetween(es, s, i, k);
    }
  }

  // --- how a task ends, and how long a lease runs -----------------------------------------------

  /** Request `q` arrives from the agent that holds the task, with the task in one of the given states. */
  ghost predicate AsksIn(s: State, e: Event, k: Task, q: Request, from: set<Status>) {
    && e.step.Ask? && e.step.task == k && e.step.request == q
    && k in s.tasks && s.tasks[k].claimedBy == Some(e.step.agent) && s.tasks[k].status in from
  }

  ghost predicate AsksAt(es: seq<Event>, m: int, k: Task, q: Request, from: set<Status>) {
    0 <= m < |es| && AsksIn(Run(es[..m]), es[m], k, q, from)
  }

  lemma AsksSnoc(es: seq<Event>, e: Event, k: Task, q: Request, from: set<Status>)
    ensures (exists m :: AsksAt(es + [e], m, k, q, from)) <==> (exists m :: AsksAt(es, m, k, q, from)) || AsksIn(Run(es), e, k, q, from)
  {
    var more := es + [e];
    assert more[..|es|] == es && more[|es|] == e;
    assert AsksAt(more, |es|, k, q, from) <==> AsksIn(Run(es), e, k, q, from);
    forall m | 0 <= m < |es| ensures AsksAt(more, m, k, q, from) <==> AsksAt(es, m, k, q, from) {
      assert more[..m] == es[..m];
    }
    if m :| AsksAt(es, m, k, q, from) {
      assert AsksAt(more, m, k, q, from);
    }
  }

  ghost predicate HasStatus(s: State, k: Task, status: Status) {
    k in s.tasks && s.tasks[k].status == status
  }

  lemma DoneStep(s: State, e: Event, k: Task)
    ensures HasStatus(Apply(s, e), k, Done) <==> HasStatus(s, k, Done) || AsksIn(s, e, k, Complete, {Claimed, Running})
  {
  }

  /** In every run: a task is done exactly if its holder has completed it while it was claimed or running. */
  lemma {:induction false} DoneExactly(es: seq<Event>, k: Task)
    ensures HasStatus(Run(es), k, Done) <==> exists m :: AsksAt(es, m, k, Complete, {Claimed, Running})
  {
    if es != [] {
      var rest, e := es[..|es| - 1], es[|es| - 1];
      assert es == rest + [e];
      DoneExactly(rest, k);
      DoneStep(Run(rest), e, k);
      AsksSnoc(rest, e, k, Complete, {Claimed, Running});
    }
  }

  /** The holder gives up, ends the compensation or is refused, or the reaper evicts for the third time. */
  ghost predicate FailsIn(s: State, e: Event, k: Task) {
    || AsksIn(s, e, k, Fail, {Claimed, Running})
    || AsksIn(s, e, k, EndCompensation, {Compensating})
    || AsksIn(s, e, k, ResumeFromHITL(false), {Suspended})
    || (Evicts(s, e, k) && s.tasks[k].toxicity == 2)
  }

  ghost predicate FailsAt(es: seq<Event>, m: int, k: Task) {
    || AsksAt(es, m, k, Fail, {Claimed, Running})
    || AsksAt(es, m, k, EndCompensation, {Compensating})
    || AsksAt(es, m, k, ResumeFromHITL(false), {Suspended})
    || (EvictsAt(es, m, k) && Evictions(es[..m], k) == 2)
  }

  lemma FailedStep(s: State, e: Event, k: Task)
    requires k in s.tasks ==> RowOk(s.tasks[k])
    ensures HasStatus(Apply(s, e), k, Failed) <==> HasStatus(s, k, Failed) || FailsIn(s, e, k)
  {
  }

  lemma {:induction false} FailsSnoc(es: seq<Event>, e: Event, k: Task)
    ensures (exists m :: FailsAt(es + [e], m, k)) <==> (exists m :: FailsAt(es, m, k)) || FailsIn(Run(es), e, k)
  {
    var more := es + [e];
    ClaimAccounting(es, k);
    assert more[..|es|] == es && more[|es|] == e;
    assert FailsAt(more, |es|, k) <==> FailsIn(Run(es), e, k);
    forall m | 0 <= m < |es| ensures FailsAt(more, m, k) <==> FailsAt(es, m, k) {
      assert more[..m] == es[..m];
    }
    if m :| FailsAt(es, m, k) {
      assert FailsAt(more, m, k);
    }
  }

  /** In every run: a task has failed exactly if its holder has failed it, ended its compensation or been refused by a human,
      or the reaper has evicted it for the third time. */
  lemma {:induction false} FailedExactly(es: seq<Event>, k: Task)
    ensures HasStatus(Run(es), k, Failed) <==> exists m :: FailsAt(es, m, k)
  {
    if es != [] {
      var rest, e := es[..|es| - 1], es[|es| - 1];
      assert es == rest + [e];
      FailedExactly(rest, k);
      ClaimAccounting(rest, k);
      FailedStep(Run(rest), e, k);
      FailsSnoc(rest, e, k);
    }
  }

  /** A claim that wins, a renewal of a claimed task by its holder, or an approved resumption: each grants sixty seconds. */
  ghost predicate GrantsIn(s: State, e: Event, k: Task) {
    Wins(s, e, k) || AsksIn(s, e, k, RenewLease, {Claimed}) || AsksIn(s, e, k, ResumeFromHITL(true), {Suspended})
  }

  ghost predicate GrantsAt(es: seq<Event>, m: int, k: Task) {
    0 <= m < |es| && GrantsIn(Run(es[..m]), es[m], k)
  }

  /** The last grant of a lease. */
  ghost predicate LastGrant(es: seq<Event>, m: int, k: Task) {
    GrantsAt(es, m, k) && forall n :: m < n < |es| ==> !GrantsAt(es, n, k)
  }

  lemma GrantsSnoc(es: seq<Event>, e: Event, m: int, k: Task)
    ensures LastGrant(es + [e], m, k) <==> if GrantsIn(Run(es), e, k) then m == |es| else LastGrant(es, m, k)
  {
    var more := es + [e];
    assert more[..|es|] == es && more[|es|] == e;
    forall n | 0 <= n < |es| ensures GrantsAt(more, n, k) <==> GrantsAt(es, n, k) {
      assert more[..n] == es[..n];
    }
    assert GrantsAt(more, |es|, k) <==> GrantsIn(Run(es), e, k);
    assert !GrantsAt(es, |es|, k) && !GrantsAt(more, |es| + 1, k);
    if LastGrant(more, m, k) && !GrantsIn(Run(es), e, k) {
      assert forall n :: m < n < |es| ==> !GrantsAt(more, n, k);
    }
  }

  lemma GrantStep(s: State, e: Event, k: Task)
    requires k in s.tasks ==> RowOk(s.tasks[k])
    requires k in Apply(s, e).tasks && InFlight(Apply(s, e).tasks[k].status)
    ensures if GrantsIn(s, e, k) then Apply(s, e).tasks[k].expiresAt == Some(e.now + 60)
            else k in s.tasks && InFlight(s.tasks[k].status) && Apply(s, e).tasks[k].expiresAt == s.tasks[k].expiresAt
  {
  }

  /** In every run: the lease of a claimed or running task ends sixty seconds after the last claim, renewal or approved
      resumption of it. */
  lemma {:induction false} LeaseEndsAfterLastGrant(es: seq<Event>, k: Task) returns (m: int)
    requires k in Run(es).tasks && InFlight(Run(es).tasks[k].status)
    ensures LastGrant(es, m, k) && Run(es).tasks[k].expiresAt == Some(es[m].now + 60)
  {
    var rest, e := es[..|es| - 1], es[|es| - 1];
    assert es == rest + [e];
    ClaimAccounting(rest, k);
    GrantStep(Run(rest), e, k);
    if GrantsIn(Run(rest), e, k) {
      m := |rest|;
    } else {
      m := LeaseEndsAfterLastGrant(rest, k);
    }
    GrantsSnoc(rest, e, m, k);
  }

  // --- leases renewed between scan and write-back -------------------------------------------

  /** The clock does not run backwards. */
  ghost predicate Forward(es: seq<Event>) {
    forall i, j :: 0 <= i < j < |es| ==> es[i].now <= es[j].now
  }

  /** A renewal, or a resumption after approval, that takes effect and keeps the lease good at instant `t`. */
  ghost predicate Extends(s: State, e: Event, k: Task, t: int) {
    && e.step.Ask? && e.step.task == k && k in s.tasks && Matches(s.tasks[k], e.step.agent, e.step.request)
    && (e.step.request == RenewLease || e.step.request == ResumeFromHITL(true))
    && e.now + LEASE_TTL >= t
  }

  ghost predicate ExtendsAt(es: seq<Event>, m: int, k: Task, t: int) {
    0 <= m < |es| && Extends(Run(es[..m]), es[m], k, t)
  }

  /** The lease reaches instant `t` exactly if somebody has extended it since position `j`. */
  ghost predicate GoodExactly(es: seq<Event>, j: nat, k: Task, t: int) {
    && k in Run(es).tasks && Run(es).tasks[k].claimedBy.Some?
    && var r := Run(es).tasks[k];
       InFlight(r.status) ==>
         r.expiresAt.Some? && (r.expiresAt.value >= t <==> exists m :: j < m < |es| && ExtendsAt(es, m, k, t))
  }

  lemma {:induction false} GoodStep(es: seq<Event>, e: Event, j: nat, k: Task, t: int)
    requires j < |es| && GoodExactly(es, j, k, t) && Forward(es + [e])
    requires !Evicts(Run(es), e, k) && !Wins(Run(es), e, k)
    ensures GoodExactly(es + [e], j, k, t)
  {
    var more := es + [e];
    RunSnoc(es, e);
    ClaimAccounting(es, k);
    assert more[..|es|] == es && more[|es|] == e;
    forall m | j < m < |es| ensures ExtendsAt(more, m, k, t) <==> ExtendsAt(es, m, k, t) {
      assert more[..m] == es[..m] && more[m] == es[m];
    }
    assert ExtendsAt(more, |es|, k, t) <==> Extends(Run(es), e, k, t);
    GoodRow(Run(es), e, k, t, exists m :: j < m < |es| && ExtendsAt(es, m, k, t), es, j);
  }

  /** The same on the row alone; `extended` tells whether it was extended before. */
  lemma GoodRow(s: State, e: Event, k: Task, t: int, extended: bool, es: seq<Event>, j: nat)
    requires k in s.tasks && RowOk(s.tasks[k]) && s.tasks[k].claimedBy.Some? && !Evicts(s, e, k) && !Wins(s, e, k)
    requires InFlight(s.tasks[k].status) ==> (s.tasks[k].expiresAt.value >= t <==> extended)
    requires extended ==> exists m :: j < m < |es| && ExtendsAt(es, m, k, t)
    requires forall m :: 0 <= m < |es| ==> es[m].now <= e.now
    ensures k in Apply(s, e).tasks && Apply(s, e).tasks[k].claimedBy.Some?
    ensures var r := Apply(s, e).tasks[k];
            InFlight(r.status) ==> r.expiresAt.Some? && (r.expiresAt.value >= t <==> extended || Extends(s, e, k, t))
  {
    if extended {
      var m :| j < m < |es| && ExtendsAt(es, m, k, t);
      assert e.now + LEASE_TTL >= t;
    }
  }

  lemma ForwardFront(es: seq<Event>, n: nat)
    requires Forward(es) && n <= |es|
    ensures Forward(es[..n])
  {
  }

  /** Neither claimed nor evicted since position `j`. */
  ghost predicate QuietSince(es: seq<Event>, j: int, k: Task) {
    0 <= j <= |es| && Claims(es, k) == Claims(es[..j], k) && Evictions(es, k) == Evictions(es[..j], k)
  }

  lemma {:induction false} QuietFront(es: seq<Event>, e: Event, j: nat, k: Task)
    requires j <= |es| && QuietSince(es + [e], j, k)
    ensures QuietSince(es, j, k) && !Evicts(Run(es), e, k) && !Wins(Run(es), e, k)
  {
    assert (es + [e])[..|es|] == es && (es + [e])[..j] == es[..j];
    CountersGrow(es, j, k);
  }

  lemma {:induction false} GoodAtScan(es: seq<Event>, e: Event, k: Task, t: int)
    requires e.step.Scan? && e.now <= t && k in Run(es).tasks && Expired(Run(es).tasks[k], e.now)
    ensures GoodExactly(es + [e], |es|, k, t)
  {
    RunSnoc(es, e);
  }

  lemma {:induction false} GoodWhileClaimed(es: seq<Event>, j: nat, k: Task, t: int)
    requires j < |es| && Forward(es) && es[j].step.Scan? && es[j].now <= t
    requires k in Run(es[..j]).tasks && Expired(Run(es[..j]).tasks[k], es[j].now)
    requires QuietSince(es, j, k)
    ensures GoodExactly(es, j, k, t)
    decreases |es|
  {
    var rest, e := es[..|es| - 1], es[|es| - 1];
    assert es == rest + [e];
    if |es| == j + 1 {
      assert es[..j] == rest;
      GoodAtScan(rest, e, k, t);
    } else {
      assert rest[..j] == es[..j] && rest[j] == es[j];
      QuietFront(rest, e, j, k);
      ForwardFront(es, |es| - 1);
      GoodWhileClaimed(rest, j, k, t);
      GoodStep(rest, e, j, k, t);
    }
  }

  /** In a sequential run whose clock does not run backwards, the lease that a write-back ends is still good exactly when
      between scan and write-back its holder renewed it, or resumed after approval, less than a lease time ago. */
  lemma {:induction false} GoodLeaseEvictedExactly(es: seq<Event>, e: Event, k: Task)
    requires Sequential(es + [e]) && Forward(es + [e]) && Evicts(Run(es), e, k)
    ensures !Lapsed(Run(es).tasks[k], e.now) <==> exists m :: LastScan(es, 0) < m < |es| && ExtendsAt(es, m, k, e.now)
  {
    EvictsTheExpiredClaim(es, e, k);
    var j := LastScan(es, 0);
    AlwaysSeen(es, 0);
    assert (es + [e])[j] == es[j] && (es + [e])[|es|] == e && (es + [e])[..|es|] == es;
    ForwardFront(es + [e], |es|);
    GoodWhileClaimed(es, j, k, e.now);
  }

  /** With any number of reapers the holder is at least unchanged as long as the toxicity is. */
  lemma {:induction false} SameToxicitySameHolder(es: seq<Event>, i: nat, k: Task)
    requires i <= |es| && k in Run(es[..i]).tasks && Run(es[..i]).tasks[k].claimedBy.Some?
    ensures k in Run(es).tasks && Run(es[..i]).tasks[k].toxicity <= Run(es).tasks[k].toxicity
    ensures Run(es[..i]).tasks[k].toxicity == Run(es).tasks[k].toxicity ==>
              Run(es).tasks[k].claimedBy == Run(es[..i]).tasks[k].claimedBy
    decreases |es| - i
  {
    if i == |es| {
      assert es[..i] == es;
    } else {
      var rest, e := es[..|es| - 1], es[|es| - 1];
      assert rest[..i] == es[..i];
      SameToxicitySameHolder(rest, i, k);
      ClaimAccounting(rest, k);
      AccountStep(Run(rest), e, k);
      if !Evicts(Run(rest), e, k) && Run(rest).tasks[k].claimedBy.Some? {
        HolderStays(Run(rest), e, Seen(k, Run(rest).tasks[k].claimedBy.value));
      }
    }
  }

  /** The row is still held by the agent the scan saw. */
  ghost predicate StillHeld(t: Table, w: Seen) {
    w.task in t && t[w.task].claimedBy == Some(w.agent)
  }

  /** Only the reaper takes a task from the agent that holds it. */
  lemma HolderStays(s: State, e: Event, w: Seen)
    requires StillHeld(s.tasks, w) && RowOk(s.tasks[w.task]) && !Evicts(s, e, w.task)
    ensures StillHeld(Apply(s, e).tasks, w)
  {
  }

  // --- what the write-back does not check ---------------------------------------------------

  const HELD_BY_A := Row(Claimed, Some("a"), Some(60), 1, 0)

  lemma ClaimedByA()
    ensures Run([Event(Post("t"), 0), Event(Ask("t", "a", Claim), 0)]) == State(map["t" := HELD_BY_A], map[])
  {
    var e0, e1 := Event(Post("t"), 0), Event(Ask("t", "a", Claim), 0);
    RunSnoc([], e0);
    assert [] + [e0] == [e0];
    assert Run([e0]) == State(map["t" := NEW_ROW], map[]);
    RunSnoc([e0], e1);
    assert [e0] + [e1] == [e0, e1];
  }

  lemma ScanOfA()
    ensures IsScan(map["t" := HELD_BY_A], DAY, [Seen("t", "a")])
  {
    assert [Seen("t", "a")][0].task == "t";
  }

  /** A lease that ended at 00:01 is not found at 23:59:59 of that day. */
  lemma LapsedButUnseen() returns (es: seq<Event>)
    ensures "t" in Run(es).tasks && InFlight(Run(es).tasks["t"].status) && Run(es).tasks["t"].expiresAt == Some(60)
    ensures Lapsed(Run(es).tasks["t"], DAY - 1) && IsScan(Run(es).tasks, DAY - 1, [])
  {
    ClaimedByA();
    es := [Event(Post("t"), 0), Event(Ask("t", "a", Claim), 0)];
  }

  /** Two overlapping reapers can evict an agent that has only just claimed: the second write-back meets the claim that
      followed the first one. */
  lemma TwoReapersEvictTheWrongAgent() returns (es: seq<Event>, e: Event)
    ensures e.step == WriteBack(1, true) && Evicts(Run(es), e, "t")
    ensures Run(es).tasks["t"].claimedBy == Some("b") && !Lapsed(Run(es).tasks["t"], e.now)
    ensures Outstanding(Run(es), 1)[0].agent == "a"
  {
    var seen := [Seen("t", "a")];
    ClaimedByA();
    ScanOfA();
    es := [Event(Post("t"), 0), Event(Ask("t", "a", Claim), 0)];
    RunSnoc(es, Event(Scan(0, seen), DAY));
    es := es + [Event(Scan(0, seen), DAY)];
    assert Run(es) == State(map["t" := HELD_BY_A], map[0 := seen]);
    RunSnoc(es, Event(Scan(1, seen), DAY));
    es := es + [Event(Scan(1, seen), DAY)];
    assert Run(es) == State(map["t" := HELD_BY_A], map[0 := seen, 1 := seen]);
    RunSnoc(es, Event(WriteBack(0, true), DAY + 5));
    es := es + [Event(WriteBack(0, true), DAY + 5)];
    assert seen[1..] == [] && Evicted(HELD_BY_A) == Row(Pending, None, None, 2, 1);
    assert Run(es) == State(map["t" := Row(Pending, None, None, 2, 1)], map[0 := [], 1 := seen]);
    RunSnoc(es, Event(Ask("t", "b", Claim), DAY + 5));
    es := es + [Event(Ask("t", "b", Claim), DAY + 5)];
    assert Run(es) == State(map["t" := Row(Claimed, Some("b"), Some(DAY + 65), 3, 1)], map[0 := [], 1 := seen]);
    e := Event(WriteBack(1, true), DAY + 5);
  }

  lemma SequentialSnoc(es: seq<Event>, e: Event)
    requires Sequential(es) && !e.step.GiveUp?
    requires e.step.Scan? ==> e.step.reaper == 0 && Outstanding(Run(es), 0) == []
    requires e.step.WriteBack? ==> e.step.reaper == 0
    ensures Sequential(es + [e])
  {
    assert (es + [e])[..|es|] == es;
  }

  /** Renewing the lease after the scan does not help: even with one sequential reaper the write-back evicts the holder
      of a lease that is still good. */
  lemma RenewalAfterScanIsIgnored() returns (es: seq<Event>, e: Event)
    ensures Sequential(es + [e]) && Forward(es + [e]) && Evicts(Run(es), e, "t")
    ensures Run(es).tasks["t"].expiresAt == Some(DAY + 60) && e.now == DAY + 5 && !Lapsed(Run(es).tasks["t"], e.now)
  {
    var seen := [Seen("t", "a")];
    ClaimedByA();
    ScanOfA();
    es := [Event(Post("t"), 0)];
    SequentialSnoc([], es[0]);
    assert [] + [es[0]] == es;
    SequentialSnoc(es, Event(Ask("t", "a", Claim), 0));
    es := es + [Event(Ask("t", "a", Claim), 0)];
    assert es == [Event(Post("t"), 0), Event(Ask("t", "a", Claim), 0)];
    RunSnoc(es, Event(Scan(0, seen), DAY));
    SequentialSnoc(es, Event(Scan(0, seen), DAY));
    es := es + [Event(Scan(0, seen), DAY)];
    assert Run(es) == State(map["t" := HELD_BY_A], map[0 := seen]);
    RunSnoc(es, Event(Ask("t", "a", RenewLease), DAY));
    SequentialSnoc(es, Event(Ask("t", "a", RenewLease), DAY));
    es := es + [Event(Ask("t", "a", RenewLease), DAY)];
    assert Run(es) == State(map["t" := Row(Claimed, Some("a"), Some(DAY + 60), 2, 0)], map[0 := seen]);
    e := Event(WriteBack(0, true), DAY + 5);
    SequentialSnoc(es, e);
  }

  // --- what StartExecution does not check ---------------------------------------------------

  /** The outcome of StartExecution, from the table as its UPDATE and as its SELECT find it. */
  predicate StartSucceeds(atUpdate: Table, atSelect: Table, k: Task, a: Agent) {
    (k in atUpdate && Matches(atUpdate[k], a, Start)) || (k in atSelect && atSelect[k].status == Running)
  }

  /** An undisturbed call succeeds for an agent that does not hold the task exactly if somebody else is running it. */
  lemma StartsWithoutClaimExactly(t: Table, k: Task, a: Agent)
    requires k in t && t[k].claimedBy != Some(a)
    ensures StartSucceeds(t, AskIn(t, k, a, Start, 0), k, a) <==> t[k].status == Running
  {
  }

  /** A run after which agent b starts the task that agent a holds and runs. */
  lemma StartWithoutClaim() returns (es: seq<Event>)
    ensures "t" in Run(es).tasks && Run(es).tasks["t"].claimedBy == Some("a")
    ensures StartSucceeds(Run(es).tasks, AskIn(Run(es).tasks, "t", "b", Start, 1), "t", "b")
  {
    ClaimedByA();
    es := [Event(Post("t"), 0), Event(Ask("t", "a", Claim), 0)];
    RunSnoc(es, Event(Ask("t", "a", Start), 1));
    es := es + [Event(Ask("t", "a", Start), 1)];
    StartsWithoutClaimExactly(Run(es).tasks, "t", "b");
  }

  // --- a whole write-back -------------------------------------------------------------------

  /** The rows of a scan evicted one after the other, except where the statement failed. */
  function EvictAll(t: Table, seen: seq<Seen>, written: seq<bool>): Table
    requires |written| == |seen|
  {
    if seen == [] then t else EvictAll(if written[0] then EvictIn(t, seen[0].task) else t, seen[1..], written[1..])
  }

  /** Undisturbed, the write-back steps of one scan amount to evicting its rows one after the other. */
  lemma {:induction false} WriteBackAll(es: seq<Event>, r: Reaper, now: int, written: seq<bool>)
    requires |written| == |Outstanding(Run(es), r)|
    ensures var all := es + WriteBacks(r, now, written);
            Run(all).tasks == EvictAll(Run(es).tasks, Outstanding(Run(es), r), written) && Outstanding(Run(all), r) == []
    decreases |written|
  {
    if written == [] {
      assert es + WriteBacks(r, now, written) == es;
    } else {
      var e := Event(WriteBack(r, written[0]), now);
      RunSnoc(es, e);
      WriteBackAll(es + [e], r, now, written[1..]);
      assert es + [e] + WriteBacks(r, now, written[1..]) == es + WriteBacks(r, now, written);
    }
  }

  function WriteBacks(r: Reaper, now: int, written: seq<bool>): (es: seq<Event>)
    ensures |es| == |written| && forall i :: 0 <= i < |es| ==> es[i] == Event(WriteBack(r, written[i]), now)
  {
    seq(|written|, i requires 0 <= i < |written| => Event(WriteBack(r, written[i]), now))
  }
}
