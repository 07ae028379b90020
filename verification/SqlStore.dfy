/** The tables behind the mutation bus, and each intent's statements as one function of the transaction's state. */
module SqlStore {

  import opened Options

  type Hash = string
  type Key = (string, string)  // table and id

  datatype VersionedRow = VersionedRow(payload: string, version: Option<int>)
  datatype EventBody = EventBody(id: string, fields: string, idempotencyKey: string)
  /** Rows that other writers put into the events table leave both hash columns NULL. */
  datatype EventRow = EventRow(body: EventBody, prevHash: Option<Hash>, hash: Option<Hash>)

  /** `rows` are the tables with the columns id, payload and version; decisions are numbered by AUTOINCREMENT. */
  datatype Db = Db(rows: map<Key, VersionedRow>, events: seq<EventRow>, decisions: map<nat, string>, lastDecision: nat)

  const EVENTS := "events"
  const DECISIONS := "decision_log"

  /** The two append-only logs have none of the columns that insert and upsert name. */
  predicate IsLog(k: Key) {
    k.0 == EVENTS || k.0 == DECISIONS
  }

  /** A payload that cannot be decoded is None. */
  datatype Operation =
    | Insert
    | Upsert
    | Delete
    | InsertEvent(body: Option<EventBody>)
    | InsertDecision(entry: Option<string>)
    | Unknown

  datatype Intent = Intent(op: Operation, key: Key, payload: string, claimedVersion: int,
                           taskId: string, agentId: string, group: string, hasResultCh: bool)

  /** The version column's default, which an unversioned upsert leaves in place, the event hash, and the decision that a
      text given as id stands for. */
  datatype Config = Config(defaultVersion: Option<int>, sha: (EventBody, Option<Hash>) -> Hash, decisionId: string -> Option<nat>)

  datatype Outcome = Done(db: Db) | Stale | Fatal

  predicate HasVersion(db: Db, k: Key, v: int) {
    k in db.rows && db.rows[k].version == Some(v)
  }

  /** The hash column of the last row, whoever wrote it. */
  function LastHash(events: seq<EventRow>): Option<Hash> {
    if events == [] then None else events[|events| - 1].hash
  }

  predicate TakenId(events: seq<EventRow>, b: EventBody) {
    exists i :: 0 <= i < |events| &&
      (events[i].body.id == b.id || (b.idempotencyKey != "" && events[i].body.idempotencyKey == b.idempotencyKey))
  }

  /** One intent inside the transaction; `fault` is a failure of the database itself. */
  function Exec(c: Config, db: Db, i: Intent, fault: bool): Outcome {
    match i.op
    case Insert =>
      if fault || IsLog(i.key) then Fatal
      else if i.claimedVersion > 0 && !HasVersion(db, i.key, i.claimedVersion - 1) then Stale
      else Done(Plain(c, db, i))
    case Upsert =>
      if fault || IsLog(i.key) then Fatal
      else if i.claimedVersion > 0 && i.key in db.rows && !HasVersion(db, i.key, i.claimedVersion - 1) then Stale
      else Done(Plain(c, db, i))
    case Delete => if fault then Fatal else Done(Plain(c, db, i))
    case InsertEvent(b) => if fault || b.None? || TakenId(db.events, b.value) then Fatal else Done(Plain(c, db, i))
    case InsertDecision(e) => if fault || e.None? then Fatal else Done(Plain(c, db, i))
    case Unknown => Fatal
  }

  function WithoutId(events: seq<EventRow>, id: string): seq<EventRow> {
    if events == [] then []
    else
      var n := |events| - 1;
      WithoutId(events[..n], id) + if events[n].body.id == id then [] else [events[n]]
  }

  /** DELETE WHERE id = ?, on whatever table the key names. */
  function Without(c: Config, db: Db, k: Key): Db {
    if k.0 == EVENTS then db.(events := WithoutId(db.events, k.1))
    else if k.0 == DECISIONS then
      match c.decisionId(k.1)
      case None => db
      case Some(n) => db.(decisions := db.decisions - {n})
    else db.(rows := db.rows - {k})
  }

  /** The same intent on a plain store that checks no versions and refuses nothing. */
  function Plain(c: Config, db: Db, i: Intent): Db {
    match i.op
    case Insert => db.(rows := db.rows[i.key := VersionedRow(i.payload, Some(i.claimedVersion))])
    case Upsert =>
      db.(rows := db.rows[i.key := VersionedRow(i.payload, if i.claimedVersion > 0 then Some(i.claimedVersion) else c.defaultVersion)])
    case Delete => Without(c, db, i.key)
    case InsertEvent(b) =>
      if b.None? then db
      else db.(events := db.events + [EventRow(b.value, LastHash(db.events), Some(c.sha(b.value, LastHash(db.events))))])
    case InsertDecision(e) => if e.None? then db
      else db.(decisions := db.decisions[db.lastDecision + 1 := e.value], lastDecision := db.lastDecision + 1)
    case Unknown => db
  }

  /** What happens to the tables: an acknowledged intent, or an event row inserted past the bus. */
  datatype Change = ByBus(intent: Intent) | ByOthers(body: EventBody)

  function WithForeign(db: Db, body: EventBody): Db {
    db.(events := db.events + [EventRow(body, None, None)])
  }

  function Changed(c: Config, db: Db, x: Change): Db {
    match x
    case ByBus(i) => Plain(c, db, i)
    case ByOthers(body) => WithForeign(db, body)
  }

  predicate Possible(c: Config, db: Db, x: Change) {
    match x
    case ByBus(i) => Exec(c, db, i, false).Done?
    case ByOthers(body) => !TakenId(db.events, body)
  }

  function PlainAll(c: Config, db: Db, xs: seq<Change>): Db {
    if xs == [] then db else Changed(c, PlainAll(c, db, xs[..|xs| - 1]), xs[|xs| - 1])
  }

  /** Every change of `xs` would be executed successfully when its turn comes. */
  predicate Accepted(c: Config, db: Db, xs: seq<Change>) {
    xs == [] || (Accepted(c, db, xs[..|xs| - 1]) && Possible(c, PlainAll(c, db, xs[..|xs| - 1]), xs[|xs| - 1]))
  }

  lemma ExecIsPlain(c: Config, db: Db, i: Intent, fault: bool)
    ensures Exec(c, db, i, fault).Done? ==>
              Exec(c, db, i, fault) == Done(Plain(c, db, i)) && Exec(c, db, i, false) == Done(Plain(c, db, i))
  {
  }

  lemma AcceptedSnoc(c: Config, db: Db, xs: seq<Change>, x: Change)
    ensures PlainAll(c, db, xs + [x]) == Changed(c, PlainAll(c, db, xs), x)
    ensures Accepted(c, db, xs + [x]) <==> Accepted(c, db, xs) && Possible(c, PlainAll(c, db, xs), x)
  {
    assert (xs + [x])[..|xs|] == xs;
  }

  lemma {:induction false} AcceptedConcat(c: Config, db: Db, xs: seq<Change>, ys: seq<Change>)
    requires Accepted(c, db, xs)
    ensures PlainAll(c, db, xs + ys) == PlainAll(c, PlainAll(c, db, xs), ys)
    ensures Accepted(c, db, xs + ys) <==> Accepted(c, PlainAll(c, db, xs), ys)
    decreases |ys|
  {
    if ys == [] {
      assert xs + ys == xs;
    } else {
      assert (xs + ys)[..|xs + ys| - 1] == xs + ys[..|ys| - 1];
      AcceptedConcat(c, db, xs, ys[..|ys| - 1]);
    }
  }

  lemma {:induction false} AcceptedPrefix(c: Config, db: Db, xs: seq<Change>, n: nat)
    requires Accepted(c, db, xs) && n <= |xs|
    ensures Accepted(c, db, xs[..n])
    decreases |xs|
  {
    if n < |xs| {
      AcceptedPrefix(c, db, xs[..|xs| - 1], n);
      assert xs[..|xs| - 1][..n] == xs[..n];
    } else {
      assert xs[..n] == xs;
    }
  }

  // --- what versions guarantee --------------------------------------------------------------

  predicate Touches(x: Change, k: Key) {
    x.ByBus? && x.intent.key == k && (x.intent.op == Insert || x.intent.op == Upsert || x.intent.op == Delete)
  }

  predicate VersionedWrite(x: Change) {
    x.ByBus? && (x.intent.op == Insert || x.intent.op == Upsert) && x.intent.claimedVersion > 0
  }

  ghost predicate OnlyVersioned(xs: seq<Change>, k: Key) {
    forall n :: 0 <= n < |xs| && Touches(xs[n], k) ==> VersionedWrite(xs[n])
  }

  function WritesTo(xs: seq<Change>, k: Key): seq<Intent> {
    if xs == [] then []
    else WritesTo(xs[..|xs| - 1], k) + if Touches(xs[|xs| - 1], k) then [xs[|xs| - 1].intent] else []
  }

  /** `ws` carry the versions v, v + 1, v + 2, ... */
  ghost predicate Consecutive(ws: seq<Intent>) {
    forall n :: 0 <= n < |ws| ==> ws[n].claimedVersion == ws[0].claimedVersion + n
  }

  predicate HoldsRow(db: Db, k: Key, payload: string, version: int) {
    k in db.rows && db.rows[k] == VersionedRow(payload, Some(version))
  }

  /** Accepted versioned writes to one key carry consecutive versions, continue the version that was there, and leave the
      last payload: no update is lost and no version is used twice. */
  ghost predicate NoLostUpdate(db: Db, db': Db, ws: seq<Intent>, k: Key) {
    && Consecutive(ws)
    && (ws != [] && k in db.rows ==> db.rows[k].version == Some(ws[0].claimedVersion - 1))
    && (ws == [] ==> (k in db'.rows <==> k in db.rows))
    && (ws == [] && k in db.rows ==> db'.rows[k] == db.rows[k])
    && (ws != [] ==> HoldsRow(db', k, ws[|ws| - 1].payload, ws[0].claimedVersion + |ws| - 1))
  }

  lemma {:induction false} VersionsConsecutive(c: Config, db: Db, xs: seq<Change>, k: Key)
    requires Accepted(c, db, xs) && OnlyVersioned(xs, k)
    ensures NoLostUpdate(db, PlainAll(c, db, xs), WritesTo(xs, k), k)
    decreases |xs|
  {
    if xs != [] {
      var rest, x := xs[..|xs| - 1], xs[|xs| - 1];
      VersionsConsecutive(c, db, rest, k);
      VersionStep(c, PlainAll(c, db, rest), x, k);
      NoLostUpdateSnoc(db, PlainAll(c, db, rest), PlainAll(c, db, xs), WritesTo(rest, k), x, k);
    }
  }

  /** What one change does to a row that is only written with versions. */
  ghost predicate WrittenOnce(db: Db, db': Db, x: Change, k: Key) {
    && (Touches(x, k) && k in db.rows ==> db.rows[k].version == Some(x.intent.claimedVersion - 1))
    && (Touches(x, k) ==> HoldsRow(db', k, x.intent.payload, x.intent.claimedVersion))
    && (!Touches(x, k) ==> (k in db'.rows <==> k in db.rows))
    && (!Touches(x, k) && k in db.rows ==> db'.rows[k] == db.rows[k])
  }

  lemma NoLostUpdateSnoc(db: Db, db1: Db, db2: Db, ws: seq<Intent>, x: Change, k: Key)
    requires NoLostUpdate(db, db1, ws, k) && WrittenOnce(db1, db2, x, k)
    ensures NoLostUpdate(db, db2, ws + (if Touches(x, k) then [x.intent] else []), k)
  {
  }

  lemma VersionStep(c: Config, db: Db, x: Change, k: Key)
    requires Possible(c, db, x) && (Touches(x, k) ==> VersionedWrite(x))
    ensures WrittenOnce(db, Changed(c, db, x), x, k)
  {
  }

  lemma {:induction false} WritesToContains(xs: seq<Change>, k: Key)
    requires xs != [] && Touches(xs[0], k) && Touches(xs[|xs| - 1], k)
    ensures WritesTo(xs, k) != [] && WritesTo(xs, k)[0] == xs[0].intent
    ensures WritesTo(xs, k)[|WritesTo(xs, k)| - 1] == xs[|xs| - 1].intent
    ensures |xs| > 1 ==> |WritesTo(xs, k)| > 1
  {
    FirstWrite(xs, k);
    if |xs| > 1 {
      FirstWrite(xs[..|xs| - 1], k);
    }
  }

  lemma {:induction false} FirstWrite(xs: seq<Change>, k: Key)
    requires xs != [] && Touches(xs[0], k)
    ensures WritesTo(xs, k) != [] && WritesTo(xs, k)[0] == xs[0].intent
    decreases |xs|
  {
    if |xs| > 1 {
      FirstWrite(xs[..|xs| - 1], k);
    }
  }

  lemma PieceAccepted(c: Config, db: Db, xs: seq<Change>, p: nat, q: nat)
    requires Accepted(c, db, xs) && p <= q <= |xs|
    ensures Accepted(c, PlainAll(c, db, xs[..p]), xs[p..q])
  {
    AcceptedPrefix(c, db, xs, q);
    AcceptedPrefix(c, db, xs, p);
    assert xs[..q] == xs[..p] + xs[p..q];
    AcceptedConcat(c, db, xs[..p], xs[p..q]);
  }

  lemma EndsDiffer(c: Config, db: Db, xs: seq<Change>, k: Key)
    requires Accepted(c, db, xs) && |xs| > 1 && OnlyVersioned(xs, k)
    requires Touches(xs[0], k) && Touches(xs[|xs| - 1], k)
    ensures xs[0].intent.claimedVersion < xs[|xs| - 1].intent.claimedVersion
  {
    VersionsConsecutive(c, db, xs, k);
    WritesToContains(xs, k);
  }

  /** Both are versioned writes of `k` under one version. */
  predicate SameVersion(x: Change, y: Change, k: Key) {
    Touches(x, k) && VersionedWrite(x) && Touches(y, k) && VersionedWrite(y) &&
    x.intent.claimedVersion == y.intent.claimedVersion
  }

  lemma ResetInside(c: Config, db: Db, xs: seq<Change>, k: Key) returns (n: nat)
    requires Accepted(c, db, xs) && |xs| > 1 && SameVersion(xs[0], xs[|xs| - 1], k)
    ensures 0 < n < |xs| - 1 && Touches(xs[n], k) && !VersionedWrite(xs[n])
  {
    if OnlyVersioned(xs, k) {
      EndsDiffer(c, db, xs, k);
    }
    n :| 0 <= n < |xs| && Touches(xs[n], k) && !VersionedWrite(xs[n]);
  }

  /** Two accepted writes claiming one version of one key have a delete or an unversioned write of it between them. */
  lemma SameVersionNeedsReset(c: Config, db: Db, xs: seq<Change>, p: nat, q: nat, k: Key)
    requires Accepted(c, db, xs) && p < q < |xs| && SameVersion(xs[p], xs[q], k)
    ensures exists r :: p < r < q && Touches(xs[r], k) && !VersionedWrite(xs[r])
  {
    PieceAccepted(c, db, xs, p, q + 1);
    var n := ResetInside(c, PlainAll(c, db, xs[..p]), xs[p..q + 1], k);
    assert xs[p + n] == xs[p..q + 1][n];
  }

  /** What a reset must leave so that version `v` can be written again, by an upsert or by an insert. */
  predicate Reopens(c: Config, reset: Intent, v: int, again: Operation) {
    match reset.op
    case Delete => again == Upsert
    case Insert => reset.claimedVersion == v - 1
    case _ => c.defaultVersion == Some(v - 1)
  }

  /** And one reset is enough exactly when it reopens that version. */
  lemma ReusedExactly(c: Config, db: Db, k: Key, w: Change, reset: Change, w': Change)
    requires SameVersion(w, w', k) && Possible(c, db, w) && Touches(reset, k) && !VersionedWrite(reset)
    ensures Accepted(c, db, [w, reset, w']) <==> Reopens(c, reset.intent, w.intent.claimedVersion, w'.intent.op)
  {
    AcceptedSnoc(c, db, [], w);
    assert [] + [w] == [w] && [w] + [reset] == [w, reset] && [w, reset] + [w'] == [w, reset, w'];
    AcceptedSnoc(c, db, [w], reset);
    AcceptedSnoc(c, db, [w, reset], w');
  }

  // --- what an acknowledged write leaves ----------------------------------------------------

  /** The last change that names the row. */
  ghost predicate LastTouch(xs: seq<Change>, k: Key, n: int) {
    0 <= n < |xs| && Touches(xs[n], k) && forall m :: n < m < |xs| ==> !Touches(xs[m], k)
  }

  ghost predicate NoTouch(xs: seq<Change>, k: Key) {
    forall n :: 0 <= n < |xs| ==> !Touches(xs[n], k)
  }

  /** The row is what the intent says: its payload, and its version unless it is an unversioned upsert. */
  predicate Stored(c: Config, db: Db, i: Intent) {
    && i.key in db.rows && db.rows[i.key].payload == i.payload
    && db.rows[i.key].version == if i.op == Upsert && i.claimedVersion <= 0 then c.defaultVersion else Some(i.claimedVersion)
  }

  ghost predicate LastWriteStands(c: Config, db: Db, db': Db, xs: seq<Change>, k: Key) {
    && (forall n :: LastTouch(xs, k, n) ==> if xs[n].intent.op == Delete then k !in db'.rows else Stored(c, db', xs[n].intent))
    && (NoTouch(xs, k) ==> (k in db'.rows <==> k in db.rows) && (k in db.rows ==> db'.rows[k] == db.rows[k]))
  }

  lemma LastTouchSnoc(xs: seq<Change>, x: Change, k: Key)
    ensures forall n :: LastTouch(xs + [x], k, n) <==> if Touches(x, k) then n == |xs| else LastTouch(xs, k, n)
    ensures NoTouch(xs + [x], k) <==> NoTouch(xs, k) && !Touches(x, k)
  {
    var more := xs + [x];
    assert more[|xs|] == x && forall n :: 0 <= n < |xs| ==> more[n] == xs[n];
  }

  lemma {:induction false} SomeTouch(xs: seq<Change>, k: Key)
    ensures NoTouch(xs, k) || exists n :: LastTouch(xs, k, n)
  {
    if xs != [] {
      var rest, x := xs[..|xs| - 1], xs[|xs| - 1];
      assert xs == rest + [x];
      SomeTouch(rest, k);
      LastTouchSnoc(rest, x, k);
      assert Touches(x, k) ==> LastTouch(xs, k, |rest|);
    }
  }

  /** Whatever versions are claimed: a row is what the last accepted insert or upsert of it says, gone if a delete came
      last, and untouched if nothing names it. */
  lemma {:induction false} LastTouchDecides(c: Config, db: Db, xs: seq<Change>, k: Key)
    requires Accepted(c, db, xs) && !IsLog(k)
    ensures LastWriteStands(c, db, PlainAll(c, db, xs), xs, k)
    decreases |xs|
  {
    if xs != [] {
      var rest, x := xs[..|xs| - 1], xs[|xs| - 1];
      assert xs == rest + [x];
      LastTouchDecides(c, db, rest, k);
      LastTouchSnoc(rest, x, k);
      SomeTouch(rest, k);
      TouchStep(c, PlainAll(c, db, rest), x, k);
    }
  }

  lemma TouchStep(c: Config, db: Db, x: Change, k: Key)
    requires Possible(c, db, x) && !IsLog(k)
    ensures var db' := Changed(c, db, x);
            if !Touches(x, k) then (k in db'.rows <==> k in db.rows) && (k in db.rows ==> db'.rows[k] == db.rows[k])
            else if x.intent.op == Delete then k !in db'.rows
            else Stored(c, db', x.intent)
  {
  }

  /** The decisions that the changes log, in order. */
  function Entries(xs: seq<Change>): seq<string> {
    if xs == [] then []
    else
      var x := xs[|xs| - 1];
      Entries(xs[..|xs| - 1]) + if x.ByBus? && x.intent.op.InsertDecision? && x.intent.op.entry.Some? then [x.intent.op.entry.value] else []
  }

  predicate DropsDecision(c: Config, x: Change, n: nat) {
    x.ByBus? && x.intent.op == Delete && x.intent.key.0 == DECISIONS && c.decisionId(x.intent.key.1) == Some(n)
  }

  ghost predicate KeptFrom(c: Config, xs: seq<Change>, p: int, n: nat) {
    forall m :: 0 <= p <= m < |xs| ==> !DropsDecision(c, xs[m], n)
  }

  /** Change `p` logs decision `v` under number `n`. */
  predicate LogsAt(db: Db, xs: seq<Change>, p: int, n: nat, v: string) {
    && 0 <= p < |xs| && xs[p].ByBus? && xs[p].intent.op == InsertDecision(Some(v))
    && n == db.lastDecision + |Entries(xs[..p])| + 1
  }

  ghost predicate HasDecision(c: Config, db: Db, xs: seq<Change>, n: nat, v: string) {
    (n in db.decisions && db.decisions[n] == v && KeptFrom(c, xs, 0, n)) ||
    exists p :: LogsAt(db, xs, p, n, v) && KeptFrom(c, xs, p + 1, n)
  }

  predicate Numbered(db: Db) {
    forall n :: n in db.decisions ==> n <= db.lastDecision
  }

  lemma HasDecisionSnoc(c: Config, db: Db, xs: seq<Change>, x: Change, n: nat, v: string)
    ensures HasDecision(c, db, xs + [x], n, v) <==>
              (HasDecision(c, db, xs, n, v) && !DropsDecision(c, x, n)) ||
              (x.ByBus? && x.intent.op == InsertDecision(Some(v)) && n == db.lastDecision + |Entries(xs)| + 1)
  {
    var more := xs + [x];
    assert more[..|xs|] == xs && more[|xs|] == x;
    forall p | 0 <= p < |xs| ensures LogsAt(db, more, p, n, v) <==> LogsAt(db, xs, p, n, v) {
      assert more[..p] == xs[..p];
    }
    forall p | 0 <= p <= |xs| ensures KeptFrom(c, more, p, n) <==> KeptFrom(c, xs, p, n) && !DropsDecision(c, x, n) {
      KeptFromSnoc(c, xs, x, p, n);
    }
    assert KeptFrom(c, more, |xs| + 1, n);
    assert LogsAt(db, more, |xs|, n, v) <==> x.ByBus? && x.intent.op == InsertDecision(Some(v)) && n == db.lastDecision + |Entries(xs)| + 1;
    if p :| LogsAt(db, xs, p, n, v) && KeptFrom(c, xs, p + 1, n) && !DropsDecision(c, x, n) {
      assert LogsAt(db, more, p, n, v) && KeptFrom(c, more, p + 1, n);
    }
  }

  lemma KeptFromSnoc(c: Config, xs: seq<Change>, x: Change, p: nat, n: nat)
    requires p <= |xs|
    ensures KeptFrom(c, xs + [x], p, n) <==> KeptFrom(c, xs, p, n) && !DropsDecision(c, x, n)
  {
    var more := xs + [x];
    if KeptFrom(c, more, p, n) {
      assert more[|xs|] == x && forall m :: p <= m < |xs| ==> more[m] == xs[m];
    }
  }

  /** The decision log holds exactly the accepted decisions, numbered in order behind those before, except the deleted ones;
      no number is used twice. */
  lemma {:induction false} DecisionsExactly(c: Config, db: Db, xs: seq<Change>)
    requires Accepted(c, db, xs) && Numbered(db)
    ensures var db' := PlainAll(c, db, xs);
            && db'.lastDecision == db.lastDecision + |Entries(xs)| && Numbered(db')
            && forall n, v :: HasDecision(c, db, xs, n, v) <==> n in db'.decisions && db'.decisions[n] == v
    decreases |xs|
  {
    if xs != [] {
      var rest, x := xs[..|xs| - 1], xs[|xs| - 1];
      assert xs == rest + [x];
      DecisionsExactly(c, db, rest);
      var before, after := PlainAll(c, db, rest), PlainAll(c, db, xs);
      forall n, v ensures HasDecision(c, db, xs, n, v) <==> n in after.decisions && after.decisions[n] == v {
        HasDecisionSnoc(c, db, rest, x, n, v);
        assert HasDecision(c, db, rest, n, v) <==> n in before.decisions && before.decisions[n] == v;
        DecisionStep(c, before, x, n);
      }
    }
  }

  lemma DecisionStep(c: Config, db: Db, x: Change, n: nat)
    requires Possible(c, db, x) && Numbered(db)
    ensures var db', logs := Changed(c, db, x), x.ByBus? && x.intent.op.InsertDecision?;
            && (logs ==> x.intent.op.entry.Some? && db'.decisions == db.decisions[db.lastDecision + 1 := x.intent.op.entry.value])
            && (!logs ==> (n in db'.decisions <==> n in db.decisions && !DropsDecision(c, x, n)))
            && (!logs && n in db'.decisions ==> db'.decisions[n] == db.decisions[n])
  {
  }

  /** What an event row tells of its origin: the body it was sent with, and whether the bus has written it. */
  function Origins(events: seq<EventRow>): seq<(EventBody, bool)> {
    seq(|events|, i requires 0 <= i < |events| => (events[i].body, IsBus(events[i])))
  }

  function Appended(xs: seq<Change>): seq<(EventBody, bool)> {
    if xs == [] then []
    else
      Appended(xs[..|xs| - 1]) +
      match xs[|xs| - 1]
      case ByOthers(body) => [(body, false)]
      case ByBus(i) => if i.op.InsertEvent? && i.op.body.Some? then [(i.op.body.value, true)] else []
  }

  lemma OriginsSnoc(events: seq<EventRow>, r: EventRow)
    ensures Origins(events + [r]) == Origins(events) + [(r.body, IsBus(r))]
  {
  }

  /** As long as no event is deleted the table holds, behind what it held, every accepted event as it was sent, in order. */
  lemma {:induction false} EventsInOrder(c: Config, db: Db, xs: seq<Change>)
    requires Accepted(c, db, xs) && OnlyAppends(xs)
    ensures Origins(PlainAll(c, db, xs).events) == Origins(db.events) + Appended(xs)
    decreases |xs|
  {
    if xs != [] {
      var rest, x := xs[..|xs| - 1], xs[|xs| - 1];
      EventsInOrder(c, db, rest);
      var before, after := PlainAll(c, db, rest).events, PlainAll(c, db, xs).events;
      if after == before {
        assert Appended(xs) == Appended(rest) by { EventStep(c, PlainAll(c, db, rest), x); }
      } else {
        EventStep(c, PlainAll(c, db, rest), x);
        OriginsSnoc(before, after[|after| - 1]);
        assert after == before + [after[|after| - 1]];
      }
    }
  }

  lemma EventStep(c: Config, db: Db, x: Change)
    requires Possible(c, db, x) && KeepsEvents(x)
    ensures var es, es', sent := db.events, Changed(c, db, x).events, Appended([x]);
            if sent == [] then es' == es
            else |es'| == |es| + 1 && es'[..|es|] == es && sent == [(es'[|es|].body, IsBus(es'[|es|]))]
  {
  }

  // --- the event log ------------------------------------------------------------------------

  /** A row of the bus; all others have no hash. */
  predicate IsBus(r: EventRow) {
    r.hash.Some?
  }

  predicate WrittenAt(c: Config, events: seq<EventRow>, i: nat)
    requires i < |events|
  {
    if IsBus(events[i]) then
      events[i].prevHash == LastHash(events[..i]) && events[i].hash == Some(c.sha(events[i].body, events[i].prevHash))
    else
      events[i].prevHash == None
  }

  ghost predicate Written(c: Config, events: seq<EventRow>) {
    forall i :: 0 <= i < |events| ==> WrittenAt(c, events, i)
  }

  lemma WrittenSnoc(c: Config, events: seq<EventRow>, r: EventRow)
    requires Written(c, events) && WrittenAt(c, events + [r], |events|)
    ensures Written(c, events + [r])
  {
    var more := events + [r];
    forall n | 0 <= n < |more| ensures WrittenAt(c, more, n) {
      if n < |events| {
        assert WrittenAt(c, events, n) && events[..n] == more[..n];
      }
    }
  }

  /** Anything but a delete of the events table. */
  predicate KeepsEvents(x: Change) {
    !(x.ByBus? && x.intent.op == Delete && x.intent.key.0 == EVENTS)
  }

  ghost predicate OnlyAppends(xs: seq<Change>) {
    forall n :: 0 <= n < |xs| ==> KeepsEvents(xs[n])
  }

  lemma WrittenChange(c: Config, db: Db, x: Change)
    requires Written(c, db.events) && KeepsEvents(x)
    ensures Written(c, Changed(c, db, x).events) && db.events <= Changed(c, db, x).events
  {
    var es := db.events;
    match x
    case ByBus(i) =>
      if i.op.InsertEvent? && i.op.body.Some? {
        var r := EventRow(i.op.body.value, LastHash(es), Some(c.sha(i.op.body.value, LastHash(es))));
        assert (es + [r])[..|es|] == es;
        WrittenSnoc(c, es, r);
      }
    case ByOthers(body) => WrittenSnoc(c, es, EventRow(body, None, None));
  }

  /** As long as no event is deleted the table only grows, and each row of the bus holds the hash column of the row before
      it, of any kind, and its own hash. */
  lemma {:induction false} EventsStayWritten(c: Config, db: Db, xs: seq<Change>)
    requires Written(c, db.events) && OnlyAppends(xs)
    ensures Written(c, PlainAll(c, db, xs).events) && db.events <= PlainAll(c, db, xs).events
    decreases |xs|
  {
    if xs != [] {
      EventsStayWritten(c, db, xs[..|xs| - 1]);
      WrittenChange(c, PlainAll(c, db, xs[..|xs| - 1]), xs[|xs| - 1]);
    }
  }

  /** `i` is the last row of the bus before `j`. */
  ghost predicate PreviousBus(events: seq<EventRow>, i: int, j: int) {
    0 <= i < j < |events| && IsBus(events[i]) && forall m :: i < m < j ==> !IsBus(events[m])
  }

  /** The rows of the bus, in order. */
  function BusRows(events: seq<EventRow>): seq<EventRow> {
    if events == [] then []
    else
      var n := |events| - 1;
      BusRows(events[..n]) + if IsBus(events[n]) then [events[n]] else []
  }

  predicate Linked(bs: seq<EventRow>, n: nat)
    requires n < |bs|
  {
    bs[n].prevHash == if n == 0 then None else bs[n - 1].hash
  }

  ghost predicate Chained(bs: seq<EventRow>) {
    forall n :: 0 <= n < |bs| ==> Linked(bs, n)
  }

  /** Every row of the bus points to the row of the bus before it: the bus has written one chain. */
  ghost predicate OneChain(events: seq<EventRow>) {
    Chained(BusRows(events))
  }

  predicate InterruptedAt(events: seq<EventRow>, i: int, m: int, j: int) {
    ForeignBehind(events, i, m) && m < j < |events| && IsBus(events[j])
  }

  /** A row without hash stands between two rows of the bus. */
  ghost predicate Interrupted(events: seq<EventRow>) {
    exists i, m, j :: InterruptedAt(events, i, m, j)
  }

  predicate ForeignBehind(events: seq<EventRow>, i: int, m: int) {
    0 <= i < m < |events| && IsBus(events[i]) && !IsBus(events[m])
  }

  /** A foreign row stands behind a row of the bus. */
  ghost predicate ForeignBehindBus(events: seq<EventRow>) {
    exists i, m :: ForeignBehind(events, i, m)
  }

  /** A row of the bus links to the previous row of the bus exactly when no row without hash stands between them. */
  lemma LinksExactly(c: Config, events: seq<EventRow>, i: int, j: int)
    requires Written(c, events) && PreviousBus(events, i, j) && IsBus(events[j])
    ensures events[j].prevHash == events[i].hash <==> !exists m :: i < m < j && !IsBus(events[m])
  {
    assert WrittenAt(c, events, j);
    var before := events[..j];
    assert before[|before| - 1] == events[j - 1];
    if i < j - 1 {
      assert !IsBus(events[j - 1]);
    }
  }

  lemma BusRowsSnoc(events: seq<EventRow>, r: EventRow)
    ensures BusRows(events + [r]) == BusRows(events) + if IsBus(r) then [r] else []
  {
    assert (events + [r])[..|events|] == events;
  }

  lemma ChainedSnoc(bs: seq<EventRow>, r: EventRow)
    ensures Chained(bs + [r]) <==> Chained(bs) && r.prevHash == LastHash(bs)
  {
    var more := bs + [r];
    assert Linked(more, |bs|) <==> r.prevHash == LastHash(bs);
    forall n | 0 <= n < |bs| ensures Linked(more, n) <==> Linked(bs, n) {
    }
  }

  lemma {:induction false} LastBusRow(events: seq<EventRow>)
    ensures forall r :: r in BusRows(events) ==> r in events && IsBus(r)
    ensures BusRows(events) == [] <==> forall m :: 0 <= m < |events| ==> !IsBus(events[m])
    ensures events != [] && IsBus(events[|events| - 1]) ==>
              BusRows(events) != [] && BusRows(events)[|BusRows(events)| - 1] == events[|events| - 1]
  {
    if events != [] {
      LastBusRow(events[..|events| - 1]);
    }
  }

  lemma InterruptedSnoc(events: seq<EventRow>, r: EventRow)
    ensures Interrupted(events + [r]) <==> Interrupted(events) || (IsBus(r) && ForeignBehindBus(events))
  {
    var more := events + [r];
    forall i, m, j | InterruptedAt(more, i, m, j) ensures Interrupted(events) || (IsBus(r) && ForeignBehindBus(events)) {
      assert ForeignBehind(events, i, m);
      assert j < |events| ==> InterruptedAt(events, i, m, j);
    }
    forall i, m, j | InterruptedAt(events, i, m, j) ensures Interrupted(more) {
      assert InterruptedAt(more, i, m, j);
    }
    forall i, m | ForeignBehind(events, i, m) && IsBus(r) ensures Interrupted(more) {
      assert InterruptedAt(more, i, m, |events|);
    }
  }

  lemma NoForeignBehind(rest: seq<EventRow>)
    requires rest != [] && IsBus(rest[|rest| - 1]) && !Interrupted(rest)
    ensures !ForeignBehindBus(rest)
  {
    forall i, m ensures !ForeignBehind(rest, i, m) {
      assert !InterruptedAt(rest, i, m, |rest| - 1);
    }
  }

  lemma NextAfterBus(rest: seq<EventRow>)
    requires rest != [] && IsBus(rest[|rest| - 1])
    ensures LastHash(rest) == LastHash(BusRows(rest))
  {
    LastBusRow(rest);
  }

  lemma NextAfterForeign(rest: seq<EventRow>)
    requires rest != [] && !IsBus(rest[|rest| - 1])
    ensures LastHash(rest) == LastHash(BusRows(rest)) <==> !ForeignBehindBus(rest)
  {
    LastBusRow(rest);
    var bs := BusRows(rest);
    if bs != [] {
      assert bs[|bs| - 1] in bs;
      var i :| 0 <= i < |rest| && IsBus(rest[i]);
      assert ForeignBehind(rest, i, |rest| - 1);
    }
  }

  /** For the next row of the bus: it links up exactly if it does not follow a foreign row behind an earlier row of the
      bus, as long as nothing was interrupted before. */
  lemma NextLinks(rest: seq<EventRow>)
    requires !Interrupted(rest)
    ensures LastHash(rest) == LastHash(BusRows(rest)) <==> !ForeignBehindBus(rest)
  {
    if rest != [] {
      if IsBus(rest[|rest| - 1]) {
        NextAfterBus(rest);
        NoForeignBehind(rest);
      } else {
        NextAfterForeign(rest);
      }
    }
  }

  /** The bus has written one chain exactly when nobody else wrote between its rows. */
  lemma {:induction false} OneChainExactly(c: Config, events: seq<EventRow>)
    requires Written(c, events)
    ensures OneChain(events) <==> !Interrupted(events)
    decreases |events|
  {
    if events != [] {
      var rest, r := events[..|events| - 1], events[|events| - 1];
      assert events == rest + [r];
      assert Written(c, rest) by {
        forall i | 0 <= i < |rest| ensures WrittenAt(c, rest, i) {
          assert WrittenAt(c, events, i) && events[..i] == rest[..i];
        }
      }
      OneChainExactly(c, rest);
      InterruptedSnoc(rest, r);
      if IsBus(r) {
        assert WrittenAt(c, events, |rest|);
        ChainedSnoc(BusRows(rest), r);
        if !Interrupted(rest) {
          NextLinks(rest);
        }
      } else {
        assert BusRows(events) == BusRows(rest);
      }
    }
  }

  // --- what a deleted event does ------------------------------------------------------------

  /** Every id stands in the table once. */
  ghost predicate UniqueEvents(events: seq<EventRow>) {
    forall i, j :: 0 <= i < j < |events| ==> events[i].body.id != events[j].body.id
  }

  ghost predicate NoSuchId(events: seq<EventRow>, id: string) {
    forall i :: 0 <= i < |events| ==> events[i].body.id != id
  }

  lemma UniqueSnoc(events: seq<EventRow>, r: EventRow)
    ensures UniqueEvents(events + [r]) <==> UniqueEvents(events) && NoSuchId(events, r.body.id)
  {
    var more := events + [r];
    if UniqueEvents(more) {
      assert forall i :: 0 <= i < |events| ==> more[i] == events[i] && more[i].body.id != more[|events|].body.id;
    }
  }

  lemma NoSuchIdSnoc(events: seq<EventRow>, r: EventRow, x: string)
    ensures NoSuchId(events + [r], x) <==> NoSuchId(events, x) && r.body.id != x
  {
    var more := events + [r];
    if NoSuchId(more, x) {
      assert more[|events|] == r && forall i :: 0 <= i < |events| ==> events[i] == more[i];
    }
  }

  lemma {:induction false} WithoutIdHas(events: seq<EventRow>, id: string, x: string)
    ensures NoSuchId(WithoutId(events, id), x) <==> x == id || NoSuchId(events, x)
    decreases |events|
  {
    if events != [] {
      var rest, r := events[..|events| - 1], events[|events| - 1];
      assert events == rest + [r];
      WithoutIdHas(rest, id, x);
      NoSuchIdSnoc(rest, r, x);
      NoSuchIdSnoc(WithoutId(rest, id), r, x);
      assert WithoutId(rest, id) + [] == WithoutId(rest, id);
    }
  }

  lemma {:induction false} WithoutIdNone(events: seq<EventRow>, id: string)
    requires NoSuchId(events, id)
    ensures WithoutId(events, id) == events
    decreases |events|
  {
    if events != [] {
      WithoutIdNone(events[..|events| - 1], id);
    }
  }

  lemma {:induction false} WithoutIdUnique(events: seq<EventRow>, id: string)
    requires UniqueEvents(events)
    ensures UniqueEvents(WithoutId(events, id))
    decreases |events|
  {
    if events != [] {
      var rest, r := events[..|events| - 1], events[|events| - 1];
      assert events == rest + [r];
      UniqueSnoc(rest, r);
      WithoutIdUnique(rest, id);
      WithoutIdHas(rest, id, r.body.id);
      UniqueSnoc(WithoutId(rest, id), r);
    }
  }

  /** In every run the ids of the events stay unique. */
  lemma {:induction false} IdsStayUnique(c: Config, db: Db, xs: seq<Change>)
    requires UniqueEvents(db.events) && Accepted(c, db, xs)
    ensures UniqueEvents(PlainAll(c, db, xs).events)
    decreases |xs|
  {
    if xs != [] {
      var rest, x := xs[..|xs| - 1], xs[|xs| - 1];
      IdsStayUnique(c, db, rest);
      var db' := PlainAll(c, db, rest);
      if x.ByBus? && x.intent.op == Delete && x.intent.key.0 == EVENTS {
        WithoutIdUnique(db'.events, x.intent.key.1);
      }
    }
  }

  predicate SameKey(a: EventRow, b: EventRow) {
    a.body.idempotencyKey != "" && a.body.idempotencyKey == b.body.idempotencyKey
  }

  /** No two rows share an idempotency key, except the empty one. */
  ghost predicate UniqueKeys(events: seq<EventRow>) {
    forall i, j :: 0 <= i < j < |events| ==> !SameKey(events[i], events[j])
  }

  ghost predicate NoSameKey(events: seq<EventRow>, r: EventRow) {
    forall i :: 0 <= i < |events| ==> !SameKey(events[i], r)
  }

  lemma KeysSnoc(events: seq<EventRow>, r: EventRow)
    ensures UniqueKeys(events + [r]) <==> UniqueKeys(events) && NoSameKey(events, r)
  {
    var more := events + [r];
    if UniqueKeys(more) {
      assert forall i :: 0 <= i < |events| ==> more[i] == events[i] && !SameKey(more[i], more[|events|]);
    }
  }

  lemma {:induction false} WithoutIdKeys(events: seq<EventRow>, id: string, r: EventRow)
    requires NoSameKey(events, r)
    ensures NoSameKey(WithoutId(events, id), r)
    decreases |events|
  {
    if events != [] {
      WithoutIdKeys(events[..|events| - 1], id, r);
    }
  }

  lemma {:induction false} WithoutIdKeysUnique(events: seq<EventRow>, id: string)
    requires UniqueKeys(events)
    ensures UniqueKeys(WithoutId(events, id))
    decreases |events|
  {
    if events != [] {
      var rest, r := events[..|events| - 1], events[|events| - 1];
      assert events == rest + [r];
      KeysSnoc(rest, r);
      WithoutIdKeysUnique(rest, id);
      WithoutIdKeys(rest, id, r);
      KeysSnoc(WithoutId(rest, id), r);
      assert WithoutId(rest, id) + [] == WithoutId(rest, id);
    }
  }

  /** In every run the idempotency keys stay unique. */
  lemma {:induction false} KeysStayUnique(c: Config, db: Db, xs: seq<Change>)
    requires UniqueKeys(db.events) && Accepted(c, db, xs)
    ensures UniqueKeys(PlainAll(c, db, xs).events)
    decreases |xs|
  {
    if xs != [] {
      var rest, x := xs[..|xs| - 1], xs[|xs| - 1];
      KeysStayUnique(c, db, rest);
      KeysStep(c, PlainAll(c, db, rest), x);
    }
  }

  lemma KeysStep(c: Config, db: Db, x: Change)
    requires UniqueKeys(db.events) && Possible(c, db, x)
    ensures UniqueKeys(Changed(c, db, x).events)
  {
    if x.ByBus? && x.intent.op == Delete && x.intent.key.0 == EVENTS {
      WithoutIdKeysUnique(db.events, x.intent.key.1);
    }
  }

  lemma {:induction false} WithoutOne(events: seq<EventRow>, p: nat)
    requires UniqueEvents(events) && p < |events|
    ensures WithoutId(events, events[p].body.id) == events[..p] + events[p + 1..]
    decreases |events|
  {
    var n, id := |events| - 1, events[p].body.id;
    var rest := events[..n];
    if p < n {
      WithoutOne(rest, p);
      assert rest[..p] == events[..p] && rest[p + 1..] + [events[n]] == events[p + 1..];
    } else {
      WithoutIdNone(rest, id);
      assert events[..p] == rest && events[p + 1..] == [];
    }
  }

  lemma {:induction false} BusRowsConcat(a: seq<EventRow>, b: seq<EventRow>)
    ensures BusRows(a + b) == BusRows(a) + BusRows(b)
    decreases |b|
  {
    if b == [] {
      assert a + b == a;
    } else {
      assert (a + b)[..|a + b| - 1] == a + b[..|b| - 1];
      BusRowsConcat(a, b[..|b| - 1]);
    }
  }

  /** Taking a row out of a chain leaves a chain exactly if nothing follows it, or the row before it has its hash. */
  lemma ChainedWithout(front: seq<EventRow>, r: EventRow, back: seq<EventRow>)
    requires Chained(front + [r] + back) && r.hash.Some?
    ensures Chained(front + back) <==> back == [] || LastHash(front) == r.hash
  {
    var all, less := front + [r] + back, front + back;
    forall n | 0 <= n < |less| && n != |front| ensures Linked(less, n) {
      assert Linked(all, if n < |front| then n else n + 1);
    }
    if back != [] {
      assert Linked(all, |front| + 1) && all[|front| + 1] == back[0] == less[|front|];
      assert Linked(less, |front|) <==> back[0].prevHash == LastHash(front);
    }
  }

  /** Row `p` is not of the bus, or the bus has nothing behind it, or it shares its hash with the row of the bus before. */
  predicate MayGo(events: seq<EventRow>, p: nat)
    requires p < |events|
  {
    !IsBus(events[p]) || BusRows(events[p + 1..]) == [] || LastHash(BusRows(events[..p])) == events[p].hash
  }

  /** Deleting an event from a table on which the bus has one chain keeps it exactly if the row is not of the bus, or the
      bus has written nothing behind it, or SHA-256 gives the row of the bus before it the same hash. */
  lemma {:induction false} DeleteKeepsOneChainExactly(events: seq<EventRow>, p: nat)
    requires UniqueEvents(events) && OneChain(events) && p < |events|
    ensures OneChain(WithoutId(events, events[p].body.id)) <==> MayGo(events, p)
  {
    var front, r, back := events[..p], events[p], events[p + 1..];
    WithoutOne(events, p);
    assert events == front + [r] + back;
    BusRowsConcat(front + [r], back);
    BusRowsConcat(front, [r]);
    BusRowsConcat(front, back);
    assert [r][..0] == [];
    assert BusRows([r]) == if IsBus(r) then [r] else [];
    if IsBus(r) {
      ChainedWithout(BusRows(front), r, BusRows(back));
    } else {
      assert BusRows(front) + [] == BusRows(front);
    }
  }

  // --- one chain all along a run ------------------------------------------------------------

  /** What a change must not do: insert an event of the bus behind a foreign row that has events of the bus before it, or
      delete an event of the bus from within its chain. */
  predicate KeepsChain(events: seq<EventRow>, x: Change) {
    x.ByBus? ==>
      && (x.intent.op.InsertEvent? ==> BusRows(events) == [] || IsBus(events[|events| - 1]))
      && (!KeepsEvents(x) ==> forall p :: 0 <= p < |events| && events[p].body.id == x.intent.key.1 ==> MayGo(events, p))
  }

  lemma InsertKeepsChain(events: seq<EventRow>, r: EventRow)
    requires OneChain(events) && IsBus(r) && r.prevHash == LastHash(events)
    ensures OneChain(events + [r]) <==> BusRows(events) == [] || IsBus(events[|events| - 1])
  {
    BusRowsSnoc(events, r);
    ChainedSnoc(BusRows(events), r);
    LastBusRow(events);
    var bs := BusRows(events);
    if bs != [] {
      assert bs[|bs| - 1] in bs;
    }
  }

  lemma DeleteKeepsChain(events: seq<EventRow>, id: string)
    requires UniqueEvents(events) && OneChain(events)
    ensures OneChain(WithoutId(events, id)) <==>
              forall p :: 0 <= p < |events| && events[p].body.id == id ==> MayGo(events, p)
  {
    if NoSuchId(events, id) {
      WithoutIdNone(events, id);
    } else {
      var p :| 0 <= p < |events| && events[p].body.id == id;
      DeleteKeepsOneChainExactly(events, p);
      assert forall q :: 0 <= q < |events| && events[q].body.id == id ==> q == p;
    }
  }

  lemma ChangeKeepsChainExactly(c: Config, db: Db, x: Change)
    requires UniqueEvents(db.events) && OneChain(db.events) && Possible(c, db, x)
    ensures OneChain(Changed(c, db, x).events) <==> KeepsChain(db.events, x)
  {
    if x.ByOthers? {
      BusRowsSnoc(db.events, EventRow(x.body, None, None));
      assert BusRows(db.events) + [] == BusRows(db.events);
    } else if x.intent.op.InsertEvent? {
      var b := x.intent.op.body.value;
      InsertKeepsChain(db.events, EventRow(b, LastHash(db.events), Some(c.sha(b, LastHash(db.events)))));
    } else if !KeepsEvents(x) {
      DeleteKeepsChain(db.events, x.intent.key.1);
    }
  }

  ghost predicate ChainAt(c: Config, db: Db, xs: seq<Change>, n: int) {
    0 <= n <= |xs| && OneChain(PlainAll(c, db, xs[..n]).events)
  }

  ghost predicate KeepsAt(c: Config, db: Db, xs: seq<Change>, n: int) {
    0 <= n < |xs| && KeepsChain(PlainAll(c, db, xs[..n]).events, xs[n])
  }

  lemma {:induction false} NextPossible(c: Config, db: Db, xs: seq<Change>, n: nat)
    requires Accepted(c, db, xs) && n < |xs|
    ensures Accepted(c, db, xs[..n]) && Possible(c, PlainAll(c, db, xs[..n]), xs[n])
    ensures PlainAll(c, db, xs[..n + 1]) == Changed(c, PlainAll(c, db, xs[..n]), xs[n])
  {
    AcceptedPrefix(c, db, xs, n + 1);
    assert xs[..n + 1] == xs[..n] + [xs[n]];
    AcceptedSnoc(c, db, xs[..n], xs[n]);
  }

  lemma {:induction false} NextChainAt(c: Config, db: Db, xs: seq<Change>, n: nat)
    requires UniqueEvents(db.events) && Accepted(c, db, xs) && n < |xs| && ChainAt(c, db, xs, n)
    ensures ChainAt(c, db, xs, n + 1) <==> KeepsAt(c, db, xs, n)
  {
    NextPossible(c, db, xs, n);
    IdsStayUnique(c, db, xs[..n]);
    ChangeKeepsChainExactly(c, PlainAll(c, db, xs[..n]), xs[n]);
  }

  lemma {:induction false} ChainUpTo(c: Config, db: Db, xs: seq<Change>, n: nat)
    requires UniqueEvents(db.events) && Accepted(c, db, xs) && OneChain(db.events) && n <= |xs|
    requires forall m :: 0 <= m < n ==> KeepsAt(c, db, xs, m)
    ensures ChainAt(c, db, xs, n)
    decreases n
  {
    if n > 0 {
      ChainUpTo(c, db, xs, n - 1);
      NextChainAt(c, db, xs, n - 1);
    }
  }

  /** With inserts and deletes of any kind: the bus has one chain all along a run exactly if it has one at the start and no
      change does what would break it. */
  lemma {:induction false} AlwaysOneChainExactly(c: Config, db: Db, xs: seq<Change>)
    requires UniqueEvents(db.events) && Accepted(c, db, xs)
    ensures (forall n :: 0 <= n <= |xs| ==> ChainAt(c, db, xs, n)) <==>
              OneChain(db.events) && forall n :: 0 <= n < |xs| ==> KeepsAt(c, db, xs, n)
  {
    if forall n :: 0 <= n <= |xs| ==> ChainAt(c, db, xs, n) {
      assert ChainAt(c, db, xs, 0);
      forall n | 0 <= n < |xs| ensures KeepsAt(c, db, xs, n) {
        NextChainAt(c, db, xs, n);
      }
    }
    if OneChain(db.events) && forall n :: 0 <= n < |xs| ==> KeepsAt(c, db, xs, n) {
      forall n | 0 <= n <= |xs| ensures ChainAt(c, db, xs, n) {
        ChainUpTo(c, db, xs, n);
      }
    }
  }
}
