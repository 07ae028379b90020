/** Hash-chained audit records. */
module AuditChain {

  type Hash = string

  /** The action detail: the caller's bytes, or what a rotation writes about the epoch it closes or opens. */
  datatype Detail =
    | Bytes(raw: string)
    | EpochEnd(epochId: nat, recordCount: nat, finalHash: Hash)
    | EpochStart(epochId: nat, prevEpochFinalHash: Hash)

  /** The record; `payload` stands for the fields that the chain neither reads nor writes. */
  datatype AuditRecord = AuditRecord(eventId: string, timestamp: int, actionType: string, actionDetail: Detail,
                                     payload: string, prevHash: Hash, recordHash: Hash)

  /** What is hashed: the record without its own hash. */
  function Serialize(r: AuditRecord): AuditRecord {
    r.(recordHash := "")
  }

  /** SHA-256 over the serialization; nothing is assumed about it. */
  type Sha = AuditRecord -> Hash

  predicate Sealed(sha: Sha, r: AuditRecord) {
    sha(Serialize(r)) == r.recordHash
  }

  predicate GoodAt(sha: Sha, rs: seq<AuditRecord>, i: nat)
    requires i < |rs|
  {
    (i > 0 ==> rs[i].prevHash == rs[i - 1].recordHash) && Sealed(sha, rs[i])
  }

  ghost predicate Intact(sha: Sha, rs: seq<AuditRecord>) {
    forall i :: 0 <= i < |rs| ==> GoodAt(sha, rs, i)
  }

  /** Two different serializations with the same hash. */
  predicate Collision(sha: Sha, a: AuditRecord, b: AuditRecord) {
    Serialize(a) != Serialize(b) && sha(Serialize(a)) == sha(Serialize(b))
  }

  ghost predicate SomeCollision(sha: Sha, a: seq<AuditRecord>, b: seq<AuditRecord>)
    requires |a| == |b|
  {
    exists i :: 0 <= i < |a| && Collision(sha, a[i], b[i])
  }

  /** The chain pins down its contents: two verified chains of one length that end in the same hash are the same
      chain, or they show two serializations that SHA-256 maps to one hash. */
  lemma {:induction false} SameEndSameChain(sha: Sha, a: seq<AuditRecord>, b: seq<AuditRecord>)
    requires Intact(sha, a) && Intact(sha, b) && |a| == |b|
    requires a != [] ==> a[|a| - 1].recordHash == b[|b| - 1].recordHash
    ensures a == b || SomeCollision(sha, a, b)
    decreases |a|
  {
    if a != [] {
      var n := |a| - 1;
      assert GoodAt(sha, a, n) && GoodAt(sha, b, n);
      if Serialize(a[n]) != Serialize(b[n]) {
        assert Collision(sha, a[n], b[n]);
      } else {
        var a', b' := a[..n], b[..n];
        FrontIntact(sha, a);
        FrontIntact(sha, b);
        SameEndSameChain(sha, a', b');
        if SomeCollision(sha, a', b') {
          var i :| 0 <= i < n && Collision(sha, a'[i], b'[i]);
          assert Collision(sha, a[i], b[i]);
        } else {
          assert a == a' + [a[n]] && b == b' + [b[n]];
        }
      }
    }
  }

  lemma FrontIntact(sha: Sha, rs: seq<AuditRecord>)
    requires Intact(sha, rs) && rs != []
    ensures Intact(sha, rs[..|rs| - 1])
  {
    var front := rs[..|rs| - 1];
    forall i | 0 <= i < |front| ensures GoodAt(sha, front, i) {
      assert GoodAt(sha, rs, i);
    }
  }

  /** So whoever changes records but keeps the length and the final hash is caught by the verification. */
  lemma TamperingIsSeen(sha: Sha, a: seq<AuditRecord>, b: seq<AuditRecord>)
    requires Intact(sha, a) && |a| == |b| && a != b && a[|a| - 1].recordHash == b[|b| - 1].recordHash
    ensures !Intact(sha, b) || SomeCollision(sha, a, b)
  {
    if Intact(sha, b) {
      SameEndSameChain(sha, a, b);
    }
  }

  /** Every consecutive piece of an intact chain is intact. */
  lemma PieceIntact(sha: Sha, rs: seq<AuditRecord>, lo: nat)
    requires Intact(sha, rs) && lo <= |rs|
    ensures Intact(sha, rs[lo..])
  {
    forall i | 0 <= i < |rs| - lo ensures GoodAt(sha, rs[lo..], i) {
      assert GoodAt(sha, rs, lo + i);
    }
  }
}

/** pkg/substrate/audit_trail.go: AuditTrail. */
module AuditTrails {
  import opened AuditChain
  import opened Sequences

  const EPOCH_SIZE_LIMIT_MB := 100
  const RECOVERED_ROWS := 100

  function Digits(n: nat): string {
    (if n < 10 then "" else Digits(n / 10)) + [('0' as int + n % 10) as char]
  }

  /** The number that digits denote. */
  function Number(digits: string): int {
    if digits == "" then 0 else 10 * Number(digits[..|digits| - 1]) + (digits[|digits| - 1] as int - '0' as int)
  }

  predicate AllDigits(s: string) {
    s != "" && forall i :: 0 <= i < |s| ==> '0' <= s[i] <= '9'
  }

  lemma {:induction false} NumberOfDigits(n: nat)
    ensures Number(Digits(n)) == n && AllDigits(Digits(n))
  {
    var front := if n < 10 then "" else Digits(n / 10);
    assert Digits(n)[..|Digits(n)| - 1] == front;
    if n >= 10 {
      NumberOfDigits(n / 10);
    }
  }

  function Signed(n: int): string {
    if n < 0 then "-" + Digits(-n) else Digits(n)
  }

  lemma SignedExactly(s: int, t: int)
    ensures Signed(s) == Signed(t) <==> s == t
  {
    var x, y := Signed(s), Signed(t);
    NumberOfDigits(if s < 0 then -s else s);
    NumberOfDigits(if t < 0 then -t else t);
    assert s < 0 ==> x[0] == '-' && x[1..] == Digits(-s);
    assert t < 0 ==> y[0] == '-' && y[1..] == Digits(-t);
    assert s >= 0 ==> x[0] != '-';
    assert t >= 0 ==> y[0] != '-';
  }

  /** Records without id that are closed at different times get different ids, and only those. */
  lemma GeneratedIdsExactly(s: int, t: int)
    ensures GeneratedId(s) == GeneratedId(t) <==> s == t
  {
    SignedExactly(s, t);
    assert GeneratedId(s)[6..] == Signed(s) && GeneratedId(t)[6..] == Signed(t);
  }

  function GeneratedId(timestamp: int): string {
    "audit_" + Signed(timestamp)
  }

  /** A record closed under its hash. */
  function Hashed(sha: Sha, r: AuditRecord): (h: AuditRecord)
    ensures Sealed(sha, h) && h.recordHash == sha(Serialize(r)) && h == r.(recordHash := h.recordHash)
  {
    assert Serialize(r.(recordHash := sha(Serialize(r)))) == Serialize(r);
    r.(recordHash := sha(Serialize(r)))
  }

  function EndMarker(epochId: nat, count: nat, last: Hash, time: int): AuditRecord {
    AuditRecord("epoch_end_" + Digits(epochId), time, "epoch_end", EpochEnd(epochId, count, last), "", last, "")
  }

  function StartMarker(epochId: nat, last: Hash, time: int): AuditRecord {
    AuditRecord("epoch_start_" + Digits(epochId), time, "epoch_start", EpochStart(epochId, last), "", last, "")
  }

  /** A record as it is kept, and as it was when its hash was taken. */
  datatype Entry = Entry(stored: AuditRecord, hashed: AuditRecord)

  /** The id that Record makes up for a record without one is filled in after hashing. */
  predicate NamedAfterHashing(e: Entry) {
    e.hashed.eventId == "" && e.stored == e.hashed.(eventId := GeneratedId(e.hashed.timestamp))
  }

  predicate EntryOk(sha: Sha, e: Entry) {
    Sealed(sha, e.hashed) && (e.stored == e.hashed || NamedAfterHashing(e))
  }

  /** `origin` is the PrevHash that the first record of the log carries. */
  predicate LinkedAt(origin: Hash, log: seq<Entry>, i: nat)
    requires i < |log|
  {
    log[i].stored.prevHash == if i == 0 then origin else log[i - 1].stored.recordHash
  }

  ghost predicate Linked(origin: Hash, log: seq<Entry>) {
    forall i :: 0 <= i < |log| ==> LinkedAt(origin, log, i)
  }

  /** The hash the next record must carry as its PrevHash. */
  function EndHash(origin: Hash, log: seq<Entry>): Hash {
    if log == [] then origin else log[|log| - 1].stored.recordHash
  }

  /** `records` are the stored records from position `first` on. */
  ghost predicate Holds(log: seq<Entry>, first: nat, records: seq<AuditRecord>) {
    |log| == first + |records| && forall i :: 0 <= i < |records| ==> records[i] == log[first + i].stored
  }

  function LastHashOf(rs: seq<AuditRecord>, none: Hash): Hash {
    if rs == [] then none else rs[|rs| - 1].recordHash
  }

  function Stored(log: seq<Entry>): (rs: seq<AuditRecord>)
    ensures |rs| == |log| && forall i :: 0 <= i < |log| ==> rs[i] == log[i].stored
  {
    seq(|log|, i requires 0 <= i < |log| => log[i].stored)
  }

  /** The record at `s` opens epoch `k` and points back at the record that closed epoch `k - 1`. */
  ghost predicate EpochLink(log: seq<Entry>, s: nat, k: nat) {
    && 0 < s < |log| && k > 0
    && var end, start := log[s - 1].stored, log[s].stored;
       && end.actionType == "epoch_end" && start.actionType == "epoch_start"
       && start.prevHash == end.recordHash
       && start.actionDetail == EpochStart(k, end.recordHash)
       && end.actionDetail.EpochEnd? && end.actionDetail.epochId == k - 1 && end.actionDetail.finalHash == end.prevHash
  }

  /** The stored record is not the one whose hash was taken, and the hash shows it. */
  predicate Tampered(sha: Sha, e: Entry) {
    e.stored != e.hashed && !Collision(sha, e.stored, e.hashed)
  }

  ghost predicate EntriesOk(sha: Sha, hasDb: bool, log: seq<Entry>) {
    forall i :: 0 <= i < |log| ==> EntryOk(sha, log[i]) && (!hasDb ==> log[i].stored == log[i].hashed)
  }

  /** The log is one chain that ends in `lastHash`, and `records` is what it holds from `first` on. */
  ghost predicate Consistent(sha: Sha, hasDb: bool, origin: Hash, log: seq<Entry>, lastHash: Hash, first: nat,
                             records: seq<AuditRecord>) {
    && Linked(origin, log) && lastHash == EndHash(origin, log) && EntriesOk(sha, hasDb, log)
    && first <= |log| && Holds(log, first, records)
  }

  lemma LogGrows(sha: Sha, hasDb: bool, origin: Hash, log: seq<Entry>, e: Entry, first: nat, records: seq<AuditRecord>)
    requires Linked(origin, log) && EntriesOk(sha, hasDb, log) && Holds(log, first, records)
    requires EntryOk(sha, e) && (!hasDb ==> e.stored == e.hashed) && e.stored.prevHash == EndHash(origin, log)
    ensures Linked(origin, log + [e]) && EntriesOk(sha, hasDb, log + [e]) && Holds(log + [e], first, records + [e.stored])
    ensures Stored(log + [e]) == Stored(log) + [e.stored]
  {
    forall i | 0 <= i < |log + [e]| ensures LinkedAt(origin, log + [e], i) {
      assert i < |log| ==> LinkedAt(origin, log, i);
    }
  }

  ghost predicate AllEpochsLinked(log: seq<Entry>, starts: seq<nat>) {
    forall k :: 0 <= k < |starts| ==> EpochLink(log, starts[k], k + 1)
  }

  lemma EpochsKept(log: seq<Entry>, starts: seq<nat>, more: seq<Entry>)
    requires AllEpochsLinked(log, starts)
    ensures AllEpochsLinked(log + more, starts)
  {
    forall k | 0 <= k < |starts| ensures EpochLink(log + more, starts[k], k + 1) {
      assert EpochLink(log, starts[k], k + 1);
    }
  }

  lemma EpochOpened(log: seq<Entry>, starts: seq<nat>, end: AuditRecord, start: AuditRecord, count: nat)
    requires AllEpochsLinked(log, starts) && log != [] && log[|log| - 1] == Entry(end, end)
    requires end.actionType == "epoch_end" && end.actionDetail == EpochEnd(|starts|, count, end.prevHash)
    requires start.actionType == "epoch_start" && start.prevHash == end.recordHash
    requires start.actionDetail == EpochStart(|starts| + 1, end.recordHash)
    ensures AllEpochsLinked(log + [Entry(start, start)], starts + [|log|])
  {
    EpochsKept(log, starts, [Entry(start, start)]);
  }

  class AuditTrail {
    const sha: Sha
    const hasDb: bool
    var records: seq<AuditRecord>
    var lastHash: Hash
    var epochId: nat
    var epochStartHash: Hash
    var events: seq<AuditRecord>      // the rows of the events table under this topic, in offset order
    ghost var older: seq<AuditRecord> // the rows before those that the log accounts for
    ghost var origin: Hash            // the PrevHash of the first record of the log
    ghost var log: seq<Entry>         // everything recovered or appended, through all epochs
    ghost var starts: seq<nat>        // where in the log each rotation's epoch_start stands
    ghost var first: nat              // where in the log the records in memory begin

    ghost predicate Valid()
      reads this
    {
      Consistent(sha, hasDb, origin, log, lastHash, first, records)
    }

    /** Every rotation so far has tied its epoch to the one before. */
    ghost predicate EpochsLinked()
      reads this
    {
      |starts| == epochId && AllEpochsLinked(log, starts)
    }

    /** Every record of the trail is in the table, in order, behind the older rows. */
    ghost predicate Mirrored()
      reads this
    {
      events == older + Stored(log)
    }

    constructor (sha: Sha, hasDb: bool, table: seq<AuditRecord>)
      ensures Valid() && EpochsLinked() && Mirrored() && Fresh()
      ensures events == table && this.sha == sha && this.hasDb == hasDb
    {
      this.sha, this.hasDb := sha, hasDb;
      records, lastHash, epochId, epochStartHash, events := [], "", 0, "", table;
      older, origin, log, starts, first := table, "", [], [], 0;
    }

    method Append(stored: AuditRecord, ghost hashed: AuditRecord)
      requires Valid() && EntryOk(sha, Entry(stored, hashed)) && (!hasDb ==> stored == hashed)
      requires stored.prevHash == lastHash
      modifies this`records, this`lastHash, this`log
      ensures Valid() && log == old(log) + [Entry(stored, hashed)]
      ensures records == old(records) + [stored] && lastHash == stored.recordHash
      ensures older + Stored(log) == (older + Stored(old(log))) + [stored]
    {
      LogGrows(sha, hasDb, origin, log, Entry(stored, hashed), first, records);
      records := records + [stored];
      lastHash := stored.recordHash;
      log := log + [Entry(stored, hashed)];
    }

    /** `insertOk` is the outcome of the INSERT; a failed one leaves the trail as it was. The hash is taken before a
        missing id is filled in, so in that case the stored record is not the hashed one. */
    method Record(record: AuditRecord, now: int, insertOk: bool) returns (ok: bool, recorded: AuditRecord)
      requires Valid() && EpochsLinked()
      modifies this
      ensures Valid() && EpochsLinked() && ok == (!hasDb || insertOk)
      ensures !ok ==> unchanged(this)
      ensures unchanged(`epochId) && unchanged(`first) && unchanged(`starts) && unchanged(`epochStartHash)
      ensures unchanged(`older) && unchanged(`origin)
      ensures var hashed := Hashed(sha, record.(prevHash := old(lastHash),
                                                timestamp := if record.timestamp == 0 then now else record.timestamp));
              && recorded == hashed.(eventId := if hasDb && record.eventId == "" then GeneratedId(hashed.timestamp) else record.eventId)
              && (ok ==> log == old(log) + [Entry(recorded, hashed)] && lastHash == hashed.recordHash)
      ensures ok ==> records == old(records) + [recorded] && events == old(events) + if hasDb then [recorded] else []
      ensures old(Mirrored()) && hasDb ==> Mirrored()
    {
      recorded := record.(prevHash := lastHash);
      if recorded.timestamp == 0 {
        recorded := recorded.(timestamp := now);
      }
      recorded := Hashed(sha, recorded);
      ghost var hashed := recorded;
      if hasDb {
        if recorded.eventId == "" {
          recorded := recorded.(eventId := GeneratedId(recorded.timestamp));
        }
        if !insertOk { return false, recorded; }
        events := events + [recorded];
      }
      EpochsKept(log, starts, [Entry(recorded, hashed)]);
      Append(recorded, hashed);
      ok := true;
    }

    /** The two marker records of a rotation; a failing INSERT is ignored. */
    method RotateIfNeeded(currentSizeMB: int, endTime: int, startTime: int, endOk: bool, startOk: bool)
      requires Valid() && EpochsLinked()
      modifies this
      ensures Valid() && EpochsLinked()
      ensures currentSizeMB < EPOCH_SIZE_LIMIT_MB ==> unchanged(this)
      ensures currentSizeMB >= EPOCH_SIZE_LIMIT_MB ==>
        && epochId == old(epochId) + 1 && |log| == |old(log)| + 2 && log[..|log| - 2] == old(log)
        && starts == old(starts) + [|log| - 1] && first == |log| - 1
        && log[|log| - 2].stored.(recordHash := "") == AuditRecord("epoch_end_" + Digits(old(epochId)), endTime, "epoch_end",
             EpochEnd(old(epochId), |old(records)|, old(lastHash)), "", old(lastHash), "")
        && log[|log| - 1].stored.(recordHash := "") == AuditRecord("epoch_start_" + Digits(epochId), startTime, "epoch_start",
             EpochStart(epochId, epochStartHash), "", epochStartHash, "")
        && epochStartHash == log[|log| - 2].stored.recordHash
        && (old(Mirrored()) && hasDb && endOk && startOk ==> Mirrored())
    {
      if currentSizeMB < EPOCH_SIZE_LIMIT_MB { return; }
      ghost var count := |records|;
      ghost var end := Hashed(sha, EndMarker(epochId, |records|, lastHash, endTime));
      EpochsKept(log, starts, [Entry(end, end)]);
      var epochEnd := CloseEpoch(endTime, endOk);
      OpenEpoch(startTime, startOk, epochEnd, count);
      assert log[..|log| - 2] == old(log);
    }

    method CloseEpoch(endTime: int, endOk: bool) returns (epochEnd: AuditRecord)
      requires Valid()
      modifies this`records, this`lastHash, this`log, this`events, this`first, this`epochStartHash
      ensures Valid() && records == [] && first == |log|
      ensures epochEnd == Hashed(sha, EndMarker(epochId, |old(records)|, old(lastHash), endTime))
      ensures log == old(log) + [Entry(epochEnd, epochEnd)] && lastHash == epochStartHash == epochEnd.recordHash
      ensures old(Mirrored()) && hasDb && endOk ==> Mirrored()
    {
      epochEnd := Hashed(sha, EndMarker(epochId, |records|, lastHash, endTime));
      AppendMarker(epochEnd, endOk);
      epochStartHash := lastHash;
      ForgetRecords();
    }

    method OpenEpoch(startTime: int, startOk: bool, ghost epochEnd: AuditRecord, ghost count: nat)
      requires Valid() && EpochsLinked() && records == [] && log != [] && log[|log| - 1] == Entry(epochEnd, epochEnd)
      requires epochEnd.actionType == "epoch_end" && epochEnd.actionDetail == EpochEnd(epochId, count, epochEnd.prevHash)
      modifies this
      ensures Valid() && EpochsLinked() && epochId == old(epochId) + 1 && unchanged(`first) && unchanged(`epochStartHash)
      ensures |log| == |old(log)| + 1 && log[..|log| - 1] == old(log) && starts == old(starts) + [|log| - 1]
      ensures log[|log| - 1].stored == Hashed(sha, StartMarker(epochId, old(lastHash), startTime))
      ensures old(Mirrored()) && hasDb && startOk ==> Mirrored()
    {
      var epochStart := Hashed(sha, StartMarker(epochId + 1, lastHash, startTime));
      AppendMarker(epochStart, startOk);
      EpochOpened(old(log), starts, epochEnd, epochStart, count);
      epochId := epochId + 1;
      NoteStart();
    }

    /** The last record of the log opens an epoch. */
    ghost method NoteStart()
      requires Valid() && |starts| + 1 == epochId && log != [] && AllEpochsLinked(log, starts + [|log| - 1])
      modifies this`starts
      ensures Valid() && EpochsLinked() && starts == old(starts) + [|log| - 1]
      ensures old(Mirrored()) ==> Mirrored()
    {
      starts := starts + [|log| - 1];
    }

    method ForgetRecords()
      requires Valid()
      modifies this`records, this`first
      ensures Valid() && records == [] && first == |log|
    {
      records, first := [], |log|;
    }

    method AppendMarker(marker: AuditRecord, insertOk: bool)
      requires Valid() && Sealed(sha, marker) && marker.prevHash == lastHash
      modifies this`records, this`lastHash, this`log, this`events
      ensures Valid() && log == old(log) + [Entry(marker, marker)]
      ensures records == old(records) + [marker] && lastHash == marker.recordHash
      ensures old(Mirrored()) && hasDb && insertOk ==> Mirrored()
    {
      if hasDb && insertOk { events := events + [marker]; }
      Append(marker, marker);
    }

    /** Returns the first broken position, or -1. */
    method VerifyIntegrity() returns (ok: bool, broken: int)
      ensures ok <==> Intact(sha, records)
      ensures ok ==> broken == -1
      ensures !ok ==> 0 <= broken < |records| && !GoodAt(sha, records, broken) &&
                      forall i :: 0 <= i < broken ==> GoodAt(sha, records, i)
    {
      for i := 0 to |records|
        invariant forall j :: 0 <= j < i ==> GoodAt(sha, records, j)
      {
        var r := records[i];
        assert GoodAt(sha, records, i) <==> (i > 0 ==> r.prevHash == records[i - 1].recordHash) && sha(Serialize(r)) == r.recordHash;
        if i > 0 && r.prevHash != records[i - 1].recordHash { return false, i; }
        if sha(Serialize(r)) != r.recordHash { return false, i; }
      }
      return true, -1;
    }

    /** The last rows are read newest first, turned round, appended and verified. When that succeeds on a fresh trail,
        the trail is one that goes on from the last row: records and rotations may follow. */
    method RecoverOnStartup(sealedSystem: bool) returns (ok: bool)
      modifies this
      ensures sealedSystem || !hasDb ==> unchanged(this) && ok == !sealedSystem
      ensures unchanged(`events) && unchanged(`epochId) && unchanged(`epochStartHash) && unchanged(`starts)
      ensures !sealedSystem && hasDb ==>
        && records == old(records) + Tail(events)
        && lastHash == LastHashOf(Tail(events), old(lastHash))
        && (ok <==> Intact(sha, old(records) + Tail(events)))
      ensures !sealedSystem && hasDb && old(Fresh()) && ok ==>
        && Valid() && EpochsLinked() && Mirrored() && first == 0
        && log == LogOf(Tail(events)) && older == Front(events) && origin == Origin(Tail(events))
    {
      if sealedSystem { return false; }
      if !hasDb { return true; }
      ghost var fresh0 := Fresh();
      LoadTail();
      var broken;
      ok, broken := VerifyIntegrity();
      if ok && fresh0 {
        Recovered(sha, events, records, lastHash);
        Adopt(LogOf(Tail(events)), Front(events), Origin(Tail(events)));
      }
    }

    /** Everything in the log behind its recovered part has been appended to `table`. */
    ghost predicate Behind(table: seq<AuditRecord>)
      reads this
    {
      && hasDb && Valid() && EpochsLinked() && Mirrored() && first == 0 && Intact(sha, Tail(table))
      && older == Front(table) && origin == Origin(Tail(table)) && LogOf(Tail(table)) <= log
    }

    method RecordBehind(call: Call, ghost table: seq<AuditRecord>)
      requires Behind(table)
      modifies this
      ensures Behind(table) && |log| <= |old(log)| + 1
    {
      var ok, recorded := Record(call.record, call.now, call.insertOk);
    }

    method LoadTail()
      modifies this`records, this`lastHash
      ensures records == old(records) + Tail(events)
      ensures lastHash == LastHashOf(Tail(events), old(lastHash))
    {
      var newest := NewestFirst();
      var loaded := Reverse(newest);
      assert loaded == Tail(events);
      AppendLoaded(loaded);
    }

    /** As the constructor leaves it, whatever the table holds. */
    ghost predicate Fresh()
      reads this
    {
      records == [] && lastHash == "" && log == [] && starts == [] && epochId == 0 && older == events && origin == ""
    }

    method AppendLoaded(loaded: seq<AuditRecord>)
      modifies this`records, this`lastHash
      ensures records == old(records) + loaded
      ensures lastHash == LastHashOf(loaded, old(lastHash))
    {
      records := records + loaded;
      if |loaded| > 0 {
        lastHash := loaded[|loaded| - 1].recordHash;
      }
    }

    /** Takes `adopted` for the log, with `front` as the rows before it. */
    ghost method Adopt(adopted: seq<Entry>, front: seq<AuditRecord>, from: Hash)
      requires Consistent(sha, hasDb, from, adopted, lastHash, 0, records) && events == front + Stored(adopted)
      modifies this`log, this`first, this`older, this`origin
      ensures Valid() && Mirrored() && log == adopted && first == 0 && older == front && origin == from
    {
      log, first, older, origin := adopted, 0, front, from;
    }

    method NewestFirst() returns (loaded: seq<AuditRecord>)
      ensures BackToFront(loaded, Tail(events))
    {
      loaded := [];
      var i := |events|;
      while i > 0 && |loaded| < RECOVERED_ROWS
        invariant 0 <= i <= |events| && |loaded| == |events| - i <= RECOVERED_ROWS
        invariant forall k :: 0 <= k < |loaded| ==> loaded[k] == events[|events| - 1 - k]
      {
        i := i - 1;
        loaded := loaded + [events[i]];
      }
    }
  }

  ghost function LogOf(rows: seq<AuditRecord>): (log: seq<Entry>)
    ensures |log| == |rows| && forall k :: 0 <= k < |rows| ==> log[k] == Entry(rows[k], rows[k])
  {
    seq(|rows|, k requires 0 <= k < |rows| => Entry(rows[k], rows[k]))
  }

  function Origin(rows: seq<AuditRecord>): Hash {
    if rows == [] then "" else rows[0].prevHash
  }

  lemma RecoveredLog(sha: Sha, rows: seq<AuditRecord>)
    requires Intact(sha, rows)
    ensures Consistent(sha, true, Origin(rows), LogOf(rows), LastHashOf(rows, ""), 0, rows)
  {
    var log := LogOf(rows);
    forall i | 0 <= i < |log| ensures EntryOk(sha, log[i]) && LinkedAt(Origin(rows), log, i) {
      assert GoodAt(sha, rows, i);
    }
  }

  function Tail(rows: seq<AuditRecord>): seq<AuditRecord> {
    if |rows| <= RECOVERED_ROWS then rows else rows[|rows| - RECOVERED_ROWS..]
  }

  lemma Recovered(sha: Sha, rows: seq<AuditRecord>, records: seq<AuditRecord>, lastHash: Hash)
    requires records == [] + Tail(rows) && lastHash == LastHashOf(Tail(rows), "") && Intact(sha, records)
    ensures Consistent(sha, true, Origin(Tail(rows)), LogOf(Tail(rows)), lastHash, 0, records)
    ensures rows == Front(rows) + Stored(LogOf(Tail(rows)))
  {
    assert records == Tail(rows);
    RecoveredLog(sha, Tail(rows));
    TailSplits(rows);
  }

  /** What recovery does not read. */
  function Front(rows: seq<AuditRecord>): seq<AuditRecord> {
    rows[..|rows| - |Tail(rows)|]
  }

  lemma TailSplits(rows: seq<AuditRecord>)
    ensures Front(rows) + Tail(rows) == rows && Stored(LogOf(Tail(rows))) == Tail(rows)
  {
  }

  /** The table holds one intact chain from the beginning. */
  ghost predicate TableOk(sha: Sha, rows: seq<AuditRecord>) {
    Intact(sha, rows) && (rows != [] ==> rows[0].prevHash == "")
  }

  predicate RowLinked(rows: seq<AuditRecord>, i: nat)
    requires i < |rows|
  {
    rows[i].prevHash == if i == 0 then "" else rows[i - 1].recordHash
  }

  /** Each row points back at the one before it. */
  ghost predicate OneChain(rows: seq<AuditRecord>) {
    forall i :: 0 <= i < |rows| ==> RowLinked(rows, i)
  }

  lemma EntryGood(at: AuditTrail, i: nat)
    requires at.Valid() && i < |at.log|
    ensures Sealed(at.sha, at.log[i].stored) <==> !Tampered(at.sha, at.log[i])
  {
    var e := at.log[i];
    assert EntryOk(at.sha, e);
    assert e.stored != e.hashed ==> Serialize(e.stored) != Serialize(e.hashed);
  }

  /** From position `lo` on no record shows that its id was filled in after hashing. */
  ghost predicate NoneTampered(sha: Sha, log: seq<Entry>, lo: nat) {
    forall i :: lo <= i < |log| ==> !Tampered(sha, log[i])
  }

  lemma HeldGood(at: AuditTrail, lo: nat, rows: seq<AuditRecord>, i: nat)
    requires at.Valid() && Holds(at.log, lo, rows) && i < |rows|
    ensures GoodAt(at.sha, rows, i) <==> !Tampered(at.sha, at.log[lo + i])
  {
    EntryGood(at, lo + i);
    assert LinkedAt(at.origin, at.log, lo + i) && rows[i] == at.log[lo + i].stored;
    assert i > 0 ==> rows[i - 1] == at.log[lo + i - 1].stored;
  }

  lemma HeldIntact(at: AuditTrail, lo: nat, rows: seq<AuditRecord>)
    requires at.Valid() && Holds(at.log, lo, rows)
    ensures Intact(at.sha, rows) <==> NoneTampered(at.sha, at.log, lo)
  {
    if Intact(at.sha, rows) {
      forall i | lo <= i < |at.log| ensures !Tampered(at.sha, at.log[i]) {
        HeldGood(at, lo, rows, i - lo);
      }
    }
    if NoneTampered(at.sha, at.log, lo) {
      forall i | 0 <= i < |rows| ensures GoodAt(at.sha, rows, i) {
        HeldGood(at, lo, rows, i);
      }
    }
  }

  /** The verification succeeds exactly when no record in memory got its id from Record, hash collisions aside. */
  lemma {:induction false} IntactExactly(at: AuditTrail)
    requires at.Valid()
    ensures Intact(at.sha, at.records) <==> NoneTampered(at.sha, at.log, at.first)
  {
    HeldIntact(at, at.first, at.records);
  }

  /** Where the last hundred records of a log begin. */
  function LastHundred(log: seq<Entry>): nat {
    if |log| < RECOVERED_ROWS then 0 else |log| - RECOVERED_ROWS
  }

  lemma TailOfLog(older: seq<AuditRecord>, log: seq<Entry>)
    requires older == [] || |log| >= RECOVERED_ROWS
    ensures Holds(log, LastHundred(log), Tail(older + Stored(log)))
  {
    var rows := older + Stored(log);
    var tail := Tail(rows);
    forall i | 0 <= i < |tail| ensures tail[i] == log[LastHundred(log) + i].stored {
      assert tail[i] == rows[|rows| - |tail| + i] == Stored(log)[LastHundred(log) + i];
    }
  }

  lemma {:induction false} EndsAlike(log: seq<Entry>, lo: nat, rows: seq<AuditRecord>, origin: Hash)
    requires Holds(log, lo, rows) && rows != []
    ensures LastHashOf(rows, "") == EndHash(origin, log)
  {
  }

  /** The next start recovers exactly when none of the last hundred records got its id from Record, collisions aside; it
      then goes on from the hash this trail ends with. */
  lemma {:induction false} RecoversExactly(at: AuditTrail)
    requires at.Valid() && at.Mirrored() && (at.older == [] || |at.log| >= RECOVERED_ROWS)
    ensures Intact(at.sha, Tail(at.events)) <==> NoneTampered(at.sha, at.log, LastHundred(at.log))
    ensures at.log != [] ==> LastHashOf(Tail(at.events), "") == at.lastHash
  {
    TailOfLog(at.older, at.log);
    HeldIntact(at, LastHundred(at.log), Tail(at.events));
    if at.log != [] {
      EndsAlike(at.log, LastHundred(at.log), Tail(at.events), at.origin);
    }
  }

  /** A trail all of whose records came with an id leaves a table that is one intact chain. */
  lemma RecoverableTable(at: AuditTrail)
    requires at.Valid() && at.Mirrored() && at.older == [] && at.origin == ""
    requires forall i :: 0 <= i < |at.log| ==> at.log[i].stored == at.log[i].hashed
    ensures TableOk(at.sha, at.events)
    ensures at.events != [] ==> at.events[|at.events| - 1].recordHash == at.lastHash
  {
    forall i | 0 <= i < |at.events| ensures GoodAt(at.sha, at.events, i) {
      assert EntryOk(at.sha, at.log[i]) && LinkedAt(at.origin, at.log, i);
    }
    assert at.log != [] ==> LinkedAt(at.origin, at.log, 0);
  }

  lemma NewRowLinked(at: AuditTrail, i: nat)
    requires at.Valid() && at.Mirrored() && |at.older| <= i < |at.events|
    requires i == |at.older| ==> at.older == [] && at.origin == ""
    ensures RowLinked(at.events, i)
  {
    var k := i - |at.older|;
    assert LinkedAt(at.origin, at.log, k) && at.events[i] == at.log[k].stored;
    assert k > 0 ==> at.events[i - 1] == at.log[k - 1].stored;
  }

  /** Whatever has been appended behind the first `n` records of the log, the table is one chain if it was one then. */
  lemma ChainGoesOn(at: AuditTrail, was: seq<AuditRecord>, n: nat)
    requires at.Valid() && at.Mirrored() && n <= |at.log| && (n == 0 ==> at.older == [] && at.origin == "")
    requires OneChain(was) && was <= at.events && |was| == |at.older| + n
    ensures OneChain(at.events)
  {
    forall i | 0 <= i < |at.events| ensures RowLinked(at.events, i) {
      if i < |was| {
        assert RowLinked(was, i);
      } else {
        NewRowLinked(at, i);
      }
    }
  }

  /** One call of Record: what is recorded, when, and whether the INSERT succeeds. */
  datatype Call = Call(record: AuditRecord, now: int, insertOk: bool)

  /** A start on a table that an earlier process has left. */
  method Restart(sha: Sha, table: seq<AuditRecord>) returns (at: AuditTrail, recovered: bool)
    ensures fresh(at) && at.sha == sha && (recovered <==> Intact(sha, Tail(table)))
    ensures recovered ==> at.Behind(table) && |at.log| == |Tail(table)|
  {
    at := new AuditTrail(sha, true, table);
    recovered := at.RecoverOnStartup(false);
    assert [] + Tail(table) == Tail(table);
  }

  /** A start and any number of records after it: the old rows stay in front, the table is one chain if it was one
      before, and the verification fails only for new records without id. */
  method RestartAndRecord(sha: Sha, table: seq<AuditRecord>, calls: seq<Call>) returns (at: AuditTrail, recovered: bool)
    ensures at.sha == sha && (recovered <==> Intact(sha, Tail(table)))
    ensures recovered ==> at.Valid() && at.EpochsLinked() && at.Mirrored() && table <= at.events
    ensures recovered ==> Tail(table) <= at.records && |at.events| - |table| == |at.records| - |Tail(table)| <= |calls|
    ensures recovered && OneChain(table) ==> OneChain(at.events)
    ensures recovered ==> (Intact(sha, at.records) <==> NoneTampered(sha, at.log, |Tail(table)|))
  {
    at, recovered := Restart(sha, table);
    if !recovered { return; }
    RecordAll(at, table, calls);
    Stayed(at, table);
  }

  method RecordAll(at: AuditTrail, ghost table: seq<AuditRecord>, calls: seq<Call>)
    requires at.Behind(table)
    modifies at
    ensures at.Behind(table) && |at.log| <= |old(at.log)| + |calls|
  {
    for c := 0 to |calls|
      invariant at.Behind(table) && |at.log| <= |old(at.log)| + c
    {
      at.RecordBehind(calls[c], table);
    }
  }

  lemma Stayed(at: AuditTrail, table: seq<AuditRecord>)
    requires at.Behind(table)
    ensures table <= at.events && Tail(table) <= at.records
    ensures |at.events| - |table| == |at.records| - |Tail(table)| == |at.log| - |Tail(table)|
    ensures OneChain(table) ==> OneChain(at.events)
    ensures Intact(at.sha, at.records) <==> NoneTampered(at.sha, at.log, |Tail(table)|)
  {
    var n := |Tail(table)|;
    StoredFront(at.log, Tail(table));
    TailSplits(table);
    assert forall i :: 0 <= i < n ==> at.records[i] == Tail(table)[i];
    if OneChain(table) {
      ChainGoesOn(at, table, n);
    }
    HeldIntact(at, 0, at.records);
    forall i | 0 <= i < n ensures !Tampered(at.sha, at.log[i]) {
      assert at.log[i] == LogOf(Tail(table))[i];
    }
  }

  lemma StoredFront(log: seq<Entry>, rows: seq<AuditRecord>)
    requires LogOf(rows) <= log
    ensures rows <= Stored(log)
  {
    assert forall i :: 0 <= i < |rows| ==> log[i] == LogOf(rows)[i];
  }

  lemma FirstGenerated()
    ensures GeneratedId(1) == "audit_1"
  {
  }

  /** A record that comes without id fails the verification, unless SHA-256 maps it and its renamed self to one hash. */
  method NamelessRecord(sha: Sha) returns (at: AuditTrail, ok: bool)
    ensures at.sha == sha && |at.records| == 1 && at.records[0].eventId == "audit_1"
    ensures !ok || Collision(sha, at.records[0], at.records[0].(eventId := ""))
  {
    at := new AuditTrail(sha, true, []);
    var record := AuditRecord("", 1, "allow", Bytes(""), "", "", "");
    var recorded, broken;
    ok, recorded := at.Record(record, 0, true);
    ok, broken := at.VerifyIntegrity();
    assert at.records[0] == recorded;
    FirstGenerated();
    assert ok ==> GoodAt(sha, at.records, 0);
  }
}
