/** pkg/swarm/sqlite_blackboard.go: the methods of SQLiteBlackboard. */
module Blackboard {
  import opened Options
  import opened Leases

  datatype Error = TaskNotOwned | StaleLease

  class SQLiteBlackboard {
    var tasks: Table

    constructor ()
      ensures tasks == map[]
    {
      tasks := map[];
    }

    /** INSERT OR IGNORE. */
    method PostTask(k: Task)
      modifies this
      ensures tasks == if k in old(tasks) then old(tasks) else old(tasks)[k := Row(Pending, None, None, 0, 0)]
    {
      if k !in tasks {
        tasks := tasks[k := NEW_ROW];
      }
    }

    /** All the new tasks appear, and nothing else changes. */
    method PostBatch(ks: seq<Task>)
      modifies this
      ensures tasks.Keys == old(tasks).Keys + (set k | k in ks)
      ensures forall k :: k in tasks ==> tasks[k] == if k in old(tasks) then old(tasks)[k] else NEW_ROW
    {
      for i := 0 to |ks|
        invariant tasks.Keys == old(tasks).Keys + (set k | k in ks[..i])
        invariant forall k :: k in tasks ==> tasks[k] == if k in old(tasks) then old(tasks)[k] else NEW_ROW
      {
        assert ks[..i + 1] == ks[..i] + [ks[i]];
        PostTask(ks[i]);
      }
      assert ks[..|ks|] == ks;
    }

    /** One UPDATE statement; the result is the number of rows it changed. */
    method Exec(k: Task, a: Agent, q: Request, now: int) returns (rows: nat)
      modifies this
      ensures tasks == AskIn(old(tasks), k, a, q, now)
      ensures rows == if k in old(tasks) && Matches(old(tasks)[k], a, q) then 1 else 0
    {
      if k in tasks && Matches(tasks[k], a, q) {
        tasks := tasks[k := Updated(tasks[k], a, q, now)];
        return 1;
      }
      return 0;
    }

    method ClaimTask(k: Task, a: Agent, now: int) returns (won: bool)
      modifies this
      ensures tasks == AskIn(old(tasks), k, a, Claim, now)
      ensures won <==> k in old(tasks) && old(tasks)[k].status == Pending
      ensures won ==> tasks[k] == Row(Claimed, Some(a), Some(now + 60), old(tasks)[k].version + 1, old(tasks)[k].toxicity)
    {
      var rows := Exec(k, a, Claim, now);
      return rows != 0;
    }

    /** Succeeds for the holder of a claimed task. For everybody else the UPDATE changes nothing, and a SELECT decides,
        which sees whatever other agents and the reaper have made of the table by then, and does not look at the holder. */
    method StartExecution(k: Task, a: Agent, now: int) returns (r: Option<Error>)
      modifies this
      ensures k in old(tasks) && old(tasks)[k].claimedBy == Some(a) && old(tasks)[k].status == Claimed ==>
                r == None && tasks == old(tasks)[k := old(tasks)[k].(status := Running, version := old(tasks)[k].version + 1)]
      ensures !(k in old(tasks) && old(tasks)[k].claimedBy == Some(a) && old(tasks)[k].status == Claimed) ==>
                (r == None <==> k in tasks && tasks[k].status == Running) && (r != None ==> r == Some(TaskNotOwned))
      ensures r == None <==> StartSucceeds(old(tasks), tasks, k, a)
    {
      var rows := Exec(k, a, Start, now);
      if rows == 0 {
        OtherSteps();
        if !(k in tasks && tasks[k].status == Running) { return Some(TaskNotOwned); }
      }
      return None;
    }

    /** Anything may happen to the table between two statements. */
    method OtherSteps()
      modifies this
    {
      tasks := *;
    }

    /** CompleteTask, FailTask, RenewLease, SuspendForHITL, ResumeFromHITL, BeginCompensation and EndCompensation: they
        differ only in their statement and in the error for an unmatched row. */
    method Transition(k: Task, a: Agent, q: Request, now: int) returns (r: Option<Error>)
      requires q != Claim && q != Start
      modifies this
      ensures tasks == AskIn(old(tasks), k, a, q, now)
      ensures var from := match q
                          case Complete => {Claimed, Running}
                          case Fail => {Claimed, Running}
                          case RenewLease => {Claimed}
                          case SuspendForHITL(_) => {Running}
                          case ResumeFromHITL(_) => {Suspended}
                          case BeginCompensation => {Running}
                          case EndCompensation => {Compensating};
              r == None <==> k in old(tasks) && old(tasks)[k].claimedBy == Some(a) && old(tasks)[k].status in from
      ensures r == None ==>
                var before, after := old(tasks)[k], tasks[k];
                && after.claimedBy == before.claimedBy == Some(a) && after.version == before.version + 1
                && after.toxicity == before.toxicity
                && match q
                   case Complete => after.status == Done && after.expiresAt == before.expiresAt
                   case Fail => after.status == Failed && after.expiresAt == before.expiresAt
                   case RenewLease => after.status == Claimed && after.expiresAt == Some(now + 60)
                   case SuspendForHITL(timeout) => after.status == Suspended && after.expiresAt == Some(timeout)
                   case ResumeFromHITL(approved) =>
                     after.status == (if approved then Running else Failed) && after.expiresAt == Some(now + 60)
                   case BeginCompensation => after.status == Compensating && after.expiresAt == Some(now + 300)
                   case EndCompensation => after.status == Failed && after.expiresAt == before.expiresAt
      ensures r != None ==> r == Some(if q == RenewLease then StaleLease else TaskNotOwned) && tasks == old(tasks)
    {
      var rows := Exec(k, a, q, now);
      if rows == 0 { return Some(if q == RenewLease then StaleLease else TaskNotOwned); }
      return None;
    }

    method SideEffectPreCheck(k: Task, a: Agent, claimedVersion: int, now: int) returns (v: Verdict)
      ensures v == PreCheck(tasks, k, a, claimedVersion, now)
      ensures v == Allowed <==> k in tasks && tasks[k].claimedBy == Some(a) && tasks[k].status == Running &&
                                tasks[k].version == claimedVersion && tasks[k].version <= MAX_INT32 &&
                                tasks[k].expiresAt.Some? && tasks[k].expiresAt.value >= now
      ensures v == NotOwned <==> k !in tasks
      ensures v == Internal <==> k in tasks && (tasks[k].expiresAt.None? || tasks[k].version > MAX_INT32)
    {
      if k !in tasks { return NotOwned; }
      var row := tasks[k];
      if row.expiresAt.None? || row.version > MAX_INT32 { return Internal; }
      if row.claimedBy.None? || row.claimedBy.value != a { return Stale; }
      if row.version != claimedVersion { return Stale; }
      if row.status != Running { return Stale; }
      if now > row.expiresAt.value { return Stale; }
      return Allowed;
    }

    method StopAll()
      modifies this
      ensures tasks == StopIn(old(tasks)) && tasks.Keys == old(tasks).Keys
      ensures forall k :: k in tasks ==>
                var row := old(tasks)[k];
                tasks[k] == if row.status in {Claimed, Running} then row.(status := Suspended, version := row.version + 1) else row
    {
      tasks := map k | k in tasks :: Stopped(tasks[k]);
    }

    /** First half of reap. */
    method ReapScan(now: int) returns (seen: seq<Seen>)
      ensures IsScan(tasks, now, seen)
      ensures forall k, a :: Seen(k, a) in seen <==>
                k in tasks && tasks[k].status in {Claimed, Running} && tasks[k].claimedBy == Some(a) &&
                tasks[k].expiresAt.Some? && tasks[k].expiresAt.value / 86400 < now / 86400
    {
      seen := [];
      var left := tasks.Keys;
      while left != {}
        invariant left <= tasks.Keys && Distinct(seen)
        invariant forall i :: 0 <= i < |seen| ==> seen[i].task in tasks.Keys - left && Expired(tasks[seen[i].task], now) &&
                                                  tasks[seen[i].task].claimedBy == Some(seen[i].agent)
        invariant forall k :: k in tasks.Keys - left && Expired(tasks[k], now) ==> exists i :: 0 <= i < |seen| && seen[i].task == k
        decreases |left|
      {
        var k :| k in left;
        left := left - {k};
        if Expired(tasks[k], now) {
          ghost var before := seen;
          seen := seen + [Seen(k, tasks[k].claimedBy.value)];
          assert seen[|before|].task == k;
          assert forall i :: 0 <= i < |before| ==> seen[i] == before[i];
        }
      }
    }

    /** Second half of reap, after the grace period: the rows are evicted whatever has become of them. */
    method ReapWriteBack(seen: seq<Seen>, written: seq<bool>)
      requires |written| == |seen|
      modifies this
      ensures tasks == EvictAll(old(tasks), seen, written)
    {
      assert seen[0..] == seen && written[0..] == written;
      for i := 0 to |seen|
        invariant EvictAll(tasks, seen[i..], written[i..]) == EvictAll(old(tasks), seen, written)
      {
        assert seen[i..][1..] == seen[i + 1..] && written[i..][1..] == written[i + 1..];
        var k := seen[i].task;
        if written[i] && k in tasks && InFlight(tasks[k].status) {
          tasks := tasks[k := Evicted(tasks[k])];
        }
      }
    }
  }
}
