/** Batched retention deletes (src/jobs/retention.ts). */
module Retention {
  import opened Wrappers

  const BATCH_LIMIT: nat := 5000
  const DAY_MS: int := 24 * 60 * 60 * 1000

  /** A scan event or a queued notification: its school and the time its policy looks at. */
  datatype Record = Record(id: nat, school: string, at: int)

  /** A retention policy; its school is the table's primary key. */
  datatype Policy = Policy(school: string, scanEventsDays: int, notificationLogDays: int)

  datatype Deleted = Deleted(school: string, scanEvents: nat, notifications: nat)

  datatype Audit = Audit(school: string, resource: string, deleted: nat)

  /** now() - make_interval(days), in milliseconds. */
  function Cutoff(now: int, days: int): int {
    now - days * DAY_MS
  }

  function Expired(rows: set<Record>, school: string, cutoff: int): set<Record> {
    set r | r in rows && r.school == school && r.at < cutoff
  }

  /** One of the two tables with a retention period. */
  class Table {
    var rows: set<Record>

    constructor (rows: set<Record>)
      ensures this.rows == rows
    {
      this.rows := rows;
    }
  }

  /** The database: its clock only moves forward, by any amount. */
  class Database {
    const scanEvents: Table
    const notificationJobs: Table
    var policies: seq<Policy>
    var audit: seq<Audit>
    var clock: int

    constructor (scanEvents: Table, notificationJobs: Table, policies: seq<Policy>, clock: int)
      ensures this.scanEvents == scanEvents && this.notificationJobs == notificationJobs
      ensures this.policies == policies && this.audit == [] && this.clock == clock
    {
      this.scanEvents, this.notificationJobs := scanEvents, notificationJobs;
      this.policies, this.audit, this.clock := policies, [], clock;
    }

    /** now() of the next transaction. */
    method Now() returns (now: int)
      modifies this`clock
      ensures old(clock) <= now == clock
    {
      now :| now >= clock;
      clock := now;
    }

    /** The policies of one school, or all. */
    method SelectPolicies(target: Option<string>) returns (selected: seq<Policy>)
      requires DistinctSchools(policies)
      ensures selected == PoliciesFor(policies, target) && DistinctSchools(selected)
    {
      if target.Some? {
        SchoolPoliciesDistinct(policies, target.value);
      }
      selected := if target.Some? && target.value != "" then OfSchool(policies, target.value) else policies;
    }
  }

  function OfSchool(policies: seq<Policy>, school: string): seq<Policy> {
    if policies == [] then []
    else (if policies[0].school == school then [policies[0]] else []) + OfSchool(policies[1..], school)
  }

  function PoliciesFor(policies: seq<Policy>, target: Option<string>): seq<Policy> {
    if target.Some? && target.value != "" then OfSchool(policies, target.value) else policies
  }

  predicate DistinctSchools(policies: seq<Policy>) {
    forall i, j | 0 <= i < j < |policies| :: policies[i].school != policies[j].school
  }

  /** LIMIT without ORDER BY: any rows, as many as there are up to the limit. */
  method PickBatch(expired: set<Record>) returns (batch: set<Record>)
    ensures batch <= expired && |batch| == if |expired| < 5000 then |expired| else 5000
  {
    batch := {};
    while |batch| < BATCH_LIMIT && batch != expired
      invariant batch <= expired && |batch| <= BATCH_LIMIT
      invariant |batch| <= |expired|
      decreases |expired| - |batch|
    {
      assert exists r :: r in expired - batch by {
        assert batch + (expired - batch) == expired;
        assert expired - batch == {} ==> batch == expired;
      }
      var r :| r in expired - batch;
      Fewer(batch, expired, r);
      batch := batch + {r};
    }
  }

  lemma Fewer(part: set<Record>, whole: set<Record>, r: Record)
    requires part <= whole && r in whole - part
    ensures |part + {r}| == |part| + 1 <= |whole|
  {
    Smaller(part + {r}, whole);
  }

  lemma Smaller(part: set<Record>, whole: set<Record>)
    requires part <= whole
    ensures |part| <= |whole| && (|part| == |whole| ==> part == whole)
  {
    assert whole == part + (whole - part);
    assert |whole| == |part| + |whole - part|;
  }

  /** One more batch, at a cutoff no earlier than the last one. */
  lemma BatchJoins(all: set<Record>, gone: set<Record>, batch: set<Record>, school: string, before: int, cutoff: int)
    requires before <= cutoff && gone <= Expired(all, school, before) && batch <= Expired(all - gone, school, cutoff)
    ensures gone + batch <= Expired(all, school, cutoff)
    ensures |gone + batch| == |gone| + |batch| && |all - (gone + batch)| == |all - gone| - |batch|
    ensures all - gone - batch == all - (gone + batch)
    ensures |batch| == |Expired(all - gone, school, cutoff)| ==> gone + batch == Expired(all, school, cutoff)
  {
    assert gone !! batch;
    assert all - gone == (all - (gone + batch)) + batch;
    if |batch| == |Expired(all - gone, school, cutoff)| {
      Smaller(batch, Expired(all - gone, school, cutoff));
    }
  }

  /** Deletes in batches until one is not full. Together the batches delete exactly the school's rows
      that are expired at the last one, whichever rows each batch picked. */
  method Purge(db: Database, table: Table, school: string, days: int) returns (deleted: nat)
    modifies table, db`clock
    ensures old(db.clock) <= db.clock
    ensures table.rows == old(table.rows) - Expired(old(table.rows), school, Cutoff(db.clock, days))
    ensures deleted == |Expired(old(table.rows), school, Cutoff(db.clock, days))|
  {
    deleted := 0;
    ghost var gone: set<Record> := {};
    while true
      invariant old(db.clock) <= db.clock
      invariant gone <= Expired(old(table.rows), school, Cutoff(db.clock, days))
      invariant table.rows == old(table.rows) - gone
      invariant deleted == |gone|
      decreases |table.rows|
    {
      ghost var earlier := Cutoff(db.clock, days);
      var now := db.Now();
      var batch := PickBatch(Expired(table.rows, school, Cutoff(now, days)));
      BatchJoins(old(table.rows), gone, batch, school, earlier, Cutoff(now, days));
      table.rows := table.rows - batch;
      gone := gone + batch;
      deleted := deleted + |batch|;
      if |batch| < BATCH_LIMIT {
        return;
      }
    }
  }

  /** The audit entries of a result: one for each table something was deleted from. */
  function AuditsOf(r: Deleted): seq<Audit> {
    (if r.scanEvents > 0 then [Audit(r.school, "RFID_SCAN_EVENTS", r.scanEvents)] else [])
    + (if r.notifications > 0 then [Audit(r.school, "NOTIFICATION_JOBS", r.notifications)] else [])
  }

  function AllAudits(results: seq<Deleted>): seq<Audit> {
    if results == [] then [] else AllAudits(results[..|results| - 1]) + AuditsOf(results[|results| - 1])
  }

  /** The rows that some policy purged at its own cutoff. */
  function Purged(rows: set<Record>, policies: seq<Policy>, cutoffs: seq<int>): set<Record>
    requires |cutoffs| <= |policies|
  {
    set r | r in rows && PurgedBy(r, policies, cutoffs)
  }

  predicate PurgedBy(r: Record, policies: seq<Policy>, cutoffs: seq<int>)
    requires |cutoffs| <= |policies|
  {
    exists i :: 0 <= i < |cutoffs| && policies[i].school == r.school && r.at < cutoffs[i]
  }

  lemma PurgeOneMore(rows: set<Record>, policies: seq<Policy>, cutoffs: seq<int>, cutoff: int)
    requires |cutoffs| < |policies| && DistinctSchools(policies)
    ensures var school := policies[|cutoffs|].school;
            var left := rows - Purged(rows, policies, cutoffs);
            && Expired(left, school, cutoff) == Expired(rows, school, cutoff)
            && left - Expired(left, school, cutoff) == rows - Purged(rows, policies, cutoffs + [cutoff])
  {
    var n := |cutoffs|;
    var school := policies[n].school;
    forall r | r in rows
      ensures PurgedBy(r, policies, cutoffs + [cutoff]) <==> PurgedBy(r, policies, cutoffs) || (r.school == school && r.at < cutoff)
      ensures r.school == school ==> !PurgedBy(r, policies, cutoffs)
    {
      if PurgedBy(r, policies, cutoffs) {
        var i :| 0 <= i < n && policies[i].school == r.school && r.at < cutoffs[i];
        assert (cutoffs + [cutoff])[i] == cutoffs[i];
        assert policies[i].school != policies[n].school;
      }
      if r.school == school && r.at < cutoff {
        assert (cutoffs + [cutoff])[n] == cutoff;
      }
      if PurgedBy(r, policies, cutoffs + [cutoff]) {
        var i :| 0 <= i < n + 1 && policies[i].school == r.school && r.at < (cutoffs + [cutoff])[i];
        assert i < n ==> r.at < cutoffs[i];
      }
    }
  }

  lemma {:induction false} SchoolPoliciesDistinct(policies: seq<Policy>, school: string)
    requires DistinctSchools(policies)
    ensures DistinctSchools(OfSchool(policies, school))
    ensures forall p | p in OfSchool(policies, school) :: p in policies && p.school == school
    decreases |policies|
  {
    if policies != [] {
      SchoolPoliciesDistinct(policies[1..], school);
      if policies[0].school == school {
        NoSuchSchool(policies[1..], school);
      }
    }
  }

  lemma {:induction false} NoSuchSchool(policies: seq<Policy>, school: string)
    requires forall i | 0 <= i < |policies| :: policies[i].school != school
    ensures OfSchool(policies, school) == []
    decreases |policies|
  {
    if policies != [] {
      NoSuchSchool(policies[1..], school);
    }
  }

  /** Without a target, or with an empty one, every policy is selected; otherwise exactly the policies of
      that school, of which there is at most one. */
  lemma {:induction false} SelectedPolicies(policies: seq<Policy>, target: Option<string>, p: Policy)
    requires DistinctSchools(policies)
    ensures target.None? || target.value == "" ==> PoliciesFor(policies, target) == policies
    ensures target.Some? && target.value != "" ==>
              && (p in PoliciesFor(policies, target) <==> p in policies && p.school == target.value)
              && |PoliciesFor(policies, target)| <= 1
    decreases |policies|
  {
    if target.Some? && target.value != "" && policies != [] {
      SelectedPolicies(policies[1..], target, p);
      assert p in policies <==> p == policies[0] || p in policies[1..];
      if policies[0].school == target.value {
        NoSuchSchool(policies[1..], target.value);
      }
    }
  }

  /** What one policy does to both tables. */
  method ApplyPolicy(db: Database, p: Policy) returns (result: Deleted, ghost scanCutoff: int, ghost jobCutoff: int)
    requires db.scanEvents != db.notificationJobs
    modifies db`clock, db`audit, db.scanEvents, db.notificationJobs
    ensures old(db.clock) <= scanCutoff + p.scanEventsDays * 86400000 <= jobCutoff + p.notificationLogDays * 86400000 == db.clock
    ensures var scans := Expired(old(db.scanEvents.rows), p.school, scanCutoff);
            var jobs := Expired(old(db.notificationJobs.rows), p.school, jobCutoff);
            && db.scanEvents.rows == old(db.scanEvents.rows) - scans
            && db.notificationJobs.rows == old(db.notificationJobs.rows) - jobs
            && result == Deleted(p.school, |scans|, |jobs|)
    ensures db.audit == old(db.audit) + AuditsOf(result)
  {
    var scanEventsDeleted := Purge(db, db.scanEvents, p.school, p.scanEventsDays);
    scanCutoff := Cutoff(db.clock, p.scanEventsDays);
    if scanEventsDeleted > 0 {
      db.audit := db.audit + [Audit(p.school, "RFID_SCAN_EVENTS", scanEventsDeleted)];
    }
    var notifsDeleted := Purge(db, db.notificationJobs, p.school, p.notificationLogDays);
    jobCutoff := Cutoff(db.clock, p.notificationLogDays);
    if notifsDeleted > 0 {
      db.audit := db.audit + [Audit(p.school, "NOTIFICATION_JOBS", notifsDeleted)];
    }
    result := Deleted(p.school, scanEventsDeleted, notifsDeleted);
  }

  /** The i-th result reports the i-th policy, at cutoffs no earlier than the start of the run. */
  predicate Reports(result: Deleted, p: Policy, start: int, scans: set<Record>, scanCutoff: int, jobs: set<Record>, jobCutoff: int) {
    && start <= scanCutoff + p.scanEventsDays * 86400000 <= jobCutoff + p.notificationLogDays * 86400000
    && result == Deleted(p.school, |Expired(scans, p.school, scanCutoff)|, |Expired(jobs, p.school, jobCutoff)|)
  }

  /** For every selected policy each table loses exactly that school's rows expired at the cutoff of its
      last batch, the counts and audit entries report them, and other schools lose nothing. */
  method RunRetention(db: Database, target: Option<string>)
      returns (results: seq<Deleted>, ghost scanCutoffs: seq<int>, ghost jobCutoffs: seq<int>)
    requires db.scanEvents != db.notificationJobs && DistinctSchools(db.policies)
    modifies db`clock, db`audit, db.scanEvents, db.notificationJobs
    ensures var policies := PoliciesFor(db.policies, target);
            && |results| == |scanCutoffs| == |jobCutoffs| == |policies|
            && db.scanEvents.rows == old(db.scanEvents.rows) - Purged(old(db.scanEvents.rows), policies, scanCutoffs)
            && db.notificationJobs.rows == old(db.notificationJobs.rows) - Purged(old(db.notificationJobs.rows), policies, jobCutoffs)
            && forall i | 0 <= i < |policies| ::
                 Reports(results[i], policies[i], old(db.clock), old(db.scanEvents.rows), scanCutoffs[i],
                         old(db.notificationJobs.rows), jobCutoffs[i])
    ensures db.audit == old(db.audit) + AllAudits(results)
  {
    var policies := db.SelectPolicies(target);
    ghost var scans, jobs := db.scanEvents.rows, db.notificationJobs.rows;
    results, scanCutoffs, jobCutoffs := [], [], [];
    for i := 0 to |policies|
      invariant |results| == |scanCutoffs| == |jobCutoffs| == i
      invariant db.policies == old(db.policies) && old(db.clock) <= db.clock
      invariant db.scanEvents.rows == scans - Purged(scans, policies, scanCutoffs)
      invariant db.notificationJobs.rows == jobs - Purged(jobs, policies, jobCutoffs)
      invariant forall k | 0 <= k < i ::
          Reports(results[k], policies[k], old(db.clock), scans, scanCutoffs[k], jobs, jobCutoffs[k])
      invariant db.audit == old(db.audit) + AllAudits(results)
    {
      var result, scanCutoff, jobCutoff := ApplyPolicy(db, policies[i]);
      PurgeOneMore(scans, policies, scanCutoffs, scanCutoff);
      PurgeOneMore(jobs, policies, jobCutoffs, jobCutoff);
      assert (results + [result])[..i] == results;
      results, scanCutoffs, jobCutoffs := results + [result], scanCutoffs + [scanCutoff], jobCutoffs + [jobCutoff];
    }
  }

  /** What that says for one school: its table keeps exactly what its policy keeps. */
  lemma SchoolKeepsUnexpired(rows: set<Record>, policies: seq<Policy>, cutoffs: seq<int>, i: nat, r: Record)
    requires |cutoffs| == |policies| && i < |policies| && DistinctSchools(policies) && r in rows
    ensures r.school == policies[i].school ==> (r in rows - Purged(rows, policies, cutoffs) <==> r.at >= cutoffs[i])
    ensures (forall p | p in policies :: p.school != r.school) ==> r in rows - Purged(rows, policies, cutoffs)
  {
    if PurgedBy(r, policies, cutoffs) {
      var k :| 0 <= k < |cutoffs| && policies[k].school == r.school && r.at < cutoffs[k];
      assert policies[k] in policies;
      assert r.school == policies[i].school ==> k == i;
    }
  }
}
