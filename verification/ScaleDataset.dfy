/** The student batches of the scale dataset (scripts/generateScaleDataset.ts). */
module ScaleDataset {

  const SECTIONS: nat := 10
  const JOB_EVERY: nat := 50

  /** Student i of a school sits in this class section with this roll number. */
  datatype Enrollment = Enrollment(student: int, section: int, roll: int)

  function EnrollmentOf(i: int): Enrollment {
    Enrollment(i, (i - 1) % SECTIONS, (i - 1) / SECTIONS + 1)
  }

  /** One flush: the rows inserted into each table, by student number. */
  datatype Batch = Batch(
    students: seq<int>, enrollments: seq<Enrollment>, guardians: seq<int>, studentGuardians: seq<int>,
    qrs: seq<int>, notifications: seq<int>)

  const EMPTY := Batch([], [], [], [], [], [])

  /** One value for each of from..to. */
  function Tabulate<T>(from: nat, to: nat, f: int -> T): (r: seq<T>)
    requires from <= to + 1
    ensures |r| == to + 1 - from && forall k | 0 <= k < |r| :: r[k] == f(from + k)
  {
    seq(to + 1 - from, k requires 0 <= k < to + 1 - from => f(from + k))
  }

  function Itself(i: int): int { i }

  function Range(from: nat, to: nat): seq<int>
    requires from <= to + 1
  {
    Tabulate(from, to, Itself)
  }

  function Enrollments(from: nat, to: nat): seq<Enrollment>
    requires from <= to + 1
  {
    Tabulate(from, to, EnrollmentOf)
  }

  /** Those of the students with a notification job. */
  function Jobs(from: nat, to: nat): seq<int>
    requires 1 <= from <= to + 1
    decreases 1 + to - from
  {
    if from > to then [] else Jobs(from, to - 1) + if to % JOB_EVERY == 0 then [to] else []
  }

  /** The rows of consecutive students in every table. */
  predicate Covers(b: Batch, from: nat, to: nat) {
    && 1 <= from <= to + 1
    && b == Batch(Range(from, to), Enrollments(from, to), Range(from, to), Range(from, to), Range(from, to), Jobs(from, to))
  }

  /** Batches b are consecutive, from student 1 up to `to`, none empty and none above the size. */
  predicate Partition(b: seq<Batch>, to: nat, size: nat) {
    if b == [] then to == 0 else
    var last := b[|b| - 1];
    && 1 <= |last.students| <= size && |last.students| <= to
    && Covers(last, to + 1 - |last.students|, to)
    && Partition(b[..|b| - 1], to - |last.students|, size)
  }

  function BatchLimit(batchSize: int): (n: nat)
    ensures n >= 1
  {
    if batchSize > 1 then batchSize else 1
  }

  /** The pushes for one student. */
  function Push(batch: Batch, i: nat): Batch {
    Batch(batch.students + [i], batch.enrollments + [EnrollmentOf(i)], batch.guardians + [i], batch.studentGuardians + [i],
          batch.qrs + [i], batch.notifications + if i % JOB_EVERY == 0 then [i] else [])
  }

  lemma TabulateOneMore<T>(from: nat, i: nat, f: int -> T)
    requires from <= i
    ensures i > 0 ==> Tabulate(from, i - 1, f) + [f(i)] == Tabulate(from, i, f)
  {
  }

  lemma PushCovers(batch: Batch, from: nat, i: nat)
    requires 1 <= from <= i && Covers(batch, from, i - 1)
    ensures Covers(Push(batch, i), from, i)
  {
    TabulateOneMore(from, i, Itself);
    TabulateOneMore(from, i, EnrollmentOf);
  }

  /** After `done` students: full batches inserted, the rest gathered. */
  predicate Progress(inserted: seq<Batch>, batch: Batch, done: nat, size: nat) {
    && |batch.students| <= done && |batch.students| < size
    && Covers(batch, done + 1 - |batch.students|, done)
    && Partition(inserted, done - |batch.students|, size)
    && AllFull(inserted, size)
  }

  predicate AllFull(b: seq<Batch>, size: nat) {
    forall k | 0 <= k < |b| :: |b[k].students| == size
  }

  /** The state of the loop after `done` of n students. */
  predicate LoopState(inserted: seq<Batch>, batch: Batch, done: nat, n: nat, size: nat) {
    if done < n || n == 0 then Progress(inserted, batch, done, size)
    else Partition(inserted, n, size) && inserted != [] && AllFull(inserted[..|inserted| - 1], size)
  }

  /** Flushing a gathered batch that is not too large. */
  lemma FlushPartition(inserted: seq<Batch>, batch: Batch, i: nat, size: nat)
    requires 1 <= |batch.students| <= size && |batch.students| <= i
    requires Covers(batch, i + 1 - |batch.students|, i) && Partition(inserted, i - |batch.students|, size)
    ensures Partition(inserted + [batch], i, size) && (inserted + [batch])[..|inserted|] == inserted
  {
    assert (inserted + [batch])[..|inserted|] == inserted;
  }

  lemma NothingGathered(inserted: seq<Batch>, done: nat, size: nat)
    requires size > 0 && Partition(inserted, done, size) && AllFull(inserted, size)
    ensures Progress(inserted, EMPTY, done, size)
  {
    assert Range(done + 1, done) == [] && Enrollments(done + 1, done) == [] && Jobs(done + 1, done) == [];
  }

  /** A gathered batch after the pushes for student i, before the flush test. */
  predicate Gathered(inserted: seq<Batch>, batch: Batch, i: nat, size: nat) {
    && 1 <= |batch.students| <= size && |batch.students| <= i
    && Covers(batch, i + 1 - |batch.students|, i)
    && Partition(inserted, i - |batch.students|, size) && AllFull(inserted, size)
  }

  lemma PushGathers(inserted: seq<Batch>, batch: Batch, i: nat, size: nat)
    requires i >= 1 && Progress(inserted, batch, i - 1, size)
    ensures Gathered(inserted, Push(batch, i), i, size)
  {
    PushCovers(batch, i - |batch.students|, i);
    assert |Push(batch, i).students| == |batch.students| + 1;
  }

  lemma FlushState(inserted: seq<Batch>, batch: Batch, i: nat, n: nat, size: nat)
    requires Gathered(inserted, batch, i, size) && i <= n && (|batch.students| == size || i == n)
    ensures LoopState(inserted + [batch], EMPTY, i, n, size)
  {
    FlushPartition(inserted, batch, i, size);
    if i < n {
      NothingGathered(inserted + [batch], i, size);
    }
  }

  /** The loop body for student i. */
  method AddStudent(inserted: seq<Batch>, batch: Batch, i: nat, n: nat, batchSize: int)
      returns (inserted': seq<Batch>, batch': Batch)
    requires 1 <= i <= n && Progress(inserted, batch, i - 1, BatchLimit(batchSize))
    ensures LoopState(inserted', batch', i, n, BatchLimit(batchSize))
  {
    PushGathers(inserted, batch, i, BatchLimit(batchSize));
    inserted', batch' := inserted, Push(batch, i);
    if |batch'.students| >= batchSize || i == n {
      FlushState(inserted, batch', i, n, BatchLimit(batchSize));
      inserted', batch' := inserted + [batch'], EMPTY;
    }
  }

  /** The per-school loop: rows are gathered student by student and flushed when a batch is full or the
      last student is reached. Every batch but the last is full. */
  method GenerateStudents(studentsPerSchool: nat, batchSize: int) returns (inserted: seq<Batch>)
    ensures Partition(inserted, studentsPerSchool, BatchLimit(batchSize))
    ensures inserted != [] ==> AllFull(inserted[..|inserted| - 1], BatchLimit(batchSize))
  {
    inserted := [];
    var batch := EMPTY;
    NothingGathered(inserted, 0, BatchLimit(batchSize));
    for i := 1 to studentsPerSchool + 1
      invariant LoopState(inserted, batch, i - 1, studentsPerSchool, BatchLimit(batchSize))
    {
      inserted, batch := AddStudent(inserted, batch, i, studentsPerSchool, batchSize);
    }
    if studentsPerSchool == 0 {
      NoStudents(inserted, BatchLimit(batchSize));
    }
  }

  lemma NoStudents(inserted: seq<Batch>, size: nat)
    requires Partition(inserted, 0, size)
    ensures inserted == []
  {
  }

  // ---------- Everything is inserted once, in order ----------

  function Join(a: Batch, b: Batch): Batch {
    Batch(a.students + b.students, a.enrollments + b.enrollments, a.guardians + b.guardians,
          a.studentGuardians + b.studentGuardians, a.qrs + b.qrs, a.notifications + b.notifications)
  }

  /** The rows of all batches, table by table. */
  function AllRows(b: seq<Batch>): Batch {
    if b == [] then EMPTY else Join(AllRows(b[..|b| - 1]), b[|b| - 1])
  }

  lemma {:induction false} JobsJoin(from: nat, mid: nat, to: nat)
    requires 1 <= from <= mid + 1 && mid <= to
    ensures Jobs(from, mid) + Jobs(mid + 1, to) == Jobs(from, to)
    decreases (to) - mid
  {
    if mid < to {
      JobsJoin(from, mid, to - 1);
    }
  }

  lemma {:induction false} JobCount(to: nat)
    ensures |Jobs(1, to)| == to / JOB_EVERY
  {
    if to > 0 {
      JobCount(to - 1);
    }
  }

  lemma TabulateJoin<T>(from: nat, mid: nat, to: nat, f: int -> T)
    requires from <= mid + 1 && mid <= to
    ensures Tabulate(from, mid, f) + Tabulate(mid + 1, to, f) == Tabulate(from, to, f)
  {
  }

  lemma CoversJoin(a: Batch, b: Batch, mid: nat, to: nat)
    requires mid <= to && Covers(a, 1, mid) && Covers(b, mid + 1, to)
    ensures Covers(Join(a, b), 1, to)
  {
    TabulateJoin(1, mid, to, Itself);
    TabulateJoin(1, mid, to, EnrollmentOf);
    JobsJoin(1, mid, to);
  }

  /** Over all batches every table gets students 1, 2, ..., n once each and in order, and the jobs table
      every fiftieth. */
  lemma {:induction false} InsertedOnce(b: seq<Batch>, n: nat, size: nat)
    requires Partition(b, n, size)
    ensures AllRows(b) == Batch(Range(1, n), Enrollments(1, n), Range(1, n), Range(1, n), Range(1, n), Jobs(1, n))
    ensures |AllRows(b).notifications| == n / 50
    decreases |b|
  {
    JobCount(n);
    if b != [] {
      var last := b[|b| - 1];
      var before := n - |last.students|;
      InsertedOnce(b[..|b| - 1], before, size);
      CoversJoin(AllRows(b[..|b| - 1]), last, before, n);
    }
  }

  /** The five parallel inserts of one flush carry the same students, at least one and at most the size. */
  lemma {:induction false} BatchesAreParallel(b: seq<Batch>, n: nat, size: nat, k: nat)
    requires Partition(b, n, size) && k < |b|
    ensures 1 <= |b[k].students| == |b[k].enrollments| <= size
    ensures b[k].students == b[k].guardians == b[k].studentGuardians == b[k].qrs
    ensures forall i | 0 <= i < |b[k].students| :: b[k].enrollments[i] == EnrollmentOf(b[k].students[i])
    decreases |b|
  {
    var last := b[|b| - 1];
    var from := n + 1 - |last.students|;
    assert forall i | 0 <= i < |last.students| :: last.students[i] == from + i && last.enrollments[i] == EnrollmentOf(from + i);
    if k < |b| - 1 {
      BatchesAreParallel(b[..|b| - 1], n - |b[|b| - 1].students|, size, k);
    }
  }

  // ---------- Sections and rolls ----------

  /** How many rows belong to a section. */
  function SizeOf(rows: seq<Enrollment>, section: int): nat {
    if rows == [] then 0
    else SizeOf(rows[..|rows| - 1], section) + if rows[|rows| - 1].section == section then 1 else 0
  }

  lemma OneMoreStudent(n: nat, section: nat)
    requires n > 0 && section < SECTIONS
    ensures (n + SECTIONS - 1 - section) / SECTIONS
            == (n - 1 + SECTIONS - 1 - section) / SECTIONS + if EnrollmentOf(n).section == section then 1 else 0
  {
    var q, r := (n - 1) / SECTIONS, (n - 1) % SECTIONS;
    assert n - 1 == SECTIONS * q + r;
  }

  lemma {:induction false} SizeOfSection(n: nat, section: nat)
    requires section < SECTIONS
    ensures SizeOf(Enrollments(1, n), section) == (n + 9 - section) / 10
  {
    if n > 0 {
      SizeOfSection(n - 1, section);
      OneMoreStudent(n, section);
      var rows := Enrollments(1, n);
      assert rows[..n - 1] == Enrollments(1, n - 1) && rows[n - 1] == EnrollmentOf(n);
    }
  }

  /** The enrollment rows of all batches are those of students 1 to n. */
  lemma RowsOf(b: seq<Batch>, n: nat, size: nat)
    requires Partition(b, n, size)
    ensures var rows := AllRows(b).enrollments; |rows| == n && forall k | 0 <= k < n :: rows[k] == EnrollmentOf(k + 1)
    ensures AllRows(b).enrollments == Enrollments(1, n)
  {
    InsertedOnce(b, n, size);
  }

  /** Student k + 1 sits in section k mod ten, with the next roll number there. */
  lemma RowsByNumber(b: seq<Batch>, n: nat, size: nat, k: nat)
    requires Partition(b, n, size) && k < n
    ensures |AllRows(b).enrollments| == n && AllRows(b).enrollments[k] == Enrollment(k + 1, k % 10, k / 10 + 1)
  {
    RowsOf(b, n, size);
  }

  /** Among the inserted rows, a section's rolls are exactly 1 up to the number of its rows. */
  lemma RollsAreGapFree(b: seq<Batch>, n: nat, size: nat, section: nat, roll: nat)
    requires Partition(b, n, size) && section < SECTIONS
    ensures var rows := AllRows(b).enrollments;
            (exists k :: 0 <= k < |rows| && rows[k].section == section && rows[k].roll == roll)
            <==> 1 <= roll <= SizeOf(rows, section)
  {
    RowsOf(b, n, size);
    SizeOfSection(n, section);
    var rows := AllRows(b).enrollments;
    if 1 <= roll <= SizeOf(rows, section) {
      var k := (roll - 1) * SECTIONS + section;
      assert k / SECTIONS == roll - 1 && k % SECTIONS == section;
      assert rows[k] == EnrollmentOf(k + 1);
    }
  }

  /** No two inserted rows share a section and a roll, as the unique index requires. */
  lemma RollsAreUnique(b: seq<Batch>, n: nat, size: nat, i: nat, j: nat)
    requires Partition(b, n, size) && i < |AllRows(b).enrollments| && j < |AllRows(b).enrollments|
    requires var rows := AllRows(b).enrollments; rows[i].section == rows[j].section && rows[i].roll == rows[j].roll
    ensures i == j
  {
    RowsOf(b, n, size);
    assert i / SECTIONS * SECTIONS + i % SECTIONS == i;
    assert j / SECTIONS * SECTIONS + j % SECTIONS == j;
  }

  /** The inserted rows fill the sections evenly. */
  lemma SectionsAreBalanced(b: seq<Batch>, n: nat, size: nat, x: nat, y: nat)
    requires Partition(b, n, size) && x < SECTIONS && y < SECTIONS
    ensures var rows := AllRows(b).enrollments; SizeOf(rows, x) - SizeOf(rows, y) <= 1
  {
    RowsOf(b, n, size);
    SizeOfSection(n, x);
    SizeOfSection(n, y);
  }

  lemma DivideProduct(s: nat, n: nat)
    ensures s * n / JOB_EVERY == s * (n / JOB_EVERY) + s * (n % JOB_EVERY) / JOB_EVERY
  {
    var q, r := n / JOB_EVERY, n % JOB_EVERY;
    assert n == JOB_EVERY * q + r;
    assert s * n == JOB_EVERY * (s * q) + s * r by {
      assert s * n == s * (JOB_EVERY * q + r) == s * (JOB_EVERY * q) + s * r;
      assert s * (JOB_EVERY * q) == JOB_EVERY * (s * q);
    }
    Shift(s * q, s * r);
  }

  lemma Shift(a: int, b: int)
    ensures (JOB_EVERY * a + b) / JOB_EVERY == a + b / JOB_EVERY
  {
  }

  /** All schools together have at most the expected number of notification jobs, and exactly that number
      just when the remainders of the schools do not add up to one more job. */
  lemma JobsAgainstExpected(schools: nat, n: nat, b: seq<Batch>, size: nat)
    requires Partition(b, n, size)
    ensures schools * |AllRows(b).notifications| <= schools * n / JOB_EVERY
    ensures schools * |AllRows(b).notifications| == schools * n / JOB_EVERY <==> schools * (n % JOB_EVERY) < JOB_EVERY
  {
    InsertedOnce(b, n, size);
    DivideProduct(schools, n);
  }
}
