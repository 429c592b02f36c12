/** One PostgreSQL connection as the application drives it: transaction-local settings, the row
    security policy, staged row writes and named savepoints. */
module Connections {
  import opened SchoolIds

  datatype Role = AppRole | SystemRole

  /** app.is_system and app.current_school_id. */
  datatype Settings = Settings(isSystem: bool, school: string)

  const NO_SETTINGS := Settings(false, "")

  /** What withTenantContext and withSystemContext open. */
  datatype Mode = TenantMode(school: string) | SystemMode

  /** The settings each kind of context makes, local to its transaction. */
  function SettingsOf(mode: Mode): Settings {
    match mode
    case TenantMode(school) => Settings(false, school)
    case SystemMode => Settings(true, "")
  }

  /** One row of a tenant table; its school is stored in canonical lower case. */
  datatype Row = Row(school: string, id: nat)

  /** The tenant isolation policy, used both to see a row and to write one. */
  predicate Permits(role: Role, settings: Settings, row: Row) {
    || (role.SystemRole? && settings.isSystem)
    || (IsPolicyUuid(settings.school) && Lower(settings.school) == row.school)
  }

  /** A session that runs statements: who it is, what is set, whether writes are refused. */
  datatype Session = Session(role: Role, settings: Settings, readOnly: bool)

  /** A savepoint that ROLLBACK TO can return to. */
  datatype Mark = Mark(name: nat, staged: seq<Row>)

  /** An open transaction: its row writes so far, whether a statement failed in it, its savepoints. */
  datatype Tx = Tx(staged: seq<Row>, aborted: bool, marks: seq<Mark>)

  const FRESH_TX := Tx([], false, [])

  datatype Op =
    | Insert(row: Row)
    | Update(row: Row)
    | Savepoint(name: nat)
    | Release(name: nat)
    | RollbackTo(name: nat)

  /** Index of the most recent savepoint of that name, or -1. */
  function Topmost(marks: seq<Mark>, name: nat): (k: int)
    ensures -1 <= k < |marks|
    ensures k >= 0 ==> marks[k].name == name
    ensures forall i | k < i < |marks| :: marks[i].name != name
  {
    if |marks| == 0 then -1
    else if marks[|marks| - 1].name == name then |marks| - 1
    else Topmost(marks[..|marks| - 1], name)
  }

  /** Whether the server accepts the statement; a refused one throws in the caller. */
  predicate Accepts(session: Session, tx: Tx, op: Op) {
    match op
    case Insert(row) => !tx.aborted && !session.readOnly && Permits(session.role, session.settings, row)
    case Update(row) => !tx.aborted && !session.readOnly
    case Savepoint(name) => !tx.aborted
    case Release(name) => !tx.aborted && Topmost(tx.marks, name) >= 0
    case RollbackTo(name) => Topmost(tx.marks, name) >= 0
  }

  predicate IsWrite(op: Op) { op.Insert? || op.Update? }

  /** The effect of one statement. A refused statement aborts the transaction until a rollback to a
      savepoint; an update of a row the policy hides matches nothing. A savepoint outlives the
      rollback to it. */
  function Apply(session: Session, tx: Tx, op: Op): Tx {
    if !Accepts(session, tx, op) then tx.(aborted := true) else
    match op
    case Insert(row) => tx.(staged := tx.staged + [row])
    case Update(row) => if Permits(session.role, session.settings, row) then tx.(staged := tx.staged + [row]) else tx
    case Savepoint(name) => tx.(marks := tx.marks + [Mark(name, tx.staged)])
    case Release(name) => tx.(marks := tx.marks[..Topmost(tx.marks, name)])
    case RollbackTo(name) =>
      var k := Topmost(tx.marks, name);
      Tx(tx.marks[k].staged, false, tx.marks[..k + 1])
  }

  /** A history of statements, first to last. */
  function Replay(session: Session, tx: Tx, ops: seq<Op>): Tx
    decreases |ops|
  {
    if ops == [] then tx else Replay(session, Apply(session, tx, ops[0]), ops[1..])
  }

  /** COMMIT of an aborted transaction publishes nothing and reports no error. */
  function Published(tx: Tx): seq<Row> {
    if tx.aborted then [] else tx.staged
  }

  lemma {:induction false} ReplayAppend(session: Session, tx: Tx, a: seq<Op>, b: seq<Op>)
    ensures Replay(session, tx, a + b) == Replay(session, Replay(session, tx, a), b)
    decreases |a|
  {
    if a == [] {
      assert a + b == b;
    } else {
      assert (a + b)[0] == a[0] && (a + b)[1..] == a[1..] + b;
      ReplayAppend(session, Apply(session, tx, a[0]), a[1..], b);
    }
  }

  lemma ReplayOne(session: Session, tx: Tx, ops: seq<Op>, op: Op)
    ensures Replay(session, tx, ops + [op]) == Apply(session, Replay(session, tx, ops), op)
  {
    ReplayAppend(session, tx, ops, [op]);
    assert [op][1..] == [];
  }

  /** Every staged row, in the transaction and in each savepoint, passed the policy. */
  predicate AllPermitted(session: Session, tx: Tx) {
    && (forall r | r in tx.staged :: Permits(session.role, session.settings, r))
    && (forall m | m in tx.marks :: forall r | r in m.staged :: Permits(session.role, session.settings, r))
  }

  lemma ApplyKeepsPermitted(session: Session, tx: Tx, op: Op)
    requires AllPermitted(session, tx)
    ensures AllPermitted(session, Apply(session, tx, op))
  {
    var tx' := Apply(session, tx, op);
    forall m | m in tx'.marks
      ensures forall r | r in m.staged :: Permits(session.role, session.settings, r)
    {
      assert m in tx.marks || m.staged == tx.staged;
    }
  }

  lemma {:induction false} ReplayKeepsPermitted(session: Session, tx: Tx, ops: seq<Op>)
    requires AllPermitted(session, tx)
    ensures AllPermitted(session, Replay(session, tx, ops))
    decreases |ops|
  {
    if ops != [] {
      ApplyKeepsPermitted(session, tx, ops[0]);
      ReplayKeepsPermitted(session, Apply(session, tx, ops[0]), ops[1..]);
    }
  }

  // ---------- What statements write ----------

  /** The row is in the transaction or in one of its savepoints. */
  predicate Holds(tx: Tx, row: Row) {
    row in tx.staged || exists m :: m in tx.marks && row in m.staged
  }

  /** Some statement of the history writes the row. */
  predicate Writes(ops: seq<Op>, row: Row) {
    exists i :: 0 <= i < |ops| && IsWrite(ops[i]) && ops[i].row == row
  }

  /** Whatever statements are issued, every row staged or kept by a savepoint is the row of one of them. */
  lemma {:induction false} OnlyWrittenRows(session: Session, tx: Tx, ops: seq<Op>, row: Row)
    requires Holds(Replay(session, tx, ops), row)
    ensures Holds(tx, row) || Writes(ops, row)
    decreases |ops|
  {
    if ops != [] {
      OnlyWrittenRows(session, Apply(session, tx, ops[0]), ops[1..], row);
      if Holds(Apply(session, tx, ops[0]), row) {
        HeldBefore(session, tx, ops[0], row);
      } else {
        var i :| 0 <= i < |ops[1..]| && IsWrite(ops[1..][i]) && ops[1..][i].row == row;
        assert ops[i + 1] == ops[1..][i];
      }
    }
  }

  lemma HeldBefore(session: Session, tx: Tx, op: Op, row: Row)
    requires Holds(Apply(session, tx, op), row)
    ensures Holds(tx, row) || (IsWrite(op) && op.row == row)
  {
    var tx' := Apply(session, tx, op);
    if row !in tx'.staged {
      var m :| m in tx'.marks && row in m.staged;
      assert m in tx.marks || m.staged == tx.staged;
    }
  }

  /** A write the server refuses: in a read-only transaction, or an insert the policy does not permit. */
  predicate IsRefused(session: Session, op: Op)
    requires IsWrite(op)
  {
    session.readOnly || (op.Insert? && !Permits(session.role, session.settings, op.row))
  }

  predicate AllWrites(ops: seq<Op>) {
    forall i | 0 <= i < |ops| :: IsWrite(ops[i])
  }

  /** The rows of the writes before the first refused one, without updates of rows the policy hides. */
  function RowsWritten(session: Session, ops: seq<Op>): seq<Row>
    requires AllWrites(ops)
  {
    if ops == [] || IsRefused(session, ops[0]) then []
    else (if Permits(session.role, session.settings, ops[0].row) then [ops[0].row] else []) + RowsWritten(session, ops[1..])
  }

  /** A history of row writes stages exactly those rows, in order, and is aborted exactly when one of the
      writes is refused. */
  lemma {:induction false} WritesStageTheirRows(session: Session, tx: Tx, ops: seq<Op>)
    requires AllWrites(ops) && !tx.aborted
    ensures var tx' := Replay(session, tx, ops);
            && tx'.staged == tx.staged + RowsWritten(session, ops) && tx'.marks == tx.marks
            && (tx'.aborted <==> exists i :: 0 <= i < |ops| && IsRefused(session, ops[i]))
    decreases |ops|
  {
    if ops == [] {
      assert tx.staged + [] == tx.staged;
    } else {
      var tx' := Apply(session, tx, ops[0]);
      if IsRefused(session, ops[0]) {
        AbortedStages(session, tx', ops[1..]);
        assert tx.staged + [] == tx.staged;
      } else {
        WritesStageTheirRows(session, tx', ops[1..]);
        assert tx'.staged == tx.staged + if Permits(session.role, session.settings, ops[0].row) then [ops[0].row] else [];
        assert forall i | 0 <= i < |ops[1..]| :: ops[1..][i] == ops[i + 1];
        assert forall i | 0 < i < |ops| :: ops[i] == ops[1..][i - 1];
        JoinRows(tx.staged, tx'.staged[|tx.staged|..], RowsWritten(session, ops[1..]));
        assert tx'.staged == tx.staged + tx'.staged[|tx.staged|..];
      }
    }
  }

  lemma JoinRows(a: seq<Row>, b: seq<Row>, c: seq<Row>)
    ensures (a + b) + c == a + (b + c)
  {
  }

  /** After a refusal no write has an effect. */
  lemma {:induction false} AbortedStages(session: Session, tx: Tx, ops: seq<Op>)
    requires AllWrites(ops) && tx.aborted
    ensures Replay(session, tx, ops) == tx
    decreases |ops|
  {
    if ops != [] {
      AbortedStages(session, tx, ops[1..]);
    }
  }

  /** Read-only sessions stage nothing, in the transaction or in any savepoint. */
  predicate StagesNothing(tx: Tx) {
    tx.staged == [] && forall m | m in tx.marks :: m.staged == []
  }

  lemma {:induction false} ReadOnlyReplay(session: Session, tx: Tx, ops: seq<Op>)
    requires session.readOnly && StagesNothing(tx)
    ensures StagesNothing(Replay(session, tx, ops))
    decreases |ops|
  {
    if ops != [] {
      var tx' := Apply(session, tx, ops[0]);
      assert StagesNothing(tx') by {
        forall m | m in tx'.marks
          ensures m.staged == []
        {
          assert m in tx.marks || m.staged == tx.staged;
        }
      }
      ReadOnlyReplay(session, tx', ops[1..]);
    }
  }

  /** With nothing set, no connection of either role is permitted any row. */
  lemma EmptySettingsPermitNothing(role: Role, row: Row)
    ensures !Permits(role, NO_SETTINGS, row)
  {
  }

  /** An application connection cannot raise itself by setting app.is_system. */
  lemma AppRoleSeesOneSchool(settings: Settings, row: Row)
    requires Permits(AppRole, settings, row)
    ensures row.school == Lower(settings.school) && IsPolicyUuid(settings.school)
  {
  }
}
