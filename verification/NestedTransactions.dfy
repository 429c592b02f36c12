/** The code that runs inside one context, as a tree: row writes, nested `db.transaction` or
    `tx.transaction` calls, re-entered contexts, and which failures the code catches. Its run against
    named savepoints is compared with the simple meaning "a failed transaction undoes itself". */
module NestedTransactions {
  import opened Connections
  import opened SchoolIds
  import opened Wrappers

  /** Which object `.transaction` is called on. The db proxy routes to the context's own transaction
      whatever the nesting; the handle a nested callback receives is one level deeper. */
  datatype Via = ViaDb | ViaHandle

  datatype Code =
    | Return
    | Throw
    | Write(op: Op, caught: bool, rest: Code)
    | Nested(via: Via, body: Code, caught: bool, rest: Code)
    | Reenter(target: Mode, body: Code, caught: bool, rest: Code)

  /** The context the code runs in. */
  datatype Env = Env(session: Session, mode: Mode)

  datatype CallError =
    | INVALID_SCHOOL_ID
    | TENANT_CONTEXT_INSIDE_SYSTEM_CONTEXT_FORBIDDEN
    | TENANT_CONTEXT_SWITCH_FORBIDDEN
    | SYSTEM_CONTEXT_INSIDE_TENANT_CONTEXT_FORBIDDEN

  /** The checks withTenantContext and withSystemContext make before anything runs. */
  function CheckCall(active: Option<Mode>, target: Mode): Option<CallError> {
    match target
    case TenantMode(school) =>
      if !IsUuid(school) then Some(INVALID_SCHOOL_ID)
      else if active == Some(SystemMode) then Some(TENANT_CONTEXT_INSIDE_SYSTEM_CONTEXT_FORBIDDEN)
      else if active.Some? && active.value.school != school then Some(TENANT_CONTEXT_SWITCH_FORBIDDEN)
      else None
    case SystemMode =>
      if active.Some? && active.value.TenantMode? then Some(SYSTEM_CONTEXT_INSIDE_TENANT_CONTEXT_FORBIDDEN)
      else None
  }

  /** Depth of the context's own transaction, which every re-entered callback is handed again. */
  const ROOT: nat := 0

  /** Savepoints are numbered by the depth of the object the call is made on. */
  function SavepointName(via: Via, handle: nat): nat {
    (if via.ViaDb? then ROOT else handle) + 1
  }

  /** Only row writes occur as Write steps. */
  predicate WellFormed(c: Code) {
    match c
    case Return => true
    case Throw => true
    case Write(op, _, rest) => IsWrite(op) && WellFormed(rest)
    case Nested(_, body, _, rest) => WellFormed(body) && WellFormed(rest)
    case Reenter(_, body, _, rest) => WellFormed(body) && WellFormed(rest)
  }

  // ---------- The simple meaning ----------

  /** Staged writes and the aborted flag: no savepoints. */
  datatype View = View(staged: seq<Row>, aborted: bool)

  /** What a write means, and whether it is accepted: an aborted or read-only transaction refuses it, and
      so does the policy refuse a row to insert; a row to update that the policy hides is not there. */
  function Written(session: Session, v: View, op: Op): (View, bool) {
    match op
    case Insert(row) =>
      if v.aborted || session.readOnly || !Permits(session.role, session.settings, row) then (v.(aborted := true), false)
      else (View(v.staged + [row], false), true)
    case Update(row) =>
      if v.aborted || session.readOnly then (v.(aborted := true), false)
      else if Permits(session.role, session.settings, row) then (View(v.staged + [row], false), true)
      else (v, true)
    case Savepoint(_) => (v, true)
    case Release(_) => (v, true)
    case RollbackTo(_) => (v, true)
  }

  function AsView(tx: Tx): View { View(tx.staged, tx.aborted) }

  /** A nested transaction that fails leaves the state exactly as it found it; one that succeeds keeps
      its writes. A re-entered context is no transaction of its own: its writes stay either way.
      The second result says whether the code returned normally. */
  function Meaning(env: Env, c: Code, v: View): (View, bool) {
    match c
    case Return => (v, true)
    case Throw => (v, false)
    case Write(op, caught, rest) =>
      var v' := Written(env.session, v, op).0;
      if Written(env.session, v, op).1 || caught then Meaning(env, rest, v') else (v', false)
    case Nested(_, body, caught, rest) =>
      if v.aborted then (if caught then Meaning(env, rest, v) else (v, false)) else
      var (v1, ok) := Meaning(env, body, v);
      if ok && !v1.aborted then Meaning(env, rest, v1)
      else if caught then Meaning(env, rest, v)
      else (v, false)
    case Reenter(target, body, caught, rest) =>
      if CheckCall(Some(env.mode), target).Some? then (if caught then Meaning(env, rest, v) else (v, false)) else
      var (v1, ok) := Meaning(env, body, v);
      if ok || caught then Meaning(env, rest, v1) else (v1, false)
  }

  // ---------- The run against savepoints ----------

  function SavepointStart(env: Env, tx: Tx, name: nat): Tx {
    Apply(env.session, tx, Savepoint(name))
  }

  /** A nested call that returned normally releases its savepoint; if the body failed, or the release
      is refused, the call rolls back to the savepoint and throws. */
  function SavepointEnd(env: Env, tx: Tx, name: nat, returned: bool): (Tx, bool) {
    if returned && Accepts(env.session, tx, Release(name)) then (Apply(env.session, tx, Release(name)), true)
    else
      var tx' := if returned then Apply(env.session, tx, Release(name)) else tx;
      (Apply(env.session, tx', RollbackTo(name)), false)
  }

  function Run(env: Env, c: Code, handle: nat, tx: Tx): (Tx, bool)
    decreases c
  {
    match c
    case Return => (tx, true)
    case Throw => (tx, false)
    case Write(op, caught, rest) =>
      var tx' := Apply(env.session, tx, op);
      if Accepts(env.session, tx, op) || caught then Run(env, rest, handle, tx') else (tx', false)
    case Nested(via, body, caught, rest) =>
      var name := SavepointName(via, handle);
      if !Accepts(env.session, tx, Savepoint(name)) then
        var tx' := Apply(env.session, tx, Savepoint(name));
        if caught then Run(env, rest, handle, tx') else (tx', false)
      else
        var (tx1, returned) := Run(env, body, name, SavepointStart(env, tx, name));
        var (tx2, ok) := SavepointEnd(env, tx1, name, returned);
        if ok || caught then Run(env, rest, handle, tx2) else (tx2, false)
    case Reenter(target, body, caught, rest) =>
      if CheckCall(Some(env.mode), target).Some? then (if caught then Run(env, rest, handle, tx) else (tx, false)) else
      var (tx1, ok) := Run(env, body, ROOT, tx);
      if ok || caught then Run(env, rest, handle, tx1) else (tx1, false)
  }

  // ---------- When the two agree ----------

  /** Where a rollback to `name` lands among the savepoints a nested call made, its own first. */
  function Landing(marks: seq<Mark>, name: nat): (k: nat)
    requires marks != [] && marks[0].name == name
    ensures k < |marks| && k == Topmost(marks, name)
  {
    Topmost(marks, name)
  }

  /** The savepoints c leaves on the connection when every failed nested transaction undoes itself:
      a rollback keeps the one it lands on, a release drops only the most recent of its name. */
  function Leftovers(env: Env, c: Code, handle: nat, v: View): seq<Mark>
    decreases c
  {
    match c
    case Return => []
    case Throw => []
    case Write(op, caught, rest) =>
      if Written(env.session, v, op).1 || caught
      then Leftovers(env, rest, handle, Written(env.session, v, op).0) else []
    case Nested(via, body, caught, rest) =>
      if v.aborted then (if caught then Leftovers(env, rest, handle, v) else []) else
      var name := SavepointName(via, handle);
      var made := [Mark(name, v.staged)] + Leftovers(env, body, name, v);
      var (v1, ok) := Meaning(env, body, v);
      if ok && !v1.aborted then made[..Landing(made, name)] + Leftovers(env, rest, handle, v1)
      else made[..Landing(made, name) + 1] + (if caught then Leftovers(env, rest, handle, v) else [])
    case Reenter(target, body, caught, rest) =>
      if CheckCall(Some(env.mode), target).Some? then (if caught then Leftovers(env, rest, handle, v) else []) else
      var (v1, ok) := Meaning(env, body, v);
      Leftovers(env, body, ROOT, v) + (if ok || caught then Leftovers(env, rest, handle, v1) else [])
  }

  /** For each nested transaction that fails, the most recent savepoint of its name was made before the
      transaction had staged any row. */
  predicate Safe(env: Env, c: Code, handle: nat, v: View)
    decreases c
  {
    match c
    case Return => true
    case Throw => true
    case Write(op, caught, rest) =>
      Written(env.session, v, op).1 || caught ==> Safe(env, rest, handle, Written(env.session, v, op).0)
    case Nested(via, body, caught, rest) =>
      if v.aborted then (caught ==> Safe(env, rest, handle, v)) else
      var name := SavepointName(via, handle);
      var made := [Mark(name, v.staged)] + Leftovers(env, body, name, v);
      var (v1, ok) := Meaning(env, body, v);
      && Safe(env, body, name, v)
      && (if ok && !v1.aborted then Safe(env, rest, handle, v1)
          else made[Landing(made, name)].staged == v.staged && (caught ==> Safe(env, rest, handle, v)))
    case Reenter(target, body, caught, rest) =>
      if CheckCall(Some(env.mode), target).Some? then (caught ==> Safe(env, rest, handle, v)) else
      var (v1, ok) := Meaning(env, body, v);
      Safe(env, body, ROOT, v) && (ok || caught ==> Safe(env, rest, handle, v1))
  }

  /** In the run against savepoints, every nested call that fails leaves the staged writes it found. */
  predicate Undoes(env: Env, c: Code, handle: nat, tx: Tx)
    decreases c
  {
    match c
    case Return => true
    case Throw => true
    case Write(op, caught, rest) =>
      Accepts(env.session, tx, op) || caught ==> Undoes(env, rest, handle, Apply(env.session, tx, op))
    case Nested(via, body, caught, rest) =>
      var name := SavepointName(via, handle);
      var started := SavepointStart(env, tx, name);
      if !Accepts(env.session, tx, Savepoint(name)) then (caught ==> Undoes(env, rest, handle, started)) else
      var (tx1, returned) := Run(env, body, name, started);
      var (tx2, ok) := SavepointEnd(env, tx1, name, returned);
      && Undoes(env, body, name, started)
      && (!ok ==> tx2.staged == tx.staged)
      && (ok || caught ==> Undoes(env, rest, handle, tx2))
    case Reenter(target, body, caught, rest) =>
      if CheckCall(Some(env.mode), target).Some? then (caught ==> Undoes(env, rest, handle, tx)) else
      var (tx1, ok) := Run(env, body, ROOT, tx);
      Undoes(env, body, ROOT, tx) && (ok || caught ==> Undoes(env, rest, handle, tx1))
  }

  lemma TopmostAbove(base: seq<Mark>, made: seq<Mark>, name: nat)
    requires made != [] && made[0].name == name
    ensures Topmost(base + made, name) == |base| + Landing(made, name)
  {
    var k := Topmost(base + made, name);
    var l := Landing(made, name);
    assert (base + made)[|base| + l] == made[l];
    assert forall i | l < i < |made| :: (base + made)[|base| + i] == made[i] && made[i].name != name;
    assert k >= |base| ==> (base + made)[k] == made[k - |base|];
  }

  /** Ending a nested call that made the savepoints `made` above `base`, its own first. */
  lemma SavepointEndOutcome(env: Env, tx1: Tx, base: seq<Mark>, made: seq<Mark>, name: nat, returned: bool)
    requires made != [] && made[0].name == name && tx1.marks == base + made
    ensures var (tx2, ok) := SavepointEnd(env, tx1, name, returned);
            var k := Landing(made, name);
            && ok == (returned && !tx1.aborted)
            && (ok ==> tx2 == tx1.(marks := base + made[..k]))
            && (!ok ==> tx2 == Tx(made[k].staged, false, base + made[..k + 1]))
  {
    TopmostAbove(base, made, name);
    var k := Landing(made, name);
    assert tx1.marks[..|base| + k] == base + made[..k];
    assert tx1.marks[..|base| + k + 1] == base + made[..k + 1];
  }

  /** What the run gives from tx when it agrees with the meaning. */
  function Agreed(env: Env, c: Code, handle: nat, tx: Tx): (Tx, bool) {
    var (v, ok) := Meaning(env, c, AsView(tx));
    (Tx(v.staged, v.aborted, tx.marks + Leftovers(env, c, handle, AsView(tx))), ok)
  }

  /** For all code: every failed nested transaction of the run undoes itself exactly when the code is
      safe, and then the run against savepoints is what the simple meaning says. */
  lemma {:induction false} RunRefinesMeaning(env: Env, c: Code, handle: nat, tx: Tx)
    requires WellFormed(c)
    ensures Undoes(env, c, handle, tx) <==> Safe(env, c, handle, AsView(tx))
    ensures Safe(env, c, handle, AsView(tx)) ==> Run(env, c, handle, tx) == Agreed(env, c, handle, tx)
    decreases c, 1
  {
    var v := AsView(tx);
    match c
    case Return =>
      assert tx.marks + [] == tx.marks;
    case Throw =>
      assert tx.marks + [] == tx.marks;
    case Write(op, caught, rest) =>
      var tx' := Apply(env.session, tx, op);
      assert AsView(tx') == Written(env.session, v, op).0 && tx'.marks == tx.marks;
      assert tx.marks + [] == tx.marks;
      if Accepts(env.session, tx, op) || caught {
        RunRefinesMeaning(env, rest, handle, tx');
      }
    case Nested(via, body, caught, rest) =>
      if tx.aborted {
        assert tx.marks + [] == tx.marks;
        if caught {
          RunRefinesMeaning(env, rest, handle, tx);
        }
      } else {
        NestedRefines(env, c, handle, tx);
      }
    case Reenter(target, body, caught, rest) =>
      if CheckCall(Some(env.mode), target).Some? {
        assert tx.marks + [] == tx.marks;
        if caught {
          RunRefinesMeaning(env, rest, handle, tx);
        }
      } else {
        RunRefinesMeaning(env, body, ROOT, tx);
        var (tx1, ok) := Run(env, body, ROOT, tx);
        if Safe(env, body, ROOT, v) && (ok || caught) {
          RunRefinesMeaning(env, rest, handle, tx1);
          JoinMarks(tx.marks, Leftovers(env, body, ROOT, v), Leftovers(env, rest, handle, AsView(tx1)));
        } else {
          JoinMarks(tx.marks, Leftovers(env, body, ROOT, v), []);
        }
      }
  }

  lemma JoinMarks(a: seq<Mark>, b: seq<Mark>, c: seq<Mark>)
    ensures (a + b) + c == a + (b + c)
    ensures c == [] ==> b + c == b
  {
  }

  lemma {:induction false} NestedRefines(env: Env, c: Code, handle: nat, tx: Tx)
    requires c.Nested? && WellFormed(c) && !tx.aborted
    ensures Undoes(env, c, handle, tx) <==> Safe(env, c, handle, AsView(tx))
    ensures Safe(env, c, handle, AsView(tx)) ==> Run(env, c, handle, tx) == Agreed(env, c, handle, tx)
    decreases c, 0
  {
    var v := AsView(tx);
    var name := SavepointName(c.via, handle);
    var started := SavepointStart(env, tx, name);
    var own := Mark(name, tx.staged);
    assert started == tx.(marks := tx.marks + [own]);
    RunRefinesMeaning(env, c.body, name, started);
    if Safe(env, c.body, name, v) {
      var (tx1, returned) := Run(env, c.body, name, started);
      var inner := Leftovers(env, c.body, name, v);
      var made := [own] + inner;
      JoinMarks(tx.marks, [own], inner);
      SavepointEndOutcome(env, tx1, tx.marks, made, name, returned);
      var (tx2, ok) := SavepointEnd(env, tx1, name, returned);
      var kept := made[..Landing(made, name) + if ok then 0 else 1];
      assert tx2.marks == tx.marks + kept;
      if ok || c.caught {
        RunRefinesMeaning(env, c.rest, handle, tx2);
        JoinMarks(tx.marks, kept, Leftovers(env, c.rest, handle, AsView(tx2)));
      } else {
        JoinMarks(tx.marks, kept, []);
      }
    }
  }

  // ---------- Failures inside failures ----------

  /** Names of the savepoints whose nested transaction fails while c runs. */
  function FailedNames(env: Env, c: Code, handle: nat, v: View): set<nat>
    decreases c
  {
    match c
    case Return => {}
    case Throw => {}
    case Write(op, caught, rest) =>
      if Written(env.session, v, op).1 || caught
      then FailedNames(env, rest, handle, Written(env.session, v, op).0) else {}
    case Nested(via, body, caught, rest) =>
      if v.aborted then (if caught then FailedNames(env, rest, handle, v) else {}) else
      var name := SavepointName(via, handle);
      var inner := FailedNames(env, body, name, v);
      var (v1, ok) := Meaning(env, body, v);
      if ok && !v1.aborted then inner + FailedNames(env, rest, handle, v1)
      else inner + {name} + (if caught then FailedNames(env, rest, handle, v) else {})
    case Reenter(target, body, caught, rest) =>
      if CheckCall(Some(env.mode), target).Some? then (if caught then FailedNames(env, rest, handle, v) else {}) else
      var (v1, ok) := Meaning(env, body, v);
      FailedNames(env, body, ROOT, v) + (if ok || caught then FailedNames(env, rest, handle, v1) else {})
  }

  /** No failing transaction has a failing transaction of the same savepoint name inside it. */
  predicate Clean(env: Env, c: Code, handle: nat, v: View)
    decreases c
  {
    match c
    case Return => true
    case Throw => true
    case Write(op, caught, rest) =>
      Written(env.session, v, op).1 || caught ==> Clean(env, rest, handle, Written(env.session, v, op).0)
    case Nested(via, body, caught, rest) =>
      if v.aborted then (caught ==> Clean(env, rest, handle, v)) else
      var name := SavepointName(via, handle);
      var (v1, ok) := Meaning(env, body, v);
      && Clean(env, body, name, v)
      && (if ok && !v1.aborted then Clean(env, rest, handle, v1)
          else name !in FailedNames(env, body, name, v) && (caught ==> Clean(env, rest, handle, v)))
    case Reenter(target, body, caught, rest) =>
      if CheckCall(Some(env.mode), target).Some? then (caught ==> Clean(env, rest, handle, v)) else
      var (v1, ok) := Meaning(env, body, v);
      Clean(env, body, ROOT, v) && (ok || caught ==> Clean(env, rest, handle, v1))
  }

  /** Code is safe when no failing transaction contains another of its savepoint name. */
  lemma {:induction false} CleanIsSafe(env: Env, c: Code, handle: nat, v: View)
    requires Clean(env, c, handle, v)
    ensures Safe(env, c, handle, v)
    ensures forall m | m in Leftovers(env, c, handle, v) :: m.name in FailedNames(env, c, handle, v)
    decreases c
  {
    match c
    case Return =>
    case Throw =>
    case Write(op, caught, rest) =>
      if Written(env.session, v, op).1 || caught {
        CleanIsSafe(env, rest, handle, Written(env.session, v, op).0);
      }
    case Nested(via, body, caught, rest) =>
      if !v.aborted {
        var name := SavepointName(via, handle);
        CleanIsSafe(env, body, name, v);
        var made := [Mark(name, v.staged)] + Leftovers(env, body, name, v);
        assert made[Landing(made, name)] in made;
        var (v1, ok) := Meaning(env, body, v);
        if ok && !v1.aborted {
          CleanIsSafe(env, rest, handle, v1);
        } else if caught {
          CleanIsSafe(env, rest, handle, v);
        }
      } else if caught {
        CleanIsSafe(env, rest, handle, v);
      }
    case Reenter(target, body, caught, rest) =>
      if CheckCall(Some(env.mode), target).None? {
        CleanIsSafe(env, body, ROOT, v);
        var (v1, ok) := Meaning(env, body, v);
        if ok || caught {
          CleanIsSafe(env, rest, handle, v1);
        }
      } else if caught {
        CleanIsSafe(env, rest, handle, v);
      }
  }

  // ---------- Nesting through the callback's own handle ----------

  predicate NoNesting(c: Code) {
    match c
    case Return => true
    case Throw => true
    case Write(_, _, rest) => NoNesting(rest)
    case Nested(_, _, _, _) => false
    case Reenter(_, body, _, rest) => NoNesting(body) && NoNesting(rest)
  }

  /** Code nests only through the handle its callback received, and a context re-entered inside a nested
      transaction, whose handle is the root again, nests nothing. */
  predicate HandleOnly(c: Code, handle: nat)
    decreases c
  {
    match c
    case Return => true
    case Throw => true
    case Write(_, _, rest) => HandleOnly(rest, handle)
    case Nested(via, body, _, rest) => via.ViaHandle? && HandleOnly(body, handle + 1) && HandleOnly(rest, handle)
    case Reenter(_, body, _, rest) =>
      (if handle == ROOT then HandleOnly(body, ROOT) else NoNesting(body)) && HandleOnly(rest, handle)
  }

  lemma {:induction false} NoNestingIsClean(env: Env, c: Code, handle: nat, v: View)
    requires NoNesting(c)
    ensures Clean(env, c, handle, v) && FailedNames(env, c, handle, v) == {}
    decreases c
  {
    match c
    case Return =>
    case Throw =>
    case Write(op, _, rest) =>
      NoNestingIsClean(env, rest, handle, Written(env.session, v, op).0);
    case Reenter(_, body, _, rest) =>
      NoNestingIsClean(env, body, ROOT, v);
      NoNestingIsClean(env, rest, handle, v);
      NoNestingIsClean(env, rest, handle, Meaning(env, body, v).0);
  }

  lemma {:induction false} HandleNamesGrow(env: Env, c: Code, handle: nat, v: View)
    requires HandleOnly(c, handle)
    ensures Clean(env, c, handle, v)
    ensures forall n | n in FailedNames(env, c, handle, v) :: n > handle
    decreases c
  {
    match c
    case Return =>
    case Throw =>
    case Write(op, caught, rest) =>
      HandleNamesGrow(env, rest, handle, Written(env.session, v, op).0);
    case Nested(via, body, caught, rest) =>
      HandleNamesGrow(env, body, handle + 1, v);
      HandleNamesGrow(env, rest, handle, v);
      HandleNamesGrow(env, rest, handle, Meaning(env, body, v).0);
    case Reenter(target, body, caught, rest) =>
      if handle == ROOT {
        HandleNamesGrow(env, body, ROOT, v);
      } else {
        NoNestingIsClean(env, body, ROOT, v);
      }
      HandleNamesGrow(env, rest, handle, v);
      HandleNamesGrow(env, rest, handle, Meaning(env, body, v).0);
  }

  /** The restriction is needed: a nested call inside a context re-entered below a nested transaction has
      that transaction's savepoint name again, so the outer failure returns to the wrong savepoint. */
  lemma ReenteredHandleLosesRollback(env: Env, row: Row)
    requires Permits(env.session.role, env.session.settings, row) && !env.session.readOnly
    requires env.mode.TenantMode? ==> IsUuid(env.mode.school)
    ensures var inner := Reenter(env.mode, Nested(ViaHandle, Throw, true, Return), false, Throw);
            var code := Nested(ViaHandle, Write(Insert(row), false, inner), true, Return);
            && RunContext(env, code, []) == ([row], true)
            && Meaning(env, code, View([], false)) == (View([], false), true)
  {
    var again := Nested(ViaHandle, Throw, true, Return);
    var inner := Reenter(env.mode, again, false, Throw);
    var own := Mark(1, []);
    var tx := Tx([row], false, [own]);
    var left := Tx([row], false, [own, Mark(1, [row])]);
    assert Apply(env.session, SavepointStart(env, FRESH_TX, 1), Insert(row)) == tx;
    assert SavepointStart(env, tx, 1) == left;
    assert Topmost(left.marks, 1) == 1 && left.marks[..2] == left.marks;
    assert SavepointEnd(env, left, 1, false) == (left, false);
    assert Run(env, again, ROOT, tx) == (left, true);
    assert Run(env, inner, 1, tx) == (left, false);
    var body := Write(Insert(row), false, inner);
    assert Run(env, body, 1, SavepointStart(env, FRESH_TX, 1)) == (left, false);
    assert Run(env, Nested(ViaHandle, body, true, Return), ROOT, FRESH_TX) == (left, true);
    assert Meaning(env, again, View([row], false)) == (View([row], false), true);
    assert Meaning(env, inner, View([row], false)) == (View([row], false), false);
    assert Meaning(env, body, View([], false)) == (View([row], false), false) by {
      assert Written(env.session, View([], false), Insert(row)) == (View([row], false), true);
    }
  }

  // ---------- Nesting through the db proxy ----------

  predicate DbOnly(c: Code) {
    match c
    case Return => true
    case Throw => true
    case Write(_, _, rest) => DbOnly(rest)
    case Nested(via, body, _, rest) => via.ViaDb? && DbOnly(body) && DbOnly(rest)
    case Reenter(_, body, _, rest) => DbOnly(body) && DbOnly(rest)
  }

  /** Every nested transaction starts with a row write the session may make. */
  predicate WritesFirst(env: Env, c: Code) {
    match c
    case Return => true
    case Throw => true
    case Write(_, _, rest) => WritesFirst(env, rest)
    case Nested(_, body, _, rest) =>
      && body.Write? && IsWrite(body.op) && !env.session.readOnly
      && Permits(env.session.role, env.session.settings, body.op.row)
      && WritesFirst(env, body) && WritesFirst(env, rest)
    case Reenter(_, body, _, rest) => WritesFirst(env, body) && WritesFirst(env, rest)
  }

  /** What the run added: savepoints left behind, all named 1, none older than the start of the run. */
  predicate LeftBehind(before: Tx, after: Tx) {
    && before.marks <= after.marks
    && forall i | |before.marks| <= i < |after.marks| ::
         after.marks[i].name == 1 && |after.marks[i].staged| >= |before.staged|
  }

  /** How a run r from tx compares with the meaning m from v. */
  predicate Compares(env: Env, c: Code, handle: nat, tx: Tx, v: View) {
    var (tx', ok) := Run(env, c, handle, tx);
    var (v', ok') := Meaning(env, c, v);
    && ok == ok' && tx'.aborted == v'.aborted
    && LeftBehind(tx, tx')
    && FailedNames(env, c, handle, v) <= {1}
    && (FailedNames(env, c, handle, v) == {} ==> Clean(env, c, handle, v))
    && (FailedNames(env, c, handle, v) == {} <==> |tx'.marks| == |tx.marks|)
    && |v'.staged| >= |v.staged|
    && |tx'.staged| - |tx.staged| >= |v'.staged| - |v.staged|
    && (!Clean(env, c, handle, v) ==> |tx'.staged| - |tx.staged| > |v'.staged| - |v.staged|)
  }

  lemma {:induction false} DbRunCompares(env: Env, c: Code, handle: nat, tx: Tx, v: View)
    requires WellFormed(c) && DbOnly(c) && WritesFirst(env, c) && tx.aborted == v.aborted
    ensures Compares(env, c, handle, tx, v)
    decreases c, 2
  {
    match c
    case Return =>
    case Throw =>
    case Write(op, caught, rest) =>
      if Accepts(env.session, tx, op) || caught {
        DbRunCompares(env, rest, handle, Apply(env.session, tx, op), Written(env.session, v, op).0);
      }
    case Nested(via, body, caught, rest) =>
      if tx.aborted {
        if caught {
          DbRunCompares(env, rest, handle, tx, v);
        }
      } else {
        DbNestedCompares(env, c, handle, tx, v);
      }
    case Reenter(target, body, caught, rest) =>
      DbReenterCompares(env, c, handle, tx, v);
  }

  lemma {:induction false} DbReenterCompares(env: Env, c: Code, handle: nat, tx: Tx, v: View)
    requires c.Reenter? && WellFormed(c) && DbOnly(c) && WritesFirst(env, c) && tx.aborted == v.aborted
    ensures Compares(env, c, handle, tx, v)
    decreases c, 0
  {
    if CheckCall(Some(env.mode), c.target).Some? {
      if c.caught {
        DbRunCompares(env, c.rest, handle, tx, v);
      }
    } else {
      DbRunCompares(env, c.body, ROOT, tx, v);
      var (tx1, ok) := Run(env, c.body, ROOT, tx);
      if ok || c.caught {
        DbRunCompares(env, c.rest, handle, tx1, Meaning(env, c.body, v).0);
      }
    }
  }

  /** The transaction after the first write of a nested call's body. */
  function AfterFirstWrite(env: Env, c: Code, tx: Tx): Tx
    requires c.Nested? && c.body.Write?
  {
    Apply(env.session, SavepointStart(env, tx, 1), c.body.op)
  }

  /** The body of a nested call, which begins with a write. */
  lemma {:induction false} DbBodyCompares(env: Env, c: Code, tx: Tx, v: View)
    requires c.Nested? && WellFormed(c) && DbOnly(c) && WritesFirst(env, c) && !tx.aborted && !v.aborted
    ensures var first := AfterFirstWrite(env, c, tx);
            var (tx1, returned) := Run(env, c.body, 1, SavepointStart(env, tx, 1));
            var (v1, ok) := Meaning(env, c.body, v);
            var failed := FailedNames(env, c.body, 1, v);
            && first.marks == tx.marks + [Mark(1, tx.staged)] && |first.staged| == |tx.staged| + 1
            && returned == ok && tx1.aborted == v1.aborted && LeftBehind(first, tx1)
            && failed <= {1} && (failed == {} <==> |tx1.marks| == |first.marks|) && (failed == {} ==> Clean(env, c.body, 1, v))
            && |v1.staged| >= |v.staged| && |tx1.staged| - |tx.staged| >= |v1.staged| - |v.staged|
            && (!Clean(env, c.body, 1, v) ==> |tx1.staged| - |tx.staged| > |v1.staged| - |v.staged|)
    decreases c, 0
  {
    var first := AfterFirstWrite(env, c, tx);
    var firstView := Written(env.session, v, c.body.op).0;
    DbRunCompares(env, c.body.rest, 1, first, firstView);
    assert Run(env, c.body, 1, SavepointStart(env, tx, 1)) == Run(env, c.body.rest, 1, first);
    assert Meaning(env, c.body, v) == Meaning(env, c.body.rest, firstView);
    assert FailedNames(env, c.body, 1, v) == FailedNames(env, c.body.rest, 1, firstView);
    assert Clean(env, c.body, 1, v) == Clean(env, c.body.rest, 1, firstView);
  }

  /** A nested call that fails with another failure left behind inside it returns to the wrong savepoint. */
  lemma {:induction false} DbNestedCompares(env: Env, c: Code, handle: nat, tx: Tx, v: View)
    requires c.Nested? && WellFormed(c) && DbOnly(c) && WritesFirst(env, c) && !tx.aborted && !v.aborted
    ensures Compares(env, c, handle, tx, v)
    decreases c, 1
  {
    DbBodyCompares(env, c, tx, v);
    var (tx1, returned) := Run(env, c.body, 1, SavepointStart(env, tx, 1));
    DbEndCompares(env, tx, AfterFirstWrite(env, c, tx), tx1, returned);
    var (tx2, ok) := SavepointEnd(env, tx1, 1, returned);
    if ok {
      DbRunCompares(env, c.rest, handle, tx2, Meaning(env, c.body, v).0);
    } else if c.caught {
      DbRunCompares(env, c.rest, handle, tx2, v);
    }
  }

  /** Where ending a call named 1 leads, by whether anything was left behind since its first write. */
  lemma DbEndCompares(env: Env, tx: Tx, first: Tx, tx1: Tx, returned: bool)
    requires !tx.aborted && first.marks == tx.marks + [Mark(1, tx.staged)] && |first.staged| == |tx.staged| + 1
    requires LeftBehind(first, tx1)
    ensures var (tx2, ok) := SavepointEnd(env, tx1, 1, returned);
            && ok == (returned && !tx1.aborted) && LeftBehind(tx, tx2) && (!ok ==> !tx2.aborted)
            && (ok ==> AsView(tx2) == AsView(tx1) && (|tx2.marks| == |tx.marks| <==> |tx1.marks| == |first.marks|))
            && (!ok ==> |tx2.marks| > |tx.marks|)
            && (!ok && |tx1.marks| == |first.marks| ==> tx2.staged == tx.staged)
            && (!ok && |tx1.marks| > |first.marks| ==> |tx2.staged| > |tx.staged|)
  {
    var k := |tx1.marks| - 1;
    assert tx1.marks[|tx.marks|] == first.marks[|tx.marks|] == Mark(1, tx.staged);
    assert tx1.marks[k].name == 1;
    assert Topmost(tx1.marks, 1) == k;
  }

  /** Through the db proxy, and when every nested transaction begins with a write, what a context
      stages is what the simple meaning says exactly when no failing nested transaction contains
      another failing one. */
  lemma DbExactlyWhenClean(env: Env, c: Code)
    requires WellFormed(c) && DbOnly(c) && WritesFirst(env, c)
    ensures Run(env, c, ROOT, FRESH_TX).0.staged == Meaning(env, c, View([], false)).0.staged
            <==> Clean(env, c, ROOT, View([], false))
  {
    DbRunCompares(env, c, ROOT, FRESH_TX, View([], false));
    if Clean(env, c, ROOT, View([], false)) {
      CleanIsSafe(env, c, ROOT, View([], false));
      RunRefinesMeaning(env, c, ROOT, FRESH_TX);
    }
  }

  // ---------- Re-entered contexts ----------

  /** c, then d where c returns. */
  function Then(c: Code, d: Code): Code {
    match c
    case Return => d
    case Throw => Throw
    case Write(op, caught, rest) => Write(op, caught, Then(rest, d))
    case Nested(via, body, caught, rest) => Nested(via, body, caught, Then(rest, d))
    case Reenter(target, body, caught, rest) => Reenter(target, body, caught, Then(rest, d))
  }

  lemma {:induction false} RunThen(env: Env, c: Code, d: Code, handle: nat, tx: Tx)
    ensures Run(env, Then(c, d), handle, tx) ==
            (var (tx1, ok) := Run(env, c, handle, tx); if ok then Run(env, d, handle, tx1) else (tx1, false))
    decreases c
  {
    match c
    case Return =>
    case Throw =>
    case Write(op, caught, rest) =>
      RunThen(env, rest, d, handle, Apply(env.session, tx, op));
    case Nested(via, body, caught, rest) =>
      var name := SavepointName(via, handle);
      if !Accepts(env.session, tx, Savepoint(name)) {
        RunThen(env, rest, d, handle, Apply(env.session, tx, Savepoint(name)));
      } else {
        var (tx1, returned) := Run(env, body, name, SavepointStart(env, tx, name));
        RunThen(env, rest, d, handle, SavepointEnd(env, tx1, name, returned).0);
      }
    case Reenter(target, body, caught, rest) =>
      RunThen(env, rest, d, handle, tx);
      RunThen(env, rest, d, handle, Run(env, body, ROOT, tx).0);
  }

  /** c as a callback on the context's own transaction: its own nested calls count from the root. */
  function AtRoot(c: Code): Code {
    match c
    case Return => Return
    case Throw => Throw
    case Write(op, caught, rest) => Write(op, caught, AtRoot(rest))
    case Nested(via, body, caught, rest) => Nested(ViaDb, body, caught, AtRoot(rest))
    case Reenter(target, body, caught, rest) => Reenter(target, body, caught, AtRoot(rest))
  }

  lemma {:induction false} RunAtRoot(env: Env, c: Code, handle: nat, tx: Tx)
    ensures Run(env, AtRoot(c), handle, tx) == Run(env, c, ROOT, tx)
    decreases c
  {
    match c
    case Return =>
    case Throw =>
    case Write(op, caught, rest) =>
      RunAtRoot(env, rest, handle, Apply(env.session, tx, op));
    case Nested(via, body, caught, rest) =>
      var name := SavepointName(via, ROOT);
      if !Accepts(env.session, tx, Savepoint(name)) {
        RunAtRoot(env, rest, handle, Apply(env.session, tx, Savepoint(name)));
      } else {
        var (tx1, returned) := Run(env, body, name, SavepointStart(env, tx, name));
        RunAtRoot(env, rest, handle, SavepointEnd(env, tx1, name, returned).0);
      }
    case Reenter(target, body, caught, rest) =>
      RunAtRoot(env, rest, handle, tx);
      RunAtRoot(env, rest, handle, Run(env, body, ROOT, tx).0);
  }

  /** Re-entering the active context, however deep, is the same as writing its body in place with its own
      nested calls made on the context's transaction; every other nesting throws without a statement. */
  lemma ReenterIsInline(env: Env, target: Mode, body: Code, rest: Code, handle: nat, tx: Tx)
    requires env.mode.TenantMode? ==> IsUuid(env.mode.school)
    ensures target == env.mode ==>
              Run(env, Reenter(target, body, false, rest), handle, tx) == Run(env, Then(AtRoot(body), rest), handle, tx)
    ensures target != env.mode ==> Run(env, Reenter(target, body, false, rest), handle, tx) == (tx, false)
  {
    RunThen(env, AtRoot(body), rest, handle, tx);
    RunAtRoot(env, body, handle, tx);
  }

  // ---------- The whole context ----------

  /** The outermost withTenantContext or withSystemContext: the table afterwards, and whether it resolves. */
  function RunContext(env: Env, c: Code, table: seq<Row>): (seq<Row>, bool) {
    var (tx, ok) := Run(env, c, ROOT, FRESH_TX);
    (if ok then table + Published(tx) else table, ok)
  }

  /** Commit publishes exactly the writes that are under no failed nested transaction. */
  lemma ContextPublishes(env: Env, c: Code, table: seq<Row>)
    requires WellFormed(c) && Safe(env, c, ROOT, View([], false))
    ensures var (v, ok) := Meaning(env, c, View([], false));
            RunContext(env, c, table) == (if ok && !v.aborted then table + v.staged else table, ok)
  {
    RunRefinesMeaning(env, c, ROOT, FRESH_TX);
    assert table + [] == table;
  }

  /** A failing db.transaction that contains a caught failing db.transaction keeps its first write,
      and the context publishes it. */
  lemma DbNestingLosesRollback(env: Env, row: Row)
    requires Permits(env.session.role, env.session.settings, row) && !env.session.readOnly
    ensures var code := Nested(ViaDb, Write(Insert(row), false, Nested(ViaDb, Throw, true, Throw)), true, Return);
            && RunContext(env, code, []) == ([row], true)
            && Meaning(env, code, View([], false)) == (View([], false), true)
  {
    var inner := Nested(ViaDb, Throw, true, Throw);
    var own := Mark(1, []);
    var tx := Tx([row], false, [own]);
    var left := Tx([row], false, [own, Mark(1, [row])]);
    assert Apply(env.session, SavepointStart(env, FRESH_TX, 1), Insert(row)) == tx;
    assert SavepointStart(env, tx, 1) == left;
    assert Topmost(left.marks, 1) == 1 && left.marks[..2] == left.marks;
    assert SavepointEnd(env, left, 1, false) == (left, false);
    assert Run(env, inner, 1, tx) == (left, false);
    var body := Write(Insert(row), false, inner);
    assert Run(env, body, 1, SavepointStart(env, FRESH_TX, 1)) == (left, false);
    assert Run(env, Nested(ViaDb, body, true, Return), 0, FRESH_TX) == (left, true);
    assert Meaning(env, inner, View([row], false)) == (View([row], false), false);
    assert Meaning(env, body, View([], false)) == (View([row], false), false) by {
      assert Written(env.session, View([], false), Insert(row)) == (View([row], false), true);
    }
  }

  // ---------- What a context publishes ----------

  /** The rows the code writes, caught or not, nested or not. */
  function RowsIn(c: Code): set<Row> {
    match c
    case Return => {}
    case Throw => {}
    case Write(op, _, rest) => (if IsWrite(op) then {op.row} else {}) + RowsIn(rest)
    case Nested(_, body, _, rest) => RowsIn(body) + RowsIn(rest)
    case Reenter(_, body, _, rest) => RowsIn(body) + RowsIn(rest)
  }

  lemma {:induction false} StatementsWriteOnly(env: Env, c: Code, handle: nat, tx: Tx)
    ensures forall op | op in Statements(env, c, handle, tx) && IsWrite(op) :: op.row in RowsIn(c)
    decreases c
  {
    match c
    case Return =>
    case Throw =>
    case Write(op, _, rest) =>
      StatementsWriteOnly(env, rest, handle, Apply(env.session, tx, op));
    case Nested(via, body, _, rest) =>
      var name := SavepointName(via, handle);
      var started := SavepointStart(env, tx, name);
      var (tx1, returned) := Run(env, body, name, started);
      StatementsWriteOnly(env, body, name, started);
      StatementsWriteOnly(env, rest, handle, started);
      StatementsWriteOnly(env, rest, handle, SavepointEnd(env, tx1, name, returned).0);
    case Reenter(_, body, _, rest) =>
      StatementsWriteOnly(env, body, ROOT, tx);
      StatementsWriteOnly(env, rest, handle, tx);
      StatementsWriteOnly(env, rest, handle, Run(env, body, ROOT, tx).0);
  }

  /** Whatever the code, safe or not, a context publishes only rows the code writes. */
  lemma PublishesOnlyWrittenRows(env: Env, c: Code, table: seq<Row>, row: Row)
    requires row in RunContext(env, c, table).0
    ensures row in table || row in RowsIn(c)
  {
    if row !in table {
      var ops := Statements(env, c, ROOT, FRESH_TX);
      StatementsReplay(env, c, ROOT, FRESH_TX);
      assert Holds(Replay(env.session, FRESH_TX, ops), row);
      OnlyWrittenRows(env.session, FRESH_TX, ops, row);
      var i :| 0 <= i < |ops| && IsWrite(ops[i]) && ops[i].row == row;
      assert ops[i] in ops;
      StatementsWriteOnly(env, c, ROOT, FRESH_TX);
    }
  }

  /** Code that only writes, one row after another. */
  function WriteAll(ops: seq<Op>): Code {
    if ops == [] then Return else Write(ops[0], false, WriteAll(ops[1..]))
  }

  lemma {:induction false} RunWriteAll(env: Env, ops: seq<Op>, tx: Tx)
    requires AllWrites(ops) && !tx.aborted
    requires forall i | 0 <= i < |ops| :: !IsRefused(env.session, ops[i])
    ensures Run(env, WriteAll(ops), ROOT, tx) == (Replay(env.session, tx, ops), true)
    decreases |ops|
  {
    if ops != [] {
      assert !IsRefused(env.session, ops[0]);
      RunWriteAll(env, ops[1..], Apply(env.session, tx, ops[0]));
    }
  }

  /** Such code, with no write refused, publishes exactly its rows, in order, without updates of rows the
      policy hides; an insert or update publishes the very row it names. */
  lemma WritesPublishTheirRows(env: Env, ops: seq<Op>, table: seq<Row>)
    requires AllWrites(ops) && forall i | 0 <= i < |ops| :: !IsRefused(env.session, ops[i])
    ensures RunContext(env, WriteAll(ops), table) == (table + RowsWritten(env.session, ops), true)
    ensures (forall i | 0 <= i < |ops| :: Permits(env.session.role, env.session.settings, ops[i].row)) ==>
              RowsWritten(env.session, ops) == seq(|ops|, i requires 0 <= i < |ops| => ops[i].row)
  {
    RunWriteAll(env, ops, FRESH_TX);
    WritesStageTheirRows(env.session, FRESH_TX, ops);
    assert [] + RowsWritten(env.session, ops) == RowsWritten(env.session, ops);
    if forall i | 0 <= i < |ops| :: Permits(env.session.role, env.session.settings, ops[i].row) {
      AllRowsWritten(env.session, ops);
    }
  }

  lemma {:induction false} AllRowsWritten(session: Session, ops: seq<Op>)
    requires AllWrites(ops)
    requires forall i | 0 <= i < |ops| :: !IsRefused(session, ops[i]) && Permits(session.role, session.settings, ops[i].row)
    ensures |RowsWritten(session, ops)| == |ops|
    ensures forall i | 0 <= i < |ops| :: RowsWritten(session, ops)[i] == ops[i].row
    decreases |ops|
  {
    if ops != [] {
      AllRowsWritten(session, ops[1..]);
    }
  }

  // ---------- When a resolving context publishes ----------

  /** While c runs some row write is refused outside every nested transaction. */
  predicate RefusedOutside(env: Env, c: Code, v: View)
    decreases c
  {
    match c
    case Return => false
    case Throw => false
    case Write(op, caught, rest) =>
      !Written(env.session, v, op).1 || RefusedOutside(env, rest, Written(env.session, v, op).0)
    case Nested(_, body, caught, rest) =>
      var (v1, ok) := Meaning(env, body, v);
      if ok && !v1.aborted then RefusedOutside(env, rest, v1) else caught && RefusedOutside(env, rest, v)
    case Reenter(target, body, caught, rest) =>
      if CheckCall(Some(env.mode), target).Some? then caught && RefusedOutside(env, rest, v) else
      var (v1, ok) := Meaning(env, body, v);
      RefusedOutside(env, body, v) || ((ok || caught) && RefusedOutside(env, rest, v1))
  }

  lemma {:induction false} AbortedStays(env: Env, c: Code, v: View)
    requires v.aborted
    ensures Meaning(env, c, v).0.aborted
    decreases c
  {
    match c
    case Return =>
    case Throw =>
    case Write(op, caught, rest) =>
      AbortedStays(env, rest, Written(env.session, v, op).0);
    case Nested(_, body, caught, rest) =>
      AbortedStays(env, rest, v);
    case Reenter(_, body, caught, rest) =>
      AbortedStays(env, body, v);
      AbortedStays(env, rest, v);
      AbortedStays(env, rest, Meaning(env, body, v).0);
  }

  /** The transaction is aborted at the end exactly when a write was refused outside every nested
      transaction; a refusal inside one is undone with it, caught or not. */
  lemma {:induction false} AbortedExactlyWhenRefused(env: Env, c: Code, v: View)
    requires !v.aborted
    ensures Meaning(env, c, v).0.aborted <==> RefusedOutside(env, c, v)
    decreases c
  {
    match c
    case Return =>
    case Throw =>
    case Write(op, caught, rest) =>
      var v' := Written(env.session, v, op).0;
      if Written(env.session, v, op).1 {
        AbortedExactlyWhenRefused(env, rest, v');
      } else {
        AbortedStays(env, rest, v');
      }
    case Nested(_, body, caught, rest) =>
      var (v1, ok) := Meaning(env, body, v);
      AbortedExactlyWhenRefused(env, rest, if ok && !v1.aborted then v1 else v);
    case Reenter(target, body, caught, rest) =>
      if CheckCall(Some(env.mode), target).Some? {
        AbortedExactlyWhenRefused(env, rest, v);
      } else {
        AbortedExactlyWhenRefused(env, body, v);
        var (v1, ok) := Meaning(env, body, v);
        if v1.aborted {
          AbortedStays(env, rest, v1);
        } else {
          AbortedExactlyWhenRefused(env, rest, v1);
        }
      }
  }

  /** A context that resolves publishes the writes of its meaning, if it has any, exactly when none was
      refused outside every nested transaction; otherwise it publishes nothing. */
  lemma ResolvedPublishesExactly(env: Env, c: Code, table: seq<Row>)
    requires WellFormed(c) && Safe(env, c, ROOT, View([], false)) && RunContext(env, c, table).1
    ensures var staged := Meaning(env, c, View([], false)).0.staged;
            && (RunContext(env, c, table).0 == table + staged <==> (staged == [] || !RefusedOutside(env, c, View([], false))))
            && (RefusedOutside(env, c, View([], false)) ==> RunContext(env, c, table).0 == table)
  {
    ContextPublishes(env, c, table);
    AbortedExactlyWhenRefused(env, c, View([], false));
    var staged := Meaning(env, c, View([], false)).0.staged;
    if staged != [] {
      assert |table + staged| > |table|;
    } else {
      assert table + staged == table;
    }
  }

  /** Statement failures are caught only by giving up a whole nested transaction. */
  predicate FailsLoudly(c: Code) {
    match c
    case Return => true
    case Throw => true
    case Write(_, caught, rest) => !caught && FailsLoudly(rest)
    case Nested(_, _, _, rest) => FailsLoudly(rest)
    case Reenter(_, body, caught, rest) => !caught && FailsLoudly(body) && FailsLoudly(rest)
  }

  /** Code of that form, whatever it does inside its nested transactions, never resolves with a refused
      write outside them. */
  lemma {:induction false} LoudMeansCommitted(env: Env, c: Code, v: View)
    requires FailsLoudly(c) && !v.aborted
    ensures Meaning(env, c, v).1 ==> !RefusedOutside(env, c, v) && !Meaning(env, c, v).0.aborted
    decreases c
  {
    AbortedExactlyWhenRefused(env, c, v);
    match c
    case Return =>
    case Throw =>
    case Write(op, caught, rest) =>
      if Written(env.session, v, op).1 {
        LoudMeansCommitted(env, rest, Written(env.session, v, op).0);
      }
    case Nested(via, body, caught, rest) =>
      var (v1, ok) := Meaning(env, body, v);
      LoudMeansCommitted(env, rest, if ok && !v1.aborted then v1 else v);
    case Reenter(target, body, caught, rest) =>
      LoudMeansCommitted(env, body, v);
      var (v1, ok) := Meaning(env, body, v);
      if ok {
        LoudMeansCommitted(env, rest, v1);
      }
  }

  /** Catching a refused insert without a nested transaction: the context resolves, and its earlier
      accepted write is gone. */
  lemma SwallowedFailureResolvesEmpty(env: Env, mine: Row, foreign: Row)
    requires Permits(env.session.role, env.session.settings, mine) && !env.session.readOnly
    requires !Permits(env.session.role, env.session.settings, foreign)
    ensures var code := Write(Insert(mine), false, Write(Insert(foreign), true, Return));
            Run(env, code, 0, FRESH_TX).0.staged == [mine] && RunContext(env, code, []) == ([], true)
  {
    var tx := Tx([mine], false, []);
    assert Apply(env.session, FRESH_TX, Insert(mine)) == tx;
    assert Run(env, Write(Insert(foreign), true, Return), 0, tx) == (tx.(aborted := true), true);
  }

  // ---------- The statements a run issues ----------

  /** The statements Run sends, in order. */
  function Statements(env: Env, c: Code, handle: nat, tx: Tx): seq<Op>
    decreases c
  {
    match c
    case Return => []
    case Throw => []
    case Write(op, caught, rest) =>
      [op] + if Accepts(env.session, tx, op) || caught then Statements(env, rest, handle, Apply(env.session, tx, op)) else []
    case Nested(via, body, caught, rest) =>
      var name := SavepointName(via, handle);
      var started := SavepointStart(env, tx, name);
      if !Accepts(env.session, tx, Savepoint(name)) then
        [Savepoint(name)] + if caught then Statements(env, rest, handle, started) else []
      else
        var (tx1, returned) := Run(env, body, name, started);
        var (tx2, ok) := SavepointEnd(env, tx1, name, returned);
        [Savepoint(name)] + Statements(env, body, name, started)
        + (if returned then [Release(name)] else []) + (if ok then [] else [RollbackTo(name)])
        + (if ok || caught then Statements(env, rest, handle, tx2) else [])
    case Reenter(target, body, caught, rest) =>
      if CheckCall(Some(env.mode), target).Some? then (if caught then Statements(env, rest, handle, tx) else []) else
      var (tx1, ok) := Run(env, body, ROOT, tx);
      Statements(env, body, ROOT, tx) + if ok || caught then Statements(env, rest, handle, tx1) else []
  }

  lemma ReplayTwo(session: Session, tx: Tx, a: seq<Op>, b: seq<Op>, mid: Tx)
    requires Replay(session, tx, a) == mid
    ensures Replay(session, tx, a + b) == Replay(session, mid, b)
  {
    ReplayAppend(session, tx, a, b);
  }

  /** Replaying the statements of a run on the connection gives the run. */
  lemma {:induction false} StatementsReplay(env: Env, c: Code, handle: nat, tx: Tx)
    ensures Replay(env.session, tx, Statements(env, c, handle, tx)) == Run(env, c, handle, tx).0
    decreases c
  {
    match c
    case Return =>
    case Throw =>
    case Write(op, caught, rest) =>
      var tx' := Apply(env.session, tx, op);
      ReplayOne(env.session, tx, [], op);
      assert [] + [op] == [op];
      var tail := if Accepts(env.session, tx, op) || caught then Statements(env, rest, handle, tx') else [];
      ReplayTwo(env.session, tx, [op], tail, tx');
      StatementsReplay(env, rest, handle, tx');
    case Nested(via, body, caught, rest) =>
      StatementsOfNested(env, c, handle, tx);
    case Reenter(target, body, caught, rest) =>
      var (tx1, ok) := Run(env, body, ROOT, tx);
      if CheckCall(Some(env.mode), target).Some? {
        StatementsReplay(env, rest, handle, tx);
      } else {
        StatementsReplay(env, body, ROOT, tx);
        var tail := if ok || caught then Statements(env, rest, handle, tx1) else [];
        ReplayTwo(env.session, tx, Statements(env, body, ROOT, tx), tail, tx1);
        StatementsReplay(env, rest, handle, tx1);
      }
  }

  lemma {:induction false} StatementsOfNested(env: Env, c: Code, handle: nat, tx: Tx)
    requires c.Nested?
    ensures Replay(env.session, tx, Statements(env, c, handle, tx)) == Run(env, c, handle, tx).0
    decreases c, 0
  {
    var session := env.session;
    var name := SavepointName(c.via, handle);
    var started := SavepointStart(env, tx, name);
    var opening := [Savepoint(name)];
    assert Replay(session, tx, opening) == started by {
      ReplayOne(session, tx, [], Savepoint(name));
      assert [] + opening == opening;
    }
    if !Accepts(session, tx, Savepoint(name)) {
      var tail := if c.caught then Statements(env, c.rest, handle, started) else [];
      ReplayTwo(session, tx, opening, tail, started);
      StatementsReplay(env, c.rest, handle, started);
    } else {
      var inside := Statements(env, c.body, name, started);
      var (tx1, returned) := Run(env, c.body, name, started);
      var (tx2, ok) := SavepointEnd(env, tx1, name, returned);
      StatementsReplay(env, c.body, name, started);
      ReplayTwo(session, tx, opening, inside, started);
      var release := if returned then [Release(name)] else [];
      var tx1' := if returned then Apply(session, tx1, Release(name)) else tx1;
      if returned {
        ReplayOne(session, tx, opening + inside, Release(name));
      } else {
        assert opening + inside + release == opening + inside;
      }
      var rollback := if ok then [] else [RollbackTo(name)];
      if ok {
        assert opening + inside + release + rollback == opening + inside + release;
      } else {
        ReplayOne(session, tx, opening + inside + release, RollbackTo(name));
      }
      var tail := if ok || c.caught then Statements(env, c.rest, handle, tx2) else [];
      ReplayTwo(session, tx, opening + inside + release + rollback, tail, tx2);
      StatementsReplay(env, c.rest, handle, tx2);
    }
  }
}
