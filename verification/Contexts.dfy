/** Asynchronous tasks, the context store they inherit and the pooled connections, as one interleaved
    state machine (src/db/index.ts). */
module Contexts {
  import opened Connections
  import opened NestedTransactions
  import opened SchoolIds
  import opened Wrappers

  /** What AsyncLocalStorage holds for a task inside a context. */
  datatype Store = Store(ctx: nat, conn: nat, mode: Mode)

  /** A task: its store, and the context whose settings it is still waiting for. */
  datatype Task = Task(store: Option<Store>, opening: Option<nat>)

  /** What a transaction has set for itself: its settings and whether it is read-only. */
  datatype Local = Local(settings: Settings, readOnly: bool)

  const NOTHING_SET := Local(NO_SETTINGS, false)

  /** A pooled connection: its role, what its transaction has set, the context it is checked out to, the
      transaction, and what was set when each savepoint of the transaction was made. */
  datatype Conn = Conn(role: Role, local: Local, owner: Option<nat>, tx: Tx, saved: seq<Local>)

  function IdleConn(role: Role): Conn { Conn(role, NOTHING_SET, None, FRESH_TX, []) }

  function SessionOn(conn: Conn): Session {
    Session(conn.role, conn.local.settings, conn.local.readOnly)
  }

  /** An open outermost context: whether its settings are made, whether its own code has issued a
      statement, whether it was made read-only, whether a task of an ended context has reached its
      transaction, and all statements of the transaction, first to last. */
  datatype Ctx = Ctx(
    conn: nat, mode: Mode, opener: nat, configured: bool, begun: bool, readOnly: bool, strays: bool, history: seq<Op>)

  datatype Event =
    | Refused(task: nat, error: CallError)
    | Entered(ctx: nat, mode: Mode)
    | Touched(within: Option<Mode>, live: bool, touched: set<Row>)
    | Committed(ctx: nat, mode: Mode, readOnly: bool, strays: bool, history: seq<Op>, rows: seq<Row>)
    | RolledBack(mode: Mode)

  /** modes remembers the mode every context was opened with. */
  datatype State = State(
    conns: map<nat, Conn>, ctxs: map<nat, Ctx>, tasks: map<nat, Task>,
    table: seq<Row>, trace: seq<Event>, modes: map<nat, Mode>, next: nat)

  /** Whether system contexts fall back to the application pool (no separate system database URL). */
  datatype Config = Config(systemOnAppPool: bool)

  datatype Action =
    | Call(task: nat, target: Mode, idle: nat)
    | Configure(task: nat)
    | SetReadOnly(task: nat)
    | Fork(parent: nat, child: nat)
    | Query(task: nat, idle: nat)
    | Execute(task: nat, op: Op, idle: nat)
    | Finish(task: nat, returned: bool)

  function PoolRole(cfg: Config, mode: Mode): Role {
    if mode.SystemMode? && !cfg.systemOnAppPool then SystemRole else AppRole
  }

  function SessionOf(cfg: Config, mode: Mode, readOnly: bool): Session {
    Session(PoolRole(cfg, mode), SettingsOf(mode), readOnly)
  }

  predicate IsIdle(s: State, conn: nat, role: Role) {
    conn in s.conns && s.conns[conn].owner.None? && s.conns[conn].role == role
  }

  /** The connection a statement of the task goes to: the one bound to its context, else an idle
      application connection. */
  function Route(s: State, task: nat, idle: nat): Option<nat>
    requires task in s.tasks
  {
    match s.tasks[task].store
    case Some(st) => Some(st.conn)
    case None => if IsIdle(s, idle, AppRole) then Some(idle) else None
  }

  predicate IsLive(s: State, task: nat)
    requires task in s.tasks
  {
    s.tasks[task].store.Some? ==> s.tasks[task].store.value.ctx in s.ctxs
  }

  function ModeOf(s: State, task: nat): Option<Mode>
    requires task in s.tasks
  {
    match s.tasks[task].store
    case Some(st) => Some(st.mode)
    case None => None
  }

  /** The task opened the context it is in, and that context is still open. */
  predicate IsOpener(s: State, t: nat) {
    && t in s.tasks && s.tasks[t].store.Some?
    && var st := s.tasks[t].store.value;
       st.ctx in s.ctxs && s.ctxs[st.ctx].opener == t && st.conn in s.conns
  }

  predicate CanIssue(s: State, t: nat, idle: nat) {
    && t in s.tasks && s.tasks[t].opening.None?
    && Route(s, t, idle).Some? && Route(s, t, idle).value in s.conns
  }

  predicate Enabled(cfg: Config, s: State, a: Action) {
    match a
    case Call(t, target, idle) =>
      && t in s.tasks && s.tasks[t].opening.None?
      && (CheckCall(ModeOf(s, t), target).None? && s.tasks[t].store.None? ==> IsIdle(s, idle, PoolRole(cfg, target)))
    case Configure(t) =>
      && t in s.tasks && s.tasks[t].opening.Some?
      && s.tasks[t].opening.value in s.ctxs && s.ctxs[s.tasks[t].opening.value].conn in s.conns
    case SetReadOnly(t) => IsOpener(s, t) && !s.ctxs[s.tasks[t].store.value.ctx].begun
    case Fork(p, c) => p in s.tasks && c !in s.tasks && s.tasks[p].opening.None?
    case Query(t, idle) => CanIssue(s, t, idle)
    case Execute(t, op, idle) => CanIssue(s, t, idle)
    case Finish(t, _) => IsOpener(s, t)
  }

  function Log(s: State, e: Event): State { s.(trace := s.trace + [e]) }

  /** withTenantContext and withSystemContext: refuse, run in the active transaction, or check out a
      connection and BEGIN. */
  function CallStep(cfg: Config, s: State, t: nat, target: Mode, idle: nat): State
    requires Enabled(cfg, s, Call(t, target, idle))
  {
    var error := CheckCall(ModeOf(s, t), target);
    if error.Some? then Log(s, Refused(t, error.value))
    else if s.tasks[t].store.Some? then Log(s, Entered(s.tasks[t].store.value.ctx, target))
    else s.(
      conns := s.conns[idle := s.conns[idle].(owner := Some(s.next), tx := FRESH_TX)],
      ctxs := s.ctxs[s.next := Ctx(idle, target, t, false, false, false, false, [])],
      tasks := s.tasks[t := Task(None, Some(s.next))],
      modes := s.modes[s.next := target],
      next := s.next + 1)
  }

  /** The connection of an open context back in its pool: what its transaction had set ends with it. */
  function Returned(s: State, c: nat, t: nat): State
    requires c in s.ctxs && s.ctxs[c].conn in s.conns
  {
    s.(conns := s.conns[s.ctxs[c].conn := IdleConn(s.conns[s.ctxs[c].conn].role)],
       ctxs := s.ctxs - {c},
       tasks := s.tasks[t := Task(None, None)])
  }

  function Rewired(s: State, c: nat, ctx: Ctx, conn: Conn, t: nat, task: Task): State {
    s.(conns := s.conns[ctx.conn := conn], ctxs := s.ctxs[c := ctx], tasks := s.tasks[t := task])
  }

  /** The set_config statement, then the callback starts with the store set. In a transaction that is
      already aborted the statement is refused and the context rolls back. */
  function ConfigureStep(cfg: Config, s: State, t: nat): State
    requires Enabled(cfg, s, Configure(t))
  {
    var c := s.tasks[t].opening.value;
    var ctx := s.ctxs[c];
    var conn := s.conns[ctx.conn];
    if conn.tx.aborted then Log(Returned(s, c, t), RolledBack(ctx.mode)) else
    Log(Rewired(s, c, ctx.(configured := true), conn.(local := conn.local.(settings := SettingsOf(ctx.mode))),
                t, Task(Some(Store(c, ctx.conn, ctx.mode)), None)),
        Entered(c, ctx.mode))
  }

  /** SET TRANSACTION READ ONLY as the first statement of the context's code. */
  function ReadOnlyStep(cfg: Config, s: State, t: nat): State
    requires Enabled(cfg, s, SetReadOnly(t))
  {
    var st := s.tasks[t].store.value;
    var conn := s.conns[st.conn];
    if conn.tx.aborted || s.ctxs[st.ctx].conn != st.conn then s else
    s.(conns := s.conns[st.conn := conn.(local := conn.local.(readOnly := true))],
       ctxs := s.ctxs[st.ctx := s.ctxs[st.ctx].(readOnly := true)])
  }

  /** Rows a query returns on a connection: committed ones and those its own transaction staged. */
  function Visible(conn: Conn, table: seq<Row>): set<Row> {
    set r | r in table + conn.tx.staged && Permits(conn.role, conn.local.settings, r)
  }

  function Changed(conn: Conn, op: Op): set<Row> {
    if IsWrite(op) && Accepts(SessionOn(conn), conn.tx, op) && Permits(conn.role, conn.local.settings, op.row)
    then {op.row} else {}
  }

  /** A statement in a transaction. A savepoint remembers what is set; a rollback to it restores that. */
  function After(conn: Conn, op: Op): Conn {
    var tx := Apply(SessionOn(conn), conn.tx, op);
    var saved := if |tx.marks| > |conn.saved| then conn.saved + [conn.local] else conn.saved[..|tx.marks|];
    var restores := op.RollbackTo? && Accepts(SessionOn(conn), conn.tx, op) && saved != [];
    Conn(conn.role, if restores then saved[|saved| - 1] else conn.local, conn.owner, tx, saved)
  }

  /** A statement on a checked-out connection joins that transaction; on an idle one it is its own, and
      with nothing set changes no row. */
  function ExecuteStep(cfg: Config, s: State, t: nat, op: Op, idle: nat): State
    requires Enabled(cfg, s, Execute(t, op, idle))
  {
    var k := Route(s, t, idle).value;
    var conn := s.conns[k];
    var s' := Log(s, Touched(ModeOf(s, t), IsLive(s, t), Changed(conn, op)));
    if conn.owner.None? || conn.owner.value !in s.ctxs then s' else
    var c := conn.owner.value;
    s'.(conns := s.conns[k := After(conn, op)],
        ctxs := s.ctxs[c := Joined(s.ctxs[c], op, IsLive(s, t))])
  }

  /** The context after one more statement in its transaction, its own or a stray one. */
  function Joined(ctx: Ctx, op: Op, live: bool): Ctx {
    ctx.(history := ctx.history + [op], begun := ctx.begun || live, strays := ctx.strays || !live)
  }

  /** COMMIT or ROLLBACK; either way what was set ends and the connection goes back. */
  function FinishStep(cfg: Config, s: State, t: nat, returned: bool): State
    requires Enabled(cfg, s, Finish(t, returned))
  {
    var st := s.tasks[t].store.value;
    var conn := s.conns[st.conn];
    var ctx := s.ctxs[st.ctx];
    var published := if returned then Published(conn.tx) else [];
    Log(s.(
      conns := s.conns[st.conn := IdleConn(conn.role)],
      ctxs := s.ctxs - {st.ctx},
      tasks := s.tasks[t := Task(None, None)],
      table := s.table + published),
      if returned then Committed(st.ctx, st.mode, ctx.readOnly, ctx.strays, ctx.history, published) else RolledBack(st.mode))
  }

  function Step(cfg: Config, s: State, a: Action): State {
    if !Enabled(cfg, s, a) then s else
    match a
    case Call(t, target, idle) => CallStep(cfg, s, t, target, idle)
    case Configure(t) => ConfigureStep(cfg, s, t)
    case SetReadOnly(t) => ReadOnlyStep(cfg, s, t)
    case Fork(p, c) => s.(tasks := s.tasks[c := s.tasks[p]])
    case Query(t, idle) => Log(s, Touched(ModeOf(s, t), IsLive(s, t), Visible(s.conns[Route(s, t, idle).value], s.table)))
    case Execute(t, op, idle) => ExecuteStep(cfg, s, t, op, idle)
    case Finish(t, returned) => FinishStep(cfg, s, t, returned)
  }

  /** Every interleaving of every set of tasks is some sequence of actions. */
  function Reach(cfg: Config, s: State, actions: seq<Action>): State
    decreases |actions|
  {
    if actions == [] then s else Reach(cfg, Step(cfg, s, actions[0]), actions[1..])
  }

  /** Idle connections of both pools, any tasks outside any context, any committed rows. */
  predicate Initial(s: State) {
    && (forall k | k in s.conns :: s.conns[k] == IdleConn(s.conns[k].role))
    && (forall t | t in s.tasks :: s.tasks[t] == Task(None, None))
    && s.ctxs == map[] && s.modes == map[] && s.trace == []
  }

  // ---------- The invariant of every run ----------

  /** Returned to the pool means nothing set and nothing staged. */
  predicate ConnsOk(s: State) {
    forall k | k in s.conns ::
      match s.conns[k].owner
      case None => s.conns[k] == IdleConn(s.conns[k].role)
      case Some(c) => c in s.ctxs && s.ctxs[c].conn == k
  }

  /** Nothing is set, or what the mode sets. */
  predicate LocalFits(mode: Mode, local: Local) {
    local.settings == NO_SETTINGS || local.settings == SettingsOf(mode)
  }

  /** Whatever statements reached it, a connection of that mode is set for it or for nothing, now and in
      every savepoint, and has staged only rows the mode permits. */
  predicate ConnFits(mode: Mode, conn: Conn) {
    && LocalFits(mode, conn.local) && (forall l | l in conn.saved :: LocalFits(mode, l))
    && AllPermitted(Session(conn.role, SettingsOf(mode), false), conn.tx)
  }

  /** An open context owns its connection, from the pool of its mode. */
  predicate CtxOk(cfg: Config, s: State, c: nat)
    requires c in s.ctxs
  {
    var ctx := s.ctxs[c];
    && c < s.next && c in s.modes && s.modes[c] == ctx.mode
    && ctx.conn in s.conns && s.conns[ctx.conn].owner == Some(c) && s.conns[ctx.conn].role == PoolRole(cfg, ctx.mode)
    && ConnFits(ctx.mode, s.conns[ctx.conn])
  }

  /** A store names a connection of its mode's pool, also after its context ended; while the context is
      open, it names that context's. */
  predicate TaskOk(cfg: Config, s: State, t: nat)
    requires t in s.tasks
  {
    match s.tasks[t]
    case Task(Some(st), opening) =>
      && opening.None? && st.ctx in s.modes && s.modes[st.ctx] == st.mode
      && st.conn in s.conns && s.conns[st.conn].role == PoolRole(cfg, st.mode)
      && (st.ctx in s.ctxs ==> s.ctxs[st.ctx].configured && s.ctxs[st.ctx].conn == st.conn)
    case Task(None, Some(c)) => c in s.ctxs && !s.ctxs[c].configured && s.ctxs[c].opener == t
    case Task(None, None) => true
  }

  predicate InSchool(mode: Option<Mode>, rows: set<Row>) {
    match mode
    case None => rows == {}
    case Some(TenantMode(school)) => forall r | r in rows :: r.school == Lower(school) && IsPolicyUuid(school)
    case Some(SystemMode) => true
  }

  predicate EventOk(modes: map<nat, Mode>, e: Event) {
    match e
    case Refused(_, _) => true
    case Entered(c, mode) => c in modes && modes[c] == mode
    case Touched(mode, live, rows) => live ==> InSchool(mode, rows)
    case Committed(c, mode, _, _, _, rows) => c in modes && modes[c] == mode && InSchool(Some(mode), set r | r in rows)
    case RolledBack(_) => true
  }

  /** The rows published by commits, in order. */
  function AllPublished(trace: seq<Event>): seq<Row> {
    if trace == [] then [] else
    var last := trace[|trace| - 1];
    AllPublished(trace[..|trace| - 1]) + if last.Committed? then last.rows else []
  }

  /** How connections, open contexts and tasks fit together. */
  predicate Wired(cfg: Config, s: State) {
    && ConnsOk(s)
    && (forall c | c in s.ctxs :: CtxOk(cfg, s, c))
    && (forall t | t in s.tasks :: TaskOk(cfg, s, t))
    && (forall c | c in s.modes :: c < s.next)
  }

  /** What the trace and the table say. */
  predicate Recorded(initial: seq<Row>, modes: map<nat, Mode>, trace: seq<Event>, table: seq<Row>) {
    && (forall e | e in trace :: EventOk(modes, e))
    && table == initial + AllPublished(trace)
  }

  predicate Invariant(cfg: Config, initial: seq<Row>, s: State) {
    Wired(cfg, s) && Recorded(initial, s.modes, s.trace, s.table)
  }

  // ---------- Preservation, one kind of step at a time ----------

  lemma RecordOne(initial: seq<Row>, modes: map<nat, Mode>, trace: seq<Event>, table: seq<Row>, e: Event)
    requires Recorded(initial, modes, trace, table) && EventOk(modes, e)
    ensures Recorded(initial, modes, trace + [e], table + if e.Committed? then e.rows else [])
    ensures table + [] == table
  {
    assert (trace + [e])[..|trace|] == trace;
  }

  /** Logging changes no connection, context or task. */
  lemma LogKeeps(cfg: Config, initial: seq<Row>, s: State, e: Event)
    requires Invariant(cfg, initial, s) && EventOk(s.modes, e) && !e.Committed?
    ensures Invariant(cfg, initial, Log(s, e))
  {
    RecordOne(initial, s.modes, s.trace, s.table, e);
    WiredFrame(cfg, s, Log(s, e));
  }

  lemma WiredFrame(cfg: Config, s: State, s': State)
    requires Wired(cfg, s)
    requires s'.conns == s.conns && s'.ctxs == s.ctxs && s'.tasks == s.tasks && s'.modes == s.modes && s'.next == s.next
    ensures Wired(cfg, s')
  {
    forall c | c in s'.ctxs
      ensures CtxOk(cfg, s', c)
    {
      assert CtxOk(cfg, s, c);
    }
    forall u | u in s'.tasks
      ensures TaskOk(cfg, s', u)
    {
      assert TaskOk(cfg, s, u);
    }
  }

  lemma CallKeeps(cfg: Config, initial: seq<Row>, s: State, t: nat, target: Mode, idle: nat)
    requires Invariant(cfg, initial, s) && Enabled(cfg, s, Call(t, target, idle))
    ensures Invariant(cfg, initial, CallStep(cfg, s, t, target, idle))
  {
    var error := CheckCall(ModeOf(s, t), target);
    if error.Some? {
      LogKeeps(cfg, initial, s, Refused(t, error.value));
    } else if s.tasks[t].store.Some? {
      assert TaskOk(cfg, s, t);
      LogKeeps(cfg, initial, s, Entered(s.tasks[t].store.value.ctx, target));
    } else {
      OpenKeeps(cfg, s, t, target, idle);
      assert forall e | e in s.trace :: EventOk(s.modes, e) ==> EventOk(s.modes[s.next := target], e);
    }
  }

  lemma OpenKeeps(cfg: Config, s: State, t: nat, target: Mode, idle: nat)
    requires Wired(cfg, s) && Enabled(cfg, s, Call(t, target, idle))
    requires CheckCall(ModeOf(s, t), target).None? && s.tasks[t].store.None?
    ensures Wired(cfg, CallStep(cfg, s, t, target, idle))
  {
    var s' := CallStep(cfg, s, t, target, idle);
    forall c | c in s'.ctxs
      ensures CtxOk(cfg, s', c)
    {
      assert c != s.next ==> CtxOk(cfg, s, c);
    }
    forall u | u in s'.tasks
      ensures TaskOk(cfg, s', u)
    {
      assert u != t ==> TaskOk(cfg, s, u);
    }
  }

  /** Changing one open context, its connection and one task together. */
  lemma RewireOne(cfg: Config, s: State, c: nat, ctx: Ctx, conn: Conn, t: nat, task: Task)
    requires Wired(cfg, s) && c in s.ctxs && t in s.tasks
    requires ctx.conn == s.ctxs[c].conn && ctx.mode == s.ctxs[c].mode && ctx.opener == s.ctxs[c].opener
    requires conn.owner == Some(c) && ctx.conn in s.conns && conn.role == s.conns[ctx.conn].role && ConnFits(ctx.mode, conn)
    requires ctx.configured == s.ctxs[c].configured || (ctx.configured && s.ctxs[c].opener == t)
    requires TaskOk(cfg, Rewired(s, c, ctx, conn, t, task), t)
    ensures Wired(cfg, Rewired(s, c, ctx, conn, t, task))
  {
    var s' := Rewired(s, c, ctx, conn, t, task);
    assert CtxOk(cfg, s, c);
    forall d | d in s'.ctxs
      ensures CtxOk(cfg, s', d)
    {
      assert CtxOk(cfg, s, d);
    }
    forall u | u in s'.tasks
      ensures TaskOk(cfg, s', u)
    {
      assert TaskOk(cfg, s, u);
    }
  }

  lemma ReturnedWired(cfg: Config, s: State, c: nat, t: nat)
    requires Wired(cfg, s) && c in s.ctxs && s.ctxs[c].conn in s.conns && t in s.tasks
    requires s.ctxs[c].configured || s.ctxs[c].opener == t
    ensures Wired(cfg, Returned(s, c, t))
  {
    var s' := Returned(s, c, t);
    assert CtxOk(cfg, s, c);
    forall d | d in s'.ctxs
      ensures CtxOk(cfg, s', d)
    {
      assert CtxOk(cfg, s, d);
    }
    forall u | u in s'.tasks
      ensures TaskOk(cfg, s', u)
    {
      assert TaskOk(cfg, s, u);
    }
  }

  lemma ConfigureKeeps(cfg: Config, initial: seq<Row>, s: State, t: nat)
    requires Invariant(cfg, initial, s) && Enabled(cfg, s, Configure(t))
    ensures Invariant(cfg, initial, ConfigureStep(cfg, s, t))
  {
    assert TaskOk(cfg, s, t);
    var c := s.tasks[t].opening.value;
    assert CtxOk(cfg, s, c);
    var ctx := s.ctxs[c];
    var conn := s.conns[ctx.conn];
    if conn.tx.aborted {
      ReturnedWired(cfg, s, c, t);
      LogKeeps(cfg, initial, Returned(s, c, t), RolledBack(ctx.mode));
    } else {
      var conn' := conn.(local := conn.local.(settings := SettingsOf(ctx.mode)));
      var task := Task(Some(Store(c, ctx.conn, ctx.mode)), None);
      RewireOne(cfg, s, c, ctx.(configured := true), conn', t, task);
      LogKeeps(cfg, initial, Rewired(s, c, ctx.(configured := true), conn', t, task), Entered(c, ctx.mode));
    }
  }

  lemma ReadOnlyKeeps(cfg: Config, s: State, t: nat)
    requires Wired(cfg, s) && Enabled(cfg, s, SetReadOnly(t))
    ensures Wired(cfg, ReadOnlyStep(cfg, s, t))
  {
    var st := s.tasks[t].store.value;
    assert TaskOk(cfg, s, t) && CtxOk(cfg, s, st.ctx);
    var conn := s.conns[st.conn];
    if !conn.tx.aborted {
      RewireOne(cfg, s, st.ctx, s.ctxs[st.ctx].(readOnly := true), conn.(local := conn.local.(readOnly := true)), t, s.tasks[t]);
      assert s.tasks[t := s.tasks[t]] == s.tasks;
    }
  }

  /** What a live task's statement runs on: its own context's connection, set for that context or for
      nothing, or an application connection with nothing set. */
  lemma LiveRoute(cfg: Config, s: State, t: nat, idle: nat)
    requires Wired(cfg, s) && t in s.tasks && IsLive(s, t)
    requires Route(s, t, idle).Some?
    ensures var k := Route(s, t, idle).value;
            && k in s.conns
            && (s.tasks[t].store.None? ==> s.conns[k] == IdleConn(AppRole))
            && (s.tasks[t].store.Some? ==>
                  var st := s.tasks[t].store.value;
                  && s.conns[k].owner == Some(st.ctx) && s.ctxs[st.ctx].mode == st.mode
                  && s.ctxs[st.ctx].configured && s.ctxs[st.ctx].conn == k
                  && s.conns[k].role == PoolRole(cfg, st.mode) && LocalFits(st.mode, s.conns[k].local))
  {
    assert TaskOk(cfg, s, t);
    if s.tasks[t].store.Some? {
      assert CtxOk(cfg, s, s.tasks[t].store.value.ctx);
    }
  }

  /** Rows the policy lets through on a task's own connection are rows of the task's school. */
  lemma PermittedInSchool(cfg: Config, mode: Option<Mode>, role: Role, settings: Settings, rows: set<Row>)
    requires settings == NO_SETTINGS || (mode.Some? && role == PoolRole(cfg, mode.value) && settings == SettingsOf(mode.value))
    requires forall r | r in rows :: Permits(role, settings, r)
    ensures InSchool(mode, rows)
  {
    if settings == NO_SETTINGS {
      forall r | r in rows ensures false { EmptySettingsPermitNothing(role, r); }
      assert rows == {};
    }
  }

  lemma QueryKeeps(cfg: Config, initial: seq<Row>, s: State, t: nat, idle: nat)
    requires Invariant(cfg, initial, s) && Enabled(cfg, s, Query(t, idle))
    ensures Invariant(cfg, initial, Step(cfg, s, Query(t, idle)))
  {
    var conn := s.conns[Route(s, t, idle).value];
    if IsLive(s, t) {
      LiveRoute(cfg, s, t, idle);
      PermittedInSchool(cfg, ModeOf(s, t), conn.role, conn.local.settings, Visible(conn, s.table));
    }
    LogKeeps(cfg, initial, s, Touched(ModeOf(s, t), IsLive(s, t), Visible(conn, s.table)));
  }

  /** No statement takes a connection out of its mode. */
  lemma AfterFits(mode: Mode, conn: Conn, op: Op)
    requires ConnFits(mode, conn)
    ensures ConnFits(mode, After(conn, op))
  {
    var session := Session(conn.role, SettingsOf(mode), false);
    var tx := Apply(SessionOn(conn), conn.tx, op);
    if IsWrite(op) {
      EmptySettingsPermitNothing(conn.role, op.row);
    }
    forall m | m in tx.marks
      ensures forall r | r in m.staged :: Permits(session.role, session.settings, r)
    {
      assert m in conn.tx.marks || m.staged == conn.tx.staged;
    }
    assert AllPermitted(session, tx);
    var saved := After(conn, op).saved;
    assert forall l | l in saved :: l in conn.saved || l == conn.local;
  }

  /** A statement that joins a transaction, whoever issues it. */
  lemma JoinKeeps(cfg: Config, s: State, t: nat, c: nat, ctx: Ctx, op: Op, live: bool)
    requires Wired(cfg, s) && t in s.tasks && c in s.ctxs && s.ctxs[c].conn in s.conns
    requires ctx == Joined(s.ctxs[c], op, live)
    ensures Wired(cfg, s.(conns := s.conns[ctx.conn := After(s.conns[ctx.conn], op)], ctxs := s.ctxs[c := ctx]))
  {
    var conn := s.conns[ctx.conn];
    assert CtxOk(cfg, s, c) && TaskOk(cfg, s, t);
    AfterFits(ctx.mode, conn, op);
    assert TaskOk(cfg, Rewired(s, c, ctx, After(conn, op), t, s.tasks[t]), t);
    RewireOne(cfg, s, c, ctx, After(conn, op), t, s.tasks[t]);
    assert s.tasks[t := s.tasks[t]] == s.tasks;
  }

  lemma ExecuteKeeps(cfg: Config, initial: seq<Row>, s: State, t: nat, op: Op, idle: nat)
    requires Invariant(cfg, initial, s) && Enabled(cfg, s, Execute(t, op, idle))
    ensures Invariant(cfg, initial, ExecuteStep(cfg, s, t, op, idle))
  {
    var conn := s.conns[Route(s, t, idle).value];
    var e := Touched(ModeOf(s, t), IsLive(s, t), Changed(conn, op));
    if IsLive(s, t) {
      LiveRoute(cfg, s, t, idle);
      PermittedInSchool(cfg, ModeOf(s, t), conn.role, conn.local.settings, Changed(conn, op));
    }
    LogKeeps(cfg, initial, s, e);
    if conn.owner.Some? {
      var c := conn.owner.value;
      JoinKeeps(cfg, Log(s, e), t, c, Joined(s.ctxs[c], op, IsLive(s, t)), op, IsLive(s, t));
    }
  }

  lemma FinishKeeps(cfg: Config, initial: seq<Row>, s: State, t: nat, returned: bool)
    requires Invariant(cfg, initial, s) && Enabled(cfg, s, Finish(t, returned))
    ensures Invariant(cfg, initial, FinishStep(cfg, s, t, returned))
  {
    var st := s.tasks[t].store.value;
    assert TaskOk(cfg, s, t);
    assert CtxOk(cfg, s, st.ctx);
    ReturnedWired(cfg, s, st.ctx, t);
    WiredFrame(cfg, Returned(s, st.ctx, t), FinishStep(cfg, s, t, returned));
    var conn := s.conns[st.conn];
    var published := Published(conn.tx);
    PermittedInSchool(cfg, Some(st.mode), conn.role, SettingsOf(st.mode), set r | r in published);
    var ctx := s.ctxs[st.ctx];
    var e := if returned then Committed(st.ctx, st.mode, ctx.readOnly, ctx.strays, ctx.history, published) else RolledBack(st.mode);
    RecordOne(initial, s.modes, s.trace, s.table, e);
  }

  lemma ForkKeeps(cfg: Config, s: State, p: nat, c: nat)
    requires Wired(cfg, s) && Enabled(cfg, s, Fork(p, c))
    ensures Wired(cfg, Step(cfg, s, Fork(p, c)))
  {
    var s' := Step(cfg, s, Fork(p, c));
    assert TaskOk(cfg, s, p);
    forall u | u in s'.tasks
      ensures TaskOk(cfg, s', u)
    {
      assert u != c ==> TaskOk(cfg, s, u);
    }
    forall d | d in s'.ctxs
      ensures CtxOk(cfg, s', d)
    {
      assert CtxOk(cfg, s, d);
    }
  }

  lemma StepKeeps(cfg: Config, initial: seq<Row>, s: State, a: Action)
    requires Invariant(cfg, initial, s)
    ensures Invariant(cfg, initial, Step(cfg, s, a))
  {
    if Enabled(cfg, s, a) {
      match a
      case Call(t, target, idle) => CallKeeps(cfg, initial, s, t, target, idle);
      case Configure(t) => ConfigureKeeps(cfg, initial, s, t);
      case SetReadOnly(t) => ReadOnlyKeeps(cfg, s, t);
      case Fork(p, c) => ForkKeeps(cfg, s, p, c);
      case Query(t, idle) => QueryKeeps(cfg, initial, s, t, idle);
      case Execute(t, op, idle) => ExecuteKeeps(cfg, initial, s, t, op, idle);
      case Finish(t, returned) => FinishKeeps(cfg, initial, s, t, returned);
    }
  }

  // ---------- Transactions no stray statement reached ----------

  /** What is set on the context's connection is its own, in every savepoint too, and the transaction
      there is the replay of the context's own statements. */
  predicate CtxExact(cfg: Config, ctx: Ctx, conn: Conn) {
    && conn.local == (if ctx.configured then Local(SettingsOf(ctx.mode), ctx.readOnly) else NOTHING_SET)
    && (forall l | l in conn.saved :: l == conn.local)
    && (!ctx.configured ==> !ctx.begun && !ctx.readOnly) && (!ctx.begun ==> ctx.history == [] && conn.saved == [])
    && conn.tx == Replay(SessionOf(cfg, ctx.mode, ctx.readOnly), FRESH_TX, ctx.history)
  }

  predicate EventExact(cfg: Config, e: Event) {
    e.Committed? && !e.strays ==> e.rows == Published(Replay(SessionOf(cfg, e.mode, e.readOnly), FRESH_TX, e.history))
  }

  predicate Exact(cfg: Config, s: State) {
    && (forall c | c in s.ctxs ::
          s.ctxs[c].conn in s.conns && (!s.ctxs[c].strays ==> CtxExact(cfg, s.ctxs[c], s.conns[s.ctxs[c].conn])))
    && (forall e | e in s.trace :: EventExact(cfg, e))
  }

  lemma LogExact(cfg: Config, s: State, e: Event)
    requires Exact(cfg, s) && EventExact(cfg, e)
    ensures Exact(cfg, Log(s, e))
  {
    assert forall f | f in s.trace + [e] :: f in s.trace || f == e;
  }

  /** Contexts own distinct connections, so changing one leaves the others exact. */
  lemma RewireExact(cfg: Config, s: State, c: nat, ctx: Ctx, conn: Conn, t: nat, task: Task)
    requires Wired(cfg, s) && Exact(cfg, s) && c in s.ctxs && ctx.conn == s.ctxs[c].conn
    requires !ctx.strays ==> CtxExact(cfg, ctx, conn)
    ensures Exact(cfg, Rewired(s, c, ctx, conn, t, task))
  {
    var s' := Rewired(s, c, ctx, conn, t, task);
    forall d | d in s'.ctxs
      ensures s'.ctxs[d].conn in s'.conns && (!s'.ctxs[d].strays ==> CtxExact(cfg, s'.ctxs[d], s'.conns[s'.ctxs[d].conn]))
    {
      assert CtxOk(cfg, s, d) && CtxOk(cfg, s, c);
    }
  }

  lemma ReturnedExact(cfg: Config, s: State, c: nat, t: nat)
    requires Wired(cfg, s) && Exact(cfg, s) && c in s.ctxs && s.ctxs[c].conn in s.conns
    ensures Exact(cfg, Returned(s, c, t))
  {
    var s' := Returned(s, c, t);
    forall d | d in s'.ctxs
      ensures s'.ctxs[d].conn in s'.conns && (!s'.ctxs[d].strays ==> CtxExact(cfg, s'.ctxs[d], s'.conns[s'.ctxs[d].conn]))
    {
      assert CtxOk(cfg, s, d) && CtxOk(cfg, s, c);
    }
  }

  lemma AfterExact(cfg: Config, ctx: Ctx, conn: Conn, op: Op)
    requires ctx.configured && conn.role == PoolRole(cfg, ctx.mode) && CtxExact(cfg, ctx, conn)
    ensures CtxExact(cfg, Joined(ctx, op, true), After(conn, op))
  {
    ReplayOne(SessionOf(cfg, ctx.mode, ctx.readOnly), FRESH_TX, ctx.history, op);
    var saved := After(conn, op).saved;
    assert forall l | l in saved :: l in conn.saved || l == conn.local;
    if saved != [] {
      assert saved[|saved| - 1] in saved;
    }
  }

  lemma ExecuteExact(cfg: Config, s: State, t: nat, op: Op, idle: nat)
    requires Wired(cfg, s) && Exact(cfg, s) && Enabled(cfg, s, Execute(t, op, idle))
    ensures Exact(cfg, ExecuteStep(cfg, s, t, op, idle))
  {
    var conn := s.conns[Route(s, t, idle).value];
    var e := Touched(ModeOf(s, t), IsLive(s, t), Changed(conn, op));
    LogExact(cfg, s, e);
    if conn.owner.Some? {
      var c := conn.owner.value;
      assert CtxOk(cfg, s, c);
      if IsLive(s, t) {
        LiveRoute(cfg, s, t, idle);
        if !s.ctxs[c].strays {
          AfterExact(cfg, s.ctxs[c], conn, op);
        }
      }
      var ctx := Joined(s.ctxs[c], op, IsLive(s, t));
      RewireExact(cfg, s, c, ctx, After(conn, op), t, s.tasks[t]);
      LogExact(cfg, Rewired(s, c, ctx, After(conn, op), t, s.tasks[t]), e);
    }
  }

  lemma OpenExact(cfg: Config, s: State, t: nat, target: Mode, idle: nat)
    requires Wired(cfg, s) && Exact(cfg, s) && Enabled(cfg, s, Call(t, target, idle))
    ensures Exact(cfg, CallStep(cfg, s, t, target, idle))
  {
    var s' := CallStep(cfg, s, t, target, idle);
    assert forall f | f in s'.trace :: f in s.trace || !f.Committed?;
    forall d | d in s'.ctxs
      ensures s'.ctxs[d].conn in s'.conns && (!s'.ctxs[d].strays ==> CtxExact(cfg, s'.ctxs[d], s'.conns[s'.ctxs[d].conn]))
    {
      assert d in s.ctxs ==> CtxOk(cfg, s, d);
      assert idle in s.conns ==> s.conns[idle].owner.None? ==> s.conns[idle] == IdleConn(s.conns[idle].role);
    }
  }

  lemma FinishExact(cfg: Config, s: State, t: nat, returned: bool)
    requires Wired(cfg, s) && Exact(cfg, s) && Enabled(cfg, s, Finish(t, returned))
    ensures Exact(cfg, FinishStep(cfg, s, t, returned))
  {
    var st := s.tasks[t].store.value;
    assert TaskOk(cfg, s, t) && CtxOk(cfg, s, st.ctx);
    ReturnedExact(cfg, s, st.ctx, t);
    var ctx := s.ctxs[st.ctx];
    LogExact(cfg, Returned(s, st.ctx, t),
             if returned then Committed(st.ctx, st.mode, ctx.readOnly, ctx.strays, ctx.history, Published(s.conns[st.conn].tx))
             else RolledBack(st.mode));
  }

  lemma ConfigureExact(cfg: Config, s: State, t: nat)
    requires Wired(cfg, s) && Exact(cfg, s) && Enabled(cfg, s, Configure(t))
    ensures Exact(cfg, ConfigureStep(cfg, s, t))
  {
    assert TaskOk(cfg, s, t);
    var c := s.tasks[t].opening.value;
    assert CtxOk(cfg, s, c);
    var ctx := s.ctxs[c];
    var conn := s.conns[ctx.conn];
    var conn' := conn.(local := conn.local.(settings := SettingsOf(ctx.mode)));
    var task := Task(Some(Store(c, ctx.conn, ctx.mode)), None);
    if conn.tx.aborted {
      ReturnedExact(cfg, s, c, t);
      LogExact(cfg, Returned(s, c, t), RolledBack(ctx.mode));
    } else {
      RewireExact(cfg, s, c, ctx.(configured := true), conn', t, task);
      LogExact(cfg, Rewired(s, c, ctx.(configured := true), conn', t, task), Entered(c, ctx.mode));
    }
  }

  lemma ReadOnlyExact(cfg: Config, s: State, t: nat)
    requires Wired(cfg, s) && Exact(cfg, s) && Enabled(cfg, s, SetReadOnly(t))
    ensures Exact(cfg, ReadOnlyStep(cfg, s, t))
  {
    var st := s.tasks[t].store.value;
    assert TaskOk(cfg, s, t) && CtxOk(cfg, s, st.ctx);
    var conn := s.conns[st.conn];
    if !conn.tx.aborted {
      RewireExact(cfg, s, st.ctx, s.ctxs[st.ctx].(readOnly := true), conn.(local := conn.local.(readOnly := true)), t, s.tasks[t]);
      assert s.tasks[t := s.tasks[t]] == s.tasks;
    }
  }

  lemma StepExact(cfg: Config, s: State, a: Action)
    requires Wired(cfg, s) && Exact(cfg, s)
    ensures Exact(cfg, Step(cfg, s, a))
  {
    if Enabled(cfg, s, a) {
      match a
      case Call(t, target, idle) => OpenExact(cfg, s, t, target, idle);
      case Configure(t) => ConfigureExact(cfg, s, t);
      case SetReadOnly(t) => ReadOnlyExact(cfg, s, t);
      case Fork(p, c) =>
      case Query(t, idle) =>
        LogExact(cfg, s, Touched(ModeOf(s, t), IsLive(s, t), Visible(s.conns[Route(s, t, idle).value], s.table)));
      case Execute(t, op, idle) => ExecuteExact(cfg, s, t, op, idle);
      case Finish(t, returned) => FinishExact(cfg, s, t, returned);
    }
  }

  lemma {:induction false} ReachKeeps(cfg: Config, initial: seq<Row>, s: State, actions: seq<Action>)
    requires Invariant(cfg, initial, s) && Exact(cfg, s)
    ensures Invariant(cfg, initial, Reach(cfg, s, actions)) && Exact(cfg, Reach(cfg, s, actions))
    decreases |actions|
  {
    if actions != [] {
      StepKeeps(cfg, initial, s, actions[0]);
      StepExact(cfg, s, actions[0]);
      ReachKeeps(cfg, initial, Step(cfg, s, actions[0]), actions[1..]);
    }
  }

  lemma InitialInvariant(cfg: Config, s0: State)
    requires Initial(s0)
    ensures Invariant(cfg, s0.table, s0) && Exact(cfg, s0)
  {
    assert s0.table + [] == s0.table;
  }

  // ---------- What every run guarantees ----------

  /** In every interleaving: rows read or written inside withTenantContext(school) by a statement issued
      while that context is open belong to the school, whatever other tasks do; statements outside a
      context reach no row; a context and everything nested in it keep one mode and school; a connection
      back in the pool carries no setting; and every commit publishes rows of its own school only. */
  lemma TenantIsolation(cfg: Config, s0: State, actions: seq<Action>)
    requires Initial(s0)
    ensures var s := Reach(cfg, s0, actions);
            && (forall e | e in s.trace && e.Touched? && e.live :: InSchool(e.within, e.touched))
            && (forall e, f | e in s.trace && f in s.trace && e.Entered? && f.Entered? && e.ctx == f.ctx :: e.mode == f.mode)
            && (forall k | k in s.conns && s.conns[k].owner.None? :: s.conns[k].local == NOTHING_SET)
            && (forall e | e in s.trace && e.Committed? :: InSchool(Some(e.mode), set r | r in e.rows))
            && s.table == s0.table + AllPublished(s.trace)
  {
    InitialInvariant(cfg, s0);
    ReachKeeps(cfg, s0.table, s0, actions);
  }

  /** In every interleaving, each commit whose transaction no task of an ended context reached publishes
      what its own statements alone produce on a fresh transaction, and nothing if its code made the
      transaction read-only. */
  lemma CommitsAreAtomic(cfg: Config, s0: State, actions: seq<Action>)
    requires Initial(s0)
    ensures var s := Reach(cfg, s0, actions);
            forall e | e in s.trace && e.Committed? && !e.strays ::
              && e.rows == Published(Replay(SessionOf(cfg, e.mode, e.readOnly), FRESH_TX, e.history))
              && (e.readOnly ==> e.rows == [])
  {
    InitialInvariant(cfg, s0);
    ReachKeeps(cfg, s0.table, s0, actions);
    forall e | e in Reach(cfg, s0, actions).trace && e.Committed? && !e.strays
      ensures e.rows == Published(Replay(SessionOf(cfg, e.mode, e.readOnly), FRESH_TX, e.history))
      ensures e.readOnly ==> e.rows == []
    {
      assert EventExact(cfg, e);
      if e.readOnly {
        ReadOnlyReplay(SessionOf(cfg, e.mode, true), FRESH_TX, e.history);
      }
    }
  }

  /** Such a commit whose statements are those of some code publishes that code's meaning, whatever else
      ran in between. */
  lemma CommitPublishesMeaning(cfg: Config, s0: State, actions: seq<Action>, e: Event, c: Code)
    requires Initial(s0) && e in Reach(cfg, s0, actions).trace && e.Committed? && !e.strays && WellFormed(c)
    requires var env := Env(SessionOf(cfg, e.mode, e.readOnly), e.mode);
             e.history == Statements(env, c, ROOT, FRESH_TX) && Safe(env, c, ROOT, View([], false))
    ensures var v := Meaning(Env(SessionOf(cfg, e.mode, e.readOnly), e.mode), c, View([], false)).0;
            e.rows == if v.aborted then [] else v.staged
  {
    var env := Env(SessionOf(cfg, e.mode, e.readOnly), e.mode);
    CommitsAreAtomic(cfg, s0, actions);
    StatementsReplay(env, c, ROOT, FRESH_TX);
    RunRefinesMeaning(env, c, ROOT, FRESH_TX);
  }

  // ---------- Opening a context, and what it reaches ----------

  /** A task outside any context, with an idle connection of the right pool, opens a system context or the
      context of a UUID school: after its call and the settings, it is inside the open context, on that
      connection, with that context's settings and nothing staged. */
  lemma OpensHere(cfg: Config, initial: seq<Row>, s: State, t: nat, target: Mode, k: nat)
    requires Invariant(cfg, initial, s) && t in s.tasks && s.tasks[t] == Task(None, None)
    requires target.TenantMode? ==> IsUuid(target.school)
    requires k in s.conns && s.conns[k].owner.None?
    requires s.conns[k].role == if target.SystemMode? && !cfg.systemOnAppPool then SystemRole else AppRole
    ensures var s' := Reach(cfg, s, [Call(t, target, k), Configure(t)]);
            && t in s'.tasks && s'.tasks[t] == Task(Some(Store(s.next, k, target)), None) && k in s'.conns
            && s.next in s'.ctxs && s'.ctxs[s.next].conn == k && s'.ctxs[s.next].mode == target
            && s'.ctxs[s.next].opener == t && !s'.ctxs[s.next].readOnly && s'.ctxs[s.next].history == []
            && !s'.ctxs[s.next].strays
            && s'.conns == s.conns[k := s'.conns[k]] && s'.conns[k].owner == Some(s.next)
            && s'.conns[k].role == s.conns[k].role && s'.conns[k].tx == FRESH_TX
            && s'.tasks == s.tasks[t := s'.tasks[t]] && s'.ctxs == s.ctxs[s.next := s'.ctxs[s.next]]
            && s'.modes == s.modes[s.next := target] && s'.next == s.next + 1
            && s'.conns[k].local.settings == Settings(target.SystemMode?, if target.TenantMode? then target.school else "")
            && !s'.conns[k].local.readOnly
            && s'.table == s.table && s'.trace == s.trace + [Entered(s.next, target)]
  {
    var s1 := Step(cfg, s, Call(t, target, k));
    assert s1.tasks[t] == Task(None, Some(s.next));
    TwoSteps(cfg, s, Call(t, target, k), Configure(t));
  }

  lemma TwoSteps(cfg: Config, s: State, a: Action, b: Action)
    ensures Reach(cfg, s, [a, b]) == Step(cfg, Step(cfg, s, a), b)
  {
    assert [a, b][1..] == [b] && [b][1..] == [];
    assert Reach(cfg, Step(cfg, s, a), [b]) == Step(cfg, Step(cfg, s, a), b);
  }

  /** The row is one the mode may see. */
  predicate MaySee(cfg: Config, mode: Mode, row: Row) {
    match mode
    case SystemMode => !cfg.systemOnAppPool
    case TenantMode(school) => row.school == Lower(school) && IsPolicyUuid(school)
  }

  /** A query in an open context reaches exactly the rows of the table and of its own transaction that the
      context may see: every row with the system role, the school's own rows in a tenant context whose id
      the policies accept, and none otherwise. */
  lemma QueryReachesExactly(cfg: Config, s: State, t: nat, idle: nat)
    requires Wired(cfg, s) && Exact(cfg, s) && CanIssue(s, t, idle) && s.tasks[t].store.Some? && IsLive(s, t)
    requires !s.ctxs[s.tasks[t].store.value.ctx].strays
    ensures var st := s.tasks[t].store.value;
            var rows := s.table + s.conns[st.conn].tx.staged;
            var seen := (set r | r in rows && MaySee(cfg, st.mode, r));
            Step(cfg, s, Query(t, idle)).trace == s.trace + [Touched(Some(st.mode), true, seen)]
  {
    var st := s.tasks[t].store.value;
    LiveRoute(cfg, s, t, idle);
    assert CtxExact(cfg, s.ctxs[st.ctx], s.conns[st.conn]);
    var rows := s.table + s.conns[st.conn].tx.staged;
    assert Visible(s.conns[st.conn], s.table)
           == set r | r in rows && MaySee(cfg, st.mode, r);
  }

  /** A task that may open a context of that mode on that connection. */
  predicate MayOpen(cfg: Config, s: State, t: nat, target: Mode, k: nat) {
    && t in s.tasks && s.tasks[t] == Task(None, None)
    && (target.TenantMode? ==> IsUuid(target.school))
    && k in s.conns && s.conns[k].owner.None?
    && s.conns[k].role == if target.SystemMode? && !cfg.systemOnAppPool then SystemRole else AppRole
  }

  /** In every run: such a task, after its call and the settings, is inside an open context of that mode on
      that connection. */
  lemma ContextOpens(cfg: Config, s0: State, actions: seq<Action>, t: nat, target: Mode, k: nat)
    requires Initial(s0) && MayOpen(cfg, Reach(cfg, s0, actions), t, target, k)
    ensures var s := Reach(cfg, s0, actions);
            var s' := Reach(cfg, s, [Call(t, target, k), Configure(t)]);
            && t in s'.tasks && s'.tasks[t] == Task(Some(Store(s.next, k, target)), None) && IsLive(s', t)
            && k in s'.conns && s'.conns[k].owner == Some(s.next)
            && s'.trace == s.trace + [Entered(s.next, target)] && s'.table == s.table
  {
    InitialInvariant(cfg, s0);
    ReachKeeps(cfg, s0.table, s0, actions);
    OpensHere(cfg, s0.table, Reach(cfg, s0, actions), t, target, k);
  }

  /** A query there reaches exactly the committed rows the context may see: in a system context on the
      system pool all of them, in a tenant context those of its school. */
  lemma NewContextReaches(cfg: Config, s0: State, actions: seq<Action>, t: nat, target: Mode, k: nat)
    requires Initial(s0) && MayOpen(cfg, Reach(cfg, s0, actions), t, target, k)
    ensures var s' := Reach(cfg, Reach(cfg, s0, actions), [Call(t, target, k), Configure(t)]);
            var seen := (set r | r in s'.table && MaySee(cfg, target, r));
            Step(cfg, s', Query(t, k)).trace == s'.trace + [Touched(Some(target), true, seen)]
  {
    InitialInvariant(cfg, s0);
    ReachKeeps(cfg, s0.table, s0, actions);
    var s := Reach(cfg, s0, actions);
    OpensHere(cfg, s0.table, s, t, target, k);
    ReachKeeps(cfg, s0.table, s, [Call(t, target, k), Configure(t)]);
    var s' := Reach(cfg, s, [Call(t, target, k), Configure(t)]);
    hide Step, Reach;
    QueryReachesExactly(cfg, s', t, k);
    assert s'.table + s'.conns[k].tx.staged == s'.table;
  }

  /** A call from inside a context runs in it exactly when it asks for the same mode and school; otherwise
      it is refused with the error of its case, before any statement. */
  lemma NestedCallsExactly(cfg: Config, s: State, t: nat, target: Mode, idle: nat)
    requires t in s.tasks && s.tasks[t].opening.None? && s.tasks[t].store.Some?
    ensures var st := s.tasks[t].store.value;
            Step(cfg, s, Call(t, target, idle)) == s.(trace := s.trace + [
              if target.TenantMode? && !IsUuid(target.school) then Refused(t, INVALID_SCHOOL_ID)
              else if st.mode == target then Entered(st.ctx, target)
              else if target.SystemMode? then Refused(t, SYSTEM_CONTEXT_INSIDE_TENANT_CONTEXT_FORBIDDEN)
              else if st.mode.SystemMode? then Refused(t, TENANT_CONTEXT_INSIDE_SYSTEM_CONTEXT_FORBIDDEN)
              else Refused(t, TENANT_CONTEXT_SWITCH_FORBIDDEN)])
  {
  }

  /** A write in an open context reaches exactly its row: it is staged when the context is not aborted or
      read-only and may see the row, and otherwise nothing is reached or staged. */
  lemma WriteReachesExactly(cfg: Config, s: State, t: nat, op: Op, idle: nat)
    requires Wired(cfg, s) && Exact(cfg, s) && CanIssue(s, t, idle) && s.tasks[t].store.Some? && IsLive(s, t)
    requires IsWrite(op) && !s.ctxs[s.tasks[t].store.value.ctx].strays
    ensures var st := s.tasks[t].store.value;
            && st.conn in s.conns && st.ctx in s.ctxs
            && var writes := MaySee(cfg, st.mode, op.row) && !s.conns[st.conn].tx.aborted && !s.ctxs[st.ctx].readOnly;
               var s' := Step(cfg, s, Execute(t, op, idle));
               && s'.trace == s.trace + [Touched(Some(st.mode), true, if writes then {op.row} else {})]
               && s'.conns == s.conns[st.conn := After(s.conns[st.conn], op)]
               && After(s.conns[st.conn], op).tx.staged == s.conns[st.conn].tx.staged + (if writes then [op.row] else [])
               && s'.ctxs == s.ctxs[st.ctx := s.ctxs[st.ctx].(history := s.ctxs[st.ctx].history + [op], begun := true)]
  {
    var st := s.tasks[t].store.value;
    LiveRoute(cfg, s, t, idle);
    assert CtxExact(cfg, s.ctxs[st.ctx], s.conns[st.conn]);
    WriteOnConn(cfg, st.mode, s.ctxs[st.ctx].readOnly, s.conns[st.conn], op);
  }

  lemma WriteOnConn(cfg: Config, mode: Mode, readOnly: bool, conn: Conn, op: Op)
    requires IsWrite(op) && SessionOn(conn) == SessionOf(cfg, mode, readOnly)
    ensures var writes := MaySee(cfg, mode, op.row) && !conn.tx.aborted && !readOnly;
            && Changed(conn, op) == (if writes then {op.row} else {})
            && After(conn, op).tx.staged == conn.tx.staged + (if writes then [op.row] else [])
  {
  }

  /** The read-only statement takes effect in a transaction that is not aborted, and in an aborted one
      changes nothing. */
  lemma ReadOnlyTakes(cfg: Config, s: State, t: nat)
    requires Wired(cfg, s) && IsOpener(s, t) && !s.ctxs[s.tasks[t].store.value.ctx].begun
    ensures var st := s.tasks[t].store.value;
            var s' := Step(cfg, s, SetReadOnly(t));
            && st.conn in s.conns && st.ctx in s.ctxs
            && var conn := s.conns[st.conn];
               if conn.tx.aborted then s' == s
               else s' == s.(conns := s.conns[st.conn := conn.(local := Local(conn.local.settings, true))],
                             ctxs := s.ctxs[st.ctx := s.ctxs[st.ctx].(readOnly := true)])
  {
    assert TaskOk(cfg, s, t);
  }

  /** The task a step belongs to. */
  function Actor(a: Action): nat {
    match a
    case Call(t, _, _) => t
    case Configure(t) => t
    case SetReadOnly(t) => t
    case Fork(p, _) => p
    case Query(t, _) => t
    case Execute(t, _, _) => t
    case Finish(t, _) => t
  }

  /** A step changes the state of its own task only, keeps the mode of every context ever opened, adds at
      most one event, and touches the table only when a context returns; a fork makes its child inherit
      the parent's store. */
  lemma StepIsOneTasks(cfg: Config, s: State, a: Action)
    requires Enabled(cfg, s, a)
    ensures var s' := Step(cfg, s, a);
            && (forall u | u in s.tasks && u != Actor(a) :: u in s'.tasks && s'.tasks[u] == s.tasks[u])
            && s'.tasks.Keys == s.tasks.Keys + (if a.Fork? then {a.child} else {})
            && (a.Fork? ==> s' == s.(tasks := s.tasks[a.child := s.tasks[a.parent]]))
            && (a.Query? || a.Execute? || a.SetReadOnly? ==> s'.tasks == s.tasks)
  {
  }

  lemma StepAddsOnly(cfg: Config, s: State, a: Action)
    requires Enabled(cfg, s, a) && s.next !in s.modes
    ensures var s' := Step(cfg, s, a);
            && (forall d | d in s.modes :: d in s'.modes && s'.modes[d] == s.modes[d])
            && s.trace <= s'.trace && |s'.trace| <= |s.trace| + 1
            && s.table <= s'.table && (s'.table != s.table ==> a.Finish? && a.returned)
  {
  }

  /** A statement changes, besides the record of what it touched, at most the transaction and the history
      of the one context its connection serves. */
  lemma ExecuteChangesOnly(cfg: Config, s: State, t: nat, op: Op, idle: nat)
    requires Enabled(cfg, s, Execute(t, op, idle))
    ensures var s' := Step(cfg, s, Execute(t, op, idle));
            var k := Route(s, t, idle).value;
            if s.conns[k].owner.None? || s.conns[k].owner.value !in s.ctxs
            then s' == s.(trace := s'.trace)
            else s' == s.(trace := s'.trace, conns := s.conns[k := s'.conns[k]],
                          ctxs := s.ctxs[s.conns[k].owner.value := s'.ctxs[s.conns[k].owner.value]])
  {
  }

  /** A finished context's connection is idle again with nothing set, its task is outside any context, and
      nothing else but the table and the trace has changed. */
  lemma FinishChangesOnly(cfg: Config, s: State, t: nat, returned: bool)
    requires IsOpener(s, t)
    ensures var s' := Step(cfg, s, Finish(t, returned));
            var st := s.tasks[t].store.value;
            s' == s.(trace := s'.trace, table := s'.table, ctxs := s.ctxs - {st.ctx}, tasks := s.tasks[t := Task(None, None)],
                     conns := s.conns[st.conn := Conn(s.conns[st.conn].role, Local(Settings(false, ""), false), None, Tx([], false, []), [])])
  {
  }

  /** A rollback restores what was set when its savepoint was made, whatever was set since. */
  lemma RollbackRestores(conn: Conn, name: nat, since: Local)
    requires !conn.tx.aborted && |conn.saved| == |conn.tx.marks|
    ensures var marked := After(conn, Savepoint(name));
            && marked.local == conn.local && |marked.saved| == |marked.tx.marks|
            && After(marked.(local := since), RollbackTo(name)).local == conn.local
            && After(marked.(local := since), RollbackTo(name)).tx.staged == conn.tx.staged
  {
    var marked := After(conn, Savepoint(name));
    var n := |conn.tx.marks|;
    assert marked.tx.marks[n] == Mark(name, conn.tx.staged) && marked.saved[n] == conn.local;
    assert Topmost(marked.tx.marks, name) == n;
  }

  /** As many things are remembered as there are savepoints, after every statement. */
  lemma SavedMatchesMarks(conn: Conn, op: Op)
    requires |conn.saved| == |conn.tx.marks|
    ensures |After(conn, op).saved| == |After(conn, op).tx.marks|
    ensures !op.RollbackTo? ==> After(conn, op).local == conn.local
    ensures conn.saved <= After(conn, op).saved || After(conn, op).saved <= conn.saved
  {
  }

  /** A committed context's rows are the rows its statements write, and a rolled back one publishes none. */
  lemma FinishPublishes(cfg: Config, s: State, t: nat, returned: bool)
    requires Wired(cfg, s) && Exact(cfg, s) && IsOpener(s, t)
    ensures var st := s.tasks[t].store.value;
            var s' := Step(cfg, s, Finish(t, returned));
            && s'.tasks[t] == Task(None, None) && st.ctx !in s'.ctxs && s'.conns[st.conn].owner.None?
            && s.table <= s'.table && (!returned ==> s'.table == s.table)
            && (!s.ctxs[st.ctx].strays ==>
                  forall row | row in s'.table[|s.table|..] :: Writes(s.ctxs[st.ctx].history, row))
  {
    var st := s.tasks[t].store.value;
    assert TaskOk(cfg, s, t) && CtxOk(cfg, s, st.ctx);
    var s' := Step(cfg, s, Finish(t, returned));
    if !s.ctxs[st.ctx].strays {
      assert CtxExact(cfg, s.ctxs[st.ctx], s.conns[st.conn]);
      forall row | row in s'.table[|s.table|..]
        ensures Writes(s.ctxs[st.ctx].history, row)
      {
        OnlyWrittenRows(SessionOf(cfg, st.mode, s.ctxs[st.ctx].readOnly), FRESH_TX, s.ctxs[st.ctx].history, row);
      }
    }
  }

  // ---------- A statement after its context ended ----------

  /** The connection serves an open tenant context of another school. */
  predicate ServesOther(s: State, conn: Conn, school: string) {
    && conn.owner.Some? && conn.owner.value in s.ctxs
    && var mode := s.ctxs[conn.owner.value].mode;
       mode.TenantMode? && Lower(mode.school) != Lower(school)
  }

  /** Rows an application connection permits are rows of the tenant context it serves, whose school's
      text is then one the policy accepts. */
  lemma PermittedOnConn(cfg: Config, s: State, k: nat, rows: set<Row>)
    requires Wired(cfg, s) && k in s.conns && s.conns[k].role == AppRole
    requires rows != {} && forall r | r in rows :: Permits(AppRole, s.conns[k].local.settings, r)
    ensures s.conns[k].owner.Some? && s.conns[k].owner.value in s.ctxs
    ensures var mode := s.ctxs[s.conns[k].owner.value].mode;
            && mode.TenantMode? && IsPolicyUuid(mode.school)
            && forall r | r in rows :: r.school == Lower(mode.school)
  {
    var conn := s.conns[k];
    var r0 :| r0 in rows;
    EmptySettingsPermitNothing(AppRole, r0);
    assert conn.local.settings != NO_SETTINGS;
    assert CtxOk(cfg, s, conn.owner.value);
    forall r | r in rows
      ensures r.school == Lower(conn.local.settings.school) && IsPolicyUuid(conn.local.settings.school)
    {
      AppRoleSeesOneSchool(conn.local.settings, r);
    }
  }

  /** What a task of a tenant context reaches crosses schools exactly when its own context has ended, its
      connection now serves another school's context, and the statement reaches any row at all. */
  lemma CrossesExactly(cfg: Config, s: State, t: nat, idle: nat, school: string, rows: set<Row>)
    requires Wired(cfg, s) && CanIssue(s, t, idle) && ModeOf(s, t) == Some(TenantMode(school))
    requires forall r | r in rows ::
               Permits(s.conns[Route(s, t, idle).value].role, s.conns[Route(s, t, idle).value].local.settings, r)
    ensures !InSchool(Some(TenantMode(school)), rows)
            <==> !IsLive(s, t) && rows != {} && ServesOther(s, s.conns[Route(s, t, idle).value], school)
  {
    if rows != {} {
      assert TaskOk(cfg, s, t);
      var k := Route(s, t, idle).value;
      PermittedOnConn(cfg, s, k, rows);
      var other := s.ctxs[s.conns[k].owner.value].mode.school;
      var r0 :| r0 in rows;
      if Lower(other) == Lower(school) {
        PolicyUuidInAnyCase(other, school);
      }
      if IsLive(s, t) {
        LiveRoute(cfg, s, t, idle);
      }
    }
  }

  /** In every run, for what a query returns and what a write changes: a tenant task reaches rows outside
      its school exactly when it outlived its context, its connection is checked out to an open context of
      another school, and it reaches any row. */
  lemma StaleStatementsCrossExactly(cfg: Config, s0: State, actions: seq<Action>, t: nat, idle: nat, school: string, op: Op)
    requires Initial(s0)
    requires CanIssue(Reach(cfg, s0, actions), t, idle) && ModeOf(Reach(cfg, s0, actions), t) == Some(TenantMode(school))
    ensures var s := Reach(cfg, s0, actions);
            var conn := s.conns[Route(s, t, idle).value];
            var crossable := !IsLive(s, t) && ServesOther(s, conn, school);
            && (!InSchool(Some(TenantMode(school)), Visible(conn, s.table)) <==> crossable && Visible(conn, s.table) != {})
            && (!InSchool(Some(TenantMode(school)), Changed(conn, op)) <==> crossable && Changed(conn, op) != {})
  {
    InitialInvariant(cfg, s0);
    ReachKeeps(cfg, s0.table, s0, actions);
    var s := Reach(cfg, s0, actions);
    var conn := s.conns[Route(s, t, idle).value];
    CrossesExactly(cfg, s, t, idle, school, Visible(conn, s.table));
    CrossesExactly(cfg, s, t, idle, school, Changed(conn, op));
  }

  lemma {:induction false} ReachAppend(cfg: Config, s: State, a: seq<Action>, b: seq<Action>)
    ensures Reach(cfg, s, a + b) == Reach(cfg, Reach(cfg, s, a), b)
    decreases |a|
  {
    if a == [] {
      assert a + b == b;
    } else {
      assert (a + b)[0] == a[0] && (a + b)[1..] == a[1..] + b;
      ReachAppend(cfg, Step(cfg, s, a[0]), a[1..], b);
    }
  }

  /** A connection and a context just opened for a school. */
  function OpenConn(school: string, c: nat): Conn {
    Conn(AppRole, Local(SettingsOf(TenantMode(school)), false), Some(c), FRESH_TX, [])
  }

  function FreshCtx(conn: nat, school: string, opener: nat): Ctx {
    Ctx(conn, TenantMode(school), opener, true, false, false, false, [])
  }

  /** A task outside any context opens one on an idle connection. */
  lemma Opens(cfg: Config, s: State, t: nat, school: string, k: nat) returns (actions: seq<Action>)
    requires IsUuid(school) && t in s.tasks && s.tasks[t] == Task(None, None) && k in s.conns && s.conns[k] == IdleConn(AppRole)
    ensures var s' := Reach(cfg, s, actions);
            && s'.conns == s.conns[k := OpenConn(school, s.next)]
            && s'.ctxs == s.ctxs[s.next := FreshCtx(k, school, t)]
            && s'.tasks == s.tasks[t := Task(Some(Store(s.next, k, TenantMode(school))), None)]
            && s'.table == s.table && s'.next == s.next + 1
  {
    var s1 := Step(cfg, s, Call(t, TenantMode(school), k));
    var s2 := Step(cfg, s1, Configure(t));
    actions := [Call(t, TenantMode(school), k), Configure(t)];
    assert actions[1..] == [Configure(t)];
    assert [Configure(t)][1..] == [];
    assert Reach(cfg, s1, [Configure(t)]) == s2;
    assert s1.tasks[t] == Task(None, Some(s.next)) && s1.ctxs[s.next] == FreshCtx(k, school, t).(configured := false);
  }

  /** A task in a fresh context starts a child and finishes; the child keeps the store. */
  lemma Leaks(cfg: Config, s: State, t: nat, child: nat, st: Store) returns (actions: seq<Action>)
    requires t in s.tasks && s.tasks[t] == Task(Some(st), None) && child !in s.tasks && child != t
    requires st.ctx in s.ctxs && s.ctxs[st.ctx].opener == t && st.conn in s.conns && s.conns[st.conn].tx == FRESH_TX
    ensures var s' := Reach(cfg, s, actions);
            && s'.conns == s.conns[st.conn := IdleConn(s.conns[st.conn].role)]
            && s'.ctxs == s.ctxs - {st.ctx} && s'.next == s.next && s'.table == s.table
            && s'.tasks == s.tasks[child := Task(Some(st), None)][t := Task(None, None)]
  {
    actions := [Fork(t, child), Finish(t, true)];
    var s1 := Step(cfg, s, Fork(t, child));
    assert actions[1..] == [Finish(t, true)] && [Finish(t, true)][1..] == [];
    assert Reach(cfg, s1, [Finish(t, true)]) == FinishStep(cfg, s1, t, true);
    assert s.table + Published(FRESH_TX) == s.table;
  }

  /** Some statement touched rows outside the school of the context it ran in. */
  predicate Crosses(s: State) {
    exists e | e in s.trace :: e.Touched? && !InSchool(e.within, e.touched)
  }

  lemma StaleQueryCrosses(cfg: Config, s: State, schoolA: string, schoolB: string, row: Row)
    requires IsPolicyUuid(schoolB) && Lower(schoolA) != Lower(schoolB) && row.school == Lower(schoolB)
    requires 2 in s.tasks && s.tasks[2] == Task(Some(Store(0, 0, TenantMode(schoolA))), None)
    requires 0 in s.conns && s.conns[0] == OpenConn(schoolB, 1)
    requires 0 !in s.ctxs && s.table == [row]
    ensures Crosses(Reach(cfg, s, [Query(2, 0)]))
  {
    var seen := Visible(s.conns[0], s.table);
    assert row in s.table + s.conns[0].tx.staged;
    assert row in seen;
    var e := Touched(Some(TenantMode(schoolA)), false, seen);
    assert Step(cfg, s, Query(2, 0)) == Log(s, e);
    assert [Query(2, 0)][1..] == [];
    assert Reach(cfg, s, [Query(2, 0)]) == Log(s, e);
    assert Log(s, e).trace[|s.trace|] == e;
  }

  /** Only live statements are isolated: a child task that outlives its context still holds the connection, and
      reads another school's row once that connection serves the other school. */
  lemma LeakedTaskReadsOtherSchool(cfg: Config, schoolA: string, schoolB: string, row: Row)
      returns (s0: State, actions: seq<Action>)
    requires IsUuid(schoolA) && IsPolicyUuid(schoolB) && Lower(schoolA) != Lower(schoolB) && row.school == Lower(schoolB)
    ensures Initial(s0) && Crosses(Reach(cfg, s0, actions))
  {
    var conn := IdleConn(AppRole);
    s0 := State(map[0 := conn], map[], map[0 := Task(None, None), 1 := Task(None, None)], [row], [], map[], 0);
    var first := Opens(cfg, s0, 0, schoolA, 0);
    var leak, second := LeakThenReuse(cfg, Reach(cfg, s0, first), schoolA, schoolB, row);
    ReachAppend(cfg, s0, first, leak);
    ReachAppend(cfg, s0, first + leak, second);
    actions := first + leak + second;
  }

  lemma LeakThenReuse(cfg: Config, s: State, schoolA: string, schoolB: string, row: Row)
      returns (leak: seq<Action>, after: seq<Action>)
    requires IsPolicyUuid(schoolB) && Lower(schoolA) != Lower(schoolB) && row.school == Lower(schoolB)
    requires s.conns.Keys == {0} && s.conns[0] == OpenConn(schoolA, 0)
    requires s.ctxs == map[0 := FreshCtx(0, schoolA, 0)] && s.next == 1 && s.table == [row]
    requires s.tasks == map[0 := Task(Some(Store(0, 0, TenantMode(schoolA))), None), 1 := Task(None, None)]
    ensures Crosses(Reach(cfg, Reach(cfg, s, leak), after))
  {
    leak := Leaks(cfg, s, 0, 2, Store(0, 0, TenantMode(schoolA)));
    var s4 := Reach(cfg, s, leak);
    var second := Opens(cfg, s4, 1, schoolB, 0);
    var s6 := Reach(cfg, s4, second);
    StaleQueryCrosses(cfg, s6, schoolA, schoolB, row);
    after := second + [Query(2, 0)];
    ReachAppend(cfg, s4, second, [Query(2, 0)]);
  }
}
