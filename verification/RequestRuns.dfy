/** Many requests at once: the interleaved machine of contexts, where tenantRoute (src/http/tenantRoute.ts)
    opens contexts for admitted requests beside whatever other routes, services and workers open. */
module RequestRuns {
  import opened Connections
  import opened Contexts
  import opened Membership
  import opened NestedTransactions
  import opened SchoolIds
  import opened Wrappers

  import TenantRoute

  type Request = TenantRoute.Request

  /** The machine, and the request of each context that tenantRoute opened. */
  datatype Server = Server(s: State, served: map<nat, Request>)

  /** A request reaches its tenant transaction, or any task does something else. */
  datatype Act =
    | Serve(task: nat, request: Request, idle: nat)
    | Do(action: Action)

  /** The code of a context that a `writes: false` route opened starts after its read-only statement. */
  predicate Ready(v: Server, t: nat) {
    t in v.s.tasks && v.s.tasks[t].store.Some? ==>
      var c := v.s.tasks[t].store.value.ctx;
      c in v.served && !v.served[c].spec.writes && c in v.s.ctxs ==> v.s.ctxs[c].readOnly
  }

  /** What happens outside the pipeline's own first steps. Other code opens and runs tenant and system
      contexts as it likes; in a context of a request the read-only statement is the pipeline's, and if it
      fails the context only rolls back. */
  predicate Allowed(v: Server, a: Action) {
    match a
    case Call(t, _, _) => Ready(v, t)
    case Configure(_) => true
    case SetReadOnly(t) =>
      t in v.s.tasks && v.s.tasks[t].store.Some? ==>
        var c := v.s.tasks[t].store.value.ctx;
        c in v.served ==> !v.served[c].spec.writes
    case Fork(p, _) => Ready(v, p)
    case Query(t, _) => Ready(v, t)
    case Execute(t, _, _) => Ready(v, t)
    case Finish(t, returned) => returned ==> Ready(v, t)
  }

  /** The call with which an admitted request opens its context. */
  function Opening(t: nat, r: Request, idle: nat): Action
    requires TenantRoute.AdmissionOf(r).Ok?
  {
    Call(t, TenantMode(TenantRoute.AdmissionOf(r).value.school), idle)
  }

  predicate CanServe(cfg: Config, v: Server, t: nat, r: Request, idle: nat) {
    && TenantRoute.AdmissionOf(r).Ok?
    && t in v.s.tasks && v.s.tasks[t].store.None? && Enabled(cfg, v.s, Opening(t, r, idle))
  }

  /** A request that is not admitted opens nothing. */
  function Perform(cfg: Config, v: Server, act: Act): Server {
    match act
    case Serve(t, r, idle) =>
      if CanServe(cfg, v, t, r, idle)
      then Server(Step(cfg, v.s, Opening(t, r, idle)), v.served[v.s.next := r]) else v
    case Do(a) => if Allowed(v, a) then v.(s := Step(cfg, v.s, a)) else v
  }

  function Run(cfg: Config, v: Server, acts: seq<Act>): Server
    decreases |acts|
  {
    if acts == [] then v else Run(cfg, Perform(cfg, v, acts[0]), acts[1..])
  }

  ghost predicate AllGenuine(acts: seq<Act>) {
    forall act | act in acts && act.Serve? :: TenantRoute.Genuine(act.request)
  }

  /** Every run of requests is a run of the machine. */
  lemma {:induction false} RunReaches(cfg: Config, v: Server, acts: seq<Act>) returns (actions: seq<Action>)
    ensures Run(cfg, v, acts).s == Reach(cfg, v.s, actions)
    decreases |acts|
  {
    if acts == [] {
      actions := [];
    } else {
      var v1 := Perform(cfg, v, acts[0]);
      var rest := RunReaches(cfg, v1, acts[1..]);
      if v1.s == v.s {
        actions := rest;
      } else {
        var first := if acts[0].Serve? then Opening(acts[0].task, acts[0].request, acts[0].idle) else acts[0].action;
        actions := [first] + rest;
        assert actions[0] == first && actions[1..] == rest;
      }
    }
  }

  /** The pipeline has refused a malformed school before. */
  lemma AdmittedCallIsLegal(r: Request)
    requires TenantRoute.AdmissionOf(r).Ok?
    ensures CheckCall(None, TenantMode(TenantRoute.AdmissionOf(r).value.school)).None?
  {
  }

  /** An admitted request whose task is outside any context, with an idle application connection, opens the
      context of its school, and that context belongs to the request. */
  lemma RequestOpensItsContext(cfg: Config, initial: seq<Row>, v: Server, t: nat, r: Request, k: nat)
    requires Invariant(cfg, initial, v.s) && t in v.s.tasks && v.s.tasks[t] == Task(None, None)
    requires TenantRoute.AdmissionOf(r).Ok? && k in v.s.conns && v.s.conns[k].owner.None? && v.s.conns[k].role == AppRole
    ensures var v' := Run(cfg, v, [Serve(t, r, k), Do(Configure(t))]);
            var mode := TenantMode(TenantRoute.AdmissionOf(r).value.school);
            && t in v'.s.tasks && v'.s.tasks[t].store == Some(Store(v.s.next, k, mode)) && IsLive(v'.s, t)
            && v'.served == v.served[v.s.next := r] && v'.s.table == v.s.table
  {
    AdmittedCallIsLegal(r);
    var mode := TenantMode(TenantRoute.AdmissionOf(r).value.school);
    OpensHere(cfg, initial, v.s, t, mode, k);
    TwoSteps(cfg, v.s, Call(t, mode, k), Configure(t));
    var acts := [Serve(t, r, k), Do(Configure(t))];
    assert acts[1..] == [Do(Configure(t))] && [Do(Configure(t))][1..] == [];
    var v1 := Perform(cfg, v, acts[0]);
    assert Run(cfg, v1, acts[1..]) == Perform(cfg, v1, Do(Configure(t)));
  }

  /** In a context a request just opened the read-only statement takes effect exactly when the request's
      route does not write; otherwise it is not issued. */
  lemma ReadOnlyIsIssued(cfg: Config, v: Server, t: nat)
    requires Wired(cfg, v.s) && IsOpener(v.s, t)
    requires var c := v.s.tasks[t].store.value.ctx;
             && !v.s.ctxs[c].begun && c in v.served && !v.s.conns[v.s.tasks[t].store.value.conn].tx.aborted
             && !v.s.ctxs[c].readOnly
    ensures var c := v.s.tasks[t].store.value.ctx;
            var v' := Perform(cfg, v, Do(SetReadOnly(t)));
            c in v'.s.ctxs && (v'.s.ctxs[c].readOnly <==> !v.served[c].spec.writes) && (v.served[c].spec.writes ==> v' == v)
  {
    ReadOnlyTakes(cfg, v.s, t);
  }

  /** Until a `writes: false` route's context is read-only, nothing its tasks try takes effect but the
      read-only statement and a rollback; once it is, or elsewhere, they act freely. */
  lemma ReadOnlyComesFirst(cfg: Config, v: Server, t: nat, a: Action)
    requires t in v.s.tasks && v.s.tasks[t].store.Some? && v.s.tasks[t].store.value.ctx in v.served
    requires || (a.Call? && a.task == t) || (a.Fork? && a.parent == t) || (a.Query? && a.task == t)
             || (a.Execute? && a.task == t) || (a.Finish? && a.task == t && a.returned)
    ensures var c := v.s.tasks[t].store.value.ctx;
            if !v.served[c].spec.writes && c in v.s.ctxs && !v.s.ctxs[c].readOnly
            then Perform(cfg, v, Do(a)) == v
            else Perform(cfg, v, Do(a)) == v.(s := Step(cfg, v.s, a))
  {
  }

  // ---------- Which request a context belongs to ----------

  /** A context was opened for this request's school. */
  ghost predicate OpenedFor(r: Request, mode: Mode) {
    && TenantRoute.Genuine(r) && TenantRoute.AdmissionOf(r).Ok?
    && mode == TenantMode(TenantRoute.AdmissionOf(r).value.school)
  }

  /** The access mode of a finished context is that of its request's route. */
  predicate CommitFits(served: map<nat, Request>, e: Event) {
    e.Committed? && e.ctx in served ==> (e.readOnly <==> !served[e.ctx].spec.writes)
  }

  /** Contexts that requests opened are those requests' own, read-only only for a route that does not write. */
  ghost predicate ServedOk(served: map<nat, Request>, modes: map<nat, Mode>, ctxs: map<nat, Ctx>) {
    && (forall c | c in served :: c in modes && OpenedFor(served[c], modes[c]))
    && (forall c | c in served && c in ctxs :: ctxs[c].readOnly ==> !served[c].spec.writes)
  }

  predicate CommitsFit(served: map<nat, Request>, trace: seq<Event>) {
    forall e | e in trace :: CommitFits(served, e)
  }

  ghost predicate Attributed(v: Server) {
    ServedOk(v.served, v.s.modes, v.s.ctxs) && CommitsFit(v.served, v.s.trace)
  }

  /** Steps that open no context: what they add to the trace fits, and a context becomes read-only only
      for a route that does not write. */
  lemma QuietKeeps(v: Server, s': State)
    requires Attributed(v) && s'.modes == v.s.modes && s'.ctxs.Keys <= v.s.ctxs.Keys
    requires forall c | c in s'.ctxs && s'.ctxs[c].readOnly && !v.s.ctxs[c].readOnly :: c in v.served ==> !v.served[c].spec.writes
    requires s'.trace == v.s.trace || (exists e :: s'.trace == v.s.trace + [e] && CommitFits(v.served, e))
    ensures Attributed(v.(s := s'))
  {
    forall e | e in s'.trace
      ensures CommitFits(v.served, e)
    {
      if e in v.s.trace {
        assert CommitFits(v.served, e);
      }
    }
    forall c | c in s'.ctxs && s'.ctxs[c].readOnly
      ensures c in v.served ==> !v.served[c].spec.writes
    {
      assert c in v.s.ctxs;
    }
  }

  /** Other code opens a context. */
  lemma OpenedByOthers(served: map<nat, Request>, modes: map<nat, Mode>, ctxs: map<nat, Ctx>, c: nat, mode: Mode, ctx: Ctx)
    requires ServedOk(served, modes, ctxs) && c !in served
    ensures ServedOk(served, modes[c := mode], ctxs[c := ctx])
  {
  }

  /** A request opens a context. */
  lemma OpenedByRequest(
      served: map<nat, Request>, modes: map<nat, Mode>, ctxs: map<nat, Ctx>, c: nat, mode: Mode, ctx: Ctx, r: Request)
    requires ServedOk(served, modes, ctxs) && c !in served && OpenedFor(r, mode) && !ctx.readOnly
    ensures ServedOk(served[c := r], modes[c := mode], ctxs[c := ctx])
  {
  }

  lemma CommitsStillFit(served: map<nat, Request>, trace: seq<Event>, c: nat, r: Request)
    requires CommitsFit(served, trace) && forall e | e in trace && e.Committed? :: e.ctx != c
    ensures CommitsFit(served[c := r], trace)
  {
    forall e | e in trace
      ensures CommitFits(served[c := r], e)
    {
      assert CommitFits(served, e);
    }
  }

  lemma NextIsNew(cfg: Config, initial: seq<Row>, v: Server)
    requires Invariant(cfg, initial, v.s) && Attributed(v)
    ensures v.s.next !in v.served
    ensures forall e | e in v.s.trace && e.Committed? :: e.ctx != v.s.next
  {
    forall e | e in v.s.trace && e.Committed?
      ensures e.ctx != v.s.next
    {
      assert EventOk(v.s.modes, e);
    }
  }

  /** The record of a context as its call opens it. */
  function Opened(t: nat, target: Mode, idle: nat): Ctx {
    Ctx(idle, target, t, false, false, false, false, [])
  }

  lemma ServeKeeps(cfg: Config, initial: seq<Row>, v: Server, t: nat, r: Request, idle: nat)
    requires Invariant(cfg, initial, v.s) && Attributed(v) && TenantRoute.Genuine(r) && CanServe(cfg, v, t, r, idle)
    ensures Attributed(Perform(cfg, v, Serve(t, r, idle)))
  {
    NextIsNew(cfg, initial, v);
    AdmittedCallIsLegal(r);
    var target := Opening(t, r, idle).target;
    OpenedByRequest(v.served, v.s.modes, v.s.ctxs, v.s.next, target, Opened(t, target, idle), r);
    CommitsStillFit(v.served, v.s.trace, v.s.next, r);
  }

  lemma CallKeepsServed(cfg: Config, initial: seq<Row>, v: Server, t: nat, target: Mode, idle: nat)
    requires Invariant(cfg, initial, v.s) && Attributed(v)
    requires Allowed(v, Call(t, target, idle)) && Enabled(cfg, v.s, Call(t, target, idle))
    ensures Attributed(v.(s := CallStep(cfg, v.s, t, target, idle)))
  {
    var s' := CallStep(cfg, v.s, t, target, idle);
    if CheckCall(ModeOf(v.s, t), target).None? && v.s.tasks[t].store.None? {
      NextIsNew(cfg, initial, v);
      OpenedByOthers(v.served, v.s.modes, v.s.ctxs, v.s.next, target, Opened(t, target, idle));
    } else {
      var e := s'.trace[|v.s.trace|];
      assert s'.trace == v.s.trace + [e] && CommitFits(v.served, e);
      QuietKeeps(v, s');
    }
  }

  lemma FinishKeepsServed(cfg: Config, initial: seq<Row>, v: Server, t: nat, returned: bool)
    requires Invariant(cfg, initial, v.s) && Attributed(v)
    requires Allowed(v, Finish(t, returned)) && Enabled(cfg, v.s, Finish(t, returned))
    ensures Attributed(v.(s := FinishStep(cfg, v.s, t, returned)))
  {
    var s' := FinishStep(cfg, v.s, t, returned);
    var e := s'.trace[|v.s.trace|];
    assert s'.trace == v.s.trace + [e] && CommitFits(v.served, e);
    QuietKeeps(v, s');
  }

  /** The other steps open and finish no context, and only the read-only statement changes an access
      mode, that of its own task's context. */
  lemma OtherStep(cfg: Config, s: State, a: Action)
    requires Enabled(cfg, s, a) && !a.Call? && !a.Finish?
    ensures var s' := Step(cfg, s, a);
            && s'.modes == s.modes && s'.ctxs.Keys <= s.ctxs.Keys
            && (s'.trace == s.trace || (exists e: Event :: s'.trace == s.trace + [e] && !e.Committed?))
            && (forall c | c in s'.ctxs && s'.ctxs[c].readOnly && !s.ctxs[c].readOnly ::
                  a.SetReadOnly? && c == s.tasks[a.task].store.value.ctx)
  {
    var s' := Step(cfg, s, a);
    if s'.trace != s.trace {
      assert s'.trace == s.trace + [s'.trace[|s.trace|]] && !s'.trace[|s.trace|].Committed?;
    }
  }

  lemma OtherKeepsServed(cfg: Config, initial: seq<Row>, v: Server, a: Action)
    requires Invariant(cfg, initial, v.s) && Attributed(v) && Allowed(v, a) && Enabled(cfg, v.s, a)
    requires !a.Call? && !a.Finish?
    ensures Attributed(v.(s := Step(cfg, v.s, a)))
  {
    OtherStep(cfg, v.s, a);
    QuietKeeps(v, Step(cfg, v.s, a));
  }

  lemma DoKeeps(cfg: Config, initial: seq<Row>, v: Server, a: Action)
    requires Invariant(cfg, initial, v.s) && Attributed(v) && Allowed(v, a) && Enabled(cfg, v.s, a)
    ensures Attributed(v.(s := Step(cfg, v.s, a)))
  {
    match a
    case Call(t, target, idle) => CallKeepsServed(cfg, initial, v, t, target, idle);
    case Finish(t, returned) => FinishKeepsServed(cfg, initial, v, t, returned);
    case Configure(t) => OtherKeepsServed(cfg, initial, v, a);
    case SetReadOnly(t) => OtherKeepsServed(cfg, initial, v, a);
    case Fork(p, c) => OtherKeepsServed(cfg, initial, v, a);
    case Query(t, idle) => OtherKeepsServed(cfg, initial, v, a);
    case Execute(t, op, idle) => OtherKeepsServed(cfg, initial, v, a);
  }

  lemma {:induction false} RunKeeps(cfg: Config, initial: seq<Row>, v: Server, acts: seq<Act>)
    requires Invariant(cfg, initial, v.s) && Attributed(v) && AllGenuine(acts)
    ensures Invariant(cfg, initial, Run(cfg, v, acts).s) && Attributed(Run(cfg, v, acts))
    decreases |acts|
  {
    if acts != [] {
      var act := acts[0];
      assert act in acts;
      match act {
        case Serve(t, r, idle) =>
          if CanServe(cfg, v, t, r, idle) {
            ServeKeeps(cfg, initial, v, t, r, idle);
            StepKeeps(cfg, initial, v.s, Opening(t, r, idle));
          }
        case Do(a) =>
          if Allowed(v, a) && Enabled(cfg, v.s, a) {
            DoKeeps(cfg, initial, v, a);
          }
          StepKeeps(cfg, initial, v.s, a);
      }
      RunKeeps(cfg, initial, Perform(cfg, v, act), acts[1..]);
    }
  }

  // ---------- Who wrote a row ----------

  lemma {:induction false} PublishedBy(trace: seq<Event>, row: Row) returns (e: Event)
    requires row in AllPublished(trace)
    ensures e in trace && e.Committed? && row in e.rows
    decreases |trace|
  {
    var last := trace[|trace| - 1];
    if last.Committed? && row in last.rows {
      e := last;
    } else {
      e := PublishedBy(trace[..|trace| - 1], row);
    }
  }

  /** The request that may have put a row of this school into the tables. */
  predicate EntitledFor(r: Request, school: string) {
    && r.incoming.school.Ok? && Lower(r.incoming.school.value) == school
    && Entitled(r.atLogin, r.now, r.user, r.incoming.school.value, r.spec.roles)
  }

  /** A commit that published the row, in a context of the row's own school or a system context; and if
      a request opened it, the request's user is entitled to that school. */
  predicate WroteRow(v: Server, e: Event, row: Row) {
    && e.Committed? && row in e.rows
    && (e.mode.TenantMode? ==> row.school == Lower(e.mode.school))
    && (e.ctx in v.served ==> e.mode.TenantMode? && EntitledFor(v.served[e.ctx], row.school))
  }

  /** In every interleaving of requests, their tasks and all other contexts, a new row of the tables was
      published by a system context or by one of its own school; if a request opened that context its user
      is entitled to the school, and, unless a task of an ended context reached the transaction, its route
      may write. */
  lemma NewRowsAreAuthorised(cfg: Config, s0: State, acts: seq<Act>, row: Row) returns (e: Event)
    requires Initial(s0) && AllGenuine(acts)
    requires row in Run(cfg, Server(s0, map[]), acts).s.table && row !in s0.table
    ensures var v := Run(cfg, Server(s0, map[]), acts);
            && e in v.s.trace && WroteRow(v, e, row)
            && (!e.strays && e.ctx in v.served ==> v.served[e.ctx].spec.writes)
  {
    var v := Run(cfg, Server(s0, map[]), acts);
    InitialInvariant(cfg, s0);
    RunKeeps(cfg, s0.table, Server(s0, map[]), acts);
    e := PublishedBy(v.s.trace, row);
    assert EventOk(v.s.modes, e) && CommitFits(v.served, e);
    assert row in set r | r in e.rows;
    if e.ctx in v.served {
      assert OpenedFor(v.served[e.ctx], e.mode);
      TenantRoute.AdmittedOnlyEntitled(v.served[e.ctx]);
      var actions := RunReaches(cfg, Server(s0, map[]), acts);
      CommitsAreAtomic(cfg, s0, actions);
    }
  }

  /** In every interleaving the context of a `writes: false` route commits nothing, unless a task of an
      ended context reached its transaction. */
  lemma ReadOnlyRoutesCommitNothing(cfg: Config, s0: State, acts: seq<Act>, e: Event)
    requires Initial(s0) && AllGenuine(acts)
    requires var v := Run(cfg, Server(s0, map[]), acts);
             && e in v.s.trace && e.Committed? && !e.strays
             && e.ctx in v.served && !v.served[e.ctx].spec.writes
    ensures e.rows == []
  {
    var v := Run(cfg, Server(s0, map[]), acts);
    InitialInvariant(cfg, s0);
    RunKeeps(cfg, s0.table, Server(s0, map[]), acts);
    assert CommitFits(v.served, e);
    var actions := RunReaches(cfg, Server(s0, map[]), acts);
    CommitsAreAtomic(cfg, s0, actions);
  }

  /** There, too, a committed request whose statements are those of its handler publishes what the same
      request served alone adds to the tables. */
  lemma InterleavedAsAlone(cfg: Config, s0: State, acts: seq<Act>, e: Event, table: seq<Row>)
    requires Initial(s0) && AllGenuine(acts)
    requires var v := Run(cfg, Server(s0, map[]), acts);
             && e in v.s.trace && e.Committed? && !e.strays && e.ctx in v.served && e.mode.TenantMode?
             && (var r := v.served[e.ctx];
                 && e.history == Statements(TenantRoute.HandlerEnv(r.spec, e.mode.school), r.handler.code, ROOT, FRESH_TX)
                 && RunContext(TenantRoute.HandlerEnv(r.spec, e.mode.school), r.handler.code, table).1)
    ensures var v := Run(cfg, Server(s0, map[]), acts);
            TenantRoute.OutcomeOf(v.served[e.ctx], table).1 == table + e.rows
  {
    var v := Run(cfg, Server(s0, map[]), acts);
    InitialInvariant(cfg, s0);
    RunKeeps(cfg, s0.table, Server(s0, map[]), acts);
    assert CommitFits(v.served, e) && EventOk(v.s.modes, e) && OpenedFor(v.served[e.ctx], e.mode);
    var actions := RunReaches(cfg, Server(s0, map[]), acts);
    CommitsAreAtomic(cfg, s0, actions);
    var r := v.served[e.ctx];
    StatementsReplay(TenantRoute.HandlerEnv(r.spec, e.mode.school), r.handler.code, ROOT, FRESH_TX);
  }
}
