/** The tenantRoute request pipeline (src/http/tenantRoute.ts): session, membership, validation, tenant
    transaction, response. */
module TenantRoute {
  import opened Connections
  import opened Membership
  import opened NestedTransactions
  import opened SchoolIds
  import opened Wrappers

  /** `writes` is false only for routes that say so. */
  datatype Spec = Spec(roles: seq<string>, writes: bool)

  datatype Body = NoBody | TextBody(text: string) | JsonBody(value: string)

  /** A handler's result; headers are set in this order. */
  datatype RouteResult = RouteResult(
    status: Option<nat>, data: string, body: Body, headers: seq<(string, string)>, contentType: Option<string>)

  datatype Content = Text(text: string) | Json(value: string) | Envelope(data: string)

  /** What is sent: the header assignments made before it, in order, and the status and content. */
  datatype Reply = Reply(headers: seq<(string, string)>, status: nat, content: Content)

  /** A request and what the code outside this file makes of it: the session token's lookup, the
      resolved school, the first part of the input that fails validation. */
  datatype Incoming = Incoming(
    cookie: Option<string>, header: Option<string>, lookup: Option<SessionContext>,
    school: Result<string>, invalid: Option<string>)

  /** A route handler: the code it runs on its transaction, its result, the error it throws; whether it
      sends headers itself, and whether its result can be sent: a bad header or status, or data that does
      not serialise, throws. */
  datatype Handler = Handler(code: Code, result: RouteResult, error: AppError, sendsHeaders: bool, sendable: bool)

  datatype Event =
    | HandlerRan(user: nat, school: string)
    | TxCommitted
    | TxRolledBack
    | Replied(reply: Reply)
    | Forwarded(error: AppError)

  /** Who may run the handler, where, and as what. */
  datatype Admission = Admission(session: SessionContext, school: string, role: string)

  /** The session the request carries or, without one, its token's. */
  function FindSession(preset: Option<SessionContext>, incoming: Incoming): Result<SessionContext> {
    if preset.Some? then Ok(preset.value) else
    var token := OrElse(incoming.cookie, incoming.header);
    if token.None? || token.value == "" then Err(AppError("UNAUTHORIZED", 401))
    else if incoming.lookup.None? then Err(AppError("INVALID_SESSION", 401))
    else if incoming.lookup.value.user.status == SUSPENDED then Err(AppError("USER_SUSPENDED", 403))
    else Ok(incoming.lookup.value)
  }

  /** Session, school and membership, in order. */
  function Authorize(spec: Spec, preset: Option<SessionContext>, incoming: Incoming, now: Directory): Result<Admission> {
    match FindSession(preset, incoming)
    case Err(e) => Err(e)
    case Ok(session) =>
      match incoming.school
      case Err(e) => Err(e)
      case Ok(school) =>
        match AssertMembership(now, session, school, spec.roles)
        case Err(e) => Err(e)
        case Ok(role) => Ok(Admission(session, school, role))
  }

  /** Every check before the handler, in order. */
  function Admit(spec: Spec, preset: Option<SessionContext>, incoming: Incoming, now: Directory): Result<Admission> {
    match Authorize(spec, preset, incoming, now)
    case Err(e) => Err(e)
    case Ok(a) =>
      if incoming.invalid.Some? then Err(AppError("VALIDATION_FAILED", 400))
      else if CheckCall(None, TenantMode(a.school)).Some? then Err(INTERNAL_ERROR)
      else Ok(a)
  }

  /** The tenant context a handler runs in. */
  function HandlerEnv(spec: Spec, school: string): Env {
    Env(Session(AppRole, SettingsOf(TenantMode(school)), !spec.writes), TenantMode(school))
  }

  /** What a reply says of a handler's result: its status or 200; a text as text, any other body as JSON,
      no body as the data in an envelope; the handler's headers in order, then the content type exactly
      when one is set and not empty. */
  predicate IsReplyOf(reply: Reply, result: RouteResult) {
    && (result.status.Some? ==> reply.status == result.status.value)
    && (result.status.None? ==> reply.status == 200)
    && (result.body.TextBody? ==> reply.content == Text(result.body.text))
    && (result.body.JsonBody? ==> reply.content == Json(result.body.value))
    && (result.body.NoBody? ==> reply.content == Envelope(result.data))
    && (if result.contentType.Some? && result.contentType.value != ""
        then |reply.headers| == |result.headers| + 1
             && reply.headers[|result.headers|] == ("Content-Type", result.contentType.value)
        else |reply.headers| == |result.headers|)
    && (forall i | 0 <= i < |result.headers| :: reply.headers[i] == result.headers[i])
  }

  /** An explicit content type comes after the other headers. */
  function HeadersOf(result: RouteResult): seq<(string, string)> {
    result.headers
    + if result.contentType.Some? && result.contentType.value != "" then [("Content-Type", result.contentType.value)] else []
  }

  function ReplyTo(result: RouteResult): (reply: Reply)
    ensures IsReplyOf(reply, result)
  {
    var status := match result.status case Some(n) => n case None => 200;
    match result.body
    case TextBody(text) => Reply(HeadersOf(result), status, Text(text))
    case JsonBody(value) => Reply(HeadersOf(result), status, Json(value))
    case NoBody => Reply(HeadersOf(result), status, Envelope(result.data))
  }

  /** The reply stage, after the commit. */
  function Answer(handler: Handler, headersSent: bool): seq<Event> {
    if headersSent || handler.sendsHeaders then []
    else if handler.sendable then [Replied(ReplyTo(handler.result))]
    else [Forwarded(INTERNAL_ERROR)]
  }

  /** Events of the part after admission, and the table it leaves. */
  function Serve(spec: Spec, a: Admission, handler: Handler, headersSent: bool, table: seq<Row>): (seq<Event>, seq<Row>) {
    var (table', ok) := RunContext(HandlerEnv(spec, a.school), handler.code, table);
    var ran := [HandlerRan(a.session.user.id, a.school)];
    if ok then (ran + [TxCommitted] + Answer(handler, headersSent), table')
    else (ran + [TxRolledBack, Forwarded(handler.error)], table')
  }

  /** What one request adds to the trace, and the table after it. */
  function Outcome(spec: Spec, preset: Option<SessionContext>, incoming: Incoming, now: Directory,
                   handler: Handler, headersSent: bool, table: seq<Row>): (seq<Event>, seq<Row>)
  {
    match Admit(spec, preset, incoming, now)
    case Err(e) => ([Forwarded(e)], table)
    case Ok(a) => Serve(spec, a, handler, headersSent, table)
  }

  /** A handler acts as the application in its school, read-only where the route does not write; it may
      re-enter its own school's context, which runs in place, and no other. */
  lemma HandlerContext(spec: Spec, school: string, target: Mode, body: Code, rest: Code, tx: Tx)
    requires IsUuid(school)
    ensures var env := HandlerEnv(spec, school);
            && env.session == Session(AppRole, Settings(false, school), !spec.writes)
            && Run(env, Reenter(target, body, false, rest), ROOT, tx)
               == if target == TenantMode(school) then Run(env, Then(AtRoot(body), rest), ROOT, tx) else (tx, false)
  {
    ReenterIsInline(HandlerEnv(spec, school), target, body, rest, ROOT, tx);
  }

  /** What a handler's transaction publishes. */
  lemma HandlerRows(spec: Spec, school: string, code: Code)
    ensures var rows := Published(Run(HandlerEnv(spec, school), code, ROOT, FRESH_TX).0);
            && (!spec.writes ==> rows == [])
            && (forall row | row in rows :: row.school == Lower(school) && IsPolicyUuid(school))
  {
    var env := HandlerEnv(spec, school);
    var ops := Statements(env, code, ROOT, FRESH_TX);
    StatementsReplay(env, code, ROOT, FRESH_TX);
    ReplayKeepsPermitted(env.session, FRESH_TX, ops);
    if !spec.writes {
      ReadOnlyReplay(env.session, FRESH_TX, ops);
    }
    forall row | row in Published(Replay(env.session, FRESH_TX, ops))
      ensures row.school == Lower(school) && IsPolicyUuid(school)
    {
      AppRoleSeesOneSchool(env.session.settings, row);
    }
  }

  /** One request and its response, as the pipeline changes them, beside the tenant tables. */
  class Exchange {
    var sessionContext: Option<SessionContext>
    var activeSchoolId: Option<string>
    var userRole: Option<string>
    var headersSent: bool
    var table: seq<Row>
    var trace: seq<Event>

    constructor (preset: Option<SessionContext>, headersSent: bool, table: seq<Row>)
      ensures this.sessionContext == preset && this.headersSent == headersSent
      ensures this.activeSchoolId == None && this.userRole == None && this.table == table && this.trace == []
    {
      this.sessionContext, this.headersSent := preset, headersSent;
      this.activeSchoolId, this.userRole := None, None;
      this.table, this.trace := table, [];
    }

    method Forward(error: AppError)
      modifies this`trace
      ensures trace == old(trace) + [Forwarded(error)]
    {
      trace := trace + [Forwarded(error)];
    }

    /** Runs the handler in its own tenant transaction: rows are only added, all of the one school, and
        only by a writing route whose handler returned. */
    method Transact(spec: Spec, user: nat, school: string, code: Code) returns (ok: bool)
      modifies this`table, this`trace
      ensures (table, ok) == RunContext(HandlerEnv(spec, school), code, old(table))
      ensures trace == old(trace) + [HandlerRan(user, school)] + [if ok then TxCommitted else TxRolledBack]
      ensures old(table) <= table && (!ok || !spec.writes ==> table == old(table))
      ensures forall row | row in table[|old(table)|..] :: row.school == Lower(school)
    {
      HandlerRows(spec, school, code);
      trace := trace + [HandlerRan(user, school)];
      var (tx, returned) := Run(HandlerEnv(spec, school), code, ROOT, FRESH_TX);
      if returned {
        table := table + Published(tx);
        trace := trace + [TxCommitted];
      } else {
        trace := trace + [TxRolledBack];
      }
      ok := returned;
    }

    /** The checks; a failed one is forwarded. */
    method Check(spec: Spec, incoming: Incoming, now: Directory) returns (admitted: bool)
      modifies this`sessionContext, this`activeSchoolId, this`userRole, this`trace
      ensures admitted == Admit(spec, old(sessionContext), incoming, now).Ok?
      ensures trace == old(trace) + if admitted then [] else [Forwarded(Admit(spec, old(sessionContext), incoming, now).error)]
      ensures match FindSession(old(sessionContext), incoming)
              case Ok(session) => sessionContext == Some(session)
              case Err(_) => sessionContext == old(sessionContext)
      ensures match Authorize(spec, old(sessionContext), incoming, now)
              case Ok(a) => activeSchoolId == Some(a.school) && userRole == Some(a.role)
              case Err(_) => activeSchoolId == old(activeSchoolId) && userRole == old(userRole)
    {
      admitted := false;
      if sessionContext.None? {
        var token := OrElse(incoming.cookie, incoming.header);
        if token.Some? && token.value != "" {
          if incoming.lookup.None? {
            Forward(AppError("INVALID_SESSION", 401));
            return;
          }
          if incoming.lookup.value.user.status == SUSPENDED {
            Forward(AppError("USER_SUSPENDED", 403));
            return;
          }
          sessionContext := incoming.lookup;
        }
      }
      if sessionContext.None? {
        Forward(AppError("UNAUTHORIZED", 401));
        return;
      }
      if incoming.school.Err? {
        Forward(incoming.school.error);
        return;
      }
      var school := incoming.school.value;
      var membership := AssertMembership(now, sessionContext.value, school, spec.roles);
      if membership.Err? {
        Forward(membership.error);
        return;
      }
      activeSchoolId, userRole := Some(school), Some(membership.value);
      if incoming.invalid.Some? {
        Forward(AppError("VALIDATION_FAILED", 400));
        return;
      }
      if CheckCall(None, TenantMode(school)).Some? {
        Forward(INTERNAL_ERROR);
        return;
      }
      admitted := true;
    }

    method Handle(spec: Spec, incoming: Incoming, now: Directory, handler: Handler)
      modifies this
      ensures var (events, table') := Outcome(spec, old(sessionContext), incoming, now, handler, old(headersSent), old(table));
              trace == old(trace) + events && table == table'
      ensures match FindSession(old(sessionContext), incoming)
              case Ok(session) => sessionContext == Some(session)
              case Err(_) => sessionContext == old(sessionContext)
      ensures match Authorize(spec, old(sessionContext), incoming, now)
              case Ok(a) => activeSchoolId == Some(a.school) && userRole == Some(a.role)
              case Err(_) => activeSchoolId == old(activeSchoolId) && userRole == old(userRole)
      ensures Admit(spec, old(sessionContext), incoming, now).Ok? ==>
                headersSent == (old(headersSent) || handler.sendsHeaders || trace[|trace| - 1].Replied?)
      ensures Admit(spec, old(sessionContext), incoming, now).Err? ==> headersSent == old(headersSent)
      ensures |trace| > |old(trace)|
      ensures trace[|trace| - 1].Replied? ==> IsReplyOf(trace[|trace| - 1].reply, handler.result)
    {
      var admitted := Check(spec, incoming, now);
      if !admitted {
        return;
      }
      var session, school := sessionContext.value, activeSchoolId.value;
      var ok := Transact(spec, session.user.id, school, handler.code);
      headersSent := headersSent || handler.sendsHeaders;
      if !ok {
        Forward(handler.error);
        return;
      }
      if headersSent {
        return;
      }
      if !handler.sendable {
        Forward(INTERNAL_ERROR);
        return;
      }
      trace := trace + [Replied(ReplyTo(handler.result))];
      headersSent := true;
    }
  }

  // ---------- Properties of one request ----------

  /** A request whose session, carried or looked up, is what getSession read from the tables at login. */
  datatype Request = Request(
    spec: Spec, preset: Option<SessionContext>, incoming: Incoming, handler: Handler, headersSent: bool,
    atLogin: Directory, now: Directory, user: nat, sessionSchool: Option<string>)

  ghost predicate Genuine(r: Request) {
    var session := Authenticate(r.atLogin, r.user, r.sessionSchool);
    && (r.preset.Some? ==> r.preset == session) && (r.incoming.lookup.Some? ==> r.incoming.lookup == session)
    && ReadsUuids(r.now)
  }

  function AdmissionOf(r: Request): Result<Admission> {
    Admit(r.spec, r.preset, r.incoming, r.now)
  }

  function OutcomeOf(r: Request, table: seq<Row>): (seq<Event>, seq<Row>) {
    Outcome(r.spec, r.preset, r.incoming, r.now, r.handler, r.headersSent, table)
  }

  /** A request is admitted only for an active, entitled user, in a well-formed school, after its input
      passed. */
  lemma AdmittedOnlyEntitled(r: Request)
    requires Genuine(r) && AdmissionOf(r).Ok?
    ensures var a := AdmissionOf(r).value;
            && a.session.user.id == r.user && Entitled(r.atLogin, r.now, r.user, a.school, r.spec.roles)
            && r.incoming.school == Ok(a.school) && IsUuid(a.school) && r.incoming.invalid.None?
            && r.user in r.atLogin.users && r.atLogin.users[r.user].status == ACTIVE
            && RoleIn(r.atLogin, r.now, r.user, a.school) == Some(a.role)
            && (!PlatformSuper(r.atLogin, r.user) && r.spec.roles != [] ==> a.role in r.spec.roles)
  {
    GrantedRole(r.atLogin, r.now, r.user, r.sessionSchool, AdmissionOf(r).value.school, r.spec.roles);
    GrantedExactlyWhenEntitled(r.atLogin, r.now, r.user, r.sessionSchool, AdmissionOf(r).value.school, r.spec.roles);
  }

  /** A handler runs only for such a user. */
  lemma HandlerRunsOnlyEntitled(r: Request, table: seq<Row>, user: nat, school: string)
    requires Genuine(r) && HandlerRan(user, school) in OutcomeOf(r, table).0
    ensures user == r.user && Entitled(r.atLogin, r.now, user, school, r.spec.roles)
    ensures r.incoming.school == Ok(school) && IsUuid(school) && r.incoming.invalid.None?
    ensures user in r.atLogin.users && r.atLogin.users[user].status == ACTIVE
  {
    assert AdmissionOf(r).Ok?;
    AdmittedOnlyEntitled(r);
  }

  /** Sending the reply throws: it is tried, and the result cannot be sent. */
  predicate SendingThrows(r: Request) {
    !r.headersSent && !r.handler.sendsHeaders && !r.handler.sendable
  }

  /** A request replies at most once, last, and right after the commit of its handler's transaction. A
      request that does not commit forwards an error and leaves the tables alone; one that commits
      forwards an error exactly when sending its reply throws, and its writes stay. No request forwards
      two errors, or an error beside a reply. */
  lemma ReplyOnlyAfterCommit(r: Request, table: seq<Row>)
    ensures var (events, table') := OutcomeOf(r, table);
            && (forall k | 0 <= k < |events| && events[k].Replied? ::
                  k == |events| - 1 == 2 && events[0].HandlerRan? && events[1] == TxCommitted
                  && events[2].Replied? && IsReplyOf(events[2].reply, r.handler.result))
            && (forall k | 0 <= k < |events| && events[k].Forwarded? :: k == |events| - 1)
            && (TxCommitted !in events ==> table' == table && events[|events| - 1].Forwarded?)
            && (TxCommitted in events ==>
                  && ((exists e :: e in events && e.Forwarded?) <==> SendingThrows(r))
                  && (SendingThrows(r) ==> events[|events| - 1] == Forwarded(AppError("INTERNAL_ERROR", 500)))
                  && ((exists e :: e in events && e.Replied?) <==>
                        !r.headersSent && !r.handler.sendsHeaders && r.handler.sendable)
                  && AdmissionOf(r).Ok?
                  && table' == RunContext(HandlerEnv(r.spec, AdmissionOf(r).value.school), r.handler.code, table).0)
  {
    var a := AdmissionOf(r);
    if a.Ok? {
      var events := OutcomeOf(r, table).0;
      assert RunContext(HandlerEnv(r.spec, a.value.school), r.handler.code, table).1
             || OutcomeOf(r, table).1 == table;
      if RunContext(HandlerEnv(r.spec, a.value.school), r.handler.code, table).1 {
        assert SendingThrows(r) ==> events[2] == Forwarded(INTERNAL_ERROR);
        assert |events| > 2 ==> events[2] in events;
      }
    }
  }

  /** A `writes: false` route never changes the tables, whatever its handler does and catches. */
  lemma ReadOnlyRouteChangesNothing(r: Request, table: seq<Row>)
    requires !r.spec.writes
    ensures OutcomeOf(r, table).1 == table
  {
    if AdmissionOf(r).Ok? {
      HandlerRows(r.spec, AdmissionOf(r).value.school, r.handler.code);
      assert table + [] == table;
    }
  }

  /** What a request adds to the tables belongs to the one school it was admitted to. */
  lemma RequestWritesOneSchool(r: Request, table: seq<Row>, row: Row)
    requires row in OutcomeOf(r, table).1 && row !in table
    ensures var a := AdmissionOf(r);
            && a.Ok? && row.school == Lower(a.value.school) && r.spec.writes
            && HandlerRan(a.value.session.user.id, a.value.school) in OutcomeOf(r, table).0
            && TxCommitted in OutcomeOf(r, table).0
  {
    var a := AdmissionOf(r).value;
    HandlerRows(r.spec, a.school, r.handler.code);
    var events := OutcomeOf(r, table).0;
    assert events[0] == HandlerRan(a.session.user.id, a.school) && events[1] == TxCommitted;
  }

  /** A request whose handler committed has all writes of its meaning in the tables, if there are any,
      exactly when no write was refused outside every nested transaction; otherwise it has none. */
  lemma ReplyPublishesExactly(r: Request, table: seq<Row>)
    requires AdmissionOf(r).Ok? && WellFormed(r.handler.code)
    requires Safe(HandlerEnv(r.spec, AdmissionOf(r).value.school), r.handler.code, ROOT, View([], false))
    requires TxCommitted in OutcomeOf(r, table).0
    ensures var env := HandlerEnv(r.spec, AdmissionOf(r).value.school);
            var staged := Meaning(env, r.handler.code, View([], false)).0.staged;
            var refused := RefusedOutside(env, r.handler.code, View([], false));
            && (OutcomeOf(r, table).1 == table + staged <==> (staged == [] || !refused))
            && (refused ==> OutcomeOf(r, table).1 == table)
  {
    ResolvedPublishesExactly(HandlerEnv(r.spec, AdmissionOf(r).value.school), r.handler.code, table);
  }

  /** So a reply alone does not mean the writes are there: a handler that swallows one refused insert is
      answered as usual, and its accepted write is gone. */
  lemma SwallowedFailureStillReplies(r: Request, table: seq<Row>, mine: Row, foreign: Row)
    requires AdmissionOf(r).Ok? && r.spec.writes && !r.headersSent && !r.handler.sendsHeaders && r.handler.sendable
    requires var session := HandlerEnv(r.spec, AdmissionOf(r).value.school).session;
             Permits(session.role, session.settings, mine) && !Permits(session.role, session.settings, foreign)
    requires r.handler.code == Write(Insert(mine), false, Write(Insert(foreign), true, Return))
    ensures Replied(ReplyTo(r.handler.result)) in OutcomeOf(r, table).0 && OutcomeOf(r, table).1 == table
  {
    var a := AdmissionOf(r).value;
    SwallowedFailureResolvesEmpty(HandlerEnv(r.spec, a.school), mine, foreign);
    var (tx, ok) := Run(HandlerEnv(r.spec, a.school), r.handler.code, ROOT, FRESH_TX);
    assert ok && Published(tx) == [] by {
      assert RunContext(HandlerEnv(r.spec, a.school), r.handler.code, []) == ([], true);
      assert [] + Published(tx) == Published(tx);
    }
    assert table + [] == table;
    assert OutcomeOf(r, table).0[2] == Replied(ReplyTo(r.handler.result));
  }
}
