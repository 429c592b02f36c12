/** Who a session belongs to and which schools it may act in (src/auth/session.ts). */
module Membership {
  import opened SchoolIds
  import opened Wrappers

  const SUPER_ADMIN: string := "SUPER_ADMIN"
  const ACTIVE: string := "ACTIVE"
  const SUSPENDED: string := "SUSPENDED"

  datatype UserRow = UserRow(status: string, platformRole: Option<string>)
  datatype MembershipRow = MembershipRow(role: string, status: string)

  /** The three tables read; memberships are unique per user and school. Schools are stored as uuid
      values, written here as the server prints them; readUuid is how the server reads a text as one, or
      that it refuses the text. */
  datatype Directory = Directory(
    users: map<nat, UserRow>, memberships: map<(nat, string), MembershipRow>, schools: map<string, string>,
    readUuid: string -> Option<string>)

  /** Every UUID is read, in either case, as the value printed in lower case. */
  ghost predicate ReadsUuids(d: Directory) {
    forall s | IsUuid(s) :: d.readUuid(s) == Some(Lower(s))
  }

  /** Stored schools are printed in lower case. */
  predicate Canonical(d: Directory) {
    forall school | school in d.schools :: school == Lower(school)
  }

  datatype SessionUser = SessionUser(id: nat, platformRole: Option<string>, status: string)

  datatype SessionContext = SessionContext(user: SessionUser, memberships: map<string, MembershipRow>)

  datatype AppError = AppError(code: string, status: nat)

  datatype Result<+T> = Ok(value: T) | Err(error: AppError)

  /** What any error that is no AppError becomes. */
  const INTERNAL_ERROR := AppError("INTERNAL_ERROR", 500)

  predicate SchoolActive(d: Directory, school: string) {
    school in d.schools && d.schools[school] == ACTIVE
  }

  /** Active memberships of the user in active schools. */
  function ActiveMemberships(d: Directory, user: nat): map<string, MembershipRow> {
    map school | school in d.schools && SchoolActive(d, school) && (user, school) in d.memberships
                 && d.memberships[(user, school)].status == ACTIVE
      :: d.memberships[(user, school)]
  }

  predicate HoldsSuperAdmin(memberships: map<string, MembershipRow>) {
    exists school | school in memberships :: memberships[school].role == SUPER_ADMIN
  }

  /** `a || b` on a nullable string: null and the empty string both give way. */
  function OrElse(a: Option<string>, b: Option<string>): Option<string> {
    if a.Some? && a.value != "" then a else b
  }

  /** getSession after its row was found: the context it returns, or null. */
  function Authenticate(d: Directory, user: nat, sessionSchool: Option<string>): Option<SessionContext> {
    if user !in d.users || d.users[user].status != ACTIVE then None else
    var row := d.users[user];
    var memberships := ActiveMemberships(d, user);
    var super := row.platformRole == Some(SUPER_ADMIN) || HoldsSuperAdmin(memberships);
    var hasActive :=
      if sessionSchool.Some? && sessionSchool.value != ""
      then sessionSchool.value in memberships || (super && SchoolActive(d, sessionSchool.value))
      else memberships != map[];
    if !hasActive && !super then None else
    Some(SessionContext(
      SessionUser(user, OrElse(row.platformRole, if super then Some(SUPER_ADMIN) else None), row.status), memberships))
  }

  /** An empty list of roles admits every role. */
  predicate RoleAllowed(roles: seq<string>, role: string) {
    |roles| > 0 ==> role in roles
  }

  /** The row test shared by the session's membership and the database row. */
  function CheckRow(row: MembershipRow, roles: seq<string>): Result<string> {
    if row.status == SUSPENDED then Err(AppError("MEMBERSHIP_SUSPENDED", 403))
    else if !RoleAllowed(roles, row.role) then Err(AppError("FORBIDDEN", 403))
    else Ok(row.role)
  }

  /** The role the user acts with in the school. The session's own memberships come first, by exact text;
      the database is asked only for a text the session does not list, compares uuid values, and does not
      ask whether that school is active. */
  function AssertMembership(d: Directory, session: SessionContext, school: string, roles: seq<string>): Result<string> {
    if session.user.platformRole == Some(SUPER_ADMIN) then Ok(SUPER_ADMIN)
    else if school in session.memberships then CheckRow(session.memberships[school], roles)
    else match d.readUuid(school)
      case None => Err(INTERNAL_ERROR)
      case Some(key) =>
        if (session.user.id, key) !in d.memberships then Err(AppError("CROSS_TENANT_DENIED", 403))
        else CheckRow(d.memberships[(session.user.id, key)], roles)
  }

  /** Platform super administrators: by their own role, or, having none, by an active SUPER_ADMIN
      membership in any one active school. */
  predicate PlatformSuper(d: Directory, user: nat) {
    && user in d.users
    && match d.users[user].platformRole
       case Some(role) => role == SUPER_ADMIN || (role == "" && SuperMember(d, user))
       case None => SuperMember(d, user)
  }

  predicate SuperMember(d: Directory, user: nat) {
    exists school | school in d.schools :: IsActiveMember(d, user, school) && d.memberships[(user, school)].role == SUPER_ADMIN
  }

  predicate IsActiveMember(d: Directory, user: nat, school: string) {
    && SchoolActive(d, school) && (user, school) in d.memberships
    && d.memberships[(user, school)].status == ACTIVE
  }

  /** Exactly who passes, for a session read from the tables as they were at login and a fallback read
      from the tables as they are now. */
  predicate Entitled(atLogin: Directory, now: Directory, user: nat, school: string, roles: seq<string>) {
    || PlatformSuper(atLogin, user)
    || (IsActiveMember(atLogin, user, school) && RoleAllowed(roles, atLogin.memberships[(user, school)].role))
    || (!IsActiveMember(atLogin, user, school) && IsCurrentMember(now, user, school, roles))
  }

  /** The database row of the school this text denotes lets the user in. */
  predicate IsCurrentMember(now: Directory, user: nat, school: string, roles: seq<string>) {
    match now.readUuid(school)
    case None => false
    case Some(key) =>
      && (user, key) in now.memberships && now.memberships[(user, key)].status != SUSPENDED
      && RoleAllowed(roles, now.memberships[(user, key)].role)
  }

  lemma SuperRole(d: Directory, user: nat, sessionSchool: Option<string>)
    requires Authenticate(d, user, sessionSchool).Some?
    ensures Authenticate(d, user, sessionSchool).value.user.platformRole == Some(SUPER_ADMIN) <==> PlatformSuper(d, user)
  {
    var memberships := ActiveMemberships(d, user);
    if HoldsSuperAdmin(memberships) {
      var school :| school in memberships && memberships[school].role == SUPER_ADMIN;
      assert IsActiveMember(d, user, school);
    }
    if SuperMember(d, user) {
      var school :| school in d.schools && IsActiveMember(d, user, school) && d.memberships[(user, school)].role == SUPER_ADMIN;
      assert school in memberships && memberships[school].role == SUPER_ADMIN;
    }
  }

  lemma GrantedExactlyWhenEntitled(
      atLogin: Directory, now: Directory, user: nat, sessionSchool: Option<string>, school: string, roles: seq<string>)
    requires Authenticate(atLogin, user, sessionSchool).Some?
    ensures AssertMembership(now, Authenticate(atLogin, user, sessionSchool).value, school, roles).Ok?
            <==> Entitled(atLogin, now, user, school, roles)
  {
    SuperRole(atLogin, user, sessionSchool);
    assert school in ActiveMemberships(atLogin, user) <==> IsActiveMember(atLogin, user, school);
  }

  /** The role of a user entitled to the school. */
  function RoleIn(atLogin: Directory, now: Directory, user: nat, school: string): Option<string> {
    if PlatformSuper(atLogin, user) then Some("SUPER_ADMIN")
    else if IsActiveMember(atLogin, user, school) then Some(atLogin.memberships[(user, school)].role)
    else match now.readUuid(school)
      case Some(key) => if (user, key) in now.memberships then Some(now.memberships[(user, key)].role) else None
      case None => None
  }

  /** A granted user acts with that role: a super administrator's, the role held at login, or the current
      row's. Without being a super administrator it is one of the roles a route asks for. */
  lemma GrantedRole(
      atLogin: Directory, now: Directory, user: nat, sessionSchool: Option<string>, school: string, roles: seq<string>)
    requires Authenticate(atLogin, user, sessionSchool).Some?
    requires AssertMembership(now, Authenticate(atLogin, user, sessionSchool).value, school, roles).Ok?
    ensures var role := AssertMembership(now, Authenticate(atLogin, user, sessionSchool).value, school, roles).value;
            && RoleIn(atLogin, now, user, school) == Some(role)
            && (!PlatformSuper(atLogin, user) && roles != [] ==> role in roles)
  {
    SuperRole(atLogin, user, sessionSchool);
    assert school in ActiveMemberships(atLogin, user) <==> IsActiveMember(atLogin, user, school);
  }

  /** A route that names no roles admits every member the session lists; one that names some admits only
      those roles. */
  lemma RolesAsked(
      atLogin: Directory, now: Directory, user: nat, sessionSchool: Option<string>, school: string, roles: seq<string>)
    requires Authenticate(atLogin, user, sessionSchool).Some? && !PlatformSuper(atLogin, user) && IsActiveMember(atLogin, user, school)
    ensures AssertMembership(now, Authenticate(atLogin, user, sessionSchool).value, school, roles).Ok?
            <==> roles == [] || atLogin.memberships[(user, school)].role in roles
  {
    SuperRole(atLogin, user, sessionSchool);
    assert school in ActiveMemberships(atLogin, user);
  }

  /** Why membership is refused: a role the route does not admit, no row, a suspended row, or a school id
      the server does not read. */
  lemma RefusalReason(
      atLogin: Directory, now: Directory, user: nat, sessionSchool: Option<string>, school: string, roles: seq<string>)
    requires Authenticate(atLogin, user, sessionSchool).Some?
    requires AssertMembership(now, Authenticate(atLogin, user, sessionSchool).value, school, roles).Err?
    ensures AssertMembership(now, Authenticate(atLogin, user, sessionSchool).value, school, roles).error ==
              if IsActiveMember(atLogin, user, school) then AppError("FORBIDDEN", 403)
              else match now.readUuid(school)
                case None => AppError("INTERNAL_ERROR", 500)
                case Some(key) =>
                  if (user, key) !in now.memberships then AppError("CROSS_TENANT_DENIED", 403)
                  else if now.memberships[(user, key)].status == "SUSPENDED" then AppError("MEMBERSHIP_SUSPENDED", 403)
                  else AppError("FORBIDDEN", 403)
  {
    SuperRole(atLogin, user, sessionSchool);
    assert school in ActiveMemberships(atLogin, user) <==> IsActiveMember(atLogin, user, school);
  }

  /** What a session holds: the user's own status and number, the user's platform role or, without one, the
      super administrator's where a membership gives it, and exactly the active memberships. */
  lemma SessionHolds(d: Directory, user: nat, sessionSchool: Option<string>)
    requires Authenticate(d, user, sessionSchool).Some?
    ensures var session := Authenticate(d, user, sessionSchool).value;
            && session.user.id == user && session.user.status == "ACTIVE"
            && session.user.platformRole ==
                 (if d.users[user].platformRole.Some? && d.users[user].platformRole.value != "" then d.users[user].platformRole
                  else if SuperMember(d, user) then Some("SUPER_ADMIN") else None)
            && (forall school :: school in session.memberships <==>
                  && school in d.schools && d.schools[school] == "ACTIVE"
                  && (user, school) in d.memberships && d.memberships[(user, school)].status == "ACTIVE")
            && (forall school | school in session.memberships :: session.memberships[school] == d.memberships[(user, school)])
  {
    SuperRole(d, user, sessionSchool);
    var memberships := ActiveMemberships(d, user);
    if HoldsSuperAdmin(memberships) {
      var school :| school in memberships && memberships[school].role == SUPER_ADMIN;
      assert IsActiveMember(d, user, school);
    }
    if SuperMember(d, user) {
      var school :| school in d.schools && IsActiveMember(d, user, school) && d.memberships[(user, school)].role == SUPER_ADMIN;
      assert school in memberships && memberships[school].role == SUPER_ADMIN;
    }
  }

  /** The same school in other letters: the session's list is compared by text, so only the lower-case
      spelling finds it there. Both spellings are answered alike exactly when the list does not matter or
      agrees with the current row. */
  lemma SpellingMattersExactly(
      atLogin: Directory, now: Directory, user: nat, sessionSchool: Option<string>, school: string, roles: seq<string>)
    requires Authenticate(atLogin, user, sessionSchool).Some?
    requires Canonical(atLogin) && ReadsUuids(now) && IsUuid(school) && school != Lower(school)
    ensures var session := Authenticate(atLogin, user, sessionSchool).value;
            (AssertMembership(now, session, school, roles).Ok? <==> AssertMembership(now, session, Lower(school), roles).Ok?)
            <==>
            (|| PlatformSuper(atLogin, user) || !IsActiveMember(atLogin, user, Lower(school))
             || (RoleAllowed(roles, atLogin.memberships[(user, Lower(school))].role)
                 <==> IsCurrentMember(now, user, school, roles)))
  {
    LowerTwice(school);
    GrantedExactlyWhenEntitled(atLogin, now, user, sessionSchool, school, roles);
    GrantedExactlyWhenEntitled(atLogin, now, user, sessionSchool, Lower(school), roles);
  }

  /** A lookup that finds its row still returns null exactly for a user who is missing or not active, or
      who is no super administrator and has no active membership where the session needs one. */
  lemma AuthenticateExactly(d: Directory, user: nat, sessionSchool: Option<string>)
    ensures Authenticate(d, user, sessionSchool).Some? <==>
              && user in d.users && d.users[user].status == ACTIVE
              && (|| d.users[user].platformRole == Some(SUPER_ADMIN) || SuperMember(d, user)
                  || (if sessionSchool.Some? && sessionSchool.value != ""
                      then IsActiveMember(d, user, sessionSchool.value)
                      else exists school | school in d.schools :: IsActiveMember(d, user, school)))
  {
    var memberships := ActiveMemberships(d, user);
    assert forall school :: school in memberships <==> IsActiveMember(d, user, school);
    if HoldsSuperAdmin(memberships) {
      var school :| school in memberships && memberships[school].role == SUPER_ADMIN;
      assert IsActiveMember(d, user, school);
    }
    if SuperMember(d, user) {
      var school :| school in d.schools && IsActiveMember(d, user, school) && d.memberships[(user, school)].role == SUPER_ADMIN;
      assert school in memberships && memberships[school].role == SUPER_ADMIN;
    }
    if memberships != map[] {
      assert memberships.Keys != {};
      var school :| school in memberships;
      assert IsActiveMember(d, user, school);
    }
    if school :| school in d.schools && IsActiveMember(d, user, school) {
      assert school in memberships;
    }
  }
}
