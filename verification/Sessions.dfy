/** Session rows over time (src/auth/session.ts): a 24 hour absolute limit, a 2 hour idle window that
    each lookup slides by an update nobody waits for, and deletion. */
module Sessions {
  import opened Wrappers

  const HOUR_MS: int := 3600000

  const SESSION_DURATION_MS: int := 24 * 60 * 60 * 1000
  const SESSION_IDLE_TIMEOUT_MS: int := 2 * 60 * 60 * 1000

  /** A row of auth_sessions; its key is the token's hash, which is unique. */
  datatype SessionRow = SessionRow(expiresAt: int, lastAccessedAt: int)

  type Rows = map<nat, SessionRow>

  function NewRow(now: int): SessionRow {
    SessionRow(now + SESSION_DURATION_MS, now)
  }

  /** The WHERE clause of the lookup: neither expired nor idle. */
  predicate IsLive(row: SessionRow, now: int) {
    row.expiresAt > now && row.lastAccessedAt > now - SESSION_IDLE_TIMEOUT_MS
  }

  function Lookup(rows: Rows, hash: nat, now: int): Option<SessionRow> {
    if hash in rows && IsLive(rows[hash], now) then Some(rows[hash]) else None
  }

  /** An update of a missing row changes nothing. */
  function Touch(rows: Rows, hash: nat, now: int): Rows {
    if hash in rows then rows[hash := rows[hash].(lastAccessedAt := now)] else rows
  }

  /** The table, changed by one statement at a time. */
  class AuthSessions {
    var rows: Rows

    constructor ()
      ensures rows == map[]
    {
      rows := map[];
    }

    method CreateSession(hash: nat, now: int) returns (expiresAt: int)
      requires hash !in rows
      modifies this
      ensures rows == old(rows)[hash := NewRow(now)]
      ensures expiresAt == now + SESSION_DURATION_MS && Lookup(rows, hash, now).Some?
    {
      expiresAt := now + SESSION_DURATION_MS;
      rows := rows[hash := SessionRow(expiresAt, now)];
    }

    /** The lookup's SELECT: the stored row, exactly before its absolute limit and less than the idle window
        after its last access. */
    method FindSession(hash: nat, now: int) returns (row: Option<SessionRow>)
      ensures row == Lookup(rows, hash, now)
      ensures row.Some? <==> hash in rows && now < rows[hash].expiresAt && now - rows[hash].lastAccessedAt < SESSION_IDLE_TIMEOUT_MS
      ensures row.Some? ==> row.value == rows[hash]
    {
      var idleDeadline := now - SESSION_IDLE_TIMEOUT_MS;
      row := None;
      if hash in rows && rows[hash].expiresAt > now && rows[hash].lastAccessedAt > idleDeadline {
        row := Some(rows[hash]);
      }
    }

    /** The lookup's UPDATE, when it arrives: it brings no row back, leaves every other row and the absolute
        limit alone, and keeps the session findable for a whole idle window from its clock reading. */
    method Bump(hash: nat, now: int)
      modifies this
      ensures rows == Touch(old(rows), hash, now)
      ensures rows.Keys == old(rows).Keys && forall h | h in rows && h != hash :: rows[h] == old(rows)[h]
      ensures hash in rows ==>
                && rows[hash].expiresAt == old(rows)[hash].expiresAt
                && forall t | now <= t < now + SESSION_IDLE_TIMEOUT_MS && t < rows[hash].expiresAt :: Lookup(rows, hash, t).Some?
    {
      if hash in rows {
        rows := rows[hash := rows[hash].(lastAccessedAt := now)];
      }
    }

    method InvalidateSession(hash: nat)
      modifies this
      ensures rows == old(rows) - {hash} && forall now :: Lookup(rows, hash, now).None?
      ensures forall h, now | h != hash :: Lookup(rows, h, now) == Lookup(old(rows), h, now)
    {
      rows := rows - {hash};
    }
  }

  // ---------- Interleaved callers ----------

  /** A lookup found its row: the clock it compared with and the row it saw. */
  datatype Found = Found(hash: nat, now: int, seen: SessionRow)

  /** A hash and the clock reading its caller took. */
  datatype Timed = Timed(hash: nat, now: int)

  /** issued maps every hash ever made to the clock its creator read; the others hold the calls under
      way, by caller: inserts not yet committed, lookups not yet answered, updates not yet applied. */
  datatype State = State(
    rows: Rows, issued: map<nat, int>, inserting: set<nat>,
    looking: map<nat, Timed>, bumping: map<nat, Timed>, found: seq<Found>, clock: int)

  datatype Action =
    | Tick(elapsed: nat)
    | BeginCreate(hash: nat)
    | CommitCreate(hash: nat)
    | BeginLookup(caller: nat, hash: nat)
    | Select(caller: nat)
    | ApplyBump(caller: nat)
    | LoseBump(caller: nat)
    | Delete(hash: nat)

  const START := State(map[], map[], {}, map[], map[], [], 0)

  function SelectStep(s: State, caller: nat): State
    requires caller in s.looking
  {
    var call := s.looking[caller];
    var s' := s.(looking := s.looking - {caller});
    match Lookup(s.rows, call.hash, call.now)
    case None => s'
    case Some(row) => s'.(found := s.found + [Found(call.hash, call.now, row)], bumping := s.bumping[caller := call])
  }

  /** Actions that are not possible leave the state alone. Hashes are never issued twice. */
  function Step(s: State, a: Action): State {
    match a
    case Tick(elapsed) => s.(clock := s.clock + elapsed)
    case BeginCreate(hash) =>
      if hash in s.issued then s
      else s.(issued := s.issued[hash := s.clock], inserting := s.inserting + {hash})
    case CommitCreate(hash) =>
      if hash !in s.inserting || hash !in s.issued then s
      else s.(rows := s.rows[hash := NewRow(s.issued[hash])], inserting := s.inserting - {hash})
    case BeginLookup(caller, hash) =>
      if caller in s.looking || caller in s.bumping then s else s.(looking := s.looking[caller := Timed(hash, s.clock)])
    case Select(caller) => if caller in s.looking then SelectStep(s, caller) else s
    case ApplyBump(caller) =>
      if caller !in s.bumping then s
      else s.(rows := Touch(s.rows, s.bumping[caller].hash, s.bumping[caller].now), bumping := s.bumping - {caller})
    case LoseBump(caller) => s.(bumping := s.bumping - {caller})
    case Delete(hash) => s.(rows := s.rows - {hash})
  }

  function Reach(s: State, actions: seq<Action>): State
    decreases |actions|
  {
    if actions == [] then s else Reach(Step(s, actions[0]), actions[1..])
  }

  // ---------- The chain of lookups ----------

  /** An access time of a hash is its creation or the clock of one of these lookups. */
  predicate Supported(issued: map<nat, int>, found: seq<Found>, hash: nat, accessed: int) {
    hash in issued && (accessed == issued[hash] || exists k :: 0 <= k < |found| && found[k].hash == hash && found[k].now == accessed)
  }

  /** The i-th successful lookup was in time for a row whose access time an earlier one explains. */
  predicate Explained(issued: map<nat, int>, found: seq<Found>, i: nat)
    requires i < |found|
  {
    var f := found[i];
    && Supported(issued, found[..i], f.hash, f.seen.lastAccessedAt)
    && f.now < issued[f.hash] + SESSION_DURATION_MS
    && f.now - f.seen.lastAccessedAt < SESSION_IDLE_TIMEOUT_MS
  }

  predicate Invariant(s: State) {
    && (forall h | h in s.rows ::
          Supported(s.issued, s.found, h, s.rows[h].lastAccessedAt) && s.rows[h].expiresAt == s.issued[h] + SESSION_DURATION_MS)
    && (forall c | c in s.bumping :: Supported(s.issued, s.found, s.bumping[c].hash, s.bumping[c].now))
    && (forall i | 0 <= i < |s.found| :: Explained(s.issued, s.found, i))
  }

  lemma SupportGrows(issued: map<nat, int>, issued': map<nat, int>, found: seq<Found>, more: seq<Found>, hash: nat, accessed: int)
    requires Supported(issued, found, hash, accessed)
    requires forall h | h in issued :: h in issued' && issued'[h] == issued[h]
    ensures Supported(issued', found + more, hash, accessed)
  {
    if accessed != issued[hash] {
      var k :| 0 <= k < |found| && found[k].hash == hash && found[k].now == accessed;
      assert (found + more)[k] == found[k];
    }
  }

  lemma CreateKeeps(s: State, hash: nat)
    requires Invariant(s) && hash !in s.issued
    ensures Invariant(Step(s, BeginCreate(hash)))
  {
    var s' := Step(s, BeginCreate(hash));
    assert s.found + [] == s.found;
    forall h | h in s'.rows
      ensures Supported(s'.issued, s'.found, h, s'.rows[h].lastAccessedAt)
    {
      SupportGrows(s.issued, s'.issued, s.found, [], h, s.rows[h].lastAccessedAt);
    }
    forall c | c in s'.bumping
      ensures Supported(s'.issued, s'.found, s'.bumping[c].hash, s'.bumping[c].now)
    {
      SupportGrows(s.issued, s'.issued, s.found, [], s.bumping[c].hash, s.bumping[c].now);
    }
    forall i | 0 <= i < |s'.found|
      ensures Explained(s'.issued, s'.found, i)
    {
      assert Explained(s.issued, s.found, i);
      assert s.found[..i] + [] == s.found[..i];
      SupportGrows(s.issued, s'.issued, s.found[..i], [], s.found[i].hash, s.found[i].seen.lastAccessedAt);
    }
  }

  lemma SelectKeeps(s: State, caller: nat)
    requires Invariant(s) && caller in s.looking
    ensures Invariant(SelectStep(s, caller))
  {
    var call := s.looking[caller];
    var s' := SelectStep(s, caller);
    if Lookup(s.rows, call.hash, call.now).Some? {
      var f := Found(call.hash, call.now, s.rows[call.hash]);
      forall h | h in s'.rows
        ensures Supported(s'.issued, s'.found, h, s'.rows[h].lastAccessedAt)
      {
        SupportGrows(s.issued, s.issued, s.found, [f], h, s.rows[h].lastAccessedAt);
      }
      forall c | c in s'.bumping
        ensures Supported(s'.issued, s'.found, s'.bumping[c].hash, s'.bumping[c].now)
      {
        if c == caller {
          assert s'.found[|s.found|] == f;
        } else {
          SupportGrows(s.issued, s.issued, s.found, [f], s.bumping[c].hash, s.bumping[c].now);
        }
      }
      forall i | 0 <= i < |s'.found|
        ensures Explained(s'.issued, s'.found, i)
      {
        assert s'.found[..i] == s.found[..i];
        assert i < |s.found| ==> Explained(s.issued, s.found, i);
      }
    }
  }

  lemma StepKeeps(s: State, a: Action)
    requires Invariant(s)
    ensures Invariant(Step(s, a))
  {
    match a
    case BeginCreate(hash) => if hash !in s.issued { CreateKeeps(s, hash); }
    case Select(caller) => if caller in s.looking { SelectKeeps(s, caller); }
    case Tick(_) =>
    case CommitCreate(_) =>
    case BeginLookup(_, _) =>
    case ApplyBump(_) =>
    case LoseBump(_) =>
    case Delete(_) =>
  }

  lemma {:induction false} ReachKeeps(s: State, actions: seq<Action>)
    requires Invariant(s)
    ensures Invariant(Reach(s, actions))
    decreases |actions|
  {
    if actions != [] {
      StepKeeps(s, actions[0]);
      ReachKeeps(Step(s, actions[0]), actions[1..]);
    }
  }

  /** Successful lookups of one session, oldest first: the first within the idle window of its creation,
      each next one within the idle window of the one before, all before the absolute limit. */
  predicate IsChain(found: seq<Found>, created: int, chain: seq<nat>) {
    && |chain| > 0 && chain[0] < |found|
    && (forall j | 0 <= j < |chain| ::
          chain[j] < |found| && found[chain[j]].hash == found[chain[0]].hash
          && found[chain[j]].now < created + 24 * HOUR_MS)
    && found[chain[0]].now - created < 2 * HOUR_MS
    && (forall j | 0 < j < |chain| ::
          chain[j - 1] < chain[j] && found[chain[j]].now - found[chain[j - 1]].now < 2 * HOUR_MS)
  }

  lemma {:induction false} ChainBack(s: State, i: nat) returns (chain: seq<nat>)
    requires Invariant(s) && i < |s.found|
    ensures s.found[i].hash in s.issued
    ensures IsChain(s.found, s.issued[s.found[i].hash], chain) && chain[|chain| - 1] == i
    decreases i
  {
    var f := s.found[i];
    assert Explained(s.issued, s.found, i);
    if f.seen.lastAccessedAt == s.issued[f.hash] {
      chain := [i];
    } else {
      var k :| 0 <= k < i && s.found[..i][k].hash == f.hash && s.found[..i][k].now == f.seen.lastAccessedAt;
      var earlier := ChainBack(s, k);
      chain := earlier + [i];
    }
  }

  /** In every run, whatever bumps are lost, late or out of order: a lookup that passes is before the
      absolute limit, and earlier passing lookups reach back to the creation with no gap as long as the
      idle window. */
  lemma EverySessionIsChained(actions: seq<Action>, i: nat) returns (chain: seq<nat>)
    requires i < |Reach(START, actions).found|
    ensures var s := Reach(START, actions);
            && s.found[i].hash in s.issued
            && s.found[i].now < s.issued[s.found[i].hash] + 24 * HOUR_MS
            && IsChain(s.found, s.issued[s.found[i].hash], chain) && chain[|chain| - 1] == i
  {
    ReachKeeps(START, actions);
    var s := Reach(START, actions);
    assert Explained(s.issued, s.found, i);
    chain := ChainBack(s, i);
  }

  // ---------- Deletion ----------

  /** Neither stored nor about to be, and never to be issued again. */
  predicate Gone(s: State, hash: nat) {
    hash !in s.rows && hash !in s.inserting && hash in s.issued
  }

  lemma {:induction false} StaysGone(s: State, hash: nat, actions: seq<Action>)
    requires Gone(s, hash)
    ensures var s' := Reach(s, actions);
            && Gone(s', hash) && s.found <= s'.found
            && forall i | |s.found| <= i < |s'.found| :: s'.found[i].hash != hash
    decreases |actions|
  {
    if actions != [] {
      var s1 := Step(s, actions[0]);
      assert Gone(s1, hash) && s.found <= s1.found;
      StaysGone(s1, hash, actions[1..]);
    }
  }

  /** Once the deletion of an issued session commits, no lookup of it passes in any continuation, with
      lookups and bumps of it still under way or not. */
  lemma DeletionIsPermanent(before: seq<Action>, hash: nat, after: seq<Action>)
    requires var s := Reach(START, before); hash in s.issued && hash !in s.inserting
    ensures var s := Step(Reach(START, before), Delete(hash));
            var s' := Reach(s, after);
            s.found <= s'.found && forall i | |s.found| <= i < |s'.found| :: s'.found[i].hash != hash
  {
    StaysGone(Step(Reach(START, before), Delete(hash)), hash, after);
  }

  // ---------- The times are those of the clock ----------

  /** The time that passes in a run. */
  function Elapsed(actions: seq<Action>): nat {
    if actions == [] then 0
    else (if actions[0].Tick? then actions[0].elapsed else 0) + Elapsed(actions[1..])
  }

  lemma {:induction false} ClockAdvances(s: State, actions: seq<Action>)
    ensures Reach(s, actions).clock == s.clock + Elapsed(actions)
    decreases |actions|
  {
    if actions != [] {
      ClockAdvances(Step(s, actions[0]), actions[1..]);
    }
  }

  /** A hash is issued once, with the clock of that moment, and keeps that time ever after. */
  lemma {:induction false} IssuedStays(s: State, hash: nat, actions: seq<Action>)
    requires hash in s.issued
    ensures hash in Reach(s, actions).issued && Reach(s, actions).issued[hash] == s.issued[hash]
    decreases |actions|
  {
    if actions != [] {
      IssuedStays(Step(s, actions[0]), hash, actions[1..]);
    }
  }

  /** A created and committed session expires a day after the clock of its creation, and is found then. */
  lemma CreationTakesTheClock(s: State, hash: nat, after: seq<Action>)
    requires hash !in s.issued
    ensures var s1 := Step(s, BeginCreate(hash));
            && hash in s1.issued && s1.issued[hash] == s.clock && hash in s1.inserting
            && hash in Reach(s1, after).issued && Reach(s1, after).issued[hash] == s.clock
    ensures Step(Step(s, BeginCreate(hash)), CommitCreate(hash)).rows
            == s.rows[hash := SessionRow(s.clock + 24 * HOUR_MS, s.clock)]
    ensures hash !in Step(Step(s, BeginCreate(hash)), CommitCreate(hash)).inserting
  {
    IssuedStays(Step(s, BeginCreate(hash)), hash, after);
  }

  /** A creation under way stays so until it commits, whatever else happens. */
  lemma {:induction false} CreationWaits(s: State, hash: nat, actions: seq<Action>)
    requires hash in s.inserting && CommitCreate(hash) !in actions
    ensures hash in Reach(s, actions).inserting
    decreases |actions|
  {
    if actions != [] {
      assert actions[0] in actions && forall a | a in actions[1..] :: a in actions;
      CreationWaits(Step(s, actions[0]), hash, actions[1..]);
    }
  }

  lemma {:induction false} LookupWaits(s: State, caller: nat, actions: seq<Action>)
    requires caller in s.looking && Select(caller) !in actions
    ensures caller in Reach(s, actions).looking && Reach(s, actions).looking[caller] == s.looking[caller]
    decreases |actions|
  {
    if actions != [] {
      assert actions[0] in actions && forall a | a in actions[1..] :: a in actions;
      LookupWaits(Step(s, actions[0]), caller, actions[1..]);
    }
  }

  /** What a lookup answers is decided with the clock of its beginning, however late it is answered: it
      adds one success with that clock, exactly when the row is then before its absolute limit and less
      than the idle window after its last access, and otherwise nothing. */
  lemma LookupTakesTheClock(s: State, caller: nat, hash: nat, meanwhile: seq<Action>)
    requires caller !in s.looking && caller !in s.bumping && Select(caller) !in meanwhile
    ensures var s1 := Reach(Step(s, BeginLookup(caller, hash)), meanwhile);
            var s2 := Step(s1, Select(caller));
            && caller !in s2.looking && s2.rows == s1.rows &&
            if hash in s1.rows && s.clock < s1.rows[hash].expiresAt && s.clock - s1.rows[hash].lastAccessedAt < 2 * HOUR_MS
            then s2.found == s1.found + [Found(hash, s.clock, s1.rows[hash])]
                 && caller in s2.bumping && s2.bumping[caller] == Timed(hash, s.clock)
            else s2.found == s1.found && s2.bumping == s1.bumping
  {
    LookupWaits(Step(s, BeginLookup(caller, hash)), caller, meanwhile);
  }

  /** A lookup that begins a day or more after the session was created never passes, however the run
      went before and goes on. */
  lemma NothingPassesAfterADay(before: seq<Action>, caller: nat, hash: nat, meanwhile: seq<Action>)
    requires var s := Reach(START, before);
             && caller !in s.looking && caller !in s.bumping && Select(caller) !in meanwhile
             && hash in s.issued && s.clock - s.issued[hash] >= 24 * HOUR_MS
    ensures var s1 := Reach(Step(Reach(START, before), BeginLookup(caller, hash)), meanwhile);
            Step(s1, Select(caller)).found == s1.found
  {
    var s := Reach(START, before);
    var begun := Step(s, BeginLookup(caller, hash));
    ReachKeeps(START, before);
    StepKeeps(s, BeginLookup(caller, hash));
    ReachKeeps(begun, meanwhile);
    IssuedStays(begun, hash, meanwhile);
    LookupTakesTheClock(s, caller, hash, meanwhile);
  }

  /** Only three actions change the stored rows: a creation's commit adds its own, an update changes one, a
      deletion removes one. */
  lemma RowsChangeOnly(s: State, a: Action)
    ensures match a
            case CommitCreate(hash) =>
              forall h | h != hash :: (h in s.rows <==> h in Step(s, a).rows) && (h in s.rows ==> Step(s, a).rows[h] == s.rows[h])
            case ApplyBump(caller) => Step(s, a).rows.Keys == s.rows.Keys
            case Delete(hash) => Step(s, a).rows == map h | h in s.rows && h != hash :: s.rows[h]
            case Tick(_) => Step(s, a).rows == s.rows
            case BeginCreate(_) => Step(s, a).rows == s.rows
            case BeginLookup(_, _) => Step(s, a).rows == s.rows
            case Select(_) => Step(s, a).rows == s.rows
            case LoseBump(_) => Step(s, a).rows == s.rows
  {
  }

  lemma {:induction false} BumpWaits(s: State, caller: nat, actions: seq<Action>)
    requires caller in s.bumping && ApplyBump(caller) !in actions && LoseBump(caller) !in actions
    requires caller !in s.looking
    ensures caller in Reach(s, actions).bumping && Reach(s, actions).bumping[caller] == s.bumping[caller]
    ensures caller !in Reach(s, actions).looking
    decreases |actions|
  {
    if actions != [] {
      assert actions[0] in actions && forall a | a in actions[1..] :: a in actions;
      BumpWaits(Step(s, actions[0]), caller, actions[1..]);
    }
  }

  /** The update that follows a success slides the row's idle window to that lookup's clock, if the row is
      still there, and changes nothing else; a lost update changes no row. */
  lemma BumpSlides(s: State, caller: nat)
    requires caller in s.bumping
    ensures var s' := Step(s, ApplyBump(caller));
            var call := s.bumping[caller];
            && s'.rows.Keys == s.rows.Keys && caller !in s'.bumping
            && (forall h | h in s.rows && h != call.hash :: s'.rows[h] == s.rows[h])
            && (call.hash in s.rows ==> s'.rows[call.hash] == SessionRow(s.rows[call.hash].expiresAt, call.now))
    ensures caller !in Step(s, LoseBump(caller)).bumping && Step(s, LoseBump(caller)).rows == s.rows
  {
  }
}
