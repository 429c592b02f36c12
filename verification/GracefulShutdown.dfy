/** Request counting and graceful shutdown of the web server (src/http/shutdown.ts). */
module GracefulShutdown {
  const POLL_MS: nat := 100

  datatype Act = DrainingStarted | ServerClosed | ConnectionsForced | ResourcesClosing | Exited

  datatype Signal = SIGTERM | SIGINT

  /** Where the shutdown body is waiting; Gone after its own exit, Killed when a signal ended the process. */
  datatype Phase = Serving | Grace | Draining(deadline: int) | Closing | Gone | Killed

  /** The module's variables beside the requests themselves: `open` holds the tracked requests whose
      response has not closed, `told` those asked to reconnect elsewhere, `handled` the signals whose
      one-time handler has run. */
  datatype Server = Server(
    started: bool, draining: bool, inflight: int, open: set<nat>, seen: set<nat>, told: set<nat>,
    handled: set<Signal>, phase: Phase, trace: seq<Act>)

  const INITIAL := Server(false, false, 0, {}, {}, {}, {}, Serving, [])

  predicate Alive(s: Server) { s.phase != Gone && s.phase != Killed }

  /** inflightTracker on a new request. */
  function Track(s: Server, id: nat): Server
    requires id !in s.seen
  {
    s.(inflight := s.inflight + 1, open := s.open + {id}, seen := s.seen + {id},
       told := if s.draining then s.told + {id} else s.told)
  }

  /** The response's close event. */
  function ResponseClosed(s: Server, id: nat): Server {
    s.(inflight := s.inflight - 1, open := s.open - {id})
  }

  /** The start of the shutdown body. */
  function BeginShutdown(s: Server): Server {
    if s.started then s
    else s.(started := true, draining := true, phase := Grace, trace := s.trace + [DrainingStarted])
  }

  /** Each signal has a handler for its first arrival only; without one it ends the process at once. */
  function Receive(s: Server, signal: Signal): Server {
    if signal in s.handled then s.(phase := Killed)
    else BeginShutdown(s.(handled := s.handled + {signal}))
  }

  /** After the readiness grace: stop accepting, start the drain clock. */
  function CloseServer(s: Server, now: int, drainMs: nat): Server {
    s.(phase := Draining(now + drainMs), trace := s.trace + [ServerClosed])
  }

  predicate KeepsWaiting(s: Server, now: int)
    requires s.phase.Draining?
  {
    s.inflight > 0 && now < s.phase.deadline
  }

  /** The wait is over: force what is left, then close the resources. */
  function EndDrain(s: Server): Server {
    s.(phase := Closing,
       trace := s.trace + (if s.inflight > 0 then [ConnectionsForced] else []) + [ResourcesClosing])
  }

  function Exit(s: Server): Server {
    s.(phase := Gone, trace := s.trace + [Exited])
  }

  // ---------- Every run ----------

  datatype Event =
    | Request(id: nat)
    | Close(id: nat)
    | Arrives(signal: Signal)
    | GraceOver(now: int)
    | Poll(now: int)
    | ResourcesClosed

  function Step(s: Server, drainMs: nat, e: Event): Server {
    if !Alive(s) then s else
    match e
    case Request(id) => if id in s.seen then s else Track(s, id)
    case Close(id) => if id in s.open then ResponseClosed(s, id) else s
    case Arrives(signal) => Receive(s, signal)
    case GraceOver(now) => if s.phase == Grace then CloseServer(s, now, drainMs) else s
    case Poll(now) => if s.phase.Draining? && !KeepsWaiting(s, now) then EndDrain(s) else s
    case ResourcesClosed => if s.phase == Closing then Exit(s) else s
  }

  function Reach(s: Server, drainMs: nat, events: seq<Event>): Server
    decreases |events|
  {
    if events == [] then s else Reach(Step(s, drainMs, events[0]), drainMs, events[1..])
  }

  const AFTER_SIGNAL: seq<Act> := [DrainingStarted]

  const AFTER_CLOSE: seq<Act> := AFTER_SIGNAL + [ServerClosed]

  /** The acts up to the closing of resources, with connections forced or not. */
  function AfterDrain(forced: bool): seq<Act> {
    AFTER_CLOSE + (if forced then [ConnectionsForced] else []) + [ResourcesClosing]
  }

  /** What has been done by each phase, in this order and once. */
  predicate TraceFits(s: Server) {
    match s.phase
    case Serving => s.trace == []
    case Grace => s.trace == AFTER_SIGNAL
    case Draining(_) => s.trace == AFTER_CLOSE
    case Closing => exists forced :: s.trace == AfterDrain(forced)
    case Gone => exists forced :: s.trace == AfterDrain(forced) + [Exited]
    case Killed => s.trace == AFTER_SIGNAL || s.trace == AFTER_CLOSE || exists forced :: s.trace == AfterDrain(forced)
  }

  predicate Invariant(s: Server) {
    && s.inflight == |s.open| && s.open <= s.seen && s.told <= s.seen
    && (s.started <==> s.phase != Serving) && (s.draining <==> s.started) && (s.started <==> s.handled != {})
    && TraceFits(s)
  }

  lemma OneMore(open: set<nat>, id: nat)
    ensures id !in open ==> |open + {id}| == |open| + 1
    ensures id in open ==> |open - {id}| == |open| - 1
  {
  }

  lemma RequestsKeep(s: Server, drainMs: nat, id: nat)
    requires Invariant(s) && Alive(s)
    ensures id !in s.seen ==> Invariant(Track(s, id))
    ensures id in s.open ==> Invariant(ResponseClosed(s, id))
  {
    OneMore(s.open, id);
  }

  lemma PhasesKeep(s: Server, drainMs: nat, e: Event)
    requires Invariant(s) && (e.GraceOver? || e.Poll? || e.ResourcesClosed?)
    ensures Invariant(Step(s, drainMs, e))
  {
    if e.Poll? && s.phase.Draining? && !KeepsWaiting(s, e.now) {
      assert EndDrain(s).trace == AfterDrain(s.inflight > 0);
    }
  }

  lemma StepKeeps(s: Server, drainMs: nat, e: Event)
    requires Invariant(s)
    ensures Invariant(Step(s, drainMs, e))
  {
    match e
    case Request(id) => if Alive(s) { RequestsKeep(s, drainMs, id); }
    case Close(id) => if Alive(s) { RequestsKeep(s, drainMs, id); }
    case Arrives(signal) =>
      assert signal in s.handled + {signal};
      assert s.phase == Serving ==> [] + AFTER_SIGNAL == AFTER_SIGNAL;
    case GraceOver(_) => PhasesKeep(s, drainMs, e);
    case Poll(_) => PhasesKeep(s, drainMs, e);
    case ResourcesClosed => PhasesKeep(s, drainMs, e);
  }

  lemma {:induction false} ReachKeeps(s: Server, drainMs: nat, events: seq<Event>)
    requires Invariant(s)
    ensures Invariant(Reach(s, drainMs, events))
    decreases |events|
  {
    if events != [] {
      StepKeeps(s, drainMs, events[0]);
      ReachKeeps(Step(s, drainMs, events[0]), drainMs, events[1..]);
    }
  }

  lemma {:induction false} ReachAppend(s: Server, drainMs: nat, a: seq<Event>, b: seq<Event>)
    ensures Reach(s, drainMs, a + b) == Reach(Reach(s, drainMs, a), drainMs, b)
    decreases |a|
  {
    if a == [] {
      assert a + b == b;
    } else {
      assert (a + b)[0] == a[0] && (a + b)[1..] == a[1..] + b;
      ReachAppend(Step(s, drainMs, a[0]), drainMs, a[1..], b);
    }
  }

  lemma ReachOne(s: Server, drainMs: nat, events: seq<Event>, e: Event)
    ensures Reach(s, drainMs, events + [e]) == Step(Reach(s, drainMs, events), drainMs, e)
  {
    ReachAppend(s, drainMs, events, [e]);
    assert [e][1..] == [];
  }

  /** For every run of requests, responses and signals: the counter is the number of tracked requests
      still open, and the shutdown body's acts happen once each and in order. */
  lemma CountsAndOrders(drainMs: nat, events: seq<Event>)
    ensures var s := Reach(INITIAL, drainMs, events); s.inflight == |s.open| && TraceFits(s)
  {
    ReachKeeps(INITIAL, drainMs, events);
  }

  /** Resources start closing only when no request was open, or at a check not before the deadline; only
      then, too, are connections forced. */
  lemma ResourcesWait(drainMs: nat, events: seq<Event>, e: Event)
    requires var s := Reach(INITIAL, drainMs, events);
             ResourcesClosing in Step(s, drainMs, e).trace && ResourcesClosing !in s.trace
    ensures var s := Reach(INITIAL, drainMs, events);
            && e.Poll? && s.phase.Draining?
            && (s.open == {} || e.now >= s.phase.deadline)
            && (ConnectionsForced in Step(s, drainMs, e).trace <==> s.open != {})
  {
    ReachKeeps(INITIAL, drainMs, events);
  }

  /** The wait goes on exactly while a request is open and the deadline has not come. */
  lemma WaitsForOpenRequests(drainMs: nat, events: seq<Event>, now: int)
    requires Reach(INITIAL, drainMs, events).phase.Draining?
    ensures var s := Reach(INITIAL, drainMs, events);
            KeepsWaiting(s, now) <==> s.open != {} && now < s.phase.deadline
  {
    ReachKeeps(INITIAL, drainMs, events);
  }

  /** Requests once seen, and once told to reconnect, stay so. */
  lemma RecordsGrow(s: Server, drainMs: nat, e: Event)
    ensures s.seen <= Step(s, drainMs, e).seen && s.told <= Step(s, drainMs, e).told && s.trace <= Step(s, drainMs, e).trace
  {
  }

  /** The end of a response takes exactly its own request from the open ones. */
  lemma ResponseEnds(s: Server, drainMs: nat, id: nat)
    requires Alive(s) && id in s.open
    ensures Step(s, drainMs, Close(id)) == s.(open := s.open - {id}, inflight := s.inflight - 1)
  {
  }

  /** Exactly the requests that arrive after draining began are told to reconnect. */
  lemma ToldWhileDraining(drainMs: nat, events: seq<Event>, id: nat)
    requires var s := Reach(INITIAL, drainMs, events); Alive(s) && id !in s.seen
    ensures var s := Reach(INITIAL, drainMs, events);
            var s' := Step(s, drainMs, Request(id));
            id in s'.open && (id in s'.told <==> DrainingStarted in s.trace)
  {
    ReachKeeps(INITIAL, drainMs, events);
  }

  lemma {:induction false} HandledArrived(s: Server, drainMs: nat, events: seq<Event>)
    requires Alive(Reach(s, drainMs, events))
    ensures Alive(s)
    ensures forall k :: k in Reach(s, drainMs, events).handled <==> k in s.handled || Arrives(k) in events
    decreases |events|
  {
    if events != [] {
      HandledArrived(Step(s, drainMs, events[0]), drainMs, events[1..]);
      assert events == [events[0]] + events[1..];
    }
  }

  /** The drain protects a request only until a signal comes again: a living process is ended before its
      shutdown is done exactly by a signal of a kind that came before. */
  lemma RepeatedSignalKills(drainMs: nat, events: seq<Event>, e: Event)
    requires Alive(Reach(INITIAL, drainMs, events))
    ensures Step(Reach(INITIAL, drainMs, events), drainMs, e).phase == Killed <==> e.Arrives? && e in events
  {
    HandledArrived(INITIAL, drainMs, events);
  }

  // ---------- The shutdown body ----------

  /** Requests, responses and signals: what other turns of the event loop bring while the body sleeps. */
  predicate Outside(events: seq<Event>) {
    forall e | e in events :: e.Request? || e.Close? || e.Arrives?
  }

  /** Once the shutdown has started they change only the requests, or end the process. */
  lemma {:induction false} OutsideKeeps(s: Server, drainMs: nat, events: seq<Event>)
    requires s.started && Outside(events)
    ensures var s' := Reach(s, drainMs, events);
            s'.started && s'.trace == s.trace && (s'.phase == s.phase || s'.phase == Killed)
    decreases |events|
  {
    if events != [] {
      assert events[0] in events;
      OutsideKeeps(Step(s, drainMs, events[0]), drainMs, events[1..]);
    }
  }

  class Process {
    const drainMs: nat
    const readinessGraceMs: nat
    var s: Server
    var clock: int
    ghost var run: seq<Event>

    /** The variables are those some run of the process reaches, so all of the above holds of them. */
    ghost predicate Valid()
      reads this
    {
      s == Reach(INITIAL, drainMs, run)
    }

    constructor (drainMs: nat, readinessGraceMs: nat, now: int)
      ensures this.drainMs == drainMs && this.readinessGraceMs == readinessGraceMs
      ensures Valid() && s == INITIAL && clock == now
    {
      this.drainMs, this.readinessGraceMs := drainMs, readinessGraceMs;
      s, clock, run := INITIAL, now, [];
    }

    /** Counts the request; asks it to reconnect exactly when draining has started. */
    method InflightTracker(id: nat)
      requires Valid() && Alive(s) && id !in s.seen
      modifies this`s, this`run
      ensures Valid() && run == old(run) + [Request(id)] && s == Track(old(s), id)
      ensures s.inflight == old(s.inflight) + 1 == |s.open| && id in s.open
      ensures id in s.told <==> DrainingStarted in s.trace
    {
      CountsAndOrders(drainMs, run + [Request(id)]);
      CountsAndOrders(drainMs, run);
      ToldWhileDraining(drainMs, run, id);
      ReachOne(INITIAL, drainMs, run, Request(id));
      s := s.(inflight := s.inflight + 1, open := s.open + {id}, seen := s.seen + {id});
      if s.draining {
        s := s.(told := s.told + {id});
      }
      run := run + [Request(id)];
    }

    ghost method Happened(e: Event)
      requires s == Step(Reach(INITIAL, drainMs, run), drainMs, e)
      modifies this`run
      ensures Valid() && run == old(run) + [e]
    {
      ReachOne(INITIAL, drainMs, run, e);
      run := run + [e];
    }

    /** A sleep lasts at least that long, and the others have their turns meanwhile. */
    method Sleep(ms: nat, others: seq<Event>)
      requires Valid() && s.started && Outside(others)
      modifies this`s, this`clock, this`run
      ensures Valid() && run == old(run) + others && clock >= old(clock) + ms
      ensures s.started && s.trace == old(s.trace) && (s.phase == old(s.phase) || s.phase == Killed)
    {
      OutsideKeeps(s, drainMs, others);
      ReachAppend(INITIAL, drainMs, run, others);
      s := Reach(s, drainMs, others);
      run := run + others;
      clock := clock + ms;
    }

    /** The wait for open requests, one check per poll interval: it stops with none open, at the deadline,
        or with the process ended. */
    method WaitForRequests(others: nat -> seq<Event>) returns (checks: nat)
      requires Valid() && s.started && s.trace == AFTER_CLOSE && s.phase == Draining(clock + drainMs)
      requires forall i :: Outside(others(i))
      modifies this`s, this`clock, this`run
      ensures Valid() && s.started && s.trace == old(s.trace) && clock >= old(clock)
      ensures s.phase == Killed || (s.phase == old(s.phase) && (s.open == {} || clock >= s.phase.deadline))
      ensures old(s.open) == {} ==> checks == 1 && s == old(s) && clock == old(clock)
      ensures checks <= drainMs / 100 + 2
    {
      checks := 1;
      WaitsForOpenRequests(drainMs, run, clock);
      while s.phase != Killed && KeepsWaiting(s, clock)
        invariant Valid() && s.started && s.trace == old(s.trace)
        invariant s.phase == old(s.phase) || s.phase == Killed
        invariant clock >= old(clock) + POLL_MS * (checks - 1)
        invariant checks == 1 || POLL_MS * (checks - 2) < drainMs
        invariant checks == 1 ==> s == old(s) && clock == old(clock)
        invariant checks > 1 ==> old(s.open) != {}
        decreases old(clock) + drainMs - clock
      {
        Sleep(POLL_MS, others(checks));
        checks := checks + 1;
      }
      if s.phase != Killed {
        WaitsForOpenRequests(drainMs, run, clock);
      }
    }

    /** A signal starts the body: draining, then the readiness grace. */
    method StartDraining(signal: Signal, others: seq<Event>)
      requires Valid() && Alive(s) && signal !in s.handled && !s.started && Outside(others)
      modifies this`s, this`clock, this`run
      ensures Valid() && s.started && s.trace == AFTER_SIGNAL && (s.phase == Grace || s.phase == Killed)
      ensures clock >= old(clock) + readinessGraceMs
    {
      ReachKeeps(INITIAL, drainMs, run);
      s := s.(handled := s.handled + {signal}, started := true);
      s := s.(draining := true, phase := Grace, trace := s.trace + [DrainingStarted]);
      Happened(Arrives(signal));
      Sleep(readinessGraceMs, others);
    }

    /** From the closing of the server to the end of the process, or to its end by a signal. */
    method DrainAndExit(others: nat -> seq<Event>) returns (checks: nat)
      requires Valid() && s.phase == Grace && s.started && s.trace == AFTER_SIGNAL
      requires forall i :: Outside(others(i))
      modifies this`s, this`clock, this`run
      ensures Valid() && (s.phase == Gone || s.phase == Killed) && checks <= drainMs / 100 + 2
      ensures ConnectionsForced in s.trace ==> clock >= old(clock) + drainMs
    {
      s := CloseServer(s, clock, drainMs);
      Happened(GraceOver(clock));
      checks := WaitForRequests(others);
      if s.phase == Killed {
        return;
      }
      WaitsForOpenRequests(drainMs, run, clock);
      s := EndDrain(s);
      Happened(Poll(clock));
      s := Exit(s);
      Happened(ResourcesClosed);
    }

    /** The handler of a signal's first arrival, with the whole body: unless a signal arrives again, it
        ends after at most one check per poll interval of the drain period and one more, having done
        everything once; when the body has started before, it does nothing. */
    method Shutdown(signal: Signal, others: nat -> seq<Event>) returns (checks: nat)
      requires Valid() && Alive(s) && signal !in s.handled
      requires forall i :: Outside(others(i))
      modifies this`s, this`clock, this`run
      ensures Valid()
      ensures old(s.started) ==> s == old(s).(handled := old(s.handled) + {signal}) && clock == old(clock) && checks == 0
      ensures !old(s.started) ==> (s.phase == Gone || s.phase == Killed) && checks <= drainMs / 100 + 2
      ensures !old(s.started) && ConnectionsForced in s.trace ==> clock >= old(clock) + readinessGraceMs + drainMs
    {
      checks := 0;
      if s.started {
        s := s.(handled := s.handled + {signal});
        Happened(Arrives(signal));
        return;
      }
      StartDraining(signal, others(0));
      if s.phase != Killed {
        checks := DrainAndExit(others);
      }
    }
  }
}
