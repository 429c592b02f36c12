/** The SMS worker's loops (sms-worker.ts): one queue batch at a time, backoff after failures, shutdown. */
module SmsWorker {
  import opened Wrappers

  const MAX_BACKOFF_MS: int := 60000
  const SHUTDOWN_WAIT_MS: int := 5000
  const POLL_MS: int := 100

  function Min(a: int, b: int): int { if a <= b then a else b }

  function Pow2(k: nat): nat { if k == 0 then 1 else 2 * Pow2(k - 1) }

  /** The delay after k consecutive failures. */
  function Backoff(base: nat, k: nat): int {
    if k == 0 then base else Min(MAX_BACKOFF_MS, base * Pow2(if k < 4 then k else 4))
  }

  /** The module's variables. queueTimer is the pending timeout and its delay, reconcilerTimer whether the
      interval is set; batches and sweeps count the calls in flight; started counts queue batches begun;
      outcomes lists how the finished ones ended. */
  datatype Worker = Worker(
    isRunningQueue: bool, isRunningReconciler: bool, isShuttingDown: bool,
    consecutiveFailures: nat, currentIntervalMs: int,
    queueTimer: Option<int>, reconcilerTimer: bool, deadline: int, exited: bool,
    batches: nat, sweeps: nat, started: nat, outcomes: seq<bool>)

  /** tickQueue up to its await. */
  function TickQueue(w: Worker): Worker {
    if w.isRunningQueue || w.isShuttingDown then w
    else w.(isRunningQueue := true, batches := w.batches + 1, started := w.started + 1)
  }

  /** tickQueue after the batch resolved or threw. */
  function QueueDone(base: nat, w: Worker, ok: bool): Worker
    requires w.batches > 0
  {
    var failures := if ok then 0 else w.consecutiveFailures + 1;
    var interval := if ok then base else Min(MAX_BACKOFF_MS, base * Pow2(if failures < 4 then failures else 4));
    w.(consecutiveFailures := failures, currentIntervalMs := interval, isRunningQueue := false,
       queueTimer := if w.isShuttingDown then w.queueTimer else Some(interval),
       batches := w.batches - 1, outcomes := w.outcomes + [ok])
  }

  function TickReconciler(w: Worker): Worker {
    if w.isRunningReconciler || w.isShuttingDown then w
    else w.(isRunningReconciler := true, sweeps := w.sweeps + 1)
  }

  function ReconcilerDone(w: Worker): Worker
    requires w.sweeps > 0
  {
    w.(isRunningReconciler := false, sweeps := w.sweeps - 1)
  }

  function BeginShutdown(w: Worker, now: int): Worker {
    if w.isShuttingDown then w
    else w.(isShuttingDown := true, queueTimer := None, reconcilerTimer := false, deadline := now + SHUTDOWN_WAIT_MS)
  }

  /** One check of the shutdown's wait loop; when it ends the pools close and the process exits. */
  function PollShutdown(w: Worker, now: int): Worker {
    if (w.isRunningQueue || w.isRunningReconciler) && now < w.deadline then w else w.(exited := true)
  }

  /** The worker as the module loads: both loops begin at once. */
  function Launch(base: nat): Worker {
    var idle := Worker(false, false, false, 0, base, None, false, 0, false, 0, 0, 0, []);
    TickReconciler(TickQueue(idle).(reconcilerTimer := true))
  }

  // ---------- Every run ----------

  datatype Event =
    | QueueTimerFires
    | QueueEnds(ok: bool)
    | ReconcilerTimerFires
    | ReconcilerEnds
    | Signal(now: int)
    | Poll(now: int)

  /** An event happens only when it can: a timer that is pending, a batch in flight, a process alive. */
  function Step(base: nat, w: Worker, e: Event): Worker {
    if w.exited then w else
    match e
    case QueueTimerFires => if w.queueTimer.Some? then TickQueue(w.(queueTimer := None)) else w
    case QueueEnds(ok) => if w.batches > 0 then QueueDone(base, w, ok) else w
    case ReconcilerTimerFires => if w.reconcilerTimer then TickReconciler(w) else w
    case ReconcilerEnds => if w.sweeps > 0 then ReconcilerDone(w) else w
    case Signal(now) => BeginShutdown(w, now)
    case Poll(now) => if w.isShuttingDown then PollShutdown(w, now) else w
  }

  function Reach(base: nat, w: Worker, events: seq<Event>): Worker
    decreases |events|
  {
    if events == [] then w else Reach(base, Step(base, w, events[0]), events[1..])
  }

  /** Failures since the last success. */
  function TrailingFailures(outcomes: seq<bool>): nat {
    if outcomes == [] || outcomes[|outcomes| - 1] then 0 else 1 + TrailingFailures(outcomes[..|outcomes| - 1])
  }

  predicate Invariant(base: nat, w: Worker) {
    && w.batches == (if w.isRunningQueue then 1 else 0)
    && w.sweeps == (if w.isRunningReconciler then 1 else 0)
    && w.started == |w.outcomes| + w.batches
    && (!w.isShuttingDown ==> (w.isRunningQueue <==> w.queueTimer.None?) && w.reconcilerTimer && !w.exited)
    && (w.isShuttingDown ==> w.queueTimer.None? && !w.reconcilerTimer)
    && w.consecutiveFailures == TrailingFailures(w.outcomes)
    && w.currentIntervalMs == Backoff(base, w.consecutiveFailures)
    && (w.queueTimer.Some? ==> w.queueTimer.value == w.currentIntervalMs)
  }

  lemma StepKeeps(base: nat, w: Worker, e: Event)
    requires Invariant(base, w)
    ensures Invariant(base, Step(base, w, e))
    ensures w.isShuttingDown ==> Step(base, w, e).isShuttingDown && Step(base, w, e).started == w.started
  {
    if e.QueueEnds? {
      assert (w.outcomes + [e.ok])[..|w.outcomes|] == w.outcomes;
    }
  }

  lemma {:induction false} ReachKeeps(base: nat, w: Worker, events: seq<Event>)
    requires Invariant(base, w)
    ensures Invariant(base, Reach(base, w, events))
    ensures w.isShuttingDown ==> Reach(base, w, events).isShuttingDown && Reach(base, w, events).started == w.started
    decreases |events|
  {
    if events != [] {
      StepKeeps(base, w, events[0]);
      ReachKeeps(base, Step(base, w, events[0]), events[1..]);
    }
  }

  /** In every run: at most one queue batch is in flight; until shutdown exactly one of "a batch is in
      flight" and "one timer is pending" holds, so the loop neither overlaps nor dies; the delay is the
      backoff of the failures since the last success. */
  lemma LoopIsAlive(base: nat, events: seq<Event>)
    ensures var w := Reach(base, Launch(base), events);
            && w.batches <= 1 && w.sweeps <= 1
            && (!w.isShuttingDown ==> (w.batches == 1 <==> w.queueTimer.None?))
            && (w.queueTimer.Some? ==> w.queueTimer == Some(Backoff(base, TrailingFailures(w.outcomes))))
            && w.started == |w.outcomes| + w.batches
  {
    ReachKeeps(base, Launch(base), events);
  }

  /** Once shutdown has begun no new batch starts and no timer is pending. */
  lemma NothingStartsAfterShutdown(base: nat, before: seq<Event>, after: seq<Event>)
    requires Reach(base, Launch(base), before).isShuttingDown
    ensures var w := Reach(base, Reach(base, Launch(base), before), after);
            w.started == Reach(base, Launch(base), before).started && w.queueTimer.None? && !w.reconcilerTimer
  {
    ReachKeeps(base, Launch(base), before);
    ReachKeeps(base, Reach(base, Launch(base), before), after);
  }

  /** The process exits only with nothing in flight, or at a check not before the deadline. */
  lemma ExitWaits(base: nat, events: seq<Event>, e: Event)
    requires var w := Reach(base, Launch(base), events); !w.exited && Step(base, w, e).exited
    ensures var w := Reach(base, Launch(base), events);
            && e.Poll? && w.isShuttingDown
            && ((w.batches == 0 && w.sweeps == 0) || e.now >= w.deadline)
  {
    ReachKeeps(base, Launch(base), events);
  }

  lemma {:induction false} Pow2Grows(k: nat)
    ensures Pow2(k) >= 1 && Pow2(k + 1) == 2 * Pow2(k)
  {
    if k > 0 {
      Pow2Grows(k - 1);
    }
  }

  /** Delays never shrink as failures go on, and never exceed a minute once there is one. */
  lemma BackoffGrowsInARun(base: nat, k: nat)
    requires k > 0
    ensures Backoff(base, k) <= Backoff(base, k + 1) <= MAX_BACKOFF_MS
  {
    if k < 4 {
      Pow2Grows(k);
      Times(base, Pow2(k));
    }
  }

  /** The delays in full: the configured interval, then 2, 4, 8 and 16 times it and no more, never above a
      minute once there is a failure. */
  lemma BackoffDoubles(base: nat, k: nat)
    ensures Backoff(base, 0) == base
    ensures Backoff(base, 1) == (if 2 * base <= 60000 then 2 * base else 60000)
    ensures Backoff(base, 2) == (if 4 * base <= 60000 then 4 * base else 60000)
    ensures Backoff(base, 3) == (if 8 * base <= 60000 then 8 * base else 60000)
    ensures k >= 4 ==> Backoff(base, k) == (if 16 * base <= 60000 then 16 * base else 60000)
  {
    assert Pow2(1) == 2 && Pow2(2) == 4 && Pow2(3) == 8 && Pow2(4) == 16;
  }

  lemma Times(base: nat, p: nat)
    ensures base * (2 * p) == 2 * (base * p) && (p >= 1 ==> base * p >= base)
  {
    if p >= 1 {
      assert base * p == base * (p - 1) + base;
    }
  }

  /** A failure never makes the worker poll sooner than a success would exactly when the configured
      interval is at most a minute. */
  lemma BackoffNeverBelowBase(base: nat)
    ensures (forall k: nat :: Backoff(base, k) >= base) <==> base <= MAX_BACKOFF_MS
  {
    if base <= MAX_BACKOFF_MS {
      forall k: nat ensures Backoff(base, k) >= base {
        var exponent := if k < 4 then k else 4;
        Pow2Grows(exponent);
        Times(base, Pow2(exponent));
      }
    } else {
      assert Backoff(base, 1) < base;
    }
  }

  /** What other turns of the event loop bring while the shutdown sleeps: timers, ends of calls, signals. */
  predicate Outside(events: seq<Event>) {
    forall e | e in events :: !e.Poll?
  }

  /** They start nothing, keep the deadline, and do not end the process. */
  lemma {:induction false} OutsideKeeps(base: nat, w: Worker, events: seq<Event>)
    requires Invariant(base, w) && w.isShuttingDown && !w.exited && Outside(events)
    ensures var w' := Reach(base, w, events);
            w'.isShuttingDown && !w'.exited && w'.deadline == w.deadline && w'.started == w.started
    decreases |events|
  {
    if events != [] {
      assert events[0] in events;
      StepKeeps(base, w, events[0]);
      OutsideKeeps(base, Step(base, w, events[0]), events[1..]);
    }
  }

  lemma {:induction false} ReachAppend(base: nat, w: Worker, a: seq<Event>, b: seq<Event>)
    ensures Reach(base, w, a + b) == Reach(base, Reach(base, w, a), b)
    decreases |a|
  {
    if a == [] {
      assert a + b == b;
    } else {
      assert (a + b)[0] == a[0] && (a + b)[1..] == a[1..] + b;
      ReachAppend(base, Step(base, w, a[0]), a[1..], b);
    }
  }

  // ---------- The module's functions ----------

  /** The module variables, changed by its functions. */
  class Process {
    const baseIntervalMs: nat
    var w: Worker
    var clock: int
    ghost var run: seq<Event>

    /** The variables are those some run of the worker reaches, so all of the above holds of them. */
    ghost predicate Valid()
      reads this
    {
      w == Reach(baseIntervalMs, Launch(baseIntervalMs), run)
    }

    constructor (base: nat, now: int)
      ensures clock == now && baseIntervalMs == base && Valid() && w == Launch(base) && run == []
    {
      baseIntervalMs, clock := base, now;
      w := Worker(false, false, false, 0, base, None, false, 0, false, 0, 0, 0, []);
      run := [];
      new;
      Tick();
      w := w.(reconcilerTimer := true);
      Sweep();
    }

    ghost method Happened(e: Event)
      requires w == Step(baseIntervalMs, Reach(baseIntervalMs, Launch(baseIntervalMs), run), e)
      modifies this`run
      ensures Valid() && run == old(run) + [e]
    {
      ReachAppend(baseIntervalMs, Launch(baseIntervalMs), run, [e]);
      assert [e][1..] == [];
      run := run + [e];
    }

    /** tickQueue up to its await. */
    method Tick()
      modifies this`w
      ensures w == TickQueue(old(w))
    {
      if w.isRunningQueue || w.isShuttingDown {
        return;
      }
      w := w.(isRunningQueue := true);
      w := w.(batches := w.batches + 1, started := w.started + 1);
    }

    /** A pending timer always begins the next batch: none is in flight and the shutdown has not begun. */
    method OnQueueTimer()
      requires Valid() && !w.exited && w.queueTimer.Some?
      modifies this`w, this`run
      ensures Valid() && run == old(run) + [QueueTimerFires]
      ensures w.batches == 1 && w.queueTimer.None? && !w.isShuttingDown && w.started == old(w.started) + 1
      ensures w.outcomes == old(w.outcomes) && w.currentIntervalMs == old(w.currentIntervalMs)
    {
      ReachKeeps(baseIntervalMs, Launch(baseIntervalMs), run);
      w := w.(queueTimer := None);
      Tick();
      Happened(QueueTimerFires);
    }

    /** The rest of tickQueue: unless the shutdown began, exactly one timer is pending, with the backoff of
        the failures since the last success. */
    method BatchEnded(ok: bool)
      requires Valid() && !w.exited && w.batches > 0
      modifies this`w, this`run
      ensures Valid() && run == old(run) + [QueueEnds(ok)]
      ensures w.batches == 0 && w.outcomes == old(w.outcomes) + [ok] && w.started == old(w.started)
      ensures w.queueTimer == if old(w.isShuttingDown) then None else Some(Backoff(baseIntervalMs, TrailingFailures(w.outcomes)))
    {
      ReachKeeps(baseIntervalMs, Launch(baseIntervalMs), run);
      StepKeeps(baseIntervalMs, w, QueueEnds(ok));
      w := w.(batches := w.batches - 1, outcomes := w.outcomes + [ok]);
      if ok {
        w := w.(consecutiveFailures := 0);
        w := w.(currentIntervalMs := baseIntervalMs);
      } else {
        w := w.(consecutiveFailures := w.consecutiveFailures + 1);
        var exponent := if w.consecutiveFailures < 4 then w.consecutiveFailures else 4;
        w := w.(currentIntervalMs := Min(MAX_BACKOFF_MS, baseIntervalMs * Pow2(exponent)));
      }
      w := w.(isRunningQueue := false);
      if !w.isShuttingDown {
        w := w.(queueTimer := Some(w.currentIntervalMs));
      }
      Happened(QueueEnds(ok));
    }

    /** tickReconciler up to its await. */
    method Sweep()
      modifies this`w
      ensures w == TickReconciler(old(w))
    {
      if w.isRunningReconciler || w.isShuttingDown {
        return;
      }
      w := w.(isRunningReconciler := true, sweeps := w.sweeps + 1);
    }

    /** The interval never lets two sweeps overlap, and leaves the queue alone. */
    method OnReconcilerTimer()
      requires Valid() && !w.exited && w.reconcilerTimer
      modifies this`w, this`run
      ensures Valid() && run == old(run) + [ReconcilerTimerFires]
      ensures w.sweeps == 1 && w.batches == old(w.batches) && w.queueTimer == old(w.queueTimer) && w.outcomes == old(w.outcomes)
    {
      ReachKeeps(baseIntervalMs, Launch(baseIntervalMs), run);
      Sweep();
      Happened(ReconcilerTimerFires);
    }

    /** The rest of tickReconciler: the next interval may start a sweep again, unless the shutdown began. */
    method SweepEnded()
      requires Valid() && !w.exited && w.sweeps > 0
      modifies this`w, this`run
      ensures Valid() && run == old(run) + [ReconcilerEnds]
      ensures w.sweeps == 0 && !w.isRunningReconciler && w.reconcilerTimer == !w.isShuttingDown
      ensures w.batches == old(w.batches) && w.queueTimer == old(w.queueTimer) && w.outcomes == old(w.outcomes)
    {
      ReachKeeps(baseIntervalMs, Launch(baseIntervalMs), run);
      w := w.(sweeps := w.sweeps - 1, isRunningReconciler := false);
      Happened(ReconcilerEnds);
    }

    /** From here on no timer is pending, and nothing in flight is touched. */
    method BeginStopping()
      requires Valid() && !w.exited && !w.isShuttingDown
      modifies this`w, this`run
      ensures Valid() && run == old(run) + [Signal(clock)]
      ensures w.isShuttingDown && !w.exited && w.queueTimer.None? && !w.reconcilerTimer
      ensures w.started == old(w.started) && w.batches == old(w.batches) && w.sweeps == old(w.sweeps)
      ensures w.deadline == clock + SHUTDOWN_WAIT_MS
    {
      w := w.(isShuttingDown := true);
      w := w.(queueTimer := None);
      w := w.(reconcilerTimer := false);
      w := w.(deadline := clock + SHUTDOWN_WAIT_MS);
      Happened(Signal(clock));
    }

    /** A sleep lasts at least that long, and the others have their turns meanwhile. */
    method Sleep(ms: nat, others: seq<Event>)
      requires Valid() && w.isShuttingDown && !w.exited && Outside(others)
      modifies this`w, this`clock, this`run
      ensures Valid() && run == old(run) + others && clock >= old(clock) + ms
      ensures w.isShuttingDown && !w.exited && w.deadline == old(w.deadline) && w.started == old(w.started)
    {
      ReachKeeps(baseIntervalMs, Launch(baseIntervalMs), run);
      OutsideKeeps(baseIntervalMs, w, others);
      ReachAppend(baseIntervalMs, Launch(baseIntervalMs), run, others);
      w := Reach(baseIntervalMs, w, others);
      run := run + others;
      clock := clock + ms;
    }

    /** The wait for calls in flight, one check per poll interval: it ends with none running or at the
        deadline. */
    method WaitForCalls(others: nat -> seq<Event>) returns (checks: nat)
      requires Valid() && w.isShuttingDown && !w.exited && w.deadline == clock + SHUTDOWN_WAIT_MS
      requires forall i :: Outside(others(i))
      modifies this`w, this`clock, this`run
      ensures Valid() && w.isShuttingDown && !w.exited && w.deadline == old(w.deadline) && w.started == old(w.started)
      ensures (!w.isRunningQueue && !w.isRunningReconciler) || clock >= w.deadline
      ensures checks <= 51 && (checks == 1 ==> w == old(w) && clock == old(clock))
    {
      checks := 1;
      while (w.isRunningQueue || w.isRunningReconciler) && clock < w.deadline
        invariant Valid() && w.isShuttingDown && !w.exited && w.deadline == old(w.deadline) && w.started == old(w.started)
        invariant clock >= old(clock) + POLL_MS * (checks - 1)
        invariant checks == 1 || POLL_MS * (checks - 2) < SHUTDOWN_WAIT_MS
        invariant checks == 1 ==> w == old(w) && clock == old(clock)
        decreases w.deadline - clock
      {
        Sleep(POLL_MS, others(checks));
        checks := checks + 1;
      }
    }

    /** The whole shutdown: whatever happens during its sleeps it exits, after a bounded number of checks,
        with nothing in flight or its five seconds over, and nothing new was started; when it has begun
        before, it does nothing. */
    method Shutdown(others: nat -> seq<Event>) returns (checks: nat)
      requires Valid() && !w.exited
      requires forall i :: Outside(others(i))
      modifies this`w, this`clock, this`run
      ensures Valid() && w.started == old(w.started) && w.isShuttingDown
      ensures old(w.isShuttingDown) ==> w == old(w) && clock == old(clock) && checks == 0
      ensures !old(w.isShuttingDown) ==>
                && w.exited && w.queueTimer.None? && !w.reconcilerTimer
                && checks <= 51
                && ((w.batches == 0 && w.sweeps == 0) || clock >= old(clock) + 5000)
    {
      checks := 0;
      if w.isShuttingDown {
        Happened(Signal(clock));
        return;
      }
      BeginStopping();
      checks := WaitForCalls(others);
      ReachKeeps(baseIntervalMs, Launch(baseIntervalMs), run);
      w := w.(exited := true);
      Happened(Poll(clock));
    }
  }
}
