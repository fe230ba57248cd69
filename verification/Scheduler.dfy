/**
 * The loop scheduler of the worker: jobs on interval timers, ticks that may overlap, and a stop that
 * waits for the ticks in flight, but no longer than a grace period. The event loop's side, which timers
 * are live and which callback runs next, is part of the state; the clock is given with each event.
 */
module Scheduler {
  import opened Wrappers
  import opened Basics

  datatype Job = Job(name: string, intervalMs: int)

  datatype Outcome = Returned(result: string) | Threw(error: string)

  datatype Snapshot = Snapshot(
    lastStartedAt: Option<int>, lastResult: Option<string>, lastError: Option<string>, lastFinishedAt: Option<int>)

  /** A stop that has not resolved: the ticks it waits for, and until when at most. */
  datatype Waiter = Waiter(awaited: set<nat>, deadline: int)

  datatype State = State(
    jobs: seq<Job>,
    timers: seq<nat>,
    running: bool,
    inFlight: map<nat, string>,
    snapshots: map<string, Snapshot>,
    live: map<nat, Job>,
    ticks: nat,
    stops: nat,
    waiting: map<nat, Waiter>)

  datatype Event =
    | Register(job: Job)
    | Start
    | Fire(timer: nat, now: int)
    | Settle(tick: nat, outcome: Outcome, now: int)
    | Stop(now: int)
    | Resolve(stop: nat, now: int)

  const INITIAL := State([], [], false, map[], map[], map[], 0, 0, map[])

  function SnapshotFor(snapshots: map<string, Snapshot>, name: string): Snapshot {
    if name in snapshots then snapshots[name] else Snapshot(None, None, None, None)
  }

  function Finished(before: Snapshot, outcome: Outcome, now: int): Snapshot {
    match outcome
    case Returned(result) => before.(lastResult := Some(result), lastFinishedAt := Some(now))
    case Threw(error) => before.(lastError := Some(error), lastFinishedAt := Some(now))
  }

  function Numbers(first: nat, n: nat): seq<nat> {
    seq(n, i requires 0 <= i < n => first + i)
  }

  function Grace(graceMs: int): nat {
    if graceMs < 0 then 0 else graceMs
  }

  /** One timer for each job, numbered from `first` on. */
  function Armed(first: nat, jobs: seq<Job>): (live: map<nat, Job>)
    ensures forall t: nat :: t in live <==> first <= t < first + |jobs|
    ensures forall t <- live :: live[t] == jobs[t - first]
  {
    if jobs == [] then map[]
    else
      var k := |jobs| - 1;
      Armed(first, jobs[..k])[first + k := jobs[k]]
  }

  /** What the event loop can do next. A cleared timer no longer fires. */
  predicate Enabled(s: State, e: Event) {
    match e
    case Fire(timer, _) => timer in s.live
    case Settle(tick, _, _) => tick in s.inFlight
    case Resolve(stop, now) =>
      stop in s.waiting && (s.waiting[stop].awaited !! s.inFlight.Keys || s.waiting[stop].deadline <= now)
    case _ => true
  }

  function Step(s: State, e: Event, graceMs: int): State
    requires Enabled(s, e)
  {
    match e
    case Register(job) => s.(jobs := s.jobs + [job])
    case Start =>
      if s.running then s
      else s.(running := true,
              timers := s.timers + Numbers(|s.timers|, |s.jobs|),
              live := s.live + Armed(|s.timers|, s.jobs))
    case Fire(timer, now) =>
      if !s.running then s
      else
        var name := s.live[timer].name;
        s.(ticks := s.ticks + 1,
           inFlight := s.inFlight[s.ticks := name],
           snapshots := s.snapshots[name := SnapshotFor(s.snapshots, name).(lastStartedAt := Some(now))])
    case Settle(tick, outcome, now) =>
      var name := s.inFlight[tick];
      s.(inFlight := s.inFlight - {tick},
         snapshots := s.snapshots[name := Finished(SnapshotFor(s.snapshots, name), outcome, now)])
    case Stop(now) =>
      s.(running := false,
         live := s.live - (set t <- s.timers),
         stops := s.stops + 1,
         waiting := s.waiting[s.stops := Waiter(s.inFlight.Keys, now + Grace(graceMs))])
    case Resolve(stop, _) => s.(waiting := s.waiting - {stop})
  }

  /** The state after a run; None if an event could not happen. */
  function After(events: seq<Event>, graceMs: int): Option<State>
    decreases |events|
  {
    if events == [] then Some(INITIAL)
    else
      var k := |events| - 1;
      var s :- After(events[..k], graceMs);
      if Enabled(s, events[k]) then Some(Step(s, events[k], graceMs)) else None
  }

  // ----- What a run says by itself -----

  function Registered(events: seq<Event>): seq<Job> {
    if events == [] then []
    else
      var k := |events| - 1;
      Registered(events[..k]) + (if events[k].Register? then [events[k].job] else [])
  }

  /** The last of start and stop was a start. */
  predicate Started(events: seq<Event>) {
    events != []
    && (var k := |events| - 1; events[k].Start? || (!events[k].Stop? && Started(events[..k])))
  }

  /** The jobs registered when the scheduler last went from stopped to running. */
  function AtLastStart(events: seq<Event>): seq<Job> {
    if events == [] then []
    else
      var k := |events| - 1;
      if events[k].Start? && !Started(events[..k]) then Registered(events[..k]) else AtLastStart(events[..k])
  }

  function Fires(events: seq<Event>): nat {
    if events == [] then 0
    else
      var k := |events| - 1;
      Fires(events[..k]) + if events[k].Fire? then 1 else 0
  }

  function Settled(events: seq<Event>): set<nat> {
    set e <- events | e.Settle? :: e.tick
  }

  function Stops(events: seq<Event>): nat {
    if events == [] then 0
    else
      var k := |events| - 1;
      Stops(events[..k]) + if events[k].Stop? then 1 else 0
  }

  function Resolved(events: seq<Event>): set<nat> {
    set e <- events | e.Resolve? :: e.stop
  }

  /** The run up to its stop number n. */
  function BeforeStop(events: seq<Event>, n: nat): (before: seq<Event>)
    requires n < Stops(events)
    ensures |before| < |events| && before == events[..|before|] && events[|before|].Stop? && Stops(before) == n
  {
    var k := |events| - 1;
    if n == Stops(events[..k]) then events[..k] else BeforeStop(events[..k], n)
  }

  function StopTime(events: seq<Event>, n: nat): int
    requires n < Stops(events)
  {
    events[|BeforeStop(events, n)|].now
  }

  // ----- What every run keeps -----

  predicate TimersMatch(s: State, events: seq<Event>) {
    s.timers == Numbers(0, |s.timers|) && s.running == Started(events) && s.jobs == Registered(events)
    && |AtLastStart(events)| <= |s.timers|
    && s.live == if s.running then Armed(|s.timers| - |AtLastStart(events)|, AtLastStart(events)) else map[]
  }

  ghost predicate TicksMatch(s: State, events: seq<Event>) {
    s.ticks == Fires(events)
    && (forall t: nat :: t in s.inFlight <==> t < s.ticks && t !in Settled(events))
    && (forall t <- Settled(events) :: t < s.ticks)
  }

  /** The stops that wait are those called and not resolved. */
  ghost predicate WaitingMatches(s: State, events: seq<Event>) {
    s.stops == Stops(events) && (forall n <- Resolved(events) :: n < Stops(events))
    && forall n: nat :: n in s.waiting <==> n < Stops(events) && n !in Resolved(events)
  }

  predicate StopsMatch(s: State, events: seq<Event>, graceMs: int) {
    s.stops == Stops(events)
    && forall n <- s.waiting ::
      n < s.stops && (
      var then' := After(BeforeStop(events, n), graceMs);
      then'.Some? && s.waiting[n] == Waiter(then'.value.inFlight.Keys, StopTime(events, n) + Grace(graceMs)))
  }

  lemma NothingYet(graceMs: int)
    ensures TimersMatch(INITIAL, []) && TicksMatch(INITIAL, []) && StopsMatch(INITIAL, [], graceMs)
    ensures WaitingMatches(INITIAL, [])
  {
  }

  lemma StepKeepsTimers(s: State, events: seq<Event>, e: Event, graceMs: int)
    requires TimersMatch(s, events) && Enabled(s, e)
    ensures TimersMatch(Step(s, e, graceMs), events + [e])
  {
    if e.Start? {
      StartKeepsTimers(s, events, graceMs);
    } else if e.Stop? {
      StopClearsTimers(s, events);
    }
    assert (events + [e])[..|events|] == events;
  }

  lemma StartKeepsTimers(s: State, events: seq<Event>, graceMs: int)
    requires TimersMatch(s, events)
    ensures TimersMatch(Step(s, Start, graceMs), events + [Start])
  {
    assert (events + [Start])[..|events|] == events;
    assert Numbers(0, |s.timers|) + Numbers(|s.timers|, |s.jobs|) == Numbers(0, |s.timers| + |s.jobs|);
  }

  /** All live timers are among those that a stop clears. */
  lemma StopClearsTimers(s: State, events: seq<Event>)
    requires TimersMatch(s, events)
    ensures s.live - (set t <- s.timers) == map[]
  {
    forall n | n in s.live ensures n in s.timers {
      assert s.timers[n] == n;
    }
  }

  lemma StepKeepsTicks(s: State, events: seq<Event>, e: Event, graceMs: int)
    requires TimersMatch(s, events) && TicksMatch(s, events) && Enabled(s, e)
    ensures TicksMatch(Step(s, e, graceMs), events + [e])
  {
    assert (events + [e])[..|events|] == events;
    assert Settled(events + [e]) == Settled(events) + if e.Settle? then {e.tick} else {};
  }

  lemma StepKeepsWaiting(s: State, events: seq<Event>, e: Event, graceMs: int)
    requires WaitingMatches(s, events) && Enabled(s, e)
    ensures WaitingMatches(Step(s, e, graceMs), events + [e])
  {
    assert (events + [e])[..|events|] == events;
    assert Resolved(events + [e]) == Resolved(events) + if e.Resolve? then {e.stop} else {};
  }

  lemma StepKeepsStops(s: State, events: seq<Event>, e: Event, graceMs: int)
    requires After(events, graceMs) == Some(s) && StopsMatch(s, events, graceMs) && Enabled(s, e)
    ensures StopsMatch(Step(s, e, graceMs), events + [e], graceMs)
  {
    assert (events + [e])[..|events|] == events;
    var t := Step(s, e, graceMs);
    forall n <- t.waiting
      ensures n < t.stops && (
        var then' := After(BeforeStop(events + [e], n), graceMs);
        then'.Some? && t.waiting[n] == Waiter(then'.value.inFlight.Keys, StopTime(events + [e], n) + Grace(graceMs)))
    {
      if n == s.stops {
        assert e.Stop? && BeforeStop(events + [e], n) == events;
      } else {
        assert n in s.waiting && BeforeStop(events + [e], n) == BeforeStop(events, n);
      }
    }
  }

  lemma {:induction false} EveryRun(events: seq<Event>, graceMs: int)
    requires After(events, graceMs).Some?
    ensures var s := After(events, graceMs).value;
            && TimersMatch(s, events) && TicksMatch(s, events)
            && StopsMatch(s, events, graceMs) && WaitingMatches(s, events)
    decreases |events|
  {
    if events == [] {
      NothingYet(graceMs);
    } else {
      var before, e := events[..|events| - 1], events[|events| - 1];
      assert events == before + [e];
      EveryRun(before, graceMs);
      var s := After(before, graceMs).value;
      StepKeepsTimers(s, before, e, graceMs);
      StepKeepsTicks(s, before, e, graceMs);
      StepKeepsWaiting(s, before, e, graceMs);
      StepKeepsStops(s, before, e, graceMs);
    }
  }

  /** Running, every job of the last start has exactly one live timer, and there is no other; stopped, none lives. */
  lemma OneTimerPerJob(events: seq<Event>, graceMs: int)
    requires After(events, graceMs).Some?
    ensures var live := After(events, graceMs).value.live;
            if Started(events) then exists first: nat :: OneEach(live, AtLastStart(events), first) else live == map[]
  {
    EveryRun(events, graceMs);
    TimersAreOneEach(After(events, graceMs).value, events);
  }

  lemma TimersAreOneEach(s: State, events: seq<Event>)
    requires TimersMatch(s, events)
    ensures if Started(events) then exists first: nat :: OneEach(s.live, AtLastStart(events), first)
            else s.live == map[]
  {
    ArmedIsOneEach(|s.timers| - |AtLastStart(events)|, AtLastStart(events));
  }

  lemma ArmedIsOneEach(first: nat, jobs: seq<Job>)
    ensures OneEach(Armed(first, jobs), jobs, first)
  {
  }

  /** Job i has the timer number first + i, and there is no other timer. */
  ghost predicate OneEach(live: map<nat, Job>, jobs: seq<Job>, first: nat) {
    (forall t: nat :: t in live <==> first <= t < first + |jobs|)
    && forall t <- live :: live[t] == jobs[t - first]
  }

  lemma OneEachIsArmed(live: map<nat, Job>, jobs: seq<Job>, first: nat)
    requires OneEach(live, jobs, first)
    ensures live == Armed(first, jobs)
  {
  }

  lemma UpdateRight<K, V>(m: map<K, V>, n: map<K, V>, k: K, v: V)
    ensures (m + n)[k := v] == m + n[k := v]
  {
  }

  /** No timer fires while the scheduler is stopped: the callback's own check is never needed. */
  lemma NoTickWhileStopped(events: seq<Event>, graceMs: int, timer: nat, now: int)
    requires After(events + [Fire(timer, now)], graceMs).Some?
    ensures Started(events)
    ensures var begun := After(events + [Fire(timer, now)], graceMs).value.inFlight;
            Fires(events) in begun && exists job <- AtLastStart(events) :: begun[Fires(events)] == job.name
  {
    var all := events + [Fire(timer, now)];
    assert all[..|events|] == events;
    EveryRun(events, graceMs);
    var s := After(events, graceMs).value;
    assert timer in s.live;
    assert AtLastStart(events)[timer - (|s.timers| - |AtLastStart(events)|)] == s.live[timer];
  }

  /** Ticks in flight are those begun and not settled; each settles at most once. */
  lemma InFlightExactly(events: seq<Event>, graceMs: int)
    requires After(events, graceMs).Some?
    ensures After(events, graceMs).value.inFlight.Keys == Below(Fires(events)) - Settled(events)
    ensures |After(events, graceMs).value.inFlight.Keys| + |Settled(events)| == Fires(events)
  {
    EveryRun(events, graceMs);
    var inFlight, settled := After(events, graceMs).value.inFlight.Keys, Settled(events);
    assert inFlight == Below(Fires(events)) - settled;
    assert Below(Fires(events)) == inFlight + settled;
  }

  /**
   * A stop that has been called and not resolved can resolve at any time exactly if all ticks begun before
   * it have settled, or the grace period is over.
   */
  lemma ResolvesIff(events: seq<Event>, graceMs: int, n: nat, now: int)
    requires After(events, graceMs).Some? && n < Stops(events) && n !in Resolved(events)
    ensures After(events + [Resolve(n, now)], graceMs).Some?
       <==> (forall tick: nat | tick < Fires(BeforeStop(events, n)) :: tick in Settled(events))
            || (StopTime(events, n) <= now && StopTime(events, n) + graceMs <= now)
  {
    var all := events + [Resolve(n, now)];
    assert all[..|events|] == events;
    EveryRun(events, graceMs);
    var s, before := After(events, graceMs).value, BeforeStop(events, n);
    EveryRun(before, graceMs);
    PrefixSettled(events, n);
    var awaited := s.waiting[n].awaited;
    assert forall tick: nat | tick < Fires(before) && tick !in Settled(events) ::
      tick in awaited && tick in s.inFlight;
    assert forall tick <- awaited :: tick < Fires(before);
  }

  /** So within its grace period a stop resolves only when every tick begun before it has settled. */
  lemma StopWaits(events: seq<Event>, graceMs: int, n: nat, now: int, tick: nat)
    requires After(events + [Resolve(n, now)], graceMs).Some?
    ensures n < Stops(events) && n !in Resolved(events)
    ensures now < StopTime(events, n) + graceMs && tick < Fires(BeforeStop(events, n)) ==> tick in Settled(events)
  {
    assert (events + [Resolve(n, now)])[..|events|] == events;
    EveryRun(events, graceMs);
    ResolvesIff(events, graceMs, n, now);
  }

  lemma {:induction false} PrefixSettled(events: seq<Event>, n: nat)
    requires n < Stops(events)
    ensures Settled(BeforeStop(events, n)) <= Settled(events)
    ensures Fires(BeforeStop(events, n)) <= Fires(events)
    decreases |events|
  {
    var k := |events| - 1;
    assert Settled(events[..k]) <= Settled(events);
    if n != Stops(events[..k]) {
      PrefixSettled(events[..k], n);
    }
  }

  /** A second start changes nothing, and start after stop arms all jobs registered by then. */
  lemma StartIsIdempotent(s: State, graceMs: int)
    ensures Step(Step(s, Start, graceMs), Start, graceMs) == Step(s, Start, graceMs)
  {
  }

  // ----- Snapshots -----

  /** The outcome of the latest tick of that name to end that way: failing, or not. */
  function Latest(events: seq<Event>, graceMs: int, name: string, failed: bool): Option<string>
    requires After(events, graceMs).Some?
    decreases |events|
  {
    if events == [] then None
    else
      var k := |events| - 1;
      var e := events[k];
      if e.Settle? && e.outcome.Threw? == failed && After(events[..k], graceMs).value.inFlight[e.tick] == name then
        Some(match e.outcome case Returned(result) => result case Threw(error) => error)
      else Latest(events[..k], graceMs, name, failed)
  }

  /**
   * A snapshot shows the latest error and the latest result, each until the next of its own kind: a failing
   * tick leaves the result of an earlier one in place.
   */
  lemma {:induction false} SnapshotsStick(events: seq<Event>, graceMs: int, name: string)
    requires After(events, graceMs).Some?
    ensures var shown := SnapshotFor(After(events, graceMs).value.snapshots, name);
            shown.lastResult == Latest(events, graceMs, name, false)
            && shown.lastError == Latest(events, graceMs, name, true)
    decreases |events|
  {
    if events != [] {
      SnapshotsStick(events[..|events| - 1], graceMs, name);
    }
  }

  /** When the latest tick of that name began. */
  function LastBegun(events: seq<Event>, graceMs: int, name: string): Option<int>
    requires After(events, graceMs).Some?
    decreases |events|
  {
    if events == [] then None
    else
      var k := |events| - 1;
      var e := events[k];
      if e.Fire? && After(events[..k], graceMs).value.live[e.timer].name == name then Some(e.now)
      else LastBegun(events[..k], graceMs, name)
  }

  /** When the latest tick of that name to settle did so. */
  function LastSettled(events: seq<Event>, graceMs: int, name: string): Option<int>
    requires After(events, graceMs).Some?
    decreases |events|
  {
    if events == [] then None
    else
      var k := |events| - 1;
      var e := events[k];
      if e.Settle? && After(events[..k], graceMs).value.inFlight[e.tick] == name then Some(e.now)
      else LastSettled(events[..k], graceMs, name)
  }

  /** What one event does to the snapshot shown for a name. */
  lemma StepShows(s: State, e: Event, graceMs: int, name: string)
    requires Enabled(s, e) && (e.Fire? ==> s.running)
    ensures var old', new' := SnapshotFor(s.snapshots, name), SnapshotFor(Step(s, e, graceMs).snapshots, name);
            && new'.lastStartedAt
               == (if e.Fire? && s.live[e.timer].name == name then Some(e.now) else old'.lastStartedAt)
            && new'.lastFinishedAt
               == (if e.Settle? && s.inFlight[e.tick] == name then Some(e.now) else old'.lastFinishedAt)
  {
  }

  lemma FiresRunning(events: seq<Event>, graceMs: int)
    requires After(events, graceMs).Some?
    ensures var s := After(events, graceMs).value; s.live != map[] ==> s.running
  {
    EveryRun(events, graceMs);
  }

  /** The times shown are those of the latest begin and the latest settlement, not always of one tick. */
  lemma {:induction false} SnapshotTimes(events: seq<Event>, graceMs: int, name: string)
    requires After(events, graceMs).Some?
    ensures var shown := SnapshotFor(After(events, graceMs).value.snapshots, name);
            shown.lastStartedAt == LastBegun(events, graceMs, name)
            && shown.lastFinishedAt == LastSettled(events, graceMs, name)
    decreases |events|
  {
    if events != [] {
      var before, e := events[..|events| - 1], events[|events| - 1];
      SnapshotTimes(before, graceMs, name);
      FiresRunning(before, graceMs);
      StepShows(After(before, graceMs).value, e, graceMs, name);
    }
  }

  /** Every tick in flight has a snapshot for its name. */
  ghost predicate InFlightShown(s: State) {
    forall t <- s.inFlight :: s.inFlight[t] in s.snapshots
  }

  lemma StepKeepsShown(s: State, e: Event, graceMs: int, name: string)
    requires Enabled(s, e) && (e.Fire? ==> s.running) && InFlightShown(s)
    ensures InFlightShown(Step(s, e, graceMs))
    ensures name in Step(s, e, graceMs).snapshots
       <==> name in s.snapshots || (e.Fire? && s.live[e.timer].name == name)
  {
  }

  /** A name has a snapshot exactly once a tick of it has begun. */
  lemma {:induction false} SnapshotExists(events: seq<Event>, graceMs: int, name: string)
    requires After(events, graceMs).Some?
    ensures InFlightShown(After(events, graceMs).value)
    ensures name in After(events, graceMs).value.snapshots <==> LastBegun(events, graceMs, name).Some?
    decreases |events|
  {
    if events != [] {
      var before, e := events[..|events| - 1], events[|events| - 1];
      SnapshotExists(before, graceMs, name);
      FiresRunning(before, graceMs);
      StepKeepsShown(After(before, graceMs).value, e, graceMs, name);
    }
  }

  lemma AfterOneMore(events: seq<Event>, graceMs: int, e: Event)
    requires After(events, graceMs).Some? && Enabled(After(events, graceMs).value, e)
    ensures After(events + [e], graceMs) == Some(Step(After(events, graceMs).value, e, graceMs))
  {
    assert (events + [e])[..|events|] == events;
  }

  /** A run that ends with a failing tick and shows the result of the tick before it. */
  lemma StaleResultIsShown(job: Job, result: string, error: string, graceMs: int) returns (events: seq<Event>)
    ensures After(events, graceMs).Some? && events != [] && events[|events| - 1] == Settle(1, Threw(error), 4)
    ensures var shown := SnapshotFor(After(events, graceMs).value.snapshots, job.name);
            shown.lastResult == Some(result) && shown.lastError == Some(error) && shown.lastFinishedAt == Some(4)
  {
    events := OneTickDone(job, result, graceMs);
    AfterOneMore(events, graceMs, Fire(0, 3));
    events := events + [Fire(0, 3)];
    AfterOneMore(events, graceMs, Settle(1, Threw(error), 4));
    events := events + [Settle(1, Threw(error), 4)];
  }

  lemma OneTickDone(job: Job, result: string, graceMs: int) returns (events: seq<Event>)
    ensures After(events, graceMs).Some?
    ensures var s := After(events, graceMs).value;
            && s.running && s.live == map[0 := job] && s.ticks == 1 && s.inFlight == map[]
            && s.snapshots == map[job.name := Snapshot(Some(1), Some(result), None, Some(2))]
  {
    events := [];
    AfterOneMore(events, graceMs, Register(job));
    events := events + [Register(job)];
    AfterOneMore(events, graceMs, Start);
    events := events + [Start];
    assert Armed(0, [job]) == map[0 := job];
    AfterOneMore(events, graceMs, Fire(0, 1));
    events := events + [Fire(0, 1)];
    AfterOneMore(events, graceMs, Settle(0, Returned(result), 2));
    events := events + [Settle(0, Returned(result), 2)];
  }

  // ----- The code -----

  class LoopScheduler {
    const graceMs: int
    var jobs: seq<Job>
    var timers: seq<nat>
    var running: bool
    var inFlight: map<nat, string>
    var snapshots: map<string, Snapshot>
    // the event loop's side
    var live: map<nat, Job>
    var ticks: nat
    var stops: nat
    var waiting: map<nat, Waiter>

    function Now(): State
      reads this
    {
      State(jobs, timers, running, inFlight, snapshots, live, ticks, stops, waiting)
    }

    constructor (graceMs: int)
      ensures this.graceMs == graceMs && Now() == INITIAL
    {
      this.graceMs := graceMs;
      jobs, timers, running, inFlight, snapshots := [], [], false, map[], map[];
      live, ticks, stops, waiting := map[], 0, 0, map[];
    }

    method RegisterJob(job: Job)
      modifies this
      ensures Now() == Step(old(Now()), Register(job), graceMs)
    {
      jobs := jobs + [job];
    }

    method StartAll()
      modifies this
      ensures Now() == Step(old(Now()), Start, graceMs)
    {
      if running {
        return;
      }
      running := true;
      ArmAll();
    }

    /** One new timer for each job; timers are numbered as they are made. */
    method ArmAll()
      modifies `timers, `live
      ensures timers == old(timers) + Numbers(|old(timers)|, |jobs|)
      ensures live == old(live) + Armed(|old(timers)|, jobs)
    {
      ghost var first, armed: map<nat, Job> := |timers|, map[];
      for i := 0 to |jobs|
        invariant |timers| == first + i && timers[..first] == old(timers)
        invariant forall k | first <= k < first + i :: timers[k] == k
        invariant live == old(live) + armed && OneEach(armed, jobs[..i], first)
      {
        var timer := |timers|;
        UpdateRight(old(live), armed, timer, jobs[i]);
        armed := armed[timer := jobs[i]];
        live := live[timer := jobs[i]];
        timers := timers + [timer];
      }
      assert jobs[..|jobs|] == jobs;
      OneEachIsArmed(armed, jobs, first);
    }

    method OnTimer(timer: nat, now: int)
      requires Enabled(Now(), Fire(timer, now))
      modifies this
      ensures Now() == Step(old(Now()), Fire(timer, now), graceMs)
    {
      if !running {
        return;
      }
      var name := live[timer].name;
      var snapshot := SnapshotFor(snapshots, name);
      snapshots := snapshots[name := snapshot.(lastStartedAt := Some(now))];
      inFlight := inFlight[ticks := name];
      ticks := ticks + 1;
    }

    method OnSettled(tick: nat, outcome: Outcome, now: int)
      requires Enabled(Now(), Settle(tick, outcome, now))
      modifies this
      ensures Now() == Step(old(Now()), Settle(tick, outcome, now), graceMs)
    {
      var name := inFlight[tick];
      var snapshot := SnapshotFor(snapshots, name);
      match outcome {
        case Returned(result) => snapshot := snapshot.(lastResult := Some(result));
        case Threw(error) => snapshot := snapshot.(lastError := Some(error));
      }
      snapshots := snapshots[name := snapshot.(lastFinishedAt := Some(now))];
      inFlight := inFlight - {tick};
    }

    method StopAll(now: int) returns (stop: nat)
      modifies this
      ensures Now() == Step(old(Now()), Stop(now), graceMs)
      ensures stop == old(stops)
    {
      running := false;
      ghost var before := live;
      for i := 0 to |timers|
        modifies `live
        invariant live == before - (set t <- timers[..i])
      {
        live := live - {timers[i]};
        assert timers[..i + 1] == timers[..i] + [timers[i]];
      }
      assert timers[..|timers|] == timers;
      stop := stops;
      waiting := waiting[stop := Waiter(inFlight.Keys, now + Grace(graceMs))];
      stops := stops + 1;
    }

    /** The scheduler's part of the health report: a job that never ticked has no snapshot. */
    method Snapshots() returns (report: map<string, Option<Snapshot>>)
      ensures forall name :: name in report <==> exists job <- jobs :: job.name == name
      ensures forall name <- report ::
        report[name] == if name in snapshots then Some(snapshots[name]) else None
    {
      report := map[];
      for i := 0 to |jobs|
        invariant forall name :: name in report <==> exists job <- jobs[..i] :: job.name == name
        invariant forall name <- report ::
          report[name] == if name in snapshots then Some(snapshots[name]) else None
      {
        var name := jobs[i].name;
        report := report[name := if name in snapshots then Some(snapshots[name]) else None];
      }
    }
  }
}
