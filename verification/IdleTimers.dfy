/** Idle timers of sandbox sessions (astrbot/core/computer/computer_client.py). Every stretch of a task
    between two awaits is one atomic step; runs are arbitrary interleavings of the timers' steps, of the
    steps of get_booter that touch the two tables, and of the clock. */
module IdleTimers {
  import opened Wrappers

  type Session = string
  type Booter = nat

  /** Created: not yet started. A cancelled task that never started ends without running its body. */
  datatype Phase = Created | Sleeping | ShuttingDown(booter: Booter) | Done

  datatype Timer = Timer(session: Session, deadline: real, phase: Phase, cancelled: bool)

  datatype Entry = Entry(expiresAt: real, task: nat)

  /** Timers are numbered in the order of their creation. */
  datatype State = State(booters: map<Session, Booter>, idle: map<Session, Entry>, timers: seq<Timer>)

  const EMPTY := State(map[], map[], [])

  /** Takes the session's entry out of the table and cancels its timer. */
  function Clear(st: State, s: Session): (r: State)
    ensures r.booters == st.booters && |r.timers| == |st.timers| && s !in r.idle
  {
    if s !in st.idle then st else
      var t := st.idle[s].task;
      st.(idle := st.idle - {s},
          timers := if t < |st.timers| && !st.timers[t].phase.Done? then st.timers[t := st.timers[t].(cancelled := true)] else st.timers)
  }

  function Schedule(st: State, s: Session, timeout: real, now: real): State {
    var cleared := Clear(st, s);
    if timeout <= 0.0 then cleared
    else cleared.(idle := cleared.idle[s := Entry(now + timeout, |cleared.timers|)],
                  timers := cleared.timers + [Timer(s, now + timeout, Created, false)])
  }

  /** The end of a timer's body: it takes out the entry that has its deadline. */
  function Finish(st: State, t: nat): State
    requires t < |st.timers|
  {
    var s := st.timers[t].session;
    st.(idle := if s in st.idle && st.idle[s].expiresAt == st.timers[t].deadline then st.idle - {s} else st.idle,
        timers := st.timers[t := st.timers[t].(phase := Done)])
  }

  /** After the sleep. */
  function Check(st: State, t: nat): State
    requires t < |st.timers|
  {
    var s := st.timers[t].session;
    if s !in st.idle || st.idle[s].expiresAt != st.timers[t].deadline || s !in st.booters then Finish(st, t)
    else st.(timers := st.timers[t := st.timers[t].(phase := ShuttingDown(st.booters[s]))])
  }

  /** The next step of a timer. */
  function Resume(st: State, t: nat, now: real): State
    requires t < |st.timers| && !st.timers[t].phase.Done?
  {
    var timer := st.timers[t];
    if timer.phase.ShuttingDown? then Finish(st.(booters := st.booters - {timer.session}), t)
    else if timer.phase.Created? && timer.cancelled then st.(timers := st.timers[t := timer.(phase := Done)])
    else if timer.phase.Created? && timer.deadline - now > 0.0 then st.(timers := st.timers[t := timer.(phase := Sleeping)])
    else if timer.cancelled then Finish(st, t)
    else Check(st, t)
  }

  // ----- runs

  /** timeout is None where the session's sandbox is of a kind without idle timers. */
  datatype Event =
    | Reuse(s: Session, timeout: Option<real>, now: real)                     // the booter there is available
    | Install(s: Session, booter: Booter, timeout: Option<real>, now: real)   // a new booter is up
    | Discard(s: Session)                                                     // the booter there was not available
    | BootFailed(s: Session)
    | Run(t: nat, now: real)                                                  // the event loop resumes a timer

  predicate Enabled(st: State, e: Event) {
    match e
    case Reuse(s, _, _) => s in st.booters
    case Run(t, _) => t < |st.timers| && !st.timers[t].phase.Done?
    case _ => true
  }

  function MaySchedule(st: State, s: Session, timeout: Option<real>, now: real): State {
    if timeout.None? then st else Schedule(st, s, timeout.value, now)
  }

  function Step(st: State, e: Event): State
    requires Enabled(st, e)
  {
    match e
    case Reuse(s, timeout, now) => MaySchedule(st, s, timeout, now)
    case Install(s, booter, timeout, now) => MaySchedule(st.(booters := st.booters[s := booter]), s, timeout, now)
    case Discard(s) => var cleared := Clear(st, s); cleared.(booters := cleared.booters - {s})
    case BootFailed(s) => Clear(st, s)
    case Run(t, now) => Resume(st, t, now)
  }

  /** The state after the first n events, if each was possible when it came. */
  predicate Possible(events: seq<Event>)
    decreases |events|, 0
  {
    events == [] || (Possible(events[..|events| - 1]) && Enabled(After(events[..|events| - 1]), events[|events| - 1]))
  }

  function After(events: seq<Event>): State
    requires Possible(events)
    decreases |events|, 1
  {
    if events == [] then EMPTY else Step(After(events[..|events| - 1]), events[|events| - 1])
  }

  // ----- the two tables as the program holds them

  class ComputerClient {
    var sessionBooter: map<Session, Booter>
    var cuaIdleState: map<Session, Entry>
    var timers: seq<Timer>

    function St(): State
      reads this
    {
      State(sessionBooter, cuaIdleState, timers)
    }

    constructor ()
      ensures St() == EMPTY
    {
      sessionBooter, cuaIdleState, timers := map[], map[], [];
    }

    method ClearCuaIdleState(s: Session)
      modifies this
      ensures St() == Clear(old(St()), s)
    {
      if s in cuaIdleState {
        var state := cuaIdleState[s];
        cuaIdleState := cuaIdleState - {s};
        if state.task < |timers| && !timers[state.task].phase.Done? {
          timers := timers[state.task := timers[state.task].(cancelled := true)];
        }
      }
    }

    method ScheduleCuaIdleCleanup(s: Session, timeout: real, now: real)
      modifies this
      ensures St() == Schedule(old(St()), s, timeout, now)
    {
      ClearCuaIdleState(s);
      if timeout <= 0.0 {
        return;
      }
      var expiresAt := now + timeout;
      cuaIdleState := cuaIdleState[s := Entry(expiresAt, |timers|)];
      timers := timers + [Timer(s, expiresAt, Created, false)];
    }

    method ExpireWhenIdle(t: nat, now: real)
      requires t < |timers| && !timers[t].phase.Done?
      modifies this
      ensures St() == Resume(old(St()), t, now)
    {
      var timer := timers[t];
      var s := timer.session;
      if timer.phase.Created? && timer.cancelled {
        timers := timers[t := timer.(phase := Done)];
        return;
      }
      if timer.phase.Created? && timer.deadline - now > 0.0 {
        timers := timers[t := timer.(phase := Sleeping)];
        return;
      }
      if timer.phase.ShuttingDown? {
        sessionBooter := sessionBooter - {s};
      } else if !timer.cancelled && s in cuaIdleState && cuaIdleState[s].expiresAt == timer.deadline {
        if s in sessionBooter {
          timers := timers[t := timer.(phase := ShuttingDown(sessionBooter[s]))];
          return;
        }
      }
      if s in cuaIdleState && cuaIdleState[s].expiresAt == timer.deadline {
        cuaIdleState := cuaIdleState - {s};
      }
      timers := timers[t := timer.(phase := Done)];
    }

    /** The stretches of get_booter that change the tables; one that hands out a booter finds it in the table. */
    method GetBooterReused(s: Session, timeout: Option<real>, now: real) returns (booter: Booter)
      requires s in sessionBooter
      modifies this
      ensures St() == Step(old(St()), Reuse(s, timeout, now))
      ensures s in sessionBooter && booter == sessionBooter[s] == old(sessionBooter[s])
    {
      if timeout.Some? {
        ScheduleCuaIdleCleanup(s, timeout.value, now);
      }
      booter := sessionBooter[s];
    }

    method GetBooterInstalled(s: Session, client: Booter, timeout: Option<real>, now: real) returns (booter: Booter)
      modifies this
      ensures St() == Step(old(St()), Install(s, client, timeout, now))
      ensures s in sessionBooter && booter == sessionBooter[s] == client
    {
      sessionBooter := sessionBooter[s := client];
      if timeout.Some? {
        ScheduleCuaIdleCleanup(s, timeout.value, now);
      }
      booter := sessionBooter[s];
    }

    method GetBooterDiscarded(s: Session)
      modifies this
      ensures St() == Step(old(St()), Discard(s))
    {
      ClearCuaIdleState(s);
      sessionBooter := sessionBooter - {s};
    }
  }

  // ----- what holds on every run

  predicate Live(timer: Timer) { !timer.phase.Done? && !timer.cancelled }

  /** A registered timer is unfinished, not cancelled, has the entry's deadline and is the newest of its
      session. */
  ghost predicate Registered(st: State, s: Session) {
    s in st.idle ==>
      && st.idle[s].task < |st.timers|
      && st.timers[st.idle[s].task].session == s && st.timers[st.idle[s].task].deadline == st.idle[s].expiresAt
      && Live(st.timers[st.idle[s].task])
      && forall u :: st.idle[s].task < u < |st.timers| ==> st.timers[u].session != s
  }

  ghost predicate Inv(st: State) { forall s :: Registered(st, s) }

  lemma ClearKeeps(st: State, s: Session)
    requires Inv(st)
    ensures Inv(Clear(st, s))
  {
    forall r
      ensures Registered(Clear(st, s), r)
    {
      assert Registered(st, r) && Registered(st, s);
    }
  }

  lemma ScheduleKeeps(st: State, s: Session, timeout: real, now: real)
    requires Inv(st)
    ensures Inv(Schedule(st, s, timeout, now))
  {
    ClearKeeps(st, s);
    hide Clear;
    var cleared := Clear(st, s);
    forall r
      ensures Registered(Schedule(st, s, timeout, now), r)
    {
      assert Registered(cleared, r);
    }
  }

  lemma ResumeKeeps(st: State, t: nat, now: real)
    requires Inv(st) && t < |st.timers| && !st.timers[t].phase.Done?
    ensures Inv(Resume(st, t, now))
  {
    forall r
      ensures Registered(Resume(st, t, now), r)
    {
      assert Registered(st, r) && Registered(st, st.timers[t].session);
    }
  }

  lemma {:induction false} InvHolds(events: seq<Event>)
    requires Possible(events)
    ensures Inv(After(events))
  {
    if events != [] {
      var st, e := After(events[..|events| - 1]), events[|events| - 1];
      InvHolds(events[..|events| - 1]);
      StepKeeps(st, e);
    }
  }

  lemma StepKeeps(st: State, e: Event)
    requires Inv(st) && Enabled(st, e)
    ensures Inv(Step(st, e))
  {
    hide Clear, Schedule, Resume;
    match e
    case Reuse(s, timeout, now) =>
      if timeout.Some? { ScheduleKeeps(st, s, timeout.value, now); }
    case Install(s, booter, timeout, now) =>
      var placed := st.(booters := st.booters[s := booter]);
      BootersDoNotMatter(st, placed);
      if timeout.Some? { ScheduleKeeps(placed, s, timeout.value, now); }
    case Discard(s) =>
      ClearKeeps(st, s);
      BootersDoNotMatter(Clear(st, s), Step(st, e));
    case BootFailed(s) => ClearKeeps(st, s);
    case Run(t, now) => ResumeKeeps(st, t, now);
  }

  lemma BootersDoNotMatter(st: State, other: State)
    requires st.idle == other.idle && st.timers == other.timers
    ensures Inv(st) <==> Inv(other)
  {
    assert forall s :: Registered(st, s) <==> Registered(other, s);
  }

  // ----- runs in which no two timers of a session share a deadline

  ghost predicate Distinct(st: State) {
    forall i, j :: 0 <= i < j < |st.timers| && st.timers[i].session == st.timers[j].session ==>
      st.timers[i].deadline != st.timers[j].deadline
  }

  ghost predicate Owned(st: State, t: nat)
    requires t < |st.timers|
  {
    Live(st.timers[t]) ==> st.timers[t].session in st.idle && st.idle[st.timers[t].session].task == t
  }

  /** Whatever timer could still shut a sandbox down is registered. */
  ghost predicate AllOwned(st: State) { forall t :: 0 <= t < |st.timers| ==> Owned(st, t) }

  ghost predicate Grows(st: State, next: State) {
    && |st.timers| <= |next.timers|
    && forall t :: 0 <= t < |st.timers| ==>
      next.timers[t].session == st.timers[t].session && next.timers[t].deadline == st.timers[t].deadline
  }

  lemma StepGrows(st: State, e: Event)
    requires Enabled(st, e)
    ensures Grows(st, Step(st, e))
    ensures Distinct(Step(st, e)) ==> Distinct(st)
  {
    StepGrowsOnly(st, e);
    hide Step, Enabled;
  }

  lemma StepGrowsOnly(st: State, e: Event)
    requires Enabled(st, e)
    ensures Grows(st, Step(st, e))
  {
  }

  lemma ClearOwned(st: State, s: Session)
    requires Inv(st) && AllOwned(st)
    ensures AllOwned(Clear(st, s))
    ensures forall t :: 0 <= t < |st.timers| && st.timers[t].session == s ==> !Live(Clear(st, s).timers[t])
  {
    assert Registered(st, s);
    forall t | 0 <= t < |st.timers|
      ensures Owned(Clear(st, s), t) && (st.timers[t].session == s ==> !Live(Clear(st, s).timers[t]))
    {
      assert Owned(st, t);
    }
  }

  lemma ScheduleOwned(st: State, s: Session, timeout: real, now: real)
    requires Inv(st) && AllOwned(st)
    ensures AllOwned(Schedule(st, s, timeout, now))
  {
    ClearOwned(st, s);
    ClearSessions(st, s);
    hide Clear;
    forall t | 0 <= t < |Schedule(st, s, timeout, now).timers|
      ensures Owned(Schedule(st, s, timeout, now), t)
    {
      assert t < |st.timers| ==> Owned(Clear(st, s), t);
    }
  }

  lemma ClearSessions(st: State, s: Session)
    ensures forall t :: 0 <= t < |st.timers| ==> Clear(st, s).timers[t].session == st.timers[t].session
  {
  }

  lemma ResumeOwned(st: State, t: nat, now: real)
    requires Inv(st) && AllOwned(st) && t < |st.timers| && !st.timers[t].phase.Done? && Distinct(st)
    ensures AllOwned(Resume(st, t, now))
    ensures forall s :: s in st.idle && s !in Resume(st, t, now).idle ==> st.idle[s].task == t
  {
    var s := st.timers[t].session;
    assert Registered(st, s);
    assert s in st.idle && st.idle[s].expiresAt == st.timers[t].deadline ==> st.idle[s].task == t;
    forall u | 0 <= u < |st.timers|
      ensures Owned(Resume(st, t, now), u)
    {
      assert Owned(st, u);
    }
  }

  lemma StepOwned(st: State, e: Event)
    requires Inv(st) && AllOwned(st) && Enabled(st, e) && Distinct(Step(st, e))
    ensures AllOwned(Step(st, e))
  {
    StepGrows(st, e);
    hide Clear, Schedule, Resume, Distinct;
    match e
    case Reuse(s, timeout, now) =>
      if timeout.Some? { ScheduleOwned(st, s, timeout.value, now); }
    case Install(s, booter, timeout, now) =>
      var placed := st.(booters := st.booters[s := booter]);
      BootersDoNotMatter(st, placed);
      BootersDoNotOwn(st, placed);
      if timeout.Some? { ScheduleOwned(placed, s, timeout.value, now); }
    case Discard(s) =>
      ClearOwned(st, s);
      BootersDoNotOwn(Clear(st, s), Step(st, e));
    case BootFailed(s) => ClearOwned(st, s);
    case Run(t, now) => ResumeOwned(st, t, now);
  }

  lemma BootersDoNotOwn(st: State, other: State)
    requires st.idle == other.idle && st.timers == other.timers && AllOwned(st)
    ensures AllOwned(other)
  {
    assert forall t :: 0 <= t < |st.timers| ==> Owned(st, t) && Owned(other, t);
  }

  lemma {:induction false} OwnedHolds(events: seq<Event>)
    requires Possible(events) && Distinct(After(events))
    ensures AllOwned(After(events))
  {
    if events != [] {
      var st, e := After(events[..|events| - 1]), events[|events| - 1];
      StepGrows(st, e);
      OwnedHolds(events[..|events| - 1]);
      InvHolds(events[..|events| - 1]);
      hide Step;
      StepOwned(st, e);
    }
  }

  /** One step of a timer in a state reached with distinct deadlines. */
  ghost predicate SafeStep(st: State, t: nat, next: State)
    requires t < |st.timers| && t < |next.timers|
  {
    var s := st.timers[t].session;
    && (next.timers[t].phase.ShuttingDown? ==> s in st.idle && st.idle[s].task == t && !st.timers[t].cancelled && Newest(st, t))
    && (forall r :: r in st.idle && st.idle[r].task != t ==> r in next.idle && next.idle[r] == st.idle[r])
    && (Live(st.timers[t]) ==> OnlyLive(st, t))
    && (Live(st.timers[t]) && next.timers[t].phase.Done? ==> s !in next.booters)
  }

  ghost predicate Newest(st: State, t: nat)
    requires t < |st.timers|
  {
    forall u :: t < u < |st.timers| ==> st.timers[u].session != st.timers[t].session
  }

  ghost predicate OnlyLive(st: State, t: nat)
    requires t < |st.timers|
  {
    forall u :: 0 <= u < |st.timers| && st.timers[u].session == st.timers[t].session && Live(st.timers[u]) ==> u == t
  }

  lemma ResumeSafe(st: State, t: nat, now: real)
    requires Inv(st) && AllOwned(st) && t < |st.timers| && !st.timers[t].phase.Done? && Distinct(st)
    ensures SafeStep(st, t, Resume(st, t, now))
  {
    var s := st.timers[t].session;
    assert Registered(st, s) && Owned(st, t);
    if Live(st.timers[t]) {
      forall u | 0 <= u < |st.timers| && st.timers[u].session == s && Live(st.timers[u])
        ensures u == t
      {
        assert Owned(st, u);
      }
    }
    assert s in st.idle && st.idle[s].expiresAt == st.timers[t].deadline ==> st.idle[s].task == t;
  }

  /** On every run with distinct deadlines: only the registered, newest, uncancelled timer of a session
      starts a shutdown; a timer takes out no entry but its own; a session has at most one timer that could
      still shut it down; and a timer that is never superseded ends with the session's booter gone. */
  lemma TimersSafe(events: seq<Event>, t: nat, now: real)
    requires Possible(events) && Enabled(After(events), Run(t, now)) && Distinct(After(events))
    ensures SafeStep(After(events), t, Step(After(events), Run(t, now)))
  {
    InvHolds(events);
    OwnedHolds(events);
    ResumeSafe(After(events), t, now);
  }

  // ----- what a shared deadline does

  /** A timer that has started and been told to end: cancelled in its sleep, or shutting down. */
  predicate Ending(timer: Timer) { timer.phase.ShuttingDown? || (timer.phase.Sleeping? && timer.cancelled) }

  lemma EndingTakes(st: State, t: nat, now: real)
    requires t < |st.timers| && Ending(st.timers[t])
    ensures var s := st.timers[t].session;
      s in st.idle ==> (s !in Resume(st, t, now).idle <==> st.idle[s].expiresAt == st.timers[t].deadline)
  {
  }

  /** A superseded timer that comes to its end takes out the newer timer's entry if and only if the two
      share their deadline. */
  lemma NewerEntryLostExactly(events: seq<Event>, t: nat, now: real)
    requires Possible(events) && t < |After(events).timers| && Ending(After(events).timers[t])
    requires var st := After(events); var s := st.timers[t].session; s in st.idle && st.idle[s].task != t
    ensures var st := After(events);
      var s := st.timers[t].session;
      var u := st.idle[s].task;
      && u < |st.timers| && st.timers[u].session == s
      && (s !in Step(st, Run(t, now)).idle <==> st.timers[u].deadline == st.timers[t].deadline)
  {
    var st := After(events);
    InvHolds(events);
    assert Registered(st, st.timers[t].session);
    EndingTakes(st, t, now);
    hide Possible, After, Resume, Inv;
  }

  lemma UnregisteredEnds(st: State, t: nat, now: real)
    requires t < |st.timers| && !st.timers[t].phase.Done? && !st.timers[t].phase.ShuttingDown?
    requires var s := st.timers[t].session; s !in st.idle || st.idle[s].expiresAt != st.timers[t].deadline
    ensures var next := Resume(st, t, now);
      next.booters == st.booters && next.idle == st.idle && !next.timers[t].phase.ShuttingDown?
  {
  }

  /** After that loss, whenever the newer timer resumes, it starts no shutdown and leaves both tables as
      they are. */
  lemma LostTimerDoesNothing(events: seq<Event>, t: nat, now: real, later: real)
    requires Possible(events) && t < |After(events).timers| && Ending(After(events).timers[t])
    requires var st := After(events); var s := st.timers[t].session; s in st.idle && st.idle[s].task != t
    requires After(events).idle[After(events).timers[t].session].expiresAt == After(events).timers[t].deadline
    ensures var lost := Step(After(events), Run(t, now));
      var u := After(events).idle[After(events).timers[t].session].task;
      && u < |lost.timers| && !lost.timers[u].phase.Done?
      && (!lost.timers[u].phase.ShuttingDown? ==>
           var next := Step(lost, Run(u, later));
           next.booters == lost.booters && next.idle == lost.idle && !next.timers[u].phase.ShuttingDown?)
  {
    var st := After(events);
    InvHolds(events);
    assert Registered(st, st.timers[t].session);
    var lost, u := Step(st, Run(t, now)), st.idle[st.timers[t].session].task;
    if !lost.timers[u].phase.ShuttingDown? {
      UnregisteredEnds(lost, u, later);
    }
  }

  /** Two uses of a sandbox at one instant of the clock: its booter stays and no timer is left to shut it
      down. */
  lemma SharedDeadlineLeaks(s: Session, b: Booter)
    ensures var ten := Some(10.0);
      var events := [Install(s, b, ten, 0.0), Run(0, 0.0), Reuse(s, ten, 0.0), Run(0, 0.0), Run(1, 0.0), Run(1, 10.0)];
      && Possible(events) && After(events).booters == map[s := b] && After(events).idle == map[]
      && forall t :: 0 <= t < |After(events).timers| ==> After(events).timers[t].phase.Done?
  {
    var ten := Some(10.0);
    var e0 := [Install(s, b, ten, 0.0)];
    var e1 := e0 + [Run(0, 0.0)];
    var e2 := e1 + [Reuse(s, ten, 0.0)];
    var e3 := e2 + [Run(0, 0.0)];
    var e4 := e3 + [Run(1, 0.0)];
    var e5 := e4 + [Run(1, 10.0)];
    Last([], Install(s, b, ten, 0.0));
    Last(e0, Run(0, 0.0));
    Last(e1, Reuse(s, ten, 0.0));
    Last(e2, Run(0, 0.0));
    Last(e3, Run(1, 0.0));
    Last(e4, Run(1, 10.0));
    hide Possible, After;
    assert After(e1) == State(map[s := b], map[s := Entry(10.0, 0)], [Timer(s, 10.0, Sleeping, false)]);
    assert After(e3) == State(map[s := b], map[], [Timer(s, 10.0, Done, true), Timer(s, 10.0, Created, false)]);
    assert After(e4) == State(map[s := b], map[], [Timer(s, 10.0, Done, true), Timer(s, 10.0, Sleeping, false)]);
    assert After(e5) == State(map[s := b], map[], [Timer(s, 10.0, Done, true), Timer(s, 10.0, Done, false)]);
    assert e5 == [Install(s, b, ten, 0.0), Run(0, 0.0), Reuse(s, ten, 0.0), Run(0, 0.0), Run(1, 0.0), Run(1, 10.0)];
  }

  /** And a failed boot is enough: of two calls of get_booter for one session the first installs its sandbox,
      the boot of the second fails, and its clean-up cancels the first one's timer; the deadlines are
      distinct. */
  lemma BootFailureLeaks(s: Session, b: Booter)
    ensures var events := [Install(s, b, Some(10.0), 0.0), Run(0, 0.0), BootFailed(s), Run(0, 1.0)];
      && Possible(events) && Distinct(After(events)) && After(events).booters == map[s := b] && After(events).idle == map[]
      && forall t :: 0 <= t < |After(events).timers| ==> After(events).timers[t].phase.Done?
  {
    var e0 := [Install(s, b, Some(10.0), 0.0)];
    var e1 := e0 + [Run(0, 0.0)];
    var e2 := e1 + [BootFailed(s)];
    var e3 := e2 + [Run(0, 1.0)];
    Last([], Install(s, b, Some(10.0), 0.0));
    Last(e0, Run(0, 0.0));
    Last(e1, BootFailed(s));
    Last(e2, Run(0, 1.0));
    hide Possible, After;
    assert After(e1) == State(map[s := b], map[s := Entry(10.0, 0)], [Timer(s, 10.0, Sleeping, false)]);
    assert After(e2) == State(map[s := b], map[], [Timer(s, 10.0, Sleeping, true)]);
    assert After(e3) == State(map[s := b], map[], [Timer(s, 10.0, Done, true)]);
    assert e3 == [Install(s, b, Some(10.0), 0.0), Run(0, 0.0), BootFailed(s), Run(0, 1.0)];
  }

  lemma Last(events: seq<Event>, e: Event)
    ensures Possible([]) && After([]) == EMPTY
    ensures Possible(events + [e]) <==> Possible(events) && Enabled(After(events), e)
    ensures Possible(events + [e]) ==> After(events + [e]) == Step(After(events), e)
  {
    assert (events + [e])[..|events|] == events;
  }

  // ----- when a sandbox is watched

  /** A timer that can still shut the session's sandbox down: a registered one, or one that is doing so. */
  ghost predicate Watched(st: State, s: Session) {
    || (s in st.idle && st.idle[s].task < |st.timers| && st.timers[st.idle[s].task].session == s && Live(st.timers[st.idle[s].task]))
    || exists t :: 0 <= t < |st.timers| && st.timers[t].session == s && st.timers[t].phase.ShuttingDown?
  }

  /** The sandbox is handed out or installed with a positive timeout. */
  predicate Arms(e: Event, s: Session) {
    (e.Reuse? || e.Install?) && e.s == s && e.timeout.Some? && e.timeout.value > 0.0
  }

  function ArmedUntil(e: Event): real
    requires (e.Reuse? || e.Install?) && e.timeout.Some?
  {
    e.now + e.timeout.value
  }

  /** A timer that has started comes to the end of its body in this step. */
  predicate Ends(st: State, t: nat, now: real) {
    && t < |st.timers| && !st.timers[t].phase.Done? && !(st.timers[t].phase.Created? && st.timers[t].cancelled)
    && Resume(st, t, now).timers[t].phase.Done?
  }

  /** What takes the timer away that was registered with that deadline: a failed boot, a discarded sandbox, a
      rescheduling without a timeout, or a timer of the session with that deadline that ends, be it the one
      registered or another. */
  predicate Disarms(st: State, e: Event, s: Session, deadline: real) {
    match e
    case BootFailed(r) => r == s
    case Discard(r) => r == s
    case Reuse(r, timeout, _) => r == s && timeout.Some? && timeout.value <= 0.0
    case Install(r, _, timeout, _) => r == s && timeout.Some? && timeout.value <= 0.0
    case Run(t, now) => Ends(st, t, now) && st.timers[t].session == s && st.timers[t].deadline == deadline
  }

  /** Step m armed the session, and nothing has armed or disarmed it since. */
  ghost predicate ArmedSince(events: seq<Event>, m: nat, s: Session) {
    && m < |events| && Arms(events[m], s)
    && forall k :: m < k < |events| && Possible(events[..k]) ==>
      !Arms(events[k], s) && !Disarms(After(events[..k]), events[k], s, ArmedUntil(events[m]))
  }

  /** Step k began a shutdown of the session, and its timer has not been resumed since. */
  ghost predicate ShuttingDownSince(events: seq<Event>, k: nat, s: Session) {
    && k < |events| && events[k].Run? && Possible(events[..k + 1])
    && (var st := After(events[..k + 1]);
        events[k].t < |st.timers| && st.timers[events[k].t].session == s && st.timers[events[k].t].phase.ShuttingDown?)
    && forall j :: k < j < |events| && events[j].Run? ==> events[j].t != events[k].t
  }

  lemma {:induction false} PossiblePrefix(events: seq<Event>, n: nat)
    requires Possible(events) && n <= |events|
    ensures Possible(events[..n])
    ensures n < |events| ==>
      && Possible(events[..n + 1]) && Enabled(After(events[..n]), events[n])
      && After(events[..n + 1]) == Step(After(events[..n]), events[n])
  {
    if n == |events| {
      assert events[..n] == events;
    } else if n == |events| - 1 {
      assert events[..n + 1] == events;
    } else {
      var front := events[..|events| - 1];
      PossiblePrefix(front, n);
      assert front[..n] == events[..n] && front[..n + 1] == events[..n + 1];
    }
  }

  /** One step more, armed: what it does to the entry. */
  lemma EntryStep(st: State, e: Event, s: Session)
    requires Inv(st) && Enabled(st, e)
    ensures Arms(e, s) ==> s in Step(st, e).idle && Step(st, e).idle[s].expiresAt == ArmedUntil(e)
    ensures !Arms(e, s) && s !in st.idle ==> s !in Step(st, e).idle
    ensures !Arms(e, s) && s in st.idle ==>
      (s in Step(st, e).idle <==> !Disarms(st, e, s, st.idle[s].expiresAt))
      && (s in Step(st, e).idle ==> Step(st, e).idle[s] == st.idle[s])
  {
    assert Registered(st, s);
  }

  lemma ArmedStep(front: seq<Event>, e: Event, m: nat, s: Session)
    requires Possible(front + [e])
    ensures m < |front| ==>
      (ArmedSince(front + [e], m, s) <==>
       ArmedSince(front, m, s) && !Arms(e, s) && !Disarms(After(front), e, s, ArmedUntil(front[m])))
    ensures ArmedSince(front + [e], |front|, s) <==> Arms(e, s)
    ensures Possible(front) && Enabled(After(front), e) && After(front + [e]) == Step(After(front), e)
  {
    var events := front + [e];
    Last(front, e);
    hide After, Possible, Disarms, Arms, Step, Enabled, ArmedUntil;
    assert events[..|front|] == front && events[|front|] == e;
    forall k: nat | k < |front|
      ensures events[..k] == front[..k] && events[k] == front[k]
    {
    }
  }

  lemma ArmedWithin(events: seq<Event>, m: nat, s: Session)
    ensures ArmedSince(events, m, s) ==> m < |events|
  {
  }

  ghost predicate EntryTells(events: seq<Event>, s: Session)
    requires Possible(events)
  {
    && (s in After(events).idle <==> exists m: nat :: ArmedSince(events, m, s))
    && forall m: nat :: ArmedSince(events, m, s) ==>
         Arms(events[m], s) && s in After(events).idle && After(events).idle[s].expiresAt == ArmedUntil(events[m])
  }

  lemma EntryTellsMore(front: seq<Event>, e: Event, s: Session)
    requires Possible(front + [e]) && Possible(front) && EntryTells(front, s)
    ensures EntryTells(front + [e], s)
  {
    var events := front + [e];
    InvHolds(front);
    Last(front, e);
    EntryStep(After(front), e, s);
    hide Possible, After, Step, Inv, Arms, Disarms, ArmedSince, Enabled, ArmedUntil;
    forall m: nat
      ensures m < |front| ==> events[m] == front[m]
      ensures m < |front| ==>
        (ArmedSince(events, m, s) <==>
         ArmedSince(front, m, s) && !Arms(e, s) && !Disarms(After(front), e, s, ArmedUntil(front[m])))
      ensures m >= |front| ==> (ArmedSince(events, m, s) <==> m == |front| && Arms(e, s))
      ensures ArmedSince(front, m, s) ==> m < |front|
    {
      ArmedStep(front, e, m, s);
      ArmedWithin(events, m, s);
      ArmedWithin(front, m, s);
    }
    assert events[|front|] == e;
    assert Arms(e, s) ==> ArmedSince(events, |front|, s);
    if s in After(front).idle {
      var m: nat :| ArmedSince(front, m, s);
      assert ArmedSince(events, m, s) || Arms(e, s) || s !in After(events).idle;
    }
  }

  /** The session has an entry if and only if it is armed, until that deadline. */
  lemma {:induction false} EntryExactly(events: seq<Event>, s: Session)
    requires Possible(events)
    ensures EntryTells(events, s)
  {
    if events != [] {
      var front, e := events[..|events| - 1], events[|events| - 1];
      assert events == front + [e];
      EntryExactly(front, s);
      EntryTellsMore(front, e, s);
    }
  }

  lemma PhaseStep(st: State, e: Event, t: nat)
    requires Enabled(st, e) && t < |Step(st, e).timers|
    ensures !(e.Run? && e.t == t) && Step(st, e).timers[t].phase.ShuttingDown? ==>
      t < |st.timers| && st.timers[t].phase.ShuttingDown?
    ensures !(e.Run? && e.t == t) && t < |st.timers| ==> Step(st, e).timers[t].phase == st.timers[t].phase
  {
  }

  lemma ShuttingDownStep(front: seq<Event>, e: Event, k: nat, s: Session)
    requires Possible(front + [e])
    ensures k < |front| ==>
      (ShuttingDownSince(front + [e], k, s) <==>
       ShuttingDownSince(front, k, s) && !(e.Run? && e.t == front[k].t))
  {
    var events := front + [e];
    assert forall i :: 0 <= i <= |front| ==> events[..i] == front[..i];
    assert forall i :: 0 <= i < |front| ==> events[i] == front[i];
  }

  lemma LastBegan(front: seq<Event>, e: Event, t: nat, s: Session)
    requires Possible(front + [e]) && t < |After(front + [e]).timers| && After(front + [e]).timers[t].session == s
    ensures (front + [e])[|front|] == e
    ensures e.Run? && e.t == t ==>
      (ShuttingDownSince(front + [e], |front|, s) <==> After(front + [e]).timers[t].phase.ShuttingDown?)
    ensures ShuttingDownSince(front + [e], |front|, s) ==> e.Run?
  {
    assert (front + [e])[..|front| + 1] == front + [e];
    hide After, Possible;
  }

  /** A timer is shutting down if and only if some step of it began that and it has not been resumed since. */
  lemma {:induction false} ShuttingDownExactly(events: seq<Event>, t: nat, s: Session)
    requires Possible(events) && t < |After(events).timers| && After(events).timers[t].session == s
    ensures After(events).timers[t].phase.ShuttingDown? <==>
      exists k: nat :: k < |events| && events[k].Run? && events[k].t == t && ShuttingDownSince(events, k, s)
  {
    if events != [] {
      var front, e := events[..|events| - 1], events[|events| - 1];
      assert events == front + [e];
      Last(front, e);
      PhaseStep(After(front), e, t);
      StepGrowsOnly(After(front), e);
      hide Possible, After, Step, Enabled, ShuttingDownSince;
      if t < |After(front).timers| {
        ShuttingDownExactly(front, t, s);
      }
      forall k: nat | k < |front|
        ensures ShuttingDownSince(events, k, s) <==> ShuttingDownSince(front, k, s) && !(e.Run? && e.t == front[k].t)
        ensures events[k] == front[k]
        ensures ShuttingDownSince(front, k, s) ==> front[k].Run? && front[k].t < |After(front).timers|
      {
        ShuttingDownStep(front, e, k, s);
        if ShuttingDownSince(front, k, s) {
          BegunStays(front, k, s);
        }
      }
      LastBegan(front, e, t, s);
    }
  }

  lemma BegunStays(events: seq<Event>, k: nat, s: Session)
    requires Possible(events) && ShuttingDownSince(events, k, s)
    ensures k < |events| && events[k].Run? && events[k].t < |After(events).timers| && After(events).timers[events[k].t].session == s
  {
    SessionsStay(events, k, events[k].t);
  }

  /** On every run: a sandbox in the table is watched if and only if its session was armed and nothing has
      disarmed it since, or one of the session's timers began a shutdown and has not been resumed since. */
  lemma WatchedExactly(events: seq<Event>, s: Session)
    requires Possible(events)
    ensures Watched(After(events), s) <==>
      (exists m: nat :: ArmedSince(events, m, s)) || (exists k: nat :: ShuttingDownSince(events, k, s))
  {
    EntryExactly(events, s);
    InvHolds(events);
    var st := After(events);
    assert Registered(st, s);
    hide ArmedSince, ShuttingDownSince, After, Possible;
    forall t: nat | t < |st.timers| && st.timers[t].session == s
      ensures st.timers[t].phase.ShuttingDown? <==>
        exists k: nat :: k < |events| && events[k].Run? && events[k].t == t && ShuttingDownSince(events, k, s)
    {
      ShuttingDownExactly(events, t, s);
    }
    forall k: nat | ShuttingDownSince(events, k, s)
      ensures events[k].t < |st.timers| && st.timers[events[k].t].session == s
    {
      BegunStays(events, k, s);
    }
  }

  lemma {:induction false} SessionsStay(events: seq<Event>, k: nat, t: nat)
    requires Possible(events) && k < |events| && Possible(events[..k + 1]) && t < |After(events[..k + 1]).timers|
    ensures t < |After(events).timers| && After(events).timers[t].session == After(events[..k + 1]).timers[t].session
  {
    if k + 1 == |events| {
      assert events[..k + 1] == events;
    } else {
      var front := events[..|events| - 1];
      assert front[..k + 1] == events[..k + 1];
      SessionsStay(front, k, t);
      StepGrowsOnly(After(front), events[|events| - 1]);
    }
  }

  // ----- when a shutdown begins

  /** The step of a timer, told on the run: it goes to sleep before its deadline; it begins the shutdown of the
      booter in the table if it is not cancelled, its sleep is over or was not needed, and the session was last
      armed until its deadline and not disarmed since; and otherwise it is done. */
  lemma ShutdownBeginsExactly(events: seq<Event>, t: nat, now: real)
    requires Possible(events) && Enabled(After(events), Run(t, now)) && !After(events).timers[t].phase.ShuttingDown?
    ensures var (st, next) := (After(events), Step(After(events), Run(t, now)));
      var (timer, s) := (st.timers[t], st.timers[t].session);
      && next.booters == st.booters && |next.timers| == |st.timers|
      && (next.timers[t].phase.Sleeping? <==> timer.phase.Created? && !timer.cancelled && now < timer.deadline)
      && (next.timers[t].phase.ShuttingDown? <==>
          && !timer.cancelled && (timer.phase.Sleeping? || timer.deadline <= now) && s in st.booters
          && exists m: nat :: ArmedSince(events, m, s) && ArmedUntil(events[m]) == timer.deadline)
      && (next.timers[t].phase.ShuttingDown? ==> next.timers[t].phase.booter == st.booters[s])
      && (next.timers[t].phase.Done? <==> !next.timers[t].phase.Sleeping? && !next.timers[t].phase.ShuttingDown?)
  {
    EntryExactly(events, After(events).timers[t].session);
    hide After, Possible, ArmedSince, ArmedUntil;
  }

  /** If sleeps last as long as they should, a sandbox is shut down only after it has not been used for its
      timeout: the last step that armed its session, with nothing arming it since, was that long ago. */
  lemma NotBeforeIdle(events: seq<Event>, t: nat, now: real)
    requires Possible(events) && Enabled(After(events), Run(t, now)) && !After(events).timers[t].phase.ShuttingDown?
    requires var timer := After(events).timers[t]; timer.phase.Sleeping? ==> timer.deadline <= now
    requires Step(After(events), Run(t, now)).timers[t].phase.ShuttingDown?
    ensures exists m: nat ::
      ArmedSince(events, m, After(events).timers[t].session) && events[m].now + events[m].timeout.value <= now
  {
    var s := After(events).timers[t].session;
    EntryExactly(events, s);
    ShutdownBeginsExactly(events, t, now);
    hide After, Possible, ArmedSince;
    var m: nat :| ArmedSince(events, m, s) && ArmedUntil(events[m]) == After(events).timers[t].deadline;
  }

  // ----- what a shutdown takes out of the table

  predicate Installs(e: Event, s: Session) { e.Install? && e.s == s }

  /** As long as no new booter is installed for the session, a shutdown that ends finds in the table the
      booter it shut down, or none. */
  lemma {:induction false} ShutdownTakesItsOwn(before: seq<Event>, since: seq<Event>, t: nat)
    requires Possible(before) && Possible(before + since) && t < |After(before).timers|
    requires After(before).timers[t].phase.ShuttingDown?
    requires forall i :: 0 <= i < |since| ==> !Installs(since[i], After(before).timers[t].session)
    requires var st := After(before); var timer := st.timers[t];
      timer.session in st.booters ==> st.booters[timer.session] == timer.phase.booter
    ensures var timer := After(before).timers[t];
      timer.session in After(before + since).booters ==> After(before + since).booters[timer.session] == timer.phase.booter
    decreases |since|
  {
    if since == [] {
      assert before + since == before;
    } else {
      var front, e := since[..|since| - 1], since[|since| - 1];
      assert before + since == before + front + [e];
      Last(before + front, e);
      ShutdownTakesItsOwn(before, front, t);
      BooterStays(After(before + front), e, After(before).timers[t].session);
    }
  }

  lemma BooterStays(st: State, e: Event, s: Session)
    requires Enabled(st, e) && !Installs(e, s)
    ensures s in Step(st, e).booters ==> s in st.booters && Step(st, e).booters[s] == st.booters[s]
  {
  }

  function LastInstalled(events: seq<Event>, s: Session): Option<Booter> {
    if events == [] then None
    else if Installs(events[|events| - 1], s) then Some(events[|events| - 1].booter)
    else LastInstalled(events[..|events| - 1], s)
  }

  /** What a shutdown that ends takes out of the table is a booter it did not shut down if and only if there
      is one and the last booter installed for the session is another. */
  lemma {:induction false} TakesStrangerExactly(events: seq<Event>, t: nat, now: real)
    requires Possible(events) && t < |After(events).timers| && After(events).timers[t].phase.ShuttingDown?
    ensures var (st, next) := (After(events), Step(After(events), Run(t, now)));
      var (s, own) := (st.timers[t].session, st.timers[t].phase.booter);
      && next.booters == st.booters - {s}
      && (s in st.booters && s !in next.booters && st.booters[s] != own <==>
          s in st.booters && LastInstalled(events, s) != Some(own))
  {
    TableHoldsLastInstalled(events, After(events).timers[t].session);
  }

  lemma {:induction false} TableHoldsLastInstalled(events: seq<Event>, s: Session)
    requires Possible(events)
    ensures s in After(events).booters ==> LastInstalled(events, s) == Some(After(events).booters[s])
  {
    if events != [] {
      var front, e := events[..|events| - 1], events[|events| - 1];
      TableHoldsLastInstalled(front, s);
      if !Installs(e, s) {
        BooterStays(After(front), e, s);
      }
    }
  }

  /** But a booter installed while the old one is shut down (two calls of get_booter booting at once, the
      second taking longer than the timeout) is taken out of the table without having been shut down, its
      own timer still registered and all deadlines distinct. */
  lemma ShutdownTakesANewcomer(s: Session, a: Booter, b: Booter)
    ensures var ten := Some(10.0);
      var events := [Install(s, a, ten, 0.0), Run(0, 0.0), Run(0, 10.0), Install(s, b, ten, 11.0), Run(0, 11.0)];
      && Possible(events) && Distinct(After(events)) && After(events[..4]).booters == map[s := b]
      && After(events).booters == map[] && After(events).idle == map[s := Entry(21.0, 1)]
  {
    var ten := Some(10.0);
    var e0 := [Install(s, a, ten, 0.0)];
    var e1 := e0 + [Run(0, 0.0)];
    var e2 := e1 + [Run(0, 10.0)];
    var e3 := e2 + [Install(s, b, ten, 11.0)];
    var e4 := e3 + [Run(0, 11.0)];
    Last([], Install(s, a, ten, 0.0));
    Last(e0, Run(0, 0.0));
    Last(e1, Run(0, 10.0));
    Last(e2, Install(s, b, ten, 11.0));
    Last(e3, Run(0, 11.0));
    hide Possible, After;
    assert After(e1) == State(map[s := a], map[s := Entry(10.0, 0)], [Timer(s, 10.0, Sleeping, false)]);
    assert After(e2) == State(map[s := a], map[s := Entry(10.0, 0)], [Timer(s, 10.0, ShuttingDown(a), false)]);
    assert After(e3) == State(map[s := b], map[s := Entry(21.0, 1)], [Timer(s, 10.0, ShuttingDown(a), true), Timer(s, 21.0, Created, false)]);
    assert After(e4) == State(map[], map[s := Entry(21.0, 1)], [Timer(s, 10.0, Done, true), Timer(s, 21.0, Created, false)]);
    var events := [Install(s, a, ten, 0.0), Run(0, 0.0), Run(0, 10.0), Install(s, b, ten, 11.0), Run(0, 11.0)];
    assert e4 == events && e3 == events[..4];
  }

  // ----- how long a booter that was handed out stays

  /** A step that takes the session's booter out of the table or replaces it by another. */
  predicate Takes(st: State, e: Event, s: Session, b: Booter)
    requires Enabled(st, e)
  {
    match e
    case Discard(r) => r == s
    case Install(r, other, _, _) => r == s && other != b
    case Run(t, _) => st.timers[t].session == s && st.timers[t].phase.ShuttingDown?
    case _ => false
  }

  predicate Holds(st: State, s: Session, b: Booter) { s in st.booters && st.booters[s] == b }

  lemma StepTakes(st: State, e: Event, s: Session, b: Booter)
    requires Enabled(st, e) && Holds(st, s, b)
    ensures Holds(Step(st, e), s, b) <==> !Takes(st, e, s, b)
  {
  }

  ghost predicate StaysThrough(events: seq<Event>, n: nat, s: Session, b: Booter) {
    forall m: nat :: n <= m <= |events| && Possible(events[..m]) ==> Holds(After(events[..m]), s, b)
  }

  ghost predicate NothingTakes(events: seq<Event>, n: nat, s: Session, b: Booter) {
    forall m: nat :: n <= m < |events| && Possible(events[..m]) && Enabled(After(events[..m]), events[m]) ==>
      !Takes(After(events[..m]), events[m], s, b)
  }

  /** A booter in the table at moment n stays there to the end of the run if and only if no step from then
      on discards it, installs another, or ends a shutdown of the session, whichever booter that was of. */
  lemma {:induction false} StaysExactly(events: seq<Event>, n: nat, s: Session, b: Booter)
    requires Possible(events) && n <= |events| && Possible(events[..n]) && Holds(After(events[..n]), s, b)
    ensures StaysThrough(events, n, s, b) <==> NothingTakes(events, n, s, b)
    decreases |events| - n
  {
    PossiblePrefix(events, n);
    hide Possible, After, Step, Takes, Holds;
    if n < |events| {
      StepTakes(After(events[..n]), events[n], s, b);
      if Holds(After(events[..n + 1]), s, b) {
        StaysExactly(events, n + 1, s, b);
      }
    }
  }

  /** A timer that can start no shutdown any more. */
  predicate Harmless(timer: Timer) { !timer.phase.ShuttingDown? && (timer.cancelled || timer.phase.Done?) }

  lemma HarmlessStep(st: State, e: Event, u: nat)
    requires Enabled(st, e) && u < |st.timers| && Harmless(st.timers[u])
    ensures u < |Step(st, e).timers| && Harmless(Step(st, e).timers[u])
  {
  }

  /** A sandbox reused while none of its timers is shutting down is safe from all timers there are: none of
      them ever starts a shutdown. */
  lemma {:induction false} ReuseSafe(before: seq<Event>, s: Session, timeout: real, now: real, since: seq<Event>, u: nat)
    requires Possible(before) && Distinct(After(before)) && s in After(before).booters
    requires u < |After(before).timers| && After(before).timers[u].session == s && !After(before).timers[u].phase.ShuttingDown?
    requires Possible(before + [Reuse(s, Some(timeout), now)] + since)
    ensures var st := After(before + [Reuse(s, Some(timeout), now)] + since);
      u < |st.timers| && Harmless(st.timers[u])
    decreases |since|
  {
    var reuse := Reuse(s, Some(timeout), now);
    if since == [] {
      assert before + [reuse] + [] == before + [reuse];
      Last(before, reuse);
      ReuseCancels(before, s, timeout, now, u);
    } else {
      var front, e := since[..|since| - 1], since[|since| - 1];
      assert before + [reuse] + since == before + [reuse] + front + [e];
      Last(before + [reuse] + front, e);
      ReuseSafe(before, s, timeout, now, front, u);
      HarmlessStep(After(before + [reuse] + front), e, u);
    }
  }

  lemma ReuseCancels(before: seq<Event>, s: Session, timeout: real, now: real, u: nat)
    requires Possible(before) && Distinct(After(before)) && s in After(before).booters
    requires u < |After(before).timers| && After(before).timers[u].session == s && !After(before).timers[u].phase.ShuttingDown?
    ensures var next := Step(After(before), Reuse(s, Some(timeout), now)); u < |next.timers| && Harmless(next.timers[u])
  {
    InvHolds(before);
    OwnedHolds(before);
    assert Owned(After(before), u) && Registered(After(before), s);
  }

  /** But reused during its own shutdown, it is taken out of the table again as soon as that ends, all
      deadlines being distinct: whoever was handed it holds a booter that is down. */
  lemma ReusedDuringShutdown(s: Session, b: Booter)
    ensures var ten := Some(10.0);
      var events := [Install(s, b, ten, 0.0), Run(0, 0.0), Run(0, 10.0), Reuse(s, ten, 10.0), Run(0, 10.0)];
      && Possible(events) && Distinct(After(events)) && Holds(After(events[..4]), s, b)
      && After(events).booters == map[] && After(events).idle == map[s := Entry(20.0, 1)]
  {
    var ten := Some(10.0);
    var e0 := [Install(s, b, ten, 0.0)];
    var e1 := e0 + [Run(0, 0.0)];
    var e2 := e1 + [Run(0, 10.0)];
    var e3 := e2 + [Reuse(s, ten, 10.0)];
    var e4 := e3 + [Run(0, 10.0)];
    Last([], Install(s, b, ten, 0.0));
    Last(e0, Run(0, 0.0));
    Last(e1, Run(0, 10.0));
    Last(e2, Reuse(s, ten, 10.0));
    Last(e3, Run(0, 10.0));
    hide Possible, After;
    assert After(e1) == State(map[s := b], map[s := Entry(10.0, 0)], [Timer(s, 10.0, Sleeping, false)]);
    assert After(e2) == State(map[s := b], map[s := Entry(10.0, 0)], [Timer(s, 10.0, ShuttingDown(b), false)]);
    assert After(e3) == State(map[s := b], map[s := Entry(20.0, 1)], [Timer(s, 10.0, ShuttingDown(b), true), Timer(s, 20.0, Created, false)]);
    assert After(e4) == State(map[], map[s := Entry(20.0, 1)], [Timer(s, 10.0, Done, true), Timer(s, 20.0, Created, false)]);
    var events := [Install(s, b, ten, 0.0), Run(0, 0.0), Run(0, 10.0), Reuse(s, ten, 10.0), Run(0, 10.0)];
    assert e4 == events && e3 == events[..4];
  }
}
