/** The worker loop of src/task.c (task_executor) and the threads that start, stop and pause it. All steps interleave;
    the events are broadcast events, atomic by PEvent, except that evt_stop's mutex is modelled, because the loop
    probes that event with a trylock. */
module TaskLoop {
  import opened Runs

  /** Why the loop was left. */
  datatype Reason = SawStop | ProbeBusy | OneShot

  datatype Executor =
    | WaitStart | ProbeStop | CheckPause | WaitPause | Ready | InProc | ProcDone | Sleeping | Exited(reason: Reason)

  /** A controlling thread. The one at StoreStop or UnlockStop holds the mutex of evt_stop. */
  datatype Control =
    | Idle | Start
    | StopLook | LockStop | StoreStop | UnlockStop | LookStart | StopStarts
    | PauseLook(pause: bool) | PauseStore(pause: bool)

  datatype Act = BeginStart | BeginStop | BeginPause(pause: bool) | SetDuration(infinite: bool) | Proceed
  datatype Event = Executes | Controls(thread: nat, act: Act)

  datatype Mutex = Free | HeldBy(thread: nat)

  /** What loop and controls share: the duration, the events, and the number of calls of proc that have begun. */
  datatype Shared = Shared(infinite: bool, evtStart: bool, evtStop: bool, stopMutex: Mutex, evtPause: bool, calls: nat)

  datatype State = State(executor: Executor, controls: seq<Control>, shared: Shared)

  function Initial(controls: nat, suspended: bool, infinite: bool): State {
    State(WaitStart, seq(controls, _ => Idle), Shared(infinite, !suspended, false, Free, true, 0))
  }

  /** Where the loop goes next. */
  function Execute(x: Executor, h: Shared): Executor {
    match x
    case WaitStart => if h.evtStart then ProbeStop else x
    case ProbeStop =>
      if h.stopMutex != Free then Exited(ProbeBusy) else if h.evtStop then Exited(SawStop) else CheckPause
    case CheckPause => if h.evtPause then Ready else WaitPause
    case WaitPause => if h.evtPause then Ready else x
    case Ready => InProc
    case InProc => ProcDone
    case ProcDone => if h.infinite then Exited(OneShot) else Sleeping
    case Sleeping => ProbeStop
    case Exited(_) => x
  }

  /** What a step of a controlling thread does to the shared state. */
  datatype Effect = NoEffect | SetStart | LockStop' | SetStop | UnlockStop' | SetPause(paused: bool)
                  | SetInfinite(infinite: bool)

  function Command(c: Control, act: Act, h: Shared): (Control, Effect) {
    match act
    case SetDuration(infinite) => (c, SetInfinite(infinite))
    case BeginStart => (if c == Idle then Start else c, NoEffect)
    case BeginStop => (if c == Idle then StopLook else c, NoEffect)
    case BeginPause(pause) => (if c == Idle then PauseLook(pause) else c, NoEffect)
    case Proceed =>
      match c
      case Idle => (c, NoEffect)
      case Start => (Idle, SetStart)
      case StopLook => (if h.infinite then Idle else LockStop, NoEffect)
      case LockStop => if h.stopMutex == Free then (StoreStop, LockStop') else (c, NoEffect)
      case StoreStop => (UnlockStop, SetStop)
      case UnlockStop => (LookStart, UnlockStop')
      case LookStart => (if h.evtStart then Idle else StopStarts, NoEffect)
      case StopStarts => (Idle, SetStart)
      case PauseLook(pause) => (if pause == h.evtPause then PauseStore(pause) else Idle, NoEffect)
      case PauseStore(pause) => (Idle, SetPause(pause))
  }

  function Apply(h: Shared, f: Effect, i: nat): Shared {
    match f
    case NoEffect => h
    case SetInfinite(infinite) => h.(infinite := infinite)
    case SetStart => h.(evtStart := true)
    case LockStop' => h.(stopMutex := HeldBy(i))
    case SetStop => h.(evtStop := true)
    case UnlockStop' => h.(stopMutex := Free)
    case SetPause(paused) => h.(evtPause := !paused)
  }

  function Step(s: State, e: Event): State {
    match e
    case Executes =>
      State(Execute(s.executor, s.shared), s.controls,
            if s.executor == Ready then s.shared.(calls := s.shared.calls + 1) else s.shared)
    case Controls(i, act) =>
      if i >= |s.controls| then s
      else
        var (c, f) := Command(s.controls[i], act, s.shared);
        State(s.executor, s.controls[i := c], Apply(s.shared, f, i))
  }

  // What the controlling threads can do to the shared state, by where they are

  predicate HasStopped(c: Control) { c == UnlockStop || c == LookStart || c == StopStarts }
  predicate Stops(c: Control) { c == StopLook || c == LockStop || c == StoreStop || HasStopped(c) }
  predicate Resumes(c: Control) { c == PauseLook(false) || c == PauseStore(false) }

  lemma CommandFacts(c: Control, act: Act, h: Shared)
    ensures var (c', f) := Command(c, act, h);
            && (f == SetStart ==> c == Start || HasStopped(c))
            && (f in {LockStop', SetStop, UnlockStop'} ==> Stops(c))
            && (f == SetPause(false) ==> Resumes(c))
            && (HasStopped(c') ==> HasStopped(c) || f == SetStop)
            && (c' == Start ==> c == Start || act == BeginStart)
            && (Stops(c') ==> Stops(c) || act == BeginStop)
            && (Resumes(c') ==> Resumes(c) || act == BeginPause(false))
  {}

  predicate Asks(e: Event, act: Act) { e.Controls? && e.act == act }

  // A task that is stopped before it is started

  /** Nobody has asked for a start: whatever has set the start event had set the stop event before. */
  ghost predicate NotStarted(s: State) {
    && s.shared.calls == 0
    && (s.executor in {WaitStart, ProbeStop} || (s.executor.Exited? && s.executor.reason != OneShot))
    && (s.shared.evtStart || s.executor == ProbeStop ==> s.shared.evtStop)
    && (forall i :: 0 <= i < |s.controls| ==> s.controls[i] != Start)
    && (forall i :: 0 <= i < |s.controls| ==> HasStopped(s.controls[i]) ==> s.shared.evtStop)
  }

  lemma NotStartedStep(s: State, e: Event)
    requires NotStarted(s) && !Asks(e, BeginStart)
    ensures NotStarted(Step(s, e))
  {
    hide Command;
    if e.Controls? && e.thread < |s.controls| {
      CommandFacts(s.controls[e.thread], e.act, s.shared);
    }
  }

  /** A task created suspended that nobody starts never runs proc, however often and whenever it is stopped. */
  lemma {:induction false} NeverWithoutStart(controls: nat, infinite: bool, es: seq<Event>)
    requires forall k :: 0 <= k < |es| ==> !Asks(es[k], BeginStart)
    ensures NotStarted(Run(Step, Initial(controls, true, infinite), es))
    decreases |es|
  {
    if es != [] {
      hide Step, NotStarted;
      NeverWithoutStart(controls, infinite, es[..|es| - 1]);
      NotStartedStep(Run(Step, Initial(controls, true, infinite), es[..|es| - 1]), es[|es| - 1]);
    }
  }

  // After a stop

  /** The loop has passed the probe of the stop event since the last call of proc. */
  predicate PastProbe(x: Executor) { x in {CheckPause, WaitPause, Ready} }

  /** The calls that have begun, and the one that can no longer be kept from beginning. */
  function Due(s: State): nat { s.shared.calls + if PastProbe(s.executor) then 1 else 0 }

  lemma StoppedStep(s: State, e: Event)
    requires s.shared.evtStop
    ensures Step(s, e).shared.evtStop && s.shared.calls <= Step(s, e).shared.calls && Due(Step(s, e)) <= Due(s)
  {}

  /** From any state in which the stop event is set, whoever does what: at most one more call of proc begins, and only if
      the loop had passed its probe by then. */
  lemma {:induction false} AtMostOneAfterStop(s: State, es: seq<Event>)
    requires s.shared.evtStop
    ensures var r := Run(Step, s, es); r.shared.evtStop && Due(r) <= Due(s) <= s.shared.calls + 1
    decreases |es|
  {
    if es != [] {
      hide Step;
      AtMostOneAfterStop(s, es[..|es| - 1]);
      StoppedStep(Run(Step, s, es[..|es| - 1]), es[|es| - 1]);
    }
  }

  // While paused

  /** Paused, and nobody about to resume. */
  ghost predicate Paused(s: State) {
    !s.shared.evtPause && forall i :: 0 <= i < |s.controls| ==> !Resumes(s.controls[i])
  }

  function DueWhilePaused(s: State): nat { s.shared.calls + if s.executor == Ready then 1 else 0 }

  lemma PausedStep(s: State, e: Event)
    requires Paused(s) && !Asks(e, BeginPause(false))
    ensures Paused(Step(s, e)) && DueWhilePaused(Step(s, e)) <= DueWhilePaused(s)
    ensures s.executor == WaitPause ==> Step(s, e).executor == WaitPause
  {
    hide Command;
    if e.Controls? && e.thread < |s.controls| {
      CommandFacts(s.controls[e.thread], e.act, s.shared);
    }
  }

  /** From a pause until somebody resumes at most one more call of proc begins, and only if the loop had passed the pause
      by then. A loop that waits there stays there, stopped or not: a stop does not wake it. */
  lemma {:induction false} AtMostOneWhilePaused(s: State, es: seq<Event>)
    requires Paused(s) && forall k :: 0 <= k < |es| ==> !Asks(es[k], BeginPause(false))
    ensures var r := Run(Step, s, es);
            && Paused(r) && DueWhilePaused(r) <= DueWhilePaused(s) <= s.shared.calls + 1
            && (s.executor == WaitPause ==> r.executor == WaitPause)
    decreases |es|
  {
    if es != [] {
      hide Step, Paused;
      AtMostOneWhilePaused(s, es[..|es| - 1]);
      PausedStep(Run(Step, s, es[..|es| - 1]), es[|es| - 1]);
    }
  }

  // The mutex of evt_stop

  predicate HoldsMutex(c: Control) { c == StoreStop || c == UnlockStop }

  ghost predicate MutexKept(s: State) {
    forall i :: 0 <= i < |s.controls| ==> (HoldsMutex(s.controls[i]) <==> s.shared.stopMutex == HeldBy(i))
  }

  lemma CommandLocks(c: Control, act: Act, h: Shared)
    ensures var (c', f) := Command(c, act, h);
            match f
            case LockStop' => h.stopMutex == Free && !HoldsMutex(c) && HoldsMutex(c')
            case UnlockStop' => HoldsMutex(c) && !HoldsMutex(c')
            case _ => HoldsMutex(c) <==> HoldsMutex(c')
  {}

  /** One thread at a time sets the stop event. */
  lemma {:induction false} OneStopsAtATime(controls: nat, suspended: bool, infinite: bool, es: seq<Event>)
    ensures MutexKept(Run(Step, Initial(controls, suspended, infinite), es))
    decreases |es|
  {
    if es != [] {
      OneStopsAtATime(controls, suspended, infinite, es[..|es| - 1]);
      MutexKeptStep(Run(Step, Initial(controls, suspended, infinite), es[..|es| - 1]), es[|es| - 1]);
    }
  }

  lemma MutexKeptStep(s: State, e: Event)
    requires MutexKept(s)
    ensures MutexKept(Step(s, e))
  {
    hide Command, HoldsMutex;
    if e.Controls? && e.thread < |s.controls| {
      CommandLocks(s.controls[e.thread], e.act, s.shared);
    }
  }

  // Leaving the loop

  /** Nobody has begun to stop the task. */
  ghost predicate Unstopped(s: State) {
    && !s.shared.evtStop && s.shared.stopMutex == Free
    && (forall i :: 0 <= i < |s.controls| ==> !Stops(s.controls[i]))
    && (s.executor.Exited? ==> s.executor.reason == OneShot)
  }

  lemma UnstoppedStep(s: State, e: Event)
    requires Unstopped(s) && !Asks(e, BeginStop)
    ensures Unstopped(Step(s, e))
  {
    hide Command;
    if e.Controls? && e.thread < |s.controls| {
      CommandFacts(s.controls[e.thread], e.act, s.shared);
    }
  }

  /** A loop that is not one-shot is left only once somebody has begun a stop; the probe never loses its trylock to
      anybody else. */
  lemma {:induction false} ExitsOnlyAfterStop(controls: nat, suspended: bool, infinite: bool, es: seq<Event>)
    requires forall k :: 0 <= k < |es| ==> !Asks(es[k], BeginStop)
    ensures Unstopped(Run(Step, Initial(controls, suspended, infinite), es))
    decreases |es|
  {
    if es != [] {
      hide Step, Unstopped;
      ExitsOnlyAfterStop(controls, suspended, infinite, es[..|es| - 1]);
      UnstoppedStep(Run(Step, Initial(controls, suspended, infinite), es[..|es| - 1]), es[|es| - 1]);
    }
  }

  // Before the start

  /** The loop is past its wait only when the start event is set. */
  ghost predicate StartedFirst(s: State) {
    s.executor != WaitStart || s.shared.calls > 0 ==> s.executor != WaitStart && s.shared.evtStart
  }

  /** proc never begins before the start event is set, whoever sets it. */
  lemma {:induction false} StartsBeforeProc(controls: nat, suspended: bool, infinite: bool, es: seq<Event>)
    ensures StartedFirst(Run(Step, Initial(controls, suspended, infinite), es))
    decreases |es|
  {
    if es != [] {
      StartsBeforeProc(controls, suspended, infinite, es[..|es| - 1]);
    }
  }

  // What loop and controls do when nothing comes between their steps

  function Turns(s: State, n: nat): State { if n == 0 then s else Step(Turns(s, n - 1), Executes) }

  function Orders(s: State, i: nat, n: nat): State {
    if n == 0 then s else Step(Orders(s, i, n - 1), Controls(i, Proceed))
  }

  /** A loop that is neither stopped nor paused calls proc once a turn; only a one-shot loop is left after it. */
  lemma {:induction false} TurnCallsProc(s: State)
    requires s.executor == ProbeStop && !s.shared.evtStop && s.shared.stopMutex == Free && s.shared.evtPause
    ensures Turns(s, 5) == s.(executor := if s.shared.infinite then Exited(OneShot) else Sleeping,
                              shared := s.shared.(calls := s.shared.calls + 1))
  {
    assert Turns(s, 1) == s.(executor := CheckPause);
    assert Turns(s, 2) == s.(executor := Ready);
    assert Turns(s, 3) == s.(executor := InProc, shared := s.shared.(calls := s.shared.calls + 1));
    assert Turns(s, 4) == s.(executor := ProcDone, shared := s.shared.(calls := s.shared.calls + 1));
  }

  /** What cplus_task_stop leaves behind: both events set, and evt_stop's mutex free again. */
  lemma {:induction false} StopSignals(s: State, i: nat)
    requires i < |s.controls| && s.controls[i] == StopLook && s.shared.stopMutex == Free && !s.shared.infinite
    ensures exists n: nat :: Orders(s, i, n) ==
              s.(controls := s.controls[i := Idle], shared := s.shared.(evtStop := true, evtStart := true))
  {
    var stopped := s.shared.(evtStop := true);
    assert Orders(s, i, 1) == s.(controls := s.controls[i := LockStop]);
    assert Orders(s, i, 2) == s.(controls := s.controls[i := StoreStop], shared := s.shared.(stopMutex := HeldBy(i)));
    assert Orders(s, i, 3) == s.(controls := s.controls[i := UnlockStop], shared := stopped.(stopMutex := HeldBy(i)));
    assert Orders(s, i, 4) == s.(controls := s.controls[i := LookStart], shared := stopped);
    if s.shared.evtStart {
      assert Orders(s, i, 5) == s.(controls := s.controls[i := Idle], shared := stopped);
    } else {
      assert Orders(s, i, 5) == s.(controls := s.controls[i := StopStarts], shared := stopped);
      assert Orders(s, i, 6) == s.(controls := s.controls[i := Idle], shared := stopped.(evtStart := true));
    }
  }

  /** At most this many turns lead out of a loop that has been stopped. */
  function Left(x: Executor): nat {
    match x
    case Exited(_) => 0
    case ProbeStop => 1
    case WaitStart => 2
    case Sleeping => 2
    case ProcDone => 3
    case InProc => 4
    case Ready => 5
    case _ => 6
  }

  ghost predicate Stopped(s: State) { s.shared.evtStop && s.shared.evtStart && s.shared.stopMutex == Free }

  predicate HeldByPause(s: State) { !s.shared.evtPause && s.executor in {CheckPause, WaitPause} }

  lemma {:induction false} TurnsFirst(s: State, n: nat)
    ensures Turns(s, n + 1) == Turns(Step(s, Executes), n)
  {
    if n > 0 {
      hide Step;
      TurnsFirst(s, n - 1);
    }
  }

  lemma {:induction false} StoppedEnds(s: State)
    requires Stopped(s) && !HeldByPause(s)
    ensures exists n: nat :: Turns(s, n).executor.Exited?
    decreases Left(s.executor)
  {
    if s.executor.Exited? {
      assert Turns(s, 0).executor.Exited?;
    } else {
      var t := Step(s, Executes);
      StoppedEnds(t);
      var n: nat :| Turns(t, n).executor.Exited?;
      TurnsFirst(s, n);
    }
  }

  lemma {:induction false} HeldStays(s: State, n: nat)
    requires HeldByPause(s)
    ensures HeldByPause(Turns(s, n))
  {
    if n > 0 {
      HeldStays(s, n - 1);
    }
  }

  /** Left alone after a stop, the loop comes to its end if and only if a pause does not hold it. */
  lemma {:induction false} StoppedEndsIff(s: State)
    requires Stopped(s)
    ensures (exists n: nat :: Turns(s, n).executor.Exited?) <==> !HeldByPause(s)
  {
    if HeldByPause(s) {
      forall n: nat ensures !Turns(s, n).executor.Exited? { HeldStays(s, n); }
    } else {
      StoppedEnds(s);
    }
  }

  // Requests, from the moment they are made

  /** Control i is asked for something, and then takes n steps. */
  function Asked(s: State, i: nat, act: Act, n: nat): State { Orders(Step(s, Controls(i, act)), i, n) }

  ghost predicate IdleControl(s: State, i: nat) { i < |s.controls| && s.controls[i] == Idle }

  /** A request ends, the control is idle again, and what the threads share is this. */
  ghost predicate Leaves(s: State, i: nat, act: Act, shared: Shared) {
    exists n: nat :: Asked(s, i, act, n) == State(s.executor, s.controls, shared)
  }

  lemma LeavesAfter(s: State, i: nat, act: Act, shared: Shared, n: nat)
    requires Asked(s, i, act, n) == State(s.executor, s.controls, shared)
    ensures Leaves(s, i, act, shared)
  {}

  /** cplus_task_start signals the start. */
  lemma StartSignals(s: State, i: nat)
    requires IdleControl(s, i)
    ensures Leaves(s, i, BeginStart, s.shared.(evtStart := true))
  {
    assert Asked(s, i, BeginStart, 0) == s.(controls := s.controls[i := Start]);
    assert s.controls[i := Start][i := Idle] == s.controls;
    LeavesAfter(s, i, BeginStart, s.shared.(evtStart := true), 1);
  }

  /** cplus_task_pause pauses and resumes, whatever was before. */
  lemma PauseSignals(s: State, i: nat, pause: bool)
    requires IdleControl(s, i)
    ensures Leaves(s, i, BeginPause(pause), s.shared.(evtPause := !pause))
  {
    assert Asked(s, i, BeginPause(pause), 0) == s.(controls := s.controls[i := PauseLook(pause)]);
    if pause == s.shared.evtPause {
      assert s.controls[i := PauseLook(pause)][i := PauseStore(pause)][i := Idle] == s.controls;
      assert Asked(s, i, BeginPause(pause), 1) == s.(controls := s.controls[i := PauseStore(pause)]);
      LeavesAfter(s, i, BeginPause(pause), s.shared.(evtPause := !pause), 2);
    } else {
      assert s.controls[i := PauseLook(pause)][i := Idle] == s.controls;
      LeavesAfter(s, i, BeginPause(pause), s.shared, 1);
    }
  }

  /** cplus_task_stop signals stop and start, unless the task is one-shot: then it does nothing. */
  lemma StopLeaves(s: State, i: nat)
    requires IdleControl(s, i) && s.shared.stopMutex == Free
    ensures Leaves(s, i, BeginStop,
                   if s.shared.infinite then s.shared else s.shared.(evtStop := true, evtStart := true))
  {
    var t := Step(s, Controls(i, BeginStop));
    assert t == s.(controls := s.controls[i := StopLook]);
    if s.shared.infinite {
      assert s.controls[i := StopLook][i := Idle] == s.controls;
      assert Orders(t, i, 0) == t;
      assert Orders(t, i, 1) == State(s.executor, s.controls, s.shared);
      LeavesAfter(s, i, BeginStop, s.shared, 1);
    } else {
      StopSignals(t, i);
      assert t.controls[i := Idle] == s.controls;
      var n: nat :| Orders(t, i, n) == t.(controls := t.controls[i := Idle],
                                          shared := t.shared.(evtStop := true, evtStart := true));
      LeavesAfter(s, i, BeginStop, s.shared.(evtStop := true, evtStart := true), n);
    }
  }

  /** cplus_task_set_duration */
  lemma DurationSet(s: State, i: nat, infinite: bool)
    requires i < |s.controls|
    ensures Step(s, Controls(i, SetDuration(infinite))) == s.(shared := s.shared.(infinite := infinite))
  {
    assert s.controls[i := s.controls[i]] == s.controls;
  }

  /** The loop, left alone, gets to its next call of proc. */
  ghost predicate CallsProc(s: State) {
    exists n: nat :: Turns(s, n) == s.(executor := InProc, shared := s.shared.(calls := s.shared.calls + 1))
  }

  /** No stop is under way. */
  predicate Unhindered(s: State) { !s.shared.evtStop && s.shared.stopMutex == Free }

  /** How many turns it takes there. */
  function ToProc(x: Executor): nat {
    match x
    case Ready => 1
    case CheckPause => 2
    case WaitPause => 2
    case ProbeStop => 3
    case WaitStart => 4
    case Sleeping => 4
    case _ => 0
  }

  /** A loop that has been started and is neither stopped nor held by a pause calls proc, wherever it waits. */
  lemma {:induction false} ReachesProc(s: State)
    requires ToProc(s.executor) > 0 && s.shared.evtStart && s.shared.evtPause && Unhindered(s)
    ensures CallsProc(s)
    decreases ToProc(s.executor)
  {
    var t := Step(s, Executes);
    if s.executor == Ready {
      assert Turns(s, 1) == t;
    } else {
      ReachesProc(t);
      var n: nat :| Turns(t, n) == t.(executor := InProc, shared := t.shared.(calls := t.shared.calls + 1));
      TurnsFirst(s, n);
    }
  }

  /** A task created suspended calls proc once it has been started. */
  lemma {:induction false} StartedCallsProc(s: State, i: nat)
    requires IdleControl(s, i) && s.executor == WaitStart && s.shared.evtPause && Unhindered(s)
    ensures exists n: nat :: var t := Asked(s, i, BeginStart, n);
              t == s.(shared := s.shared.(evtStart := true)) && CallsProc(t)
  {
    StartSignals(s, i);
    var n: nat :| Asked(s, i, BeginStart, n) == State(s.executor, s.controls, s.shared.(evtStart := true));
    ReachesProc(Asked(s, i, BeginStart, n));
  }

  /** A task that is not created suspended calls proc by itself; one that is waits. */
  lemma {:induction false} NewTask(controls: nat, infinite: bool)
    ensures CallsProc(Initial(controls, false, infinite))
    ensures Step(Initial(controls, true, infinite), Executes) == Initial(controls, true, infinite)
  {
    ReachesProc(Initial(controls, false, infinite));
  }

  /** A loop held by a pause calls proc once it has been resumed. */
  lemma {:induction false} ResumedCallsProc(s: State, i: nat)
    requires IdleControl(s, i) && s.executor == WaitPause && s.shared.evtStart && Unhindered(s)
    ensures exists n: nat :: var t := Asked(s, i, BeginPause(false), n);
              t == s.(shared := s.shared.(evtPause := true)) && CallsProc(t)
  {
    PauseSignals(s, i, false);
    var n: nat :| Asked(s, i, BeginPause(false), n) == State(s.executor, s.controls, s.shared.(evtPause := true));
    ReachesProc(Asked(s, i, BeginPause(false), n));
  }

  /** The probe leaves the loop if and only if the task has been stopped, or somebody holds the mutex of evt_stop. */
  lemma ProbeIff(s: State)
    requires s.executor == ProbeStop
    ensures Step(s, Executes).executor.Exited? <==> s.shared.evtStop || s.shared.stopMutex != Free
    ensures Step(s, Executes).shared == s.shared && Step(s, Executes).controls == s.controls
  {}

  /** A periodic loop calls proc over and over. */
  lemma {:induction false} Periodic(s: State, k: nat)
    requires s.executor == ProbeStop && Unhindered(s) && s.shared.evtPause && !s.shared.infinite
    ensures Turns(s, 6 * k) == s.(shared := s.shared.(calls := s.shared.calls + k))
  {
    if k > 0 {
      Periodic(s, k - 1);
      var t := Turns(s, 6 * (k - 1));
      TurnCallsProc(t);
      TurnsMore(s, 6 * (k - 1), 5);
      assert Turns(s, 6 * k) == Step(Turns(s, 6 * k - 1), Executes);
    }
  }

  lemma {:induction false} TurnsMore(s: State, m: nat, n: nat)
    ensures Turns(s, m + n) == Turns(Turns(s, m), n)
  {
    if n > 0 {
      hide Step;
      TurnsMore(s, m, n - 1);
    }
  }
}
