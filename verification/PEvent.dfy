/** The events of src/pevent.c: a flag under a mutex, with a condition variable, used by any number of threads whose
    steps interleave. Every operation takes effect at one point, and what was logged there is legal for an atomic
    event. */
module PEvent {
  import opened Runs

  datatype Timeout = Zero | Finite | Infinite

  /** Where a thread is. Those marked with a star hold the event's mutex. */
  datatype Pc =
    | Idle
    // cplus_pevent_wait and unlock_and_wait_cond
    | WaitEnter(t: Timeout) | WaitCheck(t: Timeout) /* * */ | Asleep(t: Timeout) | Awake(t: Timeout, timedOut: bool)
    | WaitAgain(t: Timeout, timedOut: bool) /* * */ | WaitLeave /* * */
    // cplus_pevent_set
    | SetEnter | SetStore /* * */ | SetSignal /* * */ | SetLeave /* * */
    // cplus_pevent_reset
    | ResetEnter | ResetStore /* * */ | ResetLeave /* * */

  datatype Mutex = Free | HeldBy(thread: nat)

  /** What an operation did, at the point where it did it. A wait fails because the event is not set and it may not
      sleep (EAGAIN), because it may not even wait for the mutex (EBUSY), or because time is up (ETIMEDOUT). */
  datatype Entry = DidSet | DidReset | WaitOk | WaitEmpty | WaitBusy | WaitTimedOut

  datatype State = State(threads: seq<Pc>, mutex: Mutex, setted: bool, broadcast: bool, log: seq<Entry>)

  datatype Act = BeginWait(t: Timeout) | BeginSet | BeginReset | Proceed | SpuriousWakeUp | TimeUp
  /** pick is the thread that a signal wakes, if it sleeps. */
  datatype Event = Event(thread: nat, act: Act, pick: nat)

  function Initial(threads: nat, broadcast: bool): State {
    State(seq(threads, _ => Idle), Free, false, broadcast, [])
  }

  predicate Holds(pc: Pc) {
    || pc.WaitCheck? || pc.WaitAgain? || pc.WaitLeave? || pc.SetStore? || pc.SetSignal? || pc.SetLeave?
    || pc.ResetStore? || pc.ResetLeave?
  }

  function Goto(s: State, i: nat, pc: Pc): State
    requires i < |s.threads|
  {
    s.(threads := s.threads[i := pc])
  }

  function Lock(s: State, i: nat, pc: Pc): State
    requires i < |s.threads|
  {
    if s.mutex == Free then Goto(s, i, pc).(mutex := HeldBy(i)) else s
  }

  function Release(s: State, i: nat, pc: Pc): State
    requires i < |s.threads|
  {
    Goto(s, i, pc).(mutex := Free)
  }

  /** A successful wait takes the flag of an event that is not broadcast. */
  function Succeed(s: State, i: nat): State
    requires i < |s.threads|
  {
    Goto(s, i, WaitLeave).(setted := s.setted && s.broadcast, log := s.log + [WaitOk])
  }

  function Fail(s: State, i: nat, why: Entry): State
    requires i < |s.threads|
  {
    Goto(s, i, WaitLeave).(log := s.log + [why])
  }

  function WaitStep(s: State, i: nat): State
    requires i < |s.threads|
  {
    match s.threads[i]
    case WaitEnter(t) =>
      if t == Zero && s.mutex != Free then Goto(s, i, Idle).(log := s.log + [WaitBusy]) else Lock(s, i, WaitCheck(t))
    case WaitCheck(t) =>
      if s.setted then Succeed(s, i)
      else if t == Zero then Fail(s, i, WaitEmpty)
      else Release(s, i, Asleep(t))
    case Awake(t, late) => Lock(s, i, WaitAgain(t, late))
    case WaitAgain(t, late) =>
      if late then Fail(s, i, WaitTimedOut)
      else if s.setted then Succeed(s, i)
      else Release(s, i, Asleep(t))
    case WaitLeave => Release(s, i, Idle)
    case _ => s
  }

  function Wake(pc: Pc): Pc { if pc.Asleep? then Awake(pc.t, false) else pc }

  function WakeAll(threads: seq<Pc>): (r: seq<Pc>)
    ensures |r| == |threads| && forall i :: 0 <= i < |r| ==> r[i] == Wake(threads[i])
  {
    seq(|threads|, i requires 0 <= i < |threads| => Wake(threads[i]))
  }

  function FirstAsleep(threads: seq<Pc>): (k: nat)
    ensures k <= |threads| && (k < |threads| ==> threads[k].Asleep?)
    ensures forall i :: 0 <= i < k ==> !threads[i].Asleep?
  {
    if threads == [] || threads[0].Asleep? then 0 else 1 + FirstAsleep(threads[1..])
  }

  /** pthread_cond_signal: one of those who sleep, if any. */
  function WakeOne(threads: seq<Pc>, pick: nat): (r: seq<Pc>)
    ensures |r| == |threads|
  {
    var k := if pick < |threads| && threads[pick].Asleep? then pick else FirstAsleep(threads);
    if k < |threads| then threads[k := Wake(threads[k])] else threads
  }

  function SetStep(s: State, i: nat, pick: nat): State
    requires i < |s.threads|
  {
    match s.threads[i]
    case SetEnter => Lock(s, i, SetStore)
    case SetStore => Goto(s, i, SetSignal).(setted := true, log := s.log + [DidSet])
    case SetSignal =>
      var woken := if s.broadcast then WakeAll(s.threads) else WakeOne(s.threads, pick);
      s.(threads := woken[i := SetLeave])
    case SetLeave => Release(s, i, Idle)
    case ResetEnter => Lock(s, i, ResetStore)
    case ResetStore => Goto(s, i, ResetLeave).(setted := false, log := s.log + [DidReset])
    case ResetLeave => Release(s, i, Idle)
    case _ => s
  }

  predicate Waits(pc: Pc) {
    pc.WaitEnter? || pc.WaitCheck? || pc.Asleep? || pc.Awake? || pc.WaitAgain? || pc.WaitLeave?
  }

  function Step(s: State, e: Event): State {
    if e.thread >= |s.threads| then s
    else
      var pc := s.threads[e.thread];
      match e.act
      case BeginWait(t) => if pc.Idle? then Goto(s, e.thread, WaitEnter(t)) else s
      case BeginSet => if pc.Idle? then Goto(s, e.thread, SetEnter) else s
      case BeginReset => if pc.Idle? then Goto(s, e.thread, ResetEnter) else s
      case SpuriousWakeUp => Goto(s, e.thread, Wake(pc))
      case TimeUp => if pc.Asleep? && pc.t == Finite then Goto(s, e.thread, Awake(pc.t, true)) else s
      case Proceed => if Waits(pc) then WaitStep(s, e.thread) else SetStep(s, e.thread, e.pick)
  }

  // The atomic event

  /** The flag of an atomic event after this log. */
  function Flag(broadcast: bool, log: seq<Entry>): bool
    decreases |log|
  {
    if log == [] then false
    else
      var before := Flag(broadcast, log[..|log| - 1]);
      match log[|log| - 1]
      case DidSet => true
      case DidReset => false
      case WaitOk => before && broadcast
      case _ => before
  }

  /** Waits succeed only when the event is set, and find it empty only when it is not. */
  ghost predicate Legal(broadcast: bool, log: seq<Entry>) {
    forall k {:trigger log[k]} :: 0 <= k < |log| ==>
      && (log[k] == WaitOk ==> Flag(broadcast, log[..k]))
      && (log[k] == WaitEmpty ==> !Flag(broadcast, log[..k]))
  }

  /** Nobody sleeps through a set: once it has signalled, a broadcast event that is set has no sleepers, and of an
      event that is not broadcast some waiter is awake to take the flag. */
  ghost predicate NoLostWakeUp(s: State) {
    s.setted ==>
      || (forall i :: 0 <= i < |s.threads| ==> !s.threads[i].Asleep?)
      || (exists i :: 0 <= i < |s.threads| && s.threads[i].SetSignal?)
      || (!s.broadcast && exists i :: 0 <= i < |s.threads| && OnItsWay(s.threads[i]))
  }

  predicate OnItsWay(pc: Pc) { (pc.Awake? || pc.WaitAgain?) && !pc.timedOut }

  ghost predicate MutualExclusion(s: State) {
    forall i :: 0 <= i < |s.threads| ==> (Holds(s.threads[i]) <==> s.mutex == HeldBy(i))
  }

  ghost predicate Inv(s: State) {
    && MutualExclusion(s)
    && s.setted == Flag(s.broadcast, s.log) && Legal(s.broadcast, s.log)
    && NoLostWakeUp(s)
  }

  lemma FlagSnoc(broadcast: bool, log: seq<Entry>, e: Entry)
    requires Legal(broadcast, log)
    requires e == WaitOk ==> Flag(broadcast, log)
    requires e == WaitEmpty ==> !Flag(broadcast, log)
    ensures Legal(broadcast, log + [e])
    ensures Flag(broadcast, log + [e]) ==
            match e case DidSet => true case DidReset => false case WaitOk => broadcast case _ => Flag(broadcast, log)
  {
    var r := log + [e];
    assert r[..|log|] == log;
    forall k | 0 <= k < |log| ensures r[..k] == log[..k] {}
  }

  lemma GotoExcludes(s: State, i: nat, pc: Pc, mutex: Mutex, log: seq<Entry>, setted: bool)
    requires MutualExclusion(s) && i < |s.threads|
    requires (Holds(pc) == Holds(s.threads[i]) && mutex == s.mutex)
          || (s.mutex == Free && mutex == HeldBy(i) && Holds(pc))
          || (Holds(s.threads[i]) && mutex == Free && !Holds(pc))
    ensures MutualExclusion(State(s.threads[i := pc], mutex, setted, s.broadcast, log))
  {}

  /** A step of thread i that moves only this thread, and the mutex with it, and puts no one to sleep, nor loses one who
      is on its way, while the event is set. */
  ghost predicate Moves(s: State, r: State, i: nat)
    requires i < |s.threads|
  {
    i < |r.threads| &&
    var pc, pc' := s.threads[i], r.threads[i];
    && r.threads == s.threads[i := pc']
    && (|| (Holds(pc') == Holds(pc) && r.mutex == s.mutex)
        || (s.mutex == Free && r.mutex == HeldBy(i) && Holds(pc'))
        || (Holds(pc) && r.mutex == Free && !Holds(pc')))
    && (s.setted && r.setted && pc'.Asleep? ==> pc.Asleep?)
    && (s.setted && r.setted && OnItsWay(pc) ==> OnItsWay(pc') || pc'.Asleep? || s.broadcast)
    && (pc.SetSignal? ==> pc'.SetSignal?)
    && (!s.setted && r.setted ==> pc'.SetSignal?)
    && r.broadcast == s.broadcast
  }

  lemma WaitMoves(s: State, i: nat)
    requires i < |s.threads|
    ensures Moves(s, WaitStep(s, i), i)
  {}

  lemma SetMoves(s: State, i: nat, pick: nat)
    requires i < |s.threads| && s.threads[i] != SetSignal
    ensures Moves(s, SetStep(s, i, pick), i)
  {}

  /** Whatever a thread does but signal. */
  lemma StepMoves(s: State, e: Event)
    requires e.thread < |s.threads| && !(e.act == Proceed && s.threads[e.thread] == SetSignal)
    ensures Moves(s, Step(s, e), e.thread)
  {
    hide WaitStep, SetStep;
    WaitMoves(s, e.thread);
    if s.threads[e.thread] != SetSignal {
      SetMoves(s, e.thread, e.pick);
    }
  }

  lemma SignalWakes(s: State, i: nat, pick: nat)
    requires i < |s.threads| && s.threads[i] == SetSignal
    ensures var r := SetStep(s, i, pick);
            && r.threads[i] == SetLeave && r.mutex == s.mutex && |r.threads| == |s.threads|
            && (forall j :: 0 <= j < |s.threads| && j != i ==> r.threads[j] == s.threads[j] || r.threads[j] == Wake(s.threads[j]))
            && (|| (forall j :: 0 <= j < |r.threads| ==> !r.threads[j].Asleep?)
                || (!s.broadcast && exists j :: 0 <= j < |r.threads| && OnItsWay(r.threads[j])))
  {
    var r := SetStep(s, i, pick);
    if !s.broadcast {
      var k := if pick < |s.threads| && s.threads[pick].Asleep? then pick else FirstAsleep(s.threads);
      if k < |s.threads| {
        assert k != i && OnItsWay(r.threads[k]);
      }
    }
  }

  lemma StepExcludes(s: State, e: Event)
    requires MutualExclusion(s)
    ensures MutualExclusion(Step(s, e))
  {
    if e.thread < |s.threads| {
      var r := Step(s, e);
      if e.act == Proceed && s.threads[e.thread] == SetSignal {
        SignalWakes(s, e.thread, e.pick);
        assert r == SetStep(s, e.thread, e.pick);
        forall j | 0 <= j < |r.threads| ensures Holds(r.threads[j]) <==> r.mutex == HeldBy(j) {
          assert Holds(s.threads[j]) <==> s.mutex == HeldBy(j);
        }
      } else {
        hide Step;
        StepMoves(s, e);
        GotoExcludes(s, e.thread, r.threads[e.thread], r.mutex, r.log, r.setted);
      }
    }
  }

  /** The log gains at most one entry, and it says what happened to the flag. */
  lemma StepLogs(s: State, e: Event)
    ensures var r := Step(s, e);
            && r.broadcast == s.broadcast
            && (|| (r.log == s.log && r.setted == s.setted)
                || (r.log == s.log + [DidSet] && r.setted)
                || (r.log == s.log + [DidReset] && !r.setted)
                || (r.log == s.log + [WaitOk] && s.setted && r.setted == s.broadcast)
                || (r.log == s.log + [WaitEmpty] && !s.setted && !r.setted)
                || (r.log == s.log + [WaitBusy] && r.setted == s.setted)
                || (r.log == s.log + [WaitTimedOut] && r.setted == s.setted))
  {}

  lemma StepWakes(s: State, e: Event)
    requires NoLostWakeUp(s)
    ensures NoLostWakeUp(Step(s, e))
  {
    var r := Step(s, e);
    if e.thread < |s.threads| && r.setted {
      var i := e.thread;
      if e.act == Proceed && s.threads[i] == SetSignal {
        SignalWakes(s, i, e.pick);
      } else {
        hide Step;
        StepMoves(s, e);
        if !s.setted {
          assert r.threads[i].SetSignal?;
        } else if j :| 0 <= j < |s.threads| && s.threads[j].SetSignal? {
          assert r.threads[j].SetSignal?;
        } else if !s.broadcast && exists j :: 0 <= j < |s.threads| && OnItsWay(s.threads[j]) {
          var j :| 0 <= j < |s.threads| && OnItsWay(s.threads[j]);
          assert OnItsWay(r.threads[j]);
        }
      }
    }
  }

  lemma StepKeeps(s: State, e: Event)
    requires Inv(s)
    ensures Inv(Step(s, e)) && Step(s, e).broadcast == s.broadcast
  {
    hide Step, MutualExclusion, NoLostWakeUp, Legal, Flag;
    StepExcludes(s, e);
    StepLogs(s, e);
    StepWakes(s, e);
    var r := Step(s, e);
    if r.log != s.log {
      FlagSnoc(s.broadcast, s.log, r.log[|r.log| - 1]);
    }
  }

  /** However the threads interleave, wake up spuriously and run out of time, the flag is that of the atomic event, the
      log is legal for it, and no wake-up is lost. */
  lemma {:induction false} RunKeeps(threads: nat, broadcast: bool, es: seq<Event>)
    ensures var s := Run(Step, Initial(threads, broadcast), es); Inv(s) && s.broadcast == broadcast
    decreases |es|
  {
    hide Step, Inv;
    if es == [] {
      assert Inv(Initial(threads, broadcast)) by { InitialInv(threads, broadcast); }
    } else {
      RunKeeps(threads, broadcast, es[..|es| - 1]);
      StepKeeps(Run(Step, Initial(threads, broadcast), es[..|es| - 1]), es[|es| - 1]);
    }
  }

  lemma InitialInv(threads: nat, broadcast: bool)
    ensures Inv(Initial(threads, broadcast))
  {}

  function Occurrences(log: seq<Entry>, e: Entry): nat
    decreases |log|
  {
    if log == [] then 0 else Occurrences(log[..|log| - 1], e) + if log[|log| - 1] == e then 1 else 0
  }

  lemma LegalPrefix(broadcast: bool, log: seq<Entry>)
    requires Legal(broadcast, log) && log != []
    ensures Legal(broadcast, log[..|log| - 1])
    ensures log[|log| - 1] == WaitOk ==> Flag(broadcast, log[..|log| - 1])
  {
    var front := log[..|log| - 1];
    forall k | 0 <= k < |front| ensures front[..k] == log[..k] && front[k] == log[k] {}
  }

  /** On an event that is not broadcast every set lets at most one wait through. */
  lemma {:induction false} TokensOfLog(log: seq<Entry>)
    requires Legal(false, log)
    ensures Occurrences(log, WaitOk) + (if Flag(false, log) then 1 else 0) <= Occurrences(log, DidSet)
    decreases |log|
  {
    if log != [] {
      LegalPrefix(false, log);
      TokensOfLog(log[..|log| - 1]);
    }
  }

  /** On a broadcast event a wait succeeds only if there was a set since the last reset. */
  lemma {:induction false} SetSinceReset(log: seq<Entry>)
    requires Flag(true, log)
    ensures exists j :: 0 <= j < |log| && log[j] == DidSet && forall k :: j < k < |log| ==> log[k] != DidReset
    decreases |log|
  {
    var front := log[..|log| - 1];
    if log[|log| - 1] == DidSet {
      assert log[|log| - 1] == DidSet;
    } else {
      SetSinceReset(front);
      var j :| 0 <= j < |front| && front[j] == DidSet && forall k :: j < k < |front| ==> front[k] != DidReset;
      assert log[j] == DidSet;
      assert forall k :: j < k < |front| ==> log[k] == front[k];
    }
  }

  /** Token accounting in every reachable state. */
  lemma {:induction false} AutoResetTokens(threads: nat, es: seq<Event>)
    ensures var s := Run(Step, Initial(threads, false), es);
            Occurrences(s.log, WaitOk) + (if s.setted then 1 else 0) <= Occurrences(s.log, DidSet)
  {
    RunKeeps(threads, false, es);
    TokensOfLog(Run(Step, Initial(threads, false), es).log);
  }

  lemma {:induction false} BroadcastWaits(threads: nat, es: seq<Event>, i: nat)
    requires var log := Run(Step, Initial(threads, true), es).log; i < |log| && log[i] == WaitOk
    ensures var log := Run(Step, Initial(threads, true), es).log;
            exists j :: 0 <= j < i && log[j] == DidSet && forall k :: j < k < i ==> log[k] != DidReset
  {
    RunKeeps(threads, true, es);
    var log := Run(Step, Initial(threads, true), es).log;
    SetSinceReset(log[..i]);
    var j :| 0 <= j < i && log[..i][j] == DidSet && forall k :: j < k < i ==> log[..i][k] != DidReset;
    assert log[j] == DidSet;
    assert forall k :: j < k < i ==> log[k] == log[..i][k];
  }

  // What each operation does when nothing comes between its steps

  function Alone(s: State, i: nat, pick: nat, steps: nat): State {
    if steps == 0 then s else Step(Alone(s, i, pick, steps - 1), Event(i, Proceed, pick))
  }

  /** The event after thread i has finished an operation that leaves the flag like this. */
  function Finished(s: State, i: nat, setted: bool, entry: Entry): State
    requires i < |s.threads|
  {
    State(s.threads[i := Idle], Free, setted, s.broadcast, s.log + [entry])
  }

  /** cplus_pevent_wait: on an event that is set it succeeds, and takes the flag unless the event is broadcast; otherwise
      it fails at once or goes to sleep without the mutex. */
  lemma WaitAlone(s: State, i: nat, pick: nat, t: Timeout)
    requires i < |s.threads| && s.threads[i] == WaitEnter(t) && s.mutex == Free
    ensures Alone(s, i, pick, 3) == if s.setted then Finished(s, i, s.broadcast, WaitOk)
                                    else if t == Zero then Finished(s, i, false, WaitEmpty)
                                    else s.(threads := s.threads[i := Asleep(t)])
  {
    assert Alone(s, i, pick, 1) == s.(threads := s.threads[i := WaitCheck(t)], mutex := HeldBy(i));
    assert Alone(s, i, pick, 2) == Step(Alone(s, i, pick, 1), Event(i, Proceed, pick));
    assert s.threads[i := WaitCheck(t)][i := WaitLeave][i := Idle] == s.threads[i := Idle];
    assert s.threads[i := WaitCheck(t)][i := Asleep(t)] == s.threads[i := Asleep(t)];
  }

  /** A waiter that has been woken: if its time was up it fails, and takes nothing even from an event that is set;
      otherwise it looks at the flag again. */
  lemma WokenAlone(s: State, i: nat, pick: nat, t: Timeout, late: bool)
    requires i < |s.threads| && s.threads[i] == Awake(t, late) && s.mutex == Free
    ensures Alone(s, i, pick, 3) == if late then Finished(s, i, s.setted, WaitTimedOut)
                                    else if s.setted then Finished(s, i, s.broadcast, WaitOk)
                                    else s.(threads := s.threads[i := Asleep(t)])
  {
    assert Alone(s, i, pick, 1) == s.(threads := s.threads[i := WaitAgain(t, late)], mutex := HeldBy(i));
    assert Alone(s, i, pick, 2) == Step(Alone(s, i, pick, 1), Event(i, Proceed, pick));
    assert s.threads[i := WaitAgain(t, late)][i := WaitLeave][i := Idle] == s.threads[i := Idle];
    assert s.threads[i := WaitAgain(t, late)][i := Asleep(t)] == s.threads[i := Asleep(t)];
  }

  /** cplus_pevent_reset */
  lemma ResetAlone(s: State, i: nat, pick: nat)
    requires i < |s.threads| && s.threads[i] == ResetEnter && s.mutex == Free
    ensures Alone(s, i, pick, 3) == Finished(s, i, false, DidReset)
  {
    assert Alone(s, i, pick, 1) == s.(threads := s.threads[i := ResetStore], mutex := HeldBy(i));
    assert Alone(s, i, pick, 2) == Step(Alone(s, i, pick, 1), Event(i, Proceed, pick));
    assert s.threads[i := ResetStore][i := ResetLeave][i := Idle] == s.threads[i := Idle];
  }

  /** The threads once thread i has set the event: all who slept are woken, or one of them if the event is not
      broadcast. */
  ghost predicate Signalled(threads: seq<Pc>, i: nat, broadcast: bool, after: seq<Pc>)
    requires i < |threads|
  {
    if broadcast then after == WakeAll(threads)[i := Idle]
    else if FirstAsleep(threads) == |threads| then after == threads[i := Idle]
    else exists j :: 0 <= j < |threads| && threads[j].Asleep? && after == threads[j := Wake(threads[j])][i := Idle]
  }

  /** cplus_pevent_set: the flag is set, and sleepers are woken. */
  lemma SetAlone(s: State, i: nat, pick: nat)
    requires i < |s.threads| && s.threads[i] == SetEnter && s.mutex == Free
    ensures var r := Alone(s, i, pick, 4);
            && r == Finished(s, i, true, DidSet).(threads := r.threads)
            && Signalled(s.threads, i, s.broadcast, r.threads)
  {
    var s2 := s.(threads := s.threads[i := SetSignal], mutex := HeldBy(i), setted := true, log := s.log + [DidSet]);
    SetReachesSignal(s, i, pick);
    var woken := if s.broadcast then WakeAll(s2.threads) else WakeOne(s2.threads, pick);
    hide WakeAll, WakeOne, Signalled;
    assert Alone(s, i, pick, 3) == s2.(threads := woken[i := SetLeave]);
    assert woken[i := SetLeave][i := Idle] == woken[i := Idle];
    assert Alone(s, i, pick, 4) == s2.(threads := woken[i := Idle], mutex := Free);
    SignalledBy(s.threads, i, s.broadcast, pick);
  }

  lemma SignalledBy(threads: seq<Pc>, i: nat, broadcast: bool, pick: nat)
    requires i < |threads| && threads[i] == SetEnter
    ensures var s2 := threads[i := SetSignal];
            Signalled(threads, i, broadcast, (if broadcast then WakeAll(s2) else WakeOne(s2, pick))[i := Idle])
  {
    var s2 := threads[i := SetSignal];
    if broadcast {
      assert WakeAll(s2)[i := Idle] == WakeAll(threads)[i := Idle];
    } else {
      SleepersBut(threads, i);
      var j := if pick < |s2| && s2[pick].Asleep? then pick else FirstAsleep(s2);
      if j < |threads| {
        assert s2[j].Asleep? && threads[j].Asleep?;
        assert WakeOne(s2, pick)[i := Idle] == threads[j := Wake(threads[j])][i := Idle];
      } else {
        assert s2[i := Idle] == threads[i := Idle];
      }
    }
  }

  lemma SetReachesSignal(s: State, i: nat, pick: nat)
    requires i < |s.threads| && s.threads[i] == SetEnter && s.mutex == Free
    ensures Alone(s, i, pick, 2)
         == s.(threads := s.threads[i := SetSignal], mutex := HeldBy(i), setted := true, log := s.log + [DidSet])
  {
    assert Alone(s, i, pick, 1) == s.(threads := s.threads[i := SetStore], mutex := HeldBy(i));
    assert s.threads[i := SetStore][i := SetSignal] == s.threads[i := SetSignal];
  }

  /** The one who sets does not sleep. */
  lemma SleepersBut(threads: seq<Pc>, i: nat)
    requires i < |threads| && threads[i] == SetEnter
    ensures FirstAsleep(threads[i := SetSignal]) == FirstAsleep(threads)
  {
    var k, k' := FirstAsleep(threads), FirstAsleep(threads[i := SetSignal]);
    if k < |threads| { assert threads[i := SetSignal][k].Asleep?; }
    if k' < |threads| { assert threads[k'].Asleep?; }
  }

  // Calls, from the moment they are made

  /** Thread i does something, and then takes so many steps undisturbed. */
  function Then(s: State, i: nat, act: Act, pick: nat, steps: nat): State {
    Alone(Step(s, Event(i, act, pick)), i, pick, steps)
  }

  /** cplus_pevent_wait of an idle thread. */
  lemma WaitCall(s: State, i: nat, pick: nat, t: Timeout)
    requires i < |s.threads| && s.threads[i] == Idle && s.mutex == Free
    ensures Then(s, i, BeginWait(t), pick, 3) == if s.setted then Finished(s, i, s.broadcast, WaitOk)
                                                 else if t == Zero then Finished(s, i, false, WaitEmpty)
                                                 else s.(threads := s.threads[i := Asleep(t)])
  {
    var s0 := s.(threads := s.threads[i := WaitEnter(t)]);
    assert Step(s, Event(i, BeginWait(t), pick)) == s0;
    hide Alone;
    WaitAlone(s0, i, pick, t);
    assert s0.threads[i := Idle] == s.threads[i := Idle] && s0.threads[i := Asleep(t)] == s.threads[i := Asleep(t)];
  }

  /** While somebody holds the mutex a wait that may not wait at all fails at once; any other waits for the mutex. */
  lemma WaitCallBusy(s: State, i: nat, pick: nat, t: Timeout)
    requires i < |s.threads| && s.threads[i] == Idle && s.mutex != Free
    ensures Then(s, i, BeginWait(t), pick, 1)
         == if t == Zero then s.(log := s.log + [WaitBusy]) else s.(threads := s.threads[i := WaitEnter(t)])
  {
    var s0 := s.(threads := s.threads[i := WaitEnter(t)]);
    assert Step(s, Event(i, BeginWait(t), pick)) == s0;
    assert Alone(s0, i, pick, 1) == Step(s0, Event(i, Proceed, pick));
    assert s0.threads[i := Idle] == s.threads;
  }

  /** cplus_pevent_set of an idle thread. */
  lemma SetCall(s: State, i: nat, pick: nat)
    requires i < |s.threads| && s.threads[i] == Idle && s.mutex == Free
    ensures var r := Then(s, i, BeginSet, pick, 4);
            && r == Finished(s, i, true, DidSet).(threads := r.threads)
            && Signalled(s.threads[i := SetEnter], i, s.broadcast, r.threads)
  {
    var s0 := s.(threads := s.threads[i := SetEnter]);
    assert Step(s, Event(i, BeginSet, pick)) == s0;
    hide Alone;
    SetAlone(s0, i, pick);
  }

  /** cplus_pevent_reset of an idle thread. */
  lemma ResetCall(s: State, i: nat, pick: nat)
    requires i < |s.threads| && s.threads[i] == Idle && s.mutex == Free
    ensures Then(s, i, BeginReset, pick, 3) == Finished(s, i, false, DidReset)
  {
    var s0 := s.(threads := s.threads[i := ResetEnter]);
    assert Step(s, Event(i, BeginReset, pick)) == s0;
    hide Alone;
    ResetAlone(s0, i, pick);
    assert s0.threads[i := Idle] == s.threads[i := Idle];
  }

  /** A finite wait whose time is up fails, and takes nothing. Time is up for no other. */
  lemma TimesOut(s: State, i: nat, pick: nat)
    requires i < |s.threads| && s.mutex == Free
    ensures s.threads[i] == Asleep(Finite) ==> Then(s, i, TimeUp, pick, 3) == Finished(s, i, s.setted, WaitTimedOut)
    ensures s.threads[i] != Asleep(Finite) ==> Step(s, Event(i, TimeUp, pick)) == s
  {
    if s.threads[i] == Asleep(Finite) {
      var s0 := s.(threads := s.threads[i := Awake(Finite, true)]);
      assert Step(s, Event(i, TimeUp, pick)) == s0;
      hide Alone;
      WokenAlone(s0, i, pick, Finite, true);
      assert s0.threads[i := Idle] == s.threads[i := Idle];
    }
  }

  /** A sleeper that wakes up for no reason takes the flag if it is there, and goes back to sleep if not. */
  lemma WakesUp(s: State, i: nat, pick: nat, t: Timeout)
    requires i < |s.threads| && s.threads[i] == Asleep(t) && s.mutex == Free
    ensures Then(s, i, SpuriousWakeUp, pick, 3) == if s.setted then Finished(s, i, s.broadcast, WaitOk) else s
  {
    var s0 := s.(threads := s.threads[i := Awake(t, false)]);
    assert Step(s, Event(i, SpuriousWakeUp, pick)) == s0;
    hide Alone;
    WokenAlone(s0, i, pick, t, false);
    assert s0.threads[i := Idle] == s.threads[i := Idle] && s0.threads[i := Asleep(t)] == s.threads;
  }

  // Why waits fail, over runs

  predicate HasTimeout(pc: Pc) { pc.WaitEnter? || pc.WaitCheck? || pc.Asleep? || pc.Awake? || pc.WaitAgain? }
  predicate Late(pc: Pc) { (pc.Awake? || pc.WaitAgain?) && pc.timedOut }

  /** No thread waits with this timeout, and a thread that is late waits with a finite one. */
  ghost predicate NoneWaits(s: State, t: Timeout) {
    forall i :: 0 <= i < |s.threads| ==>
      && (HasTimeout(s.threads[i]) ==> s.threads[i].t != t)
      && (Late(s.threads[i]) ==> s.threads[i].t == Finite)
  }

  /** A thread with this timeout goes on with it, and is late only if it was or the timeout is finite. */
  ghost predicate KeepsTimeout(pc: Pc, next: Pc) {
    && (HasTimeout(next) ==> HasTimeout(pc) && pc.t == next.t)
    && (Late(next) ==> Late(pc) || next.t == Finite)
  }

  lemma WaitKeepsTimeout(s: State, i: nat)
    requires i < |s.threads|
    ensures |WaitStep(s, i).threads| == |s.threads| && KeepsTimeout(s.threads[i], WaitStep(s, i).threads[i])
  {}

  lemma SetKeepsTimeout(s: State, i: nat, pick: nat)
    requires i < |s.threads| && !Waits(s.threads[i]) && s.threads[i] != SetSignal
    ensures |SetStep(s, i, pick).threads| == |s.threads| && KeepsTimeout(s.threads[i], SetStep(s, i, pick).threads[i])
  {}

  lemma OwnTimeout(s: State, e: Event)
    requires e.thread < |s.threads| && !(e.act == Proceed && s.threads[e.thread] == SetSignal)
    ensures |Step(s, e).threads| == |s.threads|
    ensures var pc, next := s.threads[e.thread], Step(s, e).threads[e.thread];
            KeepsTimeout(pc, next) || (next.WaitEnter? && e.act == BeginWait(next.t))
  {
    hide WaitStep, SetStep;
    if e.act == Proceed {
      if Waits(s.threads[e.thread]) {
        WaitKeepsTimeout(s, e.thread);
      } else {
        SetKeepsTimeout(s, e.thread, e.pick);
      }
    }
  }

  /** A thread keeps its timeout, and is late only if that is a finite one. */
  lemma TimeoutKept(s: State, e: Event, j: nat)
    requires j < |s.threads|
    ensures var pc, next := s.threads[j], Step(s, e).threads[j];
            && |Step(s, e).threads| == |s.threads|
            && (KeepsTimeout(pc, next) || (next.WaitEnter? && e.act == BeginWait(next.t)))
  {
    if e.thread < |s.threads| {
      if e.act == Proceed && s.threads[e.thread] == SetSignal {
        SignalWakes(s, e.thread, e.pick);
      } else {
        hide Step;
        StepMoves(s, e);
        OwnTimeout(s, e);
      }
    }
  }

  /** Which failures a step logs. */
  lemma FailureLogged(s: State, e: Event)
    ensures var r := Step(s, e);
            r.log == s.log || (|r.log| == |s.log| + 1 && r.log[..|s.log|] == s.log
              && (r.log[|s.log|] == WaitTimedOut ==> e.thread < |s.threads| && Late(s.threads[e.thread]))
              && (r.log[|s.log|] in {WaitBusy, WaitEmpty} ==>
                    e.thread < |s.threads| && HasTimeout(s.threads[e.thread]) && s.threads[e.thread].t == Zero))
  {
    hide WaitStep, SetStep;
    if e.thread < |s.threads| {
      WaitFailure(s, e.thread);
      SetLogs(s, e.thread, e.pick);
    }
  }

  lemma WaitFailure(s: State, i: nat)
    requires i < |s.threads|
    ensures var r := WaitStep(s, i);
            r.log == s.log || (|r.log| == |s.log| + 1 && r.log[..|s.log|] == s.log
              && (r.log[|s.log|] == WaitTimedOut ==> Late(s.threads[i]))
              && (r.log[|s.log|] in {WaitBusy, WaitEmpty} ==> HasTimeout(s.threads[i]) && s.threads[i].t == Zero))
  {}

  lemma SetLogs(s: State, i: nat, pick: nat)
    requires i < |s.threads|
    ensures SetStep(s, i, pick).log in {s.log, s.log + [DidSet], s.log + [DidReset]}
  {}

  lemma NoneWaitsStep(s: State, e: Event, t: Timeout)
    requires NoneWaits(s, t) && e.act != BeginWait(t)
    ensures NoneWaits(Step(s, e), t)
    ensures var r := Step(s, e);
            r.log == s.log || (|r.log| == |s.log| + 1 && r.log[..|s.log|] == s.log
              && (t == Finite ==> r.log[|s.log|] != WaitTimedOut)
              && (t == Zero ==> r.log[|s.log|] != WaitBusy && r.log[|s.log|] != WaitEmpty))
  {
    hide Step;
    FailureLogged(s, e);
    SameThreads(s, e);
    forall j | 0 <= j < |s.threads|
      ensures HasTimeout(Step(s, e).threads[j]) ==> Step(s, e).threads[j].t != t
      ensures Late(Step(s, e).threads[j]) ==> Step(s, e).threads[j].t == Finite
    {
      TimeoutKept(s, e, j);
    }
  }

  lemma SameThreads(s: State, e: Event)
    ensures |Step(s, e).threads| == |s.threads|
  {}

  /** Where nobody begins a wait that can run out of time, none does; where nobody begins one that may not sleep, none finds
      the event empty or busy. */
  lemma {:induction false} FailuresOf(threads: nat, broadcast: bool, es: seq<Event>, t: Timeout)
    requires forall k :: 0 <= k < |es| ==> es[k].act != BeginWait(t)
    ensures var s := Run(Step, Initial(threads, broadcast), es);
            && NoneWaits(s, t)
            && (t == Finite ==> WaitTimedOut !in s.log)
            && (t == Zero ==> WaitBusy !in s.log && WaitEmpty !in s.log)
    decreases |es|
  {
    if es != [] {
      hide Step, NoneWaits;
      var front := es[..|es| - 1];
      FailuresOf(threads, broadcast, front, t);
      var s := Run(Step, Initial(threads, broadcast), front);
      NoneWaitsStep(s, es[|es| - 1], t);
      var r := Step(s, es[|es| - 1]);
      if r.log != s.log {
        assert r.log == s.log + [r.log[|s.log|]];
      }
    }
  }
}
