/** What the operations of the task pool do when nothing comes between their steps: the specification of each of them as
    a single change of the store, and what that gives for the pool as a whole. */
module TaskPoolAlone {
  import opened Runs
  import opened TaskPool

  function Alone(s: State, i: nat, steps: nat): State {
    if steps == 0 then s else Step(Alone(s, i, steps - 1), Event(i, Proceed))
  }

  lemma Goes(s: State, i: nat, steps: nat, pc: Pc, mutex: Mutex, st: Store)
    requires i < |s.threads| && Alone(s, i, steps) == State(s.threads[i := pc], mutex, st)
    ensures Alone(s, i, steps + 1) ==
              State(s.threads[i := Plan(pc, Proceed, st, mutex == Free).0],
                    Moved(mutex, i, Plan(pc, Proceed, st, mutex == Free).1),
                    Apply(st, Plan(pc, Proceed, st, mutex == Free).1))
  {
    hide Plan, Apply;
    assert s.threads[i := pc][i := Plan(pc, Proceed, st, mutex == Free).0]
        == s.threads[i := Plan(pc, Proceed, st, mutex == Free).0];
  }

  lemma Planned(pc: Pc, st: Store, unlocked: bool)
    ensures Adds(pc) ==> Plan(pc, Proceed, st, unlocked) == PlanAdd(pc, st, unlocked)
    ensures Works(pc) ==> Plan(pc, Proceed, st, unlocked) == PlanWork(pc, st, unlocked)
    ensures !Adds(pc) && !Works(pc) ==> Plan(pc, Proceed, st, unlocked) == PlanRemove(pc, st, unlocked)
  {
    hide PlanAdd, PlanWork, PlanRemove;
  }

  lemma WorkGoes(s: State, i: nat, steps: nat, pc: Pc, mutex: Mutex, st: Store)
    requires i < |s.threads| && Works(pc) && Alone(s, i, steps) == State(s.threads[i := pc], mutex, st)
    ensures Alone(s, i, steps + 1) ==
              State(s.threads[i := PlanWork(pc, st, mutex == Free).0],
                    Moved(mutex, i, PlanWork(pc, st, mutex == Free).1),
                    Apply(st, PlanWork(pc, st, mutex == Free).1))
  {
    hide Plan, PlanWork, Apply;
    Goes(s, i, steps, pc, mutex, st);
    Planned(pc, st, mutex == Free);
  }

  lemma RemoveGoes(s: State, i: nat, steps: nat, pc: Pc, mutex: Mutex, st: Store)
    requires i < |s.threads| && !Adds(pc) && !Works(pc) && Alone(s, i, steps) == State(s.threads[i := pc], mutex, st)
    ensures Alone(s, i, steps + 1) ==
              State(s.threads[i := PlanRemove(pc, st, mutex == Free).0],
                    Moved(mutex, i, PlanRemove(pc, st, mutex == Free).1),
                    Apply(st, PlanRemove(pc, st, mutex == Free).1))
  {
    hide Plan, PlanRemove, Apply;
    Goes(s, i, steps, pc, mutex, st);
    Planned(pc, st, mutex == Free);
  }

  lemma AddGoes(s: State, i: nat, steps: nat, pc: Pc, mutex: Mutex, st: Store)
    requires i < |s.threads| && Adds(pc) && Alone(s, i, steps) == State(s.threads[i := pc], mutex, st)
    ensures Alone(s, i, steps + 1) ==
              State(s.threads[i := PlanAdd(pc, st, mutex == Free).0],
                    Moved(mutex, i, PlanAdd(pc, st, mutex == Free).1),
                    Apply(st, PlanAdd(pc, st, mutex == Free).1))
  {
    hide Plan, PlanAdd, Apply;
    Goes(s, i, steps, pc, mutex, st);
    Planned(pc, st, mutex == Free);
  }

  /** Thread i, undisturbed, becomes idle again and leaves the store like this. */
  ghost predicate Ends(s: State, i: nat, st: Store)
    requires i < |s.threads|
  {
    exists steps: nat :: Alone(s, i, steps) == State(s.threads[i := Idle], Free, st)
  }

  lemma Begins(s: State, i: nat)
    requires i < |s.threads|
    ensures Alone(s, i, 0) == State(s.threads[i := s.threads[i]], s.mutex, s.store)
  {}

  lemma Finishes(s: State, i: nat, steps: nat, st: Store)
    requires i < |s.threads| && Alone(s, i, steps) == State(s.threads[i := Idle], Free, st)
    ensures Ends(s, i, st)
  {}

  /** While the mutex is free no thread holds a block back. */
  lemma RoomWhenFree(s: State)
    requires Inv(s) && s.mutex == Free
    ensures s.store.poolFree + |s.store.queue| == s.store.max <= MAX_TASK_COUNT
  {
    forall i | 0 <= i < |s.threads| ensures !Carries(s.threads[i]) {
      assert !Inside(s.threads[i]);
    }
    CountNone(s.threads, Carries);
  }

  /** The store with one more task, the newest, its block and its permit. */
  function WithTask(st: Store, task: Task): Store
    requires st.poolFree > 0
  {
    var item := Item(|st.added|, task);
    st.(queue := [item] + st.queue, added := st.added + [item], poolFree := st.poolFree - 1,
        semaphore := if st.semaphore < SEMAPHORE_MAX_VALUE then st.semaphore + 1 else st.semaphore)
  }

  /** cplus_taskpool_add_task_ex: the task becomes the newest, with a block of the pool and a permit, exactly when there
      are fewer tasks than configured; otherwise nothing has changed. */
  lemma AddAlone(s: State, i: nat, task: Task)
    requires Inv(s) && s.mutex == Free && i < |s.threads| && s.threads[i] == AddEnter(task)
    ensures var st := s.store;
            && (|st.queue| < st.max ==> st.poolFree > 0)
            && Ends(s, i, if |st.queue| == st.max then st else WithTask(st, task))
  {
    RoomWhenFree(s);
    hide Alone, Step, Ends, Plan, Inv;
    var st, held := s.store, HeldBy(i);
    Begins(s, i);
    AddGoes(s, i, 0, AddEnter(task), Free, st);
    AddGoes(s, i, 1, AddCheck(task), held, st);
    if |st.queue| == MAX_TASK_COUNT {
      AddGoes(s, i, 2, AddLeave(false), held, st);
      Finishes(s, i, 3, st);
    } else {
      AddGoes(s, i, 2, AddAlloc(task), held, st);
      if st.poolFree == 0 {
        AddGoes(s, i, 3, AddLeave(false), held, st);
        Finishes(s, i, 4, st);
      } else {
        AddAloneRest(s, i, task);
      }
    }
  }

  lemma AddAloneRest(s: State, i: nat, task: Task)
    requires i < |s.threads| && s.store.poolFree > 0 && |s.store.queue| < s.store.max
    requires Alone(s, i, 3) == State(s.threads[i := AddPush(task)], HeldBy(i), s.store.(poolFree := s.store.poolFree - 1))
    ensures Ends(s, i, WithTask(s.store, task))
  {
    hide Alone, Step, Ends, Plan;
    var st0 := s.store.(poolFree := s.store.poolFree - 1);
    var st := Apply(st0, PushFront(task));
    AddGoes(s, i, 3, AddPush(task), HeldBy(i), st0);
    AddGoes(s, i, 4, AddLeave(true), HeldBy(i), st);
    AddGoes(s, i, 5, PostCheck, Free, st);
    if st.semaphore < SEMAPHORE_MAX_VALUE {
      AddGoes(s, i, 6, Post, Free, st);
      Finishes(s, i, 7, WithTask(s.store, task));
    } else {
      Finishes(s, i, 6, WithTask(s.store, task));
    }
  }

  /** The store after the oldest task has been fetched and executed. */
  function WithoutOldest(st: Store): Store
    requires st.queue != []
  {
    var last := |st.queue| - 1;
    var oldest := st.queue[last];
    st.(queue := st.queue[..last], fetched := st.fetched + [oldest], executed := st.executed + [oldest],
        poolFree := st.poolFree + 1)
  }

  /** task_worker with a permit: it fetches the oldest task, gives its block back and executes it; if there is no task
      the permit is used up. */
  lemma WorkAlone(s: State, i: nat)
    requires s.mutex == Free && i < |s.threads| && s.threads[i] == WorkWait && s.store.semaphore > 0
    ensures var st := s.store.(semaphore := s.store.semaphore - 1);
            Ends(s, i, if st.queue == [] then st else WithoutOldest(st))
  {
    hide Alone, Step, Ends, Plan, Apply;
    var st, held := Apply(s.store, TakePermit), HeldBy(i);
    assert st == s.store.(semaphore := s.store.semaphore - 1) by { PermitTaken(s.store); }
    NoChange(st);
    Begins(s, i);
    WorkGoes(s, i, 0, WorkWait, Free, s.store);
    WorkGoes(s, i, 1, WorkEnter, Free, st);
    if st.queue == [] {
      WorkAloneInVain(s, i, st);
    } else {
      WorkAloneRest(s, i, st);
    }
  }

  lemma FetchedAndExecuted(st: Store)
    requires st.queue != []
    ensures Apply(Apply(Apply(st, FetchLast), GiveBlock), Execute([st.queue[|st.queue| - 1]])) == WithoutOldest(st)
  {}

  lemma Discarded(st: Store, k: nat)
    requires k < |st.queue|
    ensures Apply(Apply(st, Discard(k)), GiveBlock) == Without(st, k)
  {}

  lemma NoChange(st: Store)
    ensures Apply(st, NoEffect) == st && Apply(st, Lock) == st && Apply(st, Unlock) == st && Apply(st, Execute([])) == st
  {}

  lemma PermitTaken(st: Store)
    requires st.semaphore > 0
    ensures Apply(st, TakePermit) == st.(semaphore := st.semaphore - 1)
  {}

  lemma WorkAloneInVain(s: State, i: nat, st: Store)
    requires i < |s.threads| && st.queue == [] && Alone(s, i, 2) == State(s.threads[i := WorkFetch], HeldBy(i), st)
    ensures Ends(s, i, st)
  {
    hide Alone, Step, Ends, Plan, Apply;
    NoChange(st);
    WorkGoes(s, i, 2, WorkFetch, HeldBy(i), st);
    WorkGoes(s, i, 3, WorkLeave([]), HeldBy(i), st);
    WorkGoes(s, i, 4, Work([]), Free, st);
    Finishes(s, i, 5, st);
  }

  lemma WorkAloneRest(s: State, i: nat, st: Store)
    requires i < |s.threads| && st.queue != [] && Alone(s, i, 2) == State(s.threads[i := WorkFetch], HeldBy(i), st)
    ensures Ends(s, i, WithoutOldest(st))
  {
    hide Alone, Step, Ends, Plan, Apply;
    var item, held := st.queue[|st.queue| - 1], HeldBy(i);
    var st1 := Apply(st, FetchLast);
    var st2 := Apply(st1, GiveBlock);
    FetchedAndExecuted(st);
    NoChange(st2);
    WorkGoes(s, i, 2, WorkFetch, held, st);
    WorkGoes(s, i, 3, WorkFree(item), held, st1);
    WorkGoes(s, i, 4, WorkLeave([item]), held, st2);
    WorkGoes(s, i, 5, Work([item]), Free, st2);
    Finishes(s, i, 6, Apply(st2, Execute([item])));
  }

  /** The store after the k-th task of the queue has been removed. */
  function Without(st: Store, k: nat): Store
    requires k < |st.queue|
  {
    st.(queue := st.queue[..k] + st.queue[k + 1..], removed := st.removed + [st.queue[k]], poolFree := st.poolFree + 1)
  }

  /** cplus_taskpool_remove_task: the newest task that matches leaves the queue, and its block is free again. */
  lemma RemoveAlone(s: State, i: nat, filter: Filter)
    requires s.mutex == Free && i < |s.threads| && s.threads[i] == RemoveLook(filter)
    ensures var st, k := s.store, FirstMatch(filter, s.store.queue);
            Ends(s, i, if k == |st.queue| then st else Without(st, k))
  {
    hide Alone, Step, Ends, Plan, FirstMatch;
    Begins(s, i);
    RemoveGoes(s, i, 0, RemoveLook(filter), Free, s.store);
    if s.store.queue != [] {
      RemoveGoes(s, i, 1, RemoveEnter(filter), Free, s.store);
      RemoveAloneRest(s, i, filter);
    } else {
      Finishes(s, i, 1, s.store);
    }
  }

  lemma RemoveAloneRest(s: State, i: nat, filter: Filter)
    requires i < |s.threads| && Alone(s, i, 2) == State(s.threads[i := RemovePop(filter)], HeldBy(i), s.store)
    ensures var st, k := s.store, FirstMatch(filter, s.store.queue);
            Ends(s, i, if k == |st.queue| then st else Without(st, k))
  {
    hide Alone, Step, Ends, Plan, FirstMatch, Apply;
    var st, held, k := s.store, HeldBy(i), FirstMatch(filter, s.store.queue);
    RemoveGoes(s, i, 2, RemovePop(filter), held, st);
    if k < |st.queue| {
      var st1 := Apply(st, Discard(k));
      Discarded(st, k);
      NoChange(Apply(st1, GiveBlock));
      RemoveGoes(s, i, 3, RemoveFree, held, st1);
      RemoveGoes(s, i, 4, RemoveLeave, held, Apply(st1, GiveBlock));
      Finishes(s, i, 5, Apply(st1, GiveBlock));
    } else {
      NoChange(st);
      RemoveGoes(s, i, 3, RemoveLeave, held, st);
      Finishes(s, i, 4, st);
    }
  }

  function Reversed(q: seq<Item>): seq<Item> { if q == [] then [] else Reversed(q[1..]) + [q[0]] }

  /** The store once the queue has been cleared, oldest task first. */
  function Cleared(st: Store): Store {
    st.(queue := [], removed := st.removed + Reversed(st.queue), poolFree := st.poolFree + |st.queue|)
  }

  lemma {:induction false} ReversedSnoc(q: seq<Item>, x: Item)
    ensures Reversed(q + [x]) == [x] + Reversed(q)
  {
    if q == [] {
      assert [x][1..] == [];
    } else {
      ReversedSnoc(q[1..], x);
      assert (q + [x])[1..] == q[1..] + [x];
    }
  }

  lemma {:induction false} ClearsOn(s: State, i: nat, steps: nat, st: Store)
    requires i < |s.threads| && Alone(s, i, steps) == State(s.threads[i := ClearPop], HeldBy(i), st)
    ensures Ends(s, i, Cleared(st))
    decreases |st.queue|
  {
    hide Alone, Step, Ends, Plan;
    RemoveGoes(s, i, steps, ClearPop, HeldBy(i), st);
    if st.queue == [] {
      RemoveGoes(s, i, steps + 1, ClearLeave, HeldBy(i), st);
      Finishes(s, i, steps + 2, st);
      assert Cleared(st) == st;
    } else {
      var last := |st.queue| - 1;
      var st1 := Apply(st, Discard(last));
      var st2 := Apply(st1, GiveBlock);
      RemoveGoes(s, i, steps + 1, ClearFree, HeldBy(i), st1);
      ClearsOn(s, i, steps + 2, st2);
      assert st.queue[..last] + st.queue[last + 1..] == st.queue[..last];
      assert st.queue == st.queue[..last] + [st.queue[last]];
      ReversedSnoc(st.queue[..last], st.queue[last]);
      assert Cleared(st2) == Cleared(st);
    }
  }

  /** cplus_taskpool_clear_task: every task is removed, the oldest first, and all blocks are free. */
  lemma ClearAlone(s: State, i: nat)
    requires s.mutex == Free && i < |s.threads| && s.threads[i] == ClearEnter
    ensures Ends(s, i, Cleared(s.store))
  {
    hide Alone, Step, Ends, Plan;
    Begins(s, i);
    RemoveGoes(s, i, 0, ClearEnter, Free, s.store);
    ClearsOn(s, i, 1, s.store);
  }

  function Proceeds(i: nat, steps: nat): (es: seq<Event>)
    ensures |es| == steps && forall k :: 0 <= k < steps ==> es[k] == Event(i, Proceed)
  {
    seq(steps, _ => Event(i, Proceed))
  }

  lemma {:induction false} AloneIsRun(s: State, i: nat, steps: nat)
    ensures Run(Step, s, Proceeds(i, steps)) == Alone(s, i, steps)
  {
    if steps > 0 {
      hide Step;
      AloneIsRun(s, i, steps - 1);
      assert Proceeds(i, steps)[..steps - 1] == Proceeds(i, steps - 1);
    }
  }

  /** The store once a worker has executed the whole queue, oldest task first. */
  function Drained(st: Store): Store
    requires |st.queue| <= st.semaphore
  {
    st.(semaphore := st.semaphore - |st.queue|, queue := [], fetched := st.fetched + Reversed(st.queue),
        executed := st.executed + Reversed(st.queue), poolFree := st.poolFree + |st.queue|)
  }

  lemma DrainedStep(st: Store)
    requires 0 < |st.queue| <= st.semaphore
    ensures Drained(WithoutOldest(st.(semaphore := st.semaphore - 1))) == Drained(st)
  {
    var last := |st.queue| - 1;
    assert st.queue == st.queue[..last] + [st.queue[last]];
    ReversedSnoc(st.queue[..last], st.queue[last]);
  }

  /** An idle worker asked to work executes the oldest task, when there is one with a permit. */
  lemma WorkOnce(s: State, i: nat) returns (es: seq<Event>)
    requires i < |s.threads| && s.threads[i] == Idle && s.mutex == Free && s.store.semaphore > 0 && s.store.queue != []
    ensures Run(Step, s, es) == State(s.threads, Free, WithoutOldest(s.store.(semaphore := s.store.semaphore - 1)))
  {
    hide Plan, Alone, WithoutOldest;
    var s1 := State(s.threads[i := WorkWait], Free, s.store);
    Asked(s, i);
    WorkAlone(s1, i);
    var st := WithoutOldest(s.store.(semaphore := s.store.semaphore - 1));
    var steps: nat :| Alone(s1, i, steps) == State(s1.threads[i := Idle], Free, st);
    AloneIsRun(s1, i, steps);
    es := [Event(i, BeginWork)] + Proceeds(i, steps);
    RunConcat(Step, s, [Event(i, BeginWork)], Proceeds(i, steps));
    assert s1.threads[i := Idle] == s.threads;
  }

  lemma Asked(s: State, i: nat)
    requires i < |s.threads| && s.threads[i] == Idle && s.mutex == Free
    ensures Run(Step, s, [Event(i, BeginWork)]) == State(s.threads[i := WorkWait], Free, s.store)
  {
    hide Step;
    RunSnoc(Step, s, [], Event(i, BeginWork));
    assert [] + [Event(i, BeginWork)] == [Event(i, BeginWork)];
    assert Step(s, Event(i, BeginWork)) == State(s.threads[i := WorkWait], Free, s.store) by { AskedStep(s, i); }
  }

  lemma AskedStep(s: State, i: nat)
    requires i < |s.threads| && s.threads[i] == Idle && s.mutex == Free
    ensures Step(s, Event(i, BeginWork)) == State(s.threads[i := WorkWait], Free, s.store)
  {}

  /** No task is stranded: in a reachable state in which no operation is under way the permits suffice for a single
      worker to execute all that is queued, in the order in which it was added. */
  lemma {:induction false} Drain(s: State, i: nat) returns (es: seq<Event>)
    requires i < |s.threads| && s.threads[i] == Idle && s.mutex == Free && |s.store.queue| <= s.store.semaphore
    ensures Run(Step, s, es) == State(s.threads, Free, Drained(s.store))
    decreases |s.store.queue|
  {
    hide Step, Drained;
    if s.store.queue == [] {
      es := [];
      assert Drained(s.store) == s.store by { NothingToDrain(s.store); }
    } else {
      var st := WithoutOldest(s.store.(semaphore := s.store.semaphore - 1));
      var es1 := WorkOnce(s, i);
      var es2 := Drain(State(s.threads, Free, st), i);
      es := es1 + es2;
      RunConcat(Step, s, es1, es2);
      DrainedStep(s.store);
    }
  }

  lemma NothingToDrain(st: Store)
    requires st.queue == []
    ensures Drained(st) == st
  {}

  /** Every task added to the pool and not removed can be executed: from any reachable state in which all threads are
      idle, a run of one worker leads to an empty queue, all blocks free, and each added task executed or removed. */
  lemma {:induction false} EveryTaskCanRun(threads: nat, max: nat, es: seq<Event>, i: nat) returns (fs: seq<Event>)
    requires max <= MAX_TASK_COUNT && i < threads
    requires Run(Step, Initial(threads, max), es).threads == Initial(threads, max).threads
    ensures var st := Run(Step, Initial(threads, max), es + fs).store;
            && st.queue == [] && st.poolFree == max
            && multiset(st.added) == multiset(st.executed) + multiset(st.removed)
            && st.added == Run(Step, Initial(threads, max), es).store.added
  {
    hide Step, Inv;
    var s0 := Initial(threads, max);
    var s := Run(Step, s0, es);
    TaskPool.RunKeeps(threads, max, es);
    NoStrandedTask(threads, max, es);
    IdleMutex(s);
    fs := Drain(s, i);
    RunConcat(Step, s0, es, fs);
    BlocksAccounted(threads, max, es + fs);
    TaskConservation(threads, max, es + fs);
    var st := Run(Step, s0, es + fs).store;
    forall x ensures multiset(st.fetched)[x] == multiset(st.executed)[x] {
      NothingInHand(s.threads, x);
      assert Times(st.fetched, x) == Times(st.executed, x) + InHand(s.threads, x);
    }
    assert multiset(st.fetched) == multiset(st.executed);
  }

  lemma IdleMutex(s: State)
    requires Inv(s) && forall i :: 0 <= i < |s.threads| ==> s.threads[i] == Idle
    ensures s.mutex == Free
  {}

  // Calls, from the moment they are made

  /** Idle thread i is asked for something and, undisturbed, becomes idle again: no other thread has moved, the mutex is
      free, and the store is this. */
  ghost predicate CallEnds(s: State, i: nat, act: Act, st: Store)
    requires i < |s.threads|
  {
    exists steps: nat :: Alone(Step(s, Event(i, act)), i, steps) == State(s.threads, Free, st)
  }

  lemma CallEndsBy(s: State, i: nat, act: Act, pc: Pc, st: Store)
    requires i < |s.threads| && s.threads[i] == Idle && Step(s, Event(i, act)) == s.(threads := s.threads[i := pc])
    requires Ends(s.(threads := s.threads[i := pc]), i, st)
    ensures CallEnds(s, i, act, st)
  {
    hide Step;
    assert s.threads[i := pc][i := Idle] == s.threads;
  }

  lemma Begun(s: State, i: nat, act: Act)
    requires i < |s.threads| && s.threads[i] == Idle
    ensures match act
            case BeginAdd(t) => Step(s, Event(i, act)) == s.(threads := s.threads[i := AddEnter(t)])
            case BeginWork => Step(s, Event(i, act)) == s.(threads := s.threads[i := WorkWait])
            case BeginRemove(f) => Step(s, Event(i, act)) == s.(threads := s.threads[i := RemoveLook(f)])
            case BeginClear => Step(s, Event(i, act)) == s.(threads := s.threads[i := ClearEnter])
            case _ => true
  {}

  /** Adding a task makes it the newest one, if there are fewer than configured, and changes nothing otherwise. */
  lemma {:induction false} AddCall(s: State, i: nat, task: Task)
    requires Inv(s) && s.mutex == Free && i < |s.threads| && s.threads[i] == Idle
    ensures var st := s.store;
            if |st.queue| == st.max then CallEnds(s, i, BeginAdd(task), st)
            else
              && st.poolFree > 0 && CallEnds(s, i, BeginAdd(task), WithTask(st, task))
              && WithTask(st, task).queue[0].task == task && WithTask(st, task).queue[1..] == st.queue
  {
    hide Step, Inv, Ends, CallEnds;
    var s0 := s.(threads := s.threads[i := AddEnter(task)]);
    Begun(s, i, BeginAdd(task));
    StepKeeps(s, Event(i, BeginAdd(task)));
    AddAlone(s0, i, task);
    CallEndsBy(s, i, BeginAdd(task), AddEnter(task),
               if |s.store.queue| == s.store.max then s.store else WithTask(s.store, task));
  }

  lemma IsFirst(filter: Filter, q: seq<Item>, k: nat)
    requires k <= |q| && (k < |q| ==> filter(q[k].task)) && forall j :: 0 <= j < k ==> !filter(q[j].task)
    ensures FirstMatch(filter, q) == k
  {}

  /** Removing takes the newest task that the filter accepts, here the k-th of the queue, and nothing if it accepts none. */
  lemma {:induction false} RemoveCall(s: State, i: nat, filter: Filter, k: nat)
    requires s.mutex == Free && i < |s.threads| && s.threads[i] == Idle && k <= |s.store.queue|
    requires k < |s.store.queue| ==> filter(s.store.queue[k].task)
    requires forall j :: 0 <= j < k ==> !filter(s.store.queue[j].task)
    ensures var st, q := s.store, s.store.queue;
            CallEnds(s, i, BeginRemove(filter),
                     if k == |q| then st
                     else st.(queue := q[..k] + q[k + 1..], removed := st.removed + [q[k]], poolFree := st.poolFree + 1))
  {
    hide Step, Ends, CallEnds, FirstMatch;
    var s0 := s.(threads := s.threads[i := RemoveLook(filter)]);
    IsFirst(filter, s.store.queue, k);
    Begun(s, i, BeginRemove(filter));
    RemoveAlone(s0, i, filter);
    CallEndsBy(s, i, BeginRemove(filter), RemoveLook(filter),
               if k == |s.store.queue| then s.store else Without(s.store, k));
  }

  /** Clearing removes every task, the oldest first. */
  lemma {:induction false} ClearCall(s: State, i: nat)
    requires s.mutex == Free && i < |s.threads| && s.threads[i] == Idle
    ensures CallEnds(s, i, BeginClear, Cleared(s.store))
  {
    hide Step, Ends, CallEnds;
    Begun(s, i, BeginClear);
    ClearAlone(s.(threads := s.threads[i := ClearEnter]), i);
    CallEndsBy(s, i, BeginClear, ClearEnter, Cleared(s.store));
  }

  /** A worker with a permit executes the oldest task, if there is one. */
  lemma {:induction false} WorkCall(s: State, i: nat)
    requires s.mutex == Free && i < |s.threads| && s.threads[i] == Idle && s.store.semaphore > 0
    ensures var st := s.store.(semaphore := s.store.semaphore - 1);
            && CallEnds(s, i, BeginWork, if st.queue == [] then st else WithoutOldest(st))
            && (st.queue != [] ==>
                  && WithoutOldest(st).executed == st.executed + [st.queue[|st.queue| - 1]]
                  && WithoutOldest(st).queue == st.queue[..|st.queue| - 1])
  {
    hide Step, Ends, CallEnds;
    Begun(s, i, BeginWork);
    WorkAlone(s.(threads := s.threads[i := WorkWait]), i);
    var st := s.store.(semaphore := s.store.semaphore - 1);
    CallEndsBy(s, i, BeginWork, WorkWait, if st.queue == [] then st else WithoutOldest(st));
  }

  /** Without a permit a worker waits until its time is up, and does nothing. */
  lemma WorkInVain(s: State, i: nat)
    requires i < |s.threads| && s.threads[i] == WorkWait
    ensures s.store.semaphore == 0 ==> Step(s, Event(i, Proceed)) == s
    ensures Step(s, Event(i, TimeOut)) == s.(threads := s.threads[i := Idle])
  {
    assert s.threads[i := WorkWait] == s.threads;
  }
}
