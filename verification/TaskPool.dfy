/** The task queue of src/taskpool.c in its non-cycling mode: adders, workers, removers and clearers as threads whose
    atomic steps interleave. */
module TaskPool {
  import opened Runs

  const MAX_TASK_COUNT: nat := 255
  const SEMAPHORE_MAX_VALUE: nat := 32767    // SEMVMX
  const SEM_VALUE_MAX: nat := 0x7FFF_FFFF    // where sem_post itself fails

  type Task = nat

  /** A queued task with the number of tasks added before it. */
  datatype Item = Item(ticket: nat, task: Task)
  type Filter = Task -> bool

  /** Where a thread is. Those marked with a star hold task_access_sect. */
  datatype Pc =
    | Idle
    // cplus_taskpool_add_task_ex
    | AddEnter(task: Task) | AddCheck(task: Task) /* * */ | AddAlloc(task: Task) /* * */ | AddPush(task: Task) /* * */
    | AddLeave(ok: bool) /* * */ | PostCheck | Post
    // task_worker
    | WorkWait | WorkEnter | WorkFetch /* * */ | WorkFree(item: Item) /* * */ | WorkLeave(job: seq<Item>) /* * */
    | Work(job: seq<Item>)
    // cplus_taskpool_remove_task
    | RemoveLook(filter: Filter) | RemoveEnter(filter: Filter) | RemovePop(filter: Filter) /* * */ | RemoveFree /* * */
    | RemoveLeave /* * */
    // cplus_taskpool_clear_task
    | ClearEnter | ClearPop /* * */ | ClearFree /* * */ | ClearLeave /* * */

  /** What a thread that is idle is asked to do, and how one that waits goes on. */
  datatype Act = BeginAdd(task: Task) | BeginWork | BeginRemove(filter: Filter) | BeginClear | Proceed | TimeOut
  datatype Event = Event(thread: nat, act: Act)

  datatype Mutex = Free | HeldBy(thread: nat)

  /** What the threads share. queue has its head, the newest task, first; poolFree counts the free blocks of
      task_pool; added, fetched, executed and removed record what has happened, oldest first. */
  datatype Store = Store(
    semaphore: nat, max: nat, poolFree: nat, queue: seq<Item>,
    added: seq<Item>, fetched: seq<Item>, executed: seq<Item>, removed: seq<Item>)

  datatype State = State(threads: seq<Pc>, mutex: Mutex, store: Store)

  function Initial(threads: nat, max: nat): State {
    State(seq(threads, _ => Idle), Free, Store(0, max, max, [], [], [], [], []))
  }

  /** What one atomic step does to the mutex, the semaphore, the pool or the list. */
  datatype Effect = NoEffect | Lock | Unlock | TakePermit | PostPermit | TakeBlock | GiveBlock
                  | PushFront(task: Task) | FetchLast | Execute(job: seq<Item>) | Discard(k: nat)

  function FirstMatch(filter: Filter, q: seq<Item>): (k: nat)
    ensures k <= |q| && (k < |q| ==> filter(q[k].task)) && forall i :: 0 <= i < k ==> !filter(q[i].task)
  {
    if q == [] || filter(q[0].task) then 0 else 1 + FirstMatch(filter, q[1..])
  }

  /** Where a thread goes next, and what it does on the way. A thread that has to wait stays where it is. */
  function PlanAdd(pc: Pc, st: Store, unlocked: bool): (Pc, Effect) {
    match pc
    case AddEnter(t) => if unlocked then (AddCheck(t), Lock) else (pc, NoEffect)
    case AddCheck(t) => (if |st.queue| < MAX_TASK_COUNT then AddAlloc(t) else AddLeave(false), NoEffect)
    case AddAlloc(t) => if st.poolFree > 0 then (AddPush(t), TakeBlock) else (AddLeave(false), NoEffect)
    case AddPush(t) => if |st.queue| < st.max then (AddLeave(true), PushFront(t)) else (AddLeave(false), NoEffect)
    case AddLeave(ok) => (if ok then PostCheck else Idle, Unlock)
    case PostCheck => (if st.semaphore < SEMAPHORE_MAX_VALUE then Post else Idle, NoEffect)
    case Post => if st.semaphore < SEM_VALUE_MAX then (Idle, PostPermit) else (Idle, NoEffect)
    case _ => (pc, NoEffect)
  }

  function PlanWork(pc: Pc, st: Store, unlocked: bool): (Pc, Effect) {
    match pc
    case WorkWait => if st.semaphore > 0 then (WorkEnter, TakePermit) else (pc, NoEffect)
    case WorkEnter => if unlocked then (WorkFetch, Lock) else (pc, NoEffect)
    case WorkFetch =>
      if st.queue == [] then (WorkLeave([]), NoEffect) else (WorkFree(st.queue[|st.queue| - 1]), FetchLast)
    case WorkFree(item) => (WorkLeave([item]), GiveBlock)
    case WorkLeave(job) => (Work(job), Unlock)
    case Work(job) => (Idle, Execute(job))
    case _ => (pc, NoEffect)
  }

  function PlanRemove(pc: Pc, st: Store, unlocked: bool): (Pc, Effect) {
    match pc
    case RemoveLook(f) => (if st.queue != [] then RemoveEnter(f) else Idle, NoEffect)
    case RemoveEnter(f) => if unlocked then (RemovePop(f), Lock) else (pc, NoEffect)
    case RemovePop(f) =>
      var k := FirstMatch(f, st.queue);
      if k < |st.queue| then (RemoveFree, Discard(k)) else (RemoveLeave, NoEffect)
    case RemoveFree => (RemoveLeave, GiveBlock)
    case RemoveLeave => (Idle, Unlock)
    case ClearEnter => if unlocked then (ClearPop, Lock) else (pc, NoEffect)
    case ClearPop => if st.queue == [] then (ClearLeave, NoEffect) else (ClearFree, Discard(|st.queue| - 1))
    case ClearFree => (ClearPop, GiveBlock)
    case ClearLeave => (Idle, Unlock)
    case _ => (pc, NoEffect)
  }

  function Plan(pc: Pc, act: Act, st: Store, unlocked: bool): (Pc, Effect) {
    match act
    case BeginAdd(t) => (if pc.Idle? then AddEnter(t) else pc, NoEffect)
    case BeginWork => (if pc.Idle? then WorkWait else pc, NoEffect)
    case BeginRemove(f) => (if pc.Idle? then RemoveLook(f) else pc, NoEffect)
    case BeginClear => (if pc.Idle? then ClearEnter else pc, NoEffect)
    case TimeOut => (if pc.WorkWait? then Idle else pc, NoEffect)
    case Proceed =>
      if Adds(pc) then PlanAdd(pc, st, unlocked)
      else if Works(pc) then PlanWork(pc, st, unlocked)
      else PlanRemove(pc, st, unlocked)
  }

  predicate Adds(pc: Pc) {
    pc.AddEnter? || pc.AddCheck? || pc.AddAlloc? || pc.AddPush? || pc.AddLeave? || pc.PostCheck? || pc.Post?
  }

  predicate Works(pc: Pc) {
    pc.WorkWait? || pc.WorkEnter? || pc.WorkFetch? || pc.WorkFree? || pc.WorkLeave? || pc.Work?
  }

  predicate Inside(pc: Pc) {
    || pc.AddCheck? || pc.AddAlloc? || pc.AddPush? || pc.AddLeave?
    || pc.WorkFetch? || pc.WorkFree? || pc.WorkLeave?
    || pc.RemovePop? || pc.RemoveFree? || pc.RemoveLeave?
    || pc.ClearPop? || pc.ClearFree? || pc.ClearLeave?
  }

  function Apply(st: Store, f: Effect): Store {
    match f
    case TakePermit => if st.semaphore > 0 then st.(semaphore := st.semaphore - 1) else st
    case PostPermit => st.(semaphore := st.semaphore + 1)
    case TakeBlock => if st.poolFree > 0 then st.(poolFree := st.poolFree - 1) else st
    case GiveBlock => st.(poolFree := st.poolFree + 1)
    case PushFront(t) =>
      var item := Item(|st.added|, t);
      st.(queue := [item] + st.queue, added := st.added + [item])
    case FetchLast =>
      if st.queue == [] then st
      else
        var last := |st.queue| - 1;
        st.(queue := st.queue[..last], fetched := st.fetched + [st.queue[last]])
    case Execute(job) => st.(executed := st.executed + job)
    case Discard(k) =>
      if k < |st.queue| then st.(queue := st.queue[..k] + st.queue[k + 1..], removed := st.removed + [st.queue[k]]) else st
    case _ => st
  }

  function Moved(mutex: Mutex, thread: nat, f: Effect): Mutex {
    match f case Lock => HeldBy(thread) case Unlock => Free case _ => mutex
  }

  function Step(s: State, e: Event): State {
    if e.thread >= |s.threads| then s
    else
      var (pc, f) := Plan(s.threads[e.thread], e.act, s.store, s.mutex == Free);
      State(s.threads[e.thread := pc],
            Moved(s.mutex, e.thread, f),
            Apply(s.store, f))
  }

  /** The number of threads at a place of this kind. */
  function Count(threads: seq<Pc>, kind: Pc -> bool): nat {
    if threads == [] then 0 else (if kind(threads[0]) then 1 else 0) + Count(threads[1..], kind)
  }

  lemma {:induction false} CountUpdate(threads: seq<Pc>, kind: Pc -> bool, i: nat, pc: Pc)
    requires i < |threads|
    ensures Count(threads[i := pc], kind) + (if kind(threads[i]) then 1 else 0)
         == Count(threads, kind) + (if kind(pc) then 1 else 0)
  {
    if i == 0 {
      assert threads[0 := pc][1..] == threads[1..];
    } else {
      CountUpdate(threads[1..], kind, i - 1, pc);
      assert threads[i := pc][1..] == threads[1..][i - 1 := pc];
    }
  }

  lemma {:induction false} CountNone(threads: seq<Pc>, kind: Pc -> bool)
    requires forall i :: 0 <= i < |threads| ==> !kind(threads[i])
    ensures Count(threads, kind) == 0
  {
    if threads != [] {
      assert forall i :: 0 <= i < |threads[1..]| ==> threads[1..][i] == threads[i + 1];
      CountNone(threads[1..], kind);
    }
  }

  /** A thread that still owes a look at the queue or a post: a permit taken and not used yet, or a queued task whose
      post is to come. */
  predicate Promises(pc: Pc) { (pc.AddLeave? && pc.ok) || pc.PostCheck? || pc.Post? || pc.WorkEnter? || pc.WorkFetch? }

  /** A thread with a block of task_pool in hand that is not in the queue. */
  predicate Carries(pc: Pc) { pc.AddPush? || pc.WorkFree? || pc.RemoveFree? || pc.ClearFree? }

  ghost predicate MutualExclusion(s: State) {
    && (forall i :: 0 <= i < |s.threads| ==> (Inside(s.threads[i]) <==> s.mutex == HeldBy(i)))
    && (s.mutex == Free || s.mutex.thread < |s.threads|)
  }

  /** Queued tasks do not outnumber the permits there are and will be. */
  ghost predicate Covered(s: State) {
    |s.store.queue| <= s.store.semaphore + Count(s.threads, Promises)
  }

  ghost predicate BlocksConserved(s: State) {
    s.store.poolFree + |s.store.queue| + Count(s.threads, Carries) == s.store.max <= MAX_TASK_COUNT
  }

  ghost predicate Partition(added: seq<Item>, queue: seq<Item>, fetched: seq<Item>, removed: seq<Item>) {
    multiset(added) == multiset(queue) + multiset(fetched) + multiset(removed)
  }

  /** Every task that was added is queued, fetched or removed. */
  ghost predicate TasksConserved(st: Store) { Partition(st.added, st.queue, st.fetched, st.removed) }

  /** What a worker has fetched and not executed yet. */
  function Job(pc: Pc): seq<Item> {
    match pc
    case WorkFree(item) => [item]
    case WorkLeave(job) => job
    case Work(job) => job
    case _ => []
  }

  function Times(items: seq<Item>, x: Item): nat { multiset(items)[x] }

  /** How often workers have x in hand. */
  function InHand(threads: seq<Pc>, x: Item): nat {
    if threads == [] then 0 else Times(Job(threads[0]), x) + InHand(threads[1..], x)
  }

  /** Every fetched task is in the hands of a worker or has been executed, once. */
  ghost predicate JobsConserved(s: State) {
    forall x :: Times(s.store.fetched, x) == Times(s.store.executed, x) + InHand(s.threads, x)
  }

  ghost predicate Increasing(s: seq<Item>) { forall j, k :: 0 <= j < k < |s| ==> s[j].ticket < s[k].ticket }
  ghost predicate Decreasing(s: seq<Item>) { forall j, k :: 0 <= j < k < |s| ==> s[j].ticket > s[k].ticket }

  /** Tickets count up in the order of adding; the queue runs from new to old; what has been fetched was fetched in
      that order, and before everything that is still queued. */
  ghost predicate Ordered(st: Store) {
    && (forall k :: 0 <= k < |st.added| ==> st.added[k].ticket == k)
    && Decreasing(st.queue) && (forall k :: 0 <= k < |st.queue| ==> st.queue[k].ticket < |st.added|)
    && Increasing(st.fetched) && (forall j :: 0 <= j < |st.fetched| ==> st.fetched[j].ticket < |st.added|)
    && (forall j, k :: 0 <= j < |st.fetched| && 0 <= k < |st.queue| ==> st.fetched[j].ticket < st.queue[k].ticket)
  }

  ghost predicate Inv(s: State) {
    MutualExclusion(s) && Covered(s) && BlocksConserved(s) && TasksConserved(s.store) && JobsConserved(s)
    && Ordered(s.store)
  }

  lemma PlanLocks(pc: Pc, act: Act, st: Store, unlocked: bool)
    ensures var (pc', f) := Plan(pc, act, st, unlocked);
            match f
            case Lock => unlocked && !Inside(pc) && Inside(pc')
            case Unlock => Inside(pc) && !Inside(pc')
            case _ => Inside(pc) <==> Inside(pc')
  {}

  lemma StepExcludes(s: State, e: Event)
    requires MutualExclusion(s)
    ensures MutualExclusion(Step(s, e))
  {
    hide Plan, Inside, Apply;
    if e.thread < |s.threads| {
      PlanLocks(s.threads[e.thread], e.act, s.store, s.mutex == Free);
    }
  }

  function One(b: bool): nat { if b then 1 else 0 }

  /** What an effect adds to the blocks that are free or in the queue. */
  function BlockChange(st: Store, f: Effect): int {
    match f
    case TakeBlock => if st.poolFree > 0 then -1 else 0
    case GiveBlock => 1
    case PushFront(_) => 1
    case FetchLast => if st.queue != [] then -1 else 0
    case Discard(k) => if k < |st.queue| then -1 else 0
    case _ => 0
  }

  lemma ApplyBlocks(st: Store, f: Effect)
    ensures Apply(st, f).max == st.max
    ensures Apply(st, f).poolFree + |Apply(st, f).queue| == st.poolFree + |st.queue| + BlockChange(st, f)
  {
    if f.Discard? && f.k < |st.queue| {
      assert |st.queue[..f.k] + st.queue[f.k + 1..]| == |st.queue| - 1;
    }
  }

  /** A thread that carries a block to the list finds room for it there, so no block leaks. */
  lemma PlanBlocks(pc: Pc, act: Act, st: Store, unlocked: bool)
    requires Carries(pc) ==> |st.queue| < st.max
    ensures var (pc', f) := Plan(pc, act, st, unlocked);
            BlockChange(st, f) + One(Carries(pc')) == One(Carries(pc))
  {}

  lemma IdleCarriesNothing()
    ensures !Carries(Idle)
  {}

  lemma StepConservesBlocks(s: State, e: Event)
    requires BlocksConserved(s)
    ensures BlocksConserved(Step(s, e))
  {
    hide Plan, Carries, Apply, BlockChange;
    if e.thread < |s.threads| {
      if Carries(s.threads[e.thread]) {
        CountUpdate(s.threads, Carries, e.thread, Idle);
        assert !Carries(Idle) by { IdleCarriesNothing(); }
      }
      PlanBlocks(s.threads[e.thread], e.act, s.store, s.mutex == Free);
      ApplyBlocks(s.store, Plan(s.threads[e.thread], e.act, s.store, s.mutex == Free).1);
      CountUpdate(s.threads, Carries, e.thread, Step(s, e).threads[e.thread]);
    }
  }

  /** Each step keeps the queue covered, or leaves no more tasks than permits: an empty queue after a fetch, a
      semaphore at its maximum after a refused post. */
  lemma PlanCovers(pc: Pc, act: Act, st: Store, unlocked: bool)
    requires |st.queue| <= MAX_TASK_COUNT
    ensures var (pc', f) := Plan(pc, act, st, unlocked);
            var st' := Apply(st, f);
            || |st'.queue| + st.semaphore + One(Promises(pc)) <= |st.queue| + st'.semaphore + One(Promises(pc'))
            || |st'.queue| <= st'.semaphore
  {}

  lemma StepCovers(s: State, e: Event)
    requires Covered(s) && BlocksConserved(s)
    ensures Covered(Step(s, e))
  {
    hide Plan, Promises, Apply;
    if e.thread < |s.threads| {
      PlanCovers(s.threads[e.thread], e.act, s.store, s.mutex == Free);
      CountUpdate(s.threads, Promises, e.thread, Step(s, e).threads[e.thread]);
    }
  }

  lemma SplitMultiset(q: seq<Item>, k: nat)
    requires k < |q|
    ensures multiset(q) == multiset(q[..k] + q[k + 1..]) + multiset([q[k]])
  {
    assert q == q[..k] + [q[k]] + q[k + 1..];
  }

  lemma PushPartition(added: seq<Item>, queue: seq<Item>, fetched: seq<Item>, removed: seq<Item>, item: Item)
    requires Partition(added, queue, fetched, removed)
    ensures Partition(added + [item], [item] + queue, fetched, removed)
  {}

  lemma TakePartition(added: seq<Item>, queue: seq<Item>, fetched: seq<Item>, removed: seq<Item>, k: nat)
    requires Partition(added, queue, fetched, removed) && k < |queue|
    ensures Partition(added, queue[..k] + queue[k + 1..], fetched + [queue[k]], removed)
    ensures Partition(added, queue[..k] + queue[k + 1..], fetched, removed + [queue[k]])
  {
    SplitMultiset(queue, k);
  }

  lemma ApplyConserves(st: Store, f: Effect)
    requires TasksConserved(st)
    ensures TasksConserved(Apply(st, f))
  {
    hide Partition;
    match f
    case PushFront(t) =>
      PushPartition(st.added, st.queue, st.fetched, st.removed, Item(|st.added|, t));
    case FetchLast =>
      if st.queue != [] {
        var last := |st.queue| - 1;
        TakePartition(st.added, st.queue, st.fetched, st.removed, last);
        assert st.queue[..last] + st.queue[last + 1..] == st.queue[..last];
      }
    case Discard(k) =>
      if k < |st.queue| {
        TakePartition(st.added, st.queue, st.fetched, st.removed, k);
      }
    case _ =>
  }

  lemma {:induction false} InHandUpdate(threads: seq<Pc>, i: nat, pc: Pc, x: Item)
    requires i < |threads|
    ensures InHand(threads[i := pc], x) + Times(Job(threads[i]), x) == InHand(threads, x) + Times(Job(pc), x)
  {
    if i == 0 {
      assert threads[0 := pc][1..] == threads[1..];
    } else {
      InHandUpdate(threads[1..], i - 1, pc, x);
      assert threads[i := pc][1..] == threads[1..][i - 1 := pc];
    }
  }

  lemma TimesAppend(s: seq<Item>, t: seq<Item>, x: Item)
    ensures Times(s + t, x) == Times(s, x) + Times(t, x)
  {}

  /** A worker goes away with what the list gave it, keeps it, and executes it. */
  lemma PlanJobs(pc: Pc, act: Act, st: Store, unlocked: bool)
    ensures var (pc', f) := Plan(pc, act, st, unlocked);
            match f
            case FetchLast => st.queue != [] && Job(pc) == [] && Job(pc') == [st.queue[|st.queue| - 1]]
            case Execute(job) => Job(pc) == job && Job(pc') == []
            case _ => Job(pc') == Job(pc)
  {}

  lemma ApplyJobs(st: Store, f: Effect, x: Item)
    requires f.FetchLast? ==> st.queue != []
    ensures Times(Apply(st, f).fetched, x)
         == Times(st.fetched, x) + if f.FetchLast? then Times([st.queue[|st.queue| - 1]], x) else 0
    ensures Times(Apply(st, f).executed, x) == Times(st.executed, x) + if f.Execute? then Times(f.job, x) else 0
  {
    if f.FetchLast? {
      TimesAppend(st.fetched, [st.queue[|st.queue| - 1]], x);
    } else if f.Execute? {
      TimesAppend(st.executed, f.job, x);
    }
  }

  lemma StepConservesJobs(s: State, e: Event)
    requires JobsConserved(s)
    ensures JobsConserved(Step(s, e))
  {
    hide Plan, Job, Apply;
    if e.thread < |s.threads| {
      var (pc, f) := Plan(s.threads[e.thread], e.act, s.store, s.mutex == Free);
      PlanJobs(s.threads[e.thread], e.act, s.store, s.mutex == Free);
      forall x ensures Times(Step(s, e).store.fetched, x)
                    == Times(Step(s, e).store.executed, x) + InHand(Step(s, e).threads, x) {
        InHandUpdate(s.threads, e.thread, pc, x);
        ApplyJobs(s.store, f, x);
        assert Times(s.store.fetched, x) == Times(s.store.executed, x) + InHand(s.threads, x);
      }
    }
  }

  lemma PushOrders(st: Store, t: Task)
    requires Ordered(st)
    ensures Ordered(Apply(st, PushFront(t)))
  {}

  lemma FetchOrders(st: Store)
    requires Ordered(st)
    ensures Ordered(Apply(st, FetchLast))
  {}

  /** A queue without its k-th task. */
  lemma WithoutOne(q: seq<Item>, k: nat)
    requires Decreasing(q) && k < |q|
    ensures var r := q[..k] + q[k + 1..];
            && |r| == |q| - 1 && Decreasing(r)
            && forall i :: 0 <= i < |r| ==> r[i] == q[if i < k then i else i + 1]
  {
    var r := q[..k] + q[k + 1..];
    assert forall i :: 0 <= i < |r| ==> r[i] == q[if i < k then i else i + 1];
  }

  lemma DiscardOrders(st: Store, k: nat)
    requires Ordered(st)
    ensures Ordered(Apply(st, Discard(k)))
  {
    hide Decreasing, Increasing;
    if k < |st.queue| {
      var q := st.queue[..k] + st.queue[k + 1..];
      WithoutOne(st.queue, k);
      assert Apply(st, Discard(k)).queue == q;
    }
  }

  lemma ApplyOrders(st: Store, f: Effect)
    requires Ordered(st)
    ensures Ordered(Apply(st, f))
  {
    match f
    case PushFront(t) => PushOrders(st, t);
    case FetchLast => FetchOrders(st);
    case Discard(k) => DiscardOrders(st, k);
    case _ =>
  }

  lemma StepKeeps(s: State, e: Event)
    requires Inv(s)
    ensures Inv(Step(s, e))
  {
    hide Plan, Apply, MutualExclusion, Covered, BlocksConserved, TasksConserved, JobsConserved, Ordered;
    StepExcludes(s, e);
    StepConservesBlocks(s, e);
    StepCovers(s, e);
    StepConservesJobs(s, e);
    if e.thread < |s.threads| {
      var f := Plan(s.threads[e.thread], e.act, s.store, s.mutex == Free).1;
      ApplyConserves(s.store, f);
      ApplyOrders(s.store, f);
    }
  }

  /** Everything above holds in every reachable state, however the threads interleave. */
  lemma {:induction false} RunKeeps(threads: nat, max: nat, es: seq<Event>)
    requires max <= MAX_TASK_COUNT
    ensures Inv(Run(Step, Initial(threads, max), es))
    decreases |es|
  {
    hide Step, Inv;
    if es == [] {
      InitialInv(threads, max);
    } else {
      RunKeeps(threads, max, es[..|es| - 1]);
      StepKeeps(Run(Step, Initial(threads, max), es[..|es| - 1]), es[|es| - 1]);
    }
  }

  lemma InitialInv(threads: nat, max: nat)
    requires max <= MAX_TASK_COUNT
    ensures Inv(Initial(threads, max))
  {
    CountNone(Initial(threads, max).threads, Promises);
    CountNone(Initial(threads, max).threads, Carries);
    forall x { NothingInHand(Initial(threads, max).threads, x); }
  }

  lemma {:induction false} NothingInHand(threads: seq<Pc>, x: Item)
    requires forall i :: 0 <= i < |threads| ==> threads[i] == Idle
    ensures InHand(threads, x) == 0
  {
    if threads != [] {
      NothingInHand(threads[1..], x);
    }
  }

  /** No stranded task: when every thread is idle, or runs a task, or waits, there are permits for all that is
      queued; so if workers wait on an exhausted semaphore the queue is empty. */
  lemma {:induction false} NoStrandedTask(threads: nat, max: nat, es: seq<Event>)
    requires max <= MAX_TASK_COUNT
    ensures var s := Run(Step, Initial(threads, max), es);
            && |s.store.queue| <= s.store.semaphore + Count(s.threads, Promises)
            && ((forall i :: 0 <= i < |s.threads| ==> !Promises(s.threads[i])) ==> |s.store.queue| <= s.store.semaphore)
  {
    RunKeeps(threads, max, es);
    var s := Run(Step, Initial(threads, max), es);
    if forall i :: 0 <= i < |s.threads| ==> !Promises(s.threads[i]) {
      CountNone(s.threads, Promises);
    }
  }

  /** A thread that has added a task and not posted its permit yet. */
  predicate Owes(pc: Pc) { (pc.AddLeave? && pc.ok) || pc.PostCheck? || pc.Post? }

  /** What an effect adds to the tasks that have been added, less the permits. */
  lemma PlanEarns(pc: Pc, act: Act, st: Store, unlocked: bool)
    ensures var (pc', f) := Plan(pc, act, st, unlocked);
            var st' := Apply(st, f);
            st'.semaphore + One(Owes(pc')) + |st.added| <= st.semaphore + One(Owes(pc)) + |st'.added|
  {}

  /** Every permit comes from a task that has been added: there are never more permits, given and still owed, than tasks
      added so far. */
  lemma {:induction false} PermitsEarned(threads: nat, max: nat, es: seq<Event>)
    ensures var s := Run(Step, Initial(threads, max), es);
            s.store.semaphore + Count(s.threads, Owes) <= |s.store.added|
    decreases |es|
  {
    if es == [] {
      CountNone(Initial(threads, max).threads, Owes);
    } else {
      PermitsEarned(threads, max, es[..|es| - 1]);
      StepEarns(Run(Step, Initial(threads, max), es[..|es| - 1]), es[|es| - 1]);
    }
  }

  lemma StepEarns(s: State, e: Event)
    requires s.store.semaphore + Count(s.threads, Owes) <= |s.store.added|
    ensures var r := Step(s, e); r.store.semaphore + Count(r.threads, Owes) <= |r.store.added|
  {
    hide Plan, Owes, Apply;
    if e.thread < |s.threads| {
      PlanEarns(s.threads[e.thread], e.act, s.store, s.mutex == Free);
      CountUpdate(s.threads, Owes, e.thread, Step(s, e).threads[e.thread]);
    }
  }

  /** Task conservation: every task added is queued, fetched or removed, exactly once; every task fetched is with a
      worker or executed, exactly once; no task is fetched twice, and the tasks that are not removed are fetched in the
      order in which they were added. */
  lemma {:induction false} TaskConservation(threads: nat, max: nat, es: seq<Event>)
    requires max <= MAX_TASK_COUNT
    ensures var s := Run(Step, Initial(threads, max), es);
            var st := s.store;
            && multiset(st.added) == multiset(st.queue) + multiset(st.fetched) + multiset(st.removed)
            && (forall x :: Times(st.fetched, x) == Times(st.executed, x) + InHand(s.threads, x))
            && Increasing(st.fetched)
            && (forall i, j :: 0 <= i < |st.fetched| && 0 <= j < |st.queue| ==> st.fetched[i].ticket < st.queue[j].ticket)
            && (forall k :: 0 <= k < |st.added| ==> st.added[k].ticket == k)
  {
    RunKeeps(threads, max, es);
  }

  /** Whenever the task mutex is free, the free blocks of the pool and the queue make up the configured maximum. */
  lemma {:induction false} BlocksAccounted(threads: nat, max: nat, es: seq<Event>)
    requires max <= MAX_TASK_COUNT
    ensures var s := Run(Step, Initial(threads, max), es);
            s.mutex == Free ==> s.store.poolFree + |s.store.queue| == max
  {
    RunKeeps(threads, max, es);
    MaxStays(threads, max, es);
    var s := Run(Step, Initial(threads, max), es);
    if s.mutex == Free {
      forall i | 0 <= i < |s.threads| ensures !Carries(s.threads[i]) {
        assert !Inside(s.threads[i]);
      }
      CountNone(s.threads, Carries);
    }
  }

  lemma {:induction false} MaxStays(threads: nat, max: nat, es: seq<Event>)
    ensures Run(Step, Initial(threads, max), es).store.max == max
    decreases |es|
  {
    if es != [] {
      hide Plan, Carries;
      MaxStays(threads, max, es[..|es| - 1]);
    }
  }
}
