/** The calls of ListRuns on the list in memory, and what its model gives for them. */
module ListCalls {
  import opened Arithmetic
  import opened Runs
  import opened MemPool
  import opened ListShape
  import opened LinkedList
  import opened ListRuns
  import C = ListCursor

  ghost function StateOf(list: List, results: seq<int>): Cached
    requires list.Sound()
    reads list, list.pool, list.pool.memory
  {
    Cached(list.Contents(), list.CursorState(), |list.leaked|, results)
  }

  lemma Placed(list: List)
    requires list.Valid()
    ensures C.WellPlaced(list.CursorState()) && list.CursorState().size == |list.Contents()| == list.count
    ensures list.count + |list.leaked| + list.pool.freeBlocksCount == list.pool.blockCount
  {
    hide FreeList, Chain, Linked, DataOf;
  }

  /** The call itself. */
  method Perform(list: List, a: Action, ghost results: seq<int>) returns (res: int)
    requires list.Valid() && Keeps(list.pool.blockCount, StateOf(list, results), a)
    modifies list, list.pool, list.pool.memory
    ensures list.Valid()
    ensures StateOf(list, results + [res]) == CachedStep(list.pool.blockCount, old(StateOf(list, results)), a)
  {
    hide List.Valid, Keeps, CachedStep, StateOf, FirstMatch;
    match a
    case PushAt(_, _) => res := PerformPush(list, a, results);
    case PopOf(_) => res := PerformPop(list, a, results);
    case PopIf(_) => res := PerformPop(list, a, results);
    case DeleteData(_) => res := PerformPop(list, a, results);
    case Clear => res := PerformPop(list, a, results);
    case _ => res := PerformMove(list, a, results);
  }

  method PerformPush(list: List, a: Action, ghost results: seq<int>) returns (res: int)
    requires list.Valid() && a.PushAt? && Keeps(list.pool.blockCount, StateOf(list, results), a)
    modifies list, list.pool, list.pool.memory
    ensures list.Valid()
    ensures StateOf(list, results + [res]) == CachedStep(list.pool.blockCount, old(StateOf(list, results)), a)
  {
    hide List.Sound, List.Owns, List.CursorOk, DataOf, FirstMatch, InsertAt;
    Placed(list);
    res := list.PushAt(a.i, a.data);
  }

  method PerformPop(list: List, a: Action, ghost results: seq<int>) returns (res: int)
    requires list.Valid() && (a.PopOf? || a.PopIf? || a.DeleteData? || a.Clear?)
    requires Keeps(list.pool.blockCount, StateOf(list, results), a)
    modifies list, list.pool, list.pool.memory
    ensures list.Valid()
    ensures StateOf(list, results + [res]) == CachedStep(list.pool.blockCount, old(StateOf(list, results)), a)
  {
    hide List.Sound, List.Owns, List.CursorOk, DataOf, FirstMatch, RemoveAt, FirstHit, TookFirstHit, LostFirst;
    Placed(list);
    match a
    case PopOf(i) => res := list.PopOf(i);
    case PopIf(cmp) => res := list.PopIf(cmp);
    case DeleteData(d) => res := list.DeleteData(d);
    case Clear => list.Clear(); res := CPLUS_SUCCESS;
  }

  method PerformMove(list: List, a: Action, ghost results: seq<int>) returns (res: int)
    requires list.Valid() && !a.PushAt? && !a.PopOf? && !a.PopIf? && !a.DeleteData? && !a.Clear?
    requires Keeps(list.pool.blockCount, StateOf(list, results), a)
    modifies list`curIndex, list`current, list`drift
    ensures list.Valid()
    ensures StateOf(list, results + [res]) == CachedStep(list.pool.blockCount, old(StateOf(list, results)), a)
  {
    hide List.Sound, List.Owns, List.CursorOk, DataOf, FirstMatch, FirstHit;
    Placed(list);
    match a
    case GetOf(i) => res := list.GetOf(i);
    case GetNext => res := list.GetNext();
    case GetPrev => res := list.GetPrev();
    case GetCyclingNext => res := list.GetCyclingNext();
    case GetIf(cmp) => var index; res, index := list.GetIf(cmp);
  }

  /** A run of calls, each of which keeps the list. */
  method PerformAll(list: List, actions: seq<Action>) returns (results: seq<int>)
    requires list.Valid() && Orderly(list.pool.blockCount, StateOf(list, []), actions)
    modifies list, list.pool, list.pool.memory
    ensures list.Valid()
    ensures StateOf(list, results) == CachedRun(list.pool.blockCount, old(StateOf(list, [])), actions)
    ensures var s := old(StateOf(list, []));
            old(list.drift) == 0 && Forward(list.pool.blockCount, s, actions) ==>
              Plain(list.Contents(), list.curIndex, results)
              == PlainRun(list.pool.blockCount - s.leaked, Abstract(s), actions)
  {
    hide List.Sound, List.Owns, List.CursorOk, DataOf, Keeps, C.WellPlaced, Orderly, Forward, CachedRun, PlainRun, CachedStep;
    ghost var s, capacity := StateOf(list, []), list.pool.blockCount;
    Placed(list);
    results := [];
    var k := 0;
    EmptyRun(capacity, s);
    assert actions[..0] == [];
    while k < |actions|
      invariant 0 <= k <= |actions| && list.Valid()
      invariant StateOf(list, results) == CachedRun(capacity, s, actions[..k])
    {
      NextKeeps(capacity, s, actions, k);
      var res := Perform(list, actions[k], results);
      results := results + [res];
      k := k + 1;
    }
    assert actions[..k] == actions;
    if s.cursor.drift == 0 && Forward(capacity, s, actions) {
      Refines(capacity, s, actions);
    }
  }

  /** The k-th call of the run keeps the list, and leads from the first k calls to the first k + 1. */
  lemma NextKeeps(capacity: int, s: Cached, actions: seq<Action>, k: nat)
    requires Orderly(capacity, s, actions) && k < |actions|
    ensures var t := CachedRun(capacity, s, actions[..k]);
            && Keeps(capacity, t, actions[k])
            && CachedRun(capacity, s, actions[..k + 1]) == CachedStep(capacity, t, actions[k])
  {
    hide Keeps, CachedStep;
    OrderlyPrefix(capacity, s, actions, k + 1);
    assert actions[..k + 1][..k] == actions[..k];
  }

  lemma {:induction false} OrderlyPrefix(capacity: int, s: Cached, actions: seq<Action>, k: nat)
    requires Orderly(capacity, s, actions) && k <= |actions|
    ensures Orderly(capacity, s, actions[..k])
    decreases |actions|
  {
    if k == |actions| {
      assert actions[..k] == actions;
    } else {
      OrderlyPrefix(capacity, s, actions[..|actions| - 1], k);
      assert actions[..|actions| - 1][..k] == actions[..k];
    }
  }

  // Round robin

  function Fetches(k: nat): (r: seq<Action>)
    ensures |r| == k && forall j :: 0 <= j < k ==> r[j] == GetCyclingNext
  {
    seq(k, _ => GetCyclingNext)
  }

  /** The elements from the p-th on, k of them, over and over. */
  function Cycle(contents: seq<int>, p: nat, k: nat): (r: seq<int>)
    requires contents != []
    ensures |r| == k && forall j :: 0 <= j < k ==> r[j] == contents[(p + j) % |contents|]
  {
    seq(k, j requires 0 <= j => contents[(p + j) % |contents|])
  }

  /** The cursor after k fetches: it has moved on, and wrapped around. */
  ghost predicate Cycled(s: Cached, t: Cached, k: nat)
    requires C.OnNode(s.cursor) && s.cursor.size == |s.contents|
  {
    && t.contents == s.contents && t.leaked == s.leaked
    && t.cursor.size == s.cursor.size
    && t.cursor.index + t.cursor.drift == (s.cursor.index + s.cursor.drift + k) % s.cursor.size
  }

  lemma FetchOnce(capacity: int, s: Cached)
    requires C.OnNode(s.cursor) && s.cursor.size == |s.contents|
    ensures var t, p, n := CachedStep(capacity, s, GetCyclingNext), s.cursor.index + s.cursor.drift, |s.contents|;
            && Keeps(capacity, s, GetCyclingNext) && t.results == s.results + [s.contents[p]]
            && t.contents == s.contents && t.leaked == s.leaked && t.cursor.size == n
            && t.cursor.index + t.cursor.drift == if p + 1 == n then 0 else p + 1
  {}

  /** Round robin: on an unmodified list the k-th fetch from now on is of the k-th element from the cursor on, counting
      around. */
  lemma {:induction false} RoundRobin(capacity: int, s: Cached, k: nat)
    requires C.OnNode(s.cursor) && s.cursor.size == |s.contents|
    ensures var t := CachedRun(capacity, s, Fetches(k));
            && Orderly(capacity, s, Fetches(k)) && Cycled(s, t, k)
            && t.results == s.results + Cycle(s.contents, s.cursor.index + s.cursor.drift, k)
  {
    hide CachedStep, Keeps;
    var p, n := s.cursor.index + s.cursor.drift, |s.contents|;
    if k == 0 {
      EmptyRun(capacity, s);
      assert Fetches(0) == [];
      Quotient(n, 0, p, p);
    } else {
      RoundRobin(capacity, s, k - 1);
      var t := CachedRun(capacity, s, Fetches(k - 1));
      assert Fetches(k) == Fetches(k - 1) + [GetCyclingNext];
      Snoc(capacity, s, Fetches(k - 1), GetCyclingNext);
      C.NextResidue(n, p + k);
      FetchOnce(capacity, t);
      assert Cycle(s.contents, p, k) == Cycle(s.contents, p, k - 1) + [s.contents[(p + (k - 1)) % n]];
    }
  }

  /** A full round is a rotation. */
  lemma {:induction false} FullRound(contents: seq<int>, p: nat)
    requires contents != []
    ensures multiset(Cycle(contents, p, |contents|)) == multiset(contents)
  {
    var n, r := |contents|, p % |contents|;
    var rotated := contents[r..] + contents[..r];
    forall j | 0 <= j < n ensures Cycle(contents, p, n)[j] == rotated[j] {
      var q := p / n;
      assert p + j == n * q + (r + j);
      if r + j < n {
        Quotient(n, q, r + j, p + j);
      } else {
        assert p + j == n * (q + 1) + (r + j - n);
        Quotient(n, q + 1, r + j - n, p + j);
      }
    }
    assert Cycle(contents, p, n) == rotated;
    assert contents == contents[..r] + contents[r..];
  }

  /** Any n fetches in a row take each of the n elements exactly once. */
  lemma {:induction false} EachOnce(contents: seq<int>, p: nat, k: nat, j: nat)
    requires contents != [] && j + |contents| <= k
    ensures multiset(Cycle(contents, p, k)[j..j + |contents|]) == multiset(contents)
  {
    FullRound(contents, p + j);
    assert Cycle(contents, p, k)[j..j + |contents|] == Cycle(contents, p + j, |contents|);
  }

  /** k fetches from the list in memory. */
  method FetchAll(list: List, k: nat) returns (results: seq<int>)
    requires list.Valid() && C.OnNode(list.CursorState())
    modifies list, list.pool, list.pool.memory
    ensures list.Valid() && list.Contents() == old(list.Contents())
    ensures results == Cycle(list.Contents(), old(list.Position()), k)
  {
    hide List.Sound, List.Owns, List.CursorOk, DataOf, C.WellPlaced, Orderly, Forward, CachedRun, PlainRun, Cycle;
    ghost var s, p := StateOf(list, []), list.Position();
    Placed(list);
    RoundRobin(list.pool.blockCount, s, k);
    results := PerformAll(list, Fetches(k));
    assert [] + Cycle(s.contents, p, k) == Cycle(s.contents, p, k);
  }

  // What can go wrong with a cursor that is off

  method Three() returns (list: List)
    ensures fresh(list) && fresh(list.pool) && fresh(list.pool.memory) && list.Valid() && list.pool.blockCount == 10
    ensures list.Contents() == [3, 2, 1] && list.CursorState() == C.AtStart(3) && list.leaked == {}
  {
    hide List.Sound, List.Owns, List.CursorOk, DataOf;
    list := new List(10);
    Placed(list);
    var r0 := list.PushBack(3);
    var r1 := list.PushBack(2);
    var r2 := list.PushBack(1);
  }

  /** A new list of five elements whose cursor is one too far. */
  method Drifted() returns (list: List)
    ensures fresh(list) && fresh(list.pool) && fresh(list.pool.memory) && list.Valid() && list.pool.blockCount == 10
    ensures list.Contents() == [3, 5, 2, 4, 1] && list.CursorState() == C.Cursor(5, 1, C.AtPrev, 1) && list.leaked == {}
  {
    hide List.Sound, List.Owns, List.CursorOk, DataOf;
    list := Three();
    Placed(list);
    var r3 := list.PushAt(2, 4);
    assert list.Contents() == [3, 2, 4, 1];
    Placed(list);
    var r4 := list.PushAt(1, 5);
  }

  /** There a push at an index between two nodes fails with half of the pool free, and one block is lost. */
  method LosesABlock() returns (list: List, res: int)
    ensures list.Valid() && res == CPLUS_FAIL && list.Contents() == [3, 5, 2, 4, 1] && |list.leaked| == 1
    ensures list.pool.freeBlocksCount == 4 && list.pool.blockCount == 10
  {
    hide List.Sound, List.Owns, List.CursorOk, DataOf;
    list := Drifted();
    Placed(list);
    res := list.PushAt(4, 6);
    Placed(list);
  }

  /** There get_of has nothing at an index within the list. */
  method FindsNothing() returns (list: List, target: Datum)
    ensures list.Valid() && list.count == 5 && target == NULL
  {
    hide List.Sound, List.Owns, List.CursorOk, DataOf;
    list := Drifted();
    target := list.GetOf(4);
  }

  /** And there pop_of takes nothing, and the count is one short of the nodes. */
  method Miscounts() returns (list: List, target: Datum)
    ensures !list.Valid() && list.Intact() && target == NULL && list.count == 4 && list.Contents() == [3, 5, 2, 4, 1]
  {
    hide List.Sound, List.Owns, List.CursorOk, DataOf;
    list := Drifted();
    target := list.PopOf(4);
  }
}
