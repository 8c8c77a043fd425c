/** Whole runs of a list of src/llist.c: a list with a cached cursor against a plain sequence with a read position. */
module ListRuns {
  import opened Runs
  import opened MemPool
  import opened ListShape
  import opened LinkedList
  import C = ListCursor

  /** A call of a client of the list. */
  datatype Action = GetOf(i: int) | PushAt(i: int, data: Datum) | PopOf(i: int) | GetNext | GetPrev | GetCyclingNext
                  | GetIf(cmp: Comparator) | PopIf(cmp: Comparator) | DeleteData(data: Datum) | Clear

  /** The list with its cursor, the number of blocks that pushes have lost, and the results of the calls so far. */
  datatype Cached = Cached(contents: seq<Datum>, cursor: C.Cursor, leaked: nat, results: seq<int>)

  /** The reference: a sequence, the position that the relative calls start from, and the results. */
  datatype Plain = Plain(contents: seq<Datum>, position: int, results: seq<int>)

  /** The call gets as far as to allocate a block. */
  predicate Allocates(n: nat, room: bool, a: Action) { a.PushAt? && a.data != NULL && 0 <= a.i <= n && room }

  function Peek(contents: seq<Datum>, k: int): Datum { if 0 <= k < |contents| then contents[k] else NULL }

  function TakeAt(contents: seq<Datum>, k: int): (seq<Datum>, int) {
    if 0 <= k < |contents| then (RemoveAt(contents, k), contents[k]) else (contents, NULL)
  }

  /** What a call does to the data, and its result; the node found at an index is shift further on, and the relative calls
      start from the node at position, if there is one. */
  function Effect(contents: seq<Datum>, shift: int, position: int, room: bool, a: Action): (seq<Datum>, int) {
    var n := |contents|;
    match a
    case GetOf(i) => (contents, if 0 <= i < n then Peek(contents, i + shift) else NULL)
    case PushAt(i, d) =>
      var k := if C.Interior(n, i) then i + shift else i;
      if !Allocates(n, room, a) || !(0 <= k <= n) || (C.Interior(n, i) && k == n) then (contents, CPLUS_FAIL)
      else (InsertAt(contents, k, d), CPLUS_SUCCESS)
    case PopOf(i) =>
      if !(0 <= i <= n) then (contents, NULL)
      else TakeAt(contents, if i == 0 then 0 else if i == n then n - 1 else i + shift)
    case GetNext => (contents, if 0 <= position then Peek(contents, position + 1) else NULL)
    case GetPrev => (contents, if position < n then Peek(contents, position - 1) else NULL)
    case GetCyclingNext => (contents, Peek(contents, position))
    case GetIf(cmp) => (contents, Peek(contents, FirstMatch(cmp, contents)))
    case PopIf(cmp) => TakeAt(contents, FirstMatch(cmp, contents))
    case DeleteData(d) =>
      var k := FirstMatch(Same(d), contents);
      if d != NULL && k < n then (RemoveAt(contents, k), CPLUS_SUCCESS) else (contents, CPLUS_FAIL)
    case Clear => ([], CPLUS_SUCCESS)
  }

  /** What a call does to the cursor; one that is refused before it comes to that does nothing. */
  function CursorOp(contents: seq<Datum>, room: bool, a: Action): C.Op {
    match a
    case GetOf(i) => C.Get(i)
    case PushAt(i, d) => if Allocates(|contents|, room, a) then C.PushAt(i) else C.Get(-1)
    case PopOf(i) => C.PopOf(i)
    case GetNext => C.GetNext
    case GetPrev => C.GetPrev
    case GetCyclingNext => C.GetCyclingNext
    case GetIf(cmp) => C.Find(FirstMatch(cmp, contents))
    case PopIf(cmp) => Removal(contents, FirstMatch(cmp, contents))
    case DeleteData(d) => if d == NULL then C.Get(-1) else Removal(contents, FirstMatch(Same(d), contents))
    case Clear => C.Clear
  }

  function Removal(contents: seq<Datum>, k: nat): C.Op { if k < |contents| then C.RemoveFound else C.Find(k) }

  predicate Room(capacity: int, s: Cached) { |s.contents| + s.leaked < capacity }

  /** The cursor's part of a call. */
  function Op(capacity: int, s: Cached, a: Action): C.Op { CursorOp(s.contents, Room(capacity, s), a) }

  /** A push that finds no node loses the block it has allocated. */
  predicate Leaks(capacity: int, s: Cached, a: Action) {
    Allocates(|s.contents|, Room(capacity, s), a) && C.Interior(|s.contents|, a.i) && !C.Finds(s.cursor, a.i)
  }

  function CachedStep(capacity: int, s: Cached, a: Action): Cached {
    var c := s.cursor;
    var (contents, res) := Effect(s.contents, c.drift, c.index + c.drift, Room(capacity, s), a);
    Cached(contents, C.Step(c, Op(capacity, s, a)), if Leaks(capacity, s, a) then s.leaked + 1 else s.leaked,
           s.results + [res])
  }

  /** Where the reference is after a call on a sequence of n elements. */
  function PlainMove(contents: seq<Datum>, position: int, room: bool, a: Action): int {
    var n := |contents|;
    match a
    case GetOf(i) => if 0 <= i < n then i else position
    case PushAt(i, _) => if !Allocates(n, room, a) then position else if C.Interior(n, i) then i else 0
    case PopOf(i) => if !(0 <= i <= n != 0) then position else if C.Interior(n, i) then i else 0
    case GetNext => if position + 1 < n then position + 1 else position
    case GetPrev => if 0 < position && n > 0 then position - 1 else position
    case GetCyclingNext => if position + 1 < n then position + 1 else 0
    case GetIf(cmp) => Stop(n, FirstMatch(cmp, contents))
    case PopIf(cmp) => if FirstMatch(cmp, contents) < n then 0 else Stop(n, n)
    case DeleteData(d) =>
      if d == NULL then position else if FirstMatch(Same(d), contents) < n then 0 else Stop(n, n)
    case Clear => 0
  }

  /** A search stops at the match, or at the last element. */
  function Stop(n: nat, k: nat): int { if n == 0 then 0 else if k < n then k else n - 1 }

  function PlainStep(capacity: int, s: Plain, a: Action): Plain {
    var room := |s.contents| < capacity;
    var (contents, res) := Effect(s.contents, 0, s.position, room, a);
    Plain(contents, PlainMove(s.contents, s.position, room, a), s.results + [res])
  }

  function CachedRun(capacity: int, s: Cached, actions: seq<Action>): Cached {
    Run((t: Cached, a: Action) => CachedStep(capacity, t, a), s, actions)
  }

  function PlainRun(capacity: int, s: Plain, actions: seq<Action>): Plain {
    Run((t: Plain, a: Action) => PlainStep(capacity, t, a), s, actions)
  }

  ghost predicate Proper(s: Cached) { C.WellPlaced(s.cursor) && s.cursor.size == |s.contents| }

  /** The call follows no null link, and leaves the list with a right count. */
  predicate Keeps(capacity: int, s: Cached, a: Action) {
    C.Safe(s.cursor, Op(capacity, s, a)) && !C.Miscounts(s.cursor, Op(capacity, s, a))
  }

  predicate FromBehind(capacity: int, s: Cached, a: Action) { C.FromBehind(s.cursor, Op(capacity, s, a)) }

  /** Every call of the run keeps the list. */
  predicate Orderly(capacity: int, s: Cached, actions: seq<Action>)
    decreases |actions|
  {
    actions != [] ==>
      var front, a := actions[..|actions| - 1], actions[|actions| - 1];
      Orderly(capacity, s, front) && Keeps(capacity, CachedRun(capacity, s, front), a)
  }

  /** No call inserts or deletes between two nodes coming from behind. */
  predicate Forward(capacity: int, s: Cached, actions: seq<Action>)
    decreases |actions|
  {
    actions != [] ==>
      var front, a := actions[..|actions| - 1], actions[|actions| - 1];
      Forward(capacity, s, front) && !FromBehind(capacity, CachedRun(capacity, s, front), a)
  }

  /** With an exact cursor nothing is lost or miscounted, and the only calls that follow a null link are those of pop_of
      with the index of the last of two or more elements. */
  lemma KeepsIff(s: Cached, capacity: int, a: Action)
    requires Proper(s) && s.cursor.drift == 0
    ensures Keeps(capacity, s, a) <==> !(a.PopOf? && 0 < a.i == |s.contents| - 1)
    ensures !Leaks(capacity, s, a) && !C.Miscounts(s.cursor, Op(capacity, s, a))
  {}

  lemma StepSize(s: Cached, capacity: int, a: Action)
    requires Proper(s) && Keeps(capacity, s, a)
    ensures Proper(CachedStep(capacity, s, a))
  {
    hide C.WellPlaced, FirstMatch, InsertAt, RemoveAt, Peek;
    C.StepPlaced(s.cursor, Op(capacity, s, a));
  }

  function Abstract(s: Cached): Plain { Plain(s.contents, s.cursor.index, s.results) }

  lemma StepRefines(s: Cached, capacity: int, a: Action)
    requires Proper(s) && s.cursor.drift == 0
    requires Keeps(capacity, s, a) && !FromBehind(capacity, s, a)
    ensures Abstract(CachedStep(capacity, s, a)) == PlainStep(capacity - s.leaked, Abstract(s), a)
  {
    hide FirstMatch, Effect;
  }

  lemma StepExact(s: Cached, capacity: int, a: Action)
    requires Proper(s) && s.cursor.drift == 0 && !FromBehind(capacity, s, a)
    ensures CachedStep(capacity, s, a).cursor.drift == 0 && CachedStep(capacity, s, a).leaked == s.leaked
  {
    hide Effect, C.Step;
    C.OneStep(s.cursor, Op(capacity, s, a));
  }

  /** The list with its cursor refines the plain sequence, results and all, over every run in which no call inserts or
      deletes between two nodes coming from behind. No block is lost on the way. */
  lemma {:induction false} Refines(capacity: int, s: Cached, actions: seq<Action>)
    requires Proper(s) && s.cursor.drift == 0
    requires Orderly(capacity, s, actions) && Forward(capacity, s, actions)
    ensures var r := CachedRun(capacity, s, actions);
            && Proper(r) && r.cursor.drift == 0 && r.leaked == s.leaked
            && Abstract(r) == PlainRun(capacity - s.leaked, Abstract(s), actions)
    decreases |actions|
  {
    if actions != [] {
      hide CachedStep, PlainStep, Keeps, FromBehind, Proper;
      var front, a := actions[..|actions| - 1], actions[|actions| - 1];
      Refines(capacity, s, front);
      var t := CachedRun(capacity, s, front);
      StepSize(t, capacity, a);
      StepExact(t, capacity, a);
      StepRefines(t, capacity, a);
    }
  }

  lemma EmptyRun(capacity: int, s: Cached)
    ensures CachedRun(capacity, s, []) == s && (forall room :: PlainRun(room, Abstract(s), []) == Abstract(s))
  {}

  /** One call more. */
  lemma Snoc(capacity: int, s: Cached, actions: seq<Action>, a: Action)
    ensures var t, r := CachedRun(capacity, s, actions), actions + [a];
            && CachedRun(capacity, s, r) == CachedStep(capacity, t, a)
            && (Orderly(capacity, s, r) <==> Orderly(capacity, s, actions) && Keeps(capacity, t, a))
            && (Forward(capacity, s, r) <==> Forward(capacity, s, actions) && !FromBehind(capacity, t, a))
    ensures forall room :: PlainRun(room, Abstract(s), actions + [a])
                        == PlainStep(room, PlainRun(room, Abstract(s), actions), a)
  {
    hide CachedStep, PlainStep, Keeps, FromBehind;
    assert (actions + [a])[..|actions|] == actions;
  }

  lemma Two(capacity: int, s: Cached, a: Action, b: Action)
    ensures CachedRun(capacity, s, [a, b]) == CachedStep(capacity, CachedStep(capacity, s, a), b)
    ensures forall room :: PlainRun(room, Abstract(s), [a, b]) == PlainStep(room, PlainStep(room, Abstract(s), a), b)
  {
    hide CachedStep, PlainStep, CachedRun, PlainRun;
    EmptyRun(capacity, s);
    Snoc(capacity, s, [], a);
    Snoc(capacity, s, [] + [a], b);
    assert [a, b] == [] + [a] + [b];
  }

  /** What get_of finds at the place of an insertion between two nodes: what was inserted if and only if it was not done
      from behind; else the node that was there. */
  lemma {:induction false} InsertThenGet(capacity: int, s: Cached, i: int, d: Datum)
    requires Proper(s) && s.cursor.drift == 0 && C.Interior(|s.contents|, i) && d != NULL && Room(capacity, s)
    ensures var run := [PushAt(i, d), GetOf(i)];
            && CachedRun(capacity, s, run).results == s.results
                 + [CPLUS_SUCCESS, if FromBehind(capacity, s, PushAt(i, d)) then s.contents[i] else d]
            && PlainRun(capacity - s.leaked, Abstract(s), run).results == s.results + [CPLUS_SUCCESS, d]
  {
    Two(capacity, s, PushAt(i, d), GetOf(i));
    assert s.results + [CPLUS_SUCCESS, d] == s.results + [CPLUS_SUCCESS] + [d];
    assert s.results + [CPLUS_SUCCESS, s.contents[i]] == s.results + [CPLUS_SUCCESS] + [s.contents[i]];
  }

  /** And at the place of a deletion: the next node if and only if it was not done from behind; else the one before. */
  lemma {:induction false} DeleteThenGet(capacity: int, s: Cached, i: int)
    requires Proper(s) && s.cursor.drift == 0 && 0 < i < |s.contents| - 1
    ensures var run, x := [PopOf(i), GetOf(i)], s.contents;
            && CachedRun(capacity, s, run).results == s.results
                 + [x[i], if FromBehind(capacity, s, PopOf(i)) then x[i - 1] else x[i + 1]]
            && PlainRun(capacity - s.leaked, Abstract(s), run).results == s.results + [x[i], x[i + 1]]
  {
    Two(capacity, s, PopOf(i), GetOf(i));
    var x := s.contents;
    assert s.results + [x[i], x[i + 1]] == s.results + [x[i]] + [x[i + 1]];
    assert s.results + [x[i], x[i - 1]] == s.results + [x[i]] + [x[i - 1]];
  }
}
