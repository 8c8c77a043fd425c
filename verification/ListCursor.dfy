/** The cached position of a list (cur_index and current in src/llist.c), apart from the nodes: how each operation
    moves it, and when it can be trusted. */
module ListCursor {
  import opened Arithmetic
  import opened Runs

  /** The kind of link that current points to. */
  datatype Kind = AtHead | AtNext | AtPrev

  /** A list of size nodes whose cursor claims to be at node index, and is at node index + drift; it may also stand one past
      either end, at a null link. */
  datatype Cursor = Cursor(size: nat, index: int, kind: Kind, drift: int)

  function AtStart(size: nat): Cursor { Cursor(size, 0, AtHead, 0) }

  ghost predicate WellPlaced(c: Cursor) {
    && (c.size == 0 ==> c == AtStart(0))
    && (c.kind == AtHead ==> c.index == 0 && c.drift == 0)
    && (c.kind == AtNext ==> 0 < c.index + c.drift <= c.size)
    && (c.kind == AtPrev ==> 0 <= c.index + c.drift + 1 < c.size)
    && (c.drift == 0 && c.size > 0 ==> OnNode(c))
  }

  /** The cursor is at a node. */
  predicate OnNode(c: Cursor) { 0 <= c.index + c.drift < c.size }

  /** The walk to index i meets no null link before its end. */
  predicate Arrives(c: Cursor, i: int) { -1 <= i + c.drift <= c.size && (i == c.index || OnNode(c)) }

  /** There is a node at its end. */
  predicate Finds(c: Cursor, i: int) { 0 <= i + c.drift < c.size }

  /** get_node_of: walk from the cached position. */
  function Seek(c: Cursor, i: int): Cursor {
    if i == c.index then c else c.(index := i, kind := if i > c.index then AtNext else AtPrev)
  }

  predicate Interior(size: nat, i: int) { 0 < i < size }

  function Push(c: Cursor, i: int): Cursor {
    if !Interior(c.size, i) then AtStart(c.size + 1)
    else
      var s := Seek(c, i);
      if !Finds(c, i) then s
      else s.(size := c.size + 1, drift := if s.kind == AtPrev then c.drift + 1 else c.drift)
  }

  function Pop(c: Cursor, i: int): Cursor {
    if c.size == 0 then c
    else if !Interior(c.size, i) then AtStart(c.size - 1)
    else
      var s := Seek(c, i);
      s.(size := c.size - 1, drift := if s.kind == AtPrev && Finds(c, i) then c.drift - 1 else c.drift)
  }

  /** get_next and get_prev: one link on, if there is one. */
  function Next(c: Cursor): Cursor {
    if OnNode(c) && c.index + c.drift + 1 < c.size then c.(index := c.index + 1, kind := AtNext) else c
  }

  function Prev(c: Cursor): Cursor {
    if OnNode(c) && c.index + c.drift > 0 then c.(index := c.index - 1, kind := AtPrev) else c
  }

  /** cplus_llist_get_cycling_next: on, or back to the head. */
  function Cycle(c: Cursor): Cursor {
    if c.size > 0 && c.index + c.drift + 1 == c.size then AtStart(c.size) else Next(c)
  }

  /** A search from the head that ends at node k, or at the last node if k is none. */
  function Search(size: nat, k: nat): Cursor {
    if size == 0 || k == 0 then AtStart(size)
    else Cursor(size, if k < size then k else size - 1, if size == 1 then AtHead else AtNext, 0)
  }

  lemma SearchStart(size: nat)
    ensures Search(size, 0) == AtStart(size)
  {}

  lemma SearchNext(size: nat, k: nat)
    requires k < size
    ensures Search(size, k).index == k && Search(size, k).drift == 0 && Search(size, size) == Search(size, size - 1)
    ensures Next(Search(size, k)) == Search(size, if k + 1 < size then k + 1 else k)
    ensures Next(Search(size, k)).index == if k + 1 < size then k + 1 else k
  {}

  datatype Op = Get(i: int) | PushAt(i: int) | PopOf(i: int) | GetNext | GetPrev | GetCyclingNext
              | Find(k: nat) | RemoveFound | Clear

  function Step(c: Cursor, op: Op): Cursor {
    match op
    case Get(i) => if 0 <= i < c.size then Seek(c, i) else c
    case PushAt(i) => if 0 <= i <= c.size then Push(c, i) else c
    case PopOf(i) => if 0 <= i <= c.size then Pop(c, i) else c
    case GetNext => Next(c)
    case GetPrev => Prev(c)
    case GetCyclingNext => Cycle(c)
    case Find(k) => Search(c.size, k)
    case RemoveFound => AtStart(if c.size > 0 then c.size - 1 else 0)
    case Clear => AtStart(0)
  }

  /** The operations that insert or delete between two nodes. */
  predicate Edits(c: Cursor, op: Op) { (op.PushAt? || op.PopOf?) && Interior(c.size, op.i) && Finds(c, op.i) }

  /** Such an operation reaches its place over a prev link: from behind, or there already by way of one. */
  predicate FromBehind(c: Cursor, op: Op) {
    Edits(c, op) && (op.i < c.index || (op.i == c.index && c.kind == AtPrev))
  }

  /** The cursor is set to the head, or a search starts there. */
  predicate Resets(c: Cursor, op: Op) {
    match op
    case Get(_) => false
    case PushAt(i) => 0 <= i <= c.size && !Interior(c.size, i)
    case PopOf(i) => 0 < c.size && 0 <= i <= c.size && !Interior(c.size, i)
    case GetNext => false
    case GetPrev => false
    case GetCyclingNext => c.size > 0 && c.index + c.drift + 1 == c.size
    case _ => true
  }

  /** An edit leaves the cursor exact if it came over a next link, and off by exactly one if over a prev link:
      one too far on insertion, one short on deletion. Nothing else makes it worse, and what resets it repairs it. */
  lemma OneStep(c: Cursor, op: Op)
    requires WellPlaced(c)
    ensures FromBehind(c, op) ==> Step(c, op).drift == c.drift + (if op.PushAt? then 1 else -1)
    ensures !FromBehind(c, op) ==> Step(c, op).drift == if Resets(c, op) then 0 else c.drift
    ensures c.drift == 0 ==> (Step(c, op).drift == 0 <==> !FromBehind(c, op))
  {}

  predicate Quiet(c: Cursor, ops: seq<Op>)
    decreases |ops|
  {
    ops != [] ==> Quiet(c, ops[..|ops| - 1]) && !FromBehind(Run(Step, c, ops[..|ops| - 1]), ops[|ops| - 1])
  }

  /** The operation follows no null link. A walk to one past either end is safe, and so is a push there. The first and the
      last node are not for pop_of to take by an index between them, nor is the first one for push_at to go before. */
  predicate Safe(c: Cursor, op: Op) {
    match op
    case Get(i) => 0 <= i < c.size ==> Arrives(c, i)
    case PushAt(i) => Interior(c.size, i) ==> Arrives(c, i) && i + c.drift != 0
    case PopOf(i) => Interior(c.size, i) ==> Arrives(c, i) && i + c.drift != 0 && i + c.drift != c.size - 1
    case _ => true
  }

  /** pop_of finds no node one past an end, and counts one less all the same. */
  predicate Miscounts(c: Cursor, op: Op) { op.PopOf? && Interior(c.size, op.i) && !Finds(c, op.i) }

  predicate Orderly(c: Cursor, ops: seq<Op>)
    decreases |ops|
  {
    ops != [] ==>
      var front, op := ops[..|ops| - 1], ops[|ops| - 1];
      var at := Run(Step, c, front);
      Orderly(c, front) && Safe(at, op) && !Miscounts(at, op)
  }

  lemma PushPlaced(c: Cursor, i: int)
    requires WellPlaced(c) && Safe(c, PushAt(i))
    ensures WellPlaced(Step(c, PushAt(i)))
  {}

  lemma PopPlaced(c: Cursor, i: int)
    requires WellPlaced(c) && Safe(c, PopOf(i)) && !Miscounts(c, PopOf(i))
    ensures WellPlaced(Step(c, PopOf(i)))
  {}

  lemma StepPlaced(c: Cursor, op: Op)
    requires WellPlaced(c) && Safe(c, op) && !Miscounts(c, op)
    ensures WellPlaced(Step(c, op))
  {
    match op
    case PushAt(i) => PushPlaced(c, i);
    case PopOf(i) => PopPlaced(c, i);
    case _ =>
      hide Push, Pop;
  }

  lemma {:induction false} RunPlaced(c: Cursor, ops: seq<Op>)
    requires WellPlaced(c) && Orderly(c, ops)
    ensures WellPlaced(Run(Step, c, ops))
    decreases |ops|
  {
    if ops != [] {
      RunPlaced(c, ops[..|ops| - 1]);
      StepPlaced(Run(Step, c, ops[..|ops| - 1]), ops[|ops| - 1]);
    }
  }

  /** Over every run from an exact cursor in which no edit comes from behind, the cursor is exact at every point. */
  lemma {:induction false} ExactThroughout(c: Cursor, ops: seq<Op>)
    requires WellPlaced(c) && c.drift == 0 && Orderly(c, ops) && Quiet(c, ops)
    ensures WellPlaced(Run(Step, c, ops)) && Run(Step, c, ops).drift == 0
    decreases |ops|
  {
    RunPlaced(c, ops);
    if ops != [] {
      var front := ops[..|ops| - 1];
      ExactThroughout(c, front);
      OneStep(Run(Step, c, front), ops[|ops| - 1]);
    }
  }

  /** What a run has left of the drift: insertions from behind less deletions from behind since the cursor was
      last set to the head. */
  function Balance(c: Cursor, ops: seq<Op>): int
    decreases |ops|
  {
    if ops == [] then c.drift
    else
      var front, op := ops[..|ops| - 1], ops[|ops| - 1];
      var at := Run(Step, c, front);
      if FromBehind(at, op) then Balance(c, front) + (if op.PushAt? then 1 else -1)
      else if Resets(at, op) then 0
      else Balance(c, front)
  }

  lemma {:induction false} DriftIsBalance(c: Cursor, ops: seq<Op>)
    requires WellPlaced(c) && Orderly(c, ops)
    ensures Run(Step, c, ops).drift == Balance(c, ops)
    decreases |ops|
  {
    if ops != [] {
      var front := ops[..|ops| - 1];
      hide Step;
      DriftIsBalance(c, front);
      RunPlaced(c, front);
      OneStep(Run(Step, c, front), ops[|ops| - 1]);
    }
  }

  lemma NextResidue(n: nat, k: nat)
    requires n > 0 && k > 0
    ensures k % n == if (k - 1) % n + 1 == n then 0 else (k - 1) % n + 1
  {
    var q, r := (k - 1) / n, (k - 1) % n;
    assert k == n * q + (r + 1);
    if r + 1 == n {
      assert k == n * (q + 1);
      Quotient(n, q + 1, 0, k);
    } else {
      Quotient(n, q, r + 1, k);
    }
  }
}
