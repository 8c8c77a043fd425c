/** struct linked_list of src/llist.c with its nodes in a memory pool (cplus_llist_prev_new). */
module LinkedList {
  import opened MemPool
  import opened ListShape
  import opened ListCursor
  import C = ListCursor
  import BubbleSort

  const CPLUS_SUCCESS: int := 0
  const CPLUS_FAIL: int := -1

  /** A comparator of the C interface with its argument: a match is 0, and null data never match. */
  type Comparator = Datum -> int
  predicate Matches(cmp: Comparator, d: Datum) { d != NULL && cmp(d) == 0 }

  /** The index of the first match, or the length. */
  function FirstMatch(cmp: Comparator, s: seq<Datum>): (k: nat)
    ensures k <= |s| && (k < |s| ==> Matches(cmp, s[k]))
    ensures forall i :: 0 <= i < k ==> !Matches(cmp, s[i])
    ensures k < |s| ==> s[k] != NULL && cmp(s[k]) == 0
    ensures forall i :: 0 <= i < k ==> s[i] == NULL || cmp(s[i]) != 0
  {
    if s == [] || Matches(cmp, s[0]) then 0 else 1 + FirstMatch(cmp, s[1..])
  }

  /** The matches, in order. */
  function Filter(cmp: Comparator, s: seq<Datum>): (r: seq<Datum>)
    ensures |r| <= |s|
    decreases |s|
  {
    if s == [] then []
    else
      var last := s[|s| - 1];
      Filter(cmp, s[..|s| - 1]) + if Matches(cmp, last) then [last] else []
  }

  /** Those for which there was memory. */
  function Granted(s: seq<Datum>, grants: nat -> bool): (r: seq<Datum>)
    ensures |r| <= |s|
    decreases |s|
  {
    if s == [] then []
    else
      var last := |s| - 1;
      Granted(s[..last], grants) + if grants(last) then [s[last]] else []
  }

  lemma GrantedSnoc(s: seq<Datum>, d: Datum, grants: nat -> bool)
    ensures Granted(s + [d], grants) == Granted(s, grants) + if grants(|s|) then [d] else []
  {
    assert (s + [d])[..|s|] == s;
  }

  class List {
    const pool: Pool<Node>
    var count: nat
    var head: Ptr
    var tail: Ptr
    var curIndex: int
    var current: Slot
    ghost var spine: seq<nat>
    ghost var drift: int
    /** Blocks that pushes have allocated and lost. */
    ghost var leaked: set<nat>

    ghost predicate Sound()
      reads this`spine, this`head, this`tail, pool, pool.memory
    {
      && pool.Valid() && AllOwned(pool.memory[..], spine) && Linked(pool.memory[..], spine)
      && head == NodeAt(spine, 0) && tail == NodeAt(spine, |spine| - 1)
    }

    /** The allocated blocks of the pool are exactly the nodes, and those in extra. */
    ghost predicate Owns(extra: set<nat>)
      requires pool.virgin <= pool.blockCount
      reads this`spine, pool
    {
      && (forall b :: 0 <= b < pool.blockCount ==> (b !in pool.FreeBlocks() <==> b in spine || b in extra))
      && |spine| + |extra| + pool.freeBlocksCount == pool.blockCount
      && (forall b :: b in extra ==> b < pool.blockCount && b !in spine)
    }

    /** Block b is allocated, outside the list, and not lost. */
    ghost predicate Held(b: nat)
      requires pool.virgin <= pool.blockCount
      reads this`spine, this`leaked, pool
    {
      b !in leaked && Owns(leaked + {b})
    }

    ghost function Position(): int
      reads this`curIndex, this`drift
    {
      curIndex + drift
    }

    ghost predicate CursorOk()
      reads this`spine, this`current, this`curIndex, this`drift
    {
      && (spine == [] ==> current == HeadSlot && curIndex == 0 && drift == 0)
      && (spine != [] ==> SlotAt(spine, current, Position()) && (drift == 0 ==> 0 <= curIndex < |spine|))
      && (current == HeadSlot ==> curIndex == 0 && drift == 0)
    }

    /** All that holds of the list apart from its count. */
    ghost predicate Intact()
      reads this, pool, pool.memory
    {
      Sound() && Owns(leaked) && CursorOk()
    }

    ghost predicate Valid()
      reads this, pool, pool.memory
    {
      Intact() && count == |spine|
    }

    ghost function Contents(): seq<Datum>
      requires Sound()
      reads this`spine, this`head, this`tail, pool, pool.memory
    {
      DataOf(pool.memory[..], spine)
    }

    ghost function CursorState(): Cursor
      reads this
    {
      Cursor(count, curIndex, match current case HeadSlot => AtHead case NextOf(_) => AtNext case PrevOf(_) => AtPrev, drift)
    }

    constructor (maxCount: nat)
      requires maxCount > 0
      ensures Valid() && Contents() == [] && pool.blockCount == maxCount && CursorState() == AtStart(0) && leaked == {}
      ensures fresh(pool) && fresh(pool.memory)
    {
      pool := new Pool<Node>(maxCount);
      count, head, tail, curIndex, current := 0, Null, Null, 0, HeadSlot;
      spine, drift, leaked := [], 0, {};
      new;
      ghost var free := pool.FreeBlocks();
      forall b | 0 <= b < pool.blockCount ensures b in free { assert free[b] == b; }
    }

    // Assignments to a field of a node

    method SetNext(b: nat, p: Ptr)
      requires pool.Valid() && pool.Live(b) && pool.memory[b].Owned?
      modifies pool.memory
      ensures pool.Valid() && pool.memory[..] == WithNext(old(pool.memory[..]), b, p)
    {
      pool.Write(b, Owned(pool.memory[b].value.(next := p)));
    }

    method SetPrev(b: nat, p: Ptr)
      requires pool.Valid() && pool.Live(b) && pool.memory[b].Owned?
      modifies pool.memory
      ensures pool.Valid() && pool.memory[..] == WithPrev(old(pool.memory[..]), b, p)
    {
      pool.Write(b, Owned(pool.memory[b].value.(prev := p)));
    }

    method SetData(b: nat, d: Datum)
      requires pool.Valid() && pool.Live(b) && pool.memory[b].Owned?
      modifies pool.memory
      ensures pool.Valid() && pool.memory[..] == WithData(old(pool.memory[..]), b, d)
    {
      pool.Write(b, Owned(pool.memory[b].value.(data := d)));
    }

    /** A block of the pool for a node, if there is one. */
    method TakeBlock() returns (node: Ptr)
      requires Sound() && Owns(leaked)
      modifies pool, pool.memory
      ensures Sound() && Contents() == old(Contents())
      ensures node == Null <==> old(pool.freeBlocksCount) == 0
      ensures pool.freeBlocksCount == old(pool.freeBlocksCount) - if node == Null then 0 else 1
      ensures if node == Null then Owns(leaked) else Held(node.index) && pool.Live(node.index)
    {
      hide Chain, FreeList, Stack;
      assert forall i :: 0 <= i < |spine| ==> spine[i] in spine;
      ghost var mem := pool.memory[..];
      node := pool.Alloc();
      SameChain(mem, pool.memory[..], spine);
    }

    /** new_node: a detached node, or none when the pool is exhausted. */
    method NewNode(data: Datum) returns (node: Ptr)
      requires Sound() && Owns(leaked)
      modifies pool, pool.memory
      ensures Sound() && Contents() == old(Contents())
      ensures node == Null <==> old(pool.freeBlocksCount) == 0
      ensures pool.freeBlocksCount == old(pool.freeBlocksCount) - if node == Null then 0 else 1
      ensures if node == Null then Owns(leaked) else Loose(node.index, data)
    {
      hide Owns, Chain, FreeList, Stack, DataOf, Linked;
      node := TakeBlock();
      if node != Null {
        HeldApart(node.index);
        ghost var mem := pool.memory[..];
        pool.Write(node.index, Owned(Node(data, Null, Null)));
        assert forall i :: 0 <= i < |spine| ==> spine[i] in spine;
        SameChain(mem, pool.memory[..], spine);
      }
    }

    lemma HeldApart(b: nat)
      requires pool.virgin <= pool.blockCount && Held(b)
      ensures b !in spine && b < pool.blockCount
    {
      assert b in leaked + {b};
    }

    /** free_node of a detached node: the link that the pool writes lands on no node of the list. */
    method FreeNode(b: nat)
      requires Sound() && Held(b)
      modifies pool, pool.memory
      ensures Sound() && Owns(leaked) && Contents() == old(Contents())
    {
      hide Chain, FreeList, Stack;
      assert forall i :: 0 <= i < |spine| ==> spine[i] in spine;
      ghost var mem := pool.memory[..];
      var ok := pool.Free(At(b));
      SameChain(mem, pool.memory[..], spine);
    }

    // The cursor

    function Current(): Ptr
      requires Sound() && CursorOk()
      reads this, pool, pool.memory
      ensures Current() == NodeAt(spine, Position()) && (spine == [] ==> Current() == Null)
    {
      DerefSlot(pool.memory[..], spine, current, Position());
      Deref(pool.memory[..], head, current)
    }

    method ResetCurNode()
      modifies this`curIndex, this`current, this`drift
      ensures curIndex == 0 && current == HeadSlot && drift == 0
    {
      curIndex, current, drift := 0, HeadSlot, 0;
    }

    /** get_node_of: from the cached position, over next links forward or over prev links back. The node is the one
        at index, shifted by what the cursor is off; one past either end there is none. */
    method GetNodeOf(index: int) returns (node: Ptr)
      requires Sound() && CursorOk() && count == |spine| > 0 && 0 <= index < count && Arrives(CursorState(), index)
      modifies this`curIndex, this`current
      ensures CursorOk() && node == NodeAt(spine, index + drift) && SlotAt(spine, current, index + drift)
      ensures CursorState() == Seek(old(CursorState()), index)
    {
      if index == curIndex {
        node := Current();
        return;
      }
      if index > curIndex {
        while index != curIndex
          invariant CursorOk() && old(curIndex) <= curIndex <= index && 0 <= Position()
          invariant curIndex > old(curIndex) ==> current.NextOf?
          decreases index - curIndex
        {
          node := Current();
          current := NextOf(node.index);
          curIndex := curIndex + 1;
        }
      } else {
        while index != curIndex
          invariant CursorOk() && index <= curIndex <= old(curIndex) && Position() < |spine|
          invariant curIndex < old(curIndex) ==> current.PrevOf?
          decreases curIndex - index
        {
          node := Current();
          current := PrevOf(node.index);
          curIndex := curIndex - 1;
        }
      }
      node := Current();
    }

    /** get_next: over the next link, if there is one. */
    method GetNextNode() returns (node: Ptr)
      requires Sound() && CursorOk() && count == |spine|
      modifies this`curIndex, this`current
      ensures CursorOk() && CursorState() == Next(old(CursorState()))
      ensures node == if OnNode(old(CursorState())) then NodeAt(spine, old(Position()) + 1) else Null
    {
      hide FreeList, Chain, Linked;
      node := Current();
      if node == Null {
        return;
      }
      ghost var k := Position();
      NextLink(pool.memory[..], spine, k);
      var next := pool.memory[node.index].value.next;
      if next != Null {
        current := NextOf(node.index);
        curIndex := curIndex + 1;
      }
      node := next;
    }

    /** get_prev: over the prev link, if there is one. */
    method GetPrevNode() returns (node: Ptr)
      requires Sound() && CursorOk() && count == |spine|
      modifies this`curIndex, this`current
      ensures CursorOk() && CursorState() == Prev(old(CursorState()))
      ensures node == if OnNode(old(CursorState())) then NodeAt(spine, old(Position()) - 1) else Null
    {
      hide FreeList, Chain, Linked;
      node := Current();
      if node == Null {
        return;
      }
      ghost var k := Position();
      NextLink(pool.memory[..], spine, k);
      var prev := pool.memory[node.index].value.prev;
      if prev != Null {
        current := PrevOf(node.index);
        curIndex := curIndex - 1;
      }
      node := prev;
    }

    // Insertion

    /** The node may be spliced in: it is the only allocated block outside the list that is not lost. */
    ghost predicate Loose(b: nat, d: Datum)
      requires pool.virgin <= pool.blockCount
      reads this`spine, this`leaked, pool, pool.memory
    {
      Held(b) && Detached(pool.memory[..], spine, b, d)
    }

    method LinkHead(b: nat, ghost d: Datum)
      requires Sound() && Loose(b, d) && spine != []
      modifies this`head, pool.memory
      ensures pool.Valid() && pool.memory[..] == Spliced(old(pool.memory[..]), spine, 0, b) && head == At(b)
    {
      hide FreeList, Chain;
      assert spine[0] in spine;
      SetPrev(head.index, At(b));
      SetNext(b, head);
      head := At(b);
    }

    method LinkTail(b: nat, ghost d: Datum)
      requires Sound() && Loose(b, d) && spine != []
      modifies this`tail, pool.memory
      ensures pool.Valid() && pool.memory[..] == Spliced(old(pool.memory[..]), spine, |spine|, b) && tail == At(b)
    {
      hide FreeList, Chain;
      assert spine[|spine| - 1] in spine;
      SetNext(tail.index, At(b));
      SetPrev(b, tail);
      tail := At(b);
    }

    method LinkBefore(ghost k: nat, target: nat, b: nat, ghost d: Datum)
      requires Sound() && Loose(b, d) && 0 < k < |spine| && target == spine[k]
      modifies pool.memory
      ensures pool.Valid() && pool.memory[..] == Spliced(old(pool.memory[..]), spine, k, b)
    {
      hide FreeList, Chain;
      assert spine[k] in spine && spine[k - 1] in spine;
      assert LinkedAt(pool.memory[..], spine, k);
      SetNext(b, At(target));
      SetPrev(b, pool.memory[target].value.prev);
      SetNext(pool.memory[target].value.prev.index, At(b));
      SetPrev(target, At(b));
    }

    /** The list takes in the node that has been spliced in. */
    method Attach(ghost mem: Memory, ghost k: nat, b: nat, ghost d: Datum)
      requires pool.Valid() && Linked(mem, spine) && Held(b) && Detached(mem, spine, b, d) && count == |spine|
      requires k <= |spine| && pool.memory[..] == Spliced(mem, spine, k, b)
      requires head == NodeAt(InsertAt(spine, k, b), 0) && tail == NodeAt(InsertAt(spine, k, b), |spine|)
      modifies this`spine, this`count
      ensures Sound() && Owns(leaked) && count == |spine| && spine == InsertAt(old(spine), k, b)
      ensures Contents() == InsertAt(DataOf(mem, old(spine)), k, d)
    {
      hide FreeList, Chain, Spliced, LinkedAt;
      LinkNode(mem, spine, k, b, d);
      InsertMembers(spine, k, b);
      spine := InsertAt(spine, k, b);
      count := count + 1;
    }

    /** push_at at either end. */
    method PushEnd(index: int, b: nat, ghost d: Datum)
      requires Sound() && Loose(b, d) && CursorOk() && count == |spine| && (index == 0 || index == count)
      modifies this, pool.memory
      ensures Valid() && leaked == old(leaked) && CursorState() == AtStart(old(count) + 1)
      ensures Contents() == InsertAt(old(Contents()), index, d)
    {
      hide FreeList, Chain, Spliced, Linked, InsertAt, Owns, DataOf;
      ghost var mem := pool.memory[..];
      if count == 0 {
        SplicedAlone(mem, b, d);
        head, tail := At(b), At(b);
      } else if index == 0 {
        LinkHead(b, d);
      } else {
        LinkTail(b, d);
      }
      ResetCurNode();
      Attach(mem, index, b, d);
    }

    /** push_at between two nodes: before the node that the cursor finds. */
    method PushInner(index: int, target: nat, b: nat, ghost d: Datum)
      requires Sound() && Loose(b, d) && CursorOk() && count == |spine|
      requires 0 < index == curIndex < count && 0 < Position() < count && target == spine[Position()]
      modifies this, pool.memory
      ensures Valid() && leaked == old(leaked) && CursorState() == Push(old(CursorState()), index)
      ensures Contents() == InsertAt(old(Contents()), old(Position()), d)
    {
      hide FreeList, Chain, Spliced, Linked, SlotAt, InsertAt, Owns, Detached, LinkedAt, DataOf, NodeAt;
      ghost var mem, k := pool.memory[..], Position();
      SlotAfterInsert(spine, current, k, b);
      EndsAfterInsert(spine, k, b);
      LinkBefore(k, target, b, d);
      Attach(mem, k, b, d);
      if current.PrevOf? {
        drift := drift + 1;
      }
    }

    /** push_at: an index at either end goes there and resets the cursor; any other goes before the node that the
        cursor finds there. If it finds none, the push fails and the node stays where it is, allocated and lost. */
    method PushNode(index: int, b: nat, ghost d: Datum) returns (res: int)
      requires Sound() && Loose(b, d) && CursorOk() && count == |spine|
      requires 0 <= index <= count && Safe(CursorState(), C.PushAt(index))
      modifies this, pool.memory
      ensures Valid() && CursorState() == Push(old(CursorState()), index)
      ensures res == if Interior(old(count), index) && !Finds(old(CursorState()), index) then CPLUS_FAIL else CPLUS_SUCCESS
      ensures res == CPLUS_SUCCESS ==>
                leaked == old(leaked)
                && Contents() == InsertAt(old(Contents()), if Interior(old(count), index) then index + old(drift) else index, d)
      ensures res == CPLUS_FAIL ==> leaked == old(leaked) + {b} && Contents() == old(Contents())
    {
      hide FreeList, Chain, Linked, Spliced, SlotAt, InsertAt, DataOf, Owns, Detached;
      res := CPLUS_SUCCESS;
      if count == 0 || index == 0 || count == index {
        PushEnd(index, b, d);
      } else {
        var target := GetNodeOf(index);
        if target == Null {
          leaked := leaked + {b};
          res := CPLUS_FAIL;
        } else {
          PushInner(index, target.index, b, d);
        }
      }
    }

    /** Why cplus_llist_push_at fails. */
    ghost predicate Refuses(index: int, data: Datum)
      reads this, pool
    {
      || data == NULL || !(0 <= index <= count) || pool.freeBlocksCount == 0
      || (Interior(count, index) && (index + drift == -1 || index + drift == count))
    }

    /** cplus_llist_push_at. With an exact cursor it fails exactly on NULL data, an index outside the list, or a pool that
        has no block left. When the cursor finds no node it fails too, and the block it has allocated is lost. */
    method PushAt(index: int, data: Datum) returns (res: int)
      requires Valid()
      requires data != NULL && pool.freeBlocksCount > 0 && 0 <= index <= count ==> Safe(CursorState(), C.PushAt(index))
      modifies this, pool, pool.memory
      ensures Valid()
      ensures res == if old(Refuses(index, data)) then CPLUS_FAIL else CPLUS_SUCCESS
      ensures res == CPLUS_FAIL ==> Contents() == old(Contents())
      ensures data != NULL && 0 <= index <= old(count) && old(pool.freeBlocksCount) > 0 ==>
                && CursorState() == Push(old(CursorState()), index)
                && pool.freeBlocksCount == old(pool.freeBlocksCount) - 1
                && old(leaked) <= leaked && |leaked| == |old(leaked)| + if res == CPLUS_FAIL then 1 else 0
      ensures !(data != NULL && 0 <= index <= old(count) && old(pool.freeBlocksCount) > 0) ==>
                CursorState() == old(CursorState()) && leaked == old(leaked) && pool.freeBlocksCount == old(pool.freeBlocksCount)
      ensures res == CPLUS_SUCCESS ==>
                leaked == old(leaked)
                && Contents() == InsertAt(old(Contents()), if Interior(old(count), index) then index + old(drift) else index, data)
    {
      hide FreeList, Chain, Linked, SlotAt, InsertAt, DataOf;
      res := CPLUS_FAIL;
      if data == NULL || index < 0 || index > count {
        return;
      }
      var node := NewNode(data);
      if node != Null {
        res := PushNode(index, node.index, data);
      }
    }

    /** cplus_llist_push_back */
    method PushBack(data: Datum) returns (res: int)
      requires Valid()
      modifies this, pool, pool.memory
      ensures Valid() && CursorState() == if res == CPLUS_SUCCESS then AtStart(old(count) + 1) else old(CursorState())
      ensures res == CPLUS_SUCCESS <==> data != NULL && old(pool.freeBlocksCount) > 0
      ensures Contents() == old(Contents()) + if res == CPLUS_SUCCESS then [data] else []
      ensures leaked == old(leaked)
      ensures pool.freeBlocksCount == old(pool.freeBlocksCount) - if res == CPLUS_SUCCESS then 1 else 0
    {
      hide FreeList, Chain, Linked, DataOf, Sound, Owns, CursorOk;
      ghost var s := Contents();
      res := PushAt(count, data);
      assert InsertAt(s, |s|, data) == s + [data];
      assert s + [] == s;
    }

    // Removal

    /** The memory after the k-th node has been unlinked: its neighbours lead past it, its data is intact. */
    ghost predicate Cut(mem: Memory, k: nat)
      requires Linked(mem, spine) && k < |spine|
      reads this`spine, pool, pool.memory
    {
      var b := spine[k];
      && pool.Valid() && |pool.memory[..]| == |mem| && pool.memory[..][b].Owned?
      && pool.memory[..] == Bypassed(mem, spine, k)[b := pool.memory[..][b]]
      && pool.memory[..][b].value.data == mem[b].value.data
    }

    method UnlinkHead()
      requires Sound() && Owns(leaked) && spine != []
      modifies this`head, pool.memory
      ensures Cut(old(pool.memory[..]), 0) && head == NodeAt(spine, 1)
    {
      hide FreeList, Chain;
      var node := head.index;
      assert spine[0] in spine && LinkedAt(pool.memory[..], spine, 0);
      head := pool.memory[node].value.next;
      if head != Null {
        assert spine[1] in spine;
        SetPrev(head.index, Null);
      }
      SetNext(node, Null);
    }

    method UnlinkTail()
      requires Sound() && Owns(leaked) && spine != []
      modifies this`tail, pool.memory
      ensures Cut(old(pool.memory[..]), |spine| - 1) && tail == NodeAt(spine, |spine| - 2)
    {
      hide FreeList, Chain;
      var node := tail.index;
      ghost var n := |spine| - 1;
      assert spine[n] in spine && LinkedAt(pool.memory[..], spine, n);
      tail := pool.memory[node].value.prev;
      if tail != Null {
        assert spine[n - 1] in spine;
        SetNext(tail.index, Null);
      }
      SetPrev(node, Null);
    }

    method UnlinkInner(ghost k: nat, node: nat)
      requires Sound() && Owns(leaked) && 0 < k < |spine| - 1 && node == spine[k]
      modifies pool.memory
      ensures Cut(old(pool.memory[..]), k)
    {
      hide FreeList, Chain;
      assert spine[k] in spine && spine[k - 1] in spine && spine[k + 1] in spine;
      assert LinkedAt(pool.memory[..], spine, k);
      SetNext(pool.memory[node].value.prev.index, pool.memory[node].value.next);
      SetPrev(pool.memory[node].value.next.index, pool.memory[node].value.prev);
      SetNext(node, Null);
      SetPrev(node, Null);
    }

    /** The list lets the unlinked node go; an empty list has neither head nor tail. */
    method Detach(ghost mem: Memory, ghost k: nat)
      requires Linked(mem, spine) && k < |spine| && Cut(mem, k) && Owns(leaked) && count == |spine|
      requires count > 1 ==> head == NodeAt(RemoveAt(spine, k), 0) && tail == NodeAt(RemoveAt(spine, k), |spine| - 2)
      modifies this`spine, this`count, this`head, this`tail
      ensures Sound() && Held(old(spine[k])) && count == |spine| && spine == RemoveAt(old(spine), k)
      ensures Contents() == RemoveAt(DataOf(mem, old(spine)), k)
      ensures var b := old(spine[k]);
              b < pool.memory.Length && pool.memory[b].Owned? && pool.memory[b].value.data == DataOf(mem, old(spine))[k]
    {
      hide FreeList, Chain, Bypassed, LinkedAt;
      UnlinkAndClear(mem, pool.memory[..], spine, k);
      RemoveMembers(spine, k);
      assert spine[k] in spine;
      spine := RemoveAt(spine, k);
      count := count - 1;
      if count == 0 {
        head, tail := Null, Null;
      }
    }

    /** The node has left the list and is not freed yet; its data is what the list held at k. */
    twostate predicate Taken(node: Ptr, k: nat)
      requires old(Valid()) && k < |old(spine)|
      reads this, pool, pool.memory
    {
      && node == At(old(spine[k])) && Sound() && Held(node.index) && CursorOk() && count == |spine| && leaked == old(leaked)
      && Contents() == RemoveAt(old(Contents()), k)
      && pool.memory[node.index].Owned? && pool.memory[node.index].value.data == old(Contents())[k]
    }

    /** pop_of at either end, and remove_node of the node there, on a list that is not empty. */
    method PopEnd(front: bool) returns (node: Ptr)
      requires Valid() && count > 0
      modifies this, pool.memory
      ensures Taken(node, if front then 0 else old(count) - 1) && CursorState() == AtStart(old(count) - 1)
    {
      hide FreeList, Chain, Linked, Cut, Owns, RemoveAt, DataOf;
      ghost var mem := pool.memory[..];
      if front {
        node := head;
        UnlinkHead();
        ResetCurNode();
        Detach(mem, 0);
      } else {
        node := tail;
        UnlinkTail();
        ResetCurNode();
        Detach(mem, count - 1);
      }
    }

    /** pop_of between two nodes: the node that the cursor finds. */
    method PopInner(index: int, node: nat)
      requires Valid() && 0 < index == curIndex < count && 0 < Position() < count - 1 && node == spine[Position()]
      modifies this, pool.memory
      ensures Taken(At(node), old(Position())) && CursorState() == Pop(old(CursorState()), index)
    {
      hide FreeList, Chain, Linked, LinkedAt, Cut, SlotAt, RemoveAt, Owns, DataOf, NodeAt;
      ghost var mem, k := pool.memory[..], Position();
      SlotAfterRemove(spine, current, k);
      EndsAfterRemove(spine, k);
      UnlinkInner(k, node);
      Detach(mem, k);
      if current.PrevOf? {
        drift := drift - 1;
      }
    }

    /** The place from which pop_of takes: 0 is the first node, the size stands for the last. */
    ghost function Place(index: int): int
      reads this
    {
      if index == 0 then 0 else if index == count then count - 1 else index + drift
    }

    /** cplus_llist_pop_of. If the cursor finds no node, nothing leaves the list and its count is one too small. */
    method PopOf(index: int) returns (target: Datum)
      requires Valid() && (0 <= index <= count ==> Safe(CursorState(), C.PopOf(index)))
      modifies this, pool, pool.memory
      ensures Valid() <==> !Miscounts(old(CursorState()), C.PopOf(index))
      ensures Intact() && leaked == old(leaked)
      ensures !(0 <= index <= old(count)) || old(count) == 0 ==>
                target == NULL && Contents() == old(Contents()) && CursorState() == old(CursorState())
      ensures 0 <= index <= old(count) != 0 ==> CursorState() == Pop(old(CursorState()), index)
      ensures 0 <= index <= old(count) != 0 && Valid() ==>
                var k := old(Place(index));
                0 <= k < old(count) && target == old(Contents())[k] && Contents() == RemoveAt(old(Contents()), k)
      ensures !Valid() ==> target == NULL && Contents() == old(Contents()) && count == |Contents()| - 1
    {
      hide FreeList, Chain, Linked, SlotAt, RemoveAt, DataOf, Owns;
      if index < 0 || index > count || count == 0 {
        return NULL;
      }
      var node;
      if index == 0 || index == count {
        node := PopEnd(index == 0);
      } else {
        node := GetNodeOf(index);
        if node == Null {
          count := count - 1;
          return NULL;
        }
        PopInner(index, node.index);
      }
      target := pool.memory[node.index].value.data;
      FreeNode(node.index);
    }

    // Searches

    /** Whether the node at the cursor matches. */
    method Test(cmp: Comparator) returns (node: Ptr, hit: bool)
      requires Valid() && OnNode(CursorState())
      ensures node == At(spine[Position()]) && hit == Matches(cmp, Contents()[Position()])
      ensures hit ==> Contents()[Position()] != NULL
      ensures node.index < pool.memory.Length && pool.memory[node.index].Owned?
      ensures pool.memory[node.index].value.data == Contents()[Position()]
    {
      hide FreeList, Chain, Linked, Owns;
      node := Current();
      hit := Matches(cmp, pool.memory[node.index].value.data);
    }

    /** One turn of the walk: stop at a match, or go on if there is a next node. */
    method WalkOn(cmp: Comparator) returns (found: Ptr, more: bool)
      requires Valid() && 0 <= curIndex < count && CursorState() == Search(count, curIndex)
      modifies this`curIndex, this`current
      ensures Valid() && 0 <= curIndex < count && CursorState() == Search(count, curIndex)
      ensures Matches(cmp, Contents()[old(curIndex)]) ==> found == At(spine[curIndex]) && curIndex == old(curIndex)
      ensures !Matches(cmp, Contents()[old(curIndex)]) ==>
                found == Null && more == (old(curIndex) + 1 < count) && curIndex == old(curIndex) + (if more then 1 else 0)
    {
      hide FreeList, Chain, Linked, SlotAt, Owns, DataOf, Sound, Search, Next, Matches;
      found, more := Null, false;
      SearchNext(count, curIndex);
      var node, hit := Test(cmp);
      if hit {
        found := node;
      } else {
        node := GetNextNode();
        more := node != Null;
      }
    }

    /** The walk that get_node_if, get_index_if, pop_if and remove_data share: from the head over next links to the
        first match, or to the last node. */
    method Walk(cmp: Comparator) returns (found: Ptr)
      requires Valid()
      modifies this`curIndex, this`current, this`drift
      ensures Valid() && CursorState() == Search(count, FirstMatch(cmp, Contents()))
      ensures var k := FirstMatch(cmp, Contents()); found == if k < count then At(spine[k]) else Null
    {
      hide FreeList, Chain, Linked, SlotAt, FirstMatch, Owns, DataOf, Sound, Search, Matches;
      ghost var s := Contents();
      ResetCurNode();
      StartSlot(spine);
      SearchStart(count);
      FirstMatchFrom(cmp, s, 0);
      var more := count > 0;
      found := Null;
      while more && found == Null
        invariant Valid() && CursorState() == Search(count, curIndex)
        invariant 0 <= curIndex && (count > 0 ==> curIndex < count) && (count == 0 ==> curIndex == 0)
        invariant more && found == Null ==> count > 0 && FirstMatch(cmp, s) == curIndex + FirstMatch(cmp, s[curIndex..])
        invariant !more && found == Null ==> FirstMatch(cmp, s) == count && (count > 0 ==> curIndex == count - 1)
        invariant found != Null ==> curIndex < count && FirstMatch(cmp, s) == curIndex && found == At(spine[curIndex])
        decreases count - curIndex, more && found == Null
      {
        FirstMatchFrom(cmp, s, curIndex);
        found, more := WalkOn(cmp);
      }
      if count > 0 {
        SearchNext(count, count - 1);
      }
    }

    /** cplus_llist_get_if and cplus_llist_get_index_if */
    method GetIf(cmp: Comparator) returns (target: Datum, index: int)
      requires Valid()
      modifies this`curIndex, this`current, this`drift
      ensures Valid() && CursorState() == Search(count, FirstMatch(cmp, Contents()))
      ensures var k := FirstMatch(cmp, Contents());
              if k < count then target == Contents()[k] && index == k else target == NULL && index == CPLUS_FAIL
      ensures FirstHit(cmp, Contents(), target, index)
    {
      hide FirstHit;
      MatchIsHit(cmp, Contents());
      var node := Walk(cmp);
      if node == Null {
        return NULL, CPLUS_FAIL;
      }
      target := pool.memory[node.index].value.data;
      index := curIndex;
    }

    /** The list of the matches in s for whose nodes there was memory, made for the first match; it has room for what is
        still to come. */
    static ghost predicate Collects(target: List?, s: seq<Datum>, grants: nat -> bool, room: nat)
      reads target, if target == null then {} else {target.pool, target.pool.memory}
    {
      if s == [] then target == null
      else target != null && target.Valid() && target.Contents() == Granted(s, grants)
           && |target.Contents()| + target.pool.freeBlocksCount == room
    }

    /** One match goes to the end of the list of matches, which is made for the first one, if there is memory for a node. */
    static method Collect(list: List?, d: Datum, ghost s: seq<Datum>, granted: bool, ghost grants: nat -> bool, room: nat)
      returns (target: List?)
      requires Collects(list, s, grants, room) && |s| < room && d != NULL && granted == grants(|s|)
      modifies list, if list == null then {} else {list.pool, list.pool.memory}
      ensures Collects(target, s + [d], grants, room)
      ensures target == list || (list == null && New(target))
    {
      hide FreeList, Chain, Linked, DataOf;
      GrantedSnoc(s, d, grants);
      target := list;
      if target == null {
        target := new List(room);
      }
      if granted {
        var res := target.PushBack(d);
      }
    }

    /** The list of matches, if there is one, is not an old one. */
    static twostate predicate New(new target: List?)
      reads target
    {
      target != null ==> fresh(target) && fresh(target.pool) && fresh(target.pool.memory)
    }

    /** One turn of get_set_if: collect the data at the cursor if it matches, and go on if there is a next node. */
    method GatherOn(cmp: Comparator, list: List?, found: nat, grants: nat -> bool, ghost s: seq<Datum>)
      returns (target: List?, now: nat, more: bool)
      requires Valid() && 0 <= curIndex < count == |s| && CursorState() == Search(count, curIndex) && Contents() == s
      requires Collects(list, Filter(cmp, s[..curIndex]), grants, count) && found == |Filter(cmp, s[..curIndex])|
      requires list != null ==> list != this && list.pool != pool && list.pool.memory != pool.memory
      modifies this`curIndex, this`current, list, if list == null then {} else {list.pool, list.pool.memory}
      ensures Valid() && 0 <= curIndex < count == |s| && CursorState() == Search(count, curIndex) && Contents() == s
      ensures var k := old(curIndex) + 1;
              Collects(target, Filter(cmp, s[..k]), grants, |s|) && now == |Filter(cmp, s[..k])|
      ensures target == list || (list == null && New(target))
      ensures more == (old(curIndex) + 1 < count) && curIndex == old(curIndex) + (if more then 1 else 0)
    {
      hide FreeList, Chain, Linked, SlotAt, Owns, DataOf, Sound, Search, Next, Matches, Filter, Collects;
      SearchNext(count, curIndex);
      FilterNext(cmp, s, curIndex);
      target, now := list, found;
      var node, hit := Test(cmp);
      if hit {
        target := Collect(list, pool.memory[node.index].value.data, Filter(cmp, s[..curIndex]), grants(found), grants, count);
        now := now + 1;
      }
      node := GetNextNode();
      more := node != Null;
    }

    /** cplus_llist_get_set_if: a new list of the matches, or none if there is no match. Its nodes are allocated one by
        one, the j-th if grants(j), and a match that gets none is left out; here they are in a pool that has a block for
        each. */
    method GetSetIf(cmp: Comparator, grants: nat -> bool) returns (target: List?)
      requires Valid()
      modifies this`curIndex, this`current, this`drift
      ensures Valid() && CursorState() == Search(count, count)
      ensures Collects(target, Filter(cmp, Contents()), grants, count) && New(target)
    {
      hide FreeList, Chain, Linked, SlotAt, Owns, DataOf, Sound, Search, Matches, Filter, Collects;
      ghost var s := Contents();
      ResetCurNode();
      StartSlot(spine);
      SearchStart(count);
      FilterNext(cmp, s, 0);
      CollectsNothing(grants, count);
      target := null;
      var found, more := 0, count > 0;
      while more
        invariant Valid() && Contents() == s && New(target)
        invariant 0 <= curIndex && CursorState() == Search(count, curIndex) && (count > 0 ==> curIndex < count)
        invariant if more then Collects(target, Filter(cmp, s[..curIndex]), grants, count) && count > 0
                  else Collects(target, Filter(cmp, s), grants, count) && (count == 0 || curIndex == count - 1)
        invariant more ==> found == |Filter(cmp, s[..curIndex])|
        decreases count - curIndex, more
      {
        FilterNext(cmp, s, curIndex);
        target, found, more := GatherOn(cmp, target, found, grants, s);
      }
      if count > 0 {
        SearchNext(count, count - 1);
      }
    }

    static lemma CollectsNothing(grants: nat -> bool, room: nat)
      ensures Collects(null, [], grants, room)
    {}

    /** remove_node of the node at k */
    method RemoveNode(ghost k: nat, b: nat)
      requires Valid() && k < count && b == spine[k]
      modifies this, pool.memory
      ensures Taken(At(b), k) && CursorState() == AtStart(old(count) - 1)
    {
      hide FreeList, Chain, Linked, Cut, SlotAt, RemoveAt, Owns;
      ghost var mem := pool.memory[..];
      DistinctNodes(mem, spine);
      if head == At(b) {
        var node := PopEnd(true);
      } else if tail == At(b) {
        var node := PopEnd(false);
      } else {
        UnlinkInner(k, b);
        Detach(mem, k);
        ResetCurNode();
        StartSlot(spine);
      }
    }

    /** cplus_llist_pop_if: the first match leaves the list. */
    method PopIf(cmp: Comparator) returns (target: Datum)
      requires Valid()
      modifies this, pool, pool.memory
      ensures Valid()
      ensures var k := FirstMatch(cmp, old(Contents()));
              if k < old(count)
              then target == old(Contents())[k] && Contents() == RemoveAt(old(Contents()), k)
                   && CursorState() == AtStart(old(count) - 1)
              else target == NULL && Contents() == old(Contents()) && CursorState() == Search(count, k)
      ensures TookFirstHit(cmp, old(Contents()), target, Contents())
      ensures leaked == old(leaked)
    {
      hide FreeList, Chain, Linked, SlotAt, RemoveAt, FirstMatch, TookFirstHit, Owns, DataOf;
      TookMatch(cmp, Contents());
      var node := Walk(cmp);
      if node == Null {
        return NULL;
      }
      RemoveNode(FirstMatch(cmp, Contents()), node.index);
      target := pool.memory[node.index].value.data;
      FreeNode(node.index);
    }

    /** cplus_llist_delete_data: the first node with this data is unlinked and freed. */
    method DeleteData(data: Datum) returns (res: int)
      requires Valid()
      modifies this, pool, pool.memory
      ensures Valid()
      ensures var k := FirstMatch(Same(data), old(Contents()));
              if data == NULL then res == CPLUS_FAIL && Contents() == old(Contents()) && CursorState() == old(CursorState())
              else if k < old(count)
              then res == CPLUS_SUCCESS && Contents() == RemoveAt(old(Contents()), k)
                   && CursorState() == AtStart(old(count) - 1)
              else res == CPLUS_FAIL && Contents() == old(Contents()) && CursorState() == Search(count, k)
      ensures if res == CPLUS_SUCCESS then LostFirst(old(Contents()), data, Contents())
              else data == NULL || data !in old(Contents())
      ensures leaked == old(leaked)
    {
      if data == NULL {
        return CPLUS_FAIL;
      }
      hide LostFirst, TookFirstHit, FirstMatch, RemoveAt;
      SameIsFirst(Contents(), data);
      var target := PopIf(Same(data));
      res := if target == NULL then CPLUS_FAIL else CPLUS_SUCCESS;
    }

    /** While the list is being cleared: the nodes from i on are still allocated, and as they were in mem. */
    ghost predicate Remaining(mem: Memory, nodes: seq<nat>, i: nat)
      requires i <= |nodes|
      reads this`leaked, pool, pool.memory
    {
      && pool.Valid() && |mem| == pool.blockCount
      && (forall b :: 0 <= b < pool.blockCount ==> (b !in pool.FreeBlocks() <==> b in nodes[i..] || b in leaked))
      && (forall b :: b in leaked ==> b < pool.blockCount && b !in nodes)
      && (forall b :: b in nodes[i..] ==> b < pool.blockCount && pool.memory[b] == mem[b])
      && |nodes| - i + |leaked| + pool.freeBlocksCount == pool.blockCount
    }

    /** One turn of cplus_llist_clear: the next link is read before free_node lets the pool overwrite the node. */
    method FreeFirst(ghost mem: Memory, ghost nodes: seq<nat>, ghost i: nat, node: Ptr) returns (next: Ptr)
      requires Linked(mem, nodes) && i < |nodes| && node == At(nodes[i]) && Remaining(mem, nodes, i)
      modifies pool, pool.memory
      ensures Remaining(mem, nodes, i + 1) && next == NodeAt(nodes, i + 1)
    {
      hide FreeList, Chain, Linked;
      DropFirst(mem, nodes, i);
      NextLink(mem, nodes, i);
      next := pool.memory[node.index].value.next;
      ghost var free := pool.FreeBlocks();
      ghost var rest := nodes[i + 1..];
      assert forall b :: b in rest ==> b < pool.blockCount && b !in free && pool.memory[b] == mem[b] && b != node.index by {
        assert forall b :: b in rest ==> b in nodes[i..];
      }
      var ok := pool.Free(node);
      assert forall b :: b in pool.FreeBlocks() <==> b == node.index || b in free;
      assert |pool.FreeBlocks()| == 1 + |free|;
    }

    /** cplus_llist_clear. It does not look at the count, and sets it right. */
    method Clear()
      requires Intact()
      modifies this, pool, pool.memory
      ensures Valid() && Contents() == [] && CursorState() == AtStart(0)
      ensures leaked == old(leaked) && pool.freeBlocksCount == pool.blockCount - |leaked|
    {
      hide FreeList, Chain, Linked, DataOf, Remaining;
      ghost var mem, nodes, i := pool.memory[..], spine, 0;
      var node := head;
      StartRemaining();
      while node != Null
        invariant 0 <= i <= |nodes| && Remaining(mem, nodes, i) && node == NodeAt(nodes, i) && leaked == old(leaked)
        decreases |nodes| - i
      {
        node := FreeFirst(mem, nodes, i, node);
        i := i + 1;
      }
      Forget(mem, nodes);
    }

    lemma StartRemaining()
      requires Intact()
      ensures Remaining(pool.memory[..], spine, 0)
    {
      hide FreeList, Chain, Linked, DataOf;
      assert spine[0..] == spine;
    }

    /** No node is left. */
    method Forget(ghost mem: Memory, ghost nodes: seq<nat>)
      requires Remaining(mem, nodes, |nodes|)
      modifies this`count, this`head, this`tail, this`spine, this`curIndex, this`current, this`drift
      ensures Valid() && Contents() == [] && CursorState() == AtStart(0)
      ensures pool.freeBlocksCount == pool.blockCount - |leaked|
    {
      hide FreeList, Chain, Linked, DataOf;
      count, head, tail, spine := 0, Null, Null, [];
      EmptyChain(pool.memory[..]);
      ResetCurNode();
    }

    // Access by position

    /** cplus_llist_get_of: the datum that the cursor finds, or NULL where it finds no node. */
    method GetOf(index: int) returns (target: Datum)
      requires Valid() && (0 <= index < count ==> Arrives(CursorState(), index))
      modifies this`curIndex, this`current
      ensures Valid()
      ensures target == if 0 <= index < count && 0 <= index + drift < count then Contents()[index + drift] else NULL
      ensures CursorState() == if 0 <= index < count then Seek(old(CursorState()), index) else old(CursorState())
    {
      hide FreeList, Chain, Linked, SlotAt;
      if index < 0 || index >= count {
        return NULL;
      }
      var node := GetNodeOf(index);
      target := if node == Null then NULL else pool.memory[node.index].value.data;
    }

    /** cplus_llist_get_current */
    method GetCurrent() returns (target: Datum)
      requires Valid()
      ensures target == if OnNode(CursorState()) then Contents()[Position()] else NULL
    {
      hide FreeList, Chain, Linked;
      var node := Current();
      target := if node == Null then NULL else pool.memory[node.index].value.data;
    }

    /** cplus_llist_get_next */
    method GetNext() returns (target: Datum)
      requires Valid()
      modifies this`curIndex, this`current
      ensures Valid() && CursorState() == Next(old(CursorState()))
      ensures var k := old(Position()) + 1; target == if 0 < k < count then Contents()[k] else NULL
    {
      hide FreeList, Chain, Linked, SlotAt;
      var node := GetNextNode();
      target := if node == Null then NULL else pool.memory[node.index].value.data;
    }

    /** cplus_llist_get_prev */
    method GetPrev() returns (target: Datum)
      requires Valid()
      modifies this`curIndex, this`current
      ensures Valid() && CursorState() == Prev(old(CursorState()))
      ensures var k := old(Position()) - 1; target == if 0 <= k < count - 1 then Contents()[k] else NULL
    {
      hide FreeList, Chain, Linked, SlotAt;
      var node := GetPrevNode();
      target := if node == Null then NULL else pool.memory[node.index].value.data;
    }

    /** cplus_llist_get_cycling_next: the data at the cursor, which moves on, or back to the head from the last node. */
    method GetCyclingNext() returns (target: Datum)
      requires Valid()
      modifies this`curIndex, this`current, this`drift
      ensures Valid() && CursorState() == Cycle(old(CursorState()))
      ensures target == if OnNode(old(CursorState())) then Contents()[old(Position())] else NULL
    {
      hide FreeList, Chain, Linked, SlotAt;
      StartSlot(spine);
      var node := Current();
      target := NULL;
      if node != Null {
        target := pool.memory[node.index].value.data;
        node := GetNextNode();
        if node == Null {
          ResetCurNode();
        }
      }
    }

    // Sorting

    /** One comparison of llist_sort, of the data of the k-th node and the next one. */
    method CompareAndSwap(cmp: (Datum, Datum) -> int, ghost k: nat, node1: nat, node2: nat)
      requires Sound() && Owns(leaked) && k + 1 < |spine| && node1 == spine[k] && node2 == spine[k + 1]
      modifies pool.memory
      ensures Sound() && Contents() == BubbleSort.Exchange(cmp, old(Contents()), k)
    {
      hide FreeList, Chain, LinkedAt;
      assert spine[k] in spine && spine[k + 1] in spine;
      var data1, data2 := pool.memory[node1].value.data, pool.memory[node2].value.data;
      if 0 < cmp(data1, data2) {
        SwapData(pool.memory[..], spine, k);
        SetData(node1, data2);
        SetData(node2, data1);
      }
    }

    /** The inner loop of llist_sort: pass number i, with its bound. */
    method Sweep(cmp: (Datum, Datum) -> int, i: nat, size: nat)
      requires Sound() && Owns(leaked) && count == |spine| && i < count && size == count - i
      modifies pool.memory
      ensures Sound()
      ensures Contents() == BubbleSort.Pass(cmp, old(Contents()), BubbleSort.Comparisons(count, i))
    {
      hide FreeList, Chain, Linked, Owns, DataOf, BubbleSort.Exchange;
      ghost var s := Contents();
      var j, node1 := 0, head;
      while j < size && node1 != Null
        invariant Sound() && j <= BubbleSort.Comparisons(count, i) && node1 == At(spine[j])
        invariant Contents() == BubbleSort.Pass(cmp, s, j)
        decreases size - j
      {
        NextLink(pool.memory[..], spine, j);
        var node2 := pool.memory[node1.index].value.next;
        if node2 == Null {
          break;
        }
        CompareAndSwap(cmp, j, node1.index, node2.index);
        NextLink(pool.memory[..], spine, j);
        node1 := pool.memory[node1.index].value.next;
        j := j + 1;
      }
    }

    /** llist_sort: the data is sorted in place; nodes, links, count and cursor stay as they are. A pass over a list
        that is not empty ends at a node, so the null test in the outer loop's guard never ends the sort early. */
    method Sort(cmp: (Datum, Datum) -> int)
      requires Valid()
      modifies pool.memory
      ensures Valid() && Contents() == BubbleSort.Sort(cmp, old(Contents()))
    {
      hide FreeList, Chain, Linked, Owns, DataOf, BubbleSort.Pass, SlotAt;
      ghost var s := Contents();
      var i, size := 0, count;
      while i < count
        invariant Sound() && i <= count && size == count - i
        invariant Contents() == BubbleSort.Passes(cmp, s, i)
      {
        Sweep(cmp, i, size);
        i, size := i + 1, size - 1;
      }
    }
  }

  /** What a search reports: the first datum, not NULL, for which the comparator answers 0, and its index; if there is
      none, NULL. */
  ghost predicate FirstHit(cmp: Comparator, s: seq<Datum>, target: Datum, index: int) {
    if target != NULL then
      0 <= index < |s| && s[index] == target && cmp(target) == 0
      && forall i :: 0 <= i < index ==> s[i] == NULL || cmp(s[i]) != 0
    else
      index == CPLUS_FAIL && forall i :: 0 <= i < |s| ==> s[i] == NULL || cmp(s[i]) != 0
  }

  /** What is left when the datum that a search reports has been taken away. */
  ghost predicate TookFirstHit(cmp: Comparator, before: seq<Datum>, target: Datum, after: seq<Datum>) {
    exists k :: FirstHit(cmp, before, target, k) && after == if target == NULL then before else RemoveAt(before, k)
  }

  lemma TookMatch(cmp: Comparator, s: seq<Datum>)
    ensures var k := FirstMatch(cmp, s);
            if k < |s| then TookFirstHit(cmp, s, s[k], RemoveAt(s, k)) else TookFirstHit(cmp, s, NULL, s)
  {
    MatchIsHit(cmp, s);
  }

  lemma MatchIsHit(cmp: Comparator, s: seq<Datum>)
    ensures var k := FirstMatch(cmp, s);
            if k < |s| then FirstHit(cmp, s, s[k], k) else FirstHit(cmp, s, NULL, CPLUS_FAIL)
  {}

  /** r consists of the elements of s at the places that keep holds of, in order; at are these places. */
  ghost predicate PlacesOf(at: seq<nat>, r: seq<Datum>, s: seq<Datum>, keep: nat -> bool) {
    && |at| == |r| && (forall j, k :: 0 <= j < k < |at| ==> at[j] < at[k])
    && (forall j :: 0 <= j < |at| ==> at[j] < |s| && keep(at[j]) && r[j] == s[at[j]])
    && (forall i :: 0 <= i < |s| && keep(i) ==> i in at)
  }

  lemma PlacesSnoc(at: seq<nat>, r: seq<Datum>, s: seq<Datum>, keep: nat -> bool, x: Datum)
    requires PlacesOf(at, r, s, keep)
    ensures if keep(|s|) then PlacesOf(at + [|s|], r + [x], s + [x], keep) else PlacesOf(at, r, s + [x], keep)
  {
    forall i | 0 <= i < |s| && keep(i) ensures i in at + [|s|] {
      assert i in at;
    }
    assert |s| in at + [|s|];
  }

  /** The elements that are not NULL and for which the comparator answers 0. */
  function Hit(cmp: Comparator, s: seq<Datum>): nat -> bool {
    (i: nat) => i < |s| && s[i] != NULL && cmp(s[i]) == 0
  }

  /** Filter keeps exactly these, in order. */
  lemma {:induction false} FilterHits(cmp: Comparator, s: seq<Datum>, n: nat) returns (at: seq<nat>)
    requires n <= |s|
    ensures PlacesOf(at, Filter(cmp, s[..n]), s[..n], Hit(cmp, s))
    ensures n == |s| ==> PlacesOf(at, Filter(cmp, s), s, Hit(cmp, s))
  {
    hide PlacesOf;
    if n == 0 {
      at := [];
      NoPlaces(Hit(cmp, s));
    } else {
      at := FilterHits(cmp, s, n - 1);
      assert s[..n][..n - 1] == s[..n - 1] && s[..n - 1] + [s[n - 1]] == s[..n];
      PlacesSnoc(at, Filter(cmp, s[..n - 1]), s[..n - 1], Hit(cmp, s), s[n - 1]);
      if Matches(cmp, s[n - 1]) {
        at := at + [n - 1];
      } else {
        assert Filter(cmp, s[..n - 1]) + [] == Filter(cmp, s[..n - 1]);
      }
    }
    assert n == |s| ==> s[..n] == s;
  }

  lemma NoPlaces(keep: nat -> bool)
    ensures PlacesOf([], [], [], keep)
  {}

  /** Granted keeps exactly those that there was memory for, in order. */
  lemma {:induction false} GrantedHits(s: seq<Datum>, grants: nat -> bool) returns (at: seq<nat>)
    ensures PlacesOf(at, Granted(s, grants), s, grants)
    decreases |s|
  {
    hide PlacesOf;
    if s == [] {
      at := [];
      NoPlaces(grants);
    } else {
      var last := |s| - 1;
      at := GrantedHits(s[..last], grants);
      assert s[..last] + [s[last]] == s;
      PlacesSnoc(at, Granted(s[..last], grants), s[..last], grants, s[last]);
      if grants(last) {
        at := at + [last];
      } else {
        assert Granted(s[..last], grants) + [] == Granted(s[..last], grants);
      }
    }
  }

  /** The first element that is this datum has gone. */
  ghost predicate LostFirst(before: seq<Datum>, data: Datum, after: seq<Datum>) {
    exists k :: 0 <= k < |before| && before[k] == data && (forall i :: 0 <= i < k ==> before[i] != data)
                && after == RemoveAt(before, k)
  }

  lemma SameIsFirst(before: seq<Datum>, data: Datum)
    requires data != NULL
    ensures var k := FirstMatch(Same(data), before);
            if k < |before| then LostFirst(before, data, RemoveAt(before, k)) else data !in before
  {
    var k := FirstMatch(Same(data), before);
    assert forall i :: 0 <= i < k ==> before[i] != data;
  }

  function Same(data: Datum): Comparator { (d: Datum) => if d == data then 0 else 1 }

  lemma DropFirst(mem: Memory, nodes: seq<nat>, i: nat)
    requires Linked(mem, nodes) && i < |nodes|
    ensures nodes[i] in nodes[i..]
    ensures forall b :: b in nodes[i + 1..] <==> b in nodes[i..] && b != nodes[i]
  {
    assert nodes[i..] == [nodes[i]] + nodes[i + 1..];
    assert forall j :: i < j < |nodes| ==> nodes[j] != nodes[i];
  }

  lemma FirstMatchFrom(cmp: Comparator, s: seq<Datum>, k: nat)
    requires k <= |s|
    ensures k == 0 ==> s[k..] == s
    ensures k < |s| ==> FirstMatch(cmp, s[k..]) == if Matches(cmp, s[k]) then 0 else 1 + FirstMatch(cmp, s[k + 1..])
    ensures k + 1 == |s| ==> FirstMatch(cmp, s[k + 1..]) == 0
  {
    if k < |s| {
      assert s[k..][1..] == s[k + 1..];
    }
  }

  lemma FilterNext(cmp: Comparator, s: seq<Datum>, k: nat)
    requires k <= |s|
    ensures k == 0 ==> Filter(cmp, s[..k]) == []
    ensures k == |s| ==> s[..k] == s
    ensures k + 1 == |s| ==> s[..k + 1] == s
    ensures |Filter(cmp, s[..k])| <= k
    ensures k < |s| ==>
              Filter(cmp, s[..k + 1]) == if Matches(cmp, s[k]) then Filter(cmp, s[..k]) + [s[k]] else Filter(cmp, s[..k])
  {
    if k < |s| {
      assert s[..k + 1][..k] == s[..k];
    }
  }

  lemma EndsAfterInsert(spine: seq<nat>, k: nat, b: nat)
    requires 0 < k < |spine|
    ensures NodeAt(InsertAt(spine, k, b), 0) == NodeAt(spine, 0)
    ensures NodeAt(InsertAt(spine, k, b), |spine|) == NodeAt(spine, |spine| - 1)
  {}

  lemma EndsAfterRemove(spine: seq<nat>, k: nat)
    requires 0 < k < |spine| - 1
    ensures NodeAt(RemoveAt(spine, k), 0) == NodeAt(spine, 0)
    ensures NodeAt(RemoveAt(spine, k), |spine| - 2) == NodeAt(spine, |spine| - 1)
  {}

  lemma EmptyChain(mem: Memory)
    ensures Linked(mem, [])
  {}

  lemma StartSlot(spine: seq<nat>)
    ensures spine != [] ==> SlotAt(spine, HeadSlot, 0)
  {}

  lemma NextLink(mem: Memory, spine: seq<nat>, k: nat)
    requires Linked(mem, spine) && k < |spine|
    ensures spine[k] < |mem| && mem[spine[k]].Owned?
    ensures mem[spine[k]].value.next == NodeAt(spine, k + 1) && mem[spine[k]].value.prev == NodeAt(spine, k - 1)
  {
    assert LinkedAt(mem, spine, k);
  }

  lemma DistinctNodes(mem: Memory, spine: seq<nat>)
    requires Linked(mem, spine)
    ensures Distinct(spine)
  {}
}
