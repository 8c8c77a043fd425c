/** Chains of list nodes in pool memory, and what the link assignments of src/llist.c do to them. */
module ListShape {
  import opened MemPool

  /** A void pointer; NULL is 0. */
  type Datum = nat
  const NULL: Datum := 0

  /** struct llist_node */
  datatype Node = Node(data: Datum, prev: Ptr, next: Ptr)
  type Memory = seq<Block<Node>>

  /** The i-th node of a chain, or no node outside it. */
  function NodeAt(spine: seq<nat>, i: int): Ptr { if 0 <= i < |spine| then At(spine[i]) else Null }

  ghost predicate AllOwned(mem: Memory, spine: seq<nat>) {
    forall i :: 0 <= i < |spine| ==> spine[i] < |mem| && mem[spine[i]].Owned?
  }

  /** The links of the i-th node: next leads forward, prev back. */
  ghost predicate LinkedAt(mem: Memory, spine: seq<nat>, i: int)
    requires AllOwned(mem, spine) && 0 <= i < |spine|
  {
    mem[spine[i]].value.prev == NodeAt(spine, i - 1) && mem[spine[i]].value.next == NodeAt(spine, i + 1)
  }

  /** The nodes of spine, in this order, are a doubly linked list. */
  ghost predicate Linked(mem: Memory, spine: seq<nat>) {
    && Distinct(spine) && AllOwned(mem, spine)
    && forall i {:trigger LinkedAt(mem, spine, i)} :: 0 <= i < |spine| ==> LinkedAt(mem, spine, i)
  }

  ghost function DataOf(mem: Memory, spine: seq<nat>): (s: seq<Datum>)
    requires AllOwned(mem, spine)
    ensures |s| == |spine| && forall i :: 0 <= i < |s| ==> s[i] == mem[spine[i]].value.data
  {
    seq(|spine|, i requires 0 <= i < |spine| => mem[spine[i]].value.data)
  }

  function WithNext(mem: Memory, b: nat, p: Ptr): Memory
    requires b < |mem| && mem[b].Owned?
  {
    mem[b := Owned(mem[b].value.(next := p))]
  }

  function WithPrev(mem: Memory, b: nat, p: Ptr): Memory
    requires b < |mem| && mem[b].Owned?
  {
    mem[b := Owned(mem[b].value.(prev := p))]
  }

  function WithData(mem: Memory, b: nat, d: Datum): Memory
    requires b < |mem| && mem[b].Owned?
  {
    mem[b := Owned(mem[b].value.(data := d))]
  }

  function InsertAt<T>(s: seq<T>, k: nat, x: T): (r: seq<T>)
    requires k <= |s|
    ensures |r| == |s| + 1 && r[k] == x
    ensures forall i :: 0 <= i < k ==> r[i] == s[i]
    ensures forall i :: k < i < |r| ==> r[i] == s[i - 1]
  {
    s[..k] + [x] + s[k..]
  }

  function RemoveAt<T>(s: seq<T>, k: nat): (r: seq<T>)
    requires k < |s|
    ensures |r| == |s| - 1
    ensures forall i :: 0 <= i < k ==> r[i] == s[i]
    ensures forall i :: k <= i < |r| ==> r[i] == s[i + 1]
  {
    s[..k] + s[k + 1..]
  }

  /** Inserting and removing at the same place cancel out. */
  lemma RemoveInserted<T>(s: seq<T>, k: nat, x: T)
    requires k <= |s|
    ensures RemoveAt(InsertAt(s, k, x), k) == s
  {}

  /** A chain depends only on its own blocks. */
  lemma SameChain(mem: Memory, mem': Memory, spine: seq<nat>)
    requires Linked(mem, spine) && |mem'| == |mem|
    requires forall i :: 0 <= i < |spine| ==> mem'[spine[i]] == mem[spine[i]]
    ensures Linked(mem', spine) && DataOf(mem', spine) == DataOf(mem, spine)
  {
    forall i | 0 <= i < |spine| ensures LinkedAt(mem', spine, i) { assert LinkedAt(mem, spine, i); }
  }

  lemma DistinctInsert(spine: seq<nat>, k: nat, b: nat)
    requires Distinct(spine) && k <= |spine| && b !in spine
    ensures Distinct(InsertAt(spine, k, b))
  {}

  lemma DistinctRemove(spine: seq<nat>, k: nat)
    requires Distinct(spine) && k < |spine|
    ensures Distinct(RemoveAt(spine, k)) && spine[k] !in RemoveAt(spine, k)
  {}

  ghost predicate Detached(mem: Memory, spine: seq<nat>, b: nat, d: Datum) {
    b < |mem| && mem[b] == Owned(Node(d, Null, Null)) && b !in spine
  }

  /** Block b now holds a node between its k-1st and its k-th neighbour, and their links lead to it. */
  function Spliced(mem: Memory, spine: seq<nat>, k: nat, b: nat): (r: Memory)
    requires AllOwned(mem, spine) && k <= |spine| && b < |mem| && mem[b].Owned?
    ensures |r| == |mem| && r[b].Owned? && AllOwned(r, spine)
  {
    var m0 := WithNext(WithPrev(mem, b, NodeAt(spine, k - 1)), b, NodeAt(spine, k));
    var m1 := if 0 < k then WithNext(m0, spine[k - 1], At(b)) else m0;
    if k < |spine| then WithPrev(m1, spine[k], At(b)) else m1
  }

  lemma SplicedAt(mem: Memory, spine: seq<nat>, k: nat, b: nat, i: nat)
    requires Linked(mem, spine) && k <= |spine| && b < |mem| && mem[b].Owned? && b !in spine && i < |spine|
    ensures var n := mem[spine[i]].value;
            Spliced(mem, spine, k, b)[spine[i]] ==
              Owned(Node(n.data, if i == k then At(b) else n.prev, if i + 1 == k then At(b) else n.next))
  {}

  lemma SplicedNew(mem: Memory, spine: seq<nat>, k: nat, b: nat)
    requires Linked(mem, spine) && k <= |spine| && b < |mem| && mem[b].Owned? && b !in spine
    ensures Spliced(mem, spine, k, b)[b] == Owned(Node(mem[b].value.data, NodeAt(spine, k - 1), NodeAt(spine, k)))
  {}

  lemma SplicedAlone(mem: Memory, b: nat, d: Datum)
    requires Detached(mem, [], b, d)
    ensures Spliced(mem, [], 0, b) == mem
  {}

  lemma InsertMembers(spine: seq<nat>, k: nat, b: nat)
    requires k <= |spine|
    ensures forall x :: x in InsertAt(spine, k, b) <==> x in spine || x == b
  {
    var r := InsertAt(spine, k, b);
    assert r == spine[..k] + [b] + spine[k..] && spine == spine[..k] + spine[k..];
  }

  lemma RemoveMembers(spine: seq<nat>, k: nat)
    requires Distinct(spine) && k < |spine|
    ensures forall x :: x in RemoveAt(spine, k) <==> x in spine && x != spine[k]
  {
    var r := RemoveAt(spine, k);
    DistinctRemove(spine, k);
    assert r == spine[..k] + spine[k + 1..] && spine == spine[..k] + [spine[k]] + spine[k + 1..];
  }

  /** The i-th node of the chain after splicing, from the one it was before. */
  lemma LinkNodeAt(mem: Memory, spine: seq<nat>, k: nat, b: nat, d: Datum, i: nat)
    requires Linked(mem, spine) && k <= |spine| && Detached(mem, spine, b, d) && i <= |spine|
    requires AllOwned(Spliced(mem, spine, k, b), InsertAt(spine, k, b))
    ensures var mem', spine' := Spliced(mem, spine, k, b), InsertAt(spine, k, b);
            LinkedAt(mem', spine', i) && mem'[spine'[i]].value.data == InsertAt(DataOf(mem, spine), k, d)[i]
  {
    hide Spliced;
    if i == k {
      SplicedNew(mem, spine, k, b);
    } else {
      var j := if i < k then i else i - 1;
      assert LinkedAt(mem, spine, j);
      SplicedAt(mem, spine, k, b, j);
    }
  }

  /** Splicing a node in: the chain is the old one with the node inserted, and so is its data. */
  lemma LinkNode(mem: Memory, spine: seq<nat>, k: nat, b: nat, d: Datum)
    requires Linked(mem, spine) && k <= |spine| && Detached(mem, spine, b, d)
    ensures var mem' := Spliced(mem, spine, k, b);
            Linked(mem', InsertAt(spine, k, b)) && DataOf(mem', InsertAt(spine, k, b)) == InsertAt(DataOf(mem, spine), k, d)
  {
    hide Spliced, LinkedAt;
    var mem', spine' := Spliced(mem, spine, k, b), InsertAt(spine, k, b);
    DistinctInsert(spine, k, b);
    assert AllOwned(mem', spine');
    forall i | 0 <= i < |spine'|
      ensures LinkedAt(mem', spine', i) && mem'[spine'[i]].value.data == InsertAt(DataOf(mem, spine), k, d)[i]
    {
      LinkNodeAt(mem, spine, k, b, d, i);
    }
  }

  /** The neighbours of the k-th node lead past it. */
  function Bypassed(mem: Memory, spine: seq<nat>, k: nat): (r: Memory)
    requires AllOwned(mem, spine) && k < |spine|
    ensures |r| == |mem| && AllOwned(r, spine)
  {
    var m1 := if 0 < k then WithNext(mem, spine[k - 1], NodeAt(spine, k + 1)) else mem;
    if k + 1 < |spine| then WithPrev(m1, spine[k + 1], NodeAt(spine, k - 1)) else m1
  }

  lemma BypassedAt(mem: Memory, spine: seq<nat>, k: nat, i: nat)
    requires Linked(mem, spine) && k < |spine| && i < |spine|
    ensures var n := mem[spine[i]].value;
            Bypassed(mem, spine, k)[spine[i]] ==
              Owned(Node(n.data, if i == k + 1 then NodeAt(spine, k - 1) else n.prev,
                         if i + 1 == k then NodeAt(spine, k + 1) else n.next))
  {}

  /** Unlinking a node: the chain, and its data, is the old one without it. */
  lemma UnlinkNode(mem: Memory, spine: seq<nat>, k: nat)
    requires Linked(mem, spine) && k < |spine|
    ensures var mem', spine' := Bypassed(mem, spine, k), RemoveAt(spine, k);
            Linked(mem', spine') && DataOf(mem', spine') == RemoveAt(DataOf(mem, spine), k)
            && mem'[spine[k]] == mem[spine[k]] && spine[k] !in spine'
  {
    hide Bypassed;
    var mem', spine' := Bypassed(mem, spine, k), RemoveAt(spine, k);
    DistinctRemove(spine, k);
    BypassedAt(mem, spine, k, k);
    forall i | 0 <= i < |spine'|
      ensures spine'[i] < |mem'| && mem'[spine'[i]].Owned?
    {}
    forall i | 0 <= i < |spine'|
      ensures LinkedAt(mem', spine', i)
      ensures mem'[spine'[i]].value.data == RemoveAt(DataOf(mem, spine), k)[i]
    {
      var j := if i < k then i else i + 1;
      assert LinkedAt(mem, spine, j);
      BypassedAt(mem, spine, k, j);
    }
  }

  /** The unlinked node itself may be changed freely, apart from its data. */
  lemma UnlinkAndClear(mem: Memory, mem': Memory, spine: seq<nat>, k: nat)
    requires Linked(mem, spine) && k < |spine| && spine[k] < |mem'| == |mem| && mem'[spine[k]].Owned?
    requires mem' == Bypassed(mem, spine, k)[spine[k] := mem'[spine[k]]]
    requires mem'[spine[k]].value.data == mem[spine[k]].value.data
    ensures Linked(mem', RemoveAt(spine, k)) && DataOf(mem', RemoveAt(spine, k)) == RemoveAt(DataOf(mem, spine), k)
    ensures spine[k] !in RemoveAt(spine, k)
  {
    UnlinkNode(mem, spine, k);
    SameChain(Bypassed(mem, spine, k), mem', RemoveAt(spine, k));
  }

  lemma SetOneDatum(mem: Memory, spine: seq<nat>, k: nat, d: Datum)
    requires Linked(mem, spine) && k < |spine|
    ensures var mem' := WithData(mem, spine[k], d);
            Linked(mem', spine) && DataOf(mem', spine) == DataOf(mem, spine)[k := d]
  {
    var mem' := WithData(mem, spine[k], d);
    forall i | 0 <= i < |spine|
      ensures LinkedAt(mem', spine, i) && mem'[spine[i]].value.data == DataOf(mem, spine)[k := d][i]
    {
      assert LinkedAt(mem, spine, i);
    }
  }

  lemma SwapData(mem: Memory, spine: seq<nat>, k: nat)
    requires Linked(mem, spine) && k + 1 < |spine|
    ensures var a, b := mem[spine[k]].value.data, mem[spine[k + 1]].value.data;
            var mem' := WithData(WithData(mem, spine[k], b), spine[k + 1], a);
            Linked(mem', spine) && DataOf(mem', spine) == DataOf(mem, spine)[k := b][k + 1 := a]
  {
    hide LinkedAt;
    var a, b := mem[spine[k]].value.data, mem[spine[k + 1]].value.data;
    SetOneDatum(mem, spine, k, b);
    SetOneDatum(WithData(mem, spine[k], b), spine, k + 1, a);
  }

  /** What list->current points to: the head pointer, or a link of a node. */
  datatype Slot = HeadSlot | NextOf(node: nat) | PrevOf(node: nat)

  /** The slot is the link that leads to the k-th node: a node's link, so k can be one past either end, where the link is
      null. */
  ghost predicate SlotAt(spine: seq<nat>, slot: Slot, k: int) {
    spine != [] &&
    match slot
    case HeadSlot => k == 0
    case NextOf(n) => 0 < k <= |spine| && n == spine[k - 1]
    case PrevOf(n) => 0 <= k + 1 < |spine| && n == spine[k + 1]
  }

  /** A slot of kind NextOf before the k-th node finds the inserted node; a slot of kind PrevOf stays with the node it
      found, which has moved. */
  lemma SlotAfterInsert(spine: seq<nat>, slot: Slot, k: nat, b: nat)
    requires SlotAt(spine, slot, k) && 0 < k < |spine|
    ensures SlotAt(InsertAt(spine, k, b), slot, if slot.PrevOf? then k + 1 else k)
  {}

  /** After the k-th node is gone a slot of kind NextOf finds the node after it, one of kind PrevOf the one before. */
  lemma SlotAfterRemove(spine: seq<nat>, slot: Slot, k: nat)
    requires SlotAt(spine, slot, k) && 0 < k < |spine| - 1
    ensures SlotAt(RemoveAt(spine, k), slot, if slot.PrevOf? then k - 1 else k)
  {}

  function Deref(mem: Memory, head: Ptr, slot: Slot): Ptr
    requires slot.HeadSlot? || (slot.node < |mem| && mem[slot.node].Owned?)
  {
    match slot
    case HeadSlot => head
    case NextOf(n) => mem[n].value.next
    case PrevOf(n) => mem[n].value.prev
  }

  lemma DerefSlot(mem: Memory, spine: seq<nat>, slot: Slot, k: int)
    requires Linked(mem, spine) && (if spine == [] then slot == HeadSlot else SlotAt(spine, slot, k))
    ensures slot.HeadSlot? || (slot.node < |mem| && mem[slot.node].Owned?)
    ensures Deref(mem, NodeAt(spine, 0), slot) == NodeAt(spine, k)
  {
    match slot
    case HeadSlot =>
    case NextOf(_) => assert LinkedAt(mem, spine, k - 1);
    case PrevOf(_) => assert LinkedAt(mem, spine, k + 1);
  }
}
