/** The fixed-block allocator of src/mempool.c. The free list is threaded through the free blocks, and the link of a
    block that was never allocated is written only when the initialization frontier reaches it. */
module MemPool {
  import opened Arithmetic
  import opened Words

  /** A pointer to a block, named by the block's index. */
  datatype Ptr = Null | At(index: nat)

  /** What a block holds: nothing yet, the allocator's link in its first word, or its owner's value. */
  datatype Block<T> = Raw | Link(next: nat) | Owned(value: T)

  /** index_to_addr and addr_to_index; the products and differences are uint32. */
  function IndexToAddr(start: nat, blockSize: nat, index: nat): nat { start + blockSize * index % UINT32 }

  function AddrToIndex(start: nat, blockSize: nat, addr: nat): nat
    requires start <= addr && blockSize > 0
  {
    (addr - start) % UINT32 / blockSize
  }

  /** The two are inverse exactly as long as the byte offset fits 32 bits. */
  lemma AddressRoundTrip(start: nat, blockSize: nat, index: nat)
    requires blockSize > 0
    ensures AddrToIndex(start, blockSize, IndexToAddr(start, blockSize, index)) == index <==> blockSize * index < UINT32
  {
    var offset := blockSize * index % UINT32;
    if blockSize * index < UINT32 {
      Quotient(blockSize, index, 0, offset);
    } else {
      Cancel(blockSize, offset / blockSize, index);
    }
  }

  /** A request of a client of the pool. */
  datatype Op = Alloc | Free(block: nat)

  function Range(from: nat, to: nat): (r: seq<nat>)
    requires from <= to
    ensures |r| == to - from && forall i :: 0 <= i < |r| ==> r[i] == from + i
  {
    seq(to - from, i requires i >= 0 => from + i)
  }

  /** The reference: a stack of free blocks, all of them at first, the lowest on top. */
  function Stack(blockCount: nat, ops: seq<Op>): seq<nat>
    decreases |ops|
  {
    if ops == [] then Range(0, blockCount)
    else
      var s := Stack(blockCount, ops[..|ops| - 1]);
      match ops[|ops| - 1]
      case Alloc => if s == [] then s else s[1..]
      case Free(b) => [b] + s
  }

  lemma StackSnoc(blockCount: nat, ops: seq<Op>, op: Op)
    ensures var s := Stack(blockCount, ops);
            Stack(blockCount, ops + [op]) == match op
                                             case Alloc => if s == [] then s else s[1..]
                                             case Free(b) => [b] + s
  {
    assert (ops + [op])[..|ops|] == ops;
  }

  ghost predicate Distinct<T>(s: seq<T>) { forall i, j :: 0 <= i < j < |s| ==> s[i] != s[j] }

  /** The free blocks: those given back, the last one first, then those from virgin on, which were never given out. */
  ghost function Chain(pushed: seq<nat>, virgin: nat, blockCount: nat): (c: seq<nat>)
    requires virgin <= blockCount
    ensures |c| == |pushed| + (blockCount - virgin)
    ensures forall k :: 0 <= k < |c| ==> c[k] == if k < |pushed| then pushed[k] else virgin + (k - |pushed|)
  {
    pushed + Range(virgin, blockCount)
  }

  /** The k-th block of the chain, once initialized, leads to the next one; the last one leads to the end. */
  ghost predicate LinkWritten<T>(mem: seq<Block<T>>, chain: seq<nat>, initialized: nat, k: int)
    requires 0 <= k < |chain| && chain[k] < |mem|
  {
    chain[k] < initialized ==> mem[chain[k]] == Link(if k + 1 < |chain| then chain[k + 1] else |mem|)
  }

  ghost predicate Threaded<T>(mem: seq<Block<T>>, chain: seq<nat>, initialized: nat)
    requires forall k :: 0 <= k < |chain| ==> chain[k] < |mem|
  {
    forall k {:trigger LinkWritten(mem, chain, initialized, k)} :: 0 <= k < |chain| ==> LinkWritten(mem, chain, initialized, k)
  }

  ghost predicate FreeList<T>(mem: seq<Block<T>>, initialized: nat, pushed: seq<nat>, virgin: nat) {
    && virgin <= initialized <= |mem|
    && Distinct(pushed) && (forall k :: 0 <= k < |pushed| ==> pushed[k] < virgin)
    && Threaded(mem, Chain(pushed, virgin, |mem|), initialized)
  }

  lemma Frontier<T>(mem: seq<Block<T>>, initialized: nat, pushed: seq<nat>, virgin: nat)
    requires FreeList(mem, initialized, pushed, virgin)
    ensures virgin <= initialized <= |mem|
  {}

  lemma ChainDistinct<T>(mem: seq<Block<T>>, initialized: nat, pushed: seq<nat>, virgin: nat)
    requires FreeList(mem, initialized, pushed, virgin)
    ensures Distinct(Chain(pushed, virgin, |mem|))
  {}

  lemma VirginInChain(pushed: seq<nat>, virgin: nat, blockCount: nat)
    requires virgin <= blockCount
    ensures forall b :: virgin <= b < blockCount ==> b in Chain(pushed, virgin, blockCount)
  {
    var chain := Chain(pushed, virgin, blockCount);
    forall b | virgin <= b < blockCount ensures b in chain {
      assert chain[|pushed| + (b - virgin)] == b;
    }
  }

  /** Moving the frontier writes a block of the virgin suffix, never an allocated one. */
  lemma InitializeOne<T>(mem: seq<Block<T>>, initialized: nat, pushed: seq<nat>, virgin: nat)
    requires FreeList(mem, initialized, pushed, virgin) && initialized < |mem|
    ensures initialized in Chain(pushed, virgin, |mem|) && virgin <= initialized
    ensures FreeList(mem[initialized := Link(initialized + 1)], initialized + 1, pushed, virgin)
  {
    var chain, mem' := Chain(pushed, virgin, |mem|), mem[initialized := Link(initialized + 1)];
    VirginInChain(pushed, virgin, |mem|);
    var next := initialized + 1;
    forall k | 0 <= k < |chain| ensures LinkWritten(mem', chain, next, k) {
      assert LinkWritten(mem, chain, initialized, k);
    }
  }

  /** The chain without its head, and the parts it consists of. */
  lemma ChainTail(pushed: seq<nat>, virgin: nat, blockCount: nat)
    requires virgin <= blockCount && Chain(pushed, virgin, blockCount) != []
    ensures pushed != [] ==> Chain(pushed, virgin, blockCount)[1..] == Chain(pushed[1..], virgin, blockCount)
    ensures pushed == [] ==> virgin < blockCount && Chain(pushed, virgin, blockCount)[1..] == Chain([], virgin + 1, blockCount)
  {
    var chain := Chain(pushed, virgin, blockCount);
    var rest := if pushed != [] then Chain(pushed[1..], virgin, blockCount) else Chain([], virgin + 1, blockCount);
    assert forall k :: 0 <= k < |rest| ==> rest[k] == chain[1..][k];
  }

  lemma ThreadedTail<T>(mem: seq<Block<T>>, chain: seq<nat>, initialized: nat)
    requires chain != [] && (forall k :: 0 <= k < |chain| ==> chain[k] < |mem|) && Threaded(mem, chain, initialized)
    ensures Threaded(mem, chain[1..], initialized)
  {
    forall k | 0 <= k < |chain[1..]| ensures LinkWritten(mem, chain[1..], initialized, k) {
      assert LinkWritten(mem, chain, initialized, k + 1);
    }
  }

  /** The popped head has its link written, and the link leads to the rest of the chain. */
  lemma PopHead<T>(mem: seq<Block<T>>, initialized: nat, pushed: seq<nat>, virgin: nat)
    requires FreeList(mem, initialized, pushed, virgin) && (virgin < initialized || virgin == |mem|)
    requires Chain(pushed, virgin, |mem|) != []
    ensures var chain := Chain(pushed, virgin, |mem|);
            && chain[0] < initialized
            && mem[chain[0]] == Link(if |chain| > 1 then chain[1] else |mem|)
            && (if pushed != []
                then chain[1..] == Chain(pushed[1..], virgin, |mem|) && FreeList(mem, initialized, pushed[1..], virgin)
                else chain[1..] == Chain([], virgin + 1, |mem|) && FreeList(mem, initialized, [], virgin + 1))
  {
    var chain := Chain(pushed, virgin, |mem|);
    assert LinkWritten(mem, chain, initialized, 0);
    ChainTail(pushed, virgin, |mem|);
    ThreadedTail(mem, chain, initialized);
  }

  /** A block given back is below the virgin suffix, and its new link leads to the chain so far. */
  lemma PushBlock<T>(mem: seq<Block<T>>, initialized: nat, pushed: seq<nat>, virgin: nat, b: nat)
    requires FreeList(mem, initialized, pushed, virgin) && b < |mem| && b !in Chain(pushed, virgin, |mem|)
    ensures b < virgin
    ensures var chain := Chain(pushed, virgin, |mem|);
            && Chain([b] + pushed, virgin, |mem|) == [b] + chain
            && FreeList(mem[b := Link(if chain == [] then |mem| else chain[0])], initialized, [b] + pushed, virgin)
  {
    var chain := Chain(pushed, virgin, |mem|);
    var mem', chain' := mem[b := Link(if chain == [] then |mem| else chain[0])], Chain([b] + pushed, virgin, |mem|);
    assert forall k :: 0 <= k < |chain| ==> chain[k] in chain;
    VirginInChain(pushed, virgin, |mem|);
    assert chain' == [b] + chain;
    assert Distinct([b] + pushed) by {
      assert forall k :: 0 <= k < |pushed| ==> pushed[k] == chain[k];
    }
    forall k | 0 <= k < |chain'| ensures LinkWritten(mem', chain', initialized, k) {
      if k > 0 {
        assert LinkWritten(mem, chain, initialized, k - 1);
      }
    }
  }

  /** A block that is free already cannot head the chain again. */
  lemma PushFree<T>(mem: seq<Block<T>>, initialized: nat, pushed: seq<nat>, virgin: nat, b: nat)
    requires FreeList(mem, initialized, pushed, virgin) && b in Chain(pushed, virgin, |mem|)
    ensures forall m: seq<Block<T>> :: !FreeList(m, initialized, [b] + pushed, virgin)
    ensures |Chain([b] + pushed, virgin, |mem|)| == |Chain(pushed, virgin, |mem|)| + 1
    ensures Chain([b] + pushed, virgin, |mem|) == [b] + Chain(pushed, virgin, |mem|)
  {
    var chain, twice := Chain(pushed, virgin, |mem|), [b] + pushed;
    assert Chain(twice, virgin, |mem|) == [b] + chain;
    var k :| 0 <= k < |chain| && chain[k] == b;
    if k < |pushed| {
      assert twice[0] == twice[k + 1];
    } else {
      assert twice[0] >= virgin;
    }
  }

  /** The block that so many links lead to. */
  function Follow<T>(mem: seq<Block<T>>, b: nat, steps: nat): nat
    decreases steps
  {
    if steps == 0 then b
    else if b < |mem| && mem[b].Link? then Follow(mem, mem[b].next, steps - 1)
    else |mem|
  }

  lemma {:induction false} FollowChain<T>(mem: seq<Block<T>>, initialized: nat, pushed: seq<nat>, virgin: nat,
                                          other: seq<Block<T>>, j: nat, k: nat)
    requires FreeList(mem, initialized, pushed, virgin) && j <= k < |pushed| && |other| == |mem|
    requires forall b :: 0 <= b < |mem| && b != pushed[k] ==> other[b] == mem[b]
    ensures Follow(other, pushed[j], k - j) == pushed[k]
    decreases k - j
  {
    if j < k {
      var chain := Chain(pushed, virgin, |mem|);
      assert LinkWritten(mem, chain, initialized, j);
      assert chain[j + 1] == pushed[j + 1];
      FollowChain(mem, initialized, pushed, virgin, other, j + 1, k);
    }
  }

  /** Freeing a block twice closes the free list to a cycle: after so many allocations it is given out again. */
  lemma {:induction false} FreedTwice<T>(mem: seq<Block<T>>, initialized: nat, pushed: seq<nat>, virgin: nat, k: nat)
    requires FreeList(mem, initialized, pushed, virgin) && k < |pushed|
    ensures Follow(mem[pushed[k] := Link(pushed[0])], pushed[k], k + 1) == pushed[k]
  {
    FollowChain(mem, initialized, pushed, virgin, mem[pushed[k] := Link(pushed[0])], 0, k);
  }

  lemma WriteOwned<T>(mem: seq<Block<T>>, initialized: nat, pushed: seq<nat>, virgin: nat, b: nat, v: Block<T>)
    requires FreeList(mem, initialized, pushed, virgin) && b < |mem| && b !in Chain(pushed, virgin, |mem|)
    ensures FreeList(mem[b := v], initialized, pushed, virgin)
  {
    var chain, mem' := Chain(pushed, virgin, |mem|), mem[b := v];
    assert forall k :: 0 <= k < |chain| ==> chain[k] in chain;
    forall k | 0 <= k < |chain| ensures LinkWritten(mem', chain, initialized, k) {
      assert LinkWritten(mem, chain, initialized, k);
    }
  }

  class Pool<T> {
    const blockCount: nat
    var freeBlocksCount: nat
    var initializedBlocksCount: nat
    const memory: array<Block<T>>
    var nextBlock: Ptr
    ghost var pushed: seq<nat>
    ghost var virgin: nat
    ghost var history: seq<Op>

    /** The free blocks in the order in which they will be allocated. */
    ghost function FreeBlocks(): seq<nat>
      requires virgin <= blockCount
      reads this
    {
      Chain(pushed, virgin, blockCount)
    }

    ghost predicate Valid()
      reads this, memory
    {
      && memory.Length == blockCount > 0 && virgin <= blockCount
      && FreeList(memory[..], initializedBlocksCount, pushed, virgin)
      && freeBlocksCount == |FreeBlocks()|
      && nextBlock == (if FreeBlocks() == [] then Null else At(FreeBlocks()[0]))
      && FreeBlocks() == Stack(blockCount, history)
    }

    ghost predicate Live(b: nat)
      requires virgin <= blockCount
      reads this
    {
      b < blockCount && b !in FreeBlocks()
    }

    constructor (blockCount: nat)
      requires blockCount > 0
      ensures Valid() && this.blockCount == blockCount && history == [] && fresh(memory)
      ensures FreeBlocks() == Range(0, blockCount)
    {
      this.blockCount := blockCount;
      freeBlocksCount := blockCount;
      initializedBlocksCount := 0;
      var mem: array<Block<T>> := new Block<T>[blockCount](_ => Raw);
      memory := mem;
      nextBlock := At(0);
      pushed, virgin, history := [], 0, [];
      new;
      assert FreeBlocks() == Range(0, blockCount);
    }

    /** The first half of cplus_mempool_alloc: write the link of one more block, which is free. */
    method Initialize()
      requires Valid()
      modifies this`initializedBlocksCount, memory
      ensures Valid() && (virgin < initializedBlocksCount || virgin == blockCount)
      ensures forall b :: 0 <= b < blockCount && b !in FreeBlocks() ==> memory[b] == old(memory[b])
    {
      hide FreeList, Chain, Stack;
      Frontier(memory[..], initializedBlocksCount, pushed, virgin);
      if initializedBlocksCount < blockCount {
        InitializeOne(memory[..], initializedBlocksCount, pushed, virgin);
        memory[initializedBlocksCount] := Link(initializedBlocksCount + 1);
        initializedBlocksCount := initializedBlocksCount + 1;
      }
    }

    /** cplus_mempool_alloc: initialize one more block, then pop the head of the free list. */
    method Alloc() returns (addr: Ptr)
      requires Valid()
      modifies this, memory
      ensures Valid() && history == old(history) + [Op.Alloc]
      ensures addr == Null <==> old(FreeBlocks()) == []
      ensures addr == Null ==> FreeBlocks() == []
      ensures addr != Null ==> addr == At(old(FreeBlocks())[0]) && FreeBlocks() == old(FreeBlocks())[1..] && Live(addr.index)
      ensures forall b :: 0 <= b < blockCount && b !in old(FreeBlocks()) ==> memory[b] == old(memory[b])
    {
      hide FreeList, Chain, Stack;
      addr := Null;
      Initialize();
      ChainDistinct(memory[..], initializedBlocksCount, pushed, virgin);
      StackSnoc(blockCount, history, Op.Alloc);
      history := history + [Op.Alloc];
      if 0 < freeBlocksCount {
        PopHead(memory[..], initializedBlocksCount, pushed, virgin);
        addr := nextBlock;
        freeBlocksCount := freeBlocksCount - 1;
        nextBlock := if 0 < freeBlocksCount then At(memory[nextBlock.index].next) else Null;
        if pushed != [] {
          pushed := pushed[1..];
        } else {
          virgin := virgin + 1;
        }
      }
    }

    /** cplus_mempool_free. The free list stays one if and only if the block was allocated: nothing is checked. */
    method Free(addr: Ptr) returns (ok: bool)
      requires Valid() && (addr != Null ==> addr.index < blockCount)
      modifies this, memory
      ensures Valid() <==> addr == Null || old(Live(addr.index))
      ensures ok == (addr != Null) && virgin <= blockCount
      ensures ok ==> FreeBlocks() == [addr.index] + old(FreeBlocks()) && history == old(history) + [Op.Free(addr.index)]
      ensures !ok ==> FreeBlocks() == old(FreeBlocks()) && history == old(history)
      ensures forall b :: 0 <= b < blockCount && b !in FreeBlocks() ==> memory[b] == old(memory[b])
    {
      hide FreeList, Chain, Stack;
      if addr == Null {
        return false;
      }
      if addr.index !in FreeBlocks() {
        PushBlock(memory[..], initializedBlocksCount, pushed, virgin, addr.index);
      } else {
        PushFree(memory[..], initializedBlocksCount, pushed, virgin, addr.index);
      }
      memory[addr.index] := Link(if nextBlock != Null then nextBlock.index else blockCount);
      nextBlock := addr;
      freeBlocksCount := freeBlocksCount + 1;
      pushed := [addr.index] + pushed;
      StackSnoc(blockCount, history, Op.Free(addr.index));
      history := history + [Op.Free(addr.index)];
      ok := true;
    }

    /** The owner of an allocated block writes to it, anything. */
    method Write(b: nat, v: Block<T>)
      requires Valid() && Live(b)
      modifies memory
      ensures Valid() && memory[..] == old(memory[..])[b := v]
    {
      WriteOwned(memory[..], initializedBlocksCount, pushed, virgin, b, v);
      memory[b] := v;
    }
  }
}
