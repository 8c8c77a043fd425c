/** The debug allocator of src/memmgr.c (__CPLUS_MEM_MANAGER__): a singly linked list of records, one for each live
    allocation, and a tag on either side of the allocated bytes. */
module MemTracker {
  import opened Words

  const TAG: nat := 4   // sizeof(uint32_t)
  const BEGCHK: seq<byte> := [0x4A, 0x3A, 0x2A, 0x1A]
  const ENDCHK: seq<byte> := [0x8B, 0x7B, 0x6B, 0x5B]
  const CLRCHK: seq<byte> := [0xAB, 0xAB, 0xAB, 0xAB]
  const NULL: nat := 0

  /** What a record says: where the caller's bytes are, and how many. */
  datatype Info = Info(memRef: nat, memSize: nat)

  /** The position of the first record of this address, or their number. */
  function IndexOf(infos: seq<Info>, addr: nat): (k: nat)
    ensures k <= |infos| && (k < |infos| ==> infos[k].memRef == addr)
    ensures forall i :: 0 <= i < k ==> infos[i].memRef != addr
  {
    if infos == [] || infos[0].memRef == addr then 0 else 1 + IndexOf(infos[1..], addr)
  }

  function Erased(infos: seq<Info>, addr: nat): seq<Info> {
    var k := IndexOf(infos, addr);
    if k < |infos| then infos[..k] + infos[k + 1..] else infos
  }

  ghost predicate DistinctRefs(infos: seq<Info>) {
    forall i, j :: 0 <= i < j < |infos| ==> infos[i].memRef != infos[j].memRef
  }

  /** The records as a map from addresses to sizes. */
  ghost function Sizes(infos: seq<Info>): map<nat, nat> {
    map i | 0 <= i < |infos| :: infos[i].memRef := infos[IndexOf(infos, infos[i].memRef)].memSize
  }

  lemma RefIndex(infos: seq<Info>, i: nat)
    requires DistinctRefs(infos) && i < |infos|
    ensures IndexOf(infos, infos[i].memRef) == i
  {}

  /** The map in terms of the records. */
  lemma SizesAt(infos: seq<Info>, a: nat)
    requires DistinctRefs(infos)
    ensures a in Sizes(infos) <==> IndexOf(infos, a) < |infos|
    ensures a in Sizes(infos) ==> Sizes(infos)[a] == infos[IndexOf(infos, a)].memSize
  {
    var k := IndexOf(infos, a);
    if k < |infos| {
      assert infos[k].memRef in Sizes(infos);
    }
  }

  lemma IndexAbsent(infos: seq<Info>, a: nat)
    requires forall i :: 0 <= i < |infos| ==> infos[i].memRef != a
    ensures IndexOf(infos, a) == |infos|
  {}

  lemma AppendedAt(infos: seq<Info>, info: Info, a: nat)
    requires DistinctRefs(infos) && IndexOf(infos, info.memRef) == |infos|
    ensures DistinctRefs(infos + [info])
    ensures IndexOf(infos + [info], a) == if a == info.memRef then |infos|
                                          else if IndexOf(infos, a) < |infos| then IndexOf(infos, a) else |infos| + 1
  {
    var r, k := infos + [info], IndexOf(infos, a);
    if a == info.memRef {
      RefIndex(r, |infos|);
    } else if k < |infos| {
      assert r[k] == infos[k];
      RefIndex(r, k);
    } else {
      IndexAbsent(r, a);
    }
  }

  /** A record at the end adds a mapping. */
  lemma {:induction false} AppendIsUpdate(infos: seq<Info>, info: Info)
    requires DistinctRefs(infos) && IndexOf(infos, info.memRef) == |infos|
    ensures DistinctRefs(infos + [info]) && Sizes(infos + [info]) == Sizes(infos)[info.memRef := info.memSize]
  {
    hide Sizes, IndexOf;
    var r := infos + [info];
    AppendedAt(infos, info, 0);
    forall a ensures (a in Sizes(r) <==> a in Sizes(infos) || a == info.memRef)
      && (a in Sizes(r) ==> Sizes(r)[a] == if a == info.memRef then info.memSize else Sizes(infos)[a])
    {
      SizesAt(infos, a);
      AppendedAt(infos, info, a);
      SizesAt(r, a);
    }
  }

  lemma ErasedAt(infos: seq<Info>, addr: nat, a: nat)
    requires DistinctRefs(infos) && IndexOf(infos, addr) < |infos|
    ensures var r, k, j := Erased(infos, addr), IndexOf(infos, addr), IndexOf(infos, a);
            && DistinctRefs(r)
            && IndexOf(r, a) == if a == addr || j == |infos| then |infos| - 1 else if j < k then j else j - 1
  {
    var r, k, j := Erased(infos, addr), IndexOf(infos, addr), IndexOf(infos, a);
    assert forall i :: 0 <= i < |r| ==> r[i] == infos[if i < k then i else i + 1];
    if a == addr || j == |infos| {
      IndexAbsent(r, a);
    } else {
      var j' := if j < k then j else j - 1;
      assert r[j'] == infos[j];
      RefIndex(r, j');
    }
  }

  /** Unlinking the record of an address removes its mapping, and no other. */
  lemma {:induction false} EraseIsRemoval(infos: seq<Info>, addr: nat)
    requires DistinctRefs(infos)
    ensures DistinctRefs(Erased(infos, addr)) && Sizes(Erased(infos, addr)) == Sizes(infos) - {addr}
  {
    hide Sizes, IndexOf;
    var r, k := Erased(infos, addr), IndexOf(infos, addr);
    SizesAt(infos, addr);
    if k < |infos| {
      ErasedAt(infos, addr, 0);
      forall a ensures (a in Sizes(r) <==> a in Sizes(infos) && a != addr)
        && (a in Sizes(r) ==> Sizes(r)[a] == Sizes(infos)[a])
      {
        SizesAt(infos, a);
        ErasedAt(infos, addr, a);
        SizesAt(r, a);
      }
    }
  }

  /** One byte between the tags changes. */
  function Overwritten(chunk: seq<byte>, i: nat, b: byte): (r: seq<byte>)
    requires TAG <= i < |chunk| - TAG
    ensures |r| == |chunk| && r[..TAG] == chunk[..TAG] && r[|chunk| - TAG..] == chunk[|chunk| - TAG..]
    ensures forall k :: 0 <= k < |r| ==> r[k] == if k == i then b else chunk[k]
  {
    chunk[..i] + [b] + chunk[i + 1..]
  }

  /** struct extra_info */
  class ExtraInfo {
    const memRef: nat
    const memSize: nat
    var next: ExtraInfo?

    constructor (memRef: nat, memSize: nat)
      ensures this.memRef == memRef && this.memSize == memSize && next == null
    {
      this.memRef, this.memSize, next := memRef, memSize, null;
    }
  }

  class Tracker {
    var start: ExtraInfo?
    var last: ExtraInfo?
    var inusedMemNum: int
    /** The bytes of each allocation with its tags, by the address that malloc returned. */
    var memory: map<nat, seq<byte>>
    ghost var records: seq<ExtraInfo>

    ghost function RecordAt(i: int): ExtraInfo?
      reads this`records
    {
      if 0 <= i < |records| then records[i] else null
    }

    ghost function Nodes(): set<ExtraInfo>
      reads this`records
    {
      set r | r in records
    }

    /** The list: the last pointer counts only while there are records. */
    ghost predicate Chained()
      reads this`records, this`start, this`last, this`inusedMemNum, records
    {
      && (forall i, j :: 0 <= i < j < |records| ==> records[i] != records[j])
      && (forall i {:trigger LinkOk(i)} :: 0 <= i < |records| ==> LinkOk(i))
      && start == RecordAt(0) && (records != [] ==> last == RecordAt(|records| - 1))
      && inusedMemNum == |records|
    }

    ghost predicate LinkOk(i: int)
      requires 0 <= i < |records|
      reads this`records, records
    {
      records[i].next == RecordAt(i + 1)
    }

    ghost function Infos(): (s: seq<Info>)
      reads this`records
      ensures |s| == |records| && forall i :: 0 <= i < |s| ==> s[i] == Info(records[i].memRef, records[i].memSize)
    {
      var rs := records;
      seq(|rs|, i requires 0 <= i < |rs| => Info(rs[i].memRef, rs[i].memSize))
    }

    constructor ()
      ensures Chained() && Infos() == [] && memory == map[]
    {
      start, last, inusedMemNum, memory, records := null, null, 0, map[], [];
    }

    /** add_mem_info, when there is memory for the record */
    method AddMemInfo(memRef: nat, size: nat)
      requires Chained()
      modifies this`start, this`last, this`inusedMemNum, this`records, Nodes()
      ensures Chained() && Infos() == old(Infos()) + [Info(memRef, size)]
      ensures fresh(Nodes() - old(Nodes()))
    {
      var ex := new ExtraInfo(memRef, size);
      ghost var n := |records|;
      if start == null {
        start := ex;
        last := start;
      } else {
        assert LinkOk(n - 1);
        last.next := ex;
        last := last.next;
      }
      inusedMemNum := inusedMemNum + 1;
      records := records + [ex];
      forall i | 0 <= i < |records| ensures LinkOk(i) {
        assert i < n ==> old(LinkOk(i));
      }
    }

    /** find_mem_info */
    method FindMemInfo(addr: nat) returns (found: ExtraInfo?)
      requires Chained()
      ensures addr == NULL ==> found == null
      ensures addr != NULL ==> var k := IndexOf(Infos(), addr); found == RecordAt(k)
    {
      found := null;
      if addr == NULL {
        return;
      }
      found := start;
      ghost var i := 0;
      assert Infos()[0..] == Infos();
      while found != null
        invariant 0 <= i <= |records| && found == RecordAt(i)
        invariant IndexOf(Infos(), addr) == i + IndexOf(Infos()[i..], addr)
        decreases |records| - i
      {
        assert Infos()[i..][1..] == Infos()[i + 1..];
        if found.memRef == addr {
          return;
        }
        assert LinkOk(i);
        found := found.next;
        i := i + 1;
      }
    }

    /** erase_mem_info: unlink the first record of this address. Unlinking the first record leaves the last pointer
        alone, even when it was the last one too. */
    method EraseMemInfo(addr: nat)
      requires Chained() && addr != NULL
      modifies this`start, this`last, this`inusedMemNum, this`records, Nodes()
      ensures Chained() && Infos() == Erased(old(Infos()), addr)
      ensures Nodes() <= old(Nodes())
    {
      ghost var k := IndexOf(Infos(), addr);
      var temp: ExtraInfo?, prev: ExtraInfo? := start, null;
      ghost var i := 0;
      assert Infos()[0..] == Infos();
      while temp != null && temp.memRef != addr
        invariant 0 <= i <= |records| && temp == RecordAt(i) && prev == RecordAt(i - 1)
        invariant k == i + IndexOf(Infos()[i..], addr)
        decreases |records| - i
      {
        assert Infos()[i..][1..] == Infos()[i + 1..];
        assert LinkOk(i);
        prev := temp;
        temp := temp.next;
        i := i + 1;
      }
      if temp != null {
        Unlink(i, temp, prev);
      }
    }

    /** The three cases of unlinking, and what they leave of the list. */
    method Unlink(ghost k: nat, temp: ExtraInfo, prev: ExtraInfo?)
      requires Chained() && k < |records| && temp == records[k] && prev == RecordAt(k - 1)
      modifies this`start, this`last, this`inusedMemNum, this`records, Nodes()
      ensures Chained() && Infos() == old(Infos())[..k] + old(Infos())[k + 1..]
      ensures Nodes() <= old(Nodes())
    {
      ghost var before := records;
      assert LinkOk(k);
      if temp == start {
        start := temp.next;
      } else if temp == last {
        last := prev;
        last.next := null;
      } else {
        prev.next := temp.next;
      }
      inusedMemNum := inusedMemNum - 1;
      records := before[..k] + before[k + 1..];
      forall i | 0 <= i < |records| ensures LinkOk(i) {
        var j := if i < k then i else i + 1;
        assert records[i] == before[j] && old(LinkOk(j));
      }
    }

    // Allocations and their tags

    ghost predicate Valid()
      reads this, records
    {
      && Chained() && DistinctRefs(Infos())
      && forall i :: 0 <= i < |records| ==> Backed(records[i].memRef, records[i].memSize)
    }

    /** The caller's bytes at ptr, with room for the tags before and after. */
    ghost predicate Backed(ptr: nat, size: nat)
      reads this`memory
    {
      ptr > TAG && ptr - TAG in memory && |memory[ptr - TAG]| == size + 2 * TAG
    }

    /** The live allocations, by address. */
    ghost function Live(): map<nat, nat>
      reads this`records
    {
      Sizes(Infos())
    }

    predicate Intact(ptr: nat)
      reads this`memory
    {
      ptr > TAG && ptr - TAG in memory &&
      var chunk := memory[ptr - TAG];
      |chunk| >= 2 * TAG && chunk[..TAG] == BEGCHK && chunk[|chunk| - TAG..] == ENDCHK
    }

    lemma LiveBacked(ptr: nat)
      requires Valid()
      ensures ptr in Live() ==> Backed(ptr, Live()[ptr])
    {
      SizesAt(Infos(), ptr);
    }

    /** check_boundary: a tracked allocation passes exactly when neither tag has been overwritten. */
    method CheckBoundary(ptr: nat) returns (ok: bool)
      requires Valid() && ptr > TAG
      ensures ok <==> ptr !in Live() || Intact(ptr)
    {
      hide Sizes, IndexOf, LinkOk;
      SizesAt(Infos(), ptr);
      var info := FindMemInfo(ptr);
      if info == null {
        return true;
      }
      assert Backed(info.memRef, info.memSize);
      var chunk := memory[ptr - TAG];
      var begin := chunk[..TAG];
      ok := begin != CLRCHK && begin == BEGCHK && chunk[TAG + info.memSize..] == ENDCHK;
    }

    /** The tags around size bytes that malloc or realloc has returned. */
    function Tagged(raw: seq<byte>, size: nat): (r: seq<byte>)
      requires |raw| == size + 2 * TAG
      ensures |r| == |raw| && r[..TAG] == BEGCHK && r[TAG + size..] == ENDCHK && r[TAG..TAG + size] == raw[TAG..TAG + size]
    {
      BEGCHK + raw[TAG..TAG + size] + ENDCHK
    }

    /** An address that malloc may return is in no record. */
    lemma NotTracked(entire: nat)
      requires Valid() && entire !in memory
      ensures IndexOf(Infos(), entire + TAG) == |Infos()|
    {
      var infos := Infos();
      forall i | 0 <= i < |infos| ensures infos[i].memRef != entire + TAG {
        assert Backed(records[i].memRef, records[i].memSize);
      }
      IndexAbsent(infos, entire + TAG);
    }

    method Track(entire: nat, raw: seq<byte>, size: nat, recorded: bool)
      requires Valid() && entire != NULL && entire !in memory && |raw| == size + 2 * TAG
      modifies this, Nodes()
      ensures Valid() && memory == old(memory)[entire := Tagged(raw, size)] && Intact(entire + TAG)
      ensures Live() == if recorded then old(Live())[entire + TAG := size] else old(Live())
    {
      hide Sizes, Erased, IndexOf;
      var ptr := entire + TAG;
      ghost var infos := Infos();
      NotTracked(entire);
      memory := memory[entire := Tagged(raw, size)];
      if recorded {
        AppendIsUpdate(infos, Info(ptr, size));
        AddMemInfo(ptr, size);
      }
    }

    /** cplus_mgr_malloc. malloc answers with the address entire and the bytes raw there, or with NULL; recorded tells
        whether there was memory for the record, without which the allocation is live and not tracked. */
    method Malloc(size: nat, entire: nat, raw: seq<byte>, recorded: bool) returns (ptr: nat)
      requires Valid() && (entire != NULL ==> entire !in memory && |raw| == size + 2 * TAG)
      modifies this, Nodes()
      ensures Valid() && (ptr == NULL <==> size == 0 || entire == NULL)
      ensures ptr == NULL ==> Live() == old(Live()) && memory == old(memory)
      ensures ptr != NULL ==> ptr == entire + TAG && Intact(ptr) && memory == old(memory)[entire := Tagged(raw, size)]
      ensures ptr != NULL ==> Live() == if recorded then old(Live())[ptr := size] else old(Live())
    {
      hide Sizes, IndexOf, LinkOk, Backed;
      ptr := NULL;
      if size != 0 && entire != NULL {
        Track(entire, raw, size, recorded);
        ptr := entire + TAG;
      }
    }

    /** erase_mem_info and the release of the memory */
    method Drop(ptr: nat)
      requires Valid() && ptr > TAG
      modifies this, Nodes()
      ensures Valid() && Live() == old(Live()) - {ptr} && memory == old(memory) - {ptr - TAG}
      ensures Nodes() <= old(Nodes())
    {
      hide Sizes, IndexOf, Erased, LinkOk;
      ghost var infos := Infos();
      EraseIsRemoval(infos, ptr);
      BackedRefs();
      EraseMemInfo(ptr);
      memory := memory - {ptr - TAG};
      forall i | 0 <= i < |records| ensures Backed(records[i].memRef, records[i].memSize) {
        ErasedIsGone(infos, ptr, i);
        assert Infos()[i] in infos;
      }
    }

    /** The records' allocations, one record at a time. */
    lemma BackedRefs()
      requires Valid()
      ensures forall info :: info in Infos() ==> Backed(info.memRef, info.memSize)
    {
      forall info | info in Infos() ensures Backed(info.memRef, info.memSize) {
        var i :| 0 <= i < |Infos()| && Infos()[i] == info;
        assert Backed(records[i].memRef, records[i].memSize);
      }
    }

    /** The bytes of an allocation, tags included, change. */
    method Put(ptr: nat, chunk: seq<byte>)
      requires Valid() && ptr > TAG && ptr - TAG in memory && |chunk| == |memory[ptr - TAG]|
      modifies this`memory
      ensures Valid() && memory == old(memory)[ptr - TAG := chunk]
    {
      memory := memory[ptr - TAG := chunk];
      forall k | 0 <= k < |records| ensures Backed(records[k].memRef, records[k].memSize) {
        assert old(Backed(records[k].memRef, records[k].memSize));
      }
    }

    /** cplus_mgr_free of an allocation whose tags are intact; otherwise its assertion stops the program. */
    method Free(ptr: nat) returns (ok: bool)
      requires Valid() && (ptr != NULL ==> Intact(ptr))
      modifies this, Nodes()
      ensures Valid() && ok == (ptr != NULL)
      ensures ok ==> Live() == old(Live()) - {ptr} && memory == old(memory) - {ptr - TAG}
      ensures !ok ==> Live() == old(Live()) && memory == old(memory)
    {
      hide Sizes, IndexOf, LinkOk, Backed, DistinctRefs;
      if ptr == NULL {
        return false;
      }
      var passed := CheckBoundary(ptr);
      assert passed;
      var chunk := memory[ptr - TAG];
      Put(ptr, CLRCHK + chunk[TAG..]);
      Drop(ptr);
      ok := true;
    }

    /** cplus_mgr_realloc. realloc answers with an address that is free or the old one, and with bytes that begin with
        the old ones; asked for no bytes it frees. The size with its tags must fit a uint32. Whatever it answers, the old
        pointer is not live afterwards, unless it is the new one. */
    method Realloc(ptr: nat, size: nat, entire: nat, raw: seq<byte>, recorded: bool) returns (target: nat)
      requires Valid() && (ptr != NULL ==> Intact(ptr)) && size + 2 * TAG < UINT32
      requires ptr != NULL && size != 0 && entire != NULL ==>
                 && (entire == ptr - TAG || entire !in memory) && |raw| == size + 2 * TAG
                 && var n := Smaller(|raw|, |memory[ptr - TAG]|); raw[..n] == memory[ptr - TAG][..n]
      modifies this, Nodes()
      ensures Valid() && (target == NULL <==> ptr == NULL || size == 0 || entire == NULL)
      ensures ptr == NULL ==> Live() == old(Live()) && memory == old(memory)
      ensures ptr != NULL && target == NULL ==> Live() == old(Live()) - {ptr} && memory == old(memory) - {ptr - TAG}
      ensures target != NULL ==>
                && target == entire + TAG && Intact(target)
                && Live() == (if recorded then (old(Live()) - {ptr})[target := size] else old(Live()) - {ptr})
                && memory == (old(memory) - {ptr - TAG})[entire := Tagged(raw, size)]
      ensures target != NULL ==>
                var n := Smaller(size, |old(memory)[ptr - TAG]| - 2 * TAG);
                memory[entire][TAG..TAG + n] == old(memory)[ptr - TAG][TAG..TAG + n]
    {
      hide Sizes, IndexOf, LinkOk, Backed, DistinctRefs;
      target := NULL;
      if ptr == NULL {
        return;
      }
      var passed := CheckBoundary(ptr);
      assert passed;
      Drop(ptr);
      if size != 0 && entire != NULL {
        Track(entire, raw, size, recorded);
        target := entire + TAG;
        ghost var chunk := old(memory)[ptr - TAG];
        SamePrefix(raw, chunk, Tagged(raw, size), size);
      }
    }

    /** The owner writes within the allocation: both tags stay valid, and so do all others. */
    method Store(ptr: nat, i: nat, b: byte)
      requires Valid() && Intact(ptr) && i < |memory[ptr - TAG]| - 2 * TAG
      modifies this`memory
      ensures Valid() && Live() == old(Live()) && Intact(ptr)
      ensures forall p :: old(Intact(p)) ==> Intact(p)
      ensures memory == old(memory)[ptr - TAG := Overwritten(old(memory)[ptr - TAG], TAG + i, b)]
    {
      var chunk := memory[ptr - TAG];
      Put(ptr, Overwritten(chunk, TAG + i, b));
    }
  }

  function Smaller(a: int, b: int): (m: int)
    ensures m <= a && m <= b && m in {a, b}
  {
    if a < b then a else b
  }

  /** What cplus_mgr_realloc asks realloc for: a uint32. */
  function NewSize(size: nat): nat { if size == 0 then 0 else (size + 2 * TAG) % UINT32 }

  /** The end tag lies within what was asked for if and only if the size with both tags fits 32 bits; otherwise there is not
      even room for the two tags. */
  lemma EndTagFits(size: nat)
    requires 0 < size < UINT32
    ensures TAG + size + TAG <= NewSize(size) <==> size + 2 * TAG < UINT32
    ensures size + 2 * TAG >= UINT32 ==> NewSize(size) < 2 * TAG
  {}

  /** What realloc has kept of the old bytes is still there once the tags are written. */
  lemma SamePrefix(raw: seq<byte>, chunk: seq<byte>, tagged: seq<byte>, size: nat)
    requires |raw| == |tagged| == size + 2 * TAG && |chunk| >= 2 * TAG
    requires var n := Smaller(|raw|, |chunk|); raw[..n] == chunk[..n]
    requires tagged[TAG..TAG + size] == raw[TAG..TAG + size]
    ensures var n := Smaller(size, |chunk| - 2 * TAG); tagged[TAG..TAG + n] == chunk[TAG..TAG + n]
  {
    var n, m := Smaller(size, |chunk| - 2 * TAG), Smaller(|raw|, |chunk|);
    var a, b := tagged[TAG..TAG + n], chunk[TAG..TAG + n];
    forall i | 0 <= i < n ensures a[i] == b[i] {
      assert raw[TAG + i] == raw[..m][TAG + i] == chunk[..m][TAG + i];
      assert tagged[TAG + i] == tagged[TAG..TAG + size][i] == raw[TAG..TAG + size][i];
    }
  }

  lemma {:induction false} ErasedIsGone(infos: seq<Info>, addr: nat, i: nat)
    requires DistinctRefs(infos) && i < |Erased(infos, addr)|
    ensures Erased(infos, addr)[i].memRef != addr && Erased(infos, addr)[i] in infos
  {
    hide IndexOf;
    var k := IndexOf(infos, addr);
    var j := if i < k then i else i + 1;
    assert Erased(infos, addr)[i] == infos[j];
    assert infos[j].memRef != addr;
  }
}
