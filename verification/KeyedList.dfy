/** A list of keyed values (cplus_llist_add_data, cplus_llist_find_data, cplus_llist_remove_data in src/llist.c) as a
    map that remembers the order of insertion. */
module KeyedList {
  import opened MemPool
  import opened ListShape
  import opened LinkedList

  /** What find_node_by_key and cplus_data_set_value see of a cplus_data; kind is its data type, 0 for none. */
  datatype Entry = Entry(key: string, kind: nat, value: int)

  const CPLUS_DATA_TYPE_NULL: nat := 0

  /** The position of the first entry with this key, or the number of entries. */
  function IndexOf(es: seq<Entry>, key: string): (k: nat)
    ensures k <= |es| && (k < |es| ==> es[k].key == key)
    ensures forall i :: 0 <= i < k ==> es[i].key != key
  {
    if es == [] || es[0].key == key then 0 else 1 + IndexOf(es[1..], key)
  }

  datatype Lookup = Missing | Found(entry: Entry)

  function Find(es: seq<Entry>, key: string): Lookup {
    var k := IndexOf(es, key);
    if k < |es| then Found(es[k]) else Missing
  }

  ghost predicate KeysDistinct(es: seq<Entry>) { forall i, j :: 0 <= i < j < |es| ==> es[i].key != es[j].key }

  /** cplus_data_set_value keeps the type, and sets nothing on a value without one. */
  function SetValue(e: Entry, value: int): (r: Entry)
    ensures r.key == e.key && r.kind == e.kind
    ensures r.value == if e.kind == CPLUS_DATA_TYPE_NULL then e.value else value
  {
    if e.kind == CPLUS_DATA_TYPE_NULL then e else e.(value := value)
  }

  function Added(es: seq<Entry>, kind: nat, key: string, value: int, room: bool): seq<Entry> {
    var k := IndexOf(es, key);
    if k < |es| then es[k := SetValue(es[k], value)]
    else if room then es + [Entry(key, kind, value)]
    else es
  }

  function Removed(es: seq<Entry>, key: string): seq<Entry> {
    var k := IndexOf(es, key);
    if k < |es| then RemoveAt(es, k) else es
  }

  lemma UniqueIndex(es: seq<Entry>, key: string, k: nat)
    requires KeysDistinct(es) && k < |es| && es[k].key == key
    ensures IndexOf(es, key) == k
  {}

  lemma AbsentIndex(es: seq<Entry>, key: string)
    requires forall i :: 0 <= i < |es| ==> es[i].key != key
    ensures IndexOf(es, key) == |es|
  {}

  /** Adding keeps keys distinct and other keys' entries as they are. The added value is found afterwards exactly
      when the key was there, with a type, or the list had room; without room the value is lost. */
  lemma {:induction false} AddIsMapUpdate(es: seq<Entry>, kind: nat, key: string, value: int, room: bool, other: string)
    requires KeysDistinct(es) && other != key
    ensures var r := Added(es, kind, key, value, room);
            && KeysDistinct(r)
            && Find(r, other) == Find(es, other)
            && Find(r, key) == (match Find(es, key)
                                case Found(e) => Found(SetValue(e, value))
                                case Missing => if room then Found(Entry(key, kind, value)) else Missing)
  {
    var r := Added(es, kind, key, value, room);
    var k, o := IndexOf(es, key), IndexOf(es, other);
    if k < |r| {
      assert r[k].key == key;
      UniqueIndex(r, key, k);
    } else {
      AbsentIndex(r, key);
    }
    if o < |es| {
      assert r[o] == es[o];
      UniqueIndex(r, other, o);
    } else {
      AbsentIndex(r, other);
    }
  }

  /** Removing forgets the key and nothing else. */
  lemma {:induction false} RemoveIsMapRemoval(es: seq<Entry>, key: string, other: string)
    requires KeysDistinct(es) && other != key
    ensures var r := Removed(es, key);
            KeysDistinct(r) && Find(r, key) == Missing && Find(r, other) == Find(es, other)
  {
    var r, k, o := Removed(es, key), IndexOf(es, key), IndexOf(es, other);
    assert forall i :: 0 <= i < |r| ==> r[i] == es[if i < k then i else i + 1];
    AbsentIndex(r, key);
    if o < |es| {
      var o' := if o < k then o else o - 1;
      assert r[o'] == es[o];
      UniqueIndex(r, other, o');
    } else {
      AbsentIndex(r, other);
    }
  }

  /** Keys stand in the order in which they came: a new one at the end, one that is there where it is, and those that are
      left when one goes as they were. */
  lemma {:induction false} OrderKept(es: seq<Entry>, kind: nat, key: string, value: int, room: bool, i: nat)
    requires i < |es|
    ensures var r := Added(es, kind, key, value, room);
            && r[i].key == es[i].key && (es[i].key != key ==> r[i] == es[i])
            && |r| == |es| + (if Find(es, key) == Missing && room then 1 else 0)
    ensures var r, k := Removed(es, key), IndexOf(es, key);
            && |r| == |es| - (if Find(es, key) == Missing then 0 else 1)
            && (i < k ==> r[i] == es[i]) && (k < i ==> r[i - 1] == es[i])
  {}

  /** What was added last can be taken back. */
  lemma {:induction false} RemoveAdded(es: seq<Entry>, kind: nat, key: string, value: int)
    requires KeysDistinct(es) && Find(es, key) == Missing
    ensures Removed(Added(es, kind, key, value, true), key) == es
  {
    var r := Added(es, kind, key, value, true);
    assert r[|es|].key == key;
    UniqueIndex(r, key, |es|);
  }

  class Keyed {
    const list: List
    /** The values that exist, by address. */
    var values: map<Datum, Entry>

    ghost predicate Valid()
      reads this, list, list.pool, list.pool.memory
    {
      && list.Valid()
      && (forall i :: 0 <= i < list.count ==> list.Contents()[i] in values && list.Contents()[i] != NULL)
      && Distinct(list.Contents())
    }

    ghost function Entries(): (es: seq<Entry>)
      requires Valid()
      reads this, list, list.pool, list.pool.memory
      ensures |es| == list.count && forall i :: 0 <= i < |es| ==> es[i] == values[list.Contents()[i]]
    {
      var c, vs := list.Contents(), values;
      seq(|c|, i requires 0 <= i < |c| && c[i] in vs => vs[c[i]])
    }

    constructor (list: List)
      requires list.Valid() && list.Contents() == []
      ensures Valid() && this.list == list && Entries() == []
    {
      this.list, values := list, map[];
    }

    /** find_node_by_key with its key */
    function ByKey(key: string): Comparator
      reads this
    {
      var vs := values;
      (d: Datum) => if d in vs && vs[d].key == key then 0 else 1
    }

    lemma {:induction false} MatchIsIndex(key: string, c: seq<Datum>, es: seq<Entry>)
      requires |c| == |es| && forall i :: 0 <= i < |c| ==> c[i] in values && c[i] != NULL && es[i] == values[c[i]]
      ensures FirstMatch(ByKey(key), c) == IndexOf(es, key)
      decreases |c|
    {
      if c != [] {
        MatchIsIndex(key, c[1..], es[1..]);
      }
    }

    /** cplus_llist_find_data */
    method FindData(key: string) returns (data: Datum)
      requires Valid()
      modifies list`curIndex, list`current, list`drift
      ensures Valid() && Entries() == old(Entries())
      ensures match Find(Entries(), key)
              case Found(e) => data != NULL && data in values && values[data] == e && data in list.Contents()
              case Missing => data == NULL
    {
      hide List.Sound, List.Owns, List.CursorOk, DataOf, FirstHit;
      MatchIsIndex(key, list.Contents(), Entries());
      var index;
      data, index := list.GetIf(ByKey(key));
    }

    /** A value whose key is not there: it goes to the end of the list if there is room. The result of the push is not
        looked at. */
    method Append(entry: Entry, made: Datum)
      requires Valid() && made != NULL && made !in values
      modifies this, list, list.pool, list.pool.memory
      ensures Valid() && values == old(values)[made := entry]
      ensures Entries() == old(Entries()) + if old(list.pool.freeBlocksCount) > 0 then [entry] else []
      ensures made in list.Contents() <==> old(list.pool.freeBlocksCount) > 0
    {
      hide List.Sound, List.Owns, List.CursorOk, DataOf;
      ghost var c := list.Contents();
      values := values[made := entry];
      var res := list.PushBack(made);
      assert forall i :: 0 <= i < |c| ==> c[i] in c && c[i] != made;
    }

    /** cplus_llist_add_data. made is what cplus_data_new_ex returns if it comes to that: an address not in use, or
        NULL. The value returned is in the list, unless the list was full. */
    method AddData(kind: nat, key: string, value: int, made: Datum) returns (data: Datum)
      requires Valid() && (made != NULL ==> made !in values)
      modifies this, list, list.pool, list.pool.memory
      ensures Valid()
      ensures Entries() == Added(old(Entries()), kind, key, value, made != NULL && old(list.pool.freeBlocksCount) > 0)
      ensures data != NULL ==> data in values && values[data].key == key
      ensures match Find(old(Entries()), key)
              case Found(_) => data != NULL && data in list.Contents()
              case Missing =>
                data == made && (made != NULL ==> (data in list.Contents() <==> old(list.pool.freeBlocksCount) > 0))
    {
      hide List.Sound, List.Owns, List.CursorOk, DataOf, FirstMatch, FirstHit, TookFirstHit, IndexOf;
      ghost var es, c := Entries(), list.Contents();
      MatchIsIndex(key, c, es);
      var index;
      data, index := list.GetIf(ByKey(key));
      if data == NULL {
        data := made;
        if data != NULL {
          Append(Entry(key, kind, value), data);
        }
      } else {
        values := values[data := SetValue(values[data], value)];
      }
    }

    /** cplus_llist_remove_data */
    method RemoveData(key: string)
      requires Valid()
      modifies this, list, list.pool, list.pool.memory
      ensures Valid() && Entries() == Removed(old(Entries()), key)
    {
      hide List.Sound, List.Owns, List.CursorOk, DataOf, FirstMatch, FirstHit, TookFirstHit, IndexOf;
      ghost var es, c := Entries(), list.Contents();
      MatchIsIndex(key, c, es);
      var data := list.PopIf(ByKey(key));
      if data != NULL {
        values := values - {data};
      }
    }
  }
}
