/** The order in which llist_sort (src/llist.c) leaves the data of a list, and what a caller can rely on. */
module BubbleSort {

  /** A comparator: positive when its first argument belongs after its second. */
  type Order<!T> = (T, T) -> int

  predicate Leq<T>(cmp: Order<T>, a: T, b: T) { cmp(a, b) <= 0 }

  predicate Equivalent<T>(cmp: Order<T>, a: T, b: T) { Leq(cmp, a, b) && Leq(cmp, b, a) }

  ghost predicate TotalPreorder<T(!new)>(cmp: Order<T>) {
    && (forall a, b :: Leq(cmp, a, b) || Leq(cmp, b, a))
    && (forall a, b, c :: Leq(cmp, a, b) && Leq(cmp, b, c) ==> Leq(cmp, a, c))
  }

  /** One comparison: the data of two neighbours changes places if the first belongs after the second. */
  function Exchange<T>(cmp: Order<T>, s: seq<T>, j: nat): (r: seq<T>)
    requires j + 1 < |s|
    ensures |r| == |s|
  {
    if cmp(s[j], s[j + 1]) > 0 then s[j := s[j + 1]][j + 1 := s[j]] else s
  }

  /** The inner loop: n comparisons from the head on. */
  function Pass<T>(cmp: Order<T>, s: seq<T>, n: nat): (r: seq<T>)
    requires n == 0 || n < |s|
    ensures |r| == |s|
  {
    if n == 0 then s else Exchange(cmp, Pass(cmp, s, n - 1), n - 1)
  }

  /** How many comparisons pass number i makes on a list of this size: its bound shrinks with i, and the first pass
      stops at the last node. */
  function Comparisons(size: nat, i: nat): (n: nat)
    requires i < size
    ensures n < size
  {
    if i == 0 then size - 1 else size - i
  }

  function Passes<T>(cmp: Order<T>, s: seq<T>, i: nat): (r: seq<T>)
    requires i <= |s|
    ensures |r| == |s|
  {
    if i == 0 then s
    else
      var t := Passes(cmp, s, i - 1);
      Pass(cmp, t, Comparisons(|s|, i - 1))
  }

  function Sort<T>(cmp: Order<T>, s: seq<T>): (r: seq<T>)
    ensures |r| == |s|
  {
    Passes(cmp, s, |s|)
  }

  ghost predicate Sorted<T>(cmp: Order<T>, s: seq<T>) { forall j, k :: 0 <= j < k < |s| ==> Leq(cmp, s[j], s[k]) }

  /** The elements from lo on are in order, and no element before belongs after one of them. */
  ghost predicate SortedFrom<T>(cmp: Order<T>, s: seq<T>, lo: int) {
    forall j, k :: 0 <= j < k < |s| && lo <= k ==> Leq(cmp, s[j], s[k])
  }

  /** A pass carries the greatest of the elements it has seen along, and leaves the rest alone. */
  lemma {:induction false} PassCarriesMaximum<T(!new)>(cmp: Order<T>, s: seq<T>, n: nat)
    requires TotalPreorder(cmp) && n < |s|
    ensures var r := Pass(cmp, s, n);
            && (forall k :: 0 <= k < n ==> Leq(cmp, r[k], r[n]))
            && r[n + 1..] == s[n + 1..]
            && (forall k :: 0 <= k <= n ==> exists i :: 0 <= i <= n && r[k] == s[i])
  {
    if n > 0 {
      PassCarriesMaximum(cmp, s, n - 1);
      var t, r := Pass(cmp, s, n - 1), Pass(cmp, s, n);
      assert t[n..][0] == s[n..][0];
      assert t[n] == s[n] && forall k :: 0 <= k < n - 1 ==> r[k] == t[k];
      assert t[n..][1..] == s[n + 1..] == t[n + 1..];
      assert r[n] == t[n - 1] || r[n] == t[n];
      forall k | 0 <= k < n ensures Leq(cmp, r[k], r[n]) {
        if r[n] == t[n] && cmp(t[n - 1], t[n]) <= 0 {
          assert Leq(cmp, t[n - 1], t[n]);
          if k < n - 1 { assert Leq(cmp, t[k], t[n - 1]); }
        } else {
          assert !Leq(cmp, t[n - 1], t[n]);
        }
      }
      forall k | 0 <= k <= n ensures exists i :: 0 <= i <= n && r[k] == s[i] {
        assert r[k] == t[k] || r[k] == t[n - 1] || r[k] == t[n] == s[n];
      }
    }
  }

  /** A comparison with an element that already belongs after all the others changes nothing. */
  lemma LastComparisonIdle<T(!new)>(cmp: Order<T>, s: seq<T>, n: nat)
    requires TotalPreorder(cmp) && 0 < n < |s| && forall j :: 0 <= j < n ==> Leq(cmp, s[j], s[n])
    ensures Pass(cmp, s, n) == Pass(cmp, s, n - 1)
  {
    PassCarriesMaximum(cmp, s, n - 1);
    var t := Pass(cmp, s, n - 1);
    assert t[n] == t[n..][0] == s[n..][0] == s[n];
  }

  lemma PassExtendsSorted<T(!new)>(cmp: Order<T>, s: seq<T>, n: nat)
    requires TotalPreorder(cmp) && n < |s| && SortedFrom(cmp, s, n + 1)
    ensures SortedFrom(cmp, Pass(cmp, s, n), n)
  {
    PassCarriesMaximum(cmp, s, n);
    var r := Pass(cmp, s, n);
    forall j, k | 0 <= j < k < |r| && n <= k ensures Leq(cmp, r[j], r[k]) {
      if k > n {
        assert r[k] == r[n + 1..][k - (n + 1)] == s[k];
        if j > n {
          assert r[j] == r[n + 1..][j - (n + 1)] == s[j];
        } else {
          var i :| 0 <= i <= n && r[j] == s[i];
        }
      }
    }
  }

  lemma {:induction false} PassesSort<T(!new)>(cmp: Order<T>, s: seq<T>, i: nat)
    requires TotalPreorder(cmp) && i <= |s|
    ensures SortedFrom(cmp, Passes(cmp, s, i), |s| - i)
  {
    if i > 0 {
      PassesSort(cmp, s, i - 1);
      var t, n := Passes(cmp, s, i - 1), |s| - i;
      if i > 1 {
        LastComparisonIdle(cmp, t, n + 1);
      }
      PassExtendsSorted(cmp, t, n);
    }
  }

  /** With any comparator that is a total preorder the result is sorted. */
  lemma {:induction false} SortSorts<T(!new)>(cmp: Order<T>, s: seq<T>)
    requires TotalPreorder(cmp)
    ensures Sorted(cmp, Sort(cmp, s))
  {
    PassesSort(cmp, s, |s|);
  }

  /** The elements equivalent to x, in the order in which they stand. */
  function Class<T>(cmp: Order<T>, x: T, s: seq<T>): seq<T>
    decreases |s|
  {
    if s == [] then []
    else
      var last := s[|s| - 1];
      Class(cmp, x, s[..|s| - 1]) + if Equivalent(cmp, x, last) then [last] else []
  }

  lemma {:induction false} ClassConcat<T>(cmp: Order<T>, x: T, s: seq<T>, t: seq<T>)
    ensures Class(cmp, x, s + t) == Class(cmp, x, s) + Class(cmp, x, t)
    decreases |t|
  {
    if t == [] {
      assert s + t == s;
    } else {
      ClassConcat(cmp, x, s, t[..|t| - 1]);
      assert (s + t)[..|s + t| - 1] == s + t[..|t| - 1];
    }
  }

  lemma ClassOne<T>(cmp: Order<T>, x: T, a: T)
    ensures Class(cmp, x, [a]) == if Equivalent(cmp, x, a) then [a] else []
  {
    assert [a][..0] == [];
  }

  /** Two elements not both equivalent to x may change places. */
  lemma ClassSwap<T>(cmp: Order<T>, x: T, front: seq<T>, a: T, b: T, back: seq<T>)
    requires !(Equivalent(cmp, x, a) && Equivalent(cmp, x, b))
    ensures Class(cmp, x, front + [a] + [b] + back) == Class(cmp, x, front + [b] + [a] + back)
  {
    hide Class;
    ClassConcat(cmp, x, front + [a] + [b], back);
    ClassConcat(cmp, x, front + [a], [b]);
    ClassConcat(cmp, x, front, [a]);
    ClassConcat(cmp, x, front + [b] + [a], back);
    ClassConcat(cmp, x, front + [b], [a]);
    ClassConcat(cmp, x, front, [b]);
    ClassOne(cmp, x, a);
    ClassOne(cmp, x, b);
  }

  lemma StrictlyOrdered<T(!new)>(cmp: Order<T>, x: T, a: T, b: T)
    requires TotalPreorder(cmp) && cmp(a, b) > 0
    ensures !(Equivalent(cmp, x, a) && Equivalent(cmp, x, b))
  {
    assert !Leq(cmp, a, b);
  }

  lemma ExchangeSplit<T>(cmp: Order<T>, s: seq<T>, j: nat)
    requires j + 1 < |s| && cmp(s[j], s[j + 1]) > 0
    ensures s == s[..j] + [s[j]] + [s[j + 1]] + s[j + 2..]
    ensures Exchange(cmp, s, j) == s[..j] + [s[j + 1]] + [s[j]] + s[j + 2..]
  {}

  lemma SwapMultiset<T>(front: seq<T>, a: T, b: T, back: seq<T>)
    ensures multiset(front + [a] + [b] + back) == multiset(front + [b] + [a] + back)
  {}

  lemma ExchangeKeeps<T(!new)>(cmp: Order<T>, x: T, s: seq<T>, j: nat)
    requires TotalPreorder(cmp) && j + 1 < |s|
    ensures Class(cmp, x, Exchange(cmp, s, j)) == Class(cmp, x, s)
    ensures multiset(Exchange(cmp, s, j)) == multiset(s)
  {
    hide Class, TotalPreorder;
    if cmp(s[j], s[j + 1]) > 0 {
      ExchangeSplit(cmp, s, j);
      StrictlyOrdered(cmp, x, s[j], s[j + 1]);
      ClassSwap(cmp, x, s[..j], s[j], s[j + 1], s[j + 2..]);
      SwapMultiset(s[..j], s[j], s[j + 1], s[j + 2..]);
    }
  }

  lemma {:induction false} PassKeeps<T(!new)>(cmp: Order<T>, x: T, s: seq<T>, n: nat)
    requires TotalPreorder(cmp) && (n == 0 || n < |s|)
    ensures Class(cmp, x, Pass(cmp, s, n)) == Class(cmp, x, s) && multiset(Pass(cmp, s, n)) == multiset(s)
  {
    if n > 0 {
      PassKeeps(cmp, x, s, n - 1);
      ExchangeKeeps(cmp, x, Pass(cmp, s, n - 1), n - 1);
    }
  }

  /** The result is a permutation, and a stable one: equivalent elements stand in their old order. */
  lemma {:induction false} SortStable<T(!new)>(cmp: Order<T>, x: T, s: seq<T>, i: nat)
    requires TotalPreorder(cmp) && i <= |s|
    ensures Class(cmp, x, Passes(cmp, s, i)) == Class(cmp, x, s) && multiset(Passes(cmp, s, i)) == multiset(s)
  {
    if i > 0 {
      SortStable(cmp, x, s, i - 1);
      PassKeeps(cmp, x, Passes(cmp, s, i - 1), Comparisons(|s|, i - 1));
    }
  }
}
