/** Binary max-heap stored 1-indexed in a growable vector whose slot 0 holds an
    unused sentinel: the parent of slot `k` is slot `k / 2`. */
module Heap {
  import opened Lib

  /** Every slot from 2 on is at most its parent, except possibly slot `i`. */
  ghost predicate OrderedExcept(s: seq<int>, i: int) {
    forall k :: 2 <= k < |s| && k != i ==> s[k] <= s[k / 2]
  }

  /** Every slot from 2 on is at most its parent, except possibly the
      children of slot `i`. */
  ghost predicate OrderedBelowExcept(s: seq<int>, i: int) {
    forall k :: 2 <= k < |s| && k / 2 != i ==> s[k] <= s[k / 2]
  }

  /** Heap order: every slot from 2 on is at most its parent. */
  ghost predicate HeapOrdered(s: seq<int>) {
    forall k :: 2 <= k < |s| ==> s[k] <= s[k / 2]
  }

  /** The children of slot `i` are at most the parent of `i`, so `i` may trade
      places with its parent without breaking the order below it. */
  ghost predicate ChildrenUnderGrandparent(s: seq<int>, i: int) {
    i >= 2 ==> forall k :: 2 <= k < |s| && k / 2 == i ==> s[k] <= s[i / 2]
  }

  /** In a heap-ordered vector the first slot holds a largest element. */
  lemma {:induction false} RootIsMax(s: seq<int>, k: int)
    requires HeapOrdered(s) && 1 <= k < |s|
    ensures s[k] <= s[1]
    decreases k
  {
    if k > 1 {
      RootIsMax(s, k / 2);
    }
  }

  /** Swapping two slots past the sentinel keeps the sentinel and the
      elements. */
  lemma SwapKeepsElements(s: seq<int>, i: int, j: int)
    requires 1 <= i < |s| && 1 <= j < |s|
    ensures s[i := s[j]][j := s[i]][0] == s[0]
    ensures multiset(s[i := s[j]][j := s[i]][1..]) == multiset(s[1..])
  {
    var u := s[1..];
    assert s[i := s[j]][j := s[i]][1..] == u[i - 1 := u[j - 1]][j - 1 := u[i - 1]];
    SwapMultiset(u, i - 1, j - 1);
  }

  lemma SwapMultiset(u: seq<int>, a: int, b: int)
    requires 0 <= a < |u| && 0 <= b < |u|
    ensures multiset(u[a := u[b]][b := u[a]]) == multiset(u)
  {
  }

  /** The state of `bubble` at slot `i`, started from `v0`: only `i` may be
      above its parent, its children are not above its parent, and the
      elements are those of `v0`. */
  ghost predicate BubbleState(v: seq<int>, v0: seq<int>, i: int) {
    1 <= i < |v| && |v| == |v0| && v[0] == v0[0]
    && OrderedExcept(v, i) && ChildrenUnderGrandparent(v, i)
    && multiset(v[1..]) == multiset(v0[1..])
  }

  /** Swapping slot `i` with its smaller parent moves the possible violation
      up to the parent. */
  lemma BubbleStep(v: seq<int>, v0: seq<int>, i: int)
    requires BubbleState(v, v0, i) && i / 2 > 0 && v[i] > v[i / 2]
    ensures BubbleState(v[i := v[i / 2]][i / 2 := v[i]], v0, i / 2)
  {
    var p := i / 2;
    var t := v[i := v[p]][p := v[i]];
    SwapKeepsElements(v, i, p);
    forall k | 2 <= k < |t| && k != p ensures t[k] <= t[k / 2] {
      if k == i {
      } else if k / 2 == i {
        assert t[k / 2] == v[p];
      } else if k / 2 == p {
        assert t[k / 2] == v[i];
      }
    }
    forall k | p >= 2 && 2 <= k < |t| && k / 2 == p ensures t[k] <= t[p / 2] {
      if k != i {
        assert v[k] <= v[p] && v[p] <= v[p / 2];
      }
    }
  }

  /** `bubble` stops at the first slot or below a parent that is not smaller:
      then the order is whole. */
  lemma BubbleStops(v: seq<int>, v0: seq<int>, i: int)
    requires BubbleState(v, v0, i) && !(i / 2 > 0 && v[i] > v[i / 2])
    ensures HeapOrdered(v) && |v| >= 1
  {
  }

  /** The state of `sink` at slot `i`, started from `v0`: only the children
      of `i` may be above it, they are not above its parent, and the elements
      are those of `v0`. */
  ghost predicate SinkState(v: seq<int>, v0: seq<int>, i: int) {
    1 <= i && |v| == |v0| && |v| >= 1 && v[0] == v0[0]
    && OrderedBelowExcept(v, i) && ChildrenUnderGrandparent(v, i)
    && multiset(v[1..]) == multiset(v0[1..])
  }

  /** When a slot is at least its larger child `j`, the order is whole. */
  lemma SinkStops(v: seq<int>, v0: seq<int>, i: int, j: int)
    requires SinkState(v, v0, i) && i * 2 <= j <= i * 2 + 1 && j < |v|
    requires j == i * 2 + 1 || i * 2 + 1 >= |v| || v[i * 2 + 1] <= v[i * 2]
    requires j == i * 2 || v[i * 2] <= v[j]
    requires v[j] <= v[i]
    ensures HeapOrdered(v)
  {
    forall k | 2 <= k < |v| ensures v[k] <= v[k / 2] {
      if k / 2 == i {
        assert k == i * 2 || k == i * 2 + 1;
      }
    }
  }

  /** A slot with no children leaves nothing out of the order. */
  lemma ChildlessOrdered(v: seq<int>, v0: seq<int>, i: int)
    requires SinkState(v, v0, i) && i * 2 >= |v|
    ensures HeapOrdered(v)
  {
    forall k | 2 <= k < |v| ensures v[k] <= v[k / 2] {
      assert k / 2 != i;
    }
  }

  /** Swapping a slot with its larger child `j` moves the possible violation
      down to the children of `j`. */
  lemma SinkStep(v: seq<int>, v0: seq<int>, i: int, j: int)
    requires SinkState(v, v0, i) && i * 2 <= j <= i * 2 + 1 && j < |v|
    requires j == i * 2 + 1 || i * 2 + 1 >= |v| || v[i * 2 + 1] <= v[i * 2]
    requires j == i * 2 || v[i * 2] <= v[j]
    requires v[i] < v[j]
    ensures SinkState(v[i := v[j]][j := v[i]], v0, j)
  {
    var t := v[i := v[j]][j := v[i]];
    SwapKeepsElements(v, i, j);
    assert j / 2 == i;
    forall k | 2 <= k < |t| && k / 2 != j ensures t[k] <= t[k / 2] {
      if k == j {
      } else if k == i {
        assert t[k / 2] == v[k / 2];
      } else if k / 2 == i {
        assert k == i * 2 || k == i * 2 + 1;
      }
    }
  }

  /** `BinaryHeap`: the vector with its sentinel. */
  class BinaryHeap {
    var v: seq<int>

    ghost predicate Valid()
      reads this
    {
      |v| >= 1 && HeapOrdered(v)
    }

    /** The elements held, the sentinel excluded. */
    ghost function Elements(): multiset<int>
      reads this
      requires |v| >= 1
    {
      multiset(v[1..])
    }

    /** `new`: only the sentinel, standing for `T::default()`. */
    constructor ()
      ensures Valid() && v == [0] && Elements() == multiset{}
    {
      v := [0];
    }

    /** `size`: the vector length without the sentinel slot. */
    function Size(): (n: nat)
      reads this
      requires Valid()
      ensures n == |Elements()|
      ensures n == 0 <==> Elements() == multiset{}
    {
      |v| - 1
    }

    /** `push`: append and move the new element up. */
    method Push(t: int)
      requires Valid()
      modifies this
      ensures Valid()
      ensures Elements() == old(Elements()) + multiset{t}
      ensures Size() == old(Size()) + 1
    {
      assert (v + [t])[1..] == v[1..] + [t];
      v := v + [t];
      Bubble(|v| - 1);
    }

    /** `bubble`: swap slot `i` with its parent while it is larger, walking up
        the ancestor path until the first slot. */
    method Bubble(i0: int)
      requires 1 <= i0 < |v|
      requires OrderedExcept(v, i0) && ChildrenUnderGrandparent(v, i0)
      modifies this
      ensures Valid()
      ensures |v| == old(|v|) && v[0] == old(v[0])
      ensures multiset(v[1..]) == old(multiset(v[1..]))
    {
      ghost var v0 := v;
      var i := i0;
      while i / 2 > 0 && v[i] > v[i / 2]
        invariant BubbleState(v, v0, i)
        decreases i
      {
        BubbleStep(v, v0, i);
        v := v[i := v[i / 2]][i / 2 := v[i]];
        i := i / 2;
      }
      BubbleStops(v, v0, i);
    }

    /** `remove_max`: a caller must not ask an empty heap. The first slot is
        swapped with the last, the last removed and returned, and the new first
        element moved down. */
    method RemoveMax() returns (t: int)
      requires Valid() && Size() > 0
      modifies this
      ensures Valid()
      ensures t in old(Elements())
      ensures forall x :: x in old(Elements()) ==> x <= t
      ensures Elements() == old(Elements()) - multiset{t}
      ensures Size() == old(Size()) - 1
    {
      forall x | x in multiset(v[1..]) ensures x <= v[1] {
        var k :| 1 <= k < |v| && v[k] == x;
        RootIsMax(v, k);
      }
      var last := |v| - 1;
      SwapKeepsElements(v, 1, last);
      v := v[1 := v[last]][last := v[1]];
      t := v[last];
      assert v[1..] == v[1..last] + [t];
      v := v[..last];
      assert OrderedBelowExcept(v, 1);
      Sink(1);
    }

    /** `sink`: while slot `i` has a child, swap it with its larger child if
        that child is larger, walking down until it is not. */
    method Sink(i0: int)
      requires 1 <= i0 && |v| >= 1
      requires OrderedBelowExcept(v, i0) && ChildrenUnderGrandparent(v, i0)
      modifies this
      ensures Valid()
      ensures |v| == old(|v|) && v[0] == old(v[0])
      ensures multiset(v[1..]) == old(multiset(v[1..]))
    {
      ghost var v0 := v;
      var i := i0;
      while i * 2 < |v|
        invariant SinkState(v, v0, i)
        decreases |v| - i
      {
        var j := i * 2;
        if j + 1 < |v| && v[j + 1] > v[j] {
          j := j + 1;
        }
        if v[i] >= v[j] {
          SinkStops(v, v0, i, j);
          return;
        }
        SinkStep(v, v0, i, j);
        v := v[i := v[j]][j := v[i]];
        i := j;
      }
      ChildlessOrdered(v, v0, i);
    }
  }

  /** Push every element, take out the maximum as many times, and reverse:
      the result is `list` in ascending order. */
  method HeapSort(list: seq<int>) returns (sorted: seq<int>)
    ensures Sorted(sorted)
    ensures multiset(sorted) == multiset(list)
  {
    var h := new BinaryHeap();
    for i := 0 to |list|
      invariant h.Valid() && h.Elements() == multiset(list[..i])
    {
      assert list[..i + 1] == list[..i] + [list[i]];
      h.Push(list[i]);
    }
    assert list[..|list|] == list;
    var taken: seq<int> := [];
    for n := 0 to |list|
      invariant h.Valid() && h.Size() == |list| - n
      invariant Drained(taken, h.Elements(), multiset(list))
    {
      ghost var rest := h.Elements();
      var t := h.RemoveMax();
      DrainNext(taken, rest, t, multiset(list));
      taken := taken + [t];
    }
    DescendingReversed(taken);
    sorted := Reverse(taken);
  }

  /** The maxima taken so far, largest first, with `rest` still in the heap:
      together they are `all`, and every taken element is at least every
      later one and every one left. */
  ghost predicate Drained(taken: seq<int>, rest: multiset<int>, all: multiset<int>) {
    && multiset(taken) + rest == all
    && (forall a, b :: 0 <= a < b < |taken| ==> taken[b] <= taken[a])
    && (forall a, x :: 0 <= a < |taken| && x in rest ==> x <= taken[a])
  }

  lemma DrainNext(taken: seq<int>, rest: multiset<int>, t: int, all: multiset<int>)
    requires Drained(taken, rest, all)
    requires t in rest && forall x :: x in rest ==> x <= t
    ensures Drained(taken + [t], rest - multiset{t}, all)
  {
    var u := taken + [t];
    assert multiset(u) == multiset(taken) + multiset{t};
    forall a, b | 0 <= a < b < |u| ensures u[b] <= u[a] {
      if b < |taken| {
        assert u[a] == taken[a] && u[b] == taken[b];
      } else {
        assert u[a] == taken[a];
      }
    }
    forall a, x | 0 <= a < |u| && x in rest - multiset{t} ensures x <= u[a] {
      if a < |taken| {
        assert u[a] == taken[a];
      }
    }
  }

  /** A sequence that never rises, read back to front, is sorted. */
  lemma DescendingReversed(s: seq<int>)
    requires forall a, b :: 0 <= a < b < |s| ==> s[b] <= s[a]
    ensures Sorted(Reverse(s))
  {
    var r := Reverse(s);
    forall i, j | 0 <= i < j < |r| ensures r[i] <= r[j] {
      assert r[i] == s[|s| - 1 - i] && r[j] == s[|s| - 1 - j];
    }
  }

  /** `reverse`: the same elements back to front. */
  function Reverse(s: seq<int>): (r: seq<int>)
    ensures |r| == |s| && multiset(r) == multiset(s)
    ensures forall i :: 0 <= i < |s| ==> r[i] == s[|s| - 1 - i]
  {
    if s == [] then [] else
      var r := Reverse(s[1..]) + [s[0]];
      assert s == [s[0]] + s[1..];
      r
  }
}
