/** Bottom-up merge sort: runs of doubling length merged through an auxiliary
    buffer. */
module MergeSorting {

  /** An element of the slice. The order sees only `key`; the `payload` lets
      elements the order cannot tell apart still differ, which is what
      stability is about. */
  datatype Item<T> = Item(key: int, payload: T)

  function Min(a: int, b: int): (r: int)
    ensures r <= a && r <= b && (r == a || r == b)
  {
    if a <= b then a else b
  }

  /** `s` is non-decreasing by key. */
  ghost predicate SortedBy<T>(s: seq<Item<T>>) {
    forall i, j :: 0 <= i < j < |s| ==> s[i].key <= s[j].key
  }

  // ---------------------------------------------------------------------------
  // The merge of two runs, as a function on sequences

  /** The two-pointer merge: the smaller head goes first, the left head when
      the two keys are equal. */
  ghost function MergeSeq<T>(a: seq<Item<T>>, b: seq<Item<T>>): seq<Item<T>>
    decreases |a| + |b|
  {
    if |a| == 0 then b
    else if |b| == 0 then a
    else if a[0].key <= b[0].key then [a[0]] + MergeSeq(a[1..], b)
    else [b[0]] + MergeSeq(a, b[1..])
  }

  /** The merge holds exactly the elements of both runs. */
  lemma {:induction false} MergeSeqElements<T>(a: seq<Item<T>>, b: seq<Item<T>>)
    ensures multiset(MergeSeq(a, b)) == multiset(a) + multiset(b)
    ensures |MergeSeq(a, b)| == |a| + |b|
    decreases |a| + |b|
  {
    if |a| == 0 || |b| == 0 {
    } else if a[0].key <= b[0].key {
      MergeSeqElements(a[1..], b);
      MergeHeadLeft(a, b);
      MultisetCons(a[0], MergeSeq(a[1..], b));
      MultisetHead(a);
    } else {
      MergeSeqElements(a, b[1..]);
      MergeHeadRight(a, b);
      MultisetCons(b[0], MergeSeq(a, b[1..]));
      MultisetHead(b);
    }
  }

  lemma MultisetCons<T>(x: T, s: seq<T>)
    ensures multiset([x] + s) == multiset{x} + multiset(s)
  {
  }

  lemma MultisetHead<T>(s: seq<T>)
    requires |s| > 0
    ensures multiset(s) == multiset{s[0]} + multiset(s[1..])
  {
    assert s == [s[0]] + s[1..];
  }

  /** Every element of merged runs is at least `x` when every element of
      both runs is. */
  lemma MergeSeqBounded<T>(a: seq<Item<T>>, b: seq<Item<T>>, x: int)
    requires forall i :: 0 <= i < |a| ==> x <= a[i].key
    requires forall i :: 0 <= i < |b| ==> x <= b[i].key
    ensures forall i :: 0 <= i < |MergeSeq(a, b)| ==> x <= MergeSeq(a, b)[i].key
  {
    var m := MergeSeq(a, b);
    MergeSeqElements(a, b);
    forall i | 0 <= i < |m| ensures x <= m[i].key {
      assert m[i] in multiset(m);
      assert m[i] in multiset(a) || m[i] in multiset(b);
    }
  }

  /** Merging two sorted runs gives a sorted run. */
  lemma {:induction false} MergeSeqSorted<T>(a: seq<Item<T>>, b: seq<Item<T>>)
    requires SortedBy(a) && SortedBy(b)
    ensures SortedBy(MergeSeq(a, b))
    decreases |a| + |b|
  {
    if |a| == 0 || |b| == 0 {
    } else if a[0].key <= b[0].key {
      MergeSeqSorted(a[1..], b);
      MergeSeqBounded(a[1..], b, a[0].key);
      SortedCons(a[0], MergeSeq(a[1..], b));
    } else {
      MergeSeqSorted(a, b[1..]);
      MergeSeqBounded(a, b[1..], b[0].key);
      SortedCons(b[0], MergeSeq(a, b[1..]));
    }
  }

  lemma SortedCons<T>(x: Item<T>, s: seq<Item<T>>)
    requires SortedBy(s)
    requires forall i :: 0 <= i < |s| ==> x.key <= s[i].key
    ensures SortedBy([x] + s)
  {
    var t := [x] + s;
    forall i, j | 0 <= i < j < |t| ensures t[i].key <= t[j].key {
      assert t[j] == s[j - 1];
      if i > 0 {
        assert t[i] == s[i - 1];
      }
    }
  }

  /** The elements of `s` whose key is `v`, in their order in `s`. */
  ghost function WithKey<T>(s: seq<Item<T>>, v: int): seq<Item<T>> {
    if |s| == 0 then []
    else (if s[0].key == v then [s[0]] else []) + WithKey(s[1..], v)
  }

  /** No element of a run whose keys all exceed `v` has key `v`. */
  lemma {:induction false} WithKeyNone<T>(s: seq<Item<T>>, v: int)
    requires forall i :: 0 <= i < |s| ==> v < s[i].key
    ensures WithKey(s, v) == []
  {
    if |s| > 0 {
      WithKeyNone(s[1..], v);
    }
  }

  lemma WithKeyHead<T>(s: seq<Item<T>>, v: int)
    requires |s| > 0
    ensures WithKey(s, v) == (if s[0].key == v then [s[0]] else []) + WithKey(s[1..], v)
  {
  }

  lemma WithKeyCons<T>(x: Item<T>, s: seq<Item<T>>, v: int)
    ensures WithKey([x] + s, v) == (if x.key == v then [x] else []) + WithKey(s, v)
  {
    assert ([x] + s)[1..] == s;
  }

  /** Stability: for every key, the elements with that key leave the merge in
      the order they had, those of the left run first. */
  lemma {:induction false} MergeSeqStable<T>(a: seq<Item<T>>, b: seq<Item<T>>, v: int)
    requires SortedBy(a)
    ensures WithKey(MergeSeq(a, b), v) == WithKey(a, v) + WithKey(b, v)
    decreases |a| + |b|
  {
    if |a| == 0 {
    } else if |b| == 0 {
    } else if a[0].key <= b[0].key {
      MergeSeqStable(a[1..], b, v);
      MergeTakesLeft(a, b, v);
    } else {
      MergeSeqStable(a, b[1..], v);
      if b[0].key == v {
        SortedAbove(a, v);
        WithKeyNone(a, v);
      }
      MergeTakesRight(a, b, v);
    }
  }

  lemma MergeTakesLeft<T>(a: seq<Item<T>>, b: seq<Item<T>>, v: int)
    requires |a| > 0 && |b| > 0 && a[0].key <= b[0].key
    requires WithKey(MergeSeq(a[1..], b), v) == WithKey(a[1..], v) + WithKey(b, v)
    ensures WithKey(MergeSeq(a, b), v) == WithKey(a, v) + WithKey(b, v)
  {
    WithKeyCons(a[0], MergeSeq(a[1..], b), v);
  }

  lemma MergeTakesRight<T>(a: seq<Item<T>>, b: seq<Item<T>>, v: int)
    requires |a| > 0 && |b| > 0 && a[0].key > b[0].key
    requires b[0].key == v ==> WithKey(a, v) == []
    requires WithKey(MergeSeq(a, b[1..]), v) == WithKey(a, v) + WithKey(b[1..], v)
    ensures WithKey(MergeSeq(a, b), v) == WithKey(a, v) + WithKey(b, v)
  {
    MergeHeadRight(a, b);
    WithKeyCons(b[0], MergeSeq(a, b[1..]), v);
    WithKeyHead(b, v);
  }

  /** Every key of a sorted run exceeds `v` when its first key does. */
  lemma SortedAbove<T>(a: seq<Item<T>>, v: int)
    requires |a| > 0 && SortedBy(a) && v < a[0].key
    ensures forall i :: 0 <= i < |a| ==> v < a[i].key
  {
    forall i | 0 <= i < |a| ensures v < a[i].key {
      if i > 0 {
        assert a[0].key <= a[i].key;
      }
    }
  }

  // ---------------------------------------------------------------------------
  // `merge` on the slice

  /** The loop of `merge` at cursors `j` and `k` takes the head of the left
      run: that run, which ends at `mid`, is not used up, and the right run,
      which ends at `hi`, is used up or its head is not smaller. */
  ghost predicate TakesLeft<T>(x: seq<Item<T>>, mid: int, hi: int, j: int, k: int) {
    j < mid && (k >= hi || (0 <= j < |x| && 0 <= k < |x| && x[j].key <= x[k].key))
  }

  /** The cursors `(j, k)` of the loop of `merge` on `x` after `n` steps,
      starting from `(lo, mid)`. */
  ghost function Cursor<T>(x: seq<Item<T>>, lo: int, mid: int, hi: int, n: nat): (int, int) {
    if n == 0 then (lo, mid)
    else
      var c := Cursor(x, lo, mid, hi, n - 1);
      if TakesLeft(x, mid, hi, c.0, c.1) then (c.0 + 1, c.1) else (c.0, c.1 + 1)
  }

  /** Within the `hi - lo` steps of the loop, each cursor stays in its run:
      when the left run reaches past `hi` only the left cursor moves. */
  lemma {:induction false} CursorBounds<T>(x: seq<Item<T>>, lo: int, mid: int, hi: int, n: nat)
    requires 0 <= lo <= mid && lo <= hi <= |x| && n <= hi - lo
    ensures var c := Cursor(x, lo, mid, hi, n);
      lo <= c.0 <= mid && c.0 <= hi && mid <= c.1
      && (mid <= hi ==> c.1 <= hi && (c.0 - lo) + (c.1 - mid) == n)
      && (mid > hi ==> c.1 == mid && c.0 - lo == n)
  {
    if n > 0 {
      CursorBounds(x, lo, mid, hi, n - 1);
    }
  }

  /** The element the loop of `merge` on `x` writes at step `n`. */
  ghost function Taken<T>(x: seq<Item<T>>, lo: int, mid: int, hi: int, n: nat): Item<T>
    requires 0 <= lo <= mid && lo <= hi <= |x| && n < hi - lo
  {
    CursorBounds(x, lo, mid, hi, n);
    var c := Cursor(x, lo, mid, hi, n);
    if TakesLeft(x, mid, hi, c.0, c.1) then x[c.0] else x[c.1]
  }

  /** The elements the loop of `merge` on `x` writes from step `n` on. */
  ghost function TakenFrom<T>(x: seq<Item<T>>, lo: int, mid: int, hi: int, n: nat): (r: seq<Item<T>>)
    requires 0 <= lo <= mid && lo <= hi <= |x| && n <= hi - lo
    ensures |r| == hi - lo - n
    decreases hi - lo - n
  {
    if n == hi - lo then [] else [Taken(x, lo, mid, hi, n)] + TakenFrom(x, lo, mid, hi, n + 1)
  }

  lemma {:induction false} TakenFromAt<T>(x: seq<Item<T>>, lo: int, mid: int, hi: int, n: nat, t: int)
    requires 0 <= lo <= mid && lo <= hi <= |x| && 0 <= t < hi - lo - n
    ensures TakenFrom(x, lo, mid, hi, n)[t] == Taken(x, lo, mid, hi, n + t)
    decreases t
  {
    if t > 0 {
      TakenFromAt(x, lo, mid, hi, n + 1, t - 1);
    }
  }

  /** What the loop of `merge` writes from step `n` on is the merge of what
      is left of the runs `x[lo..mid]` and `x[mid..hi]`, both clipped at `hi`. */
  lemma {:induction false} TakenFromMerges<T>(x: seq<Item<T>>, lo: int, mid: int, hi: int, n: nat, j: int, k: int)
    requires 0 <= lo <= mid && lo <= hi <= |x| && n <= hi - lo
    requires Cursor(x, lo, mid, hi, n) == (j, k) && lo <= j <= Min(mid, hi) && mid <= k
    ensures TakenFrom(x, lo, mid, hi, n) == MergeSeq(x[j..Min(mid, hi)], x[Min(k, hi)..hi])
    decreases hi - lo - n
  {
    var m, kh := Min(mid, hi), Min(k, hi);
    CursorBounds(x, lo, mid, hi, n);
    if n < hi - lo {
      TakenStep(x, lo, mid, hi, n, j, k);
      var left, right := x[j..m], x[kh..hi];
      if TakesLeft(x, mid, hi, j, k) {
        TakenFromMerges(x, lo, mid, hi, n + 1, j + 1, k);
        assert left[0] == x[j] && left[1..] == x[j + 1..m];
        assert |right| > 0 ==> right[0] == x[k];
        MergeHeadLeft(left, right);
        assert TakenFrom(x, lo, mid, hi, n) == MergeSeq(left, right);
      } else {
        TakenFromMerges(x, lo, mid, hi, n + 1, j, k + 1);
        assert right[0] == x[k] && right[1..] == x[k + 1..hi];
        assert |left| > 0 ==> left[0] == x[j];
        assert Min(k + 1, hi) == k + 1;
        MergeHeadRight(left, right);
        assert TakenFrom(x, lo, mid, hi, n) == MergeSeq(left, right);
      }
    } else {
      assert TakenFrom(x, lo, mid, hi, n) == [];
      assert j == m && kh == hi;
    }
  }

  /** One step of the loop of `merge`: what it writes, and where the cursors
      go. */
  lemma TakenStep<T>(x: seq<Item<T>>, lo: int, mid: int, hi: int, n: nat, j: int, k: int)
    requires 0 <= lo <= mid && lo <= hi <= |x| && n < hi - lo
    requires Cursor(x, lo, mid, hi, n) == (j, k)
    ensures 0 <= j < |x| && 0 <= k
    ensures TakesLeft(x, mid, hi, j, k) ==>
      (Cursor(x, lo, mid, hi, n + 1) == (j + 1, k)
       && TakenFrom(x, lo, mid, hi, n) == [x[j]] + TakenFrom(x, lo, mid, hi, n + 1))
    ensures !TakesLeft(x, mid, hi, j, k) ==>
      (k < |x| && Cursor(x, lo, mid, hi, n + 1) == (j, k + 1)
       && TakenFrom(x, lo, mid, hi, n) == [x[k]] + TakenFrom(x, lo, mid, hi, n + 1))
  {
    CursorBounds(x, lo, mid, hi, n);
  }

  /** The merge starts with the left head when the right run is empty or its
      head is not smaller. */
  lemma MergeHeadLeft<T>(a: seq<Item<T>>, b: seq<Item<T>>)
    requires |a| > 0 && (|b| == 0 || a[0].key <= b[0].key)
    ensures MergeSeq(a, b) == [a[0]] + MergeSeq(a[1..], b)
  {
    if |b| == 0 {
      assert MergeSeq(a[1..], b) == a[1..];
      assert a == [a[0]] + a[1..];
    }
  }

  /** The merge starts with the right head when the left run is empty or its
      head is larger. */
  lemma MergeHeadRight<T>(a: seq<Item<T>>, b: seq<Item<T>>)
    requires |b| > 0 && (|a| == 0 || a[0].key > b[0].key)
    ensures MergeSeq(a, b) == [b[0]] + MergeSeq(a, b[1..])
  {
    if |a| == 0 {
      assert b == [b[0]] + b[1..];
    }
  }

  /** A sequence that agrees with `input` outside `[lo, hi)` and with `mid`
      inside it is `mid` spliced into `input`. */
  lemma Spliced<T>(s: seq<T>, input: seq<T>, mid: seq<T>, lo: int, hi: int)
    requires 0 <= lo <= hi <= |s| == |input| && |mid| == hi - lo
    requires forall t :: 0 <= t < lo || hi <= t < |s| ==> s[t] == input[t]
    requires forall t :: lo <= t < hi ==> s[t] == mid[t - lo]
    ensures s == input[..lo] + mid + input[hi..]
  {
    var r := input[..lo] + mid + input[hi..];
    assert |r| == |s|;
    forall t | 0 <= t < |s| ensures s[t] == r[t] {
      if t < lo {
      } else if t < hi {
        assert r[t] == mid[t - lo];
      } else {
        assert r[t] == input[t];
      }
    }
  }

  /** `after` is `before` with the runs `[lo, mid)` and `[mid, hi)`, both
      clipped at `hi`, merged in place. */
  ghost function MergedAt<T>(before: seq<Item<T>>, lo: int, mid: int, hi: int): seq<Item<T>>
    requires 0 <= lo <= mid && lo <= hi <= |before|
  {
    before[..lo] + MergeSeq(before[lo..Min(mid, hi)], before[Min(mid, hi)..hi]) + before[hi..]
  }

  /** `merge`: copy `l[lo..hi]` into `aux`, then refill `l[lo..hi]` from the
      two runs `aux[lo..mid]` and `aux[mid..hi]`, the left one first on equal
      keys. A `mid` at or beyond `hi` leaves no right run: the segment is
      copied back as it was. */
  method Merge<T>(l: array<Item<T>>, aux: array<Item<T>>, lo: int, mid: int, hi: int)
    requires l != aux && aux.Length == l.Length
    requires 0 <= lo <= mid && lo <= hi <= l.Length
    modifies l, aux
    ensures l[..] == MergedAt(old(l[..]), lo, mid, hi)
  {
    CopyToAux(l, aux, lo, hi);
    ghost var m := Min(mid, hi);
    Middle(aux[..], old(aux[..lo]), old(l[lo..hi]), old(aux[hi..]), lo, m, hi);
    assert old(l[lo..hi])[..m - lo] == old(l[lo..m]) && old(l[lo..hi])[m - lo..] == old(l[m..hi]);
    MergeFromAux(l, aux, lo, mid, hi);
  }

  /** The two parts of the middle piece of `a + b + c`. */
  lemma Middle<T>(s: seq<T>, a: seq<T>, b: seq<T>, c: seq<T>, lo: int, m: int, hi: int)
    requires s == a + b + c && |a| == lo && |b| == hi - lo && lo <= m <= hi
    ensures s[lo..m] == b[..m - lo] && s[m..hi] == b[m - lo..]
  {
  }

  /** The copy `aux[lo..hi] = l[lo..hi]` that opens `merge`. */
  method CopyToAux<T>(l: array<Item<T>>, aux: array<Item<T>>, lo: int, hi: int)
    requires l != aux && aux.Length == l.Length && 0 <= lo <= hi <= l.Length
    modifies aux
    ensures aux[..] == old(aux[..lo]) + l[lo..hi] + old(aux[hi..])
  {
    forall t | lo <= t < hi {
      aux[t] := l[t];
    }
    Spliced(aux[..], old(aux[..]), l[lo..hi], lo, hi);
  }

  /** `s` is `s0` with the first `i - lo` elements the loop of `merge` on `x`
      writes put in from `lo` on. */
  ghost predicate Filled<T>(s: seq<Item<T>>, s0: seq<Item<T>>, x: seq<Item<T>>, lo: int, mid: int, hi: int, i: int) {
    0 <= lo <= mid && lo <= i <= hi <= |x| && |s| == |s0| && hi <= |s|
    && (forall t :: lo <= t < i ==> s[t] == Taken(x, lo, mid, hi, t - lo))
    && (forall t :: 0 <= t < lo || i <= t < |s| ==> s[t] == s0[t])
  }

  /** The loop of `merge` on `x` has made `i - lo` steps, is at cursors
      `(j, k)`, and has turned `s0` into `s`. */
  ghost predicate Placed<T>(s: seq<Item<T>>, s0: seq<Item<T>>, x: seq<Item<T>>, lo: int, mid: int, hi: int, i: int, j: int, k: int) {
    Filled(s, s0, x, lo, mid, hi, i) && Cursor(x, lo, mid, hi, i - lo) == (j, k)
  }

  lemma FillNext<T>(s: seq<Item<T>>, s0: seq<Item<T>>, x: seq<Item<T>>, lo: int, mid: int, hi: int, i: int, v: Item<T>)
    requires Filled(s, s0, x, lo, mid, hi, i) && i < hi && v == Taken(x, lo, mid, hi, i - lo)
    ensures Filled(s[i := v], s0, x, lo, mid, hi, i + 1)
  {
  }

  /** One step of the loop of `merge`: the head it reads lies in the segment
      `[lo, hi)` copied to the buffer, and writing it at `i` and moving its
      cursor keeps what was done so far. */
  lemma PlaceNext<T>(s: seq<Item<T>>, s0: seq<Item<T>>, x: seq<Item<T>>, lo: int, mid: int, hi: int, i: int, j: int, k: int)
    requires Placed(s, s0, x, lo, mid, hi, i, j, k) && i < hi
    ensures lo <= j <= mid && j <= hi && mid <= k
    ensures TakesLeft(x, mid, hi, j, k) ==> lo <= j < hi && j < |x| && Placed(s[i := x[j]], s0, x, lo, mid, hi, i + 1, j + 1, k)
    ensures !TakesLeft(x, mid, hi, j, k) ==> mid <= k < hi && k < |x| && Placed(s[i := x[k]], s0, x, lo, mid, hi, i + 1, j, k + 1)
  {
    CursorBounds(x, lo, mid, hi, i - lo);
    assert Cursor(x, lo, mid, hi, i - lo + 1) == if TakesLeft(x, mid, hi, j, k) then (j + 1, k) else (j, k + 1);
    FillNext(s, s0, x, lo, mid, hi, i, if TakesLeft(x, mid, hi, j, k) then x[j] else x[k]);
  }

  /** After `hi - lo` steps the segment `[lo, hi)` holds the merge of the two
      runs and the rest is as it was. */
  lemma PlacedAll<T>(s: seq<Item<T>>, s0: seq<Item<T>>, x: seq<Item<T>>, lo: int, mid: int, hi: int, j: int, k: int)
    requires Placed(s, s0, x, lo, mid, hi, hi, j, k)
    ensures s == s0[..lo] + MergeSeq(x[lo..Min(mid, hi)], x[Min(mid, hi)..hi]) + s0[hi..]
  {
    var whole := TakenFrom(x, lo, mid, hi, 0);
    TakenFromMerges(x, lo, mid, hi, 0, lo, mid);
    forall t | lo <= t < hi ensures s[t] == whole[t - lo] {
      TakenFromAt(x, lo, mid, hi, 0, t - lo);
    }
    Spliced(s, s0, whole, lo, hi);
  }

  /** The loop of `merge`: `j` walks the left run `aux[lo..mid]`, `k` the
      right run `aux[mid..hi]`, and `l[i]` receives the head taken. */
  method MergeFromAux<T>(l: array<Item<T>>, aux: array<Item<T>>, lo: int, mid: int, hi: int)
    requires l != aux && aux.Length == l.Length
    requires 0 <= lo <= mid && lo <= hi <= l.Length
    modifies l
    ensures l[..] == old(l[..lo]) + MergeSeq(aux[lo..Min(mid, hi)], aux[Min(mid, hi)..hi]) + old(l[hi..])
  {
    var j, k := lo, mid;
    ghost var x := aux[..];
    for i := lo to hi
      invariant Placed(l[..], old(l[..]), x, lo, mid, hi, i, j, k)
    {
      PlaceNext(l[..], old(l[..]), x, lo, mid, hi, i, j, k);
      if j >= mid {
        l[i] := aux[k];
        k := k + 1;
      } else if k >= hi {
        l[i] := aux[j];
        j := j + 1;
      } else if aux[j].key <= aux[k].key {
        l[i] := aux[j];
        j := j + 1;
      } else {
        l[i] := aux[k];
        k := k + 1;
      }
    }
    PlacedAll(l[..], old(l[..]), x, lo, mid, hi, j, k);
  }

  // ---------------------------------------------------------------------------
  // `merge_sort`

  /** Every block of `c` consecutive elements, counted from the front, is
      sorted; the last block may be shorter. */
  ghost predicate ChunksSorted<T>(s: seq<Item<T>>, c: int)
    requires c >= 1
    decreases |s|
  {
    if |s| <= c then SortedBy(s)
    else SortedBy(s[..c]) && ChunksSorted(s[c..], c)
  }

  lemma {:induction false} SingletonChunks<T>(s: seq<Item<T>>)
    ensures ChunksSorted(s, 1)
    decreases |s|
  {
    if |s| > 1 {
      SingletonChunks(s[1..]);
    }
  }

  /** `n` is a whole number of blocks of `c` elements. */
  ghost predicate Aligned(n: int, c: int)
    requires c >= 1
    decreases n
  {
    n == 0 || (n >= c && Aligned(n - c, c))
  }

  lemma {:induction false} AlignedNext(n: int, c: int)
    requires c >= 1 && Aligned(n, c)
    ensures Aligned(n + c, c)
    decreases n
  {
    if n > 0 {
      AlignedNext(n - c, c);
    }
  }

  /** Whole sorted blocks followed by one more sorted block of at most `c`
      elements are sorted blocks. */
  lemma {:induction false} ChunksAppend<T>(p: seq<Item<T>>, q: seq<Item<T>>, c: int)
    requires c >= 1 && Aligned(|p|, c)
    requires ChunksSorted(p, c) && SortedBy(q) && |q| <= c
    ensures ChunksSorted(p + q, c)
    decreases |p|
  {
    if |p| == 0 {
      assert p + q == q;
    } else if |q| == 0 {
      assert p + q == p;
    } else if |p| == c {
      assert (p + q)[..c] == p;
      assert (p + q)[c..] == q;
    } else {
      assert (p + q)[..c] == p[..c];
      assert (p + q)[c..] == p[c..] + q;
      ChunksAppend(p[c..], q, c);
    }
  }

  /** The first block of sorted blocks is sorted and the rest are sorted
      blocks. */
  lemma ChunksSplit<T>(s: seq<Item<T>>, c: int)
    requires c >= 1 && ChunksSorted(s, c)
    ensures SortedBy(s[..Min(c, |s|)]) && ChunksSorted(s[Min(c, |s|)..], c)
  {
    if |s| <= c {
      assert s[..|s|] == s;
    }
  }

  /** Sorted blocks of `c` starting at `lo` give two sorted runs
      `[lo, m)` and `[m, hi)` followed by sorted blocks. */
  lemma NextTwoRuns<T>(before: seq<Item<T>>, lo: int, m: int, hi: int, c: int)
    requires c >= 1 && 0 <= lo < |before|
    requires hi == Min(lo + 2 * c, |before|) && m == Min(lo + c, hi)
    requires ChunksSorted(before[lo..], c)
    ensures SortedBy(before[lo..m]) && SortedBy(before[m..hi]) && ChunksSorted(before[hi..], c)
  {
    var s := before[lo..];
    ChunksSplit(s, c);
    var s1 := s[Min(c, |s|)..];
    ChunksSplit(s1, c);
    assert Min(c, |s|) == m - lo;
    assert s[..Min(c, |s|)] == before[lo..m];
    assert s1[..Min(c, |s1|)] == before[m..hi];
    assert s1[Min(c, |s1|)..] == before[hi..];
  }

  /** Replacing `[lo, hi)` by a sorted block of the same length extends the
      prefix of whole blocks of `2 * c` by one block. */
  lemma OneMoreBlock<T>(before: seq<Item<T>>, after: seq<Item<T>>, merged: seq<Item<T>>, lo: int, hi: int, c: int)
    requires c >= 1 && 0 <= lo <= hi <= |before| && hi - lo <= 2 * c && Aligned(lo, 2 * c)
    requires ChunksSorted(before[..lo], 2 * c) && ChunksSorted(before[hi..], c)
    requires SortedBy(merged) && |merged| == hi - lo
    requires after == before[..lo] + merged + before[hi..]
    ensures ChunksSorted(after[..hi], 2 * c) && ChunksSorted(after[hi..], c)
  {
    assert after[..hi] == before[..lo] + merged;
    assert after[hi..] == before[hi..];
    ChunksAppend(before[..lo], merged, 2 * c);
  }

  /** Replacing `[lo, hi)` by a rearrangement of its two runs keeps the
      elements. */
  lemma SplicePermutes<T>(before: seq<Item<T>>, merged: seq<Item<T>>, lo: int, m: int, hi: int)
    requires 0 <= lo <= m <= hi <= |before|
    requires multiset(merged) == multiset(before[lo..m]) + multiset(before[m..hi])
    ensures multiset(before[..lo] + merged + before[hi..]) == multiset(before)
  {
    assert before == before[..lo] + before[lo..m] + before[m..hi] + before[hi..];
  }

  /** For every key, `s` holds the elements with that key in the order `s0`
      has them. */
  ghost predicate SameKeyOrder<T>(s: seq<Item<T>>, s0: seq<Item<T>>) {
    forall v :: WithKey(s, v) == WithKey(s0, v)
  }

  lemma {:induction false} WithKeyConcat<T>(a: seq<Item<T>>, b: seq<Item<T>>, v: int)
    ensures WithKey(a + b, v) == WithKey(a, v) + WithKey(b, v)
    decreases |a|
  {
    if |a| > 0 {
      WithKeyConcat(a[1..], b, v);
      assert (a + b)[1..] == a[1..] + b;
      WithKeyHead(a + b, v);
      WithKeyHead(a, v);
    } else {
      assert a + b == b;
    }
  }

  /** Replacing two neighbouring runs, the first one sorted, by their merge
      keeps the order of the elements of every key: the merge is stable. */
  lemma SpliceStable<T>(before: seq<Item<T>>, merged: seq<Item<T>>, lo: int, m: int, hi: int)
    requires 0 <= lo <= m <= hi <= |before|
    requires SortedBy(before[lo..m]) && merged == MergeSeq(before[lo..m], before[m..hi])
    ensures SameKeyOrder(before[..lo] + merged + before[hi..], before)
  {
    var p, a, b, q := before[..lo], before[lo..m], before[m..hi], before[hi..];
    assert p + a == before[..m];
    assert p + a + b == before[..hi];
    assert before == before[..hi] + q;
    forall v ensures WithKey(p + merged + q, v) == WithKey(before, v) {
      MergeSeqStable(a, b, v);
      WithKeyConcat(p + merged, q, v);
      WithKeyConcat(p, merged, v);
      WithKeyConcat(p + a + b, q, v);
      WithKeyConcat(p + a, b, v);
      WithKeyConcat(p, a, v);
    }
  }

  /** Between passes: sorted blocks of `c` holding the elements of `s0`, those
      of each key in their order in `s0`. */
  ghost predicate SortState<T>(s: seq<Item<T>>, s0: seq<Item<T>>, c: int) {
    c >= 1 && ChunksSorted(s, c) && multiset(s) == multiset(s0) && SameKeyOrder(s, s0)
  }

  /** Inside the pass with block size `c`, before the merge at `i`: whole
      sorted blocks of `2 * c` up to `i`, sorted blocks of `c` from there, and
      the elements of `s0`. */
  ghost predicate PassState<T>(s: seq<Item<T>>, s0: seq<Item<T>>, i: int, c: int) {
    c >= 1 && 0 <= i && Aligned(i, 2 * c)
    && ChunksSorted(s[..Min(i, |s|)], 2 * c) && ChunksSorted(s[Min(i, |s|)..], c)
    && multiset(s) == multiset(s0) && SameKeyOrder(s, s0)
  }

  lemma PassStart<T>(s: seq<Item<T>>, s0: seq<Item<T>>, c: int)
    requires SortState(s, s0, c)
    ensures PassState(s, s0, 0, c)
  {
    assert s[..0] == [] && s[0..] == s;
  }

  /** One merge of the pass: merging the two blocks of `c` at `i` leaves one
      more whole block of `2 * c` (or the shorter last one) and the rest as
      before. */
  lemma PassNext<T>(before: seq<Item<T>>, after: seq<Item<T>>, s0: seq<Item<T>>, i: int, next: int, hi: int, c: int)
    requires PassState(before, s0, i, c) && i < |before| && hi == Min(i + c * 2, |before|) && next == i + c * 2
    requires after == MergedAt(before, i, i + c, hi)
    ensures PassState(after, s0, next, c)
  {
    var m := Min(i + c, hi);
    var merged := MergeSeq(before[i..m], before[m..hi]);
    MergeSeqElements(before[i..m], before[m..hi]);
    PassBlocks(before, after, merged, i, m, hi, c);
    SplicePermutes(before, merged, i, m, hi);
    NextTwoRuns(before, i, m, hi, c);
    SpliceStable(before, merged, i, m, hi);
    AlignedNext(i, 2 * c);
    assert Min(next, |after|) == hi;
  }

  /** The block part of `PassNext`. */
  lemma PassBlocks<T>(before: seq<Item<T>>, after: seq<Item<T>>, merged: seq<Item<T>>, i: int, m: int, hi: int, c: int)
    requires c >= 1 && 0 <= i < |before| && Aligned(i, 2 * c)
    requires hi == Min(i + 2 * c, |before|) && m == Min(i + c, hi)
    requires ChunksSorted(before[..i], 2 * c) && ChunksSorted(before[i..], c)
    requires merged == MergeSeq(before[i..m], before[m..hi]) && |merged| == hi - i
    requires after == before[..i] + merged + before[hi..]
    ensures ChunksSorted(after[..hi], 2 * c) && ChunksSorted(after[hi..], c)
  {
    NextTwoRuns(before, i, m, hi, c);
    MergeSeqSorted(before[i..m], before[m..hi]);
    OneMoreBlock(before, after, merged, i, hi, c);
  }

  lemma PassEnd<T>(s: seq<Item<T>>, s0: seq<Item<T>>, i: int, c: int)
    requires PassState(s, s0, i, c) && i >= |s|
    ensures SortState(s, s0, c * 2)
  {
    assert s[..Min(i, |s|)] == s;
  }

  /** One block covering the whole slice is the slice sorted. */
  lemma SortEnd<T>(s: seq<Item<T>>, s0: seq<Item<T>>, c: int)
    requires SortState(s, s0, c) && c >= |s|
    ensures SortedBy(s) && multiset(s) == multiset(s0)
    ensures forall v :: WithKey(s, v) == WithKey(s0, v)
  {
  }

  /** One step of a pass: `merge(l, aux, i, i + c, min(i + 2c, len))`. */
  method MergeNext<T>(l: array<Item<T>>, aux: array<Item<T>>, ghost s0: seq<Item<T>>, i: int, c: int)
    requires l != aux && aux.Length == l.Length
    requires PassState(l[..], s0, i, c) && i < l.Length
    modifies l, aux
    ensures PassState(l[..], s0, i + c * 2, c)
  {
    ghost var before := l[..];
    var hi := Min(i + c * 2, l.Length);
    Merge(l, aux, i, i + c, hi);
    PassNext(before, l[..], s0, i, i + c * 2, hi, c);
  }

  /** `merge_sort`: passes with block size 1, 2, 4, … merge neighbouring
      blocks until one block covers the slice. A slice of one element is left
      as it is. The sort is stable: elements with equal keys keep their
      relative order. */
  method MergeSort<T>(l: array<Item<T>>)
    modifies l
    ensures SortedBy(l[..])
    ensures multiset(l[..]) == old(multiset(l[..]))
    ensures forall v :: WithKey(l[..], v) == WithKey(old(l[..]), v)
  {
    if l.Length == 1 {
      assert l[..] == [l[0]];
      return;
    }
    ghost var s0 := l[..];
    var aux := new Item<T>[l.Length](i requires 0 <= i < l.Length reads l => l[i]);
    var c := 1;
    SingletonChunks(l[..]);
    while c < l.Length
      invariant SortState(l[..], s0, c)
    {
      var i := 0;
      PassStart(l[..], s0, c);
      while i < l.Length
        invariant PassState(l[..], s0, i, c)
        decreases l.Length - i
      {
        MergeNext(l, aux, s0, i, c);
        i := i + c * 2;
      }
      PassEnd(l[..], s0, i, c);
      c := c * 2;
    }
    SortEnd(l[..], s0, c);
  }
}
