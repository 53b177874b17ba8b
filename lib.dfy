/** The crate root: the ascending-order predicate every container and sort
    in the library is checked against, and its executable counterpart. */
module Lib {

  /** `s` is non-decreasing: every element is at most every later one. */
  predicate Sorted(s: seq<int>) {
    forall i, j :: 0 <= i < j < |s| ==> s[i] <= s[j]
  }

  /** Adjacent pairs in order are enough for the whole sequence to be in order. */
  lemma {:induction false} AdjacentSorted(s: seq<int>)
    requires forall i :: 0 < i < |s| ==> s[i - 1] <= s[i]
    ensures Sorted(s)
  {
    if |s| > 1 {
      AdjacentSorted(s[..|s| - 1]);
      assert s[..|s| - 1][|s| - 2] == s[|s| - 2];
      forall i, j | 0 <= i < j < |s| ensures s[i] <= s[j] {
        if j < |s| - 1 {
          assert s[..|s| - 1][i] == s[i] && s[..|s| - 1][j] == s[j];
        } else if i < |s| - 1 {
          assert s[..|s| - 1][i] <= s[..|s| - 1][|s| - 2];
        }
      }
    }
  }

  /** `is_sorted`: a scan with a cursor `p` on the previous element that gives up
      at the first descent. Indexing `l[0]` makes an empty slice a caller error. */
  method IsSorted(l: seq<int>) returns (b: bool)
    requires |l| > 0
    ensures b <==> Sorted(l)
    ensures b <==> forall i :: 0 < i < |l| ==> l[i - 1] <= l[i]
  {
    if |l| == 1 {
      return true;
    }
    var p := l[0];
    for i := 1 to |l|
      invariant p == l[i - 1]
      invariant forall t :: 0 < t < i ==> l[t - 1] <= l[t]
    {
      if l[i] < p {
        assert !Sorted(l);
        return false;
      }
      p := l[i];
    }
    AdjacentSorted(l);
    b := true;
  }
}
