/** sortNeighbors: the open list ordered by ascending `f`. The source hands
    the comparator `a.f - b.f` to the JavaScript array sort, which is stable,
    so nodes of equal `f` keep their order. The sort is defined here as an
    insertion sort, and the lemmas show that it has exactly the properties the
    library sort promises: sorted, a permutation, and stable. */
module Ordering {
  import opened Nodes

  ghost predicate SortedByF(s: seq<AStarNode>)
  {
    forall i, j :: 0 <= i < j < |s| ==> F(s[i]) <= F(s[j])
  }

  /** Inserts `x` after every element whose `f` is at most `x`'s, working
      from the back of `t`. */
  function Insert(t: seq<AStarNode>, x: AStarNode): (r: seq<AStarNode>)
    ensures |r| == |t| + 1
    ensures multiset(r) == multiset(t) + multiset{x}
    ensures forall i :: 0 <= i < |r| ==> r[i] == x || r[i] in t
  {
    if |t| == 0 then [x]
    else if F(t[|t| - 1]) <= F(x) then t + [x]
    else
      var u := t[..|t| - 1];
      assert t == u + [t[|t| - 1]];
      Insert(u, x) + [t[|t| - 1]]
  }

  /** The sort of sortNeighbors. */
  function SortByF(s: seq<AStarNode>): (r: seq<AStarNode>)
    ensures SortedByF(r)
    ensures multiset(r) == multiset(s)
    ensures |r| == |s|
  {
    if |s| == 0 then []
    else
      var u := s[..|s| - 1];
      assert s == u + [s[|s| - 1]];
      InsertSorted(SortByF(u), s[|s| - 1]);
      Insert(SortByF(u), s[|s| - 1])
  }

  lemma AppendSorted(a: seq<AStarNode>, b: AStarNode)
    requires SortedByF(a)
    requires forall i :: 0 <= i < |a| ==> F(a[i]) <= F(b)
    ensures SortedByF(a + [b])
  {
  }

  /** Insertion keeps a sorted list sorted. */
  lemma {:induction false} InsertSorted(t: seq<AStarNode>, x: AStarNode)
    requires SortedByF(t)
    ensures SortedByF(Insert(t, x))
  {
    if |t| == 0 {
    } else if F(t[|t| - 1]) <= F(x) {
      AppendSorted(t, x);
    } else {
      var u, last := t[..|t| - 1], t[|t| - 1];
      assert t == u + [last];
      InsertSorted(u, x);
      var a := Insert(u, x);
      forall i | 0 <= i < |a|
        ensures F(a[i]) <= F(last)
      {
        if a[i] != x {
          var j :| 0 <= j < |u| && u[j] == a[i];
          assert t[j] == a[i];
        }
      }
      AppendSorted(a, last);
    }
  }

  /** The subsequence of `s` whose `f` is `k`, in order. */
  function FilterF(s: seq<AStarNode>, k: int): (r: seq<AStarNode>)
    ensures |r| <= |s|
    ensures forall i :: 0 <= i < |r| ==> F(r[i]) == k && r[i] in s
  {
    if |s| == 0 then []
    else FilterF(s[..|s| - 1], k) + (if F(s[|s| - 1]) == k then [s[|s| - 1]] else [])
  }

  lemma FilterAppend(s: seq<AStarNode>, x: AStarNode, k: int)
    ensures FilterF(s + [x], k) == FilterF(s, k) + (if F(x) == k then [x] else [])
  {
    assert (s + [x])[..|s|] == s;
  }

  /** Inserting `x` adds it to the end of its own key's subsequence and
      leaves every other key's subsequence alone. */
  lemma {:induction false} InsertFilter(t: seq<AStarNode>, x: AStarNode, k: int)
    ensures FilterF(Insert(t, x), k) == FilterF(t, k) + (if F(x) == k then [x] else [])
  {
    if |t| == 0 {
      assert Insert(t, x) == [] + [x];
      FilterAppend([], x, k);
    } else if F(t[|t| - 1]) <= F(x) {
      FilterAppend(t, x, k);
    } else {
      var u, last := t[..|t| - 1], t[|t| - 1];
      assert t == u + [last];
      InsertFilter(u, x, k);
      FilterAppend(Insert(u, x), last, k);
      FilterAppend(u, last, k);
    }
  }

  /** Stability: for every value of `f`, the nodes with that value appear in
      the sorted list in the order they had before. */
  lemma {:induction false} SortStable(s: seq<AStarNode>, k: int)
    ensures FilterF(SortByF(s), k) == FilterF(s, k)
  {
    if |s| > 0 {
      var u, last := s[..|s| - 1], s[|s| - 1];
      assert s == u + [last];
      assert SortByF(s) == Insert(SortByF(u), last);
      SortStable(u, k);
      InsertFilter(SortByF(u), last, k);
      FilterAppend(u, last, k);
    }
  }

  /** A list that is already in order is left as it is. */
  lemma {:induction false} SortKeepsSorted(s: seq<AStarNode>)
    requires SortedByF(s)
    ensures SortByF(s) == s
  {
    if |s| > 0 {
      var u, last := s[..|s| - 1], s[|s| - 1];
      assert s == u + [last];
      assert SortedByF(u);
      SortKeepsSorted(u);
      assert |u| == 0 || F(u[|u| - 1]) <= F(last);
    }
  }
}
