/**
 What the bottom-up list mergesort of utlist.h and uthash.h computes: passes that merge
 neighbouring runs of a width that doubles until one merge covers the whole list.

 `cmp` is the caller's comparison; a result <= 0 keeps the left element first.
 */
module MergeSort {
  // ----- The algorithm on sequences --------------------------------------------------

  function Merge<T>(cmp: (T, T) -> int, p: seq<T>, q: seq<T>): (r: seq<T>)
    ensures |r| == |p| + |q|
  {
    if p == [] then q
    else if q == [] then p
    else if cmp(p[0], q[0]) <= 0 then [p[0]] + Merge(cmp, p[1..], q)
    else [q[0]] + Merge(cmp, p, q[1..])
  }

  function Min(a: nat, b: nat): nat { if a < b then a else b }

  /** The first run of width w, then the run that follows it, merged; then the rest. */
  function Pass<T>(cmp: (T, T) -> int, s: seq<T>, w: nat): (r: seq<T>)
    requires w > 0
    ensures |r| == |s|
  {
    if s == [] then []
    else
      var m, e := Min(w, |s|), Min(2 * w, |s|);
      Merge(cmp, s[..m], s[m..e]) + Pass(cmp, s[e..], w)
  }

  /** Passes of width w, 2w, 4w, ... up to the first that needs at most one merge. */
  function SortFrom<T>(cmp: (T, T) -> int, s: seq<T>, w: nat): (r: seq<T>)
    requires w > 0
    ensures |r| == |s|
    decreases |s| - w
  {
    if |s| <= 2 * w then Pass(cmp, s, w) else SortFrom(cmp, Pass(cmp, s, w), 2 * w)
  }

  function Sort<T>(cmp: (T, T) -> int, s: seq<T>): seq<T> {
    SortFrom(cmp, s, 1)
  }

  // ----- Sorted, same elements, stable ----------------------------------------------

  ghost predicate Within<T>(s: seq<T>, S: set<T>) {
    forall x :: x in s ==> x in S
  }

  /** The comparison is a total preorder on the elements of S. */
  ghost predicate Preorder<T>(cmp: (T, T) -> int, S: set<T>) {
    && (forall x, y :: x in S && y in S ==> cmp(x, y) <= 0 || cmp(y, x) <= 0)
    && (forall x, y, z :: x in S && y in S && z in S && cmp(x, y) <= 0 && cmp(y, z) <= 0
          ==> cmp(x, z) <= 0)
  }

  ghost predicate Sorted<T>(cmp: (T, T) -> int, s: seq<T>) {
    forall i, j :: 0 <= i < j < |s| ==> cmp(s[i], s[j]) <= 0
  }

  ghost predicate Tied<T>(cmp: (T, T) -> int, x: T, y: T) {
    cmp(x, y) <= 0 && cmp(y, x) <= 0
  }

  /** The elements of s that tie with x, in their order. */
  ghost function Ties<T>(cmp: (T, T) -> int, x: T, s: seq<T>): (r: seq<T>)
    ensures forall y :: y in r ==> y in s && Tied(cmp, x, y)
    ensures forall y :: y in s && Tied(cmp, x, y) ==> y in r
  {
    if s == [] then []
    else (if Tied(cmp, x, s[0]) then [s[0]] else []) + Ties(cmp, x, s[1..])
  }

  /** t holds the elements of s, sorted, and elements that tie keep their order. */
  ghost predicate StableSortOf<T>(cmp: (T, T) -> int, s: seq<T>, t: seq<T>) {
    && multiset(t) == multiset(s)
    && Sorted(cmp, t)
    && forall x :: x in s ==> Ties(cmp, x, t) == Ties(cmp, x, s)
  }

  /** Runs of width w, counted from the left, are sorted: what holds between two passes. */
  ghost predicate RunsSorted<T>(cmp: (T, T) -> int, s: seq<T>, w: nat)
    requires w > 0
  {
    s == [] || (Sorted(cmp, s[..Min(w, |s|)]) && RunsSorted(cmp, s[Min(w, |s|)..], w))
  }

  lemma {:induction false} TiesAppend<T>(cmp: (T, T) -> int, x: T, s: seq<T>, t: seq<T>)
    ensures Ties(cmp, x, s + t) == Ties(cmp, x, s) + Ties(cmp, x, t)
  {
    if s == [] {
      assert s + t == t;
    } else {
      assert (s + t)[1..] == s[1..] + t;
      TiesAppend(cmp, x, s[1..], t);
    }
  }

  lemma {:induction false} MergePermutes<T>(cmp: (T, T) -> int, p: seq<T>, q: seq<T>)
    ensures multiset(Merge(cmp, p, q)) == multiset(p) + multiset(q)
  {
    if p != [] && q != [] {
      assert p == [p[0]] + p[1..] && q == [q[0]] + q[1..];
      if cmp(p[0], q[0]) <= 0 {
        MergePermutes(cmp, p[1..], q);
      } else {
        MergePermutes(cmp, p, q[1..]);
      }
    }
  }

  lemma InMerge<T>(cmp: (T, T) -> int, p: seq<T>, q: seq<T>, x: T)
    ensures x in Merge(cmp, p, q) <==> x in p || x in q
  {
    MergePermutes(cmp, p, q);
    assert x in Merge(cmp, p, q) <==> x in multiset(Merge(cmp, p, q));
  }

  lemma SortedCons<T>(cmp: (T, T) -> int, x: T, s: seq<T>)
    requires Sorted(cmp, s)
    requires forall y :: y in s ==> cmp(x, y) <= 0
    ensures Sorted(cmp, [x] + s)
  {}

  lemma {:induction false} MergeSorts<T>(cmp: (T, T) -> int, S: set<T>, p: seq<T>, q: seq<T>)
    requires Preorder(cmp, S) && Within(p, S) && Within(q, S)
    requires Sorted(cmp, p) && Sorted(cmp, q)
    ensures Sorted(cmp, Merge(cmp, p, q))
  {
    if p != [] && q != [] {
      if cmp(p[0], q[0]) <= 0 {
        MergeSorts(cmp, S, p[1..], q);
        forall y | y in Merge(cmp, p[1..], q)
          ensures cmp(p[0], y) <= 0
        {
          InMerge(cmp, p[1..], q, y);
        }
        SortedCons(cmp, p[0], Merge(cmp, p[1..], q));
      } else {
        MergeSorts(cmp, S, p, q[1..]);
        forall y | y in Merge(cmp, p, q[1..])
          ensures cmp(q[0], y) <= 0
        {
          InMerge(cmp, p, q[1..], y);
        }
        SortedCons(cmp, q[0], Merge(cmp, p, q[1..]));
      }
    }
  }

  /** A sorted run that starts above y holds nothing that ties with y. */
  lemma NoTiesAbove<T>(cmp: (T, T) -> int, S: set<T>, p: seq<T>, y: T, x: T)
    requires Preorder(cmp, S) && Within(p, S) && y in S && x in S
    requires p != [] && Sorted(cmp, p) && cmp(p[0], y) > 0 && Tied(cmp, x, y)
    ensures Ties(cmp, x, p) == []
  {
    forall z | z in p
      ensures !Tied(cmp, x, z)
    {
      assert cmp(p[0], z) <= 0;
    }
  }

  lemma {:induction false} MergeIsStable<T>(cmp: (T, T) -> int, S: set<T>, p: seq<T>, q: seq<T>, x: T)
    requires Preorder(cmp, S) && Within(p, S) && Within(q, S) && x in S
    requires Sorted(cmp, p)
    ensures Ties(cmp, x, Merge(cmp, p, q)) == Ties(cmp, x, p) + Ties(cmp, x, q)
  {
    if p != [] && q != [] {
      if cmp(p[0], q[0]) <= 0 {
        MergeIsStable(cmp, S, p[1..], q, x);
      } else {
        MergeIsStable(cmp, S, p, q[1..], x);
        if Tied(cmp, x, q[0]) {
          NoTiesAbove(cmp, S, p, q[0], x);
        }
      }
    }
  }

  // ----- One pass, then all passes --------------------------------------------------

  lemma PassStep<T>(cmp: (T, T) -> int, s: seq<T>, w: nat)
    requires w > 0 && s != []
    ensures var m, e := Min(w, |s|), Min(2 * w, |s|);
      Pass(cmp, s, w) == Merge(cmp, s[..m], s[m..e]) + Pass(cmp, s[e..], w)
  {
    hide Merge;
  }

  lemma Split<T>(s: seq<T>, m: nat, e: nat)
    requires m <= e <= |s|
    ensures s == s[..m] + s[m..e] + s[e..]
  {}

  lemma RunStep<T>(cmp: (T, T) -> int, s: seq<T>, w: nat)
    requires w > 0 && RunsSorted(cmp, s, w)
    ensures Sorted(cmp, s[..Min(w, |s|)]) && RunsSorted(cmp, s[Min(w, |s|)..], w)
  {}

  /** The two runs that a pass merges first, and the runs after them. */
  lemma RunsStep<T>(cmp: (T, T) -> int, s: seq<T>, w: nat, m: nat, e: nat)
    requires w > 0 && RunsSorted(cmp, s, w)
    requires m == Min(w, |s|) && e == Min(2 * w, |s|)
    ensures m <= e <= |s|
    ensures Sorted(cmp, s[..m]) && Sorted(cmp, s[m..e]) && RunsSorted(cmp, s[e..], w)
  {
    var k := Min(w, |s[m..]|);
    assert e == m + k;
    hide *;
    RunStep(cmp, s, w);
    RunStep(cmp, s[m..], w);
    assert s[m..][..k] == s[m..e] && s[m..][k..] == s[e..];
  }

  lemma {:induction false} PassPermutes<T>(cmp: (T, T) -> int, s: seq<T>, w: nat)
    requires w > 0
    ensures multiset(Pass(cmp, s, w)) == multiset(s)
  {
    if s != [] {
      PassStep(cmp, s, w);
      var m, e := Min(w, |s|), Min(2 * w, |s|);
      hide *;
      Split(s, m, e);
      MergePermutes(cmp, s[..m], s[m..e]);
      PassPermutes(cmp, s[e..], w);
    }
  }

  lemma PassWithin<T>(cmp: (T, T) -> int, s: seq<T>, w: nat, S: set<T>)
    requires w > 0 && Within(s, S)
    ensures Within(Pass(cmp, s, w), S)
  {
    PassPermutes(cmp, s, w);
    forall x | x in Pass(cmp, s, w)
      ensures x in S
    {
      assert x in multiset(s);
    }
  }

  /** One pass doubles the width of the sorted runs. */
  lemma {:induction false} PassDoublesRuns<T>(cmp: (T, T) -> int, S: set<T>, s: seq<T>, w: nat)
    requires w > 0 && Preorder(cmp, S) && Within(s, S) && RunsSorted(cmp, s, w)
    ensures RunsSorted(cmp, Pass(cmp, s, w), 2 * w)
  {
    if s != [] {
      var m, e := Min(w, |s|), Min(2 * w, |s|);
      RunsStep(cmp, s, w, m, e);
      MergeSorts(cmp, S, s[..m], s[m..e]);
      PassDoublesRuns(cmp, S, s[e..], w);
      var t := Merge(cmp, s[..m], s[m..e]);
      assert Pass(cmp, s, w)[..e] == t && Pass(cmp, s, w)[e..] == Pass(cmp, s[e..], w);
    }
  }

  lemma {:induction false} PassIsStable<T>(cmp: (T, T) -> int, S: set<T>, s: seq<T>, w: nat, x: T)
    requires w > 0 && Preorder(cmp, S) && Within(s, S) && RunsSorted(cmp, s, w) && x in S
    ensures Ties(cmp, x, Pass(cmp, s, w)) == Ties(cmp, x, s)
  {
    if s != [] {
      PassStep(cmp, s, w);
      var m, e := Min(w, |s|), Min(2 * w, |s|);
      RunsStep(cmp, s, w, m, e);
      hide Pass, Merge, Ties, RunsSorted, Sorted, Preorder;
      Split(s, m, e);
      MergeIsStable(cmp, S, s[..m], s[m..e], x);
      PassIsStable(cmp, S, s[e..], w, x);
      TiesAppend(cmp, x, Merge(cmp, s[..m], s[m..e]), Pass(cmp, s[e..], w));
      TiesAppend(cmp, x, s[..m], s[m..e]);
      TiesAppend(cmp, x, s[..m] + s[m..e], s[e..]);
    }
  }

  lemma {:induction false} SortFromCorrect<T>(cmp: (T, T) -> int, S: set<T>, s: seq<T>, w: nat)
    requires w > 0 && Preorder(cmp, S) && Within(s, S) && RunsSorted(cmp, s, w)
    ensures multiset(SortFrom(cmp, s, w)) == multiset(s)
    ensures Sorted(cmp, SortFrom(cmp, s, w))
    ensures forall x :: x in S ==> Ties(cmp, x, SortFrom(cmp, s, w)) == Ties(cmp, x, s)
    decreases |s| - w
  {
    var t := Pass(cmp, s, w);
    PassPermutes(cmp, s, w);
    PassWithin(cmp, s, w, S);
    PassDoublesRuns(cmp, S, s, w);
    forall x | x in S
      ensures Ties(cmp, x, t) == Ties(cmp, x, s)
    {
      PassIsStable(cmp, S, s, w, x);
    }
    if |s| <= 2 * w {
      assert t != [] ==> t[..Min(2 * w, |t|)] == t;
    } else {
      SortFromCorrect(cmp, S, t, 2 * w);
    }
  }

  lemma {:induction false} SingletonRuns<T>(cmp: (T, T) -> int, s: seq<T>)
    ensures RunsSorted(cmp, s, 1)
  {
    if s != [] {
      SingletonRuns(cmp, s[1..]);
    }
  }

  /** For every total preorder the sort is a stable sort of its input. */
  lemma SortCorrect<T>(cmp: (T, T) -> int, s: seq<T>)
    requires Preorder(cmp, set x | x in s)
    ensures StableSortOf(cmp, s, Sort(cmp, s))
  {
    var S := set x | x in s;
    SingletonRuns(cmp, s);
    SortFromCorrect(cmp, S, s, 1);
  }

  /** For any comparison at all, the sort only rearranges. */
  lemma {:induction false} SortFromPermutes<T>(cmp: (T, T) -> int, s: seq<T>, w: nat)
    requires w > 0
    ensures multiset(SortFrom(cmp, s, w)) == multiset(s)
    decreases |s| - w
  {
    PassPermutes(cmp, s, w);
    if |s| > 2 * w {
      SortFromPermutes(cmp, Pass(cmp, s, w), 2 * w);
    }
  }

  // ----- A stable sort is unique ----------------------------------------------------

  lemma SameFirst<T>(cmp: (T, T) -> int, S: set<T>, a: seq<T>, b: seq<T>)
    requires Preorder(cmp, S) && Within(a, S) && Within(b, S)
    requires a != [] && b != []
    requires Sorted(cmp, a) && Sorted(cmp, b) && multiset(a) == multiset(b)
    requires forall x :: x in S ==> Ties(cmp, x, a) == Ties(cmp, x, b)
    ensures a[0] == b[0]
  {
    var x, y := a[0], b[0];
    assert x in multiset(b) && y in multiset(a);
    assert Tied(cmp, x, x) && Tied(cmp, x, y);
    assert Ties(cmp, x, a)[0] == x && Ties(cmp, x, b)[0] == y;
  }

  lemma TailMultisets<T>(a: seq<T>, b: seq<T>)
    requires a != [] && b != [] && a[0] == b[0] && multiset(a) == multiset(b)
    ensures multiset(a[1..]) == multiset(b[1..])
  {
    assert a == [a[0]] + a[1..] && b == [b[0]] + b[1..];
    assert multiset(a[1..]) == multiset(a) - multiset{a[0]};
  }

  lemma TiesTail<T>(cmp: (T, T) -> int, x: T, s: seq<T>)
    requires s != []
    ensures Ties(cmp, x, s[1..]) == Ties(cmp, x, s)[if Tied(cmp, x, s[0]) then 1 else 0..]
  {}

  lemma TailOf<T>(cmp: (T, T) -> int, S: set<T>, s: seq<T>)
    requires s != [] && Sorted(cmp, s) && Within(s, S)
    ensures Sorted(cmp, s[1..]) && Within(s[1..], S)
  {}

  /** Sorted, same elements and same order of ties leave only one possible result. */
  lemma {:induction false} StableSortUnique<T>(cmp: (T, T) -> int, S: set<T>, a: seq<T>, b: seq<T>)
    requires Preorder(cmp, S) && Within(a, S) && Within(b, S)
    requires Sorted(cmp, a) && Sorted(cmp, b) && multiset(a) == multiset(b)
    requires forall x :: x in S ==> Ties(cmp, x, a) == Ties(cmp, x, b)
    ensures a == b
  {
    assert |a| == |multiset(a)| == |multiset(b)| == |b|;
    if a != [] {
      SameFirst(cmp, S, a, b);
      hide *;
      TailMultisets(a, b);
      forall z | z in S
        ensures Ties(cmp, z, a[1..]) == Ties(cmp, z, b[1..])
      {
        TiesTail(cmp, z, a);
        TiesTail(cmp, z, b);
      }
      TailOf(cmp, S, a);
      TailOf(cmp, S, b);
      StableSortUnique(cmp, S, a[1..], b[1..]);
    }
  }

  lemma SameElements<T>(s: seq<T>, t: seq<T>)
    requires multiset(t) == multiset(s)
    ensures Within(t, set x | x in s)
  {
    forall x | x in t
      ensures x in s
    {
      assert x in multiset(t);
    }
  }

  /** So the stable sorts of s are exactly the one list the mergesort returns. */
  lemma SortIsTheStableSort<T>(cmp: (T, T) -> int, s: seq<T>, t: seq<T>)
    requires Preorder(cmp, set x | x in s)
    ensures StableSortOf(cmp, s, t) <==> t == Sort(cmp, s)
  {
    SortCorrect(cmp, s);
    if StableSortOf(cmp, s, t) {
      var u := Sort(cmp, s);
      hide Sort, SortFrom, Ties, Sorted;
      SameElements(s, t);
      SameElements(s, u);
      var S := set x | x in s;
      StableSortUnique(cmp, S, t, u);
    }
  }
}
