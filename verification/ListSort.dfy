/**
 The list mergesort of utlist.h (LL_SORT2, DL_SORT2, CDL_SORT2) and of uthash.h (HASH_SRT).

 The four macros are one text except for how they step, whether they write prev and how
 they close the list; here they are one set of methods that branch on the kind of list.
 `src` is the list as a sequence of nodes when a pass starts, `out` the list built so far.
 */
module ListSort {
  import opened MergeSort
  import opened Nodes

  /** `out` is linked so far: its last next is still open, and its first prev is null. */
  ghost predicate Open<V>(kind: Kind, out: seq<Node<V>>)
    reads out`next, out`prev
  {
    && Distinct(out)
    && (forall i {:trigger out[i].next} :: 0 <= i < |out| - 1 ==> out[i].next == out[i + 1])
    && (kind != LL ==> forall i {:trigger out[i].prev} :: 0 <= i < |out| ==>
          out[i].prev == if i > 0 then out[i - 1] else null)
  }

  /** The nodes of src from lo to hi still carry their links. */
  ghost predicate Untouched<V>(kind: Kind, src: seq<Node<V>>, lo: nat, hi: nat)
    requires hi <= |src|
    reads src`next
  {
    forall k {:trigger src[k].next} :: lo <= k < hi ==> src[k].next == NextIn(kind, src, k)
  }

  ghost predicate Apart<V>(out: seq<Node<V>>, src: seq<Node<V>>, lo: nat, hi: nat)
    requires hi <= |src|
  {
    forall i, k :: 0 <= i < |out| && lo <= k < hi ==> out[i] != src[k]
  }

  ghost predicate Ends<V>(out: seq<Node<V>>, list: Node?<V>, tail: Node?<V>) {
    if out == [] then list == tail == null else list == out[0] && tail == out[|out| - 1]
  }

  /**
   Part-way through a merge: src[i..mid] and everything from src[j] on is still to be
   output, and `out`, from `list` to `tail`, holds other nodes of src.
   */
  ghost predicate Merging<V>(kind: Kind, src: seq<Node<V>>, i: nat, mid: nat, j: nat,
                             out: seq<Node<V>>, list: Node?<V>, tail: Node?<V>)
    requires mid <= |src|
    reads src`next, out`next, out`prev
  {
    && Untouched(kind, src, i, mid) && Untouched(kind, src, j, |src|)
    && Apart(out, src, i, mid) && Apart(out, src, j, |src|)
    && Open(kind, out) && Ends(out, list, tail)
    && forall x :: x in out ==> x in src
  }

  /** What the rest of the pass makes of the nodes from `at` on. */
  ghost function PassFrom<V>(cmp: (Node<V>, Node<V>) -> int, src: seq<Node<V>>, at: nat, w: nat): seq<Node<V>>
    requires w > 0 && at <= |src|
  {
    Pass(cmp, src[at..], w)
  }

  /** Between two merges of a pass: src[..at] is merged into `out`, the rest is unread. */
  ghost predicate Passing<V>(cmp: (Node<V>, Node<V>) -> int, kind: Kind, src: seq<Node<V>>, w: nat,
                             at: nat, nmerges: nat, out: seq<Node<V>>, list: Node?<V>, tail: Node?<V>)
    requires w > 0 && at <= |src|
    reads src`next, out`next, out`prev
  {
    && Merging(kind, src, at, at, at, out, list, tail)
    && out + PassFrom(cmp, src, at, w) == Pass(cmp, src, w)
    && (nmerges == 0 ==> at == 0)
    && (nmerges == 1 ==> at == 2 * w || at == |src| <= 2 * w)
    && (nmerges >= 2 ==> at > 2 * w)
  }

  /** Where stepping through a list of this kind must stop. */
  ghost function StopOf<V>(kind: Kind, s: seq<Node<V>>): Node?<V> {
    if kind.CDL? then NodeAt(s, 0) else null
  }

  /** The node after n, or null at the end; a circular list ends before its old head. */
  method Advance<V>(kind: Kind, n: Node<V>, stop: Node?<V>, ghost src: seq<Node<V>>, ghost i: nat)
    returns (r: Node?<V>)
    requires i < |src| && n == src[i] && Distinct(src)
    requires n.next == NextIn(kind, src, i) && stop == StopOf(kind, src)
    ensures r == NodeAt(src, i + 1)
  {
    r := n.next;
    if r == stop {
      r := null;
    }
  }

  /** Links e behind the output list. */
  method Link<V>(kind: Kind, e: Node<V>, list0: Node?<V>, tail0: Node?<V>, ghost out: seq<Node<V>>)
    returns (list: Node?<V>, tail: Node<V>)
    requires Open(kind, out) && Ends(out, list0, tail0) && e !in out
    modifies out`next, e`prev
    ensures Open(kind, out + [e]) && Ends(out + [e], list, tail)
  {
    list := list0;
    if tail0 != null {
      tail0.next := e;
    } else {
      list := e;
    }
    if kind != LL {
      e.prev := tail0;
    }
    tail := e;
  }

  lemma ApartExtends<V>(out: seq<Node<V>>, src: seq<Node<V>>, lo: nat, hi: nat, k: nat, lo': nat)
    requires Distinct(src) && hi <= |src| && Apart(out, src, lo, hi)
    requires k < |src| && lo <= lo' && !(lo' <= k < hi)
    ensures Apart(out + [src[k]], src, lo', hi)
  {}

  /** Appends e, the next node of one of the two runs, to the output list. */
  method Emit<V>(kind: Kind, e: Node<V>, list0: Node?<V>, tail0: Node?<V>, ghost out: seq<Node<V>>,
              ghost src: seq<Node<V>>, ghost i: nat, ghost mid: nat, ghost j: nat, ghost fromP: bool)
    returns (list: Node?<V>, tail: Node<V>)
    requires Distinct(src) && i <= mid <= j <= |src|
    requires Merging(kind, src, i, mid, j, out, list0, tail0)
    requires if fromP then i < mid && e == src[i] else j < |src| && e == src[j]
    modifies src`next, src`prev
    ensures Merging(kind, src, if fromP then i + 1 else i, mid, if fromP then j else j + 1,
                    out + [e], list, tail)
  {
    hide Open, Ends, NextIn, Distinct;
    ghost var k, i', j' := if fromP then i else j, if fromP then i + 1 else i, if fromP then j else j + 1;
    ApartExtends(out, src, i, mid, k, i');
    ApartExtends(out, src, j, |src|, k, j');
    assert e in src && e !in out;
    assert forall n :: 0 <= n < |out| ==> out[n] in src;
    list, tail := Link(kind, e, list0, tail0, out);
  }

  /** What remains to output of the runs src[i..mid] and src[j..end]. */
  ghost function Merged<V>(cmp: (Node<V>, Node<V>) -> int, src: seq<Node<V>>, i: nat, mid: nat, j: nat, end: nat)
    : seq<Node<V>>
    requires i <= mid <= |src| && j <= end <= |src|
  {
    Merge(cmp, src[i..mid], src[j..end])
  }

  lemma MergeStep<V>(cmp: (Node<V>, Node<V>) -> int, src: seq<Node<V>>, i: nat, mid: nat, j: nat, end: nat, fromP: bool)
    requires i <= mid <= j <= end <= |src|
    requires if fromP then i < mid && (j == end || cmp(src[i], src[j]) <= 0)
             else j < end && (i == mid || cmp(src[i], src[j]) > 0)
    ensures Merged(cmp, src, i, mid, j, end)
         == if fromP then [src[i]] + Merged(cmp, src, i + 1, mid, j, end)
            else [src[j]] + Merged(cmp, src, i, mid, j + 1, end)
  {
    if fromP {
      assert src[i..mid][1..] == src[i + 1..mid];
    } else {
      assert src[j..end][1..] == src[j + 1..end];
    }
  }

  /** Chooses the node to output next and steps past it. */
  method Pick<V>(kind: Kind, cmp: (Node<V>, Node<V>) -> int, stop: Node?<V>,
              p0: Node?<V>, psize0: nat, q0: Node?<V>, qsize0: nat,
              ghost src: seq<Node<V>>, ghost i: nat, ghost mid: nat, ghost j: nat, ghost end: nat,
              ghost out: seq<Node<V>>, ghost list: Node?<V>, ghost tail: Node?<V>)
    returns (e: Node<V>, ghost fromP: bool, p: Node?<V>, psize: nat, q: Node?<V>, qsize: nat)
    requires i <= mid <= j <= end <= |src| && (i < mid || j < end)
    requires Distinct(src) && stop == StopOf(kind, src)
    requires psize0 == mid - i && (j < end <==> qsize0 > 0 && q0 != null)
    requires (i < mid ==> p0 == src[i]) && q0 == NodeAt(src, j)
    requires Merging(kind, src, i, mid, j, out, list, tail)
    ensures if fromP then i < mid && e == src[i] && psize == psize0 - 1 && qsize == qsize0
            else j < end && e == src[j] && psize == psize0 && qsize == qsize0 - 1
    ensures var i', j' := if fromP then i + 1 else i, if fromP then j else j + 1;
      && (i' < mid ==> p == src[i']) && q == NodeAt(src, j')
      && Merged(cmp, src, i, mid, j, end) == [e] + Merged(cmp, src, i', mid, j', end)
  {
    hide Merged, Distinct, StopOf, NextIn, Open, Apart;
    p, psize, q, qsize, fromP := p0, psize0, q0, qsize0, false;
    if psize == 0 {
      e := q;
      q := Advance(kind, q, stop, src, j);
      qsize := qsize - 1;
    } else if qsize == 0 || q == null {
      e := p;
      p := Advance(kind, p, stop, src, i);
      psize := psize - 1;
      fromP := true;
    } else if cmp(p, q) <= 0 {
      e := p;
      p := Advance(kind, p, stop, src, i);
      psize := psize - 1;
      fromP := true;
    } else {
      e := q;
      q := Advance(kind, q, stop, src, j);
      qsize := qsize - 1;
    }
    MergeStep(cmp, src, i, mid, j, end, fromP);
  }

  lemma Regroup<T>(s: seq<T>, e: T, t: seq<T>)
    ensures s + ([e] + t) == s + [e] + t
  {}

  lemma NodeAtEnd<V>(s: seq<Node<V>>, i: nat)
    ensures NodeAt(s, i) == null <==> i >= |s|
  {}

  lemma MergeEmpty<V>(cmp: (Node<V>, Node<V>) -> int, s: seq<Node<V>>, i: nat, j: nat)
    requires i <= |s| && j <= |s|
    ensures Merged(cmp, s, i, i, j, j) == []
  {}

  /**
   Merges the run of psize nodes at p with the run of at most qsize nodes at q onto the
   end of the output list.
   */
  method MergeRuns<V>(kind: Kind, cmp: (Node<V>, Node<V>) -> int, stop: Node?<V>,
                   p0: Node<V>, psize0: nat, q0: Node?<V>, qsize0: nat,
                   list0: Node?<V>, tail0: Node?<V>,
                   ghost src: seq<Node<V>>, ghost at: nat, ghost end: nat, ghost out0: seq<Node<V>>)
    returns (list: Node?<V>, tail: Node?<V>, q: Node?<V>, ghost out: seq<Node<V>>)
    requires at + psize0 <= end <= |src| && psize0 > 0
    requires end == Min(at + psize0 + qsize0, |src|)
    requires Distinct(src) && stop == StopOf(kind, src)
    requires p0 == src[at] && q0 == NodeAt(src, at + psize0)
    requires Merging(kind, src, at, at + psize0, at + psize0, out0, list0, tail0)
    modifies src`next, src`prev
    ensures out == out0 + Merged(cmp, src, at, at + psize0, at + psize0, end)
    ensures q == NodeAt(src, end)
    ensures Merging(kind, src, at + psize0, at + psize0, end, out, list, tail)
  {
    ghost var mid := at + psize0;
    assert end == |src| || end == mid + qsize0;
    hide *;
    ghost var i, j := at, mid;
    var p: Node?<V>, psize, qsize := p0, psize0, qsize0;
    q, list, tail, out := q0, list0, tail0, out0;
    while psize > 0 || (qsize > 0 && q != null)
      invariant at <= i <= mid <= j <= end
      invariant psize == mid - i && qsize == qsize0 - (j - mid)
      invariant (i < mid ==> p == src[i]) && q == NodeAt(src, j)
      invariant Merging(kind, src, i, mid, j, out, list, tail)
      invariant out + Merged(cmp, src, i, mid, j, end) == out0 + Merged(cmp, src, at, mid, mid, end)
      decreases psize + qsize
    {
      NodeAtEnd(src, j);
      var e;
      ghost var fromP;
      e, fromP, p, psize, q, qsize := Pick(kind, cmp, stop, p, psize, q, qsize, src, i, mid, j, end, out, list, tail);
      list, tail := Emit(kind, e, list, tail, out, src, i, mid, j, fromP);
      i, j := if fromP then i + 1 else i, if fromP then j else j + 1;
      Regroup(out, e, Merged(cmp, src, i, mid, j, end));
      out := out + [e];
    }
    NodeAtEnd(src, j);
    MergeEmpty(cmp, src, i, j);
  }

  /** Ends a pass: the first prev of a list that keeps its tail there, and the last next. */
  method Close<V>(kind: Kind, list: Node<V>, tail: Node<V>, ghost out: seq<Node<V>>, ghost src: seq<Node<V>>)
    requires out != [] && Open(kind, out) && Ends(out, list, tail)
    requires forall i :: 0 <= i < |out| ==> out[i] in src
    modifies src`next, src`prev
    ensures Linked(kind, out)
  {
    assert out[0] in src && out[|out| - 1] in src;
    if kind.DL? || kind.CDL? {
      list.prev := tail;
    }
    tail.next := if kind.CDL? then list else null;
  }

  lemma MergingLinks<V>(kind: Kind, src: seq<Node<V>>, at: nat, out: seq<Node<V>>,
                        list: Node?<V>, tail: Node?<V>, k: nat)
    requires at <= k < |src| && Merging(kind, src, at, at, at, out, list, tail)
    ensures src[k].next == NextIn(kind, src, k)
  {}

  /** Steps over the first run, of at most insize nodes, to find where the second starts. */
  method FindRunEnd<V>(kind: Kind, p: Node<V>, insize: nat, stop: Node?<V>, ghost src: seq<Node<V>>, ghost at: nat,
                    ghost out: seq<Node<V>>, ghost list: Node?<V>, ghost tail: Node?<V>)
    returns (q: Node?<V>, psize: nat)
    requires insize > 0 && at < |src| && p == src[at]
    requires Distinct(src) && stop == StopOf(kind, src)
    requires Merging(kind, src, at, at, at, out, list, tail)
    ensures psize == Min(insize, |src| - at) && q == NodeAt(src, at + psize)
  {
    hide Distinct, Merging, StopOf;
    q, psize := p, 0;
    var i := 0;
    while i < insize
      invariant 0 <= i == psize <= insize
      invariant at + psize <= |src| && q == NodeAt(src, at + psize)
      invariant psize < insize ==> q != null
    {
      psize := psize + 1;
      MergingLinks(kind, src, at, out, list, tail, at + psize - 1);
      q := Advance(kind, q, stop, src, at + psize - 1);
      if q == null {
        break;
      }
      i := i + 1;
    }
  }

  /** The unread part of the list starts with a run that ends at mid. */
  lemma SplitRuns<V>(kind: Kind, src: seq<Node<V>>, at: nat, mid: nat, out: seq<Node<V>>,
                     list: Node?<V>, tail: Node?<V>)
    requires at <= mid <= |src| && Merging(kind, src, at, at, at, out, list, tail)
    ensures Merging(kind, src, at, mid, mid, out, list, tail)
  {}

  lemma ForgetRuns<V>(kind: Kind, src: seq<Node<V>>, mid: nat, end: nat, out: seq<Node<V>>,
                      list: Node?<V>, tail: Node?<V>)
    requires mid <= end <= |src| && Merging(kind, src, mid, mid, end, out, list, tail)
    ensures Merging(kind, src, end, end, end, out, list, tail)
  {}

  /** The end of the two runs that start at `at`. */
  function RunPairEnd(length: nat, at: nat, w: nat): nat {
    Min(at + 2 * w, length)
  }

  lemma SliceOfSlice<T>(s: seq<T>, at: nat, lo: nat, hi: nat)
    requires lo <= hi && at + hi <= |s|
    ensures s[at..][lo..hi] == s[at + lo..at + hi]
  {}

  lemma PassStepAt<V>(cmp: (Node<V>, Node<V>) -> int, src: seq<Node<V>>, w: nat, at: nat, psize: nat)
    requires w > 0 && at < |src| && psize == Min(w, |src| - at)
    ensures psize > 0 && at + psize <= RunPairEnd(|src|, at, w) == Min(at + psize + w, |src|)
    ensures RunPairEnd(|src|, at, w) == at + 2 * w || RunPairEnd(|src|, at, w) == |src| < at + 2 * w
    ensures PassFrom(cmp, src, at, w)
         == Merged(cmp, src, at, at + psize, at + psize, RunPairEnd(|src|, at, w))
            + PassFrom(cmp, src, RunPairEnd(|src|, at, w), w)
  {
    var end := RunPairEnd(|src|, at, w);
    PassStep(cmp, src[at..], w);
    SliceOfSlice(src, at, 0, psize);
    SliceOfSlice(src, at, psize, end - at);
    SliceOfSlice(src, at, end - at, |src| - at);
    hide Pass, Merge;
  }

  lemma RegroupPass<T>(s: seq<T>, m: seq<T>, t: seq<T>)
    ensures s + (m + t) == s + m + t
  {}

  /** Merges the next two runs of the list; q is where the run after them starts. */
  method MergePair<V>(kind: Kind, cmp: (Node<V>, Node<V>) -> int, stop: Node?<V>, p: Node<V>, insize: nat,
                   list0: Node?<V>, tail0: Node?<V>, ghost src: seq<Node<V>>, ghost at: nat,
                   ghost nmerges: nat, ghost out0: seq<Node<V>>)
    returns (q: Node?<V>, list: Node?<V>, tail: Node?<V>, ghost end: nat, ghost out: seq<Node<V>>)
    requires insize > 0 && at < |src| && p == src[at]
    requires Distinct(src) && stop == StopOf(kind, src)
    requires Passing(cmp, kind, src, insize, at, nmerges, out0, list0, tail0)
    modifies src`next, src`prev
    ensures at < end <= |src| && q == NodeAt(src, end)
    ensures Passing(cmp, kind, src, insize, end, nmerges + 1, out, list, tail)
  {
    hide Distinct, Merging, StopOf, NodeAt, PassFrom, Merged;
    var psize;
    q, psize := FindRunEnd(kind, p, insize, stop, src, at, out0, list0, tail0);
    end := RunPairEnd(|src|, at, insize);
    SplitRuns(kind, src, at, at + psize, out0, list0, tail0);
    PassStepAt(cmp, src, insize, at, psize);
    RegroupPass(out0, Merged(cmp, src, at, at + psize, at + psize, end), PassFrom(cmp, src, end, insize));
    list, tail, q, out := MergeRuns(kind, cmp, stop, p, psize, q, insize, list0, tail0, src, at, end, out0);
    ForgetRuns(kind, src, at + psize, end, out, list, tail);
  }

  lemma StartPass<V>(cmp: (Node<V>, Node<V>) -> int, kind: Kind, src: seq<Node<V>>, w: nat, head: Node<V>)
    requires w > 0 && Linked(kind, src) && src != [] && head == src[0]
    ensures Distinct(src) && Passing(cmp, kind, src, w, 0, 0, [], null, null)
    ensures StopOf(kind, src) == (if kind.CDL? then head else null) && NodeAt(src, 0) == head
  {
    assert src[0..] == src;
  }

  lemma FinishPass<V>(cmp: (Node<V>, Node<V>) -> int, kind: Kind, src: seq<Node<V>>, w: nat, nmerges: nat,
                      out: seq<Node<V>>, list: Node?<V>, tail: Node?<V>)
    requires w > 0 && src != [] && Passing(cmp, kind, src, w, |src|, nmerges, out, list, tail)
    ensures Open(kind, out) && Ends(out, list, tail) && out != [] && list == out[0] && tail != null
    ensures forall i :: 0 <= i < |out| ==> out[i] in src
    ensures out == Pass(cmp, src, w) && |out| == |src|
    ensures nmerges <= 1 <==> |src| <= 2 * w
  {
    assert PassFrom(cmp, src, |src|, w) == [];
  }

  /** One pass: merges the runs of width insize in pairs, rebuilding the list. */
  method SortPass<V>(kind: Kind, cmp: (Node<V>, Node<V>) -> int, head: Node<V>, insize: nat, ghost src: seq<Node<V>>)
    returns (list: Node<V>, tail: Node<V>, nmerges: nat, ghost out: seq<Node<V>>)
    requires Linked(kind, src) && src != [] && head == src[0] && insize > 0
    modifies src`next, src`prev
    ensures out == Pass(cmp, src, insize) && |out| == |src|
    ensures Linked(kind, out) && Ends(out, list, tail)
    ensures nmerges <= 1 <==> |src| <= 2 * insize
  {
    StartPass(cmp, kind, src, insize, head);
    hide *;
    var stop := if kind.CDL? then head else null;
    var p: Node?<V>, l: Node?<V>, t: Node?<V> := head, null, null;
    nmerges := 0;
    ghost var at := 0;
    out := [];
    while p != null
      invariant at <= |src| && p == NodeAt(src, at)
      invariant Passing(cmp, kind, src, insize, at, nmerges, out, l, t)
      decreases |src| - at
    {
      NodeAtEnd(src, at);
      p, l, t, at, out := MergePair(kind, cmp, stop, p, insize, l, t, src, at, nmerges, out);
      nmerges := nmerges + 1;
    }
    NodeAtEnd(src, at);
    FinishPass(cmp, kind, src, insize, nmerges, out, l, t);
    list, tail := l, t;
    Close(kind, list, tail, out, src);
  }

  lemma FirstOf<V>(out: seq<Node<V>>, list: Node?<V>, tail: Node?<V>)
    requires out != [] && Ends(out, list, tail)
    ensures list == out[0]
  {}

  /** A pass rearranges the nodes of the list and adds none. */
  lemma PassStays<V>(cmp: (Node<V>, Node<V>) -> int, cur: seq<Node<V>>, w: nat, src: seq<Node<V>>)
    requires w > 0 && forall i :: 0 <= i < |cur| ==> cur[i] in src
    ensures forall i :: 0 <= i < |cur| ==> Pass(cmp, cur, w)[i] in src
  {
    PassPermutes(cmp, cur, w);
    forall i | 0 <= i < |cur|
      ensures Pass(cmp, cur, w)[i] in src
    {
      assert Pass(cmp, cur, w)[i] in multiset(cur);
    }
  }

  lemma SortStep<V>(cmp: (Node<V>, Node<V>) -> int, s: seq<Node<V>>, w: nat)
    requires w > 0
    ensures SortFrom(cmp, s, w)
         == if |s| <= 2 * w then Pass(cmp, s, w) else SortFrom(cmp, Pass(cmp, s, w), 2 * w)
  {}

  /** Sorts the list that starts at head; returns its new head and tail. */
  method Sort2<V>(kind: Kind, cmp: (Node<V>, Node<V>) -> int, head: Node<V>, ghost src: seq<Node<V>>)
    returns (list: Node<V>, tail: Node<V>, ghost out: seq<Node<V>>)
    requires Linked(kind, src) && src != [] && head == src[0]
    modifies src`next, src`prev
    ensures out == Sort(cmp, src) && |out| == |src|
    ensures Linked(kind, out) && Ends(out, list, tail)
  {
    var insize, looping := 1, true;
    list, tail := head, head;
    out := src;
    while looping
      invariant |out| == |src| && Linked(kind, out) && list == out[0] && insize > 0
      invariant forall i :: 0 <= i < |out| ==> out[i] in src
      invariant if looping then SortFrom(cmp, out, insize) == Sort(cmp, src)
                else out == Sort(cmp, src) && Ends(out, list, tail)
      decreases looping, |src| - insize
    {
      hide *;
      PassStays(cmp, out, insize, src);
      SortStep(cmp, out, insize);
      var nmerges;
      list, tail, nmerges, out := SortPass(kind, cmp, list, insize, out);
      FirstOf(out, list, tail);
      if nmerges <= 1 {
        looping := false;
      }
      insize := insize * 2;
    }
  }
}
