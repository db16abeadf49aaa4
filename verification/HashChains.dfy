/**
 How the items of a hash table are spread over its bucket chains, as sequences: what
 adding, deleting and doubling the buckets do to the chains of uthash.h.

 `hash` gives the full hash value of an item; a table of n buckets keeps it in Slot(hash, n).
 */
module HashChains {
  import opened Bits
  import opened Nodes

  function Slot(x: nat, n: nat): (r: nat)
    requires n > 0
    ensures r < n
  {
    x % n
  }

  ghost predicate SameMembers<T>(s: seq<T>, t: seq<T>) {
    (forall x :: x in s ==> x in t) && (forall x :: x in t ==> x in s)
  }

  /** Every item is in the chain its hash selects, once, and the chains hold nothing else. */
  ghost predicate Placed<T>(hash: T -> nat, items: seq<T>, chains: seq<seq<T>>) {
    && |chains| > 0
    && (forall b :: 0 <= b < |chains| ==> Distinct(chains[b]))
    && (forall b, x :: 0 <= b < |chains| && x in chains[b] ==> x in items && Slot(hash(x), |chains|) == b)
    && (forall x :: x in items ==> x in chains[Slot(hash(x), |chains|)])
  }

  ghost function NoChains<T>(n: nat): (r: seq<seq<T>>)
    ensures |r| == n && forall b :: 0 <= b < n ==> r[b] == []
  {
    seq(n, _ => [])
  }

  lemma PlacedEmpty<T>(hash: T -> nat, n: nat)
    requires n > 0
    ensures Placed(hash, [], NoChains(n))
  {}

  /** Chain b with x pushed onto its front. */
  ghost function Pushed<T>(chains: seq<seq<T>>, b: nat, x: T): (r: seq<seq<T>>)
    requires b < |chains|
    ensures |r| == |chains|
  {
    chains[b := [x] + chains[b]]
  }

  lemma PlacedPush<T>(hash: T -> nat, items: seq<T>, chains: seq<seq<T>>, x: T)
    requires Placed(hash, items, chains) && x !in items
    ensures Placed(hash, items + [x], Pushed(chains, Slot(hash(x), |chains|), x))
  {
    var n := |chains|;
    hide Slot;
    var b := Slot(hash(x), n);
    var r := Pushed(chains, b, x);
    assert x !in chains[b];
    assert Distinct(r[b]);
    forall y | y in items + [x]
      ensures y in r[Slot(hash(y), n)]
    {}
  }

  lemma PlacedRemove<T>(hash: T -> nat, items: seq<T>, chains: seq<seq<T>>, k: nat, j: nat)
    requires Placed(hash, items, chains) && Distinct(items) && k < |items|
    requires var b := Slot(hash(items[k]), |chains|); j < |chains[b]| && chains[b][j] == items[k]
    ensures var b := Slot(hash(items[k]), |chains|);
      Placed(hash, Without(items, k), chains[b := Without(chains[b], j)])
  {
    var n, x := |chains|, items[k];
    hide Slot;
    var b := Slot(hash(x), n);
    DistinctWithout(items, k);
    DistinctWithout(chains[b], j);
    hide Without, Distinct;
    var r := chains[b := Without(chains[b], j)];
    forall c, y | 0 <= c < n && y in r[c]
      ensures y in Without(items, k) && Slot(hash(y), n) == c
    {
      assert y in chains[c];
    }
  }

  lemma PlacedReorder<T>(hash: T -> nat, items: seq<T>, items': seq<T>, chains: seq<seq<T>>)
    requires Placed(hash, items, chains) && SameMembers(items, items')
    ensures Placed(hash, items', chains)
  {}

  /** An item occurs at one place in one chain. */
  lemma PlacedWhere<T>(hash: T -> nat, items: seq<T>, chains: seq<seq<T>>, x: T) returns (j: nat)
    requires Placed(hash, items, chains) && x in items
    ensures var b := Slot(hash(x), |chains|); j < |chains[b]| && chains[b][j] == x
  {
    var b := Slot(hash(x), |chains|);
    j :| 0 <= j < |chains[b]| && chains[b][j] == x;
  }

  // ----- All chains, one after the other --------------------------------------------

  ghost function Flat<T>(chains: seq<seq<T>>): (r: seq<T>)
    ensures forall x :: x in r ==> exists b :: 0 <= b < |chains| && x in chains[b]
    ensures forall b, x :: 0 <= b < |chains| && x in chains[b] ==> x in r
  {
    if chains == [] then [] else Flat(chains[..|chains| - 1]) + chains[|chains| - 1]
  }

  lemma {:induction false} FlatDistinct<T>(hash: T -> nat, items: seq<T>, chains: seq<seq<T>>, m: nat)
    requires Placed(hash, items, chains) && m <= |chains|
    ensures Distinct(Flat(chains[..m]))
    decreases m
  {
    hide Slot;
    if m > 0 {
      FlatDistinct(hash, items, chains, m - 1);
      var init := chains[..m][..m - 1];
      assert init == chains[..m - 1];
      forall x | x in Flat(init)
        ensures x !in chains[m - 1]
      {
        var b :| 0 <= b < |init| && x in init[b];
        assert x in chains[b] && Slot(hash(x), |chains|) == b;
      }
      DistinctAppend(Flat(init), chains[m - 1]);
    }
  }

  lemma FirstIsMember<T>(s: seq<T>)
    ensures s != [] ==> s[0] in s
  {}

  lemma {:induction false} SameSize<T>(s: seq<T>, t: seq<T>)
    requires Distinct(s) && Distinct(t) && SameMembers(s, t)
    ensures |s| == |t|
  {
    if s != [] {
      var n := |s| - 1;
      assert s[n] in t;
      var k :| 0 <= k < |t| && t[k] == s[n];
      DistinctWithout(s, n);
      DistinctWithout(t, k);
      hide Without, Distinct;
      SameSize(Without(s, n), Without(t, k));
    } else {
      FirstIsMember(t);
    }
  }

  /** Counting the items chain by chain counts every item once. */
  lemma FlatPlaced<T>(hash: T -> nat, items: seq<T>, chains: seq<seq<T>>)
    requires Placed(hash, items, chains) && Distinct(items)
    ensures Distinct(Flat(chains)) && SameMembers(Flat(chains), items)
    ensures |Flat(chains)| == |items|
  {
    FlatDistinct(hash, items, chains, |chains|);
    assert chains[..|chains|] == chains;
    SameSize(Flat(chains), items);
  }

  // ----- Doubling the buckets -------------------------------------------------------

  /** The items of s that belong in bucket b of n, the last one first. */
  ghost function Picked<T>(hash: T -> nat, s: seq<T>, b: nat, n: nat): (r: seq<T>)
    requires n > 0
    ensures forall x :: x in r ==> x in s && Slot(hash(x), n) == b
    ensures forall x :: x in s && Slot(hash(x), n) == b ==> x in r
  {
    if s == [] then []
    else
      var last := |s| - 1;
      (if Slot(hash(s[last]), n) == b then [s[last]] else []) + Picked(hash, s[..last], b, n)
  }

  /** The items of s pushed, in order, onto the n empty chains their hashes select. */
  ghost function Spread<T>(hash: T -> nat, s: seq<T>, n: nat): (r: seq<seq<T>>)
    requires n > 0
    ensures |r| == n && forall b :: 0 <= b < n ==> r[b] == Picked(hash, s, b, n)
  {
    seq(n, b requires 0 <= b < n => Picked(hash, s, b, n))
  }

  lemma SpreadPush<T>(hash: T -> nat, s: seq<T>, x: T, n: nat)
    requires n > 0
    ensures Spread(hash, s + [x], n) == Pushed(Spread(hash, s, n), Slot(hash(x), n), x)
  {
    hide Slot;
    assert (s + [x])[..|s|] == s;
    var l, r := Spread(hash, s + [x], n), Pushed(Spread(hash, s, n), Slot(hash(x), n), x);
    forall b | 0 <= b < n
      ensures l[b] == r[b]
    {
      assert l[b] == Picked(hash, s + [x], b, n);
    }
  }

  lemma {:induction false} PickedDistinct<T>(hash: T -> nat, s: seq<T>, b: nat, n: nat)
    requires n > 0 && Distinct(s)
    ensures Distinct(Picked(hash, s, b, n))
  {
    if s != [] {
      var last := |s| - 1;
      PickedDistinct(hash, s[..last], b, n);
      assert s[last] !in s[..last];
    }
  }

  lemma SpreadPlaced<T>(hash: T -> nat, items: seq<T>, s: seq<T>, n: nat)
    requires n > 0 && Distinct(s) && SameMembers(s, items)
    ensures Placed(hash, items, Spread(hash, s, n))
  {
    hide Slot;
    forall b | 0 <= b < n
      ensures Distinct(Spread(hash, s, n)[b])
    {
      PickedDistinct(hash, s, b, n);
    }
  }

  lemma PickedMore<T>(hash: T -> nat, s: seq<T>, x: T, b: nat, n: nat)
    requires n > 0
    ensures Picked(hash, s + [x], b, n) == (if Slot(hash(x), n) == b then [x] else []) + Picked(hash, s, b, n)
  {
    assert (s + [x])[..|s|] == s;
  }

  lemma Regroup<T>(a: seq<T>, b: seq<T>, c: seq<T>)
    ensures a + (b + c) == a + b + c
  {}

  lemma LastApart<T>(s: seq<T>, t: seq<T>)
    requires t != []
    ensures var before, x := t[..|t| - 1], t[|t| - 1];
      t == before + [x] && s + t == s + before + [x]
  {}

  lemma {:induction false} PickedAppend<T>(hash: T -> nat, s: seq<T>, t: seq<T>, b: nat, n: nat)
    requires n > 0
    ensures Picked(hash, s + t, b, n) == Picked(hash, t, b, n) + Picked(hash, s, b, n)
  {
    if t == [] {
      assert s + t == s;
    } else {
      var last := |t| - 1;
      var before, x := t[..last], t[last];
      PickedMore(hash, s + before, x, b, n);
      PickedMore(hash, before, x, b, n);
      hide *;
      LastApart(s, t);
      PickedAppend(hash, s, before, b, n);
      Regroup(if Slot(hash(x), n) == b then [x] else [], Picked(hash, before, b, n), Picked(hash, s, b, n));
    }
  }

  lemma SlotDouble(x: nat, n: nat)
    requires n > 0
    ensures Slot(x, 2 * n) == Slot(x, n) || Slot(x, 2 * n) == Slot(x, n) + n
  {
    ModDouble(x, n);
  }

  /** The old bucket from which bucket b of the doubled table is filled. */
  function FilledFrom(b: nat, n: nat): nat {
    if b < n then b else b - n
  }

  lemma PickedNone<T>(hash: T -> nat, s: seq<T>, i: nat, b: nat, n: nat)
    requires i < n && b < 2 * n && i != FilledFrom(b, n)
    requires forall x :: x in s ==> Slot(hash(x), n) == i
    ensures Picked(hash, s, b, 2 * n) == []
  {
    hide Slot;
    var r := Picked(hash, s, b, 2 * n);
    forall x | x in s
      ensures Slot(hash(x), 2 * n) != b
    {
      SlotDouble(hash(x), n);
    }
    FirstIsMember(r);
  }

  lemma PickedEmpty<T>(hash: T -> nat, b: nat, n: nat)
    requires n > 0
    ensures Picked(hash, [], b, n) == []
  {}

  lemma FlatEnds<T>(chains: seq<seq<T>>)
    ensures chains[..|chains|] == chains && |Flat(chains[..0])| == 0
  {}

  lemma FlatLast<T>(chains: seq<seq<T>>, m: nat)
    requires 0 < m <= |chains|
    ensures Flat(chains[..m]) == Flat(chains[..m - 1]) + chains[m - 1]
  {
    assert chains[..m][..m - 1] == chains[..m - 1];
  }

  /** Bucket b of the doubled table takes only from old bucket b or b - n, in reverse order. */
  lemma {:induction false} SpreadFromOne<T>(hash: T -> nat, items: seq<T>, chains: seq<seq<T>>, m: nat, b: nat)
    requires Placed(hash, items, chains) && m <= |chains| && b < 2 * |chains|
    ensures var n := |chains|;
      Picked(hash, Flat(chains[..m]), b, 2 * n)
        == if FilledFrom(b, n) < m then Picked(hash, chains[FilledFrom(b, n)], b, 2 * n) else []
    decreases m
  {
    var n := |chains|;
    hide Slot, Picked, Distinct;
    if m > 0 {
      SpreadFromOne(hash, items, chains, m - 1, b);
      FlatLast(chains, m);
      PickedAppend(hash, Flat(chains[..m - 1]), chains[m - 1], b, 2 * n);
      if m - 1 != FilledFrom(b, n) {
        PickedNone(hash, chains[m - 1], m - 1, b, n);
      }
    } else {
      PickedEmpty(hash, b, 2 * n);
    }
  }

  lemma AllSpreadFromOne<T>(hash: T -> nat, items: seq<T>, chains: seq<seq<T>>, b: nat)
    requires Placed(hash, items, chains) && b < 2 * |chains|
    ensures var n := |chains|;
      Picked(hash, Flat(chains), b, 2 * n) == Picked(hash, chains[FilledFrom(b, n)], b, 2 * n)
  {
    hide Slot, Flat, Picked, Distinct, Placed;
    SpreadFromOne(hash, items, chains, |chains|, b);
    assert chains[..|chains|] == chains;
  }

  lemma SlotOfChain<T>(hash: T -> nat, items: seq<T>, chains: seq<seq<T>>, i: nat)
    requires Placed(hash, items, chains) && i < |chains|
    ensures forall x :: x in chains[i] ==> Slot(hash(x), |chains|) == i
  {}

  lemma SpreadAt<T>(hash: T -> nat, s: seq<T>, n: nat, b: nat)
    requires b < n
    ensures Spread(hash, s, n)[b] == Picked(hash, s, b, n)
  {}

  lemma {:induction false} SplitCounts<T>(hash: T -> nat, s: seq<T>, i: nat, n: nat)
    requires i < n && forall x :: x in s ==> Slot(hash(x), n) == i
    ensures |Picked(hash, s, i, 2 * n)| + |Picked(hash, s, i + n, 2 * n)| == |s|
  {
    hide Slot;
    if s != [] {
      var last := |s| - 1;
      SplitCounts(hash, s[..last], i, n);
      SlotDouble(hash(s[last]), n);
    }
  }

  /** The chains after doubling: each old chain splits, by one more hash bit, into two. */
  lemma DoublingSplits<T>(hash: T -> nat, items: seq<T>, chains: seq<seq<T>>, i: nat)
    requires Placed(hash, items, chains) && i < |chains|
    ensures var n, r := |chains|, Spread(hash, Flat(chains), 2 * |chains|);
      && r[i] == Picked(hash, chains[i], i, 2 * n)
      && r[i + n] == Picked(hash, chains[i], i + n, 2 * n)
      && |r[i]| + |r[i + n]| == |chains[i]|
  {
    var n := |chains|;
    SlotOfChain(hash, items, chains, i);
    SpreadAt(hash, Flat(chains), 2 * n, i);
    SpreadAt(hash, Flat(chains), 2 * n, i + n);
    assert FilledFrom(i, n) == i == FilledFrom(i + n, n);
    hide *;
    SplitCounts(hash, chains[i], i, n);
    AllSpreadFromOne(hash, items, chains, i);
    AllSpreadFromOne(hash, items, chains, i + n);
  }

  lemma {:induction false} ChainInFlat<T>(chains: seq<seq<T>>, b: nat)
    requires b < |chains|
    ensures |chains[b]| <= |Flat(chains)|
  {
    var last := |chains| - 1;
    assert chains[..|chains|] == chains;
    FlatLast(chains, |chains|);
    if b < last {
      ChainInFlat(chains[..last], b);
    }
  }
}
