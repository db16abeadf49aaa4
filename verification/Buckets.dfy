/**
 The buckets of a uthash table: heads, counts and multipliers in an array, chains linked
 through the nodes, and the redistribution of all chains when the buckets are doubled.

 `chains[b]` is the chain of bucket b as a sequence of nodes.
 */
module Buckets {
  import opened Bits
  import opened HashChains
  import opened Nodes

  const BKT_CAPACITY_THRESH: nat := 10

  datatype Bucket<V> = Bucket(head: Node?<V>, count: nat, expandMult: nat)

  /** HASH_TO_BKT: the bucket index is the hash masked with the bucket count less one. */
  function ToBkt(hashv: nat, numBuckets: nat): nat
    requires numBuckets > 0
  {
    And(hashv, numBuckets - 1)
  }

  lemma ToBktIsSlot(hashv: nat, numBuckets: nat, log2: nat)
    requires numBuckets == Pow2(log2)
    ensures ToBkt(hashv, numBuckets) == hashv % numBuckets == Slot(hashv, numBuckets)
  {
    AndMask(hashv, log2);
  }

  // ----- Bucket chains ---------------------------------------------------------------

  ghost function Members<V>(chains: seq<seq<Node<V>>>): set<Node<V>> {
    set b, i | 0 <= b < |chains| && 0 <= i < |chains[b]| :: chains[b][i]
  }

  /** The hh_next and hh_prev links, the head and the count of a bucket spell out its chain. */
  ghost predicate ChainLinked<V>(chain: seq<Node<V>>, bkt: Bucket<V>)
    reads chain`hhNext, chain`hhPrev
  {
    && bkt.head == NodeAt(chain, 0)
    && bkt.count == |chain|
    && (forall i {:trigger chain[i].hhNext} :: 0 <= i < |chain| ==> chain[i].hhNext == NodeAt(chain, i + 1))
    && (forall i {:trigger chain[i].hhPrev} :: 0 <= i < |chain| ==>
          chain[i].hhPrev == if i > 0 then chain[i - 1] else null)
  }

  /** Following hh_next from the head of a bucket leads through the chain and ends. */
  ghost predicate ChainWalkable<V>(chain: seq<Node<V>>, bkt: Bucket<V>)
    reads chain`hhNext
  {
    && bkt.head == NodeAt(chain, 0)
    && forall n {:trigger chain[n].hhNext} :: 0 <= n < |chain| ==> chain[n].hhNext == NodeAt(chain, n + 1)
  }

  /** The back links and the count of a chain are right. */
  ghost predicate ChainSound<V>(chain: seq<Node<V>>, bkt: Bucket<V>)
    reads chain`hhPrev
  {
    && (forall n {:trigger chain[n].hhPrev} :: 0 <= n < |chain| ==>
          chain[n].hhPrev == if n > 0 then chain[n - 1] else null)
    && bkt.count == |chain|
  }

  ghost predicate AllLinked<V>(chains: seq<seq<Node<V>>>, bkts: seq<Bucket<V>>)
    reads Members(chains)`hhNext, Members(chains)`hhPrev
  {
    && |chains| == |bkts|
    && forall b :: 0 <= b < |chains| ==> ChainLinked(chains[b], bkts[b])
  }

  lemma InOneChain<V>(hash: Node<V> -> nat, items: seq<Node<V>>, chains: seq<seq<Node<V>>>, b: nat)
    requires Placed(hash, items, chains) && b < |chains|
    ensures Distinct(chains[b]) && forall x :: x in chains[b] ==> x in items
    ensures forall c, x :: 0 <= c < |chains| && c != b && x in chains[c] ==> x !in chains[b] && x in items
  {}

  /** Puts h, which is in no chain yet, at the front of bucket b. */
  method PushFront<V>(bkts: array<Bucket<V>>, b: nat, h: Node<V>, ghost hash: Node<V> -> nat,
                      ghost items: seq<Node<V>>, ghost chains: seq<seq<Node<V>>>)
    requires bkts.Length == |chains| && b < |chains|
    requires Placed(hash, items, chains) && h !in items
    requires AllLinked(chains, bkts[..])
    modifies bkts, h`hhNext, h`hhPrev, chains[b]`hhPrev
    ensures AllLinked(Pushed(chains, b, h), bkts[..])
    ensures bkts[..] == old(bkts[..])[b := Bucket(h, old(bkts[b].count) + 1, old(bkts[b].expandMult))]
  {
    InOneChain(hash, items, chains, b);
    hide Placed;
    var bkt := bkts[b];
    assert ChainLinked(chains[b], bkts[..][b]);
    h.hhNext := bkt.head;
    h.hhPrev := null;
    if bkt.head != null {
      assert bkt.head in chains[b];
      bkt.head.hhPrev := h;
    }
    bkts[b] := Bucket(h, bkt.count + 1, bkt.expandMult);
    ghost var r := Pushed(chains, b, h);
    assert ChainLinked(r[b], bkts[..][b]);
    forall c | 0 <= c < |r| && c != b
      ensures ChainLinked(r[c], bkts[..][c])
    {
      assert ChainLinked(chains[c], old(bkts[..])[c]);
    }
  }

  /** Finds an item with the given key by walking one chain. */
  method FindInBkt<K(==), V>(bkt: Bucket<V>, keyOf: V -> K, key: K, ghost chain: seq<Node<V>>)
    returns (out: Node?<V>)
    requires ChainLinked(chain, bkt)
    ensures out != null ==> out in chain && keyOf(out.val) == key
    ensures out == null ==> forall x :: x in chain ==> keyOf(x.val) != key
  {
    out := bkt.head;
    ghost var i := 0;
    while out != null
      invariant i <= |chain| && out == NodeAt(chain, i)
      invariant forall x :: x in chain[..i] ==> keyOf(x.val) != key
      decreases |chain| - i
    {
      if keyOf(out.val) == key {
        break;
      }
      assert chain[..i + 1] == chain[..i] + [out];
      out := out.hhNext;
      i := i + 1;
    }
    assert chain[..|chain|] == chain;
  }

  /** The links step over the j-th node of a chain, so they spell out the rest of it. */
  lemma ChainAround<V>(chain: seq<Node<V>>, j: nat, bkt: Bucket<V>)
    requires j < |chain| && Distinct(chain)
    requires forall i {:trigger chain[i].hhNext} :: 0 <= i < |chain| && i != j ==>
      chain[i].hhNext == NodeAt(chain, if i + 1 == j then j + 1 else i + 1)
    requires forall i {:trigger chain[i].hhPrev} :: 0 <= i < |chain| && i != j ==>
      chain[i].hhPrev == if i == j + 1 then (if j > 0 then chain[j - 1] else null) else if i > 0 then chain[i - 1] else null
    requires bkt.count == |chain| - 1 && bkt.head == (if j == 0 then NodeAt(chain, 1) else chain[0])
    ensures ChainLinked(Without(chain, j), bkt)
  {
    hide Without, Distinct;
  }

  /** Unlinks h, the j-th node of bucket b. */
  method DelInBkt<V>(bkts: array<Bucket<V>>, b: nat, h: Node<V>, ghost j: nat, ghost hash: Node<V> -> nat,
                     ghost items: seq<Node<V>>, ghost chains: seq<seq<Node<V>>>)
    requires bkts.Length == |chains| && b < |chains| && j < |chains[b]| && chains[b][j] == h
    requires Placed(hash, items, chains) && AllLinked(chains, bkts[..])
    modifies bkts, chains[b]`hhNext, chains[b]`hhPrev
    ensures AllLinked(chains[b := Without(chains[b], j)], bkts[..])
    ensures forall c :: 0 <= c < bkts.Length && c != b ==> bkts[c] == old(bkts[c])
    ensures bkts[b].count == old(bkts[b].count) - 1 && bkts[b].expandMult == old(bkts[b].expandMult)
  {
    InOneChain(hash, items, chains, b);
    hide Placed;
    ghost var chain := chains[b];
    assert ChainLinked(chain, bkts[..][b]);
    bkts[b] := bkts[b].(count := bkts[b].count - 1);
    if bkts[b].head == h {
      bkts[b] := bkts[b].(head := h.hhNext);
    }
    if h.hhPrev != null {
      assert h.hhPrev == chain[j - 1] && h.hhPrev in chain;
      h.hhPrev.hhNext := h.hhNext;
    }
    if h.hhNext != null {
      assert h.hhNext == chain[j + 1] && h.hhNext in chain;
      h.hhNext.hhPrev := h.hhPrev;
    }
    ChainAround(chain, j, bkts[b]);
    ghost var r := chains[b := Without(chain, j)];
    assert ChainLinked(r[b], bkts[..][b]);
    forall c | 0 <= c < |r| && c != b
      ensures ChainLinked(r[c], bkts[..][c])
    {
      assert ChainLinked(chains[c], old(bkts[..])[c]);
    }
  }

  // ----- Doubling the buckets --------------------------------------------------------

  /** Items beyond the ideal chain length, summed over the buckets. */
  ghost function Excess<V>(bkts: seq<Bucket<V>>, ideal: nat): nat {
    if bkts == [] then 0
    else
      var last := |bkts| - 1;
      Excess(bkts[..last], ideal) + (if bkts[last].count > ideal then bkts[last].count - ideal else 0)
  }

  /** The places in the chains beyond the ideal length. */
  ghost function Beyond<V>(bkts: seq<Bucket<V>>, ideal: nat): set<(nat, nat)> {
    set b: nat, n: nat | b < |bkts| && ideal <= n < bkts[b].count :: (b, n)
  }

  ghost function BeyondIn(b: nat, lo: nat, hi: nat): set<(nat, nat)> {
    set n: nat | lo <= n < hi :: (b, n)
  }

  lemma {:induction false} BeyondInCount(b: nat, lo: nat, hi: nat)
    ensures |BeyondIn(b, lo, hi)| == if hi > lo then hi - lo else 0
  {
    if hi > lo {
      BeyondInCount(b, lo, hi - 1);
      assert BeyondIn(b, lo, hi) == BeyondIn(b, lo, hi - 1) + {(b, hi - 1)};
    } else {
      assert BeyondIn(b, lo, hi) == {};
    }
  }

  /** The excess counts those places. */
  lemma {:induction false} ExcessCounts<V>(bkts: seq<Bucket<V>>, ideal: nat)
    ensures Excess(bkts, ideal) == |Beyond(bkts, ideal)|
  {
    if bkts == [] {
      assert Beyond(bkts, ideal) == {};
    } else {
      var last := |bkts| - 1;
      var before, here := Beyond(bkts[..last], ideal), BeyondIn(last, ideal, bkts[last].count);
      ExcessCounts(bkts[..last], ideal);
      BeyondInCount(last, ideal, bkts[last].count);
      assert Beyond(bkts, ideal) == before + here;
      assert before !! here;
    }
  }

  lemma {:induction false} ExcessUpdate<V>(bkts: seq<Bucket<V>>, ideal: nat, b: nat, bkt: Bucket<V>)
    requires b < |bkts| && bkt.count == bkts[b].count + 1
    ensures Excess(bkts[b := bkt], ideal) == Excess(bkts, ideal) + (if bkt.count > ideal then 1 else 0)
  {
    var last := |bkts| - 1;
    if b < last {
      ExcessUpdate(bkts[..last], ideal, b, bkt);
      assert bkts[b := bkt][..last] == bkts[..last][b := bkt];
    } else {
      assert bkts[b := bkt][..last] == bkts[..last];
    }
  }

  lemma {:induction false} ExcessEmpty<V>(bkts: seq<Bucket<V>>, ideal: nat)
    requires forall b :: 0 <= b < |bkts| ==> bkts[b].count == 0
    ensures Excess(bkts, ideal) == 0
  {
    if bkts != [] {
      ExcessEmpty(bkts[..|bkts| - 1], ideal);
    }
  }

  function Quotient(x: nat, n: nat): nat
    requires n > 0
  {
    Division(x, n);
    x / n
  }

  /** The multiplier of an over-full bucket is how often the ideal length fits its count. */
  ghost predicate MultExact<V>(bkt: Bucket<V>, ideal: nat)
    requires ideal > 0
  {
    bkt.expandMult == if bkt.count > ideal then Quotient(bkt.count, ideal) else 0
  }

  lemma MultIs<V>(bkt: Bucket<V>, ideal: nat)
    requires ideal > 0
    ensures MultExact(bkt, ideal) <==> bkt.expandMult == if bkt.count > ideal then bkt.count / ideal else 0
  {}

  /** The nodes that the expansion has not reached keep their old chain links. */
  ghost predicate Pending<V>(chains: seq<seq<Node<V>>>, i: nat, k: nat)
    reads Members(chains)`hhNext
  {
    forall b, j {:trigger chains[b][j].hhNext} ::
      i <= b < |chains| && 0 <= j < |chains[b]| && (b == i ==> k <= j) ==>
        chains[b][j].hhNext == NodeAt(chains[b], j + 1)
  }

  /** The items moved before the k-th of bucket i. */
  ghost function Moved<V>(chains: seq<seq<Node<V>>>, i: nat, k: nat): seq<Node<V>>
    requires i < |chains| && k <= |chains[i]|
  {
    Flat(chains[..i]) + chains[i][..k]
  }

  /** In distinct elements, each one is none of those before it. */
  lemma PrefixNext<T>(s: seq<T>, t: seq<T>, k: nat)
    requires Distinct(s + t) && k < |t|
    ensures Distinct(s + t[..k]) && t[k] !in s + t[..k]
    ensures s + t[..k + 1] == s + t[..k] + [t[k]]
    ensures t[k] in s + t && forall x :: x in s + t[..k] ==> x in s + t
  {
    var n := |s| + k;
    assert (s + t)[..n] == s + t[..k] && (s + t)[n] == t[k];
    assert t[..k + 1] == t[..k] + [t[k]];
  }

  lemma MovedNext<V>(hash: Node<V> -> nat, items: seq<Node<V>>, chains: seq<seq<Node<V>>>, i: nat, k: nat)
    requires Placed(hash, items, chains) && i < |chains| && k < |chains[i]|
    ensures Distinct(Moved(chains, i, k)) && chains[i][k] !in Moved(chains, i, k) && chains[i][k] in items
    ensures Moved(chains, i, k + 1) == Moved(chains, i, k) + [chains[i][k]]
    ensures forall x :: x in Moved(chains, i, k) ==> x in items
  {
    FlatDistinct(hash, items, chains, i + 1);
    FlatLast(chains, i + 1);
    PrefixNext(Flat(chains[..i]), chains[i], k);
    hide Flat, Placed, Distinct;
  }

  lemma MovedAll<V>(chains: seq<seq<Node<V>>>, i: nat)
    requires i < |chains|
    ensures Moved(chains, i, 0) == Flat(chains[..i])
    ensures Moved(chains, i, |chains[i]|) == Flat(chains[..i + 1])
  {
    FlatLast(chains, i + 1);
    assert chains[i][..|chains[i]|] == chains[i];
  }

  /** What the expansion keeps while it moves the items in `done`. */
  ghost predicate Moving<V>(hash: Node<V> -> nat, done: seq<Node<V>>, bkts: seq<Bucket<V>>, ideal: nat, nonideal: nat)
    requires ideal > 0 && bkts != []
    reads Members(Spread(hash, done, |bkts|))`hhNext, Members(Spread(hash, done, |bkts|))`hhPrev
  {
    && AllLinked(Spread(hash, done, |bkts|), bkts)
    && (forall b :: 0 <= b < |bkts| ==> MultExact(bkts[b], ideal))
    && nonideal == Excess(bkts, ideal)
  }

  lemma MovingParts<V>(hash: Node<V> -> nat, done: seq<Node<V>>, bkts: seq<Bucket<V>>, thh: Node<V>, bkt: nat,
                       ideal: nat, nonideal: nat, items: seq<Node<V>>)
    requires ideal > 0 && bkts != [] && Moving(hash, done, bkts, ideal, nonideal)
    requires Distinct(done) && (forall x :: x in done + [thh] ==> x in items) && bkt < |bkts|
    ensures var chains := Spread(hash, done, |bkts|);
      && AllLinked(chains, bkts) && Placed(hash, done, chains) && |chains| == |bkts|
      && forall n :: 0 <= n < |chains[bkt]| ==> chains[bkt][n] in items
    ensures thh in items
    ensures (forall b :: 0 <= b < |bkts| ==> MultExact(bkts[b], ideal)) && nonideal == Excess(bkts, ideal)
  {
    var chains := Spread(hash, done, |bkts|);
    SpreadPlaced(hash, done, done, |bkts|);
    hide AllLinked, Slot, Distinct, Excess, MultExact;
    assert thh == (done + [thh])[|done|];
    forall n | 0 <= n < |chains[bkt]|
      ensures chains[bkt][n] in items
    {
      assert chains[bkt][n] in chains[bkt] && chains[bkt][n] in done;
      assert chains[bkt][n] in done + [thh];
    }
  }

  lemma LinkedWithMult<V>(chains: seq<seq<Node<V>>>, bkts: seq<Bucket<V>>, b: nat, mult: nat)
    requires AllLinked(chains, bkts) && b < |bkts|
    ensures AllLinked(chains, bkts[b := bkts[b].(expandMult := mult)])
  {}

  lemma MovedCounts<V>(bkts: seq<Bucket<V>>, bkts': seq<Bucket<V>>, b: nat, ideal: nat)
    requires ideal > 0 && b < |bkts| && |bkts'| == |bkts| && bkts' == bkts[b := bkts'[b]]
    requires forall c :: 0 <= c < |bkts| ==> MultExact(bkts[c], ideal)
    requires bkts'[b].count == bkts[b].count + 1
    requires bkts'[b].expandMult
          == if bkts'[b].count > ideal then Quotient(bkts'[b].count, ideal) else bkts[b].expandMult
    ensures forall c :: 0 <= c < |bkts| ==> MultExact(bkts'[c], ideal)
    ensures Excess(bkts', ideal) == Excess(bkts, ideal) + (if bkts'[b].count > ideal then 1 else 0)
  {
    assert MultExact(bkts[b], ideal);
    ExcessUpdate(bkts, ideal, b, bkts'[b]);
  }

  lemma MovingNext<V>(hash: Node<V> -> nat, done: seq<Node<V>>, thh: Node<V>, before: seq<Bucket<V>>, bkt: nat,
                      pushed: seq<Bucket<V>>, after: seq<Bucket<V>>, ideal: nat, nonideal0: nat, nonideal: nat)
    requires ideal > 0 && |before| == |pushed| == |after| && bkt < |before| && bkt == Slot(hash(thh), |before|)
    requires AllLinked(Pushed(Spread(hash, done, |before|), bkt, thh), pushed)
    requires (forall b :: 0 <= b < |before| ==> MultExact(before[b], ideal)) && nonideal0 == Excess(before, ideal)
    requires pushed == before[bkt := Bucket(thh, before[bkt].count + 1, before[bkt].expandMult)]
    requires var c := before[bkt].count + 1;
      && after == pushed[bkt := Bucket(thh, c, if c > ideal then Quotient(c, ideal) else before[bkt].expandMult)]
      && nonideal == nonideal0 + (if c > ideal then 1 else 0)
    ensures Moving(hash, done + [thh], after, ideal, nonideal)
  {
    SpreadPush(hash, done, thh, |before|);
    hide Slot, Spread, Pushed, AllLinked, Quotient, Excess;
    LinkedWithMult(Pushed(Spread(hash, done, |before|), bkt, thh), pushed, bkt, after[bkt].expandMult);
    assert after == before[bkt := after[bkt]];
    assert after == pushed[bkt := pushed[bkt].(expandMult := after[bkt].expandMult)];
    MovedCounts(before, after, bkt, ideal);
  }

  /** Moves one item to the bucket its hash selects. */
  method MoveItem<V>(thh: Node<V>, bkt: nat, newBkts: array<Bucket<V>>, ideal: nat, nonideal0: nat,
                     ghost hash: Node<V> -> nat, ghost done: seq<Node<V>>, ghost items: seq<Node<V>>)
    returns (nonideal: nat)
    requires ideal > 0 && newBkts.Length > 0 && bkt == Slot(hash(thh), newBkts.Length)
    requires Distinct(done) && thh !in done && forall x :: x in done + [thh] ==> x in items
    requires Moving(hash, done, newBkts[..], ideal, nonideal0)
    modifies newBkts, items`hhNext, items`hhPrev
    ensures Moving(hash, done + [thh], newBkts[..], ideal, nonideal)
    ensures forall x :: x in items && x != thh ==> x.hhNext == old(x.hhNext)
  {
    ghost var chains, before := Spread(hash, done, newBkts.Length), newBkts[..];
    MovingParts(hash, done, before, thh, bkt, ideal, nonideal0, items);
    hide *;
    PushFront(newBkts, bkt, thh, hash, done, chains);
    ghost var pushed := newBkts[..];
    nonideal := nonideal0;
    if newBkts[bkt].count > ideal {
      nonideal := nonideal + 1;
      newBkts[bkt] := newBkts[bkt].(expandMult := Quotient(newBkts[bkt].count, ideal));
    }
    MovingNext(hash, done, thh, before, bkt, pushed, newBkts[..], ideal, nonideal0, nonideal);
  }

  lemma OtherNodes<V>(hash: Node<V> -> nat, items: seq<Node<V>>, chains: seq<seq<Node<V>>>, i: nat, k: nat)
    requires Placed(hash, items, chains) && i < |chains| && k < |chains[i]|
    ensures forall b, j :: 0 <= b < |chains| && 0 <= j < |chains[b]| && !(b == i && j == k) ==>
      chains[b][j] in items && chains[b][j] != chains[i][k]
  {
    hide Slot;
    forall b, j | 0 <= b < |chains| && 0 <= j < |chains[b]| && !(b == i && j == k)
      ensures chains[b][j] in items && chains[b][j] != chains[i][k]
    {
      assert chains[b][j] in chains[b] && chains[i][k] in chains[i];
    }
  }

  /** Moves the k-th item of old bucket i and steps to the item after it. */
  method MoveNext<V>(thh: Node<V>, ghost log2: nat, newBkts: array<Bucket<V>>, ideal: nat, nonideal0: nat,
                     ghost hash: Node<V> -> nat, ghost items: seq<Node<V>>, ghost chains: seq<seq<Node<V>>>,
                     ghost i: nat, ghost k: nat)
    returns (next: Node?<V>, nonideal: nat)
    requires ideal > 0 && newBkts.Length == Pow2(log2)
    requires Placed(hash, items, chains) && i < |chains| && k < |chains[i]| && thh == chains[i][k]
    requires forall x :: x in items ==> x.hashv == hash(x)
    requires Moving(hash, Moved(chains, i, k), newBkts[..], ideal, nonideal0)
    requires Pending(chains, i, k)
    modifies newBkts, items`hhNext, items`hhPrev
    ensures next == NodeAt(chains[i], k + 1)
    ensures Moving(hash, Moved(chains, i, k + 1), newBkts[..], ideal, nonideal)
    ensures Pending(chains, i, k + 1)
  {
    MovedNext(hash, items, chains, i, k);
    OtherNodes(hash, items, chains, i, k);
    ToBktIsSlot(thh.hashv, newBkts.Length, log2);
    hide Placed, Moving, Moved, Slot, ToBkt, Distinct, Pow2, Members, NodeAt;
    next := thh.hhNext;
    var bkt := ToBkt(thh.hashv, newBkts.Length);
    nonideal := MoveItem(thh, bkt, newBkts, ideal, nonideal0, hash, Moved(chains, i, k), items);
  }

  lemma PendingChain<V>(chains: seq<seq<Node<V>>>, i: nat)
    requires i < |chains| && Pending(chains, i, |chains[i]|)
    ensures Pending(chains, i + 1, 0)
  {}

  lemma EndOf<V>(chain: seq<Node<V>>, k: nat)
    requires k <= |chain|
    ensures NodeAt(chain, k) == if k == |chain| then null else chain[k]
  {}

  method MoveEach<V>(head: Node?<V>, ghost log2: nat, newBkts: array<Bucket<V>>, ideal: nat, nonideal0: nat,
                     ghost hash: Node<V> -> nat, ghost items: seq<Node<V>>, ghost chains: seq<seq<Node<V>>>,
                     ghost i: nat)
    returns (nonideal: nat)
    requires ideal > 0 && newBkts.Length == Pow2(log2)
    requires Placed(hash, items, chains) && i < |chains| && head == NodeAt(chains[i], 0)
    requires forall x :: x in items ==> x.hashv == hash(x)
    requires Moving(hash, Moved(chains, i, 0), newBkts[..], ideal, nonideal0)
    requires Pending(chains, i, 0)
    modifies newBkts, items`hhNext, items`hhPrev
    ensures Moving(hash, Moved(chains, i, |chains[i]|), newBkts[..], ideal, nonideal)
    ensures Pending(chains, i, |chains[i]|)
  {
    hide *;
    nonideal := nonideal0;
    var thh := head;
    ghost var k := 0;
    EndOf(chains[i], k);
    while thh != null
      invariant k <= |chains[i]| && thh == NodeAt(chains[i], k) && (thh == null <==> k == |chains[i]|)
      invariant k < |chains[i]| ==> thh == chains[i][k]
      invariant Moving(hash, Moved(chains, i, k), newBkts[..], ideal, nonideal)
      invariant Pending(chains, i, k)
      decreases |chains[i]| - k
    {
      thh, nonideal := MoveNext(thh, log2, newBkts, ideal, nonideal, hash, items, chains, i, k);
      k := k + 1;
      EndOf(chains[i], k);
    }
  }

  /** Moves the items of old bucket i. */
  method MoveChain<V>(head: Node?<V>, ghost log2: nat, newBkts: array<Bucket<V>>, ideal: nat, nonideal0: nat,
                      ghost hash: Node<V> -> nat, ghost items: seq<Node<V>>, ghost chains: seq<seq<Node<V>>>,
                      ghost i: nat)
    returns (nonideal: nat)
    requires ideal > 0 && newBkts.Length == Pow2(log2)
    requires Placed(hash, items, chains) && i < |chains| && head == NodeAt(chains[i], 0)
    requires forall x :: x in items ==> x.hashv == hash(x)
    requires Moving(hash, Flat(chains[..i]), newBkts[..], ideal, nonideal0)
    requires Pending(chains, i, 0)
    modifies newBkts, items`hhNext, items`hhPrev
    ensures Moving(hash, Flat(chains[..i + 1]), newBkts[..], ideal, nonideal)
    ensures Pending(chains, i + 1, 0)
  {
    MovedAll(chains, i);
    hide *;
    nonideal := MoveEach(head, log2, newBkts, ideal, nonideal0, hash, items, chains, i);
    PendingChain(chains, i);
  }

  lemma StartMoving<V>(hash: Node<V> -> nat, newBkts: seq<Bucket<V>>, ideal: nat, chains: seq<seq<Node<V>>>,
                       bkts: seq<Bucket<V>>)
    requires ideal > 0 && newBkts != [] && AllLinked(chains, bkts)
    requires forall b :: 0 <= b < |newBkts| ==> newBkts[b] == Bucket(null, 0, 0)
    ensures Moving(hash, Flat(chains[..0]), newBkts, ideal, 0) && Pending(chains, 0, 0)
    ensures forall i :: 0 <= i < |chains| ==> bkts[i].head == NodeAt(chains[i], 0)
  {
    ExcessEmpty(newBkts, ideal);
    hide Excess, Slot;
    assert forall b :: 0 <= b < |chains| ==> ChainLinked(chains[b], bkts[b]);
  }

  /** Moves every item from the old buckets to the new, twice as many. */
  method Redistribute<V>(bkts: array<Bucket<V>>, log2: nat, newBkts: array<Bucket<V>>, ideal: nat,
                         ghost hash: Node<V> -> nat, ghost items: seq<Node<V>>, ghost chains: seq<seq<Node<V>>>)
    returns (nonideal: nat)
    requires ideal > 0 && bkts != newBkts && bkts.Length == |chains| == Pow2(log2)
    requires newBkts.Length == 2 * bkts.Length
    requires forall b :: 0 <= b < newBkts.Length ==> newBkts[b] == Bucket(null, 0, 0)
    requires Placed(hash, items, chains) && AllLinked(chains, bkts[..])
    requires forall x :: x in items ==> x.hashv == hash(x)
    modifies newBkts, items`hhNext, items`hhPrev
    ensures Moving(hash, Flat(chains), newBkts[..], ideal, nonideal)
  {
    var n := bkts.Length;
    ghost var heads := bkts[..];
    StartMoving(hash, newBkts[..], ideal, chains, heads);
    assert newBkts.Length == Pow2(log2 + 1);
    hide *;
    nonideal := 0;
    var i := 0;
    while i < n
      invariant 0 <= i <= n && bkts[..] == heads
      invariant Moving(hash, Flat(chains[..i]), newBkts[..], ideal, nonideal)
      invariant Pending(chains, i, 0)
    {
      assert bkts[i] == heads[i];
      nonideal := MoveChain(bkts[i].head, log2 + 1, newBkts, ideal, nonideal, hash, items, chains, i);
      i := i + 1;
    }
    assert chains[..n] == chains;
  }

  lemma QuotientBounds(x: nat, n: nat)
    requires n > 0
    ensures Quotient(x, n) * n <= x < n * (Quotient(x, n) + 1)
  {
    Division(x, n);
    Distribute(Quotient(x, n), 1, n);
  }

  /** Right after an expansion no chain exceeds its multiple of the ideal length. */
  lemma ExpansionBounds<V>(bkt: Bucket<V>, ideal: nat)
    requires ideal > 0 && MultExact(bkt, ideal)
    ensures bkt.count <= ideal * (bkt.expandMult + 1)
    ensures ideal < BKT_CAPACITY_THRESH ==> bkt.count < BKT_CAPACITY_THRESH * (bkt.expandMult + 1)
  {
    QuotientBounds(bkt.count, ideal);
    var m := bkt.expandMult + 1;
    if bkt.count > ideal {
      assert bkt.count < ideal * m;
    }
    if ideal < BKT_CAPACITY_THRESH {
      Distribute(BKT_CAPACITY_THRESH, ideal, m);
      MulAtLeast(BKT_CAPACITY_THRESH - ideal, m);
    }
  }
}
