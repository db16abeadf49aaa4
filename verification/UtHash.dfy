/**
 The hash table of datastructures/uthash.h: bucket chains and an application-order list
 over the same nodes, a tail pointer, bucket counts, doubling expansion, an optional Bloom
 filter, and the mergesort of the application order.

 The hash function and the key field are parameters of the table.
 */
module UtHash {
  import opened Bits
  import opened Bloom
  import opened Buckets
  import opened HashChains
  import opened MergeSort
  import opened Nodes
  import ListSort

  const INITIAL_NUM_BUCKETS: nat := 32
  const INITIAL_NUM_BUCKETS_LOG2: nat := 5

  ghost function Hasher<K, V>(keyOf: V -> K, fcn: K -> nat): Node<V> -> nat {
    (x: Node<V>) => fcn(keyOf(x.val))
  }

  ghost predicate HashesStored<V>(hash: Node<V> -> nat, items: seq<Node<V>>)
    reads items`hashv
  {
    forall x :: x in items ==> x.hashv == hash(x)
  }

  // ----- The finite map a table stands for --------------------------------------------

  ghost predicate KeysDistinct<K, V>(keyOf: V -> K, items: seq<Node<V>>) {
    forall i, j :: 0 <= i < j < |items| ==> keyOf(items[i].val) != keyOf(items[j].val)
  }

  ghost function MapOf<K, V>(keyOf: V -> K, items: seq<Node<V>>): (m: map<K, Node<V>>)
    ensures forall x :: x in items ==> keyOf(x.val) in m
    ensures forall k :: k in m ==> m[k] in items && keyOf(m[k].val) == k
  {
    if items == [] then map[]
    else
      var last := |items| - 1;
      MapOf(keyOf, items[..last])[keyOf(items[last].val) := items[last]]
  }

  ghost predicate KeyAbsent<K, V>(keyOf: V -> K, items: seq<Node<V>>, key: K) {
    forall x :: x in items ==> keyOf(x.val) != key
  }

  lemma MapOfItem<K, V>(keyOf: V -> K, items: seq<Node<V>>, x: Node<V>)
    requires KeysDistinct(keyOf, items) && x in items
    ensures MapOf(keyOf, items)[keyOf(x.val)] == x
  {}

  /** Adding an item whose key is absent adds one entry and keeps the keys distinct. */
  lemma MapOfAdd<K, V>(keyOf: V -> K, items: seq<Node<V>>, x: Node<V>)
    requires KeysDistinct(keyOf, items) && KeyAbsent(keyOf, items, keyOf(x.val))
    ensures KeysDistinct(keyOf, items + [x])
    ensures MapOf(keyOf, items + [x]) == MapOf(keyOf, items)[keyOf(x.val) := x]
  {
    assert (items + [x])[..|items|] == items;
    assert forall i :: 0 <= i < |items| ==> items[i] in items;
  }

  lemma FindMeans<K, V>(keyOf: V -> K, items: seq<Node<V>>, key: K)
    ensures KeysDistinct(keyOf, items) && key in MapOf(keyOf, items) ==>
      forall x :: x in items && keyOf(x.val) == key ==> MapOf(keyOf, items)[key] == x
  {
    if KeysDistinct(keyOf, items) {
      forall x | x in items && keyOf(x.val) == key
        ensures MapOf(keyOf, items)[key] == x
      {
        MapOfItem(keyOf, items, x);
      }
    }
  }

  lemma KeysWithout<K, V>(keyOf: V -> K, items: seq<Node<V>>, k: nat)
    requires KeysDistinct(keyOf, items) && k < |items|
    ensures KeysDistinct(keyOf, Without(items, k))
    ensures forall x :: x in Without(items, k) <==> x in items && keyOf(x.val) != keyOf(items[k].val)
  {
    assert Distinct(items);
    DistinctWithout(items, k);
    hide Distinct, Without;
  }

  lemma OneEntryLess<K, T>(m: map<K, T>, r: map<K, T>, key: K)
    requires forall y :: y in m && y != key ==> y in r && r[y] == m[y]
    requires forall y :: y in r ==> y in m && y != key
    ensures r == m - {key}
  {}

  /** Deleting an item removes exactly its entry. */
  lemma MapOfDelete<K, V>(keyOf: V -> K, items: seq<Node<V>>, k: nat)
    requires KeysDistinct(keyOf, items) && k < |items|
    ensures KeysDistinct(keyOf, Without(items, k))
    ensures MapOf(keyOf, Without(items, k)) == MapOf(keyOf, items) - {keyOf(items[k].val)}
  {
    var rest := Without(items, k);
    KeysWithout(keyOf, items, k);
    var m, r := MapOf(keyOf, items), MapOf(keyOf, rest);
    var key := keyOf(items[k].val);
    hide *;
    forall y | y in m && y != key
      ensures y in r && r[y] == m[y]
    {
      MapOfItem(keyOf, rest, m[y]);
    }
    forall y | y in r
      ensures y in m && y != key
    {
      MapOfItem(keyOf, items, r[y]);
    }
    OneEntryLess(m, r, key);
  }

  /** Reordering the items does not change the map. */
  lemma MapOfReordered<K, V>(keyOf: V -> K, items: seq<Node<V>>, items': seq<Node<V>>)
    requires KeysDistinct(keyOf, items) && Distinct(items') && SameMembers(items, items')
    ensures KeysDistinct(keyOf, items')
    ensures MapOf(keyOf, items') == MapOf(keyOf, items)
  {
    var m, r := MapOf(keyOf, items), MapOf(keyOf, items');
    hide MapOf;
    forall i, j | 0 <= i < j < |items'|
      ensures keyOf(items'[i].val) != keyOf(items'[j].val)
    {
      assert items'[i] in items && items'[j] in items;
    }
    forall y | y in m
      ensures y in r && r[y] == m[y]
    {
      MapOfItem(keyOf, items', m[y]);
    }
    forall y | y in r
      ensures y in m
    {
      assert r[y] in items;
    }
  }

  ghost predicate ChainsBounded<V>(bkts: seq<Bucket<V>>) {
    forall b :: 0 <= b < |bkts| ==> bkts[b].count < 10 * (bkts[b].expandMult + 1)
  }

  /** The table's record of how well its last expansions spread the items. */
  datatype Growth = Growth(idealChainMaxlen: nat, nonidealItems: nat, ineffExpands: nat, noexpand: nat)

  const NOT_GROWN := Growth(0, 0, 0, 0)

  /** Two expansions in a row that leave most items badly placed inhibit any further one. */
  function Grown(g: Growth, ideal: nat, nonideal: nat, numItems: nat): Growth {
    var ineff := if nonideal > numItems / 2 then g.ineffExpands + 1 else 0;
    Growth(ideal, nonideal, ineff, if ineff > 1 then 1 else g.noexpand)
  }

  /** Two expansions in a row were ineffective. */
  ghost predicate TwoInARow(expansions: seq<bool>) {
    exists k :: 0 <= k < |expansions| - 1 && expansions[k] && expansions[k + 1]
  }

  /** What the table's record tells of its expansions. */
  ghost predicate Tells(g: Growth, expansions: seq<bool>) {
    && g.noexpand == (if TwoInARow(expansions) then 1 else 0)
    && (g.ineffExpands == 0 <==> expansions == [] || !expansions[|expansions| - 1])
  }

  lemma TwoInARowMore(h: seq<bool>, bad: bool)
    ensures TwoInARow(h + [bad]) <==> TwoInARow(h) || (h != [] && h[|h| - 1] && bad)
  {
    var h' := h + [bad];
    if TwoInARow(h') {
      var k :| 0 <= k < |h'| - 1 && h'[k] && h'[k + 1];
      if k < |h| - 1 {
        assert h[k] && h[k + 1];
      }
    }
    if TwoInARow(h) {
      var k :| 0 <= k < |h| - 1 && h[k] && h[k + 1];
      assert h'[k] && h'[k + 1];
    }
    if h != [] && h[|h| - 1] && bad {
      assert h'[|h| - 1] && h'[|h|];
    }
  }

  lemma GrownTells(g: Growth, expansions: seq<bool>, ideal: nat, nonideal: nat, numItems: nat)
    requires Tells(g, expansions)
    ensures Tells(Grown(g, ideal, nonideal, numItems), expansions + [2 * nonideal > numItems])
  {
    TwoInARowMore(expansions, 2 * nonideal > numItems);
    assert 2 * nonideal > numItems <==> nonideal > numItems / 2;
    hide TwoInARow;
  }

  /**
   What filing an item in bucket b does: unless that would fill the bucket to ten times its
   multiplier plus one, and expansion is not inhibited, the bucket takes the item and all else
   stays; otherwise the buckets are doubled.
   */
  ghost predicate FiledBy<V>(bkts: seq<Bucket<V>>, g: Growth, expansions: seq<bool>, b: nat, add: Node<V>,
                             bkts': seq<Bucket<V>>, g': Growth, expansions': seq<bool>) {
    && b < |bkts|
    && if bkts[b].count + 1 >= 10 * (bkts[b].expandMult + 1) && g.noexpand != 1 then
         |bkts'| == 2 * |bkts| && |expansions'| == |expansions| + 1 && expansions'[..|expansions|] == expansions
       else
         bkts' == bkts[b := Bucket(add, bkts[b].count + 1, bkts[b].expandMult)] && g' == g && expansions' == expansions
  }

  /** c is the quotient of x by n, rounded up. */
  ghost predicate IsCeiling(c: nat, x: nat, n: nat) {
    c > 0 && (c - 1) * n < x <= c * n
  }

  /** A ceiling is the quotient of the number and the divisor less one. */
  lemma CeilingIs(c: nat, x: nat, n: nat)
    requires x > 0 && n > 0
    ensures IsCeiling(c, x, n) <==> c == (x + n - 1) / n
  {
    var q := (x + n - 1) / n;
    Division(x + n - 1, n);
    if IsCeiling(c, x, n) {
      Distribute(c, 1, n);
      DivMod(x + n - 1, n, c, x + n - 1 - c * n);
    }
    if c == q {
      Distribute(c, 1, n);
    }
  }

  /** Shift and mask compute the ideal chain length: the items per bucket, rounded up. */
  function IdealChain(numItems: nat, log2: nat, numBuckets: nat): (r: nat)
    requires numItems > 0 && numBuckets == Pow2(log2)
    ensures r > 0 && IsCeiling(r, numItems, numBuckets)
  {
    CeilByShift(numItems, log2);
    ShiftRight(numItems, log2) + (if And(numItems, numBuckets - 1) != 0 then 1 else 0)
  }

  lemma AllBounded<V>(bkts: seq<Bucket<V>>, ideal: nat)
    requires ideal > 0 && forall b :: 0 <= b < |bkts| ==> MultExact(bkts[b], ideal)
    ensures ideal < BKT_CAPACITY_THRESH ==> ChainsBounded(bkts)
    ensures forall b :: 0 <= b < |bkts| ==> bkts[b].count <= ideal * (bkts[b].expandMult + 1)
  {
    forall b | 0 <= b < |bkts|
      ensures bkts[b].count <= ideal * (bkts[b].expandMult + 1)
      ensures ideal < BKT_CAPACITY_THRESH ==> bkts[b].count < BKT_CAPACITY_THRESH * (bkts[b].expandMult + 1)
    {
      ExpansionBounds(bkts[b], ideal);
    }
  }

  lemma MovingDone<V>(hash: Node<V> -> nat, done: seq<Node<V>>, bkts: seq<Bucket<V>>, ideal: nat, nonideal: nat)
    requires ideal > 0 && bkts != [] && Moving(hash, done, bkts, ideal, nonideal)
    ensures AllLinked(Spread(hash, done, |bkts|), bkts)
    ensures nonideal == Excess(bkts, ideal) && forall b :: 0 <= b < |bkts| ==> MultExact(bkts[b], ideal)
    ensures ideal < BKT_CAPACITY_THRESH ==> ChainsBounded(bkts)
  {
    AllBounded(bkts, ideal);
  }

  lemma DistinctPlus<T>(s: seq<T>, x: T)
    requires Distinct(s) && x !in s
    ensures Distinct(s + [x]) && s + [x] != [] && |s + [x]| == |s| + 1
  {}

  /** Application-order links that step over node k spell out the order without it. */
  lemma OrderAround<V>(s: seq<Node<V>>, k: nat)
    requires k < |s| && |s| > 1 && Distinct(s)
    requires forall i {:trigger s[i].next} :: 0 <= i < |s| && i != k ==>
      s[i].next == NodeAt(s, if i + 1 == k then k + 1 else i + 1)
    requires forall i {:trigger s[i].prev} :: 0 <= i < |s| && i != k ==>
      s[i].prev == if i == k + 1 then (if k > 0 then s[k - 1] else null) else if i > 0 then s[i - 1] else null
    ensures Linked(HH, Without(s, k))
    ensures Without(s, k)[0] == (if k == 0 then s[1] else s[0])
    ensures Without(s, k)[|s| - 2] == (if k == |s| - 1 then s[k - 1] else s[|s| - 1])
  {
    DistinctWithout(s, k);
    hide Without, Distinct;
  }

  lemma PermutationMembers<T>(s: seq<T>, t: seq<T>)
    requires multiset(s) == multiset(t)
    ensures SameMembers(s, t) && |s| == |t|
  {
    SameElements(s, t);
    SameElements(t, s);
    assert |s| == |multiset(s)| == |t|;
  }

  class HashTable<K(==), V> {
    const keyOf: V -> K
    const fcn: K -> nat
    const bloom: bool
    const bloomNbits: nat

    var head: Node?<V>

    // The table behind the head; it exists while the head is not null.
    var buckets: array<Bucket<V>>
    var log2NumBuckets: nat
    var numItems: nat
    var tail: Node?<V>
    var growth: Growth
    var bloomBv: array<bv8>

    /** The application order. */
    ghost var items: seq<Node<V>>
    /** For each expansion of the table, whether it left most items beyond the ideal chain length. */
    ghost var expansions: seq<bool>
    /** The bucket chains. */
    ghost var chains: seq<seq<Node<V>>>

    ghost function Hash(): Node<V> -> nat {
      Hasher(keyOf, fcn)
    }

    ghost predicate OrderValid()
      reads this`head, this`tail, this`items, items`next, items`prev
    {
      && Linked(HH, items)
      && head == NodeAt(items, 0)
      && (items != [] ==> tail == items[|items| - 1])
    }

    /** The buckets hold exactly the items of `its`. */
    ghost predicate BucketsHold(its: seq<Node<V>>)
      reads this`buckets, this`log2NumBuckets, this`chains, buckets
      reads Members(chains)`hhNext, Members(chains)`hhPrev
    {
      && buckets.Length == |chains| == Pow2(log2NumBuckets)
      && Placed(Hash(), its, chains)
      && AllLinked(chains, buckets[..])
    }

    /** Unless expansion is inhibited or was overwhelmed, every chain is short. */
    ghost predicate Bounded()
      reads this`buckets, this`growth, buckets
    {
      growth.noexpand != 1 && growth.idealChainMaxlen <= 9 ==> ChainsBounded(buckets[..])
    }

    /** The record and the size of the table tell of its expansions. */
    ghost predicate GrowthTells()
      reads this`growth, this`expansions, this`buckets
    {
      Tells(growth, expansions) && buckets.Length == 32 * Pow2(|expansions|)
    }

    /** The filter, when there is one, knows every item of `its`. */
    ghost predicate FilterCovers(its: seq<Node<V>>)
      reads this`bloomBv, bloomBv
    {
      bloom ==> Covers(Hash(), its, bloomBv[..], bloomNbits)
    }

    /** Everything about the table except the application order. */
    ghost predicate TableValid(its: seq<Node<V>>)
      reads this`buckets, this`log2NumBuckets, this`chains, this`growth, this`expansions, this`numItems, this`bloomBv
      reads buckets, bloomBv, its`hashv, Members(chains)`hhNext, Members(chains)`hhPrev
    {
      && BucketsHold(its)
      && Bounded()
      && GrowthTells()
      && numItems == |its|
      && bloomBv as object != buckets
      && HashesStored(Hash(), its)
      && FilterCovers(its)
    }

    ghost predicate Valid()
      reads this, items, buckets, bloomBv
      reads Members(chains)`hhNext, Members(chains)`hhPrev
    {
      && OrderValid()
      && (if items == [] then chains == [] else TableValid(items))
    }

    ghost function Repr(): (r: set<object>)
      reads this
      ensures this in r && buckets in r && bloomBv in r && forall x :: x in items ==> x in r
    {
      {this, buckets, bloomBv} + (set x | x in items)
    }

    twostate lemma ChainsWithin()
      requires old(Valid())
      ensures forall x :: x in old(Members(chains)) ==> x in old(items)
    {}

    /** Only the table's own objects matter to it. */
    twostate lemma StaysValid()
      requires old(Valid()) && unchanged(this) && unchanged(buckets) && unchanged(bloomBv) && unchanged(items)
      ensures Valid()
    {
      ChainsWithin();
      hide *;
    }

    twostate lemma MembersWithin(its: seq<Node<V>>)
      requires old(BucketsHold(its))
      ensures forall x :: x in old(Members(chains)) ==> x in its
    {}

    /** Links of the application order do not matter to the table behind it. */
    twostate lemma TableKept(its: seq<Node<V>>)
      requires old(TableValid(its))
      requires unchanged(this`buckets, this`log2NumBuckets, this`chains, this`growth, this`expansions, this`numItems, this`bloomBv)
      requires unchanged(buckets) && unchanged(bloomBv) && unchanged(its`hashv, its`hhNext, its`hhPrev)
      ensures TableValid(its)
    {
      MembersWithin(its);
      hide *;
    }

    constructor (keyOf: V -> K, fcn: K -> nat, bloom: bool, bloomNbits: nat)
      ensures Valid() && items == [] && fresh(buckets) && fresh(bloomBv)
      ensures this.keyOf == keyOf && this.fcn == fcn && this.bloom == bloom && this.bloomNbits == bloomNbits
    {
      this.keyOf, this.fcn, this.bloom, this.bloomNbits := keyOf, fcn, bloom, bloomNbits;
      head, tail := null, null;
      buckets := new Bucket<V>[0];
      bloomBv := new bv8[0];
      log2NumBuckets, numItems := 0, 0;
      growth := NOT_GROWN;
      items, chains, expansions := [], [], [];
    }

    // ----- Looking up ----------------------------------------------------------------

    /** Finds an item by key: by its bucket, unless the filter already rules it out. */
    method Find(key: K) returns (out: Node?<V>)
      requires Valid()
      ensures Valid()
      ensures out != null ==> out in items && keyOf(out.val) == key
      ensures out == null ==> KeyAbsent(keyOf, items, key)
      ensures var m := MapOf(keyOf, items);
        KeysDistinct(keyOf, items) ==> out == if key in m then m[key] else null
    {
      FindMeans(keyOf, items, key);
      hide MapOf, KeysDistinct;
      out := null;
      if head != null {
        var hashv := fcn(key);
        var bkt := ToBkt(hashv, buckets.Length);
        ToBktIsSlot(hashv, buckets.Length, log2NumBuckets);
        if !bloom || BitTest(bloomBv[..], BloomBit(hashv, bloomNbits)) {
          assert ChainLinked(chains[bkt], buckets[..][bkt]);
          out := FindInBkt(buckets[bkt], keyOf, key, chains[bkt]);
        }
      }
    }

    // ----- Adding --------------------------------------------------------------------

    /** Creates the table of the first item. */
    method MakeTable()
      modifies this`buckets, this`log2NumBuckets, this`numItems, this`growth, this`expansions, this`bloomBv, this`chains
      ensures fresh(buckets) && fresh(bloomBv) && TableValid([])
      ensures buckets.Length == 32 && forall b :: 0 <= b < 32 ==> buckets[b] == Bucket(null, 0, 0)
      ensures growth == Growth(0, 0, 0, 0) && expansions == []
    {
      buckets := new Bucket<V>[INITIAL_NUM_BUCKETS](_ => Bucket(null, 0, 0));
      log2NumBuckets := INITIAL_NUM_BUCKETS_LOG2;
      numItems, growth, expansions := 0, NOT_GROWN, [];
      bloomBv := new bv8[BloomByteLen(bloomNbits)](_ => 0);
      chains := NoChains(INITIAL_NUM_BUCKETS);
      PlacedEmpty(Hash(), INITIAL_NUM_BUCKETS);
      assert Pow2(5) == 2 * Pow2(4) && Pow2(4) == 2 * Pow2(3);
    }

    lemma MovedTo(its: seq<Node<V>>, bkts: seq<Bucket<V>>, ideal: nat, nonideal: nat)
      requires buckets.Length == |chains| == Pow2(log2NumBuckets)
      requires Placed(Hash(), its, chains) && Distinct(its)
      requires ideal > 0 && |bkts| == 2 * buckets.Length
      requires Moving(Hash(), Flat(chains), bkts, ideal, nonideal)
      ensures |bkts| > 0 && Placed(Hash(), its, Spread(Hash(), Flat(chains), |bkts|))
      ensures AllLinked(Spread(Hash(), Flat(chains), |bkts|), bkts)
      ensures nonideal == Excess(bkts, ideal) && forall b :: 0 <= b < |bkts| ==> MultExact(bkts[b], ideal)
      ensures ideal < BKT_CAPACITY_THRESH ==> ChainsBounded(bkts)
      ensures Pow2(log2NumBuckets + 1) == |bkts|
      ensures Grown(growth, ideal, nonideal, numItems).idealChainMaxlen == ideal
    {
      assert Pow2(log2NumBuckets + 1) == 2 * Pow2(log2NumBuckets);
      hide Pow2;
      FlatPlaced(Hash(), its, chains);
      SpreadPlaced(Hash(), its, Flat(chains), |bkts|);
      MovingDone(Hash(), Flat(chains), bkts, ideal, nonideal);
      hide Placed, Flat, Spread, AllLinked, Excess, MultExact, ChainsBounded, Moving, Members, Distinct;
    }

    lemma HoldsNow(its: seq<Node<V>>)
      requires buckets.Length == |chains| == Pow2(log2NumBuckets)
      requires Placed(Hash(), its, chains) && AllLinked(chains, buckets[..])
      requires growth.idealChainMaxlen < BKT_CAPACITY_THRESH ==> ChainsBounded(buckets[..])
      ensures BucketsHold(its) && Bounded()
    {}

    /** Replaces the bucket array by one that all items have moved to. */
    method InstallBuckets(newBkts: array<Bucket<V>>, ideal: nat, nonideal: nat, ghost its: seq<Node<V>>)
      requires buckets.Length == |chains| == Pow2(log2NumBuckets)
      requires Placed(Hash(), its, chains) && Distinct(its)
      requires ideal > 0 && newBkts.Length == 2 * buckets.Length
      requires Moving(Hash(), Flat(chains), newBkts[..], ideal, nonideal)
      modifies this`buckets, this`log2NumBuckets, this`growth, this`expansions, this`chains
      ensures BucketsHold(its) && Bounded() && buckets == newBkts
      ensures chains == Spread(Hash(), Flat(old(chains)), newBkts.Length)
      ensures growth == Grown(old(growth), ideal, nonideal, numItems)
      ensures expansions == old(expansions) + [2 * nonideal > numItems]
      ensures nonideal == Excess(newBkts[..], ideal)
      ensures forall b :: 0 <= b < newBkts.Length ==> MultExact(newBkts[b], ideal)
    {
      hide *;
      MovedTo(its, newBkts[..], ideal, nonideal);
      growth := Grown(growth, ideal, nonideal, numItems);
      expansions := expansions + [2 * nonideal > numItems];
      log2NumBuckets := log2NumBuckets + 1;
      buckets := newBkts;
      chains := Spread(Hash(), Flat(chains), newBkts.Length);
      HoldsNow(its);
    }

    lemma HoldParts(its: seq<Node<V>>)
      requires BucketsHold(its)
      ensures buckets.Length == |chains| == Pow2(log2NumBuckets) > 0
      ensures Placed(Hash(), its, chains) && AllLinked(chains, buckets[..])
      ensures HashesStored(Hash(), its) ==> forall x :: x in its ==> x.hashv == Hash()(x)
    {}

    /** What the record says after an expansion, in terms of the bucket counts. */
    lemma ExpandedAs(g: Growth, h: seq<bool>, n: nat, nonideal: nat)
      requires Tells(g, h) && n == 32 * Pow2(|h|) && buckets.Length == 2 * n
      requires var ideal := growth.idealChainMaxlen;
        && growth == Grown(g, ideal, nonideal, numItems)
        && ideal > 0 && IsCeiling(ideal, numItems, buckets.Length)
        && nonideal == Excess(buckets[..], ideal)
        && forall b :: 0 <= b < buckets.Length ==> MultExact(buckets[b], ideal)
      requires expansions == h + [2 * nonideal > numItems]
      ensures GrowthTells()
      ensures var beyond := |Beyond(buckets[..], growth.idealChainMaxlen)|;
        && growth.nonidealItems == beyond == nonideal
        && (2 * beyond <= numItems ==> growth.ineffExpands == 0 && growth.noexpand == g.noexpand)
        && (2 * beyond > numItems ==>
              && growth.ineffExpands == g.ineffExpands + 1
              && growth.noexpand == if g.ineffExpands > 0 then 1 else g.noexpand)
    {
      GrownTells(g, h, growth.idealChainMaxlen, nonideal, numItems);
      ExcessCounts(buckets[..], growth.idealChainMaxlen);
      assert nonideal > numItems / 2 <==> 2 * nonideal > numItems;
      assert Pow2(|h| + 1) == 2 * Pow2(|h|);
      hide Beyond, Excess, Tells, Pow2;
    }

    /**
     Doubles the buckets and gives every item its new place. An expansion that leaves most items
     beyond the ideal chain length is ineffective; two of them in a row inhibit any further one.
     */
    method ExpandBuckets(ghost its: seq<Node<V>>)
      requires BucketsHold(its) && its != [] && Distinct(its) && numItems == |its|
      requires HashesStored(Hash(), its) && GrowthTells()
      modifies this`buckets, this`log2NumBuckets, this`growth, this`expansions, this`chains, its`hhNext, its`hhPrev
      ensures fresh(buckets) && BucketsHold(its) && Bounded() && GrowthTells()
      ensures buckets.Length == 2 * old(buckets.Length)
      ensures chains == Spread(Hash(), Flat(old(chains)), buckets.Length)
      ensures var ideal := growth.idealChainMaxlen;
        IsCeiling(ideal, numItems, buckets.Length) && forall b :: 0 <= b < buckets.Length ==> MultExact(buckets[b], ideal)
      ensures var beyond := |Beyond(buckets[..], growth.idealChainMaxlen)|;
        && growth.nonidealItems == beyond
        && expansions == old(expansions) + [2 * beyond > numItems]
        && (2 * beyond <= numItems ==> growth.ineffExpands == 0 && growth.noexpand == old(growth.noexpand))
        && (2 * beyond > numItems ==>
              && growth.ineffExpands == old(growth.ineffExpands) + 1
              && growth.noexpand == if old(growth.ineffExpands) > 0 then 1 else old(growth.noexpand))
    {
      ghost var hash := Hash();
      ghost var g, h, n := growth, expansions, buckets.Length;
      assert Pow2(log2NumBuckets + 1) == 2 * buckets.Length && buckets.Length > 0;
      assert Tells(growth, expansions) && buckets.Length == 32 * Pow2(|expansions|);
      hide *;
      HoldParts(its);
      var newBkts := new Bucket<V>[2 * buckets.Length](_ => Bucket(null, 0, 0));
      var ideal := IdealChain(numItems, log2NumBuckets + 1, 2 * buckets.Length);
      var nonideal := Redistribute(buckets, log2NumBuckets, newBkts, ideal, hash, its, chains);
      InstallBuckets(newBkts, ideal, nonideal, its);
      ExpandedAs(g, h, n, nonideal);
    }

    method PushItem(bkt: nat, addhh: Node<V>, ghost its: seq<Node<V>>)
      requires BucketsHold(its) && addhh !in its
      requires bkt == Slot(Hash()(addhh), buckets.Length)
      modifies this`chains, buckets, addhh`hhNext, addhh`hhPrev, its`hhPrev
      ensures BucketsHold(its + [addhh])
      ensures buckets[..] == old(buckets[..])[bkt := Bucket(addhh, old(buckets[bkt].count) + 1, old(buckets[bkt].expandMult))]
    {
      PlacedPush(Hash(), its, chains, addhh);
      InOneChain(Hash(), its, chains, bkt);
      assert forall n :: 0 <= n < |chains[bkt]| ==> chains[bkt][n] in its;
      hide Placed, AllLinked, Slot, Pow2, Members;
      PushFront(buckets, bkt, addhh, Hash(), its, chains);
      chains := Pushed(chains, bkt, addhh);
    }

    /** Puts an item into a bucket; a bucket that has become too full doubles the table. */
    method AddToBkt(bkt: nat, addhh: Node<V>, ghost its: seq<Node<V>>)
      requires BucketsHold(its) && Bounded() && GrowthTells() && Distinct(its) && addhh !in its
      requires numItems == |its| + 1
      requires bkt == Slot(Hash()(addhh), buckets.Length) && HashesStored(Hash(), its + [addhh])
      modifies this`buckets, this`log2NumBuckets, this`growth, this`expansions, this`chains, buckets,
               addhh`hhNext, addhh`hhPrev, its`hhNext, its`hhPrev
      ensures BucketsHold(its + [addhh]) && Bounded() && GrowthTells()
      ensures buckets == old(buckets) || fresh(buckets)
      ensures FiledBy(old(buckets[..]), old(growth), old(expansions), bkt, addhh, buckets[..], growth, expansions)
    {
      PushItem(bkt, addhh, its);
      if buckets[bkt].count >= (buckets[bkt].expandMult + 1) * BKT_CAPACITY_THRESH && growth.noexpand != 1 {
        DistinctPlus(its, addhh);
        assert BKT_CAPACITY_THRESH == 10;
        hide BucketsHold, Bounded, Distinct, HashesStored, GrowthTells, Placed, AllLinked, Slot, Pow2, ChainsBounded, Members;
        ExpandBuckets(its + [addhh]);
      }
    }

    /** Appends an item in application order. */
    method LinkAtTail(add: Node<V>)
      requires OrderValid() && items != [] && add !in items
      modifies this`tail, this`items, items`next, add`next, add`prev
      ensures OrderValid() && items == old(items) + [add]
    {
      assert tail in items;
      add.next := null;
      tail.next := add;
      add.prev := tail;
      tail := add;
      items := items + [add];
    }

    method AddToBloom(hashv: nat)
      requires bloomBv.Length == BloomByteLen(bloomNbits)
      modifies bloomBv
      ensures var idx := BloomBit(hashv, bloomNbits);
        bloomBv[..] == old(bloomBv[..])[idx / 8 := old(bloomBv[..])[idx / 8] | BitMask(idx % 8)]
    {
      var idx := BloomBit(hashv, bloomNbits);
      bloomBv[idx / 8] := bloomBv[idx / 8] | BitMask(idx % 8);
    }

    /** Counts an item that is already in the application order and gives it its bucket. */
    method FileItem(add: Node<V>, ghost its: seq<Node<V>>)
      requires BucketsHold(its) && Bounded() && GrowthTells() && Distinct(its) && add !in its && numItems == |its|
      requires HashesStored(Hash(), its)
      modifies this`buckets, this`log2NumBuckets, this`growth, this`expansions, this`chains, this`numItems, buckets,
               add`hhNext, add`hhPrev, add`hashv, its`hhNext, its`hhPrev
      ensures BucketsHold(its + [add]) && Bounded() && GrowthTells() && numItems == |its| + 1
      ensures HashesStored(Hash(), its + [add]) && add.hashv == Hash()(add)
      ensures buckets == old(buckets) || fresh(buckets)
      ensures old(buckets.Length) > 0
      ensures FiledBy(old(buckets[..]), old(growth), old(expansions), fcn(keyOf(add.val)) % old(buckets.Length), add,
                      buckets[..], growth, expansions)
    {
      numItems := numItems + 1;
      add.hashv := fcn(keyOf(add.val));
      var bkt := ToBkt(add.hashv, buckets.Length);
      ToBktIsSlot(add.hashv, buckets.Length, log2NumBuckets);
      hide Placed, AllLinked, Members, Pow2, Slot, ToBkt, BucketsHold, Bounded, GrowthTells, Distinct, FiledBy;
      AddToBkt(bkt, add, its);
    }

    method FilterItem(add: Node<V>, ghost its: seq<Node<V>>)
      requires FilterCovers(its) && add.hashv == Hash()(add)
      modifies bloomBv
      ensures FilterCovers(its + [add])
    {
      if bloom {
        CoversLength(Hash(), its, bloomBv[..], bloomNbits);
        CoversMore(Hash(), its, add, bloomBv[..], bloomNbits);
        hide Covers;
        AddToBloom(add.hashv);
      }
    }

    method EnterTable(add: Node<V>, ghost its: seq<Node<V>>)
      requires TableValid(its) && Distinct(its) && add !in its
      modifies this`buckets, this`log2NumBuckets, this`growth, this`expansions, this`chains, this`numItems, buckets, bloomBv,
               add`hhNext, add`hhPrev, add`hashv, its`hhNext, its`hhPrev
      ensures TableValid(its + [add])
      ensures buckets == old(buckets) || fresh(buckets)
      ensures old(buckets.Length) > 0
      ensures FiledBy(old(buckets[..]), old(growth), old(expansions), fcn(keyOf(add.val)) % old(buckets.Length), add,
                      buckets[..], growth, expansions)
    {
      hide BucketsHold, Bounded, GrowthTells, FilterCovers, Distinct, HashesStored, FiledBy;
      FileItem(add, its);
      assert forall x :: x in Members(chains) ==> x as object != bloomBv;
      FilterItem(add, its);
    }

    /** Starts the application order, and the table, with the first item. */
    method EnterFirst(add: Node<V>)
      requires Valid() && items == []
      modifies this`head, this`tail, this`items, this`buckets, this`log2NumBuckets, this`numItems, this`growth,
               this`expansions, this`bloomBv, this`chains, add`next, add`prev
      ensures OrderValid() && items == [add] && TableValid([])
      ensures fresh(buckets) && fresh(bloomBv)
      ensures buckets.Length == 32 && forall b :: 0 <= b < 32 ==> buckets[b] == Bucket(null, 0, 0)
      ensures growth == Growth(0, 0, 0, 0) && expansions == []
    {
      hide BucketsHold, Bounded, GrowthTells, FilterCovers;
      add.next := null;
      head := add;
      add.prev := null;
      MakeTable();
      tail := head;
      items := [add];
    }

    /** Puts an item at the end of the application order. */
    method EnterLast(add: Node<V>)
      requires Valid() && items != [] && add !in items
      modifies this`tail, this`items, items`next, add`next, add`prev
      ensures OrderValid() && items == old(items) + [add] && TableValid(old(items))
      ensures buckets[..] == old(buckets[..])
    {
      assert TableValid(items);
      assert forall x :: x in items + [add] ==> x as object != buckets && x as object != bloomBv;
      assert OrderValid();
      ghost var its := items;
      hide *;
      LinkAtTail(add);
      TableKept(its);
    }

    method AddFirst(add: Node<V>)
      requires Valid() && items == []
      modifies this, add
      ensures Valid() && items == [add] && fresh(buckets) && fresh(bloomBv)
      ensures buckets.Length == 32 && growth == Growth(0, 0, 0, 0) && expansions == []
      ensures forall b :: 0 <= b < 32 ==> buckets[b].expandMult == 0
    {
      hide OrderValid, TableValid;
      ghost var none: seq<Node<V>> := [];
      assert none + [add] == [add];
      EnterFirst(add);
      EnterTable(add, none);
    }

    method AddMore(add: Node<V>)
      requires Valid() && items != [] && add !in items
      modifies this, buckets, bloomBv, add, items
      ensures Valid() && items == old(items) + [add]
      ensures (buckets == old(buckets) || fresh(buckets)) && bloomBv == old(bloomBv) && old(buckets.Length) > 0
      ensures FiledBy(old(buckets[..]), old(growth), old(expansions), fcn(keyOf(add.val)) % old(buckets.Length), add,
                      buckets[..], growth, expansions)
    {
      ghost var before := items;
      assert Distinct(before);
      hide TableValid, Distinct, Linked, FiledBy;
      EnterLast(add);
      hide OrderValid;
      EnterTable(add, before);
    }

    lemma HeadTells()
      requires Valid()
      ensures head == null <==> items == []
    {}

    /** Adds an item; the table is created with the first. */
    method Add(add: Node<V>)
      requires Valid() && add !in items
      modifies this, buckets, bloomBv, add, items
      ensures Valid() && items == old(items) + [add]
      ensures (buckets == old(buckets) || fresh(buckets)) && (bloomBv == old(bloomBv) || fresh(bloomBv))
      ensures old(items) == [] ==>
        && buckets.Length == 32 && growth == Growth(0, 0, 0, 0) && expansions == []
        && forall b :: 0 <= b < 32 ==> buckets[b].expandMult == 0
      ensures old(items) != [] ==>
        && old(buckets.Length) > 0
        && FiledBy(old(buckets[..]), old(growth), old(expansions), fcn(keyOf(add.val)) % old(buckets.Length), add,
                   buckets[..], growth, expansions)
    {
      HeadTells();
      hide *;
      if head == null {
        AddFirst(add);
      } else {
        AddMore(add);
      }
    }

    /** While the table has items, its size and its record are those of its expansions. */
    lemma HistoryTells()
      requires Valid() && items != []
      ensures buckets.Length == 32 * Pow2(|expansions|)
      ensures growth.noexpand == if TwoInARow(expansions) then 1 else 0
      ensures !TwoInARow(expansions) && growth.idealChainMaxlen <= 9 ==>
        forall b :: 0 <= b < buckets.Length ==> buckets[b].count < 10 * (buckets[b].expandMult + 1)
    {}

    /** A bucket counts no more items than there are. */
    lemma CountWithin(b: nat)
      requires Valid() && items != [] && b < buckets.Length
      ensures buckets[b].count <= |items|
    {
      var chain := chains[b];
      assert ChainLinked(chain, buckets[..][b]);
      FlatPlaced(Hash(), items, chains);
      ChainInFlat(chains, b);
    }

    // ----- Deleting ------------------------------------------------------------------

    /** Unlinks the k-th item from the application order, of which it is not the only one. */
    method UnlinkOrder(del: Node<V>, ghost k: nat)
      requires OrderValid() && k < |items| && items[k] == del && |items| > 1
      modifies this`head, this`tail, this`items, items`next, items`prev
      ensures OrderValid() && items == Without(old(items), k)
    {
      if del == tail {
        tail := del.prev;
      }
      if del.prev != null {
        assert del.prev == items[k - 1];
        del.prev.next := del.next;
      } else {
        head := del.next;
      }
      if del.next != null {
        assert del.next == items[k + 1];
        del.next.prev := del.prev;
      }
      OrderAround(items, k);
      items := Without(items, k);
    }

    /** Takes the k-th item of `its` out of its bucket. */
    method LeaveBucket(bkt: nat, del: Node<V>, ghost k: nat, ghost its: seq<Node<V>>)
      requires BucketsHold(its) && Distinct(its) && k < |its| && its[k] == del
      requires bkt == Slot(Hash()(del), buckets.Length)
      modifies this`chains, buckets, its`hhNext, its`hhPrev
      ensures BucketsHold(Without(its, k))
      ensures ChainsBounded(old(buckets[..])) ==> ChainsBounded(buckets[..])
    {
      ghost var j := PlacedWhere(Hash(), its, chains, del);
      PlacedRemove(Hash(), its, chains, k, j);
      InOneChain(Hash(), its, chains, bkt);
      assert forall n :: 0 <= n < |chains[bkt]| ==> chains[bkt][n] in its;
      hide Placed, AllLinked, Slot, Pow2, Members, Distinct, Without;
      DelInBkt(buckets, bkt, del, j, Hash(), its, chains);
      chains := chains[bkt := Without(chains[bkt], j)];
    }

    lemma CoversLess(its: seq<Node<V>>, k: nat)
      requires k < |its| && Distinct(its) && HashesStored(Hash(), its)
      ensures forall x :: x in Without(its, k) ==> x in its
      ensures FilterCovers(its) ==> FilterCovers(Without(its, k))
    {
      DistinctWithout(its, k);
      hide BloomBit, BitTest, BloomByteLen;
    }

    method LeaveTable(del: Node<V>, ghost k: nat, ghost its: seq<Node<V>>)
      requires TableValid(its) && Distinct(its) && k < |its| && its[k] == del
      modifies this`numItems, this`chains, buckets, its`hhNext, its`hhPrev
      ensures TableValid(Without(its, k))
    {
      var bkt := ToBkt(del.hashv, buckets.Length);
      ToBktIsSlot(del.hashv, buckets.Length, log2NumBuckets);
      CoversLess(its, k);
      hide BucketsHold, ChainsBounded, Slot, ToBkt, Pow2, Covers, Distinct, Without;
      LeaveBucket(bkt, del, k, its);
      numItems := numItems - 1;
    }

    method DeleteOther(del: Node<V>, ghost k: nat)
      requires OrderValid() && TableValid(items) && k < |items| && items[k] == del && |items| > 1
      modifies this, buckets, items
      ensures OrderValid() && TableValid(items) && items == Without(old(items), k)
      ensures buckets == old(buckets) && bloomBv == old(bloomBv)
      ensures growth == old(growth) && expansions == old(expansions)
    {
      ghost var its := items;
      assert Distinct(its);
      assert forall x :: x in items ==> x as object != buckets && x as object != bloomBv;
      hide *;
      UnlinkOrder(del, k);
      TableKept(its);
      LeaveTable(del, k, its);
    }

    /** Deletes the k-th item; with the last item the table goes too. */
    method Delete(del: Node<V>, ghost k: nat)
      requires Valid() && k < |items| && items[k] == del
      modifies this, buckets, items
      ensures Valid() && items == Without(old(items), k)
      ensures buckets == old(buckets) && bloomBv == old(bloomBv)
      ensures growth == old(growth) && expansions == old(expansions)
    {
      assert del.prev == null && del.next == null <==> |items| == 1;
      if del.prev == null && del.next == null {
        head := null;
        items, chains := Without(items, k), [];
      } else {
        DeleteOther(del, k);
      }
    }

    // ----- Sorting the application order ----------------------------------------------

    method SortLinks(cmp: (Node<V>, Node<V>) -> int)
      requires OrderValid() && items != []
      modifies this`head, this`tail, this`items, items`next, items`prev
      ensures OrderValid() && items == Sort(cmp, old(items)) && |items| == |old(items)|
    {
      hide Sort, Distinct;
      head, tail, items := ListSort.Sort2(HH, cmp, head, items);
    }

    /** The table does not care in which order its items are. */
    lemma TableOfSorted(cmp: (Node<V>, Node<V>) -> int, its: seq<Node<V>>)
      requires TableValid(its)
      ensures TableValid(Sort(cmp, its))
    {
      SortFromPermutes(cmp, its, 1);
      PermutationMembers(its, Sort(cmp, its));
      PlacedReorder(Hash(), its, Sort(cmp, its), chains);
      hide Placed, AllLinked, Sort, BloomBit, BitTest, BloomByteLen;
    }

    method SortNonEmpty(cmp: (Node<V>, Node<V>) -> int)
      requires OrderValid() && items != [] && TableValid(items)
      modifies this`head, this`tail, this`items, items`next, items`prev
      ensures OrderValid() && TableValid(items)
      ensures items == Sort(cmp, old(items)) && |items| == |old(items)|
    {
      ghost var its := items;
      assert forall x :: x in items ==> x as object != buckets && x as object != bloomBv;
      hide *;
      SortLinks(cmp);
      TableKept(its);
      TableOfSorted(cmp, its);
    }

    lemma SortOfNothing(cmp: (Node<V>, Node<V>) -> int, its: seq<Node<V>>)
      requires its == []
      ensures Sort(cmp, its) == its
    {}

    /** Sorts the application order; the buckets are not touched. */
    method SortOrder(cmp: (Node<V>, Node<V>) -> int)
      requires Valid()
      modifies this`head, this`tail, this`items, items`next, items`prev
      ensures Valid() && items == Sort(cmp, old(items))
    {
      hide TableValid, Sort, Linked;
      if head != null {
        SortNonEmpty(cmp);
      } else {
        SortOfNothing(cmp, items);
      }
    }

    // ----- The integrity check --------------------------------------------------------

    /** The links that HASH_FSCK follows, forwards, are those of the order and the chains. */
    ghost predicate Walkable()
      reads this, buckets, items`next, Members(chains)`hhNext
    {
      && head == NodeAt(items, 0)
      && (forall i {:trigger items[i].next} :: 0 <= i < |items| ==> items[i].next == NodeAt(items, i + 1))
      && (head != null ==>
            && buckets.Length == |chains|
            && forall b :: 0 <= b < |chains| ==> ChainWalkable(chains[b], buckets[b]))
    }

    ghost predicate OrderSound()
      reads this`items, items`prev
    {
      forall i {:trigger items[i].prev} :: 0 <= i < |items| ==> items[i].prev == if i > 0 then items[i - 1] else null
    }

    /** What HASH_FSCK looks at: every back link, every bucket count, and the item count, twice. */
    ghost predicate Sound()
      requires head != null ==> buckets.Length == |chains|
      reads this, buckets, items`prev, Members(chains)`hhPrev
    {
      head != null ==>
        && (forall b :: 0 <= b < |chains| ==> ChainSound(chains[b], buckets[b]))
        && numItems == |Flat(chains)|
        && OrderSound()
        && numItems == |items|
    }

    /** HASH_FSCK over one chain finds whether its back links and its count are right. */
    method FsckChain(bkt: Bucket<V>, ghost chain: seq<Node<V>>) returns (ok: bool, bktCount: nat)
      requires ChainWalkable(chain, bkt)
      ensures ok <==> ChainSound(chain, bkt)
      ensures bktCount == |chain|
    {
      ok, bktCount := true, 0;
      var thh, prev: Node?<V> := bkt.head, null;
      while thh != null
        invariant bktCount <= |chain| && thh == NodeAt(chain, bktCount)
        invariant prev == if bktCount > 0 then chain[bktCount - 1] else null
        invariant ok <==> forall n {:trigger chain[n].hhPrev} :: 0 <= n < bktCount ==>
                            chain[n].hhPrev == if n > 0 then chain[n - 1] else null
        decreases |chain| - bktCount
      {
        if prev != thh.hhPrev {
          ok := false;
        }
        bktCount := bktCount + 1;
        prev := thh;
        thh := thh.hhNext;
      }
      if bkt.count != bktCount {
        ok := false;
      }
    }

    /** HASH_FSCK over the application order finds whether its back links are right. */
    method FsckOrder() returns (ok: bool, count: nat)
      requires Walkable()
      ensures ok <==> OrderSound()
      ensures count == |items|
    {
      ok, count := true, 0;
      var thh, prev: Node?<V> := head, null;
      while thh != null
        invariant count <= |items| && thh == NodeAt(items, count)
        invariant prev == if count > 0 then items[count - 1] else null
        invariant ok <==> forall i {:trigger items[i].prev} :: 0 <= i < count ==>
                            items[i].prev == if i > 0 then items[i - 1] else null
        decreases |items| - count
      {
        count := count + 1;
        if prev != thh.prev {
          ok := false;
        }
        prev := thh;
        thh := thh.next;
      }
    }

    lemma ValidIsSound()
      requires Valid()
      ensures Walkable() && Sound()
    {
      if items != [] {
        FlatPlaced(Hash(), items, chains);
        forall b | 0 <= b < |chains|
          ensures ChainWalkable(chains[b], buckets[b]) && ChainSound(chains[b], buckets[b])
        {
          assert ChainLinked(chains[b], buckets[..][b]);
        }
      }
    }

    /** HASH_FSCK over all chains. */
    method FsckBuckets() returns (ok: bool, count: nat)
      requires Walkable() && head != null
      ensures ok <==> forall b :: 0 <= b < |chains| ==> ChainSound(chains[b], buckets[b])
      ensures count == |Flat(chains)|
    {
      ok, count := true, 0;
      var i := 0;
      hide ChainSound, ChainWalkable, Flat;
      assert chains[..|chains|] == chains && |Flat(chains[..0])| == 0 by {
        FlatEnds(chains);
      }
      while i < buckets.Length
        invariant 0 <= i <= buckets.Length
        invariant count == |Flat(chains[..i])|
        invariant ok <==> forall b :: 0 <= b < i ==> ChainSound(chains[b], buckets[b])
      {
        FlatLast(chains, i + 1);
        var chainOk, bktCount := FsckChain(buckets[i], chains[i]);
        ok := ok && chainOk;
        count := count + bktCount;
        i := i + 1;
      }
    }

    /**
     The authors' own integrity check, of any table whose forward links lead somewhere, passes
     exactly if the table is sound in every respect it looks at. A valid table is.
     */
    method Fsck() returns (ok: bool)
      requires Walkable()
      ensures ok <==> Sound()
      ensures Valid() ==> ok
    {
      if Valid() {
        ValidIsSound();
      }
      hide Valid, Walkable, OrderSound;
      ok := true;
      if head != null {
        var count;
        ok, count := FsckBuckets();
        if count != numItems {
          ok := false;
        }
        var orderOk;
        orderOk, count := FsckOrder();
        if !orderOk || count != numItems {
          ok := false;
        }
      }
    }
  }
}
