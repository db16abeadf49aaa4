/**
 Whole runs of a uthash table against the finite map it stands for.
 */
module HashRuns {
  import opened Bits
  import opened Nodes
  import opened MergeSort
  import opened UtHash

  /** What a user does with a table: add under an absent key, delete by key, or sort. */
  datatype Op<K, !V> =
    | Put(x: Node<V>)
    | Remove(key: K)
    | SortBy(cmp: (Node<V>, Node<V>) -> int)

  ghost function ApplyOp<K, V>(keyOf: V -> K, m: map<K, Node<V>>, op: Op<K, V>): map<K, Node<V>> {
    match op
    case Put(x) => if keyOf(x.val) in m then m else m[keyOf(x.val) := x]
    case Remove(key) => m - {key}
    case SortBy(_) => m
  }

  ghost function ApplyOps<K, V>(keyOf: V -> K, m: map<K, Node<V>>, ops: seq<Op<K, V>>): map<K, Node<V>> {
    if ops == [] then m
    else ApplyOp(keyOf, ApplyOps(keyOf, m, ops[..|ops| - 1]), ops[|ops| - 1])
  }

  /** The first item with a key. */
  ghost function KeyIndex<K, V>(keyOf: V -> K, items: seq<Node<V>>, key: K): (k: nat)
    requires !KeyAbsent(keyOf, items, key)
    ensures k < |items| && keyOf(items[k].val) == key
    ensures forall i :: 0 <= i < k ==> keyOf(items[i].val) != key
  {
    if keyOf(items[0].val) == key then 0 else 1 + KeyIndex(keyOf, items[1..], key)
  }

  /** What an operation makes of the application order. */
  ghost function ReorderOp<K, V>(keyOf: V -> K, items: seq<Node<V>>, op: Op<K, V>): seq<Node<V>> {
    match op
    case Put(x) => if KeyAbsent(keyOf, items, keyOf(x.val)) then items + [x] else items
    case Remove(key) => if KeyAbsent(keyOf, items, key) then items else Without(items, KeyIndex(keyOf, items, key))
    case SortBy(cmp) => Sort(cmp, items)
  }

  ghost function ReorderOps<K, V>(keyOf: V -> K, items: seq<Node<V>>, ops: seq<Op<K, V>>): seq<Node<V>> {
    if ops == [] then items
    else ReorderOp(keyOf, ReorderOps(keyOf, items, ops[..|ops| - 1]), ops[|ops| - 1])
  }

  /** The nodes that a run may add. */
  ghost function Added<K, V>(ops: seq<Op<K, V>>): set<Node<V>> {
    set i | 0 <= i < |ops| && ops[i].Put? :: ops[i].x
  }

  method PutIfAbsent<K(==), V>(t: HashTable<K, V>, x: Node<V>, ghost world: set<Node<V>>)
    requires t.Valid() && KeysDistinct(t.keyOf, t.items)
    requires (forall y :: y in t.items ==> y in world) && x in world
    modifies t, t.buckets, t.bloomBv, world
    ensures t.Valid() && KeysDistinct(t.keyOf, t.items)
    ensures forall y :: y in t.items ==> y in world
    ensures (t.buckets == old(t.buckets) || fresh(t.buckets)) && (t.bloomBv == old(t.bloomBv) || fresh(t.bloomBv))
    ensures t.items == ReorderOp(t.keyOf, old(t.items), Put(x))
    ensures MapOf(t.keyOf, t.items) == ApplyOp(t.keyOf, MapOf(t.keyOf, old(t.items)), Put(x))
  {
    hide MapOf, KeysDistinct, HashTable.Valid;
    var found := t.Find(t.keyOf(x.val));
    if found == null {
      MapOfAdd(t.keyOf, t.items, x);
      t.Add(x);
    }
  }

  lemma OnlyOfKey<K, V>(keyOf: V -> K, items: seq<Node<V>>, x: Node<V>, k: nat)
    requires KeysDistinct(keyOf, items) && x in items && k < |items| && keyOf(items[k].val) == keyOf(x.val)
    ensures items[k] == x
  {}

  lemma WithoutWithin<T>(s: seq<T>, k: nat)
    requires k < |s|
    ensures forall x :: x in Without(s, k) ==> x in s
  {}

  method RemoveKey<K(==), V>(t: HashTable<K, V>, key: K, ghost world: set<Node<V>>)
    requires t.Valid() && KeysDistinct(t.keyOf, t.items)
    requires forall y :: y in t.items ==> y in world
    modifies t, t.buckets, world
    ensures t.Valid() && KeysDistinct(t.keyOf, t.items)
    ensures forall y :: y in t.items ==> y in world
    ensures t.buckets == old(t.buckets) && t.bloomBv == old(t.bloomBv)
    ensures t.items == ReorderOp(t.keyOf, old(t.items), Remove(key))
    ensures MapOf(t.keyOf, t.items) == ApplyOp(t.keyOf, MapOf(t.keyOf, old(t.items)), Remove(key))
  {
    hide MapOf, KeysDistinct, HashTable.Valid;
    ghost var m := MapOf(t.keyOf, t.items);
    var found := t.Find(key);
    if found != null {
      ghost var k := KeyIndex(t.keyOf, t.items, key);
      OnlyOfKey(t.keyOf, t.items, found, k);
      MapOfDelete(t.keyOf, t.items, k);
      WithoutWithin(t.items, k);
      t.Delete(found, k);
    } else {
      assert m - {key} == m;
    }
  }

  lemma Twice<T>(t: seq<T>, i: nat, j: nat)
    requires i < j < |t| && t[i] == t[j]
    ensures multiset(t)[t[i]] >= 2
  {
    assert t == t[..i] + [t[i]] + t[i + 1..j] + [t[j]] + t[j + 1..];
  }

  lemma {:induction false} Once<T>(s: seq<T>, x: T)
    requires Distinct(s)
    ensures multiset(s)[x] <= 1
  {
    if s != [] {
      Once(s[1..], x);
      assert s == [s[0]] + s[1..];
      assert s[0] !in s[1..];
    }
  }

  lemma PermutationDistinct<T>(s: seq<T>, t: seq<T>)
    requires Distinct(s) && multiset(s) == multiset(t)
    ensures Distinct(t)
  {
    forall i, j | 0 <= i < j < |t|
      ensures t[i] != t[j]
    {
      if t[i] == t[j] {
        Twice(t, i, j);
        Once(s, t[i]);
        assert false;
      }
    }
  }

  lemma SortKeepsMap<K, V>(t: HashTable<K, V>, cmp: (Node<V>, Node<V>) -> int)
    requires t.Valid() && KeysDistinct(t.keyOf, t.items)
    ensures var sorted := Sort(cmp, t.items);
      && KeysDistinct(t.keyOf, sorted) && MapOf(t.keyOf, sorted) == MapOf(t.keyOf, t.items)
      && forall x :: x in sorted ==> x in t.items
  {
    var sorted := Sort(cmp, t.items);
    SortFromPermutes(cmp, t.items, 1);
    assert Distinct(t.items);
    hide Sort;
    PermutationMembers(t.items, sorted);
    PermutationDistinct(t.items, sorted);
    MapOfReordered(t.keyOf, t.items, sorted);
  }

  /** One operation keeps the table valid and its keys distinct, and does what it does to the map. */
  method RunOp<K(==), V>(t: HashTable<K, V>, op: Op<K, V>, ghost world: set<Node<V>>)
    requires t.Valid() && KeysDistinct(t.keyOf, t.items)
    requires (forall x :: x in t.items ==> x in world) && (op.Put? ==> op.x in world)
    modifies t, t.buckets, t.bloomBv, world
    ensures t.Valid() && KeysDistinct(t.keyOf, t.items)
    ensures forall x :: x in t.items ==> x in world
    ensures (t.buckets == old(t.buckets) || fresh(t.buckets)) && (t.bloomBv == old(t.bloomBv) || fresh(t.bloomBv))
    ensures t.items == ReorderOp(t.keyOf, old(t.items), op)
    ensures MapOf(t.keyOf, t.items) == ApplyOp(t.keyOf, MapOf(t.keyOf, old(t.items)), op)
  {
    hide MapOf, KeysDistinct, HashTable.Valid, Sort;
    match op
    case Put(x) => PutIfAbsent(t, x, world);
    case Remove(key) => RemoveKey(t, key, world);
    case SortBy(cmp) =>
      SortKeepsMap(t, cmp);
      t.SortOrder(cmp);
  }

  lemma ApplyNext<K, V>(keyOf: V -> K, items: seq<Node<V>>, m: map<K, Node<V>>, ops: seq<Op<K, V>>, i: nat)
    requires i < |ops|
    ensures ReorderOps(keyOf, items, ops[..i + 1]) == ReorderOp(keyOf, ReorderOps(keyOf, items, ops[..i]), ops[i])
    ensures ApplyOps(keyOf, m, ops[..i + 1]) == ApplyOp(keyOf, ApplyOps(keyOf, m, ops[..i]), ops[i])
  {
    assert ops[..i + 1][..i] == ops[..i];
  }

  method RunEach<K(==), V>(t: HashTable<K, V>, ops: seq<Op<K, V>>)
    requires t.Valid() && KeysDistinct(t.keyOf, t.items)
    modifies t, t.buckets, t.bloomBv, t.items, Added(ops)
    ensures t.Valid() && KeysDistinct(t.keyOf, t.items)
    ensures t.items == ReorderOps(t.keyOf, old(t.items), ops)
    ensures MapOf(t.keyOf, t.items) == ApplyOps(t.keyOf, MapOf(t.keyOf, old(t.items)), ops)
  {
    ghost var world := (set x | x in t.items) + Added(ops);
    ghost var items, m := t.items, MapOf(t.keyOf, t.items);
    var i := 0;
    assert ops[..0] == [];
    while i < |ops|
      invariant 0 <= i <= |ops|
      invariant t.Valid() && KeysDistinct(t.keyOf, t.items)
      invariant forall x :: x in t.items ==> x in world
      invariant (t.buckets == old(t.buckets) || fresh(t.buckets)) && (t.bloomBv == old(t.bloomBv) || fresh(t.bloomBv))
      invariant t.items == ReorderOps(t.keyOf, items, ops[..i])
      invariant MapOf(t.keyOf, t.items) == ApplyOps(t.keyOf, m, ops[..i])
    {
      ApplyNext(t.keyOf, items, m, ops, i);
      hide MapOf, KeysDistinct, ApplyOps, ReorderOps;
      RunOp(t, ops[i], world);
      i := i + 1;
    }
    assert ops[..i] == ops;
  }

  /**
   Over every run the table stays valid, what it holds is what the same operations make of a
   finite map, and its application order what they make of a sequence: insertion order, but
   for what was sorted. Unless two expansions in a row were ineffective, expansion is not
   inhibited, and every chain is short while the ideal length is.
   */
  method RunOps<K(==), V>(t: HashTable<K, V>, ops: seq<Op<K, V>>)
    requires t.Valid() && KeysDistinct(t.keyOf, t.items)
    modifies t, t.buckets, t.bloomBv, t.items, Added(ops)
    ensures t.Valid() && KeysDistinct(t.keyOf, t.items)
    ensures t.items == ReorderOps(t.keyOf, old(t.items), ops)
    ensures t.items != [] ==>
      && t.buckets.Length == 32 * Pow2(|t.expansions|)
      && t.growth.noexpand == (if TwoInARow(t.expansions) then 1 else 0)
      && (!TwoInARow(t.expansions) && t.growth.idealChainMaxlen <= 9 ==>
            forall b :: 0 <= b < t.buckets.Length ==> t.buckets[b].count < 10 * (t.buckets[b].expandMult + 1))
    ensures MapOf(t.keyOf, t.items) == ApplyOps(t.keyOf, MapOf(t.keyOf, old(t.items)), ops)
  {
    hide *;
    RunEach(t, ops);
    if t.items != [] {
      t.HistoryTells();
    }
  }

  /** A table that has not been expanded, and in which no bucket is allowed more than nine items. */
  ghost predicate Small<K, V>(t: HashTable<K, V>)
    reads t, t.buckets
  {
    && t.buckets.Length == 32 && t.growth.noexpand == 0 && t.expansions == []
    && forall b :: 0 <= b < 32 ==> t.buckets[b].expandMult == 0
  }

  method AddSmall<K(==), V>(t: HashTable<K, V>, x: Node<V>)
    requires t.Valid() && x !in t.items && |t.items| < 9 && (t.items != [] ==> Small(t))
    modifies t, t.buckets, t.bloomBv, x, t.items
    ensures t.Valid() && t.items == old(t.items) + [x] && Small(t)
    ensures (t.buckets == old(t.buckets) || fresh(t.buckets)) && (t.bloomBv == old(t.bloomBv) || fresh(t.bloomBv))
  {
    if t.items != [] {
      forall b | 0 <= b < t.buckets.Length
        ensures t.buckets[b].count < 9
      {
        t.CountWithin(b);
      }
    }
    hide HashTable.Valid;
    t.Add(x);
  }

  /** Fewer than ten additions to an empty table leave its first 32 buckets. */
  method AddFew<K(==), V>(t: HashTable<K, V>, xs: seq<Node<V>>)
    requires t.Valid() && t.items == [] && Distinct(xs) && |xs| < 10
    modifies t, t.buckets, t.bloomBv, xs
    ensures t.Valid() && t.items == xs
    ensures xs != [] ==> t.buckets.Length == 32 && t.expansions == []
  {
    var i := 0;
    assert xs[..0] == [];
    while i < |xs|
      invariant 0 <= i <= |xs| && t.Valid() && t.items == xs[..i]
      invariant (t.buckets == old(t.buckets) || fresh(t.buckets)) && (t.bloomBv == old(t.bloomBv) || fresh(t.bloomBv))
      invariant i > 0 ==> Small(t)
    {
      assert xs[..i + 1] == xs[..i] + [xs[i]] && xs[i] !in xs[..i];
      AddSmall(t, xs[i]);
      i := i + 1;
    }
    assert xs[..i] == xs;
  }
}
