/**
 The element structures that the lists of utlist.h and the hash table of uthash.h link.

 The macros of both headers work on link fields inside the user's own structures. A node
 is such a structure: a payload, the prev and next links of a list (in uthash, of the
 application order), and the bucket links and hash value of an embedded hash handle.
 */
module Nodes {
  class Node<V> {
    const val: V
    var prev: Node?<V>
    var next: Node?<V>
    var hhPrev: Node?<V>
    var hhNext: Node?<V>
    var hashv: nat

    constructor (v: V)
      ensures val == v
    {
      val := v;
      prev, next, hhPrev, hhNext, hashv := null, null, null, null, 0;
    }
  }

  /**
   The shapes a list can have: singly linked, doubly linked with the tail kept in the
   first prev, circular, and the application order of a hash table, whose first prev is
   null and whose tail is kept in the table.
   */
  datatype Kind = LL | DL | CDL | HH

  ghost predicate Distinct<T>(s: seq<T>) {
    forall i, j :: 0 <= i < j < |s| ==> s[i] != s[j]
  }

  lemma DistinctFrom<T>(s: seq<T>, k: nat)
    requires Distinct(s) && k < |s|
    ensures forall i :: 0 <= i < |s| && i != k ==> s[i] != s[k]
  {}

  lemma DistinctAppend<T>(s: seq<T>, t: seq<T>)
    requires Distinct(s) && Distinct(t) && forall x :: x in s ==> x !in t
    ensures Distinct(s + t)
    ensures forall i, j :: 0 <= i < |s| && 0 <= j < |t| ==> s[i] != t[j]
  {
    forall i, j | 0 <= i < |s| && 0 <= j < |t|
      ensures s[i] != t[j]
    {
      assert s[i] in s && t[j] in t;
    }
  }

  lemma DistinctReplace<T>(s: seq<T>, k: nat, x: T)
    requires Distinct(s) && k < |s| && x !in s
    ensures Distinct(s[k := x])
  {}

  /** s without its k-th element. */
  ghost function Without<T>(s: seq<T>, k: nat): (r: seq<T>)
    requires k < |s|
    ensures |r| == |s| - 1
    ensures forall i :: 0 <= i < k ==> r[i] == s[i]
    ensures forall i :: k <= i < |r| ==> r[i] == s[i + 1]
  {
    s[..k] + s[k + 1..]
  }

  lemma DistinctWithout<T>(s: seq<T>, k: nat)
    requires k < |s| && Distinct(s)
    ensures Distinct(Without(s, k)) && s[k] !in Without(s, k)
    ensures forall x :: x in Without(s, k) <==> x in s && x != s[k]
  {
    var r := Without(s, k);
    forall x | x in s && x != s[k]
      ensures x in r
    {
      var i :| 0 <= i < |s| && s[i] == x;
      assert r[if i < k then i else i - 1] == x;
    }
  }

  /** The i-th node, or null past the end. */
  ghost function NodeAt<V>(s: seq<Node<V>>, i: nat): Node?<V> {
    if i < |s| then s[i] else null
  }

  /** What the next field of the i-th node must hold. */
  ghost function NextIn<V>(kind: Kind, s: seq<Node<V>>, i: nat): Node?<V>
    requires i < |s|
  {
    if i + 1 < |s| then s[i + 1] else if kind.CDL? then s[0] else null
  }

  /** What the prev field of the i-th node must hold; a singly linked list has none. */
  ghost function PrevIn<V>(kind: Kind, s: seq<Node<V>>, i: nat): Node?<V>
    requires i < |s|
  {
    if i > 0 then s[i - 1] else if kind.HH? then null else s[|s| - 1]
  }

  /** The links of the nodes spell out exactly the sequence s. */
  ghost predicate Linked<V>(kind: Kind, s: seq<Node<V>>)
    reads s`next, s`prev
  {
    && Distinct(s)
    && (forall i {:trigger s[i].next} :: 0 <= i < |s| ==> s[i].next == NextIn(kind, s, i))
    && (kind != LL ==> forall i {:trigger s[i].prev} :: 0 <= i < |s| ==> s[i].prev == PrevIn(kind, s, i))
  }
}
