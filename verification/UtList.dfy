/**
 The linked lists of datastructures/utlist.h: singly linked (LL), doubly linked with the
 tail kept in the head's prev (DL), and circular (CDL).

 `nodes` is the list as a sequence of node objects; the links must spell out exactly it.
 */
module UtList {
  import opened ListSort
  import opened MergeSort
  import opened Nodes

  /** A doubly linked list whose links step over node k is the list without node k. */
  lemma LinkedAround<V>(s: seq<Node<V>>, k: nat)
    requires 0 < k < |s| && Distinct(s)
    requires forall i {:trigger s[i].next} :: 0 <= i < |s| && i != k ==>
      s[i].next == NodeAt(s, if i == k - 1 then k + 1 else i + 1)
    requires forall i {:trigger s[i].prev} :: 0 < i < |s| && i != k ==>
      s[i].prev == NodeAt(s, if i == k + 1 then k - 1 else i - 1)
    requires s[0].prev == s[if k == |s| - 1 then k - 1 else |s| - 1]
    ensures Linked(DL, Without(s, k))
    ensures Without(s, k) != [] && Without(s, k)[0] == s[0]
  {
    DistinctWithout(s, k);
    hide Without, Distinct;
  }

  /** A doubly linked list whose links go through `add` instead of node k. */
  lemma LinkedReplaced<V>(s: seq<Node<V>>, k: nat, add: Node<V>)
    requires 0 < k < |s| && Distinct(s) && add !in s
    requires forall i {:trigger s[i].next} :: 0 <= i < |s| && i != k ==>
      s[i].next == if i == k - 1 then add else NodeAt(s, i + 1)
    requires forall i {:trigger s[i].prev} :: 0 < i < |s| && i != k ==>
      s[i].prev == if i == k + 1 then add else s[i - 1]
    requires add.next == NodeAt(s, k + 1) && add.prev == s[k - 1]
    requires s[0].prev == if k == |s| - 1 then add else s[|s| - 1]
    ensures Linked(DL, s[k := add])
  {
    DistinctReplace(s, k, add);
    hide Distinct;
  }

  class LinkedList<V> {
    const kind: Kind
    var head: Node?<V>
    ghost var nodes: seq<Node<V>>

    ghost predicate Valid()
      reads this, nodes
    {
      && Linked(kind, nodes)
      && head == (if nodes == [] then null else nodes[0])
    }

    constructor (k: Kind)
      ensures Valid() && nodes == [] && kind == k
    {
      kind := k;
      head := null;
      nodes := [];
    }

    // ----- Adding, removing and replacing in doubly linked lists ---------------------

    method DlPrepend(add: Node<V>)
      requires Valid() && kind.DL? && add !in nodes
      modifies this, nodes, add
      ensures Valid() && nodes == [add] + old(nodes)
    {
      add.next := head;
      if head != null {
        add.prev := head.prev;
        head.prev := add;
      } else {
        add.prev := add;
      }
      head := add;
      nodes := [add] + nodes;
    }

    method DlAppend(add: Node<V>)
      requires Valid() && kind.DL? && add !in nodes
      modifies this, nodes, add
      ensures Valid() && nodes == old(nodes) + [add]
    {
      if head != null {
        add.prev := head.prev;
        assert head.prev == nodes[|nodes| - 1];
        head.prev.next := add;
        head.prev := add;
        add.next := null;
      } else {
        head := add;
        head.prev := head;
        head.next := null;
      }
      nodes := nodes + [add];
    }

    method DlConcat(other: LinkedList<V>)
      requires Valid() && other.Valid() && kind.DL? && other.kind.DL?
      requires forall x :: x in nodes ==> x !in other.nodes
      modifies this, nodes, other.nodes
      ensures Valid() && nodes == old(nodes) + old(other.nodes)
    {
      DistinctAppend(nodes, other.nodes);
      if other.head == null {
        assert nodes + other.nodes == nodes;
      } else {
        if head != null {
          assert head.prev == nodes[|nodes| - 1];
          assert other.head.prev == other.nodes[|other.nodes| - 1];
          var tmp := other.head.prev;
          other.head.prev := head.prev;
          head.prev.next := other.head;
          head.prev := tmp;
        } else {
          head := other.head;
        }
      }
      nodes := nodes + other.nodes;
    }

    method DlDeleteBehindHead(del: Node<V>, ghost k: nat)
      requires Valid() && kind.DL? && 0 < k < |nodes| && nodes[k] == del
      modifies this, nodes
      ensures Valid() && nodes == Without(old(nodes), k)
      ensures del.next == old(del.next) && del.prev == old(del.prev)
    {
      assert del.prev == nodes[k - 1];
      del.prev.next := del.next;
      if del.next != null {
        assert del.next == nodes[k + 1];
        del.next.prev := del.prev;
      } else {
        head.prev := del.prev;
      }
      LinkedAround(nodes, k);
      nodes := Without(nodes, k);
    }

    /** Unlinks the k-th node, found through its own links only. */
    method DlDelete(del: Node<V>, ghost k: nat)
      requires Valid() && kind.DL? && k < |nodes| && nodes[k] == del
      modifies this, nodes
      ensures Valid() && nodes == Without(old(nodes), k)
      ensures del.next == old(del.next) && del.prev == old(del.prev)
    {
      if del.prev == del {
        head := null;
        nodes := Without(nodes, k);
      } else if del == head {
        assert k == 0 && del.next == nodes[1];
        del.next.prev := del.prev;
        head := del.next;
        nodes := Without(nodes, k);
      } else {
        DlDeleteBehindHead(del, k);
      }
    }

    method DlReplaceBehindHead(el: Node<V>, add: Node<V>, ghost k: nat)
      requires Valid() && kind.DL? && 0 < k < |nodes| && nodes[k] == el && add !in nodes
      modifies this, nodes, add
      ensures Valid() && nodes == old(nodes)[k := add]
    {
      assert el.prev == nodes[k - 1];
      add.next := el.next;
      add.prev := el.prev;
      add.prev.next := add;
      if el.next == null {
        head.prev := add;
      } else {
        assert el.next == nodes[k + 1];
        add.next.prev := add;
      }
      LinkedReplaced(nodes, k, add);
      nodes := nodes[k := add];
    }

    method DlReplaceElem(el: Node<V>, add: Node<V>, ghost k: nat)
      requires Valid() && kind.DL? && k < |nodes| && nodes[k] == el && add !in nodes
      modifies this, nodes, add
      ensures Valid() && nodes == old(nodes)[k := add]
    {
      if head == el {
        head := add;
        add.next := el.next;
        if el.next == null {
          add.prev := add;
        } else {
          assert el.next == nodes[1];
          add.prev := el.prev;
          add.next.prev := add;
        }
        assert k == 0;
        nodes := nodes[k := add];
      } else {
        DlReplaceBehindHead(el, add, k);
      }
    }

    // ----- Sorting -------------------------------------------------------------------

    /** Sorts the list in place. */
    method Sort2(cmp: (Node<V>, Node<V>) -> int)
      requires Valid()
      modifies this, nodes`next, nodes`prev
      ensures Valid() && nodes == Sort(cmp, old(nodes))
    {
      if head != null {
        var tail;
        head, tail, nodes := ListSort.Sort2(kind, cmp, head, nodes);
      }
    }
  }
}
