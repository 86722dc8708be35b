/** The circular doubly linked lists of lib/list.c: each primitive, on the links, does what the
    other modules take it to do on a sequence. */
module Lists {
  import opened Common

  class Node {
    var next: Node
    var prev: Node

    /** INIT_LIST_HEAD. */
    constructor ()
      ensures next == this && prev == this && Ring([this])
    {
      next, prev := this, this;
    }
  }

  /** The nodes in the order of their links, from the list head on. */
  ghost predicate Ring(ring: seq<Node>)
    reads ring
  {
    && |ring| > 0
    && (forall i, j :: 0 <= i < j < |ring| ==> ring[i] != ring[j])
    && (forall i :: 0 <= i < |ring| ==> ring[i].next == ring[Up(i, |ring|)] && ring[Up(i, |ring|)].prev == ring[i])
  }

  function Inserted(ring: seq<Node>, i: nat, node: Node): seq<Node>
    requires i <= |ring|
  {
    ring[..i] + [node] + ring[i..]
  }

  function Removed(ring: seq<Node>, i: nat): seq<Node>
    requires i < |ring|
  {
    ring[..i] + ring[i + 1..]
  }

  lemma PrevIs(ring: seq<Node>, i: nat)
    requires Ring(ring) && i < |ring|
    ensures ring[i].prev == ring[if i == 0 then |ring| - 1 else i - 1]
  {
    var h := if i == 0 then |ring| - 1 else i - 1;
    assert ring[Up(h, |ring|)].prev == ring[h];
  }

  /** __list_add between two neighbours. */
  method AddBetween(node: Node, prev: Node, next: Node, ghost ring: seq<Node>, ghost i: nat)
    requires Ring(ring) && node !in ring && i < |ring| && prev == ring[i] && next == ring[Up(i, |ring|)]
    modifies node, next`prev, prev`next
    ensures Ring(Inserted(ring, i + 1, node))
  {
    next.prev := node;
    node.next := next;
    node.prev := prev;
    prev.next := node;
    ghost var n := |ring|;
    forall j | 0 <= j < n && j != i
      ensures ring[j].next == ring[Up(j, n)] && ring[Up(j, n)].prev == ring[j]
    {
      assert old(ring[j].next) == ring[Up(j, n)] && old(ring[Up(j, n)].prev) == ring[j];
    }
    hide Ring, Inserted;
    RingInserted(ring, i, node);
  }

  lemma RingInserted(ring: seq<Node>, i: nat, node: Node)
    requires i < |ring| && node !in ring && forall j, k :: 0 <= j < k < |ring| ==> ring[j] != ring[k]
    requires forall j :: 0 <= j < |ring| && j != i ==>
      ring[j].next == ring[Up(j, |ring|)] && ring[Up(j, |ring|)].prev == ring[j]
    requires ring[i].next == node && node.prev == ring[i]
    requires node.next == ring[Up(i, |ring|)] && ring[Up(i, |ring|)].prev == node
    ensures Ring(Inserted(ring, i + 1, node))
  {
    var r := Inserted(ring, i + 1, node);
    InsertedDistinct(ring, i + 1, node);
    hide Inserted, Ring;
    forall j | 0 <= j < |r|
      ensures r[j].next == r[Up(j, |r|)] && r[Up(j, |r|)].prev == r[j]
    {
      InsertedAt(ring, i + 1, node, j);
      InsertedAt(ring, i + 1, node, Up(j, |r|));
      if j < i {
        assert ring[j].next == ring[Up(j, |ring|)];
      } else if j > i + 1 {
        assert ring[j - 1].next == ring[Up(j - 1, |ring|)];
      }
    }
    RingIs(r);
  }

  lemma RingIs(ring: seq<Node>)
    requires |ring| > 0 && forall i, j :: 0 <= i < j < |ring| ==> ring[i] != ring[j]
    requires forall i :: 0 <= i < |ring| ==> ring[i].next == ring[Up(i, |ring|)] && ring[Up(i, |ring|)].prev == ring[i]
    ensures Ring(ring)
  {
  }

  lemma InsertedAt(ring: seq<Node>, k: nat, node: Node, j: nat)
    requires k <= |ring| && j <= |ring|
    ensures |Inserted(ring, k, node)| == |ring| + 1
    ensures Inserted(ring, k, node)[j] == if j < k then ring[j] else if j == k then node else ring[j - 1]
  {
  }

  lemma InsertedDistinct(ring: seq<Node>, k: nat, node: Node)
    requires k <= |ring| && node !in ring && forall i, j :: 0 <= i < j < |ring| ==> ring[i] != ring[j]
    ensures |Inserted(ring, k, node)| == |ring| + 1
    ensures forall i, j :: 0 <= i < j < |ring| + 1 ==> Inserted(ring, k, node)[i] != Inserted(ring, k, node)[j]
  {
    hide Inserted;
    InsertedAt(ring, k, node, 0);
    forall i, j | 0 <= i < j < |ring| + 1
      ensures Inserted(ring, k, node)[i] != Inserted(ring, k, node)[j]
    {
      InsertedAt(ring, k, node, i);
      InsertedAt(ring, k, node, j);
    }
  }

  /** list_add: behind the node at place `i`. */
  method ListAdd(node: Node, head: Node, ghost ring: seq<Node>, ghost i: nat)
    requires Ring(ring) && node !in ring && i < |ring| && head == ring[i]
    modifies node, head`next, head.next`prev
    ensures Ring(Inserted(ring, i + 1, node))
  {
    AddBetween(node, head, head.next, ring, i);
  }

  /** list_add_tail: in front of the node at place `i`; of the head, at the end. */
  method ListAddTail(node: Node, head: Node, ghost ring: seq<Node>, ghost i: nat)
    requires Ring(ring) && node !in ring && i < |ring| && head == ring[i]
    modifies node, head`prev, head.prev`next
    ensures Ring(Inserted(ring, if i == 0 then |ring| else i, node))
  {
    PrevIs(ring, i);
    AddBetween(node, head.prev, head, ring, if i == 0 then |ring| - 1 else i - 1);
  }

  /** list_del of any node but the head. */
  method ListDel(entry: Node, ghost ring: seq<Node>, ghost i: nat)
    requires Ring(ring) && 0 < i < |ring| && entry == ring[i]
    modifies entry, entry.prev`next, entry.next`prev
    ensures Ring(Removed(ring, i)) && entry.next == entry && entry.prev == entry
  {
    ghost var n := |ring|;
    PrevIs(ring, i);
    assert entry.next == ring[Up(i, n)];
    entry.next.prev := entry.prev;
    entry.prev.next := entry.next;
    entry.next := entry;
    entry.prev := entry;
    forall j | 0 <= j < n && j != i - 1 && j != i
      ensures ring[j].next == ring[Up(j, n)] && ring[Up(j, n)].prev == ring[j]
    {
      assert old(ring[j].next) == ring[Up(j, n)] && old(ring[Up(j, n)].prev) == ring[j];
    }
    hide Ring, Removed;
    RingRemoved(ring, i);
  }

  lemma RingRemoved(ring: seq<Node>, i: nat)
    requires 0 < i < |ring| && forall j, k :: 0 <= j < k < |ring| ==> ring[j] != ring[k]
    requires forall j :: 0 <= j < |ring| && j != i - 1 && j != i ==>
      ring[j].next == ring[Up(j, |ring|)] && ring[Up(j, |ring|)].prev == ring[j]
    requires ring[i - 1].next == ring[Up(i, |ring|)] && ring[Up(i, |ring|)].prev == ring[i - 1]
    ensures Ring(Removed(ring, i))
  {
    var r := Removed(ring, i);
    assert forall j :: 0 <= j < |r| ==> r[j] == if j < i then ring[j] else ring[j + 1];
    hide Ring, Removed;
    forall j | 0 <= j < |r|
      ensures r[j].next == r[Up(j, |r|)] && r[Up(j, |r|)].prev == r[j]
    {
      if j < i - 1 {
        assert ring[j].next == ring[Up(j, |ring|)];
      } else if j >= i {
        assert ring[j + 1].next == ring[Up(j + 1, |ring|)];
      }
    }
    RingIs(r);
  }

  /** list_empty. */
  method ListEmpty(head: Node, ghost ring: seq<Node>) returns (b: bool)
    requires Ring(ring) && head == ring[0]
    ensures b <==> |ring| == 1
  {
    b := head.next == head;
    assert head.next == ring[Up(0, |ring|)];
  }

  /** Deleting what was just added leaves every link of the list as it was. */
  method AddDel(node: Node, head: Node, ghost ring: seq<Node>, ghost i: nat)
    requires Ring(ring) && node !in ring && i < |ring| && head == ring[i]
    modifies node, head`next, head.next`prev
    ensures forall j :: 0 <= j < |ring| ==> ring[j].next == old(ring[j].next) && ring[j].prev == old(ring[j].prev)
    ensures node.next == node && node.prev == node
  {
    hide Ring, Inserted, Removed;
    ghost var more := Inserted(ring, i + 1, node);
    NextIs(ring, i);
    InsertedAt(ring, i + 1, node, i);
    InsertedAt(ring, i + 1, node, i + 1);
    ListAdd(node, head, ring, i);
    Neighbours(ring, i, node);
    ListDel(node, more, i + 1);
    RemovedInserted(ring, i + 1, node);
    SameLinks(ring);
  }

  lemma NextIs(ring: seq<Node>, i: nat)
    requires Ring(ring) && i < |ring|
    ensures ring[i].next == ring[Up(i, |ring|)]
  {
  }

  /** A ring determines its links. */
  twostate lemma SameLinks(ring: seq<Node>)
    requires old(Ring(ring)) && Ring(ring)
    ensures forall j :: 0 <= j < |ring| ==> ring[j].next == old(ring[j].next) && ring[j].prev == old(ring[j].prev)
  {
    forall j | 0 <= j < |ring|
      ensures ring[j].next == old(ring[j].next) && ring[j].prev == old(ring[j].prev)
    {
      var h := if j == 0 then |ring| - 1 else j - 1;
      assert ring[Up(h, |ring|)].prev == ring[h] && old(ring[Up(h, |ring|)].prev) == ring[h];
    }
  }

  /** The neighbours of an added node. */
  lemma Neighbours(ring: seq<Node>, i: nat, node: Node)
    requires i < |ring| && Ring(Inserted(ring, i + 1, node))
    ensures node.prev == ring[i] && node.next == ring[Up(i, |ring|)]
  {
    var more := Inserted(ring, i + 1, node);
    assert more[i + 1] == node && more[i] == ring[i];
    assert more[Up(i, |more|)].prev == more[i];
    assert more[i + 1].next == more[Up(i + 1, |more|)];
  }

  lemma RemovedInserted(ring: seq<Node>, i: nat, node: Node)
    requires i <= |ring|
    ensures Removed(Inserted(ring, i, node), i) == ring
  {
    assert Removed(Inserted(ring, i, node), i) == ring[..i] + ring[i..];
  }
}
