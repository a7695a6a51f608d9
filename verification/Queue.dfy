/** The intrusive circular queue: a head and its nodes, linked in both directions in one ring. */
module Queue {

  class Node {
    var prev: Node
    var next: Node

    /** queue_node_init, queue_init: a ring of one. */
    constructor ()
      ensures Ring([this])
    {
      prev := this;
      next := this;
    }
  }

  ghost predicate Distinct(r: seq<Node>) { forall i, j | 0 <= i < j < |r| :: r[i] != r[j] }

  /** The nodes of `r`, in order, form one ring; its first node is the head of a queue and the others its entries. */
  ghost predicate Ring(r: seq<Node>)
    reads set x | x in r
  {
    && r != [] && Distinct(r)
    && (forall i | 0 <= i < |r| - 1 :: r[i].next == r[i + 1] && r[i + 1].prev == r[i])
    && r[|r| - 1].next == r[0] && r[0].prev == r[|r| - 1]
  }

  /** queue_is_enqueued: on the head it says that there are entries, on a node alone that it is in no queue. */
  method IsEnqueued(node: Node, ghost r: seq<Node>) returns (b: bool)
    requires Ring(r) && node in r
    ensures b <==> |r| > 1
  {
    ghost var i :| 0 <= i < |r| && r[i] == node;
    assert i > 0 ==> r[i - 1].next == r[i];
    b := node.prev != node;
  }

  /** queue_first and queue_last */
  method First(head: Node, ghost r: seq<Node>) returns (node: Node?)
    requires Ring(r) && head == r[0]
    ensures node == if |r| > 1 then r[1] else null
  {
    var some := IsEnqueued(head, r);
    node := if some then head.next else null;
  }

  method Last(head: Node, ghost r: seq<Node>) returns (node: Node?)
    requires Ring(r) && head == r[0]
    ensures node == if |r| > 1 then r[|r| - 1] else null
  {
    var some := IsEnqueued(head, r);
    node := if some then head.prev else null;
  }

  /** queue_append: the node becomes the last entry. */
  method Append(head: Node, node: Node, ghost r: seq<Node>)
    requires Ring(r) && head == r[0] && node !in r
    modifies node, head, head.prev
    ensures Ring(r + [node])
  {
    node.next := head;
    node.prev := head.prev;
    node.prev.next := node;
    head.prev := node;
  }

  /** queue_prepend: the node becomes the first entry. */
  method Prepend(head: Node, node: Node, ghost r: seq<Node>)
    requires Ring(r) && head == r[0] && node !in r
    modifies node, head, head.next
    ensures Ring([head, node] + r[1..])
  {
    assert head.next == if |r| > 1 then r[0 + 1] else head;
    node.next := head.next;
    node.prev := head;
    node.next.prev := node;
    head.next := node;
    ghost var t := [head, node] + r[1..];
    assert forall k | 1 < k < |t| :: t[k] == r[k - 1];
    forall k | 0 <= k < |t| - 1
      ensures t[k].next == t[k + 1] && t[k + 1].prev == t[k]
    {
      assert k > 1 ==> r[k - 1].next == r[k - 1 + 1];
    }
    assert |r| > 1 ==> t[|t| - 1] == r[|r| - 1];
  }

  /** queue__detach_node: the ring closes over the gap. */
  method Detach(node: Node, ghost r: seq<Node>, ghost i: nat)
    requires Ring(r) && 0 < i < |r| && node == r[i]
    modifies node.prev, node.next
    ensures Ring(r[..i] + r[i + 1..])
  {
    ghost var s := r[..i] + r[i + 1..];
    Neighbours(r, i);
    node.prev.next := node.next;
    node.next.prev := node.prev;
    assert forall k | 0 <= k < |s| :: s[k] == if k < i then r[k] else r[k + 1];
    forall k | 0 <= k < |s| - 1
      ensures s[k].next == s[k + 1] && s[k + 1].prev == s[k]
    {
      assert k < i - 1 ==> r[k].next == r[k + 1];
      assert k >= i ==> r[k + 1].next == r[k + 1 + 1];
    }
  }

  lemma Neighbours(r: seq<Node>, i: nat)
    requires Ring(r) && 0 < i < |r|
    ensures r[i].prev == r[i - 1] && r[i].next == (if i + 1 < |r| then r[i + 1] else r[0])
  {
    assert r[i - 1].next == r[i - 1 + 1];
  }

  /** queue_remove: the node leaves its queue and is a ring of its own. */
  method Remove(node: Node, ghost r: seq<Node>, ghost i: nat)
    requires Ring(r) && 0 < i < |r| && node == r[i]
    modifies node, node.prev, node.next
    ensures Ring(r[..i] + r[i + 1..]) && Ring([node])
  {
    Detach(node, r, i);
    node.prev := node;
    node.next := node;
  }

  /** queue_move_to_end */
  method MoveToEnd(head: Node, node: Node, ghost r: seq<Node>, ghost i: nat)
    requires Ring(r) && head == r[0] && 0 < i < |r| && node == r[i]
    modifies set x | x in r
    ensures Ring(r[..i] + r[i + 1..] + [node])
  {
    Neighbours(r, i);
    Detach(node, r, i);
    Append(head, node, r[..i] + r[i + 1..]);
  }

  /** queue_move_to_start */
  method MoveToStart(head: Node, node: Node, ghost r: seq<Node>, ghost i: nat)
    requires Ring(r) && head == r[0] && 0 < i < |r| && node == r[i]
    modifies set x | x in r
    ensures Ring([head, node] + r[1..i] + r[i + 1..])
  {
    Neighbours(r, i);
    Detach(node, r, i);
    ghost var s := r[..i] + r[i + 1..];
    assert head.next == if |s| > 1 then s[0 + 1] else head;
    Prepend(head, node, s);
    assert [head, node] + s[1..] == [head, node] + r[1..i] + r[i + 1..];
  }
}
