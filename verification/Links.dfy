/** Queues of objects that carry one intrusive node each, as wepoll keeps its sockets and its poll groups: a node is in
    at most one queue at a time, and the nodes themselves do not say in which. */
module Links {
  import opened Common
  import opened PollGroups
  import opened Queue

  type Id = nat

  /** The ring of a queue: its head, then the nodes of its entries. */
  ghost function Place(node: map<Id, Node>, head: Node, q: seq<Id>): (r: seq<Node>)
    requires forall i | 0 <= i < |q| :: q[i] in node
    ensures |r| == |q| + 1 && r[0] == head && forall i | 0 <= i < |q| :: r[i + 1] == node[q[i]]
    ensures forall x | x in r :: x == head || x in node.Values
  {
    [head] + seq(|q|, i requires 0 <= i < |q| => node[q[i]])
  }

  ghost predicate Known(node: map<Id, Node>, q: seq<Id>) { forall i | 0 <= i < |q| :: q[i] in node }

  /** Every object has its own node, and no node is the head `h`. */
  ghost predicate Injective(node: map<Id, Node>, h: Node) {
    && (forall s, t | s in node && t in node && s != t :: node[s] != node[t])
    && forall s | s in node :: node[s] != h
  }

  ghost predicate Apart(p: seq<Id>, q: seq<Id>) { forall i, j | 0 <= i < |p| && 0 <= j < |q| :: p[i] != q[j] }

  lemma PlaceMember(node: map<Id, Node>, h: Node, q: seq<Id>, s: Id)
    requires Known(node, q) && Injective(node, h) && s in node
    ensures node[s] in Place(node, h, q) <==> s in q
  {
    var r := Place(node, h, q);
    if s in q {
      var i :| 0 <= i < |q| && q[i] == s;
      assert r[i + 1] == node[s];
    }
    if node[s] in r {
      var i :| 0 <= i < |r| && r[i] == node[s];
      assert i > 0 && r[i - 1 + 1] == node[q[i - 1]];
    }
  }

  lemma PlaceAppend(node: map<Id, Node>, h: Node, q: seq<Id>, s: Id)
    requires Known(node, q) && s in node
    ensures Known(node, q + [s]) && Place(node, h, q + [s]) == Place(node, h, q) + [node[s]]
  {
    var r, t := Place(node, h, q + [s]), Place(node, h, q) + [node[s]];
    forall k | 0 <= k < |r|
      ensures r[k] == t[k]
    {
      assert k > 0 ==> r[k - 1 + 1] == node[(q + [s])[k - 1]];
      assert 0 < k <= |q| ==> Place(node, h, q)[k - 1 + 1] == node[q[k - 1]];
    }
  }

  lemma PlaceRemove(node: map<Id, Node>, h: Node, q: seq<Id>, i: nat)
    requires Known(node, q) && i < |q|
    ensures var q' := q[..i] + q[i + 1..]; var r := Place(node, h, q);
      Known(node, q') && Place(node, h, q') == r[..i + 1] + r[i + 2..]
  {
    var q', r := q[..i] + q[i + 1..], Place(node, h, q);
    var t := Place(node, h, q');
    forall k | 0 <= k < |t|
      ensures t[k] == (r[..i + 1] + r[i + 2..])[k]
    {
      if k > 0 {
        assert t[k - 1 + 1] == node[q'[k - 1]];
        assert k <= i ==> r[k - 1 + 1] == node[q[k - 1]];
        assert k > i ==> r[k + 1] == node[q[k]];
      }
    }
  }

  /** Two queues with different heads and no common entry have no common node. */
  lemma PlacesApart(node: map<Id, Node>, h: Node, p: seq<Id>, g: Node, q: seq<Id>)
    requires Known(node, p) && Known(node, q) && Injective(node, h) && Injective(node, g) && h != g && Apart(p, q)
    ensures forall x | x in Place(node, h, p) :: x !in Place(node, g, q)
  {
    var r, t := Place(node, h, p), Place(node, g, q);
    forall i, j | 0 <= i < |r| && 0 <= j < |t|
      ensures r[i] != t[j]
    {
      assert i > 0 ==> r[i - 1 + 1] == node[p[i - 1]];
      assert j > 0 ==> t[j - 1 + 1] == node[q[j - 1]];
    }
  }

  class Queues {
    const first: Node
    const second: Node
    var node: map<Id, Node>
    var owner: map<Node, Id>
    ghost var a: seq<Id>
    ghost var b: seq<Id>

    ghost function Nodes(): set<Node>
      reads this
    {
      AllNodes(node, first, second)
    }

    ghost predicate Idle(s: Id)
      reads this
    {
      s in node && s !in a && s !in b
    }

    /** The two queues are two rings, every other node is a ring of its own, and container_of leads back. */
    ghost predicate Valid()
      reads this, Nodes()
    {
      Linked(node, first, a, second, b) && forall s | s in node :: node[s] in owner && owner[node[s]] == s
    }

    constructor ()
      ensures Valid() && a == [] && b == [] && node == map[] && fresh(Nodes())
    {
      first := new Node();
      second := new Node();
      node, owner := map[], map[];
      a, b := [], [];
      new;
      assert Place(node, first, a) == [first] && Place(node, second, b) == [second];
    }

    /** queue_is_enqueued says whether the object is in one of the queues, not in which. */
    method IsQueued(s: Id) returns (queued: bool)
      requires Valid() && s in node
      ensures queued <==> s in a || s in b
    {
      queued := NodeQueued(node, s, first, a, second, b);
    }

    /** queue_append to the first queue. */
    method AppendFirst(s: Id)
      requires Valid() && Idle(s)
      modifies this`a, Nodes()
      ensures Valid() && a == old(a) + [s]
    {
      hide Linked;
      AppendTo(node, s, first, a, second, b);
      a := a + [s];
    }

    /** queue_append to the second queue. */
    method AppendSecond(s: Id)
      requires Valid() && Idle(s)
      modifies this`b, Nodes()
      ensures Valid() && b == old(b) + [s]
    {
      hide Linked;
      Swapped(node, first, a, second, b);
      AppendTo(node, s, second, b, first, a);
      b := b + [s];
      Swapped(node, second, b, first, a);
    }

    /** queue_remove: the object leaves whichever queue it is in. */
    method Remove(s: Id)
      requires Valid() && s in node && (s in a || s in b)
      modifies this`a, this`b, Nodes()
      ensures Valid() && a == Without(old(a), s) && b == Without(old(b), s)
    {
      hide Linked, PollGroups.Without;
      ghost var here := s in a;
      ghost var p, h := if here then a else b, if here then first else second;
      ghost var q, g := if here then b else a, if here then second else first;
      Swapped(node, first, a, second, b);
      RemoveFrom(node, s, h, p, g, q);
      Swapped(node, h, Without(p, s), g, Without(q, s));
      a, b := Without(a, s), Without(b, s);
    }

    /** The object leaves its queue and is freed. */
    method Drop(s: Id)
      requires Valid() && s in node && (s in a || s in b)
      modifies this`a, this`b, this`node, Nodes()
      ensures Valid() && a == Without(old(a), s) && b == Without(old(b), s)
      ensures node == old(node) - {s} && Nodes() <= old(Nodes())
    {
      hide Valid;
      Remove(s);
      Forget(s);
    }

    /** queue_move_to_end, for an entry of the first queue. */
    method MoveLast(s: Id)
      requires Valid() && s in a
      modifies this`a, Nodes()
      ensures Valid() && a == Without(old(a), s) + [s]
    {
      hide Linked, PollGroups.Without;
      MoveTo(node, s, first, a, second, b, true);
      a := Without(a, s) + [s];
    }

    /** queue_move_to_start, for an entry of the first queue. */
    method MoveFirst(s: Id)
      requires Valid() && s in a
      modifies this`a, Nodes()
      ensures Valid() && a == [s] + Without(old(a), s)
    {
      hide Linked, PollGroups.Without;
      MoveTo(node, s, first, a, second, b, false);
      a := [s] + Without(a, s);
    }

    /** queue_last of the first queue. */
    method LastEntry() returns (s: Option<Id>)
      requires Valid()
      ensures s == if a == [] then None else Some(a[|a| - 1])
    {
      ghost var r := Place(node, first, a);
      var n := Last(first, r);
      assert a != [] ==> r[|a| - 1 + 1] == node[a[|a| - 1]];
      s := if n == null then None else Some(owner[n]);
    }

    /** queue_first of the first queue, and the object behind the node. */
    method FirstEntry() returns (s: Option<Id>)
      requires Valid()
      ensures s == if a == [] then None else Some(a[0])
    {
      ghost var r := Place(node, first, a);
      var n := First(first, r);
      assert a != [] ==> r[0 + 1] == node[a[0]];
      s := if n == null then None else Some(owner[n]);
    }

    /** queue_first of the second queue. */
    method SecondEntry() returns (s: Option<Id>)
      requires Valid()
      ensures s == if b == [] then None else Some(b[0])
    {
      ghost var r := Place(node, second, b);
      var n := First(second, r);
      assert b != [] ==> r[0 + 1] == node[b[0]];
      s := if n == null then None else Some(owner[n]);
    }

    lemma NotKnown(s: Id)
      requires Valid() && s !in node
      ensures s !in a && s !in b
    {
      hide Ring;
    }

    /** queue_node_init in a new object. */
    method New(s: Id)
      requires Valid() && s !in node
      modifies this`node, this`owner
      ensures Valid() && node.Keys == old(node.Keys) + {s} && fresh(Nodes() - old(Nodes()))
    {
      hide Linked;
      ghost var all := Nodes();
      var n := new Node();
      assert n !in all && forall t | t in node :: node[t] in all;
      node, owner := node[s := n], owner[n := s];
      OneMore(old(node), first, a, second, b, s, n);
    }

    /** A new object joins the first queue. */
    method Join(s: Id)
      requires Valid() && s !in node
      modifies this`a, this`node, this`owner, Nodes()
      ensures Valid() && node.Keys == old(node.Keys) + {s} && a == old(a) + [s]
      ensures fresh(Nodes() - old(Nodes()))
    {
      NotKnown(s);
      hide Valid;
      New(s);
      AppendFirst(s);
    }

    /** The object is freed. */
    method Forget(s: Id)
      requires Valid() && Idle(s)
      modifies this`node
      ensures Valid() && node == old(node) - {s} && Nodes() <= old(Nodes())
    {
      hide Ring;
      node := node - {s};
      OneLess(old(node), first, a, second, b, s);
    }
  }

  // ---------- all queues together

  ghost function AllNodes(node: map<Id, Node>, h: Node, g: Node): set<Node> { node.Values + {h, g} }

  ghost predicate Linked(node: map<Id, Node>, h: Node, p: seq<Id>, g: Node, q: seq<Id>)
    reads AllNodes(node, h, g)
  {
    && h != g && Injective(node, h) && Injective(node, g)
    && NoDup(p) && NoDup(q) && Known(node, p) && Known(node, q) && Apart(p, q)
    && Ring(Place(node, h, p)) && Ring(Place(node, g, q))
    && forall s | s in node && s !in p && s !in q :: Ring([node[s]])
  }

  lemma Swapped(node: map<Id, Node>, h: Node, p: seq<Id>, g: Node, q: seq<Id>)
    requires Linked(node, h, p, g, q)
    ensures Linked(node, g, q, h, p)
  {
    hide Ring;
    ApartBack(p, q);
  }

  lemma OneMore(node: map<Id, Node>, h: Node, p: seq<Id>, g: Node, q: seq<Id>, s: Id, n: Node)
    requires Linked(node, h, p, g, q) && s !in node && n !in AllNodes(node, h, g) && Ring([n])
    ensures Linked(node[s := n], h, p, g, q)
  {
    hide Ring;
    SamePlace(node, node[s := n], h, p);
    SamePlace(node, node[s := n], g, q);
  }

  lemma OneLess(node: map<Id, Node>, h: Node, p: seq<Id>, g: Node, q: seq<Id>, s: Id)
    requires Linked(node, h, p, g, q) && s in node && s !in p && s !in q
    ensures Linked(node - {s}, h, p, g, q)
  {
    hide Ring;
    SamePlace(node - {s}, node, h, p);
    SamePlace(node - {s}, node, g, q);
  }

  method NodeQueued(node: map<Id, Node>, s: Id, ghost h: Node, ghost p: seq<Id>, ghost g: Node, ghost q: seq<Id>)
    returns (queued: bool)
    requires Linked(node, h, p, g, q) && s in node
    ensures queued <==> s in p || s in q
  {
    hide Ring;
    PlaceMember(node, h, p, s);
    PlaceMember(node, g, q, s);
    LongPlace(node, h, p, s);
    LongPlace(node, g, q, s);
    ghost var r := if s in p then Place(node, h, p) else if s in q then Place(node, g, q) else [node[s]];
    queued := IsEnqueued(node[s], r);
  }

  /** queue_append to the queue of `h`. */
  method AppendTo(node: map<Id, Node>, s: Id, h: Node, ghost p: seq<Id>, ghost g: Node, ghost q: seq<Id>)
    requires Linked(node, h, p, g, q) && s in node && s !in p && s !in q
    modifies AllNodes(node, h, g)
    ensures Linked(node, h, p + [s], g, q)
  {
    hide Ring, Injective;
    EntryApart(node, h, p, g, q, s);
    LastNode(Place(node, h, p));
    LinkLast(h, node[s], Place(node, h, p), Place(node, g, q), Alone(node, p, q, s));
    PlaceAppend(node, h, p, s);
    MoreEntries(p, q, s);
  }

  /** queue_remove, wherever the object is queued. */
  method RemoveFrom(node: map<Id, Node>, s: Id, ghost h: Node, ghost p: seq<Id>, ghost g: Node, ghost q: seq<Id>)
    requires Linked(node, h, p, g, q) && s in node && s in p
    modifies AllNodes(node, h, g)
    ensures Linked(node, h, Without(p, s), g, Without(q, s))
  {
    hide Ring, Injective, PollGroups.Without;
    OneQueue(p, q, s);
    ghost var i :| 0 <= i < |p| && p[i] == s;
    EntryApart(node, h, p, g, q, s);
    FewerEntries(node, h, p, q, i);
    RingNeighbours(Place(node, h, p), i + 1);
    Unlink(node[s], Place(node, h, p), i + 1, Place(node, g, q), Alone(node, p, q, s));
  }

  /** queue_move_to_end and queue_move_to_start, within the queue of `h`. */
  method MoveTo(node: map<Id, Node>, s: Id, h: Node, ghost p: seq<Id>, ghost g: Node, ghost q: seq<Id>, end: bool)
    requires Linked(node, h, p, g, q) && s in p
    modifies AllNodes(node, h, g)
    ensures Linked(node, h, if end then Without(p, s) + [s] else [s] + Without(p, s), g, q)
  {
    hide Ring, Injective, PollGroups.Without;
    OneQueue(p, q, s);
    ghost var i :| 0 <= i < |p| && p[i] == s;
    ghost var r, p' := Place(node, h, p), p[..i] + p[i + 1..];
    EntryApart(node, h, p, g, q, s);
    FewerEntries(node, h, p, q, i);
    MoreEntries(p', q, s);
    FirstToo(p', q, s);
    if end {
      PlaceAppend(node, h, p', s);
    } else {
      PlaceFront(node, h, p, i);
    }
    Relink(h, node[s], r, i + 1, Place(node, g, q), Alone(node, p, q, s), end);
  }

  lemma FirstToo(p: seq<Id>, q: seq<Id>, s: Id)
    requires NoDup(p) && Apart(p, q) && s !in p && s !in q
    ensures NoDup([s] + p) && Apart([s] + p, q)
  {
  }

  lemma PlaceFront(node: map<Id, Node>, h: Node, p: seq<Id>, i: nat)
    requires Known(node, p) && i < |p|
    ensures var p' := [p[i]] + (p[..i] + p[i + 1..]); var r := Place(node, h, p);
      Known(node, p') && Place(node, h, p') == [h, r[i + 1]] + r[1..i + 1] + r[i + 2..]
  {
    var p', r := [p[i]] + (p[..i] + p[i + 1..]), Place(node, h, p);
    var t, u := Place(node, h, p'), [h, r[i + 1]] + r[1..i + 1] + r[i + 2..];
    forall k | 0 <= k < |t|
      ensures t[k] == u[k]
    {
      if k > 0 {
        assert t[k - 1 + 1] == node[p'[k - 1]];
        assert k == 1 ==> r[i + 1] == node[p[i]];
        assert 1 < k <= i + 1 ==> r[k - 2 + 1] == node[p[k - 2]];
        assert k > i + 1 ==> r[k - 1 + 1] == node[p[k - 1]];
      }
    }
  }

  lemma SamePlace(node: map<Id, Node>, node': map<Id, Node>, h: Node, q: seq<Id>)
    requires Known(node, q) && Known(node', q) && forall s | s in node && s in node' :: node[s] == node'[s]
    ensures Place(node, h, q) == Place(node', h, q)
  {
    var r, t := Place(node, h, q), Place(node', h, q);
    forall k | 0 <= k < |r|
      ensures r[k] == t[k]
    {
      assert k > 0 ==> r[k - 1 + 1] == node[q[k - 1]] && t[k - 1 + 1] == node'[q[k - 1]];
    }
  }

  lemma ApartBack(p: seq<Id>, q: seq<Id>)
    requires Apart(p, q)
    ensures Apart(q, p)
  {
  }

  lemma RingNeighbours(r: seq<Node>, i: nat)
    requires Ring(r) && 0 < i < |r|
    ensures r[i].prev in r && r[i].next in r
  {
    Neighbours(r, i);
  }

  lemma OneQueue(p: seq<Id>, q: seq<Id>, s: Id)
    requires Apart(p, q) && s in p
    ensures s !in q
  {
  }

  lemma FewerEntries(node: map<Id, Node>, h: Node, p: seq<Id>, q: seq<Id>, i: nat)
    requires Known(node, p) && NoDup(p) && Apart(p, q) && i < |p|
    ensures var p' := p[..i] + p[i + 1..]; var r := Place(node, h, p);
      && Without(p, p[i]) == p' && NoDup(p') && Known(node, p') && Apart(p', q) && Apart(q, p')
      && Place(node, h, p') == r[..i + 1] + r[i + 2..] && r[i + 1] == node[p[i]]
      && (p[i] !in q ==> Without(q, p[i]) == q)
      && forall t :: t in p' <==> t in p && t != p[i]
  {
    WithoutAt(p, i);
    PlaceRemove(node, h, p, i);
    var p' := p[..i] + p[i + 1..];
    forall j, k | 0 <= j < |p'| && 0 <= k < |q|
      ensures p'[j] != q[k]
    {
      assert p'[j] == p[if j < i then j else j + 1];
    }
  }

  lemma LongPlace(node: map<Id, Node>, h: Node, q: seq<Id>, s: Id)
    requires Known(node, q)
    ensures s in q ==> |Place(node, h, q)| > 1
  {
  }

  // ---------- what a change of one ring leaves alone

  /** The nodes of all objects in no queue, but for `s`. */
  ghost function Alone(node: map<Id, Node>, a: seq<Id>, b: seq<Id>, s: Id): (r: set<Node>)
    ensures forall t | t in node && t !in a && t !in b && t != s :: node[t] in r
    ensures forall x | x in r :: exists t :: t in node && t !in a && t !in b && t != s && node[t] == x
  {
    set t | t in node && t !in a && t !in b && t != s :: node[t]
  }

  /** A ring, and the nodes of `others`, have nothing in common. */
  ghost predicate Clear(r: seq<Node>, others: set<Node>) { forall x | x in r :: x !in others }

  lemma EntryApart(node: map<Id, Node>, h: Node, p: seq<Id>, g: Node, q: seq<Id>, s: Id)
    requires Known(node, p) && Known(node, q) && Injective(node, h) && Injective(node, g) && h != g && Apart(p, q)
    requires s in node && s !in q
    ensures Clear(Place(node, h, p), set x | x in Place(node, g, q))
    ensures node[s] !in Place(node, g, q) && (s !in p ==> node[s] !in Place(node, h, p))
    ensures Clear(Place(node, h, p) + [node[s]], Alone(node, p, q, s)) && Alone(node, p, q, s) == Alone(node, q, p, s)
  {
    PlacesApart(node, h, p, g, q);
    PlaceMember(node, h, p, s);
    PlaceMember(node, g, q, s);
    forall t | t in node && t !in p && t !in q && t != s
      ensures node[t] !in Place(node, h, p) && node[t] != node[s]
    {
      PlaceMember(node, h, p, t);
    }
  }

  lemma MoreEntries(p: seq<Id>, q: seq<Id>, s: Id)
    requires NoDup(p) && Apart(p, q) && s !in p && s !in q
    ensures NoDup(p + [s]) && Apart(p + [s], q) && Apart(q, p + [s])
  {
  }

  lemma LastNode(r: seq<Node>)
    requires Ring(r)
    ensures r[0].prev in r
  {
  }

  /** queue_append, with everything that is linked elsewhere left alone. */
  method LinkLast(head: Node, n: Node, ghost r: seq<Node>, ghost other: seq<Node>, ghost alone: set<Node>)
    requires Ring(r) && r[0] == head && n !in r && Ring(other) && n !in other
    requires Clear(r, set x | x in other) && Clear(r + [n], alone) && forall x | x in alone :: Ring([x])
    modifies n, head, head.prev
    ensures Ring(r + [n]) && Ring(other) && forall x | x in alone :: Ring([x])
  {
    ghost var last := head.prev;
    assert head in r && last == r[|r| - 1] && last in r;
    assert n in r + [n] && head in r + [n] && last in r + [n];
    assert forall x | x in other :: x != n && x != head && x != last;
    assert forall x | x in alone :: x != n && x != head && x != last;
    Append(head, n, r);
    assert forall x | x in other :: x.next == old(x.next) && x.prev == old(x.prev);
    assert forall x | x in alone :: x.next == old(x.next) && x.prev == old(x.prev);
  }

  /** queue_remove, with everything that is linked elsewhere left alone. */
  method Unlink(n: Node, ghost r: seq<Node>, ghost i: nat, ghost other: seq<Node>, ghost alone: set<Node>)
    requires Ring(r) && 0 < i < |r| && r[i] == n && Ring(other)
    requires Clear(r, set x | x in other) && Clear(r, alone) && forall x | x in alone :: Ring([x])
    modifies n, n.prev, n.next
    ensures Ring(r[..i] + r[i + 1..]) && Ring([n]) && Ring(other) && forall x | x in alone :: Ring([x])
  {
    Neighbours(r, i);
    ghost var prev, next := n.prev, n.next;
    assert n in r && prev in r && next in r;
    assert forall x | x in other :: x != n && x != prev && x != next;
    assert forall x | x in alone :: x != n && x != prev && x != next;
    Queue.Remove(n, r, i);
    assert forall x | x in other :: x.next == old(x.next) && x.prev == old(x.prev);
    assert forall x | x in alone :: x.next == old(x.next) && x.prev == old(x.prev);
  }

  /** The two moves, with everything that is linked elsewhere left alone. */
  method Relink(head: Node, n: Node, ghost r: seq<Node>, ghost i: nat, ghost other: seq<Node>, ghost alone: set<Node>,
    end: bool)
    requires Ring(r) && r[0] == head && 0 < i < |r| && r[i] == n && Ring(other)
    requires Clear(r, set x | x in other) && Clear(r, alone) && forall x | x in alone :: Ring([x])
    modifies set x | x in r
    ensures Ring(if end then r[..i] + r[i + 1..] + [n] else [head, n] + r[1..i] + r[i + 1..])
    ensures Ring(other) && forall x | x in alone :: Ring([x])
  {
    hide Ring;
    ghost var others, ring := set x | x in other, set x | x in r;
    assert others !! ring && alone !! ring;
    if end {
      MoveToEnd(head, n, r, i);
    } else {
      MoveToStart(head, n, r, i);
    }
  }
}
