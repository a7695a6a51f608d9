/** The intrusive red-black tree of wepoll: nodes are relinked and recoloured in place. */
module SockTree {
  import opened TreeShape
  import opened TreeRotate
  import opened TreeInsert
  import opened TreeDelete

  /** TREE__ROTATE on bare pointers: what each of the at most four nodes ends up holding. */
  method RelinkRotation(root: Node?, p: Node, s: Side, ghost q: Node, ghost parent: Node?, ghost moved: Node?)
    returns (root': Node?)
    requires q == (if s == L then p.right else p.left) && parent == p.parent
    requires moved == (if s == L then q.left else q.right)
    requires p != q && p != moved && q != moved && parent != p && parent != q
    requires parent != null ==> parent != moved && (parent.left == p) != (parent.right == p)
    modifies p, q, parent, moved
    ensures root' == (if parent == null then q else root)
    ensures p.key == old(p.key) && p.red == old(p.red) && p.parent == q
    ensures q.key == old(q.key) && q.red == old(q.red) && q.parent == parent
    ensures s == L ==> p.left == old(p.left) && p.right == moved && q.left == p && q.right == old(q.right)
    ensures s == R ==> p.right == old(p.right) && p.left == moved && q.right == p && q.left == old(q.left)
    ensures moved != null ==>
      moved.key == old(moved.key) && moved.red == old(moved.red) && moved.parent == p
      && moved.left == old(moved.left) && moved.right == old(moved.right)
    ensures parent != null ==>
      && parent.key == old(parent.key) && parent.red == old(parent.red) && parent.parent == old(parent.parent)
      && parent.left == (if old(parent.left) == p then q else old(parent.left))
      && parent.right == (if old(parent.left) == p then old(parent.right) else q)
  {
    var q := if s == L then p.right else p.left;
    var parent := p.parent;
    root' := root;
    if parent != null {
      if parent.left == p {
        parent.left := q;
      } else {
        parent.right := q;
      }
    } else {
      root' := q;
    }
    q.parent := parent;
    p.parent := q;
    var moved := if s == L then q.left else q.right;
    if s == L { p.right := moved; } else { p.left := moved; }
    if moved != null {
      moved.parent := p;
    }
    if s == L { q.left := p; } else { q.right := p; }
  }

  /** The writes of a rotation, seen in the tree. */
  method RotateLinks(root: Node?, p: Node, s: Side, ghost c: Ctx, ghost t: Shape, ghost ns: set<Node>)
    returns (root': Node?)
    requires Holds(Mem(ns), root, c, t) && ns == CNodes(c) + Nodes(t)
    requires t.Fork? && t.n == p && Kid(t, Flip(s)).Fork?
    modifies ns
    ensures Relinked(old(Mem(ns)), Mem(ns), root, root', c, t, s)
  {
    hide Holds, Mem;
    ghost var m, q, b := Mem(ns), Kid(t, Flip(s)), Kid(Kid(t, Flip(s)), s);
    RotateView(m, root, c, t, s);
    InMemory(ns);
    root' := RelinkRotation(root, p, s, q.n, Owner(c, null), Root(b));
    InMemory(ns);
    assert Except(m, Mem(ns), {t.n, q.n, Root(b), Owner(c, null)});
  }

  lemma InMemory(ns: set<Node>)
    ensures forall n | n in ns :: n in Mem(ns) && Mem(ns)[n] == Links(n.key, n.left, n.right, n.parent, n.red)
  {
  }

  /** `next` takes the place of `node` below its parent. */
  method ReplaceBelow(root: Node?, node: Node, next: Node, ghost p: Node?) returns (root': Node?)
    requires p == node.parent && p != node && (p != null ==> (p.left == node) != (p.right == node))
    modifies p
    ensures root' == if p == null then next else root
    ensures p != null ==> p.key == old(p.key) && p.red == old(p.red) && p.parent == old(p.parent)
                          && p.left == (if old(p.left) == node then next else old(p.left))
                          && p.right == (if old(p.left) == node then old(p.right) else next)
  {
    var p := node.parent;
    root' := root;
    if p != null {
      if p.left == node { p.left := next; } else { p.right := next; }
    } else {
      root' := next;
    }
  }

  /** The writes that put `next`, deeper in the right subtree, in the place of `node`. */
  method ReplaceByLeftmost(root: Node?, node: Node, next: Node, left: Node, right: Node,
                           ghost p: Node?, ghost q: Node, ghost nr: Node?)
      returns (root': Node?, child: Node?, parent: Node, red: bool)
    requires right == node.right && left == node.left && p == node.parent && q == next.parent && nr == next.right
    requires node !in {next, left, right, q} && next !in {left, right, q} && left !in {right, q}
    requires nr !in {node, next, left, right, q} && q.left == next
    requires p !in {node, next, left, right, q} && (p != null ==> p != nr && (p.left == node) != (p.right == node))
    modifies p, next, left, right, q, nr
    ensures child == nr && parent == q && red == old(next.red)
    ensures root' == (if p == null then next else root)
    ensures next.key == old(next.key) && next.left == left && next.right == right && next.parent == p
    ensures next.red == old(node.red)
    ensures left.key == old(left.key) && left.left == old(left.left) && left.right == old(left.right)
    ensures left.red == old(left.red) && left.parent == next
    ensures right.key == old(right.key) && right.right == old(right.right) && right.red == old(right.red)
    ensures right.parent == next && right.left == (if right == q then nr else old(right.left))
    ensures q != right ==> q.key == old(q.key) && q.right == old(q.right) && q.red == old(q.red)
                           && q.parent == old(q.parent) && q.left == nr
    ensures nr != null ==> nr.key == old(nr.key) && nr.left == old(nr.left) && nr.right == old(nr.right)
                           && nr.red == old(nr.red) && nr.parent == q
    ensures p != null ==> p.key == old(p.key) && p.red == old(p.red) && p.parent == old(p.parent)
                          && p.left == (if old(p.left) == node then next else old(p.left))
                          && p.right == (if old(p.left) == node then old(p.right) else next)
  {
    root' := ReplaceBelow(root, node, next, p);
    red := AdoptLeft(node, next, left);
    child, parent := AdoptRight(node, next, right, q, nr);
  }

  method AdoptLeft(node: Node, next: Node, left: Node) returns (red: bool)
    requires node != next && node != left && next != left
    modifies next`red, next`left, left`parent
    ensures red == old(next.red) && next.red == node.red && next.left == left && left.parent == next
  {
    red := next.red;
    next.red := node.red;
    next.left := left;
    left.parent := next;
  }

  method AdoptRight(node: Node, next: Node, right: Node, ghost q: Node, ghost nr: Node?)
    returns (child: Node?, parent: Node)
    requires q == next.parent && nr == next.right && next !in {node, right, q}
    requires nr !in {node, next, right, q} && node !in {right, q}
    modifies next`parent, next`right, q`left, right`parent, (if nr == null then {} else {nr})`parent
    ensures child == nr && parent == q && next.parent == node.parent && next.right == right
    ensures q.left == nr && right.parent == next && (nr != null ==> nr.parent == q)
  {
    parent := next.parent;
    next.parent := node.parent;
    child := next.right;
    parent.left := child;
    next.right := right;
    right.parent := next;
    if child != null {
      child.parent := parent;
    }
  }

  method SucceedByLeftmost(root: Node?, node: Node, next: Node, left: Node, right: Node,
                            ghost c: Ctx, ghost t: Shape, ghost sp: Ctx, ghost nx: Shape, ghost ns: set<Node>)
      returns (root': Node?, child: Node?, parent: Node?, red: bool)
    requires TwoChildren(t, sp, nx) && SuccessorSeen(Mem(ns), c, t, sp, nx) && SuccessorSpread(c, t, sp, nx)
    requires node == t.n && next == nx.n && left == node.left && right == node.right
    requires sp.In?
    modifies ns
    ensures SuccessorWrites(old(Mem(ns)), Mem(ns - {node}), c, t, sp, nx)
    ensures root' == (if c.Top? then nx.n else root)
    ensures child == Root(nx.right) && parent == Owner(sp, next) && red == nx.red
  {
    hide Mem;
    TopSame(sp, null, next);
    TopSame(sp, next, Root(nx.right));
    InMemory(ns);
    root', child, parent, red := ReplaceByLeftmost(root, node, next, left, right, Owner(c, null), sp.n, Root(nx.right));
    InMemory(ns - {node});
  }

  class Tree {
    var root: Node?
    ghost var shape: Shape

    ghost predicate Valid()
      reads this, Nodes(shape)
    {
      && Holds(Mem(Nodes(shape)), root, Top, shape)
      && RedBlack(shape)
      && Sorted(InOrder(shape))
    }

    method Rotate(p: Node, s: Side, ghost c: Ctx, ghost t: Shape, ghost ns: set<Node>)
      requires Holds(Mem(ns), root, c, t) && ns == CNodes(c) + Nodes(t)
      requires t.Fork? && t.n == p && Kid(t, Flip(s)).Fork?
      modifies this`root, ns
      ensures Holds(Mem(ns), root, c, Rotated(t, s))
    {
      hide Relinked, Holds, Rotated;
      ghost var m, root0 := Mem(ns), root;
      root := RotateLinks(root, p, s, c, t, ns);
      RotateHolds(m, Mem(ns), root0, root, c, t, s);
    }

    /** Recolour the root of the focused subtree. */
    method Paint(n: Node, red: bool, ghost c: Ctx, ghost t: Shape, ghost ns: set<Node>)
      requires Holds(Mem(ns), root, c, t) && ns == CNodes(c) + Nodes(t)
      requires t.Fork? && t.n == n
      modifies ns
      ensures Holds(Mem(ns), root, c, Tint(t, red))
      ensures ns == CNodes(c) + Nodes(Tint(t, red))
    {
      ghost var m := Mem(ns);
      assert n in Nodes(t);
      n.red := red;
      ghost var m' := Mem(ns);
      SubFrame(m, m', t.left, n, {n});
      SubFrame(m, m', t.right, n, {n});
      SegFrame(m, m', c, n, null, {n});
    }

    // ---------- insertion

    /** The uncle is red: push the red up two levels. */
    method PushRed(parent: Node, uncle: Node, grandparent: Node, ghost c: Ctx, ghost t: Shape, ghost ns: set<Node>)
      requires Holds(Mem(ns), root, c, t) && ns == CNodes(c) + Nodes(t)
      requires RedUnderRed(c, t) && IsRed(c.up.other)
      requires parent == c.n && grandparent == c.up.n && uncle == Root(c.up.other)
      modifies ns
      ensures Holds(Mem(ns), root, c.up.up, Pushed(c, t)) && ns == CNodes(c.up.up) + Nodes(Pushed(c, t))
    {
      ghost var g, pt := c.up, Up(c, t);
      ghost var pt', uncle' := Tint(pt, false), Tint(g.other, false);
      Refocus(Mem(ns), root, c, t);
      Paint(parent, false, g, pt, ns);
      Refocus(Mem(ns), root, g, pt');
      Paint(uncle, false, Across(g, pt'), g.other, ns);
      Refocus(Mem(ns), root, Across(g, pt'), uncle');
      Paint(grandparent, true, g.up, Up(Across(g, pt'), uncle'), ns);
    }

    /** The node is an inner grandchild: rotate its parent so that it becomes an outer one. */
    method Straighten(parent: Node, s: Side, ghost c: Ctx, ghost t: Shape, ghost ns: set<Node>)
      requires Holds(Mem(ns), root, c, t) && ns == CNodes(c) + Nodes(t)
      requires RedUnderRed(c, t) && parent == c.n && s == c.up.side && c.side == Flip(s)
      modifies this`root, ns
      ensures Holds(Mem(ns), root, OuterCtx(c, t), Outer(c, t))
      ensures ns == CNodes(OuterCtx(c, t)) + Nodes(Outer(c, t))
    {
      Refocus(Mem(ns), root, c, t);
      Rotate(parent, s, c.up, Up(c, t), ns);
      assert Rotated(Up(c, t), s) == Up(OuterCtx(c, t), Outer(c, t));
      RotatedSame(Up(c, t), s);
      Refocus(Mem(ns), root, OuterCtx(c, t), Outer(c, t));
    }

    /** The node is an outer grandchild of a black-uncled grandparent: recolour and rotate the latter. */
    method Lift(parent: Node, grandparent: Node, s: Side, ghost c: Ctx, ghost t: Shape, ghost ns: set<Node>)
      requires Holds(Mem(ns), root, c, t) && ns == CNodes(c) + Nodes(t)
      requires RedUnderRed(c, t) && parent == c.n && grandparent == c.up.n && s == c.up.side == c.side
      modifies this`root, ns
      ensures Holds(Mem(ns), root, LiftedCtx(c), t) && ns == CNodes(LiftedCtx(c)) + Nodes(t)
    {
      ghost var g, pt := c.up, Up(c, t);
      ghost var pt' := Tint(pt, false);
      Refocus(Mem(ns), root, c, t);
      Paint(parent, false, g, pt, ns);
      Refocus(Mem(ns), root, g, pt');
      Paint(grandparent, true, g.up, Up(g, pt'), ns);
      ghost var gt := Tint(Up(g, pt'), true);
      Rotate(grandparent, Flip(s), g.up, gt, ns);
      RotatedSame(gt, Flip(s));
      assert Rotated(gt, Flip(s)) == Up(LiftedCtx(c), t);
      Refocus(Mem(ns), root, LiftedCtx(c), t);
    }

    method RebalanceAfterInsert(start: Node, ghost c0: Ctx, ghost t0: Shape, ghost ns: set<Node>)
        returns (ghost whole: Shape)
      requires Holds(Mem(ns), root, c0, t0) && ns == CNodes(c0) + Nodes(t0)
      requires Pending(c0, t0) && t0.n == start
      modifies this`root, ns
      ensures Holds(Mem(ns), root, Top, whole) && ns == Nodes(whole)
      ensures RedBlack(whole) && InOrder(whole) == InOrder(Plug(c0, t0))
    {
      var node, parent := start, start.parent;
      ghost var c, t := c0, t0;
      while parent != null && parent.red
        invariant Holds(Mem(ns), root, c, t) && ns == CNodes(c) + Nodes(t)
        invariant Pending(c, t) && t.n == node && parent == Owner(c, null)
        invariant InOrder(Plug(c, t)) == InOrder(Plug(c0, t0))
        decreases Depth(c)
      {
        node, c, t := InsertStep(node, parent, c, t, ns);
        parent := node.parent;
      }
      whole := Plug(c, t);
      PlugHolds(Mem(ns), root, c, t);
      PlugNodes(c, t);
      if c.In? {
        PlugBalanced(c, t);
      }
      Paint(root, false, Top, whole, ns);
      whole := Tint(whole, false);
    }

    /** One turn of the loop that moves a red-red conflict up or resolves it. */
    method InsertStep(node: Node, parent: Node, ghost c: Ctx, ghost t: Shape, ghost ns: set<Node>)
        returns (node': Node, ghost c': Ctx, ghost t': Shape)
      requires Holds(Mem(ns), root, c, t) && ns == CNodes(c) + Nodes(t)
      requires RedUnderRed(c, t) && t.n == node && parent == c.n
      modifies this`root, ns
      ensures Holds(Mem(ns), root, c', t') && ns == CNodes(c') + Nodes(t')
      ensures Pending(c', t') && t'.n == node'
      ensures InOrder(Plug(c', t')) == InOrder(Plug(c, t))
      ensures Depth(c') < Depth(c)
    {
      assert t.n in Nodes(t);
      OwnerView(Mem(ns), c, t.n, null);
      OwnerView(Mem(ns), c.up, c.n, null);
      var grandparent := parent.parent;
      assert CNodes(c.up) <= ns;
      var s := if parent == grandparent.left then L else R;
      assert s == c.up.side;
      var uncle := if s == L then grandparent.right else grandparent.left;
      if uncle != null && uncle.red {
        PushRed(parent, uncle, grandparent, c, t, ns);
        PushedPending(c, t);
        node', c', t' := grandparent, c.up.up, Pushed(c, t);
      } else {
        c', t' := c, t;
        node' := node;
        var parent' := parent;
        if node == (if s == L then parent.right else parent.left) {
          Straighten(parent, s, c, t, ns);
          OuterPending(c, t);
          c', t' := OuterCtx(c, t), Outer(c, t);
          node' := parent;
          parent' := node'.parent;
        }
        Lift(parent', grandparent, s, c', t', ns);
        LiftedPending(c', t');
        LiftedOrder(c', t');
        c' := LiftedCtx(c');
      }
    }

    // ---------- search

    /** tree_find: the node stored under `key`, or null when there is none. */
    method Find(key: nat) returns (node: Node?)
      requires Valid()
      ensures Valid() && Mem(Nodes(shape)) == old(Mem(Nodes(shape)))
      ensures node != null ==> node.key == key && Entry(key, node) in InOrder(shape)
      ensures node == null ==> forall e :: e in InOrder(shape) ==> e.key != key
    {
      node := root;
      ghost var c, t := Top, shape;
      while node != null
        invariant Plug(c, t) == shape && node == Root(t) && Gap(c, key)
        invariant Mem(Nodes(shape)) == old(Mem(Nodes(shape)))
        invariant Sub(Mem(Nodes(shape)), t, Owner(c, null))
        decreases t
      {
        if key < node.key {
          Narrow(c, t, key, L);
          node := node.left;
          c, t := Down(c, t, L), t.left;
        } else if key > node.key {
          Narrow(c, t, key, R);
          node := node.right;
          c, t := Down(c, t, R), t.right;
        } else {
          PlugInOrder(c, t);
          assert Entry(key, node) in InOrder(t);
          return;
        }
      }
      forall e | e in InOrder(shape) ensures e.key != key {
        GapAbsent(c, key, e);
      }
    }

    /** The descent of tree_add: the empty place where `key` belongs, unless it is already there. */
    method Descend(key: nat) returns (parent: Node?, side: Side, duplicate: bool, ghost c: Ctx)
      requires Valid()
      ensures Valid() && Mem(Nodes(shape)) == old(Mem(Nodes(shape)))
      ensures duplicate ==> exists e :: e in InOrder(shape) && e.key == key
      ensures !duplicate ==> Plug(c, Nil) == shape && Gap(c, key) && parent == Owner(c, null)
      ensures !duplicate && c.In? ==> side == c.side
    {
      parent, side, duplicate, c := root, L, false, Top;
      ghost var t := shape;
      while parent != null
        invariant Plug(c, t) == shape && parent == Root(t) && Gap(c, key)
        invariant Mem(Nodes(shape)) == old(Mem(Nodes(shape)))
        invariant Sub(Mem(Nodes(shape)), t, Owner(c, null))
        invariant parent == null ==> c == Top
        decreases t
      {
        if key < parent.key {
          Narrow(c, t, key, L);
          side := L;
        } else if key > parent.key {
          Narrow(c, t, key, R);
          side := R;
        } else {
          PlugInOrder(c, t);
          assert Entry(key, parent) in InOrder(t);
          duplicate := true;
          return;
        }
        c, t := Down(c, t, side), Kid(t, side);
        var next := if side == L then parent.left else parent.right;
        if next == null {
          return;
        }
        parent := next;
      }
    }

    /** tree_add: 0 and one more entry, or -1 and nothing touched when the key is taken. */
    method Add(node: Node, key: nat) returns (r: int)
      requires Valid() && node !in Nodes(shape)
      modifies this, node, Nodes(shape)
      ensures Valid()
      ensures r == if exists e :: e in old(Entries(shape)) && e.key == key then -1 else 0
      ensures r == -1 ==> unchanged(this) && unchanged(node) && Mem(Nodes(shape)) == old(Mem(Nodes(shape)))
      ensures r == 0 ==> Entries(shape) == old(Entries(shape)) + {Entry(key, node)}
      ensures r == 0 ==> Nodes(shape) == old(Nodes(shape)) + {node}
    {
      var parent, side, duplicate; ghost var c;
      parent, side, duplicate, c := Descend(key);
      if duplicate {
        return -1;
      }
      GapView(Mem(Nodes(shape)), root, shape, c, key);
      ghost var whole := AddAt(node, key, parent, side, c, CNodes(c) + {node});
      shape := whole;
      r := 0;
    }

    /** tree_add once the empty place is found. */
    method AddAt(node: Node, key: nat, parent: Node?, side: Side, ghost c: Ctx, ghost ns: set<Node>)
        returns (ghost whole: Shape)
      requires Holds(Mem(CNodes(c)), root, c, Nil) && node !in CNodes(c)
      requires ns == CNodes(c) + {node} && CBalanced(c, 0) && Gap(c, key)
      requires Sorted(InOrder(Plug(c, Nil)))
      requires parent == Owner(c, null) && (c.In? ==> side == c.side)
      modifies this`root, ns
      ensures Holds(Mem(ns), root, Top, whole) && Nodes(whole) == ns
      ensures RedBlack(whole) && Sorted(InOrder(whole))
      ensures Entries(whole) == Entries(Plug(c, Nil)) + {Entry(key, node)}
    {
      ghost var leaf := Fork(Nil, node, key, true, Nil);
      Attach(node, key, parent, side, c, ns);
      assert Nodes(leaf) == {node};
      whole := RebalanceAfterInsert(node, c, leaf, ns);
      InsertedOrder(c, leaf);
    }

    /** Link a new leaf below `parent` and set its fields. */
    method Attach(node: Node, key: nat, parent: Node?, side: Side, ghost c: Ctx, ghost ns: set<Node>)
      requires Holds(Mem(CNodes(c)), root, c, Nil) && node !in CNodes(c)
      requires parent == Owner(c, null) && (c.In? ==> side == c.side)
      requires ns == CNodes(c) + {node}
      modifies this`root, ns
      ensures Holds(Mem(ns), root, c, Fork(Nil, node, key, true, Nil))
    {
      ghost var m, root0 := Mem(CNodes(c)), root;
      if parent != null {
        if side == L { parent.left := node; } else { parent.right := node; }
      } else {
        root := node;
      }
      node.key := key;
      node.left, node.right := null, null;
      node.parent := parent;
      node.red := true;
      ghost var m' := Mem(ns);
      assert Except(m, m', {node, Owner(c, null)});
      AttachHolds(m, m', root0, root, c, node, key);
    }

    // ---------- deletion

    /** The writes that put the only child of `node`, if it has one, in its place. */
    method ReplaceByChild(node: Node, ghost p: Node?, ghost x: Node?)
        returns (next: Node?, parent: Node?, red: bool)
      requires p == node.parent && x == (if node.left == null then node.right else node.left)
      requires p != node && x != node && (p != null ==> p != x && (p.left == node) != (p.right == node))
      modifies this`root, p, x
      ensures next == x && parent == p && red == node.red
      ensures root == (if p == null then x else old(root))
      ensures x != null ==> x.key == old(x.key) && x.left == old(x.left) && x.right == old(x.right)
                            && x.red == old(x.red) && x.parent == p
      ensures p != null ==> p.key == old(p.key) && p.red == old(p.red) && p.parent == old(p.parent)
                            && p.left == (if old(p.left) == node then x else old(p.left))
                            && p.right == (if old(p.left) == node then old(p.right) else x)
    {
      parent := node.parent;
      next := if node.left == null then node.right else node.left;
      if parent != null {
        if parent.left == node {
          parent.left := next;
        } else {
          parent.right := next;
        }
      } else {
        root := next;
      }
      red := node.red;
      if next != null {
        next.parent := parent;
      }
    }

    /** Unlink a node with at most one child: that child, if any, moves up. */
    method SpliceOne(node: Node, ghost c: Ctx, ghost t: Shape, ghost ns: set<Node>)
        returns (next: Node?, parent: Node?, red: bool)
      requires Holds(Mem(ns), root, c, t) && ns == CNodes(c) + Nodes(t)
      requires t.Fork? && t.n == node && (t.left.Nil? || t.right.Nil?)
      modifies this`root, ns
      ensures Holds(Mem(ns - {node}), root, c, Survivor(t))
      ensures ns - {node} == CNodes(c) + Nodes(Survivor(t))
      ensures next == Root(Survivor(t)) && parent == Owner(c, null) && red == t.red
    {
      ghost var m, root0, x := Mem(ns), root, Survivor(t);
      SpliceView(m, root, c, t);
      next, parent, red := ReplaceByChild(node, Owner(c, null), Root(x));
      ghost var m' := Mem(ns - {node});
      assert Except(m, m', {node, Root(x), Owner(c, null)});
      SpliceHolds(m, m', root0, root, c, t);
    }

    /** The writes that put `next`, the right child of `node`, in the place of `node`. */
    method ReplaceByRight(node: Node, next: Node, left: Node, ghost p: Node?, ghost nr: Node?)
        returns (child: Node?, parent: Node, red: bool)
      requires next == node.right && left == node.left && p == node.parent && nr == next.right
      requires node != next && node != left && next != left && nr !in {node, next, left}
      requires p !in {node, next, left} && (p != null ==> p != nr && (p.left == node) != (p.right == node))
      modifies this`root, p, next, left, nr
      ensures child == nr && parent == next && red == old(next.red)
      ensures root == (if p == null then next else old(root))
      ensures next.key == old(next.key) && next.left == left && next.right == nr && next.parent == p
      ensures next.red == old(node.red)
      ensures left.key == old(left.key) && left.left == old(left.left) && left.right == old(left.right)
      ensures left.red == old(left.red) && left.parent == next
      ensures nr != null ==> nr.key == old(nr.key) && nr.left == old(nr.left) && nr.right == old(nr.right)
                             && nr.red == old(nr.red) && nr.parent == next
      ensures p != null ==> p.key == old(p.key) && p.red == old(p.red) && p.parent == old(p.parent)
                            && p.left == (if old(p.left) == node then next else old(p.left))
                            && p.right == (if old(p.left) == node then old(p.right) else next)
    {
      var p := node.parent;
      if p != null {
        if p.left == node { p.left := next; } else { p.right := next; }
      } else {
        root := next;
      }
      red := next.red;
      next.red := node.red;
      next.left := left;
      left.parent := next;
      next.parent := p;
      parent := next;
      child := next.right;
      if child != null {
        child.parent := parent;
      }
    }

    /** Unlink a node with two children: its in-order successor takes its place and colour. */
    method SpliceTwo(node: Node, ghost c: Ctx, ghost t: Shape, ghost ns: set<Node>)
        returns (child: Node?, parent: Node?, red: bool, ghost sp: Ctx, ghost nx: Shape)
      requires Holds(Mem(ns), root, c, t) && ns == CNodes(c) + Nodes(t)
      requires t.Fork? && t.n == node && t.left.Fork? && t.right.Fork?
      modifies this`root, ns
      ensures TwoChildren(t, sp, nx)
      ensures Holds(Mem(ns - {node}), root, SuccCtx(c, t, sp, nx.n, nx.key), nx.right)
      ensures child == Root(nx.right) && parent == Owner(SuccCtx(c, t, sp, nx.n, nx.key), null) && red == nx.red
    {
      ghost var m, root0 := Mem(ns), root;
      var left, right := node.left, node.right;
      var next := right;
      sp, nx := Top, t.right;
      assert Sub(m, t.right, node);
      while next.left != null
        invariant Mem(ns) == m && root == root0
        invariant nx.Fork? && nx.n == next && LeftSpine(sp) && t.right == Plug(sp, nx)
        invariant next in ns && Sub(m, nx, Owner(sp, node))
        decreases nx
      {
        next := next.left;
        assert Sub(m, nx.left, nx.n);
        sp, nx := Down(sp, nx, L), nx.left;
      }
      SuccessorView(m, root, c, t, sp, nx);
      SuccessorDistinct(c, t, sp, nx);
      child, parent, red := ReplaceBySuccessor(node, next, left, right, c, t, sp, nx, ns);
      ghost var m' := Mem(ns - {node});
      SuccessorHolds(m, m', root0, root, c, t, sp, nx);
    }

    method ReplaceBySuccessor(node: Node, next: Node, left: Node, right: Node,
                              ghost c: Ctx, ghost t: Shape, ghost sp: Ctx, ghost nx: Shape, ghost ns: set<Node>)
        returns (child: Node?, parent: Node?, red: bool)
      requires TwoChildren(t, sp, nx) && SuccessorSeen(Mem(ns), c, t, sp, nx) && SuccessorSpread(c, t, sp, nx)
      requires node == t.n && next == nx.n && left == node.left && right == node.right
      modifies this`root, ns
      ensures SuccessorWrites(old(Mem(ns)), Mem(ns - {node}), c, t, sp, nx)
      ensures root == (if c.Top? then nx.n else old(root))
      ensures child == Root(nx.right) && parent == Owner(sp, next) && red == nx.red
    {
      if next != right {
        root, child, parent, red := SucceedByLeftmost(root, node, next, left, right, c, t, sp, nx, ns);
      } else {
        child, parent, red := SucceedByRight(node, next, left, right, c, t, sp, nx, ns);
      }
    }

    method SucceedByRight(node: Node, next: Node, left: Node, right: Node,
                              ghost c: Ctx, ghost t: Shape, ghost sp: Ctx, ghost nx: Shape, ghost ns: set<Node>)
        returns (child: Node?, parent: Node?, red: bool)
      requires TwoChildren(t, sp, nx) && SuccessorSeen(Mem(ns), c, t, sp, nx) && SuccessorSpread(c, t, sp, nx)
      requires node == t.n && next == nx.n && left == node.left && right == node.right
      requires sp.Top?
      modifies this`root, ns
      ensures SuccessorWrites(old(Mem(ns)), Mem(ns - {node}), c, t, sp, nx)
      ensures root == (if c.Top? then nx.n else old(root))
      ensures child == Root(nx.right) && parent == Owner(sp, next) && red == nx.red
    {
      hide Mem;
      InMemory(ns);
      child, parent, red := ReplaceByRight(node, next, left, Owner(c, null), Root(nx.right));
      InMemory(ns - {node});
    }

    /** The sibling is red: rotate the parent so that the sibling is black. */
    method Demote(parent: Node, sibling: Node, s: Side, ghost c: Ctx, ghost t: Shape, ghost ns: set<Node>)
      requires Holds(Mem(ns), root, c, t) && ns == CNodes(c) + Nodes(t)
      requires c.In? && c.other.Fork? && parent == c.n && sibling == c.other.n && s == c.side
      modifies this`root, ns
      ensures Holds(Mem(ns), root, Demoted(c), t) && ns == CNodes(Demoted(c)) + Nodes(t)
    {
      ghost var sib' := Tint(c.other, false);
      Refocus(Mem(ns), root, c, t);
      Paint(sibling, false, Across(c, t), c.other, ns);
      Refocus(Mem(ns), root, Across(c, t), sib');
      Paint(parent, true, c.up, Up(Across(c, t), sib'), ns);
      ghost var v := Tint(Up(Across(c, t), sib'), true);
      Rotate(parent, s, c.up, v, ns);
      RotatedSame(v, s);
      DemotedRotated(c, t);
      ghost var d := Demoted(c);
      Refocus(Mem(ns), root, d.up, Up(d, t));
      Refocus(Mem(ns), root, d, t);
    }

    /** Only the near nephew is red: rotate the sibling so that the far one is. */
    method TurnSibling(nephew: Node, sibling: Node, s: Side, ghost c: Ctx, ghost t: Shape, ghost ns: set<Node>)
      requires Holds(Mem(ns), root, c, t) && ns == CNodes(c) + Nodes(t)
      requires c.In? && c.other.Fork? && Kid(c.other, s).Fork? && s == c.side
      requires sibling == c.other.n && nephew == Kid(c.other, s).n
      modifies this`root, ns
      ensures Holds(Mem(ns), root, Turned(c), t) && ns == CNodes(Turned(c)) + Nodes(t)
    {
      ghost var a := Across(c, t);
      Refocus(Mem(ns), root, c, t);
      PaintKid(nephew, false, s, a, c.other, ns);
      ghost var sib' := Up(Down(a, c.other, s), Tint(Kid(c.other, s), false));
      Paint(sibling, true, a, sib', ns);
      ghost var v := Tint(sib', true);
      Rotate(sibling, Flip(s), a, v, ns);
      RotatedSame(v, Flip(s));
      assert Turned(c).other == Rotated(v, Flip(s));
      assert Across(Turned(c), t) == a;
      Refocus(Mem(ns), root, Turned(c), t);
    }

    /** The far nephew is red: recolour and rotate the parent, which ends the repair. */
    method Settle(parent: Node, sibling: Node, nephew: Node, s: Side, ghost c: Ctx, ghost t: Shape, ghost ns: set<Node>)
      requires Holds(Mem(ns), root, c, t) && ns == CNodes(c) + Nodes(t)
      requires c.In? && c.other.Fork? && Kid(c.other, Flip(s)).Fork? && s == c.side
      requires parent == c.n && sibling == c.other.n && nephew == Kid(c.other, Flip(s)).n
      modifies this`root, ns
      ensures Holds(Mem(ns), root, c.up, Settled(c, t)) && ns == CNodes(c.up) + Nodes(Settled(c, t))
    {
      hide Holds, Rotated;
      ghost var a, sib := Across(c, t), Tint(c.other, c.red);
      HeldOwner(Mem(ns), root, c, t);
      Refocus(Mem(ns), root, c, t);
      Paint(sibling, parent.red, a, c.other, ns);
      PaintKid(nephew, false, Flip(s), a, sib, ns);
      ghost var sib' := Up(Down(a, sib, Flip(s)), Tint(Kid(sib, Flip(s)), false));
      Refocus(Mem(ns), root, a, sib');
      Paint(parent, false, c.up, Up(a, sib'), ns);
      ghost var v := Tint(Up(a, sib'), false);
      SettledRotated(c, t);
      Rotate(parent, s, c.up, v, ns);
      RotatedNodes(v, s);
    }

    /** Recolour a child of the root of the focused subtree. */
    method PaintKid(n: Node, red: bool, s: Side, ghost c: Ctx, ghost t: Shape, ghost ns: set<Node>)
      requires Holds(Mem(ns), root, c, t) && ns == CNodes(c) + Nodes(t)
      requires t.Fork? && Kid(t, s).Fork? && Kid(t, s).n == n
      modifies ns
      ensures Holds(Mem(ns), root, c, Up(Down(c, t, s), Tint(Kid(t, s), red)))
      ensures ns == CNodes(c) + Nodes(Up(Down(c, t, s), Tint(Kid(t, s), red)))
    {
      ghost var d, k := Down(c, t, s), Kid(t, s);
      assert Up(d, k) == t;
      Refocus(Mem(ns), root, d, k);
      Paint(n, red, d, k, ns);
      Refocus(Mem(ns), root, d, Tint(k, red));
    }

    /** One turn of the repair loop: either the tree is whole again, or the deficit is at the parent. */
    method DeleteStep(node: Node?, parent: Node, ghost c: Ctx, ghost t: Shape, ghost ns: set<Node>)
        returns (done: bool, ghost c': Ctx, ghost t': Shape)
      requires Holds(Mem(ns), root, c, t) && ns == CNodes(c) + Nodes(t)
      requires Short(c, t) && c.In? && node == Root(t) && parent == c.n
      modifies this`root, ns
      ensures Holds(Mem(ns), root, c', t') && ns == CNodes(c') + Nodes(t') && t'.Fork?
      ensures InOrder(Plug(c', t')) == InOrder(Plug(c, t))
      ensures done ==> RedBlack(Plug(c', t'))
      ensures !done ==> t'.n == parent && Depth(c') <= Depth(c)
      ensures !done && !t'.red ==> Short(c', t') && Depth(c') < Depth(c)
      ensures !done && t'.red ==> Repaired(c', t')
    {
      hide Holds, Short, Repaired, InOrder, Plug, RedBlack, Demoted, Raised;
      var s, sibling;
      s, sibling, c' := BlackenSibling(node, parent, c, t, ns);
      HeldSibling(Mem(ns), root, c', t);
      if (sibling.left != null && sibling.left.red) || (sibling.right != null && sibling.right.red) {
        done := true;
        c', t' := RepairByNephew(parent, sibling, s, c', t, ns);
      } else {
        done := false;
        RaisedRepair(c', t);
        RedSibling(sibling, c', t, ns);
        c', t' := c'.up, Raised(c', t);
      }
    }

    /** A red sibling is made the grandparent, so that the sibling is black. */
    method BlackenSibling(node: Node?, parent: Node, ghost c: Ctx, ghost t: Shape, ghost ns: set<Node>)
        returns (s: Side, sibling: Node, ghost c': Ctx)
      requires Holds(Mem(ns), root, c, t) && ns == CNodes(c) + Nodes(t)
      requires Short(c, t) && c.In? && node == Root(t) && parent == c.n
      modifies this`root, ns
      ensures Holds(Mem(ns), root, c', t) && ns == CNodes(c') + Nodes(t)
      ensures Short(c', t) && InOrder(Plug(c', t)) == InOrder(Plug(c, t))
      ensures c'.In? && c'.n == parent && c'.other.Fork? && !c'.other.red && sibling == c'.other.n && s == c'.side
      ensures c' == c || (Depth(c') == Depth(c) + 1 && c'.red)
    {
      hide Holds, Short, InOrder, Plug;
      ShortSibling(c, t);
      HeldSibling(Mem(ns), root, c, t);
      c' := c;
      s := if node == parent.left then L else R;
      sibling := if s == L then parent.right else parent.left;
      if sibling.red {
        Demote(parent, sibling, s, c, t, ns);
        DemotedShort(c, t);
        c' := Demoted(c);
        ShortSibling(c', t);
        HeldSibling(Mem(ns), root, c', t);
        sibling := if s == L then parent.right else parent.left;
      }
    }

    /** The sibling turns red, and the focus moves to the parent. */
    method RedSibling(sibling: Node, ghost c: Ctx, ghost t: Shape, ghost ns: set<Node>)
      requires Holds(Mem(ns), root, c, t) && ns == CNodes(c) + Nodes(t)
      requires c.In? && c.other.Fork? && sibling == c.other.n
      modifies ns
      ensures Holds(Mem(ns), root, c.up, Raised(c, t)) && ns == CNodes(c.up) + Nodes(Raised(c, t))
    {
      hide Holds;
      Refocus(Mem(ns), root, c, t);
      Paint(sibling, true, Across(c, t), c.other, ns);
      Refocus(Mem(ns), root, Across(c, t), Tint(c.other, true));
    }

    method RepairByNephew(parent: Node, sibling0: Node, s: Side, ghost c: Ctx, ghost t: Shape, ghost ns: set<Node>)
        returns (ghost c': Ctx, ghost t': Shape)
      requires Holds(Mem(ns), root, c, t) && ns == CNodes(c) + Nodes(t)
      requires Short(c, t) && c.In? && c.other.Fork? && !c.other.red && s == c.side
      requires parent == c.n && sibling0 == c.other.n
      requires IsRed(c.other.left) || IsRed(c.other.right)
      modifies this`root, ns
      ensures Holds(Mem(ns), root, c', t') && ns == CNodes(c') + Nodes(t') && t'.Fork?
      ensures InOrder(Plug(c', t')) == InOrder(Plug(c, t)) && RedBlack(Plug(c', t'))
    {
      var sibling := sibling0;
      c' := c;
      SiblingView(Mem(ns), c, t);
      var far := if s == L then sibling.right else sibling.left;
      if far == null || !far.red {
        var near := if s == L then sibling.left else sibling.right;
        TurnSibling(near, sibling, s, c, t, ns);
        TurnedShort(c, t);
        TurnedOrder(c, t);
        c' := Turned(c);
        SiblingView(Mem(ns), c', t);
        sibling := if s == L then parent.right else parent.left;
      }
      far := if s == L then sibling.right else sibling.left;
      Settle(parent, sibling, far, s, c', t, ns);
      SettledBalanced(c', t);
      SettledOrder(c', t);
      c', t' := c'.up, Settled(c', t);
    }

    /** The end of tree_del: restore the colours after a node of colour `red` was unlinked above `start`. */
    method RebalanceAfterRemove(start: Node?, parent0: Node?, red: bool,
                                ghost c0: Ctx, ghost t0: Shape, ghost ns: set<Node>)
        returns (ghost whole: Shape)
      requires Holds(Mem(ns), root, c0, t0) && ns == CNodes(c0) + Nodes(t0)
      requires Unlinked(c0, t0, red) && start == Root(t0) && parent0 == Owner(c0, null)
      modifies this`root, ns
      ensures Holds(Mem(ns), root, Top, whole) && ns == Nodes(whole)
      ensures RedBlack(whole) && InOrder(whole) == InOrder(Plug(c0, t0))
    {
      assert t0.Fork? ==> t0.n in Nodes(t0);
      if red {
        PlugNodes(c0, t0);
        PlugHolds(Mem(ns), root, c0, t0);
        PlugBalanced(c0, t0);
        return Plug(c0, t0);
      }
      if start != null && start.red {
        whole := Blacken(start, c0, t0, ns);
        return;
      }
      whole := RepairLoop(start, parent0, c0, t0, ns);
    }

    method RepairLoop(start: Node?, parent0: Node?, ghost c0: Ctx, ghost t0: Shape, ghost ns: set<Node>)
        returns (ghost whole: Shape)
      requires Holds(Mem(ns), root, c0, t0) && ns == CNodes(c0) + Nodes(t0)
      requires Short(c0, t0) && start == Root(t0) && parent0 == Owner(c0, null)
      modifies this`root, ns
      ensures Holds(Mem(ns), root, Top, whole) && ns == Nodes(whole)
      ensures RedBlack(whole) && InOrder(whole) == InOrder(Plug(c0, t0))
    {
      var node, parent, stop := start, parent0, false;
      ghost var c, t := c0, t0;
      while !stop
        invariant Holds(Mem(ns), root, c, t) && ns == CNodes(c) + Nodes(t)
        invariant node == Root(t) && (if stop then Repaired(c, t) else Short(c, t) && parent == Owner(c, null))
        invariant InOrder(Plug(c, t)) == InOrder(Plug(c0, t0))
        decreases if stop then 0 else 1 + Depth(c)
      {
        node, parent, stop, c, t := RepairTurn(node, parent, c, t, ns);
      }
      whole := Blacken(node, c, t, ns);
    }

    method RepairTurn(node: Node?, parent: Node?, ghost c: Ctx, ghost t: Shape, ghost ns: set<Node>)
        returns (node': Node?, parent': Node?, stop: bool, ghost c': Ctx, ghost t': Shape)
      requires Holds(Mem(ns), root, c, t) && ns == CNodes(c) + Nodes(t)
      requires Short(c, t) && node == Root(t) && parent == Owner(c, null)
      modifies this`root, ns
      ensures Holds(Mem(ns), root, c', t') && ns == CNodes(c') + Nodes(t') && node' == Root(t')
      ensures InOrder(Plug(c', t')) == InOrder(Plug(c, t))
      ensures if stop then Repaired(c', t') else Short(c', t') && parent' == Owner(c', null) && Depth(c') < Depth(c)
    {
      hide Holds, Short, Repaired, InOrder, Plug;
      HeldFocus(Mem(ns), root, c, t);
      if node == root {
        ShortRoot(t);
        return node, parent, true, c, t;
      }
      var done;
      done, c', t' := DeleteStep(node, parent, c, t, ns);
      if done {
        PlugHolds(Mem(ns), root, c', t');
        PlugNodes(c', t');
        WholeRepaired(c', t');
        c', t' := Top, Plug(c', t');
        HeldFocus(Mem(ns), root, c', t');
        return root, parent, true, c', t';
      }
      HeldFocus(Mem(ns), root, c', t');
      node', parent' := parent, parent.parent;
      stop := node'.red;
    }

    /** The last statement of tree_del. */
    method Blacken(node: Node?, ghost c: Ctx, ghost t: Shape, ghost ns: set<Node>) returns (ghost whole: Shape)
      requires Holds(Mem(ns), root, c, t) && ns == CNodes(c) + Nodes(t)
      requires Repaired(c, t) && node == Root(t)
      modifies this`root, ns
      ensures Holds(Mem(ns), root, Top, whole) && ns == Nodes(whole)
      ensures RedBlack(whole) && InOrder(whole) == InOrder(Plug(c, t))
    {
      if node != null {
        Paint(node, false, c, t, ns);
        var t' := Tint(t, false);
        whole := Plug(c, t');
        PlugNodes(c, t');
        PlugHolds(Mem(ns), root, c, t');
        PlugBalanced(c, t');
        PlugInOrder(c, t);
        PlugInOrder(c, t');
      } else {
        whole := Nil;
      }
    }

    /** tree_del: exactly the given node leaves the tree. */
    method Del(node: Node)
      requires Valid() && node in Nodes(shape)
      modifies this, Nodes(shape)
      ensures Valid()
      ensures Entry(old(node.key), node) in old(Entries(shape))
      ensures Entries(shape) == old(Entries(shape)) - {Entry(old(node.key), node)}
      ensures Nodes(shape) == old(Nodes(shape)) - {node}
    {
      ghost var c, t := Locate(shape, node);
      PlugHolds(Mem(Nodes(shape)), root, c, t);
      PlugNodes(c, t);
      PlugInOrder(c, t);
      assert Entry(t.key, node) in InOrder(t);
      ghost var whole := DelAt(node, c, t, Nodes(shape));
      shape := whole;
    }

    method DelAt(node: Node, ghost c: Ctx, ghost t: Shape, ghost ns: set<Node>) returns (ghost whole: Shape)
      requires Holds(Mem(ns), root, c, t) && ns == CNodes(c) + Nodes(t)
      requires t.Fork? && t.n == node && RedBlack(Plug(c, t)) && Sorted(InOrder(Plug(c, t)))
      modifies this`root, ns
      ensures Holds(Mem(ns - {node}), root, Top, whole) && Nodes(whole) == ns - {node}
      ensures RedBlack(whole) && Sorted(InOrder(whole))
      ensures Entries(whole) == Entries(Plug(c, t)) - {Entry(t.key, node)}
    {
      if node.left == null || node.right == null {
        var next, parent, red := SpliceOne(node, c, t, ns);
        SpliceBalanced(c, t);
        SpliceOrder(c, t);
        whole := RebalanceAfterRemove(next, parent, red, c, Survivor(t), ns - {node});
      } else {
        var child, parent, red; ghost var sp, nx;
        child, parent, red, sp, nx := SpliceTwo(node, c, t, ns);
        SuccessorShape(c, t, sp, nx);
        SuccessorBalanced(c, t, sp, nx);
        SuccessorOrder(c, t, sp, nx);
        whole := RebalanceAfterRemove(child, parent, red, SuccCtx(c, t, sp, nx.n, nx.key), nx.right, ns - {node});
      }
    }

    /** tree_init */
    constructor ()
      ensures Valid() && Entries(shape) == {} && Nodes(shape) == {}
    {
      root, shape := null, Nil;
    }
  }

  // ---------- whole runs

  datatype Op = AddKey(key: nat) | DelKey(key: nat)

  ghost function Keys(t: Shape): set<nat> { set e | e in Entries(t) :: e.key }

  function Apply(ks: set<nat>, op: Op): set<nat> {
    match op
    case AddKey(key) => ks + {key}
    case DelKey(key) => ks - {key}
  }

  function ApplyAll(ks: set<nat>, ops: seq<Op>): set<nat> {
    if ops == [] then ks else Apply(ApplyAll(ks, ops[..|ops| - 1]), ops[|ops| - 1])
  }

  lemma SameEntry(t: Shape, e: Entry, e': Entry)
    requires Sorted(InOrder(t)) && e in InOrder(t) && e' in InOrder(t) && e.key == e'.key
    ensures e == e'
  {
    var es := InOrder(t);
    var i, j :| 0 <= i < |es| && 0 <= j < |es| && es[i] == e && es[j] == e';
    assert i == j;
  }

  /** port_register_socket with a node of its own: afterwards the key is there, whether or not it was before. */
  method Register(tree: Tree, key: nat) returns (r: int)
    requires tree.Valid()
    modifies tree, Nodes(tree.shape)
    ensures tree.Valid() && fresh(Nodes(tree.shape) - old(Nodes(tree.shape)))
    ensures Keys(tree.shape) == old(Keys(tree.shape)) + {key}
    ensures r == if key in old(Keys(tree.shape)) then -1 else 0
  {
    hide Holds, RedBlack, Sorted, InOrder;
    ghost var t := tree.shape;
    ghost var ns, m := Nodes(t), Mem(Nodes(t));
    assert forall n :: n in ns ==> allocated(n);
    var node := new Node();
    assert Mem(ns) == m;
    r := tree.Add(node, key);
    if r == 0 {
      assert Entry(key, node) in Entries(tree.shape);
    }
  }

  /** port_find_socket followed by port_unregister_socket. */
  method Unregister(tree: Tree, key: nat) returns (found: bool)
    requires tree.Valid()
    modifies tree, Nodes(tree.shape)
    ensures tree.Valid() && fresh(Nodes(tree.shape) - old(Nodes(tree.shape)))
    ensures Keys(tree.shape) == old(Keys(tree.shape)) - {key}
    ensures found <==> key in old(Keys(tree.shape))
  {
    hide Holds, RedBlack, InOrder, Nodes;
    ghost var t := tree.shape;
    var node := tree.Find(key);
    found := node != null;
    if node != null {
      ghost var e := Entry(key, node);
      NodesInOrder(t, node);
      assert e in Entries(t);
      OneEntry(t, e);
      tree.Del(node);
    }
  }

  lemma OneEntry(t: Shape, e: Entry)
    requires Sorted(InOrder(t)) && e in Entries(t)
    ensures forall e' | e' in Entries(t) && e'.key == e.key :: e' == e
  {
    forall e' | e' in Entries(t) && e'.key == e.key
      ensures e' == e
    {
      SameEntry(t, e, e');
    }
  }

  /** Any sequence of additions and removals keeps a valid tree that holds exactly the expected keys. */
  method Replay(tree: Tree, ops: seq<Op>)
    requires tree.Valid()
    modifies tree, Nodes(tree.shape)
    ensures tree.Valid() && Keys(tree.shape) == ApplyAll(old(Keys(tree.shape)), ops)
  {
    ghost var ks := Keys(tree.shape);
    for i := 0 to |ops|
      invariant tree.Valid() && fresh(Nodes(tree.shape) - old(Nodes(tree.shape)))
      invariant Keys(tree.shape) == ApplyAll(ks, ops[..i])
    {
      match ops[i] {
        case AddKey(key) => var _ := Register(tree, key);
        case DelKey(key) => var _ := Unregister(tree, key);
      }
      assert ops[..i + 1][..i] == ops[..i];
    }
    assert ops[..|ops|] == ops;
  }
}
