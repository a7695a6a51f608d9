/** Rotations: as a change of shape, and as the change of memory that realises it. */
module TreeRotate {
  import opened TreeShape

  /** TREE__ROTATE on shapes: the child on side Flip(s) rises, its `s` subtree changes hands. */
  function Rotated(t: Shape, s: Side): Shape
    requires t.Fork? && Kid(t, Flip(s)).Fork?
  {
    var q := Kid(t, Flip(s));
    Make(s, Make(s, Kid(t, s), t.n, t.key, t.red, Kid(q, s)), q.n, q.key, q.red, Kid(q, Flip(s)))
  }

  lemma RotatedSame(t: Shape, s: Side)
    requires t.Fork? && Kid(t, Flip(s)).Fork?
    ensures Nodes(Rotated(t, s)) == Nodes(t)
    ensures Distinct(t) ==> Distinct(Rotated(t, s))
    ensures InOrder(Rotated(t, s)) == InOrder(t)
  {
    RotatedNodes(t, s);
    RotatedOrder(t, s);
  }

  lemma RotatedNodes(t: Shape, s: Side)
    requires t.Fork? && Kid(t, Flip(s)).Fork?
    ensures Nodes(Rotated(t, s)) == Nodes(t)
    ensures Distinct(t) ==> Distinct(Rotated(t, s))
  {
    var q := Kid(t, Flip(s));
    var p' := Make(s, Kid(t, s), t.n, t.key, t.red, Kid(q, s));
    assert Nodes(p') == Nodes(Kid(t, s)) + {t.n} + Nodes(Kid(q, s));
    assert Nodes(q) == Nodes(Kid(q, s)) + {q.n} + Nodes(Kid(q, Flip(s)));
    assert Distinct(t) ==> Distinct(q) && Distinct(p');
  }

  lemma RotatedOrder(t: Shape, s: Side)
    requires t.Fork? && Kid(t, Flip(s)).Fork?
    ensures InOrder(Rotated(t, s)) == InOrder(t)
  {
    var q := Kid(t, Flip(s));
    var a, b, d := InOrder(Kid(t, s)), InOrder(Kid(q, s)), InOrder(Kid(q, Flip(s)));
    var ep, eq := [Entry(t.key, t.n)], [Entry(q.key, q.n)];
    var p' := Make(s, Kid(t, s), t.n, t.key, t.red, Kid(q, s));
    if s == L {
      assert InOrder(p') == a + ep + b && InOrder(q) == b + eq + d;
    } else {
      assert InOrder(p') == b + ep + a && InOrder(q) == d + eq + b;
    }
  }

  function Mirrored(s: Side, key: nat, cis: Node?, trans: Node?, parent: Node?, red: bool): Links {
    if s == L then Links(key, cis, trans, parent, red) else Links(key, trans, cis, parent, red)
  }

  /** The part of a rotation below the parent link: memory comes to hold the rotated shape. */
  lemma RotateSub(m: Memory, m': Memory, t: Shape, s: Side, up: Node?, touched: set<Node?>)
    requires Sub(m, t, up) && Distinct(t) && up !in Nodes(t)
    requires t.Fork? && Kid(t, Flip(s)).Fork?
    requires var q, b := Kid(t, Flip(s)), Kid(Kid(t, Flip(s)), s);
      && touched == {t.n, q.n, Root(b), up}
      && Except(m, m', touched)
      && t.n in m' && m'[t.n] == Mirrored(s, t.key, Root(Kid(t, s)), Root(b), q.n, t.red)
      && q.n in m' && m'[q.n] == Mirrored(s, q.key, t.n, Root(Kid(q, Flip(s))), up, q.red)
      && (b.Fork? ==> b.n in m' && m'[b.n] == Links(b.key, Root(b.left), Root(b.right), t.n, b.red))
    ensures Sub(m', Rotated(t, s), up)
  {
    var a, q := Kid(t, s), Kid(t, Flip(s));
    var b, d := Kid(q, s), Kid(q, Flip(s));
    assert Distinct(q) && Distinct(b) && b.Fork? ==> b.n in Nodes(b);
    assert Sub(m, q, t.n) && Sub(m, d, q.n) && Sub(m, b, q.n);
    assert Nodes(b) <= Nodes(q) && Nodes(d) <= Nodes(q) && q.n in Nodes(q);
    SubFrame(m, m', a, t.n, touched);
    SubFrame(m, m', d, q.n, touched);
    if b.Fork? {
      assert Clear(Nodes(b) - {b.n}, touched);
      Rehang(m, m', b, q.n, t.n, touched);
    }
    var p' := Make(s, a, t.n, t.key, t.red, b);
    assert Sub(m', p', q.n);
  }

  /** What TREE__ROTATE writes: at most four nodes and the root. */
  ghost predicate Relinked(m: Memory, m': Memory, root: Node?, root': Node?, c: Ctx, t: Shape, s: Side)
    requires t.Fork? && Kid(t, Flip(s)).Fork?
  {
    var q, b, up := Kid(t, Flip(s)), Kid(Kid(t, Flip(s)), s), Owner(c, null);
    && Except(m, m', {t.n, q.n, Root(b), up})
    && t.n in m' && m'[t.n] == Mirrored(s, t.key, Root(Kid(t, s)), Root(b), q.n, t.red)
    && q.n in m' && m'[q.n] == Mirrored(s, q.key, t.n, Root(Kid(q, Flip(s))), up, q.red)
    && (b.Fork? ==> b.n in m' && m'[b.n] == Links(b.key, Root(b.left), Root(b.right), t.n, b.red))
    && (c.In? ==> c.n in m' && m'[c.n] == OwnerLinks(c, q.n, null))
    && root' == (if c.Top? then q.n else root)
  }

  /** A rotation's writes, seen as a change of memory, realise the rotated shape. */
  lemma RotateHolds(m: Memory, m': Memory, root: Node?, root': Node?, c: Ctx, t: Shape, s: Side)
    requires Holds(m, root, c, t)
    requires t.Fork? && Kid(t, Flip(s)).Fork? && Relinked(m, m', root, root', c, t, s)
    ensures Holds(m', root', c, Rotated(t, s))
  {
    var q, b, up := Kid(t, Flip(s)), Kid(Kid(t, Flip(s)), s), Owner(c, null);
    var touched := {t.n, q.n, Root(b), up};
    RotatedSame(t, s);
    RotateDistinct(c, t, s);
    RotateSub(m, m', t, s, up, touched);
    if c.In? {
      assert Clear(CNodes(c) - {c.n}, touched);
      Refill(m, m', c, t.n, q.n, null, touched);
    }
  }

  /** The nodes a rotation touches are distinct from each other. */
  lemma RotateDistinct(c: Ctx, t: Shape, s: Side)
    requires Apart(c, t)
    requires t.Fork? && Kid(t, Flip(s)).Fork?
    ensures var q, b := Kid(t, Flip(s)), Kid(Kid(t, Flip(s)), s);
      && t.n in Nodes(t) && q.n in Nodes(t) && t.n != q.n
      && (b.Fork? ==> b.n in Nodes(t) && b.n != t.n && b.n != q.n)
      && (c.In? ==> c.n in CNodes(c) && c.n !in Nodes(t) && Root(c.other) != t.n)
  {
    var q := Kid(t, Flip(s));
    assert Distinct(q) && Nodes(Kid(q, s)) <= Nodes(q) <= Nodes(t);
    if c.In? && c.other.Fork? {
      assert c.other.n in Nodes(c.other);
    }
  }

  /** What memory shows of the nodes that a rotation touches. */
  lemma RotateView(m: Memory, root: Node?, c: Ctx, t: Shape, s: Side)
    requires Holds(m, root, c, t) && t.Fork? && Kid(t, Flip(s)).Fork?
    ensures var q, b := Kid(t, Flip(s)), Kid(Kid(t, Flip(s)), s);
      && t.n in m && m[t.n] == Mirrored(s, t.key, Root(Kid(t, s)), q.n, Owner(c, null), t.red)
      && q.n in m && m[q.n] == Mirrored(s, q.key, Root(b), Root(Kid(q, Flip(s))), t.n, q.red)
      && (b.Fork? ==> b.n in m && m[b.n] == Links(b.key, Root(b.left), Root(b.right), q.n, b.red))
      && (c.In? ==> c.n in m && m[c.n] == OwnerLinks(c, t.n, null) && Root(c.other) != t.n)
      && (c.Top? ==> root == t.n)
      && t.n != q.n && (b.Fork? ==> b.n != t.n && b.n != q.n)
      && (c.In? ==> c.n != t.n && c.n != q.n && (b.Fork? ==> c.n != b.n))
  {
    var q := Kid(t, Flip(s));
    RotateDistinct(c, t, s);
    assert Sub(m, q, t.n) && Sub(m, Kid(q, s), q.n);
  }
}
