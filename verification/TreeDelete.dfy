/** Shapes and memories met while a node leaves the red-black tree. */
module TreeDelete {
  import opened TreeShape
  import opened TreeRotate

  /** Every node of a tree can be brought into focus. */
  lemma {:induction false} Locate(t: Shape, n: Node) returns (c: Ctx, sub: Shape)
    requires n in Nodes(t)
    ensures sub.Fork? && sub.n == n && Plug(c, sub) == t
  {
    if t.n == n {
      return Top, t;
    }
    var s := if n in Nodes(t.left) then L else R;
    var c1;
    c1, sub := Locate(Kid(t, s), n);
    c := Append(c1, Down(Top, t, s));
    AppendPlug(c1, Down(Top, t, s), sub);
  }

  // ---------- splicing out a node with at most one child

  /** The child that survives when a node with at most one child is unlinked. */
  function Survivor(t: Shape): Shape
    requires t.Fork?
  {
    if t.left.Nil? then t.right else t.left
  }

  /** What memory says about the nodes that a simple unlink touches. */
  lemma SpliceView(m: Memory, root: Node?, c: Ctx, t: Shape)
    requires t.Fork? && (t.left.Nil? || t.right.Nil?) && Holds(m, root, c, t)
    ensures var x := Survivor(t);
      && t.n in m && t.n in Nodes(t) && m[t.n] == Links(t.key, Root(t.left), Root(t.right), Owner(c, null), t.red)
      && (x.Fork? ==> x.n in m && x.n in Nodes(t) && x.n != t.n
                      && m[x.n] == Links(x.key, Root(x.left), Root(x.right), t.n, x.red))
      && (c.In? ==> c.n in m && c.n in CNodes(c) && c.n !in Nodes(t) && m[c.n] == OwnerLinks(c, t.n, null)
                    && Root(c.other) != t.n)
  {
    var x := Survivor(t);
    assert Sub(m, x, t.n) && (x.Fork? ==> x.n in Nodes(x));
    if c.In? {
      OwnerView(m, c, t.n, null);
    }
  }

  lemma SpliceHolds(m: Memory, m': Memory, root: Node?, root': Node?, c: Ctx, t: Shape)
    requires t.Fork? && (t.left.Nil? || t.right.Nil?) && Holds(m, root, c, t)
    requires var x := Survivor(t);
      && Except(m, m', {t.n, Root(x), Owner(c, null)})
      && (x.Fork? ==> x.n in m' && m'[x.n] == Links(x.key, Root(x.left), Root(x.right), Owner(c, null), x.red))
      && (c.In? ==> c.n in m' && m'[c.n] == OwnerLinks(c, Root(x), null))
      && root' == (if c.Top? then Root(x) else root)
    ensures Holds(m', root', c, Survivor(t))
    ensures Nodes(Survivor(t)) == Nodes(t) - {t.n}
  {
    var x := Survivor(t);
    var touched := {t.n, Root(x), Owner(c, null)};
    assert x.Fork? ==> x.n in Nodes(x);
    if x.Fork? {
      assert Sub(m, x, t.n);
      assert Clear(Nodes(x) - {x.n}, touched);
      Rehang(m, m', x, t.n, Owner(c, null), touched);
    }
    if c.In? {
      assert Clear(CNodes(c) - {c.n}, touched);
      Refill(m, m', c, t.n, Root(x), null, touched);
    }
  }

  lemma SpliceOrder(c: Ctx, t: Shape)
    requires t.Fork? && (t.left.Nil? || t.right.Nil?)
    requires Sorted(InOrder(Plug(c, t)))
    ensures Sorted(InOrder(Plug(c, Survivor(t))))
    ensures Entries(Plug(c, Survivor(t))) == Entries(Plug(c, t)) - {Entry(t.key, t.n)}
  {
    var e := Entry(t.key, t.n);
    PlugInOrder(c, t);
    PlugInOrder(c, Survivor(t));
    assert InOrder(t) == InOrder(t.left) + [e] + InOrder(t.right);
    RemoveOrder(Pre(c), InOrder(t.left), e, InOrder(t.right), Post(c));
    assert InOrder(Survivor(t)) == InOrder(t.left) + InOrder(t.right);
  }

  /** Dropping one entry of a sorted sequence removes exactly that entry. */
  lemma RemoveOrder(a: seq<Entry>, l: seq<Entry>, e: Entry, r: seq<Entry>, b: seq<Entry>)
    requires Sorted(a + (l + [e] + r) + b)
    ensures Sorted(a + (l + r) + b)
    ensures (set x | x in a + (l + r) + b) == (set x | x in a + (l + [e] + r) + b) - {e}
  {
    ConcatLemma(a, l, e, r, b);
    SortedSplit(a + l, e, r + b);
    assert (a + l) + (r + b) == a + (l + r) + b;
    var old', new' := (a + l) + [e] + (r + b), (a + l) + (r + b);
    assert forall x :: x in old' <==> x in a + l || x == e || x in r + b;
    assert forall x :: x in new' <==> x in a + l || x in r + b;
    assert e !in new';
  }

  lemma SpliceBalanced(c: Ctx, t: Shape)
    requires t.Fork? && (t.left.Nil? || t.right.Nil?) && RedBlack(Plug(c, t))
    ensures Unlinked(c, Survivor(t), t.red)
  {
    UnplugBalanced(c, t);
  }

  /** A node of the given colour has been unlinked just above `t`. */
  predicate Unlinked(c: Ctx, t: Shape, red: bool) {
    && Balanced(t) && CBalanced(c, BlackHeight(t) + (if red then 0 else 1))
    && (red ==> !IsRed(t))
  }

  // ---------- splicing out a node with two children: its successor takes its place

  /** The way from the right child of a node to its leftmost descendant. */
  predicate LeftSpine(s: Ctx) { s.In? ==> s.side == L && LeftSpine(s.up) }

  /** `next` stands where the node of `t` stood; the hole is where `next` was. */
  function SuccCtx(c: Ctx, t: Shape, sp: Ctx, next: Node, key: nat): Ctx
    requires t.Fork?
  {
    Append(sp, In(R, c, next, key, t.red, t.left))
  }

  lemma {:induction false} Reparent(m: Memory, m': Memory, s: Ctx, hole: Node?, up: Node?, up': Node?)
    requires s.In? && CDistinct(s) && Seg(m, s, hole, up)
    requires TopNode(s, hole) in m && TopNode(s, hole) in m'
    requires m'[TopNode(s, hole)] == m[TopNode(s, hole)].(parent := up')
    requires Except(m, m', {TopNode(s, hole)})
    ensures Seg(m', s, hole, up')
  {
    var top := TopNode(s, hole);
    if s.up.In? {
      TopIn(s.up, s.n);
      SubFrame(m, m', s.other, s.n, {top});
      Reparent(m, m', s.up, s.n, up, up');
    } else {
      SubFrame(m, m', s.other, s.n, {top});
    }
  }

  lemma {:induction false} TopSame(s: Ctx, hole: Node?, hole': Node?)
    requires s.In?
    ensures TopNode(s, hole) == TopNode(s, hole')
  {
  }

  /** `t` has two children and its in-order successor is the root of `nx`, found at the end of `sp`. */
  predicate TwoChildren(t: Shape, sp: Ctx, nx: Shape) {
    && t.Fork? && t.left.Fork? && nx.Fork? && nx.left.Nil?
    && LeftSpine(sp) && t.right == Plug(sp, nx)
  }

  /** The subtree of `t` after its successor has taken its place. */
  function Succeeded(t: Shape, sp: Ctx, nx: Shape): Shape
    requires TwoChildren(t, sp, nx)
  {
    Fork(t.left, nx.n, nx.key, t.red, Plug(sp, nx.right))
  }

  lemma SuccessorShape(c: Ctx, t: Shape, sp: Ctx, nx: Shape)
    requires TwoChildren(t, sp, nx) && Apart(c, t)
    ensures Plug(SuccCtx(c, t, sp, nx.n, nx.key), nx.right) == Plug(c, Succeeded(t, sp, nx))
    ensures Apart(sp, nx) && Nodes(t.right) == CNodes(sp) + Nodes(nx)
    ensures Nodes(Succeeded(t, sp, nx)) == Nodes(t) - {t.n}
    ensures Apart(SuccCtx(c, t, sp, nx.n, nx.key), nx.right)
    ensures CNodes(SuccCtx(c, t, sp, nx.n, nx.key)) + Nodes(nx.right) == CNodes(c) + Nodes(t) - {t.n}
  {
    var base, u := In(R, c, nx.n, nx.key, t.red, t.left), Succeeded(t, sp, nx);
    AppendPlug(sp, base, nx.right);
    assert Plug(base, Plug(sp, nx.right)) == Plug(c, u);
    PlugNodes(sp, nx);
    PlugNodes(sp, nx.right);
    SucceededNodes(t, sp, nx);
    hide Plug, Append, Distinct, CDistinct, Nodes, CNodes;
    PlugNodes(c, u);
    PlugNodes(SuccCtx(c, t, sp, nx.n, nx.key), nx.right);
  }

  lemma SucceededNodes(t: Shape, sp: Ctx, nx: Shape)
    requires TwoChildren(t, sp, nx) && Distinct(t) && Apart(sp, nx)
    requires Nodes(t.right) == CNodes(sp) + Nodes(nx) && Nodes(Plug(sp, nx.right)) == CNodes(sp) + Nodes(nx.right)
    requires Distinct(Plug(sp, nx.right)) <==> Apart(sp, nx.right)
    ensures Nodes(Succeeded(t, sp, nx)) == Nodes(t) - {t.n} && Distinct(Succeeded(t, sp, nx))
  {
    hide Plug, CDistinct, CNodes;
    assert Nodes(nx) == {nx.n} + Nodes(nx.right);
  }

  /** What the writes of the two-children case leave behind, node by node. */
  predicate SuccessorWrites(m: Memory, m': Memory, c: Ctx, t: Shape, sp: Ctx, nx: Shape)
    requires TwoChildren(t, sp, nx)
  {
    var l, nr, next := t.left, nx.right, nx.n;
    && Except(m, m', {t.n, next, l.n, Root(nr), Owner(sp, null), TopNode(sp, null), Owner(c, null)})
    && next in m' && m'[next] == Links(nx.key, l.n, TopNode(sp, Root(nr)), Owner(c, null), t.red)
    && l.n in m' && m'[l.n] == Links(l.key, Root(l.left), Root(l.right), next, l.red)
    && (nr.Fork? ==> nr.n in m' && m'[nr.n] == Links(nr.key, Root(nr.left), Root(nr.right), Owner(sp, next), nr.red))
    && (sp.In? ==> sp.n in m' && m'[sp.n] == OwnerLinks(sp, Root(nr), next))
    && (sp.In? && sp.up.In? ==>
          var top := TopNode(sp, next);
          top in m && top in m' && m'[top] == m[top].(parent := next))
    && (c.In? ==> c.n in m' && m'[c.n] == OwnerLinks(c, next, null))
  }

  /** The spine below the successor's new place. */
  lemma SuccessorSpine(m: Memory, m': Memory, c: Ctx, t: Shape, sp: Ctx, nx: Shape)
    requires TwoChildren(t, sp, nx) && SuccessorWrites(m, m', c, t, sp, nx)
    requires Seg(m, sp, nx.n, t.n) && Apart(sp, nx) && sp.In?
    requires Clear(CNodes(sp), {t.n, nx.n, t.left.n, Root(nx.right), Owner(c, null)})
    ensures Seg(m', sp, Root(nx.right), nx.n)
  {
    var next, top := nx.n, TopNode(sp, nx.n);
    TopIn(sp, next);
    TopSame(sp, next, null);
    SegTop(m, sp, next, t.n);
    var m1 := m[top := m[top].(parent := next)];
    Reparent(m, m1, sp, next, t.n, next);
    var touched := {t.n, next, t.left.n, Root(nx.right), sp.n, Owner(c, null)};
    assert Except(m1, m', touched);
    assert Clear(CNodes(sp) - {sp.n}, touched);
    Refill(m1, m', sp, next, Root(nx.right), next, touched);
  }

  lemma {:induction false} SegTop(m: Memory, s: Ctx, hole: Node?, up: Node?)
    requires s.In? && Seg(m, s, hole, up)
    ensures TopNode(s, hole) in m
  {
    if s.up.In? {
      SegTop(m, s.up, s.n, up);
    }
  }

  lemma SuccessorHolds(m: Memory, m': Memory, root: Node?, root': Node?, c: Ctx, t: Shape, sp: Ctx, nx: Shape)
    requires TwoChildren(t, sp, nx) && Holds(m, root, c, t)
    requires SuccessorWrites(m, m', c, t, sp, nx)
    requires root' == (if c.Top? then nx.n else root)
    ensures Holds(m', root', SuccCtx(c, t, sp, nx.n, nx.key), nx.right)
  {
    var l, nr, next := t.left, nx.right, nx.n;
    var base := In(R, c, next, nx.key, t.red, l);
    var touched := {t.n, next, l.n, Root(nr), Owner(sp, null), TopNode(sp, null), Owner(c, null)};
    SuccessorShape(c, t, sp, nx);
    PlugMem(m, sp, nx, t.n);
    SuccessorApart(c, t, sp, nx);
    if sp.In? {
      SuccessorSpine(m, m', c, t, sp, nx);
    }
    Rehang(m, m', l, t.n, next, touched);
    if nr.Fork? {
      Rehang(m, m', nr, next, Owner(sp, next), touched);
    }
    if c.In? {
      Refill(m, m', c, t.n, next, null, touched);
    }
    assert Seg(m', base, TopNode(sp, Root(nr)), null);
    AppendMem(m', sp, base, Root(nr), null);
  }

  /** What memory says about the nodes that the two-children case touches. */
  predicate SuccessorSeen(m: Memory, c: Ctx, t: Shape, sp: Ctx, nx: Shape)
    requires TwoChildren(t, sp, nx)
  {
    var l, nr, next, right := t.left, nx.right, nx.n, TopNode(sp, nx.n);
    && t.n in m && m[t.n] == Links(t.key, l.n, right, Owner(c, null), t.red)
    && next in m && m[next] == Links(nx.key, null, Root(nr), Owner(sp, t.n), nx.red)
    && l.n in m && m[l.n] == Links(l.key, Root(l.left), Root(l.right), t.n, l.red)
    && (nr.Fork? ==> nr.n in m && m[nr.n] == Links(nr.key, Root(nr.left), Root(nr.right), next, nr.red))
    && (sp.In? ==> sp.n in m && m[sp.n] == OwnerLinks(sp, next, t.n) && sp.side == L && right in m)
    && (c.In? ==> c.n in m && m[c.n] == OwnerLinks(c, t.n, null) && Root(c.other) != t.n)
  }

  lemma SuccessorView(m: Memory, root: Node?, c: Ctx, t: Shape, sp: Ctx, nx: Shape)
    requires TwoChildren(t, sp, nx) && Holds(m, root, c, t)
    ensures SuccessorSeen(m, c, t, sp, nx)
  {
    PlugMem(m, sp, nx, t.n);
    assert Sub(m, t.left, t.n) && Sub(m, nx.right, nx.n);
    if sp.In? {
      SegTop(m, sp, nx.n, t.n);
    }
    if c.In? {
      assert t.n in Nodes(t);
      OwnerView(m, c, t.n, null);
    }
  }

  /** The nodes that the two-children case touches are distinct, except that the spine may be one node long. */
  predicate SuccessorSpread(c: Ctx, t: Shape, sp: Ctx, nx: Shape)
    requires TwoChildren(t, sp, nx)
  {
    var l, nr, next, right, q := t.left.n, Root(nx.right), nx.n, TopNode(sp, nx.n), Owner(sp, null);
    && t.n !in {next, l} && next != l
    && (nr != null ==> nr !in {t.n, next, l})
    && (sp.In? ==> q !in {t.n, next, l, nr} && right !in {t.n, next, l, nr})
    && (c.In? ==> c.n !in {t.n, next, l, nr, q, right})
    && (sp.In? && sp.up.In? ==> q != right)
  }

  lemma SuccessorDistinct(c: Ctx, t: Shape, sp: Ctx, nx: Shape)
    requires TwoChildren(t, sp, nx) && Apart(c, t)
    ensures SuccessorSpread(c, t, sp, nx)
  {
    SuccessorShape(c, t, sp, nx);
    assert t.left.n in Nodes(t.left) && nx.n in Nodes(nx) && (nx.right.Fork? ==> nx.right.n in Nodes(nx.right));
    if sp.In? {
      TopIn(sp, nx.n);
      if sp.up.In? {
        TopIn(sp.up, sp.n);
      }
    }
  }

  /** The pieces around the successor do not overlap what is written. */
  lemma SuccessorApart(c: Ctx, t: Shape, sp: Ctx, nx: Shape)
    requires TwoChildren(t, sp, nx) && Apart(c, t)
    requires Apart(sp, nx) && Nodes(t.right) == CNodes(sp) + Nodes(nx)
    ensures var l, nr, next := t.left, nx.right, nx.n;
      var touched := {t.n, next, l.n, Root(nr), Owner(sp, null), TopNode(sp, null), Owner(c, null)};
      && Clear(Nodes(l) - {l.n}, touched)
      && (nr.Fork? ==> Distinct(nr) && Clear(Nodes(nr) - {nr.n}, touched))
      && (c.In? ==> Clear(CNodes(c) - {c.n}, touched))
      && Clear(CNodes(sp), {t.n, next, l.n, Root(nr), Owner(c, null)})
  {
    var l, nr, next := t.left, nx.right, nx.n;
    assert l.n in Nodes(l) && next in Nodes(nx) && Nodes(nr) <= Nodes(nx);
    assert nr.Fork? ==> nr.n in Nodes(nr);
    if sp.In? {
      TopIn(sp, null);
    }
  }

  lemma {:induction false} SpinePre(s: Ctx)
    requires LeftSpine(s)
    ensures Pre(s) == []
  {
    if s.In? {
      SpinePre(s.up);
    }
  }

  lemma SucceededOrder(t: Shape, sp: Ctx, nx: Shape)
    requires TwoChildren(t, sp, nx)
    ensures InOrder(Succeeded(t, sp, nx)) == InOrder(t.left) + InOrder(t.right)
  {
    var u, e := Succeeded(t, sp, nx), [Entry(nx.key, nx.n)];
    assert InOrder(u) == InOrder(u.left) + e + InOrder(u.right);
    assert InOrder(nx) == InOrder(nx.left) + e + InOrder(nx.right) && InOrder(nx.left) == [];
    hide InOrder;
    PlugInOrder(sp, nx);
    PlugInOrder(sp, nx.right);
    SpinePre(sp);
    hide Pre, Post, Plug;
    AfterFirst(InOrder(t.left), e, InOrder(nx.right), Post(sp));
  }

  lemma AfterFirst(l: seq<Entry>, e: seq<Entry>, r: seq<Entry>, p: seq<Entry>)
    ensures l + e + ([] + r + p) == l + ([] + ([] + e + r) + p)
  {
  }

  lemma SuccessorOrder(c: Ctx, t: Shape, sp: Ctx, nx: Shape)
    requires TwoChildren(t, sp, nx) && Sorted(InOrder(Plug(c, t)))
    ensures Sorted(InOrder(Plug(c, Succeeded(t, sp, nx))))
    ensures Entries(Plug(c, Succeeded(t, sp, nx))) == Entries(Plug(c, t)) - {Entry(t.key, t.n)}
  {
    var u := Succeeded(t, sp, nx);
    PlugInOrder(c, t);
    PlugInOrder(c, u);
    SucceededOrder(t, sp, nx);
    RemoveOrder(Pre(c), InOrder(t.left), Entry(t.key, t.n), InOrder(t.right), Post(c));
  }

  lemma SuccessorBalanced(c: Ctx, t: Shape, sp: Ctx, nx: Shape)
    requires TwoChildren(t, sp, nx) && RedBlack(Plug(c, t))
    ensures Unlinked(SuccCtx(c, t, sp, nx.n, nx.key), nx.right, nx.red)
  {
    UnplugBalanced(c, t);
    var u := Fork(t.left, nx.n, nx.key, t.red, t.right);
    PlugBalanced(c, u);
    AppendPlug(sp, In(R, c, nx.n, nx.key, t.red, t.left), nx);
    UnplugBalanced(SuccCtx(c, t, sp, nx.n, nx.key), nx);
  }

  // ---------- restoring the black heights

  /** The subtree in focus is one black node short; everything else is in order. */
  predicate Short(c: Ctx, t: Shape) {
    Balanced(t) && !IsRed(t) && CBalanced(c, BlackHeight(t) + 1)
  }

  /** Blackening the root of the subtree in focus makes the whole tree red-black. */
  predicate Repaired(c: Ctx, t: Shape) {
    if t.Nil? then c == Top
    else Balanced(Tint(t, false)) && CBalanced(c, BlackHeight(Tint(t, false)))
  }

  /** The sibling was red: it has become the black grandparent, its near child the new sibling. */
  function Demoted(c: Ctx): (r: Ctx)
    requires c.In? && c.other.Fork?
    ensures r.In?
  {
    var s, sib := c.side, c.other;
    In(s, In(s, c.up, sib.n, sib.key, false, Kid(sib, Flip(s))), c.n, c.key, true, Kid(sib, s))
  }

  lemma DemotedShort(c: Ctx, t: Shape)
    requires Short(c, t) && c.In? && IsRed(c.other)
    ensures Short(Demoted(c), t) && !IsRed(Demoted(c).other)
    ensures InOrder(Plug(Demoted(c), t)) == InOrder(Plug(c, t))
  {
    var v := Tint(Up(Across(c, t), Tint(c.other, false)), true);
    DemotedRotated(c, t);
    RotatedSame(v, c.side);
    assert InOrder(v) == InOrder(Up(c, t));
    PlugInOrder(c.up, Up(Demoted(c).up, Up(Demoted(c), t)));
    PlugInOrder(c.up, Up(c, t));
  }

  lemma DemotedRotated(c: Ctx, t: Shape)
    requires c.In? && c.other.Fork?
    ensures Rotated(Tint(Up(Across(c, t), Tint(c.other, false)), true), c.side) == Up(Demoted(c).up, Up(Demoted(c), t))
  {
  }

  /** The near nephew was the only red one: it has become the sibling, with a red far child. */
  function Turned(c: Ctx): (r: Ctx)
    requires c.In? && c.other.Fork? && Kid(c.other, c.side).Fork?
    ensures r.In? && r.other.Fork?
  {
    var s := c.side;
    c.(other := Rotated(Tint(Up(Down(Top, c.other, s), Tint(Kid(c.other, s), false)), true), Flip(s)))
  }

  lemma TurnedShort(c: Ctx, t: Shape)
    requires Short(c, t) && c.In? && c.other.Fork? && !c.other.red
    requires IsRed(Kid(c.other, c.side)) && !IsRed(Kid(c.other, Flip(c.side)))
    ensures Short(Turned(c), t) && !Turned(c).other.red && IsRed(Kid(Turned(c).other, Flip(c.side)))
  {
    var s, sib := c.side, c.other;
    var x, y := Kid(sib, s), Kid(sib, Flip(s));
    assert Balanced(x) && Balanced(y) && BlackHeight(x) == BlackHeight(y) == BlackHeight(t);
    var low := Make(s, Kid(x, Flip(s)), sib.n, sib.key, true, y);
    assert Balanced(low) && BlackHeight(low) == BlackHeight(t);
    assert Turned(c).other == Make(s, Kid(x, s), x.n, x.key, false, low);
    assert Balanced(Turned(c).other);
  }

  lemma TurnedOrder(c: Ctx, t: Shape)
    requires c.In? && c.other.Fork? && Kid(c.other, c.side).Fork?
    ensures InOrder(Plug(Turned(c), t)) == InOrder(Plug(c, t))
  {
    var s := c.side;
    var v := Tint(Up(Down(Top, c.other, s), Tint(Kid(c.other, s), false)), true);
    RotatedSame(v, Flip(s));
    assert InOrder(v) == InOrder(c.other);
    assert InOrder(Up(Turned(c), t)) == InOrder(Up(c, t));
    PlugInOrder(c.up, Up(Turned(c), t));
    PlugInOrder(c.up, Up(c, t));
  }

  /** The far nephew was red: one rotation of the parent settles the deficit. */
  function Settled(c: Ctx, t: Shape): Shape
    requires c.In? && c.other.Fork? && Kid(c.other, Flip(c.side)).Fork?
  {
    var s, sib := c.side, c.other;
    Make(s, Make(s, t, c.n, c.key, false, Kid(sib, s)), sib.n, sib.key, c.red, Tint(Kid(sib, Flip(s)), false))
  }

  lemma SettledBalanced(c: Ctx, t: Shape)
    requires Short(c, t) && c.In? && c.other.Fork? && !c.other.red
    requires IsRed(Kid(c.other, Flip(c.side)))
    ensures RedBlack(Plug(c.up, Settled(c, t)))
  {
    var s, sib := c.side, c.other;
    var x, y := Kid(sib, s), Kid(sib, Flip(s));
    assert Balanced(x) && Balanced(y) && BlackHeight(x) == BlackHeight(y) == BlackHeight(t);
    var p' := Make(s, t, c.n, c.key, false, x);
    assert Balanced(p') && BlackHeight(p') == BlackHeight(t) + 1;
    assert Balanced(Tint(y, false)) && BlackHeight(Tint(y, false)) == BlackHeight(t) + 1;
    assert Balanced(Settled(c, t));
    PlugBalanced(c.up, Settled(c, t));
  }

  lemma SettledOrder(c: Ctx, t: Shape)
    requires c.In? && c.other.Fork? && Kid(c.other, Flip(c.side)).Fork?
    ensures InOrder(Plug(c.up, Settled(c, t))) == InOrder(Plug(c, t))
  {
    RotatedSame(Up(c, t), c.side);
    assert InOrder(Settled(c, t)) == InOrder(Rotated(Up(c, t), c.side));
    PlugInOrder(c.up, Settled(c, t));
    PlugInOrder(c.up, Up(c, t));
  }

  /** No red nephew: the sibling turns red and the deficit moves to the parent. */
  function Raised(c: Ctx, t: Shape): (r: Shape)
    requires c.In? && c.other.Fork?
    ensures r.Fork?
  {
    Up(c.(other := Tint(c.other, true)), t)
  }

  lemma RaisedDeficit(c: Ctx, t: Shape)
    requires Short(c, t) && c.In? && c.other.Fork? && !c.other.red
    requires !IsRed(c.other.left) && !IsRed(c.other.right)
    ensures Raised(c, t).red == c.red && (!c.red ==> Short(c.up, Raised(c, t)))
    ensures c.red ==> var v := Tint(Raised(c, t), false); Balanced(v) && CBalanced(c.up, BlackHeight(v))
    ensures InOrder(Plug(c.up, Raised(c, t))) == InOrder(Plug(c, t))
  {
    assert Balanced(Tint(c.other, true)) && BlackHeight(Tint(c.other, true)) == BlackHeight(t);
    assert InOrder(Raised(c, t)) == InOrder(Up(c, t));
    PlugInOrder(c.up, Raised(c, t));
    PlugInOrder(c.up, Up(c, t));
  }

  /** What memory shows of the parent, the sibling and the nephews of the hole. */
  lemma SiblingView(m: Memory, c: Ctx, t: Shape)
    requires Seg(m, c, Root(t), null) && c.In? && c.other.Fork? && Apart(c, t)
    ensures var sib := c.other;
      && c.n in m && c.n in CNodes(c) && m[c.n] == OwnerLinks(c, Root(t), null) && Root(t) != sib.n
      && sib.n in m && sib.n in CNodes(c) && m[sib.n] == Links(sib.key, Root(sib.left), Root(sib.right), c.n, sib.red)
      && (sib.left.Fork? ==> sib.left.n in m && sib.left.n in CNodes(c) && m[sib.left.n].red == sib.left.red)
      && (sib.right.Fork? ==> sib.right.n in m && sib.right.n in CNodes(c) && m[sib.right.n].red == sib.right.red)
  {
    var sib := c.other;
    assert sib.n in Nodes(sib) && (t.Fork? ==> t.n in Nodes(t));
    assert Sub(m, sib, c.n) && Sub(m, sib.left, sib.n) && Sub(m, sib.right, sib.n);
    assert sib.left.Fork? ==> sib.left.n in Nodes(sib.left);
    assert sib.right.Fork? ==> sib.right.n in Nodes(sib.right);
  }

  lemma SettledRotated(c: Ctx, t: Shape)
    requires c.In? && c.other.Fork? && Kid(c.other, Flip(c.side)).Fork?
    ensures var s, a, sib := c.side, Across(c, t), Tint(c.other, c.red);
      var sib' := Up(Down(a, sib, Flip(s)), Tint(Kid(sib, Flip(s)), false));
      var v := Tint(Up(a, sib'), false);
      v.Fork? && v.n == c.n && Kid(v, Flip(s)).Fork? && Rotated(v, s) == Settled(c, t)
  {
  }

  lemma WholeRepaired(c: Ctx, t: Shape)
    requires RedBlack(Plug(c, t)) && t.Fork?
    ensures Repaired(Top, Plug(c, t)) && Plug(Top, Plug(c, t)) == Plug(c, t) && CNodes(Top) == {}
  {
    PlugFork(c, t);
  }

  lemma {:induction false} PlugFork(c: Ctx, t: Shape)
    requires t.Fork?
    ensures Plug(c, t).Fork?
  {
    if c.In? {
      PlugFork(c.up, Up(c, t));
    }
  }

  lemma RaisedRepair(c: Ctx, t: Shape)
    requires Short(c, t) && c.In? && c.other.Fork? && !c.other.red && !IsRed(c.other.left) && !IsRed(c.other.right)
    ensures var r := Raised(c, t);
      && r.Fork? && r.n == c.n && r.red == c.red && InOrder(Plug(c.up, r)) == InOrder(Plug(c, t))
      && (!c.red ==> Short(c.up, r)) && (c.red ==> Repaired(c.up, r))
  {
    RaisedDeficit(c, t);
  }

  // ---------- what a held tree shows

  lemma HeldSibling(m: Memory, root: Node?, c: Ctx, t: Shape)
    requires Holds(m, root, c, t) && c.In? && c.other.Fork?
    ensures var sib := c.other;
      && c.n in m && c.n in CNodes(c) && m[c.n] == OwnerLinks(c, Root(t), null) && Root(t) != sib.n
      && sib.n in m && sib.n in CNodes(c) && m[sib.n] == Links(sib.key, Root(sib.left), Root(sib.right), c.n, sib.red)
      && (sib.left.Fork? ==> sib.left.n in m && sib.left.n in CNodes(c) && m[sib.left.n].red == sib.left.red)
      && (sib.right.Fork? ==> sib.right.n in m && sib.right.n in CNodes(c) && m[sib.right.n].red == sib.right.red)
  {
    SiblingView(m, c, t);
  }

  lemma HeldOwner(m: Memory, root: Node?, c: Ctx, t: Shape)
    requires Holds(m, root, c, t) && c.In?
    ensures c.n in m && c.n in CNodes(c) && m[c.n].red == c.red
  {
    OwnerIn(m, c, t);
  }

  lemma HeldFocus(m: Memory, root: Node?, c: Ctx, t: Shape)
    requires Holds(m, root, c, t)
    ensures Root(t) == root <==> c == Top
    ensures t.Fork? ==> t.n in m && t.n in Nodes(t) && m[t.n].parent == Owner(c, null) && m[t.n].red == t.red
  {
    if Root(t) == root {
      RootFocus(m, c, t);
    }
  }

  /** The sibling of a short subtree is there. */
  lemma ShortSibling(c: Ctx, t: Shape)
    requires Short(c, t) && c.In?
    ensures c.other.Fork?
  {
  }

  lemma ShortRoot(t: Shape)
    requires Short(Top, t)
    ensures Repaired(Top, t)
  {
  }
}
