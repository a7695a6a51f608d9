/** Red-black tree shapes: the value-level picture of the intrusive tree that wepoll keeps its
    sockets in, together with zipper contexts that describe "everything but one subtree". */
module TreeShape {

  /** tree_node_t: the fields that the tree code links and recolours in place. */
  class Node {
    var key: nat
    var left: Node?
    var right: Node?
    var parent: Node?
    var red: bool

    constructor () {
      key, left, right, parent, red := 0, null, null, null, false;
    }
  }

  /** The two arguments of the source's mirrored macros. */
  datatype Side = L | R

  function Flip(s: Side): Side { if s == L then R else L }

  datatype Shape = Nil | Fork(left: Shape, n: Node, key: nat, red: bool, right: Shape)

  /** A shape with one subtree missing; `side` says on which side of `n` the hole is. */
  datatype Ctx = Top | In(side: Side, up: Ctx, n: Node, key: nat, red: bool, other: Shape)

  datatype Entry = Entry(key: nat, n: Node)

  function Root(t: Shape): Node? { if t.Nil? then null else t.n }

  function Kid(t: Shape, s: Side): Shape
    requires t.Fork?
  {
    if s == L then t.left else t.right
  }

  /** A fork whose child on side `s` is `cis`. */
  function Make(s: Side, cis: Shape, n: Node, key: nat, red: bool, trans: Shape): (r: Shape)
    ensures r.Fork?
  {
    if s == L then Fork(cis, n, key, red, trans) else Fork(trans, n, key, red, cis)
  }

  function Tint(t: Shape, red: bool): (r: Shape)
    requires t.Fork?
    ensures r.Fork?
  {
    Fork(t.left, t.n, t.key, red, t.right)
  }

  /** The subtree one level above the hole. */
  function Up(c: Ctx, t: Shape): (r: Shape)
    requires c.In?
    ensures r.Fork?
  {
    Make(c.side, t, c.n, c.key, c.red, c.other)
  }

  /** The context of the hole's sibling. */
  function Across(c: Ctx, t: Shape): Ctx
    requires c.In?
  {
    c.(side := Flip(c.side), other := t)
  }

  function Plug(c: Ctx, t: Shape): Shape {
    match c
    case Top => t
    case In(_, up, _, _, _, _) => Plug(up, Up(c, t))
  }

  /** Stack context `s` on top of `base`: the hole stays the hole of `s`. */
  function Append(s: Ctx, base: Ctx): Ctx {
    if s.Top? then base else s.(up := Append(s.up, base))
  }

  function Depth(c: Ctx): nat { if c.Top? then 0 else 1 + Depth(c.up) }

  // ---------- nodes and distinctness

  function Nodes(t: Shape): set<Node> {
    if t.Nil? then {} else Nodes(t.left) + {t.n} + Nodes(t.right)
  }

  function CNodes(c: Ctx): set<Node> {
    if c.Top? then {} else CNodes(c.up) + {c.n} + Nodes(c.other)
  }

  /** No node occurs twice in the shape. */
  predicate Distinct(t: Shape) {
    t.Fork? ==>
      && t.n !in Nodes(t.left) && t.n !in Nodes(t.right)
      && Nodes(t.left) !! Nodes(t.right)
      && Distinct(t.left) && Distinct(t.right)
  }

  predicate CDistinct(c: Ctx) {
    c.In? ==>
      && c.n !in Nodes(c.other) && c.n !in CNodes(c.up)
      && Nodes(c.other) !! CNodes(c.up)
      && Distinct(c.other) && CDistinct(c.up)
  }

  predicate Apart(c: Ctx, t: Shape) {
    CDistinct(c) && Distinct(t) && CNodes(c) !! Nodes(t)
  }

  lemma {:induction false} PlugNodes(c: Ctx, t: Shape)
    ensures Nodes(Plug(c, t)) == CNodes(c) + Nodes(t)
    ensures Distinct(Plug(c, t)) <==> Apart(c, t)
  {
    if c.In? {
      PlugNodes(c.up, Up(c, t));
    }
  }

  lemma {:induction false} AppendPlug(s: Ctx, base: Ctx, t: Shape)
    ensures Plug(Append(s, base), t) == Plug(base, Plug(s, t))
    ensures CNodes(Append(s, base)) == CNodes(s) + CNodes(base)
  {
    if s.In? {
      AppendPlug(s.up, base, Up(s, t));
    }
  }

  // ---------- in-order contents

  function InOrder(t: Shape): seq<Entry> {
    if t.Nil? then [] else InOrder(t.left) + [Entry(t.key, t.n)] + InOrder(t.right)
  }

  /** What precedes (Pre) and follows (Post) the hole in order. */
  function Pre(c: Ctx): seq<Entry> {
    if c.Top? then []
    else if c.side == L then Pre(c.up)
    else Pre(c.up) + InOrder(c.other) + [Entry(c.key, c.n)]
  }

  function Post(c: Ctx): seq<Entry> {
    if c.Top? then []
    else if c.side == R then Post(c.up)
    else [Entry(c.key, c.n)] + InOrder(c.other) + Post(c.up)
  }

  lemma {:induction false} PlugInOrder(c: Ctx, t: Shape)
    ensures InOrder(Plug(c, t)) == Pre(c) + InOrder(t) + Post(c)
  {
    if c.Top? {
      assert [] + InOrder(t) + [] == InOrder(t);
    } else {
      var e, u, o := [Entry(c.key, c.n)], InOrder(t), InOrder(c.other);
      assert Plug(c, t) == Plug(c.up, Up(c, t));
      PlugInOrder(c.up, Up(c, t));
      assert InOrder(Up(c, t)) == if c.side == L then u + e + o else o + e + u;
      assert Pre(c) == if c.side == L then Pre(c.up) else Pre(c.up) + o + e;
      assert Post(c) == if c.side == R then Post(c.up) else e + o + Post(c.up);
      hide InOrder, Pre, Post, Plug;
      Shift(Pre(c.up), u, e, o, Post(c.up));
    }
  }

  lemma Shift(a: seq<Entry>, u: seq<Entry>, e: seq<Entry>, o: seq<Entry>, p: seq<Entry>)
    ensures a + (u + e + o) + p == a + u + (e + o + p)
    ensures a + (o + e + u) + p == a + o + e + u + p
  {
  }

  ghost function Entries(t: Shape): set<Entry> { set e | e in InOrder(t) }

  predicate Sorted(es: seq<Entry>) {
    forall i, j :: 0 <= i < j < |es| ==> es[i].key < es[j].key
  }

  predicate Below(es: seq<Entry>, key: nat) { forall e :: e in es ==> e.key < key }

  predicate Above(es: seq<Entry>, key: nat) { forall e :: e in es ==> key < e.key }

  /** The hole is where `key` belongs: it would fit between what precedes and what follows. */
  predicate Gap(c: Ctx, key: nat) { Below(Pre(c), key) && Above(Post(c), key) }

  /** The context of the subtree one step down on side `s`. */
  function Down(c: Ctx, t: Shape, s: Side): (r: Ctx)
    requires t.Fork?
    ensures r.In?
  {
    In(s, c, t.n, t.key, t.red, Kid(t, Flip(s)))
  }

  lemma SortedSplit(a: seq<Entry>, e: Entry, b: seq<Entry>)
    requires Sorted(a + [e] + b)
    ensures Sorted(a + b) && Below(a, e.key) && Above(b, e.key)
  {
    var all, ab := a + [e] + b, a + b;
    forall i, j | 0 <= i < j < |ab| ensures ab[i].key < ab[j].key {
      var i', j' := if i < |a| then i else i + 1, if j < |a| then j else j + 1;
      assert ab[i] == all[i'] && ab[j] == all[j'];
    }
    forall x | x in a ensures x.key < e.key {
      var i :| 0 <= i < |a| && a[i] == x;
      assert x == all[i] && e == all[|a|];
    }
    forall x | x in b ensures e.key < x.key {
      var i :| 0 <= i < |b| && b[i] == x;
      assert x == all[|a| + 1 + i] && e == all[|a|];
    }
  }

  lemma SortedInsert(a: seq<Entry>, e: Entry, b: seq<Entry>)
    requires Sorted(a + b) && Below(a, e.key) && Above(b, e.key)
    ensures Sorted(a + [e] + b)
  {
    var all, ab := a + [e] + b, a + b;
    forall i, j | 0 <= i < j < |all| ensures all[i].key < all[j].key {
      if i == |a| {
        assert all[j] in b;
      } else if j == |a| {
        assert all[i] in a;
      } else {
        var i', j' := if i < |a| then i else i - 1, if j < |a| then j else j - 1;
        assert all[i] == ab[i'] && all[j] == ab[j'];
      }
    }
  }

  /** One comparison narrows the place where `key` can be. */
  lemma Narrow(c: Ctx, t: Shape, key: nat, s: Side)
    requires Sorted(InOrder(Plug(c, t))) && Gap(c, key) && t.Fork?
    requires if s == L then key < t.key else t.key < key
    ensures Gap(Down(c, t, s), key)
    ensures Plug(Down(c, t, s), Kid(t, s)) == Plug(c, t)
  {
    var l, e, r := InOrder(t.left), Entry(t.key, t.n), InOrder(t.right);
    assert Pre(c) + (l + [e] + r) + Post(c) == (Pre(c) + l) + [e] + (r + Post(c)) by {
      ConcatLemma(Pre(c), l, e, r, Post(c));
    }
    PlugInOrder(c, t);
    SortedSplit(Pre(c) + l, e, r + Post(c));
    NarrowSides(c, t, key, s);
  }

  lemma NarrowSides(c: Ctx, t: Shape, key: nat, s: Side)
    requires Gap(c, key) && t.Fork?
    requires if s == L then key < t.key else t.key < key
    requires Below(Pre(c) + InOrder(t.left), t.key) && Above(InOrder(t.right) + Post(c), t.key)
    ensures Gap(Down(c, t, s), key)
  {
    var d, e := Down(c, t, s), Entry(t.key, t.n);
    if s == L {
      forall x | x in Post(d) ensures key < x.key {
        assert x == e || x in InOrder(t.right) + Post(c);
      }
    } else {
      forall x | x in Pre(d) ensures x.key < key {
        assert x == e || x in Pre(c) + InOrder(t.left);
      }
    }
  }

  lemma ConcatLemma<T>(a: seq<T>, l: seq<T>, e: T, r: seq<T>, b: seq<T>)
    ensures a + (l + [e] + r) + b == (a + l) + [e] + (r + b)
  {
  }

  /** Once nothing is left below the hole, `key` is absent. */
  lemma GapAbsent(c: Ctx, key: nat, e: Entry)
    requires Gap(c, key) && e in InOrder(Plug(c, Nil))
    ensures e.key != key
  {
    PlugInOrder(c, Nil);
    assert e in Pre(c) || e in Post(c);
  }

  lemma {:induction false} NodesInOrder(t: Shape, n: Node)
    ensures n in Nodes(t) <==> exists e :: e in InOrder(t) && e.n == n
  {
    if t.Fork? {
      NodesInOrder(t.left, n);
      NodesInOrder(t.right, n);
      var es := InOrder(t);
      assert forall e :: e in es <==> e in InOrder(t.left) || e == Entry(t.key, t.n) || e in InOrder(t.right);
      if n == t.n { assert Entry(t.key, t.n) in es; }
    }
  }

  // ---------- the red-black discipline

  predicate IsRed(t: Shape) { t.Fork? && t.red }

  function BlackHeight(t: Shape): nat {
    if t.Nil? then 0 else BlackHeight(t.left) + (if t.red then 0 else 1)
  }

  /** Equal black heights everywhere and no red node with a red child. */
  predicate Balanced(t: Shape) {
    t.Fork? ==>
      && BlackHeight(t.left) == BlackHeight(t.right)
      && (t.red ==> !IsRed(t.left) && !IsRed(t.right))
      && Balanced(t.left) && Balanced(t.right)
  }

  predicate RedBlack(t: Shape) { Balanced(t) && !IsRed(t) }

  /** Filling the hole with a balanced black-rooted tree of black height `h` gives a red-black tree. */
  predicate CBalanced(c: Ctx, h: nat) {
    c.In? ==>
      && Balanced(c.other) && BlackHeight(c.other) == h
      && (c.red ==> !IsRed(c.other) && c.up.In? && !c.up.red)
      && CBalanced(c.up, if c.red then h else h + 1)
  }

  lemma {:induction false} PlugBalanced(c: Ctx, t: Shape)
    requires Balanced(t) && CBalanced(c, BlackHeight(t))
    requires IsRed(t) ==> c.In? && !c.red
    ensures RedBlack(Plug(c, t))
  {
    if c.In? {
      PlugBalanced(c.up, Up(c, t));
    }
  }

  /** Taking a red-black tree apart at any place leaves a balanced context. */
  lemma {:induction false} UnplugBalanced(c: Ctx, t: Shape)
    requires RedBlack(Plug(c, t))
    ensures Balanced(t) && CBalanced(c, BlackHeight(t))
    ensures IsRed(t) ==> c.In? && !c.red
  {
    if c.In? {
      UnplugBalanced(c.up, Up(c, t));
    }
  }

  // ---------- what memory must look like

  /** The fields of one node, as a value. */
  datatype Links = Links(key: nat, left: Node?, right: Node?, parent: Node?, red: bool)

  type Memory = map<Node, Links>

  /** A snapshot of the fields of the given nodes. */
  ghost function Mem(ns: set<Node>): (m: Memory)
    reads ns
    ensures m.Keys == ns
  {
    map n | n in ns :: Links(n.key, n.left, n.right, n.parent, n.red)
  }

  /** Memory holds shape `t`, hung below `up`. */
  predicate Sub(m: Memory, t: Shape, up: Node?) {
    t.Fork? ==>
      && t.n in m
      && m[t.n] == Links(t.key, Root(t.left), Root(t.right), up, t.red)
      && Sub(m, t.left, t.n) && Sub(m, t.right, t.n)
  }

  /** The node that owns the hole, or `up` when the context is empty. */
  function Owner(c: Ctx, up: Node?): Node? { if c.Top? then up else c.n }

  /** The topmost node of `c` filled with a tree rooted at `hole`. */
  function TopNode(c: Ctx, hole: Node?): Node? {
    if c.Top? then hole else TopNode(c.up, c.n)
  }

  /** What the owner of the hole must hold. */
  function OwnerLinks(c: Ctx, hole: Node?, up: Node?): Links
    requires c.In?
  {
    var o := Root(c.other);
    Links(c.key, if c.side == L then hole else o, if c.side == L then o else hole, Owner(c.up, up), c.red)
  }

  /** Memory holds context `c` around a subtree rooted at `hole`, hung below `up`. */
  predicate Seg(m: Memory, c: Ctx, hole: Node?, up: Node?) {
    c.In? ==>
      && c.n in m
      && m[c.n] == OwnerLinks(c, hole, up)
      && Sub(m, c.other, c.n)
      && Seg(m, c.up, c.n, up)
  }

  /** The two memories differ at most on `touched`. */
  predicate Except(m: Memory, m': Memory, touched: set<Node?>) {
    forall n :: n in m && n !in touched ==> n in m' && m'[n] == m[n]
  }

  predicate Clear(ns: set<Node>, touched: set<Node?>) {
    forall n :: n in ns ==> n !in touched
  }

  lemma {:induction false} SubFrame(m: Memory, m': Memory, t: Shape, up: Node?, touched: set<Node?>)
    requires Sub(m, t, up) && Except(m, m', touched) && Clear(Nodes(t), touched)
    ensures Sub(m', t, up)
  {
    if t.Fork? {
      SubFrame(m, m', t.left, t.n, touched);
      SubFrame(m, m', t.right, t.n, touched);
    }
  }

  lemma {:induction false} SegFrame(m: Memory, m': Memory, c: Ctx, hole: Node?, up: Node?, touched: set<Node?>)
    requires Seg(m, c, hole, up) && Except(m, m', touched) && Clear(CNodes(c), touched)
    ensures Seg(m', c, hole, up)
  {
    if c.In? {
      SubFrame(m, m', c.other, c.n, touched);
      SegFrame(m, m', c.up, c.n, up, touched);
    }
  }

  /** Only the root of a subtree knows what it hangs from. */
  lemma Rehang(m: Memory, m': Memory, t: Shape, up: Node?, up': Node?, touched: set<Node?>)
    requires t.Fork? && Distinct(t)
    requires Sub(m, t, up) && Except(m, m', touched) && Clear(Nodes(t) - {t.n}, touched)
    requires t.n in m' && m'[t.n] == Links(t.key, Root(t.left), Root(t.right), up', t.red)
    ensures Sub(m', t, up')
  {
    SubFrame(m, m', t.left, t.n, touched);
    SubFrame(m, m', t.right, t.n, touched);
  }

  /** Only the owner of the hole knows what fills it. */
  lemma Refill(m: Memory, m': Memory, c: Ctx, hole: Node?, hole': Node?, up: Node?, touched: set<Node?>)
    requires c.In? && CDistinct(c)
    requires Seg(m, c, hole, up) && Except(m, m', touched) && Clear(CNodes(c) - {c.n}, touched)
    requires c.n in m' && m'[c.n] == OwnerLinks(c, hole', up)
    ensures Seg(m', c, hole', up)
  {
    SubFrame(m, m', c.other, c.n, touched);
    SegFrame(m, m', c.up, c.n, up, touched);
  }

  /** Memory holds subtree `t` inside context `c`, and `root` points to the whole. */
  predicate Holds(m: Memory, root: Node?, c: Ctx, t: Shape) {
    && root == TopNode(c, Root(t))
    && Seg(m, c, Root(t), null)
    && Sub(m, t, Owner(c, null))
    && Apart(c, t)
  }

  /** What the owner of the hole and the hole's sibling look like in memory. */
  lemma OwnerView(m: Memory, c: Ctx, hole: Node, up: Node?)
    requires Seg(m, c, hole, up) && CDistinct(c) && c.In? && hole !in CNodes(c)
    ensures c.n in m && c.n in CNodes(c) && m[c.n] == OwnerLinks(c, hole, up)
    ensures Root(c.other) != hole
    ensures c.other.Fork? ==> c.other.n in m && c.other.n in CNodes(c) && m[c.other.n].red == c.other.red
  {
    if c.other.Fork? {
      assert c.other.n in Nodes(c.other);
    }
  }

  /** The colours that memory shows around the hole. */
  lemma OwnerIn(m: Memory, c: Ctx, t: Shape)
    requires Seg(m, c, Root(t), null) && c.In?
    ensures c.n in m && c.n in CNodes(c) && m[c.n].red == c.red
  {
  }

  /** Only the whole tree sits at the root. */
  lemma RootFocus(m: Memory, c: Ctx, t: Shape)
    requires Apart(c, t) && TopNode(c, Root(t)) == Root(t)
    ensures c == Top
  {
    assert t.Fork? ==> t.n in Nodes(t);
    if c.In? {
      TopIn(c, Root(t));
    }
  }

  lemma {:induction false} TopIn(s: Ctx, hole: Node?)
    requires s.In?
    ensures TopNode(s, hole) in CNodes(s)
  {
    if s.up.In? {
      TopIn(s.up, s.n);
    }
  }

  /** Hanging a fresh red leaf in an empty hole. */
  lemma AttachHolds(m: Memory, m': Memory, root: Node?, root': Node?, c: Ctx, node: Node, key: nat)
    requires Holds(m, root, c, Nil) && node !in CNodes(c)
    requires Except(m, m', {node, Owner(c, null)})
    requires node in m' && m'[node] == Links(key, null, null, Owner(c, null), true)
    requires c.In? ==> c.n in m' && m'[c.n] == OwnerLinks(c, node, null)
    requires root' == (if c.Top? then node else root)
    ensures Holds(m', root', c, Fork(Nil, node, key, true, Nil))
  {
    if c.In? {
      Refill(m, m', c, null, node, null, {node, c.n});
    }
  }

  /** Moving the focus one level up or down does not change what is held. */
  lemma Refocus(m: Memory, root: Node?, c: Ctx, t: Shape)
    requires c.In?
    ensures Holds(m, root, c, t) <==> Holds(m, root, c.up, Up(c, t))
    ensures Holds(m, root, c, t) <==> Holds(m, root, Across(c, t), c.other)
    ensures CNodes(c) + Nodes(t) == CNodes(Across(c, t)) + Nodes(c.other)
    ensures CNodes(c) + Nodes(t) == CNodes(c.up) + Nodes(Up(c, t))
  {
    UpNodes(c, t);
    AcrossNodes(c, t);
    hide Nodes, CNodes, Distinct, CDistinct;
  }

  lemma UpNodes(c: Ctx, t: Shape)
    requires c.In?
    ensures CNodes(c) + Nodes(t) == CNodes(c.up) + Nodes(Up(c, t))
    ensures Apart(c, t) <==> Apart(c.up, Up(c, t))
  {
    assert Nodes(Up(c, t)) == Nodes(t) + {c.n} + Nodes(c.other);
  }

  lemma AcrossNodes(c: Ctx, t: Shape)
    requires c.In?
    ensures CNodes(c) + Nodes(t) == CNodes(Across(c, t)) + Nodes(c.other)
    ensures Apart(c, t) <==> Apart(Across(c, t), c.other)
  {
  }

  lemma {:induction false} PlugHolds(m: Memory, root: Node?, c: Ctx, t: Shape)
    ensures Holds(m, root, Top, Plug(c, t)) <==> Holds(m, root, c, t)
  {
    PlugNodes(c, t);
    PlugMem(m, c, t, null);
  }

  lemma {:induction false} PlugMem(m: Memory, c: Ctx, t: Shape, up: Node?)
    ensures Sub(m, Plug(c, t), up) <==> Sub(m, t, Owner(c, up)) && Seg(m, c, Root(t), up)
    ensures Root(Plug(c, t)) == TopNode(c, Root(t))
  {
    if c.In? {
      PlugMem(m, c.up, Up(c, t), up);
    }
  }

  lemma {:induction false} AppendMem(m: Memory, s: Ctx, base: Ctx, hole: Node?, up: Node?)
    ensures Seg(m, Append(s, base), hole, up)
       <==> Seg(m, s, hole, Owner(base, up)) && Seg(m, base, TopNode(s, hole), up)
    ensures TopNode(Append(s, base), hole) == TopNode(base, TopNode(s, hole))
  {
    if s.In? {
      AppendMem(m, s.up, base, s.n, up);
    }
  }
}
