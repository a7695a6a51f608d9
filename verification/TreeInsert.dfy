/** Shapes met while a new red leaf is worked into the red-black tree. */
module TreeInsert {
  import opened TreeShape
  import opened TreeRotate

  /** Filling a gap with one entry keeps the order and adds exactly that entry. */
  lemma InsertedOrder(c: Ctx, leaf: Shape)
    requires leaf.Fork? && leaf.left.Nil? && leaf.right.Nil?
    requires Sorted(InOrder(Plug(c, Nil))) && Gap(c, leaf.key)
    ensures Sorted(InOrder(Plug(c, leaf)))
    ensures Entries(Plug(c, leaf)) == Entries(Plug(c, Nil)) + {Entry(leaf.key, leaf.n)}
  {
    var e := Entry(leaf.key, leaf.n);
    PlugInOrder(c, Nil);
    PlugInOrder(c, leaf);
    assert Pre(c) + [] + Post(c) == Pre(c) + Post(c);
    assert InOrder(leaf) == [e];
    SortedInsert(Pre(c), e, Post(c));
  }

  /** The empty place that the descent found, as a focus of the valid tree. */
  lemma GapView(m: Memory, root: Node?, shape: Shape, c: Ctx, key: nat)
    requires Holds(m, root, Top, shape) && RedBlack(shape) && Plug(c, Nil) == shape && Gap(c, key)
    ensures Holds(m, root, c, Nil) && CNodes(c) == Nodes(shape) && CBalanced(c, 0)
    ensures forall e :: e in Entries(shape) ==> e.key != key
  {
    PlugHolds(m, root, c, Nil);
    PlugNodes(c, Nil);
    UnplugBalanced(c, Nil);
    forall e | e in Entries(shape) ensures e.key != key {
      GapAbsent(c, key, e);
    }
  }

  /** Everything is in order except possibly that the red root of `t` has a red parent. */
  predicate Pending(c: Ctx, t: Shape) {
    IsRed(t) && Balanced(t) && CBalanced(c, BlackHeight(t))
  }

  predicate RedUnderRed(c: Ctx, t: Shape) {
    Pending(c, t) && c.In? && c.red
  }

  /** Parent and uncle black, grandparent red. */
  function Pushed(c: Ctx, t: Shape): Shape
    requires c.In? && c.up.In? && c.up.other.Fork?
  {
    Tint(Up(Across(c.up, Tint(Up(c, t), false)), Tint(c.up.other, false)), true)
  }

  function Outer(c: Ctx, t: Shape): Shape
    requires c.In? && t.Fork?
  {
    Make(Flip(c.side), c.other, c.n, c.key, c.red, Kid(t, Flip(c.side)))
  }

  function OuterCtx(c: Ctx, t: Shape): (r: Ctx)
    requires c.In? && t.Fork?
    ensures r.In?
  {
    In(Flip(c.side), c.up, t.n, t.key, t.red, Kid(t, c.side))
  }

  lemma OuterPending(c: Ctx, t: Shape)
    requires RedUnderRed(c, t) && !IsRed(c.up.other) && c.side == Flip(c.up.side)
    ensures RedUnderRed(OuterCtx(c, t), Outer(c, t))
    ensures InOrder(Plug(OuterCtx(c, t), Outer(c, t))) == InOrder(Plug(c, t))
  {
    RotatedSame(Up(c, t), Flip(c.side));
    assert Rotated(Up(c, t), Flip(c.side)) == Up(OuterCtx(c, t), Outer(c, t));
    PlugInOrder(c.up, Up(c, t));
    PlugInOrder(c.up, Up(OuterCtx(c, t), Outer(c, t)));
  }

  /** The parent has taken the grandparent's place. */
  function LiftedCtx(c: Ctx): (r: Ctx)
    requires c.In? && c.up.In?
    ensures r.In?
  {
    In(c.side, c.up.up, c.n, c.key, false, Make(c.side, c.other, c.up.n, c.up.key, true, c.up.other))
  }

  lemma LiftedPending(c: Ctx, t: Shape)
    requires RedUnderRed(c, t) && !IsRed(c.up.other) && c.side == c.up.side
    ensures Pending(LiftedCtx(c), t) && !LiftedCtx(c).red
  {
    assert CBalanced(c.up, BlackHeight(t));
  }

  lemma LiftedOrder(c: Ctx, t: Shape)
    requires c.In? && c.up.In? && c.side == c.up.side
    ensures InOrder(Plug(LiftedCtx(c), t)) == InOrder(Plug(c, t))
  {
    var gt := Tint(Up(c.up, Tint(Up(c, t), false)), true);
    assert Rotated(gt, Flip(c.side)) == Up(LiftedCtx(c), t);
    RotatedSame(gt, Flip(c.side));
    assert InOrder(gt) == InOrder(Up(c.up, Up(c, t)));
    PlugInOrder(c.up.up, Up(LiftedCtx(c), t));
    PlugInOrder(c.up.up, Up(c.up, Up(c, t)));
  }

  lemma PushedPending(c: Ctx, t: Shape)
    requires RedUnderRed(c, t) && IsRed(c.up.other)
    ensures Pending(c.up.up, Pushed(c, t))
    ensures InOrder(Plug(c.up.up, Pushed(c, t))) == InOrder(Plug(c, t))
  {
    var pt', uncle' := Tint(Up(c, t), false), Tint(c.up.other, false);
    assert CBalanced(c.up, BlackHeight(t));
    assert Balanced(pt') && BlackHeight(pt') == BlackHeight(t) + 1;
    assert Balanced(uncle') && BlackHeight(uncle') == BlackHeight(t) + 1;
    PlugInOrder(c.up.up, Pushed(c, t));
    PlugInOrder(c.up.up, Up(c.up, Up(c, t)));
  }
}
