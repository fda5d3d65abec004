/**
 * The balanced dictionary `RedBlackTree`: the search tree of module `Bst`
 * whose insert walks to an empty child, links a red leaf there, and runs the
 * recolour/rotate fixup. Search, substring search, the path queries and
 * delete are inherited from `Bst` unchanged.
 *
 * Nodes are values; the node the fixup loop calls `z` is a handle
 * (`Zipper`) whose context frames stand for the parent links.
 */
module RedBlack {
  import opened Order
  import opened Trees
  import Bst

  predicate IsRed(t: Tree) {
    t.Node? && t.color == Red
  }

  /** The source only ever compares a colour with `RED`; every other colour counts as black. */
  function Inc(c: Color): nat {
    if c == Red then 0 else 1
  }

  /** The number of black nodes on the leftmost path, the node itself included. */
  function BlackHeight(t: Tree): nat {
    match t
    case Nil => 0
    case Node(l, _, c, _) => BlackHeight(l) + Inc(c)
  }

  /** Every path from a node down to an empty child meets the same number of black nodes. */
  predicate Balanced(t: Tree) {
    match t
    case Nil => true
    case Node(l, _, _, r) => Balanced(l) && Balanced(r) && BlackHeight(l) == BlackHeight(r)
  }

  /** No red node has a red child. */
  predicate NoRedRed(t: Tree) {
    match t
    case Nil => true
    case Node(l, _, c, r) => (c == Red ==> !IsRed(l) && !IsRed(r)) && NoRedRed(l) && NoRedRed(r)
  }

  /** The red-black invariants: equal black heights, no red-red pair, a root that is not red. */
  predicate IsRedBlack(t: Tree) {
    Balanced(t) && NoRedRed(t) && !IsRed(t)
  }

  /** Sets the colour of a node. */
  function Paint(t: Tree, c: Color): Tree {
    match t
    case Nil => Nil
    case Node(l, k, _, r) => Node(l, k, c, r)
  }

  lemma Regroup(a: seq<string>, x: string, b: seq<string>, y: string, c: seq<string>)
    ensures a + [x] + (b + [y] + c) == (a + [x] + b) + [y] + c
  {
  }

  /**
   * `rightRotate(y)`: the left child `x` takes `y`'s place, `y` becomes `x`'s
   * right child and adopts `x`'s right subtree; nothing happens when there is
   * no left child. The in-order keys do not change.
   */
  function RightRotate(y: Tree): (r: Tree)
    requires y.Node?
    ensures InOrder(r) == InOrder(y)
    ensures y.left.Nil? ==> r == y
    ensures y.left.Node? ==> r.Node? && r.key == y.left.key && r.right.Node? && r.right.key == y.key
  {
    if y.left.Nil? then y
    else
      var x := y.left;
      Regroup(InOrder(x.left), x.key, InOrder(x.right), y.key, InOrder(y.right));
      Node(x.left, x.key, x.color, Node(x.right, y.key, y.color, y.right))
  }

  /**
   * `leftRotate(x)`: the right child `y` takes `x`'s place, `x` becomes `y`'s
   * left child and adopts `y`'s left subtree; nothing happens when there is
   * no right child. The in-order keys do not change, and a right rotation
   * at the new top undoes it.
   */
  function LeftRotate(x: Tree): (r: Tree)
    requires x.Node?
    ensures InOrder(r) == InOrder(x)
    ensures x.right.Nil? ==> r == x
    ensures x.right.Node? ==> r.Node? && r.key == x.right.key && r.left.Node? && r.left.key == x.key
    ensures x.right.Node? ==> RightRotate(r) == x
  {
    if x.right.Nil? then x
    else
      var y := x.right;
      Regroup(InOrder(x.left), x.key, InOrder(y.left), y.key, InOrder(y.right));
      Node(Node(x.left, x.key, x.color, y.left), y.key, y.color, y.right)
  }

  /** The loop guard's first half: the handle has a parent and it is red. */
  predicate ParentRed(ctx: Ctx) {
    ctx != Top && ctx.color == Red
  }

  /** Plugging into a frame is plugging the parent node into the frames above it. */
  lemma PlugUp(ctx: Ctx, t: Tree)
    requires ctx != Top
    ensures Plug(ctx, t) == Plug(ctx.up, Attach(ctx, t))
  {
  }

  /**
   * Case 1 of the fixup (red uncle): parent and uncle turn black, the
   * grandparent turns red, and the handle moves up to the grandparent.
   */
  function RecolorUp(z: Zipper): (r: Zipper)
    requires z.ctx != Top && z.ctx.up != Top
    ensures InOrder(Whole(r)) == InOrder(Whole(z))
    ensures Depth(r.ctx) + 2 == Depth(z.ctx)
  {
    var p, g := z.ctx, z.ctx.up;
    var parent := Paint(Attach(p, z.focus), Black);
    var top := if g.LeftHole? then Node(parent, g.key, Red, Paint(g.right, Black))
               else Node(Paint(g.left, Black), g.key, Red, parent);
    PlugUp(p, z.focus);
    PlugUp(g, Attach(p, z.focus));
    PlugInOrder(g.up, top);
    PlugInOrder(g.up, Attach(g, Attach(p, z.focus)));
    assert InOrder(parent) == InOrder(Attach(p, z.focus));
    assert InOrder(top) == InOrder(Attach(g, Attach(p, z.focus)));
    Zipper(top, g.up)
  }

  /**
   * Inner case, left side: `z` is the right child of its parent; `z` moves to
   * the parent, which is rotated left, so that `z` is now a left child.
   */
  function RotateParentLeft(z: Zipper): (r: Zipper)
    requires z.ctx.RightHole? && z.focus.Node?
    ensures InOrder(Whole(r)) == InOrder(Whole(z))
    ensures r.ctx.LeftHole? && r.ctx.up == z.ctx.up && r.focus.Node?
  {
    var y := LeftRotate(Attach(z.ctx, z.focus));
    PlugInOrder(z.ctx.up, y);
    PlugInOrder(z.ctx.up, Attach(z.ctx, z.focus));
    Zipper(y.left, LeftHole(z.ctx.up, y.key, y.color, y.right))
  }

  /** Inner case, right side: the mirror image of `RotateParentLeft`. */
  function RotateParentRight(z: Zipper): (r: Zipper)
    requires z.ctx.LeftHole? && z.focus.Node?
    ensures InOrder(Whole(r)) == InOrder(Whole(z))
    ensures r.ctx.RightHole? && r.ctx.up == z.ctx.up && r.focus.Node?
  {
    var y := RightRotate(Attach(z.ctx, z.focus));
    PlugInOrder(z.ctx.up, y);
    PlugInOrder(z.ctx.up, Attach(z.ctx, z.focus));
    Zipper(y.right, RightHole(y.left, y.key, y.color, z.ctx.up))
  }

  /**
   * Outer case, left side: the parent turns black, the grandparent red, and
   * the grandparent is rotated right; `z` stays the left child of its
   * (now black) parent, which took the grandparent's place.
   */
  function RotateGrandRight(z: Zipper): (r: Zipper)
    requires z.ctx.LeftHole? && z.ctx.up.LeftHole?
    ensures InOrder(Whole(r)) == InOrder(Whole(z))
    ensures r.focus == z.focus && r.ctx.LeftHole? && r.ctx.color == Black
    ensures Depth(r.ctx) + 1 == Depth(z.ctx)
  {
    var p, g := z.ctx, z.ctx.up;
    var x := Node(Node(z.focus, p.key, Black, p.right), g.key, Red, g.right);
    var y := RightRotate(x);
    PlugUp(p, z.focus);
    PlugUp(g, Attach(p, z.focus));
    PlugInOrder(g.up, y);
    PlugInOrder(g.up, Attach(g, Attach(p, z.focus)));
    assert InOrder(x) == InOrder(Attach(g, Attach(p, z.focus)));
    Zipper(y.left, LeftHole(g.up, y.key, y.color, y.right))
  }

  /** Outer case, right side: the mirror image of `RotateGrandRight`. */
  function RotateGrandLeft(z: Zipper): (r: Zipper)
    requires z.ctx.RightHole? && z.ctx.up.RightHole?
    ensures InOrder(Whole(r)) == InOrder(Whole(z))
    ensures r.focus == z.focus && r.ctx.RightHole? && r.ctx.color == Black
    ensures Depth(r.ctx) + 1 == Depth(z.ctx)
  {
    var p, g := z.ctx, z.ctx.up;
    var x := Node(g.left, g.key, Red, Node(p.left, p.key, Black, z.focus));
    var y := LeftRotate(x);
    PlugUp(p, z.focus);
    PlugUp(g, Attach(p, z.focus));
    PlugInOrder(g.up, y);
    PlugInOrder(g.up, Attach(g, Attach(p, z.focus)));
    assert InOrder(x) == InOrder(Attach(g, Attach(p, z.focus)));
    Zipper(y.right, RightHole(y.left, y.key, y.color, g.up))
  }

  /** The handle after one pass of the fixup loop, with the number of rotations the pass made. */
  datatype Fixed = Fixed(z: Zipper, rotations: nat)

  /**
   * One pass of the `insertFixup` loop body, entered with a red parent that
   * has a parent of its own: recolour on a red uncle, otherwise rotate
   * (twice for an inner child, once for an outer one), after which the
   * parent is black.
   */
  function FixStep(z: Zipper): (r: Fixed)
    requires z.focus.Node? && ParentRed(z.ctx) && z.ctx.up != Top
    ensures r.z.focus.Node?
    ensures InOrder(Whole(r.z)) == InOrder(Whole(z))
    ensures Depth(r.z.ctx) < Depth(z.ctx)
    ensures r.rotations <= 2 && (r.rotations > 0 ==> !ParentRed(r.z.ctx))
  {
    var g := z.ctx.up;
    if g.LeftHole? then
      if IsRed(g.right) then Fixed(RecolorUp(z), 0)
      else if z.ctx.RightHole? then Fixed(RotateGrandRight(RotateParentLeft(z)), 2)
      else Fixed(RotateGrandRight(z), 1)
    else
      if IsRed(g.left) then Fixed(RecolorUp(z), 0)
      else if z.ctx.LeftHole? then Fixed(RotateGrandLeft(RotateParentRight(z)), 2)
      else Fixed(RotateGrandLeft(z), 1)
  }

  /** The loop stops when the parent is missing or not red, or when the red parent is the root. */
  predicate Done(z: Zipper) {
    !ParentRed(z.ctx) || z.ctx.up == Top
  }

  /**
   * `insertFixup`'s loop: passes until `Done`. The keys keep their in-order
   * positions, and the whole loop makes at most two rotations.
   */
  function Fixup(z: Zipper): (r: Fixed)
    requires z.focus.Node?
    ensures r.z.focus.Node? && Done(r.z)
    ensures InOrder(Whole(r.z)) == InOrder(Whole(z))
    ensures r.rotations <= 2
    ensures Done(z) ==> r.rotations == 0
    decreases Depth(z.ctx)
  {
    if Done(z) then Fixed(z, 0)
    else
      var s := FixStep(z);
      var f := Fixup(s.z);
      Fixed(f.z, f.rotations + s.rotations)
  }

  /**
   * The walk of `RedBlackTree.insert`: no equality test, left when the key
   * is less and right otherwise, down to an empty child.
   */
  function Slot(pol: Policy, key: string, z: Zipper): (r: Zipper)
    ensures r.focus.Nil? && Whole(r) == Whole(z)
    decreases z.focus
  {
    match z.focus
    case Nil => z
    case Node(l, k, c, rt) =>
      if Less(pol, key, k) then Slot(pol, key, Zipper(l, LeftHole(z.ctx, k, c, rt)))
      else Slot(pol, key, Zipper(rt, RightHole(l, k, c, z.ctx)))
  }

  /** Where the search walk ends at an empty child, the insert walk ends at the same one. */
  lemma {:induction false} SlotIsDescend(pol: Policy, key: string, z: Zipper)
    requires Bst.Descend(pol, key, z).focus.Nil?
    ensures Slot(pol, key, z) == Bst.Descend(pol, key, z)
    decreases z.focus
  {
    if z.focus.Node? {
      var Node(l, k, c, rt) := z.focus;
      if Less(pol, key, k) {
        SlotIsDescend(pol, key, Zipper(l, LeftHole(z.ctx, k, c, rt)));
      } else {
        SlotIsDescend(pol, key, Zipper(rt, RightHole(l, k, c, z.ctx)));
      }
    }
  }

  lemma {:induction false} PlugNode(ctx: Ctx, t: Tree)
    requires t.Node?
    ensures Plug(ctx, t).Node?
    decreases ctx
  {
    match ctx
    case Top =>
    case LeftHole(up, k, c, r) => PlugNode(up, Node(t, k, c, r));
    case RightHole(l, k, c, up) => PlugNode(up, Node(l, k, c, t));
  }

  /**
   * `RedBlackTree.insert(key)`: nothing changes when an equal key is stored;
   * otherwise a red leaf is linked where the walk ends, the fixup runs and
   * the root is painted black. The keys end in the same in-order sequence
   * as the unbalanced tree's insert would give.
   */
  function Insert(pol: Policy, t: Tree, key: string): (r: Tree)
    ensures Bst.Search(pol, t, key).Some? ==> r == t
    ensures Bst.Search(pol, t, key).None? ==>
      r.Node? && r.color == Black && InOrder(r) == InOrder(Bst.Insert(pol, t, key, Red))
  {
    if Bst.Search(pol, t, key).Some? then t
    else
      var h := Slot(pol, key, Zipper(t, Top));
      SlotIsDescend(pol, key, Zipper(t, Top));
      var leaf := Node(Nil, key, Red, Nil);
      var f := Fixup(Zipper(leaf, h.ctx));
      PlugNode(f.z.ctx, f.z.focus);
      PlugInOrder(h.ctx, leaf);
      Paint(Whole(f.z), Black)
  }
}
