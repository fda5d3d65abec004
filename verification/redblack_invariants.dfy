/**
 * Why `RedBlack.Insert` keeps the red-black invariants, and what they buy:
 * a height logarithmic in the number of keys. Also why the inherited
 * delete does not keep them.
 */
module RedBlackInvariants {
  import opened Order
  import opened Trees
  import opened RedBlack
  import Bst

  /**
   * The siblings met going up from a hole are balanced, with the black
   * height a subtree of black height `h` in the hole needs.
   */
  ghost predicate CtxBalanced(ctx: Ctx, h: nat)
    decreases ctx
  {
    match ctx
    case Top => true
    case LeftHole(up, _, c, r) => Balanced(r) && BlackHeight(r) == h && CtxBalanced(up, h + Inc(c))
    case RightHole(l, _, c, up) => Balanced(l) && BlackHeight(l) == h && CtxBalanced(up, h + Inc(c))
  }

  /**
   * No red-red pair around the holes of the context, given whether the
   * subtree in the hole has a red root (`childRed`).
   */
  ghost predicate CtxNoRedRed(ctx: Ctx, childRed: bool)
    decreases ctx
  {
    match ctx
    case Top => true
    case LeftHole(up, _, c, r) => NoRedRed(r) && (c == Red ==> !childRed && !IsRed(r)) && CtxNoRedRed(up, c == Red)
    case RightHole(l, _, c, up) => NoRedRed(l) && (c == Red ==> !childRed && !IsRed(l)) && CtxNoRedRed(up, c == Red)
  }

  /** A tree in a context is balanced exactly when the subtree and the context are. */
  lemma {:induction false} PlugBalanced(ctx: Ctx, t: Tree)
    ensures Balanced(Plug(ctx, t)) <==> Balanced(t) && CtxBalanced(ctx, BlackHeight(t))
    decreases ctx
  {
    match ctx
    case Top =>
    case LeftHole(up, k, c, r) => PlugBalanced(up, Node(t, k, c, r));
    case RightHole(l, k, c, up) => PlugBalanced(up, Node(l, k, c, t));
  }

  /** A tree in a context has no red-red pair exactly when neither the subtree nor the context has one. */
  lemma {:induction false} PlugNoRedRed(ctx: Ctx, t: Tree)
    ensures NoRedRed(Plug(ctx, t)) <==> NoRedRed(t) && CtxNoRedRed(ctx, IsRed(t))
    decreases ctx
  {
    match ctx
    case Top =>
    case LeftHole(up, k, c, r) => PlugNoRedRed(up, Node(t, k, c, r));
    case RightHole(l, k, c, up) => PlugNoRedRed(up, Node(l, k, c, t));
  }

  /**
   * The fixup loop invariant: `z` is a red node whose subtree is a valid
   * red-black subtree of the right black height, and the only possible
   * violation in the whole tree is `z`'s parent being red too.
   */
  ghost predicate FixInv(z: Zipper) {
    && z.focus.Node? && z.focus.color == Red
    && Balanced(z.focus) && NoRedRed(z.focus)
    && CtxBalanced(z.ctx, BlackHeight(z.focus))
    && CtxNoRedRed(z.ctx, false)
  }

  lemma RecolorUpKeeps(z: Zipper)
    requires FixInv(z) && ParentRed(z.ctx) && z.ctx.up != Top
    requires if z.ctx.up.LeftHole? then IsRed(z.ctx.up.right) else IsRed(z.ctx.up.left)
    ensures FixInv(RecolorUp(z))
  {
    var p, g, zf := z.ctx, z.ctx.up, z.focus;
    var h := BlackHeight(zf);
    var sib := if p.LeftHole? then p.right else p.left;
    var u := if g.LeftHole? then g.right else g.left;
    assert Balanced(sib) && BlackHeight(sib) == h && NoRedRed(sib) && !IsRed(sib);
    assert CtxBalanced(g, h) && CtxNoRedRed(g, true);
    assert Balanced(u) && BlackHeight(u) == h && NoRedRed(u);
    assert g.color != Red && CtxBalanced(g.up, h + 1) && CtxNoRedRed(g.up, false);
    var parent := Paint(Attach(p, zf), Black);
    assert Balanced(parent) && BlackHeight(parent) == h + 1 && NoRedRed(parent);
    var uncle := Paint(u, Black);
    assert Balanced(uncle) && BlackHeight(uncle) == h + 1 && NoRedRed(uncle);
  }

  lemma RotateParentLeftKeeps(z: Zipper)
    requires FixInv(z) && ParentRed(z.ctx) && z.ctx.RightHole?
    ensures FixInv(RotateParentLeft(z)) && ParentRed(RotateParentLeft(z).ctx)
  {
  }

  lemma RotateParentRightKeeps(z: Zipper)
    requires FixInv(z) && ParentRed(z.ctx) && z.ctx.LeftHole?
    ensures FixInv(RotateParentRight(z)) && ParentRed(RotateParentRight(z).ctx)
  {
  }

  lemma RotateGrandRightKeeps(z: Zipper)
    requires FixInv(z) && ParentRed(z.ctx) && z.ctx.LeftHole? && z.ctx.up.LeftHole? && !IsRed(z.ctx.up.right)
    ensures FixInv(RotateGrandRight(z))
  {
    var p, g, zf := z.ctx, z.ctx.up, z.focus;
    var h := BlackHeight(zf);
    var b, u := p.right, g.right;
    assert Balanced(b) && BlackHeight(b) == h && NoRedRed(b) && !IsRed(b);
    assert CtxBalanced(g, h) && CtxNoRedRed(g, true);
    assert Balanced(u) && BlackHeight(u) == h && NoRedRed(u);
    assert g.color != Red && CtxBalanced(g.up, h + 1) && CtxNoRedRed(g.up, false);
    var s := Node(b, g.key, Red, u);
    assert Balanced(s) && BlackHeight(s) == h && NoRedRed(s);
    assert RotateGrandRight(z) == Zipper(zf, LeftHole(g.up, p.key, Black, s));
  }

  lemma RotateGrandLeftKeeps(z: Zipper)
    requires FixInv(z) && ParentRed(z.ctx) && z.ctx.RightHole? && z.ctx.up.RightHole? && !IsRed(z.ctx.up.left)
    ensures FixInv(RotateGrandLeft(z))
  {
    var p, g, zf := z.ctx, z.ctx.up, z.focus;
    var h := BlackHeight(zf);
    var b, u := p.left, g.left;
    assert Balanced(b) && BlackHeight(b) == h && NoRedRed(b) && !IsRed(b);
    assert CtxBalanced(g, h) && CtxNoRedRed(g, true);
    assert Balanced(u) && BlackHeight(u) == h && NoRedRed(u);
    assert g.color != Red && CtxBalanced(g.up, h + 1) && CtxNoRedRed(g.up, false);
    var s := Node(u, g.key, Red, b);
    assert Balanced(s) && BlackHeight(s) == h && NoRedRed(s);
    assert RotateGrandLeft(z) == Zipper(zf, RightHole(s, p.key, Black, g.up));
  }

  /** Each pass of the loop keeps the invariant. */
  lemma FixStepKeeps(z: Zipper)
    requires FixInv(z) && ParentRed(z.ctx) && z.ctx.up != Top
    ensures FixInv(FixStep(z).z)
  {
    var g := z.ctx.up;
    if g.LeftHole? {
      if IsRed(g.right) {
        RecolorUpKeeps(z);
      } else if z.ctx.RightHole? {
        RotateParentLeftKeeps(z);
        RotateGrandRightKeeps(RotateParentLeft(z));
      } else {
        RotateGrandRightKeeps(z);
      }
    } else {
      if IsRed(g.left) {
        RecolorUpKeeps(z);
      } else if z.ctx.LeftHole? {
        RotateParentRightKeeps(z);
        RotateGrandLeftKeeps(RotateParentRight(z));
      } else {
        RotateGrandLeftKeeps(z);
      }
    }
  }

  /** The loop keeps the invariant to its exit. */
  lemma {:induction false} FixupKeeps(z: Zipper)
    requires FixInv(z)
    ensures FixInv(Fixup(z).z)
    decreases Depth(z.ctx)
  {
    if !Done(z) {
      FixStepKeeps(z);
      FixupKeeps(FixStep(z).z);
    }
  }

  /** Painting the root black after the loop leaves a red-black tree. */
  lemma DoneRepaired(z: Zipper)
    requires FixInv(z) && Done(z)
    ensures IsRedBlack(Paint(Whole(z), Black))
  {
    if ParentRed(z.ctx) {
      PlugUp(z.ctx, z.focus);
    } else {
      assert CtxNoRedRed(z.ctx, true);
      PlugBalanced(z.ctx, z.focus);
      PlugNoRedRed(z.ctx, z.focus);
      PlugNode(z.ctx, z.focus);
    }
  }

  /** Red-black insert keeps the red-black invariants. */
  lemma InsertKeepsRedBlack(pol: Policy, t: Tree, key: string)
    requires IsRedBlack(t)
    ensures IsRedBlack(RedBlack.Insert(pol, t, key))
  {
    if Bst.Search(pol, t, key).None? {
      var h := Slot(pol, key, Zipper(t, Top));
      PlugBalanced(h.ctx, Nil);
      PlugNoRedRed(h.ctx, Nil);
      var z := Zipper(Node(Nil, key, Red, Nil), h.ctx);
      assert FixInv(z);
      FixupKeeps(z);
      DoneRepaired(Fixup(z).z);
    }
  }

  /** Inserting the keys one after another, in order. */
  function InsertAll(pol: Policy, t: Tree, keys: seq<string>): Tree
    decreases |keys|
  {
    if keys == [] then t else InsertAll(pol, RedBlack.Insert(pol, t, keys[0]), keys[1..])
  }

  /** Every sequence of inserts, starting from the empty tree or any red-black tree, keeps the invariants. */
  lemma {:induction false} InsertAllKeepsRedBlack(pol: Policy, t: Tree, keys: seq<string>)
    requires IsRedBlack(t)
    ensures IsRedBlack(InsertAll(pol, t, keys))
    decreases |keys|
  {
    if keys != [] {
      InsertKeepsRedBlack(pol, t, keys[0]);
      InsertAllKeepsRedBlack(pol, RedBlack.Insert(pol, t, keys[0]), keys[1..]);
    }
  }

  /** A key equal to a stored one leaves the balanced tree unchanged. */
  lemma InsertExisting(pol: Policy, t: Tree, key: string)
    requires Lawful(pol) && Bst.Ordered(pol, t) && Bst.HasKey(pol, t, key)
    ensures RedBlack.Insert(pol, t, key) == t
  {
    Bst.SearchCorrect(pol, t, key);
  }

  /**
   * A fresh key is added, exactly, at its in-order position; the balanced
   * tree stays ordered.
   */
  lemma InsertFresh(pol: Policy, t: Tree, key: string)
    requires Lawful(pol) && Bst.Ordered(pol, t) && !Bst.HasKey(pol, t, key)
    ensures var r := RedBlack.Insert(pol, t, key);
      && Bst.Ordered(pol, r)
      && Keys(r) == Keys(t) + {key}
      && exists i :: 0 <= i <= |InOrder(t)| && InOrder(r) == InOrder(t)[..i] + [key] + InOrder(t)[i..]
  {
    Bst.SearchCorrect(pol, t, key);
    Bst.InsertFresh(pol, t, key, Red);
    var r := RedBlack.Insert(pol, t, key);
    var b := Bst.Insert(pol, t, key, Red);
    assert InOrder(r) == InOrder(b);
    assert forall x :: x in Keys(r) <==> x in InOrder(r);
    assert forall x :: x in Keys(b) <==> x in InOrder(b);
  }

  function Pow2(n: nat): nat {
    if n == 0 then 1 else 2 * Pow2(n - 1)
  }

  lemma {:induction false} Pow2Monotone(m: nat, n: nat)
    requires m <= n
    ensures Pow2(m) <= Pow2(n)
    decreases n
  {
    if m < n {
      Pow2Monotone(m, n - 1);
    }
  }

  /** A balanced tree of black height `bh` has at least 2^bh − 1 nodes. */
  lemma {:induction false} SizeAtLeast(t: Tree)
    requires Balanced(t)
    ensures Pow2(BlackHeight(t)) <= Size(t) + 1
  {
    if t.Node? {
      SizeAtLeast(t.left);
      SizeAtLeast(t.right);
    }
  }

  /** With no red-red pair, a path is at most twice as long as its black part (plus a red root). */
  lemma {:induction false} HeightAtMost(t: Tree)
    requires Balanced(t) && NoRedRed(t)
    ensures Bst.Height(t) + 1 <= 2 * BlackHeight(t) + (if IsRed(t) then 1 else 0)
  {
    if t.Node? {
      HeightAtMost(t.left);
      HeightAtMost(t.right);
    }
  }

  /**
   * The height bound of a red-black tree: 2^((height + 1) / 2) ≤ n + 1, that
   * is, height ≤ 2·log2(n + 1).
   */
  lemma RedBlackHeight(t: Tree)
    requires IsRedBlack(t)
    ensures Pow2((Bst.Height(t) + 1) / 2) <= Size(t) + 1
  {
    HeightAtMost(t);
    SizeAtLeast(t);
    Pow2Monotone((Bst.Height(t) + 1) / 2, BlackHeight(t));
  }

  /**
   * Delete is inherited without a fixup: deleting the root of the valid tree
   * B(A, C) with red children lifts the red successor C to the root, above
   * the red A.
   */
  lemma DeleteMayLeaveRedRoot()
    ensures var t := Node(Node(Nil, "A", Red, Nil), "B", Black, Node(Nil, "C", Red, Nil));
      var r := Bst.Delete(Zipper(t, Top));
      && IsRedBlack(t)
      && r == Node(Node(Nil, "A", Red, Nil), "C", Red, Nil)
      && InOrder(r) == ["A", "C"]
      && !IsRedBlack(r) && !NoRedRed(r)
  {
    var c := Node(Nil, "C", Red, Nil);
    assert Bst.DetachMinimum(c) == Nil;
  }

  /**
   * Deleting a black leaf of the all-black tree B(A, C) leaves paths with
   * different numbers of black nodes.
   */
  lemma DeleteMayUnbalance()
    ensures var t := Node(Node(Nil, "A", Black, Nil), "B", Black, Node(Nil, "C", Black, Nil));
      var r := Bst.Delete(Zipper(t.left, LeftHole(Top, "B", Black, t.right)));
      && IsRedBlack(t)
      && r == Node(Nil, "B", Black, Node(Nil, "C", Black, Nil))
      && !Balanced(r)
  {
  }
}
