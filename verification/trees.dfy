/**
 * The node structure shared by both search trees. A node owns its two
 * children; its parent back-link is represented by a zipper: a focused
 * subtree together with the chain of parent frames above it. A zipper is the
 * model of a `TreeNode` handle: `u.p === null` holds exactly when its context
 * is `Top`, and plugging the focus back into the context gives the whole tree.
 */
module Trees {

  /** RED and BLACK are structural in the red-black tree; GREEN and BLUE are labels of the plain tree. */
  datatype Color = Red | Black | Green | Blue

  datatype Tree = Nil | Node(left: Tree, key: string, color: Color, right: Tree)

  /** The frames above a focused subtree, nearest parent first. */
  datatype Ctx =
    | Top
      /** The hole is the left child of a node with this key, colour and right subtree. */
    | LeftHole(up: Ctx, key: string, color: Color, right: Tree)
      /** The hole is the right child of a node with this left subtree, key and colour. */
    | RightHole(left: Tree, key: string, color: Color, up: Ctx)

  datatype Zipper = Zipper(focus: Tree, ctx: Ctx)

  /** Rebuilds the whole tree around a subtree placed in the hole of `ctx`. */
  function Plug(ctx: Ctx, t: Tree): Tree
    decreases ctx
  {
    match ctx
    case Top => t
    case LeftHole(up, k, c, r) => Plug(up, Node(t, k, c, r))
    case RightHole(l, k, c, up) => Plug(up, Node(l, k, c, t))
  }

  /** The tree a node handle belongs to. */
  function Whole(z: Zipper): Tree {
    Plug(z.ctx, z.focus)
  }

  /** Number of ancestors of the hole. */
  function Depth(ctx: Ctx): nat {
    match ctx
    case Top => 0
    case LeftHole(up, _, _, _) => Depth(up) + 1
    case RightHole(_, _, _, up) => Depth(up) + 1
  }

  function Size(t: Tree): nat {
    match t
    case Nil => 0
    case Node(l, _, _, r) => Size(l) + 1 + Size(r)
  }

  /** The keys in in-order (left, node, right) sequence. */
  function InOrder(t: Tree): seq<string>
  {
    match t
    case Nil => []
    case Node(l, k, _, r) => InOrder(l) + [k] + InOrder(r)
  }

  /** The set of keys stored in the tree. */
  function Keys(t: Tree): set<string> {
    set x | x in InOrder(t)
  }

  /** One level of plugging: the parent node of the hole, holding `t`. */
  function Attach(f: Ctx, t: Tree): Tree
    requires f != Top
  {
    if f.LeftHole? then Node(t, f.key, f.color, f.right) else Node(f.left, f.key, f.color, t)
  }

  /** The keys the context places before its hole in in-order sequence. */
  function Before(ctx: Ctx): seq<string> {
    match ctx
    case Top => []
    case LeftHole(up, _, _, _) => Before(up)
    case RightHole(l, k, _, up) => Before(up) + InOrder(l) + [k]
  }

  /** The keys the context places after its hole in in-order sequence. */
  function After(ctx: Ctx): seq<string> {
    match ctx
    case Top => []
    case LeftHole(up, k, _, r) => [k] + InOrder(r) + After(up)
    case RightHole(_, _, _, up) => After(up)
  }

  /** Plugging places the subtree's keys between the context's keys. */
  lemma {:induction false} PlugInOrder(ctx: Ctx, t: Tree)
    ensures InOrder(Plug(ctx, t)) == Before(ctx) + InOrder(t) + After(ctx)
    decreases ctx
  {
    match ctx
    case Top =>
    case LeftHole(up, k, c, r) =>
      PlugInOrder(up, Node(t, k, c, r));
      var b, a, it, ir := Before(up), After(up), InOrder(t), InOrder(r);
      assert InOrder(Node(t, k, c, r)) == it + [k] + ir;
      assert After(ctx) == [k] + ir + a;
      assert b + (it + [k] + ir) + a == b + it + ([k] + ir + a);
    case RightHole(l, k, c, up) =>
      PlugInOrder(up, Node(l, k, c, t));
      var b, a, il, it := Before(up), After(up), InOrder(l), InOrder(t);
      assert InOrder(Node(l, k, c, t)) == il + [k] + it;
      assert Before(ctx) == b + il + [k];
      assert b + (il + [k] + it) + a == (b + il + [k]) + it + a;
  }

  /** `s` is the subtree rooted at some node of `t`, or `t` itself. */
  ghost predicate IsSubtree(s: Tree, t: Tree) {
    s == t || (t.Node? && (IsSubtree(s, t.left) || IsSubtree(s, t.right)))
  }
}
