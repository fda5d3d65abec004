/**
 * The unbalanced ordered dictionary `BinarySearchTree`: insert, search,
 * substring search, minimum, transplant, delete, height and the two path
 * queries used to animate a walk. All comparisons go through the policy of
 * module `Order`; no operation here needs the collation to be a total order,
 * only the lemmas about them do.
 */
module Bst {
  import opened Options
  import opened Strings
  import opened Order
  import opened Trees

  /** The ordering invariant: the in-order keys strictly increase under the policy. */
  ghost predicate Ordered(pol: Policy, t: Tree) {
    Sorted(pol, InOrder(t))
  }

  /** Some stored key is equal to `key` under the policy. */
  ghost predicate HasKey(pol: Policy, t: Tree, key: string) {
    exists x :: x in InOrder(t) && Equal(pol, x, key)
  }

  /** The child a walk toward `key` moves to from node `n`: left when `key` is less, right otherwise. */
  function Step(pol: Policy, key: string, n: Tree): Tree
    requires n.Node?
  {
    if Less(pol, key, n.key) then n.left else n.right
  }

  /**
   * The walk of `search` and `insert`: from the focused node, stop at a node
   * whose key is equal to `key` or at an empty child, moving left when `key`
   * is less and right otherwise. The returned handle stays in the same tree.
   */
  function Descend(pol: Policy, key: string, z: Zipper): (r: Zipper)
    ensures Whole(r) == Whole(z)
    ensures r.focus.Node? ==> Equal(pol, key, r.focus.key)
    decreases z.focus
  {
    match z.focus
    case Nil => z
    case Node(l, k, c, rt) =>
      if Equal(pol, key, k) then z
      else if Less(pol, key, k) then Descend(pol, key, Zipper(l, LeftHole(z.ctx, k, c, rt)))
      else Descend(pol, key, Zipper(rt, RightHole(l, k, c, z.ctx)))
  }

  /** `search`: a handle on a node whose key equals `key`, or `None` (`null`). */
  function Search(pol: Policy, t: Tree, key: string): (r: Option<Zipper>)
    ensures r.Some? ==> Whole(r.value) == t && r.value.focus.Node? && Equal(pol, r.value.focus.key, key)
  {
    var h := Descend(pol, key, Zipper(t, Top));
    if h.focus.Nil? then None else Some(h)
  }

  /**
   * `insert(key, color)`: when no equal key is found, a new leaf with the
   * caller's colour is linked in the empty child where the walk stopped; the
   * rest of the tree is untouched.
   */
  function Insert(pol: Policy, t: Tree, key: string, color: Color): (r: Tree)
    ensures r == t || exists h: Zipper :: h.focus.Nil? && Whole(h) == t && r == Plug(h.ctx, Node(Nil, key, color, Nil))
  {
    if Search(pol, t, key).Some? then t
    else
      var h := Descend(pol, key, Zipper(t, Top));
      if h.focus.Node? then t
      else
        assert Whole(h) == t;
        Plug(h.ctx, Node(Nil, key, color, Nil))
  }

  /** In an ordered subtree holding a key equal to `key`, the walk stops on a node. */
  lemma {:induction false} DescendFinds(pol: Policy, key: string, z: Zipper)
    requires Lawful(pol)
    requires Ordered(pol, z.focus) && HasKey(pol, z.focus, key)
    ensures Descend(pol, key, z).focus.Node?
    decreases z.focus
  {
    var Node(l, k, c, rt) := z.focus;
    if !Equal(pol, key, k) {
      SortedSplit(pol, InOrder(l), k, InOrder(rt));
      var x :| x in InOrder(z.focus) && Equal(pol, x, key);
      if Less(pol, key, k) {
        forall y | y in InOrder(rt)
          ensures !Equal(pol, y, key)
        {
          LessTransitive(pol, key, k, y);
          LessExcludes(pol, key, y);
        }
        assert x in InOrder(l);
        DescendFinds(pol, key, Zipper(l, LeftHole(z.ctx, k, c, rt)));
      } else {
        LessTrichotomy(pol, key, k);
        forall y | y in InOrder(l)
          ensures !Equal(pol, y, key)
        {
          LessTransitive(pol, y, k, key);
          LessExcludes(pol, y, key);
        }
        assert x in InOrder(rt);
        DescendFinds(pol, key, Zipper(rt, RightHole(l, k, c, z.ctx)));
      }
    }
  }

  /** `search` finds a node exactly when an equal key is stored (in an ordered tree). */
  lemma SearchCorrect(pol: Policy, t: Tree, key: string)
    requires Lawful(pol) && Ordered(pol, t)
    ensures Search(pol, t, key).Some? <==> HasKey(pol, t, key)
  {
    if HasKey(pol, t, key) {
      DescendFinds(pol, key, Zipper(t, Top));
    }
    var r := Search(pol, t, key);
    if r.Some? {
      PlugInOrder(r.value.ctx, r.value.focus);
      assert r.value.focus.key in InOrder(r.value.focus);
    }
  }

  /**
   * Where the walk reaches an empty child of an ordered subtree, every key
   * before the hole is less than `key` and every key after it is greater.
   */
  lemma {:induction false} DescendBrackets(pol: Policy, key: string, z: Zipper)
    requires Lawful(pol)
    requires Ordered(pol, z.focus)
    requires AllBelow(pol, Before(z.ctx), key) && AllAbove(pol, After(z.ctx), key)
    ensures var h := Descend(pol, key, z);
      h.focus.Nil? ==> AllBelow(pol, Before(h.ctx), key) && AllAbove(pol, After(h.ctx), key)
    decreases z.focus
  {
    if z.focus.Node? {
      var Node(l, k, c, rt) := z.focus;
      if !Equal(pol, key, k) {
        SortedSplit(pol, InOrder(l), k, InOrder(rt));
        if Less(pol, key, k) {
          var ctx := LeftHole(z.ctx, k, c, rt);
          forall y | y in InOrder(rt)
            ensures Less(pol, key, y)
          {
            LessTransitive(pol, key, k, y);
          }
          assert After(ctx) == [k] + InOrder(rt) + After(z.ctx);
          DescendBrackets(pol, key, Zipper(l, ctx));
        } else {
          LessTrichotomy(pol, key, k);
          var ctx := RightHole(l, k, c, z.ctx);
          forall y | y in InOrder(l)
            ensures Less(pol, y, key)
          {
            LessTransitive(pol, y, k, key);
          }
          assert Before(ctx) == Before(z.ctx) + InOrder(l) + [k];
          DescendBrackets(pol, key, Zipper(rt, ctx));
        }
      }
    }
  }

  /** Inserting a key equal to a stored one changes nothing. */
  lemma InsertExisting(pol: Policy, t: Tree, key: string, color: Color)
    requires Lawful(pol) && Ordered(pol, t) && HasKey(pol, t, key)
    ensures Insert(pol, t, key, color) == t
  {
    SearchCorrect(pol, t, key);
  }

  /**
   * Inserting a fresh key adds exactly that key, at the in-order position
   * between the smaller and the greater keys, and keeps the tree ordered.
   */
  lemma InsertFresh(pol: Policy, t: Tree, key: string, color: Color)
    requires Lawful(pol) && Ordered(pol, t) && !HasKey(pol, t, key)
    ensures var r := Insert(pol, t, key, color);
      && Ordered(pol, r)
      && Keys(r) == Keys(t) + {key}
      && exists i :: 0 <= i <= |InOrder(t)| && InOrder(r) == InOrder(t)[..i] + [key] + InOrder(t)[i..]
  {
    var r := Insert(pol, t, key, color);
    var b, a := InsertSplit(pol, t, key, color);
    SortedInsert(pol, b, key, a);
    var i := |b|;
    assert InOrder(t)[..i] == b && InOrder(t)[i..] == a;
    KeysOfInsert(b, key, a, t, r);
  }

  /** The in-order sequences before and after a fresh insertion, split at the new key. */
  lemma InsertSplit(pol: Policy, t: Tree, key: string, color: Color) returns (b: seq<string>, a: seq<string>)
    requires Lawful(pol) && Ordered(pol, t) && !HasKey(pol, t, key)
    ensures InOrder(t) == b + a && InOrder(Insert(pol, t, key, color)) == b + [key] + a
    ensures AllBelow(pol, b, key) && AllAbove(pol, a, key)
  {
    SearchCorrect(pol, t, key);
    var h := Descend(pol, key, Zipper(t, Top));
    assert h.focus.Nil?;
    var leaf := Node(Nil, key, color, Nil);
    assert Insert(pol, t, key, color) == Plug(h.ctx, leaf);
    PlugInOrder(h.ctx, Nil);
    PlugInOrder(h.ctx, leaf);
    DescendBrackets(pol, key, Zipper(t, Top));
    b, a := Before(h.ctx), After(h.ctx);
  }

  lemma KeysOfInsert(b: seq<string>, key: string, a: seq<string>, t: Tree, r: Tree)
    requires InOrder(t) == b + a && InOrder(r) == b + [key] + a
    ensures Keys(r) == Keys(t) + {key}
  {
    assert forall x :: x in InOrder(r) <==> x in InOrder(t) || x == key;
  }

  /** The walk, as the node sequence the path queries return. */
  function Walk(pol: Policy, t: Tree, key: string): (p: seq<Tree>)
    ensures IsWalk(pol, t, key, p)
    ensures |p| <= Height(t) + 1
  {
    match t
    case Nil => []
    case Node(l, k, _, r) =>
      if Equal(pol, key, k) then [t]
      else
        var rest := if Less(pol, key, k) then Walk(pol, l, key) else Walk(pol, r, key);
        WalkCons(pol, t, key, rest);
        [t] + rest
  }

  /** A walk from the child the key steps to, preceded by the node itself, is a walk from the node. */
  lemma WalkCons(pol: Policy, t: Tree, key: string, rest: seq<Tree>)
    requires t.Node? && !Equal(pol, key, t.key)
    requires IsWalk(pol, Step(pol, key, t), key, rest)
    ensures IsWalk(pol, t, key, [t] + rest)
  {
    var p := [t] + rest;
    assert forall i :: 0 <= i < |rest| ==> p[i + 1] == rest[i];
  }

  /**
   * What a path query promises: empty exactly for the empty tree, starting at
   * the root, each node the child of the previous one in the direction of
   * `key` while no equal key was met, and ending at the equal-key node or at a
   * node without a child in that direction.
   */
  ghost predicate IsWalk(pol: Policy, t: Tree, key: string, p: seq<Tree>) {
    && (p == [] <==> t.Nil?)
    && (p != [] ==> p[0] == t)
    && (forall i :: 0 <= i < |p| ==> p[i].Node?)
    && (forall i :: 0 <= i < |p| - 1 ==> !Equal(pol, key, p[i].key) && p[i + 1] == Step(pol, key, p[i]))
    && (p != [] ==> Equal(pol, key, p[|p| - 1].key) || Step(pol, key, p[|p| - 1]).Nil?)
  }

  /** The path query contract determines the path: it is the walk. */
  lemma {:induction false} WalkUnique(pol: Policy, t: Tree, key: string, p: seq<Tree>)
    requires IsWalk(pol, t, key, p)
    ensures p == Walk(pol, t, key)
    decreases t
  {
    if t.Node? {
      if Equal(pol, key, t.key) {
        assert |p| == 1;
      } else {
        var child := Step(pol, key, t);
        var q := p[1..];
        assert IsWalk(pol, child, key, q) by {
          if |p| > 1 {
            assert q[0] == child;
            assert forall i :: 0 <= i < |q| ==> q[i] == p[i + 1];
          }
        }
        WalkUnique(pol, child, key, q);
        assert p == [t] + q;
      }
    }
  }

  /** `getInsertionPath`: the nodes `insert` would visit; the tree is a value and is left as it was. */
  function InsertionPath(pol: Policy, t: Tree, key: string): (p: seq<Tree>)
    ensures IsWalk(pol, t, key, p)
    ensures |p| <= Height(t) + 1
  {
    Walk(pol, t, key)
  }

  /** `getSearchPath`: the same walk, used for found/not-found messages. */
  function SearchPath(pol: Policy, t: Tree, key: string): (p: seq<Tree>)
    ensures IsWalk(pol, t, key, p)
    ensures |p| <= Height(t) + 1
  {
    Walk(pol, t, key)
  }

  /** Both path queries return the one sequence satisfying the walk contract. */
  lemma PathQueriesAgree(pol: Policy, t: Tree, key: string, p: seq<Tree>)
    requires IsWalk(pol, t, key, p)
    ensures InsertionPath(pol, t, key) == p && SearchPath(pol, t, key) == p
  {
    WalkUnique(pol, t, key, p);
  }

  /**
   * The walk seen from a handle: `Descend` stops on the last node of the path
   * when that node holds an equal key, and otherwise in an empty child, on
   * the side of `key`, of that very node: the frame above the hole, closed
   * with the empty child, is the path's last node.
   */
  lemma {:induction false} DescendFollowsWalk(pol: Policy, key: string, z: Zipper)
    ensures var h := Descend(pol, key, z); var p := Walk(pol, z.focus, key);
      && (p == [] ==> h == z)
      && (p != [] && h.focus.Node? ==> h.focus == p[|p| - 1])
      && (p != [] && h.focus.Nil? ==> h.ctx != Top && Attach(h.ctx, Nil) == p[|p| - 1]
                                      && h.ctx.key == p[|p| - 1].key && !Equal(pol, key, p[|p| - 1].key)
                                      && (h.ctx.LeftHole? <==> Less(pol, key, p[|p| - 1].key)))
    decreases z.focus
  {
    if z.focus.Node? {
      var Node(l, k, c, rt) := z.focus;
      if !Equal(pol, key, k) {
        if Less(pol, key, k) {
          DescendFollowsWalk(pol, key, Zipper(l, LeftHole(z.ctx, k, c, rt)));
        } else {
          DescendFollowsWalk(pol, key, Zipper(rt, RightHole(l, k, c, z.ctx)));
        }
      }
    }
  }

  /**
   * `search` and `getSearchPath` agree: a node is found exactly when the path
   * ends on an equal key, and then it is the path's last node.
   */
  lemma SearchEndsSearchPath(pol: Policy, t: Tree, key: string)
    ensures var r := Search(pol, t, key); var p := SearchPath(pol, t, key);
      && (r.Some? <==> p != [] && Equal(pol, key, p[|p| - 1].key))
      && (r.Some? ==> r.value.focus == p[|p| - 1])
  {
    DescendFollowsWalk(pol, key, Zipper(t, Top));
  }

  /**
   * A fresh key is linked below the last node of the insertion path, on the
   * side its comparison chose, or becomes the root when the path is empty.
   */
  lemma InsertBelowPathEnd(pol: Policy, t: Tree, key: string, color: Color)
    requires Search(pol, t, key).None?
    ensures var p := InsertionPath(pol, t, key); var leaf := Node(Nil, key, color, Nil);
      && (p == [] ==> Insert(pol, t, key, color) == leaf)
      && (p != [] ==>
            exists ctx: Ctx ::
              && Insert(pol, t, key, color) == Plug(ctx, leaf)
              && ctx != Top
              && Attach(ctx, Nil) == p[|p| - 1]
              && ctx.key == p[|p| - 1].key
              && (ctx.LeftHole? <==> Less(pol, key, p[|p| - 1].key)))
  {
    DescendFollowsWalk(pol, key, Zipper(t, Top));
    var h := Descend(pol, key, Zipper(t, Top));
    assert Insert(pol, t, key, color) == Plug(h.ctx, Node(Nil, key, color, Nil));
  }

  function Max(a: int, b: int): int {
    if a < b then b else a
  }

  /** `getHeight`: −1 for the empty tree, else one more than the taller child; at most size − 1. */
  function Height(t: Tree): (h: int)
    ensures -1 <= h < Size(t)
    ensures h == -1 <==> t.Nil?
  {
    match t
    case Nil => -1
    case Node(l, _, _, r) => Max(Height(l), Height(r)) + 1
  }

  /** A downward path: starts at `t`, and each node is a child of the one before. */
  ghost predicate DownPath(t: Tree, p: seq<Tree>) {
    && |p| >= 1 && p[0] == t
    && (forall i :: 0 <= i < |p| ==> p[i].Node?)
    && (forall i :: 0 <= i < |p| - 1 ==> p[i + 1] == p[i].left || p[i + 1] == p[i].right)
  }

  /** No downward path has more than height + 1 nodes. */
  lemma {:induction false} DownPathBound(t: Tree, p: seq<Tree>)
    requires DownPath(t, p)
    ensures |p| <= Height(t) + 1
    decreases |p|
  {
    if |p| > 1 {
      var q := p[1..];
      assert forall i :: 0 <= i < |q| ==> q[i] == p[i + 1];
      DownPathBound(p[1], q);
    }
  }

  /** The height is reached: a downward path through the taller child has height + 1 nodes. */
  function DeepestPath(t: Tree): (p: seq<Tree>)
    requires t.Node?
    ensures DownPath(t, p) && |p| == Height(t) + 1
  {
    var Node(l, _, _, r) := t;
    if l.Nil? && r.Nil? then [t]
    else
      var q := if Height(l) >= Height(r) then DeepestPath(l) else DeepestPath(r);
      assert forall i :: 0 <= i < |q| ==> ([t] + q)[i + 1] == q[i];
      [t] + q
  }

  /** The stored keys, in order, whose normalized form contains `query`. */
  function Matching(pol: Policy, s: seq<string>, query: string): seq<string> {
    if s == [] then []
    else (if Includes(pol.normalize(s[0]), query) then [s[0]] else []) + Matching(pol, s[1..], query)
  }

  lemma {:induction false} MatchingAppend(pol: Policy, a: seq<string>, b: seq<string>, query: string)
    ensures Matching(pol, a + b, query) == Matching(pol, a, query) + Matching(pol, b, query)
    decreases |a|
  {
    if a == [] {
      assert a + b == b;
    } else {
      var head := if Includes(pol.normalize(a[0]), query) then [a[0]] else [];
      assert (a + b)[0] == a[0];
      assert (a + b)[1..] == a[1..] + b;
      MatchingAppend(pol, a[1..], b, query);
      assert Matching(pol, a + b, query) == head + (Matching(pol, a[1..], query) + Matching(pol, b, query));
    }
  }

  /**
   * `inOrderSearch`: the nodes of `t`, left to right, whose normalized key
   * contains `query`; each is a node of `t`.
   */
  function InOrderSearch(pol: Policy, t: Tree, query: string): (r: seq<Tree>)
    ensures |r| == |Matching(pol, InOrder(t), query)|
    ensures forall i :: 0 <= i < |r| ==> r[i].Node? && IsSubtree(r[i], t)
    ensures forall i :: 0 <= i < |r| ==> r[i].key == Matching(pol, InOrder(t), query)[i]
  {
    match t
    case Nil => []
    case Node(l, k, _, rt) =>
      var a := InOrderSearch(pol, l, query);
      var m := if Includes(pol.normalize(k), query) then [t] else [];
      var b := InOrderSearch(pol, rt, query);
      MatchingAppend(pol, InOrder(l) + [k], InOrder(rt), query);
      MatchingAppend(pol, InOrder(l), [k], query);
      assert Matching(pol, [k], query) == (if Includes(pol.normalize(k), query) then [k] else []);
      a + m + b
  }

  /** `findAll`: the in-order nodes whose normalized key contains the normalized query. */
  function FindAll(pol: Policy, t: Tree, query: string): (r: seq<Tree>)
    ensures |r| == |Matching(pol, InOrder(t), pol.normalize(query))|
    ensures forall i :: 0 <= i < |r| ==> r[i].Node? && IsSubtree(r[i], t)
    ensures forall i :: 0 <= i < |r| ==> r[i].key == Matching(pol, InOrder(t), pol.normalize(query))[i]
  {
    InOrderSearch(pol, t, pol.normalize(query))
  }

  /** Every text contains the empty text, so nothing is filtered out. */
  lemma {:induction false} MatchingEmpty(pol: Policy, s: seq<string>)
    ensures Matching(pol, s, "") == s
    decreases |s|
  {
    if s != [] {
      assert "" <= pol.normalize(s[0])[0..];
      MatchingEmpty(pol, s[1..]);
    }
  }

  /** A query that normalizes to the empty text (empty or blank) returns every node, in order. */
  lemma FindAllBlankQuery(pol: Policy, t: Tree, query: string)
    requires pol.normalize(query) == ""
    ensures var r := FindAll(pol, t, query);
      |r| == |InOrder(t)| && forall i :: 0 <= i < |r| ==> r[i].key == InOrder(t)[i]
  {
    MatchingEmpty(pol, InOrder(t));
  }

  /** The leftmost node of a non-empty tree. */
  function Leftmost(t: Tree): (m: Tree)
    requires t.Node?
    ensures m.Node? && m.left.Nil? && IsSubtree(m, t)
    ensures m.key == InOrder(t)[0]
  {
    if t.left.Nil? then t else Leftmost(t.left)
  }

  /**
   * `minimum(node)`: follow left children to the node with no left child. It
   * is the leftmost node, and no key of the tree lies between the start and it.
   */
  function Minimum(z: Zipper): (r: Zipper)
    requires z.focus.Node?
    ensures r.focus == Leftmost(z.focus)
    ensures Whole(r) == Whole(z)
    ensures Before(r.ctx) == Before(z.ctx)
    decreases z.focus
  {
    if z.focus.left.Nil? then z
    else Minimum(Zipper(z.focus.left, LeftHole(z.ctx, z.focus.key, z.focus.color, z.focus.right)))
  }

  /**
   * `transplant(u, v)`: `v` takes `u`'s place below `u`'s parent (or as the
   * root when `u` has none); the keys around that place keep their order.
   */
  function Transplant(u: Zipper, v: Tree): (r: Tree)
    ensures InOrder(r) == Before(u.ctx) + InOrder(v) + After(u.ctx)
    ensures u.ctx == Top ==> r == v
  {
    PlugInOrder(u.ctx, v);
    Plug(u.ctx, v)
  }

  /**
   * The right subtree of a two-child node once its least node `y` has been
   * lifted out (`delete`, second case): `y` below the top is replaced by its
   * right child; `y` at the top leaves its right child in its place.
   */
  function DetachMinimum(zr: Tree): (r: Tree)
    requires zr.Node?
    ensures InOrder(r) == InOrder(zr)[1..]
  {
    var y := Minimum(Zipper(zr, Top));
    PlugInOrder(y.ctx, y.focus);
    PlugInOrder(y.ctx, y.focus.right);
    assert InOrder(y.focus) == [y.focus.key] + InOrder(y.focus.right);
    if y.ctx != Top then Transplant(y, y.focus.right) else y.focus.right
  }

  /**
   * `delete(z)`: removes the node `z` from its tree. The in-order key
   * sequence loses exactly the entry at `z`'s position; nothing else moves.
   */
  function Delete(z: Zipper): (r: Tree)
    requires z.focus.Node?
    ensures var s := InOrder(Whole(z)); var i := |Before(z.ctx)| + |InOrder(z.focus.left)|;
      i < |s| && s[i] == z.focus.key && InOrder(r) == s[..i] + s[i + 1..]
  {
    FocusSplice(z);
    Transplant(z, Replacement(z.focus.left, z.focus.right))
  }

  /** The focused key sits between the keys before the handle plus its left subtree, and its right subtree plus the keys after. */
  lemma FocusSplice(z: Zipper)
    requires z.focus.Node?
    ensures var s := InOrder(Whole(z)); var i := |Before(z.ctx)| + |InOrder(z.focus.left)|;
      && i < |s| && s[i] == z.focus.key
      && s[..i] + s[i + 1..] == Before(z.ctx) + (InOrder(z.focus.left) + InOrder(z.focus.right)) + After(z.ctx)
  {
    PlugInOrder(z.ctx, z.focus);
    var Node(zl, zk, zc, zr) := z.focus;
    var b, a, l, g := Before(z.ctx), After(z.ctx), InOrder(zl), InOrder(zr);
    assert InOrder(Whole(z)) == b + (l + [zk] + g) + a;
    SpliceOut(b, l, zk, g, a);
  }

  /**
   * What takes the deleted node's place: the right child when there is no
   * left child, the left child when there is no right child, and otherwise
   * the least node of the right subtree, holding both remaining subtrees.
   */
  function Replacement(zl: Tree, zr: Tree): (v: Tree)
    ensures InOrder(v) == InOrder(zl) + InOrder(zr)
  {
    if zl.Nil? then zr
    else if zr.Nil? then zl
    else
      var y := Leftmost(zr);
      var right := DetachMinimum(zr);
      assert InOrder(zr) == [y.key] + InOrder(zr)[1..];
      Node(zl, y.key, y.color, right)
  }

  /** Positions in `b + l + [k] + g + a`: the entry at `|b| + |l|` is `k`; dropping it leaves `b + (l + g) + a`. */
  lemma SpliceOut(b: seq<string>, l: seq<string>, k: string, g: seq<string>, a: seq<string>)
    ensures var s := b + (l + [k] + g) + a; var i := |b| + |l|;
      i < |s| && s[i] == k && s[..i] + s[i + 1..] == b + (l + g) + a
  {
    var s := b + (l + [k] + g) + a;
    var i := |b| + |l|;
    assert s == (b + l) + [k] + (g + a);
    assert s[..i] == b + l;
    assert s[i + 1..] == g + a;
    assert (b + l) + (g + a) == b + (l + g) + a;
  }

  /**
   * With two children, the least node of the right subtree takes `z`'s place:
   * it adopts `z`'s left child and the rest of the right subtree, and keeps
   * its own colour.
   */
  lemma DeleteTwoChildren(z: Zipper)
    requires z.focus.Node? && z.focus.left.Node? && z.focus.right.Node?
    ensures var y := Leftmost(z.focus.right);
      exists s: Tree :: Delete(z) == Plug(z.ctx, Node(z.focus.left, y.key, y.color, s))
                       && InOrder(s) == InOrder(z.focus.right)[1..]
  {
    var y := Leftmost(z.focus.right);
    var s := DetachMinimum(z.focus.right);
    assert Replacement(z.focus.left, z.focus.right) == Node(z.focus.left, y.key, y.color, s);
  }

  /**
   * Deleting from an ordered tree keeps it ordered and removes exactly the
   * deleted node's key: searching for it afterwards finds nothing.
   */
  lemma DeleteRemovesKey(pol: Policy, z: Zipper)
    requires Lawful(pol) && z.focus.Node? && Ordered(pol, Whole(z))
    ensures var r := Delete(z);
      && Ordered(pol, r)
      && Keys(r) == Keys(Whole(z)) - {z.focus.key}
      && !HasKey(pol, r, z.focus.key)
      && Search(pol, r, z.focus.key).None?
  {
    var r := Delete(z);
    var s := InOrder(Whole(z));
    var i := |Before(z.ctx)| + |InOrder(z.focus.left)|;
    var rest := s[..i] + s[i + 1..];
    SortedRemove(pol, s, i);
    forall j | 0 <= j < |rest|
      ensures !Equal(pol, rest[j], s[i]) && rest[j] != s[i]
    {
      var k := if j < i then j else j + 1;
      assert rest[j] == s[k];
      SortedDistinct(pol, s, k, i);
    }
    forall x | x in s && x != s[i]
      ensures x in rest
    {
      var k :| 0 <= k < |s| && s[k] == x;
      if k < i {
        assert rest[k] == x;
      } else {
        assert rest[k - 1] == x;
      }
    }
    assert forall x :: x in Keys(r) <==> x in rest;
    assert forall x :: x in Keys(Whole(z)) <==> x in s;
    SearchCorrect(pol, r, z.focus.key);
  }
}
