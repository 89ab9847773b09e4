/** Shapes of red-black trees over heap nodes, free of the heap.

    A `Tree` records how the links and colours of a tree are meant to look; a `Ctx` is the path from a
    subtree up to the root (a zipper). `Zip` says that a snapshot of the heap agrees with such a picture.
    Everything here is about values, so the methods in RbTree only have to relate their few field
    writes to one step of a picture. */
module RbShape {

  datatype Color = Red | Black

  class Node {
    var key: nat
    var color: Color
    var data: object?
    var left: Node?
    var right: Node?
    var parent: Node?

    constructor ()
      ensures key == 0 && parent == null
    {
      key, color, data := 0, Black, null;
      left, right, parent := null, null, null;
    }
  }

  datatype Tree = Leaf | Fork(left: Tree, node: Node, color: Color, right: Tree)

  datatype Ctx =
    | Top
    | InLeft(up: Ctx, node: Node, color: Color, sibling: Tree)
    | InRight(up: Ctx, node: Node, color: Color, sibling: Tree)

  // ---------- contents ----------

  ghost function Nodes(t: Tree): set<Node> {
    if t.Leaf? then {} else Nodes(t.left) + {t.node} + Nodes(t.right)
  }

  ghost function CtxNodes(c: Ctx): set<Node> {
    if c.Top? then {} else CtxNodes(c.up) + {c.node} + Nodes(c.sibling)
  }

  ghost function InOrder(t: Tree): seq<Node> {
    if t.Leaf? then [] else InOrder(t.left) + [t.node] + InOrder(t.right)
  }

  ghost predicate Distinct(t: Tree) {
    t.Fork? ==>
      && t.node !in Nodes(t.left) && t.node !in Nodes(t.right)
      && Nodes(t.left) !! Nodes(t.right)
      && Distinct(t.left) && Distinct(t.right)
  }

  ghost predicate CtxDistinct(c: Ctx) {
    !c.Top? ==>
      && c.node !in CtxNodes(c.up) && c.node !in Nodes(c.sibling)
      && CtxNodes(c.up) !! Nodes(c.sibling)
      && CtxDistinct(c.up) && Distinct(c.sibling)
  }

  // ---------- zipper ----------

  /** The subtree one level up. */
  ghost function Wrap(c: Ctx, t: Tree): Tree
    requires !c.Top?
  {
    if c.InLeft? then Fork(t, c.node, c.color, c.sibling) else Fork(c.sibling, c.node, c.color, t)
  }

  ghost function Plug(c: Ctx, t: Tree): Tree {
    if c.Top? then t else Plug(c.up, Wrap(c, t))
  }

  ghost function Depth(c: Ctx): nat {
    if c.Top? then 0 else 1 + Depth(c.up)
  }

  /** `inner` below `outer`. */
  ghost function Append(inner: Ctx, outer: Ctx): Ctx {
    match inner
    case Top => outer
    case InLeft(up, n, c, sib) => InLeft(Append(up, outer), n, c, sib)
    case InRight(up, n, c, sib) => InRight(Append(up, outer), n, c, sib)
  }

  // ---------- red-black conditions ----------

  ghost predicate IsRed(t: Tree) { t.Fork? && t.color == Red }

  /** No red node has a red child. */
  ghost predicate RedOk(t: Tree) {
    t.Fork? ==>
      && RedOk(t.left) && RedOk(t.right)
      && (t.color == Red ==> !IsRed(t.left) && !IsRed(t.right))
  }

  ghost function BlackHeight(t: Tree): nat {
    if t.Leaf? then 0 else BlackHeight(t.left) + if t.color == Black then 1 else 0
  }

  /** Every path from a node to a leaf below it passes the same number of black nodes. */
  ghost predicate Balanced(t: Tree) {
    t.Fork? ==> Balanced(t.left) && Balanced(t.right) && BlackHeight(t.left) == BlackHeight(t.right)
  }

  ghost predicate RedBlack(t: Tree) {
    !IsRed(t) && RedOk(t) && Balanced(t)
  }

  /** The path has no red node with a red child, and ends in a black root. The hole does not count. */
  ghost predicate CtxRedOk(c: Ctx) {
    !c.Top? ==>
      && RedOk(c.sibling) && CtxRedOk(c.up)
      && (c.color == Red ==> !IsRed(c.sibling) && c.up != Top && c.up.color == Black)
  }

  /** Filling the hole with a balanced tree of black height `h` gives a balanced tree. */
  ghost predicate CtxBalanced(c: Ctx, h: nat) {
    !c.Top? ==>
      && Balanced(c.sibling) && BlackHeight(c.sibling) == h
      && CtxBalanced(c.up, h + if c.color == Black then 1 else 0)
  }

  ghost function Paint(t: Tree, color: Color): Tree {
    if t.Leaf? then t else Fork(t.left, t.node, color, t.right)
  }

  ghost function RotL(t: Tree): Tree
    requires t.Fork? && t.right.Fork?
  {
    Fork(Fork(t.left, t.node, t.color, t.right.left), t.right.node, t.right.color, t.right.right)
  }

  ghost function RotR(t: Tree): Tree
    requires t.Fork? && t.left.Fork?
  {
    Fork(t.left.left, t.left.node, t.left.color, Fork(t.left.right, t.node, t.color, t.right))
  }

  // ---------- pictures of the heap ----------

  datatype Cell = Cell(left: Node?, right: Node?, parent: Node?, color: Color)

  type Memory = map<Node, Cell>

  ghost function RootOf(t: Tree, s: Node): Node {
    if t.Leaf? then s else t.node
  }

  /** Memory `m` shows the links and colours of `t`, where absent children are `s`.
      Nothing is said of the parent of the topmost node. */
  ghost predicate Sub(t: Tree, s: Node, m: Memory) {
    t.Fork? ==>
      && t.node in m
      && m[t.node].left == RootOf(t.left, s) && m[t.node].right == RootOf(t.right, s)
      && m[t.node].color == t.color
      && Sub(t.left, s, m) && Sub(t.right, s, m)
      && (t.left.Fork? ==> m[t.left.node].parent == t.node)
      && (t.right.Fork? ==> m[t.right.node].parent == t.node)
  }

  /** The same for a path whose hole is filled by a tree rooted at `hole`. */
  ghost predicate CtxSub(c: Ctx, hole: Node, root: Node, s: Node, m: Memory) {
    if c.Top? then root == hole else
      && c.node in m
      && m[c.node].left == (if c.InLeft? then hole else RootOf(c.sibling, s))
      && m[c.node].right == (if c.InLeft? then RootOf(c.sibling, s) else hole)
      && m[c.node].color == c.color
      && Sub(c.sibling, s, m)
      && (hole != s ==> hole in m && m[hole].parent == c.node)
      && (c.sibling.Fork? ==> m[c.sibling.node].parent == c.node)
      && CtxSub(c.up, c.node, root, s, m)
  }

  /** The memory pictures tree `t` at path `c`, all nodes different and none of them the sentinel. */
  ghost predicate Zip(c: Ctx, t: Tree, root: Node, s: Node, m: Memory) {
    && Distinct(t) && CtxDistinct(c) && Nodes(t) !! CtxNodes(c)
    && s !in Nodes(t) && s !in CtxNodes(c)
    && Sub(t, s, m) && CtxSub(c, RootOf(t, s), root, s, m)
  }

  ghost predicate Same(m: Memory, m': Memory, ns: set<Node>) {
    forall n :: n in ns && n in m ==> n in m' && m'[n] == m[n]
  }

  // ---------- frame lemmas ----------

  lemma {:induction false} SubFrame(t: Tree, s: Node, m: Memory, m': Memory)
    requires Sub(t, s, m) && Same(m, m', Nodes(t))
    ensures Sub(t, s, m')
  {
    if t.Fork? {
      SubFrame(t.left, s, m, m');
      SubFrame(t.right, s, m, m');
    }
  }

  /** The topmost node may have got another parent. */
  lemma {:induction false} SubReparent(t: Tree, s: Node, m: Memory, m': Memory)
    requires Sub(t, s, m) && Distinct(t)
    requires t.Fork? ==> Same(m, m', Nodes(t) - {t.node})
    requires t.Fork? ==> t.node in m' && m'[t.node] == m[t.node].(parent := m'[t.node].parent)
    ensures Sub(t, s, m')
  {
    if t.Fork? {
      SubFrame(t.left, s, m, m');
      SubFrame(t.right, s, m, m');
    }
  }

  lemma {:induction false} CtxFrame(c: Ctx, hole: Node, root: Node, s: Node, m: Memory, m': Memory)
    requires CtxSub(c, hole, root, s, m) && Same(m, m', CtxNodes(c))
    requires s !in CtxNodes(c)
    requires !c.Top? && hole != s ==> hole in m' && m'[hole].parent == m[hole].parent
    ensures CtxSub(c, hole, root, s, m')
  {
    if !c.Top? {
      SubFrame(c.sibling, s, m, m');
      CtxFrame(c.up, c.node, root, s, m, m');
    }
  }

  /** What is left of a path when its innermost node has got another child on the side of the hole. */
  lemma CtxRehole(c: Ctx, hole: Node, root: Node, s: Node, m: Memory, hole': Node, root': Node, m': Memory)
    requires CtxSub(c, hole, root, s, m) && CtxDistinct(c) && s !in CtxNodes(c)
    requires if c.Top? then root' == hole' else root' == root
    requires !c.Top? ==> Same(m, m', CtxNodes(c) - {c.node}) && c.node in m'
    requires c.InLeft? ==> m'[c.node] == m[c.node].(left := hole')
    requires c.InRight? ==> m'[c.node] == m[c.node].(right := hole')
    requires !c.Top? && hole' != s ==> hole' in m' && m'[hole'].parent == c.node
    ensures CtxSub(c, hole', root', s, m')
  {
    if !c.Top? {
      SubFrame(c.sibling, s, m, m');
      CtxFrame(c.up, c.node, root, s, m, m');
    }
  }

  // ---------- moving in a picture ----------

  lemma ZipUp(c: Ctx, t: Tree, root: Node, s: Node, m: Memory)
    requires !c.Top?
    ensures Zip(c, t, root, s, m) <==> Zip(c.up, Wrap(c, t), root, s, m)
  {
    var w := Wrap(c, t);
    assert Nodes(w) == Nodes(t) + {c.node} + Nodes(c.sibling);
    assert CtxNodes(c) == CtxNodes(c.up) + {c.node} + Nodes(c.sibling);
    assert RootOf(w, s) == c.node;
    if Zip(c, t, root, s, m) {
      assert Sub(w, s, m);
    }
    if Zip(c.up, w, root, s, m) {
      assert Sub(t, s, m);
    }
  }

  lemma {:induction false} PlugNodes(c: Ctx, t: Tree)
    ensures Nodes(Plug(c, t)) == CtxNodes(c) + Nodes(t)
  {
    if !c.Top? { PlugNodes(c.up, Wrap(c, t)); }
  }

  /** Taking one step down from the focus. */
  ghost function Descend(c: Ctx, t: Tree, goLeft: bool): Ctx
    requires t.Fork?
  {
    if goLeft then InLeft(c, t.node, t.color, t.right) else InRight(c, t.node, t.color, t.left)
  }

  ghost function Child(t: Tree, goLeft: bool): Tree
    requires t.Fork?
  {
    if goLeft then t.left else t.right
  }

  lemma ZipDown(c: Ctx, t: Tree, goLeft: bool, root: Node, s: Node, m: Memory)
    requires Zip(c, t, root, s, m) && t.Fork?
    ensures Zip(Descend(c, t, goLeft), Child(t, goLeft), root, s, m)
    ensures Plug(Descend(c, t, goLeft), Child(t, goLeft)) == Plug(c, t)
    ensures t.node in m && RootOf(Child(t, goLeft), s) == if goLeft then m[t.node].left else m[t.node].right
  {
    ZipUp(Descend(c, t, goLeft), Child(t, goLeft), root, s, m);
  }

  lemma {:induction false} ZipAll(c: Ctx, t: Tree, root: Node, s: Node, m: Memory)
    requires Zip(c, t, root, s, m)
    ensures Zip(Top, Plug(c, t), root, s, m)
  {
    if !c.Top? {
      ZipUp(c, t, root, s, m);
      ZipAll(c.up, Wrap(c, t), root, s, m);
    }
  }

  lemma {:induction false} ZipAppend(inner: Ctx, outer: Ctx, t: Tree, root: Node, s: Node, m: Memory)
    requires Zip(outer, Plug(inner, t), root, s, m)
    ensures Zip(Append(inner, outer), t, root, s, m)
  {
    if !inner.Top? {
      ZipAppend(inner.up, outer, Wrap(inner, t), root, s, m);
      ZipUp(Append(inner, outer), t, root, s, m);
    }
  }

  /** Any node of a pictured tree can be brought into focus. */
  lemma {:induction false} Locate(c: Ctx, t: Tree, n: Node, root: Node, s: Node, m: Memory) returns (c': Ctx, t': Tree)
    requires Zip(c, t, root, s, m) && n in Nodes(t)
    ensures t'.Fork? && t'.node == n && Plug(c', t') == Plug(c, t)
    ensures Zip(c', t', root, s, m)
    decreases t
  {
    if t.node == n {
      c', t' := c, t;
    } else if n in Nodes(t.left) {
      ZipUp(InLeft(c, t.node, t.color, t.right), t.left, root, s, m);
      c', t' := Locate(InLeft(c, t.node, t.color, t.right), t.left, n, root, s, m);
    } else {
      ZipUp(InRight(c, t.node, t.color, t.left), t.right, root, s, m);
      c', t' := Locate(InRight(c, t.node, t.color, t.left), t.right, n, root, s, m);
    }
  }

  // ---------- leftmost nodes ----------

  ghost predicate OnlyLeft(c: Ctx) {
    !c.Top? ==> c.InLeft? && OnlyLeft(c.up)
  }

  lemma {:induction false} AppendNodes(inner: Ctx, outer: Ctx)
    ensures CtxNodes(Append(inner, outer)) == CtxNodes(inner) + CtxNodes(outer)
  {
    if !inner.Top? { AppendNodes(inner.up, outer); }
  }
}
