/** How a few changed cells of memory change the picture: rotation, recolouring, filling a leaf. */
module RbSteps {
  import opened RbShape
  import opened RbBalance

  ghost function Mem(ns: set<Node>): Memory
    reads ns
  {
    map n | n in ns :: Cell(n.left, n.right, n.parent, n.color)
  }

  lemma MemAt(n: Node, ns: set<Node>)
    ensures n in ns ==> n in Mem(ns) && Mem(ns)[n] == Cell(n.left, n.right, n.parent, n.color)
  {
  }

  /** The state of the loops that rebalance: the heap pictures focus `t` at path `c`, over the nodes `ns`,
      whose in-order sequence is `order`. */
  ghost predicate Focus(c: Ctx, t: Tree, ns: set<Node>, order: seq<Node>, root: Node, s: Node, m: Memory) {
    Zip(c, t, root, s, m) && ns == Nodes(t) + CtxNodes(c) && Flat(c, t) == order
  }

  lemma RotLNodes(t: Tree)
    requires Distinct(t) && t.Fork? && t.right.Fork?
    ensures Distinct(RotL(t)) && Nodes(RotL(t)) == Nodes(t)
  {
  }

  lemma RotRNodes(t: Tree)
    requires Distinct(t) && t.Fork? && t.left.Fork?
    ensures Distinct(RotR(t)) && Nodes(RotR(t)) == Nodes(t)
  {
  }

  /** The cells a left rotation at `t` touches within `t` itself. */
  ghost predicate RotatedL(t: Tree, s: Node, m: Memory, m': Memory)
    requires Sub(t, s, m) && t.Fork? && t.right.Fork?
  {
    var w, b := t.right.node, t.right.left;
    assert Sub(t.right, s, m);
    && t.node in m' && m'[t.node] == m[t.node].(right := RootOf(b, s), parent := w)
    && w in m' && m'[w] == m[w].(left := t.node, parent := m[t.node].parent)
    && (assert Sub(b, s, m);
        b.Fork? ==> b.node in m' && m'[b.node] == m[b.node].(parent := t.node) && Same(m, m', Nodes(b) - {b.node}))
    && Same(m, m', Nodes(t.left)) && Same(m, m', Nodes(t.right.right))
  }

  ghost predicate RotatedR(t: Tree, s: Node, m: Memory, m': Memory)
    requires Sub(t, s, m) && t.Fork? && t.left.Fork?
  {
    var w, b := t.left.node, t.left.right;
    assert Sub(t.left, s, m);
    && t.node in m' && m'[t.node] == m[t.node].(left := RootOf(b, s), parent := w)
    && w in m' && m'[w] == m[w].(right := t.node, parent := m[t.node].parent)
    && (assert Sub(b, s, m);
        b.Fork? ==> b.node in m' && m'[b.node] == m[b.node].(parent := t.node) && Same(m, m', Nodes(b) - {b.node}))
    && Same(m, m', Nodes(t.right)) && Same(m, m', Nodes(t.left.left))
  }

  lemma RotatedLSub(t: Tree, s: Node, m: Memory, m': Memory)
    requires Sub(t, s, m) && Distinct(t) && t.Fork? && t.right.Fork? && RotatedL(t, s, m, m')
    ensures Sub(RotL(t), s, m')
  {
    var r := t.right;
    assert Sub(r, s, m) && Distinct(r);
    SubFrame(t.left, s, m, m');
    SubReparent(r.left, s, m, m');
    SubFrame(r.right, s, m, m');
    assert Sub(Fork(t.left, t.node, t.color, r.left), s, m');
  }

  lemma RotatedRSub(t: Tree, s: Node, m: Memory, m': Memory)
    requires Sub(t, s, m) && Distinct(t) && t.Fork? && t.left.Fork? && RotatedR(t, s, m, m')
    ensures Sub(RotR(t), s, m')
  {
    var l := t.left;
    assert Sub(l, s, m) && Distinct(l);
    SubFrame(t.right, s, m, m');
    SubReparent(l.right, s, m, m');
    SubFrame(l.left, s, m, m');
    assert Sub(Fork(l.right, t.node, t.color, t.right), s, m');
  }

  /** The path has got `w` at its hole instead of `hole`, and nothing else of it has changed. */
  ghost predicate Rehung(c: Ctx, w: Node, m: Memory, m': Memory)
    requires !c.Top? ==> c.node in m
  {
    !c.Top? ==>
      && c.node in m'
      && m'[c.node] == (if c.InLeft? then m[c.node].(left := w) else m[c.node].(right := w))
      && Same(m, m', CtxNodes(c) - {c.node})
  }

  lemma RotateLeftZip(c: Ctx, t: Tree, root: Node, s: Node, m: Memory, root': Node, m': Memory)
    requires Zip(c, t, root, s, m) && t.Fork? && t.right.Fork?
    requires RotatedL(t, s, m, m') && Rehung(c, t.right.node, m, m')
    requires root' == if c.Top? then t.right.node else root
    ensures Zip(c, RotL(t), root', s, m')
  {
    RotLNodes(t);
    RotatedLSub(t, s, m, m');
    CtxRehole(c, t.node, root, s, m, t.right.node, root', m');
  }

  lemma RotateRightZip(c: Ctx, t: Tree, root: Node, s: Node, m: Memory, root': Node, m': Memory)
    requires Zip(c, t, root, s, m) && t.Fork? && t.left.Fork?
    requires RotatedR(t, s, m, m') && Rehung(c, t.left.node, m, m')
    requires root' == if c.Top? then t.left.node else root
    ensures Zip(c, RotR(t), root', s, m')
  {
    RotRNodes(t);
    RotatedRSub(t, s, m, m');
    CtxRehole(c, t.node, root, s, m, t.left.node, root', m');
  }

  lemma ZipRoot(c: Ctx, t: Tree, root: Node, s: Node, m: Memory)
    requires Zip(c, t, root, s, m)
    ensures root == RootOf(t, s) <==> c.Top? || (t.Leaf? && root == s)
    ensures !c.Top? ==> root in CtxNodes(c)
  {
    if !c.Top? {
      CtxRoot(c, RootOf(t, s), root, s, m);
    }
  }

  lemma {:induction false} CtxRoot(c: Ctx, hole: Node, root: Node, s: Node, m: Memory)
    requires CtxSub(c, hole, root, s, m) && !c.Top?
    ensures root in CtxNodes(c)
  {
    if !c.up.Top? {
      CtxRoot(c.up, c.node, root, s, m);
    }
  }

  /** What a left rotation finds in memory, and which nodes it can tell apart. */
  lemma RotateLeftFacts(c: Ctx, t: Tree, root: Node, s: Node, m: Memory)
    requires Zip(c, t, root, s, m) && t.Fork? && t.right.Fork?
    ensures var w, b, d := t.right.node, t.right.left, t.right.right;
      && t.node in m && m[t.node].right == w
      && w in m && m[w].left == RootOf(b, s)
      && (b.Fork? ==> b.node in m && b.node in Nodes(b))
      && (c.Top? <==> t.node == root)
      && (!c.Top? ==> c.node in m && m[t.node].parent == c.node)
      && (c.InLeft? <==> !c.Top? && m[c.node].left == t.node)
      && {t.node, w} !! Nodes(t.left) + Nodes(b) + Nodes(d) && t.node != w
      && Nodes(t.left) !! Nodes(b) && Nodes(b) !! Nodes(d) && Nodes(t.left) !! Nodes(d)
      && Nodes(t) == Nodes(t.left) + Nodes(b) + Nodes(d) + {t.node, w}
  {
    var r := t.right;
    assert Sub(t, s, m) && Sub(r, s, m) && Sub(r.left, s, m);
    assert Distinct(t) && Distinct(r);
    assert Nodes(r) == Nodes(r.left) + {r.node} + Nodes(r.right);
    ZipRoot(c, t, root, s, m);
    if !c.Top? { SiblingElsewhere(c, t, s); }
  }

  lemma RotateRightFacts(c: Ctx, t: Tree, root: Node, s: Node, m: Memory)
    requires Zip(c, t, root, s, m) && t.Fork? && t.left.Fork?
    ensures var w, b, d := t.left.node, t.left.right, t.left.left;
      && t.node in m && m[t.node].left == w
      && w in m && m[w].right == RootOf(b, s)
      && (b.Fork? ==> b.node in m && b.node in Nodes(b))
      && (c.Top? <==> t.node == root)
      && (!c.Top? ==> c.node in m && m[t.node].parent == c.node)
      && (c.InRight? <==> !c.Top? && m[c.node].right == t.node)
      && {t.node, w} !! Nodes(t.right) + Nodes(b) + Nodes(d) && t.node != w
      && Nodes(t.right) !! Nodes(b) && Nodes(b) !! Nodes(d) && Nodes(t.right) !! Nodes(d)
      && Nodes(t) == Nodes(t.right) + Nodes(b) + Nodes(d) + {t.node, w}
  {
    var l := t.left;
    assert Sub(t, s, m) && Sub(l, s, m) && Sub(l.right, s, m);
    assert Distinct(t) && Distinct(l);
    assert Nodes(l) == Nodes(l.left) + {l.node} + Nodes(l.right);
    ZipRoot(c, t, root, s, m);
    if !c.Top? { SiblingElsewhere(c, t, s); }
  }

  lemma SiblingElsewhere(c: Ctx, t: Tree, s: Node)
    requires !c.Top? && Nodes(t) !! CtxNodes(c) && s !in Nodes(t) && t.Fork?
    ensures RootOf(c.sibling, s) != t.node
  {
    assert c.sibling.Fork? ==> c.sibling.node in Nodes(c.sibling);
  }

  /** Recolouring the topmost node of the focus. */
  lemma PaintZip(c: Ctx, t: Tree, color: Color, root: Node, s: Node, m: Memory, m': Memory)
    requires Zip(c, t, root, s, m) && t.Fork?
    requires m' == m[t.node := Cell(RootOf(t.left, s), RootOf(t.right, s), m[t.node].parent, color)]
    ensures Zip(c, Paint(t, color), root, s, m')
  {
    SubFrame(t.left, s, m, m');
    SubFrame(t.right, s, m, m');
    CtxFrame(c, t.node, root, s, m, m');
  }

  /** Putting a red node in the place of a leaf. */
  lemma FillZip(c: Ctx, n: Node, root: Node, s: Node, m: Memory, root': Node, m': Memory)
    requires Zip(c, Leaf, root, s, m) && n !in CtxNodes(c) && n != s
    requires n in m' && m'[n] == Cell(s, s, m'[n].parent, Red) && (!c.Top? ==> m'[n].parent == c.node)
    requires Rehung(c, n, m, m') && root' == if c.Top? then n else root
    ensures Zip(c, Fork(Leaf, n, Red, Leaf), root', s, m')
  {
    CtxRehole(c, s, root, s, m, n, root', m');
  }

  /** What is known of memory around the focus, and the same picture seen from one level up. */
  lemma ZoomOut(c: Ctx, t: Tree, root: Node, s: Node, m: Memory)
    requires Zip(c, t, root, s, m) && !c.Top?
    ensures Zip(c.up, Wrap(c, t), root, s, m)
    ensures Nodes(Wrap(c, t)) + CtxNodes(c.up) == Nodes(t) + CtxNodes(c)
    ensures Flat(c.up, Wrap(c, t)) == Flat(c, t)
    ensures c.node in m && m[c.node].color == c.color
    ensures m[c.node].left == (if c.InLeft? then RootOf(t, s) else RootOf(c.sibling, s))
    ensures m[c.node].right == (if c.InLeft? then RootOf(c.sibling, s) else RootOf(t, s))
    ensures t.Fork? ==> t.node in m && m[t.node].parent == c.node && RootOf(c.sibling, s) != t.node
    ensures c.sibling.Fork? ==> c.sibling.node in m && m[c.sibling.node].color == c.sibling.color
    ensures c.sibling.Fork? ==> c.sibling.node != s
  {
    ZipUp(c, t, root, s, m);
    FlatUp(c, t);
    assert Nodes(Wrap(c, t)) == Nodes(t) + {c.node} + Nodes(c.sibling);
    if t.Fork? { SiblingElsewhere(c, t, s); }
    assert Sub(c.sibling, s, m);
  }

  lemma ZoomIn(c: Ctx, t: Tree, root: Node, s: Node, m: Memory)
    requires !c.Top? && Zip(c.up, Wrap(c, t), root, s, m)
    ensures Zip(c, t, root, s, m)
    ensures Nodes(Wrap(c, t)) + CtxNodes(c.up) == Nodes(t) + CtxNodes(c)
    ensures Flat(c.up, Wrap(c, t)) == Flat(c, t)
  {
    ZipUp(c, t, root, s, m);
    FlatUp(c, t);
    assert Nodes(Wrap(c, t)) == Nodes(t) + {c.node} + Nodes(c.sibling);
  }

  lemma RootCell(c: Ctx, t: Tree, root: Node, s: Node, m: Memory)
    requires Zip(c, t, root, s, m) && t.Fork? && CtxRedOk(c)
    ensures root in m && root in Nodes(t) + CtxNodes(c)
    ensures !c.Top? ==> m[root].color == Black
  {
    if !c.Top? { CtxRootCell(c, t.node, root, s, m); }
  }

  lemma {:induction false} CtxRootCell(c: Ctx, hole: Node, root: Node, s: Node, m: Memory)
    requires CtxSub(c, hole, root, s, m) && !c.Top? && CtxRedOk(c)
    ensures root in m && root in CtxNodes(c) && m[root].color == Black
  {
    if !c.up.Top? { CtxRootCell(c.up, c.node, root, s, m); }
  }

  /** A new red node in the place of a leaf of a red-black tree. */
  lemma HungFocus(c: Ctx, n: Node) returns (t: Tree)
    requires RedBlack(Plug(c, Leaf))
    ensures t == Fork(Leaf, n, Red, Leaf) && RedFocus(c, t)
    ensures Flat(c, t) == Before(c) + [n] + After(c)
    ensures InOrder(Plug(c, Leaf)) == Before(c) + After(c)
    ensures Nodes(t) + CtxNodes(c) == Nodes(Plug(c, Leaf)) + {n}
  {
    t := Fork(Leaf, n, Red, Leaf);
    UnplugBalanced(c, Leaf);
    FlatAll(c, Leaf);
    PlugNodes(c, Leaf);
    assert InOrder(t) == [n];
  }

  lemma SingleZip(n: Node, s: Node, m: Memory)
    requires n in m && n != s && m[n].left == s && m[n].right == s && m[n].color == Black
    ensures var t := Fork(Leaf, n, Black, Leaf);
      Zip(Top, t, n, s, m) && RedBlack(t) && InOrder(t) == [n] && Nodes(t) == {n}
  {
    var t := Fork(Leaf, n, Black, Leaf);
    assert Nodes(t) == {n} && InOrder(t) == [n] && Sub(Leaf, s, m);
  }

  /** Turning the focus to the sibling. */
  ghost function Across(c: Ctx, t: Tree): Ctx
    requires !c.Top?
  {
    if c.InLeft? then InRight(c.up, c.node, c.color, t) else InLeft(c.up, c.node, c.color, t)
  }

  lemma ZoomAcross(c: Ctx, t: Tree, ns: set<Node>, order: seq<Node>, root: Node, s: Node, m: Memory)
    requires !c.Top?
    ensures Focus(c, t, ns, order, root, s, m) <==> Focus(Across(c, t), c.sibling, ns, order, root, s, m)
    ensures Across(Across(c, t), c.sibling) == c
    ensures Focus(c, t, ns, order, root, s, m) <==> Focus(c.up, Wrap(c, t), ns, order, root, s, m)
  {
    var a := Across(c, t);
    assert Wrap(a, c.sibling) == Wrap(c, t);
    ZipUp(c, t, root, s, m);
    ZipUp(a, c.sibling, root, s, m);
    FlatUp(c, t);
    FlatUp(a, c.sibling);
    assert Nodes(Wrap(c, t)) == Nodes(t) + {c.node} + Nodes(c.sibling);
  }

  /** Colours of a node's children, as memory shows them. */
  lemma ChildCells(t: Tree, s: Node, m: Memory)
    requires Sub(t, s, m) && t.Fork?
    ensures t.node in m && m[t.node].color == t.color
    ensures m[t.node].left == RootOf(t.left, s) && m[t.node].right == RootOf(t.right, s)
    ensures t.left.Fork? ==> t.left.node in m && m[t.left.node].color == t.left.color
    ensures t.right.Fork? ==> t.right.node in m && m[t.right.node].color == t.right.color
  {
    assert Sub(t.left, s, m) && Sub(t.right, s, m);
  }

  lemma FocusAll(c: Ctx, t: Tree, ns: set<Node>, order: seq<Node>, root: Node, s: Node, m: Memory)
    requires Focus(c, t, ns, order, root, s, m)
    ensures Focus(Top, Plug(c, t), ns, order, root, s, m)
    ensures Nodes(Plug(c, t)) == ns && InOrder(Plug(c, t)) == order
  {
    ZipAll(c, t, root, s, m);
    FlatAll(c, t);
    PlugNodes(c, t);
    assert Flat(Top, Plug(c, t)) == InOrder(Plug(c, t));
  }

  /** Blackening the topmost node of the focus, at the end of deletion's loop. */
  lemma PaintFocus(c: Ctx, t: Tree, ns: set<Node>, order: seq<Node>, root: Node, s: Node, m: Memory, m': Memory)
    returns (whole: Tree)
    requires Focus(c, t, ns, order, root, s, m) && Deficit(c, t) && (c.Top? || IsRed(t))
    requires t.Fork? ==> t.node in m && m' == m[t.node := m[t.node].(color := Black)]
    requires t.Leaf? ==> m' == m
    ensures Zip(Top, whole, root, s, m') && RedBlack(whole)
    ensures Nodes(whole) == ns && InOrder(whole) == order
  {
    if t.Fork? { PaintZip(c, t, Black, root, s, m, m'); }
    DeficitDone(c, t);
    FocusAll(c, Paint(t, Black), ns, order, root, s, m');
    whole := Plug(c, Paint(t, Black));
  }

  lemma {:induction false} FocusAppend(inner: Ctx, outer: Ctx, t: Tree, ns: set<Node>, order: seq<Node>,
                                       root: Node, s: Node, m: Memory)
    ensures Focus(outer, Plug(inner, t), ns, order, root, s, m)
      <==> Focus(Append(inner, outer), t, ns, order, root, s, m)
  {
    if !inner.Top? {
      FocusAppend(inner.up, outer, Wrap(inner, t), ns, order, root, s, m);
      ZoomAcross(Append(inner, outer), t, ns, order, root, s, m);
    }
  }

  /** Taking out a node with at most one child: its child hangs where it hung. */
  lemma SpliceZip(c: Ctx, t: Tree, y: Tree, root: Node, s: Node, m: Memory, m': Memory)
    requires Zip(c, t, root, s, m) && !c.Top? && t.Fork?
    requires (t.left.Leaf? && y == t.right) || (t.right.Leaf? && y == t.left)
    requires Rehung(c, RootOf(y, s), m, m')
    requires y.Fork? ==> y.node in m && y.node in m' && m'[y.node] == m[y.node].(parent := c.node)
    requires y.Fork? ==> Same(m, m', Nodes(y) - {y.node})
    ensures Zip(c, y, root, s, m')
  {
    SubReparent(y, s, m, m');
    CtxRehole(c, t.node, root, s, m, RootOf(y, s), root, m');
  }

  /** Another node takes the place, the links and the colour of the topmost node of the focus. */
  ghost predicate Replaced(t: Tree, n': Node, s: Node, m: Memory, m': Memory)
    requires Sub(t, s, m) && t.Fork?
  {
    && n' in m' && m'[n'] == m[t.node]
    && (t.left.Fork? ==>
      && t.left.node in m && t.left.node in m'
      && m'[t.left.node] == m[t.left.node].(parent := n') && Same(m, m', Nodes(t.left) - {t.left.node}))
    && (t.right.Fork? ==>
      && t.right.node in m && t.right.node in m'
      && m'[t.right.node] == m[t.right.node].(parent := n') && Same(m, m', Nodes(t.right) - {t.right.node}))
  }

  lemma ReplaceZip(c: Ctx, t: Tree, n': Node, root: Node, s: Node, m: Memory, root': Node, m': Memory)
    requires Zip(c, t, root, s, m) && t.Fork? && n' != s && n' !in Nodes(t) && n' !in CtxNodes(c)
    requires Replaced(t, n', s, m, m') && Rehung(c, n', m, m')
    requires root' == if c.Top? then n' else root
    ensures Zip(c, Fork(t.left, n', t.color, t.right), root', s, m')
  {
    SubReparent(t.left, s, m, m');
    SubReparent(t.right, s, m, m');
    CtxRehole(c, t.node, root, s, m, n', root', m');
  }

  /** A cell after `y` has been hung where `x` hung. */
  ghost function HungBelow(cell: Cell, x: Node, y: Node): Cell {
    if cell.left == x then cell.(left := y) else cell.(right := y)
  }

  /** The memory after `temp` has been hung where `subst` hung below `q`. */
  ghost function Unhook(m: Memory, q: Node, subst: Node, temp: Node, s: Node): Memory
    requires q in m && (temp != s ==> temp in m)
  {
    var m' := m[q := HungBelow(m[q], subst, temp)];
    if temp == s then m' else m'[temp := m'[temp].(parent := q)]
  }

  lemma UnhookZip(c: Ctx, t: Tree, y: Tree, root: Node, s: Node, m: Memory)
    requires Zip(c, t, root, s, m) && !c.Top? && t.Fork?
    requires (t.left.Leaf? && y == t.right) || (t.right.Leaf? && y == t.left)
    ensures c.node in m && (y.Fork? ==> y.node in m && y.node != s)
    ensures Zip(c, y, root, s, Unhook(m, c.node, t.node, RootOf(y, s), s))
  {
    ZoomOut(c, t, root, s, m);
    assert Sub(y, s, m);
    assert Nodes(y) <= Nodes(t);
    SpliceZip(c, t, y, root, s, m, Unhook(m, c.node, t.node, RootOf(y, s), s));
  }

  lemma FocusFrame(c: Ctx, t: Tree, ns: set<Node>, order: seq<Node>, root: Node, s: Node, m: Memory, m': Memory)
    requires Focus(c, t, ns, order, root, s, m) && Same(m, m', ns)
    ensures Focus(c, t, ns, order, root, s, m')
  {
    SubFrame(t, s, m, m');
    if t.Fork? {
      assert t.node in ns;
    }
    CtxFrame(c, RootOf(t, s), root, s, m, m');
  }

  /** The picture is in focus as a whole; nothing is left to repair. */
  lemma FocusWhole(c: Ctx, t: Tree, ns: set<Node>, order: seq<Node>, root: Node, s: Node, m: Memory)
    requires Focus(c, t, ns, order, root, s, m) && RedBlack(Plug(c, t))
    ensures Focus(Top, Plug(c, t), ns, order, root, s, m)
    ensures Deficit(Top, Plug(c, t)) && root == RootOf(Plug(c, t), s)
  {
    FocusAll(c, t, ns, order, root, s, m);
    ZipRoot(Top, Plug(c, t), root, s, m);
  }

  /** The tree after insertion's last step, which blackens the root. */
  ghost function RootBlackened(c: Ctx, t: Tree): Tree {
    if c.Top? then Paint(t, Black) else Plug(c, t)
  }

  lemma RootBlackenedZip(c: Ctx, t: Tree, ns: set<Node>, order: seq<Node>, root: Node, s: Node, m: Memory, m': Memory)
    requires Focus(c, t, ns, order, root, s, m) && RedFocus(c, t) && (c.Top? || c.color == Black)
    requires root in m && m' == m[root := m[root].(color := Black)]
    ensures var whole := RootBlackened(c, t);
      && Zip(Top, whole, root, s, m') && Nodes(whole) == ns && InOrder(whole) == order && RedBlack(whole)
  {
    FocusDone(c, t);
    RootCell(c, t, root, s, m);
    if c.Top? {
      PaintZip(c, t, Black, root, s, m, m');
      assert Nodes(Paint(t, Black)) == Nodes(t) && InOrder(Paint(t, Black)) == InOrder(t);
      assert Flat(Top, t) == InOrder(t);
    } else {
      assert m' == m;
      FocusAll(c, t, ns, order, root, s, m);
    }
  }

  lemma RootIn(c: Ctx, t: Tree, ns: set<Node>, order: seq<Node>, root: Node, s: Node, m: Memory)
    requires Focus(c, t, ns, order, root, s, m) && RedFocus(c, t)
    ensures root in m && root in ns
  {
    RootCell(c, t, root, s, m);
  }

  lemma TakenOrder(c: Ctx, t: Tree, y: Tree, order: seq<Node>) returns (pre: seq<Node>, post: seq<Node>)
    requires t.Fork? && Flat(c, t) == order
    requires (t.left.Leaf? && y == t.right) || (t.right.Leaf? && y == t.left)
    ensures order == pre + [t.node] + post && Flat(c, y) == pre + post
  {
    var l, r := InOrder(t.left), InOrder(t.right);
    pre, post := Before(c) + l, r + After(c);
    assert InOrder(y) == l + [] + r by {
      assert l == [] || r == [];
    }
    Regroup(Before(c), l, [t.node], r, After(c));
    Regroup(Before(c), l, [], r, After(c));
    assert pre + [] + post == pre + post;
  }

  lemma TakenNodes(c: Ctx, t: Tree, y: Tree)
    requires t.Fork? && Distinct(t) && Nodes(t) !! CtxNodes(c)
    requires (t.left.Leaf? && y == t.right) || (t.right.Leaf? && y == t.left)
    ensures Nodes(y) + CtxNodes(c) == Nodes(t) + CtxNodes(c) - {t.node}
  {
    assert Nodes(t) == Nodes(y) + {t.node};
  }

  lemma LocateFocus(whole: Tree, n: Node, ns: set<Node>, order: seq<Node>, root: Node, s: Node, m: Memory)
    returns (c: Ctx, t: Tree)
    requires Zip(Top, whole, root, s, m) && ns == Nodes(whole) && order == InOrder(whole) && n in ns
    ensures Focus(c, t, ns, order, root, s, m) && t.Fork? && t.node == n && Plug(c, t) == whole
  {
    c, t := Locate(Top, whole, n, root, s, m);
    PlugNodes(c, t);
    FlatAll(c, t);
  }

  /** The tree left when a root with at most one child is gone. */
  lemma RootSpliced(t: Tree, y: Tree, s: Node) returns (y': Tree)
    requires t.Fork? && RedBlack(t) && Distinct(t) && s !in Nodes(t)
    requires if t.left.Leaf? then y == t.right else t.right.Leaf? && y == t.left
    ensures y' == Paint(y, Black) && RedBlack(y') && InOrder(y') == InOrder(y)
    ensures Nodes(y') == Nodes(y) == Nodes(t) - {t.node} && Distinct(y') && RootOf(y, s) != t.node
  {
    y' := Paint(y, Black);
    assert Distinct(y) && RedOk(y) && Balanced(y);
    assert Nodes(t) == Nodes(y) + {t.node};
    assert y.Fork? ==> y.node in Nodes(y);
  }

  lemma RootTaken(t: Tree, y: Tree, y': Tree, root': Node, s: Node, m: Memory, m': Memory)
    requires t.Fork? && Zip(Top, t, t.node, s, m) && root' == RootOf(y, s)
    requires if t.left.Leaf? then y == t.right else t.right.Leaf? && y == t.left
    requires y' == Paint(y, Black) && Nodes(y') == Nodes(y) == Nodes(t) - {t.node} && Distinct(y')
    requires y.Fork? ==> y.node in m && y.node in m' && m'[y.node] == m[y.node].(color := Black)
    requires Same(m, m', Nodes(t) - {t.node, RootOf(y, s)})
    ensures Zip(Top, y', root', s, m')
  {
    assert Sub(y, s, m);
    if y.Fork? {
      assert y.node !in Nodes(y.left) && y.node !in Nodes(y.right);
      SubFrame(y.left, s, m, m');
      SubFrame(y.right, s, m, m');
    }
  }
}
