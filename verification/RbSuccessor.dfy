/** Deleting a node with two children: its in-order successor leaves its own place and takes over the node's. */
module RbSuccessor {
  import opened RbShape
  import opened RbBalance
  import opened RbSteps

  /** `path` leads from the right child of `t` to its leftmost node, on top of `sub`. */
  ghost predicate Successor(t: Tree, path: Ctx, sub: Tree) {
    && t.Fork? && t.left.Fork? && t.right.Fork?
    && OnlyLeft(path) && sub.Fork? && sub.left.Leaf? && Plug(path, sub) == t.right
  }

  /** The path to the successor, with `n` in the place of the deleted node. */
  ghost function PathVia(c: Ctx, t: Tree, path: Ctx, n: Node): Ctx
    requires t.Fork?
  {
    Append(path, InRight(c, n, t.color, t.left))
  }

  lemma PathViaTop(c: Ctx, t: Tree, path: Ctx, n: Node)
    requires t.Fork? && OnlyLeft(path)
    ensures var v := PathVia(c, t, path, n);
      if path.Top? then v == InRight(c, n, t.color, t.left)
      else v.InLeft? && v.node == path.node && v.sibling == path.sibling
  {
  }

  lemma {:induction false} PlugRoot(path: Ctx, t: Tree, t': Tree, s: Node)
    requires !path.Top?
    ensures Plug(path, t).Fork? && Plug(path, t').Fork? && Plug(path, t).node == Plug(path, t').node
    ensures Plug(path, t).node in CtxNodes(path)
  {
    if !path.up.Top? { PlugRoot(path.up, Wrap(path, t), Wrap(path, t'), s); }
  }

  lemma SuccessorNodes(t: Tree, path: Ctx, sub: Tree)
    requires Successor(t, path, sub) && Distinct(t.right)
    ensures {sub.node} + Nodes(sub.right) + CtxNodes(path) == Nodes(t.right)
    ensures sub.node !in Nodes(sub.right) + CtxNodes(path)
  {
    PlugNodes(path, sub);
    PlugDistinct(path, sub);
    assert Nodes(sub) == Nodes(sub.right) + {sub.node};
  }

  lemma SuccessorFacts(c: Ctx, t: Tree, path: Ctx, sub: Tree, root: Node, s: Node, m: Memory)
    requires Zip(c, t, root, s, m) && Successor(t, path, sub)
    ensures var v := PathVia(c, t, path, t.node);
      && !v.Top? && Zip(v, sub, root, s, m) && v.node in m && sub.node in m && m[sub.node].parent == v.node
      && HungBelow(m[v.node], sub.node, s) == (if path.Top? then m[v.node].(right := s) else m[v.node].(left := s))
      && (v.node == t.node <==> path.Top?) && (path.Top? <==> sub.node == t.right.node)
      && (v.node == t.node || v.node in Nodes(t.right)) && v.node != sub.node
    ensures t.node in m && m[t.node].left == t.left.node && m[t.node].right == t.right.node
    ensures t.left.node in m && t.right.node in m
    ensures {sub.node} + Nodes(sub.right) + CtxNodes(path) == Nodes(t.right)
    ensures sub.node !in Nodes(sub.right) + CtxNodes(path)
    ensures sub.right.Fork? ==> sub.right.node in m && sub.right.node in Nodes(sub.right) && sub.right.node != s
  {
    var outer := InRight(c, t.node, t.color, t.left);
    ZipDown(c, t, false, root, s, m);
    ZipAppend(path, outer, sub, root, s, m);
    SuccessorNodes(t, path, sub);
    AppendNodes(path, outer);
    PathViaTop(c, t, path, t.node);
    ZoomOut(PathVia(c, t, path, t.node), sub, root, s, m);
    if !path.Top? { PlugRoot(path, sub, sub, s); }
    assert Sub(t.left, s, m) && Sub(t.right, s, m) && Sub(sub.right, s, m);
  }

  /** The successor comes first to the right of the deleted node. */
  lemma SuccessorOrder(t: Tree, path: Ctx, sub: Tree)
    requires Successor(t, path, sub)
    ensures InOrder(t.right) == [sub.node] + InOrder(Plug(path, sub.right))
  {
    LeftmostOrder(path, sub);
    LeftmostOrder(path, sub.right);
    assert InOrder(sub) == [sub.node] + InOrder(sub.right);
  }

  /** The tree without the successor of its topmost node. */
  ghost function Lean(t: Tree, path: Ctx, sub: Tree): Tree
    requires Successor(t, path, sub)
  {
    Fork(t.left, t.node, t.color, Plug(path, sub.right))
  }

  /** The memory after the successor has left its place. */
  lemma WithoutSuccessor(c: Ctx, t: Tree, path: Ctx, sub: Tree, root: Node, s: Node, m: Memory) returns (m1: Memory)
    requires Zip(c, t, root, s, m) && Successor(t, path, sub)
    ensures var q, y := PathVia(c, t, path, t.node).node, RootOf(sub.right, s);
      q in m && (y != s ==> y in m) && m1 == Unhook(m, q, sub.node, y, s)
    ensures Zip(c, Lean(t, path, sub), root, s, m1)
  {
    SuccessorFacts(c, t, path, sub, root, s, m);
    var v, y := PathVia(c, t, path, t.node), sub.right;
    UnhookZip(v, sub, y, root, s, m);
    m1 := Unhook(m, v.node, sub.node, RootOf(y, s), s);
    var outer := InRight(c, t.node, t.color, t.left);
    var ns, order := Nodes(y) + CtxNodes(v), Flat(v, y);
    FocusAppend(path, outer, y, ns, order, root, s, m1);
    ZoomAcross(outer, Plug(path, y), ns, order, root, s, m1);
  }

  lemma LeanNodes(t: Tree, path: Ctx, sub: Tree)
    requires Successor(t, path, sub) && Distinct(t)
    ensures Nodes(t) == Nodes(Lean(t, path, sub)) + {sub.node} && sub.node !in Nodes(Lean(t, path, sub))
  {
    PlugNodes(path, sub);
    PlugNodes(path, sub.right);
    assert Nodes(sub) == Nodes(sub.right) + {sub.node};
    PlugDistinct(path, sub);
    assert sub.node in Nodes(t.right);
  }

  lemma {:induction false} PlugDistinct(c: Ctx, t: Tree)
    requires Distinct(Plug(c, t))
    ensures Distinct(t) && CtxDistinct(c) && Nodes(t) !! CtxNodes(c)
  {
    if !c.Top? { PlugDistinct(c.up, Wrap(c, t)); }
  }

  /** Replacing the topmost node by the successor takes just that node out of the tree and its order. */
  lemma ReplacedNodes(t: Tree, path: Ctx, sub: Tree)
    requires Successor(t, path, sub) && Distinct(t)
    ensures Nodes(Fork(t.left, sub.node, t.color, Plug(path, sub.right))) == Nodes(t) - {t.node}
  {
    LeanNodes(t, path, sub);
    var r := Plug(path, sub.right);
    PlugNodes(path, sub.right);
    PlugNodes(path, sub);
    assert Nodes(r) <= Nodes(t.right);
    var t1 := Lean(t, path, sub);
    assert Nodes(t1) == Nodes(t.left) + {t.node} + Nodes(r);
  }

  lemma ReplacedOrder(c: Ctx, t: Tree, path: Ctx, sub: Tree, order: seq<Node>) returns (pre: seq<Node>, post: seq<Node>)
    requires Successor(t, path, sub) && Flat(c, t) == order
    ensures order == pre + [t.node] + post
    ensures Flat(c, Fork(t.left, sub.node, t.color, Plug(path, sub.right))) == pre + post
  {
    SuccessorOrder(t, path, sub);
    var l, r, r' := InOrder(t.left), InOrder(t.right), InOrder(Plug(path, sub.right));
    pre, post := Before(c) + l, r + After(c);
    assert InOrder(Fork(t.left, sub.node, t.color, Plug(path, sub.right))) == l + [] + r by {
      assert [sub.node] + r' == r;
      assert l + [sub.node] + r' == l + ([sub.node] + r') == l + [] + r;
    }
    Regroup(Before(c), l, [t.node], r, After(c));
    Regroup(Before(c), l, [], r, After(c));
    assert pre + [] + post == pre + post;
  }

  /** The nodes the two moves of a successor deal with, as memory shows them before. */
  ghost predicate SwapCells(n: Node, n': Node, y: Node, q: Node, l: Node, r: Node, s: Node, ns: set<Node>, m: Memory) {
    && m.Keys == ns && {n, n', q, l} <= ns && s !in ns && (y == s || y in ns) && (r == s || r in ns)
    && n != n' && l != n && l != n' && q != n' && l != q && y !in {n, n', q, l} && r !in {n, n', l}
    && m[n].left == l && m[n'].parent == q
    && (if q == n then m[n].right == n' && r == y else m[n].right == r && m[q].left == n' && r != y)
  }

  /** The successor `n'` of `n` has left its place below `q` to its child `y`, whose parent already is
      what it will be once `n'` has taken over from `n`. */
  ghost predicate LeftPlace(n: Node, n': Node, y: Node, q: Node, s: Node, ns: set<Node>, m: Memory, mid: Memory) {
    && m.Keys == ns == mid.Keys && q in ns && (y == s || y in ns)
    && mid[q] == HungBelow(m[q], n', y)
    && (y != s ==> mid[y] == m[y].(parent := if q == n then n' else q))
    && Same(m, mid, ns - {q, y})
  }

  lemma TakenOverFrame(n: Node, n': Node, l: Node, r: Node, p: Node?, s: Node, ns: set<Node>,
                       mid: Memory, m: Memory, m': Memory)
    requires TakenOver(n, n', l, r, p, s, ns, mid, m) && Same(m, m', ns - {n}) && m'.Keys == ns
    requires n !in {n', l, r} && n != p
    ensures TakenOver(n, n', l, r, p, s, ns, mid, m')
  {
  }

  lemma SwapApart(n: Node, n': Node, y: Node, q: Node, l: Node, r: Node, s: Node, ns: set<Node>, m: Memory)
    requires SwapCells(n, n', y, q, l, r, s, ns, m)
    ensures {n, n', q, l} <= ns && s !in ns && (y == s || y in ns) && (r == s || r in ns)
    ensures n != n' && l != n && l != n' && q != n' && r != n && r != n' && r != l && y != n' && y != q
    ensures m[n'].parent == q
  {
  }

  /** The successor `n'` has taken over the place, the links and the colour of `n`, whose parent was `p`. */
  ghost predicate TakenOver(n: Node, n': Node, l: Node, r: Node, p: Node?, s: Node, ns: set<Node>, mid: Memory,
                            m': Memory) {
    && mid.Keys == ns == m'.Keys && {n, n', l} <= ns && (r == s || r in ns)
    && m'[n'] == mid[n] && m'[l] == mid[l].(parent := n')
    && (r != s ==> m'[r] == mid[r].(parent := n'))
    && (p != null ==> p in ns && m'[p] == HungBelow(mid[p], n, n'))
    && Same(mid, m', ns - {n, n', l, r} - if p == null then {} else {p})
  }

  /** The links of `n` that its successor is to take over. */
  lemma LeftLinks(n: Node, n': Node, y: Node, q: Node, l: Node, r: Node, s: Node, ns: set<Node>, m: Memory, mid: Memory)
    requires SwapCells(n, n', y, q, l, r, s, ns, m) && LeftPlace(n, n', y, q, s, ns, m, mid)
    ensures mid[n].left == l && mid[n].right == r && mid[n].parent == m[n].parent
  {
  }

  /** The parent of the successor's child, after both moves. */
  lemma ParentOfChild(n: Node, n': Node, y: Node, q: Node, l: Node, r: Node, p: Node?, s: Node, ns: set<Node>,
                      m: Memory, mid: Memory, m': Memory)
    requires SwapCells(n, n', y, q, l, r, s, ns, m) && LeftPlace(n, n', y, q, s, ns, m, mid)
    requires TakenOver(n, n', l, r, p, s, ns, mid, m') && y != p && y in ns
    ensures y in m' && m'[y].parent == if q == n then n' else q
  {
  }

  lemma SwapFacts(c: Ctx, t: Tree, path: Ctx, sub: Tree, ns: set<Node>, order: seq<Node>, root: Node, s: Node,
                  m: Memory)
    returns (q: Node, r: Node)
    requires Focus(c, t, ns, order, root, s, m) && Successor(t, path, sub) && m.Keys == ns
    ensures q == PathVia(c, t, path, t.node).node && r == RootOf(Plug(path, sub.right), s)
    ensures SwapCells(t.node, sub.node, RootOf(sub.right, s), q, t.left.node, r, s, ns, m)
    ensures c.Top? <==> t.node == root
    ensures !c.Top? ==>
      && m[t.node].parent == c.node && c.node in ns
      && c.node !in {t.node, sub.node, RootOf(sub.right, s), q, t.left.node, r}
    ensures PathVia(c, t, path, sub.node).Top? == false
    ensures PathVia(c, t, path, sub.node).node == if q == t.node then sub.node else q
  {
    SuccessorFacts(c, t, path, sub, root, s, m);
    q, r := PathVia(c, t, path, t.node).node, RootOf(Plug(path, sub.right), s);
    ZipRoot(c, t, root, s, m);
    if !c.Top? { ZoomOut(c, t, root, s, m); }
    PathViaTop(c, t, path, t.node);
    PathViaTop(c, t, path, sub.node);
    if !path.Top? { PlugRoot(path, sub, sub.right, s); }
    assert t.left.node in Nodes(t.left);
  }

  /** What RbTree.TakePlace does to memory, told for the tree without the successor. */
  ghost predicate Taken(c: Ctx, t1: Tree, n': Node, ns: set<Node>, s: Node, m1: Memory, mid: Memory, m2: Memory)
    requires t1.Fork? && t1.left.Fork?
  {
    var r := RootOf(t1.right, s);
    && ns == Nodes(t1) + CtxNodes(c) + {n'} && ns <= m1.Keys && ns <= mid.Keys && ns <= m2.Keys && t1.node in ns
    && t1.left.node in ns && n' !in Nodes(t1) && n' !in CtxNodes(c)
    && Same(m1, mid, ns - {r}) && (r != s ==> r in ns && mid[r] == m1[r].(parent := mid[r].parent))
    && m2[n'] == mid[t1.node] && m2[t1.left.node] == mid[t1.left.node].(parent := n')
    && (r != s ==> m2[r] == mid[r].(parent := n'))
    && (!c.Top? ==> c.node in ns && m2[c.node] == HungBelow(mid[c.node], t1.node, n'))
    && Same(mid, m2, ns - {t1.node, n', t1.left.node, r} - if c.Top? then {} else {c.node})
  }

  lemma TakenApart(c: Ctx, t1: Tree, n': Node, ns: set<Node>, root: Node, s: Node, m1: Memory, mid: Memory, m2: Memory)
    requires Zip(c, t1, root, s, m1) && t1.Fork? && t1.left.Fork? && Taken(c, t1, n', ns, s, m1, mid, m2)
    requires s !in ns
    ensures n' != s && n' !in Nodes(t1) && n' !in CtxNodes(c)
  {
  }

  lemma TookPlaceBelow(c: Ctx, t1: Tree, n': Node, ns: set<Node>, root: Node, s: Node,
                       m1: Memory, mid: Memory, m2: Memory)
    requires Zip(c, t1, root, s, m1) && t1.Fork? && t1.left.Fork? && Taken(c, t1, n', ns, s, m1, mid, m2)
    ensures Replaced(t1, n', s, m1, m2)
  {
    assert Sub(t1.left, s, m1) && Sub(t1.right, s, m1);
    assert Nodes(t1) == Nodes(t1.left) + {t1.node} + Nodes(t1.right);
    assert t1.right.Fork? ==> t1.right.node in Nodes(t1.right);
    assert t1.left.node in Nodes(t1.left);
    if !c.Top? { assert c.node in CtxNodes(c); }
  }

  lemma TookPlaceAbove(c: Ctx, t1: Tree, n': Node, ns: set<Node>, root: Node, s: Node,
                       m1: Memory, mid: Memory, m2: Memory)
    requires Zip(c, t1, root, s, m1) && t1.Fork? && t1.left.Fork? && Taken(c, t1, n', ns, s, m1, mid, m2)
    ensures Rehung(c, n', m1, m2)
  {
    if !c.Top? { ZoomOut(c, t1, root, s, m1); }
    assert t1.right.Fork? ==> t1.right.node in Nodes(t1.right);
    assert t1.left.node in Nodes(t1.left);
    assert Nodes(t1) == Nodes(t1.left) + {t1.node} + Nodes(t1.right);
  }

  /** What the two moves of RbTree.Relink have done to memory. */
  ghost predicate Relinked(c: Ctx, t: Tree, path: Ctx, sub: Tree, ns: set<Node>, s: Node,
                           m: Memory, mid: Memory, m': Memory)
    requires Successor(t, path, sub)
  {
    var q, y := PathVia(c, t, path, t.node).node, RootOf(sub.right, s);
    var l, r := t.left.node, RootOf(Plug(path, sub.right), s);
    && SwapCells(t.node, sub.node, y, q, l, r, s, ns, m)
    && LeftPlace(t.node, sub.node, y, q, s, ns, m, mid)
    && TakenOver(t.node, sub.node, l, r, if c.Top? then null else c.node, s, ns, mid, m')
  }

  /** The two moves, told for the tree without the successor. */
  lemma RelinkedTaken(c: Ctx, t: Tree, path: Ctx, sub: Tree, ns: set<Node>, root: Node, s: Node,
                      m: Memory, m1: Memory, mid: Memory, m': Memory)
    requires Zip(c, t, root, s, m) && ns == Nodes(t) + CtxNodes(c) && Successor(t, path, sub)
    requires Relinked(c, t, path, sub, ns, s, m, mid, m')
    requires var q, y := PathVia(c, t, path, t.node).node, RootOf(sub.right, s);
      q in m && (y != s ==> y in m) && m1 == Unhook(m, q, sub.node, y, s)
    ensures Taken(c, Lean(t, path, sub), sub.node, ns, s, m1, mid, m')
  {
    LeanNodes(t, path, sub);
    assert t.left.node in Nodes(t.left);
  }

  /** The tree with the successor in the node's place is in memory. */
  lemma SuccessorZip(c: Ctx, t: Tree, path: Ctx, sub: Tree, ns: set<Node>, root: Node, s: Node,
                     m: Memory, mid: Memory, root': Node, m': Memory)
    requires Zip(c, t, root, s, m) && ns == Nodes(t) + CtxNodes(c) && Successor(t, path, sub)
    requires Relinked(c, t, path, sub, ns, s, m, mid, m')
    requires root' == if c.Top? then sub.node else root
    ensures Zip(c, Fork(t.left, sub.node, t.color, Plug(path, sub.right)), root', s, m')
  {
    var m1 := WithoutSuccessor(c, t, path, sub, root, s, m);
    RelinkedTaken(c, t, path, sub, ns, root, s, m, m1, mid, m');
    TakenApart(c, Lean(t, path, sub), sub.node, ns, root, s, m1, mid, m');
    hide Relinked;
    hide Taken;
    hide Zip;
    TookPlaceBelow(c, Lean(t, path, sub), sub.node, ns, root, s, m1, mid, m');
    TookPlaceAbove(c, Lean(t, path, sub), sub.node, ns, root, s, m1, mid, m');
    ReplaceZip(c, Lean(t, path, sub), sub.node, root, s, m1, root', m');
  }

  /** The picture after the successor has taken the node's place, in focus where the successor came from. */
  lemma WithSuccessor(c: Ctx, t: Tree, path: Ctx, sub: Tree, ns: set<Node>, order: seq<Node>,
                      root: Node, s: Node, m: Memory, mid: Memory, root': Node, m': Memory)
    returns (pre: seq<Node>, post: seq<Node>)
    requires Focus(c, t, ns, order, root, s, m) && Successor(t, path, sub)
    requires Relinked(c, t, path, sub, ns, s, m, mid, m')
    requires root' == if c.Top? then sub.node else root
    ensures order == pre + [t.node] + post
    ensures Focus(PathVia(c, t, path, sub.node), sub.right, ns - {t.node}, pre + post, root', s, m')
  {
    hide Relinked;
    SuccessorZip(c, t, path, sub, ns, root, s, m, mid, root', m');
    pre, post := ReplacedOrder(c, t, path, sub, order);
    ReplacedNodes(t, path, sub);
    Refocus(c, t, path, sub, ns - {t.node}, pre + post, root', s, m');
  }

  lemma Refocus(c: Ctx, t: Tree, path: Ctx, sub: Tree, ns: set<Node>, order: seq<Node>, root: Node, s: Node, m: Memory)
    requires Successor(t, path, sub)
    requires Focus(c, Fork(t.left, sub.node, t.color, Plug(path, sub.right)), ns, order, root, s, m)
    ensures Focus(PathVia(c, t, path, sub.node), sub.right, ns, order, root, s, m)
  {
    var outer := InRight(c, sub.node, t.color, t.left);
    ZoomAcross(outer, Plug(path, sub.right), ns, order, root, s, m);
    FocusAppend(path, outer, sub.right, ns, order, root, s, m);
  }

  lemma SuccessorBalance(c: Ctx, t: Tree, path: Ctx, sub: Tree)
    requires RedBlack(Plug(c, t)) && Successor(t, path, sub)
    ensures var v := PathVia(c, t, path, sub.node);
      if sub.color == Red then RedBlack(Plug(v, sub.right)) else Deficit(v, sub.right)
  {
    var outer := InRight(c, t.node, t.color, t.left);
    AppendPlug(path, outer, sub);
    UnplugBalanced(Append(path, outer), sub);
    SplicedBalance(Append(path, outer), sub);
    StandIn(path, c, t.node, sub.node, t.color, t.left, BlackHeight(sub));
    if sub.color == Red { PlugBalanced(PathVia(c, t, path, sub.node), Leaf); }
  }

  lemma {:induction false} AppendPlug(inner: Ctx, outer: Ctx, t: Tree)
    ensures Plug(Append(inner, outer), t) == Plug(outer, Plug(inner, t))
  {
    if !inner.Top? { AppendPlug(inner.up, outer, Wrap(inner, t)); }
  }

  /** Which node leaves its place (`subst`) and which takes that place (`temp`), by the shape around `t`. */
  ghost predicate Chosen(t: Tree, path: Ctx, sub: Tree, subst: Node, temp: Node, s: Node) {
    && t.Fork?
    && if t.left.Leaf? then sub == t && subst == t.node && temp == RootOf(t.right, s)
       else if t.right.Leaf? then sub == t && subst == t.node && temp == RootOf(t.left, s)
       else Successor(t, path, sub) && subst == sub.node && temp == RootOf(sub.right, s)
  }

  lemma ChosenFacts(c: Ctx, t: Tree, path: Ctx, sub: Tree, subst: Node, temp: Node, root: Node, s: Node, m: Memory)
    requires Zip(c, t, root, s, m) && Chosen(t, path, sub, subst, temp, s)
    ensures subst in m && m[subst].color == sub.color
    ensures subst == root <==> c.Top? && (t.left.Leaf? || t.right.Leaf?)
    ensures subst == t.node <==> (t.left.Leaf? || t.right.Leaf?)
  {
    ZipRoot(c, t, root, s, m);
    if t.left.Fork? && t.right.Fork? {
      SuccessorFacts(c, t, path, sub, root, s, m);
    }
  }
}
