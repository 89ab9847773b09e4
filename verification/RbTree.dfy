/** The red-black tree: intrusive nodes, parent links and one sentinel for all missing children. */
module RbTree {
  import opened RbShape
  import opened RbSteps
  import opened RbBalance
  import opened RbSuccessor

  ghost function KeysOf(ns: set<Node>): Keys
    reads ns
  {
    map n | n in ns :: n.key
  }

  /** The state of the insertion's descent: focus `t` at path `c` in the tree `whole`. */
  ghost predicate Descending(whole: Tree, order: seq<Node>, c: Ctx, t: Tree, key: nat, ks: Keys,
                             root: Node, s: Node, m: Memory)
  {
    Zip(c, t, root, s, m) && Plug(c, t) == whole && Flat(c, t) == order && Splits(Before(c), After(c), key, ks)
  }

  lemma DescendStep(whole: Tree, order: seq<Node>, c: Ctx, t: Tree, key: nat, ks: Keys,
                    root: Node, s: Node, m: Memory)
    returns (c': Ctx, t': Tree)
    requires Descending(whole, order, c, t, key, ks, root, s, m) && t.Fork? && SortedBy(order, ks)
    ensures t.node in m && t.node in ks
    ensures c' == Descend(c, t, key < ks[t.node]) && t' == Child(t, key < ks[t.node]) && t' < t
    ensures Descending(whole, order, c', t', key, ks, root, s, m)
    ensures RootOf(t', s) == if key < ks[t.node] then m[t.node].left else m[t.node].right
  {
    SplitKeys(c, t, key, order, ks);
    var goLeft := key < ks[t.node];
    c', t' := Descend(c, t, goLeft), Child(t, goLeft);
    FlatDown(c, t, goLeft);
    ZipDown(c, t, goLeft, root, s, m);
  }

  class RbTree {
    var root: Node
    const sentinel: Node
    ghost var shape: Tree
    ghost var nodes: set<Node>

    ghost predicate Valid()
      reads this, nodes, sentinel`color
    {
      && nodes == Nodes(shape)
      && Zip(Top, shape, root, sentinel, Mem(nodes))
      && RedBlack(shape)
      && sentinel.color == Black
    }

    ghost function Order(): seq<Node>
      reads this
    {
      InOrder(shape)
    }

    constructor (s: Node)
      ensures sentinel == s && root == s && shape == Leaf && nodes == {}
    {
      root, sentinel := s, s;
      shape, nodes := Leaf, {};
    }

    /** The four nodes a rotation touches: `x`, its child `w`, the inner grandchild `b` (or the sentinel)
        and, unless `x` is the root, its parent `p`. */
    ghost predicate Turnable(x: Node, w: Node, b: Node, p: Node?, ns: set<Node>)
      reads this, x
    {
      && x in ns && w in ns && (b == sentinel || b in ns) && sentinel !in ns
      && x != w && b != x && b != w
      && (x != root ==> x.parent == p && p != null && p in ns && p != x && p != w && p != b)
    }

    method LeftRotate(node: Node, ghost w: Node, ghost b: Node, ghost p: Node?, ghost ns: set<Node>)
      requires Turnable(node, w, b, p, ns) && node.right == w && w.left == b
      modifies this`root, ns`left, ns`right, ns`parent
      ensures node.right == b && node.parent == w && node.left == old(node.left)
      ensures w.left == node && w.parent == old(node.parent) && w.right == old(w.right)
      ensures b != sentinel ==> b.parent == node && b.left == old(b.left) && b.right == old(b.right)
      ensures root == if node == old(root) then w else old(root)
      ensures node != old(root) ==>
        && p.parent == old(p.parent)
        && p.left == (if old(p.left) == node then w else old(p.left))
        && p.right == (if old(p.left) == node then old(p.right) else w)
      ensures Same(old(Mem(ns)), Mem(ns), ns - {node, w, b} - if node == old(root) then {} else {p})
    {
      var temp := node.right;
      node.right := temp.left;
      if temp.left != sentinel {
        temp.left.parent := node;
      }
      temp.parent := node.parent;
      if node == root {
        root := temp;
      } else if node == node.parent.left {
        node.parent.left := temp;
      } else {
        node.parent.right := temp;
      }
      temp.left := node;
      node.parent := temp;
    }

    method RotateLeft(node: Node, ghost c: Ctx, ghost t: Tree, ghost ns: set<Node>, ghost order: seq<Node>)
      requires Focus(c, t, ns, order, root, sentinel, Mem(ns)) && t.Fork? && t.node == node && t.right.Fork?
      modifies this`root, ns`left, ns`right, ns`parent
      ensures Focus(c, RotL(t), ns, order, root, sentinel, Mem(ns))
    {
      RotateLeftFacts(c, t, root, sentinel, Mem(ns));
      LeftRotate(node, t.right.node, RootOf(t.right.left, sentinel), if c.Top? then null else c.node, ns);
      RotLOrder(t);
      RotLNodes(t);
      RotateLeftZip(c, t, old(root), sentinel, old(Mem(ns)), root, Mem(ns));
    }

    method RightRotate(node: Node, ghost w: Node, ghost b: Node, ghost p: Node?, ghost ns: set<Node>)
      requires Turnable(node, w, b, p, ns) && node.left == w && w.right == b
      modifies this`root, ns`right, ns`left, ns`parent
      ensures node.left == b && node.parent == w && node.right == old(node.right)
      ensures w.right == node && w.parent == old(node.parent) && w.left == old(w.left)
      ensures b != sentinel ==> b.parent == node && b.right == old(b.right) && b.left == old(b.left)
      ensures root == if node == old(root) then w else old(root)
      ensures node != old(root) ==>
        && p.parent == old(p.parent)
        && p.right == (if old(p.right) == node then w else old(p.right))
        && p.left == (if old(p.right) == node then old(p.left) else w)
      ensures Same(old(Mem(ns)), Mem(ns), ns - {node, w, b} - if node == old(root) then {} else {p})
    {
      var temp := node.left;
      node.left := temp.right;
      if temp.right != sentinel {
        temp.right.parent := node;
      }
      temp.parent := node.parent;
      if node == root {
        root := temp;
      } else if node == node.parent.right {
        node.parent.right := temp;
      } else {
        node.parent.left := temp;
      }
      temp.right := node;
      node.parent := temp;
    }

    method RotateRight(node: Node, ghost c: Ctx, ghost t: Tree, ghost ns: set<Node>, ghost order: seq<Node>)
      requires Focus(c, t, ns, order, root, sentinel, Mem(ns)) && t.Fork? && t.node == node && t.left.Fork?
      modifies this`root, ns`right, ns`left, ns`parent
      ensures Focus(c, RotR(t), ns, order, root, sentinel, Mem(ns))
    {
      RotateRightFacts(c, t, root, sentinel, Mem(ns));
      RightRotate(node, t.left.node, RootOf(t.left.right, sentinel), if c.Top? then null else c.node, ns);
      RotROrder(t);
      RotRNodes(t);
      RotateRightZip(c, t, old(root), sentinel, old(Mem(ns)), root, Mem(ns));
    }

    /** The colouring macros. */
    method SetColor(node: Node, color: Color, ghost c: Ctx, ghost t: Tree, ghost ns: set<Node>, ghost order: seq<Node>)
      requires Focus(c, t, ns, order, root, sentinel, Mem(ns)) && t.Fork? && t.node == node
      modifies node`color
      ensures Focus(c, Paint(t, color), ns, order, root, sentinel, Mem(ns))
    {
      node.color := color;
      PaintZip(c, t, color, root, sentinel, old(Mem(ns)), Mem(ns));
    }

    /** The descent of the insertion: the node to hang a new one from, and on which side. In a red-black tree it
        takes at most 2 log2(n + 1) rounds. */
    method FindPlace(start: Node, key: nat, ghost order: seq<Node>)
      returns (temp: Node, goLeft: bool, ghost c: Ctx, ghost rounds: nat)
      requires Zip(Top, shape, root, sentinel, Mem(nodes))
      requires order == InOrder(shape) && SortedBy(order, KeysOf(nodes))
      requires shape.Fork? && start == root
      ensures Plug(c, Leaf) == shape && Zip(c, Leaf, root, sentinel, Mem(nodes))
      ensures !c.Top? && c.node == temp && c.InLeft? == goLeft
      ensures Splits(Before(c), After(c), key, KeysOf(nodes))
      ensures rounds == Depth(c) && (RedBlack(shape) ==> Pow2(rounds) <= (|order| + 1) * (|order| + 1))
    {
      temp := start;
      c, rounds := Top, 0;
      ghost var t, ks := shape, KeysOf(nodes);
      while true
        invariant Descending(shape, order, c, t, key, ks, root, sentinel, Mem(nodes))
        invariant t.Fork? && t.node == temp && rounds == Depth(c)
        decreases t
      {
        ghost var c', t' := DescendStep(shape, order, c, t, key, ks, root, sentinel, Mem(nodes));
        goLeft := key < temp.key;
        var p := if goLeft then temp.left else temp.right;
        c, t, rounds := c', t', rounds + 1;
        if p == sentinel {
          break;
        }
        temp := p;
      }
      if RedBlack(shape) { PathBound(c, Leaf); }
    }

    method InsertValue(start: Node, node: Node, ghost order: seq<Node>)
      returns (ghost c: Ctx, ghost rounds: nat)
      requires nodes == Nodes(shape) && Zip(Top, shape, root, sentinel, Mem(nodes))
      requires order == InOrder(shape) && SortedBy(order, KeysOf(nodes))
      requires shape.Fork? && start == root
      requires node !in nodes && node != sentinel
      modifies nodes`left, nodes`right, node`left, node`right, node`parent, node`color
      ensures Plug(c, Leaf) == shape && !c.Top?
      ensures Zip(c, Fork(Leaf, node, Red, Leaf), root, sentinel, Mem(nodes + {node}))
      ensures Splits(Before(c), After(c), node.key, old(KeysOf(nodes)))
      ensures RedBlack(shape) ==> Pow2(rounds) <= (|order| + 1) * (|order| + 1)
    {
      var temp, goLeft;
      temp, goLeft, c, rounds := FindPlace(start, node.key, order);
      ghost var m := Mem(nodes);
      PlugNodes(c, Leaf);
      Hang(temp, goLeft, node, nodes);
      FillZip(c, node, root, sentinel, m, root, Mem(nodes + {node}));
    }

    method Hang(temp: Node, goLeft: bool, node: Node, ghost ns: set<Node>)
      requires temp in ns && node !in ns
      modifies temp`left, temp`right, node`left, node`right, node`parent, node`color
      ensures temp.left == (if goLeft then node else old(temp.left))
      ensures temp.right == (if goLeft then old(temp.right) else node)
      ensures node.left == sentinel && node.right == sentinel && node.parent == temp && node.color == Red
      ensures Same(old(Mem(ns)), Mem(ns + {node}), ns - {temp})
    {
      if goLeft { temp.left := node; } else { temp.right := node; }
      node.parent := temp;
      node.left := sentinel;
      node.right := sentinel;
      node.color := Red;
    }

    /** Red uncle: parent and uncle turn black, the grandparent red. */
    method Recolor(p: Node, u: Node, g: Node, ghost c: Ctx, ghost t: Tree, ghost ns: set<Node>, ghost order: seq<Node>)
      requires Focus(c, t, ns, order, root, sentinel, Mem(ns))
      requires RedFocus(c, t) && !c.Top? && c.color == Red && IsRed(c.up.sibling)
      requires p == c.node && u == c.up.sibling.node && g == c.up.node
      modifies ns`color
      ensures Focus(c.up.up, Recolored(c, t), ns, order, root, sentinel, Mem(ns))
    {
      ghost var cg := c.up;
      ghost var pt, ut := Wrap(c, t), cg.sibling;
      ZoomOut(c, t, root, sentinel, Mem(ns));
      SetColor(p, Black, cg, pt, ns, order);
      pt := Paint(pt, Black);
      ZoomOut(cg, pt, root, sentinel, Mem(ns));
      ghost var cu :=
        if cg.InLeft? then InRight(cg.up, cg.node, cg.color, pt) else InLeft(cg.up, cg.node, cg.color, pt);
      ZoomIn(cu, ut, root, sentinel, Mem(ns));
      SetColor(u, Black, cu, ut, ns, order);
      ut := Paint(ut, Black);
      ZoomOut(cu, ut, root, sentinel, Mem(ns));
      SetColor(g, Red, cg.up, Wrap(cu, ut), ns, order);
    }

    /** The end of insertion's loop when the parent is a left child: black parent, red grandparent,
        right rotation there. */
    method SettleLeft(p: Node, g: Node, ghost c: Ctx, ghost t: Tree, ghost ns: set<Node>, ghost order: seq<Node>)
      returns (ghost c': Ctx)
      requires Focus(c, t, ns, order, root, sentinel, Mem(ns))
      requires RedFocus(c, t) && c.InLeft? && c.color == Red && c.up.InLeft? && !IsRed(c.up.sibling)
      requires p == c.node && g == c.up.node
      modifies this`root, ns`left, ns`right, ns`parent, ns`color
      ensures c' == InLeft(c.up.up, p, Black, Fork(c.sibling, g, Red, c.up.sibling))
      ensures Focus(c', t, ns, order, root, sentinel, Mem(ns)) && RedFocus(c', t)
    {
      ghost var cg := c.up;
      ghost var pt := Wrap(c, t);
      OuterFocus(c, t);
      ZoomOut(c, t, root, sentinel, Mem(ns));
      SetColor(p, Black, cg, pt, ns, order);
      pt := Paint(pt, Black);
      ZoomOut(cg, pt, root, sentinel, Mem(ns));
      SetColor(g, Red, cg.up, Wrap(cg, pt), ns, order);
      RotateRight(g, cg.up, Paint(Wrap(cg, pt), Red), ns, order);
      c' := InLeft(cg.up, p, Black, Fork(c.sibling, g, Red, cg.sibling));
      ZoomIn(c', t, root, sentinel, Mem(ns));
    }

    /** The end of insertion's loop when the parent is a right child: black parent, red grandparent,
        left rotation there. */
    method SettleRight(p: Node, g: Node, ghost c: Ctx, ghost t: Tree, ghost ns: set<Node>, ghost order: seq<Node>)
      returns (ghost c': Ctx)
      requires Focus(c, t, ns, order, root, sentinel, Mem(ns))
      requires RedFocus(c, t) && c.InRight? && c.color == Red && c.up.InRight? && !IsRed(c.up.sibling)
      requires p == c.node && g == c.up.node
      modifies this`root, ns`left, ns`right, ns`parent, ns`color
      ensures c' == InRight(c.up.up, p, Black, Fork(c.up.sibling, g, Red, c.sibling))
      ensures Focus(c', t, ns, order, root, sentinel, Mem(ns)) && RedFocus(c', t)
    {
      ghost var cg := c.up;
      ghost var pt := Wrap(c, t);
      OuterFocus(c, t);
      ZoomOut(c, t, root, sentinel, Mem(ns));
      SetColor(p, Black, cg, pt, ns, order);
      pt := Paint(pt, Black);
      ZoomOut(cg, pt, root, sentinel, Mem(ns));
      SetColor(g, Red, cg.up, Wrap(cg, pt), ns, order);
      RotateLeft(g, cg.up, Paint(Wrap(cg, pt), Red), ns, order);
      c' := InRight(cg.up, p, Black, Fork(cg.sibling, g, Red, c.sibling));
      ZoomIn(c', t, root, sentinel, Mem(ns));
    }

    /** One round of insertion's loop when the parent is a left child. */
    method LiftLeft(start: Node, ghost c: Ctx, ghost t: Tree, ghost ns: set<Node>, ghost order: seq<Node>)
      returns (node: Node, ghost c': Ctx, ghost t': Tree)
      requires Focus(c, t, ns, order, root, sentinel, Mem(ns)) && sentinel.color == Black
      requires RedFocus(c, t) && t.node == start && !c.Top? && c.color == Red && c.up.InLeft?
      modifies this`root, ns`left, ns`right, ns`parent, ns`color
      ensures Focus(c', t', ns, order, root, sentinel, Mem(ns)) && RedFocus(c', t') && t'.node == node
      ensures Depth(c') < Depth(c)
    {
      hide Nodes;
      hide Flat;
      hide Distinct;
      ZoomOut(c, t, root, sentinel, Mem(ns));
      ZoomOut(c.up, Wrap(c, t), root, sentinel, Mem(ns));
      node, c', t' := start, c, t;
      var temp := node.parent.parent.right;
      if temp.color == Red {
        Recolor(node.parent, temp, node.parent.parent, c, t, ns, order);
        node := node.parent.parent;
        RecoloredFocus(c, t);
        c', t' := c.up.up, Recolored(c, t);
      } else {
        if node == node.parent.right {
          node := node.parent;
          InnerFocus(c, t);
          RotateLeft(node, c.up, Wrap(c, t), ns, order);
          c', t' := InLeft(c.up, t.node, Red, t.right), Fork(c.sibling, c.node, Red, t.left);
          ZoomIn(c', t', root, sentinel, Mem(ns));
        }
        ZoomOut(c', t', root, sentinel, Mem(ns));
        ZoomOut(c'.up, Wrap(c', t'), root, sentinel, Mem(ns));
        c' := SettleLeft(node.parent, node.parent.parent, c', t', ns, order);
      }
    }

    /** One round of insertion's loop when the parent is a right child. */
    method LiftRight(start: Node, ghost c: Ctx, ghost t: Tree, ghost ns: set<Node>, ghost order: seq<Node>)
      returns (node: Node, ghost c': Ctx, ghost t': Tree)
      requires Focus(c, t, ns, order, root, sentinel, Mem(ns)) && sentinel.color == Black
      requires RedFocus(c, t) && t.node == start && !c.Top? && c.color == Red && c.up.InRight?
      modifies this`root, ns`right, ns`left, ns`parent, ns`color
      ensures Focus(c', t', ns, order, root, sentinel, Mem(ns)) && RedFocus(c', t') && t'.node == node
      ensures Depth(c') < Depth(c)
    {
      hide Nodes;
      hide Flat;
      hide Distinct;
      ZoomOut(c, t, root, sentinel, Mem(ns));
      ZoomOut(c.up, Wrap(c, t), root, sentinel, Mem(ns));
      node, c', t' := start, c, t;
      var temp := node.parent.parent.left;
      if temp.color == Red {
        Recolor(node.parent, temp, node.parent.parent, c, t, ns, order);
        node := node.parent.parent;
        RecoloredFocus(c, t);
        c', t' := c.up.up, Recolored(c, t);
      } else {
        if node == node.parent.left {
          node := node.parent;
          InnerFocus(c, t);
          RotateRight(node, c.up, Wrap(c, t), ns, order);
          c', t' := InRight(c.up, t.node, Red, t.left), Fork(t.right, c.node, Red, c.sibling);
          ZoomIn(c', t', root, sentinel, Mem(ns));
        }
        ZoomOut(c', t', root, sentinel, Mem(ns));
        ZoomOut(c'.up, Wrap(c', t'), root, sentinel, Mem(ns));
        c' := SettleRight(node.parent, node.parent.parent, c', t', ns, order);
      }
    }

    /** Insertion's rebalancing loop, from a new red node, and the last step that blackens the root. */
    method Rebalance(start: Node, ghost c0: Ctx, ghost t0: Tree, ghost ns: set<Node>, ghost order: seq<Node>)
      requires Focus(c0, t0, ns, order, root, sentinel, Mem(ns)) && sentinel.color == Black
      requires RedFocus(c0, t0) && t0.node == start
      modifies this`root, this`shape, this`nodes, ns`left, ns`right, ns`parent, ns`color
      ensures nodes == Nodes(shape) == ns && Zip(Top, shape, root, sentinel, Mem(ns))
      ensures RedBlack(shape) && InOrder(shape) == order
    {
      var node := start;
      ghost var c, t := c0, t0;
      ZipRoot(c, t, root, sentinel, Mem(ns));
      while node != root && node.parent.color == Red
        invariant Focus(c, t, ns, order, root, sentinel, Mem(ns)) && RedFocus(c, t) && t.node == node
        invariant node != root <==> !c.Top?
        decreases Depth(c)
      {
        ZoomOut(c, t, root, sentinel, Mem(ns));
        ZoomOut(c.up, Wrap(c, t), root, sentinel, Mem(ns));
        if node.parent == node.parent.parent.left {
          node, c, t := LiftLeft(node, c, t, ns, order);
        } else {
          node, c, t := LiftRight(node, c, t, ns, order);
        }
        ZipRoot(c, t, root, sentinel, Mem(ns));
      }
      if !c.Top? { ZoomOut(c, t, root, sentinel, Mem(ns)); }
      BlackenRoot(c, t, ns, order);
    }

    method BlackenRoot(ghost c: Ctx, ghost t: Tree, ghost ns: set<Node>, ghost order: seq<Node>)
      requires Focus(c, t, ns, order, root, sentinel, Mem(ns))
      requires RedFocus(c, t) && (c.Top? || c.color == Black)
      modifies this`root, this`shape, this`nodes, ns`color
      ensures root == old(root) && nodes == Nodes(shape) == ns && Zip(Top, shape, root, sentinel, Mem(ns))
      ensures RedBlack(shape) && InOrder(shape) == order
    {
      hide *;
      ghost var m := Mem(ns);
      RootIn(c, t, ns, order, root, sentinel, m);
      PaintRoot(ns);
      RootBlackenedZip(c, t, ns, order, root, sentinel, m, Mem(ns));
      shape := RootBlackened(c, t);
      nodes := ns;
    }

    method PaintRoot(ghost ns: set<Node>)
      requires root in ns
      modifies root`color
      ensures Mem(ns) == old(Mem(ns))[root := old(Mem(ns))[root].(color := Black)]
    {
      root.color := Black;
    }

    /** Hangs a node into the tree: in the order it comes after every node with a key up to its own, and
        before every node with a larger one. */
    method Insert(node: Node) returns (ghost pre: seq<Node>, ghost post: seq<Node>)
      requires Valid() && node !in nodes && node != sentinel
      requires SortedBy(Order(), KeysOf(nodes))
      modifies this`root, this`shape, this`nodes, nodes`left, nodes`right, nodes`parent, nodes`color
      modifies node`left, node`right, node`parent, node`color
      ensures Valid() && nodes == old(nodes) + {node}
      ensures old(Order()) == pre + post && Order() == pre + [node] + post
      ensures Splits(pre, post, node.key, old(KeysOf(nodes)))
    {
      ghost var was := Order();
      if root == sentinel {
        node.parent := null;
        node.left := sentinel;
        node.right := sentinel;
        node.color := Black;
        root := node;
        shape, nodes, pre, post := Fork(Leaf, node, Black, Leaf), {node}, [], [];
        SingleZip(node, sentinel, Mem(nodes));
        return;
      }
      ghost var ns := nodes + {node};
      ghost var c, rounds := InsertValue(root, node, was);
      pre, post := Before(c), After(c);
      ghost var t := HungFocus(c, node);
      Rebalance(node, c, t, ns, pre + [node] + post);
    }

    /** Deletion, red sibling on the right: black sibling, red parent, left rotation. */
    method TurnRedRight(p: Node, w: Node, ghost c: Ctx, ghost t: Tree, ghost ns: set<Node>, ghost order: seq<Node>)
      returns (ghost c': Ctx)
      requires Focus(c, t, ns, order, root, sentinel, Mem(ns))
      requires Deficit(c, t) && c.InLeft? && !IsRed(t) && IsRed(c.sibling) && p == c.node && w == c.sibling.node
      modifies this`root, ns`left, ns`right, ns`parent, ns`color
      ensures c' == InLeft(InLeft(c.up, w, Black, c.sibling.right), p, Red, c.sibling.left)
      ensures Focus(c', t, ns, order, root, sentinel, Mem(ns)) && Deficit(c', t)
    {
      ghost var a, wt := Across(c, t), c.sibling;
      RedSiblingTurned(c, t);
      ZoomAcross(c, t, ns, order, root, sentinel, Mem(ns));
      SetColor(w, Black, a, wt, ns, order);
      wt := Paint(wt, Black);
      ZoomAcross(a, wt, ns, order, root, sentinel, Mem(ns));
      SetColor(p, Red, c.up, Wrap(a, wt), ns, order);
      RotateLeft(p, c.up, Paint(Wrap(a, wt), Red), ns, order);
      c' := InLeft(InLeft(c.up, w, Black, c.sibling.right), p, Red, c.sibling.left);
      ZoomAcross(c'.up, Wrap(c', t), ns, order, root, sentinel, Mem(ns));
      ZoomAcross(c', t, ns, order, root, sentinel, Mem(ns));
    }

    /** Deletion, black sibling on the right with its red child inside: that child turns black, the
        sibling red, right rotation at the sibling. */
    method TurnInnerRight(w: Node, ghost c: Ctx, ghost t: Tree, ghost ns: set<Node>, ghost order: seq<Node>)
      returns (ghost c': Ctx)
      requires Focus(c, t, ns, order, root, sentinel, Mem(ns))
      requires Deficit(c, t) && c.InLeft? && !IsRed(t) && c.sibling.Fork? && c.sibling.color == Black
      requires w == c.sibling.node
      requires IsRed(c.sibling.left) && !IsRed(c.sibling.right)
      modifies this`root, ns`left, ns`right, ns`parent, ns`color
      ensures c' == Beside(c, RotR(Fork(Paint(c.sibling.left, Black), w, Red, c.sibling.right)))
      ensures Focus(c', t, ns, order, root, sentinel, Mem(ns)) && Deficit(c', t)
    {
      ghost var a, wt := Across(c, t), c.sibling;
      InnerTurned(c, t);
      ZoomAcross(c, t, ns, order, root, sentinel, Mem(ns));
      ChildCells(wt, sentinel, Mem(ns));
      ghost var i := InLeft(a, w, Black, wt.right);
      ZoomAcross(i, wt.left, ns, order, root, sentinel, Mem(ns));
      SetColor(w.left, Black, i, wt.left, ns, order);
      ZoomAcross(i, Paint(wt.left, Black), ns, order, root, sentinel, Mem(ns));
      wt := Fork(Paint(wt.left, Black), w, Black, wt.right);
      SetColor(w, Red, a, wt, ns, order);
      RotateRight(w, a, Paint(wt, Red), ns, order);
      c' := Beside(c, RotR(Paint(wt, Red)));
      ZoomAcross(c', t, ns, order, root, sentinel, Mem(ns));
    }

    /** Deletion, black sibling on the right with a red outer child: the sibling takes the parent's
        colour, parent and outer child turn black, left rotation at the parent. */
    method TurnOuterRight(p: Node, w: Node, ghost c: Ctx, ghost t: Tree, ghost ns: set<Node>, ghost order: seq<Node>)
      requires Focus(c, t, ns, order, root, sentinel, Mem(ns))
      requires Deficit(c, t) && c.InLeft? && !IsRed(t) && c.sibling.Fork? && c.sibling.color == Black
      requires IsRed(c.sibling.right) && p == c.node && w == c.sibling.node
      modifies this`root, ns`left, ns`right, ns`parent, ns`color
      ensures Focus(c.up, Settled(c, t), ns, order, root, sentinel, Mem(ns))
    {
      ghost var a, wt := Across(c, t), c.sibling;
      ZoomAcross(c, t, ns, order, root, sentinel, Mem(ns));
      ZoomOut(c, t, root, sentinel, Mem(ns));
      SetColor(w, p.color, a, wt, ns, order);
      wt := Paint(wt, c.color);
      ZoomAcross(a, wt, ns, order, root, sentinel, Mem(ns));
      SetColor(p, Black, c.up, Wrap(a, wt), ns, order);
      a := InRight(c.up, p, Black, t);
      ZoomAcross(a, wt, ns, order, root, sentinel, Mem(ns));
      ChildCells(wt, sentinel, Mem(ns));
      ghost var o := InRight(a, w, c.color, wt.left);
      ZoomAcross(o, wt.right, ns, order, root, sentinel, Mem(ns));
      SetColor(w.right, Black, o, wt.right, ns, order);
      ZoomAcross(o, Paint(wt.right, Black), ns, order, root, sentinel, Mem(ns));
      wt := Fork(wt.left, w, c.color, Paint(wt.right, Black));
      ZoomAcross(a, wt, ns, order, root, sentinel, Mem(ns));
      RotateLeft(p, c.up, Wrap(a, wt), ns, order);
    }

    /** Deletion, black sibling without red children: the sibling turns red. */
    method Redden(w: Node, ghost c: Ctx, ghost t: Tree, ghost ns: set<Node>, ghost order: seq<Node>)
      requires Focus(c, t, ns, order, root, sentinel, Mem(ns)) && !c.Top? && c.sibling.Fork? && w == c.sibling.node
      modifies ns`color
      ensures Focus(c.up, Wrap(Beside(c, Paint(c.sibling, Red)), t), ns, order, root, sentinel, Mem(ns))
    {
      ZoomAcross(c, t, ns, order, root, sentinel, Mem(ns));
      SetColor(w, Red, Across(c, t), c.sibling, ns, order);
      ZoomAcross(Across(c, t), Paint(c.sibling, Red), ns, order, root, sentinel, Mem(ns));
    }

    /** The whole round when the black sibling has no red child: the deficit moves up to the parent. */
    method PassUp(start: Node, w: Node, ghost c: Ctx, ghost t: Tree, ghost ns: set<Node>, ghost order: seq<Node>)
      returns (temp: Node, ghost t': Tree)
      requires Focus(c, t, ns, order, root, sentinel, Mem(ns)) && Deficit(c, t) && !c.Top? && !IsRed(t)
      requires start.parent == c.node && c.sibling.Fork? && c.sibling.color == Black && w == c.sibling.node
      requires !IsRed(c.sibling.left) && !IsRed(c.sibling.right)
      modifies ns`color
      ensures Focus(c.up, t', ns, order, root, sentinel, Mem(ns)) && Deficit(c.up, t')
      ensures t'.Fork? && temp == t'.node && t'.color == c.color && (!c.up.Top? ==> temp.parent == c.up.node)
    {
      DeficitUp(c, t);
      Redden(w, c, t, ns, order);
      temp := start.parent;
      t' := Wrap(Beside(c, Paint(c.sibling, Red)), t);
      if !c.up.Top? { ZoomOut(c.up, t', root, sentinel, Mem(ns)); }
    }

    /** Deletion, black sibling on the right with a red child: its outer child is red, if need be after a rotation. */
    method FaceOutRight(start: Node, v: Node, ghost c: Ctx, ghost t: Tree, ghost ns: set<Node>, ghost order: seq<Node>)
      returns (w: Node, ghost c': Ctx)
      requires Focus(c, t, ns, order, root, sentinel, Mem(ns)) && sentinel.color == Black
      requires Deficit(c, t) && c.InLeft? && !IsRed(t) && start == RootOf(t, sentinel) && start.parent == c.node
      requires c.sibling.Fork? && c.sibling.color == Black && v == c.sibling.node
      requires IsRed(c.sibling.left) || IsRed(c.sibling.right)
      modifies this`root, ns`left, ns`right, ns`parent, ns`color
      ensures Focus(c', t, ns, order, root, sentinel, Mem(ns)) && Deficit(c', t)
      ensures c'.InLeft? && c'.sibling.Fork? && c'.sibling.color == Black && IsRed(c'.sibling.right)
      ensures w == c'.sibling.node && start.parent == c'.node
    {
      ZoomOut(c, t, root, sentinel, Mem(ns));
      ChildCells(c.sibling, sentinel, Mem(ns));
      w, c' := v, c;
      if w.right.color == Black {
        c' := TurnInnerRight(w, c, t, ns, order);
        ZoomOut(c', t, root, sentinel, Mem(ns));
        w := start.parent.right;
      }
    }

    /** The rest of the round when the black sibling on the right has a red child: nothing is left to repair. */
    method BorrowRight(start: Node, v: Node, ghost c: Ctx, ghost t: Tree, ghost ns: set<Node>, ghost order: seq<Node>)
      returns (temp: Node, ghost t': Tree)
      requires Focus(c, t, ns, order, root, sentinel, Mem(ns)) && sentinel.color == Black
      requires Deficit(c, t) && c.InLeft? && !IsRed(t) && start == RootOf(t, sentinel) && start.parent == c.node
      requires c.sibling.Fork? && c.sibling.color == Black && v == c.sibling.node
      requires IsRed(c.sibling.left) || IsRed(c.sibling.right)
      modifies this`root, ns`left, ns`right, ns`parent, ns`color
      ensures Focus(Top, t', ns, order, root, sentinel, Mem(ns)) && Deficit(Top, t') && temp == RootOf(t', sentinel)
    {
      hide *;
      var w;
      ghost var c';
      w, c' := FaceOutRight(start, v, c, t, ns, order);
      OuterTurned(c', t);
      TurnOuterRight(start.parent, w, c', t, ns, order);
      temp := root;
      t' := Plug(c'.up, Settled(c', t));
      FocusWhole(c'.up, Settled(c', t), ns, order, root, sentinel, Mem(ns));
    }

    /** The rest of the round, with a black sibling on the right. */
    method BlackSiblingRight(start: Node, v: Node, ghost c: Ctx, ghost t: Tree, ghost ns: set<Node>,
                             ghost order: seq<Node>)
      returns (temp: Node, ghost c': Ctx, ghost t': Tree)
      requires Focus(c, t, ns, order, root, sentinel, Mem(ns)) && sentinel.color == Black
      requires Deficit(c, t) && c.InLeft? && !IsRed(t) && start == RootOf(t, sentinel) && start.parent == c.node
      requires c.sibling.Fork? && c.sibling.color == Black && v == c.sibling.node
      modifies this`root, ns`left, ns`right, ns`parent, ns`color
      ensures Focus(c', t', ns, order, root, sentinel, Mem(ns)) && Deficit(c', t')
      ensures temp == RootOf(t', sentinel) && (!c'.Top? ==> temp.parent == c'.node)
      ensures c' == (if !IsRed(c.sibling.left) && !IsRed(c.sibling.right) then c.up else Top)
      ensures c' == c.up && c.color == Red ==> IsRed(t') || c'.Top?
    {
      ZoomOut(c, t, root, sentinel, Mem(ns));
      ChildCells(c.sibling, sentinel, Mem(ns));
      if v.left.color == Black && v.right.color == Black {
        temp, t' := PassUp(start, v, c, t, ns, order);
        c' := c.up;
      } else {
        temp, t' := BorrowRight(start, v, c, t, ns, order);
        c' := Top;
      }
    }

    /** One round of deletion's loop when the short subtree is a left child. */
    method CatchUpLeft(start: Node, ghost c: Ctx, ghost t: Tree, ghost ns: set<Node>, ghost order: seq<Node>)
      returns (temp: Node, ghost c': Ctx, ghost t': Tree)
      requires Focus(c, t, ns, order, root, sentinel, Mem(ns)) && sentinel.color == Black
      requires Deficit(c, t) && c.InLeft? && !IsRed(t) && start == RootOf(t, sentinel) && start.parent == c.node
      modifies this`root, ns`left, ns`right, ns`parent, ns`color
      ensures Focus(c', t', ns, order, root, sentinel, Mem(ns)) && Deficit(c', t')
      ensures temp == RootOf(t', sentinel) && (!c'.Top? ==> temp.parent == c'.node)
      ensures IsRed(t') || Depth(c') < Depth(c)
    {
      c' := c;
      SiblingExists(c, t);
      ZoomOut(c, t, root, sentinel, Mem(ns));
      var w := start.parent.right;
      if w.color == Red {
        c' := TurnRedRight(start.parent, w, c, t, ns, order);
        ZoomOut(c', t, root, sentinel, Mem(ns));
        SiblingExists(c', t);
        w := start.parent.right;
      }
      temp, c', t' := BlackSiblingRight(start, w, c', t, ns, order);
    }

    /** Deletion, red sibling on the left: black sibling, red parent, right rotation. */
    method TurnRedLeft(p: Node, w: Node, ghost c: Ctx, ghost t: Tree, ghost ns: set<Node>, ghost order: seq<Node>)
      returns (ghost c': Ctx)
      requires Focus(c, t, ns, order, root, sentinel, Mem(ns))
      requires Deficit(c, t) && c.InRight? && !IsRed(t) && IsRed(c.sibling) && p == c.node && w == c.sibling.node
      modifies this`root, ns`right, ns`left, ns`parent, ns`color
      ensures c' == InRight(InRight(c.up, w, Black, c.sibling.left), p, Red, c.sibling.right)
      ensures Focus(c', t, ns, order, root, sentinel, Mem(ns)) && Deficit(c', t)
    {
      ghost var a, wt := Across(c, t), c.sibling;
      RedSiblingTurned(c, t);
      ZoomAcross(c, t, ns, order, root, sentinel, Mem(ns));
      SetColor(w, Black, a, wt, ns, order);
      wt := Paint(wt, Black);
      ZoomAcross(a, wt, ns, order, root, sentinel, Mem(ns));
      SetColor(p, Red, c.up, Wrap(a, wt), ns, order);
      RotateRight(p, c.up, Paint(Wrap(a, wt), Red), ns, order);
      c' := InRight(InRight(c.up, w, Black, c.sibling.left), p, Red, c.sibling.right);
      ZoomAcross(c'.up, Wrap(c', t), ns, order, root, sentinel, Mem(ns));
      ZoomAcross(c', t, ns, order, root, sentinel, Mem(ns));
    }

    /** Deletion, black sibling on the left with its red child inside: that child turns black, the
        sibling red, left rotation at the sibling. */
    method TurnInnerLeft(w: Node, ghost c: Ctx, ghost t: Tree, ghost ns: set<Node>, ghost order: seq<Node>)
      returns (ghost c': Ctx)
      requires Focus(c, t, ns, order, root, sentinel, Mem(ns))
      requires Deficit(c, t) && c.InRight? && !IsRed(t) && c.sibling.Fork? && c.sibling.color == Black
      requires w == c.sibling.node
      requires IsRed(c.sibling.right) && !IsRed(c.sibling.left)
      modifies this`root, ns`right, ns`left, ns`parent, ns`color
      ensures c' == Beside(c, RotL(Fork(c.sibling.left, w, Red, Paint(c.sibling.right, Black))))
      ensures Focus(c', t, ns, order, root, sentinel, Mem(ns)) && Deficit(c', t)
    {
      ghost var a, wt := Across(c, t), c.sibling;
      InnerTurned(c, t);
      ZoomAcross(c, t, ns, order, root, sentinel, Mem(ns));
      ChildCells(wt, sentinel, Mem(ns));
      ghost var i := InRight(a, w, Black, wt.left);
      ZoomAcross(i, wt.right, ns, order, root, sentinel, Mem(ns));
      SetColor(w.right, Black, i, wt.right, ns, order);
      ZoomAcross(i, Paint(wt.right, Black), ns, order, root, sentinel, Mem(ns));
      wt := Fork(wt.left, w, Black, Paint(wt.right, Black));
      SetColor(w, Red, a, wt, ns, order);
      RotateLeft(w, a, Paint(wt, Red), ns, order);
      c' := Beside(c, RotL(Paint(wt, Red)));
      ZoomAcross(c', t, ns, order, root, sentinel, Mem(ns));
    }

    /** Deletion, black sibling on the left with a red outer child: the sibling takes the parent's
        colour, parent and outer child turn black, right rotation at the parent. */
    method TurnOuterLeft(p: Node, w: Node, ghost c: Ctx, ghost t: Tree, ghost ns: set<Node>, ghost order: seq<Node>)
      requires Focus(c, t, ns, order, root, sentinel, Mem(ns))
      requires Deficit(c, t) && c.InRight? && !IsRed(t) && c.sibling.Fork? && c.sibling.color == Black
      requires IsRed(c.sibling.left) && p == c.node && w == c.sibling.node
      modifies this`root, ns`right, ns`left, ns`parent, ns`color
      ensures Focus(c.up, Settled(c, t), ns, order, root, sentinel, Mem(ns))
    {
      ghost var a, wt := Across(c, t), c.sibling;
      ZoomAcross(c, t, ns, order, root, sentinel, Mem(ns));
      ZoomOut(c, t, root, sentinel, Mem(ns));
      SetColor(w, p.color, a, wt, ns, order);
      wt := Paint(wt, c.color);
      ZoomAcross(a, wt, ns, order, root, sentinel, Mem(ns));
      SetColor(p, Black, c.up, Wrap(a, wt), ns, order);
      a := InLeft(c.up, p, Black, t);
      ZoomAcross(a, wt, ns, order, root, sentinel, Mem(ns));
      ChildCells(wt, sentinel, Mem(ns));
      ghost var o := InLeft(a, w, c.color, wt.right);
      ZoomAcross(o, wt.left, ns, order, root, sentinel, Mem(ns));
      SetColor(w.left, Black, o, wt.left, ns, order);
      ZoomAcross(o, Paint(wt.left, Black), ns, order, root, sentinel, Mem(ns));
      wt := Fork(Paint(wt.left, Black), w, c.color, wt.right);
      ZoomAcross(a, wt, ns, order, root, sentinel, Mem(ns));
      RotateRight(p, c.up, Wrap(a, wt), ns, order);
    }

    /** Deletion, black sibling on the left with a red child: its outer child is red, if need be after a rotation. */
    method FaceOutLeft(start: Node, v: Node, ghost c: Ctx, ghost t: Tree, ghost ns: set<Node>, ghost order: seq<Node>)
      returns (w: Node, ghost c': Ctx)
      requires Focus(c, t, ns, order, root, sentinel, Mem(ns)) && sentinel.color == Black
      requires Deficit(c, t) && c.InRight? && !IsRed(t) && start == RootOf(t, sentinel) && start.parent == c.node
      requires c.sibling.Fork? && c.sibling.color == Black && v == c.sibling.node
      requires IsRed(c.sibling.left) || IsRed(c.sibling.right)
      modifies this`root, ns`left, ns`right, ns`parent, ns`color
      ensures Focus(c', t, ns, order, root, sentinel, Mem(ns)) && Deficit(c', t)
      ensures c'.InRight? && c'.sibling.Fork? && c'.sibling.color == Black && IsRed(c'.sibling.left)
      ensures w == c'.sibling.node && start.parent == c'.node
    {
      ZoomOut(c, t, root, sentinel, Mem(ns));
      ChildCells(c.sibling, sentinel, Mem(ns));
      w, c' := v, c;
      if w.left.color == Black {
        c' := TurnInnerLeft(w, c, t, ns, order);
        ZoomOut(c', t, root, sentinel, Mem(ns));
        w := start.parent.left;
      }
    }

    /** The rest of the round when the black sibling on the left has a red child: nothing is left to repair. */
    method BorrowLeft(start: Node, v: Node, ghost c: Ctx, ghost t: Tree, ghost ns: set<Node>, ghost order: seq<Node>)
      returns (temp: Node, ghost t': Tree)
      requires Focus(c, t, ns, order, root, sentinel, Mem(ns)) && sentinel.color == Black
      requires Deficit(c, t) && c.InRight? && !IsRed(t) && start == RootOf(t, sentinel) && start.parent == c.node
      requires c.sibling.Fork? && c.sibling.color == Black && v == c.sibling.node
      requires IsRed(c.sibling.left) || IsRed(c.sibling.right)
      modifies this`root, ns`left, ns`right, ns`parent, ns`color
      ensures Focus(Top, t', ns, order, root, sentinel, Mem(ns)) && Deficit(Top, t') && temp == RootOf(t', sentinel)
    {
      hide *;
      var w;
      ghost var c';
      w, c' := FaceOutLeft(start, v, c, t, ns, order);
      OuterTurned(c', t);
      TurnOuterLeft(start.parent, w, c', t, ns, order);
      temp := root;
      t' := Plug(c'.up, Settled(c', t));
      FocusWhole(c'.up, Settled(c', t), ns, order, root, sentinel, Mem(ns));
    }

    /** The rest of the round, with a black sibling on the left. */
    method BlackSiblingLeft(start: Node, v: Node, ghost c: Ctx, ghost t: Tree, ghost ns: set<Node>,
                            ghost order: seq<Node>)
      returns (temp: Node, ghost c': Ctx, ghost t': Tree)
      requires Focus(c, t, ns, order, root, sentinel, Mem(ns)) && sentinel.color == Black
      requires Deficit(c, t) && c.InRight? && !IsRed(t) && start == RootOf(t, sentinel) && start.parent == c.node
      requires c.sibling.Fork? && c.sibling.color == Black && v == c.sibling.node
      modifies this`root, ns`left, ns`right, ns`parent, ns`color
      ensures Focus(c', t', ns, order, root, sentinel, Mem(ns)) && Deficit(c', t')
      ensures temp == RootOf(t', sentinel) && (!c'.Top? ==> temp.parent == c'.node)
      ensures c' == (if !IsRed(c.sibling.left) && !IsRed(c.sibling.right) then c.up else Top)
      ensures c' == c.up && c.color == Red ==> IsRed(t') || c'.Top?
    {
      ZoomOut(c, t, root, sentinel, Mem(ns));
      ChildCells(c.sibling, sentinel, Mem(ns));
      if v.left.color == Black && v.right.color == Black {
        temp, t' := PassUp(start, v, c, t, ns, order);
        c' := c.up;
      } else {
        temp, t' := BorrowLeft(start, v, c, t, ns, order);
        c' := Top;
      }
    }

    /** One round of deletion's loop when the short subtree is a right child. */
    method CatchUpRight(start: Node, ghost c: Ctx, ghost t: Tree, ghost ns: set<Node>, ghost order: seq<Node>)
      returns (temp: Node, ghost c': Ctx, ghost t': Tree)
      requires Focus(c, t, ns, order, root, sentinel, Mem(ns)) && sentinel.color == Black
      requires Deficit(c, t) && c.InRight? && !IsRed(t) && start == RootOf(t, sentinel) && start.parent == c.node
      modifies this`root, ns`left, ns`right, ns`parent, ns`color
      ensures Focus(c', t', ns, order, root, sentinel, Mem(ns)) && Deficit(c', t')
      ensures temp == RootOf(t', sentinel) && (!c'.Top? ==> temp.parent == c'.node)
      ensures IsRed(t') || Depth(c') < Depth(c)
    {
      c' := c;
      SiblingExists(c, t);
      ZoomOut(c, t, root, sentinel, Mem(ns));
      var w := start.parent.left;
      if w.color == Red {
        c' := TurnRedLeft(start.parent, w, c, t, ns, order);
        ZoomOut(c', t, root, sentinel, Mem(ns));
        SiblingExists(c', t);
        w := start.parent.left;
      }
      temp, c', t' := BlackSiblingLeft(start, w, c', t, ns, order);
    }

    /** Deletion's rebalancing loop, from the child that took the place of a removed black node. */
    method DeleteLoop(start: Node, ghost c0: Ctx, ghost t0: Tree, ghost ns: set<Node>, ghost order: seq<Node>)
      returns (temp: Node, ghost c: Ctx, ghost t: Tree)
      requires Focus(c0, t0, ns, order, root, sentinel, Mem(ns)) && sentinel.color == Black
      requires Deficit(c0, t0) && start == RootOf(t0, sentinel) && (!c0.Top? ==> start.parent == c0.node)
      requires start == root <==> c0.Top?
      modifies this`root, ns`left, ns`right, ns`parent, ns`color
      ensures Focus(c, t, ns, order, root, sentinel, Mem(ns)) && sentinel.color == Black
      ensures Deficit(c, t) && temp == RootOf(t, sentinel) && (c.Top? || IsRed(t))
    {
      temp, c, t := start, c0, t0;
      while temp != root && temp.color == Black
        invariant Focus(c, t, ns, order, root, sentinel, Mem(ns)) && Deficit(c, t)
        invariant temp == RootOf(t, sentinel) && (!c.Top? ==> temp.parent == c.node)
        invariant temp == root <==> c.Top?
        decreases if IsRed(t) then 0 else Depth(c)
      {
        ZoomOut(c, t, root, sentinel, Mem(ns));
        if temp == temp.parent.left {
          temp, c, t := CatchUpLeft(temp, c, t, ns, order);
        } else {
          temp, c, t := CatchUpRight(temp, c, t, ns, order);
        }
        ZipRoot(c, t, root, sentinel, Mem(ns));
      }
    }

    /** The loop, and the last step that blackens where it ended. */
    method DeleteFixup(start: Node, ghost c0: Ctx, ghost t0: Tree, ghost ns: set<Node>, ghost order: seq<Node>)
      requires Focus(c0, t0, ns, order, root, sentinel, Mem(ns)) && sentinel.color == Black
      requires Deficit(c0, t0) && !c0.Top? && start == RootOf(t0, sentinel) && start.parent == c0.node
      modifies this`root, this`shape, this`nodes, ns`left, ns`right, ns`parent, ns`color, sentinel`color
      ensures nodes == Nodes(shape) == ns && Zip(Top, shape, root, sentinel, Mem(ns))
      ensures RedBlack(shape) && InOrder(shape) == order && sentinel.color == Black
    {
      ZipRoot(c0, t0, root, sentinel, Mem(ns));
      var temp;
      ghost var c, t;
      temp, c, t := DeleteLoop(start, c0, t0, ns, order);
      ghost var whole := BlackenFocus(temp, c, t, ns, order);
      Record(whole, ns);
    }

    /** The picture the heap now shows becomes the recorded one. */
    ghost method Record(whole: Tree, ns: set<Node>)
      requires Zip(Top, whole, root, sentinel, Mem(ns)) && ns == Nodes(whole)
      modifies this`shape, this`nodes
      ensures shape == whole && nodes == ns && Zip(Top, whole, root, sentinel, Mem(ns))
    {
      shape, nodes := whole, ns;
    }

    method BlackenFocus(temp: Node, ghost c: Ctx, ghost t: Tree, ghost ns: set<Node>, ghost order: seq<Node>)
      returns (ghost whole: Tree)
      requires Focus(c, t, ns, order, root, sentinel, Mem(ns)) && sentinel.color == Black
      requires Deficit(c, t) && temp == RootOf(t, sentinel) && (c.Top? || IsRed(t))
      modifies temp`color
      ensures Zip(Top, whole, root, sentinel, Mem(ns)) && RedBlack(whole)
      ensures Nodes(whole) == ns && InOrder(whole) == order && sentinel.color == Black
    {
      ghost var m := Mem(ns);
      temp.color := Black;
      whole := PaintFocus(c, t, ns, order, root, sentinel, m, Mem(ns));
    }

    /** A node that is out of the tree has its links and its key cleared. */
    method LetGo(node: Node, ghost ns: set<Node>)
      modifies node`left, node`right, node`parent, node`key
      ensures node.left == null && node.right == null && node.parent == null && node.key == 0
      ensures Same(old(Mem(ns)), Mem(ns), ns - {node}) && Mem(ns).Keys == ns
    {
      node.left := null;
      node.right := null;
      node.parent := null;
      node.key := 0;
    }

    /** `temp` hangs where `node` hung below `q`. */
    method HangInstead(node: Node, temp: Node, ghost q: Node, ghost ns: set<Node>)
      requires node in ns && q in ns && node != q && node.parent == q && sentinel !in ns
      requires (temp == sentinel || temp in ns) && temp != node && temp != q
      modifies ns`left, ns`right, ns`parent, sentinel`parent
      ensures Same(Unhook(old(Mem(ns)), q, node, temp, sentinel), Mem(ns), ns) && temp.parent == q
    {
      if node == node.parent.left {
        node.parent.left := temp;
      } else {
        node.parent.right := temp;
      }
      temp.parent := node.parent;
    }

    /** Taking a node with at most one child out of the links. */
    method UnlinkSelf(node: Node, temp: Node, ghost q: Node, ghost ns: set<Node>)
      requires node in ns && q in ns && node != q && node.parent == q && sentinel !in ns
      requires (temp == sentinel || temp in ns) && temp != node && temp != q
      modifies ns`left, ns`right, ns`parent, sentinel`parent, node`key
      ensures Same(Unhook(old(Mem(ns)), q, node, temp, sentinel), Mem(ns), ns - {node})
      ensures temp.parent == q && root == old(root)
      ensures node.left == null && node.right == null && node.parent == null && node.key == 0
    {
      HangInstead(node, temp, q, ns);
      LetGo(node, ns);
    }

    /** The successor `subst` of `node` leaves its place below `q` to its child `temp`. */
    method LeavePlace(node: Node, subst: Node, temp: Node, ghost q: Node, ghost ns: set<Node>)
      requires {subst, q} <= ns && sentinel !in ns && subst != q && Mem(ns)[subst].parent == q
      requires (temp == sentinel || temp in ns) && temp != subst && temp != q
      modifies ns`left, ns`right, ns`parent, sentinel`parent
      ensures LeftPlace(node, subst, temp, q, sentinel, ns, old(Mem(ns)), Mem(ns))
      ensures temp.parent == if q == node then subst else q
    {
      if subst == subst.parent.left {
        subst.parent.left := temp;
      } else {
        subst.parent.right := temp;
      }
      if subst.parent == node {
        temp.parent := subst;
      } else {
        temp.parent := subst.parent;
      }
    }

    /** Then it takes over the place, the links and the colour of `node`. */
    method TakeOver(node: Node, subst: Node, ghost l: Node, ghost r: Node, ghost p: Node?, ghost ns: set<Node>)
      requires {node, subst, l} <= ns && sentinel !in ns && (r == sentinel || r in ns)
      requires node != subst && l != node && l != subst && r != node && r != subst && r != l
      requires Mem(ns)[node].left == l && Mem(ns)[node].right == r
      requires if node == root then p == null else Mem(ns)[node].parent == p && p != null && p in ns
      requires p !in {node, subst, l, r}
      modifies this`root, ns`left, ns`right, ns`parent, subst`color
      ensures TakenOver(node, subst, l, r, p, sentinel, ns, old(Mem(ns)), Mem(ns))
      ensures root == if node == old(root) then subst else old(root)
    {
      subst.left := node.left;
      subst.right := node.right;
      subst.parent := node.parent;
      subst.color := node.color;
      if node == root {
        root := subst;
      } else {
        if node == node.parent.left {
          node.parent.left := subst;
        } else {
          node.parent.right := subst;
        }
      }
      if subst.left != sentinel {
        subst.left.parent := subst;
      }
      if subst.right != sentinel {
        subst.right.parent := subst;
      }
    }

    /** And `node` is let go. */
    method TakePlace(node: Node, subst: Node, ghost l: Node, ghost r: Node, ghost p: Node?, ghost ns: set<Node>)
      requires {node, subst, l} <= ns && sentinel !in ns && (r == sentinel || r in ns)
      requires node != subst && l != node && l != subst && r != node && r != subst && r != l
      requires Mem(ns)[node].left == l && Mem(ns)[node].right == r
      requires if node == root then p == null else Mem(ns)[node].parent == p && p != null && p in ns
      requires p !in {node, subst, l, r}
      modifies this`root, ns`left, ns`right, ns`parent, subst`color, node`key
      ensures TakenOver(node, subst, l, r, p, sentinel, ns, old(Mem(ns)), Mem(ns))
      ensures root == if node == old(root) then subst else old(root)
      ensures node.left == null && node.right == null && node.parent == null && node.key == 0
    {
      hide *;
      ghost var mid := Mem(ns);
      TakeOver(node, subst, l, r, p, ns);
      ghost var m := Mem(ns);
      LetGo(node, ns);
      TakenOverFrame(node, subst, l, r, p, sentinel, ns, mid, m, Mem(ns));
    }

    /** Takes a node with at most one child, not the root, out of the tree. */
    method TakeOut(node: Node, temp: Node, ghost c: Ctx, ghost t: Tree, ghost y: Tree, ghost ns: set<Node>,
                   ghost order: seq<Node>)
      returns (ghost pre: seq<Node>, ghost post: seq<Node>)
      requires Focus(c, t, ns, order, root, sentinel, Mem(ns)) && !c.Top? && t.Fork? && t.node == node
      requires (t.left.Leaf? && y == t.right) || (t.right.Leaf? && y == t.left)
      requires temp == RootOf(y, sentinel)
      modifies ns`left, ns`right, ns`parent, sentinel`parent, node`key
      ensures order == pre + [node] + post
      ensures Focus(c, y, ns - {node}, pre + post, root, sentinel, Mem(ns - {node})) && temp.parent == c.node
      ensures node.left == null && node.right == null && node.parent == null && node.key == 0
    {
      ghost var m := Mem(ns);
      ZoomOut(c, t, root, sentinel, m);
      UnhookZip(c, t, y, root, sentinel, m);
      ghost var m1 := Unhook(m, c.node, node, temp, sentinel);
      pre, post := TakenOrder(c, t, y, order);
      TakenNodes(c, t, y);
      UnlinkSelf(node, temp, c.node, ns);
      FocusFrame(c, y, ns - {node}, pre + post, root, sentinel, m1, Mem(ns - {node}));
    }

    /** Both moves, told as changes of memory: `r` is what hangs right of `node` once `subst` has left. */
    method Relink(node: Node, subst: Node, temp: Node, ghost q: Node, ghost l: Node, ghost r: Node, ghost p: Node?,
                  ghost ns: set<Node>)
      returns (ghost mid: Memory)
      requires SwapCells(node, subst, temp, q, l, r, sentinel, ns, Mem(ns))
      requires if node == root then p == null else Mem(ns)[node].parent == p && p != null && p in ns
      requires p !in {node, subst, temp, q, l, r}
      modifies this`root, ns`left, ns`right, ns`parent, subst`color, sentinel`parent, node`key
      ensures LeftPlace(node, subst, temp, q, sentinel, ns, old(Mem(ns)), mid)
      ensures TakenOver(node, subst, l, r, p, sentinel, ns, mid, Mem(ns))
      ensures root == if node == old(root) then subst else old(root)
      ensures temp.parent == if q == node then subst else q
      ensures node.left == null && node.right == null && node.parent == null && node.key == 0
    {
      ghost var m := Mem(ns);
      SwapApart(node, subst, temp, q, l, r, sentinel, ns, m);
      hide *;
      LeavePlace(node, subst, temp, q, ns);
      mid := Mem(ns);
      LeftLinks(node, subst, temp, q, l, r, sentinel, ns, m, mid);
      TakePlace(node, subst, l, r, p, ns);
      if temp != sentinel {
        ParentOfChild(node, subst, temp, q, l, r, p, sentinel, ns, m, mid, Mem(ns));
        MemAt(temp, ns);
      }
    }

    /** Takes a node with two children out of the tree: its successor takes its place. */
    method SwapOut(node: Node, subst: Node, temp: Node, ghost c: Ctx, ghost t: Tree, ghost path: Ctx, ghost sub: Tree,
                   ghost ns: set<Node>, ghost order: seq<Node>)
      returns (ghost pre: seq<Node>, ghost post: seq<Node>)
      requires Focus(c, t, ns, order, root, sentinel, Mem(ns)) && Successor(t, path, sub)
      requires t.node == node && sub.node == subst && temp == RootOf(sub.right, sentinel)
      modifies this`root, ns`left, ns`right, ns`parent, subst`color, sentinel`parent, node`key
      ensures order == pre + [node] + post
      ensures Focus(PathVia(c, t, path, subst), sub.right, ns - {node}, pre + post, root, sentinel, Mem(ns - {node}))
      ensures var v := PathVia(c, t, path, subst); !v.Top? && temp.parent == v.node
      ensures node.left == null && node.right == null && node.parent == null && node.key == 0
    {
      ghost var m, t1 := Mem(ns), Lean(t, path, sub);
      ghost var q, r := SwapFacts(c, t, path, sub, ns, order, root, sentinel, m);
      ghost var mid := Relink(node, subst, temp, q, t.left.node, r, if c.Top? then null else c.node, ns);
      pre, post := WithSuccessor(c, t, path, sub, ns, order, old(root), sentinel, m, mid, root, Mem(ns));
      FocusFrame(PathVia(c, t, path, subst), sub.right, ns - {node}, pre + post, root, sentinel, Mem(ns),
                 Mem(ns - {node}));
    }

    /** The leftmost node of a subtree; the sentinel, its own left child, for the empty one. */
    method Min(start: Node, ghost c: Ctx, ghost t: Tree, ghost ns: set<Node>)
      returns (r: Node, ghost path: Ctx, ghost sub: Tree, ghost rounds: nat)
      requires Zip(c, t, root, sentinel, Mem(ns)) && ns == Nodes(t) + CtxNodes(c) && start == RootOf(t, sentinel)
      requires t.Leaf? ==> sentinel.left == sentinel
      ensures OnlyLeft(path) && Plug(path, sub) == t && r == RootOf(sub, sentinel)
      ensures sub.Fork? == t.Fork? && (sub.Fork? ==> sub.left.Leaf?) && rounds == Depth(path)
    {
      r, path, sub, rounds := start, Top, t, 0;
      ghost var p, m := c, Mem(ns);
      while r.left != sentinel
        invariant OnlyLeft(path) && Plug(path, sub) == t && r == RootOf(sub, sentinel)
        invariant Zip(p, sub, root, sentinel, m) && sub.Fork? == t.Fork? && rounds == Depth(path)
        decreases sub
      {
        ZipDown(p, sub, true, root, sentinel, m);
        p, path := Descend(p, sub, true), Descend(path, sub, true);
        r, sub, rounds := r.left, sub.left, rounds + 1;
      }
      if sub.Fork? { ZipDown(p, sub, true, root, sentinel, m); }
    }

    /** The node that will leave its place in the tree, and the one that takes that place. */
    method Choose(node: Node, ghost c: Ctx, ghost t: Tree, ghost ns: set<Node>, ghost order: seq<Node>)
      returns (subst: Node, temp: Node, ghost path: Ctx, ghost sub: Tree)
      requires Focus(c, t, ns, order, root, sentinel, Mem(ns)) && t.Fork? && t.node == node
      ensures Chosen(t, path, sub, subst, temp, sentinel)
      ensures subst in ns && subst.color == sub.color
      ensures subst == root <==> c.Top? && (t.left.Leaf? || t.right.Leaf?)
      ensures subst == node <==> (t.left.Leaf? || t.right.Leaf?)
    {
      ZipDown(c, t, true, root, sentinel, Mem(ns));
      ZipDown(c, t, false, root, sentinel, Mem(ns));
      path, sub := Top, t;
      if node.left == sentinel {
        temp := node.right;
        subst := node;
      } else if node.right == sentinel {
        temp := node.left;
        subst := node;
      } else {
        ghost var v := Descend(c, t, false);
        ghost var rounds;
        subst, path, sub, rounds := Min(node.right, v, t.right, ns);
        ZipAppend(path, v, sub, root, sentinel, Mem(ns));
        ChildCells(sub, sentinel, Mem(ns));
        // the leftmost node has no left child to prefer
        if subst.left != sentinel { assert false; }
        temp := subst.right;
      }
      ChosenFacts(c, t, path, sub, subst, temp, root, sentinel, Mem(ns));
    }

    /** The root goes, having at most one child: the child becomes the black root. */
    method DeleteRoot(node: Node, temp: Node, ghost t: Tree, ghost y: Tree, ghost ns: set<Node>)
      requires Zip(Top, t, root, sentinel, Mem(ns)) && ns == Nodes(t) && RedBlack(t) && sentinel.color == Black
      requires t.Fork? && t.node == node && temp == RootOf(y, sentinel)
      requires if t.left.Leaf? then y == t.right else t.right.Leaf? && y == t.left
      modifies this`root, this`shape, this`nodes, ns`color, node`left, node`right, node`parent, node`key, sentinel`color
      ensures nodes == ns - {node} == Nodes(shape) && Zip(Top, shape, root, sentinel, Mem(nodes))
      ensures RedBlack(shape) && InOrder(shape) == InOrder(y) && sentinel.color == Black
      ensures node.left == null && node.right == null && node.parent == null && node.key == 0
    {
      ghost var m, ns' := Mem(ns), ns - {node};
      ghost var y' := RootSpliced(t, y, sentinel);
      DropRoot(node, temp, ns);
      RootTaken(t, y, y', root, sentinel, m, Mem(ns'));
      Record(y', ns');
    }

    method DropRoot(node: Node, temp: Node, ghost ns: set<Node>)
      requires node in ns && sentinel !in ns && temp != node && (temp == sentinel || temp in ns)
      modifies this`root, temp`color, node`left, node`right, node`parent, node`key
      ensures root == temp && temp.color == Black
      ensures temp != sentinel ==> Mem(ns - {node})[temp] == old(Mem(ns))[temp].(color := Black)
      ensures Same(old(Mem(ns)), Mem(ns - {node}), ns - {node, temp})
      ensures node.left == null && node.right == null && node.parent == null && node.key == 0
    {
      root := temp;
      temp.color := Black;
      node.left := null;
      node.right := null;
      node.parent := null;
      node.key := 0;
    }

    /** Takes out a node that is not alone at the root with at most one child; what is left may be one black
        node short below `v`. */
    method Unlink(node: Node, subst: Node, temp: Node, ghost c: Ctx, ghost t: Tree, ghost path: Ctx, ghost sub: Tree,
                  ghost ns: set<Node>, ghost order: seq<Node>)
      returns (ghost pre: seq<Node>, ghost post: seq<Node>, ghost v: Ctx, ghost y: Tree)
      requires Focus(c, t, ns, order, root, sentinel, Mem(ns)) && RedBlack(Plug(c, t))
      requires t.Fork? && t.node == node && subst in ns
      requires Chosen(t, path, sub, subst, temp, sentinel) && (subst == node ==> !c.Top?)
      requires subst == node <==> (t.left.Leaf? || t.right.Leaf?)
      modifies this`root, ns`left, ns`right, ns`parent, ns`color, sentinel`parent, node`key
      ensures order == pre + [node] + post
      ensures Focus(v, y, ns - {node}, pre + post, root, sentinel, Mem(ns - {node}))
      ensures temp == RootOf(y, sentinel) && !v.Top? && temp.parent == v.node
      ensures if sub.color == Red then RedBlack(Plug(v, y)) else Deficit(v, y)
      ensures node.left == null && node.right == null && node.parent == null && node.key == 0
    {
      if subst == node {
        v, y := c, if t.left.Leaf? then t.right else t.left;
        UnplugBalanced(c, t);
        SplicedBalance(c, t);
        pre, post := TakeOut(node, temp, c, t, y, ns, order);
      } else {
        v, y := PathVia(c, t, path, subst), sub.right;
        SuccessorBalance(c, t, path, sub);
        pre, post := SwapOut(node, subst, temp, c, t, path, sub, ns, order);
      }
    }

    /** Removes a node: the others keep their order, the tree its balance. */
    method Delete(node: Node) returns (ghost pre: seq<Node>, ghost post: seq<Node>)
      requires Valid() && node in nodes
      modifies this`root, this`shape, this`nodes, nodes`left, nodes`right, nodes`parent, nodes`color, sentinel`parent
      modifies sentinel`color, node`key
      ensures Valid() && nodes == old(nodes) - {node}
      ensures old(Order()) == pre + [node] + post && Order() == pre + post
      ensures node.left == null && node.right == null && node.parent == null && node.key == 0
    {
      ghost var ns, order := nodes, Order();
      ghost var c, t := LocateFocus(shape, node, ns, order, root, sentinel, Mem(ns));
      pre, post := DeleteAt(node, c, t, ns, order);
    }

    method DeleteAt(node: Node, ghost c: Ctx, ghost t: Tree, ghost ns: set<Node>, ghost order: seq<Node>)
      returns (ghost pre: seq<Node>, ghost post: seq<Node>)
      requires Focus(c, t, ns, order, root, sentinel, Mem(ns)) && t.Fork? && t.node == node && node in ns
      requires RedBlack(Plug(c, t)) && sentinel.color == Black
      modifies this`root, this`shape, this`nodes, ns`left, ns`right, ns`parent, ns`color, sentinel`parent
      modifies sentinel`color, node`key
      ensures nodes == ns - {node} == Nodes(shape) && Zip(Top, shape, root, sentinel, Mem(ns - {node}))
      ensures RedBlack(shape) && InOrder(shape) == pre + post && sentinel.color == Black
      ensures order == pre + [node] + post
      ensures node.left == null && node.right == null && node.parent == null && node.key == 0
    {
      var subst, temp;
      ghost var path, sub;
      subst, temp, path, sub := Choose(node, c, t, ns, order);
      if subst == root {
        pre, post := DeleteTop(node, temp, c, t, ns, order);
      } else {
        hide Focus;
        hide Zip;
        pre, post := DeleteInner(node, subst, temp, c, t, path, sub, ns, order);
      }
    }

    method DeleteTop(node: Node, temp: Node, ghost c: Ctx, ghost t: Tree, ghost ns: set<Node>, ghost order: seq<Node>)
      returns (ghost pre: seq<Node>, ghost post: seq<Node>)
      requires Focus(c, t, ns, order, root, sentinel, Mem(ns)) && t.Fork? && t.node == node && c.Top?
      requires RedBlack(t) && sentinel.color == Black
      requires (t.left.Leaf? && temp == RootOf(t.right, sentinel))
        || (t.left.Fork? && t.right.Leaf? && temp == RootOf(t.left, sentinel))
      modifies this`root, this`shape, this`nodes, ns`color, node`left, node`right, node`parent, node`key, sentinel`color
      ensures nodes == ns - {node} == Nodes(shape) && Zip(Top, shape, root, sentinel, Mem(ns - {node}))
      ensures RedBlack(shape) && InOrder(shape) == pre + post && sentinel.color == Black
      ensures order == pre + [node] + post
      ensures node.left == null && node.right == null && node.parent == null && node.key == 0
    {
      ghost var y := if t.left.Leaf? then t.right else t.left;
      pre, post := TakenOrder(c, t, y, order);
      assert Flat(c, y) == InOrder(y);
      DeleteRoot(node, temp, t, y, ns);
    }

    method DeleteInner(node: Node, subst: Node, temp: Node, ghost c: Ctx, ghost t: Tree, ghost path: Ctx,
                       ghost sub: Tree, ghost ns: set<Node>, ghost order: seq<Node>)
      returns (ghost pre: seq<Node>, ghost post: seq<Node>)
      requires Focus(c, t, ns, order, root, sentinel, Mem(ns)) && RedBlack(Plug(c, t)) && sentinel.color == Black
      requires t.Fork? && t.node == node && subst in ns && node in ns
      requires Chosen(t, path, sub, subst, temp, sentinel) && (subst == node ==> !c.Top?) && sub.Fork?
      requires subst.color == sub.color
      requires subst == node <==> (t.left.Leaf? || t.right.Leaf?)
      modifies this`root, this`shape, this`nodes, ns`left, ns`right, ns`parent, ns`color, sentinel`parent
      modifies sentinel`color, node`key
      ensures nodes == ns - {node} == Nodes(shape) && Zip(Top, shape, root, sentinel, Mem(ns - {node}))
      ensures RedBlack(shape) && InOrder(shape) == pre + post && sentinel.color == Black
      ensures order == pre + [node] + post
      ensures node.left == null && node.right == null && node.parent == null && node.key == 0
    {
      assert sentinel !in ns;
      hide *;
      var red := subst.color == Red;
      ghost var v, y;
      pre, post, v, y := Unlink(node, subst, temp, c, t, path, sub, ns, order);
      ghost var rest := ns - {node};
      Restore(red, temp, v, y, rest, pre + post);
    }

    /** Repairs what taking out a black node has left; after a red one there is nothing to do. */
    method Restore(red: bool, temp: Node, ghost v: Ctx, ghost y: Tree, ghost ns: set<Node>, ghost order: seq<Node>)
      requires Focus(v, y, ns, order, root, sentinel, Mem(ns)) && sentinel.color == Black
      requires temp == RootOf(y, sentinel) && !v.Top? && temp.parent == v.node
      requires if red then RedBlack(Plug(v, y)) else Deficit(v, y)
      modifies this`root, this`shape, this`nodes, ns`left, ns`right, ns`parent, ns`color, sentinel`color
      ensures nodes == Nodes(shape) == ns && Zip(Top, shape, root, sentinel, Mem(ns))
      ensures RedBlack(shape) && InOrder(shape) == order && sentinel.color == Black
    {
      hide *;
      if red {
        Settle(v, y, ns, order);
      } else {
        DeleteFixup(temp, v, y, ns, order);
      }
    }

    /** Nothing is left to repair: the picture at hand is recorded. */
    ghost method Settle(v: Ctx, y: Tree, ns: set<Node>, order: seq<Node>)
      requires Focus(v, y, ns, order, root, sentinel, Mem(ns)) && RedBlack(Plug(v, y))
      modifies this`shape, this`nodes
      ensures nodes == ns == Nodes(shape) && Zip(Top, shape, root, sentinel, Mem(ns))
      ensures RedBlack(shape) && InOrder(shape) == order
    {
      FocusAll(v, y, ns, order, root, sentinel, Mem(ns));
      var whole := Plug(v, y);
      Record(whole, ns);
    }

    /** The first node in order, or the sentinel, found in at most 2 log2(n + 1) rounds. */
    method First() returns (r: Node, ghost rounds: nat)
      requires Valid() && sentinel.left == sentinel
      ensures r == if Order() == [] then sentinel else Order()[0]
      ensures Pow2(rounds) <= (|Order()| + 1) * (|Order()| + 1)
    {
      ghost var path, sub;
      r, path, sub, rounds := Min(root, Top, shape, nodes);
      PathBound(path, sub);
      if sub.Fork? {
        LeftmostOrder(path, sub);
        assert InOrder(sub) == [sub.node] + InOrder(sub.right);
      }
    }
  }
}
