/** Order and balance of red-black trees: what the rebalancing steps keep. */
module RbBalance {
  import opened RbShape

  // ---------- order ----------

  /** The nodes before the hole of a path, and those after it. */
  ghost function Before(c: Ctx): seq<Node> {
    match c
    case Top => []
    case InLeft(up, n, _, sib) => Before(up)
    case InRight(up, n, _, sib) => Before(up) + InOrder(sib) + [n]
  }

  ghost function After(c: Ctx): seq<Node> {
    match c
    case Top => []
    case InLeft(up, n, _, sib) => [n] + InOrder(sib) + After(up)
    case InRight(up, n, _, sib) => After(up)
  }

  ghost function Flat(c: Ctx, t: Tree): seq<Node> {
    Before(c) + InOrder(t) + After(c)
  }

  lemma FlatUp(c: Ctx, t: Tree)
    requires !c.Top?
    ensures Flat(c, t) == Flat(c.up, Wrap(c, t))
  {
  }

  lemma FlatDown(c: Ctx, t: Tree, goLeft: bool)
    requires t.Fork?
    ensures Flat(Descend(c, t, goLeft), Child(t, goLeft)) == Flat(c, t)
  {
    FlatUp(Descend(c, t, goLeft), Child(t, goLeft));
  }

  lemma {:induction false} FlatAll(c: Ctx, t: Tree)
    ensures Flat(c, t) == InOrder(Plug(c, t))
  {
    if c.Top? {
      assert Flat(c, t) == InOrder(t);
    } else {
      FlatUp(c, t);
      FlatAll(c.up, Wrap(c, t));
    }
  }

  /** Rotations never change the in-order sequence. */
  lemma RotLOrder(t: Tree)
    requires t.Fork? && t.right.Fork?
    ensures InOrder(RotL(t)) == InOrder(t)
  {
    var r := t.right;
    assert InOrder(Fork(t.left, t.node, t.color, r.left)) == InOrder(t.left) + [t.node] + InOrder(r.left);
  }

  lemma RotROrder(t: Tree)
    requires t.Fork? && t.left.Fork?
    ensures InOrder(RotR(t)) == InOrder(t)
  {
    var l := t.left;
    assert InOrder(Fork(l.right, t.node, t.color, t.right)) == InOrder(l.right) + [t.node] + InOrder(t.right);
  }

  lemma {:induction false} InOrderNode(t: Tree, n: Node)
    ensures n in InOrder(t) <==> n in Nodes(t)
  {
    if t.Fork? {
      InOrderNode(t.left, n);
      InOrderNode(t.right, n);
    }
  }

  lemma {:induction false} InOrderDistinct(t: Tree)
    requires Distinct(t)
    ensures forall i, j :: 0 <= i < j < |InOrder(t)| ==> InOrder(t)[i] != InOrder(t)[j]
  {
    if t.Fork? {
      InOrderDistinct(t.left);
      InOrderDistinct(t.right);
      var l, r := InOrder(t.left), InOrder(t.right);
      var s := l + [t.node] + r;
      forall i, j | 0 <= i < j < |s|
        ensures s[i] != s[j]
      {
        if j < |l| {
          assert s[i] == l[i] && s[j] == l[j];
        } else if i > |l| {
          assert s[i] == r[i - |l| - 1] && s[j] == r[j - |l| - 1];
        } else {
          if i < |l| { assert s[i] == l[i]; InOrderNode(t.left, s[i]); }
          if j > |l| { assert s[j] == r[j - |l| - 1]; InOrderNode(t.right, s[j]); }
        }
      }
      assert s == InOrder(t);
    }
  }

  lemma {:induction false} LeftmostOrder(c: Ctx, t: Tree)
    requires OnlyLeft(c)
    ensures InOrder(Plug(c, t)) == InOrder(t) + After(c)
  {
    FlatAll(c, t);
    LeftmostBefore(c);
    assert Flat(c, t) == InOrder(t) + After(c);
  }

  lemma {:induction false} LeftmostBefore(c: Ctx)
    requires OnlyLeft(c)
    ensures Before(c) == []
  {
    if !c.Top? { LeftmostBefore(c.up); }
  }

  // ---------- keys ----------

  type Keys = map<Node, nat>

  ghost predicate SortedBy(ns: seq<Node>, ks: Keys) {
    && (forall i :: 0 <= i < |ns| ==> ns[i] in ks)
    && (forall i, j :: 0 <= i < j < |ns| ==> ks[ns[i]] <= ks[ns[j]])
  }

  /** A new `key` belongs between `pre` and `post`: after all keys up to it, before all larger ones. */
  ghost predicate Splits(pre: seq<Node>, post: seq<Node>, key: nat, ks: Keys) {
    && (forall n :: n in pre ==> n in ks && ks[n] <= key)
    && (forall n :: n in post ==> n in ks && ks[n] > key)
  }

  lemma SplitSeq(pre: seq<Node>, n: Node, post: seq<Node>, x: Node, ks: Keys)
    requires SortedBy(pre + [n] + post, ks)
    ensures n in ks
    ensures x in pre ==> x in ks && ks[x] <= ks[n]
    ensures x in post ==> x in ks && ks[n] <= ks[x]
  {
    var f := pre + [n] + post;
    assert f[|pre|] == n;
    if x in pre {
      var i :| 0 <= i < |pre| && pre[i] == x;
      assert f[i] == x;
    }
    if x in post {
      var i :| 0 <= i < |post| && post[i] == x;
      assert f[|pre| + 1 + i] == x;
    }
  }

  lemma FlatSplit(c: Ctx, t: Tree)
    requires t.Fork?
    ensures Flat(c, t) == (Before(c) + InOrder(t.left)) + [t.node] + (InOrder(t.right) + After(c))
    ensures Before(Descend(c, t, false)) == (Before(c) + InOrder(t.left)) + [t.node]
    ensures After(Descend(c, t, true)) == [t.node] + (InOrder(t.right) + After(c))
    ensures Before(Descend(c, t, true)) == Before(c) && After(Descend(c, t, false)) == After(c)
  {
    Regroup(Before(c), InOrder(t.left), [t.node], InOrder(t.right), After(c));
  }

  lemma Regroup(a: seq<Node>, b: seq<Node>, m: seq<Node>, c: seq<Node>, d: seq<Node>)
    ensures a + (b + m + c) + d == (a + b) + m + (c + d)
  {
  }

  /** In a sorted tree, the key at the focus decides on which side of it a new key belongs. */
  lemma SplitKeys(c: Ctx, t: Tree, key: nat, order: seq<Node>, ks: Keys)
    requires t.Fork? && Flat(c, t) == order && SortedBy(order, ks) && Splits(Before(c), After(c), key, ks)
    ensures t.node in ks
    ensures var c' := Descend(c, t, key < ks[t.node]); Splits(Before(c'), After(c'), key, ks)
  {
    FlatSplit(c, t);
    var pre, post := Before(c) + InOrder(t.left), InOrder(t.right) + After(c);
    SplitSeq(pre, t.node, post, t.node, ks);
    var c' := Descend(c, t, key < ks[t.node]);
    forall x | x in Before(c')
      ensures x in ks && ks[x] <= key
    {
      SplitSeq(pre, t.node, post, x, ks);
    }
    forall x | x in After(c')
      ensures x in ks && ks[x] > key
    {
      SplitSeq(pre, t.node, post, x, ks);
    }
  }

  // ---------- balance ----------

  lemma {:induction false} PlugBalanced(c: Ctx, t: Tree)
    requires RedOk(t) && Balanced(t) && CtxRedOk(c) && CtxBalanced(c, BlackHeight(t))
    requires IsRed(t) ==> !c.Top? && c.color == Black
    ensures RedBlack(Plug(c, t))
  {
    if !c.Top? {
      PlugBalanced(c.up, Wrap(c, t));
    }
  }

  lemma {:induction false} UnplugBalanced(c: Ctx, t: Tree)
    requires RedBlack(Plug(c, t))
    ensures RedOk(t) && Balanced(t) && CtxRedOk(c) && CtxBalanced(c, BlackHeight(t))
    ensures IsRed(t) ==> !c.Top? && c.color == Black
  {
    if !c.Top? {
      UnplugBalanced(c.up, Wrap(c, t));
    }
  }

  /** Insertion's loop: all is well except that the red focus may have a red parent. */
  ghost predicate RedFocus(c: Ctx, t: Tree) {
    && IsRed(t) && RedOk(t) && Balanced(t)
    && CtxRedOk(c) && CtxBalanced(c, BlackHeight(t))
  }

  /** Red parent, red uncle: recolour and move up two levels. */
  ghost function Recolored(c: Ctx, t: Tree): Tree
    requires !c.Top? && !c.up.Top?
  {
    var g := c.up;
    var pt, ut := Paint(Wrap(c, t), Black), Paint(g.sibling, Black);
    if g.InLeft? then Fork(pt, g.node, Red, ut) else Fork(ut, g.node, Red, pt)
  }

  lemma RecoloredFocus(c: Ctx, t: Tree)
    requires RedFocus(c, t) && !c.Top? && c.color == Red && IsRed(c.up.sibling)
    ensures RedFocus(c.up.up, Recolored(c, t))
  {
    assert CtxRedOk(c.up) && CtxBalanced(c.up, BlackHeight(t)) && CtxRedOk(c.up.up);
    assert Balanced(Wrap(c, t));
  }

  /** The focus turned from an inner to an outer grandchild. */
  lemma InnerFocus(c: Ctx, t: Tree)
    requires RedFocus(c, t) && !c.Top? && c.color == Red && !IsRed(c.up.sibling)
    ensures c.InRight? ==> RedFocus(InLeft(c.up, t.node, Red, t.right), Fork(c.sibling, c.node, Red, t.left))
    ensures c.InLeft? ==> RedFocus(InRight(c.up, t.node, Red, t.left), Fork(t.right, c.node, Red, c.sibling))
  {
    assert CtxRedOk(c.up) && CtxBalanced(c.up, BlackHeight(t));
  }

  /** Black parent, red grandparent, rotation there: the focus now hangs below a black parent. */
  lemma OuterFocus(c: Ctx, t: Tree)
    requires RedFocus(c, t) && !c.Top? && c.color == Red && !IsRed(c.up.sibling)
    requires c.InLeft? == c.up.InLeft?
    ensures c.InLeft? ==> RedFocus(InLeft(c.up.up, c.node, Black, Fork(c.sibling, c.up.node, Red, c.up.sibling)), t)
    ensures c.InRight? ==> RedFocus(InRight(c.up.up, c.node, Black, Fork(c.up.sibling, c.up.node, Red, c.sibling)), t)
  {
    assert CtxRedOk(c.up) && CtxBalanced(c.up, BlackHeight(t));
    assert CtxRedOk(c.up.up) && CtxBalanced(c.up.up, BlackHeight(t) + 1);
  }

  lemma FocusDone(c: Ctx, t: Tree)
    requires RedFocus(c, t) && (c.Top? || c.color == Black)
    ensures RedBlack(if c.Top? then Paint(t, Black) else Plug(c, t))
  {
    if !c.Top? { PlugBalanced(c, t); }
  }

  // ---------- deletion ----------

  /** Deletion's loop: the focus is one black node short, and may be red below a red parent. */
  ghost predicate Deficit(c: Ctx, t: Tree) {
    && RedOk(Paint(t, Black)) && Balanced(t)
    && CtxRedOk(c) && CtxBalanced(c, BlackHeight(t) + 1)
  }

  /** A black focus that is short has a sibling, and that sibling is not a lone red node. */
  lemma SiblingExists(c: Ctx, t: Tree)
    requires Deficit(c, t) && !c.Top? && !IsRed(t)
    ensures c.sibling.Fork?
    ensures c.sibling.color == Red ==>
      && c.color == Black && c.sibling.left.Fork? && c.sibling.right.Fork?
      && c.sibling.left.color == Black && c.sibling.right.color == Black
  {
    assert RedOk(c.sibling) && Balanced(c.sibling) && BlackHeight(c.sibling) == BlackHeight(t) + 1;
  }

  /** Red sibling: after the rotation the sibling is black. */
  lemma RedSiblingTurned(c: Ctx, t: Tree)
    requires Deficit(c, t) && !c.Top? && !IsRed(t) && IsRed(c.sibling)
    ensures var w := c.sibling;
      c.InLeft? ==> Deficit(InLeft(InLeft(c.up, w.node, Black, w.right), c.node, Red, w.left), t)
    ensures var w := c.sibling;
      c.InRight? ==> Deficit(InRight(InRight(c.up, w.node, Black, w.left), c.node, Red, w.right), t)
  {
    SiblingExists(c, t);
    var w := c.sibling;
    assert RedOk(w.left) && RedOk(w.right) && Balanced(w.left) && Balanced(w.right);
    assert CtxRedOk(c.up) && CtxBalanced(c.up, BlackHeight(t) + 2);
    if c.InLeft? {
      assert CtxBalanced(InLeft(c.up, w.node, Black, w.right), BlackHeight(t) + 1);
    } else {
      assert CtxBalanced(InRight(c.up, w.node, Black, w.left), BlackHeight(t) + 1);
    }
  }

  /** Black sibling without red children: it turns red and the parent is short. */
  lemma DeficitUp(c: Ctx, t: Tree)
    requires Deficit(c, t) && !c.Top? && !IsRed(t) && c.sibling.Fork? && c.sibling.color == Black
    requires !IsRed(c.sibling.left) && !IsRed(c.sibling.right)
    ensures var w := Paint(c.sibling, Red);
      Deficit(c.up, if c.InLeft? then Fork(t, c.node, c.color, w) else Fork(w, c.node, c.color, t))
  {
    assert RedOk(c.sibling) && Balanced(c.sibling);
  }

  /** The same path with another sibling next to the hole. */
  ghost function Beside(c: Ctx, w: Tree): Ctx
    requires !c.Top?
  {
    if c.InLeft? then InLeft(c.up, c.node, c.color, w) else InRight(c.up, c.node, c.color, w)
  }

  /** Black sibling whose outer child is black: turned, its outer child is red. */
  lemma InnerTurned(c: Ctx, t: Tree)
    requires Deficit(c, t) && !c.Top? && !IsRed(t) && c.sibling.Fork? && c.sibling.color == Black
    requires if c.InLeft? then IsRed(c.sibling.left) && !IsRed(c.sibling.right)
             else IsRed(c.sibling.right) && !IsRed(c.sibling.left)
    ensures var w := c.sibling;
      c.InLeft? ==> Deficit(Beside(c, RotR(Fork(Paint(w.left, Black), w.node, Red, w.right))), t)
    ensures var w := c.sibling;
      c.InRight? ==> Deficit(Beside(c, RotL(Fork(w.left, w.node, Red, Paint(w.right, Black)))), t)
  {
    var w := c.sibling;
    assert RedOk(w) && Balanced(w) && BlackHeight(w) == BlackHeight(t) + 1;
    if c.InLeft? {
      var l := w.left;
      assert RedOk(l) && Balanced(l);
      var w' := Fork(l.left, l.node, Black, Fork(l.right, w.node, Red, w.right));
      assert RedOk(w'.right) && Balanced(w'.right) && BlackHeight(w') == BlackHeight(w);
      assert w' == RotR(Fork(Paint(l, Black), w.node, Red, w.right));
    } else {
      var r := w.right;
      assert RedOk(r) && Balanced(r);
      var w' := Fork(Fork(w.left, w.node, Red, r.left), r.node, Black, r.right);
      assert RedOk(w'.left) && Balanced(w'.left) && BlackHeight(w') == BlackHeight(w);
      assert w' == RotL(Fork(w.left, w.node, Red, Paint(r, Black)));
    }
  }

  /** The parent's subtree after the last rotation of deletion. */
  ghost function Settled(c: Ctx, t: Tree): Tree
    requires !c.Top? && c.sibling.Fork?
  {
    var w := c.sibling;
    if c.InLeft? then Fork(Fork(t, c.node, Black, w.left), w.node, c.color, Paint(w.right, Black))
    else Fork(Paint(w.left, Black), w.node, c.color, Fork(w.right, c.node, Black, t))
  }

  /** Black sibling with a red outer child: the last rotation makes up for the missing black node. */
  lemma OuterTurned(c: Ctx, t: Tree)
    requires Deficit(c, t) && !c.Top? && !IsRed(t) && c.sibling.Fork? && c.sibling.color == Black
    requires IsRed(if c.InLeft? then c.sibling.right else c.sibling.left)
    ensures RedBlack(Plug(c.up, Settled(c, t)))
  {
    var w := c.sibling;
    assert RedOk(w) && Balanced(w);
    assert RedOk(w.left) && RedOk(w.right) && Balanced(w.left) && Balanced(w.right);
    assert CtxRedOk(c.up);
    var s := Settled(c, t);
    assert RedOk(s.left) && RedOk(s.right) && Balanced(s.left) && Balanced(s.right);
    PlugBalanced(c.up, s);
  }

  /** Colours are all that balance depends on: another node may stand in for the one on the path. */
  lemma {:induction false} StandIn(path: Ctx, c: Ctx, n: Node, n': Node, color: Color, l: Tree, h: nat)
    requires CtxRedOk(Append(path, InRight(c, n, color, l))) && CtxBalanced(Append(path, InRight(c, n, color, l)), h)
    ensures CtxRedOk(Append(path, InRight(c, n', color, l))) && CtxBalanced(Append(path, InRight(c, n', color, l)), h)
    ensures Append(path, InRight(c, n, color, l)) != Top && Append(path, InRight(c, n', color, l)) != Top
    ensures Append(path, InRight(c, n, color, l)).color == Append(path, InRight(c, n', color, l)).color
  {
    if !path.Top? {
      StandIn(path.up, c, n, n', color, l, h + if path.color == Black then 1 else 0);
    }
  }

  /** Taking out a node with at most one child: a red one leaves balance alone, a black one a deficit. */
  lemma SplicedBalance(c: Ctx, t: Tree)
    requires t.Fork? && (t.left.Leaf? || t.right.Leaf?) && RedOk(t) && Balanced(t)
    requires CtxRedOk(c) && CtxBalanced(c, BlackHeight(t)) && !c.Top?
    ensures var y := if t.left.Leaf? then t.right else t.left;
      if t.color == Red then y == Leaf && RedBlack(Plug(c, y)) else Deficit(c, y)
  {
    if t.color == Red { PlugBalanced(c, Leaf); }
  }

  lemma DeficitDone(c: Ctx, t: Tree)
    requires Deficit(c, t) && (c.Top? || IsRed(t))
    ensures RedBlack(Plug(c, Paint(t, Black)))
  {
    PlugBalanced(c, Paint(t, Black));
  }

  // ---------- height ----------

  ghost function Height(t: Tree): nat {
    if t.Leaf? then 0 else 1 + if Height(t.left) > Height(t.right) then Height(t.left) else Height(t.right)
  }

  ghost function Pow2(n: nat): nat {
    if n == 0 then 1 else 2 * Pow2(n - 1)
  }

  lemma {:induction false} Pow2Add(a: nat, b: nat)
    ensures Pow2(a + b) == Pow2(a) * Pow2(b)
  {
    if a > 0 {
      Pow2Add(a - 1, b);
      Twice(Pow2(a - 1), Pow2(b));
    }
  }

  lemma Twice(x: nat, y: nat)
    ensures 2 * (x * y) == (2 * x) * y
  {
  }

  lemma {:induction false} Pow2Mono(a: nat, b: nat)
    requires a <= b
    ensures Pow2(a) <= Pow2(b)
  {
    if a < b { Pow2Mono(a, b - 1); }
  }

  lemma {:induction false} BlackHeightBounds(t: Tree)
    requires RedOk(t) && Balanced(t)
    ensures Height(t) <= 2 * BlackHeight(t) + if IsRed(t) then 1 else 0
    ensures Pow2(BlackHeight(t)) <= |InOrder(t)| + 1
  {
    if t.Fork? {
      BlackHeightBounds(t.left);
      BlackHeightBounds(t.right);
    }
  }

  lemma SquareMono(a: nat, b: nat)
    requires a <= b
    ensures a * a <= b * b
  {
    assert a * a <= a * b;
    assert a * b <= b * b;
  }

  /** A tree of n nodes has height at most 2 log2(n + 1). */
  lemma HeightBound(t: Tree)
    requires RedBlack(t)
    ensures Pow2(Height(t)) <= (|InOrder(t)| + 1) * (|InOrder(t)| + 1)
  {
    var h, n := BlackHeight(t), |InOrder(t)| + 1;
    BlackHeightBounds(t);
    Pow2Mono(Height(t), h + h);
    Pow2Add(h, h);
    SquareMono(Pow2(h), n);
  }

  lemma {:induction false} PathHeight(c: Ctx, t: Tree)
    ensures Depth(c) + Height(t) <= Height(Plug(c, t))
  {
    if !c.Top? { PathHeight(c.up, Wrap(c, t)); }
  }

  /** No path into a tree of n nodes is longer than 2 log2(n + 1). */
  lemma PathBound(c: Ctx, t: Tree)
    requires RedBlack(Plug(c, t))
    ensures var n := |InOrder(Plug(c, t))| + 1;
      Pow2(Depth(c)) <= n * n
  {
    PathHeight(c, t);
    HeightBound(Plug(c, t));
    Pow2Mono(Depth(c), Height(Plug(c, t)));
  }
}
