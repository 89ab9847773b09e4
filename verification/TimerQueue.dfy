/** The red-black tree seen as what the poller uses it for: a sorted queue of timer nodes. */
module TimerQueue {
  import opened RbShape
  import opened RbSteps
  import opened RbBalance
  import opened RbTree
  import opened IoEvent

  ghost predicate NoRepeats(ns: seq<Node>) {
    forall i, j :: 0 <= i < j < |ns| ==> ns[i] != ns[j]
  }

  ghost predicate Lists(ns: seq<Node>, ks: Keys) {
    NoRepeats(ns) && (forall i :: 0 <= i < |ns| ==> ns[i] in ks) && (forall n :: n in ks ==> n in ns)
  }

  lemma OrderLists(t: Tree, ks: Keys)
    requires Distinct(t) && ks.Keys == Nodes(t)
    ensures Lists(InOrder(t), ks)
  {
    InOrderDistinct(t);
    forall i | 0 <= i < |InOrder(t)|
      ensures InOrder(t)[i] in ks
    {
      InOrderNode(t, InOrder(t)[i]);
    }
    forall n | n in ks
      ensures n in InOrder(t)
    {
      InOrderNode(t, n);
    }
  }

  lemma InsertSorted(pre: seq<Node>, n: Node, post: seq<Node>, key: nat, ks: Keys)
    requires SortedBy(pre + post, ks) && Splits(pre, post, key, ks) && n !in ks
    ensures SortedBy(pre + [n] + post, ks[n := key])
  {
    var s, f, ks' := pre + [n] + post, pre + post, ks[n := key];
    forall i | 0 <= i < |s|
      ensures i < |pre| ==> s[i] == f[i] && s[i] in ks && ks[s[i]] <= key
      ensures i > |pre| ==> s[i] == f[i - 1] && s[i] in ks && ks[s[i]] > key
    {
      if i < |pre| { assert s[i] in pre; }
      if i > |pre| { assert s[i] == post[i - |pre| - 1] && s[i] in post; }
    }
    forall i, j | 0 <= i < j < |s|
      ensures ks'[s[i]] <= ks'[s[j]]
    {
      if i != |pre| && j != |pre| {
        var i', j' := if i < |pre| then i else i - 1, if j < |pre| then j else j - 1;
        assert ks[f[i']] <= ks[f[j']];
      }
    }
  }

  lemma DeleteSorted(pre: seq<Node>, n: Node, post: seq<Node>, ks: Keys)
    requires SortedBy(pre + [n] + post, ks) && n !in pre && n !in post
    ensures SortedBy(pre + post, ks - {n})
  {
    var s, f := pre + post, pre + [n] + post;
    forall i | 0 <= i < |s|
      ensures s[i] == f[if i < |pre| then i else i + 1] && s[i] in ks - {n}
    {
      if i < |pre| { assert s[i] in pre; } else { assert s[i] in post; }
    }
  }

  lemma KeyReplaced(ks: Keys, n: Node, key: nat)
    ensures (ks - {n})[n := key] == ks[n := key]
  {
  }

  lemma KeyAbsent(ks: Keys, n: Node)
    requires n !in ks
    ensures ks - {n} == ks
  {
  }

  /** What is stored when an `int32_t` is assigned a wider value. */
  function Int32(x: int): int {
    (x + 0x8000_0000) % 0x1_0000_0000 - 0x8000_0000
  }

  /** One pass over the queue: the owners of the first timers of the old order, all due, were notified in
      that order, and the timers left over are all later. */
  ghost predicate Fired(fired: seq<IOEvent>, o: seq<Node>, o': seq<Node>, ks: Keys, ks': Keys,
                        owner: map<Node, IOEvent>, now: nat) {
    && |fired| <= |o| && o' == o[|fired|..]
    && (forall i :: 0 <= i < |fired| ==> o[i] in ks && ks[o[i]] <= now && o[i] in owner && fired[i] == owner[o[i]])
    && (forall n :: n in ks ==> (n in ks' <==> ks[n] > now))
    && (forall n :: n in ks' ==> n in ks && ks'[n] == ks[n])
  }

  /** The same before the last due timer is reached. */
  ghost predicate Firing(fired: seq<IOEvent>, o: seq<Node>, o': seq<Node>, ks: Keys, ks': Keys,
                         owner: map<Node, IOEvent>, now: nat) {
    && |fired| <= |o| && o' == o[|fired|..]
    && (forall i :: 0 <= i < |fired| ==> o[i] in ks && ks[o[i]] <= now && o[i] in owner && fired[i] == owner[o[i]])
    && (forall n :: n in ks && ks[n] > now ==> n in ks')
    && (forall n :: n in ks' ==> n in ks && ks'[n] == ks[n])
  }

  /** Every due timer was notified, each once, in the order of the deadlines. */
  lemma FiredDue(fired: seq<IOEvent>, o: seq<Node>, o': seq<Node>, ks: Keys, ks': Keys, owner: map<Node, IOEvent>,
                 now: nat, side: Side)
    requires Fired(fired, o, o', ks, ks', owner, now) && SortedBy(o, ks) && Lists(o, ks) && Lists(o', ks')
    requires forall n :: n in owner ==> TimerNode(owner[n], side) == n
    ensures forall n :: n in ks && n in owner ==> (ks[n] <= now <==> owner[n] in fired)
    ensures forall i, j :: 0 <= i < j < |fired| ==> fired[i] != fired[j]
    ensures forall i :: 0 <= i < |fired| ==> TimerNode(fired[i], side) in ks
    ensures forall i, j :: 0 <= i < j < |fired| ==> ks[TimerNode(fired[i], side)] <= ks[TimerNode(fired[j], side)]
  {
    forall i | 0 <= i < |fired|
      ensures TimerNode(fired[i], side) == o[i]
    {
    }
    forall n | n in ks && n in owner
      ensures ks[n] <= now <==> owner[n] in fired
    {
      var i :| 0 <= i < |o| && o[i] == n;
      if i < |fired| {
        assert fired[i] == owner[n];
      } else {
        assert o'[i - |fired|] == n;
      }
    }
  }

  lemma FiringStep(fired: seq<IOEvent>, o: seq<Node>, o': seq<Node>, ks: Keys, ks': Keys,
                   owner: map<Node, IOEvent>, now: nat)
    requires Firing(fired, o, o', ks, ks', owner, now) && o' != [] && o'[0] in ks' && ks'[o'[0]] <= now
    requires o'[0] in owner
    ensures Firing(fired + [owner[o'[0]]], o, o'[1..], ks, ks' - {o'[0]}, owner, now)
  {
    var f := fired + [owner[o'[0]]];
    assert o'[0] == o[|fired|];
    forall i | 0 <= i < |f|
      ensures o[i] in ks && ks[o[i]] <= now && o[i] in owner && f[i] == owner[o[i]]
    {
      if i < |fired| { assert f[i] == fired[i]; }
    }
  }

  lemma FiringDone(fired: seq<IOEvent>, o: seq<Node>, o': seq<Node>, ks: Keys, ks': Keys,
                   owner: map<Node, IOEvent>, now: nat)
    requires Firing(fired, o, o', ks, ks', owner, now) && SortedBy(o', ks') && Lists(o', ks')
    requires o' != [] ==> ks'[o'[0]] > now
    ensures Fired(fired, o, o', ks, ks', owner, now)
  {
    forall n | n in ks'
      ensures ks'[n] > now
    {
      assert n in o';
    }
  }

  class Queue {
    const tree: RbTree
    /** All nodes that may be put into the queue, with what they stand for; those in it, with their keys; and
        their order. */
    ghost var owner: map<Node, IOEvent>
    ghost var keys: Keys
    ghost var order: seq<Node>

    /** The queue is in order, and a timer's key is not zero exactly when it is in the queue. A node `z` about
        to be removed may have had its key zeroed already. */
    ghost predicate Holds(z: Node?)
      reads this, tree, tree.nodes, tree.sentinel`color, owner.Keys
    {
      && tree.Valid() && order == tree.Order() && SortedBy(order, keys) && Lists(order, keys)
      && keys.Keys == tree.nodes && (forall n :: n in tree.nodes && n != z ==> n.key == keys[n])
      && keys.Keys <= owner.Keys && tree.sentinel !in owner
      && (forall n :: n in owner && n != z ==> (n in keys <==> n.key != 0))
      && forall n :: n in owner && n in keys ==> n.data == owner[n]
    }

    ghost predicate Valid()
      reads this, tree, tree.nodes, tree.sentinel`color, owner.Keys
    {
      Holds(null)
    }

    /** What is said of a queue outlives changes elsewhere. */
    twostate lemma Untouched(z: Node?)
      requires old(Holds(z)) && unchanged(this) && unchanged(tree) && unchanged(tree.nodes)
      requires unchanged(owner.Keys`key) && unchanged(owner.Keys`data)
      requires tree.sentinel.color == Black
      ensures Holds(z)
    {
      assert Mem(tree.nodes) == old(Mem(tree.nodes));
    }

    /** The key of one node may be overwritten. */
    twostate lemma Rekeyed(z: Node)
      requires old(Holds(null)) && tree.sentinel.color == Black
      requires unchanged(this) && unchanged(tree) && unchanged(tree.nodes - {z}) && unchanged((owner.Keys - {z})`key)
      requires unchanged((owner.Keys - {z})`data)
      requires z in tree.nodes ==>
        unchanged(z`data) && unchanged(z`left) && unchanged(z`right) && unchanged(z`parent) && unchanged(z`color)
      ensures Holds(z) && (z !in owner ==> Holds(null))
    {
      assert Mem(tree.nodes) == old(Mem(tree.nodes));
    }

    constructor (s: Node)
      ensures fresh(tree) && tree.sentinel == s && tree.nodes == {} && tree.shape == Leaf && tree.root == s
      ensures owner == map[] && keys == map[] && order == []
    {
      tree := new RbTree(s);
      owner, keys, order := map[], map[], [];
    }

    /** What the tree now holds becomes the recorded content. */
    ghost method Show(ks: Keys, o: seq<Node>)
      requires tree.Valid() && o == tree.Order() && SortedBy(o, ks)
      requires ks.Keys == tree.nodes && forall n :: n in tree.nodes ==> n.key == ks[n]
      requires ks.Keys <= owner.Keys && tree.sentinel !in owner && forall n :: n in owner ==> (n in ks <==> n.key != 0)
      requires forall n :: n in owner && n in ks ==> n.data == owner[n]
      modifies this`keys, this`order
      ensures Valid() && keys == ks && order == o
    {
      OrderLists(tree.shape, ks);
      keys, order := ks, o;
    }

    /** Puts a node with its key into the queue: after all nodes with a key up to its own. */
    method Insert(node: Node) returns (ghost pre: seq<Node>, ghost post: seq<Node>)
      requires Holds(node) && node !in keys && node in owner && node.key != 0 && node.data == owner[node]
      modifies this`keys, this`order, tree`root, tree`shape, tree`nodes
      modifies tree.nodes`left, tree.nodes`right, tree.nodes`parent, tree.nodes`color
      modifies node`left, node`right, node`parent, node`color
      ensures Valid() && tree.nodes == old(tree.nodes) + {node}
      ensures keys == old(keys)[node := node.key]
      ensures old(order) == pre + post && order == pre + [node] + post
      ensures Splits(pre, post, node.key, old(keys))
    {
      hide RbTree.Valid;
      ghost var ks := keys;
      pre, post := HangSorted(node, ks, order);
      Show(ks[node := node.key], pre + [node] + post);
    }

    /** The insertion as the tree sees it. */
    method HangSorted(node: Node, ghost ks: Keys, ghost o: seq<Node>)
      returns (ghost pre: seq<Node>, ghost post: seq<Node>)
      requires tree.Valid() && node !in tree.nodes && node != tree.sentinel
      requires o == tree.Order() && SortedBy(o, ks)
      requires ks.Keys == tree.nodes && forall n :: n in tree.nodes ==> n.key == ks[n]
      modifies tree`root, tree`shape, tree`nodes
      modifies tree.nodes`left, tree.nodes`right, tree.nodes`parent, tree.nodes`color
      modifies node`left, node`right, node`parent, node`color
      ensures tree.Valid() && tree.nodes == old(tree.nodes) + {node}
      ensures o == pre + post && tree.Order() == pre + [node] + post && Splits(pre, post, node.key, ks)
      ensures SortedBy(pre + [node] + post, ks[node := node.key])
    {
      hide RbTree.Valid;
      assert ks == KeysOf(tree.nodes);
      pre, post := tree.Insert(node);
      InsertSorted(pre, node, post, node.key, ks);
    }

    /** Takes a node out of the queue. */
    method Delete(node: Node) returns (ghost k: nat)
      requires Holds(node) && node in keys
      modifies this`keys, this`order, tree`root, tree`shape, tree`nodes
      modifies tree.nodes`left, tree.nodes`right, tree.nodes`parent, tree.nodes`color
      modifies tree.sentinel`parent, tree.sentinel`color, node`key
      ensures Holds(null) && tree.nodes == old(tree.nodes) - {node} && tree.sentinel.color == Black
      ensures keys == old(keys) - {node} && node.key == 0
      ensures k < |old(order)| && old(order)[k] == node && order == old(order)[..k] + old(order)[k + 1..]
    {
      hide RbTree.Valid;
      ghost var ks, o := keys, order;
      ghost var pre, post := tree.Delete(node);
      k := |pre|;
      assert o[..k] == pre && o[k + 1..] == post && o[k] == node;
      DeleteSorted(pre, node, post, ks);
      Show(ks - {node}, pre + post);
    }

    /** A timer that has never been armed becomes known. */
    ghost method Admit(node: Node, ev: IOEvent)
      requires Valid() && node !in owner && node != tree.sentinel && node.key == 0
      modifies this`owner
      ensures Valid() && owner == old(owner)[node := ev]
    {
      hide RbTree.Valid;
      owner := owner[node := ev];
    }

    /** Two queues that share nothing but the sentinel. */
    ghost predicate Apart(other: Queue)
      reads this, other
    {
      && this != other && tree != other.tree && owner.Keys !! other.owner.Keys
      && tree.sentinel == other.tree.sentinel
    }

    method DeleteBeside(node: Node, ghost other: Queue) returns (ghost k: nat)
      requires Holds(node) && node in keys && other.Holds(null) && Apart(other)
      requires tree.nodes + {node} <= owner.Keys && other.tree.nodes <= other.owner.Keys && tree.sentinel !in owner
      requires tree.sentinel !in other.owner
      modifies this`keys, this`order, tree`root, tree`shape, tree`nodes
      modifies tree.nodes`left, tree.nodes`right, tree.nodes`parent, tree.nodes`color
      modifies tree.sentinel`parent, tree.sentinel`color, node`key
      ensures Holds(null) && keys == old(keys) - {node} && node.key == 0 && tree.nodes == old(tree.nodes) - {node}
      ensures k < |old(order)| && old(order)[k] == node && order == old(order)[..k] + old(order)[k + 1..]
      ensures other.Holds(null)
      ensures tree.sentinel.left == old(tree.sentinel.left) && tree.sentinel.key == old(tree.sentinel.key)
    {
      hide Holds;
      k := Delete(node);
      other.Untouched(null);
    }

    /** Deleting from one tree leaves the other intact, although both use the sentinel. */
    method DeleteApart(node: Node, ghost other: Queue) returns (ghost k: nat)
      requires Holds(node) && node in keys && other.Valid() && Apart(other)
      modifies this`keys, this`order, tree`root, tree`shape, tree`nodes
      modifies tree.nodes`left, tree.nodes`right, tree.nodes`parent, tree.nodes`color
      modifies tree.sentinel`parent, tree.sentinel`color, node`key
      ensures Valid() && keys == old(keys) - {node} && node.key == 0 && tree.nodes == old(tree.nodes) - {node}
      ensures k < |old(order)| && old(order)[k] == node && order == old(order)[..k] + old(order)[k + 1..]
      ensures other.Valid()
      ensures tree.sentinel.left == old(tree.sentinel.left) && tree.sentinel.key == old(tree.sentinel.key)
    {
      assert tree.nodes + {node} <= owner.Keys && other.tree.nodes <= other.owner.Keys;
      assert tree.sentinel !in owner && tree.sentinel !in other.owner;
      k := DeleteBeside(node, other);
    }

    /** Zeroes a timer's key, and then removes it. */
    method Disarm(node: Node, ghost other: Queue)
      requires Valid() && node in keys && other.Valid() && Apart(other)
      modifies this`keys, this`order, tree`root, tree`shape, tree`nodes
      modifies tree.nodes`left, tree.nodes`right, tree.nodes`parent, tree.nodes`color
      modifies tree.sentinel`parent, tree.sentinel`color, node`key
      ensures Valid() && keys == old(keys) - {node} && other.Valid()
      ensures tree.sentinel.left == old(tree.sentinel.left) && tree.sentinel.key == old(tree.sentinel.key)
    {
      node.key := 0;
      Rekeyed(node);
      other.Rekeyed(node);
      ghost var k := DeleteApart(node, other);
    }

    method InsertBeside(node: Node, ghost other: Queue)
      requires Holds(node) && node !in keys && node in owner && node.key != 0 && node.data == owner[node]
      requires other.Holds(null) && Apart(other)
      requires tree.nodes + {node} <= owner.Keys && other.tree.nodes <= other.owner.Keys && tree.sentinel !in owner
      requires tree.sentinel !in other.owner
      requires tree.sentinel.color == Black
      modifies this`keys, this`order, tree`root, tree`shape, tree`nodes
      modifies tree.nodes`left, tree.nodes`right, tree.nodes`parent, tree.nodes`color
      modifies node`left, node`right, node`parent, node`color
      ensures Holds(null) && keys == old(keys)[node := node.key] && other.Holds(null)
    {
      hide Holds;
      ghost var pre, post := Insert(node);
      other.Untouched(null);
    }

    method Push(node: Node, ev: IOEvent, deadline: nat, ghost other: Queue)
      requires Valid() && node !in keys && node in owner && owner[node] == ev && other.Valid() && Apart(other)
      requires deadline > 0
      modifies this`keys, this`order, tree`root, tree`shape, tree`nodes
      modifies tree.nodes`left, tree.nodes`right, tree.nodes`parent, tree.nodes`color
      modifies node`left, node`right, node`parent, node`color, node`key, node`data
      ensures Valid() && keys == old(keys)[node := deadline] && other.Valid()
      ensures tree.sentinel.left == old(tree.sentinel.left) && tree.sentinel.key == old(tree.sentinel.key)
    {
      hide RbTree.Valid;
      SetKey(node, ev, deadline, other);
      hide Holds;
      InsertBeside(node, other);
    }

    method SetKey(node: Node, ev: IOEvent, deadline: nat, ghost other: Queue)
      requires Valid() && node !in keys && node in owner && owner[node] == ev && other.Valid() && Apart(other)
      requires deadline > 0
      modifies node`key, node`data
      ensures Holds(node) && other.Holds(null) && node.key == deadline && node.data == ev
      ensures tree.nodes + {node} <= owner.Keys && other.tree.nodes <= other.owner.Keys
      ensures tree.sentinel !in owner && tree.sentinel !in other.owner && tree.sentinel.color == Black
    {
      node.data := ev;
      node.key := deadline;
      Rekeyed(node);
      other.Rekeyed(node);
    }

    /** Sets a timer anew: out of the queue if it is there, and in again with the new deadline. */
    method Arm(node: Node, ev: IOEvent, deadline: nat, ghost other: Queue) returns (wasArmed: bool)
      requires Valid() && node in owner && owner[node] == ev && other.Valid() && Apart(other) && deadline > 0
      modifies this`keys, this`order, tree`root, tree`shape, tree`nodes
      modifies tree.nodes`left, tree.nodes`right, tree.nodes`parent, tree.nodes`color
      modifies tree.sentinel`parent, tree.sentinel`color
      modifies node`left, node`right, node`parent, node`color, node`key, node`data
      ensures Valid() && keys == old(keys)[node := deadline] && other.Valid()
      ensures tree.sentinel.left == old(tree.sentinel.left) && tree.sentinel.key == old(tree.sentinel.key)
      ensures wasArmed <==> old(node.key) != 0
    {
      wasArmed := node.key != 0;
      if wasArmed {
        KeyReplaced(keys, node, deadline);
        ghost var k := DeleteApart(node, other);
      } else {
        Reset(node, other);
      }
      Push(node, ev, deadline, other);
    }

    method Reset(node: Node, ghost other: Queue)
      requires Valid() && node !in keys && node in owner && other.Valid() && Apart(other)
      modifies node`parent, node`left, node`right
      ensures Valid() && other.Valid()
    {
      node.parent := null;
      node.left := tree.sentinel;
      node.right := tree.sentinel;
      Untouched(null);
      other.Untouched(null);
    }

    method Min() returns (r: Node)
      requires Valid() && tree.sentinel.left == tree.sentinel
      ensures r == if order == [] then tree.sentinel else order[0]
      ensures tree.sentinel.key == 0 ==> FirstLeft(r)
    {
      hide RbTree.Valid;
      ghost var rounds;
      r, rounds := tree.First();
    }

    /** A timer's key doubles as the mark that it is armed. */
    lemma ArmedKey(n: Node)
      requires Valid() && n in owner
      ensures n in keys <==> n.key != 0
      ensures n in keys ==> n.key == keys[n] && n.data == owner[n]
    {
    }

    lemma Sparing(z: Node)
      requires Valid()
      ensures Holds(z)
    {
    }

    /** The event a timer belongs to. */
    method Notified(left: Node) returns (ev: IOEvent)
      requires Valid() && left in keys
      ensures left in owner && ev == owner[left]
    {
      ev := left.data as IOEvent;
    }

    /** One round of the loop: the timeout of the earliest timer is raised, and it is removed. */
    method Next(left: Node, ghost other: Queue) returns (ev: IOEvent, next: Node)
      requires Valid() && other.Valid() && Apart(other) && tree.sentinel.left == tree.sentinel && tree.sentinel.key == 0
      requires order != [] && FirstLeft(left)
      modifies this`keys, this`order, tree`root, tree`shape, tree`nodes
      modifies tree.nodes`left, tree.nodes`right, tree.nodes`parent, tree.nodes`color, left`key
      modifies tree.sentinel`parent, tree.sentinel`color
      ensures Valid() && other.Valid() && tree.sentinel.left == tree.sentinel && tree.sentinel.key == 0
      ensures order == old(order)[1..] && keys == old(keys) - {left} && tree.nodes == old(tree.nodes) - {left}
      ensures left in owner && ev == owner[left]
      ensures FirstLeft(next)
    {
      hide Holds;
      hide RbTree.Valid;
      ev := Notified(left);
      Sparing(left);
      ghost var k := DeleteApart(left, other);
      next := Min();
    }

    /** The earliest deadline in the queue, zero when there is none. */
    ghost function FirstKey(): (k: nat)
      reads this
    {
      if order != [] && order[0] in keys then keys[order[0]] else 0
    }

    /** No timer is earlier, and one is due then. */
    lemma FirstKeyEarliest()
      requires Valid()
      ensures forall n :: n in keys ==> FirstKey() <= keys[n]
      ensures keys != map[] ==> exists n :: n in keys && keys[n] == FirstKey()
      ensures FirstKey() == 0 <==> keys == map[]
    {
      forall n | n in keys
        ensures FirstKey() <= keys[n]
      {
        assert n in order;
        var i :| 0 <= i < |order| && order[i] == n;
        assert keys[order[0]] <= keys[order[i]];
      }
      if order != [] { assert order[0].key == keys[order[0]]; }
      if keys != map[] {
        var n :| n in keys;
        assert n in order;
      }
    }

    /** What `Min` finds: the sentinel, or the first in the queue, with its key. */
    ghost predicate FirstLeft(left: Node)
      reads this, tree, left
    {
      if order == [] then left == tree.sentinel && left.key == 0
      else
        && left == order[0] && left in tree.nodes && left in keys && left in owner
        && left.key == keys[left] && left.key > 0
    }

    /** Raises the timeout of every due timer and removes it: the loop over one tree. The sentinel's key is zero. */
    method Expire(now: nat, ghost other: Queue) returns (fired: seq<IOEvent>, left: Node)
      requires Valid() && other.Valid() && Apart(other)
      requires tree.sentinel.left == tree.sentinel && tree.sentinel.key == 0
      modifies this`keys, this`order, tree`root, tree`shape, tree`nodes
      modifies tree.nodes`left, tree.nodes`right, tree.nodes`parent, tree.nodes`color, tree.nodes`key
      modifies tree.sentinel`parent, tree.sentinel`color
      ensures Valid() && other.Valid() && tree.sentinel.left == tree.sentinel && tree.sentinel.key == 0
      ensures Fired(fired, old(order), order, old(keys), keys, owner, now)
      ensures FirstLeft(left)
    {
      hide Holds;
      hide RbTree.Valid;
      fired := [];
      ghost var o0, k0 := order, keys;
      left := Min();
      while left.key > 0 && left.key <= now
        invariant Valid() && other.Valid() && tree.sentinel.left == tree.sentinel && tree.sentinel.key == 0
        invariant tree.nodes <= old(tree.nodes)
        invariant Firing(fired, o0, order, k0, keys, owner, now)
        invariant FirstLeft(left)
        decreases |order|
      {
        FiringStep(fired, o0, order, k0, keys, owner, now);
        var ev;
        ev, left := Next(left, other);
        fired := fired + [ev];
      }
      Later(left);
      FiringDone(fired, o0, order, k0, keys, owner, now);
    }

    /** When the first timer left is not due, none is. */
    lemma Later(left: Node)
      requires Valid() && FirstLeft(left)
      ensures Lists(order, keys) && SortedBy(order, keys)
    {
    }
  }
}
