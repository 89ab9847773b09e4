/** The doubly linked list behind the task queues: elements enter at the head and leave at the tail. */
module SpinList {
  class ListNode<T> {
    var t: T
    var next: ListNode?<T>
    var pre: ListNode?<T>

    constructor (t: T)
      ensures this.t == t && next == null && pre == null
    {
      this.t, next, pre := t, null, null;
    }
  }

  lemma JoinDistinct<X>(a: seq<X>, b: seq<X>)
    requires forall i, j :: 0 <= i < j < |a| ==> a[i] != a[j]
    requires forall i, j :: 0 <= i < j < |b| ==> b[i] != b[j]
    requires forall x :: x in a ==> x !in b
    ensures forall i, j :: 0 <= i < j < |a + b| ==> (a + b)[i] != (a + b)[j]
  {
    forall i, j | 0 <= i < j < |a + b|
      ensures (a + b)[i] != (a + b)[j]
    {
      if i < |a| { assert (a + b)[i] in a; }
      if j >= |a| { assert (a + b)[j] in b; }
    }
  }

  class List<T> {
    var head: ListNode?<T>
    var tail: ListNode?<T>
    /** The nodes from the tail to the head, and the elements in the order in which they will leave. */
    ghost var nodes: seq<ListNode<T>>
    ghost var items: seq<T>
    ghost var repr: set<ListNode<T>>

    ghost predicate Valid()
      reads this, repr
    {
      Linked(head, tail, nodes, items, repr)
    }

    /** Distinct nodes, linked both ways, with the given ends and elements. */
    static ghost predicate Linked(head: ListNode?<T>, tail: ListNode?<T>, nodes: seq<ListNode<T>>, items: seq<T>,
                                  repr: set<ListNode<T>>)
      reads repr
    {
      && (forall n :: n in nodes ==> n in repr) && |items| == |nodes|
      && (forall i, j :: 0 <= i < j < |nodes| ==> nodes[i] != nodes[j])
      && (if nodes == [] then head == null && tail == null else tail == nodes[0] && head == nodes[|nodes| - 1])
      && (nodes != [] ==> nodes[0].next == null && nodes[|nodes| - 1].pre == null)
      && (forall i :: 0 <= i < |nodes| ==> nodes[i].t == items[i])
      && (forall i :: 0 < i < |nodes| ==> nodes[i].next == nodes[i - 1])
      && (forall i :: 0 <= i < |nodes| - 1 ==> nodes[i].pre == nodes[i + 1])
    }

    constructor ()
      ensures Valid() && items == [] && repr == {}
    {
      head, tail, nodes, items, repr := null, null, [], [], {};
    }

    method Push(t: T)
      requires Valid()
      modifies this, repr
      ensures Valid() && items == old(items) + [t]
      ensures fresh(repr - old(repr))
    {
      var tmp := new ListNode(t);
      if head == null {
        head := tmp;
        tail := tmp;
      } else {
        tmp.next := head;
        head.pre := tmp;
        head := tmp;
      }
      nodes, items, repr := nodes + [tmp], items + [t], repr + {tmp};
    }

    method Pop(t0: T) returns (popped: bool, t: T)
      requires Valid()
      modifies this, repr
      ensures Valid() && popped == (old(items) != [])
      ensures popped ==> t == old(items)[0] && items == old(items)[1..]
      ensures !popped ==> t == t0 && items == []
      ensures repr == old(repr)
    {
      if tail == null {
        return false, t0;
      }
      var pre := tail.pre;
      t := tail.t;
      assert |nodes| > 1 ==> pre == nodes[1];
      if pre != null {
        pre.next := null;
      } else {
        head := null;
      }
      tail := pre;
      nodes, items := nodes[1..], items[1..];
      popped := true;
    }

    method Empty() returns (empty: bool)
      requires Valid()
      ensures empty <==> items == []
    {
      empty := head == null;
    }

    /** Hands everything over; what the other list had before is dropped. */
    method MoveTo(list: List<T>)
      requires Valid() && list != this
      modifies this, list
      ensures Valid() && items == [] && repr == {}
      ensures list.Valid() && list.items == old(items) && list.repr == old(repr)
    {
      list.head := head;
      list.tail := tail;
      list.nodes, list.items, list.repr := nodes, items, repr;
      head := null;
      tail := null;
      nodes, items, repr := [], [], {};
    }

    /** Takes over the elements of another list: they will leave after the ones already here. */
    method Merge(list: List<T>)
      requires Valid() && list.Valid() && list != this && repr !! list.repr
      requires items != [] ==> list.items != []
      modifies this, list, repr, list.repr
      ensures Valid() && items == old(items) + old(list.items)
      ensures list.Valid() && list.items == []
    {
      if head == null {
        list.MoveTo(this);
        assert old(items) + old(list.items) == old(list.items);
      } else {
        Append(list);
      }
    }

    method Append(list: List<T>)
      requires Valid() && list.Valid() && list != this && repr !! list.repr
      requires items != [] && list.items != []
      modifies this, list, repr, list.repr
      ensures Valid() && items == old(items) + old(list.items)
      ensures list.Valid() && list.items == []
    {
      var h, l := list.head, list.tail;
      ghost var b, t, r := list.nodes, list.items, list.repr;
      list.head := null;
      list.tail := null;
      list.nodes, list.items, list.repr := [], [], {};
      Graft(h, l, b, t, r);
    }

    /** Links the nodes of another list in front of the head. */
    method Graft(h: ListNode?<T>, l: ListNode?<T>, ghost b: seq<ListNode<T>>, ghost t: seq<T>,
                 ghost r: set<ListNode<T>>)
      requires Valid() && Linked(h, l, b, t, r) && repr !! r && items != [] && t != []
      modifies this, repr, r
      ensures Valid() && items == old(items) + t
    {
      ghost var a, s := nodes, items;
      ghost var k := |a|;
      JoinDistinct(a, b);
      assert a[0] in a && a[k - 1] in a && b[0] in b && b[|b| - 1] in b;
      l.next := head;
      head.pre := l;
      forall i | 0 <= i < k + |b|
        ensures (a + b)[i].t == (s + t)[i]
      {
        if i < k { assert (a + b)[i] == a[i]; } else { assert (a + b)[i] == b[i - k]; }
      }
      head := h;
      nodes, items, repr := a + b, s + t, repr + r;
      forall i | 0 < i < |nodes|
        ensures nodes[i].next == nodes[i - 1]
      {
        if i < k {
          assert nodes[i] == a[i] && nodes[i - 1] == a[i - 1];
        } else if i > k {
          assert nodes[i] == b[i - k] && nodes[i - 1] == b[i - k - 1];
        }
      }
      forall i | 0 <= i < |nodes| - 1
        ensures nodes[i].pre == nodes[i + 1]
      {
        if i < k - 1 {
          assert nodes[i] == a[i] && nodes[i + 1] == a[i + 1];
        } else if i >= k {
          assert nodes[i] == b[i - k] && nodes[i + 1] == b[i - k + 1];
        }
      }
    }
  }
}
