/** JSON values, and the order defined on them. Arrays are dense; members are in the order of their names. */
module JsonValue {
  datatype Value = Null
                 | Int(i: int)
                 | UInt(u: nat)
                 | Real(r: real)
                 | Str(s: string)
                 | Bool(b: bool)
                 | Arr(items: Items)
                 | Obj(members: Members)

  datatype Items = NoItem | Item(head: Value, tail: Items)

  datatype Members = NoMember | Member(name: string, value: Value, rest: Members)

  function Length(xs: Items): nat {
    match xs
    case NoItem => 0
    case Item(_, tail) => 1 + Length(tail)
  }

  function Count(ms: Members): nat {
    match ms
    case NoMember => 0
    case Member(_, _, rest) => 1 + Count(rest)
  }

  function Size(v: Value): nat {
    match v
    case Arr(xs) => 1 + ItemsSize(xs)
    case Obj(ms) => 1 + MembersSize(ms)
    case _ => 1
  }

  function ItemsSize(xs: Items): nat {
    match xs
    case NoItem => 0
    case Item(x, tail) => 1 + Size(x) + ItemsSize(tail)
  }

  function MembersSize(ms: Members): nat {
    match ms
    case NoMember => 0
    case Member(_, v, rest) => 1 + Size(v) + MembersSize(rest)
  }

  /** `strcmp`: less than zero, zero, greater than zero. */
  function Compared(a: string, b: string): int {
    if a == [] then (if b == [] then 0 else -1)
    else if b == [] then 1
    else if a[0] != b[0] then a[0] as int - b[0] as int
    else Compared(a[1..], b[1..])
  }

  /** The position of a value's type in the enumeration of types. */
  function Rank(v: Value): nat {
    match v
    case Null => 0
    case Int(_) => 1
    case UInt(_) => 2
    case Real(_) => 3
    case Str(_) => 4
    case Bool(_) => 5
    case Arr(_) => 6
    case Obj(_) => 7
  }

  /** `operator<`: by type, then by size, then by contents. */
  predicate Less(a: Value, b: Value)
    decreases Size(a) + Size(b), 0
  {
    if Rank(a) != Rank(b) then Rank(a) < Rank(b)
    else match a
      case Null => false
      case Int(i) => i < b.i
      case UInt(u) => u < b.u
      case Real(r) => r < b.r
      case Str(s) => Compared(s, b.s) < 0
      case Bool(x) => !x && b.b
      case Arr(xs) => if Length(xs) != Length(b.items) then Length(xs) < Length(b.items) else ItemsLess(xs, b.items)
      case Obj(ms) => if Count(ms) != Count(b.members) then Count(ms) < Count(b.members) else MembersLess(ms, b.members)
  }

  /** The order of two arrays of one size: that of the first elements of which one is less. */
  predicate ItemsLess(a: Items, b: Items)
    decreases ItemsSize(a) + ItemsSize(b), 0
  {
    match a
    case NoItem => b.Item?
    case Item(x, s) => b.Item? && (Less(x, b.head) || (!Less(b.head, x) && ItemsLess(s, b.tail)))
  }

  /** The order of two objects of one size: a pair of name and value is less by its name, or else by its value. */
  predicate MembersLess(a: Members, b: Members)
    decreases MembersSize(a) + MembersSize(b), 1
  {
    match a
    case NoMember => b.Member?
    case Member(_, _, s) => b.Member? && (PairLess(a, b) || (!PairLess(b, a) && MembersLess(s, b.rest)))
  }

  predicate PairLess(a: Members, b: Members)
    requires a.Member? && b.Member?
    decreases MembersSize(a) + MembersSize(b), 0
  {
    Compared(a.name, b.name) < 0 || (Compared(b.name, a.name) >= 0 && Less(a.value, b.value))
  }

  /** `operator==`. */
  predicate Equal(a: Value, b: Value) {
    Rank(a) == Rank(b) && match a
      case Null => true
      case Int(i) => i == b.i
      case UInt(u) => u == b.u
      case Real(r) => r == b.r
      case Str(s) => Compared(s, b.s) == 0
      case Bool(x) => x == b.b
      case Arr(xs) => Length(xs) == Length(b.items) && ItemsEqual(xs, b.items)
      case Obj(ms) => Count(ms) == Count(b.members) && MembersEqual(ms, b.members)
  }

  predicate ItemsEqual(a: Items, b: Items) {
    match a
    case NoItem => b.NoItem?
    case Item(x, s) => b.Item? && Equal(x, b.head) && ItemsEqual(s, b.tail)
  }

  predicate MembersEqual(a: Members, b: Members) {
    match a
    case NoMember => b.NoMember?
    case Member(n, v, s) => b.Member? && Compared(n, b.name) == 0 && Equal(v, b.value) && MembersEqual(s, b.rest)
  }

  // ---------- strings ----------

  lemma {:induction false} ComparedFlipped(a: string, b: string)
    ensures Compared(a, b) == -Compared(b, a)
    ensures Compared(a, b) == 0 <==> a == b
  {
    if a != [] && b != [] {
      ComparedFlipped(a[1..], b[1..]);
      if a[0] == b[0] {
        assert a == [a[0]] + a[1..] && b == [b[0]] + b[1..];
      }
    }
  }

  lemma {:induction false} ComparedTransitive(a: string, b: string, c: string)
    requires Compared(a, b) <= 0 && Compared(b, c) <= 0
    ensures Compared(a, c) <= 0
    ensures Compared(a, b) < 0 || Compared(b, c) < 0 ==> Compared(a, c) < 0
  {
    if a != [] && b != [] && c != [] && a[0] == b[0] && b[0] == c[0] {
      ComparedTransitive(a[1..], b[1..], c[1..]);
    }
  }

  // ---------- a strict total order ----------

  lemma {:induction false} EqualSame(a: Value, b: Value)
    ensures Equal(a, b) <==> a == b
  {
    if Rank(a) == Rank(b) {
      match a
      case Str(s) => ComparedFlipped(s, b.s);
      case Arr(xs) => ItemsEqualSame(xs, b.items);
      case Obj(ms) => MembersEqualSame(ms, b.members);
      case _ =>
    }
  }

  lemma {:induction false} ItemsEqualSame(a: Items, b: Items)
    ensures ItemsEqual(a, b) <==> a == b
  {
    if a.Item? && b.Item? {
      EqualSame(a.head, b.head);
      ItemsEqualSame(a.tail, b.tail);
    }
  }

  lemma {:induction false} MembersEqualSame(a: Members, b: Members)
    ensures MembersEqual(a, b) <==> a == b
  {
    if a.Member? && b.Member? {
      ComparedFlipped(a.name, b.name);
      EqualSame(a.value, b.value);
      MembersEqualSame(a.rest, b.rest);
    }
  }

  /** Exactly one of `a < b`, `a == b`, `b < a`. */
  lemma {:induction false} Trichotomy(a: Value, b: Value)
    ensures a == b ==> !Less(a, b) && !Less(b, a)
    ensures a != b ==> (Less(a, b) <==> !Less(b, a))
    decreases Size(a), 0
  {
    if Rank(a) == Rank(b) {
      match a
      case Str(s) => ComparedFlipped(s, b.s);
      case Arr(xs) => ItemsTrichotomy(xs, b.items);
      case Obj(ms) => MembersTrichotomy(ms, b.members);
      case _ =>
    }
  }

  lemma {:induction false} ItemsTrichotomy(a: Items, b: Items)
    ensures a == b ==> !ItemsLess(a, b) && !ItemsLess(b, a)
    ensures a != b ==> (ItemsLess(a, b) <==> !ItemsLess(b, a))
    decreases ItemsSize(a), 0
  {
    if a.Item? && b.Item? {
      Trichotomy(a.head, b.head);
      ItemsTrichotomy(a.tail, b.tail);
    }
  }

  lemma PairTrichotomy(a: Members, b: Members)
    requires a.Member? && b.Member?
    ensures a.name == b.name && a.value == b.value ==> !PairLess(a, b) && !PairLess(b, a)
    ensures !(a.name == b.name && a.value == b.value) ==> (PairLess(a, b) <==> !PairLess(b, a))
    decreases Size(a.value), 1
  {
    ComparedFlipped(a.name, b.name);
    Trichotomy(a.value, b.value);
  }

  lemma {:induction false} MembersTrichotomy(a: Members, b: Members)
    ensures a == b ==> !MembersLess(a, b) && !MembersLess(b, a)
    ensures a != b ==> (MembersLess(a, b) <==> !MembersLess(b, a))
    decreases MembersSize(a), 0
  {
    if a.Member? && b.Member? {
      PairTrichotomy(a, b);
      MembersTrichotomy(a.rest, b.rest);
    }
  }

  /** Less, or equal and then less. */
  lemma {:induction false} Transitive(a: Value, b: Value, c: Value)
    requires Less(a, b) && Less(b, c)
    ensures Less(a, c)
    decreases Size(a), 0
  {
    if Rank(a) == Rank(b) == Rank(c) {
      match a
      case Str(s) => ComparedTransitive(s, b.s, c.s);
      case Arr(xs) =>
        if Length(xs) == Length(b.items) == Length(c.items) { ItemsTransitive(xs, b.items, c.items); }
      case Obj(ms) =>
        if Count(ms) == Count(b.members) == Count(c.members) { MembersTransitive(ms, b.members, c.members); }
      case _ =>
    }
  }

  lemma {:induction false} ItemsTransitive(a: Items, b: Items, c: Items)
    requires ItemsLess(a, b) && ItemsLess(b, c)
    ensures ItemsLess(a, c)
    decreases ItemsSize(a), 0
  {
    if a.Item? {
      var x, y, z := a.head, b.head, c.head;
      Trichotomy(x, y);
      Trichotomy(y, z);
      if x == y || y == z {
        Trichotomy(x, z);
        if x == y && y == z { ItemsTransitive(a.tail, b.tail, c.tail); }
      } else {
        Transitive(x, y, z);
      }
    }
  }

  lemma PairTransitive(a: Members, b: Members, c: Members)
    requires a.Member? && b.Member? && c.Member? && PairLess(a, b) && PairLess(b, c)
    ensures PairLess(a, c)
    decreases Size(a.value), 1
  {
    ComparedFlipped(a.name, b.name);
    ComparedFlipped(b.name, c.name);
    ComparedFlipped(a.name, c.name);
    ComparedTransitive(a.name, b.name, c.name);
    if a.name == b.name == c.name { Transitive(a.value, b.value, c.value); }
  }

  lemma {:induction false} MembersTransitive(a: Members, b: Members, c: Members)
    requires MembersLess(a, b) && MembersLess(b, c)
    ensures MembersLess(a, c)
    decreases MembersSize(a), 0
  {
    if a.Member? {
      PairTrichotomy(a, b);
      PairTrichotomy(b, c);
      PairTrichotomy(a, c);
      if PairLess(a, b) && PairLess(b, c) {
        PairTransitive(a, b, c);
      } else if !PairLess(a, b) && !PairLess(b, c) {
        MembersTransitive(a.rest, b.rest, c.rest);
      }
    }
  }

  /** The order is a strict total order, with `operator==` as its equality. */
  lemma StrictTotalOrder(a: Value, b: Value, c: Value)
    ensures !Less(a, a)
    ensures Less(a, b) && Less(b, c) ==> Less(a, c)
    ensures if Equal(a, b) then !Less(a, b) && !Less(b, a) else Less(a, b) != Less(b, a)
  {
    Trichotomy(a, a);
    Trichotomy(a, b);
    EqualSame(a, b);
    if Less(a, b) && Less(b, c) { Transitive(a, b, c); }
  }
}
