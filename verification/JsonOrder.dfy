/** Which order the values are in: told for every type by what its values contain. */
module JsonOrder {
  import opened JsonValue

  /** The elements of an array, and the members of an object, as sequences. */
  function Elements(xs: Items): (r: seq<Value>)
    ensures |r| == Length(xs)
  {
    match xs
    case NoItem => []
    case Item(x, tail) => [x] + Elements(tail)
  }

  function Pairs(ms: Members): (r: seq<(string, Value)>)
    ensures |r| == Count(ms)
  {
    match ms
    case NoMember => []
    case Member(n, v, rest) => [(n, v)] + Pairs(rest)
  }

  // ---------- strings ----------

  /** At `k` the two texts differ for the first time, and there `a` has the lesser character. */
  predicate LessAt(a: string, b: string, k: nat) {
    k < |a| && k < |b| && a[..k] == b[..k] && a[k] < b[k]
  }

  /** A proper prefix comes first, or else the text with the lesser character where they first differ. */
  ghost predicate Before(a: string, b: string) {
    (|a| < |b| && a == b[..|a|]) || exists k: nat :: LessAt(a, b, k)
  }

  lemma LessAtNext(a: string, b: string, k: nat)
    requires a != [] && b != [] && a[0] == b[0]
    ensures LessAt(a[1..], b[1..], k) <==> LessAt(a, b, k + 1)
  {
    if k < |a[1..]| && k < |b[1..]| {
      assert a[..k + 1] == [a[0]] + a[1..][..k] && b[..k + 1] == [b[0]] + b[1..][..k];
      assert a[1..][..k] == a[..k + 1][1..] && b[1..][..k] == b[..k + 1][1..];
    }
  }

  lemma BeforeNext(a: string, b: string)
    requires a != [] && b != [] && a[0] == b[0]
    ensures Before(a, b) <==> Before(a[1..], b[1..])
  {
    if exists k: nat :: LessAt(a, b, k) {
      var k: nat :| LessAt(a, b, k);
      assert k > 0;
      LessAtNext(a, b, k - 1);
    }
    if exists k: nat :: LessAt(a[1..], b[1..], k) {
      var k: nat :| LessAt(a[1..], b[1..], k);
      LessAtNext(a, b, k);
    }
    if |a| < |b| {
      assert a == [a[0]] + a[1..] && b[..|a|] == [b[0]] + b[1..][..|a| - 1];
      assert a == b[..|a|] ==> a[1..] == b[..|a|][1..] == b[1..][..|a| - 1];
    }
  }

  lemma {:induction false} ComparedBefore(a: string, b: string)
    ensures Compared(a, b) < 0 <==> Before(a, b)
  {
    if a == [] {
      if b != [] { assert a == b[..0]; }
    } else if b != [] && a[0] == b[0] {
      ComparedBefore(a[1..], b[1..]);
      BeforeNext(a, b);
    } else if b != [] {
      assert a[..0] == b[..0];
      if a[0] < b[0] {
        assert LessAt(a, b, 0);
      } else {
        forall k: nat
          ensures !LessAt(a, b, k)
        {
          if k > 0 && k < |a| && k < |b| { assert a[..k][0] != b[..k][0]; }
        }
        if |a| < |b| { assert a[0] != b[..|a|][0]; }
      }
    }
  }

  // ---------- arrays and objects ----------

  lemma DifferFirst<T>(a: seq<T>, b: seq<T>)
    requires a != [] && b != [] && a[0] != b[0]
    ensures forall k: nat :: 0 < k <= |a| && k <= |b| ==> a[..k] != b[..k]
  {
    forall k: nat | 0 < k <= |a| && k <= |b|
      ensures a[..k] != b[..k]
    {
      assert a[..k][0] == a[0] && b[..k][0] == b[0];
    }
  }

  /** At `k` the two sequences differ for the first time, and there `a` has the lesser value. */
  ghost predicate ItemLessAt(a: seq<Value>, b: seq<Value>, k: nat) {
    k < |a| && k < |b| && a[..k] == b[..k] && Less(a[k], b[k])
  }

  ghost predicate ItemsBefore(a: seq<Value>, b: seq<Value>) {
    exists k: nat :: ItemLessAt(a, b, k)
  }

  lemma ItemLessAtNext(x: Value, a: seq<Value>, b: seq<Value>, k: nat)
    ensures ItemLessAt(a, b, k) <==> ItemLessAt([x] + a, [x] + b, k + 1)
  {
    var s, t := [x] + a, [x] + b;
    if k < |a| && k < |b| {
      assert s[..k + 1] == [x] + a[..k] && t[..k + 1] == [x] + b[..k];
      assert a[..k] == s[..k + 1][1..] && b[..k] == t[..k + 1][1..];
    }
  }

  lemma ItemLessShift(x: Value, a: seq<Value>, b: seq<Value>)
    requires !Less(x, x)
    ensures ItemsBefore([x] + a, [x] + b) <==> ItemsBefore(a, b)
  {
    if exists k: nat :: ItemLessAt(a, b, k) {
      var k: nat :| ItemLessAt(a, b, k);
      ItemLessAtNext(x, a, b, k);
    }
    if exists k: nat :: ItemLessAt([x] + a, [x] + b, k) {
      var k: nat :| ItemLessAt([x] + a, [x] + b, k);
      assert k != 0;
      ItemLessAtNext(x, a, b, k - 1);
    }
  }

  lemma ItemLessFirst(a: seq<Value>, b: seq<Value>)
    requires a != [] && b != [] && a[0] != b[0]
    ensures ItemsBefore(a, b) <==> Less(a[0], b[0])
  {
    if Less(a[0], b[0]) {
      assert a[..0] == b[..0];
      assert ItemLessAt(a, b, 0);
    }
    DifferFirst(a, b);
  }

  lemma {:induction false} ItemsLessFirst(a: Items, b: Items)
    requires Length(a) == Length(b)
    ensures ItemsLess(a, b) <==> ItemsBefore(Elements(a), Elements(b))
  {
    assert !ItemsBefore([], []);
    hide ItemsBefore;
    if a.Item? {
      Trichotomy(a.head, b.head);
      var s, t := Elements(a.tail), Elements(b.tail);
      if a.head == b.head {
        ItemsLessFirst(a.tail, b.tail);
        assert ItemsLess(a, b) <==> ItemsLess(a.tail, b.tail);
        ItemLessShift(a.head, s, t);
        assert Elements(a) == [a.head] + s && Elements(b) == [a.head] + t;
      } else {
        assert Elements(a)[0] == a.head && Elements(b)[0] == b.head;
        ItemLessFirst(Elements(a), Elements(b));
        assert ItemsLess(a, b) <==> Less(a.head, b.head);
      }
    }
  }

  /** A pair is less by its name, or else by its value. */
  ghost predicate PairBefore(p: (string, Value), q: (string, Value)) {
    Before(p.0, q.0) || (p.0 == q.0 && Less(p.1, q.1))
  }

  ghost predicate PairLessAt(a: seq<(string, Value)>, b: seq<(string, Value)>, k: nat) {
    k < |a| && k < |b| && a[..k] == b[..k] && PairBefore(a[k], b[k])
  }

  ghost predicate PairsBefore(a: seq<(string, Value)>, b: seq<(string, Value)>) {
    exists k: nat :: PairLessAt(a, b, k)
  }

  lemma PairLessIs(a: Members, b: Members)
    requires a.Member? && b.Member?
    ensures PairLess(a, b) <==> PairBefore((a.name, a.value), (b.name, b.value))
  {
    ComparedBefore(a.name, b.name);
    ComparedFlipped(a.name, b.name);
  }

  lemma PairLessAtNext(x: (string, Value), a: seq<(string, Value)>, b: seq<(string, Value)>, k: nat)
    ensures PairLessAt(a, b, k) <==> PairLessAt([x] + a, [x] + b, k + 1)
  {
    hide PairBefore;
    var s, t := [x] + a, [x] + b;
    if k < |a| && k < |b| {
      assert s[..k + 1] == [x] + a[..k] && t[..k + 1] == [x] + b[..k];
      assert a[..k] == s[..k + 1][1..] && b[..k] == t[..k + 1][1..];
    }
  }

  lemma PairLessShift(x: (string, Value), a: seq<(string, Value)>, b: seq<(string, Value)>)
    requires !PairBefore(x, x)
    ensures PairsBefore([x] + a, [x] + b) <==> PairsBefore(a, b)
  {
    hide PairBefore;
    if exists k: nat :: PairLessAt(a, b, k) {
      var k: nat :| PairLessAt(a, b, k);
      PairLessAtNext(x, a, b, k);
    }
    if exists k: nat :: PairLessAt([x] + a, [x] + b, k) {
      var k: nat :| PairLessAt([x] + a, [x] + b, k);
      assert k != 0;
      PairLessAtNext(x, a, b, k - 1);
    }
  }

  lemma PairLessFirst(a: seq<(string, Value)>, b: seq<(string, Value)>)
    requires a != [] && b != [] && a[0] != b[0]
    ensures PairsBefore(a, b) <==> PairBefore(a[0], b[0])
  {
    hide PairBefore;
    if PairBefore(a[0], b[0]) {
      assert a[..0] == b[..0];
      assert PairLessAt(a, b, 0);
    }
    DifferFirst(a, b);
  }

  lemma {:induction false} MembersLessFirst(a: Members, b: Members)
    requires Count(a) == Count(b)
    ensures MembersLess(a, b) <==> PairsBefore(Pairs(a), Pairs(b))
  {
    assert !PairsBefore([], []);
    hide PairsBefore;
    hide PairBefore;
    if a.Member? {
      PairTrichotomy(a, b);
      PairLessIs(a, b);
      var s, t := Pairs(a.rest), Pairs(b.rest);
      var x, y := (a.name, a.value), (b.name, b.value);
      if x == y {
        MembersLessFirst(a.rest, b.rest);
        assert MembersLess(a, b) <==> MembersLess(a.rest, b.rest);
        PairLessShift(x, s, t);
        assert Pairs(a) == [x] + s && Pairs(b) == [x] + t;
      } else {
        assert Pairs(a)[0] == x && Pairs(b)[0] == y;
        PairLessFirst(Pairs(a), Pairs(b));
        assert MembersLess(a, b) <==> PairLess(a, b);
      }
    }
  }

  // ---------- which order it is ----------

  /** Values of different types: null first, then signed and unsigned integers, reals, strings, truth values, arrays and
      objects. */
  lemma TypesInOrder(a: Value, b: Value)
    ensures a.Null? && !b.Null? ==> Less(a, b)
    ensures a.Int? && (b.UInt? || b.Real? || b.Str? || b.Bool? || b.Arr? || b.Obj?) ==> Less(a, b)
    ensures a.UInt? && (b.Real? || b.Str? || b.Bool? || b.Arr? || b.Obj?) ==> Less(a, b)
    ensures a.Real? && (b.Str? || b.Bool? || b.Arr? || b.Obj?) ==> Less(a, b)
    ensures a.Str? && (b.Bool? || b.Arr? || b.Obj?) ==> Less(a, b)
    ensures a.Bool? && (b.Arr? || b.Obj?) ==> Less(a, b)
    ensures a.Arr? && b.Obj? ==> Less(a, b)
  {
  }

  /** Values of one type: numbers by size, false before true, strings as in a dictionary; of arrays and objects the one
      with fewer parts, or else the one with the lesser part where they first differ. */
  lemma ContentsInOrder(a: Value, b: Value)
    ensures a.Int? && b.Int? ==> (Less(a, b) <==> a.i < b.i)
    ensures a.UInt? && b.UInt? ==> (Less(a, b) <==> a.u < b.u)
    ensures a.Real? && b.Real? ==> (Less(a, b) <==> a.r < b.r)
    ensures a.Bool? && b.Bool? ==> (Less(a, b) <==> a == Bool(false) && b == Bool(true))
    ensures a.Str? && b.Str? ==> (Less(a, b) <==> Before(a.s, b.s))
    ensures a.Arr? && b.Arr? ==>
      var s, t := Elements(a.items), Elements(b.items);
      Less(a, b) <==> |s| < |t| || (|s| == |t| && ItemsBefore(s, t))
    ensures a.Obj? && b.Obj? ==>
      var s, t := Pairs(a.members), Pairs(b.members);
      Less(a, b) <==> |s| < |t| || (|s| == |t| && PairsBefore(s, t))
  {
    hide Before;
    hide ItemsBefore;
    hide PairsBefore;
    if a.Str? && b.Str? {
      ComparedBefore(a.s, b.s);
    } else if a.Arr? && b.Arr? {
      if Length(a.items) == Length(b.items) { ItemsLessFirst(a.items, b.items); }
    } else if a.Obj? && b.Obj? {
      if Count(a.members) == Count(b.members) { MembersLessFirst(a.members, b.members); }
    }
  }
}
