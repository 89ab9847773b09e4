/** What any printed value is read as: members in any order of names, names that repeat, and integers of any size. */
module JsonMembers {
  import opened Numerals
  import opened JsonValue
  import opened JsonText
  import opened JsonLexer
  import opened JsonReader
  import opened JsonRoundTrip

  // ---------- members by name ----------

  function Lookup(ms: Members, name: string): Option<Value> {
    match ms
    case NoMember => None
    case Member(n, v, rest) => if n == name then Some(v) else Lookup(rest, name)
  }

  /** The names ascend. */
  predicate Ordered(ms: Members) {
    ms.Member? ==> Below(ms.name, ms.rest) && Ordered(ms.rest)
  }

  lemma {:induction false} AbsentBelow(ms: Members, name: string)
    requires Ordered(ms) && Below(name, ms)
    ensures Lookup(ms, name) == None
  {
    if ms.Member? {
      ComparedFlipped(name, ms.name);
      if ms.rest.Member? { ComparedTransitive(name, ms.name, ms.rest.name); }
      AbsentBelow(ms.rest, name);
    }
  }

  /** Inserting keeps the names in order; the name then has the value, every other name has what it had, and there is
      one member more exactly when the name is new. */
  lemma {:induction false} InsertedMember(ms: Members, name: string, v: Value)
    requires Ordered(ms)
    ensures Ordered(Inserted(ms, name, v))
    ensures forall n :: Lookup(Inserted(ms, name, v), n) == if n == name then Some(v) else Lookup(ms, n)
    ensures Count(Inserted(ms, name, v)) == Count(ms) + if Lookup(ms, name) == None then 1 else 0
  {
    if ms.Member? {
      ComparedFlipped(name, ms.name);
      if Compared(name, ms.name) < 0 {
        AbsentBelow(ms, name);
      } else if Compared(name, ms.name) > 0 {
        InsertedMember(ms.rest, name, v);
      }
    }
  }

  /** In order, what the names stand for is all there is to an object. */
  lemma {:induction false} OrderedSame(a: Members, b: Members)
    requires Ordered(a) && Ordered(b) && forall n :: Lookup(a, n) == Lookup(b, n)
    ensures a == b
  {
    var na, nb := if a.Member? then a.name else "", if b.Member? then b.name else "";
    assert Lookup(a, na) == Lookup(b, na) && Lookup(a, nb) == Lookup(b, nb);
    if a.Member? && b.Member? {
      ComparedFlipped(na, nb);
      if Compared(na, nb) < 0 {
        AbsentBelow(b, na);
      } else if Compared(nb, na) < 0 {
        AbsentBelow(a, nb);
      }
      AbsentBelow(a.rest, na);
      AbsentBelow(b.rest, nb);
      forall n
        ensures Lookup(a.rest, n) == Lookup(b.rest, n)
      {
        assert Lookup(a, n) == Lookup(b, n);
      }
      OrderedSame(a.rest, b.rest);
    }
  }

  // ---------- what is read ----------

  /** No reals, and no zero in a string or a name. */
  predicate Plainly(v: Value) {
    match v
    case Real(_) => false
    case Str(s) => NUL !in s
    case Arr(xs) => ItemsPlainly(xs)
    case Obj(ms) => MembersPlainly(ms)
    case _ => true
  }

  predicate ItemsPlainly(xs: Items) {
    match xs
    case NoItem => true
    case Item(x, tail) => Plainly(x) && ItemsPlainly(tail)
  }

  predicate MembersPlainly(ms: Members) {
    match ms
    case NoMember => true
    case Member(n, v, rest) => NUL !in n && Plainly(v) && MembersPlainly(rest)
  }

  lemma {:induction false} PlainlyNoReals(v: Value)
    requires Plainly(v)
    ensures NoReals(v)
  {
    match v
    case Arr(xs) => ItemsPlainlyNoReals(xs);
    case Obj(ms) => MembersPlainlyNoReals(ms);
    case _ =>
  }

  lemma {:induction false} ItemsPlainlyNoReals(xs: Items)
    requires ItemsPlainly(xs)
    ensures ItemsNoReals(xs)
  {
    if xs.Item? {
      PlainlyNoReals(xs.head);
      ItemsPlainlyNoReals(xs.tail);
    }
  }

  lemma {:induction false} MembersPlainlyNoReals(ms: Members)
    requires MembersPlainly(ms)
    ensures MembersNoReals(ms)
  {
    if ms.Member? {
      PlainlyNoReals(ms.value);
      MembersPlainlyNoReals(ms.rest);
    }
  }

  /** An integer is read as of signed type, as of unsigned type, or left to the conversion of reals. */
  function IntegerResult(i: int, scan: Scan): Option<Value> {
    if -2147483639 <= i <= 2147483647 then Some(Int(i))
    else if 2147483647 < i <= 4294967289 then Some(UInt(i))
    else match scan(IntText(i))
      case None => None
      case Some(r) => Some(Real(r))
  }

  lemma IntegerRead(i: int, scan: Scan)
    ensures NumberValue(IntText(i), scan) == IntegerResult(i, scan)
  {
    hide IntText;
    hide LooksReal;
    hide AllDigits;
    hide Digits;
    hide Body;
    PrintedNumber(i);
  }

  /** What a value is read as when its text is parsed; of members with one name, the last counts. */
  function Result(v: Value, scan: Scan): Option<Value> {
    match v
    case Int(i) => IntegerResult(i, scan)
    case UInt(u) => IntegerResult(u, scan)
    case Arr(xs) => (match ItemsResult(xs, scan) case None => None case Some(ys) => Some(Arr(ys)))
    case Obj(ms) => (match MembersResult(ms, NoMember, scan) case None => None case Some(ns) => Some(Obj(ns)))
    case _ => Some(v)
  }

  function ItemsResult(xs: Items, scan: Scan): Option<Items> {
    match xs
    case NoItem => Some(NoItem)
    case Item(x, tail) =>
      match (Result(x, scan), ItemsResult(tail, scan))
      case (Some(y), Some(ys)) => Some(Item(y, ys))
      case _ => None
  }

  function MembersResult(ms: Members, acc: Members, scan: Scan): Option<Members> {
    match ms
    case NoMember => Some(acc)
    case Member(n, v, rest) =>
      match Result(v, scan)
      case None => None
      case Some(w) => MembersResult(rest, Inserted(acc, n, w), scan)
  }

  function Told<T>(r: Option<T>, rest: seq<Token>): Read<T> {
    match r
    case None => Bad
    case Some(v) => Good(v, rest)
  }

  lemma {:induction false} ValueRead(v: Value, rest: seq<Token>, scan: Scan)
    requires Plainly(v)
    ensures NoReals(v) && ReadValue(Tokens(v) + rest, scan) == Told(Result(v, scan), rest)
    decreases v, 1
  {
    PlainlyNoReals(v);
    if v.Arr? {
      ArrayRead(v.items, rest, scan);
    } else if v.Obj? {
      ObjectRead(v.members, rest, scan);
    } else {
      ScalarRead(v, rest, scan);
    }
  }

  lemma ScalarRead(v: Value, rest: seq<Token>, scan: Scan)
    requires Plainly(v) && !v.Arr? && !v.Obj? && NoReals(v)
    ensures ReadValue(Tokens(v) + rest, scan) == Told(Result(v, scan), rest)
  {
    hide IntText;
    hide Decimal;
    hide Quoted;
    hide NumberValue;
    hide DecodedToken;
    hide IntegerResult;
    var ts := Tokens(v) + rest;
    assert ts[1..] == rest;
    match v
    case Int(i) => IntegerRead(i, scan);
    case UInt(u) => UnsignedRead(u, scan);
    case Str(s) => StringBack(s);
    case Null =>
    case Bool(_) =>
  }

  lemma UnsignedRead(u: nat, scan: Scan)
    ensures NumberValue(Decimal(u), scan) == IntegerResult(u, scan)
  {
    IntegerRead(u, scan);
  }

  lemma {:induction false} ArrayRead(xs: Items, rest: seq<Token>, scan: Scan)
    requires ItemsPlainly(xs) && ItemsNoReals(xs)
    ensures ReadValue(Tokens(Arr(xs)) + rest, scan) == Told(Result(Arr(xs), scan), rest)
    decreases xs, 1
  {
    hide ReadItems;
    hide ReadMembers;
    var ts, inner := Tokens(Arr(xs)) + rest, ItemTokens(xs, true) + [Token(ArrayEnd, "]")] + rest;
    assert ts == [Token(ArrayBegin, "[")] + inner && ts[1..] == inner;
    if xs.NoItem? {
      assert inner == [Token(ArrayEnd, "]")] + rest && ts[2..] == rest;
    } else {
      FirstToken(xs.head);
      assert inner[0] == Tokens(xs.head)[0];
      ItemsRead(xs, NoItem, rest, scan);
    }
  }

  /** Elements read, behind others. */
  function Joined(acc: Items, r: Option<Items>): Option<Items> {
    match r
    case None => None
    case Some(ys) => Some(Concat(acc, ys))
  }

  lemma {:induction false} ItemsRead(xs: Items, acc: Items, rest: seq<Token>, scan: Scan)
    requires xs.Item? && ItemsPlainly(xs)
    ensures ItemsNoReals(xs)
    ensures ReadItems(ItemTokens(xs, true) + [Token(ArrayEnd, "]")] + rest, scan, acc)
         == Told(Joined(acc, ItemsResult(xs, scan)), rest)
    decreases xs, 0
  {
    hide Tokens;
    hide ReadValue;
    ItemsPlainlyNoReals(xs);
    var x, tail := xs.head, xs.tail;
    var end := [Token(ArrayEnd, "]")] + rest;
    var after := ItemTokens(tail, false) + end;
    assert ItemTokens(xs, true) + [Token(ArrayEnd, "]")] + rest == Tokens(x) + after;
    ValueRead(x, after, scan);
    if Result(x, scan).Some? {
      var y := Result(x, scan).value;
      if tail.NoItem? {
        assert after == end && after[1..] == rest;
        AppendedConcat(acc, y);
      } else {
        var more := ItemTokens(tail, true) + [Token(ArrayEnd, "]")] + rest;
        assert after == COMMA + more && Tail(after) == more;
        ItemsRead(tail, Appended(acc, y), rest, scan);
        if ItemsResult(tail, scan).Some? { ConcatAppended(acc, y, ItemsResult(tail, scan).value); }
      }
    }
  }

  lemma {:induction false} ObjectRead(ms: Members, rest: seq<Token>, scan: Scan)
    requires MembersPlainly(ms) && MembersNoReals(ms)
    ensures ReadValue(Tokens(Obj(ms)) + rest, scan) == Told(Result(Obj(ms), scan), rest)
    decreases ms, 1
  {
    hide ReadItems;
    var ts, inner := Tokens(Obj(ms)) + rest, MemberTokens(ms, true) + [Token(ObjectEnd, "}")] + rest;
    assert ts == [Token(ObjectBegin, "{")] + inner && ts[1..] == inner;
    if ms.NoMember? {
      assert inner == [Token(ObjectEnd, "}")] + rest && inner[1..] == rest;
    } else {
      MembersRead(ms, NoMember, "", rest, scan);
    }
  }

  lemma {:induction false} MembersRead(ms: Members, acc: Members, name: string, rest: seq<Token>, scan: Scan)
    requires ms.Member? && MembersPlainly(ms)
    ensures MembersNoReals(ms)
    ensures ReadMembers(MemberTokens(ms, true) + [Token(ObjectEnd, "}")] + rest, scan, acc, name)
         == Told(MembersResult(ms, acc, scan), rest)
    decreases ms, 0
  {
    hide ReadValue;
    hide ReadMembers;
    hide Tokens;
    MembersPlainlyNoReals(ms);
    var n, v, tail, after := ms.name, ms.value, ms.rest, TailTokens(ms, rest);
    MemberLayout(ms, rest);
    MemberRead(n, Tokens(v) + after, scan, acc, name);
    ValueRead(v, after, scan);
    if Result(v, scan).Some? && tail.Member? {
      var others := MemberTokens(tail, true) + [Token(ObjectEnd, "}")] + rest;
      assert after[1..] == others;
      MembersRead(tail, Inserted(acc, n, Result(v, scan).value), n, rest, scan);
    }
  }

  /** Parsing the text of any value gives what `Result` says, or fails where that does, with nothing left over. */
  lemma AnyParsed(v: Value, scan: Scan)
    requires Plainly(v)
    ensures NoReals(v) && Parse(Fast(v) + "\n", scan) == Told(Result(v, scan), [])
  {
    PlainlyNoReals(v);
    FastSpelled(v);
    assert Lex("\n") == [] by {
      assert SkipSpaces("\n") == [];
    }
    assert Lex(Fast(v) + "\n") == Tokens(v) + [];
    ValueRead(v, [], scan);
  }

  // ---------- objects ----------

  /** What the last member of a name is read as. */
  function LastResult(ms: Members, name: string, scan: Scan): Option<Value> {
    match ms
    case NoMember => None
    case Member(n, v, rest) =>
      if LastResult(rest, name, scan).Some? then LastResult(rest, name, scan)
      else if n == name then Result(v, scan)
      else None
  }

  lemma {:induction false} MembersLast(ms: Members, acc: Members, scan: Scan)
    requires Ordered(acc) && MembersResult(ms, acc, scan).Some?
    ensures var r := MembersResult(ms, acc, scan).value;
      && Ordered(r)
      && forall n :: Lookup(r, n) == if LastResult(ms, n, scan).Some? then LastResult(ms, n, scan) else Lookup(acc, n)
    decreases ms
  {
    if ms.Member? {
      var w := Result(ms.value, scan).value;
      InsertedMember(acc, ms.name, w);
      MembersLast(ms.rest, Inserted(acc, ms.name, w), scan);
    }
  }

  /** An object's printed members, in whatever order and with whatever repetitions, are read as an object with its
      names in order, in which each name has what its last member is read as. */
  lemma ObjectParsed(ms: Members, scan: Scan)
    requires MembersPlainly(ms)
    ensures MembersNoReals(ms)
    ensures var r := Parse(Fast(Obj(ms)) + "\n", scan);
      r.Good? ==>
        && r.rest == [] && r.v.Obj? && Ordered(r.v.members)
        && forall n :: Lookup(r.v.members, n) == LastResult(ms, n, scan)
  {
    AnyParsed(Obj(ms), scan);
    MembersPlainlyNoReals(ms);
    if MembersResult(ms, NoMember, scan).Some? { MembersLast(ms, NoMember, scan); }
  }

  /** So two texts whose last members agree are read as the same object. */
  lemma SameObject(ms: Members, ns: Members, scan: Scan)
    requires MembersPlainly(ms) && MembersPlainly(ns)
    requires forall n :: LastResult(ms, n, scan) == LastResult(ns, n, scan)
    ensures MembersNoReals(ms) && MembersNoReals(ns)
    ensures var r, q := Parse(Fast(Obj(ms)) + "\n", scan), Parse(Fast(Obj(ns)) + "\n", scan);
      r.Good? && q.Good? ==> r == q
  {
    ObjectParsed(ms, scan);
    ObjectParsed(ns, scan);
    var r, q := Parse(Fast(Obj(ms)) + "\n", scan), Parse(Fast(Obj(ns)) + "\n", scan);
    if r.Good? && q.Good? {
      forall n
        ensures Lookup(r.v.members, n) == Lookup(q.v.members, n)
      {
      }
      OrderedSame(r.v.members, q.v.members);
    }
  }

  // ---------- what is refused ----------

  /** Behind a member there must be a comma or the object's end. */
  lemma OnlyComma(n: string, v: Value, t: Token, rest: seq<Token>, scan: Scan, acc: Members, name: string)
    requires NUL !in n && Plainly(v) && t.kind != ObjectEnd && t.kind != ArraySeparator
    ensures NoReals(v)
    ensures ReadMembers([Token(String, Quoted(n))] + COLON + (Tokens(v) + ([t] + rest)), scan, acc, name) == Bad
  {
    PlainlyNoReals(v);
    MemberRead(n, Tokens(v) + ([t] + rest), scan, acc, name);
    ValueRead(v, [t] + rest, scan);
  }

  /** A name is a string, and has a colon behind it. */
  lemma NameAndColon(ts: seq<Token>, scan: Scan, acc: Members, name: string)
    requires KindAt(ts) != String || KindAt(ts[1..]) != MemberSeparator
    requires !(KindAt(ts) == ObjectEnd && name == "")
    ensures ReadMembers(ts, scan, acc, name) == Bad
  {
  }

  /** Behind a comma no value, behind a name no object's end: only what begins a value can be read as one. */
  lemma ValueBegins(ts: seq<Token>, scan: Scan)
    requires KindAt(ts) !in {ObjectBegin, ArrayBegin, String, Number, True, False, NullWord}
    ensures ReadValue(ts, scan) == Bad
  {
  }

  // ---------- numbers ----------

  /** Decimal text without superfluous zeros: there is one such text for every number. */
  predicate Canonical(s: string) {
    s != [] && (forall c :: c in s ==> '0' <= c <= '9') && (|s| > 1 ==> s[0] != '0')
  }

  lemma {:induction false} DecimalCanonical(n: nat)
    ensures Canonical(Decimal(n))
    decreases n
  {
    if n >= 10 {
      DecimalCanonical(n / 10);
      if n < 100 { assert Decimal(n / 10) == [Digit(n / 10)]; } else { DecimalLong(n / 10); }
    }
  }

  lemma DecimalLong(n: nat)
    requires n >= 10
    ensures |Decimal(n)| > 1
  {
    assert |Decimal(n / 10)| > 0;
  }

  /** The text of an integer of either type, whatever its size: a minus sign for a negative one, and its digits. */
  lemma IntegerText(i: int, u: nat)
    ensures i >= 0 ==> Canonical(Fast(Int(i))) && Digits(Fast(Int(i)), 0) == i
    ensures i < 0 ==>
      var s := Fast(Int(i));
      s != [] && s[0] == '-' && Canonical(s[1..]) && Digits(s[1..], 0) == -i
    ensures Canonical(Fast(UInt(u))) && Digits(Fast(UInt(u)), 0) == u
  {
    var n := if i < 0 then -i else i;
    DecimalCanonical(n);
    DecimalRead(n, []);
    assert Decimal(n) + [] == Decimal(n);
    DecimalCanonical(u);
    DecimalRead(u, []);
    assert Decimal(u) + [] == Decimal(u);
    if i < 0 { assert Fast(Int(i))[1..] == Decimal(n); }
  }

  /** A number's text with a point, an exponent, or a sign behind its start is left to the conversion of reals. */
  lemma RealText(text: string, k: nat, scan: Scan)
    requires k < |text| && (text[k] in {'.', 'e', 'E', '+'} || (text[k] == '-' && k > 0))
    ensures NumberValue(text, scan) == match scan(text) case None => None case Some(r) => Some(Real(r))
  {
    assert LooksReal(text);
  }

  /** Any other text of digits behind an optional minus sign is read as the integer it denotes. */
  lemma DigitText(digits: string, negative: bool, scan: Scan)
    requires digits != [] && forall c :: c in digits ==> '0' <= c <= '9'
    ensures var text, n := if negative then "-" + digits else digits, Digits(digits, 0);
      && (negative && n <= 2147483639 ==> NumberValue(text, scan) == Some(Int(0 - n)))
      && (!negative && n <= 2147483647 ==> NumberValue(text, scan) == Some(Int(n)))
      && (!negative && 2147483647 < n <= 4294967289 ==> NumberValue(text, scan) == Some(UInt(n)))
      && (n > (if negative then 2147483639 else 4294967289) ==>
            NumberValue(text, scan) == match scan(text) case None => None case Some(r) => Some(Real(r)))
  {
    var text := if negative then "-" + digits else digits;
    assert digits[0] in digits;
    assert Body(text) == digits;
    forall k | 0 <= k < |text|
      ensures IsDigit(text[k]) || (text[k] == '-' && k == 0)
    {
      assert !negative ==> text[k] in digits;
      assert negative && k > 0 ==> text[k] == digits[k - 1] && digits[k - 1] in digits;
    }
  }

  // ---------- strings ----------

  /** A string with a zero in it is read up to there. */
  lemma {:induction false} CutAtZero(a: string, b: string)
    requires NUL !in a
    ensures Terminated(a + [NUL] + b) == a
    decreases |a|
  {
    if a != [] {
      assert a[0] in a && (a + [NUL] + b)[1..] == a[1..] + [NUL] + b;
      CutAtZero(a[1..], b);
      assert a == [a[0]] + a[1..];
    }
  }
}
