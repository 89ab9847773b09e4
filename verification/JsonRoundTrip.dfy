/** Values from tokens, and that what the compact writer prints is read back. */
module JsonRoundTrip {
  import opened Numerals
  import opened JsonValue
  import opened JsonText
  import opened JsonLexer
  import opened JsonReader

  /** The conversion of a real's text, which is not modelled. */
  type Scan = string -> Option<real>

  datatype Read<T> = Bad | Good(v: T, rest: seq<Token>)

  function Tail(ts: seq<Token>): (r: seq<Token>)
    ensures |r| <= |ts|
  {
    if ts == [] then [] else ts[1..]
  }

  function KindAt(ts: seq<Token>): TokenKind {
    if ts == [] then EndOfStream else ts[0].kind
  }

  function NumberValue(text: string, scan: Scan): Option<Value> {
    if text == "" then None
    else match NumeralOf(text)
      case Signed(i) => Some(Int(i))
      case Unsigned(u) => Some(UInt(u))
      case Double => (match scan(text) case None => None case Some(r) => Some(Real(r)))
      case Malformed => None
  }

  function DecodedToken(t: Token): Option<string> {
    if |t.text| < 2 then None else Decoded(Inner(t.text))
  }

  /** The element at the end. */
  function Appended(xs: Items, v: Value): Items {
    match xs
    case NoItem => Item(v, NoItem)
    case Item(x, tail) => Item(x, Appended(tail, v))
  }

  /** A member in its place in the order of names; an old value is replaced. */
  function Inserted(ms: Members, name: string, v: Value): Members {
    match ms
    case NoMember => Member(name, v, NoMember)
    case Member(n, w, rest) =>
      if Compared(name, n) < 0 then Member(name, v, ms)
      else if Compared(name, n) == 0 then Member(n, v, rest)
      else Member(n, w, Inserted(rest, name, v))
  }

  function ReadValue(ts: seq<Token>, scan: Scan): (r: Read<Value>)
    ensures r.Good? ==> |r.rest| < |ts|
    decreases |ts|, 0
  {
    if ts == [] then Bad
    else match ts[0].kind
      case ObjectBegin =>
        (match ReadMembers(ts[1..], scan, NoMember, "")
         case Bad => Bad
         case Good(ms, rest) => Good(Obj(ms), rest))
      case ArrayBegin =>
        if KindAt(ts[1..]) == ArrayEnd then Good(Arr(NoItem), ts[2..])
        else
          (match ReadItems(ts[1..], scan, NoItem)
           case Bad => Bad
           case Good(xs, rest) => Good(Arr(xs), rest))
      case Number => (match NumberValue(ts[0].text, scan) case None => Bad case Some(v) => Good(v, ts[1..]))
      case String => (match DecodedToken(ts[0]) case None => Bad case Some(s) => Good(Str(Terminated(s)), ts[1..]))
      case True => Good(Bool(true), ts[1..])
      case False => Good(Bool(false), ts[1..])
      case NullWord => Good(Null, ts[1..])
      case _ => Bad
  }

  /** The elements of an array. Any token but a closing bracket is taken for a separator. */
  function ReadItems(ts: seq<Token>, scan: Scan, xs: Items): (r: Read<Items>)
    ensures r.Good? ==> |r.rest| <= |ts|
    decreases |ts|, 1
  {
    match ReadValue(ts, scan)
    case Bad => Bad
    case Good(v, rest) =>
      if KindAt(rest) == ArrayEnd then Good(Appended(xs, v), rest[1..])
      else ReadItems(Tail(rest), scan, Appended(xs, v))
  }

  /** The members of an object; `name` is the one before, and an empty one lets the object end. */
  function ReadMembers(ts: seq<Token>, scan: Scan, ms: Members, name: string): (r: Read<Members>)
    ensures r.Good? ==> |r.rest| <= |ts|
    decreases |ts|, 1
  {
    if KindAt(ts) == ObjectEnd && name == "" then Good(ms, ts[1..])
    else if KindAt(ts) != String then Bad
    else match DecodedToken(ts[0])
      case None => Bad
      case Some(s) =>
        if KindAt(ts[1..]) != MemberSeparator then Bad
        else match ReadValue(ts[2..], scan)
          case Bad => Bad
          case Good(v, rest) =>
            var more := Inserted(ms, Terminated(s), v);
            if KindAt(rest) == ObjectEnd then Good(more, rest[1..])
            else if KindAt(rest) == ArraySeparator then ReadMembers(rest[1..], scan, more, s)
            else Bad
  }

  /** Reading a text: its first value; what follows is not looked at. */
  function Parse(text: string, scan: Scan): Read<Value> {
    ReadValue(Lex(text), scan)
  }

  // ---------- what can be read back ----------

  predicate Below(name: string, ms: Members) {
    ms.Member? ==> Compared(name, ms.name) < 0
  }

  /** A value as there are: integers of their width, strings without a zero, members in order; no reals. */
  predicate WellFormed(v: Value) {
    match v
    case Int(i) => -0x8000_0000 <= i <= MAX_INT
    case UInt(u) => u <= MAX_UINT
    case Real(_) => false
    case Str(s) => NUL !in s
    case Arr(xs) => ItemsWellFormed(xs)
    case Obj(ms) => MembersWellFormed(ms)
    case _ => true
  }

  predicate ItemsWellFormed(xs: Items) {
    match xs
    case NoItem => true
    case Item(x, tail) => WellFormed(x) && ItemsWellFormed(tail)
  }

  predicate MembersWellFormed(ms: Members) {
    match ms
    case NoMember => true
    case Member(n, v, rest) => NUL !in n && WellFormed(v) && MembersWellFormed(rest) && Below(n, rest)
  }

  /** All its numbers are among those that come back. */
  predicate Exact(v: Value) {
    match v
    case Int(i) => -2147483639 <= i
    case UInt(u) => MAX_INT < u <= 4294967289
    case Arr(xs) => ItemsExact(xs)
    case Obj(ms) => MembersExact(ms)
    case _ => true
  }

  predicate ItemsExact(xs: Items) {
    match xs
    case NoItem => true
    case Item(x, tail) => Exact(x) && ItemsExact(tail)
  }

  predicate MembersExact(ms: Members) {
    match ms
    case NoMember => true
    case Member(_, v, rest) => Exact(v) && MembersExact(rest)
  }

  lemma {:induction false} WellFormedPlain(v: Value)
    requires WellFormed(v)
    ensures NoReals(v)
  {
    match v
    case Arr(xs) => ItemsPlain(xs);
    case Obj(ms) => MembersPlain(ms);
    case _ =>
  }

  lemma {:induction false} ItemsPlain(xs: Items)
    requires ItemsWellFormed(xs)
    ensures ItemsNoReals(xs)
  {
    if xs.Item? {
      WellFormedPlain(xs.head);
      ItemsPlain(xs.tail);
    }
  }

  lemma {:induction false} MembersPlain(ms: Members)
    requires MembersWellFormed(ms)
    ensures MembersNoReals(ms)
  {
    if ms.Member? {
      WellFormedPlain(ms.value);
      MembersPlain(ms.rest);
    }
  }

  // ---------- numbers ----------

  /** What a printed integer looks like to the reader. */
  lemma PrintedNumber(i: int)
    ensures var s := IntText(i);
      && s != [] && !LooksReal(s) && AllDigits(Body(s)) && (s[0] == '-' <==> i < 0)
      && Digits(Body(s), 0) == if i < 0 then -i else i
  {
    var n := if i < 0 then -i else i;
    var d, s := Decimal(n), IntText(i);
    DecimalRead(n, []);
    assert d + [] == d && Body(s) == d by {
      assert d[0] in d;
    }
    forall k | 0 <= k < |s|
      ensures IsDigit(s[k]) || (s[k] == '-' && k == 0)
    {
      assert i >= 0 ==> s[k] in d;
      assert i < 0 && k > 0 ==> s[k] == d[k - 1] && d[k - 1] in d;
    }
  }

  lemma NumberBack(i: int, scan: Scan)
    requires -0x8000_0000 <= i <= MAX_UINT
    ensures var r := NumberValue(IntText(i), scan);
      && (-2147483639 <= i <= MAX_INT ==> r == Some(Int(i)))
      && (MAX_INT < i <= 4294967289 ==> r == Some(UInt(i)))
      && (r.Some? && !(-2147483639 <= i <= 4294967289) ==> r.value.Real?)
  {
    hide IntText;
    hide LooksReal;
    hide AllDigits;
    hide Digits;
    hide Body;
    PrintedNumber(i);
  }

  // ---------- values ----------

  lemma StringBack(s: string)
    requires NUL !in s
    ensures DecodedToken(Token(String, Quoted(s))) == Some(s) && Terminated(s) == s
  {
    assert Inner(Quoted(s)) == Escaped(s);
    EscapedDecoded(s);
    TerminatedSame(s);
  }

  function Concat(xs: Items, ys: Items): Items {
    match xs
    case NoItem => ys
    case Item(x, tail) => Item(x, Concat(tail, ys))
  }

  lemma {:induction false} ConcatAppended(xs: Items, v: Value, ys: Items)
    ensures Concat(Appended(xs, v), ys) == Concat(xs, Item(v, ys))
  {
    if xs.Item? { ConcatAppended(xs.tail, v, ys); }
  }

  function ConcatMembers(ms: Members, ns: Members): Members {
    match ms
    case NoMember => ns
    case Member(n, v, rest) => Member(n, v, ConcatMembers(rest, ns))
  }

  lemma {:induction false} ConcatMember(ms: Members, n: string, v: Value, ns: Members)
    ensures ConcatMembers(ConcatMembers(ms, Member(n, v, NoMember)), ns) == ConcatMembers(ms, Member(n, v, ns))
  {
    if ms.Member? { ConcatMember(ms.rest, n, v, ns); }
  }

  /** All names so far come before `name`. */
  predicate AllBelow(ms: Members, name: string) {
    ms.Member? ==> Compared(ms.name, name) < 0 && AllBelow(ms.rest, name)
  }

  lemma {:induction false} InsertedLast(ms: Members, name: string, v: Value)
    requires AllBelow(ms, name)
    ensures Inserted(ms, name, v) == ConcatMembers(ms, Member(name, v, NoMember))
  {
    if ms.Member? {
      ComparedFlipped(ms.name, name);
      InsertedLast(ms.rest, name, v);
    }
  }

  lemma {:induction false} StillBelow(ms: Members, name: string, v: Value, next: string)
    requires AllBelow(ms, name) && Compared(name, next) < 0
    ensures AllBelow(ConcatMembers(ms, Member(name, v, NoMember)), next)
  {
    if ms.Member? {
      ComparedTransitive(ms.name, name, next);
      StillBelow(ms.rest, name, v, next);
    }
  }

  lemma FirstToken(v: Value)
    requires NoReals(v)
    ensures Tokens(v) != [] && Tokens(v)[0].kind != ArrayEnd
  {
  }

  /** Reading the tokens of a value ends where they end; it gives the value back exactly when its numbers are exact,
      and always then. */
  ghost predicate ComesBack(v: Value, rest: seq<Token>, r: Read<Value>) {
    && (Exact(v) ==> r.Good?)
    && (r.Good? ==> r.rest == rest && (r.v == v <==> Exact(v)))
  }

  lemma {:induction false} ValueBack(v: Value, rest: seq<Token>, scan: Scan)
    requires WellFormed(v)
    ensures NoReals(v) && ComesBack(v, rest, ReadValue(Tokens(v) + rest, scan))
    decreases v, 1
  {
    WellFormedPlain(v);
    if v.Arr? {
      ArrayBack(v.items, rest, scan);
    } else if v.Obj? {
      ObjectBack(v.members, rest, scan);
    } else {
      ScalarBack(v, rest, scan);
    }
  }

  lemma ScalarBack(v: Value, rest: seq<Token>, scan: Scan)
    requires WellFormed(v) && !v.Arr? && !v.Obj? && NoReals(v)
    ensures ComesBack(v, rest, ReadValue(Tokens(v) + rest, scan))
  {
    hide IntText;
    hide Decimal;
    hide Quoted;
    hide NumberValue;
    hide DecodedToken;
    var ts := Tokens(v) + rest;
    assert ts[1..] == rest;
    match v
    case Int(i) => NumberBack(i, scan);
    case UInt(u) => UnsignedBack(u, scan);
    case Str(s) => StringBack(s);
    case Null =>
    case Bool(_) =>
  }

  lemma UnsignedBack(u: nat, scan: Scan)
    requires u <= MAX_UINT
    ensures var r := NumberValue(Decimal(u), scan);
      && (u <= MAX_INT ==> r == Some(Int(u)))
      && (MAX_INT < u <= 4294967289 ==> r == Some(UInt(u)))
      && (r.Some? && u > 4294967289 ==> r.value.Real?)
  {
    NumberBack(u, scan);
  }

  lemma {:induction false} ArrayBack(xs: Items, rest: seq<Token>, scan: Scan)
    requires ItemsWellFormed(xs) && ItemsNoReals(xs)
    ensures ComesBack(Arr(xs), rest, ReadValue(Tokens(Arr(xs)) + rest, scan))
    decreases xs, 1
  {
    hide ReadItems;
    hide ReadMembers;
    var ts, inner := Tokens(Arr(xs)) + rest, ItemTokens(xs, true) + [Token(ArrayEnd, "]")] + rest;
    assert ts == [Token(ArrayBegin, "[")] + inner && ts[1..] == inner;
    if xs.NoItem? {
      assert inner == [Token(ArrayEnd, "]")] + rest && ts[2..] == rest;
    } else {
      FirstToken(xs.head);
      assert inner[0] == Tokens(xs.head)[0];
      var ys := ItemsBack(xs, NoItem, rest, scan);
    }
  }

  lemma {:induction false} ObjectBack(ms: Members, rest: seq<Token>, scan: Scan)
    requires MembersWellFormed(ms) && MembersNoReals(ms)
    ensures ComesBack(Obj(ms), rest, ReadValue(Tokens(Obj(ms)) + rest, scan))
    decreases ms, 1
  {
    hide ReadItems;
    var ts, inner := Tokens(Obj(ms)) + rest, MemberTokens(ms, true) + [Token(ObjectEnd, "}")] + rest;
    assert ts == [Token(ObjectBegin, "{")] + inner && ts[1..] == inner;
    if ms.NoMember? {
      assert inner == [Token(ObjectEnd, "}")] + rest && inner[1..] == rest;
    } else {
      var ns := MembersBack(ms, NoMember, "", rest, scan);
    }
  }

  lemma {:induction false} ItemsBack(xs: Items, acc: Items, rest: seq<Token>, scan: Scan) returns (ys: Items)
    requires xs.Item? && ItemsWellFormed(xs)
    ensures ItemsNoReals(xs)
    ensures var r := ReadItems(ItemTokens(xs, true) + [Token(ArrayEnd, "]")] + rest, scan, acc);
      && (ItemsExact(xs) ==> r.Good?)
      && (r.Good? ==> r.rest == rest && r.v == Concat(acc, ys) && (ys == xs <==> ItemsExact(xs)))
    decreases xs, 0
  {
    hide Tokens;
    hide ReadValue;
    ItemsPlain(xs);
    var x, tail := xs.head, xs.tail;
    var end := [Token(ArrayEnd, "]")] + rest;
    var after := ItemTokens(tail, false) + end;
    assert ItemTokens(xs, true) + [Token(ArrayEnd, "]")] + rest == Tokens(x) + after;
    ValueBack(x, after, scan);
    var r := ReadValue(Tokens(x) + after, scan);
    ys := xs;
    if r.Good? {
      if tail.NoItem? {
        assert after == end && after[1..] == rest;
        ys := Item(r.v, NoItem);
        AppendedConcat(acc, r.v);
      } else {
        var more := ItemTokens(tail, true) + [Token(ArrayEnd, "]")] + rest;
        assert after == COMMA + more && Tail(after) == more;
        var zs := ItemsBack(tail, Appended(acc, r.v), rest, scan);
        ConcatAppended(acc, r.v, zs);
        ys := Item(r.v, zs);
      }
    }
  }

  lemma {:induction false} AppendedConcat(xs: Items, v: Value)
    ensures Appended(xs, v) == Concat(xs, Item(v, NoItem))
  {
    if xs.Item? { AppendedConcat(xs.tail, v); }
  }

  /** What is read behind a member. */
  function MembersAfter(r: Read<Value>, scan: Scan, acc: Members, n: string): Read<Members> {
    match r
    case Bad => Bad
    case Good(v, rest) =>
      var more := Inserted(acc, n, v);
      if KindAt(rest) == ObjectEnd then Good(more, rest[1..])
      else if KindAt(rest) == ArraySeparator then ReadMembers(rest[1..], scan, more, n)
      else Bad
  }

  lemma MemberRead(n: string, ts: seq<Token>, scan: Scan, acc: Members, name: string)
    requires NUL !in n
    ensures ReadMembers([Token(String, Quoted(n))] + COLON + ts, scan, acc, name)
      == MembersAfter(ReadValue(ts, scan), scan, acc, n)
  {
    var all := [Token(String, Quoted(n))] + COLON + ts;
    assert all[1..] == COLON + ts && all[2..] == ts;
    StringBack(n);
  }

  /** The tokens of the members behind the first, and what closes the object. */
  function TailTokens(ms: Members, rest: seq<Token>): seq<Token>
    requires ms.Member? && MembersNoReals(ms)
  {
    MemberTokens(ms.rest, false) + [Token(ObjectEnd, "}")] + rest
  }

  lemma MemberLayout(ms: Members, rest: seq<Token>)
    requires ms.Member? && MembersNoReals(ms)
    ensures MemberTokens(ms, true) + [Token(ObjectEnd, "}")] + rest
         == [Token(String, Quoted(ms.name))] + COLON + (Tokens(ms.value) + TailTokens(ms, rest))
    ensures ms.rest.NoMember? ==> TailTokens(ms, rest)[0].kind == ObjectEnd && TailTokens(ms, rest)[1..] == rest
    ensures ms.rest.Member? ==>
      TailTokens(ms, rest) == COMMA + (MemberTokens(ms.rest, true) + [Token(ObjectEnd, "}")] + rest)
  {
    hide Tokens;
    hide Quoted;
    var q, e := [Token(String, Quoted(ms.name))], [Token(ObjectEnd, "}")];
    var t, m := Tokens(ms.value), MemberTokens(ms.rest, false);
    NoComma(q, COLON, t, m, e, rest);
    if ms.rest.NoMember? {
      assert [] + e + rest == e + rest;
    } else {
      var n := ms.rest;
      var q2, t2, m2 := [Token(String, Quoted(n.name))], Tokens(n.value), MemberTokens(n.rest, false);
      WithComma(COMMA, q2, COLON, t2, m2, e, rest);
    }
  }

  lemma NoComma(q: seq<Token>, c: seq<Token>, t: seq<Token>, m: seq<Token>, e: seq<Token>, rest: seq<Token>)
    ensures [] + q + c + t + m + e + rest == q + c + (t + (m + e + rest))
  {
  }

  lemma WithComma(a: seq<Token>, q: seq<Token>, c: seq<Token>, t: seq<Token>, m: seq<Token>, e: seq<Token>,
                  rest: seq<Token>)
    ensures a + q + c + t + m + e + rest == a + ([] + q + c + t + m + e + rest)
  {
  }

  lemma {:induction false} MembersBack(ms: Members, acc: Members, name: string, rest: seq<Token>, scan: Scan)
    returns (ns: Members)
    requires ms.Member? && MembersWellFormed(ms) && AllBelow(acc, ms.name)
    ensures MembersNoReals(ms)
    ensures var r := ReadMembers(MemberTokens(ms, true) + [Token(ObjectEnd, "}")] + rest, scan, acc, name);
      && (MembersExact(ms) ==> r.Good?)
      && (r.Good? ==> r.rest == rest && r.v == ConcatMembers(acc, ns) && (ns == ms <==> MembersExact(ms)))
    decreases ms, 0
  {
    hide ReadValue;
    hide ReadMembers;
    hide Tokens;
    MembersPlain(ms);
    var n, v, tail, after := ms.name, ms.value, ms.rest, TailTokens(ms, rest);
    MemberLayout(ms, rest);
    MemberRead(n, Tokens(v) + after, scan, acc, name);
    ValueBack(v, after, scan);
    var r := ReadValue(Tokens(v) + after, scan);
    ns := ms;
    if r.Good? {
      InsertedLast(acc, n, r.v);
      if tail.NoMember? {
        ns := Member(n, r.v, NoMember);
      } else {
        var others := MemberTokens(tail, true) + [Token(ObjectEnd, "}")] + rest;
        assert after[1..] == others;
        StillBelow(acc, n, r.v, tail.name);
        var zs := MembersBack(tail, Inserted(acc, n, r.v), n, rest, scan);
        ConcatMember(acc, n, r.v, zs);
        ns := Member(n, r.v, zs);
      }
    }
  }

  /** Parsing what the compact writer prints: nothing of the text is left over, and the value comes back exactly when
      its integers are at least -2147483639, and those of unsigned type between 2147483648 and 4294967289. */
  lemma FastRoundTrip(v: Value, scan: Scan)
    requires WellFormed(v)
    ensures NoReals(v)
    ensures Parse(Fast(v) + "\n", scan) == Good(v, []) <==> Exact(v)
    ensures Parse(Fast(v) + "\n", scan).Good? ==> Parse(Fast(v) + "\n", scan).rest == []
  {
    WellFormedPlain(v);
    FastSpelled(v);
    assert Lex("\n") == [] by {
      assert SkipSpaces("\n") == [];
    }
    assert Lex(Fast(v) + "\n") == Tokens(v) + [];
    ValueBack(v, [], scan);
  }

  /** A text with the tokens of a value parses as the compact text does, and so gives the value back exactly when
      that does. */
  lemma SameTokensSameValue(v: Value, text: string, scan: Scan)
    requires NoReals(v) && Lex(text) == Tokens(v)
    ensures Lex(Fast(v) + "\n") == Lex(text) && Parse(text, scan) == Parse(Fast(v) + "\n", scan)
    ensures WellFormed(v) ==> (Parse(text, scan) == Good(v, []) <==> Exact(v))
  {
    FastSpelled(v);
    assert Lex("\n") == [] by {
      assert SkipSpaces("\n") == [];
    }
    assert Lex(Fast(v) + "\n") == Tokens(v) + [];
    if WellFormed(v) { FastRoundTrip(v, scan); }
  }

  /** Between two elements of an array, any token but the array's end does for the comma. */
  lemma AnySeparator(v: Value, t: Token, rest: seq<Token>, scan: Scan, acc: Items)
    requires WellFormed(v) && Exact(v) && t.kind != ArrayEnd
    ensures NoReals(v)
    ensures ReadItems(Tokens(v) + ([t] + rest), scan, acc) == ReadItems(rest, scan, Appended(acc, v))
  {
    WellFormedPlain(v);
    ValueBack(v, [t] + rest, scan);
    assert Tail([t] + rest) == rest;
  }
}
