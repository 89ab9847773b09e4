/** The reader object: a position that moves over the text. */
module JsonParser {
  import opened Numerals
  import opened JsonValue
  import opened JsonText
  import opened JsonLexer
  import opened JsonReader
  import opened JsonRoundTrip

  lemma DropDrop(s: string, i: nat, j: nat)
    requires i + j <= |s|
    ensures s[i..][j..] == s[i + j..]
  {
  }

  /** `n` characters of `s` are read, and its end is to be found in `t`. */
  ghost predicate Reached(s: string, n: nat, t: string) {
    StringLength(s) == (StringLength(t).0, n + StringLength(t).1)
  }

  lemma ReachedNext(s: string, n: nat, t: string)
    requires Reached(s, n, t) && t != []
    ensures t[0] == '\\' && |t| == 1 ==> Reached(s, n + 1, t[1..])
    ensures t[0] == '\\' && |t| > 1 ==> Reached(s, n + 2, t[2..])
    ensures t[0] == '"' ==> StringLength(s) == (true, n + 1)
    ensures t[0] != '\\' && t[0] != '"' ==> Reached(s, n + 1, t[1..])
  {
    if t[0] == '\\' && |t| > 1 {
      var (ok, k) := StringLength(t[2..]);
    } else if t[0] != '"' {
      var (ok, k) := StringLength(t[1..]);
    }
  }

  lemma ReachedEnds(s: string, n: nat)
    ensures Reached(s, 0, s)
    ensures Reached(s, n, "") ==> StringLength(s) == (false, n)
  {
  }

  /** The tokens of a text after its first one. */
  lemma LexStep(s: string, n: nat)
    requires var t := SkipSpaces(s); t != [] && n == TokenAt(t).1
    ensures Lex(s) == [TokenAt(SkipSpaces(s)).0] + Lex(SkipSpaces(s)[n..])
  {
  }

  lemma LexSpaces(s: string)
    ensures Lex(SkipSpaces(s)) == Lex(s)
    ensures Lex(s) == [] <==> SkipSpaces(s) == []
  {
    SpacesOnce(s);
  }

  lemma {:induction false} SpacesOnce(s: string)
    ensures SkipSpaces(SkipSpaces(s)) == SkipSpaces(s)
    decreases |s|
  {
    if s != [] && IsSpace(s[0]) { SpacesOnce(s[1..]); }
  }

  class Reader {
    var document: string
    var current: nat

    constructor ()
      ensures Fit()
    {
      document, current := "", 0;
    }

    ghost predicate Fit()
      reads this
    {
      current <= |document|
    }

    ghost function Text(): string
      requires Fit()
      reads this
    {
      document[current..]
    }

    /** The tokens not read yet. */
    ghost function Left(): seq<Token>
      requires Fit()
      reads this
    {
      Lex(Text())
    }

    method SkipBlanks()
      requires Fit()
      modifies `current
      ensures Fit() && current >= old(current) && Text() == SkipSpaces(old(Text()))
    {
      while current < |document| && IsSpace(document[current])
        invariant Fit() && current >= old(current) && SkipSpaces(Text()) == SkipSpaces(old(Text()))
      {
        assert Text()[0] == document[current] && Text()[1..] == document[current + 1..];
        current := current + 1;
      }
      assert current < |document| ==> Text()[0] == document[current];
    }

    /** The end of the string that begins before the position. */
    method ReadString() returns (ok: bool)
      requires Fit()
      modifies `current
      ensures Fit() && (ok, current - old(current)) == StringLength(old(Text()))
    {
      hide StringLength;
      hide Reached;
      ghost var s := Text();
      var c := NUL;
      ok := false;
      ReachedEnds(s, 0);
      while current < |document|
        invariant Fit() && 0 <= old(current) <= current <= |document| && s == document[old(current)..]
        invariant Reached(s, current - old(current), document[current..])
        decreases |document| - current
      {
        ReachedNext(s, current - old(current), document[current..]);
        DropDrop(document, current, 1);
        c := document[current];
        current := current + 1;
        if c == '\\' {
          if current < |document| {
            DropDrop(document, current - 1, 2);
            current := current + 1;
          }
        } else if c == '"' {
          ok := true;
          return;
        }
      }
      ReachedEnds(s, current - old(current));
      assert document[current..] == "";
    }

    method ReadNumber()
      requires Fit()
      modifies `current
      ensures Fit() && current - old(current) == NumberLength(old(Text()))
    {
      while current < |document| && IsNumberChar(document[current])
        invariant Fit() && current >= old(current)
        invariant NumberLength(old(Text())) == current - old(current) + NumberLength(Text())
      {
        assert Text()[0] == document[current] && Text()[1..] == document[current + 1..];
        current := current + 1;
      }
      assert current < |document| ==> Text()[0] == document[current];
    }

    /** Goes on over a word if it is there. */
    method Match(pattern: string) returns (ok: bool)
      requires Fit()
      modifies `current
      ensures Fit() && ok == (pattern <= old(Text())) && current == old(current) + if ok then |pattern| else 0
    {
      if |document| - current < |pattern| {
        return false;
      }
      var index := |pattern|;
      while index > 0
        invariant 0 <= index <= |pattern|
        invariant forall k :: index <= k < |pattern| ==> document[current + k] == pattern[k]
      {
        index := index - 1;
        if document[current + index] != pattern[index] {
          assert Text()[index] == document[current + index];
          return false;
        }
      }
      assert Text()[..|pattern|] == pattern;
      current := current + |pattern|;
      ok := true;
    }

    /** The token at the position, which is not at a blank nor at the end. */
    method TakeToken() returns (t: Token)
      requires Fit() && Text() != []
      modifies `current
      ensures Fit() && (t, current - old(current)) == TokenAt(old(Text()))
    {
      var start := current;
      var c := document[current];
      current := current + 1;
      DropDrop(document, start, 1);
      assert old(Text())[0] == c && old(Text())[1..] == Text();
      var kind, ok := Error, true;
      match c {
      case '{' => kind := ObjectBegin;
      case '}' => kind := ObjectEnd;
      case '[' => kind := ArrayBegin;
      case ']' => kind := ArrayEnd;
      case '"' =>
        kind := String;
        ok := ReadString();
      case 't' =>
        kind := True;
        ok := Match("rue");
      case 'f' =>
        kind := False;
        ok := Match("alse");
      case 'n' =>
        kind := NullWord;
        ok := Match("ull");
      case ',' => kind := ArraySeparator;
      case ':' => kind := MemberSeparator;
      case _ =>
        if IsDigit(c) || c == '-' {
          kind := Number;
          ReadNumber();
        } else if c == NUL {
          kind := EndOfStream;
        }
      }
      t := Token(if ok then kind else Error, document[start..current]);
      assert old(Text())[..current - start] == document[start..current] && old(Text())[..1] == [c];
    }

    /** The next token; at the end of the text, the token for that. */
    method ReadToken() returns (t: Token)
      requires Fit()
      modifies `current
      ensures Fit() && current >= old(current) && Left() == Tail(old(Left())) && t.kind == KindAt(old(Left()))
      ensures old(Left()) != [] ==> t == old(Left())[0] && current > old(current)
      ensures NumberText(t)
    {
      hide TokenAt;
      ghost var s := Text();
      SkipBlanks();
      LexSpaces(s);
      if current == |document| {
        assert Text() == [];
        return Token(EndOfStream, "");
      }
      ghost var i := current;
      TokenNumber(Text());
      t := TakeToken();
      LexStep(s, current - i);
      DropDrop(document, i, current - i);
    }

    /** Parses a text: its first value. */
    method ParseText(text: string, scan: Scan) returns (r: Option<Value>)
      modifies this
      ensures Fit() && document == text
      ensures Told(r, JsonRoundTrip.Parse(text, scan))
    {
      document, current := text, 0;
      assert Text() == text;
      r := ReadOne(scan);
    }

    /** Reads a value. Where it is malformed, what was read of it is lost, and the position is anywhere. */
    method ReadOne(scan: Scan) returns (r: Option<Value>)
      requires Fit()
      modifies `current
      ensures Fit() && current >= old(current)
      ensures Told(r, ReadValue(old(Left()), scan))
      ensures r.Some? ==> current > old(current) && Left() == ReadValue(old(Left()), scan).rest
      decreases |document| - current, 0
    {
      hide ReadItems;
      hide ReadMembers;
      hide Lex;
      var token := ReadToken();
      match token.kind
      case ObjectBegin =>
        var ms := ReadObject(scan);
        r := if ms.None? then None else Some(Obj(ms.value));
      case ArrayBegin =>
        var xs := ReadArray(scan);
        r := if xs.None? then None else Some(Arr(xs.value));
      case Number => r := NumberRead(token, scan);
      case String =>
        var s := DecodeToken(token);
        r := if s.None? then None else Some(Str(Terminated(s.value)));
      case True => r := Some(Bool(true));
      case False => r := Some(Bool(false));
      case NullWord => r := Some(Null);
      case _ => r := None;
    }

    method NumberRead(token: Token, scan: Scan) returns (r: Option<Value>)
      requires token.kind == Number && NumberText(token)
      ensures r == NumberValue(token.text, scan)
    {
      NumberChars(token.text);
      var n := DecodeNumber(token.text);
      match n
      case Signed(i) => r := Some(Int(i));
      case Unsigned(u) => r := Some(UInt(u));
      case Double =>
        var d := scan(token.text);
        r := if d.None? then None else Some(Real(d.value));
      case Malformed => r := None;
    }

    /** The elements of an array, whose opening bracket was read. */
    method ReadArray(scan: Scan) returns (r: Option<Items>)
      requires Fit()
      modifies `current
      ensures Fit() && current >= old(current)
      ensures KindAt(old(Left())) == ArrayEnd ==> r == Some(NoItem) && Left() == old(Left())[1..]
      ensures KindAt(old(Left())) != ArrayEnd ==> Told(r, ReadItems(old(Left()), scan, NoItem))
      ensures KindAt(old(Left())) != ArrayEnd && r.Some? ==> Left() == ReadItems(old(Left()), scan, NoItem).rest
      decreases |document| - current, 1
    {
      hide ReadValue;
      hide Lex;
      SkipBlanksSame();
      PeekEnd(Text());
      if current < |document| && document[current] == ']' {
        var endArray := ReadToken();
        return Some(NoItem);
      }
      ghost var start := Left();
      var xs := NoItem;
      while true
        invariant Fit() && current >= old(current) && ReadItems(start, scan, NoItem) == ReadItems(Left(), scan, xs)
        decreases |document| - current
      {
        var v := ReadOne(scan);
        if v.None? {
          return None;
        }
        var token := ReadToken();
        xs := Appended(xs, v.value);
        if token.kind == ArrayEnd {
          return Some(xs);
        }
      }
    }

    method SkipBlanksSame()
      requires Fit()
      modifies `current
      ensures Fit() && current >= old(current) && Left() == old(Left()) && Text() == SkipSpaces(old(Text()))
    {
      LexSpaces(Text());
      SkipBlanks();
    }

    /** The members of an object, whose opening brace was read. */
    method ReadObject(scan: Scan) returns (r: Option<Members>)
      requires Fit()
      modifies `current
      ensures Fit() && current >= old(current)
      ensures Told(r, ReadMembers(old(Left()), scan, NoMember, ""))
      ensures r.Some? ==> Left() == ReadMembers(old(Left()), scan, NoMember, "").rest
      decreases |document| - current, 1
    {
      hide ReadValue;
      hide Lex;
      ghost var start := Left();
      var ms, name := NoMember, "";
      while true
        invariant Fit() && current >= old(current)
        invariant ReadMembers(start, scan, NoMember, "") == ReadMembers(Left(), scan, ms, name)
        decreases |document| - current
      {
        var tokenName := ReadToken();
        if tokenName.kind == ObjectEnd && name == "" {
          return Some(ms);
        }
        if tokenName.kind != String {
          return None;
        }
        var decoded := DecodeToken(tokenName);
        if decoded.None? {
          return None;
        }
        name := decoded.value;
        var colon := ReadToken();
        if colon.kind != MemberSeparator {
          return None;
        }
        var v := ReadOne(scan);
        if v.None? {
          return None;
        }
        ms := Inserted(ms, Terminated(name), v.value);
        var comma := ReadToken();
        if comma.kind == ObjectEnd {
          return Some(ms);
        }
        if comma.kind != ArraySeparator {
          return None;
        }
      }
    }

    method DecodeToken(token: Token) returns (r: Option<string>)
      ensures r == DecodedToken(token)
    {
      if |token.text| < 2 {
        return None;
      }
      r := DecodeString(Inner(token.text));
    }

    /** Decodes what is between the quotes, from left to right. */
    method DecodeString(s: string) returns (r: Option<string>)
      ensures r == Decoded(s)
    {
      var decoded, i := "", 0;
      assert s[0..] == s && (Decoded(s).Some? ==> "" + Decoded(s).value == Decoded(s).value);
      while i < |s| && s[i] != '"'
        invariant 0 <= i <= |s| && Decoded(s) == Prefixed(decoded, Decoded(s[i..]))
      {
        ghost var t := s[i..];
        if s[i] != '\\' {
          PrefixedTwice(decoded, [s[i]], Decoded(t[1..]));
          decoded := decoded + [s[i]];
          i := i + 1;
        } else if i + 1 == |s| {
          return None;
        } else if s[i + 1] == 'u' {
          DropDrop(s, i, 2);
          var cp := CodePoint(s[i + 2..]);
          if cp.None? {
            return None;
          }
          DropDrop(s, i, 2 + cp.value.1);
          PrefixedTwice(decoded, Utf8(cp.value.0), Decoded(t[2 + cp.value.1..]));
          decoded := decoded + Utf8(cp.value.0);
          i := i + 2 + cp.value.1;
        } else {
          var c := Unescape(s[i + 1]);
          if c.None? {
            return None;
          }
          DropDrop(s, i, 2);
          PrefixedTwice(decoded, [c.value], Decoded(t[2..]));
          decoded := decoded + [c.value];
          i := i + 2;
        }
      }
      r := Some(decoded);
      assert i < |s| ==> s[i..][0] == '"';
      assert decoded + "" == decoded;
    }
  }

  lemma PrefixedTwice(a: string, b: string, r: Option<string>)
    ensures Prefixed(a, Prefixed(b, r)) == Prefixed(a + b, r)
  {
    if r.Some? { assert a + (b + r.value) == (a + b) + r.value; }
  }

  /** The next token closes an array exactly when the next character does. */
  lemma PeekEnd(s: string)
    requires SkipSpaces(s) == s
    ensures KindAt(Lex(s)) == ArrayEnd <==> s != [] && s[0] == ']'
  {
    if s != [] { LexStep(s, TokenAt(s).1); }
  }

  /** The text of a number token that is no real is digits behind an optional sign. */
  lemma NumberChars(s: string)
    requires s != [] && (forall c :: c in s ==> IsNumberChar(c))
    ensures LooksReal(s) || AllDigits(Body(s))
  {
    if !LooksReal(s) {
      forall k | 0 <= k < |s|
        ensures IsDigit(s[k]) || (k == 0 && s[k] == '-')
      {
        assert s[k] in s;
      }
    }
  }

  lemma {:induction false} NumberLengthChars(s: string)
    ensures forall k :: 0 <= k < NumberLength(s) ==> IsNumberChar(s[k])
    decreases |s|
  {
    if s != [] && IsNumberChar(s[0]) {
      NumberLengthChars(s[1..]);
      forall k | 0 <= k < NumberLength(s)
        ensures IsNumberChar(s[k])
      {
        if k > 0 { assert s[k] == s[1..][k - 1]; }
      }
    }
  }

  predicate NumberText(t: Token) {
    t.kind == Number ==> t.text != "" && forall c :: c in t.text ==> IsNumberChar(c)
  }

  lemma TokenNumber(s: string)
    requires s != []
    ensures NumberText(TokenAt(s).0)
  {
    NumberLengthChars(s[1..]);
    var t := TokenAt(s).0.text;
    if TokenAt(s).0.kind == Number {
      forall c | c in t
        ensures IsNumberChar(c)
      {
        var k :| 0 <= k < |t| && t[k] == c;
        if k > 0 { assert t[k] == s[1..][k - 1]; }
      }
    }
  }

  /** A result of the reader object is that of the function. */
  ghost predicate Told<T>(r: Option<T>, f: Read<T>) {
    match f
    case Bad => r.None?
    case Good(v, _) => r == Some(v)
  }
}
