/** Tokens of a JSON text, and the tokens of what the writers print. */
module JsonLexer {
  import opened Numerals
  import opened JsonValue
  import opened JsonText

  datatype TokenKind = EndOfStream | ObjectBegin | ObjectEnd | ArrayBegin | ArrayEnd
                     | String | Number | True | False | NullWord
                     | ArraySeparator | MemberSeparator | Error

  datatype Token = Token(kind: TokenKind, text: string)

  predicate IsSpace(c: char) {
    c == ' ' || c == '\t' || c == '\r' || c == '\n'
  }

  function SkipSpaces(s: string): (r: string)
    ensures |r| <= |s| && (r != [] ==> !IsSpace(r[0]))
  {
    if s != [] && IsSpace(s[0]) then SkipSpaces(s[1..]) else s
  }

  predicate IsNumberChar(c: char) {
    IsDigit(c) || c == '.' || c == 'e' || c == 'E' || c == '+' || c == '-'
  }

  /** How far a number goes on. */
  function NumberLength(s: string): (n: nat)
    ensures n <= |s|
  {
    if s != [] && IsNumberChar(s[0]) then 1 + NumberLength(s[1..]) else 0
  }

  /** How far a string goes on behind its first quote, and whether it ends there with a quote. */
  function StringLength(s: string): (r: (bool, nat))
    ensures r.1 <= |s| && (r.0 ==> r.1 > 0)
  {
    if s == [] then (false, 0)
    else if s[0] == '\\' then
      if |s| == 1 then (false, 1) else var (ok, n) := StringLength(s[2..]); (ok, n + 2)
    else if s[0] == '"' then (true, 1)
    else var (ok, n) := StringLength(s[1..]); (ok, n + 1)
  }

  /** A word after its first character; a mismatch leaves the rest where it is. */
  function Word(s: string, rest: string, kind: TokenKind): (r: (Token, nat))
    requires s != []
    ensures 1 <= r.1 <= |s|
  {
    if rest <= s[1..] then (Token(kind, s[..1 + |rest|]), 1 + |rest|) else (Token(Error, s[..1]), 1)
  }

  /** The token at the start of a text that does not start with a blank, and its length. */
  function TokenAt(s: string): (r: (Token, nat))
    requires s != []
    ensures 1 <= r.1 <= |s|
  {
    var c := s[0];
    if c == '{' then (Token(ObjectBegin, "{"), 1)
    else if c == '}' then (Token(ObjectEnd, "}"), 1)
    else if c == '[' then (Token(ArrayBegin, "["), 1)
    else if c == ']' then (Token(ArrayEnd, "]"), 1)
    else if c == '"' then
      var (ok, n) := StringLength(s[1..]);
      (Token(if ok then String else Error, s[..1 + n]), 1 + n)
    else if IsDigit(c) || c == '-' then
      var n := NumberLength(s[1..]);
      (Token(Number, s[..1 + n]), 1 + n)
    else if c == 't' then Word(s, "rue", True)
    else if c == 'f' then Word(s, "alse", False)
    else if c == 'n' then Word(s, "ull", NullWord)
    else if c == ',' then (Token(ArraySeparator, ","), 1)
    else if c == ':' then (Token(MemberSeparator, ":"), 1)
    else if c == NUL then (Token(EndOfStream, s[..1]), 1)
    else (Token(Error, s[..1]), 1)
  }

  /** All tokens up to the end of the text. */
  function Lex(s: string): seq<Token>
    decreases |s|
  {
    var t := SkipSpaces(s);
    if t == [] then [] else var (token, n) := TokenAt(t); [token] + Lex(t[n..])
  }

  // ---------- spellings ----------

  /** `w` is read as the tokens `ts`, whatever follows. */
  ghost predicate Free(w: string, ts: seq<Token>) {
    forall rest :: Lex(w + rest) == ts + Lex(rest)
  }

  /** A text with which a number before it ends. */
  predicate Ends(rest: string) {
    rest == [] || !IsNumberChar(rest[0])
  }

  /** `w` is read as the tokens `ts`, when what follows ends a number. */
  ghost predicate Spells(w: string, ts: seq<Token>) {
    forall rest :: Ends(rest) ==> Lex(w + rest) == ts + Lex(rest)
  }

  lemma FreeSpells(w: string, ts: seq<Token>)
    requires Free(w, ts)
    ensures Spells(w, ts)
  {
  }

  lemma FreeThen(a: string, x: seq<Token>, b: string, y: seq<Token>)
    requires Free(a, x)
    ensures Free(b, y) ==> Free(a + b, x + y)
    ensures Spells(b, y) ==> Spells(a + b, x + y)
  {
    if Free(b, y) {
      forall rest
        ensures Lex((a + b) + rest) == (x + y) + Lex(rest)
      {
        JoinedFree(a, x, b, y, rest);
      }
    }
    if Spells(b, y) {
      forall rest | Ends(rest)
        ensures Lex((a + b) + rest) == (x + y) + Lex(rest)
      {
        JoinedFree(a, x, b, y, rest);
      }
    }
  }

  lemma JoinedFree(a: string, x: seq<Token>, b: string, y: seq<Token>, rest: string)
    requires Free(a, x) && Lex(b + rest) == y + Lex(rest)
    ensures Lex((a + b) + rest) == (x + y) + Lex(rest)
  {
    hide Lex;
    assert (a + b) + rest == a + (b + rest);
    assert x + (y + Lex(rest)) == (x + y) + Lex(rest);
  }

  lemma SpellsThen(a: string, x: seq<Token>, b: string, y: seq<Token>)
    requires Spells(a, x) && b != [] && Ends(b)
    ensures Free(b, y) ==> Free(a + b, x + y)
    ensures Spells(b, y) ==> Spells(a + b, x + y)
  {
    if Free(b, y) {
      forall rest
        ensures Lex((a + b) + rest) == (x + y) + Lex(rest)
      {
        Joined(a, x, b, y, rest);
      }
    }
    if Spells(b, y) {
      forall rest | Ends(rest)
        ensures Lex((a + b) + rest) == (x + y) + Lex(rest)
      {
        Joined(a, x, b, y, rest);
      }
    }
  }

  lemma Joined(a: string, x: seq<Token>, b: string, y: seq<Token>, rest: string)
    requires Spells(a, x) && b != [] && Ends(b) && Lex(b + rest) == y + Lex(rest)
    ensures Lex((a + b) + rest) == (x + y) + Lex(rest)
  {
    hide Lex;
    assert (a + b) + rest == a + (b + rest) && (b + rest)[0] == b[0];
    assert x + (y + Lex(rest)) == (x + y) + Lex(rest);
  }

  lemma Nothing()
    ensures Free("", []) && Spells("", [])
  {
    forall rest: string
      ensures Lex("" + rest) == [] + Lex(rest)
    {
      assert "" + rest == rest;
    }
  }

  /** Blanks in front do not matter. */
  lemma {:induction false} Blanks(b: string)
    requires forall c :: c in b ==> IsSpace(c)
    ensures Free(b, [])
    decreases |b|
  {
    Nothing();
    if b != [] {
      assert b[0] in b;
      Blanks(b[1..]);
      forall rest: string
        ensures Lex(b + rest) == [] + Lex(rest)
      {
        assert (b + rest)[0] == b[0] && (b + rest)[1..] == b[1..] + rest;
        assert SkipSpaces(b + rest) == SkipSpaces(b[1..] + rest);
        assert Lex(b[1..] + rest) == [] + Lex(rest);
      }
    }
  }

  lemma OneToken(w: string, t: Token)
    requires w != [] && !IsSpace(w[0])
    requires forall rest :: Ends(rest) ==> TokenAt(w + rest) == (t, |w|)
    ensures Spells(w, [t])
  {
    forall rest | Ends(rest)
      ensures Lex(w + rest) == [t] + Lex(rest)
    {
      assert (w + rest)[0] == w[0] && (w + rest)[|w|..] == rest;
    }
  }

  lemma OneFreeToken(w: string, t: Token)
    requires w != [] && !IsSpace(w[0])
    requires forall rest :: TokenAt(w + rest) == (t, |w|)
    ensures Free(w, [t])
  {
    forall rest
      ensures Lex(w + rest) == [t] + Lex(rest)
    {
      assert (w + rest)[0] == w[0] && (w + rest)[|w|..] == rest;
    }
  }

  /** A single mark. */
  lemma Mark(c: char, kind: TokenKind)
    requires (c, kind) in {('{', ObjectBegin), ('}', ObjectEnd), ('[', ArrayBegin), (']', ArrayEnd),
                           (',', ArraySeparator), (':', MemberSeparator)}
    ensures Free([c], [Token(kind, [c])])
  {
    OneFreeToken([c], Token(kind, [c]));
  }

  lemma Words(w: string, kind: TokenKind)
    requires (w, kind) in {("true", True), ("false", False), ("null", NullWord)}
    ensures Free(w, [Token(kind, w)])
  {
    forall rest: string
      ensures TokenAt(w + rest) == (Token(kind, w), |w|)
    {
      assert (w + rest)[1..] == w[1..] + rest && (w + rest)[..|w|] == w;
      assert w[1..] <= (w + rest)[1..];
    }
    OneFreeToken(w, Token(kind, w));
  }

  // ---------- numbers ----------

  lemma {:induction false} DigitsLength(s: string, rest: string)
    requires (forall c :: c in s ==> IsDigit(c)) && Ends(rest)
    ensures NumberLength(s + rest) == |s|
    decreases |s|
  {
    if s == [] {
      assert s + rest == rest;
    } else {
      assert s[0] in s && (s + rest)[0] == s[0] && (s + rest)[1..] == s[1..] + rest;
      DigitsLength(s[1..], rest);
    }
  }

  lemma NumberSpelled(i: int)
    ensures Spells(IntText(i), [Token(Number, IntText(i))])
  {
    var w := IntText(i);
    var d := Decimal(if i < 0 then -i else i);
    assert d[0] in d && (w[0] == '-' || w[0] == d[0]) && !IsSpace(w[0]);
    forall rest | Ends(rest)
      ensures TokenAt(w + rest) == (Token(Number, w), |w|)
    {
      assert (w + rest)[0] == w[0] && (w + rest)[1..] == w[1..] + rest && (w + rest)[..|w|] == w;
      DigitsLength(w[1..], rest);
    }
    OneToken(w, Token(Number, w));
  }

  // ---------- strings ----------

  lemma PlainLength(c: char, s: string)
    requires c != '\\' && c != '"'
    ensures var (ok, n) := StringLength(s); StringLength([c] + s) == (ok, n + 1)
  {
    assert ([c] + s)[1..] == s;
  }

  lemma EscapeLength(c: char, tail: string)
    ensures var (ok, n) := StringLength(tail); StringLength(Escape(c) + tail) == (ok, n + |Escape(c)|)
  {
    var e := Escape(c);
    if e[0] != '\\' {
      assert e == [c];
      PlainLength(c, tail);
    } else if |e| == 2 {
      assert (e + tail)[2..] == tail;
    } else {
      PlainLength(e[5], tail);
      PlainLength(e[4], [e[5]] + tail);
      PlainLength(e[3], [e[4]] + ([e[5]] + tail));
      PlainLength(e[2], [e[3]] + ([e[4]] + ([e[5]] + tail)));
      assert (e + tail)[2..] == [e[2]] + ([e[3]] + ([e[4]] + ([e[5]] + tail)));
    }
  }

  lemma {:induction false} EscapedLength(s: string, rest: string)
    ensures StringLength(Escaped(s) + ("\"" + rest)) == (true, |Escaped(s)| + 1)
    decreases |s|
  {
    var tail := "\"" + rest;
    if s == [] {
      assert Escaped(s) + tail == tail;
    } else {
      var e, more := Escape(s[0]), Escaped(s[1..]);
      EscapedLength(s[1..], rest);
      EscapeLength(s[0], more + tail);
      assert Escaped(s) + tail == e + (more + tail);
    }
  }

  /** A quoted string is read up to its own closing quote. */
  lemma QuotedSpelled(s: string)
    ensures Free(Quoted(s), [Token(String, Quoted(s))])
  {
    var w := Quoted(s);
    forall rest: string
      ensures TokenAt(w + rest) == (Token(String, w), |w|)
    {
      assert (w + rest)[0] == '"' && (w + rest)[1..] == Escaped(s) + ("\"" + rest) && (w + rest)[..|w|] == w;
      EscapedLength(s, rest);
    }
    OneFreeToken(w, Token(String, w));
  }

  // ---------- values ----------

  /** The tokens of a value. */
  function Tokens(v: Value): seq<Token>
    requires NoReals(v)
  {
    match v
    case Null => [Token(NullWord, "null")]
    case Int(i) => [Token(Number, IntText(i))]
    case UInt(u) => [Token(Number, Decimal(u))]
    case Str(s) => [Token(String, Quoted(s))]
    case Bool(b) => if b then [Token(True, "true")] else [Token(False, "false")]
    case Arr(xs) => [Token(ArrayBegin, "[")] + ItemTokens(xs, true) + [Token(ArrayEnd, "]")]
    case Obj(ms) => [Token(ObjectBegin, "{")] + MemberTokens(ms, true) + [Token(ObjectEnd, "}")]
  }

  const COMMA: seq<Token> := [Token(ArraySeparator, ",")]
  const COLON: seq<Token> := [Token(MemberSeparator, ":")]

  function ItemTokens(xs: Items, first: bool): seq<Token>
    requires ItemsNoReals(xs)
  {
    match xs
    case NoItem => []
    case Item(x, tail) => (if first then [] else COMMA) + Tokens(x) + ItemTokens(tail, false)
  }

  function MemberTokens(ms: Members, first: bool): seq<Token>
    requires MembersNoReals(ms)
  {
    match ms
    case NoMember => []
    case Member(n, v, rest) =>
      (if first then [] else COMMA) + [Token(String, Quoted(n))] + COLON + Tokens(v) + MemberTokens(rest, false)
  }

  /** The compact text of a value spells its tokens. */
  lemma {:induction false} FastSpelled(v: Value)
    requires NoReals(v)
    ensures Spells(Fast(v), Tokens(v))
    decreases v
  {
    hide Spells;
    hide Free;
    match v
    case Null => WordSpelled("null", NullWord);
    case Int(i) => NumberSpelled(i);
    case UInt(u) => NumberSpelled(u);
    case Str(s) =>
      QuotedSpelled(s);
      FreeSpells(Quoted(s), Tokens(v));
    case Bool(b) => if b { WordSpelled("true", True); } else { WordSpelled("false", False); }
    case Arr(xs) =>
      FastItemsSpelled(xs, true);
      Enclosed('[', ArrayBegin, FastItems(xs, true), ItemTokens(xs, true), ']', ArrayEnd);
    case Obj(ms) =>
      FastMembersSpelled(ms, true);
      Enclosed('{', ObjectBegin, FastMembers(ms, true), MemberTokens(ms, true), '}', ObjectEnd);
  }

  lemma WordSpelled(w: string, kind: TokenKind)
    requires (w, kind) in {("true", True), ("false", False), ("null", NullWord)}
    ensures Spells(w, [Token(kind, w)])
  {
    Words(w, kind);
    FreeSpells(w, [Token(kind, w)]);
  }

  /** Something in brackets or braces. */
  lemma Enclosed(open: char, openKind: TokenKind, w: string, ts: seq<Token>, close: char, closeKind: TokenKind)
    requires (open, openKind, close, closeKind) in
      {('[', ArrayBegin, ']', ArrayEnd), ('{', ObjectBegin, '}', ObjectEnd)}
    requires Spells(w, ts)
    ensures Spells([open] + w + [close], [Token(openKind, [open])] + ts + [Token(closeKind, [close])])
  {
    hide Spells;
    hide Free;
    Mark(open, openKind);
    Mark(close, closeKind);
    FreeThen([open], [Token(openKind, [open])], w, ts);
    SpellsThen([open] + w, [Token(openKind, [open])] + ts, [close], [Token(closeKind, [close])]);
    FreeSpells([open] + w + [close], [Token(openKind, [open])] + ts + [Token(closeKind, [close])]);
  }

  lemma {:induction false} FastItemsSpelled(xs: Items, first: bool)
    requires ItemsNoReals(xs)
    ensures Spells(FastItems(xs, first), ItemTokens(xs, first))
    decreases xs
  {
    hide Spells;
    hide Free;
    match xs
    case NoItem => Nothing();
    case Item(x, tail) =>
      FastSpelled(x);
      FastItemsSpelled(tail, false);
      var w, ts := Fast(x) + FastItems(tail, false), Tokens(x) + ItemTokens(tail, false);
      More(Fast(x), Tokens(x), FastItems(tail, false), ItemTokens(tail, false), tail.NoItem?);
      Separated(first, w, ts);
      assert (if first then "" else ",") + Fast(x) + FastItems(tail, false) == (if first then "" else ",") + w;
      assert (if first then [] else COMMA) + Tokens(x) + ItemTokens(tail, false) == (if first then [] else COMMA) + ts;
  }

  /** What follows an element is nothing, or starts with a comma. */
  lemma More(a: string, x: seq<Token>, b: string, y: seq<Token>, last: bool)
    requires Spells(a, x) && Spells(b, y)
    requires if last then b == "" && y == [] else b != "" && b[0] == ','
    ensures Spells(a + b, x + y)
  {
    hide Spells;
    hide Free;
    if last {
      assert a + b == a && x + y == x;
    } else {
      SpellsThen(a, x, b, y);
    }
  }

  lemma Separated(first: bool, w: string, ts: seq<Token>)
    requires Spells(w, ts)
    ensures Spells((if first then "" else ",") + w, (if first then [] else COMMA) + ts)
  {
    hide Spells;
    hide Free;
    if first {
      assert "" + w == w && [] + ts == ts;
    } else {
      Mark(',', ArraySeparator);
      FreeThen(",", COMMA, w, ts);
    }
  }

  lemma {:induction false} FastMembersSpelled(ms: Members, first: bool)
    requires MembersNoReals(ms)
    ensures Spells(FastMembers(ms, first), MemberTokens(ms, first))
    decreases ms
  {
    hide Spells;
    hide Free;
    hide Tokens;
    hide Fast;
    hide Quoted;
    match ms
    case NoMember => Nothing();
    case Member(n, v, rest) =>
      FastSpelled(v);
      FastMembersSpelled(rest, false);
      var w, ts := Fast(v) + FastMembers(rest, false), Tokens(v) + MemberTokens(rest, false);
      More(Fast(v), Tokens(v), FastMembers(rest, false), MemberTokens(rest, false), rest.NoMember?);
      Named(n, ":", w, ts);
      var comma, commas := if first then "" else ",", if first then [] else COMMA;
      Separated(first, Quoted(n) + ":" + w, [Token(String, Quoted(n))] + COLON + ts);
      Regrouped(comma, Quoted(n), ":", Fast(v), FastMembers(rest, false));
      Regrouped(commas, [Token(String, Quoted(n))], COLON, Tokens(v), MemberTokens(rest, false));
  }

  lemma Regrouped<T>(a: seq<T>, b: seq<T>, c: seq<T>, d: seq<T>, e: seq<T>)
    ensures a + b + c + d + e == a + (b + c + (d + e))
  {
  }

  /** A name, a colon perhaps with blanks around it, and the rest. */
  lemma Named(n: string, colon: string, w: string, ts: seq<Token>)
    requires Spells(w, ts) && colon in {":", " : "}
    ensures Spells(Quoted(n) + colon + w, [Token(String, Quoted(n))] + COLON + ts)
  {
    hide Spells;
    hide Free;
    QuotedSpelled(n);
    Mark(':', MemberSeparator);
    if colon == " : " {
      Blanks(" ");
      FreeThen(" ", [], ":", COLON);
      assert " " + ":" == " :" && [] + COLON == COLON;
      FreeThen(" :", COLON, " ", []);
      assert " :" + " " == " : " && COLON + [] == COLON;
    }
    FreeThen(Quoted(n), [Token(String, Quoted(n))], colon, COLON);
    FreeThen(Quoted(n) + colon, [Token(String, Quoted(n))] + COLON, w, ts);
  }
}
