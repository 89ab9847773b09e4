/** What the scanner takes for which token. */
module JsonTokens {
  import opened Numerals
  import opened JsonText
  import opened JsonLexer

  /** Blanks, tabs, carriage returns and newlines are passed over, and nothing else is. */
  lemma BlanksOnly(c: char, s: string)
    ensures c in {' ', '\t', '\r', '\n'} ==> SkipSpaces([c] + s) == SkipSpaces(s) && Lex([c] + s) == Lex(s)
    ensures c !in {' ', '\t', '\r', '\n'} ==> SkipSpaces([c] + s) == [c] + s && Lex([c] + s) != []
  {
    var t := [c] + s;
    assert t[0] == c && t[1..] == s;
  }

  /** The marks, each a token of its own. */
  lemma Marks(s: string)
    ensures TokenAt("{" + s) == (Token(ObjectBegin, "{"), 1) && TokenAt("}" + s) == (Token(ObjectEnd, "}"), 1)
    ensures TokenAt("[" + s) == (Token(ArrayBegin, "["), 1) && TokenAt("]" + s) == (Token(ArrayEnd, "]"), 1)
    ensures TokenAt("," + s) == (Token(ArraySeparator, ","), 1) && TokenAt(":" + s) == (Token(MemberSeparator, ":"), 1)
  {
  }

  /** A number goes on as long as there are digits, points, exponents or signs. */
  lemma {:induction false} NumberGoesOn(w: string, rest: string)
    requires forall c :: c in w ==> '0' <= c <= '9' || c in {'.', 'e', 'E', '+', '-'}
    requires rest != [] ==> !('0' <= rest[0] <= '9' || rest[0] in {'.', 'e', 'E', '+', '-'})
    ensures NumberLength(w + rest) == |w|
    decreases |w|
  {
    if w == [] {
      assert w + rest == rest;
    } else {
      assert w[0] in w && (w + rest)[0] == w[0] && (w + rest)[1..] == w[1..] + rest;
      assert forall c :: c in w[1..] ==> c in w;
      NumberGoesOn(w[1..], rest);
    }
  }

  lemma NumberToken(c: char, w: string, rest: string)
    requires '0' <= c <= '9' || c == '-'
    requires forall x :: x in w ==> '0' <= x <= '9' || x in {'.', 'e', 'E', '+', '-'}
    requires rest != [] ==> !('0' <= rest[0] <= '9' || rest[0] in {'.', 'e', 'E', '+', '-'})
    ensures TokenAt([c] + w + rest) == (Token(Number, [c] + w), 1 + |w|)
  {
    NumberGoesOn(w, rest);
    var s := [c] + w + rest;
    assert s[0] == c && s[1..] == w + rest && s[..1 + |w|] == [c] + w;
  }

  /** A string ends at the first quote that no backslash is in front of. */
  lemma {:induction false} StringGoesOn(w: string, rest: string)
    requires forall c :: c in w ==> c != '"' && c != '\\'
    ensures StringLength(w + ("\"" + rest)) == (true, |w| + 1)
    ensures StringLength(w) == (false, |w|)
    ensures forall c :: StringLength(w + (['\\', c] + rest)) == (StringLength(rest).0, |w| + 2 + StringLength(rest).1)
    decreases |w|
  {
    if w == [] {
      assert w + ("\"" + rest) == "\"" + rest;
      forall c
        ensures StringLength(w + (['\\', c] + rest)) == (StringLength(rest).0, |w| + 2 + StringLength(rest).1)
      {
        assert w + (['\\', c] + rest) == ['\\', c] + rest && (['\\', c] + rest)[2..] == rest;
      }
    } else {
      assert forall c :: c in w[1..] ==> c in w;
      StringGoesOn(w[1..], rest);
      assert w[0] in w && (w + ("\"" + rest))[1..] == w[1..] + ("\"" + rest);
      forall c
        ensures StringLength(w + (['\\', c] + rest)) == (StringLength(rest).0, |w| + 2 + StringLength(rest).1)
      {
        assert (w + (['\\', c] + rest))[1..] == w[1..] + (['\\', c] + rest);
      }
    }
  }

  /** The characters a token can begin with; a zero stands for the end of the text. */
  predicate Begins(c: char) {
    '0' <= c <= '9' || c in {'{', '}', '[', ']', ',', ':', '"', '-', 't', 'f', 'n', NUL}
  }

  /** A string that does not end is an error, and so is a word other than the three there are. */
  lemma Refused(s: string)
    requires s != []
    ensures s[0] == '"' && !StringLength(s[1..]).0 ==> TokenAt(s).0.kind == Error
    ensures s[0] in {'t', 'f', 'n'} && !("true" <= s || "false" <= s || "null" <= s) ==> TokenAt(s).0.kind == Error
    ensures "true" <= s ==> TokenAt(s) == (Token(True, "true"), 4)
    ensures "false" <= s ==> TokenAt(s) == (Token(False, "false"), 5)
    ensures "null" <= s ==> TokenAt(s) == (Token(NullWord, "null"), 4)
    ensures !Begins(s[0]) ==> TokenAt(s).0.kind == Error
  {
    WordIs("true", s);
    WordIs("false", s);
    WordIs("null", s);
  }

  lemma WordIs(w: string, s: string)
    requires w != [] && s != []
    ensures w <= s <==> w[0] == s[0] && w[1..] <= s[1..]
    ensures w <= s ==> s[..|w|] == w
  {
    if w[0] == s[0] && w[1..] <= s[1..] {
      assert w == [w[0]] + w[1..] && s == [s[0]] + s[1..];
    }
  }
}
