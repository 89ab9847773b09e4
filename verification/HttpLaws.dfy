/** Where the header parser stops: what it refuses, and how a request's method is found. */
module HttpLaws {
  import opened HttpToken
  import opened HttpParser
  import opened Numerals

  // ---------- what is refused ----------

  /** A character that cannot go on: something other than a newline behind a carriage return, an empty path, an empty
      name in a request, or a token without room. */
  predicate Misfit(kind: Kind, h: Header, key: string, c: char)
    requires Valid(h)
  {
    || (kind.Request? && h.state != End && h.token.pos >= MAX_KEY_LEN)
    || (h.state in {VersionN, MessageN, ValueN, EndR} && c != '\n')
    || (h.state == Path && c == ' ' && h.path == "" && Taken(h.token) == "")
    || (kind.Request? && h.state == Key && c == ':' && key == "" && Taken(h.token) == "")
    || (h.token.pos >= MAX_KEY_LEN && Collecting(kind, h.state, c))
  }

  /** The character becomes part of a token. */
  predicate Collecting(kind: Kind, state: State, c: char) {
    match state
    case Start => kind.Response? && c != ' '
    case Path => c != ' '
    case VersionR => c != '\r'
    case Status => c != ' '
    case MessageR => c != '\r'
    case Key => c != ':' && c != '\r'
    case ValueR => c != '\r'
    case _ => false
  }

  /** A character is refused exactly when it is such a misfit. */
  lemma StepRefuses(kind: Kind, h: Header, key: string, c: char, at: int)
    requires Valid(h) && h.state != End
    ensures Step(kind, h, key, c, at).ok <==> !Misfit(kind, h, key, c)
  {
    hide Taken;
    hide Emptied;
    hide Wiped;
    hide Sought;
    hide Put;
    hide Scanned;
    assert h.path + Taken(h.token) == "" <==> h.path == "" && Taken(h.token) == "";
    assert key + Taken(h.token) == "" <==> key == "" && Taken(h.token) == "";
  }

  /** After `n` characters were read without reaching the end, the next one is a misfit. */
  ghost predicate StuckAt(kind: Kind, h: Header, key: string, input: string, at: int, n: nat)
    requires Valid(h)
  {
    n < |input| &&
    var p := Parse(kind, h, key, input[..n], at);
    p.verdict == Half && Misfit(kind, p.h, p.key, input[n])
  }

  lemma StuckLater(kind: Kind, h: Header, key: string, input: string, at: int, n: nat)
    requires Valid(h) && h.state != End && input != [] && Step(kind, h, key, input[0], at).ok
    ensures var s := Step(kind, h, key, input[0], at);
      StuckAt(kind, h, key, input, at, n + 1) <==> StuckAt(kind, s.h, s.key, input[1..], at + 1, n)
  {
    hide Step;
    hide Misfit;
    if n + 1 < |input| {
      assert input[..n + 1][0] == input[0] && input[..n + 1][1..] == input[1..][..n];
      assert input[n + 1] == input[1..][n];
    }
  }

  lemma StuckFirst(kind: Kind, h: Header, key: string, input: string, at: int, n: nat)
    requires Valid(h)
    ensures StuckAt(kind, h, key, input, at, 0) <==>
      input != [] && h.state != End && Misfit(kind, h, key, input[0])
    ensures n > 0 && StuckAt(kind, h, key, input, at, n) ==> h.state != End && Step(kind, h, key, input[0], at).ok
  {
    hide Step;
    hide Misfit;
    if input != [] {
      assert input[..0] == "";
      if 0 < n <= |input| { assert input[..n][0] == input[0]; }
    }
  }

  /** Where a text is refused there is a misfit: exactly the characters before it are consumed. */
  lemma {:induction false} FailStuck(kind: Kind, h: Header, key: string, input: string, at: int)
    requires Valid(h) && Parse(kind, h, key, input, at).verdict == Fail
    ensures StuckAt(kind, h, key, input, at, Parse(kind, h, key, input, at).n)
    decreases |input|
  {
    hide Step;
    hide Misfit;
    StepRefuses(kind, h, key, input[0], at);
    var s := Step(kind, h, key, input[0], at);
    if s.ok {
      FailStuck(kind, s.h, s.key, input[1..], at + 1);
      StuckLater(kind, h, key, input, at, Parse(kind, s.h, s.key, input[1..], at + 1).n);
    } else {
      StuckFirst(kind, h, key, input, at, 0);
    }
  }

  /** And a text with a misfit is refused there. */
  lemma {:induction false} StuckFails(kind: Kind, h: Header, key: string, input: string, at: int, n: nat)
    requires Valid(h) && StuckAt(kind, h, key, input, at, n)
    ensures Parse(kind, h, key, input, at).verdict == Fail && Parse(kind, h, key, input, at).n == n
    decreases n
  {
    hide Step;
    hide Misfit;
    StuckFirst(kind, h, key, input, at, n);
    if n > 0 {
      StuckLater(kind, h, key, input, at, n - 1);
      var s := Step(kind, h, key, input[0], at);
      StuckFails(kind, s.h, s.key, input[1..], at + 1, n - 1);
    } else {
      StepRefuses(kind, h, key, input[0], at);
    }
  }

  // ---------- the status ----------

  /** The status is the number at the start of its token, cut to 32 bits; without one the old status stays. */
  lemma StatusScanned(n: nat, t: string, was: nat)
    requires t == [] || !IsDigit(t[0])
    ensures n < 0x1_0000_0000_0000_0000 ==> Scanned(Decimal(n) + t, was) == n % 0x1_0000_0000
    ensures n >= 0x1_0000_0000_0000_0000 ==> Scanned(Decimal(n) + t, was) == 0xFFFF_FFFF
    ensures (t == [] || (!IsWhite(t[0]) && t[0] != '+' && t[0] != '-')) ==> Scanned(t, was) == was
  {
    DecimalFound(n, t);
  }

  // ---------- the method of a request ----------

  predicate EndsInMethod(w: string) {
    (|w| >= 4 && w[|w| - 4..] == "GET ") || (|w| >= 5 && w[|w| - 5..] == "POST ")
  }

  /** The buffer holds the end of what was read, and enough of it. */
  ghost predicate Seen(t: Token, w: string) {
    && Sized(t) && t.pos < MAX_KEY_LEN && t.pos <= |w| && (t.pos == |w| || t.pos >= MAX_METHOD_LEN)
    && t.buf[..t.pos] == w[|w| - t.pos..]
  }

  lemma SeenEnds(t: Token, w: string, s: string)
    requires Seen(t, w) && |s| <= MAX_METHOD_LEN
    ensures EndsWith(t, s) <==> |s| <= |w| && w[|w| - |s|..] == s
  {
    if |s| <= t.pos {
      assert t.buf[t.pos - |s|..t.pos] == t.buf[..t.pos][t.pos - |s|..];
      assert w[|w| - |s|..] == w[|w| - t.pos..][t.pos - |s|..];
    }
  }

  lemma SeenPut(t: Token, w: string, c: char)
    requires Seen(t, w)
    ensures Seen(Shifted(Put(t, c)), w + [c])
  {
    var p, v := Put(t, c), w + [c];
    assert p.buf[..p.pos] == t.buf[..t.pos] + [c] == v[|v| - p.pos..];
    if p.pos >= MAX_KEY_LEN {
      var u := Shifted(p);
      assert u.buf[..u.pos] == p.buf[p.pos - MAX_METHOD_LEN..p.pos];
      assert p.buf[p.pos - MAX_METHOD_LEN..p.pos] == p.buf[..p.pos][p.pos - MAX_METHOD_LEN..];
      assert v[|v| - p.pos..][p.pos - MAX_METHOD_LEN..] == v[|v| - MAX_METHOD_LEN..];
    }
  }

  /** The method is found exactly when what was read ends in one, however much that was. */
  lemma SoughtExactly(t: Token, w: string, c: char)
    requires Seen(t, w)
    ensures Sought(t, c).0 <==> EndsInMethod(w + [c])
    ensures !Sought(t, c).0 ==> Seen(Sought(t, c).1, w + [c])
  {
    var u := Shifted(Put(t, c));
    SeenPut(t, w, c);
    SeenEnds(u, w + [c], "GET ");
    SeenEnds(u, w + [c], "POST ");
    assert |"GET "| == 4 && |"POST "| == 5;
    hide Seen;
    hide EndsWith;
  }

  /** No part of the text from its start on ends in a method. */
  predicate Unmethodical(u: string, w: string) {
    forall i :: 0 < i <= |w| ==> !EndsInMethod(u + w[..i])
  }

  lemma UnmethodicalNext(u: string, w: string)
    requires Unmethodical(u, w) && w != []
    ensures !EndsInMethod(u + [w[0]]) && Unmethodical(u + [w[0]], w[1..])
    ensures (u + [w[0]]) + w[1..] == u + w
  {
    hide EndsInMethod;
    assert w[..1] == [w[0]] && u + w[..1] == u + [w[0]];
    forall i | 0 < i <= |w[1..]|
      ensures !EndsInMethod((u + [w[0]]) + w[1..][..i])
    {
      assert (u + [w[0]]) + w[1..][..i] == u + w[..i + 1];
    }
  }

  lemma StartStep(h: Header, u: string, c: char, at: int) returns (t: Token)
    requires h.state == Start && Seen(h.token, u) && !EndsInMethod(u + [c])
    ensures Valid(h) && Seen(t, u + [c]) && Step(Request, h, "", c, at) == Stepped(h.(token := t), "", true)
  {
    SoughtExactly(h.token, u, c);
    assert h.token.pos < MAX_KEY_LEN;
    t := Sought(h.token, c).1;
    hide Seen;
    hide Sought;
    hide EndsInMethod;
  }

  /** Anything may come before the method: it is passed over. */
  lemma {:induction false} JunkPassed(h: Header, u: string, w: string, at: int)
    requires h.state == Start && Seen(h.token, u) && Unmethodical(u, w)
    ensures Valid(h)
    ensures var p := Parse(Request, h, "", w, at);
      && p.verdict == Half && p.key == "" && p.h.state == Start && p.h == h.(token := p.h.token)
      && Seen(p.h.token, u + w)
    decreases |w|
  {
    assert Valid(h);
    hide Seen;
    hide Step;
    hide Unmethodical;
    hide EndsInMethod;
    if w == [] {
      assert u + w == u;
    } else {
      UnmethodicalNext(u, w);
      var t := StartStep(h, u, w[0], at);
      JunkPassed(h.(token := t), u + [w[0]], w[1..], at + 1);
    }
  }

  /** And the method is found with its last character, however much came before. */
  lemma MethodFound(h: Header, u: string, w: string, c: char, at: int)
    requires h.state == Start && Seen(h.token, u) && Unmethodical(u, w)
    ensures Valid(h)
    ensures var q := Parse(Request, h, "", w + [c], at);
      q.verdict == Half && q.h.state == if EndsInMethod(u + w + [c]) then Path else Start
  {
    JunkPassed(h, u, w, at);
    ParseAppend(Request, h, "", w, [c], at);
    var p := Parse(Request, h, "", w, at);
    SoughtExactly(p.h.token, u + w, c);
    assert p.h.token.pos < MAX_KEY_LEN;
    hide Seen;
    hide Sought;
    hide EndsInMethod;
    assert [c][1..] == [];
  }
}
