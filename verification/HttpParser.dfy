/** The incremental parser of request and response headers, one character at a time. */
module HttpParser {
  import opened HttpToken
  import opened Numerals

  datatype Kind = Request | Response

  datatype State = Start | Path | VersionR | VersionN
                 | Status | MessageR | MessageN
                 | Key | ValueR | ValueN | EndR | End

  datatype Verdict = Fail | Half | Finish

  /** What a header object holds between calls. `bodyStart` is the stream position of the last header byte. */
  datatype Header = Header(state: State, token: Token, headers: map<string, string>,
                           verb: string, path: string, version: string, status: nat, message: string, bodyStart: int)

  ghost predicate Valid(h: Header) {
    Sized(h.token)
  }

  // ---------- numbers ----------

  /** `sscanf("%u")`: what `strtoul` reads, cut to 32 bits; without a number nothing is stored. */
  function Scanned(s: string, was: nat): nat {
    if FindNumber(s).NotFound? then was else ToUlong(s) % 0x1_0000_0000
  }

  // ---------- one character ----------

  /** The header after a character, the key of the line at hand (which is local to a call), and whether to go on. */
  datatype Stepped = Stepped(h: Header, key: string, ok: bool)

  function Append(h: Header, key: string, c: char): Stepped
    requires Valid(h)
  {
    if h.token.pos < MAX_KEY_LEN then Stepped(h.(token := Put(h.token, c)), key, true) else Stepped(h, key, false)
  }

  /** The character at stream position `at`. Only requests limit the length of a token; for a response, going on
      without room in the buffer is not defined, and counts as failed here. In either kind a token that fills the
      whole buffer has no zero behind it: reading goes on past the buffer then, here it stops at the end. For a
      request that can only be junk before the method. */
  function Step(kind: Kind, h: Header, key: string, c: char, at: int): (r: Stepped)
    requires Valid(h)
    ensures Valid(r.h)
  {
    if kind.Request? && h.token.pos >= MAX_KEY_LEN then Stepped(h, key, false)
    else
      var t, e := Taken(h.token), Emptied(h.token);
      match h.state
      case Start =>
        if kind.Request? then
          var (found, u) := Sought(h.token, c);
          if found then Stepped(h.(verb := Taken(u), token := Emptied(u), state := Path), key, true)
          else Stepped(h.(token := u), key, true)
        else if c == ' ' then Stepped(h.(token := e, state := Status), "", true)
        else Append(h, key, c)
      case Path =>
        if c == ' ' then
          if h.path + t == "" then Stepped(h.(token := e), key, false)
          else Stepped(h.(path := h.path + t, token := e, state := VersionR), key, true)
        else Append(h, key, c)
      case VersionR =>
        if c == '\r' then Stepped(h.(version := t, token := e, state := VersionN), key, true) else Append(h, key, c)
      case VersionN =>
        if c == '\n' then Stepped(h.(state := Key), key, true) else Stepped(h, key, false)
      case Status =>
        if c == ' ' then
          var digits := h.token.buf[Blanks(h.token.buf, 0)..];
          Stepped(h.(status := Scanned(digits, h.status), token := Wiped(h.token), state := MessageR), key, true)
        else Append(h, key, c)
      case MessageR =>
        if c == '\r' then Stepped(h.(message := h.message + t, token := e, state := MessageN), key, true)
        else Append(h, key, c)
      case MessageN =>
        if c == '\n' then Stepped(h.(state := Key), key, true) else Stepped(h, key, false)
      case Key =>
        if c == ':' then
          if kind.Request? && key + t == "" then Stepped(h.(token := e), key, false)
          else Stepped(h.(token := e, state := ValueR), key + t, true)
        else if c == '\r' then Stepped(h.(state := EndR), key, true)
        else Append(h, key, c)
      case ValueR =>
        if c == '\r' then Stepped(h.(headers := h.headers[key := t], token := e, state := ValueN), "", true)
        else Append(h, key, c)
      case ValueN =>
        if c == '\n' then Stepped(h.(state := Key), key, true) else Stepped(h, key, false)
      case EndR =>
        if c == '\n' then Stepped(h.(state := End, bodyStart := at), key, true) else Stepped(h, key, false)
      case End => Stepped(h, key, true)
  }

  // ---------- a call ----------

  /** What a call leaves: the header, the local key, the verdict, and how many characters were consumed. */
  datatype Parsed = Parsed(h: Header, key: string, verdict: Verdict, n: nat)

  function Parse(kind: Kind, h: Header, key: string, input: string, at: int): (r: Parsed)
    requires Valid(h)
    ensures Valid(r.h) && r.n <= |input|
    ensures r.verdict.Half? ==> r.n == |input| && r.h.state != End
    decreases |input|
  {
    if h.state == End then Parsed(h, key, Finish, 0)
    else if input == [] then Parsed(h, key, Half, 0)
    else
      var s := Step(kind, h, key, input[0], at);
      if !s.ok then Parsed(s.h, s.key, Fail, 0)
      else var r := Parse(kind, s.h, s.key, input[1..], at + 1); r.(n := r.n + 1)
  }

  /** Parsing goes on where it was interrupted. */
  lemma {:induction false} ParseAppend(kind: Kind, h: Header, key: string, a: string, b: string, at: int)
    requires Valid(h) && Parse(kind, h, key, a, at).verdict.Half?
    ensures var p := Parse(kind, h, key, a, at);
      var q := Parse(kind, p.h, p.key, b, at + |a|);
      Parse(kind, h, key, a + b, at) == q.(n := q.n + |a|)
    decreases |a|
  {
    hide Step;
    if a == [] {
      assert a + b == b;
    } else {
      var s := Step(kind, h, key, a[0], at);
      assert (a + b)[0] == a[0] && (a + b)[1..] == a[1..] + b;
      ParseAppend(kind, s.h, s.key, a[1..], b, at + 1);
    }
  }

  /** Only while a value is read is there a key at hand. */
  lemma {:induction false} KeyOnlyInValue(kind: Kind, h: Header, key: string, input: string, at: int)
    requires Valid(h) && (h.state != ValueR ==> key == "")
    ensures var p := Parse(kind, h, key, input, at); p.verdict.Half? && p.h.state != ValueR ==> p.key == ""
    decreases |input|
  {
    if h.state != End && input != [] {
      var s := Step(kind, h, key, input[0], at);
      if s.ok { KeyOnlyInValue(kind, s.h, s.key, input[1..], at + 1); }
    }
  }

  /** The same but for the collected headers. */
  ghost predicate Alike(a: Header, b: Header) {
    a == b.(headers := a.headers)
  }

  lemma StepAlike(kind: Kind, a: Header, b: Header, k: string, l: string, c: char, at: int)
    requires Valid(a) && Valid(b) && Alike(a, b) && (a.state != ValueR ==> k == l == "")
    ensures var r, s := Step(kind, a, k, c, at), Step(kind, b, l, c, at);
      Alike(r.h, s.h) && r.ok == s.ok && (r.ok && r.h.state != ValueR ==> r.key == s.key == "")
  {
    hide Taken;
    hide Emptied;
    hide Wiped;
    hide Sought;
    hide Put;
    hide Scanned;
  }

  lemma {:induction false} ParseAlike(kind: Kind, a: Header, b: Header, k: string, l: string, input: string, at: int)
    requires Valid(a) && Valid(b) && Alike(a, b) && (a.state != ValueR ==> k == l == "")
    ensures var p, q := Parse(kind, a, k, input, at), Parse(kind, b, l, input, at);
      Alike(p.h, q.h) && p.verdict == q.verdict && p.n == q.n
    decreases |input|
  {
    if a.state != End && input != [] {
      StepAlike(kind, a, b, k, l, input[0], at);
      var s, t := Step(kind, a, k, input[0], at), Step(kind, b, l, input[0], at);
      if s.ok { ParseAlike(kind, s.h, t.h, s.key, t.key, input[1..], at + 1); }
    }
  }

  /** A call, as its caller sees it: the key at hand is lost when it returns. */
  function Call(kind: Kind, h: Header, input: string, at: int): (r: Parsed)
    requires Valid(h)
    ensures Valid(r.h)
  {
    Parse(kind, h, "", input, at).(key := "")
  }

  // ---------- splitting the input ----------

  /** From inside a value, with `pos` characters of it collected: the value ends before the input does, and before
      the buffer is full. */
  predicate ValueEnds(kind: Kind, pos: nat, input: string)
    decreases |input|
  {
    && input != [] && (kind.Request? ==> pos < MAX_KEY_LEN)
    && (input[0] == '\r' || (pos < MAX_KEY_LEN && ValueEnds(kind, pos + 1, input[1..])))
  }

  /** A value that does not end changes no field. */
  lemma {:induction false} UnendedValue(kind: Kind, h: Header, key: string, input: string, at: int)
    requires Valid(h) && h.state == ValueR && !ValueEnds(kind, h.token.pos, input)
    ensures Parse(kind, h, key, input, at).h.headers == h.headers
    decreases |input|
  {
    if input != [] {
      var s := Step(kind, h, key, input[0], at);
      if s.ok { UnendedValue(kind, s.h, s.key, input[1..], at + 1); }
    }
  }

  /** A field without a name stays. */
  lemma {:induction false} NamelessStays(kind: Kind, h: Header, key: string, input: string, at: int)
    requires Valid(h) && "" in h.headers
    ensures "" in Parse(kind, h, key, input, at).h.headers
    decreases |input|
  {
    if h.state != End && input != [] {
      var s := Step(kind, h, key, input[0], at);
      if s.ok { NamelessStays(kind, s.h, s.key, input[1..], at + 1); }
    }
  }

  /** A value whose key was lost becomes a field without a name. */
  lemma {:induction false} NamelessValue(kind: Kind, h: Header, input: string, at: int)
    requires Valid(h) && h.state == ValueR && ValueEnds(kind, h.token.pos, input)
    ensures "" in Parse(kind, h, "", input, at).h.headers
    decreases |input|
  {
    var s := Step(kind, h, "", input[0], at);
    if input[0] == '\r' {
      NamelessStays(kind, s.h, s.key, input[1..], at + 1);
    } else {
      NamelessValue(kind, s.h, input[1..], at + 1);
    }
  }

  /** A request's fields have names. */
  lemma {:induction false} RequestNames(h: Header, key: string, input: string, at: int)
    requires Valid(h) && "" !in h.headers && (h.state == ValueR <==> key != "")
    ensures "" !in Parse(Request, h, key, input, at).h.headers
    decreases |input|
  {
    if h.state != End && input != [] {
      var s := Step(Request, h, key, input[0], at);
      if s.ok { RequestNames(s.h, s.key, input[1..], at + 1); }
    }
  }

  /** Wherever the input is split: when the first part leaves the header half read, going on with the second gives the
      same verdict, the same place in the input, and the same header but for the collected fields. For requests these
      agree too if and only if the split is not inside a value that the second part ends. For responses this is so
      as long as no line has an empty name: such a line can hide what became of the value. */
  lemma SplitIndependent(kind: Kind, h: Header, a: string, b: string, at: int)
    requires Valid(h) && h.state != ValueR && Call(kind, h, a, at).verdict.Half?
    ensures var first := Call(kind, h, a, at);
      var second, joined := Call(kind, first.h, b, at + |a|), Call(kind, h, a + b, at);
      && second.verdict == joined.verdict && |a| + second.n == joined.n && Alike(second.h, joined.h)
      && (first.h.state != ValueR || !ValueEnds(kind, first.h.token.pos, b) ==> second.h == joined.h)
      && (first.h.state == ValueR && ValueEnds(kind, first.h.token.pos, b) && "" !in joined.h.headers
          ==> second.h != joined.h)
    ensures kind.Request? && "" !in h.headers ==> "" !in Call(kind, h, a + b, at).h.headers
  {
    hide Parse;
    hide Step;
    var p := Parse(kind, h, "", a, at);
    ParseAppend(kind, h, "", a, b, at);
    KeyOnlyInValue(kind, h, "", a, at);
    ParseAlike(kind, p.h, p.h, "", p.key, b, at + |a|);
    if p.h.state == ValueR {
      if ValueEnds(kind, p.h.token.pos, b) {
        NamelessValue(kind, p.h, b, at + |a|);
      } else {
        UnendedValue(kind, p.h, "", b, at + |a|);
        UnendedValue(kind, p.h, p.key, b, at + |a|);
      }
    }
    if kind.Request? && "" !in h.headers { RequestNames(h, "", a + b, at); }
  }

  /** The exact condition for requests. */
  lemma SplitInValue(h: Header, a: string, b: string, at: int)
    requires Valid(h) && h.state != ValueR && "" !in h.headers && Call(Request, h, a, at).verdict.Half?
    ensures var first := Call(Request, h, a, at);
      var second, joined := Call(Request, first.h, b, at + |a|), Call(Request, h, a + b, at);
      second.h == joined.h <==> first.h.state != ValueR || !ValueEnds(Request, first.h.token.pos, b)
  {
    hide Parse;
    hide Step;
    hide ValueEnds;
    SplitIndependent(Request, h, a, b, at);
  }
}
