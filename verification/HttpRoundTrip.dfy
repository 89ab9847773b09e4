/** Headers as text, and what parsing that text gives back. */
module HttpRoundTrip {
  import opened HttpToken
  import opened Numerals
  import opened HttpParser

  // ---------- text ----------

  /** The lines of the fields, in the order of iteration. */
  function Lines(order: seq<string>, fields: map<string, string>): string
    requires forall k :: k in order ==> k in fields
  {
    if order == [] then "" else order[0] + ": " + fields[order[0]] + " \r\n" + Lines(order[1..], fields)
  }

  /** The header as text. */
  function RequestText(h: Header, order: seq<string>): string
    requires forall k :: k in order ==> k in h.headers
  {
    h.verb + " " + h.path + " " + h.version + "\r\n" + Lines(order, h.headers) + "\r\n"
  }

  function ResponseText(h: Header, order: seq<string>): string
    requires forall k :: k in order ==> k in h.headers
  {
    h.version + " " + Decimal(h.status) + " " + h.message + "\r\n" + Lines(order, h.headers) + "\r\n"
  }

  /** A header on which nothing was parsed yet. */
  function Fresh(verb: string, version: string, bodyStart: int): (h: Header)
    ensures Valid(h)
  {
    Header(Start, Token(Zeros(MAX_KEY_LEN), 0), map[], verb, "", version, 0, "", bodyStart)
  }

  // ---------- single tokens ----------

  /** The characters that end a token. */
  function Ends(kind: Kind, state: State): set<char> {
    match state
    case Start => {' '}
    case Path => {' '}
    case VersionR => {'\r'}
    case Status => {' '}
    case MessageR => {'\r'}
    case Key => {':', '\r'}
    case ValueR => {'\r'}
    case _ => {}
  }

  ghost predicate Collects(kind: Kind, state: State) {
    Ends(kind, state) != {} && !(state.Start? && kind.Request?)
  }

  /** Parsing `w` leads to `h'` and `key'`, and asks for more. */
  ghost predicate Leads(kind: Kind, h: Header, key: string, w: string, at: int, h': Header, key': string) {
    Valid(h) && Parse(kind, h, key, w, at) == Parsed(h', key', Half, |w|)
  }

  lemma LeadsOn(kind: Kind, h: Header, key: string, a: string, at: int, h1: Header, key1: string, b: string)
    requires Leads(kind, h, key, a, at, h1, key1)
    ensures Valid(h1)
    ensures var q := Parse(kind, h1, key1, b, at + |a|);
      Parse(kind, h, key, a + b, at) == q.(n := q.n + |a|)
  {
    ParseAppend(kind, h, key, a, b, at);
  }

  lemma LeadsBoth(kind: Kind, h: Header, key: string, a: string, at: int, h1: Header, key1: string, b: string,
                  h2: Header, key2: string)
    requires Leads(kind, h, key, a, at, h1, key1) && Leads(kind, h1, key1, b, at + |a|, h2, key2)
    ensures Leads(kind, h, key, a + b, at, h2, key2)
  {
    LeadsOn(kind, h, key, a, at, h1, key1, b);
  }

  /** Characters of a token are collected. */
  lemma {:induction false} Feed(kind: Kind, h: Header, key: string, w: string, at: int)
    requires Valid(h) && Collects(kind, h.state) && h.token.pos + |w| <= MAX_KEY_LEN
    requires forall c :: c in w ==> c !in Ends(kind, h.state)
    ensures Leads(kind, h, key, w, at, h.(token := PutAll(h.token, w)), key)
    decreases |w|
  {
    if w == [] {
      PutAllNone(h.token);
    } else {
      assert w[0] in w && w == [w[0]] + w[1..];
      var s := Step(kind, h, key, w[0], at);
      assert s == Stepped(h.(token := Put(h.token, w[0])), key, true);
      Feed(kind, s.h, key, w[1..], at + 1);
      PutAllStep(h.token, w[0], w[1..]);
    }
  }

  /** One character that is accepted. */
  lemma One(kind: Kind, h: Header, key: string, c: char, at: int)
    requires Valid(h) && h.state != End
    ensures var s := Step(kind, h, key, c, at);
      s.ok && s.h.state != End ==> Leads(kind, h, key, [c], at, s.h, s.key)
  {
    assert [c][1..] == [];
  }

  /** A token, and what ends it. */
  lemma TokenRead(kind: Kind, h: Header, key: string, w: string, c: char, at: int) returns (t: Token, s: Stepped)
    requires Collects(kind, h.state) && Ready(h.token) && Plain(w) && w != [] && w[0] != ' ' && c in Ends(kind, h.state)
    requires forall x :: x in w ==> x !in Ends(kind, h.state)
    ensures Valid(h) && Holds(t, w) && Taken(t) == w && Ready(Emptied(t)) && Ready(Wiped(t))
    ensures s == Step(kind, h.(token := t), key, c, at + |w|)
    ensures s.ok && s.h.state != End ==> Leads(kind, h, key, w + [c], at, s.h, s.key)
  {
    Feed(kind, h, key, w, at);
    t := PutAll(h.token, w);
    ReadyHolds(h.token, w);
    HoldsTaken(t, w);
    var h1 := h.(token := t);
    s := Step(kind, h1, key, c, at + |w|);
    One(kind, h1, key, c, at + |w|);
    if s.ok && s.h.state != End {
      LeadsBoth(kind, h, key, w, at, h1, key, [c], s.h, s.key);
    }
  }

  // ---------- a field ----------

  /** What can be a field's name and value, if it is to be read back. */
  ghost predicate GoodField(k: string, v: string) {
    && Plain(k) && k != [] && k[0] != ' ' && ':' !in k && '\r' !in k
    && NUL !in v && |v| + 2 < MAX_KEY_LEN && '\r' !in v
  }

  /** A value as it is printed, and how many blanks it starts with then. */
  function Padded(v: string): string {
    " " + v + " "
  }

  function Lead(v: string): (n: nat)
    ensures n <= |v| + 2
  {
    Blanks(Padded(v), 0)
  }

  /** A value as it comes back: without leading blanks, and with one behind. */
  function Back(v: string): string {
    Padded(v)[Lead(v)..]
  }

  lemma ValueRead(kind: Kind, h: Header, key: string, v: string, at: int) returns (e: Token)
    requires h.state == ValueR && Ready(h.token) && GoodField("k", v)
    ensures Valid(h) && Cleared(e, Lead(v))
    ensures Leads(kind, h, key, Padded(v) + "\r", at,
                  h.(state := ValueN, token := e, headers := h.headers[key := Back(v)]), "")
  {
    hide Leads;
    hide Parse;
    hide Blanks;
    hide Zero;
    hide PutAll;
    var w := Padded(v);
    Feed(kind, h, key, w, at);
    var t := PutAll(h.token, w);
    ReadyHolds(h.token, w);
    BlanksTaken(t, w);
    e := Emptied(t);
    var h1 := h.(token := t);
    One(kind, h1, key, '\r', at + |w|);
    LeadsBoth(kind, h, key, w, at, h1, key, "\r",
              h.(state := ValueN, token := e, headers := h.headers[key := Back(v)]), "");
  }

  /** A name as it comes back after `blanks` left in the buffer. */
  function Named(k: string, blanks: nat): string {
    k + Spaces(blanks - |k|)
  }

  lemma KeyRead(kind: Kind, h: Header, blanks: nat, k: string, at: int) returns (e: Token)
    requires h.state == Key && Cleared(h.token, blanks) && GoodField(k, "v")
    ensures Valid(h) && Ready(e)
    ensures Leads(kind, h, "", k + ":", at, h.(token := e, state := ValueR), Named(k, blanks))
  {
    hide Leads;
    hide Parse;
    hide Blanks;
    hide Zero;
    hide PutAll;
    Feed(kind, h, "", k, at);
    var t := PutAll(h.token, k);
    ClearedShows(h.token, blanks, k);
    HoldsTaken(t, Named(k, blanks));
    e := Emptied(t);
    var h1 := h.(token := t);
    One(kind, h1, "", ':', at + |k|);
    assert "" + Named(k, blanks) == Named(k, blanks);
    LeadsBoth(kind, h, "", k, at, h1, "", ":", h.(token := e, state := ValueR), Named(k, blanks));
  }

  lemma NewlineRead(kind: Kind, h: Header, at: int)
    requires Valid(h) && h.token.pos == 0 && (h.state.VersionN? || h.state.MessageN? || h.state.ValueN?)
    ensures Leads(kind, h, "", "\n", at, h.(state := Key), "")
  {
    One(kind, h, "", '\n', at);
  }

  lemma GoodParts(k: string, v: string)
    requires GoodField(k, v)
    ensures GoodField(k, "v") && GoodField("k", v)
  {
  }

  lemma ClearedValid(h: Header, blanks: nat)
    requires Cleared(h.token, blanks)
    ensures Valid(h) && h.token.pos == 0
  {
  }

  lemma ReadyValid(h: Header)
    requires Ready(h.token)
    ensures Valid(h) && h.token.pos == 0
  {
  }

  /** One field's line. */
  lemma LineRead(kind: Kind, h: Header, blanks: nat, k: string, v: string, at: int) returns (e: Token)
    requires h.state == Key && Cleared(h.token, blanks) && GoodField(k, v)
    ensures Valid(h) && Cleared(e, Lead(v))
    ensures Leads(kind, h, "", k + ": " + v + " \r\n", at,
                  h.(token := e, headers := h.headers[Named(k, blanks) := Back(v)]), "")
  {
    hide *;
    GoodParts(k, v);
    var key := Named(k, blanks);
    var t := KeyRead(kind, h, blanks, k, at);
    var h1, tail, at1 := h.(token := t, state := ValueR), Padded(v) + "\r", at + |k| + 1;
    e := ValueRead(kind, h1, key, v, at1);
    var h2 := h.(state := ValueN, token := e, headers := h.headers[key := Back(v)]);
    LeadsBoth(kind, h, "", k + ":", at, h1, key, tail, h2, "");
    ClearedValid(h2, Lead(v));
    NewlineRead(kind, h2, at1 + |tail|);
    LeadsBoth(kind, h, "", (k + ":") + tail, at, h2, "", "\n", h2.(state := Key), "");
    LineText(k, v);
  }

  lemma LineText(k: string, v: string)
    ensures ((k + ":") + (Padded(v) + "\r")) + "\n" == k + ": " + v + " \r\n"
  {
  }

  /** The fields as they come back, with `blanks` left in the buffer by the value before. */
  function ReadBack(base: map<string, string>, blanks: nat, order: seq<string>, fields: map<string, string>)
    : map<string, string>
    requires forall k :: k in order ==> k in fields
    decreases |order|
  {
    if order == [] then base
    else
      var k, v := order[0], fields[order[0]];
      ReadBack(base[Named(k, blanks) := Back(v)], Lead(v), order[1..], fields)
  }

  lemma {:induction false} LinesRead(kind: Kind, h: Header, blanks: nat, order: seq<string>,
                                     fields: map<string, string>, at: int)
    returns (e: Token, left: nat)
    requires h.state == Key && Cleared(h.token, blanks)
    requires forall k :: k in order ==> k in fields && GoodField(k, fields[k])
    ensures Valid(h) && Cleared(e, left)
    ensures Leads(kind, h, "", Lines(order, fields), at,
                  h.(token := e, headers := ReadBack(h.headers, blanks, order, fields)), "")
    decreases |order|
  {
    if order == [] {
      e, left := h.token, blanks;
    } else {
      var k, v := order[0], fields[order[0]];
      var t := LineRead(kind, h, blanks, k, v, at);
      var line, h1 := k + ": " + v + " \r\n", h.(token := t, headers := h.headers[Named(k, blanks) := Back(v)]);
      e, left := LinesRead(kind, h1, Lead(v), order[1..], fields, at + |line|);
      LeadsBoth(kind, h, "", line, at, h1, "", Lines(order[1..], fields),
                h1.(token := e, headers := ReadBack(h1.headers, Lead(v), order[1..], fields)), "");
    }
  }

  // ---------- when the fields come back as they were ----------

  /** Such a value leaves no more than one blank in the buffer, and comes back whole. */
  predicate Tidy(v: string) {
    v != [] && v[0] != ' '
  }

  lemma BackIs(v: string)
    ensures Tidy(v) ==> Lead(v) == 1 && Back(v) == v + " "
    ensures Back(v) == "" || Back(v)[0] != ' '
    ensures !Tidy(v) ==> (v + " ")[0] == ' '
  {
    var w := Padded(v);
    assert w[0] == ' ' && w[1..] == v + " ";
    assert Blanks(w, 0) == Blanks(w, 1);
    if Tidy(v) { assert w[1] == v[0]; }
  }

  /** What the fields read back have in common: they keep the names there were, and no value starts with a blank. */
  lemma {:induction false} ReadBackKeeps(base: map<string, string>, blanks: nat, order: seq<string>,
                                         fields: map<string, string>)
    requires forall k :: k in order ==> k in fields
    requires forall k :: k in base ==> base[k] == "" || base[k][0] != ' '
    ensures var r := ReadBack(base, blanks, order, fields);
      base.Keys <= r.Keys && forall k :: k in r ==> r[k] == "" || r[k][0] != ' '
    decreases |order|
  {
    if order != [] {
      var k, v := order[0], fields[order[0]];
      BackIs(v);
      ReadBackKeeps(base[Named(k, blanks) := Back(v)], Lead(v), order[1..], fields);
    }
  }

  lemma NameKept(k: string, blanks: nat)
    requires k != [] && blanks <= 1
    ensures Named(k, blanks) == k
  {
  }

  lemma {:induction false} ReadBackTidy(base: map<string, string>, blanks: nat, order: seq<string>,
                                        fields: map<string, string>)
    requires blanks <= 1 && forall k :: k in order ==> k in fields && k != [] && Tidy(fields[k])
    ensures var r := ReadBack(base, blanks, order, fields);
      && (forall k :: k in r <==> k in base || k in order)
      && (forall k :: k in order ==> r[k] == fields[k] + " ")
      && (forall k :: k in base && k !in order ==> r[k] == base[k])
    decreases |order|
  {
    if order != [] {
      var k, v := order[0], fields[order[0]];
      BackIs(v);
      NameKept(k, blanks);
      ReadBackTidy(base[k := v + " "], 1, order[1..], fields);
    }
  }

  /** The first value that is empty or starts with a blank does not come back. */
  lemma {:induction false} ReadBackUntidy(base: map<string, string>, blanks: nat, order: seq<string>,
                                          fields: map<string, string>) returns (k: string)
    requires blanks <= 1 && forall k :: k in order ==> k in fields && k != []
    requires forall k :: k in base ==> base[k] == "" || base[k][0] != ' '
    requires exists k :: k in order && !Tidy(fields[k])
    ensures k in order && k in ReadBack(base, blanks, order, fields)
    ensures ReadBack(base, blanks, order, fields)[k] != fields[k] + " "
    decreases |order|
  {
    k := order[0];
    var v := fields[k];
    BackIs(v);
    NameKept(k, blanks);
    var u :| u in order && !Tidy(fields[u]);
    if Tidy(v) {
      assert order == [k] + order[1..];
      assert u in order[1..];
      assert forall x :: x in order[1..] ==> x in order;
      k := ReadBackUntidy(base[k := Back(v)], 1, order[1..], fields);
    } else {
      ReadBackKeeps(base[k := Back(v)], Lead(v), order[1..], fields);
    }
  }

  /** The empty line ends the header, whatever follows. */
  lemma EndRead(kind: Kind, h: Header, blanks: nat, rest: string, at: int)
    requires h.state == Key && Cleared(h.token, blanks)
    ensures Valid(h)
    ensures Parse(kind, h, "", "\r\n" + rest, at) == Parsed(h.(state := End, bodyStart := at + 1), "", Finish, 2)
  {
    var input := "\r\n" + rest;
    assert input[0] == '\r' && input[1..] == "\n" + rest;
    assert ("\n" + rest)[0] == '\n' && ("\n" + rest)[1..] == rest;
    var h1 := h.(state := EndR);
    assert Step(kind, h, "", '\r', at) == Stepped(h1, "", true);
    var h2 := h.(state := End, bodyStart := at + 1);
    assert Step(kind, h1, "", '\n', at + 1) == Stepped(h2, "", true);
    assert Parse(kind, h2, "", rest, at + 2) == Parsed(h2, "", Finish, 0);
    assert Parse(kind, h1, "", "\n" + rest, at + 1) == Parsed(h2, "", Finish, 1);
  }

  /** Fields and the empty line. */
  lemma TailRead(kind: Kind, h: Header, order: seq<string>, fields: map<string, string>, rest: string, at: int)
    returns (e: Token)
    requires h.state == Key && Ready(h.token)
    requires forall k :: k in order ==> k in fields && GoodField(k, fields[k])
    ensures Valid(h)
    ensures var tail := Lines(order, fields) + "\r\n";
      Parse(kind, h, "", tail + rest, at)
      == Parsed(h.(token := e, headers := ReadBack(h.headers, 0, order, fields), state := End,
                   bodyStart := at + |tail| - 1), "", Finish, |tail|)
  {
    var left;
    e, left := LinesRead(kind, h, 0, order, fields, at);
    var lines, h1 := Lines(order, fields), h.(token := e, headers := ReadBack(h.headers, 0, order, fields));
    LeadsOn(kind, h, "", lines, at, h1, "", "\r\n" + rest);
    EndRead(kind, h1, left, rest, at + |lines|);
    assert lines + ("\r\n" + rest) == lines + "\r\n" + rest;
  }

  // ---------- the first line of a request ----------

  lemma PutHolds(t: Token, w: string, c: char)
    requires Holds(t, w) && |w| + 1 < MAX_KEY_LEN
    ensures Holds(Put(t, c), w + [c])
  {
    assert Put(t, c).buf[..|w| + 1] == w + [c];
  }

  lemma HoldsPart(t: Token, w: string)
    requires Holds(t, w)
    ensures Sized(t) && t.pos == |w| < MAX_KEY_LEN
    ensures forall s: string :: EndsWith(t, s) <==> |s| <= |w| && w[|w| - |s|..] == s
  {
    forall s: string | |s| <= |w|
      ensures t.buf[|w| - |s|..|w|] == w[|w| - |s|..]
    {
      assert t.buf[..|w|][|w| - |s|..] == t.buf[|w| - |s|..|w|];
    }
  }

  lemma SoughtNext(t: Token, w: string, c: char)
    requires Holds(t, w) && |w| + 1 < MAX_KEY_LEN
    ensures Holds(Put(t, c), w + [c])
    ensures Sought(t, c).1.buf == Put(t, c).buf
    ensures Sought(t, c).0 <==>
      (|w| >= 3 && (w + [c])[|w| - 3..] == "GET ") || (|w| >= 4 && (w + [c])[|w| - 4..] == "POST ")
    ensures !Sought(t, c).0 ==> Sought(t, c).1 == Put(t, c)
  {
    HoldsPart(t, w);
    PutHolds(t, w, c);
    HoldsPart(Put(t, c), w + [c]);
    hide Holds;
    hide EndsWith;
    hide Put;
    assert Shifted(Put(t, c)) == Put(t, c);
    assert |"GET "| == 4 && |"POST "| == 5;
  }

  /** Characters before the method is complete. */
  lemma VerbGrows(h: Header, w: string, c: char, at: int) returns (t: Token)
    requires h.state == Start && Holds(h.token, w) && |w| + 1 < MAX_KEY_LEN
    requires !(|w| >= 3 && (w + [c])[|w| - 3..] == "GET ") && !(|w| >= 4 && (w + [c])[|w| - 4..] == "POST ")
    ensures Valid(h) && Holds(t, w + [c]) && Leads(Request, h, "", [c], at, h.(token := t), "")
  {
    SoughtNext(h.token, w, c);
    t := Put(h.token, c);
    One(Request, h, "", c, at);
  }

  lemma VerbDone(h: Header, w: string, c: char, at: int) returns (e: Token)
    requires h.state == Start && Holds(h.token, w) && Plain(w + [c])
    requires (|w| >= 3 && (w + [c])[|w| - 3..] == "GET ") || (|w| >= 4 && (w + [c])[|w| - 4..] == "POST ")
    requires (w + [c])[0] != ' '
    ensures Valid(h) && Ready(e)
    ensures Leads(Request, h, "", [c], at, h.(token := e, verb := w + [c], state := Path), "")
  {
    SoughtNext(h.token, w, c);
    var u := Put(h.token, c);
    HoldsTaken(u, w + [c]);
    e := Emptied(u);
    One(Request, h, "", c, at);
  }

  lemma GetRead(h: Header, at: int) returns (e: Token)
    requires h.state == Start && Holds(h.token, "")
    ensures Valid(h) && Ready(e) && Leads(Request, h, "", "GET ", at, h.(token := e, verb := "GET ", state := Path), "")
  {
    hide Leads;
    hide Parse;
    hide Holds;
    hide Step;
    hide Ready;
    hide HttpParser.Valid;
    var t1 := VerbGrows(h, "", 'G', at);
    var h1 := h.(token := t1);
    assert "" + ['G'] == "G";
    var t2 := VerbGrows(h1, "G", 'E', at + 1);
    var h2 := h.(token := t2);
    assert "G" + ['E'] == "GE";
    LeadsBoth(Request, h, "", "G", at, h1, "", "E", h2, "");
    var t3 := VerbGrows(h2, "GE", 'T', at + 2);
    var h3 := h.(token := t3);
    assert "GE" + ['T'] == "GET";
    LeadsBoth(Request, h, "", "GE", at, h2, "", "T", h3, "");
    assert "GET" + [' '] == "GET ";
    e := VerbDone(h3, "GET", ' ', at + 3);
    LeadsBoth(Request, h, "", "GET", at, h3, "", " ", h.(token := e, verb := "GET ", state := Path), "");
  }

  lemma PostRead(h: Header, at: int) returns (e: Token)
    requires h.state == Start && Holds(h.token, "")
    ensures Valid(h) && Ready(e)
    ensures Leads(Request, h, "", "POST ", at, h.(token := e, verb := "POST ", state := Path), "")
  {
    hide Leads;
    hide Parse;
    hide Holds;
    hide Step;
    hide Ready;
    hide HttpParser.Valid;
    var t1 := VerbGrows(h, "", 'P', at);
    var h1 := h.(token := t1);
    assert "" + ['P'] == "P";
    var t2 := VerbGrows(h1, "P", 'O', at + 1);
    var h2 := h.(token := t2);
    assert "P" + ['O'] == "PO";
    LeadsBoth(Request, h, "", "P", at, h1, "", "O", h2, "");
    var t3 := VerbGrows(h2, "PO", 'S', at + 2);
    var h3 := h.(token := t3);
    assert "PO" + ['S'] == "POS";
    LeadsBoth(Request, h, "", "PO", at, h2, "", "S", h3, "");
    assert "POS" + ['T'] == "POST" && "POST"[0..] == "POST";
    var t4 := VerbGrows(h3, "POS", 'T', at + 3);
    var h4 := h.(token := t4);
    LeadsBoth(Request, h, "", "POS", at, h3, "", "T", h4, "");
    assert "POST" + [' '] == "POST " && "POST "[0..] == "POST " && "POST "[1..] == "OST ";
    e := VerbDone(h4, "POST", ' ', at + 4);
    LeadsBoth(Request, h, "", "POST", at, h4, "", " ", h.(token := e, verb := "POST ", state := Path), "");
  }

  /** What can be a token of the first line. */
  ghost predicate GoodToken(w: string, end: char) {
    Plain(w) && w != [] && w[0] != ' ' && end !in w
  }

  /** The order lists the fields, all of which can be read back. */
  ghost predicate GoodFields(order: seq<string>, fields: map<string, string>) {
    (forall k :: k in order ==> k in fields && GoodField(k, fields[k])) && (forall k :: k in fields ==> k in order)
  }

  /** The same names, each value with one trailing blank. */
  function WithBlanks(fields: map<string, string>): map<string, string> {
    map k | k in fields :: fields[k] + " "
  }

  /** The fields come back with their names and values, each value with one trailing blank, if and only if no value
      is empty or starts with a blank. */
  lemma ReadBackIs(order: seq<string>, fields: map<string, string>)
    requires GoodFields(order, fields)
    ensures ReadBack(map[], 0, order, fields) == WithBlanks(fields) <==> forall k :: k in fields ==> Tidy(fields[k])
  {
    if forall k :: k in fields ==> Tidy(fields[k]) {
      ReadBackTidy(map[], 0, order, fields);
    } else {
      var k := ReadBackUntidy(map[], 0, order, fields);
    }
  }

  lemma VerbRead(h: Header, verb: string, at: int) returns (e: Token)
    requires (verb == "GET" || verb == "POST") && h.state == Start && Holds(h.token, "")
    ensures Valid(h) && Ready(e)
    ensures Leads(Request, h, "", verb + " ", at, h.(token := e, verb := verb + " ", state := Path), "")
  {
    if verb == "GET" {
      e := GetRead(h, at);
      assert verb + " " == "GET ";
    } else {
      e := PostRead(h, at);
      assert verb + " " == "POST ";
    }
  }

  lemma PathRead(h: Header, path: string, at: int) returns (e: Token)
    requires h.state == Path && Ready(h.token) && GoodToken(path, ' ') && h.path == ""
    ensures Valid(h) && Ready(e)
    ensures Leads(Request, h, "", path + " ", at, h.(token := e, path := path, state := VersionR), "")
  {
    hide Leads;
    var t, s := TokenRead(Request, h, "", path, ' ', at);
    assert "" + path == path;
    e := Emptied(t);
  }

  lemma VersionRead(h: Header, version: string, at: int) returns (e: Token)
    requires h.state == VersionR && Ready(h.token) && GoodToken(version, '\r')
    ensures Valid(h) && Ready(e)
    ensures Leads(Request, h, "", version + "\r", at, h.(token := e, version := version, state := VersionN), "")
  {
    hide Leads;
    var t, s := TokenRead(Request, h, "", version, '\r', at);
    e := Emptied(t);
  }

  lemma RequestLineRead(h: Header, verb: string, path: string, version: string, at: int) returns (e: Token)
    requires (verb == "GET" || verb == "POST") && h.state == Start && Holds(h.token, "") && h.path == ""
    requires GoodToken(path, ' ') && GoodToken(version, '\r')
    ensures Valid(h) && Ready(e)
    ensures Leads(Request, h, "", verb + " " + path + " " + version + "\r\n", at,
                  h.(token := e, verb := verb + " ", path := path, version := version, state := Key), "")
  {
    hide *;
    var e1 := VerbRead(h, verb, at);
    var h1, w1 := h.(token := e1, verb := verb + " ", state := Path), verb + " ";
    var e2 := PathRead(h1, path, at + |w1|);
    var h2, w2 := h1.(token := e2, path := path, state := VersionR), w1 + (path + " ");
    LeadsBoth(Request, h, "", w1, at, h1, "", path + " ", h2, "");
    e := VersionRead(h2, version, at + |w2|);
    var h3, w3 := h2.(token := e, version := version, state := VersionN), w2 + (version + "\r");
    LeadsBoth(Request, h, "", w2, at, h2, "", version + "\r", h3, "");
    ReadyValid(h3);
    NewlineRead(Request, h3, at + |w3|);
    LeadsBoth(Request, h, "", w3, at, h3, "", "\n", h3.(state := Key), "");
    assert w3 + "\n" == verb + " " + path + " " + version + "\r\n";
  }

  /** Parsing the text of a request, with anything behind it, finishes exactly at its end and gives back path
      and version, the method with a trailing blank, and the fields: each value with a trailing blank if and only if
      no value is empty or starts with a blank, and else as `ReadBack` says. */
  lemma RequestRoundTrip(h: Header, order: seq<string>, rest: string, at: int, verb0: string, version0: string,
                         start0: int)
    requires (h.verb == "GET" || h.verb == "POST") && GoodToken(h.path, ' ') && GoodToken(h.version, '\r')
    requires GoodFields(order, h.headers)
    ensures var text := RequestText(h, order);
      var p := Call(Request, Fresh(verb0, version0, start0), text + rest, at);
      && p.verdict == Finish && p.n == |text| && p.h.state == End && p.h.bodyStart == at + |text| - 1
      && p.h.verb == h.verb + " " && p.h.path == h.path && p.h.version == h.version
      && p.h.headers == ReadBack(map[], 0, order, h.headers)
      && (p.h.headers == WithBlanks(h.headers) <==> forall k :: k in h.headers ==> Tidy(h.headers[k]))
  {
    hide Leads;
    hide Parse;
    hide Lines;
    hide GoodToken;
    var f := Fresh(verb0, version0, start0);
    var line := h.verb + " " + h.path + " " + h.version + "\r\n";
    var e := RequestLineRead(f, h.verb, h.path, h.version, at);
    var h1 := f.(token := e, verb := h.verb + " ", path := h.path, version := h.version, state := Key);
    var tail := Lines(order, h.headers) + "\r\n";
    LeadsOn(Request, f, "", line, at, h1, "", tail + rest);
    var e2 := TailRead(Request, h1, order, h.headers, rest, at + |line|);
    ReadBackIs(order, h.headers);
    assert line + (tail + rest) == RequestText(h, order) + rest;
  }

  // ---------- the first line of a response ----------

  lemma NoToken(t: Token)
    requires Ready(t)
    ensures Taken(t) == "" && Ready(Emptied(t))
  {
    BlanksTaken(t, "");
  }

  /** A token that may be empty. */
  lemma AnyRead(kind: Kind, h: Header, w: string, c: char, at: int) returns (t: Token, s: Stepped)
    requires Collects(kind, h.state) && Ready(h.token) && Plain(w) && (w != [] ==> w[0] != ' ')
    requires c in Ends(kind, h.state)
    requires forall x :: x in w ==> x !in Ends(kind, h.state)
    ensures Valid(h) && Sized(t) && t.pos < MAX_KEY_LEN && Taken(t) == w && Ready(Emptied(t))
    ensures s == Step(kind, h.(token := t), "", c, at + |w|)
    ensures s.ok && s.h.state != End ==> Leads(kind, h, "", w + [c], at, s.h, s.key)
  {
    if w == [] {
      t := h.token;
      NoToken(t);
      s := Step(kind, h.(token := t), "", c, at);
      One(kind, h, "", c, at);
      assert w + [c] == [c];
    } else {
      t, s := TokenRead(kind, h, "", w, c, at);
    }
  }

  lemma StatusScanned(t: Token, status: nat, was: nat)
    requires Holds(t, Decimal(status)) && status < 0x1_0000_0000
    ensures Scanned(t.buf[Blanks(t.buf, 0)..], was) == status
  {
    var w := Decimal(status);
    assert w[0] in w && t.buf[0] == t.buf[..|w|][0] == w[0];
    var zeros := t.buf[|w|..];
    assert t.buf[Blanks(t.buf, 0)..] == t.buf == t.buf[..|w|] + zeros;
    DecimalFound(status, zeros);
  }

  lemma StatusRead(h: Header, status: nat, at: int) returns (e: Token)
    requires h.state == Status && Ready(h.token) && status < 0x1_0000_0000
    ensures Valid(h) && Ready(e)
    ensures Leads(Response, h, "", Decimal(status) + " ", at, h.(token := e, status := status, state := MessageR), "")
  {
    hide Leads;
    hide Parse;
    hide Decimal;
    hide Scanned;
    var w := Decimal(status);
    DecimalShort(status);
    assert w[0] in w;
    var t, s := TokenRead(Response, h, "", w, ' ', at);
    StatusScanned(t, status, h.status);
    e := Wiped(t);
  }

  lemma {:induction false} DecimalShort(n: nat)
    requires n < 0x1_0000_0000
    ensures Plain(Decimal(n)) && ' ' !in Decimal(n)
  {
    assert Power10(5) == 100000 by { assert Power10(2) == 100; }
    assert Power10(10) == 100000 * Power10(5) by { assert Power10(7) == 100 * Power10(5); }
    DecimalLength(n, 10);
  }

  /** The same for a response: status and message come back. The version is not kept. */
  lemma ResponseRoundTrip(h: Header, order: seq<string>, rest: string, at: int, verb0: string, version0: string,
                          start0: int)
    requires Plain(h.version) && ' ' !in h.version && h.status < 0x1_0000_0000
    requires Plain(h.message) && '\r' !in h.message && (h.message != [] ==> h.message[0] != ' ')
    requires GoodFields(order, h.headers)
    ensures var text := ResponseText(h, order);
      var p := Call(Response, Fresh(verb0, version0, start0), text + rest, at);
      && p.verdict == Finish && p.n == |text| && p.h.state == End && p.h.bodyStart == at + |text| - 1
      && p.h.status == h.status && p.h.message == h.message && p.h.version == version0
      && p.h.headers == ReadBack(map[], 0, order, h.headers)
      && (p.h.headers == WithBlanks(h.headers) <==> forall k :: k in h.headers ==> Tidy(h.headers[k]))
  {
    hide Leads;
    hide Parse;
    hide Lines;
    hide GoodToken;
    var f := Fresh(verb0, version0, start0);
    var line := h.version + " " + Decimal(h.status) + " " + h.message + "\r\n";
    var e := ResponseLineRead(f, h.version, h.status, h.message, at);
    var h1 := f.(token := e, status := h.status, message := h.message, state := Key);
    var tail := Lines(order, h.headers) + "\r\n";
    LeadsOn(Response, f, "", line, at, h1, "", tail + rest);
    var e2 := TailRead(Response, h1, order, h.headers, rest, at + |line|);
    ReadBackIs(order, h.headers);
    assert line + (tail + rest) == ResponseText(h, order) + rest;
  }

  lemma ProtocolRead(h: Header, version: string, at: int) returns (e: Token)
    requires h.state == Start && Ready(h.token) && Plain(version) && ' ' !in version
    ensures Valid(h) && Ready(e) && Leads(Response, h, "", version + " ", at, h.(token := e, state := Status), "")
  {
    hide Leads;
    assert version != [] ==> version[0] in version;
    var t, s := AnyRead(Response, h, version, ' ', at);
    e := Emptied(t);
  }

  lemma MessageRead(h: Header, message: string, at: int) returns (e: Token)
    requires h.state == MessageR && Ready(h.token) && h.message == ""
    requires Plain(message) && '\r' !in message && (message != [] ==> message[0] != ' ')
    ensures Valid(h) && Ready(e)
    ensures Leads(Response, h, "", message + "\r", at, h.(token := e, message := message, state := MessageN), "")
  {
    hide Leads;
    var t, s := AnyRead(Response, h, message, '\r', at);
    assert "" + message == message;
    e := Emptied(t);
  }

  lemma ResponseLineRead(h: Header, version: string, status: nat, message: string, at: int) returns (e: Token)
    requires h.state == Start && Ready(h.token) && h.message == ""
    requires Plain(version) && ' ' !in version && status < 0x1_0000_0000
    requires Plain(message) && '\r' !in message && (message != [] ==> message[0] != ' ')
    ensures Valid(h) && Ready(e)
    ensures Leads(Response, h, "", version + " " + Decimal(status) + " " + message + "\r\n", at,
                  h.(token := e, status := status, message := message, state := Key), "")
  {
    hide *;
    var e1 := ProtocolRead(h, version, at);
    var h1, w1 := h.(token := e1, state := Status), version + " ";
    var e2 := StatusRead(h1, status, at + |w1|);
    var h2, w2 := h1.(token := e2, status := status, state := MessageR), w1 + (Decimal(status) + " ");
    LeadsBoth(Response, h, "", w1, at, h1, "", Decimal(status) + " ", h2, "");
    e := MessageRead(h2, message, at + |w2|);
    var h3, w3 := h2.(token := e, message := message, state := MessageN), w2 + (message + "\r");
    LeadsBoth(Response, h, "", w2, at, h2, "", message + "\r", h3, "");
    ReadyValid(h3);
    NewlineRead(Response, h3, at + |w3|);
    LeadsBoth(Response, h, "", w3, at, h3, "", "\n", h3.(state := Key), "");
    assert w3 + "\n" == version + " " + Decimal(status) + " " + message + "\r\n";
  }
}
