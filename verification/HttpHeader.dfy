/** The header object: the token buffer filled and emptied in place, the parser's loop, and the fields. */
module HttpHeader {
  import opened HttpToken
  import opened Numerals
  import opened HttpParser
  import opened HttpRoundTrip
  import RingBuffer

  /** A result of parsing what is behind the first `n` characters. */
  ghost function Behind(n: nat, p: Parsed): Parsed {
    p.(n := n + p.n)
  }

  lemma ParseNext(kind: Kind, h: Header, key: string, input: string, n: nat, at: int)
    requires HttpParser.Valid(h) && n < |input| && h.state != End
    ensures var s := Step(kind, h, key, input[n], at + n);
      Behind(n, Parse(kind, h, key, input[n..], at + n))
      == if s.ok then Behind(n + 1, Parse(kind, s.h, s.key, input[n + 1..], at + (n + 1)))
         else Parsed(s.h, s.key, Fail, n)
  {
    hide Step;
    assert input[n..][0] == input[n] && input[n..][1..] == input[n + 1..];
  }

  lemma ParseOver(kind: Kind, h: Header, key: string, input: string, at: int)
    requires HttpParser.Valid(h) && (input == [] || h.state == End)
    ensures Parse(kind, h, key, input, at) == Parsed(h, key, if h.state == End then Finish else Half, 0)
  {
  }

  class HttpHeader {
    const kind: Kind
    const buf: array<char>
    var pos: nat
    var state: State
    var headers: map<string, string>
    var verb: string
    var path: string
    var version: string
    var status: nat
    var message: string
    var bodyStart: int

    ghost predicate Fit()
      reads this
    {
      buf.Length == MAX_KEY_LEN && pos <= MAX_KEY_LEN
    }

    ghost function Buffer(): (t: Token)
      requires Fit()
      reads this, buf
      ensures Sized(t)
    {
      Token(buf[..], pos)
    }

    /** The header as a value. */
    ghost function Value(): (h: Header)
      requires Fit()
      reads this, buf
      ensures HttpParser.Valid(h)
    {
      Header(state, Buffer(), headers, verb, path, version, status, message, bodyStart)
    }

    constructor (kind: Kind)
      ensures Fit() && this.kind == kind && fresh(buf)
      ensures Value() == Fresh("POST", "HTTP/1.1", 0)
    {
      this.kind := kind;
      var b := new char[MAX_KEY_LEN](i => NUL);
      buf := b;
      pos, state, headers, verb, path, version := 0, Start, map[], "POST", "", "HTTP/1.1";
      status, message, bodyStart := 0, "", 0;
      new;
      assert buf[..] == Zeros(MAX_KEY_LEN);
    }

    /** Empties the buffer before a new header; the place of the last body stays. */
    method Reset()
      requires Fit()
      modifies this, buf
      ensures Fit() && Value() == Fresh("POST", "HTTP/1.1", old(bodyStart))
    {
      forall i | 0 <= i < buf.Length {
        buf[i] := NUL;
      }
      pos, state, headers, version, verb, path, status, message := 0, Start, map[], "HTTP/1.1", "POST", "", 0, "";
      assert buf[..] == Zeros(MAX_KEY_LEN);
    }

    method Append(c: char)
      requires Fit() && pos < MAX_KEY_LEN
      modifies `pos, buf
      ensures Fit() && Buffer() == Put(old(Buffer()), c)
    {
      buf[pos] := c;
      pos := pos + 1;
    }

    /** Moves the token to the end of a string. */
    method MoveBufTo(s: string) returns (r: string)
      requires Fit()
      modifies `pos, buf
      ensures Fit() && r == s + Taken(old(Buffer())) && Buffer() == Emptied(old(Buffer()))
      ensures s == "" ==> r == Taken(old(Buffer()))
    {
      ghost var b := buf[..];
      r := s;
      var i := 0;
      while i < buf.Length && buf[i] == ' '
        invariant i <= buf.Length && Blanks(b, 0) == Blanks(b, i)
      {
        i := i + 1;
      }
      ghost var k := i;
      while i < buf.Length && buf[i] != NUL
        invariant k <= i <= buf.Length && Zero(b, k) == Zero(b, i)
        invariant forall j :: 0 <= j < buf.Length ==> buf[j] == if k <= j < i then NUL else b[j]
        invariant r == s + b[k..i]
      {
        r := r + [buf[i]];
        buf[i] := NUL;
        i := i + 1;
      }
      pos := 0;
      assert buf[..] == Blanked(b, k, i);
    }

    /** Reads the token as a number. */
    method MoveBufToNumber(was: nat) returns (n: nat)
      requires Fit()
      modifies `pos, buf
      ensures Fit() && n == Scanned(old(buf[..])[Blanks(old(buf[..]), 0)..], was) && Buffer() == Wiped(old(Buffer()))
    {
      ghost var b := buf[..];
      var i := 0;
      while i < buf.Length && buf[i] == ' '
        invariant i <= buf.Length && Blanks(b, 0) == Blanks(b, i)
      {
        i := i + 1;
      }
      n := Scanned(buf[i..], was);
      i := 0;
      while i < buf.Length && buf[i] != NUL
        invariant i <= buf.Length && Zero(b, 0) == Zero(b, i)
        invariant forall j :: 0 <= j < buf.Length ==> buf[j] == if j < i then NUL else b[j]
      {
        buf[i] := NUL;
        i := i + 1;
      }
      pos := 0;
      assert buf[..] == Blanked(b, 0, i);
    }

    method IsMethodFound(c: char) returns (found: bool)
      requires Fit() && pos < MAX_KEY_LEN
      modifies `pos, buf
      ensures Fit() && (found, Buffer()) == Sought(old(Buffer()), c)
    {
      hide Shifted;
      hide AtMethod;
      Append(c);
      KeepLast();
      found := EndsInMethod();
      if found {
        pos := 0;
      }
    }

    method KeepLast()
      requires Fit()
      modifies `pos, buf
      ensures Fit() && Buffer() == Shifted(old(Buffer()))
    {
      if pos >= MAX_KEY_LEN {
        ghost var b := buf[..];
        forall i | 0 <= i < MAX_METHOD_LEN {
          buf[i] := buf[pos - MAX_METHOD_LEN + i];
        }
        pos := MAX_METHOD_LEN;
        assert buf[..] == b[MAX_KEY_LEN - MAX_METHOD_LEN..MAX_KEY_LEN] + b[MAX_METHOD_LEN..];
      }
    }

    method EndsInMethod() returns (found: bool)
      requires Fit()
      ensures found == AtMethod(Buffer())
    {
      found := (pos >= 4 && buf[pos - 4..pos] == "GET ") || (pos >= 5 && buf[pos - 5..pos] == "POST ");
      assert pos >= 4 ==> buf[pos - 4..pos] == buf[..][pos - 4..pos];
      assert pos >= 5 ==> buf[pos - 5..pos] == buf[..][pos - 5..pos];
    }

    /** One turn of the parser's loop. `failed` is a return from it. */
    method ParseChar(c: char, key: string, at: int) returns (failed: bool, key': string)
      requires Fit()
      modifies this, buf
      ensures Fit() && Stepped(Value(), key', !failed) == Step(kind, old(Value()), key, c, at)
    {
      if kind.Request? && pos >= MAX_KEY_LEN {
        failed, key' := true, key;
      } else if state.Key? || state.ValueR? || state.ValueN? || state.EndR? || state.End? {
        failed, key' := ParseField(c, key, at);
      } else {
        failed, key' := ParseFirstLine(c, key, at);
      }
    }

    method ParseFirstLine(c: char, key: string, at: int) returns (failed: bool, key': string)
      requires Fit() && !(kind.Request? && pos >= MAX_KEY_LEN)
      requires !(state.Key? || state.ValueR? || state.ValueN? || state.EndR? || state.End?)
      modifies this, buf
      ensures Fit() && Stepped(Value(), key', !failed) == Step(kind, old(Value()), key, c, at)
    {
      hide Taken;
      hide Emptied;
      hide Wiped;
      hide Put;
      hide Sought;
      failed, key' := false, key;
      match state {
      case Start =>
        if kind.Request? {
          var found := IsMethodFound(c);
          if found {
            verb := MoveBufTo("");
            state := Path;
          }
        } else if c == ' ' {
          key' := MoveBufTo(key);
          state := Status;
          key' := "";
        } else {
          failed := Collect(c);
        }
      case Path =>
        if c == ' ' {
          path := MoveBufTo(path);
          if path == "" {
            failed := true;
          } else {
            state := VersionR;
          }
        } else {
          failed := Collect(c);
        }
      case VersionR =>
        if c == '\r' {
          version := MoveBufTo("");
          state := VersionN;
        } else {
          failed := Collect(c);
        }
      case VersionN => failed := Newline(c, Key);
      case Status =>
        if c == ' ' {
          status := MoveBufToNumber(status);
          state := MessageR;
        } else {
          failed := Collect(c);
        }
      case MessageR =>
        if c == '\r' {
          message := MoveBufTo(message);
          state := MessageN;
        } else {
          failed := Collect(c);
        }
      case MessageN => failed := Newline(c, Key);
      }
    }

    method ParseField(c: char, key: string, at: int) returns (failed: bool, key': string)
      requires Fit() && !(kind.Request? && pos >= MAX_KEY_LEN)
      requires state.Key? || state.ValueR? || state.ValueN? || state.EndR? || state.End?
      modifies this, buf
      ensures Fit() && Stepped(Value(), key', !failed) == Step(kind, old(Value()), key, c, at)
    {
      hide Taken;
      hide Emptied;
      hide Wiped;
      hide Put;
      hide Sought;
      failed, key' := false, key;
      match state {
      case Key =>
        if c == ':' {
          key' := MoveBufTo(key);
          if kind.Request? && key' == "" {
            key' := key;
            failed := true;
          } else {
            state := ValueR;
          }
        } else if c == '\r' {
          state := EndR;
        } else {
          failed := Collect(c);
        }
      case ValueR =>
        if c == '\r' {
          var value := MoveBufTo("");
          headers := headers[key := value];
          key' := "";
          state := ValueN;
        } else {
          failed := Collect(c);
        }
      case ValueN => failed := Newline(c, Key);
      case EndR =>
        failed := Newline(c, End);
        if !failed {
          bodyStart := at;
        }
      case End =>
      }
    }

    method Collect(c: char) returns (failed: bool)
      requires Fit()
      modifies `pos, buf
      ensures Fit() && (failed <==> old(pos) >= MAX_KEY_LEN)
      ensures failed ==> Buffer() == old(Buffer())
      ensures !failed ==> Buffer() == Put(old(Buffer()), c)
    {
      failed := pos >= MAX_KEY_LEN;
      if !failed {
        Append(c);
      }
    }

    method Newline(c: char, next: State) returns (failed: bool)
      modifies `state
      ensures failed == (c != '\n') && state == if failed then old(state) else next
    {
      failed := c != '\n';
      if !failed {
        state := next;
      }
    }

    /** Consumes characters until the header ends, the input does, or it is malformed. */
    method ParserHeader(input: string, at: int) returns (verdict: Verdict, n: nat)
      requires Fit()
      modifies this, buf
      ensures Fit() && n <= |input|
      ensures Parsed(Value(), "", verdict, n) == Call(kind, old(Value()), input, at)
    {
      hide Step;
      hide Parse;
      var key := "";
      n := 0;
      ghost var whole := Parse(kind, Value(), "", input, at);
      assert input[0..] == input;
      while n < |input| && state != End
        invariant Fit() && n <= |input|
        invariant whole == Behind(n, Parse(kind, Value(), key, input[n..], at + n))
      {
        ParseNext(kind, Value(), key, input, n, at);
        var failed;
        failed, key := ParseChar(input[n], key, at + n);
        if failed {
          verdict := Fail;
          return;
        }
        n := n + 1;
      }
      ParseOver(kind, Value(), key, input[n..], at + n);
      verdict := if state == End then Finish else Half;
    }

    // ---------- fields ----------

    /** Sets the length; it is read back if it is less than 2^31, and else as a negative number. */
    method SetContentLength(length: nat)
      requires length < 0x1_0000_0000
      modifies `headers
      ensures headers == old(headers)["Content-Length" := Decimal(length)]
      ensures GetContentLength() == if length < 0x8000_0000 then length else length - 0x1_0000_0000
    {
      headers := headers["Content-Length" := Decimal(length)];
      DecimalFound(length, "");
      assert Decimal(length) + "" == Decimal(length);
    }

    function GetContentLength(): (r: int)
      reads `headers
      ensures "Content-Length" !in headers ==> r == 0
      ensures -0x8000_0000 <= r < 0x8000_0000
    {
      LengthOf(headers)
    }

    /** Sets the sequence number; it is read back. */
    method SetSeq(seq_: nat)
      requires seq_ < 0x1_0000_0000_0000_0000
      modifies `headers
      ensures headers == old(headers)["Seq" := Decimal(seq_)]
      ensures GetSeq() == seq_
    {
      headers := headers["Seq" := Decimal(seq_)];
      DecimalFound(seq_, "");
      assert Decimal(seq_) + "" == Decimal(seq_);
    }

    function GetSeq(): (r: nat)
      reads `headers
      ensures "Seq" !in headers ==> r == 0xFFFF_FFFF_FFFF_FFFF
      ensures r < 0x1_0000_0000_0000_0000
    {
      SeqOf(headers)
    }

    /** Prints the header into what is left of a piece, and cuts the piece short behind it; fails when it would fill
        the piece. `order` is the order in which the fields are visited. */
    method SerializeHeader(piece: RingBuffer.Piece, pos: nat, order: seq<string>) returns (ok: bool)
      requires Fit() && buf != piece.buffer && pos <= piece.size <= piece.buffer.Length
      requires forall k :: k in order ==> k in headers
      modifies piece`size, piece.buffer
      ensures Fit() && Value() == old(Value())
      ensures var whole := if kind.Request? then RequestText(Value(), order) else ResponseText(Value(), order);
        && (ok <==> pos + |whole| < old(piece.size))
        && (ok ==> piece.size == pos + |whole| < piece.buffer.Length && piece.buffer[pos..piece.size] == whole)
      ensures !ok ==> piece.size == old(piece.size)
      ensures forall i :: 0 <= i < pos || old(piece.size) <= i < piece.buffer.Length ==>
        piece.buffer[i] == old(piece.buffer[i])
    {
      var text;
      ok, text := Print(piece.size - pos, order);
      Snprintf(piece, pos, text);
      if ok {
        piece.size := pos + |text|;
      }
    }

    /** The bytes that fit, and a zero behind them. */
    static method Snprintf(piece: RingBuffer.Piece, pos: nat, text: string)
      requires pos <= piece.size <= piece.buffer.Length
      modifies piece.buffer
      ensures forall i :: 0 <= i < pos || piece.size <= i < piece.buffer.Length ==>
        piece.buffer[i] == old(piece.buffer[i])
      ensures pos + |text| < piece.size ==> piece.buffer[pos..pos + |text|] == text
    {
      var room := piece.size - pos;
      if room == 0 {
        return;
      }
      var k := if |text| < room then |text| else room - 1;
      var b := piece.buffer;
      forall i | 0 <= i < k {
        b[pos + i] := text[i];
      }
      b[pos + k] := NUL;
    }

    /** The printed text, of which less than `size` may be used. */
    method Print(size: nat, order: seq<string>) returns (ok: bool, text: string)
      requires forall k :: k in order ==> k in headers
      requires Fit()
      ensures var whole := if kind.Request? then RequestText(Value(), order) else ResponseText(Value(), order);
        (ok <==> |whole| < size) && (ok ==> text == whole)
    {
      text := if kind.Request? then verb + " " + path + " " + version + "\r\n"
              else version + " " + Decimal(status) + " " + message + "\r\n";
      ghost var head := text;
      if |text| >= size {
        return false, text;
      }
      for i := 0 to |order|
        invariant |text| < size && text + Lines(order[i..], headers) == head + Lines(order, headers)
      {
        var line := order[i] + ": " + headers[order[i]] + " \r\n";
        assert order[i..][1..] == order[i + 1..];
        assert text + (line + Lines(order[i + 1..], headers)) == (text + line) + Lines(order[i + 1..], headers);
        text := text + line;
        if |text| >= size {
          return false, text;
        }
      }
      text := text + "\r\n";
      ok := |text| < size;
    }
  }

  /** `strtol`, cut to an `int`. */
  function ToInt(s: string): int {
    (ToLong(s) + 0x8000_0000) % 0x1_0000_0000 - 0x8000_0000
  }

  function LengthOf(headers: map<string, string>): int {
    if "Content-Length" in headers then ToInt(headers["Content-Length"]) else 0
  }

  function SeqOf(headers: map<string, string>): nat {
    if "Seq" in headers then ToUlong(headers["Seq"]) else 0xFFFF_FFFF_FFFF_FFFF
  }

  /** Parsing what was printed of a header with both numbers gives them back: the sequence number always, the length
      exactly when it is less than 2^31. */
  lemma ParsedNumbers(kind: Kind, h: Header, order: seq<string>, rest: string, at: int, length: nat, seq_: nat)
    requires kind.Request? ==>
      (h.verb == "GET" || h.verb == "POST") && GoodToken(h.path, ' ') && GoodToken(h.version, '\r')
    requires kind.Response? ==>
      Plain(h.version) && ' ' !in h.version && h.status < 0x1_0000_0000 && GoodMessage(h.message)
    requires GoodFields(order, h.headers) && forall k :: k in h.headers ==> Tidy(h.headers[k])
    requires length < 0x1_0000_0000 && "Content-Length" in h.headers && h.headers["Content-Length"] == Decimal(length)
    requires seq_ < 0x1_0000_0000_0000_0000 && "Seq" in h.headers && h.headers["Seq"] == Decimal(seq_)
    ensures var text := if kind.Request? then RequestText(h, order) else ResponseText(h, order);
      var p := Call(kind, Fresh("POST", "HTTP/1.1", 0), text + rest, at);
      p.verdict == Finish && SeqOf(p.h.headers) == seq_ && (LengthOf(p.h.headers) == length <==> length < 0x8000_0000)
  {
    if kind.Request? {
      RequestRoundTrip(h, order, rest, at, "POST", "HTTP/1.1", 0);
    } else {
      ResponseRoundTrip(h, order, rest, at, "POST", "HTTP/1.1", 0);
    }
    NumbersRoundTrip(length, seq_);
  }

  ghost predicate GoodMessage(message: string) {
    Plain(message) && '\r' !in message && (message != [] ==> message[0] != ' ')
  }

  /** The numbers set before serialization are the numbers read after parsing, where the value comes back with a
      blank: the sequence number always, the length exactly when it fits an `int`. */
  lemma NumbersRoundTrip(length: nat, seq_: nat)
    requires length < 0x1_0000_0000 && seq_ < 0x1_0000_0000_0000_0000
    ensures ToUlong(Decimal(seq_) + " ") == seq_
    ensures ToInt(Decimal(length) + " ") == length <==> length < 0x8000_0000
  {
    DecimalFound(seq_, " ");
    DecimalFound(length, " ");
  }
}
