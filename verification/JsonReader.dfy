/** The reader: numbers, strings and values from tokens. */
module JsonReader {
  import opened Numerals
  import opened JsonValue
  import opened JsonText
  import opened JsonLexer

  datatype Option<T> = None | Some(value: T)

  const MAX_INT: int := 0x7FFF_FFFF
  const MAX_UINT: int := 0xFFFF_FFFF

  // ---------- numbers ----------

  /** What a number token is taken for; `Double` leaves it to the conversion of reals. */
  datatype Numeral = Signed(i: int) | Unsigned(u: nat) | Double | Malformed

  predicate LooksReal(s: string) {
    exists k :: 0 <= k < |s| && (s[k] in {'.', 'e', 'E', '+'} || (s[k] == '-' && k > 0))
  }

  function Body(s: string): string
    requires s != []
  {
    if s[0] == '-' then s[1..] else s
  }

  predicate AllDigits(s: string) {
    forall c :: c in s ==> IsDigit(c)
  }

  /** The number a token denotes, where it is one of the integers that are read as such. */
  function NumeralOf(s: string): Numeral
    requires s != []
  {
    if LooksReal(s) then Double
    else if !AllDigits(Body(s)) then Malformed
    else
      var n := Digits(Body(s), 0);
      if s[0] == '-' then if n <= 2147483639 then Signed(0 - n) else Double
      else if n <= MAX_INT then Signed(n)
      else if n <= 4294967289 then Unsigned(n)
      else Double
  }

  newtype UInt32 = x: int | 0 <= x < 0x1_0000_0000

  /** Decides what a number token is. The accumulator has 32 bits, and never wraps. */
  method DecodeNumber(s: string) returns (n: Numeral)
    requires s != []
    ensures LooksReal(s) || AllDigits(Body(s)) ==> n == NumeralOf(s)
  {
    var isDouble := false;
    for k := 0 to |s|
      invariant isDouble <==> exists j :: 0 <= j < k && (s[j] in {'.', 'e', 'E', '+'} || (s[j] == '-' && j > 0))
    {
      isDouble := isDouble || s[k] in {'.', 'e', 'E', '+'} || (s[k] == '-' && k > 0);
    }
    if isDouble {
      return Double;
    }
    var negative := s[0] == '-';
    var current := if negative then 1 else 0;
    ghost var digits := s[current..];
    var threshold: UInt32 := if negative then 214748364 else 429496729;
    var value: UInt32 := 0;
    while current < |s|
      invariant (if negative then 1 else 0) <= current <= |s|
      invariant AllDigits(digits) ==> Digits(digits, 0) == Digits(s[current..], value as int)
      invariant value as int <= (threshold as int - 1) * 10 + 9
    {
      var c := s[current];
      current := current + 1;
      assert s[current - 1..][1..] == s[current..] && c == s[current - 1..][0];
      assert c in digits;
      if !IsDigit(c) {
        return Malformed;
      }
      if value >= threshold {
        ghost var n0 := value as int * 10 + (c as int - '0' as int);
        DigitsGrow(s[current..], n0);
        return Double;
      }
      value := value * 10 + (c as int - '0' as int) as UInt32;
    }
    if negative {
      n := Signed(-(value as int));
    } else if value as int <= MAX_INT {
      n := Signed(value as int);
    } else {
      n := Unsigned(value as int);
    }
  }

  lemma {:induction false} DigitsGrow(s: string, acc: nat)
    ensures Digits(s, acc) >= acc
    decreases |s|
  {
    if s != [] && IsDigit(s[0]) { DigitsGrow(s[1..], acc * 10 + (s[0] as int - '0' as int)); }
  }

  // ---------- strings ----------

  function HexValue(c: char): Option<nat> {
    if IsDigit(c) then Some(c as int - '0' as int)
    else if 'a' <= c <= 'f' then Some(c as int - 'a' as int + 10)
    else if 'A' <= c <= 'F' then Some(c as int - 'A' as int + 10)
    else None
  }

  /** Four hexadecimal digits. */
  function FourHex(s: string): (r: Option<nat>)
    ensures r.Some? ==> |s| >= 4 && r.value < 0x10000
  {
    if |s| < 4 then None
    else
      var a, b, c, d := HexValue(s[0]), HexValue(s[1]), HexValue(s[2]), HexValue(s[3]);
      if a.Some? && b.Some? && c.Some? && d.Some? then Some(((a.value * 16 + b.value) * 16 + c.value) * 16 + d.value)
      else None
  }

  /** A code point, and how many characters it took: a high surrogate takes a second escape. */
  function CodePoint(s: string): (r: Option<(nat, nat)>)
    ensures r.Some? ==> r.value.1 <= |s|
  {
    match FourHex(s)
    case None => None
    case Some(u) =>
      if 0xD800 <= u <= 0xDBFF then
        if |s| - 4 < 6 || s[4] != '\\' || s[5] != 'u' then None
        else match FourHex(s[6..])
          case None => None
          case Some(v) => Some((0x10000 + (u % 0x400) * 0x400 + v % 0x400, 10))
      else Some((u, 4))
  }

  /** UTF-8; the characters stand for bytes. */
  function Utf8(cp: nat): string {
    if cp <= 0x7F then [cp as char]
    else if cp <= 0x7FF then [(0xC0 + cp / 0x40) as char, (0x80 + cp % 0x40) as char]
    else if cp <= 0xFFFF then
      [(0xE0 + cp / 0x1000) as char, (0x80 + cp / 0x40 % 0x40) as char, (0x80 + cp % 0x40) as char]
    else if cp <= 0x10FFFF then
      [(0xF0 + cp / 0x40000) as char, (0x80 + cp / 0x1000 % 0x40) as char,
       (0x80 + cp / 0x40 % 0x40) as char, (0x80 + cp % 0x40) as char]
    else ""
  }

  function Unescape(c: char): Option<char> {
    if c == '"' || c == '/' || c == '\\' then Some(c)
    else if c == 'b' then Some(8 as char)
    else if c == 'f' then Some(12 as char)
    else if c == 'n' then Some('\n')
    else if c == 'r' then Some('\r')
    else if c == 't' then Some('\t')
    else None
  }

  function Prefixed(a: string, r: Option<string>): Option<string> {
    match r
    case None => None
    case Some(s) => Some(a + s)
  }

  /** What is between the quotes, decoded. */
  function Decoded(s: string): Option<string>
    decreases |s|
  {
    if s == [] || s[0] == '"' then Some("")
    else if s[0] != '\\' then Prefixed([s[0]], Decoded(s[1..]))
    else if |s| == 1 then None
    else if s[1] == 'u' then
      match CodePoint(s[2..])
      case None => None
      case Some((cp, n)) => Prefixed(Utf8(cp), Decoded(s[2 + n..]))
    else
      match Unescape(s[1])
      case None => None
      case Some(c) => Prefixed([c], Decoded(s[2..]))
  }

  lemma EscapeDecoded(c: char, tail: string)
    requires c != NUL
    ensures Decoded(Escape(c) + tail) == Prefixed([c], Decoded(tail))
  {
    var e := Escape(c);
    var s := e + tail;
    if e[0] != '\\' {
      assert s[1..] == tail;
    } else if |e| == 2 {
      assert s[2..] == tail && s[1] == e[1];
    } else {
      var n := c as int;
      assert s[2] == '0' && s[3] == '0' && s[4] == HexDigit(n / 16) && s[5] == HexDigit(n % 16);
      assert FourHex(s[2..]) == Some(n / 16 * 16 + n % 16);
      assert s[2 + 4..] == tail;
    }
  }

  /** A printed string decodes to itself. */
  lemma {:induction false} EscapedDecoded(s: string)
    requires NUL !in s
    ensures Decoded(Escaped(s)) == Some(s)
    decreases |s|
  {
    if s != [] {
      assert s[0] in s && s == [s[0]] + s[1..];
      EscapedDecoded(s[1..]);
      EscapeDecoded(s[0], Escaped(s[1..]));
    }
  }

  /** The text of a string token, without its quotes. */
  function Inner(text: string): string
    requires |text| >= 2
  {
    text[1..|text| - 1]
  }

  /** A C string ends at its first zero. */
  function Terminated(s: string): string {
    if s == [] || s[0] == NUL then "" else [s[0]] + Terminated(s[1..])
  }

  lemma {:induction false} TerminatedSame(s: string)
    requires NUL !in s
    ensures Terminated(s) == s
  {
    if s != [] {
      assert s[0] in s && s == [s[0]] + s[1..];
      TerminatedSame(s[1..]);
    }
  }
}
