/** What escapes in strings stand for, and that the bytes they become are UTF-8. */
module JsonUtf8 {
  import opened Numerals
  import opened JsonText
  import opened JsonReader

  const MAX_CODE: int := 0x10FFFF

  predicate Surrogate(cp: nat) {
    0xD800 <= cp <= 0xDFFF
  }

  // ---------- reading UTF-8 ----------

  predicate Continues(c: char) {
    0x80 <= c as int < 0xC0
  }

  /** The six bits of a byte that goes on. */
  function Low(c: char): int {
    c as int - 0x80
  }

  /** The code point at the start of some bytes, as section 3 of RFC 3629 has it, in its shortest form only, and what
      follows. */
  function FromUtf8(s: string): Option<(int, string)> {
    if s == [] then None
    else
      var b := s[0] as int;
      if b < 0x80 then Some((b, s[1..]))
      else if 0xC0 <= b < 0xE0 && |s| >= 2 && Continues(s[1]) then
        Shortest((b - 0xC0) * 0x40 + Low(s[1]), 0x80, s[2..])
      else if 0xE0 <= b < 0xF0 && |s| >= 3 && Continues(s[1]) && Continues(s[2]) then
        Shortest(((b - 0xE0) * 0x40 + Low(s[1])) * 0x40 + Low(s[2]), 0x800, s[3..])
      else if 0xF0 <= b < 0xF8 && |s| >= 4 && Continues(s[1]) && Continues(s[2]) && Continues(s[3]) then
        Shortest((((b - 0xF0) * 0x40 + Low(s[1])) * 0x40 + Low(s[2])) * 0x40 + Low(s[3]), 0x10000, s[4..])
      else None
  }

  function Shortest(cp: int, least: int, rest: string): Option<(int, string)> {
    if least <= cp <= MAX_CODE then Some((cp, rest)) else None
  }

  /** A code point written as UTF-8 is bytes, and reads back, whatever follows. */
  lemma Utf8Read(cp: nat, rest: string)
    requires cp <= MAX_CODE
    ensures FromUtf8(Utf8(cp) + rest) == Some((cp, rest))
    ensures forall c :: c in Utf8(cp) ==> c as int <= 0xFF
  {
    var u := Utf8(cp);
    var s := u + rest;
    assert s[|u|..] == rest;
    Bits(cp);
  }

  lemma Bits(cp: nat)
    ensures cp == cp / 0x40 * 0x40 + cp % 0x40
    ensures cp == (cp / 0x1000 * 0x40 + cp / 0x40 % 0x40) * 0x40 + cp % 0x40
    ensures cp == ((cp / 0x40000 * 0x40 + cp / 0x1000 % 0x40) * 0x40 + cp / 0x40 % 0x40) * 0x40 + cp % 0x40
  {
    assert cp / 0x1000 == cp / 0x40 / 0x40;
    assert cp / 0x40000 == cp / 0x1000 / 0x40;
  }

  // ---------- escapes by number ----------

  /** A hexadecimal digit, in either case. */
  function HexOf(d: nat, lower: bool): char
    requires d < 16
  {
    if d < 10 then '0' + d as char else (if lower then 'a' else 'A') + (d - 10) as char
  }

  lemma HexRead(d: nat, lower: bool)
    requires d < 16
    ensures HexValue(HexOf(d, lower)) == Some(d)
  {
  }

  /** No other character is a digit. */
  lemma HexOnly(c: char)
    ensures HexValue(c).Some? <==> '0' <= c <= '9' || 'a' <= c <= 'f' || 'A' <= c <= 'F'
  {
  }

  /** Which case each of the four digits is in. */
  type Cases = c: seq<bool> | |c| == 4 witness [true, true, true, true]

  function Unit(u: nat, lower: Cases): (s: string)
    requires u < 0x10000
    ensures |s| == 4
  {
    [HexOf(u / 0x1000, lower[0]), HexOf(u / 0x100 % 0x10, lower[1]),
     HexOf(u / 0x10 % 0x10, lower[2]), HexOf(u % 0x10, lower[3])]
  }

  function EscapeOf(u: nat, lower: Cases): (s: string)
    requires u < 0x10000
    ensures |s| == 6 && s[0] == '\\' && s[1] == 'u' && s[2..] == Unit(u, lower)
  {
    ['\\', 'u'] + Unit(u, lower)
  }

  lemma UnitRead(u: nat, lower: Cases, tail: string)
    requires u < 0x10000
    ensures FourHex(Unit(u, lower) + tail) == Some(u)
  {
    HexRead(u / 0x1000, lower[0]);
    HexRead(u / 0x100 % 0x10, lower[1]);
    HexRead(u / 0x10 % 0x10, lower[2]);
    HexRead(u % 0x10, lower[3]);
    hide HexValue;
    hide HexOf;
    var s := Unit(u, lower) + tail;
    assert s[0] == Unit(u, lower)[0] && s[1] == Unit(u, lower)[1];
    assert s[2] == Unit(u, lower)[2] && s[3] == Unit(u, lower)[3];
    Sixteenths(u);
  }

  lemma Sixteenths(u: nat)
    ensures u == ((u / 0x1000 * 16 + u / 0x100 % 0x10) * 16 + u / 0x10 % 0x10) * 16 + u % 0x10
  {
    assert u / 0x100 == u / 0x10 / 0x10;
    assert u / 0x1000 == u / 0x100 / 0x10;
  }

  /** One code point as UTF-16: one unit, or a surrogate pair. */
  function Escape16(cp: nat, lower: Cases, lower2: Cases): string
    requires cp <= MAX_CODE
  {
    if cp < 0x10000 then EscapeOf(cp, lower)
    else EscapeOf(0xD800 + (cp - 0x10000) / 0x400, lower) + EscapeOf(0xDC00 + (cp - 0x10000) % 0x400, lower2)
  }

  lemma UnitDecoded(u: nat, lower: Cases, tail: string)
    requires u < 0x10000 && !(0xD800 <= u <= 0xDBFF)
    ensures Decoded(EscapeOf(u, lower) + tail) == Prefixed(Utf8(u), Decoded(tail))
  {
    hide Utf8;
    hide FourHex;
    hide Unit;
    var s := EscapeOf(u, lower) + tail;
    assert s[2..] == Unit(u, lower) + tail && s[6..] == tail;
    UnitRead(u, lower, tail);
    assert CodePoint(s[2..]) == Some((u, 4));
  }

  lemma PairDecoded(cp: nat, lower: Cases, lower2: Cases, tail: string)
    requires 0x10000 <= cp <= MAX_CODE
    ensures Decoded(Escape16(cp, lower, lower2) + tail) == Prefixed(Utf8(cp), Decoded(tail))
  {
    hide Utf8;
    hide FourHex;
    hide Unit;
    var u, v := 0xD800 + (cp - 0x10000) / 0x400, 0xDC00 + (cp - 0x10000) % 0x400;
    var e := EscapeOf(v, lower2);
    var s := EscapeOf(u, lower) + e + tail;
    assert s[2..] == Unit(u, lower) + (e + tail) && s[12..] == tail;
    UnitRead(u, lower, e + tail);
    var t := s[2..];
    assert t[4] == e[0] && t[5] == e[1] && t[6..] == Unit(v, lower2) + tail;
    UnitRead(v, lower2, tail);
    assert u % 0x400 == (cp - 0x10000) / 0x400 && v % 0x400 == (cp - 0x10000) % 0x400;
    assert CodePoint(t) == Some((cp, 10));
    assert s[2 + 10..] == tail;
  }

  /** A code point escaped in UTF-16, with digits in any case, is decoded to its UTF-8. */
  lemma EscapeDecoded16(cp: nat, lower: Cases, lower2: Cases, tail: string)
    requires cp <= MAX_CODE && !Surrogate(cp)
    ensures Decoded(Escape16(cp, lower, lower2) + tail) == Prefixed(Utf8(cp), Decoded(tail))
  {
    if cp < 0x10000 {
      UnitDecoded(cp, lower, tail);
    } else {
      PairDecoded(cp, lower, lower2, tail);
    }
  }

  /** No second escape is behind the one at the start. */
  predicate Unpaired(s: string) {
    |s| < 12 || s[6] != '\\' || s[7] != 'u' || FourHex(s[8..]) == None
  }

  /** An escape needs four digits, and one for a high surrogate another escape behind it; a low surrogate alone is taken
      as it is. */
  lemma EscapeRefused(s: string)
    requires |s| >= 2 && s[0] == '\\' && s[1] == 'u'
    ensures FourHex(s[2..]) == None ==> Decoded(s) == None
    ensures FourHex(s[2..]).Some? && 0xD800 <= FourHex(s[2..]).value <= 0xDBFF && Unpaired(s) ==> Decoded(s) == None
  {
    hide FourHex;
    if |s| >= 12 { assert s[2..][6..] == s[8..]; }
  }

  // ---------- escapes by letter ----------

  /** What stands for what behind a backslash. */
  lemma LetterDecoded(tail: string)
    ensures Decoded("\\\"" + tail) == Prefixed("\"", Decoded(tail))
    ensures Decoded("\\\\" + tail) == Prefixed("\\", Decoded(tail))
    ensures Decoded("\\/" + tail) == Prefixed("/", Decoded(tail))
    ensures Decoded("\\b" + tail) == Prefixed([8 as char], Decoded(tail))
    ensures Decoded("\\t" + tail) == Prefixed([9 as char], Decoded(tail))
    ensures Decoded("\\n" + tail) == Prefixed([10 as char], Decoded(tail))
    ensures Decoded("\\f" + tail) == Prefixed([12 as char], Decoded(tail))
    ensures Decoded("\\r" + tail) == Prefixed([13 as char], Decoded(tail))
  {
    Behind('"', tail);
    Behind('\\', tail);
    Behind('/', tail);
    Behind('b', tail);
    Behind('t', tail);
    Behind('n', tail);
    Behind('f', tail);
    Behind('r', tail);
  }

  lemma Behind(c: char, tail: string)
    ensures ['\\', c] + tail != [] && (['\\', c] + tail)[2..] == tail
    ensures c != 'u' && Unescape(c).Some? ==>
      Decoded(['\\', c] + tail) == Prefixed([Unescape(c).value], Decoded(tail))
    ensures c != 'u' && Unescape(c).None? ==> Decoded(['\\', c] + tail) == None
  {
  }

  /** Any other letter is refused, and so is a backslash at the end; any other character stands for itself. */
  lemma OtherDecoded(c: char, tail: string)
    ensures c !in {'"', '\\', '/', 'b', 't', 'n', 'f', 'r', 'u'} ==> Decoded(['\\', c] + tail) == None
    ensures Decoded("\\") == None
    ensures c != '"' && c != '\\' ==> Decoded([c] + tail) == Prefixed([c], Decoded(tail))
  {
    Behind(c, tail);
    assert ([c] + tail)[1..] == tail;
  }

  // ---------- whole strings ----------

  /** Code points, each with the case of its digits. */
  datatype Code = Code(cp: nat, lower: Cases, lower2: Cases)

  predicate Proper(cs: seq<Code>) {
    forall i :: 0 <= i < |cs| ==> cs[i].cp <= MAX_CODE && !Surrogate(cs[i].cp)
  }

  function AllEscaped(cs: seq<Code>): string
    requires Proper(cs)
  {
    if cs == [] then "" else Escape16(cs[0].cp, cs[0].lower, cs[0].lower2) + AllEscaped(cs[1..])
  }

  /** The code points of some bytes. */
  function AllRead(s: string): Option<seq<int>>
    decreases |s|
  {
    if s == [] then Some([])
    else match FromUtf8(s)
      case None => None
      case Some((cp, rest)) =>
        if |rest| >= |s| then None
        else match AllRead(rest)
          case None => None
          case Some(cps) => Some([cp] + cps)
  }

  function Points(cs: seq<Code>): seq<int> {
    if cs == [] then [] else [cs[0].cp] + Points(cs[1..])
  }

  lemma OneRead(cp: nat, rest: string)
    requires cp <= MAX_CODE
    ensures AllRead(Utf8(cp) + rest) == match AllRead(rest) case None => None case Some(cps) => Some([cp] + cps)
  {
    Utf8Read(cp, rest);
    assert |Utf8(cp)| > 0;
    hide Utf8;
    hide FromUtf8;
  }

  /** A text of any code points, all of them escaped, is decoded to bytes that are the UTF-8 of these code points. */
  lemma {:induction false} EscapesReadBack(cs: seq<Code>)
    requires Proper(cs)
    ensures Decoded(AllEscaped(cs)).Some? && AllRead(Decoded(AllEscaped(cs)).value) == Some(Points(cs))
    decreases |cs|
  {
    if cs != [] {
      var c, tail := cs[0], AllEscaped(cs[1..]);
      EscapesReadBack(cs[1..]);
      EscapeDecoded16(c.cp, c.lower, c.lower2, tail);
      OneRead(c.cp, Decoded(tail).value);
    }
  }

  // ---------- what is printed ----------

  /** A printed string has no control characters, whatever it was; inside its quotes every quote has a backslash before
      it. */
  lemma {:induction false} PrintedClean(s: string)
    ensures forall c :: c in Quoted(s) ==> c == NUL || c as int >= 0x20
    decreases |s|
  {
    EscapedClean(s);
  }

  lemma {:induction false} EscapedClean(s: string)
    ensures forall c :: c in Escaped(s) ==> c == NUL || c as int >= 0x20
    decreases |s|
  {
    if s != [] {
      EscapedClean(s[1..]);
      assert forall c :: c in Escape(s[0]) ==> c == NUL || c as int >= 0x20;
    }
  }
}
