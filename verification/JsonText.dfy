/** JSON values as text: the compact writer. */
module JsonText {
  import opened Numerals
  import opened JsonValue

  const NUL: char := '\0'

  /** A character, as a signed one, between one and 31. */
  predicate IsControl(c: char) {
    0 < c as int <= 0x1F
  }

  function HexDigit(d: nat): char
    requires d < 16
  {
    if d < 10 then '0' + d as char else 'A' + (d - 10) as char
  }

  /** What is printed for a character inside quotes. */
  function Escape(c: char): (e: string)
    ensures e != []
  {
    if c == '"' then "\\\""
    else if c == '\\' then "\\\\"
    else if c as int == 8 then "\\b"
    else if c as int == 12 then "\\f"
    else if c == '\n' then "\\n"
    else if c == '\r' then "\\r"
    else if c == '\t' then "\\t"
    else if IsControl(c) then ['\\', 'u', '0', '0', HexDigit(c as int / 16), HexDigit(c as int % 16)]
    else [c]
  }

  function Escaped(s: string): string {
    if s == [] then "" else Escape(s[0]) + Escaped(s[1..])
  }

  function Quoted(s: string): string {
    "\"" + Escaped(s) + "\""
  }

  predicate NeedsEscape(c: char) {
    c in {'"', '\\', '\n', '\r', '\t', 8 as char, 12 as char} || IsControl(c)
  }

  lemma {:induction false} PlainEscaped(s: string)
    requires forall c :: c in s ==> !NeedsEscape(c)
    ensures Escaped(s) == s
  {
    if s != [] {
      assert s[0] in s && s == [s[0]] + s[1..];
      PlainEscaped(s[1..]);
    }
  }

  lemma {:induction false} EscapedAppend(s: string, t: string)
    ensures Escaped(s + t) == Escaped(s) + Escaped(t)
  {
    if s == [] {
      assert s + t == t;
    } else {
      assert (s + t)[0] == s[0] && (s + t)[1..] == s[1..] + t;
      EscapedAppend(s[1..], t);
    }
  }

  lemma EscapedNext(s: string, i: nat)
    requires i < |s|
    ensures Escaped(s[..i + 1]) == Escaped(s[..i]) + Escape(s[i])
  {
    hide Escape;
    assert s[..i + 1] == s[..i] + [s[i]];
    EscapedAppend(s[..i], [s[i]]);
    assert Escaped([s[i]]) == Escape(s[i]) + Escaped([]);
  }

  /** Quotes a string; a string without special characters is copied. */
  method ValueToQuotedString(s: string) returns (r: string)
    ensures r == Quoted(s)
  {
    if forall c :: c in s ==> !NeedsEscape(c) {
      PlainEscaped(s);
      return "\"" + s + "\"";
    }
    hide Escape;
    hide NeedsEscape;
    r := "\"";
    for i := 0 to |s|
      invariant r == "\"" + Escaped(s[..i])
    {
      EscapedNext(s, i);
      assert "\"" + (Escaped(s[..i]) + Escape(s[i])) == ("\"" + Escaped(s[..i])) + Escape(s[i]);
      r := r + Escape(s[i]);
    }
    assert s[..|s|] == s;
    r := r + "\"";
  }

  function IntText(i: int): string {
    if i < 0 then "-" + Decimal(-i) else Decimal(i)
  }

  // ---------- values ----------

  /** No number of the value is a real, whose printing is not modelled. */
  predicate NoReals(v: Value) {
    match v
    case Real(_) => false
    case Arr(xs) => ItemsNoReals(xs)
    case Obj(ms) => MembersNoReals(ms)
    case _ => true
  }

  predicate ItemsNoReals(xs: Items) {
    match xs
    case NoItem => true
    case Item(x, tail) => NoReals(x) && ItemsNoReals(tail)
  }

  predicate MembersNoReals(ms: Members) {
    match ms
    case NoMember => true
    case Member(_, v, rest) => NoReals(v) && MembersNoReals(rest)
  }

  /** The compact text of a value. */
  function Fast(v: Value): string
    requires NoReals(v)
  {
    match v
    case Null => "null"
    case Int(i) => IntText(i)
    case UInt(u) => Decimal(u)
    case Str(s) => Quoted(s)
    case Bool(b) => if b then "true" else "false"
    case Arr(xs) => "[" + FastItems(xs, true) + "]"
    case Obj(ms) => "{" + FastMembers(ms, true) + "}"
  }

  function FastItems(xs: Items, first: bool): string
    requires ItemsNoReals(xs)
  {
    match xs
    case NoItem => ""
    case Item(x, tail) => (if first then "" else ",") + Fast(x) + FastItems(tail, false)
  }

  function FastMembers(ms: Members, first: bool): string
    requires MembersNoReals(ms)
  {
    match ms
    case NoMember => ""
    case Member(n, v, rest) => (if first then "" else ",") + Quoted(n) + ":" + Fast(v) + FastMembers(rest, false)
  }

  lemma Regrouped(d: string, a: string, b: string, c: string, e: string, last: string)
    ensures d + (a + b + c + e + last) == (d + a + b + c + e) + last
    ensures c == e == "" ==> d + (a + b + last) == (d + a + b) + last
  {
  }

  class FastWriter {
    var document: string

    constructor ()
      ensures document == ""
    {
      document := "";
    }

    method Write(root: Value) returns (text: string)
      requires NoReals(root)
      modifies this
      ensures text == Fast(root) + "\n"
    {
      document := "";
      WriteValue(root);
      document := document + "\n";
      text := document;
    }

    method WriteValue(value: Value)
      requires NoReals(value)
      modifies this
      ensures document == old(document) + Fast(value)
      decreases value
    {
      match value
      case Null => document := document + "null";
      case Int(i) => document := document + IntText(i);
      case UInt(u) =>
        var s := UintToString(u);
        document := document + s;
      case Str(t) =>
        var s := ValueToQuotedString(t);
        document := document + s;
      case Bool(b) => document := document + if b then "true" else "false";
      case Arr(xs) =>
        document := document + "[";
        WriteItems(xs);
        document := document + "]";
      case Obj(ms) =>
        document := document + "{";
        WriteMembers(ms);
        document := document + "}";
    }

    method WriteItems(xs: Items)
      requires ItemsNoReals(xs)
      modifies this
      ensures document == old(document) + FastItems(xs, true)
      decreases xs
    {
      hide Quoted;
      hide Fast;
      var rest, first := xs, true;
      while rest.Item?
        invariant ItemsNoReals(rest) && (rest == xs || rest < xs)
        invariant document + FastItems(rest, first) == old(document) + FastItems(xs, true)
        decreases rest
      {
        ghost var d, last := document, FastItems(rest.tail, false);
        document := document + if first then "" else ",";
        WriteValue(rest.head);
        Regrouped(d, if first then "" else ",", Fast(rest.head), "", "", last);
        rest, first := rest.tail, false;
      }
      assert document + "" == document;
    }

    method WriteMembers(ms: Members)
      requires MembersNoReals(ms)
      modifies this
      ensures document == old(document) + FastMembers(ms, true)
      decreases ms
    {
      hide Quoted;
      hide Fast;
      var rest, first := ms, true;
      while rest.Member?
        invariant MembersNoReals(rest) && (rest == ms || rest < ms)
        invariant document + FastMembers(rest, first) == old(document) + FastMembers(ms, true)
        decreases rest
      {
        ghost var d, last := document, FastMembers(rest.rest, false);
        document := document + if first then "" else ",";
        var s := ValueToQuotedString(rest.name);
        document := document + s;
        document := document + ":";
        WriteValue(rest.value);
        Regrouped(d, if first then "" else ",", Quoted(rest.name), ":", Fast(rest.value), last);
        rest, first := rest.rest, false;
      }
      assert document + "" == document;
    }
  }
}
