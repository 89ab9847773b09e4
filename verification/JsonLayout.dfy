/** How the indenting writer lays a value out. */
module JsonLayout {
  import opened Numerals
  import opened JsonValue
  import opened JsonText

  const RIGHT_MARGIN: int := 74
  const INDENT_SIZE: nat := 3

  /** A value that is printed in one piece. */
  predicate Simple(v: Value) {
    match v
    case Arr(xs) => xs.NoItem?
    case Obj(ms) => ms.NoMember?
    case _ => true
  }

  predicate AllSimple(xs: Items) {
    match xs
    case NoItem => true
    case Item(x, tail) => Simple(x) && AllSimple(tail)
  }

  /** Elements on one line. */
  function Joined(xs: Items, first: bool): string
    requires ItemsNoReals(xs)
  {
    match xs
    case NoItem => ""
    case Item(x, tail) => (if first then "" else ", ") + Fast(x) + Joined(tail, false)
  }

  function OneLine(xs: Items): string
    requires ItemsNoReals(xs)
  {
    "[ " + Joined(xs, true) + " ]"
  }

  /** An array takes one line when its elements are simple and few, and the line is shorter than the margin. */
  predicate FitsLine(xs: Items)
    requires ItemsNoReals(xs)
  {
    AllSimple(xs) && 3 * Length(xs) < RIGHT_MARGIN && |OneLine(xs)| < RIGHT_MARGIN
  }

  function Deeper(indent: string): string {
    indent + "   "
  }

  /** The layout of a value in lines that start with `indent`. */
  function Layout(v: Value, indent: string): string
    requires NoReals(v)
    decreases v
  {
    match v
    case Arr(xs) =>
      if xs.NoItem? then "[]"
      else if FitsLine(xs) then OneLine(xs)
      else "[" + Lines(xs, Deeper(indent), true) + "\n" + indent + "]"
    case Obj(ms) =>
      if ms.NoMember? then "{}"
      else "{" + MemberLines(ms, Deeper(indent), true) + "\n" + indent + "}"
    case _ => Fast(v)
  }

  /** A line for each element. */
  function Lines(xs: Items, indent: string, first: bool): string
    requires ItemsNoReals(xs)
    decreases xs
  {
    match xs
    case NoItem => ""
    case Item(x, tail) => (if first then "" else ",") + ("\n" + indent) + Layout(x, indent) + Lines(tail, indent, false)
  }

  function MemberLines(ms: Members, indent: string, first: bool): string
    requires MembersNoReals(ms)
    decreases ms
  {
    match ms
    case NoMember => ""
    case Member(n, v, rest) =>
      (if first then "" else ",") + ("\n" + indent) + (Quoted(n) + " : " + Layout(v, indent))
        + MemberLines(rest, indent, false)
  }

  // ---------- where a text ends ----------

  /** A value can be written here: nothing was written yet, or there is a blank. */
  predicate Poised(document: string, indent: string) {
    if document == "" then indent == "" else document[|document| - 1] == ' '
  }

  /** A value, or a mark, was written last. */
  predicate Ended(document: string) {
    document != "" && document[|document| - 1] != ' ' && document[|document| - 1] != '\n'
  }

  lemma EndedBy(d: string, w: string)
    requires Ended(w)
    ensures Ended(d + w)
  {
  }

  lemma DecimalEnded(n: nat)
    ensures Ended(Decimal(n)) && Ended("-" + Decimal(n))
  {
    var s := Decimal(n);
    assert s[|s| - 1] in s;
  }

  lemma LayoutEnded(v: Value, indent: string)
    requires NoReals(v)
    ensures Ended(Layout(v, indent))
    ensures Simple(v) ==> Layout(v, indent) == Fast(v)
  {
    match v
    case Int(i) => DecimalEnded(if i < 0 then -i else i);
    case UInt(u) => DecimalEnded(u);
    case Str(s) => EndedBy("\"" + Escaped(s), "\"");
    case Bool(_) =>
    case Null =>
    case Arr(xs) =>
      if xs.Item? {
        if FitsLine(xs) {
          EndedBy("[ " + Joined(xs, true) + " ", "]");
          assert OneLine(xs) == ("[ " + Joined(xs, true) + " ") + "]";
        } else {
          EndedBy("[" + Lines(xs, Deeper(indent), true) + "\n" + indent, "]");
        }
      }
    case Obj(ms) =>
      if ms.Member? { EndedBy("{" + MemberLines(ms, Deeper(indent), true) + "\n" + indent, "}"); }
  }

  // ---------- elements by index ----------

  function At(xs: Items, i: nat): (v: Value)
    requires i < Length(xs)
    ensures v < xs
  {
    if i == 0 then xs.head else At(xs.tail, i - 1)
  }

  lemma {:induction false} AtNoReals(xs: Items, i: nat)
    requires ItemsNoReals(xs) && i < Length(xs)
    ensures NoReals(At(xs, i))
  {
    if i > 0 { AtNoReals(xs.tail, i - 1); }
  }

  /** The elements from an index on. */
  function From(xs: Items, i: nat): Items
    requires i <= Length(xs)
  {
    if i == 0 then xs else From(xs.tail, i - 1)
  }

  lemma {:induction false} FromNext(xs: Items, i: nat)
    requires ItemsNoReals(xs) && i <= Length(xs)
    ensures ItemsNoReals(From(xs, i)) && Length(From(xs, i)) == Length(xs) - i
    ensures i < Length(xs) ==> From(xs, i) == Item(At(xs, i), From(xs, i + 1))
    ensures i == Length(xs) ==> From(xs, i) == NoItem
  {
    if i > 0 { FromNext(xs.tail, i - 1); }
  }

  lemma {:induction false} SimpleAt(xs: Items, j: nat)
    requires j < Length(xs)
    ensures AllSimple(xs) ==> Simple(At(xs, j))
  {
    if j > 0 { SimpleAt(xs.tail, j - 1); }
  }

  lemma {:induction false} SimpleBy(xs: Items)
    requires forall j: nat :: j < Length(xs) ==> Simple(At(xs, j))
    ensures AllSimple(xs)
  {
    if xs.Item? {
      assert Simple(At(xs, 0));
      forall j: nat | j < Length(xs.tail)
        ensures Simple(At(xs.tail, j))
      {
        assert Simple(At(xs, j + 1));
      }
      SimpleBy(xs.tail);
    }
  }

  /** The length of all elements' texts. */
  function TextLength(xs: Items): nat
    requires ItemsNoReals(xs)
  {
    match xs
    case NoItem => 0
    case Item(x, tail) => |Fast(x)| + TextLength(tail)
  }

  lemma {:induction false} JoinedLength(xs: Items, first: bool)
    requires ItemsNoReals(xs) && (first ==> xs.Item?)
    ensures |Joined(xs, first)| == TextLength(xs) + 2 * (Length(xs) - if first then 1 else 0)
  {
    if xs.Item? { JoinedLength(xs.tail, false); }
  }

  /** The length counted for a line is its length. */
  lemma LineLength(xs: Items)
    requires ItemsNoReals(xs) && xs.Item?
    ensures |OneLine(xs)| == 4 + (Length(xs) - 1) * 2 + TextLength(xs)
  {
    JoinedLength(xs, true);
  }

  // ---------- layouts in progress ----------

  lemma ArrayLayout(xs: Items, indent: string)
    requires ItemsNoReals(xs)
    ensures xs.NoItem? ==> Layout(Arr(xs), indent) == "[]"
    ensures xs.Item? && FitsLine(xs) ==> Layout(Arr(xs), indent) == OneLine(xs)
    ensures xs.Item? && !FitsLine(xs) ==>
      Layout(Arr(xs), indent) == "[" + Lines(xs, Deeper(indent), true) + "\n" + indent + "]"
  {
  }

  /** `w` is the layout of an array up to an element. */
  ghost predicate LinesSoFar(w: string, xs: Items, i: nat, indent: string)
    requires ItemsNoReals(xs)
  {
    && i <= Length(xs) && ItemsNoReals(From(xs, i))
    && w + Lines(From(xs, i), indent, i == 0) == "[" + Lines(xs, indent, true)
  }

  lemma LinesStart(xs: Items, indent: string)
    requires ItemsNoReals(xs)
    ensures LinesSoFar("[", xs, 0, indent)
  {
  }

  lemma LineText(w: string, sep: string, b: string, c: string, more: string)
    ensures w + (sep + b + c + more) == (w + sep + b + c) + more
  {
  }

  lemma LinesNext(w: string, xs: Items, i: nat, indent: string)
    requires ItemsNoReals(xs) && LinesSoFar(w, xs, i, indent) && i < Length(xs)
    ensures NoReals(At(xs, i))
    ensures LinesSoFar(w + (if i == 0 then "" else ",") + ("\n" + indent) + Layout(At(xs, i), indent),
                       xs, i + 1, indent)
  {
    AtNoReals(xs, i);
    FromNext(xs, i);
    FromNext(xs, i + 1);
    hide Layout;
    hide From;
    var sep, b, c, more :=
      if i == 0 then "" else ",", "\n" + indent, Layout(At(xs, i), indent), Lines(From(xs, i + 1), indent, false);
    assert Lines(From(xs, i), indent, i == 0) == sep + b + c + more;
    LineText(w, sep, b, c, more);
  }

  lemma LinesEnd(w: string, xs: Items, indent: string)
    requires ItemsNoReals(xs) && LinesSoFar(w, xs, Length(xs), indent)
    ensures w == "[" + Lines(xs, indent, true)
  {
    FromNext(xs, Length(xs));
    assert w + "" == w;
  }

  /** `w` is an array's line up to an element. */
  ghost predicate JoinedSoFar(w: string, xs: Items, i: nat)
    requires ItemsNoReals(xs)
  {
    && i <= Length(xs) && ItemsNoReals(From(xs, i))
    && if i == 0 then w == "[" else w + Joined(From(xs, i), false) == "[ " + Joined(xs, true)
  }

  lemma JoinedNext(w: string, xs: Items, i: nat)
    requires ItemsNoReals(xs) && JoinedSoFar(w, xs, i) && i < Length(xs)
    ensures NoReals(At(xs, i))
    ensures JoinedSoFar(w + (if i == 0 then "" else ",") + " " + Fast(At(xs, i)), xs, i + 1)
  {
    AtNoReals(xs, i);
    FromNext(xs, i);
    FromNext(xs, i + 1);
    var c, more := Fast(At(xs, i)), Joined(From(xs, i + 1), false);
    hide Fast;
    hide From;
    if i == 0 {
      FromNone(xs);
      FirstText(c, more);
    } else {
      NextText(w, c, more);
    }
  }

  lemma FirstText(c: string, more: string)
    ensures "[" + "" + " " + c + more == "[ " + ("" + c + more)
  {
  }

  lemma NextText(w: string, c: string, more: string)
    ensures w + (", " + c + more) == w + "," + " " + c + more
  {
    assert ", " == "," + " ";
  }

  lemma FromNone(xs: Items)
    ensures From(xs, 0) == xs
  {
  }

  lemma JoinedEnd(w: string, xs: Items)
    requires ItemsNoReals(xs) && xs.Item? && JoinedSoFar(w, xs, Length(xs))
    ensures w + " " + "]" == OneLine(xs)
  {
    FromNext(xs, Length(xs));
    assert w + "" == w;
  }

  /** `w` is the layout of an object up to the members that are left. */
  ghost predicate MembersSoFar(w: string, ms: Members, rest: Members, first: bool, indent: string)
    requires MembersNoReals(ms) && MembersNoReals(rest)
  {
    w + MemberLines(rest, indent, first) == "{" + MemberLines(ms, indent, true)
  }

  lemma ObjectStart(ms: Members, indent: string)
    requires MembersNoReals(ms)
    ensures MembersSoFar("{", ms, ms, true, indent)
  {
  }

  lemma MembersNextLine(w: string, ms: Members, rest: Members, first: bool, indent: string)
    requires MembersNoReals(ms) && MembersNoReals(rest) && rest.Member? && MembersSoFar(w, ms, rest, first, indent)
    ensures NoReals(rest.value) && MembersNoReals(rest.rest)
    ensures MembersSoFar(w + (if first then "" else ",") + ("\n" + indent)
                           + (Quoted(rest.name) + " : " + Layout(rest.value, indent)), ms, rest.rest, false, indent)
  {
    hide Layout;
    hide Quoted;
    var sep, b := if first then "" else ",", "\n" + indent;
    var c, more := Quoted(rest.name) + " : " + Layout(rest.value, indent), MemberLines(rest.rest, indent, false);
    assert MemberLines(rest, indent, first) == sep + b + c + more;
    LineText(w, sep, b, c, more);
  }

  lemma MembersEndLine(w: string, ms: Members, first: bool, indent: string)
    requires MembersNoReals(ms) && MembersSoFar(w, ms, NoMember, first, indent)
    ensures w == "{" + MemberLines(ms, indent, true)
  {
    assert w + "" == w;
  }

  lemma ObjectLayout(ms: Members, indent: string)
    requires MembersNoReals(ms) && ms.Member?
    ensures Layout(Obj(ms), indent) == "{" + MemberLines(ms, Deeper(indent), true) + "\n" + indent + "}"
  {
  }

  // ---------- ends ----------

  lemma MarkEnded(d: string, b: string, mark: string)
    requires mark in {"[", "{"}
    ensures Ended(d + b + mark)
  {
  }

  lemma SeparatorEnded(d: string, sep: string)
    requires Ended(d) && sep in {"", ","}
    ensures Ended(d + sep)
  {
    assert d + "" == d;
  }

  lemma LayoutTail(d: string, v: Value, indent: string)
    requires NoReals(v)
    ensures Ended(d + Layout(v, indent))
  {
    LayoutEnded(v, indent);
    EndedBy(d, Layout(v, indent));
  }

  /** A new line is ready for a value. */
  lemma IndentPoised(d: string, outer: string, indent: string)
    requires indent == Deeper(outer)
    ensures Poised(d + ("\n" + indent), indent)
  {
  }

  lemma Undeeper(outer: string, indent: string)
    requires indent == Deeper(outer)
    ensures |indent| >= INDENT_SIZE && indent[..|indent| - INDENT_SIZE] == outer
  {
  }

  lemma SimpleChild(xs: Items, i: nat, indent: string)
    requires ItemsNoReals(xs) && AllSimple(xs) && i < Length(xs)
    ensures NoReals(At(xs, i)) && Layout(At(xs, i), indent) == Fast(At(xs, i))
  {
    AtNoReals(xs, i);
    SimpleAt(xs, i);
    LayoutEnded(At(xs, i), indent);
  }
}
