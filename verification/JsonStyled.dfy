/** The indenting writer: its text has the tokens of the compact one. */
module JsonStyled {
  import opened Numerals
  import opened JsonValue
  import opened JsonText
  import opened JsonLexer
  import opened JsonLayout

  /** The tokens of the first `n` elements. */
  function FirstTokens(xs: Items, n: nat): seq<Token>
    requires ItemsNoReals(xs) && n <= Length(xs)
  {
    if n == 0 then []
    else
      AtNoReals(xs, n - 1);
      FirstTokens(xs, n - 1) + (if n == 1 then [] else COMMA) + Tokens(At(xs, n - 1))
  }

  lemma {:induction false} FirstTokensAll(xs: Items, n: nat)
    requires ItemsNoReals(xs) && xs.Item? && 0 < n <= Length(xs)
    ensures FirstTokens(xs, n) == Tokens(xs.head) + (if n == 1 then [] else COMMA + FirstTokens(xs.tail, n - 1))
    decreases n
  {
    if n > 1 {
      FirstTokensAll(xs, n - 1);
      AtNoReals(xs, n - 1);
      var t := Tokens(At(xs, n - 1));
      if n == 2 {
        assert FirstTokens(xs.tail, 1) == [] + [] + t;
      } else {
        assert FirstTokens(xs.tail, n - 1) == FirstTokens(xs.tail, n - 2) + COMMA + t;
      }
    }
  }

  lemma CommaFirst(xs: Items)
    requires ItemsNoReals(xs) && xs.Item?
    ensures ItemTokens(xs, false) == COMMA + ItemTokens(xs, true)
  {
    hide Tokens;
    var t, m := Tokens(xs.head), ItemTokens(xs.tail, false);
    assert COMMA + t + m == COMMA + ([] + t + m);
  }

  lemma {:induction false} AllTokens(xs: Items)
    requires ItemsNoReals(xs)
    ensures FirstTokens(xs, Length(xs)) == ItemTokens(xs, true)
    decreases xs
  {
    hide Tokens;
    if xs.Item? {
      hide FirstTokens;
      FirstTokensAll(xs, Length(xs));
      AllTokens(xs.tail);
      if xs.tail.Item? {
        CommaFirst(xs.tail);
      }
      assert [] + Tokens(xs.head) == Tokens(xs.head);
    }
  }

  /** The collected texts spell the elements. */
  ghost predicate Children(cs: seq<string>, xs: Items, n: nat)
    requires ItemsNoReals(xs)
  {
    n <= Length(xs) && |cs| == n && forall j :: 0 <= j < n ==> Child(cs[j], xs, j)
  }

  ghost predicate Child(w: string, xs: Items, j: nat)
    requires ItemsNoReals(xs)
  {
    j < Length(xs) && NoReals(At(xs, j)) && w == Fast(At(xs, j)) && Spells(w, Tokens(At(xs, j)))
  }

  predicate AllBlank(b: string) {
    forall c :: c in b ==> IsSpace(c)
  }

  // ---------- one step of a list ----------

  /** The text of a list so far: everything may follow an opening bracket, the end of a number an element. */
  ghost predicate SoFar(w: string, ts: seq<Token>, first: bool) {
    if first then Free(w, ts) else Spells(w, ts)
  }

  /** A comma but for the first, blanks, and an element. */
  lemma NextElement(w: string, ts: seq<Token>, first: bool, blanks: string, c: string, cts: seq<Token>)
    requires SoFar(w, ts, first) && AllBlank(blanks) && Spells(c, cts)
    ensures SoFar(w + (if first then "" else ",") + blanks + c, ts + (if first then [] else COMMA) + cts, false)
  {
    hide Spells;
    hide Free;
    Blanks(blanks);
    var v, us := w + (if first then "" else ","), ts + (if first then [] else COMMA);
    if first {
      assert w + "" == w && ts + [] == ts;
    } else {
      Mark(',', ArraySeparator);
      SpellsThen(w, ts, ",", COMMA);
    }
    FreeThen(v, us, blanks, []);
    assert us + [] == us;
    FreeThen(v + blanks, us, c, cts);
  }

  /** The opening mark, behind blanks. */
  lemma Opened(blanks: string, c: char, kind: TokenKind)
    requires AllBlank(blanks) && (c, kind) in {('{', ObjectBegin), ('[', ArrayBegin)}
    ensures SoFar(blanks + [c], [Token(kind, [c])], true)
  {
    hide Spells;
    hide Free;
    Blanks(blanks);
    Mark(c, kind);
    FreeThen(blanks, [], [c], [Token(kind, [c])]);
    assert [] + [Token(kind, [c])] == [Token(kind, [c])];
  }

  lemma Closed(w: string, ts: seq<Token>, blanks: string, c: char, kind: TokenKind)
    requires Spells(w, ts) && AllBlank(blanks) && (c, kind) in {('}', ObjectEnd), (']', ArrayEnd)}
    ensures Spells(w + blanks + [c], ts + [Token(kind, [c])])
  {
    var ends := blanks + [c];
    assert blanks != [] ==> blanks[0] in blanks && ends[0] == blanks[0];
    assert Ends(ends);
    hide Spells;
    hide Free;
    Blanks(blanks);
    Mark(c, kind);
    FreeThen(blanks, [], [c], [Token(kind, [c])]);
    assert [] + [Token(kind, [c])] == [Token(kind, [c])];
    SpellsThen(w, ts, ends, [Token(kind, [c])]);
    FreeSpells(w + ends, ts + [Token(kind, [c])]);
    assert w + ends == w + blanks + [c];
  }

  /** The texts of the first elements are collected, and their lengths counted. */
  ghost predicate Collected(cs: seq<string>, xs: Items, n: nat, length: int)
    requires ItemsNoReals(xs)
  {
    && Children(cs, xs, n) && ItemsNoReals(From(xs, n))
    && length + TextLength(From(xs, n)) == 4 + (Length(xs) - 1) * 2 + TextLength(xs)
  }

  lemma CollectStarts(xs: Items)
    requires ItemsNoReals(xs)
    ensures Collected([], xs, 0, 4 + (Length(xs) - 1) * 2)
  {
  }

  lemma CollectNext(cs: seq<string>, xs: Items, n: nat, length: int, indent: string)
    requires ItemsNoReals(xs) && AllSimple(xs) && n < Length(xs) && Collected(cs, xs, n, length)
    ensures |cs| == n && NoReals(At(xs, n)) && Simple(At(xs, n))
    ensures var w := Layout(At(xs, n), indent);
      Collected(cs + [w], xs, n + 1, length + |w|)
  {
    AtNoReals(xs, n);
    FromNext(xs, n);
    FromNext(xs, n + 1);
    SimpleAt(xs, n);
    SimpleChild(xs, n, indent);
    FastSpelled(At(xs, n));
    hide Spells;
    hide Layout;
    hide Fast;
    hide From;
    hide Tokens;
    var w := Layout(At(xs, n), indent);
    forall j | 0 <= j < n + 1
      ensures Child((cs + [w])[j], xs, j)
    {
      if j < n { assert Child(cs[j], xs, j); }
    }
  }

  lemma CollectEnds(cs: seq<string>, xs: Items, length: int)
    requires ItemsNoReals(xs) && xs.Item? && Collected(cs, xs, Length(xs), length)
    ensures Children(cs, xs, Length(xs)) && length == |OneLine(xs)|
  {
    FromNext(xs, Length(xs));
    LineLength(xs);
  }

  class StyledWriter {
    var document: string
    var childValues: seq<string>
    var addChildValues: bool
    var indentString: string

    constructor ()
      ensures document == "" && !addChildValues
    {
      document, childValues, addChildValues, indentString := "", [], false, "";
    }

    ghost predicate Indented()
      reads `indentString
    {
      forall c :: c in indentString ==> c == ' '
    }

    /** The text is laid out as `Layout` says, and has the tokens of the value. */
    method Write(root: Value) returns (text: string)
      requires NoReals(root)
      modifies this
      ensures text == Layout(root, "") + "\n" && Lex(text) == Tokens(root)
    {
      document := "";
      addChildValues := false;
      indentString := "";
      ghost var w := WriteValue(root);
      document := document + "\n";
      text := document;
      assert Lex("\n") == [] by {
        assert SkipSpaces("\n") == [];
      }
      assert text == w + "\n" && Tokens(root) + [] == Tokens(root);
    }

    method PushValue(value: string)
      modifies `document, `childValues
      ensures addChildValues ==> childValues == old(childValues) + [value] && document == old(document)
      ensures !addChildValues ==> childValues == old(childValues) && document == old(document) + value
    {
      if addChildValues {
        childValues := childValues + [value];
      } else {
        document := document + value;
      }
    }

    /** Starts a line, unless the text ends with a blank. */
    method WriteIndent() returns (ghost b: string)
      requires Indented()
      modifies `document
      ensures document == old(document) + b && AllBlank(b)
      ensures Poised(old(document), indentString) ==> b == ""
      ensures Ended(old(document)) ==> b == "\n" + indentString
    {
      b := "";
      if document != "" {
        var last := document[|document| - 1];
        if last == ' ' {
          assert document + "" == document;
          return;
        }
        if last != '\n' {
          document := document + "\n";
          b := "\n";
        }
      }
      ghost var d := document;
      document := document + indentString;
      b := b + indentString;
    }

    method WriteWithIndent(value: string) returns (ghost b: string)
      requires Indented()
      modifies `document
      ensures document == old(document) + b + value && AllBlank(b)
      ensures Poised(old(document), indentString) ==> b == ""
      ensures Ended(old(document)) ==> b == "\n" + indentString
    {
      b := WriteIndent();
      document := document + value;
    }

    method Indent()
      requires Indented()
      modifies `indentString
      ensures Indented() && |indentString| == |old(indentString)| + INDENT_SIZE && old(indentString) <= indentString
      ensures indentString == Deeper(old(indentString))
    {
      indentString := indentString + "   ";
    }

    method Unindent()
      requires Indented() && |indentString| >= INDENT_SIZE
      modifies `indentString
      ensures Indented() && indentString == old(indentString)[..|old(indentString)| - INDENT_SIZE]
    {
      indentString := indentString[..|indentString| - INDENT_SIZE];
      assert forall c :: c in indentString ==> c in old(indentString);
    }

    /** Writes a value: to the collected child texts when these are collected, and to the document otherwise. */
    method WriteValue(value: Value) returns (ghost w: string)
      requires NoReals(value) && Indented() && (addChildValues ==> Simple(value))
      requires !addChildValues ==> Poised(document, indentString)
      modifies this
      ensures Indented() && indentString == old(indentString) && addChildValues == old(addChildValues)
      ensures Spells(w, Tokens(value)) && w == Layout(value, indentString)
      ensures addChildValues ==> childValues == old(childValues) + [w] && document == old(document)
      ensures !addChildValues ==> document == old(document) + w
      decreases value, 2
    {
      hide Spells;
      hide Free;
      LayoutEnded(value, indentString);
      if value.Arr? {
        w := WriteArrayValue(value.items);
      } else if value.Obj? && value.members.Member? {
        w := WriteObject(value.members);
      } else if value.Obj? {
        PushValue("{}");
        w := "{}";
        EmptyObject();
      } else {
        FastSpelled(value);
        w := Fast(value);
        var text := ScalarText(value);
        PushValue(text);
      }
    }

    method WriteArrayValue(xs: Items) returns (ghost w: string)
      requires ItemsNoReals(xs) && Indented() && (addChildValues ==> xs.NoItem?)
      requires !addChildValues ==> Poised(document, indentString)
      modifies this
      ensures Indented() && indentString == old(indentString) && addChildValues == old(addChildValues)
      ensures Spells(w, Tokens(Arr(xs))) && w == Layout(Arr(xs), indentString)
      ensures addChildValues ==> childValues == old(childValues) + [w] && document == old(document)
      ensures !addChildValues ==> document == old(document) + w
      decreases xs, 3
    {
      ArrayLayout(xs, indentString);
      hide *;
      if xs.NoItem? {
        PushValue("[]");
        w := "[]";
        EmptyArray();
        return;
      }
      var multi := IsMultineArray(xs);
      if multi {
        w := WriteLines(xs);
      } else {
        ChildCount(childValues, xs);
        assert |childValues| == Length(xs);
        w := WriteOneLine(xs);
      }
    }

    /** Decides whether an array takes several lines. The texts of its elements are collected where all are simple,
        and then there is one for each. */
    method IsMultineArray(xs: Items) returns (multi: bool)
      requires ItemsNoReals(xs) && xs.Item? && Indented() && !addChildValues
      modifies this
      ensures Indented() && indentString == old(indentString) && !addChildValues && document == old(document)
      ensures !multi || childValues != [] ==> Children(childValues, xs, Length(xs)) && AllSimple(xs)
      ensures multi <==> !FitsLine(xs)
      decreases xs, 2
    {
      hide Spells;
      hide OneLine;
      var size := Length(xs);
      multi := size * 3 >= RIGHT_MARGIN;
      childValues := [];
      var index: nat := 0;
      while index < size && !multi
        invariant index <= size && childValues == [] && Indented() && !addChildValues
        invariant !multi ==> forall j: nat :: j < index ==> Simple(At(xs, j))
        invariant multi ==> size * 3 >= RIGHT_MARGIN || !AllSimple(xs)
        invariant size * 3 >= RIGHT_MARGIN ==> multi
        invariant document == old(document) && indentString == old(indentString)
      {
        var child := At(xs, index);
        SimpleAt(xs, index);
        multi := !Simple(child);
        index := index + 1;
      }
      if !multi {
        SimpleBy(xs);
        multi := Collect(xs);
      }
    }

    /** Collects the texts of simple elements, and tells whether they are too long for a line. */
    method Collect(xs: Items) returns (multi: bool)
      requires ItemsNoReals(xs) && xs.Item? && Indented() && !addChildValues && childValues == [] && AllSimple(xs)
      modifies this
      ensures Indented() && indentString == old(indentString) && !addChildValues && document == old(document)
      ensures Children(childValues, xs, Length(xs))
      ensures multi <==> |OneLine(xs)| >= RIGHT_MARGIN
      decreases xs, 0
    {
      CollectStarts(xs);
      hide *;
      var size := Length(xs);
      addChildValues := true;
      var lineLength := 4 + (size - 1) * 2;
      var index: nat := 0;
      while index < size
        invariant index <= size && Indented() && addChildValues
        invariant Collected(childValues, xs, index, lineLength)
        invariant document == old(document) && indentString == old(indentString)
      {
        CollectNext(childValues, xs, index, lineLength, indentString);
        ghost var w := WriteValue(At(xs, index));
        lineLength := lineLength + |childValues[index]|;
        index := index + 1;
      }
      CollectEnds(childValues, xs, lineLength);
      addChildValues := false;
      multi := lineLength >= RIGHT_MARGIN;
    }

    method WriteLines(xs: Items) returns (ghost w: string)
      requires ItemsNoReals(xs) && xs.Item? && Indented() && !addChildValues && Poised(document, indentString)
      requires childValues != [] ==> Children(childValues, xs, Length(xs)) && AllSimple(xs)
      modifies this
      ensures Indented() && indentString == old(indentString) && !addChildValues
      ensures Spells(w, Tokens(Arr(xs))) && document == old(document) + w
      ensures w == "[" + Lines(xs, Deeper(indentString), true) + "\n" + indentString + "]"
      decreases xs, 1
    {
      hide *;
      ghost var ind := indentString;
      ghost var b := WriteWithIndent("[");
      Opened(b, '[', ArrayBegin);
      w := b + "[";
      assert w == "[";
      MarkEnded(old(document), b, "[");
      Indent();
      ghost var inner := indentString;
      var hasChildValue := childValues != [];
      var size := Length(xs);
      ghost var open := [Token(ArrayBegin, "[")];
      FirstNone(xs, open);
      LinesStart(xs, inner);
      var index: nat := 0;
      while index < size
        invariant index <= size && Indented() && !addChildValues && indentString == inner
        invariant hasChildValue ==> Children(childValues, xs, Length(xs)) && AllSimple(xs)
        invariant document == old(document) + w && SoFar(w, open + FirstTokens(xs, index), index == 0)
        invariant Ended(document) && LinesSoFar(w, xs, index, inner)
      {
        ghost var c;
        b, c := WriteElement(xs, index, hasChildValue, ind);
        NextElement(w, open + FirstTokens(xs, index), index == 0, b, c, Tokens(At(xs, index)));
        FirstNext(open, xs, index);
        TextNext(old(document), w, if index == 0 then "" else ",", b, "", "", c);
        LinesNext(w, xs, index, inner);
        w := w + (if index == 0 then "" else ",") + b + c;
        index := index + 1;
      }
      LinesEnd(w, xs, inner);
      Unindent();
      Undeeper(ind, inner);
      b := WriteWithIndent("]");
      ItemsOver(w, xs, index);
      Closed(w, open + FirstTokens(xs, index), b, ']', ArrayEnd);
      assert old(document) + w + b + "]" == old(document) + (w + b + "]");
      assert w + ("\n" + ind) + "]" == w + "\n" + ind + "]";
      w := w + b + "]";
    }

    /** One element on its line, from the texts collected or anew. */
    method WriteElement(xs: Items, index: nat, hasChildValue: bool, ghost outer: string)
      returns (ghost b: string, ghost c: string)
      requires ItemsNoReals(xs) && index < Length(xs) && Indented() && !addChildValues
      requires Ended(document) && indentString == Deeper(outer)
      requires hasChildValue ==> Children(childValues, xs, Length(xs)) && AllSimple(xs)
      modifies this
      ensures Indented() && indentString == old(indentString) && !addChildValues
      ensures hasChildValue ==> childValues == old(childValues)
      ensures NoReals(At(xs, index)) && c == Layout(At(xs, index), indentString) && Spells(c, Tokens(At(xs, index)))
      ensures b == "\n" + indentString && AllBlank(b)
      ensures document == (((old(document) + if index == 0 then "" else ",") + b + "") + "") + c && Ended(document)
      decreases xs, 0
    {
      hide *;
      AtNoReals(xs, index);
      ghost var sep := if index == 0 then "" else ",";
      SeparatorEnded(document, sep);
      document := document + if index == 0 then "" else ",";
      ghost var d := document;
      if hasChildValue {
        ChildAt(childValues, xs, index);
        SimpleChild(xs, index, indentString);
        c := childValues[index];
        b := WriteWithIndent(childValues[index]);
      } else {
        IndentPoised(document, outer, indentString);
        b := WriteIndent();
        c := WriteValue(At(xs, index));
      }
      LayoutTail(d + b, At(xs, index), indentString);
      assert ((d + b + "") + "") + c == d + b + c;
    }

    method WriteOneLine(xs: Items) returns (ghost w: string)
      requires ItemsNoReals(xs) && xs.Item? && Children(childValues, xs, Length(xs))
      modifies `document
      ensures Spells(w, Tokens(Arr(xs))) && document == old(document) + w && w == OneLine(xs)
    {
      FromNext(xs, 0);
      assert JoinedSoFar("[", xs, 0);
      hide *;
      document := document + "[ ";
      BlankTexts();
      Opened("", '[', ArrayBegin);
      w := "" + "[";
      TextOne(old(document), w, "");
      var size := Length(xs);
      ghost var open := [Token(ArrayBegin, "[")];
      FirstNone(xs, open);
      for index := 0 to size
        invariant document == if index == 0 then old(document) + w + " " else old(document) + w
        invariant SoFar(w, open + FirstTokens(xs, index), index == 0) && JoinedSoFar(w, xs, index)
      {
        if index > 0 {
          document := document + ", ";
        }
        AtNoReals(xs, index);
        ChildAt(childValues, xs, index);
        var c := childValues[index];
        TextOne(old(document), w, c);
        document := document + c;
        NextElement(w, open + FirstTokens(xs, index), index == 0, " ", c, Tokens(At(xs, index)));
        FirstNext(open, xs, index);
        JoinedNext(w, xs, index);
        w := w + (if index == 0 then "" else ",") + " " + c;
      }
      TextOne(old(document), w, "");
      document := document + " ]";
      ItemsOver(w, xs, size);
      Closed(w, open + FirstTokens(xs, size), " ", ']', ArrayEnd);
      JoinedEnd(w, xs);
      w := w + " " + "]";
    }

    method ScalarText(value: Value) returns (text: string)
      requires NoReals(value) && !value.Arr? && !value.Obj?
      ensures text == Fast(value)
    {
      match value
      case Null => text := "null";
      case Int(i) => text := IntText(i);
      case UInt(u) => text := UintToString(u);
      case Str(s) => text := ValueToQuotedString(s);
      case Bool(b) => text := if b then "true" else "false";
    }

    /** One member on its line. */
    method WriteMember(n: string, v: Value, first: bool, ghost outer: string) returns (ghost b: string, ghost c: string)
      requires NoReals(v) && Indented() && !addChildValues && Ended(document) && indentString == Deeper(outer)
      modifies this
      ensures Indented() && indentString == old(indentString) && !addChildValues
      ensures c == Layout(v, indentString) && Spells(c, Tokens(v)) && b == "\n" + indentString && AllBlank(b)
      ensures document == (((old(document) + if first then "" else ",") + b + Quoted(n)) + " : ") + c && Ended(document)
      decreases v, 3
    {
      hide *;
      ghost var sep := if first then "" else ",";
      SeparatorEnded(document, sep);
      document := document + if first then "" else ",";
      var name := ValueToQuotedString(n);
      b := WriteWithIndent(name);
      document := document + " : ";
      ColonPoised(document, indentString);
      ghost var d := document;
      c := WriteValue(v);
      LayoutTail(d, v, indentString);
    }

    method WriteObject(ms: Members) returns (ghost w: string)
      requires MembersNoReals(ms) && ms.Member? && Indented() && !addChildValues && Poised(document, indentString)
      modifies this
      ensures Indented() && indentString == old(indentString) && !addChildValues
      ensures Spells(w, Tokens(Obj(ms))) && document == old(document) + w
      ensures w == Layout(Obj(ms), indentString)
      decreases ms, 1
    {
      ObjectLayout(ms, indentString);
      hide *;
      ghost var ind := indentString;
      ghost var b := WriteWithIndent("{");
      Opened(b, '{', ObjectBegin);
      w := b + "{";
      assert w == "{";
      MarkEnded(old(document), b, "{");
      Indent();
      ghost var inner := indentString;
      ObjectStart(ms, inner);
      ghost var ts := [];
      var rest, first := ms, true;
      ObjectOpen(ms, w, inner);
      while rest.Member?
        invariant MembersNoReals(rest) && (rest == ms || rest < ms) && Indented() && !addChildValues
        invariant indentString == inner && Ended(document) && document == old(document) + w
        invariant ObjectSoFar(w, ts, ms, rest, first, inner) && (first ==> rest.Member?)
        decreases rest
      {
        MembersPart(rest);
        ghost var c;
        b, c := WriteMember(rest.name, rest.value, first, ind);
        TextNext(old(document), w, if first then "" else ",", b, Quoted(rest.name), " : ", c);
        w, ts := ObjectStep(w, ts, ms, rest, first, inner, b, c);
        rest, first := rest.rest, false;
      }
      ObjectOver(w, ts, ms, first, inner);
      Unindent();
      Undeeper(ind, inner);
      b := WriteWithIndent("}");
      Closed(w, [Token(ObjectBegin, "{")] + ts, b, '}', ObjectEnd);
      TextLast(old(document), w, b, ind);
      w := w + b + "}";
    }
  }

  /** An object's text, tokens and layout up to the members that are left. */
  ghost predicate ObjectSoFar(w: string, ts: seq<Token>, ms: Members, rest: Members, first: bool, indent: string) {
    && MembersNoReals(ms) && MembersNoReals(rest) && SoFar(w, [Token(ObjectBegin, "{")] + ts, first)
    && ts + MemberTokens(rest, first) == MemberTokens(ms, true) && MembersSoFar(w, ms, rest, first, indent)
  }

  lemma ObjectOpen(ms: Members, w: string, indent: string)
    requires MembersNoReals(ms) && w == "{" && SoFar(w, [Token(ObjectBegin, "{")], true)
    ensures ObjectSoFar(w, [], ms, ms, true, indent)
  {
    hide SoFar;
    assert [Token(ObjectBegin, "{")] + [] == [Token(ObjectBegin, "{")];
    MembersStart(ms);
    ObjectStart(ms, indent);
  }

  lemma ObjectStep(w: string, ts: seq<Token>, ms: Members, rest: Members, first: bool, indent: string,
                   b: string, c: string)
    returns (w': string, ts': seq<Token>)
    requires ObjectSoFar(w, ts, ms, rest, first, indent) && rest.Member? && NoReals(rest.value)
    requires c == Layout(rest.value, indent) && Spells(c, Tokens(rest.value)) && b == "\n" + indent && AllBlank(b)
    ensures w' == w + (if first then "" else ",") + b + (Quoted(rest.name) + " : " + c)
    ensures ObjectSoFar(w', ts', ms, rest.rest, false, indent)
  {
    MembersNextLine(w, ms, rest, first, indent);
    Named(rest.name, " : ", c, Tokens(rest.value));
    MembersNext(ts, rest, first);
    hide SoFar;
    hide Spells;
    hide AllBlank;
    hide Layout;
    hide Tokens;
    hide MemberTokens;
    hide Quoted;
    hide MembersSoFar;
    NextElement(w, [Token(ObjectBegin, "{")] + ts, first, b, Quoted(rest.name) + " : " + c,
                [Token(String, Quoted(rest.name))] + COLON + Tokens(rest.value));
    w' := w + (if first then "" else ",") + b + (Quoted(rest.name) + " : " + c);
    ts' := ts + (if first then [] else COMMA) + ([Token(String, Quoted(rest.name))] + COLON + Tokens(rest.value));
  }

  lemma ObjectOver(w: string, ts: seq<Token>, ms: Members, first: bool, indent: string)
    requires ObjectSoFar(w, ts, ms, NoMember, first, indent) && !first
    ensures w == "{" + MemberLines(ms, indent, true) && Spells(w, [Token(ObjectBegin, "{")] + ts)
    ensures [Token(ObjectBegin, "{")] + ts + [Token(ObjectEnd, "}")] == Tokens(Obj(ms))
  {
    MembersEndLine(w, ms, first, indent);
    MembersOver(w, ts, ms, NoMember, first);
  }

  lemma TextLast(d: string, w: string, b: string, indent: string)
    ensures d + w + b + "}" == d + (w + b + "}")
    ensures b == "\n" + indent ==> w + b + "}" == w + "\n" + indent + "}"
  {
  }

  lemma ColonPoised(d: string, indent: string)
    requires |d| > 2 && d[|d| - 3..] == " : "
    ensures Poised(d, indent)
  {
    assert d[|d| - 1] == d[|d| - 3..][2];
  }

  lemma MembersStart(ms: Members)
    requires MembersNoReals(ms)
    ensures [] + MemberTokens(ms, true) == MemberTokens(ms, true)
    ensures forall ts: seq<Token> :: ts + [] == ts
  {
  }

  lemma MembersPart(ms: Members)
    requires MembersNoReals(ms) && ms.Member?
    ensures NoReals(ms.value) && MembersNoReals(ms.rest) && ms.rest < ms && ms.value < ms
  {
  }

  lemma MembersNext(ts: seq<Token>, ms: Members, first: bool)
    requires MembersNoReals(ms) && ms.Member?
    ensures NoReals(ms.value) && MembersNoReals(ms.rest)
    ensures ts + MemberTokens(ms, first)
         == ts + (if first then [] else COMMA) + ([Token(String, Quoted(ms.name))] + COLON + Tokens(ms.value))
            + MemberTokens(ms.rest, false)
    ensures [Token(ObjectBegin, "{")] + ts + (if first then [] else COMMA)
            + ([Token(String, Quoted(ms.name))] + COLON + Tokens(ms.value))
         == [Token(ObjectBegin, "{")]
            + (ts + (if first then [] else COMMA) + ([Token(String, Quoted(ms.name))] + COLON + Tokens(ms.value)))
  {
    hide Tokens;
    hide Quoted;
  }

  lemma TextNext(d: string, w: string, comma: string, b: string, name: string, colon: string, c: string)
    ensures ((((d + w) + comma) + b + name) + colon) + c == d + (w + comma + b + (name + colon + c))
  {
  }

  lemma MembersOver(w: string, ts: seq<Token>, ms: Members, rest: Members, first: bool)
    requires MembersNoReals(ms) && rest.NoMember? && !first && ts + MemberTokens(rest, first) == MemberTokens(ms, true)
    requires SoFar(w, [Token(ObjectBegin, "{")] + ts, first)
    ensures Spells(w, [Token(ObjectBegin, "{")] + ts)
    ensures [Token(ObjectBegin, "{")] + ts + [Token(ObjectEnd, "}")] == Tokens(Obj(ms))
  {
    hide Spells;
    hide Free;
  }

  lemma BlankTexts()
    ensures AllBlank("") && AllBlank(" ")
  {
  }

  lemma ChildCount(cs: seq<string>, xs: Items)
    requires ItemsNoReals(xs) && Children(cs, xs, Length(xs))
    ensures |cs| == Length(xs)
  {
  }

  lemma TextOne(d: string, w: string, c: string)
    ensures w == "" + "[" ==> d + "[ " == d + w + " "
    ensures ((d + w) + " ") + c == d + (w + "" + " " + c)
    ensures ((d + w) + ", ") + c == d + (w + "," + " " + c)
    ensures (d + w) + " ]" == d + (w + " " + "]")
  {
  }

  lemma FirstNone(xs: Items, open: seq<Token>)
    requires ItemsNoReals(xs)
    ensures open + FirstTokens(xs, 0) == open
  {
  }

  lemma ChildAt(cs: seq<string>, xs: Items, j: nat)
    requires ItemsNoReals(xs) && Children(cs, xs, Length(xs)) && j < Length(xs)
    ensures j < |cs| && NoReals(At(xs, j)) && cs[j] == Fast(At(xs, j)) && Spells(cs[j], Tokens(At(xs, j)))
  {
    hide Spells;
    assert Child(cs[j], xs, j);
  }

  lemma FirstNext(open: seq<Token>, xs: Items, n: nat)
    requires ItemsNoReals(xs) && n < Length(xs)
    ensures NoReals(At(xs, n))
    ensures open + FirstTokens(xs, n) + (if n == 0 then [] else COMMA) + Tokens(At(xs, n))
            == open + FirstTokens(xs, n + 1)
  {
    hide Tokens;
    AtNoReals(xs, n);
  }

  lemma ItemsOver(w: string, xs: Items, n: nat)
    requires ItemsNoReals(xs) && xs.Item? && n == Length(xs)
    requires SoFar(w, [Token(ArrayBegin, "[")] + FirstTokens(xs, n), n == 0)
    ensures n > 0 && Spells(w, [Token(ArrayBegin, "[")] + FirstTokens(xs, n))
    ensures [Token(ArrayBegin, "[")] + FirstTokens(xs, n) + [Token(ArrayEnd, "]")] == Tokens(Arr(xs))
  {
    hide Spells;
    hide Free;
    AllTokens(xs);
  }

  lemma EmptyObject()
    ensures Spells("{}", Tokens(Obj(NoMember)))
  {
    FastSpelled(Obj(NoMember));
    assert Fast(Obj(NoMember)) == "{}";
  }

  lemma EmptyArray()
    ensures Spells("[]", Tokens(Arr(NoItem)))
  {
    FastSpelled(Arr(NoItem));
    assert Fast(Arr(NoItem)) == "[]";
  }
}
