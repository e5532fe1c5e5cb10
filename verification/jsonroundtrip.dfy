/** Parsing undoes printing, at every depth and in both forms: what is printed is a JSON text, and
    every JSON text is read. */
module JsonRoundTrip {
  import opened Text
  import opened Json
  import opened JsonNumber
  import opened JsonString
  import opened JsonParse
  import opened JsonPrint
  import opened JsonGrammar

  // ----- The printed forms in terms of the grammar -----

  /** A line break and as many tabs as objects are open, in the formatted form. */
  function NewLine(depth: nat, fmt: bool): (s: seq<byte>)
    ensures Blank(s)
  {
    if fmt then [0x0A] + seq(depth, _ => 0x09) else []
  }

  /** What is printed for a tree. The formatted form has a space after the commas of an array, a tab
      after every colon, every member of an object on a line of its own and the closing brace on the
      next; the compact form has no white space. */
  function Layout(t: Json, depth: nat, fmt: bool): Syntax
    requires Printable(t)
    decreases t, 1
  {
    match t
    case Null => NullText
    case False => FalseText
    case True => TrueText
    case Number(n, _, _) => NumText(IntText(n))
    case Str(s) => StrText(PrintedPieces(s))
    case Arr(items) => ArrText([], LayoutItems(items, [], depth + 1, fmt))
    case Obj(members) => ObjText(NewLine(depth, fmt), LayoutMembers(members, depth + 1, fmt))
  }

  function LayoutItems(items: seq<Json>, before: seq<byte>, depth: nat, fmt: bool): (es: seq<Element>)
    requires Printable(Arr(items))
    ensures |es| == |items|
    decreases items, 0
  {
    if items == [] then []
    else
      [Element(before, Layout(items[0], depth, fmt), [])]
      + LayoutItems(items[1..], if fmt then [0x20] else [], depth, fmt)
  }

  function LayoutMembers(members: seq<Member>, depth: nat, fmt: bool): (es: seq<Entry>)
    requires Printable(Obj(members)) && depth > 0
    ensures |es| == |members|
    decreases members, 0
  {
    if members == [] then []
    else
      var m := members[0];
      var gap, after := if fmt then [0x09] else [], if |members| == 1 then NewLine(depth - 1, fmt) else [];
      [Entry(NewLine(depth, fmt), PrintedPieces(m.name), [], gap, Layout(m.value, depth, fmt), after)]
      + LayoutMembers(members[1..], depth, fmt)
  }

  /** What is printed is a text of the grammar. */
  lemma {:induction false} LayoutIsSyntax(t: Json, depth: nat, fmt: bool)
    requires Printable(t)
    ensures IsSyntax(Layout(t, depth, fmt))
    decreases t, 1
  {
    match t {
      case Number(n, _, _) => IntPrinted(n);
      case Arr(items) => ItemsAreSyntax(items, [], depth + 1, fmt);
      case Obj(members) => MembersAreSyntax(members, depth + 1, fmt);
      case _ =>
    }
  }

  lemma {:induction false} ItemsAreSyntax(items: seq<Json>, before: seq<byte>, depth: nat, fmt: bool)
    requires Printable(Arr(items)) && Blank(before)
    ensures forall e :: e in LayoutItems(items, before, depth, fmt) ==> IsElement(e)
    decreases items, 0
  {
    hide Layout;
    if items != [] {
      LayoutIsSyntax(items[0], depth, fmt);
      ItemsAreSyntax(items[1..], if fmt then [0x20] else [], depth, fmt);
    }
  }

  lemma {:induction false} MembersAreSyntax(members: seq<Member>, depth: nat, fmt: bool)
    requires Printable(Obj(members)) && depth > 0
    ensures forall e :: e in LayoutMembers(members, depth, fmt) ==> IsEntry(e)
    decreases members, 0
  {
    hide Layout;
    if members != [] {
      LayoutIsSyntax(members[0].value, depth, fmt);
      MembersAreSyntax(members[1..], depth, fmt);
    }
  }

  /** It stands for the tree. */
  lemma {:induction false} LayoutValue(t: Json, depth: nat, fmt: bool, exact: bool)
    requires Printable(t)
    ensures Value(Layout(t, depth, fmt), exact) == t
    decreases t, 1
  {
    hide LayoutItems, LayoutMembers, Values, MemberValues, Meanings, PrintedPieces, Parts, IntText;
    match t {
      case Number(n, _, _) => IntPrinted(n);
      case Str(s) => StringPrinted(s);
      case Arr(items) => ItemValues(items, [], depth + 1, fmt, exact);
      case Obj(members) => MembersValue(members, depth + 1, fmt, exact);
      case _ =>
    }
  }

  lemma {:induction false} ItemValues(items: seq<Json>, before: seq<byte>, depth: nat, fmt: bool, exact: bool)
    requires Printable(Arr(items))
    ensures Values(LayoutItems(items, before, depth, fmt), exact) == items
    decreases items, 0
  {
    hide Layout, Value;
    if items != [] {
      var more := if fmt then [0x20] else [];
      LayoutValue(items[0], depth, fmt, exact);
      ItemValues(items[1..], more, depth, fmt, exact);
      assert LayoutItems(items, before, depth, fmt)[1..] == LayoutItems(items[1..], more, depth, fmt);
    }
  }

  lemma {:induction false} MembersValue(members: seq<Member>, depth: nat, fmt: bool, exact: bool)
    requires Printable(Obj(members)) && depth > 0
    ensures MemberValues(LayoutMembers(members, depth, fmt), exact) == members
    decreases members, 0
  {
    hide Layout, Value;
    if members != [] {
      LayoutValue(members[0].value, depth, fmt, exact);
      StringPrinted(members[0].name);
      MembersValue(members[1..], depth, fmt, exact);
      assert LayoutMembers(members, depth, fmt)[1..] == LayoutMembers(members[1..], depth, fmt);
    }
  }

  /** It is what the printer writes, byte by byte. */
  lemma {:induction false} LayoutWritten(t: Json, depth: nat, fmt: bool)
    requires Printable(t)
    ensures PrintValue(t, depth, fmt) == Written(Layout(t, depth, fmt))
    decreases t, 1
  {
    hide PrintItems, PrintMembers, Elements, Entries, LayoutItems, LayoutMembers, PrintedPieces, IntText;
    hide PrintString, Literal, Render, PrintInt;
    match t {
      case Number(n, _, _) => IntPrinted(n);
      case Str(s) => StringPrinted(s);
      case Arr(items) => ItemsWritten(items, [], depth + 1, fmt);
      case Obj(members) => MembersWritten(members, depth + 1, fmt);
      case _ =>
    }
  }

  lemma {:induction false} ItemsWritten(items: seq<Json>, before: seq<byte>, depth: nat, fmt: bool)
    requires Printable(Arr(items))
    ensures items != [] ==>
              Elements(LayoutItems(items, before, depth, fmt)) == before + PrintItems(items, depth, fmt)
    ensures items == [] ==> PrintItems(items, depth, fmt) == []
    decreases items, 0
  {
    hide PrintValue, Written, Layout;
    if items != [] {
      var more := if fmt then [0x20] else [];
      var es, v := LayoutItems(items, before, depth, fmt), PrintValue(items[0], depth, fmt);
      LayoutWritten(items[0], depth, fmt);
      assert es[1..] == LayoutItems(items[1..], more, depth, fmt);
      hide PrintItems, Elements;
      ItemsWritten(items[1..], more, depth, fmt);
      ItemsPrinted(items, depth, fmt);
      ElementsWritten(es);
      ItemsJoin(before, v, more, PrintItems(items[1..], depth, fmt));
    }
  }

  lemma ItemsPrinted(items: seq<Json>, depth: nat, fmt: bool)
    requires items != [] && Printable(Arr(items))
    ensures var v, more := PrintValue(items[0], depth, fmt), if fmt then [0x20] else [];
            PrintItems(items, depth, fmt)
            == if |items| == 1 then v else v + (([0x2C] + more) + PrintItems(items[1..], depth, fmt))
  {
    hide PrintValue;
  }

  lemma ElementsWritten(es: seq<Element>)
    requires es != []
    ensures Elements(es) ==
            es[0].before + (Written(es[0].value)
                            + (es[0].after + if |es| == 1 then [] else [0x2C] + Elements(es[1..])))
  {
    hide Written;
  }

  lemma ItemsJoin(before: seq<byte>, v: seq<byte>, more: seq<byte>, rest: seq<byte>)
    ensures before + (v + ([] + ([0x2C] + (more + rest)))) == before + (v + (([0x2C] + more) + rest))
    ensures before + (v + ([] + [])) == before + v
  {
    assert [0x2C] + (more + rest) == ([0x2C] + more) + rest;
  }

  lemma {:induction false} MembersWritten(members: seq<Member>, depth: nat, fmt: bool)
    requires Printable(Obj(members)) && depth > 0
    ensures Break(fmt) + (PrintMembers(members, depth, fmt) + Indent(depth - 1, fmt))
         == if members == [] then NewLine(depth - 1, fmt) else Entries(LayoutMembers(members, depth, fmt))
    decreases members, 0
  {
    hide PrintValue, Written, Layout, Literal, PrintString;
    LinesPrinted(depth, fmt);
    LinesPrinted(depth - 1, fmt);
    if members == [] {
      assert PrintMembers(members, depth, fmt) == [];
    } else {
      var m, es := members[0], LayoutMembers(members, depth, fmt);
      LayoutWritten(m.value, depth, fmt);
      StringPrinted(m.name);
      assert es[1..] == LayoutMembers(members[1..], depth, fmt);
      hide PrintMembers, Entries;
      MembersWritten(members[1..], depth, fmt);
      MembersPrinted(members, depth, fmt);
      EntriesWritten(es);
      hide Break, Indent, NewLine;
      MembersJoin(Break(fmt), Indent(depth, fmt), Indent(depth - 1, fmt), PrintString(m.name), es[0].gap,
                  PrintValue(m.value, depth, fmt), PrintMembers(members[1..], depth, fmt));
    }
  }

  lemma LinesPrinted(depth: nat, fmt: bool)
    ensures NewLine(depth, fmt) == Break(fmt) + Indent(depth, fmt)
  {
  }

  lemma MembersPrinted(members: seq<Member>, depth: nat, fmt: bool)
    requires members != [] && Printable(Obj(members))
    ensures var m, rest := members[0], PrintMembers(members[1..], depth, fmt);
            var name, v := PrintString(m.name), PrintValue(m.value, depth, fmt);
            var one := name + ([0x3A] + ((if fmt then [0x09] else []) + v));
            && PrintMembers(members, depth, fmt)
               == Indent(depth, fmt) + (one + ((if |members| > 1 then [0x2C] else []) + (Break(fmt) + rest)))
            && (|members| == 1 ==> rest == [])
  {
    hide PrintValue, Indent, Break;
  }

  lemma EntriesWritten(es: seq<Entry>)
    requires es != []
    ensures var e := es[0];
            Entries(es) ==
            (e.before + (Literal(e.name) + (e.colon + [0x3A])))
            + (e.gap + (Written(e.value) + (e.after + if |es| == 1 then [] else [0x2C] + Entries(es[1..]))))
  {
    hide Written;
  }

  lemma MembersJoin(
    line: seq<byte>, tabs: seq<byte>, fewer: seq<byte>, name: seq<byte>, gap: seq<byte>, v: seq<byte>,
    rest: seq<byte>)
    ensures line + ((tabs + ((name + ([0x3A] + (gap + v))) + ([0x2C] + (line + rest)))) + fewer)
         == ((line + tabs) + (name + ([] + [0x3A]))) + (gap + (v + ([] + ([0x2C] + (line + (rest + fewer))))))
    ensures line + ((tabs + ((name + ([0x3A] + (gap + v))) + ([] + (line + [])))) + fewer)
         == ((line + tabs) + (name + ([] + [0x3A]))) + (gap + (v + ((line + fewer) + [])))
  {
  }

  // ----- Main results -----

  /** What is printed is a JSON text for the tree. */
  lemma PrintedIsJson(t: Json, depth: nat, fmt: bool)
    requires Printable(t)
    ensures IsJsonText(PrintValue(t, depth, fmt), t)
  {
    hide Written, Layout;
    var d := Layout(t, depth, fmt);
    LayoutIsSyntax(t, depth, fmt);
    LayoutValue(t, depth, fmt, false);
    LayoutValue(t, depth, fmt, true);
    LayoutWritten(t, depth, fmt);
    ValueExact(d);
  }

  /** Every printable tree, printed at any depth in either form and standing anywhere in a text,
      is parsed back whole, provided a number is followed by a byte that ends it. */
  lemma TreeRoundTrip(before: seq<byte>, t: Json, depth: nat, fmt: bool, rest: seq<byte>)
    requires Printable(t)
    requires t.Number? ==> EndsNumber(At(rest, 0))
    ensures ParseValue(before + PrintValue(t, depth, fmt) + rest, |before|)
         == Ok(t, |before| + |PrintValue(t, depth, fmt)|)
  {
    hide PrintValue, ParseValue, IsJsonText;
    var s := PrintValue(t, depth, fmt);
    var text := before + s + rest;
    PrintedIsJson(t, depth, fmt);
    assert text[|before|..|before| + |s|] == s;
    assert At(text, |before| + |s|) == At(rest, 0);
    JsonRead(text, |before|, |before| + |s|, t);
  }

  /** Both forms of a document parse to the same tree: the one that was printed. */
  lemma FormsAgree(t: Json)
    requires Printable(t)
    ensures ParseStream(Print(t, true)) == Ok(t, |Print(t, true)|)
    ensures ParseStream(Print(t, false)) == Ok(t, |Print(t, false)|)
  {
    hide PrintValue, ParseValue;
    forall fmt: bool ensures ParseStream(Print(t, fmt)) == Ok(t, |Print(t, fmt)|) {
      var s := Print(t, fmt);
      assert s == [] + s + [];
      PrintedRead(s, [], t, fmt, []);
    }
  }

  lemma FirstPrinted(t: Json, depth: nat, fmt: bool)
    requires Printable(t)
    ensures PrintValue(t, depth, fmt) != [] && !IsSpace(PrintValue(t, depth, fmt)[0])
  {
    hide Written, Layout;
    LayoutIsSyntax(t, depth, fmt);
    LayoutWritten(t, depth, fmt);
    FirstByte(Layout(t, depth, fmt));
  }

  /** A printed document after white space, whatever follows it. */
  lemma PrintedRead(text: seq<byte>, ws: seq<byte>, t: Json, fmt: bool, rest: seq<byte>)
    requires Printable(t) && text == ws + Print(t, fmt) + rest
    requires forall i :: 0 <= i < |ws| ==> IsSpace(ws[i])
    requires t.Number? ==> EndsNumber(At(rest, 0))
    ensures ParseStream(text) == Ok(t, |ws| + |Print(t, fmt)|)
  {
    hide PrintValue, ParseValue;
    TreeRoundTrip(ws, t, 0, fmt, rest);
    FirstPrinted(t, 0, fmt);
    assert text[|ws|] == Print(t, fmt)[0];
    SkipUnique(text, 0, |ws|);
  }

  // ----- Beyond JSON -----

  /** The comparisons with the three keywords leave the cursor where it was exactly before a byte that
      starts none of them. */
  lemma WordStart(text: seq<byte>, p: nat)
    requires p <= |text| && ParseWord(text, p).Fail?
    ensures ParseWord(text, p).at == p <==> !StartsWord(At(text, p))
  {
    var n := Word(text, p, NULL_WORD, Null);
    assert n.at == p <==> At(text, p) != NULL_WORD[0];
    var f := Word(text, n.at, FALSE_WORD, False);
    assert f.at == n.at <==> At(text, n.at) != FALSE_WORD[0];
    assert ParseWord(text, p).at == f.at <==> At(text, f.at) != TRUE_WORD[0];
  }

  /** Which value is read where no keyword is: the one at the place where the comparisons stopped,
      unless a keyword would start there. */
  lemma ValueStart(text: seq<byte>, p: nat)
    requires p <= |text| && ParseWord(text, p).Fail?
    ensures var q := ParseWord(text, p).at;
            ParseValue(text, p) == if StartsWord(At(text, q)) then Fail(q) else ParseValue(text, q)
  {
    hide ParseString, ParseNumber, ParseArray, ParseObject, ParseWord;
    var q := ParseWord(text, p).at;
    if !StartsWord(At(text, q)) {
      NoWord(text, q);
    }
  }

  /** What the comparisons consume without a keyword: proper starts of the three, one after the other,
      any of which may be empty. */
  lemma StrayStarts(text: seq<byte>, p: nat)
    requires p <= |text| && ParseWord(text, p).Fail?
    ensures var a := CmpLen(text, p, NULL_WORD, 0);
            var b := CmpLen(text, p + a, FALSE_WORD, 0);
            var c := CmpLen(text, p + a + b, TRUE_WORD, 0);
            && a < |NULL_WORD| && b < |FALSE_WORD| && c < |TRUE_WORD|
            && text[p..ParseWord(text, p).at] == NULL_WORD[..a] + (FALSE_WORD[..b] + TRUE_WORD[..c])
  {
    hide CmpLen, ParseWord, At;
    var a := CmpLen(text, p, NULL_WORD, 0);
    AgreeingPart(text, p, NULL_WORD, a);
    var b := CmpLen(text, p + a, FALSE_WORD, 0);
    AgreeingPart(text, p + a, FALSE_WORD, b);
    var c := CmpLen(text, p + a + b, TRUE_WORD, 0);
    AgreeingPart(text, p + a + b, TRUE_WORD, c);
    WordParts(text, p, a, b, c);
    var x, y, z := NULL_WORD[..a], FALSE_WORD[..b], TRUE_WORD[..c];
    ThreeParts(text, p, p + a, p + a + b, p + a + b + c, x, y, z);
  }

  lemma ThreeParts(
    text: seq<byte>, p: nat, q: nat, r: nat, s: nat, x: seq<byte>, y: seq<byte>, z: seq<byte>)
    requires p <= q <= r <= s <= |text| && text[p..q] == x && text[q..r] == y && text[r..s] == z
    ensures text[p..s] == x + (y + z)
  {
  }

  lemma WordParts(text: seq<byte>, p: nat, a: nat, b: nat, c: nat)
    requires p + a + b + c <= |text| && ParseWord(text, p).Fail?
    requires a == CmpLen(text, p, NULL_WORD, 0) && b == CmpLen(text, p + a, FALSE_WORD, 0)
    requires c == CmpLen(text, p + a + b, TRUE_WORD, 0)
    ensures ParseWord(text, p).at == p + a + b + c
    ensures a < |NULL_WORD| && b < |FALSE_WORD| && c < |TRUE_WORD|
  {
    hide CmpLen;
  }

  lemma AgreeingPart(text: seq<byte>, p: nat, word: seq<byte>, n: nat)
    requires NulFree(word) && n == CmpLen(text, p, word, 0) && p <= |text|
    ensures p + n <= |text| && text[p..p + n] == word[..n]
  {
    assert forall i :: 0 <= i < n ==> At(text, p + i) == word[i];
    assert n > 0 ==> At(text, p + (n - 1)) == word[n - 1];
  }

  /** A value is read from a place other than where it was looked for exactly if the text there starts
      like a keyword, is none, and goes on with a value that does not look like one. */
  lemma StrayValue(text: seq<byte>, p: nat)
    requires p <= |text| && ParseWord(text, p).Fail?
    ensures var q := ParseWord(text, p).at;
            ParseValue(text, p).Ok? && q != p
            <==> StartsWord(At(text, p)) && !StartsWord(At(text, q)) && ParseValue(text, q).Ok?
  {
    hide ParseValue, ParseWord;
    WordStart(text, p);
    ValueStart(text, p);
  }

  /** `nft[]` is read as `[]`. */
  lemma StrayExample()
    ensures ParseStream([0x6E, 0x66, 0x74, LBRACKET, RBRACKET]) == Ok(Arr([]), 5)
  {
    hide ParseValue;
    var text: seq<byte> := [0x6E, 0x66, 0x74, LBRACKET, RBRACKET];
    SkipUnique(text, 0, 0);
    SkipUnique(text, 4, 4);
    assert CmpLen(text, 0, NULL_WORD, 0) == 1;
    assert CmpLen(text, 1, FALSE_WORD, 0) == 1;
    assert CmpLen(text, 2, TRUE_WORD, 0) == 1;
    assert ParseWord(text, 0) == Fail(3);
    ValueStart(text, 0);
    EmptyArray(text, 3);
  }

  lemma EmptyArray(text: seq<byte>, p: nat)
    requires p + 2 <= |text| && text[p] == LBRACKET && text[p + 1] == RBRACKET
    ensures ParseValue(text, p) == Ok(Arr([]), p + 2)
  {
    NoWord(text, p);
    SkipUnique(text, p + 1, p + 1);
  }
}
