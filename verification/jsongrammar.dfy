/** The texts of RFC 8259 byte by byte, and what the parser makes of them. */
module JsonGrammar {
  import opened Text
  import opened Json
  import opened JsonNumber
  import opened JsonString
  import opened JsonParse

  // ----- JSON texts -----

  /** A text as the grammar builds it, with the white space that stands in it. */
  datatype Syntax =
    | NullText
    | FalseText
    | TrueText
    | NumText(x: NumberText)
    | StrText(pieces: seq<piece>)
    | ArrText(inner: seq<byte>, elements: seq<Element>)
    | ObjText(inner: seq<byte>, entries: seq<Entry>)

  datatype Element = Element(before: seq<byte>, value: Syntax, after: seq<byte>)

  datatype Entry =
    Entry(before: seq<byte>, name: seq<piece>, colon: seq<byte>, gap: seq<byte>, value: Syntax, after: seq<byte>)

  /** The white space of section 2. */
  predicate Blank(s: seq<byte>) {
    forall i :: 0 <= i < |s| ==> s[i] == 0x20 || s[i] == 0x09 || s[i] == 0x0A || s[i] == 0x0D
  }

  predicate IsSyntax(d: Syntax) {
    match d
    case NumText(x) => WellFormed(x)
    case ArrText(inner, elements) =>
      Blank(inner) && forall i :: 0 <= i < |elements| ==> IsElement(elements[i])
    case ObjText(inner, entries) =>
      Blank(inner) && forall i :: 0 <= i < |entries| ==> IsEntry(entries[i])
    case _ => true
  }

  predicate IsElement(e: Element) {
    Blank(e.before) && IsSyntax(e.value) && Blank(e.after)
  }

  predicate IsEntry(e: Entry) {
    Blank(e.before) && Blank(e.colon) && Blank(e.gap) && IsSyntax(e.value) && Blank(e.after)
  }

  /** The bytes of a text. */
  function Written(d: Syntax): seq<byte>
    decreases d, 1
  {
    match d
    case NullText => [0x6E, 0x75, 0x6C, 0x6C]
    case FalseText => [0x66, 0x61, 0x6C, 0x73, 0x65]
    case TrueText => [0x74, 0x72, 0x75, 0x65]
    case NumText(x) => Render(x)
    case StrText(pieces) => Literal(pieces)
    case ArrText(inner, elements) => [0x5B] + ((if elements == [] then inner else Elements(elements)) + [0x5D])
    case ObjText(inner, entries) => [0x7B] + ((if entries == [] then inner else Entries(entries)) + [0x7D])
  }

  function Elements(es: seq<Element>): seq<byte>
    decreases es, 0
  {
    if es == [] then []
    else es[0].before + (Written(es[0].value) + (es[0].after + MoreElements(es[1..])))
  }

  function MoreElements(es: seq<Element>): seq<byte>
    decreases es, 1
  {
    if es == [] then [] else [0x2C] + Elements(es)
  }

  function Entries(es: seq<Entry>): seq<byte>
    decreases es, 0
  {
    if es == [] then []
    else EntryName(es[0]) + (es[0].gap + (Written(es[0].value) + (es[0].after + MoreEntries(es[1..]))))
  }

  /** A name with its colon. */
  function EntryName(e: Entry): seq<byte> {
    e.before + (Literal(e.name) + (e.colon + [0x3A]))
  }

  function MoreEntries(es: seq<Entry>): seq<byte>
    decreases es, 1
  {
    if es == [] then [] else [0x2C] + Entries(es)
  }

  /** The value of a text: with its strings as they are meant, or as `parse_string` decodes them. */
  function Value(d: Syntax, exact: bool): Json
    decreases d, 1
  {
    match d
    case NullText => Null
    case FalseText => False
    case TrueText => True
    case NumText(x) => Parts(x)
    case StrText(pieces) => Str(Meanings(pieces, exact))
    case ArrText(_, elements) => Arr(Values(elements, exact))
    case ObjText(_, entries) => Obj(MemberValues(entries, exact))
  }

  function Values(es: seq<Element>, exact: bool): (items: seq<Json>)
    ensures |items| == |es|
    decreases es, 0
  {
    if es == [] then [] else [Value(es[0].value, exact)] + Values(es[1..], exact)
  }

  function MemberValues(es: seq<Entry>, exact: bool): (members: seq<Member>)
    ensures |members| == |es|
    decreases es, 0
  {
    if es == [] then []
    else [Member(Meanings(es[0].name, exact), Value(es[0].value, exact))] + MemberValues(es[1..], exact)
  }

  // ----- White space and first bytes -----

  lemma BlankIsSpace(s: seq<byte>)
    requires Blank(s)
    ensures forall i :: 0 <= i < |s| ==> IsSpace(s[i])
  {
  }

  lemma SkipOver(text: seq<byte>, p: nat, ws: seq<byte>, q: nat)
    requires Matches(text, p, ws) && q == p + |ws| && !IsSpace(At(text, q))
    requires forall i :: 0 <= i < |ws| ==> IsSpace(ws[i])
    ensures Skip(text, p) == q
  {
    forall i | p <= i < q ensures IsSpace(text[i]) {
      assert IsSpace(ws[i - p]);
    }
    SkipUnique(text, p, q);
  }

  /** White space before a position is skipped together with the white space at it. */
  lemma SkipJoin(text: seq<byte>, p: nat, ws: seq<byte>, q: nat)
    requires Matches(text, p, ws) && q == p + |ws|
    requires forall i :: 0 <= i < |ws| ==> IsSpace(ws[i])
    ensures Skip(text, p) == Skip(text, q)
  {
    var r := Skip(text, q);
    forall i | p <= i < r ensures IsSpace(text[i]) {
      if i < q {
        assert IsSpace(ws[i - p]);
      }
    }
    SkipUnique(text, p, r);
  }

  /** The first byte of a text is no white space and no closing bracket. */
  lemma FirstByte(d: Syntax)
    requires IsSyntax(d)
    ensures var s := Written(d);
            && s != [] && !IsSpace(s[0]) && s[0] != RBRACKET && s[0] != 0
            && (d.NullText? || d.FalseText? || d.TrueText? || !StartsWord(s[0]))
            && (d.NumText? ==> s[0] == MINUS || IsDigit(s[0]))
  {
    hide Elements, Entries, PiecesText, ExponentPart, FractionText;
  }

  /** White space and a delimiter end a number. */
  lemma EndsBefore(text: seq<byte>, e: nat, close: nat)
    requires e <= |text| && Skip(text, e) == close
    requires At(text, close) == RBRACE || At(text, close) == RBRACKET || At(text, close) == COMMA
    ensures EndsNumber(At(text, e))
  {
  }

  // ----- One step of the parser -----

  lemma CmpLenFull(text: seq<byte>, p: nat, word: seq<byte>)
    requires Matches(text, p, word)
    ensures CmpLen(text, p, word, 0) == |word|
  {
    assert forall i :: 0 <= i < |word| ==> word[i] == At(text, p + i);
  }

  lemma WordRead(text: seq<byte>, p: nat, d: Syntax)
    requires d.NullText? || d.FalseText? || d.TrueText?
    requires Matches(text, p, Written(d))
    ensures ParseWord(text, p) == Ok(Value(d, false), p + |Written(d)|)
  {
    var word := Written(d);
    CmpLenFull(text, p, word);
    assert text[p + 0] == word[0];
    assert word[0] != NULL_WORD[0] ==> Word(text, p, NULL_WORD, Null) == Fail(p);
    assert word[0] != FALSE_WORD[0] ==> Word(text, p, FALSE_WORD, False) == Fail(p);
  }

  lemma LastItem(text: seq<byte>, p: nat, v: Json, e: nat, close: nat)
    requires p <= |text| && ParseValue(text, p) == Ok(v, e) && close == Skip(text, e)
    ensures ParseItems(text, p) == Prepend([v], ParseMoreItems(text, close))
  {
    hide ParseValue;
  }

  lemma NextItem(
    text: seq<byte>, p: nat, v: Json, e: nat, c: nat, q: nat, items: seq<Json>, more: Parse<seq<Json>>)
    requires p <= |text| && ParseValue(text, p) == Ok(v, e) && c == Skip(text, e) && At(text, c) == COMMA
    requires Skip(text, c + 1) == q && At(text, q) != RBRACKET && ParseItems(text, q) == Prepend(items, more)
    ensures ParseItems(text, p) == Prepend([v] + items, more)
  {
    hide ParseValue;
    assert ParseMoreItems(text, c) == Prepend(items, more);
    PrependPrepend([v], items, more);
  }

  lemma LastMember(text: seq<byte>, p: nat, m: Member, e: nat, close: nat)
    requires p <= |text| && ParseMember(text, p) == Ok(m, e) && close == Skip(text, e)
    ensures ParseMembers(text, p) == Prepend([m], ParseMoreMembers(text, close))
  {
    hide ParseMember;
  }

  lemma NextMember(
    text: seq<byte>, p: nat, m: Member, e: nat, c: nat, q: nat, members: seq<Member>, more: Parse<seq<Member>>)
    requires p <= |text| && ParseMember(text, p) == Ok(m, e) && c == Skip(text, e) && At(text, c) == COMMA
    requires Skip(text, c + 1) == q && At(text, q) != RBRACE && ParseMembers(text, q) == Prepend(members, more)
    ensures ParseMembers(text, p) == Prepend([m] + members, more)
  {
    hide ParseMember;
    assert ParseMoreMembers(text, c) == Prepend(members, more);
    PrependPrepend([m], members, more);
  }

  lemma OneMember(text: seq<byte>, p: nat, name: seq<byte>, c: nat, colon: nat, q: nat, v: Json, e: nat)
    requires p <= |text| && ParseString(text, p) == Ok(name, c) && colon == Skip(text, c)
    requires At(text, colon) == COLON && Skip(text, colon + 1) == q && ParseValue(text, q) == Ok(v, e)
    ensures ParseMember(text, p) == Ok(Member(name, v), e)
  {
    hide ParseString, ParseValue;
  }

  // ----- Where the parts of a text stand -----

  lemma MatchesFour(
    text: seq<byte>, p: nat, a: seq<byte>, b: seq<byte>, c: seq<byte>, d: seq<byte>, q: nat, r: nat, s: nat)
    requires Matches(text, p, a + (b + (c + d)))
    requires q == p + |a| && r == q + |b| && s == r + |c|
    ensures Matches(text, p, a) && Matches(text, q, b) && Matches(text, r, c) && Matches(text, s, d)
  {
    MatchesSplit(text, p, a, b + (c + d));
    MatchesSplit(text, q, b, c + d);
    MatchesSplit(text, r, c, d);
  }

  lemma Enclosed(text: seq<byte>, p: nat, open: byte, body: seq<byte>, close: byte)
    requires Matches(text, p, [open] + (body + [close]))
    ensures At(text, p) == open && Matches(text, p + 1, body) && At(text, p + 1 + |body|) == close
    ensures p + 2 + |body| <= |text|
  {
    MatchesSplit(text, p, [open], body + [close]);
    MatchesSplit(text, p + 1, body, [close]);
    MatchesByte(text, p, open);
    MatchesByte(text, p + 1 + |body|, close);
  }

  /** `q` is where the value of the first element starts, `r` where it ends and `s` where the rest
      starts. */
  lemma ElementsLayout(text: seq<byte>, p: nat, es: seq<Element>, q: nat, r: nat, s: nat)
    requires es != [] && IsElement(es[0]) && Matches(text, p, Elements(es))
    requires q == p + |es[0].before| && r == q + |Written(es[0].value)| && s == r + |es[0].after|
    ensures Matches(text, q, Written(es[0].value)) && Skip(text, p) == q && At(text, q) != RBRACKET
    ensures r <= |text| && Skip(text, r) == Skip(text, s)
    ensures |es| == 1 ==> s == p + |Elements(es)|
    ensures |es| > 1 ==>
              && At(text, s) == COMMA && Skip(text, s) == s && Matches(text, s + 1, Elements(es[1..]))
              && p + |Elements(es)| == s + 1 + |Elements(es[1..])|
  {
    hide Skip;
    var e, more := es[0], MoreElements(es[1..]);
    var w := Written(e.value);
    MatchesFour(text, p, e.before, w, e.after, more, q, r, s);
    FirstByte(e.value);
    assert text[q + 0] == w[0];
    BlankIsSpace(e.before);
    BlankIsSpace(e.after);
    SkipOver(text, p, e.before, q);
    SkipJoin(text, r, e.after, s);
    if |es| > 1 {
      MatchesSplit(text, s, [0x2C], Elements(es[1..]));
      MatchesByte(text, s, 0x2C);
      SkipUnique(text, s, s);
    }
  }

  /** `n` is where the first name starts, `c` where it ends, `colon` where its colon stands, `q` where
      its value starts, `r` where that ends and `s` where the rest starts. */
  lemma EntriesLayout(
    text: seq<byte>, p: nat, es: seq<Entry>, n: nat, c: nat, colon: nat, q: nat, r: nat, s: nat)
    requires es != [] && IsEntry(es[0]) && Matches(text, p, Entries(es))
    requires n == p + |es[0].before| && c == n + |Literal(es[0].name)| && colon == c + |es[0].colon|
    requires q == colon + 1 + |es[0].gap| && r == q + |Written(es[0].value)| && s == r + |es[0].after|
    ensures Skip(text, p) == n && Matches(text, n, Literal(es[0].name)) && At(text, n) == QUOTE
    ensures c <= |text| && Skip(text, c) == colon && At(text, colon) == COLON && Skip(text, colon + 1) == q
    ensures Matches(text, q, Written(es[0].value)) && r <= |text| && Skip(text, r) == Skip(text, s)
    ensures |es| == 1 ==> s == p + |Entries(es)|
    ensures |es| > 1 ==>
              && At(text, s) == COMMA && Skip(text, s) == s && Matches(text, s + 1, Entries(es[1..]))
              && p + |Entries(es)| == s + 1 + |Entries(es[1..])|
  {
    hide Skip, Matches, Written, PiecesText, MoreEntries;
    var e := es[0];
    var tail := e.gap + (Written(e.value) + (e.after + MoreEntries(es[1..])));
    MatchesSplit(text, p, EntryName(e), tail);
    MatchesFour(text, p, e.before, Literal(e.name), e.colon, [0x3A], n, c, colon);
    MatchesFour(text, colon + 1, e.gap, Written(e.value), e.after, MoreEntries(es[1..]), q, r, s);
    NameLayout(text, p, e, n, c, colon, q);
    AfterLayout(text, r, e.after, s);
    MoreLayout(text, s, es);
  }

  lemma NameLayout(text: seq<byte>, p: nat, e: Entry, n: nat, c: nat, colon: nat, q: nat)
    requires IsEntry(e) && Matches(text, p, e.before) && n == p + |e.before| && Matches(text, n, Literal(e.name))
    requires Matches(text, c, e.colon) && colon == c + |e.colon| && Matches(text, colon, [0x3A])
    requires Matches(text, colon + 1, e.gap) && q == colon + 1 + |e.gap| && Matches(text, q, Written(e.value))
    ensures Skip(text, p) == n && At(text, n) == QUOTE
    ensures Skip(text, c) == colon && At(text, colon) == COLON && Skip(text, colon + 1) == q
  {
    hide Skip, Written, PiecesText;
    BlankIsSpace(e.before);
    BlankIsSpace(e.colon);
    BlankIsSpace(e.gap);
    MatchesByte(text, colon, 0x3A);
    assert text[n + 0] == Literal(e.name)[0];
    FirstByte(e.value);
    assert text[q + 0] == Written(e.value)[0];
    SkipOver(text, p, e.before, n);
    SkipOver(text, c, e.colon, colon);
    SkipOver(text, colon + 1, e.gap, q);
  }

  lemma AfterLayout(text: seq<byte>, r: nat, after: seq<byte>, s: nat)
    requires Blank(after) && Matches(text, r, after) && s == r + |after|
    ensures r <= |text| && Skip(text, r) == Skip(text, s)
  {
    BlankIsSpace(after);
    SkipJoin(text, r, after, s);
  }

  lemma MoreLayout(text: seq<byte>, s: nat, es: seq<Entry>)
    requires es != [] && Matches(text, s, MoreEntries(es[1..]))
    ensures |es| == 1 ==> MoreEntries(es[1..]) == []
    ensures |es| > 1 ==>
              && At(text, s) == COMMA && Skip(text, s) == s && Matches(text, s + 1, Entries(es[1..]))
              && |MoreEntries(es[1..])| == 1 + |Entries(es[1..])|
  {
    hide Entries;
    if |es| > 1 {
      MatchesSplit(text, s, [0x2C], Entries(es[1..]));
      MatchesByte(text, s, 0x2C);
      SkipUnique(text, s, s);
    }
  }

  // ----- Every text is read -----

  /** A JSON text, wherever it stands, is consumed whole and read as the value it stands for, its
      strings decoded as `parse_string` does; a number has to be followed by a byte that ends it. */
  lemma {:induction false} TextRead(text: seq<byte>, p: nat, d: Syntax, end: nat)
    requires IsSyntax(d) && Matches(text, p, Written(d)) && end == p + |Written(d)|
    requires d.NumText? ==> EndsNumber(At(text, end))
    ensures ParseValue(text, p) == Ok(Value(d, false), end)
    decreases d, 1
  {
    hide ParseWord, ParseString, ParseNumber, ParseArray, ParseObject, Elements, Entries;
    FirstByte(d);
    assert text[p + 0] == Written(d)[0];
    match d {
      case NumText(x) =>
        NoWord(text, p);
        PartsRead(text, p, x, end);
      case StrText(pieces) =>
        NoWord(text, p);
        UnicodeEscapes(text, p, pieces);
      case ArrText(_, _) =>
        NoWord(text, p);
        ArrayRead(text, p, d, end);
      case ObjText(_, _) =>
        NoWord(text, p);
        ObjectRead(text, p, d, end);
      case _ => WordRead(text, p, d);
    }
  }

  lemma {:induction false} ArrayRead(text: seq<byte>, p: nat, d: Syntax, end: nat)
    requires d.ArrText? && IsSyntax(d) && Matches(text, p, Written(d)) && end == p + |Written(d)|
    ensures At(text, p) == LBRACKET && ParseArray(text, p) == Ok(Values(d.elements, false), end)
    decreases d, 0
  {
    hide ParseItems, Elements;
    var body := if d.elements == [] then d.inner else Elements(d.elements);
    Enclosed(text, p, 0x5B, body, 0x5D);
    SkipUnique(text, end - 1, end - 1);
    if d.elements == [] {
      BlankIsSpace(d.inner);
      SkipOver(text, p + 1, d.inner, end - 1);
    } else {
      ElementsRead(text, p + 1, d.elements, end - 1);
      assert Values(d.elements, false) + [] == Values(d.elements, false);
    }
  }

  /** The elements of an array are read one by one, up to what the array loop makes of what follows. */
  lemma {:induction false} ElementsRead(text: seq<byte>, p: nat, es: seq<Element>, end: nat)
    requires es != [] && (forall i :: 0 <= i < |es| ==> IsElement(es[i])) && Matches(text, p, Elements(es))
    requires end == p + |Elements(es)|
    requires At(text, Skip(text, end)) == RBRACKET || At(text, Skip(text, end)) == COMMA
    ensures At(text, Skip(text, p)) != RBRACKET
    ensures ParseItems(text, Skip(text, p)) == Prepend(Values(es, false), ParseMoreItems(text, Skip(text, end)))
    decreases es, 2
  {
    hide ParseItems, ParseMoreItems, ParseValue, Prepend, Skip, Matches, EndsNumber, Elements, Written;
    var e, v := es[0], Value(es[0].value, false);
    var q := p + |e.before|;
    var r := q + |Written(e.value)|;
    var s := r + |e.after|;
    ElementsLayout(text, p, es, q, r, s);
    if |es| == 1 {
      EndsBefore(text, r, Skip(text, end));
      TextRead(text, q, e.value, r);
      LastItem(text, q, v, r, Skip(text, end));
      assert Values(es, false) == [v];
    } else {
      EndsBefore(text, r, s);
      TextRead(text, q, e.value, r);
      ElementsRead(text, s + 1, es[1..], end);
      NextItem(text, q, v, r, s, Skip(text, s + 1), Values(es[1..], false), ParseMoreItems(text, Skip(text, end)));
    }
  }

  lemma {:induction false} ObjectRead(text: seq<byte>, p: nat, d: Syntax, end: nat)
    requires d.ObjText? && IsSyntax(d) && Matches(text, p, Written(d)) && end == p + |Written(d)|
    ensures At(text, p) == LBRACE && ParseObject(text, p) == Ok(MemberValues(d.entries, false), end)
    decreases d, 0
  {
    hide ParseMembers, Entries;
    var body := if d.entries == [] then d.inner else Entries(d.entries);
    Enclosed(text, p, 0x7B, body, 0x7D);
    SkipUnique(text, end - 1, end - 1);
    if d.entries == [] {
      BlankIsSpace(d.inner);
      SkipOver(text, p + 1, d.inner, end - 1);
    } else {
      EntriesRead(text, p + 1, d.entries, end - 1);
      assert MemberValues(d.entries, false) + [] == MemberValues(d.entries, false);
    }
  }

  /** The same of the members of an object. */
  lemma {:induction false} EntriesRead(text: seq<byte>, p: nat, es: seq<Entry>, end: nat)
    requires es != [] && (forall i :: 0 <= i < |es| ==> IsEntry(es[i])) && Matches(text, p, Entries(es))
    requires end == p + |Entries(es)|
    requires At(text, Skip(text, end)) == RBRACE || At(text, Skip(text, end)) == COMMA
    ensures At(text, Skip(text, p)) == QUOTE
    ensures ParseMembers(text, Skip(text, p))
         == Prepend(MemberValues(es, false), ParseMoreMembers(text, Skip(text, end)))
    decreases es, 2
  {
    hide ParseMembers, ParseMoreMembers, ParseMember, ParseString, ParseValue, Prepend, Skip, Matches, EndsNumber;
    hide Entries, Written, Meanings, PiecesText;
    var e := es[0];
    var m := Member(Meanings(e.name, false), Value(e.value, false));
    var n := p + |e.before|;
    var c := n + |Literal(e.name)|;
    var colon := c + |e.colon|;
    var q := colon + 1 + |e.gap|;
    var r := q + |Written(e.value)|;
    var s := r + |e.after|;
    EntriesLayout(text, p, es, n, c, colon, q, r, s);
    UnicodeEscapes(text, n, e.name);
    EndsBefore(text, r, if |es| == 1 then Skip(text, end) else s);
    TextRead(text, q, e.value, r);
    OneMember(text, n, m.name, c, colon, q, m.value, r);
    if |es| == 1 {
      LastMember(text, n, m, r, Skip(text, end));
      assert MemberValues(es, false) == [m];
    } else {
      EntriesRead(text, s + 1, es[1..], end);
      var more := ParseMoreMembers(text, Skip(text, end));
      NextMember(text, n, m, r, s, Skip(text, s + 1), MemberValues(es[1..], false), more);
    }
  }

  // ----- Main results -----

  /** `parse_string` makes of every string and name what it stands for. */
  predicate AllRight(d: Syntax) {
    match d
    case StrText(pieces) => forall x :: x in pieces ==> ReadRight(x)
    case ArrText(_, elements) => forall i :: 0 <= i < |elements| ==> AllRight(elements[i].value)
    case ObjText(_, entries) => forall i :: 0 <= i < |entries| ==> EntryRight(entries[i])
    case _ => true
  }

  predicate EntryRight(e: Entry) {
    (forall x :: x in e.name ==> ReadRight(x)) && AllRight(e.value)
  }

  lemma {:induction false} ValueExact(d: Syntax)
    ensures Value(d, false) == Value(d, true) <==> AllRight(d)
    decreases d, 1
  {
    hide Meanings, ReadRight;
    match d {
      case StrText(pieces) => DecodedExact(pieces);
      case ArrText(_, elements) => ValuesExact(elements);
      case ObjText(_, entries) => MembersExact(entries);
      case _ =>
    }
  }

  lemma {:induction false} ValuesExact(es: seq<Element>)
    ensures Values(es, false) == Values(es, true) <==> forall i :: 0 <= i < |es| ==> AllRight(es[i].value)
    decreases es, 0
  {
    hide AllRight, Value;
    if es != [] {
      var rest := es[1..];
      ValueExact(es[0].value);
      ValuesExact(rest);
      assert forall exact :: Values(es, exact)[1..] == Values(rest, exact);
      assert forall i :: 0 <= i < |rest| ==> rest[i] == es[i + 1];
      assert forall i :: 1 <= i < |es| ==> es[i] == rest[i - 1];
    }
  }

  lemma {:induction false} MembersExact(es: seq<Entry>)
    ensures MemberValues(es, false) == MemberValues(es, true) <==> forall i :: 0 <= i < |es| ==> EntryRight(es[i])
    decreases es, 0
  {
    hide AllRight, Value, Meanings, ReadRight;
    if es != [] {
      var rest := es[1..];
      DecodedExact(es[0].name);
      ValueExact(es[0].value);
      MembersExact(rest);
      assert forall exact :: MemberValues(es, exact)[1..] == MemberValues(rest, exact);
      assert forall i :: 0 <= i < |rest| ==> rest[i] == es[i + 1];
      assert forall i :: 1 <= i < |es| ==> es[i] == rest[i - 1];
    }
  }

  /** The bytes are a JSON text for the value. */
  ghost predicate IsJsonText(s: seq<byte>, t: Json) {
    exists d :: IsSyntax(d) && AllRight(d) && s == Written(d) && t == Value(d, true)
  }

  /** Every JSON text is read as its value, wherever it stands. */
  lemma JsonRead(text: seq<byte>, p: nat, end: nat, t: Json)
    requires p <= end <= |text| && IsJsonText(text[p..end], t)
    requires t.Number? ==> EndsNumber(At(text, end))
    ensures ParseValue(text, p) == Ok(t, end)
  {
    hide Written, ParseValue, AllRight, IsSyntax;
    var s := text[p..end];
    var d :| IsSyntax(d) && AllRight(d) && s == Written(d) && t == Value(d, true);
    assert Matches(text, p, s);
    ValueExact(d);
    TextRead(text, p, d, end);
  }

  /** Every document is read, after any white space and whatever follows it. It is read as the value it
      stands for exactly when no surrogate pair in it has bit 6 of its high half set. */
  lemma DocumentRead(text: seq<byte>, ws: seq<byte>, d: Syntax, rest: seq<byte>)
    requires IsSyntax(d) && Blank(ws) && text == ws + Written(d) + rest
    requires d.NumText? ==> EndsNumber(At(rest, 0))
    ensures ParseStream(text) == Ok(Value(d, false), |ws| + |Written(d)|)
    ensures Value(d, false) == Value(d, true) <==> AllRight(d)
  {
    hide Written, ParseValue, Value;
    var s := Written(d);
    FirstByte(d);
    BlankIsSpace(ws);
    assert Matches(text, |ws|, s) && text[|ws|] == s[0];
    assert At(text, |ws| + |s|) == At(rest, 0);
    SkipUnique(text, 0, |ws|);
    TextRead(text, |ws|, d, |ws| + |s|);
    ValueExact(d);
  }

  // ----- Trailing commas -----

  /** A trailing comma is not accepted, whatever the elements and the white space around it: after it
      the array takes its closing bracket and asks for a second one, and only `,]]` closes an array. */
  lemma TrailingComma(text: seq<byte>, p: nat, es: seq<Element>, end: nat, comma: nat, q: nat)
    requires es != [] && (forall i :: 0 <= i < |es| ==> IsElement(es[i]))
    requires At(text, p) == LBRACKET && Matches(text, p + 1, Elements(es)) && end == p + 1 + |Elements(es)|
    requires comma == Skip(text, end) && At(text, comma) == COMMA
    requires q == Skip(text, comma + 1) && At(text, q) == RBRACKET
    ensures ParseArray(text, p)
         == if At(text, q + 1) == RBRACKET then Ok(Values(es, false), q + 2) else Fail(q + 1)
  {
    hide ParseItems, Elements, Skip, Values, IsElement;
    ElementsRead(text, p + 1, es, end);
    assert Values(es, false) + [] == Values(es, false);
  }

  /** The same of an object. */
  lemma TrailingCommaInObject(text: seq<byte>, p: nat, es: seq<Entry>, end: nat, comma: nat, q: nat)
    requires es != [] && (forall i :: 0 <= i < |es| ==> IsEntry(es[i]))
    requires At(text, p) == LBRACE && Matches(text, p + 1, Entries(es)) && end == p + 1 + |Entries(es)|
    requires comma == Skip(text, end) && At(text, comma) == COMMA
    requires q == Skip(text, comma + 1) && At(text, q) == RBRACE
    ensures ParseObject(text, p)
         == if At(text, q + 1) == RBRACE then Ok(MemberValues(es, false), q + 2) else Fail(q + 1)
  {
    hide ParseMembers, Entries, Skip, MemberValues, IsEntry;
    EntriesRead(text, p + 1, es, end);
    assert MemberValues(es, false) + [] == MemberValues(es, false);
  }
}
