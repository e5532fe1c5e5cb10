/** Streams a client prints: the framing of `connection_cb` seen from the other end. */
module PrintedStreams {
  import opened Text
  import opened Json
  import opened JsonNumber
  import opened JsonString
  import opened JsonParse
  import opened JsonPrint
  import opened JsonRoundTrip
  import opened JsonCut
  import opened Connection
  import JsonWrite

  // ----- Printed documents -----

  /** White space, then a document in either form. */
  datatype Printed = Printed(blank: seq<byte>, doc: Json, fmt: bool)

  predicate AllSpace(s: seq<byte>) {
    forall i :: 0 <= i < |s| ==> IsSpace(s[i])
  }

  predicate IsDocument(x: Printed) {
    AllSpace(x.blank) && Printable(x.doc) && IsContainer(x.doc)
  }

  type Document = x: Printed | IsDocument(x) witness Printed([], Arr([]), false)

  /** The stream a client sends. */
  function StreamText(xs: seq<Document>, tail: seq<byte>): seq<byte>
  {
    if xs == [] then tail
    else xs[0].blank + Print(xs[0].doc, xs[0].fmt) + StreamText(xs[1..], tail)
  }

  function Docs(xs: seq<Document>): (docs: seq<Json>)
    ensures |docs| == |xs|
  {
    if xs == [] then [] else [xs[0].doc] + Docs(xs[1..])
  }

  /** The first document of a printed stream is parsed, and the others are left. */
  lemma FirstDocument(xs: seq<Document>, tail: seq<byte>)
    requires xs != []
    ensures IsDocument(xs[0])
    ensures var r := ParseStream(StreamText(xs, tail));
            r == Ok(xs[0].doc, |xs[0].blank| + |Print(xs[0].doc, xs[0].fmt)|)
            && StreamText(xs, tail)[r.next..] == StreamText(xs[1..], tail)
  {
    hide ParseStream, Print;
    var x, rest := xs[0], StreamText(xs[1..], tail);
    assert IsDocument(x);
    var front := x.blank + Print(x.doc, x.fmt);
    PrintedRead(StreamText(xs, tail), x.blank, x.doc, x.fmt, rest);
    assert (front + rest)[|front|..] == rest;
  }

  lemma {:induction false} StreamNulFree(xs: seq<Document>, tail: seq<byte>)
    requires AllSpace(tail)
    ensures NulFree(StreamText(xs, tail))
    decreases |xs|
  {
    if xs != [] {
      hide Print;
      assert IsDocument(xs[0]);
      PrintNulFree(xs[0].doc, xs[0].fmt);
      StreamNulFree(xs[1..], tail);
    }
  }

  lemma PrintNulFree(t: Json, fmt: bool)
    requires Printable(t)
    ensures NulFree(Print(t, fmt))
  {
    JsonWrite.ValueNulFree(t, 0, fmt);
  }

  /** Printed documents joined by white space form a stream of these documents. */
  lemma {:induction false} PrintedStream(xs: seq<Document>, tail: seq<byte>)
    requires AllSpace(tail)
    ensures IsStream(StreamText(xs, tail), Docs(xs)) && NulFree(StreamText(xs, tail))
    decreases |xs|
  {
    hide ParseStream, Print, NulFree;
    StreamNulFree(xs, tail);
    if xs != [] {
      PrintedStream(xs[1..], tail);
      FirstDocument(xs, tail);
      assert Docs(xs)[1..] == Docs(xs[1..]);
    }
  }

  lemma {:induction false} RestOfPrinted(xs: seq<Document>, tail: seq<byte>, n: nat)
    requires AllSpace(tail) && n <= |xs|
    ensures IsStream(StreamText(xs, tail), Docs(xs))
    ensures Rest(StreamText(xs, tail), Docs(xs), n) == StreamText(xs[n..], tail)
    decreases n
  {
    hide ParseStream, Print, NulFree, IsStream, Rest, StreamText, Docs, IsDocument, AllSpace;
    PrintedStream(xs, tail);
    if n == 0 {
      RestNone(StreamText(xs, tail), Docs(xs));
      assert xs[0..] == xs;
    } else {
      RestOfPrinted(xs[1..], tail, n - 1);
      FirstDocument(xs, tail);
      DocsTail(xs, n);
      RestFrom(StreamText(xs, tail), Docs(xs), n);
    }
  }

  lemma RestNone(text: seq<byte>, docs: seq<Json>)
    requires IsStream(text, docs)
    ensures Rest(text, docs, 0) == text
  {
  }

  lemma DocsTail(xs: seq<Document>, n: nat)
    requires 0 < n <= |xs|
    ensures Docs(xs)[1..] == Docs(xs[1..]) && xs[1..][n - 1..] == xs[n..]
  {
  }

  lemma RestFrom(text: seq<byte>, docs: seq<Json>, n: nat)
    requires IsStream(text, docs) && 0 < n <= |docs|
    ensures ParseStream(text).Ok? && IsStream(text[ParseStream(text).next..], docs[1..])
    ensures Rest(text, docs, n) == Rest(text[ParseStream(text).next..], docs[1..], n - 1)
  {
    hide ParseStream;
  }

  /** For a client that prints its documents and whose reads are gentle: no parse error, and the
      requests evaluated are those of a prefix of its documents, in order and once each. */
  lemma PrintedChunking(xs: seq<Document>, tail: seq<byte>, chunks: seq<seq<byte>>, future: seq<byte>)
    requires AllSpace(tail) && Flatten(chunks) + future == StreamText(xs, tail) && GentleRun(FRESH, chunks)
    ensures var c := Steps(FRESH, chunks);
            && c.status == Status.Open && c.taken <= |xs| && c.taken <= |chunks|
            && c.requests == Objects(Docs(xs)[..c.taken])
            && c.text + future == StreamText(xs[c.taken..], tail)
  {
    hide Step, StreamText, GentleRun, NulFree;
    PrintedStream(xs, tail);
    var text, docs := StreamText(xs, tail), Docs(xs);
    Chunking(text, docs, chunks, future);
    RestOfPrinted(xs, tail, Steps(FRESH, chunks).taken);
  }

  // ----- A client that waits -----

  /** A read that completes a document and nothing else, or that ends where an unfinished one may. */
  predicate Patient(text: seq<byte>) {
    match ParseStream(text)
    case Ok(_, end) => end <= |text| && AllSpace(text[end..])
    case _ => !InEscape(text, 0, |text|) && !AtPoint(text, 0, |text|)
  }

  ghost predicate PatientRun(c: Conn, chunks: seq<seq<byte>>) {
    chunks == [] ||
    var before, data := chunks[..|chunks| - 1], chunks[|chunks| - 1];
    PatientRun(c, before) && Patient(Steps(c, before).text + data)
  }

  /** White space at the start of a stream is as good as any other. */
  lemma ChangeBlank(xs: seq<Document>, tail: seq<byte>, w: seq<byte>, w': seq<byte>, future: seq<byte>)
      returns (xs': seq<Document>, tail': seq<byte>)
    requires AllSpace(tail) && AllSpace(w) && AllSpace(w') && w + future == StreamText(xs, tail)
    ensures AllSpace(tail') && w' + future == StreamText(xs', tail') && Docs(xs') == Docs(xs)
  {
    if xs == [] {
      assert AllSpace(future) by {
        assert forall i :: 0 <= i < |future| ==> future[i] == (w + future)[|w| + i];
      }
      xs', tail' := [], w' + future;
    } else {
      hide Print;
      var x, rest := xs[0], StreamText(xs[1..], tail);
      assert IsDocument(x);
      var front := x.blank + Print(x.doc, x.fmt);
      BlankIsShort(w, future, x.blank, Print(x.doc, x.fmt), rest, x.doc, x.fmt);
      var blank := w' + x.blank[|w|..];
      var y: Printed := x.(blank := blank);
      assert IsDocument(y);
      xs', tail' := [y] + xs[1..], tail;
      assert xs'[1..] == xs[1..];
      assert future == x.blank[|w|..] + Print(x.doc, x.fmt) + rest by {
        assert future == (w + future)[|w|..];
        assert (x.blank + Print(x.doc, x.fmt) + rest)[|w|..] == x.blank[|w|..] + Print(x.doc, x.fmt) + rest;
      }
      assert w' + future == blank + Print(x.doc, x.fmt) + rest;
    }
  }

  /** White space that a stream starts with ends before its first document. */
  lemma BlankIsShort(
    w: seq<byte>, future: seq<byte>, blank: seq<byte>, p: seq<byte>, rest: seq<byte>, t: Json, fmt: bool)
    requires AllSpace(w) && w + future == blank + p + rest && Printable(t) && p == Print(t, fmt)
    ensures |w| <= |blank|
  {
    FirstPrinted(t, 0, fmt);
    var s := blank + p + rest;
    assert s[|blank|] == p[0];
    assert forall i :: 0 <= i < |w| ==> w[i] == s[i];
  }

  /** The text is a stream of these documents, printed. */
  ghost predicate Remaining(text: seq<byte>, docs: seq<Json>) {
    exists xs: seq<Document>, tail :: AllSpace(tail) && Docs(xs) == docs && text == StreamText(xs, tail)
  }

  /** One read of a client that waits: the document is taken if it is complete, and what is left is
      a stream of the others. */
  lemma PatientStep(c: Conn, docs: seq<Json>, data: seq<byte>, future: seq<byte>)
    requires c.status == Status.Open && Remaining(c.text + (data + future), docs) && Patient(c.text + data)
    ensures var c', took := Step(c, data), docs != [] && ParseStream(c.text + data).Ok?;
            && c'.status == Status.Open && c'.taken == (if took then c.taken + 1 else c.taken)
            && c'.requests == (if took && docs[0].Obj? then c.requests + [docs[0]] else c.requests)
            && Remaining(c'.text + future, if took then docs[1..] else docs)
  {
    hide ParseStream, AfterShift, Print, NulFree, InEscape, AtPoint;
    var t := c.text + data;
    var xs: seq<Document>, tail: seq<byte> :|
      AllSpace(tail) && Docs(xs) == docs && c.text + (data + future) == StreamText(xs, tail);
    assert t + future == StreamText(xs, tail);
    StreamNulFree(xs, tail);
    if xs == [] {
      assert AllSpace(t) by {
        assert forall i :: 0 <= i < |t| ==> t[i] == (t + future)[i];
      }
      BlankStream(t);
    } else {
      FirstDocument(xs, tail);
      StepOnDocument(c, data, future, xs[0].doc);
      var end := ParseStream(t + future).next;
      PatientRead(t, future);
      if end <= |t| {
        AfterFirst(xs, tail, t[end..], AfterShift(t, end), t, future, end);
      }
    }
  }

  lemma AfterFirst(
    xs: seq<Document>, tail: seq<byte>, w: seq<byte>, w': seq<byte>, t: seq<byte>, future: seq<byte>, end: nat)
    requires AllSpace(tail) && AllSpace(w) && AllSpace(w') && xs != [] && end <= |t| && w == t[end..]
    requires (t + future)[end..] == StreamText(xs[1..], tail)
    ensures Remaining(w' + future, Docs(xs)[1..])
  {
    assert w + future == (t + future)[end..];
    var xs', tail' := ChangeBlank(xs[1..], tail, w, w', future);
    assert Docs(xs)[1..] == Docs(xs[1..]);
  }

  /** What a shift keeps of white space is white space. */
  lemma PatientRead(t: seq<byte>, future: seq<byte>)
    requires NulFree(t + future) && Patient(t)
    requires ParseStream(t + future).Ok? && IsContainer(ParseStream(t + future).value)
    ensures var end := ParseStream(t + future).next;
            if end <= |t| then AllSpace(t[end..]) && AllSpace(AfterShift(t, end)) && ParseStream(t).Ok?
            else Gentle(t) && !ParseStream(t).Ok?
  {
    hide ParseStream, AfterShift, InEscape, AtPoint;
    var rest := t + future;
    assert rest[..|t|] == t;
    StreamCut(rest, |t|);
    SameScan(rest, |t|);
    var end := ParseStream(rest).next;
    if end <= |t| {
      assert NulFree(t);
      ShiftExact(t, end);
      assert forall i :: 0 <= i < |AfterShift(t, end)| ==> AfterShift(t, end)[i] == t[end..][i];
    }
  }

  /** A client that waits: if no read goes beyond the white space after the document it completes, and
      none ends inside an escape or right after a point, every request is evaluated, in order and once
      each, however long the documents and however many the reads. */
  lemma {:induction false} PatientSteps(docs: seq<Json>, text: seq<byte>, chunks: seq<seq<byte>>, future: seq<byte>)
    requires Remaining(text, docs) && Flatten(chunks) + future == text && PatientRun(FRESH, chunks)
    ensures var c := Steps(FRESH, chunks);
            && c.status == Status.Open && c.taken <= |docs| && c.requests == Objects(docs[..c.taken])
            && Remaining(c.text + future, docs[c.taken..])
    decreases |chunks|
  {
    hide Step, Remaining, Patient, ParseStream, AfterShift;
    if chunks == [] {
      assert FRESH.text + future == text && docs[0..] == docs && docs[..0] == [];
    } else {
      hide Objects;
      var before, data := chunks[..|chunks| - 1], chunks[|chunks| - 1];
      var c := Steps(FRESH, before);
      assert Flatten(before) + (data + future) == text;
      PatientSteps(docs, text, before, data + future);
      PatientStep(c, docs[c.taken..], data, future);
      if c.taken < |docs| {
        NextRequest(docs, c.taken);
        NextLeft(docs, c.taken);
      }
    }
  }

  lemma NextLeft(docs: seq<Json>, n: nat)
    requires n < |docs|
    ensures docs[n..][1..] == docs[n + 1..] && docs[n..][0] == docs[n] && docs[n..] != []
  {
  }

  lemma DocumentLeft(text: seq<byte>, docs: seq<Json>)
    requires Remaining(text, docs)
    ensures docs != [] ==> ParseStream(text).Ok? && IsContainer(ParseStream(text).value)
    ensures AllSpace(text) ==> docs == [] && !ParseStream(text).Ok?
    ensures NulFree(text)
  {
    hide ParseStream, Print, NulFree;
    var xs: seq<Document>, tail: seq<byte> :| AllSpace(tail) && Docs(xs) == docs && text == StreamText(xs, tail);
    StreamNulFree(xs, tail);
    if xs != [] {
      FirstDocument(xs, tail);
    }
    if AllSpace(text) {
      BlankStream(text);
    }
  }

  /** Once such a client has sent everything, every request has been evaluated. */
  lemma EveryRequest(docs: seq<Json>, text: seq<byte>, chunks: seq<seq<byte>>)
    requires Remaining(text, docs) && Flatten(chunks) == text && PatientRun(FRESH, chunks)
    ensures var c := Steps(FRESH, chunks);
            c.status == Status.Open && c.taken == |docs| && c.requests == Objects(docs)
  {
    hide Step, Remaining, Patient, ParseStream, AfterShift, NulFree;
    assert Flatten(chunks) + [] == text && docs[..|docs|] == docs;
    PatientSteps(docs, text, chunks, []);
    if chunks == [] {
      DocumentLeft(text, docs);
    } else {
      var before, data := chunks[..|chunks| - 1], chunks[|chunks| - 1];
      var c := Steps(FRESH, before);
      assert Flatten(before) + (data + []) == text;
      PatientSteps(docs, text, before, data + []);
      assert c.text + (data + []) == c.text + data;
      LastRead(c, docs[c.taken..], data);
    }
  }

  /** ... and answered, in order and once each, with nothing else sent back. */
  lemma EveryReply(w: Watcher, docs: seq<Json>, text: seq<byte>) returns (times: seq<nat>)
    requires w.Valid() && Remaining(text, docs) && Flatten(w.chunks) == text && PatientRun(FRESH, w.chunks)
    ensures EvaluatedBy(w.responses, Objects(docs), w.tables, times)
    ensures forall table ::
              (forall t :: t in w.tables ==> t == table) ==> w.responses == EvalAll(table, Objects(docs))
  {
    hide Steps, Remaining, PatientRun, Objects;
    EveryRequest(docs, text, w.chunks);
    var good;
    good, times := RunReplies(w.chunks, w.tables);
    assert good + [] == good;
    forall table | forall t :: t in w.tables ==> t == table ensures w.responses == EvalAll(table, Objects(docs)) {
      OneTable(w.responses, Objects(docs), w.tables, times, table);
    }
  }

  /** The last read of such a client leaves no document behind. */
  lemma LastRead(c: Conn, docs: seq<Json>, data: seq<byte>)
    requires c.status == Status.Open && Remaining(c.text + data, docs) && Patient(c.text + data)
    ensures Step(c, data).taken == c.taken + |docs|
  {
    hide Step, Remaining, ParseStream, AfterShift, NulFree;
    var t := c.text + data;
    assert c.text + (data + []) == t && t + [] == t;
    PatientStep(c, docs, data, []);
    DocumentLeft(t, docs);
    if docs != [] {
      PatientRead(t, []);
      TakenText(c, data);
      assert Step(c, data).text + [] == Step(c, data).text;
      DocumentLeft(Step(c, data).text, docs[1..]);
    }
  }

  lemma TakenText(c: Conn, data: seq<byte>)
    requires c.status == Status.Open && ParseStream(c.text + data).Ok?
    ensures Step(c, data).text == AfterShift(c.text + data, ParseStream(c.text + data).next)
  {
    hide ParseStream, AfterShift;
  }

  // ----- Streams without escapes and points -----

  /** Strings and names without quotes, backslashes and control bytes. */
  predicate Plain(t: Json) {
    match t
    case Str(s) => forall i :: 0 <= i < |s| ==> IsPlain(s[i])
    case Arr(items) => forall i :: 0 <= i < |items| ==> Plain(items[i])
    case Obj(members) => forall i :: 0 <= i < |members| ==> PlainMember(members[i])
    case _ => true
  }

  predicate PlainMember(m: Member) {
    (forall i :: 0 <= i < |m.name| ==> IsPlain(m.name[i])) && Plain(m.value)
  }

  /** A text without backslashes that leaves no string open and has no point outside of strings. */
  ghost predicate Calm(s: seq<byte>) {
    && (forall i :: 0 <= i < |s| ==> s[i] != BACKSLASH)
    && Scan(Outside, s, 0, |s|) == Outside
    && forall k :: 0 < k <= |s| && s[k - 1] == DOT ==> Scan(Outside, s, 0, k) != Outside
  }

  /** Calm texts may be cut anywhere. */
  lemma CalmCut(text: seq<byte>, k: nat)
    requires Calm(text) && k <= |text|
    ensures !InEscape(text[..k], 0, k) && !AtPoint(text[..k], 0, k)
  {
    SameScan(text, k);
    NoSlash(text, k);
  }

  lemma {:induction false} NoSlash(text: seq<byte>, k: nat)
    requires k <= |text| && forall i :: 0 <= i < |text| ==> text[i] != BACKSLASH
    ensures Scan(Outside, text, 0, k).Outside? || Scan(Outside, text, 0, k).Inside?
    decreases k
  {
    if k > 0 {
      NoSlash(text, k - 1);
    }
  }

  lemma {:induction false} ScanSecond(a: seq<byte>, b: seq<byte>, j: nat)
    requires j <= |b| && Scan(Outside, a, 0, |a|) == Outside
    ensures Scan(Outside, a + b, 0, |a| + j) == Scan(Outside, b, 0, j)
    decreases j
  {
    if j == 0 {
      assert (a + b)[..|a|] == a;
      ScanPrefix(Outside, a + b, |a|, 0, |a|);
    } else {
      ScanSecond(a, b, j - 1);
      assert (a + b)[|a| + j - 1] == b[j - 1];
    }
  }

  lemma CalmConcat(a: seq<byte>, b: seq<byte>)
    requires Calm(a) && Calm(b)
    ensures Calm(a + b)
  {
    var s := a + b;
    ScanSecond(a, b, |b|);
    forall k | 0 < k <= |s| && s[k - 1] == DOT ensures Scan(Outside, s, 0, k) != Outside {
      if k <= |a| {
        assert s[..|a|] == a;
        ScanPrefix(Outside, s, |a|, 0, k);
        assert a[k - 1] == DOT;
      } else {
        ScanSecond(a, b, k - |a|);
        assert b[k - |a| - 1] == DOT;
      }
    }
  }

  lemma CalmBytes(s: seq<byte>)
    requires forall i :: 0 <= i < |s| ==> s[i] != QUOTE && s[i] != BACKSLASH && s[i] != DOT
    ensures Calm(s)
  {
    NoQuotes(s, 0, |s|);
  }

  lemma {:induction false} StaysInside(text: seq<byte>, p: nat, q: nat)
    requires p <= q <= |text| && forall i :: p <= i < q ==> text[i] != QUOTE && text[i] != BACKSLASH
    ensures Scan(Inside, text, p, q) == Inside
    decreases q
  {
    if p < q {
      StaysInside(text, p, q - 1);
    }
  }

  lemma {:induction false} PlainEscape(s: seq<byte>)
    requires NulFree(s) && forall i :: 0 <= i < |s| ==> IsPlain(s[i])
    ensures EscapeAll(s) == s
  {
    if s != [] {
      PlainEscape(s[1..]);
      assert s == [s[0]] + s[1..];
    }
  }

  lemma CalmString(s: seq<byte>)
    requires NulFree(s) && forall i :: 0 <= i < |s| ==> IsPlain(s[i])
    ensures Calm(PrintString(s))
  {
    PlainEscape(s);
    var t := PrintString(s);
    assert forall i :: 0 <= i < |s| ==> t[i + 1] == s[i];
    assert forall i :: 1 <= i < |t| - 1 ==> t[i] == s[i - 1];
    forall k | 0 < k < |t| ensures Scan(Outside, t, 0, k) == Inside {
      ScanFirst(Outside, t, 0, k);
      StaysInside(t, 1, k);
    }
    assert Scan(Outside, t, 0, |t|) == ScanByte(Scan(Outside, t, 0, |t| - 1), t[|t| - 1]);
  }

  lemma CalmDigits(n: nat)
    ensures Calm(Digits(n)) && Calm([MINUS] + Digits(n))
  {
    var d := [MINUS] + Digits(n);
    assert forall i :: 0 <= i < |Digits(n)| ==> IsDigit(Digits(n)[i]);
    CalmBytes(Digits(n));
    CalmBytes(d);
  }

  lemma {:induction false} CalmValue(t: Json, depth: nat, fmt: bool)
    requires Printable(t) && Plain(t)
    ensures Calm(PrintValue(t, depth, fmt))
    decreases t, 1
  {
    hide PrintItems, PrintMembers, PrintString, Calm, Digits;
    match t {
      case Null => CalmBytes(NULL_WORD);
      case False => CalmBytes(FALSE_WORD);
      case True => CalmBytes(TRUE_WORD);
      case Number(n, _, _) => CalmDigits(if n < 0 then -n else n);
      case Str(s) => CalmString(s);
      case Arr(items) =>
        CalmItems(items, depth + 1, fmt);
        CalmBytes([LBRACKET]);
        CalmBytes([RBRACKET]);
        CalmConcat(PrintItems(items, depth + 1, fmt), [RBRACKET]);
        CalmConcat([LBRACKET], PrintItems(items, depth + 1, fmt) + [RBRACKET]);
      case Obj(members) =>
        CalmMembers(members, depth + 1, fmt);
        CalmObject(members, depth, fmt);
    }
  }

  lemma CalmObject(members: seq<Member>, depth: nat, fmt: bool)
    requires Printable(Obj(members)) && Calm(PrintMembers(members, depth + 1, fmt))
    ensures Calm(PrintValue(Obj(members), depth, fmt))
  {
    hide PrintMembers, Calm;
    var a, b, c := Break(fmt), PrintMembers(members, depth + 1, fmt), Indent(depth, fmt);
    CalmBytes([LBRACE]);
    CalmBytes([RBRACE]);
    CalmBytes(a);
    CalmBytes(c);
    CalmConcat(c, [RBRACE]);
    CalmConcat(b, c + [RBRACE]);
    CalmConcat(a, b + (c + [RBRACE]));
    CalmConcat([LBRACE], a + (b + (c + [RBRACE])));
  }

  lemma {:induction false} CalmItems(items: seq<Json>, depth: nat, fmt: bool)
    requires Printable(Arr(items)) && Plain(Arr(items))
    ensures Calm(PrintItems(items, depth, fmt))
    decreases items, 0
  {
    hide PrintValue, Calm;
    CalmBytes([]);
    if items != [] {
      var v, sep, rest := PrintValue(items[0], depth, fmt), Separator(fmt), PrintItems(items[1..], depth, fmt);
      CalmValue(items[0], depth, fmt);
      CalmItems(items[1..], depth, fmt);
      CalmBytes(sep);
      CalmConcat(sep, rest);
      CalmConcat(v, sep + rest);
    }
  }

  lemma {:induction false} CalmMembers(members: seq<Member>, depth: nat, fmt: bool)
    requires Printable(Obj(members)) && Plain(Obj(members))
    ensures Calm(PrintMembers(members, depth, fmt))
    decreases members, 0
  {
    hide PrintMember, Calm;
    CalmBytes([]);
    if members != [] {
      var a, m, c := Indent(depth, fmt), PrintMember(members[0], depth, fmt), Break(fmt);
      var comma: seq<byte> := if |members| > 1 then [COMMA] else [];
      var rest := PrintMembers(members[1..], depth, fmt);
      CalmMember(members[0], depth, fmt);
      CalmMembers(members[1..], depth, fmt);
      CalmBytes(a);
      CalmBytes(comma);
      CalmBytes(c);
      CalmConcat(c, rest);
      CalmConcat(comma, c + rest);
      CalmConcat(m, comma + (c + rest));
      CalmConcat(a, m + (comma + (c + rest)));
    }
  }

  lemma {:induction false} CalmMember(m: Member, depth: nat, fmt: bool)
    requires PrintableMember(m) && PlainMember(m)
    ensures Calm(PrintMember(m, depth, fmt))
    decreases m, 2
  {
    hide PrintValue, PrintString, Calm;
    var gap, v := Gap(fmt), PrintValue(m.value, depth, fmt);
    CalmString(m.name);
    CalmValue(m.value, depth, fmt);
    CalmBytes([COLON]);
    CalmBytes(gap);
    CalmConcat(gap, v);
    CalmConcat([COLON], gap + v);
    CalmConcat(PrintString(m.name), [COLON] + (gap + v));
  }

  predicate AllPlain(xs: seq<Document>) {
    forall i :: 0 <= i < |xs| ==> Plain(xs[i].doc)
  }

  lemma {:induction false} CalmStream(xs: seq<Document>, tail: seq<byte>)
    requires AllSpace(tail) && AllPlain(xs)
    ensures Calm(StreamText(xs, tail))
    decreases |xs|
  {
    hide Print, Calm;
    if xs == [] {
      CalmBytes(tail);
    } else {
      var x, rest := xs[0], StreamText(xs[1..], tail);
      assert IsDocument(x);
      CalmStream(xs[1..], tail);
      CalmBytes(x.blank);
      CalmDocument(x.doc, x.fmt);
      CalmConcat(x.blank, Print(x.doc, x.fmt));
      CalmConcat(x.blank + Print(x.doc, x.fmt), rest);
    }
  }

  lemma CalmDocument(t: Json, fmt: bool)
    requires Printable(t) && Plain(t)
    ensures Calm(Print(t, fmt))
  {
    hide Calm;
    CalmValue(t, 0, fmt);
  }

  /** Every document that is taken leaves room for what has arrived behind it. */
  ghost predicate RoomyRun(c: Conn, chunks: seq<seq<byte>>) {
    chunks == [] ||
    var before, data := chunks[..|chunks| - 1], chunks[|chunks| - 1];
    var t := Steps(c, before).text + data;
    && RoomyRun(c, before)
    && match ParseStream(t)
       case Ok(_, end) => end <= |t| && KeepsRest(|t| - end, end)
       case _ => true
  }

  /** On plain documents only the room matters: the reads may be cut anywhere. */
  lemma {:induction false} PlainRun(xs: seq<Document>, tail: seq<byte>, chunks: seq<seq<byte>>, future: seq<byte>)
    requires AllSpace(tail) && AllPlain(xs) && Flatten(chunks) + future == StreamText(xs, tail)
    requires RoomyRun(FRESH, chunks)
    ensures GentleRun(FRESH, chunks)
    decreases |chunks|
  {
    hide Step, ParseStream, StreamText, InEscape, AtPoint, Calm, NulFree;
    if chunks != [] {
      var before, data := chunks[..|chunks| - 1], chunks[|chunks| - 1];
      var c := Steps(FRESH, before);
      assert Flatten(before) + (data + future) == StreamText(xs, tail);
      PlainRun(xs, tail, before, data + future);
      PrintedChunking(xs, tail, before, data + future);
      var t := c.text + data;
      var rest := StreamText(xs[c.taken..], tail);
      CalmStream(xs[c.taken..], tail);
      assert rest == t + future && rest[..|t|] == t;
      CalmCut(rest, |t|);
    }
  }

  /** For a client that prints plain documents: however they are cut, the requests evaluated are those
      of a prefix of its documents, as long as every document leaves room for what arrives behind it. */
  lemma PlainChunking(xs: seq<Document>, tail: seq<byte>, chunks: seq<seq<byte>>, future: seq<byte>)
    requires AllSpace(tail) && AllPlain(xs) && Flatten(chunks) + future == StreamText(xs, tail)
    requires RoomyRun(FRESH, chunks)
    ensures var c := Steps(FRESH, chunks);
            && c.status == Status.Open && c.taken <= |xs| && c.requests == Objects(Docs(xs)[..c.taken])
            && c.text + future == StreamText(xs[c.taken..], tail)
  {
    hide Step, StreamText, GentleRun, RoomyRun;
    PlainRun(xs, tail, chunks, future);
    PrintedChunking(xs, tail, chunks, future);
  }

  // ----- Two streams that are lost -----

  /** `{"a":1}`. */
  const REQUEST_A: seq<byte> := [LBRACE, QUOTE, 0x61, QUOTE, COLON, 0x31, RBRACE]

  /** `{"b":2}`. */
  const REQUEST_B: seq<byte> := [LBRACE, QUOTE, 0x62, QUOTE, COLON, 0x32, RBRACE]

  /** `{}{"a":"x"}`. */
  const EMPTY_THEN_X: seq<byte> :=
    [LBRACE, RBRACE, LBRACE, QUOTE, 0x61, QUOTE, COLON, QUOTE, 0x78, QUOTE, RBRACE]

  lemma RequestA()
    ensures Print(Obj([Member([0x61], Int(1))]), false) == REQUEST_A
  {
    var m := Member([0x61], Int(1));
    assert EscapeAll([0x61]) == [0x61] by {
      assert [0x61][1..] == [];
    }
    assert PrintString([0x61]) == [QUOTE, 0x61, QUOTE];
    assert PrintValue(Int(1), 1, false) == [0x31];
    assert PrintMember(m, 1, false) == [QUOTE, 0x61, QUOTE, COLON, 0x31];
    assert [m][1..] == [];
    assert PrintMembers([m], 1, false) == PrintMember(m, 1, false);
  }

  /** `{"a":1} {"b":2}` in one read: the second request is lost but for the space before it, which is
      all that stays in the buffer. */
  lemma Pipelined()
    ensures Step(FRESH, REQUEST_A + [SPACE] + REQUEST_B)
         == Conn([SPACE], [Obj([Member([0x61], Int(1))])], 1, Status.Open)
  {
    hide ParseStream, AfterShift, Print;
    var doc := Obj([Member([0x61], Int(1))]);
    var rest := [SPACE] + REQUEST_B;
    var text := REQUEST_A + [SPACE] + REQUEST_B;
    RequestA();
    assert text == [] + Print(doc, false) + rest;
    PrintedRead(text, [], doc, false, rest);
    assert FRESH.text + text == text && text[7..] == rest;
    ShiftCases(text, 7);
    assert rest[..1] == [SPACE];
    assert FRESH.requests + [doc] == [doc];
  }

  /** What is left of it by a first read: `{"a":"x`. */
  const LEFT_OPEN: seq<byte> := [LBRACE, QUOTE, 0x61, QUOTE, COLON, QUOTE, 0x78]

  /** The next request then continues a string that was already closed. */
  lemma Garbled()
    ensures ParseStream(LEFT_OPEN + REQUEST_B) == Fail(9)
  {
    hide ParseNumber, ParseArray;
    var t := LEFT_OPEN + REQUEST_B;
    PlainEscape([0x61]);
    StringRoundTrip(t, 1, [0x61]);
    PlainEscape([0x78, LBRACE]);
    StringRoundTrip(t, 5, [0x78, LBRACE]);
    NoWord(t, 5);
    NoWord(t, 0);
    SkipUnique(t, 0, 0);
    SkipUnique(t, 1, 1);
    SkipUnique(t, 4, 4);
    SkipUnique(t, 5, 5);
    SkipUnique(t, 9, 9);
    hide ParseString, ParseWord, Skip;
    assert ParseValue(t, 5) == Ok(Str([0x78, LBRACE]), 9);
    assert ParseMember(t, 1) == Ok(Member([0x61], Str([0x78, LBRACE])), 9);
    assert ParseMembers(t, 1) == Fail(9);
    assert ParseObject(t, 0) == Fail(9);
  }

  lemma EmptyObject()
    ensures Print(Obj([]), false) == [LBRACE, RBRACE]
  {
  }

  /** `{}{"a":"x"}` and then `{"b":2}`: the second request loses its last two bytes, and the third one
      is answered with a parse error. */
  lemma TornApart()
    ensures Steps(FRESH, [EMPTY_THEN_X, REQUEST_B]).status == Status.Failed
    ensures Steps(FRESH, [EMPTY_THEN_X, REQUEST_B]).taken == 1
  {
    hide ParseStream, AfterShift, Print;
    var chunks: seq<seq<byte>> := [EMPTY_THEN_X, REQUEST_B];
    assert chunks[..1] == [EMPTY_THEN_X];
    assert Steps(FRESH, chunks[..1]) == Step(FRESH, EMPTY_THEN_X);
    EmptyObject();
    assert EMPTY_THEN_X == [] + Print(Obj([]), false) + EMPTY_THEN_X[2..];
    PrintedRead(EMPTY_THEN_X, [], Obj([]), false, EMPTY_THEN_X[2..]);
    assert FRESH.text + EMPTY_THEN_X == EMPTY_THEN_X;
    ShiftCases(EMPTY_THEN_X, 2);
    assert EMPTY_THEN_X[2..][..7] == LEFT_OPEN;
    Garbled();
  }
}
