/** The receive buffer of a JSON-RPC connection: `connection_cb` cuts documents out of the stream. */
module Connection {
  import opened Text
  import opened Json
  import opened JsonNumber
  import opened JsonParse
  import opened JsonCut
  import opened JsonNode
  import opened JsonBuild
  import opened Procedures

  const PARSE_ERROR := -32700

  // ----- One read as a function -----

  /** `Open` until a read ends the connection; `Lost` where the parser's outcome is not specified. */
  datatype Status = Open | Failed | Closed | Lost

  /** A connection: the unconsumed bytes, the requests evaluated so far in order, and how many
      documents have been taken off the stream. */
  datatype Conn = Conn(text: seq<byte>, requests: seq<Json>, taken: nat, status: Status)

  const FRESH := Conn([], [], 0, Open)

  /** Memory after `memmove(buffer, buffer + end, n + 2)`, as far as the text reached. */
  function Moved(text: seq<byte>, end: nat, n: nat): (m: seq<byte>)
    ensures |m| == |text|
    ensures forall i :: 0 <= i < |m| ==> m[i] == At(text, if i < n + 2 then end + i else i)
  {
    seq<byte>(|text|, i requires 0 <= i => At(text, if i < n + 2 then end + i else i))
  }

  /** What lines 189-193 leave once a document of `end` bytes has been taken: the string behind it is
      moved to the front, and then measured where it was before. */
  function AfterShift(text: seq<byte>, end: nat): (s: seq<byte>)
    requires end <= |text|
    ensures |s| <= |text|
  {
    var moved := Moved(text, end, |UpToNul(text[end..])|);
    moved[..|UpToNul(moved[end..])|]
  }

  /** `connection_cb` once `data` has been read: at most one document is taken. */
  function Step(c: Conn, data: seq<byte>): Conn {
    if c.status != Status.Open then c
    else
      var text := c.text + data;
      match ParseStream(text)
      case Ok(root, end) =>
        Conn(AfterShift(text, end), if root.Obj? then c.requests + [root] else c.requests, c.taken + 1, Status.Open)
      case Fail(at) => Conn(text, c.requests, c.taken, if at == |text| then Status.Open else Status.Failed)
      case Unspecified => Conn(text, c.requests, c.taken, Lost)
  }

  /** What `connection_cb` sends back once `data` has been read. */
  function Answers(c: Conn, data: seq<byte>, table: seq<Procedure>): seq<Response> {
    if c.status != Status.Open then []
    else
      match ParseStream(c.text + data)
      case Ok(Obj(members), _) => [Eval(table, members)]
      case Ok(_, _) => []
      case Fail(at) => if at == |c.text + data| then [] else [Response.Error(PARSE_ERROR, None)]
      case Unspecified => []
  }

  function Steps(c: Conn, chunks: seq<seq<byte>>): Conn {
    if chunks == [] then c else Step(Steps(c, chunks[..|chunks| - 1]), chunks[|chunks| - 1])
  }

  /** What it has sent back after some reads, each with the procedure table of its time. */
  function Replies(chunks: seq<seq<byte>>, tables: seq<seq<Procedure>>): seq<Response>
    requires |tables| == |chunks|
  {
    if chunks == [] then []
    else
      var n := |chunks| - 1;
      Replies(chunks[..n], tables[..n]) + Answers(Steps(FRESH, chunks[..n]), chunks[n], tables[n])
  }

  function Flatten(chunks: seq<seq<byte>>): seq<byte> {
    if chunks == [] then [] else Flatten(chunks[..|chunks| - 1]) + chunks[|chunks| - 1]
  }

  // ----- The connection as it runs -----

  /** What `read` returned. */
  datatype ReadResult = Data(bytes: seq<byte>) | Eof | ReadError

  class Watcher {
    var buffer: array<byte>
    var bufferSize: nat
    var pos: nat
    var responses: seq<Response>
    ghost var conn: Conn
    ghost var chunks: seq<seq<byte>>
    ghost var tables: seq<seq<Procedure>>

    /** As `accept_cb` sets it up. */
    constructor ()
      ensures Valid() && conn == FRESH && chunks == [] && responses == [] && fresh(buffer) && bufferSize == 1500
    {
      bufferSize := 1500;
      buffer := new byte[1500](_ => 0);
      pos := 0;
      responses := [];
      conn := FRESH;
      chunks, tables := [], [];
    }

    /** The connection is where its reads have brought it, unless it has been closed since, and what it
        has sent back is what they were answered with. */
    ghost predicate Valid()
      reads this, buffer
    {
      && Buffered() && |tables| == |chunks|
      && (conn == Steps(FRESH, chunks) || conn == Steps(FRESH, chunks).(status := Closed))
      && responses == Replies(chunks, tables)
    }

    /** The buffer holds exactly the unconsumed bytes, a zero follows, and one byte is always left
        for it. */
    ghost predicate Buffered()
      reads this, buffer
    {
      && bufferSize == buffer.Length && 2 <= bufferSize && pos <= bufferSize - 1
      && (forall i :: pos <= i < bufferSize ==> buffer[i] == 0)
      && (conn.status == Status.Open ==> buffer[..pos] == conn.text)
    }

    /** How much `connection_cb` asks `read` for, after growing the buffer where it is full. */
    function MaxRead(): nat
      reads this
    {
      if pos == bufferSize - 1 then 2 * bufferSize - pos - 1
      else if pos <= bufferSize - 1 then bufferSize - pos - 1 else 0
    }

    /** `connection_cb`. */
    method OnReadable(server: Server, result: ReadResult)
      requires Valid() && conn.status == Status.Open && server.Valid()
      requires result.Data? ==> 0 < |result.bytes| <= MaxRead()
      modifies this, buffer
      ensures Valid()
      ensures conn == if result.Data? then Step(old(conn), result.bytes) else old(conn).(status := Closed)
      ensures responses == old(responses) +
                if result.Data? then Answers(old(conn), result.bytes, server.Table()) else []
      ensures bufferSize == if old(pos) == old(bufferSize) - 1 then 2 * old(bufferSize) else old(bufferSize)
      ensures chunks == old(chunks) + if result.Data? then [result.bytes] else []
      ensures tables == old(tables) + if result.Data? then [server.Table()] else []
    {
      hide Step, Steps, Answers, Replies;
      if pos == bufferSize - 1 {
        Grow();
      }
      if !result.Data? {
        conn := conn.(status := Closed);
        return;
      }
      Receive(result.bytes);
      ghost var left := Consume(server, result.bytes);
      OneMoreRead(chunks, tables, result.bytes, server.Table());
      chunks, tables := chunks + [result.bytes], tables + [server.Table()];
    }

    /** What follows the `read`: a document is taken, more is waited for, or the connection fails. The
        blocks of the tree that are `left` allocated are none. */
    method Consume(server: Server, ghost data: seq<byte>) returns (ghost left: set<object>)
      requires conn.status == Status.Open && server.Valid()
      requires bufferSize == buffer.Length && 2 <= bufferSize && pos <= bufferSize - 1
      requires forall i :: pos <= i < bufferSize ==> buffer[i] == 0
      requires buffer[..pos] == conn.text + data
      modifies this`pos, this`conn, this`responses, buffer
      ensures Buffered() && conn == Step(old(conn), data)
      ensures responses == old(responses) + Answers(old(conn), data, server.Table())
      ensures left == {}
    {
      hide ParseStream, UpToNul, Eval, AfterShift, AllChains, Separate, AllOwners, Owned, Describes;
      var c := new Cursor(buffer[..pos]);
      ghost var f;
      var status, root;
      status, root, f, left := ParseStreamAt(c, {});
      NoTree(root, f);
      EmptyForest();
      conn := Step(conn, data);
      if root != null {
        Allocated(f);
        var answers := Evaluate(server, root, f);
        responses := responses + answers;
        Shift(c.pos);
        left := Delete(root, f, left);
      } else if status.NoMatch? && c.pos != pos {
        // send_error and close_connection
        responses := responses + [Response.Error(PARSE_ERROR, None)];
      }
    }

    /** An object is evaluated as a request, and any other document is dropped. */
    method Evaluate(server: Server, root: Node, ghost f: Forest) returns (answers: seq<Response>)
      requires server.Valid() && Shape(root, f) && Grown(f)
      ensures f.Tree?
      ensures answers == match f.member.value
                         case Obj(members) => [Eval(server.Table(), members)]
                         case _ => []
    {
      hide Eval;
      answers := [];
      if root.kind == KIND_OBJECT {
        EmptyForest();
        FirstTree(root, f);
        var r := server.EvalRequest(root, f.kids);
        answers := [r];
      }
    }

    /** The `read` into the buffer. */
    method Receive(data: seq<byte>)
      requires Buffered() && conn.status == Status.Open && pos + |data| <= bufferSize - 1
      modifies this`pos, buffer
      ensures pos == old(pos) + |data| && buffer[..pos] == conn.text + data
      ensures forall i :: pos <= i < bufferSize ==> buffer[i] == 0
    {
      CopyInto(buffer, pos, data);
      ghost var tail := buffer[pos + |data|..];
      pos := pos + |data|;
      forall i | pos <= i < bufferSize ensures buffer[i] == 0 {
        assert buffer[i] == tail[i - pos];
      }
    }

    /** `realloc` to twice the size, the new bytes zeroed. */
    method Grow()
      requires Buffered() && pos == bufferSize - 1
      modifies this`buffer, this`bufferSize
      ensures Buffered() && fresh(buffer) && bufferSize == 2 * old(bufferSize)
    {
      var bigger := new byte[2 * bufferSize](_ => 0);
      forall i | 0 <= i < pos {
        bigger[i] := buffer[i];
      }
      assert bigger[..pos] == buffer[..pos];
      buffer := bigger;
      bufferSize := 2 * bufferSize;
    }

    /** The document before `end` is discarded, as written: `memmove`, then `strlen` at the old place,
        then `memset`. */
    method Shift(end: nat)
      requires bufferSize == buffer.Length && 2 <= bufferSize && 0 < end <= pos <= bufferSize - 1
      requires forall i :: pos <= i < bufferSize ==> buffer[i] == 0
      modifies this`pos, buffer
      ensures pos <= bufferSize - 1 && forall i :: pos <= i < bufferSize ==> buffer[i] == 0
      ensures buffer[..pos] == AfterShift(old(buffer[..pos]), end)
    {
      ghost var text := buffer[..pos];
      var n := StrLenFrom(buffer, end, pos);
      StrLenIs(buffer[..pos], end, n);
      MemMove(end, n, text);
      var kept := StrLenFrom(buffer, end, pos);
      StrLenIs(buffer[..pos], end, kept);
      pos := kept;
      Clear();
    }

    /** `memmove(buffer, buffer + end, n + 2)`. The byte it takes from behind a full buffer is read as
        zero. */
    method MemMove(end: nat, n: nat, ghost text: seq<byte>)
      requires bufferSize == buffer.Length && 0 < end && end + n <= pos <= bufferSize - 1
      requires forall i :: pos <= i < bufferSize ==> buffer[i] == 0
      requires buffer[..pos] == text
      modifies buffer
      ensures buffer[..pos] == Moved(text, end, n)
      ensures forall i :: pos <= i < bufferSize ==> buffer[i] == 0
    {
      assert forall i :: 0 <= i < bufferSize ==> buffer[i] == At(text, i);
      forall i | 0 <= i < n + 2 {
        buffer[i] := if end + i < bufferSize then buffer[end + i] else 0;
      }
    }

    /** `memset(buffer + pos, 0, buffer_size - pos - 1)`. */
    method Clear()
      requires bufferSize == buffer.Length && pos <= bufferSize - 1 && buffer[bufferSize - 1] == 0
      modifies buffer
      ensures buffer[..pos] == old(buffer[..pos]) && forall i :: pos <= i < bufferSize ==> buffer[i] == 0
    {
      forall i | pos <= i < bufferSize - 1 {
        buffer[i] := 0;
      }
    }
  }

  lemma OneMoreRead(chunks: seq<seq<byte>>, tables: seq<seq<Procedure>>, data: seq<byte>, table: seq<Procedure>)
    requires |tables| == |chunks|
    ensures var c := Steps(FRESH, chunks);
            && Steps(FRESH, chunks + [data]) == Step(c, data)
            && Replies(chunks + [data], tables + [table]) == Replies(chunks, tables) + Answers(c, data, table)
  {
    hide Step, Answers;
    assert (chunks + [data])[..|chunks|] == chunks && (tables + [table])[..|tables|] == tables;
  }

  /** What `strlen` has counted from `from` on is the string there. */
  lemma StrLenIs(s: seq<byte>, from: nat, n: nat)
    requires from + n <= |s| && At(s, from + n) == 0
    requires forall i :: from <= i < from + n ==> s[i] != 0
    ensures n == |UpToNul(s[from..])|
  {
    UpToNulAt(s[from..], n);
  }

  /** `strlen(a + from)`, the zero at `limit` being there to stop it. */
  method StrLenFrom(a: array<byte>, from: nat, limit: nat) returns (n: nat)
    requires from <= limit < a.Length && a[limit] == 0
    ensures from + n <= limit && a[from + n] == 0
    ensures forall i :: from <= i < from + n ==> a[i] != 0
  {
    n := 0;
    while a[from + n] != 0
      invariant from + n <= limit
      invariant forall i :: from <= i < from + n ==> a[i] != 0
      decreases limit - n
    {
      n := n + 1;
    }
  }

  // ----- What a shift keeps -----

  /** The three cases: what follows a document of `end` bytes is kept whole only if it is at least two
      bytes shorter; otherwise its last bytes are lost, as many as the document had or all. */
  lemma ShiftCases(text: seq<byte>, end: nat)
    requires NulFree(text) && 0 < end <= |text|
    ensures var n := |text| - end;
            AfterShift(text, end) ==
              if n + 2 <= end then text[end..]
              else if n + 1 == end then []
              else text[end..][..n - end]
  {
    var rest := text[end..];
    var n := |rest|;
    UpToNulFree(rest);
    var moved := Moved(text, end, n);
    var kept := if n + 2 <= end then n else if n + 1 == end then 0 else n - end;
    StrLenIs(moved, end, kept);
    assert moved[..kept] == rest[..kept];
  }

  /** The room a document leaves for what follows it in the buffer. */
  predicate KeepsRest(n: nat, end: nat) {
    n == 0 || n + 2 <= end
  }

  /** The unconsumed bytes are kept exactly if there are none or they are two bytes shorter than what
      has been consumed. */
  lemma ShiftExact(text: seq<byte>, end: nat)
    requires NulFree(text) && 0 < end <= |text|
    ensures AfterShift(text, end) == text[end..] <==> KeepsRest(|text| - end, end)
    ensures AfterShift(text, end) <= text[end..]
  {
    hide AfterShift;
    ShiftCases(text, end);
  }

  // ----- Streams of documents -----

  /** The text is these documents in order, white space before each and at the end. */
  ghost predicate IsStream(text: seq<byte>, docs: seq<Json>)
    decreases |docs|
  {
    if docs == [] then forall i :: 0 <= i < |text| ==> IsSpace(text[i])
    else
      var r := ParseStream(text);
      r.Ok? && r.value == docs[0] && IsContainer(docs[0]) && IsStream(text[r.next..], docs[1..])
  }

  /** What is left of a stream after its first `n` documents. */
  ghost function Rest(text: seq<byte>, docs: seq<Json>, n: nat): seq<byte>
    requires IsStream(text, docs) && n <= |docs|
    decreases n
  {
    if n == 0 then text else Rest(text[ParseStream(text).next..], docs[1..], n - 1)
  }

  /** The documents that are requests: `connection_cb` drops the others. */
  function Objects(docs: seq<Json>): (objects: seq<Json>)
    ensures forall o :: o in objects ==> o.Obj?
  {
    if docs == [] then []
    else
      var before := Objects(docs[..|docs| - 1]);
      if docs[|docs| - 1].Obj? then before + [docs[|docs| - 1]] else before
  }

  lemma {:induction false} RestIsStream(text: seq<byte>, docs: seq<Json>, n: nat)
    requires IsStream(text, docs) && n <= |docs| && NulFree(text)
    ensures IsStream(Rest(text, docs, n), docs[n..]) && NulFree(Rest(text, docs, n))
    decreases n
  {
    hide ParseStream;
    if n == 0 {
      assert docs[0..] == docs;
    } else {
      RestIsStream(text[ParseStream(text).next..], docs[1..], n - 1);
      assert docs[1..][n - 1..] == docs[n..];
    }
  }

  lemma {:induction false} RestStep(text: seq<byte>, docs: seq<Json>, n: nat)
    requires IsStream(text, docs) && n < |docs| && NulFree(text)
    ensures var r := ParseStream(Rest(text, docs, n));
            && r.Ok? && r.value == docs[n] && IsContainer(docs[n])
            && Rest(text, docs, n + 1) == Rest(text, docs, n)[r.next..]
    decreases n
  {
    hide ParseStream;
    RestIsStream(text, docs, n);
    if n > 0 {
      RestStep(text[ParseStream(text).next..], docs[1..], n - 1);
    }
  }

  // ----- Which reads a connection survives -----

  /** What has to hold of the unconsumed bytes `text` once a read has been added to them. A document
      that is all there must be followed by nothing or by less than its room; one that is not must
      end neither inside an escape nor right after the point of a number. */
  predicate Gentle(text: seq<byte>) {
    match ParseStream(text)
    case Ok(_, end) => end <= |text| && KeepsRest(|text| - end, end)
    case _ => !InEscape(text, 0, |text|) && !AtPoint(text, 0, |text|)
  }

  /** All reads are of that kind. */
  ghost predicate GentleRun(c: Conn, chunks: seq<seq<byte>>) {
    chunks == [] ||
    var before, data := chunks[..|chunks| - 1], chunks[|chunks| - 1];
    GentleRun(c, before) && Gentle(Steps(c, before).text + data)
  }

  lemma {:induction false} ScanPrefix(s: Scanner, text: seq<byte>, k: nat, p: nat, j: nat)
    requires j <= k <= |text|
    ensures Scan(s, text[..k], p, j) == Scan(s, text, p, j)
    decreases j
  {
    if p < j {
      ScanPrefix(s, text, k, p, j - 1);
    }
  }

  // ----- Chunking -----

  /** What holds of a connection that has read all of a stream but `future`. */
  ghost predicate OnTrack(c: Conn, text: seq<byte>, docs: seq<Json>, future: seq<byte>)
    requires IsStream(text, docs)
  {
    && c.status == Status.Open && c.taken <= |docs|
    && c.requests == Objects(docs[..c.taken])
    && c.text + future == Rest(text, docs, c.taken)
  }

  /** The first `n` bytes after the `taken` documents hold one more document. */
  ghost predicate Arrived(text: seq<byte>, docs: seq<Json>, taken: nat, n: nat)
    requires IsStream(text, docs) && taken <= |docs|
  {
    taken < |docs| && ParseStream(Rest(text, docs, taken)).Ok? && ParseStream(Rest(text, docs, taken)).next <= n
  }

  /** One read takes the next document exactly when all of it has arrived, and it keeps the
      connection on track exactly when it is gentle. */
  lemma StepOnTrack(c: Conn, text: seq<byte>, docs: seq<Json>, data: seq<byte>, future: seq<byte>)
    requires IsStream(text, docs) && NulFree(text)
    requires OnTrack(c, text, docs, data + future)
    ensures c.taken <= |docs|
    ensures OnTrack(Step(c, data), text, docs, future) <==> Gentle(c.text + data)
    ensures Step(c, data).taken
         == if Arrived(text, docs, c.taken, |c.text| + |data|) then c.taken + 1 else c.taken
  {
    hide ParseStream, Step, Rest, IsStream, Gentle, NulFree, AfterShift;
    var t := c.text + data;
    RestIsStream(text, docs, c.taken);
    assert t + future == c.text + (data + future);
    if c.taken == |docs| {
      LastStep(c, text, docs, data, future);
    } else {
      RestStep(text, docs, c.taken);
      StepOnDocument(c, data, future, docs[c.taken]);
      assert docs[..c.taken + 1][..c.taken] == docs[..c.taken];
      var end := ParseStream(t + future).next;
      if end <= |t| {
        SameRest(Step(c, data).text, t, future, end);
      }
    }
  }

  /** What is kept is all there was exactly if it goes on as the stream does. */
  lemma SameRest(kept: seq<byte>, t: seq<byte>, future: seq<byte>, end: nat)
    requires end <= |t|
    ensures kept + future == (t + future)[end..] <==> kept == t[end..]
  {
    assert (t + future)[end..] == t[end..] + future;
    if kept + future == t[end..] + future {
      assert |kept| == |t[end..]|;
      assert kept == (kept + future)[..|kept|] == t[end..];
    }
  }

  /** After the last document only white space is left, and the connection waits. */
  lemma LastStep(c: Conn, text: seq<byte>, docs: seq<Json>, data: seq<byte>, future: seq<byte>)
    requires IsStream(text, docs) && NulFree(text) && c.status == Status.Open
    requires c.taken == |docs| && c.text + (data + future) == Rest(text, docs, c.taken)
    ensures Step(c, data) == c.(text := c.text + data) && Gentle(c.text + data)
  {
    hide ParseStream;
    RestIsStream(text, docs, c.taken);
    assert docs[c.taken..] == [];
    var t := c.text + data;
    assert t == (c.text + (data + future))[..|t|];
    BlankStream(t);
  }

  /** One read towards a document: it is taken when all of it is there, and waited for otherwise
      unless the read is a rough one. */
  lemma StepOnDocument(c: Conn, data: seq<byte>, future: seq<byte>, doc: Json)
    requires c.status == Status.Open && NulFree(c.text + data + future)
    requires var r := ParseStream(c.text + data + future); r.Ok? && r.value == doc
    requires IsContainer(doc)
    ensures var t, end := c.text + data, ParseStream(c.text + data + future).next;
            if end <= |t| then
              && Step(c, data) ==
                 Conn(AfterShift(t, end), if doc.Obj? then c.requests + [doc] else c.requests, c.taken + 1, Status.Open)
              && (Step(c, data).text == t[end..] <==> Gentle(t))
            else
              && (Gentle(t) ==> Step(c, data) == c.(text := t))
              && (!Gentle(t) ==>
                    Step(c, data) == c.(text := t, status := if InEscape(t, 0, |t|) then Lost else Status.Failed))
  {
    hide ParseStream, AfterShift, InEscape, AtPoint;
    var t := c.text + data;
    var rest := t + future;
    assert t == rest[..|t|];
    StreamCut(rest, |t|);
    SameScan(rest, |t|);
    var end := ParseStream(rest).next;
    if end <= |t| {
      assert NulFree(t);
      ShiftExact(t, end);
    }
  }

  lemma SameScan(text: seq<byte>, k: nat)
    requires k <= |text|
    ensures InEscape(text[..k], 0, k) == InEscape(text, 0, k) && AtPoint(text[..k], 0, k) == AtPoint(text, 0, k)
    ensures !(InEscape(text, 0, k) && AtPoint(text, 0, k))
  {
    ScanPrefix(Outside, text, k, 0, k);
  }

  lemma BlankStream(text: seq<byte>)
    requires forall i :: 0 <= i < |text| ==> IsSpace(text[i])
    ensures ParseStream(text) == Fail(|text|) && !InEscape(text, 0, |text|) && !AtPoint(text, 0, |text|)
  {
    SkipUnique(text, 0, |text|);
    assert text[..|text|] == text;
    AtEnd(text, |text|);
    Blank(text, 0, |text|);
  }

  lemma FreshOnTrack(text: seq<byte>, docs: seq<Json>)
    requires IsStream(text, docs)
    ensures OnTrack(FRESH, text, docs, text)
  {
    hide ParseStream;
    assert docs[..0] == [];
    assert [] + text == text;
  }

  /** The connection was on track after every read. */
  ghost predicate AlwaysOnTrack(text: seq<byte>, docs: seq<Json>, chunks: seq<seq<byte>>, future: seq<byte>)
    requires IsStream(text, docs)
    decreases |chunks|
  {
    && OnTrack(Steps(FRESH, chunks), text, docs, future)
    && (chunks != [] ==>
          AlwaysOnTrack(text, docs, chunks[..|chunks| - 1], chunks[|chunks| - 1] + future))
  }

  /** Over every run of reads a connection stays on track exactly if all of them are gentle. */
  lemma {:induction false} StepsOnTrack(text: seq<byte>, docs: seq<Json>, chunks: seq<seq<byte>>, future: seq<byte>)
    requires IsStream(text, docs) && NulFree(text)
    requires Flatten(chunks) + future == text
    ensures AlwaysOnTrack(text, docs, chunks, future) <==> GentleRun(FRESH, chunks)
    decreases |chunks|
  {
    hide OnTrack, Step, IsStream, NulFree, Arrived, Gentle;
    if chunks == [] {
      assert future == text;
      FreshOnTrack(text, docs);
    } else {
      var before, data := chunks[..|chunks| - 1], chunks[|chunks| - 1];
      assert Flatten(before) + (data + future) == text;
      StepsOnTrack(text, docs, before, data + future);
      if GentleRun(FRESH, before) {
        assert OnTrack(Steps(FRESH, before), text, docs, data + future);
        StepOnTrack(Steps(FRESH, before), text, docs, data, future);
      }
    }
  }

  /** No read takes more than one document. */
  lemma {:induction false} TakenPerRead(c: Conn, chunks: seq<seq<byte>>)
    ensures c.taken <= Steps(c, chunks).taken <= c.taken + |chunks|
    decreases |chunks|
  {
    hide ParseStream, AfterShift;
    if chunks != [] {
      TakenPerRead(c, chunks[..|chunks| - 1]);
    }
  }

  /** Chunking independence: however a stream is cut into gentle reads, the connection stays open
      without a parse error, has evaluated in order and once each the requests among the first
      `taken` documents, and keeps exactly the bytes after them. */
  lemma Chunking(text: seq<byte>, docs: seq<Json>, chunks: seq<seq<byte>>, future: seq<byte>)
    requires IsStream(text, docs) && NulFree(text)
    requires Flatten(chunks) + future == text && GentleRun(FRESH, chunks)
    ensures var c := Steps(FRESH, chunks);
            && c.status == Status.Open && c.taken <= |docs| && c.taken <= |chunks|
            && c.requests == Objects(docs[..c.taken])
            && c.text + future == Rest(text, docs, c.taken)
  {
    hide Step, IsStream, NulFree, GentleRun;
    StepsOnTrack(text, docs, chunks, future);
    TakenPerRead(FRESH, chunks);
  }

  /** The first read that is not gentle. Where it completes a document, the request is still evaluated
      and the last bytes behind it are lost, as many as were consumed or all; where it does not, the
      connection ends. */
  lemma FirstLoss(text: seq<byte>, docs: seq<Json>, before: seq<seq<byte>>, data: seq<byte>, future: seq<byte>)
    requires IsStream(text, docs) && NulFree(text) && Flatten(before) + (data + future) == text
    requires GentleRun(FRESH, before) && !Gentle(Steps(FRESH, before).text + data)
    ensures var c := Steps(FRESH, before);
            var t, c' := c.text + data, Step(c, data);
            match ParseStream(t)
            case Ok(_, end) =>
              && c'.status == Status.Open && c'.taken == c.taken + 1 <= |docs|
              && c'.requests == Objects(docs[..c'.taken])
              && end < |t| && c'.text == t[end..][..|t| - end - Least(|t| - end, end)]
            case _ => c'.status == if InEscape(t, 0, |t|) then Lost else Status.Failed
  {
    var c := Steps(FRESH, before);
    hide ParseStream, Step, Rest, IsStream, Objects, NulFree, AfterShift, Steps, InEscape, AtPoint;
    StepsOnTrack(text, docs, before, data + future);
    assert OnTrack(c, text, docs, data + future);
    var t := c.text + data;
    RestIsStream(text, docs, c.taken);
    assert t + future == c.text + (data + future);
    if c.taken == |docs| {
      LastStep(c, text, docs, data, future);
    } else {
      RestStep(text, docs, c.taken);
      StepOnDocument(c, data, future, docs[c.taken]);
      NextRequest(docs, c.taken);
      LossCases(t, future);
    }
  }

  function Least(a: nat, b: nat): nat {
    if a < b then a else b
  }

  lemma NextRequest(docs: seq<Json>, n: nat)
    requires n < |docs|
    ensures Objects(docs[..n + 1]) == if docs[n].Obj? then Objects(docs[..n]) + [docs[n]] else Objects(docs[..n])
  {
    assert docs[..n + 1][..n] == docs[..n];
  }

  lemma LossCases(t: seq<byte>, future: seq<byte>)
    requires NulFree(t + future) && ParseStream(t + future).Ok? && IsContainer(ParseStream(t + future).value)
    requires !Gentle(t)
    ensures if ParseStream(t + future).next <= |t| then
              && ParseStream(t) == ParseStream(t + future)
              && var end := ParseStream(t).next;
              && end < |t| && AfterShift(t, end) == t[end..][..|t| - end - Least(|t| - end, end)]
            else !ParseStream(t).Ok?
  {
    hide ParseStream, AfterShift, InEscape, AtPoint;
    var rest := t + future;
    assert rest[..|t|] == t;
    StreamCut(rest, |t|);
    SameScan(rest, |t|);
    if ParseStream(rest).next <= |t| {
      assert NulFree(t);
      ShiftCases(t, ParseStream(rest).next);
    }
  }

  // ----- What is sent back -----

  /** One response for each request, in order: what the request evaluates to under the table at the
      time of a read of its own. */
  ghost predicate EvaluatedBy(
    replies: seq<Response>, requests: seq<Json>, tables: seq<seq<Procedure>>, times: seq<nat>)
  {
    && |replies| == |requests| == |times|
    && (forall i :: 0 <= i < |requests| ==>
          && times[i] < |tables| && requests[i].Obj?
          && replies[i] == Eval(tables[times[i]], requests[i].members))
    && (forall i, j :: 0 <= i < j < |times| ==> times[i] < times[j])
  }

  /** What follows them when the connection has failed. */
  function Ending(status: Status): seq<Response> {
    if status == Status.Failed then [Response.Error(-32700, None)] else []
  }

  /** Over every run of reads whatsoever: each request that was evaluated has been answered once and in
      order, and a parse error follows exactly if the connection failed. */
  lemma {:induction false} RunReplies(chunks: seq<seq<byte>>, tables: seq<seq<Procedure>>)
      returns (good: seq<Response>, times: seq<nat>)
    requires |tables| == |chunks|
    ensures EvaluatedBy(good, Steps(FRESH, chunks).requests, tables, times)
    ensures Replies(chunks, tables) == good + Ending(Steps(FRESH, chunks).status)
    decreases |chunks|
  {
    if chunks == [] {
      good, times := [], [];
    } else {
      hide Step, Answers, Eval, EvaluatedBy;
      var n := |chunks| - 1;
      var c := Steps(FRESH, chunks[..n]);
      good, times := RunReplies(chunks[..n], tables[..n]);
      AnswerCases(c, chunks[n], tables[n]);
      LaterTables(good, c.requests, tables, n, times);
      assert (good + []) + [] == good == good + [];
      var c' := Step(c, chunks[n]);
      if c'.requests != c.requests {
        MoreEvaluated(good, c.requests, tables, n, times, c'.requests[|c.requests|]);
        good, times := good + Answers(c, chunks[n], tables[n]), times + [n];
      }
    }
  }

  /** One read answers the request it completes, or it fails, or it answers nothing. */
  lemma AnswerCases(c: Conn, data: seq<byte>, table: seq<Procedure>)
    ensures var c', a := Step(c, data), Answers(c, data, table);
            if c.status != Status.Open then c' == c && a == []
            else if c'.requests == c.requests then a == Ending(c'.status)
            else
              && |c'.requests| == |c.requests| + 1 && c'.status == Status.Open
              && var o := c'.requests[|c.requests|];
              && c'.requests == c.requests + [o] && o.Obj? && a == [Eval(table, o.members)]
  {
    hide ParseStream, AfterShift, Eval;
  }

  lemma MoreEvaluated(
    replies: seq<Response>, requests: seq<Json>, tables: seq<seq<Procedure>>, n: nat, times: seq<nat>, o: Json)
    requires n < |tables| && EvaluatedBy(replies, requests, tables, times) && o.Obj?
    requires forall i :: 0 <= i < |times| ==> times[i] < n
    ensures EvaluatedBy(replies + [Eval(tables[n], o.members)], requests + [o], tables, times + [n])
  {
    hide Eval;
  }

  lemma LaterTables(
    replies: seq<Response>, requests: seq<Json>, tables: seq<seq<Procedure>>, n: nat, times: seq<nat>)
    requires n <= |tables| && EvaluatedBy(replies, requests, tables[..n], times)
    ensures EvaluatedBy(replies, requests, tables, times)
    ensures forall i :: 0 <= i < |times| ==> times[i] < n
  {
    hide Eval;
    assert forall i :: 0 <= i < n ==> tables[..n][i] == tables[i];
  }

  /** Every request of `objects` evaluated under one table. */
  function EvalAll(table: seq<Procedure>, objects: seq<Json>): seq<Response>
    requires forall o :: o in objects ==> o.Obj?
  {
    seq(|objects|, i requires 0 <= i < |objects| => Eval(table, objects[i].members))
  }

  lemma OneTable(
    replies: seq<Response>, requests: seq<Json>, tables: seq<seq<Procedure>>, times: seq<nat>, table: seq<Procedure>)
    requires EvaluatedBy(replies, requests, tables, times) && forall t :: t in tables ==> t == table
    ensures (forall o :: o in requests ==> o.Obj?) && replies == EvalAll(table, requests)
  {
    hide Eval;
    assert forall i :: 0 <= i < |times| ==> tables[times[i]] in tables;
  }

  /** What a connection has sent back once its reads, all gentle, have brought it some way into a stream:
      exactly the evaluations of the requests among the documents taken, in order, and no error. */
  lemma Replied(w: Watcher, text: seq<byte>, docs: seq<Json>, future: seq<byte>) returns (times: seq<nat>)
    requires w.Valid() && IsStream(text, docs) && NulFree(text)
    requires Flatten(w.chunks) + future == text && GentleRun(FRESH, w.chunks)
    ensures w.conn.taken <= |docs|
    ensures EvaluatedBy(w.responses, Objects(docs[..w.conn.taken]), w.tables, times)
    ensures forall table ::
              (forall t :: t in w.tables ==> t == table) ==>
                w.responses == EvalAll(table, Objects(docs[..w.conn.taken]))
  {
    hide IsStream, NulFree, GentleRun, Steps, Rest, Objects;
    Chunking(text, docs, w.chunks, future);
    var good;
    good, times := RunReplies(w.chunks, w.tables);
    var requests := Objects(docs[..w.conn.taken]);
    assert good + [] == good;
    forall table | forall t :: t in w.tables ==> t == table ensures w.responses == EvalAll(table, requests) {
      OneTable(w.responses, requests, w.tables, times, table);
    }
  }

  /** What it has sent back when the last of its reads was the first that is not gentle: the same, and
      one parse error where that read has made the connection fail. */
  lemma RepliedLoss(w: Watcher, text: seq<byte>, docs: seq<Json>, before: seq<seq<byte>>, data: seq<byte>,
                    future: seq<byte>)
      returns (good: seq<Response>, times: seq<nat>)
    requires w.Valid() && IsStream(text, docs) && NulFree(text) && Flatten(before) + (data + future) == text
    requires w.chunks == before + [data]
    requires GentleRun(FRESH, before) && !Gentle(Steps(FRESH, before).text + data)
    ensures w.conn.taken <= |docs|
    ensures w.responses == good + Ending(Steps(FRESH, w.chunks).status)
    ensures EvaluatedBy(good, Objects(docs[..w.conn.taken]), w.tables, times)
  {
    hide IsStream, NulFree, GentleRun, Rest, Objects, Gentle, ParseStream, AfterShift, InEscape;
    FirstLoss(text, docs, before, data, future);
    Chunking(text, docs, before, data + future);
    assert w.chunks[..|before|] == before;
    good, times := RunReplies(w.chunks, w.tables);
  }

  /** At most one document is taken per read: all of a stream that arrives in one read is evaluated
      exactly when it is one document at most. */
  lemma OnePerRead(text: seq<byte>, docs: seq<Json>)
    requires IsStream(text, docs) && NulFree(text)
    ensures Step(FRESH, text).taken == |docs| <==> |docs| <= 1
    ensures docs != [] ==>
              Step(FRESH, text).taken == 1 && Step(FRESH, text).text == AfterShift(text, ParseStream(text).next)
  {
    hide ParseStream, AfterShift;
    assert docs[..0] == [] && [] + text == text && text + [] == text;
    StepOnTrack(FRESH, text, docs, text, []);
  }
}
