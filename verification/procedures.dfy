/** The procedure table of the JSON-RPC server, and what a request makes of it. */
module Procedures {
  import opened Text
  import opened Json
  import opened JsonNumber
  import opened JsonNode
  import opened JsonBuild

  const INVALID_REQUEST := -32600
  const METHOD_NOT_FOUND := -32601

  const METHOD: seq<byte> := [0x6D, 0x65, 0x74, 0x68, 0x6F, 0x64]
  const PARAMS: seq<byte> := [0x70, 0x61, 0x72, 0x61, 0x6D, 0x73]
  const ID: seq<byte> := [0x69, 0x64]

  /** A registered procedure; `code` and `data` stand for its function and context pointers. */
  datatype Procedure = Procedure(name: seq<byte>, code: nat, data: nat)

  /** What the server does with one request. */
  datatype Response =
    | Invoked(procedure: Procedure, params: Option<Json>, id: Option<Json>)
    | Error(code: int, id: Option<Json>)

  // ----- The table as a sequence -----

  function Remove<T>(s: seq<T>, i: nat): seq<T>
    requires i < |s|
  {
    s[..i] + s[i + 1..]
  }

  /** The table without its oldest procedure of that name. */
  function RemoveFirst(table: seq<Procedure>, name: seq<byte>): seq<Procedure> {
    if table == [] then []
    else if table[0].name == name then table[1..]
    else [table[0]] + RemoveFirst(table[1..], name)
  }

  /** The most recent procedure of that name. */
  function Lookup(table: seq<Procedure>, name: seq<byte>): Option<Procedure> {
    if table == [] then None
    else if table[|table| - 1].name == name then Some(table[|table| - 1])
    else Lookup(table[..|table| - 1], name)
  }

  /** The procedures of one name, oldest first. */
  function Named(table: seq<Procedure>, name: seq<byte>): (s: seq<Procedure>)
    ensures forall i :: 0 <= i < |s| ==> s[i].name == name
  {
    if table == [] then []
    else if table[0].name == name then [table[0]] + Named(table[1..], name)
    else Named(table[1..], name)
  }

  // ----- The server -----

  class Server {
    var procedures: array?<Procedure>
    var count: nat

    constructor ()
      ensures Valid() && Table() == []
    {
      procedures := null;
      count := 0;
    }

    predicate Valid()
      reads this
    {
      if procedures == null then count == 0 else 0 < count == procedures.Length
    }

    function Table(): seq<Procedure>
      reads this, procedures
      requires Valid()
    {
      if procedures == null then [] else procedures[..]
    }

    /** `jrpc_register_procedure`. */
    method Register(name: seq<byte>, code: nat, data: nat)
      requires Valid()
      modifies this
      ensures Valid() && Table() == old(Table()) + [Procedure(name, code, data)]
      ensures fresh(procedures)
    {
      var i := count;
      count := count + 1;
      var p := Procedure(name, code, data);
      if procedures == null {
        procedures := new Procedure[1](_ => p);
      } else {
        var ptr := Realloc(procedures, count, p);
        procedures := ptr;
      }
      procedures[i] := p;
    }

    /** `jrpc_deregister_procedure`: minus one for an empty table, zero otherwise. */
    method Deregister(name: seq<byte>) returns (status: int)
      requires Valid()
      modifies this, procedures
      ensures Valid() && Table() == RemoveFirst(old(Table()), name)
      ensures status == if old(Table()) == [] then -1 else 0
    {
      if procedures == null {
        return -1;
      }
      ghost var was := procedures[..];
      var found := false;
      var i := 0;
      while i < count
        invariant 0 <= i <= count && count == old(count) && procedures == old(procedures)
        invariant found ==> i > 0 && procedures[..i - 1] + was[i..] == RemoveFirst(was, name)
        invariant !found ==> forall k :: 0 <= k < i ==> was[k].name != name
        invariant procedures[i..] == was[i..]
        invariant !found ==> procedures[..] == was
      {
        if found {
          ghost var front := procedures[..i - 1];
          procedures[i - 1] := procedures[i];
          assert procedures[..i] == front + [was[i]];
          assert (front + [was[i]]) + was[i + 1..] == front + was[i..];
        } else if name == procedures[i].name {
          found := true;
          RemoveFirstAt(was, name, i);
        }
        i := i + 1;
      }
      if found {
        count := count - 1;
        assert procedures[..count] + was[count + 1..] == procedures[..count];
        if count != 0 {
          var ptr := Realloc(procedures, count, procedures[0]);
          procedures := ptr;
        } else {
          procedures := null;
        }
      } else {
        RemoveFirstNone(was, name);
      }
      return 0;
    }

    /** `invoke_procedure`: the loop runs from the last entry down. */
    method Invoke(name: seq<byte>, params: Option<Json>, id: Option<Json>) returns (r: Response)
      requires Valid()
      ensures r == InvokeIn(Table(), name, params, id)
    {
      var i := count;
      assert Table()[..count] == Table();
      while i != 0
        invariant 0 <= i <= count
        invariant Lookup(Table(), name) == Lookup(Table()[..i], name)
      {
        i := i - 1;
        assert Table()[..i + 1][..i] == Table()[..i];
        if procedures[i].name == name {
          return Invoked(procedures[i], params, id);
        }
      }
      return Error(METHOD_NOT_FOUND, id);
    }

    /** `eval_request` on the members of the root; what the procedure is given of the parameters is
        their value. */
    method EvalRequest(root: Node, ghost f: Forest) returns (r: Response)
      requires Valid() && Shape(root.child, f) && Follows(null, f) && Separate(f) && AllOwners(f)
      ensures r == Eval(Table(), Members(f))
    {
      hide InvokeIn, CopyId, Describes, NodeValue;
      Allocated(f);
      var m, gm := FindItem(root, METHOD, f);
      if m != null && m.kind == KIND_STRING {
        var params, gp := FindItem(root, PARAMS, f);
        if params == null || params.kind == KIND_ARRAY || params.kind == KIND_OBJECT {
          Allocated(gp);
          var id, gi := FindItem(root, ID, f);
          if id == null || id.kind == KIND_STRING || id.kind == KIND_NUMBER {
            var copy := None;
            if id != null {
              var value := CopyIdNode(id, gi);
              copy := Some(value);
            }
            var given := None;
            if params != null {
              var value := ReadTree(params, gp);
              given := Some(value);
            }
            r := Invoke(Bytes(m.valuestring), given, copy);
            return;
          }
        }
      }
      return Error(INVALID_REQUEST, None);
    }
  }

  /** The copy of the id that goes into the response. */
  method CopyIdNode(id: Node, ghost g: Forest) returns (t: Json)
    requires IsItem(id, g) && (id.kind == KIND_STRING || id.kind == KIND_NUMBER)
    ensures t == CopyId(g.member.value)
  {
    t := if id.kind == KIND_STRING then Str(Bytes(id.valuestring))
         else Int(ValueInt(Number(id.n, id.scale, id.subscale)));
  }

  /** The forest from a node of the root on, whose first tree tells the value of the node. */
  ghost predicate IsItem(c: Node, g: Forest)
    reads c, Nodes(g)
  {
    && Shape(c, g) && AllOwners(g) && g.Tree?
    && g.member.value == NodeValue(c, g.kids)
    && (c.kind == KIND_STRING ==> g.member.value == Str(Bytes(c.valuestring)))
    && (c.kind == KIND_STRING <==> g.member.value.Str?) && (c.kind == KIND_NUMBER <==> g.member.value.Number?)
    && (c.kind == KIND_ARRAY || c.kind == KIND_OBJECT <==> IsContainer(g.member.value))
  }

  /** The forest from its `k`th node on. */
  ghost function From(f: Forest, k: nat): Forest
    requires k <= |Tops(f)|
  {
    if k == 0 then f else From(f.rest, k - 1)
  }

  /** The first node of a name and the first member of that name. */
  lemma {:induction false} KeyIsItem(head: Node?, f: Forest, key: Str, k: nat)
    requires Shape(head, f) && AllOwners(f) && key.bytes != [] && k <= |Tops(f)|
    requires forall j :: 0 <= j < k ==> !NameIs(Tops(f)[j].name, key)
    requires k < |Tops(f)| ==> NameIs(Tops(f)[k].name, key)
    ensures k < |Tops(f)| ==> From(f, k).Tree? && IsItem(Tops(f)[k], From(f, k))
    ensures GetItem(Members(f), key.bytes) == if k < |Tops(f)| then Some(From(f, k).member.value) else None
    decreases k
  {
    if f.Tree? {
      assert Members(f)[0] == f.member && Members(f)[1..] == Members(f.rest);
      assert f.member.name == Bytes(f.node.name);
      assert Tops(f)[0] == f.node;
      if k > 0 {
        assert forall j :: 0 <= j < k - 1 ==> Tops(f.rest)[j] == Tops(f)[j + 1];
        assert k < |Tops(f)| ==> Tops(f.rest)[k - 1] == Tops(f)[k];
        KeyIsItem(f.node.next, f.rest, key, k - 1);
      }
    }
  }

  /** `cJSON_GetObjectItem` with a literal name: the node found stands for the member of that name. */
  method FindItem(root: Node, name: seq<byte>, ghost f: Forest) returns (c: Node?, ghost g: Forest)
    requires Shape(root.child, f) && Follows(null, f) && Separate(f) && AllOwners(f)
    requires NulFree(name) && name != []
    ensures if c == null then GetItem(Members(f), name) == None
            else IsItem(c, g) && GetItem(Members(f), name) == Some(g.member.value)
  {
    Allocated(f);
    var key := new Str(name);
    ForestChain(root.child, f);
    c := GetObjectItem(root, key, Tops(f));
    ghost var k := Key(Tops(f), key);
    KeyIsItem(root.child, f, key, k);
    g := From(f, k);
  }

  /** `realloc`: a new block that keeps as much of the old contents as fits. */
  method Realloc(a: array<Procedure>, size: nat, filler: Procedure) returns (b: array<Procedure>)
    ensures fresh(b) && b.Length == size
    ensures forall i :: 0 <= i < size && i < a.Length ==> b[i] == a[i]
  {
    b := new Procedure[size](_ => filler);
    forall i | 0 <= i < size && i < a.Length {
      b[i] := a[i];
    }
  }

  lemma {:induction false} RemoveFirstAt(table: seq<Procedure>, name: seq<byte>, i: nat)
    requires i < |table| && table[i].name == name
    requires forall k :: 0 <= k < i ==> table[k].name != name
    ensures RemoveFirst(table, name) == Remove(table, i)
    decreases i
  {
    if i > 0 {
      RemoveFirstAt(table[1..], name, i - 1);
      assert [table[0]] + Remove(table[1..], i - 1) == Remove(table, i);
    }
  }

  lemma {:induction false} RemoveFirstNone(table: seq<Procedure>, name: seq<byte>)
    requires forall k :: 0 <= k < |table| ==> table[k].name != name
    ensures RemoveFirst(table, name) == table
    decreases |table|
  {
    if table != [] {
      RemoveFirstNone(table[1..], name);
    }
  }

  // ----- Requests -----

  /** `cJSON_GetObjectItem`: the first member with that name, letter case aside. */
  function GetItem(members: seq<Member>, name: seq<byte>): Option<Json> {
    if members == [] then None
    else if SameName(members[0].name, name) then Some(members[0].value)
    else GetItem(members[1..], name)
  }

  /** `valueint` of a number, with the truncation of the C cast. */
  function ValueInt(t: Json): int
    requires t.Number?
  {
    var e := t.scale + t.subscale;
    if e >= 0 then t.n * Pow10(e)
    else if t.n >= 0 then t.n / Pow10(-e)
    else -(-t.n / Pow10(-e))
  }

  /** The copy of the id that goes into the response. */
  function CopyId(id: Json): Json
    requires id.Str? || id.Number?
  {
    if id.Str? then id else Int(ValueInt(id))
  }

  function InvokeIn(table: seq<Procedure>, name: seq<byte>, params: Option<Json>, id: Option<Json>): Response {
    match Lookup(table, name)
    case Some(p) => Invoked(p, params, id)
    case None => Error(METHOD_NOT_FOUND, id)
  }

  /** What `eval_request` does with the members of a request object. */
  function Eval(table: seq<Procedure>, members: seq<Member>): Response {
    var m := GetItem(members, METHOD);
    var params := GetItem(members, PARAMS);
    var id := GetItem(members, ID);
    if && m.Some? && m.value.Str?
       && (params.None? || IsContainer(params.value))
       && (id.None? || id.value.Str? || id.value.Number?)
    then InvokeIn(table, m.value.s, params, if id.None? then None else Some(CopyId(id.value)))
    else Error(INVALID_REQUEST, None)
  }

  /** The member that is found is the first one whose name agrees, letter case aside. */
  lemma {:induction false} GetItemFirst(members: seq<Member>, name: seq<byte>, k: nat)
    requires k <= |members| && forall i :: 0 <= i < k ==> !SameName(members[i].name, name)
    requires k < |members| ==> SameName(members[k].name, name)
    ensures GetItem(members, name) == if k < |members| then Some(members[k].value) else None
    decreases k
  {
    hide SameName;
    if k > 0 {
      GetItemFirst(members[1..], name, k - 1);
    }
  }

  /** The first member of a name hides the later ones. */
  lemma {:induction false} GetItemConcat(a: seq<Member>, b: seq<Member>, name: seq<byte>)
    ensures GetItem(a + b, name) == if GetItem(a, name).Some? then GetItem(a, name) else GetItem(b, name)
    decreases |a|
  {
    if a == [] {
      assert a + b == b;
    } else {
      GetItemConcat(a[1..], b, name);
      assert (a + b)[1..] == a[1..] + b;
    }
  }

  /** Members under other names do not matter, wherever they stand. */
  lemma EvalIgnores(table: seq<Procedure>, a: seq<Member>, m: Member, b: seq<Member>)
    requires !SameName(m.name, METHOD) && !SameName(m.name, PARAMS) && !SameName(m.name, ID)
    ensures Eval(table, a + [m] + b) == Eval(table, a + b)
  {
    hide SameName;
    forall name: seq<byte> | !SameName(m.name, name) ensures GetItem(a + [m] + b, name) == GetItem(a + b, name) {
      GetItemConcat(a + [m], b, name);
      GetItemConcat(a, [m], name);
      GetItemConcat(a, b, name);
      assert [m][1..] == [];
    }
  }

  /** Later members that repeat the three names do not matter either. */
  lemma EvalFirst(table: seq<Procedure>, a: seq<Member>, b: seq<Member>)
    requires GetItem(a, METHOD).Some? && GetItem(a, PARAMS).Some? && GetItem(a, ID).Some?
    ensures Eval(table, a + b) == Eval(table, a)
  {
    GetItemConcat(a, b, METHOD);
    GetItemConcat(a, b, PARAMS);
    GetItemConcat(a, b, ID);
  }

  // ----- Whole runs -----

  datatype Op = Register(procedure: Procedure) | Deregister(name: seq<byte>)

  function Apply(table: seq<Procedure>, op: Op): seq<Procedure> {
    match op
    case Register(p) => table + [p]
    case Deregister(name) => RemoveFirst(table, name)
  }

  /** The table after a run of operations. */
  function Run(ops: seq<Op>): seq<Procedure> {
    if ops == [] then [] else Apply(Run(ops[..|ops| - 1]), ops[|ops| - 1])
  }

  /** Registrations of a name less removals that found one. */
  function Balance(ops: seq<Op>, name: seq<byte>): nat {
    if ops == [] then 0
    else
      var b := Balance(ops[..|ops| - 1], name);
      match ops[|ops| - 1]
      case Register(p) => if p.name == name then b + 1 else b
      case Deregister(n) => if n == name && b > 0 then b - 1 else b
  }

  /** All registrations of a name, oldest first, removed or not. */
  function Registrations(ops: seq<Op>, name: seq<byte>): seq<Procedure> {
    if ops == [] then []
    else
      var r := Registrations(ops[..|ops| - 1], name);
      var op := ops[|ops| - 1];
      if op.Register? && op.procedure.name == name then r + [op.procedure] else r
  }

  lemma {:induction false} NamedConcat(a: seq<Procedure>, b: seq<Procedure>, name: seq<byte>)
    ensures Named(a + b, name) == Named(a, name) + Named(b, name)
    decreases |a|
  {
    if a == [] {
      assert a + b == b;
    } else {
      NamedConcat(a[1..], b, name);
      assert (a + b)[1..] == a[1..] + b;
    }
  }

  /** A removal takes the oldest procedure of its name and leaves the other names alone. */
  lemma {:induction false} NamedRemoveFirst(table: seq<Procedure>, n: seq<byte>, name: seq<byte>)
    ensures Named(RemoveFirst(table, n), name)
         == if n == name && Named(table, name) != [] then Named(table, name)[1..] else Named(table, name)
    decreases |table|
  {
    if table != [] && table[0].name != n {
      NamedRemoveFirst(table[1..], n, name);
      assert RemoveFirst(table, n)[1..] == RemoveFirst(table[1..], n);
      if n == name && Named(table, name) != [] {
        assert Named(table, name)[1..] == Named(table[1..], name)[1..];
      }
    }
  }

  lemma {:induction false} LookupIsLast(table: seq<Procedure>, name: seq<byte>)
    ensures var s := Named(table, name);
            Lookup(table, name) == if s == [] then None else Some(s[|s| - 1])
    decreases |table|
  {
    if table != [] {
      var front, last := table[..|table| - 1], table[|table| - 1];
      LookupIsLast(front, name);
      NamedConcat(front, [last], name);
      assert table == front + [last];
      assert [last][1..] == [];
    }
  }

  /** The procedures of a name left after a run are its `Balance` most recent registrations. */
  lemma {:induction false} RunNamed(ops: seq<Op>, name: seq<byte>)
    ensures var all := Registrations(ops, name);
            Balance(ops, name) <= |all| && Named(Run(ops), name) == all[|all| - Balance(ops, name)..]
    decreases |ops|
  {
    if ops != [] {
      var before, op := ops[..|ops| - 1], ops[|ops| - 1];
      RunNamed(before, name);
      match op {
        case Register(p) =>
          NamedConcat(Run(before), [p], name);
          assert [p][1..] == [];
        case Deregister(n) => NamedRemoveFirst(Run(before), n, name);
      }
    }
  }

  /** After every run, a name is invocable exactly when its registrations exceed its effective
      removals, and then its most recent registration is invoked. */
  lemma Invocable(ops: seq<Op>, name: seq<byte>)
    ensures Lookup(Run(ops), name).Some? <==> Balance(ops, name) > 0
    ensures Balance(ops, name) > 0 ==>
              var all := Registrations(ops, name);
              all != [] && Lookup(Run(ops), name) == Some(all[|all| - 1])
  {
    RunNamed(ops, name);
    LookupIsLast(Run(ops), name);
  }

  // ----- What a request is answered with -----

  /** The bytes of an ASCII string. */
  function Ascii(s: string): seq<byte>
    requires forall i :: 0 <= i < |s| ==> s[i] < 128 as char
  {
    seq(|s|, i requires 0 <= i < |s| => s[i] as int)
  }

  /** `i` is `x` without its fraction. */
  predicate Truncates(i: int, x: real) {
    if x >= 0.0 then 0 <= i && i as real <= x < i as real + 1.0
    else i <= 0 && i as real - 1.0 < x <= i as real
  }

  /** The id that answers a request: none to none, a string to itself, and to a number the integer it
      truncates to. */
  predicate Echoes(id: Option<Json>, given: Option<Json>) {
    match given
    case None => id == None
    case Some(Str(s)) => id == Some(Str(s))
    case Some(Number(n, scale, subscale)) =>
      && id.Some? && id.value.Number? && id.value.scale == id.value.subscale == 0
      && Truncates(id.value.n, NumberValue(given.value))
      && (scale == subscale == 0 ==> id.value.n == n)
    case _ => false
  }

  lemma {:induction false} ShiftUp(n: int, k: nat)
    ensures Shift(n as real, k) == (n * Pow10(k)) as real
  {
    if k > 0 {
      ShiftUp(n, k - 1);
      assert n * Pow10(k) == 10 * (n * Pow10(k - 1));
    }
  }

  lemma {:induction false} ShiftDown(n: int, k: int)
    requires k >= 0
    ensures Shift(n as real, -k) * (Pow10(k) as real) == n as real
  {
    if k > 0 {
      ShiftDown(n, k - 1);
      var y, p := Shift(n as real, -k), Pow10(k - 1) as real;
      assert y == Shift(n as real, -k + 1) / 10.0;
      assert Pow10(k) as real == 10.0 * p;
      assert y * (10.0 * p) == (y * 10.0) * p;
    }
  }

  lemma Products(q: int, p: int)
    ensures (q * p) as real == q as real * (p as real)
    ensures (q as real + 1.0) * (p as real) == q as real * (p as real) + p as real
  {
  }

  lemma DivBounds(n: nat, p: nat)
    requires p > 0
    ensures n / p * p <= n < n / p * p + p
  {
  }

  lemma Cancel(a: real, b: real, p: real)
    requires p > 0.0
    ensures a * p <= b * p ==> a <= b
    ensures a * p < b * p ==> a < b
  {
    if a >= b {
      Grows(a - b, p);
      assert (a - b) * p == a * p - b * p;
    }
  }

  lemma Grows(d: real, p: real)
    requires d >= 0.0 && p > 0.0
    ensures d * p >= 0.0 && (d > 0.0 ==> d * p > 0.0)
  {
  }

  lemma Quotient(n: nat, p: nat, y: real)
    requires p > 0 && y * (p as real) == n as real
    ensures Truncates(n / p, y)
  {
    var q, r := n / p, p as real;
    DivBounds(n, p);
    Products(q, p);
    Cancel(q as real, y, r);
    Cancel(y, q as real + 1.0, r);
    Cancel(0.0, y, r);
  }

  lemma Opposite(x: real, p: real)
    ensures -x * p == -(x * p)
  {
  }

  lemma Downward(n: int, k: int)
    requires k > 0
    ensures Truncates(if n >= 0 then n / Pow10(k) else -(-n / Pow10(k)), Shift(n as real, -k))
  {
    hide Shift, Pow10, Truncates;
    var x := Shift(n as real, -k);
    ShiftDown(n, k);
    if n >= 0 {
      Quotient(n, Pow10(k), x);
    } else {
      Opposite(x, Pow10(k) as real);
      Quotient(-n, Pow10(k), -x);
      Mirrored(-n / Pow10(k), -x);
    }
  }

  lemma Mirrored(i: int, x: real)
    requires i >= 0 && Truncates(i, x)
    ensures Truncates(-i, -x)
  {
  }

  /** `valueint` is the number without its fraction. */
  lemma ValueIntTruncates(t: Json)
    requires t.Number?
    ensures Truncates(ValueInt(t), NumberValue(t))
  {
    hide Shift, Pow10;
    var e := t.scale + t.subscale;
    if e >= 0 {
      ShiftUp(t.n, e);
    } else {
      hide Truncates;
      Downward(t.n, -e);
    }
  }

  /** The requests that are not invalid. */
  predicate IsRequest(called: Option<Json>, params: Option<Json>, id: Option<Json>) {
    && called.Some? && called.value.Str?
    && (params.Some? ==> params.value.Arr? || params.value.Obj?)
    && (id.Some? ==> id.value.Str? || id.value.Number?)
  }

  /** What a request is answered with after any run of registrations and removals: error -32600 for an
      invalid one, error -32601 for a method whose registrations have all been removed, and otherwise
      the most recent registration of its method is invoked with its parameters. The last two carry
      the id of the request. */
  lemma Answered(ops: seq<Op>, members: seq<Member>)
    ensures var called, params := GetItem(members, Ascii("method")), GetItem(members, Ascii("params"));
            var id := GetItem(members, Ascii("id"));
            var r := Eval(Run(ops), members);
            if !IsRequest(called, params, id) then r == Error(-32600, None)
            else
              var name := called.value.s;
              var all := Registrations(ops, name);
              && Echoes(r.id, id)
              && if Balance(ops, name) == 0 then r == Error(-32601, r.id)
                 else all != [] && r == Invoked(all[|all| - 1], params, r.id)
  {
    assert Ascii("method") == METHOD && Ascii("params") == PARAMS && Ascii("id") == ID;
    var called, params, id := GetItem(members, METHOD), GetItem(members, PARAMS), GetItem(members, ID);
    if IsRequest(called, params, id) {
      Invocable(ops, called.value.s);
      if id.Some? && id.value.Number? {
        ValueIntTruncates(id.value);
      }
    }
  }
}
