/** The printer as it runs: every `print_*` allocates the length it computed and writes into it. */
module JsonWrite {
  import opened Text
  import opened Json
  import opened JsonNumber
  import opened JsonString
  import opened JsonParse
  import opened JsonPrint
  import opened JsonNode

  // ----- The computed lengths -----

  /** The bytes `print_value` allocates for a tree. */
  function PrintLen(t: Json, depth: nat, fmt: bool): nat
    requires Printable(t)
    decreases t, 1
  {
    match t
    case Null => |NULL_WORD| + 1
    case False => |FALSE_WORD| + 1
    case True => |TRUE_WORD| + 1
    case Number(_, _, _) => 21
    case Str(s) => |EscapeAll(s)| + 3
    case Arr(items) => 5 + ItemsLen(items, depth + 1, fmt)
    case Obj(members) => 7 + (if fmt then depth + 1 else 0) + MembersLen(members, depth + 1, fmt)
  }

  /** What the first loop of `print_array` adds to `len`. */
  function ItemsLen(items: seq<Json>, depth: nat, fmt: bool): nat
    requires Printable(Arr(items))
    decreases items, 0
  {
    if items == [] then 0
    else |PrintValue(items[0], depth, fmt)| + 2 + (if fmt then 1 else 0) + ItemsLen(items[1..], depth, fmt)
  }

  /** What the first loop of `print_object` adds to `len`. */
  function MembersLen(members: seq<Member>, depth: nat, fmt: bool): nat
    requires Printable(Obj(members))
    decreases members, 0
  {
    if members == [] then 0
    else
      |PrintValue(members[0].value, depth, fmt)| + |PrintString(members[0].name)| + 2
      + (if fmt then 2 + depth else 0) + MembersLen(members[1..], depth, fmt)
  }

  lemma {:induction false} ItemsFit(items: seq<Json>, depth: nat, fmt: bool)
    requires Printable(Arr(items))
    ensures |PrintItems(items, depth, fmt)| <= ItemsLen(items, depth, fmt)
    decreases |items|
  {
    if |items| > 1 {
      ItemsFit(items[1..], depth, fmt);
    }
  }

  lemma {:induction false} MembersFit(members: seq<Member>, depth: nat, fmt: bool)
    requires Printable(Obj(members))
    ensures |PrintMembers(members, depth, fmt)| <= MembersLen(members, depth, fmt)
    decreases |members|
  {
    if members != [] {
      MembersFit(members[1..], depth, fmt);
    }
  }

  /** The length computed before writing covers every byte written and the terminator. */
  lemma LengthBound(t: Json, depth: nat, fmt: bool)
    requires Printable(t)
    ensures |PrintValue(t, depth, fmt)| + 1 <= PrintLen(t, depth, fmt)
  {
    match t {
      case Number(n, _, _) => PrintIntFits(n);
      case Arr(items) => ItemsFit(items, depth + 1, fmt);
      case Obj(members) => MembersFit(members, depth + 1, fmt);
      case _ =>
    }
  }

  // ----- Printed texts are C strings -----

  lemma {:induction false} ValueNulFree(t: Json, depth: nat, fmt: bool)
    requires Printable(t)
    ensures NulFree(PrintValue(t, depth, fmt))
    decreases t, 1
  {
    hide PrintItems, PrintMembers, PrintString, PrintInt;
    match t {
      case Str(s) => PrintStringNulFree(s);
      case Arr(items) => ItemsNulFree(items, depth + 1, fmt);
      case Obj(members) => MembersNulFree(members, depth + 1, fmt);
      case _ =>
    }
  }

  lemma {:induction false} ItemsNulFree(items: seq<Json>, depth: nat, fmt: bool)
    requires Printable(Arr(items))
    ensures NulFree(PrintItems(items, depth, fmt))
    decreases items, 0
  {
    if items != [] {
      ValueNulFree(items[0], depth, fmt);
      ItemsNulFree(items[1..], depth, fmt);
    }
  }

  lemma {:induction false} MembersNulFree(members: seq<Member>, depth: nat, fmt: bool)
    requires Printable(Obj(members))
    ensures NulFree(PrintMembers(members, depth, fmt))
    decreases members, 0
  {
    hide PrintValue, PrintString;
    if members != [] {
      var m := members[0];
      PrintStringNulFree(m.name);
      ValueNulFree(m.value, depth, fmt);
      assert NulFree(PrintMember(m, depth, fmt));
      MembersNulFree(members[1..], depth, fmt);
    }
  }

  // ----- The methods -----

  /** The array starts with the C string `s`. */
  predicate Holds(a: array<byte>, s: seq<byte>)
    reads a
  {
    |s| < a.Length && a[..|s|] == s && a[|s|] == 0
  }

  /** The C string an array starts with. */
  method CString(a: array<byte>, ghost s: seq<byte>) returns (r: seq<byte>)
    requires Holds(a, s) && NulFree(s)
    ensures r == s
  {
    assert a[|s|] == 0;
    var n := StrLen(a);
    r := a[..n];
    assert forall i :: 0 <= i < |s| ==> a[i] == s[i];
  }

  /** `cJSON_strdup`. */
  method StrDup(s: seq<byte>) returns (out: array<byte>)
    ensures fresh(out) && out.Length == |s| + 1 && Holds(out, s)
  {
    out := new byte[|s| + 1](_ => 0);
    CopyInto(out, 0, s);
    assert out[..0] + s == s;
    out[|s|] := 0;
  }

  /** What may be printed. */
  ghost predicate Sound(head: Node?, f: Forest)
    reads Nodes(f)
  {
    Shape(head, f) && AllOwners(f) && Texts(f)
  }

  lemma SoundParts(head: Node, f: Forest)
    requires Sound(head, f)
    ensures f.Tree? && f.node == head && f.member.value == NodeValue(head, f.kids) && head.kind <= KIND_OBJECT
    ensures Sound(head.child, f.kids) && Sound(head.next, f.rest)
    ensures f.member.name == Bytes(head.name)
    ensures head.kind == KIND_STRING ==> head.valuestring != null
    ensures head.kind == KIND_OBJECT ==> Named(f.kids)
  {
  }

  /** `print_value`. */
  method WriteValue(node: Node, ghost f: Forest, depth: nat, fmt: bool) returns (out: array<byte>)
    requires Sound(node, f) && f.Tree? && Printable(f.member.value)
    ensures fresh(out) && out.Length == PrintLen(f.member.value, depth, fmt)
    ensures Holds(out, PrintValue(f.member.value, depth, fmt))
    decreases f, 2
  {
    SoundParts(node, f);
    if node.kind == KIND_NULL {
      out := StrDup(NULL_WORD);
    } else if node.kind == KIND_FALSE {
      out := StrDup(FALSE_WORD);
    } else if node.kind == KIND_TRUE {
      out := StrDup(TRUE_WORD);
    } else if node.kind == KIND_NUMBER {
      out := WriteNumber(node.n);
    } else if node.kind == KIND_STRING {
      out := PrintStringPtr(node.valuestring.bytes);
      assert out[..|PrintString(node.valuestring.bytes)|] == PrintString(node.valuestring.bytes);
    } else if node.kind == KIND_ARRAY {
      out := WriteArray(node, f, depth, fmt);
    } else {
      out := WriteObject(node, f, depth, fmt);
    }
  }

  /** The `%d` branch of `print_number`. */
  method WriteNumber(n: int) returns (out: array<byte>)
    requires IsInt32(n)
    ensures fresh(out) && out.Length == 21 && Holds(out, PrintInt(n))
  {
    PrintIntFits(n);
    out := new byte[21](_ => 0);
    CopyInto(out, 0, PrintInt(n));
    assert out[..0] + PrintInt(n) == PrintInt(n);
    out[|PrintInt(n)|] := 0;
  }

  /** One entry of `print_array` or `print_object`, measured as the string it is. */
  method WriteEntry(child: Node, ghost f: Forest, depth: nat, fmt: bool) returns (s: seq<byte>)
    requires Sound(child, f) && f.Tree? && Printable(f.member.value)
    ensures s == PrintValue(f.member.value, depth, fmt)
    decreases f, 3
  {
    hide PrintValue;
    var ret := WriteValue(child, f, depth, fmt);
    ValueNulFree(f.member.value, depth, fmt);
    s := CString(ret, PrintValue(f.member.value, depth, fmt));
  }

  lemma ItemsOf(f: Forest)
    ensures f.Tree? ==> Items(f) != [] && Items(f)[0] == f.member.value && Items(f)[1..] == Items(f.rest)
    ensures f == Nil ==> Items(f) == []
  {
  }

  /** `print_array`. */
  method WriteArray(node: Node, ghost f: Forest, depth: nat, fmt: bool) returns (out: array<byte>)
    requires Sound(node, f) && f.Tree? && node.kind == KIND_ARRAY && Printable(Arr(Items(f.kids)))
    ensures fresh(out) && out.Length == PrintLen(Arr(Items(f.kids)), depth, fmt)
    ensures Holds(out, PrintValue(Arr(Items(f.kids)), depth, fmt))
    decreases f, 1
  {
    hide PrintValue, PrintItems, ItemsLen, Items, Describes, NodeValue, Blocks;
    ghost var items := Items(f.kids);
    SoundParts(node, f);
    var len, child := 5, node.child;
    ghost var rest := f.kids;
    var entries: seq<seq<byte>> := [];
    assert items[0..] == items;
    while child != null
      invariant Sound(child, rest) && |entries| <= |items| && Items(rest) == items[|entries|..]
      invariant forall k :: 0 <= k < |entries| ==> entries[k] == PrintValue(items[k], depth + 1, fmt)
      invariant len + ItemsLen(items[|entries|..], depth + 1, fmt) == 5 + ItemsLen(items, depth + 1, fmt)
      invariant f decreases to rest
      decreases rest
    {
      SoundParts(child, rest);
      ItemsOf(rest);
      Allocated(rest.rest);
      ghost var i := |entries|;
      assert items[i] == rest.member.value;
      var s := WriteEntry(child, rest, depth + 1, fmt);
      ItemsLenStep(items, i, depth + 1, fmt);
      assert items[i..][1..] == items[i + 1..];
      entries := entries + [s];
      len := len + |s| + 2 + (if fmt then 1 else 0);
      child := child.next;
      rest := rest.rest;
    }
    NoTree(null, rest);
    ItemsOf(rest);
    NoItemsLen(depth + 1, fmt);
    out := new byte[len](_ => 0);
    ItemsFit(items, depth + 1, fmt);
    ComposedArray(items, depth, fmt);
    ComposeArray(out, items, entries, depth + 1, fmt);
  }

  lemma ItemsLenStep(items: seq<Json>, i: nat, depth: nat, fmt: bool)
    requires i < |items| && Printable(Arr(items))
    ensures ItemsLen(items[i..], depth, fmt)
         == |PrintValue(items[i], depth, fmt)| + 2 + (if fmt then 1 else 0) + ItemsLen(items[i + 1..], depth, fmt)
  {
    assert items[i..][1..] == items[i + 1..];
  }

  lemma NoItemsLen(depth: nat, fmt: bool)
    ensures ItemsLen([], depth, fmt) == 0
  {
  }

  lemma ComposedArray(items: seq<Json>, depth: nat, fmt: bool)
    requires Printable(Arr(items))
    ensures PrintValue(Arr(items), depth, fmt) == [LBRACKET] + (PrintItems(items, depth + 1, fmt) + [RBRACKET])
  {
  }

  /** The second loop of `print_array`. */
  method ComposeArray(out: array<byte>, ghost items: seq<Json>, entries: seq<seq<byte>>, depth: nat, fmt: bool)
    requires Printable(Arr(items)) && |entries| == |items|
    requires forall k :: 0 <= k < |items| ==> entries[k] == PrintValue(items[k], depth, fmt)
    requires |PrintItems(items, depth, fmt)| + 3 <= out.Length
    modifies out
    ensures Holds(out, [LBRACKET] + (PrintItems(items, depth, fmt) + [RBRACKET]))
  {
    hide PrintValue;
    ghost var whole := [LBRACKET] + PrintItems(items, depth, fmt);
    out[0] := LBRACKET;
    var w, i := 1, 0;
    assert out[..1] == [LBRACKET] && items[0..] == items;
    while i < |entries|
      invariant 0 <= i <= |items| && 1 <= w < out.Length
      invariant out[..w] + PrintItems(items[i..], depth, fmt) == whole
    {
      hide PrintItems, EntryText;
      EntryTextAt(out[..w], items, i, depth, fmt);
      w := ComposeEntry(out, w, items[i], entries[i], i == |entries| - 1, depth, fmt);
      i := i + 1;
    }
    assert items[i..] == [];
    assert out[..w] == whole;
    w := Put(out, w, RBRACKET);
    assert out[..w] == [LBRACKET] + (PrintItems(items, depth, fmt) + [RBRACKET]);
    out[w] := 0;
  }

  /** What one turn of the loop writes. */
  ghost function EntryText(t: Json, last: bool, depth: nat, fmt: bool): seq<byte>
    requires Printable(t)
  {
    PrintValue(t, depth, fmt) + if last then [] else Separator(fmt)
  }

  lemma EntryTextAt(before: seq<byte>, items: seq<Json>, i: nat, depth: nat, fmt: bool)
    requires i < |items| && Printable(Arr(items))
    ensures before + PrintItems(items[i..], depth, fmt)
         == before + EntryText(items[i], i == |items| - 1, depth, fmt) + PrintItems(items[i + 1..], depth, fmt)
  {
    hide PrintItems, EntryText;
    EntryTextFirst(items[i..], depth, fmt);
    assert items[i..][1..] == items[i + 1..];
    var entry, rest := EntryText(items[i], i == |items| - 1, depth, fmt), PrintItems(items[i + 1..], depth, fmt);
    assert before + (entry + rest) == before + entry + rest;
  }

  lemma EntryTextFirst(items: seq<Json>, depth: nat, fmt: bool)
    requires items != [] && Printable(Arr(items))
    ensures PrintItems(items, depth, fmt)
         == EntryText(items[0], |items| == 1, depth, fmt) + PrintItems(items[1..], depth, fmt)
  {
    hide PrintValue;
    var v, sep, rest := PrintValue(items[0], depth, fmt), Separator(fmt), PrintItems(items[1..], depth, fmt);
    assert v + (sep + rest) == (v + sep) + rest;
    assert v + [] + [] == v;
  }

  method ComposeEntry(out: array<byte>, w0: nat, ghost t: Json, entry: seq<byte>, last: bool, depth: nat, fmt: bool)
    returns (w: nat)
    requires Printable(t) && entry == PrintValue(t, depth, fmt)
    requires w0 + |EntryText(t, last, depth, fmt)| < out.Length
    modifies out
    ensures w == w0 + |EntryText(t, last, depth, fmt)|
    ensures out[..w] == old(out[..w0]) + EntryText(t, last, depth, fmt)
  {
    hide PrintValue;
    CopyInto(out, w0, entry);
    w := w0 + |entry|;
    if !last {
      w := Put(out, w, COMMA);
      if fmt {
        w := Put(out, w, SPACE);
      }
      out[w] := 0;
    }
  }

  lemma MembersOf(f: Forest)
    ensures f.Tree? ==> Members(f) != [] && Members(f)[0] == f.member && Members(f)[1..] == Members(f.rest)
    ensures f == Nil ==> Members(f) == []
  {
  }

  /** The printed name of a member, measured as the string it is. */
  method WriteName(child: Node) returns (s: seq<byte>)
    requires child.name != null
    ensures s == PrintString(Bytes(child.name))
  {
    hide PrintString;
    var str := PrintStringPtr(child.name.bytes);
    assert str[..|PrintString(child.name.bytes)|] == PrintString(child.name.bytes);
    PrintStringNulFree(child.name.bytes);
    s := CString(str, PrintString(child.name.bytes));
  }

  /** The name and the value of one member. */
  method WriteMember(child: Node, ghost f: Forest, depth: nat, fmt: bool) returns (name: seq<byte>, s: seq<byte>)
    requires Sound(child, f) && f.Tree? && Named(f) && Printable(f.member.value)
    ensures name == PrintString(f.member.name) && s == PrintValue(f.member.value, depth, fmt)
    decreases f, 4
  {
    hide PrintString, PrintValue;
    SoundParts(child, f);
    Allocated(f);
    name := WriteName(child);
    s := WriteEntry(child, f, depth, fmt);
  }

  /** The loop of `print_object` that prints names and values and sums the length. */
  method WriteMembers(head: Node?, ghost f: Forest, base: nat, depth: nat, fmt: bool)
    returns (len: nat, names: seq<seq<byte>>, entries: seq<seq<byte>>)
    requires Sound(head, f) && Named(f) && Printable(Obj(Members(f)))
    ensures len == base + MembersLen(Members(f), depth, fmt) && |names| == |entries| == |Members(f)|
    ensures forall k :: 0 <= k < |names| ==> names[k] == PrintString(Members(f)[k].name)
    ensures forall k :: 0 <= k < |entries| ==> entries[k] == PrintValue(Members(f)[k].value, depth, fmt)
    decreases f, 5
  {
    hide PrintString, PrintMember, PrintValue, PrintMembers, MembersLen, Members, Describes, NodeValue, Blocks;
    ghost var members := Members(f);
    var child := head;
    ghost var rest := f;
    len, names, entries := base, [], [];
    assert members[0..] == members;
    while child != null
      invariant Sound(child, rest) && Named(rest)
      invariant |names| == |entries| <= |members| && Members(rest) == members[|entries|..]
      invariant forall k :: 0 <= k < |names| ==> names[k] == PrintString(members[k].name)
      invariant forall k :: 0 <= k < |entries| ==> entries[k] == PrintValue(members[k].value, depth, fmt)
      invariant len + MembersLen(members[|entries|..], depth, fmt) == base + MembersLen(members, depth, fmt)
      invariant f nonincreases to rest
      decreases rest
    {
      SoundParts(child, rest);
      MembersOf(rest);
      Allocated(rest.rest);
      ghost var i := |entries|;
      assert members[i] == rest.member;
      var name, s := WriteMember(child, rest, depth, fmt);
      MembersLenStep(members, i, depth, fmt);
      assert members[i..][1..] == members[i + 1..];
      names, entries := names + [name], entries + [s];
      len := len + |s| + |name| + 2 + (if fmt then 2 + depth else 0);
      child := child.next;
      rest := rest.rest;
    }
    NoTree(null, rest);
    MembersOf(rest);
    NoMembersLen(depth, fmt);
  }

  /** `print_object`. */
  method WriteObject(node: Node, ghost f: Forest, depth: nat, fmt: bool) returns (out: array<byte>)
    requires Sound(node, f) && f.Tree? && node.kind == KIND_OBJECT && Printable(Obj(Members(f.kids)))
    ensures fresh(out) && out.Length == PrintLen(Obj(Members(f.kids)), depth, fmt)
    ensures Holds(out, PrintValue(Obj(Members(f.kids)), depth, fmt))
    decreases f, 1
  {
    hide PrintString, PrintValue, PrintMembers, MembersLen, Members, Describes, NodeValue, Blocks;
    ghost var members := Members(f.kids);
    SoundParts(node, f);
    var d := depth + 1;
    var len, names, entries := WriteMembers(node.child, f.kids, if fmt then 7 + d else 7, d, fmt);
    out := new byte[len](_ => 0);
    MembersFit(members, d, fmt);
    ComposeObject(out, members, names, entries, d, fmt);
  }

  lemma MembersLenStep(members: seq<Member>, i: nat, depth: nat, fmt: bool)
    requires i < |members| && Printable(Obj(members))
    ensures MembersLen(members[i..], depth, fmt)
         == |PrintValue(members[i].value, depth, fmt)| + |PrintString(members[i].name)| + 2
            + (if fmt then 2 + depth else 0) + MembersLen(members[i + 1..], depth, fmt)
  {
    assert members[i..][1..] == members[i + 1..];
  }

  lemma NoMembersLen(depth: nat, fmt: bool)
    ensures MembersLen([], depth, fmt) == 0
  {
  }

  /** The second loop of `print_object` and what frames it; `depth` has been incremented. */
  method ComposeObject(
    out: array<byte>, ghost members: seq<Member>, names: seq<seq<byte>>, entries: seq<seq<byte>>, depth: nat, fmt: bool)
    requires depth > 0 && Printable(Obj(members)) && |names| == |entries| == |members|
    requires forall k :: 0 <= k < |members| ==> names[k] == PrintString(members[k].name)
    requires forall k :: 0 <= k < |members| ==> entries[k] == PrintValue(members[k].value, depth, fmt)
    requires |PrintMembers(members, depth, fmt)| + 3 + (if fmt then depth else 0) <= out.Length
    modifies out
    ensures Holds(out, PrintValue(Obj(members), depth - 1, fmt))
  {
    ComposedObject(members, depth, fmt);
    hide PrintValue, PrintMembers;
    out[0] := LBRACE;
    var w := 1;
    if fmt {
      w := Put(out, w, NEWLINE);
    }
    assert out[..w] == [LBRACE] + Break(fmt);
    w := ComposeMembers(out, w, members, names, entries, depth, fmt);
    if fmt {
      w := WriteTabs(out, w, depth - 1);
    }
    ghost var text := [LBRACE] + Break(fmt) + PrintMembers(members, depth, fmt) + Indent(depth - 1, fmt);
    assert out[..w] == text;
    w := Put(out, w, RBRACE);
    out[w] := 0;
    assert out[..w] == text + [RBRACE];
  }

  method ComposeMembers(
    out: array<byte>, w0: nat, ghost members: seq<Member>, names: seq<seq<byte>>, entries: seq<seq<byte>>, depth: nat,
    fmt: bool)
    returns (w: nat)
    requires Printable(Obj(members)) && |names| == |entries| == |members|
    requires forall k :: 0 <= k < |members| ==> names[k] == PrintString(members[k].name)
    requires forall k :: 0 <= k < |members| ==> entries[k] == PrintValue(members[k].value, depth, fmt)
    requires w0 + |PrintMembers(members, depth, fmt)| < out.Length
    modifies out
    ensures w == w0 + |PrintMembers(members, depth, fmt)|
    ensures out[..w] == old(out[..w0]) + PrintMembers(members, depth, fmt)
  {
    hide PrintValue, PrintMember, PrintString;
    var i := 0;
    w := w0;
    ghost var whole := out[..w0] + PrintMembers(members, depth, fmt);
    assert members[0..] == members;
    while i < |entries|
      invariant 0 <= i <= |members| && w < out.Length
      invariant out[..w] + PrintMembers(members[i..], depth, fmt) == whole
    {
      hide PrintMembers, MemberLine;
      ghost var rest := PrintMembers(members[i + 1..], depth, fmt);
      ghost var line := MemberLine(members[i], i == |members| - 1, depth, fmt);
      MemberLineAt(out[..w], members, i, depth, fmt);
      w := ComposeMember(out, w, members[i], names[i], entries[i], i == |entries| - 1, depth, fmt);
      i := i + 1;
    }
    assert members[i..] == [];
    assert out[..w] == whole;
  }

  lemma MemberLineAt(before: seq<byte>, members: seq<Member>, i: nat, depth: nat, fmt: bool)
    requires i < |members| && Printable(Obj(members))
    ensures before + PrintMembers(members[i..], depth, fmt)
         == before + MemberLine(members[i], i == |members| - 1, depth, fmt) + PrintMembers(members[i + 1..], depth, fmt)
  {
    hide PrintMembers, MemberLine;
    MemberLineFirst(members[i..], depth, fmt);
    assert members[i..][1..] == members[i + 1..];
    var line := MemberLine(members[i], i == |members| - 1, depth, fmt);
    var rest := PrintMembers(members[i + 1..], depth, fmt);
    assert before + (line + rest) == before + line + rest;
  }

  lemma ComposedObject(members: seq<Member>, depth: nat, fmt: bool)
    requires depth > 0 && Printable(Obj(members))
    ensures PrintValue(Obj(members), depth - 1, fmt)
         == [LBRACE] + Break(fmt) + PrintMembers(members, depth, fmt) + Indent(depth - 1, fmt) + [RBRACE]
  {
    var a, b, c := Break(fmt), PrintMembers(members, depth, fmt), Indent(depth - 1, fmt);
    assert [LBRACE] + (a + (b + (c + [RBRACE]))) == [LBRACE] + a + b + c + [RBRACE];
  }

  /** What one turn of the loop writes. */
  ghost function MemberLine(m: Member, last: bool, depth: nat, fmt: bool): seq<byte>
    requires PrintableMember(m)
  {
    Indent(depth, fmt) + PrintMember(m, depth, fmt) + ((if last then [] else [COMMA]) + Break(fmt))
  }

  lemma MemberLineFirst(members: seq<Member>, depth: nat, fmt: bool)
    requires members != [] && Printable(Obj(members))
    ensures PrintMembers(members, depth, fmt)
         == MemberLine(members[0], |members| == 1, depth, fmt) + PrintMembers(members[1..], depth, fmt)
  {
    var a, b, c := Indent(depth, fmt), PrintMember(members[0], depth, fmt), Break(fmt);
    var comma: seq<byte> := if |members| == 1 then [] else [COMMA];
    var rest := PrintMembers(members[1..], depth, fmt);
    assert a + (b + (comma + (c + rest))) == (a + b + (comma + c)) + rest;
  }

  method ComposeMember(
    out: array<byte>, w0: nat, ghost m: Member, name: seq<byte>, entry: seq<byte>, last: bool, depth: nat, fmt: bool)
    returns (w: nat)
    requires PrintableMember(m) && name == PrintString(m.name) && entry == PrintValue(m.value, depth, fmt)
    requires w0 + |MemberLine(m, last, depth, fmt)| < out.Length
    modifies out
    ensures w == w0 + |MemberLine(m, last, depth, fmt)|
    ensures out[..w] == old(out[..w0]) + MemberLine(m, last, depth, fmt)
  {
    hide PrintMember;
    w := w0;
    if fmt {
      w := WriteTabs(out, w, depth);
    }
    assert out[..w] == old(out[..w0]) + Indent(depth, fmt);
    w := ComposeNamed(out, w, m, name, entry, depth, fmt);
    w := ComposeEnd(out, w, last, fmt);
  }

  method ComposeNamed(
    out: array<byte>, w0: nat, ghost m: Member, name: seq<byte>, entry: seq<byte>, depth: nat, fmt: bool)
    returns (w: nat)
    requires PrintableMember(m) && name == PrintString(m.name) && entry == PrintValue(m.value, depth, fmt)
    requires w0 + |PrintMember(m, depth, fmt)| <= out.Length
    modifies out
    ensures w == w0 + |PrintMember(m, depth, fmt)|
    ensures out[..w] == old(out[..w0]) + PrintMember(m, depth, fmt)
  {
    hide PrintValue, PrintString;
    CopyInto(out, w0, name);
    w := Put(out, w0 + |name|, COLON);
    if fmt {
      w := Put(out, w, TAB);
    }
    CopyInto(out, w, entry);
    w := w + |entry|;
    MemberPieces(old(out[..w0]), name, Gap(fmt), entry);
  }

  lemma MemberPieces(before: seq<byte>, name: seq<byte>, gap: seq<byte>, entry: seq<byte>)
    ensures before + name + [COLON] + gap + entry == before + (name + ([COLON] + (gap + entry)))
    ensures before + name + [COLON] + entry == before + (name + ([COLON] + ([] + entry)))
  {
  }

  method ComposeEnd(out: array<byte>, w0: nat, last: bool, fmt: bool) returns (w: nat)
    requires w0 + (if last then 0 else 1) + (if fmt then 1 else 0) < out.Length
    modifies out
    ensures w == w0 + (if last then 0 else 1) + (if fmt then 1 else 0)
    ensures out[..w] == old(out[..w0]) + ((if last then [] else [COMMA]) + Break(fmt))
  {
    w := w0;
    if !last {
      w := Put(out, w, COMMA);
    }
    if fmt {
      w := Put(out, w, NEWLINE);
    }
    out[w] := 0;
  }

  method WriteTabs(out: array<byte>, w0: nat, n: nat) returns (w: nat)
    requires w0 + n < out.Length
    modifies out
    ensures w == w0 + n && out[..w] == old(out[..w0]) + Tabs(n)
  {
    w := w0;
    for j := 0 to n
      invariant w == w0 + j
      invariant out[..w] == old(out[..w0]) + Tabs(j)
    {
      out[w] := TAB;
      w := w + 1;
    }
  }
}
