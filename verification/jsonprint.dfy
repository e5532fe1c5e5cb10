/** What `print_value`, `print_array` and `print_object` write. */
module JsonPrint {
  import opened Text
  import opened Json
  import opened JsonNumber
  import opened JsonString
  import opened JsonParse

  function Tabs(n: nat): (s: seq<byte>)
    ensures |s| == n && forall i :: 0 <= i < n ==> s[i] == TAB
  {
    seq(n, _ => TAB)
  }

  /** White space that only the formatted form has. */
  function Indent(depth: nat, fmt: bool): (s: seq<byte>)
    ensures forall i :: 0 <= i < |s| ==> s[i] == TAB
  {
    if fmt then Tabs(depth) else []
  }

  function Break(fmt: bool): seq<byte> {
    if fmt then [NEWLINE] else []
  }

  function Separator(fmt: bool): seq<byte> {
    if fmt then [COMMA, SPACE] else [COMMA]
  }

  /** The text of a tree at a nesting depth, formatted or compact, without its terminator. */
  function PrintValue(t: Json, depth: nat, fmt: bool): seq<byte>
    requires Printable(t)
    decreases t, 1
  {
    match t
    case Null => NULL_WORD
    case False => FALSE_WORD
    case True => TRUE_WORD
    case Number(n, _, _) => PrintInt(n)
    case Str(s) => PrintString(s)
    case Arr(items) => [LBRACKET] + (PrintItems(items, depth + 1, fmt) + [RBRACKET])
    case Obj(members) =>
      [LBRACE] + (Break(fmt) + (PrintMembers(members, depth + 1, fmt) + (Indent(depth, fmt) + [RBRACE])))
  }

  function PrintItems(items: seq<Json>, depth: nat, fmt: bool): seq<byte>
    requires forall i :: 0 <= i < |items| ==> Printable(items[i])
    decreases items, 0
  {
    if items == [] then []
    else if |items| == 1 then PrintValue(items[0], depth, fmt)
    else PrintValue(items[0], depth, fmt) + (Separator(fmt) + PrintItems(items[1..], depth, fmt))
  }

  predicate PrintableMember(m: Member) {
    NulFree(m.name) && Printable(m.value)
  }

  /** One member up to its value, its indentation left out. */
  function PrintMember(m: Member, depth: nat, fmt: bool): seq<byte>
    requires PrintableMember(m)
    decreases m, 2
  {
    PrintString(m.name) + ([COLON] + (Gap(fmt) + PrintValue(m.value, depth, fmt)))
  }

  function Gap(fmt: bool): seq<byte> {
    if fmt then [TAB] else []
  }

  function PrintMembers(members: seq<Member>, depth: nat, fmt: bool): seq<byte>
    requires forall i :: 0 <= i < |members| ==> PrintableMember(members[i])
    decreases members, 0
  {
    if members == [] then []
    else
      Indent(depth, fmt)
      + (PrintMember(members[0], depth, fmt)
         + ((if |members| > 1 then [COMMA] else []) + (Break(fmt) + PrintMembers(members[1..], depth, fmt))))
  }

  /** `cJSON_Print` and `cJSON_PrintUnformatted`. */
  function Print(t: Json, fmt: bool): seq<byte>
    requires Printable(t)
  {
    PrintValue(t, 0, fmt)
  }
}
