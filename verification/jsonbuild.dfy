/** The parser as it runs: a recursive descent that allocates and fills in the nodes of a tree. */
module JsonBuild {
  import opened Text
  import opened Json
  import opened JsonNumber
  import opened JsonString
  import opened JsonParse
  import opened JsonNode

  // ----- Growing forests -----

  /** What holds of every forest the parser builds. */
  ghost predicate Grown(f: Forest) {
    Separate(f) && AllOwners(f)
  }

  ghost function Join(f: Forest, g: Forest): Forest {
    if f == Nil then g else f.(rest := Join(f.rest, g))
  }

  /** The last sibling. */
  ghost function LastNode(f: Forest): Node? {
    if f == Nil then null else if f.rest == Nil then f.node else LastNode(f.rest)
  }

  lemma {:induction false} Joined(f: Forest, g: Forest)
    ensures Items(Join(f, g)) == Items(f) + Items(g) && Members(Join(f, g)) == Members(f) + Members(g)
    ensures Owned(Join(f, g)) == Owned(f) + Owned(g) && Nodes(Join(f, g)) == Nodes(f) + Nodes(g)
    ensures Grown(f) && Grown(g) && Owned(f) !! Owned(g) ==> Grown(Join(f, g))
    ensures g.Tree? ==> LastNode(Join(f, g)) == LastNode(g)
  {
    if f.Tree? {
      Joined(f.rest, g);
    }
  }

  lemma {:induction false} JoinedTexts(f: Forest, g: Forest)
    ensures (Texts(f) && Texts(g) ==> Texts(Join(f, g))) && (Named(f) && Named(g) ==> Named(Join(f, g)))
  {
    if f.Tree? {
      JoinedTexts(f.rest, g);
    }
  }

  lemma {:induction false} JoinReaches(head: Node?, f: Forest, mid: Node?, g: Forest, end: Node?)
    requires Reaches(head, f, mid) && Reaches(mid, g, end) && (f.Tree? ==> Follows(LastNode(f), g))
    ensures Reaches(head, Join(f, g), end)
  {
    if f.Tree? {
      JoinReaches(f.node.next, f.rest, mid, g, end);
    }
  }

  lemma {:induction false} NodesOwned(head: Node?, f: Forest, end: Node?)
    requires Reaches(head, f, end)
    ensures forall n: Node :: n in Nodes(f) ==> n in Owned(f)
  {
    if f.Tree? {
      NodesOwned(f.node.next, f.rest, end);
      if f.owner {
        NodesOwned(f.node.child, f.kids, null);
      }
    }
  }

  // ----- Nodes being filled in -----

  /** How a parsing step ended; `Undefined` where the C run is not specified. */
  datatype Status = Done | NoMatch | Undefined

  /** The step did what the parser is specified to do. */
  ghost predicate Agrees<T>(status: Status, spec: Parse<T>, value: T, pos: nat) {
    match spec
    case Ok(v, next) => status.Done? && value == v && pos == next
    case Fail(at) => status.NoMatch? && pos == at
    case Unspecified => status.Undefined?
  }

  /** As `cJSON_New_Item` leaves a node, its name and its siblings aside. */
  ghost predicate Unread(item: Node)
    reads item
  {
    item.child == null && item.valuestring == null && item.kind < IS_REFERENCE
  }

  /** Whatever became of the step, the node is fit to be deleted. */
  ghost predicate Filled(item: Node, kids: Forest)
    reads item, Nodes(kids)
  {
    && item.kind < IS_REFERENCE && Shape(item.child, kids) && Follows(null, kids) && Grown(kids)
    && Block(item.valuestring) !! Owned(kids)
  }

  /** `parse_string`. */
  method ParseStringAt(c: Cursor, item: Node, ghost live: set<object>)
      returns (status: Status, ghost live': set<object>)
    requires c.pos <= |c.text| && Unread(item)
    modifies c`pos, item`kind, item`valuestring
    ensures Agrees(status, ParseString(c.text, old(c.pos)), Bytes(item.valuestring), c.pos)
    ensures status.Done? ==> item.kind == KIND_STRING && item.valuestring != null && fresh(item.valuestring)
    ensures !status.Done? ==> item.kind == old(item.kind) && item.valuestring == null
    ensures live' == live + Block(item.valuestring)
  {
    var r := ReadString(c);
    live' := live;
    if r.Ok? {
      ParseStringNulFree(c.text, old(c.pos));
      item.valuestring := new Str(r.value);
      item.kind := KIND_STRING;
      live' := live' + {item.valuestring};
      return Done, live';
    }
    status := if r.Fail? then NoMatch else Undefined;
  }

  lemma ParseStringNulFree(text: seq<byte>, p: nat)
    requires p <= |text| && ParseString(text, p).Ok?
    ensures NulFree(ParseString(text, p).value)
  {
    UnescapeNulFree(text, p + 1);
  }

  /** The keywords. */
  method ParseWordAt(c: Cursor, item: Node) returns (done: bool)
    requires c.pos <= |c.text|
    modifies c`pos, item`kind
    ensures var r := ParseWord(c.text, old(c.pos));
            && (done <==> r.Ok?) && c.pos == (if done then r.next else r.at)
            && (done ==> item.kind < KIND_NUMBER && NodeValue(item, Nil) == r.value)
            && (!done ==> item.kind == old(item.kind))
  {
    hide CmpLen;
    var differs := StreamCmp(c, NULL_WORD);
    if !differs {
      item.kind := KIND_NULL;
      return true;
    }
    differs := StreamCmp(c, FALSE_WORD);
    if !differs {
      item.kind := KIND_FALSE;
      return true;
    }
    differs := StreamCmp(c, TRUE_WORD);
    if !differs {
      item.kind := KIND_TRUE;
    }
    done := !differs;
  }

  // ----- Siblings -----

  /** A node with its children as a forest of its own. */
  ghost function TreeOf(node: Node, kids: Forest): (t: Forest)
    reads node
    ensures t.Tree? && t.node == node && t.rest == Nil
  {
    var member := Member(Bytes(node.name), NodeValue(node, kids));
    Tree(node, !IsReference(node), Whole(node), node.name != null, member, Blocks(node), kids, Nil)
  }

  lemma TreeReaches(node: Node, kids: Forest)
    requires Filled(node, kids) && node !in Owned(kids) && Block(node.name) !! Owned(kids)
    requires node.name != null ==> node.name != node.valuestring
    ensures Reaches(node, TreeOf(node, kids), node.next) && Grown(TreeOf(node, kids))
    ensures Owned(TreeOf(node, kids)) == Blocks(node) + Owned(kids)
  {
  }

  /** The siblings read so far: `before` up to the last one, which is `last`. */
  ghost predicate Row(head: Node?, before: Forest, child: Node, last: Forest)
    reads Nodes(before), Nodes(last)
  {
    && Reaches(head, before, child) && Reaches(child, last, null)
    && last.Tree? && last.node == child && last.rest == Nil
    && Follows(null, before) && child.prev == LastNode(before)
    && Grown(before) && Grown(last) && Owned(before) !! Owned(last)
  }

  /** The row as a forest. */
  lemma RowForest(head: Node?, before: Forest, child: Node, last: Forest)
    requires Row(head, before, child, last)
    ensures Shape(head, Join(before, last)) && Follows(null, Join(before, last)) && Grown(Join(before, last))
    ensures Owned(Join(before, last)) == Owned(before) + Owned(last) && LastNode(Join(before, last)) == child
    ensures Items(Join(before, last)) == Items(before) + [last.member.value]
    ensures Members(Join(before, last)) == Members(before) + [last.member]
    ensures Texts(before) && Texts(last) ==> Texts(Join(before, last))
    ensures Named(before) && last.named ==> Named(Join(before, last))
  {
    hide Describes, Owned, Separate, AllOwners, Nodes, Texts;
    assert last.named ==> Named(last) by { EmptyForest(); }
    JoinReaches(head, before, child, last, null);
    Joined(before, last);
    JoinedTexts(before, last);
  }

  /** The two links of a new sibling. */
  method Link(child: Node, newItem: Node, ghost head: Node?, ghost before: Forest, ghost last: Forest)
    requires Row(head, before, child, last) && newItem !in Owned(before) && newItem !in Owned(last)
    modifies child`next, newItem`prev
    ensures Reaches(head, Join(before, last), newItem) && newItem.prev == child
  {
    NodesOwned(head, before, child);
    LastApart(child, last);
    child.next := newItem;
    newItem.prev := child;
    assert Reaches(head, before, child);
    assert Reaches(child, last, newItem);
    JoinReaches(head, before, child, last, newItem);
  }

  /** A node is not among its own children. */
  lemma LastApart(child: Node, last: Forest)
    requires Reaches(child, last, null) && last.Tree? && last.node == child && Grown(last)
    ensures child in Owned(last) && child !in Nodes(last.kids)
    ensures forall n: Node :: n in Nodes(last.kids) ==> n in Owned(last)
  {
    if last.owner {
      NodesOwned(child.child, last.kids, null);
    }
  }

  /** `skip(parse_value(child,value))` on the last sibling. */
  method ParseLast(c: Cursor, child: Node, ghost live: set<object>)
      returns (status: Status, ghost last: Forest, ghost live': set<object>)
    requires c.pos <= |c.text| && Unread(child) && child.next == null
    requires child in live && Block(child.name) <= live
    modifies c`pos, child`child, child`kind, child`valuestring, child`n, child`scale, child`subscale
    ensures Reaches(child, last, null) && Grown(last)
    ensures last.Tree? && last.node == child && last.rest == Nil
    ensures Agrees(status, Skipped(c.text, ParseValue(c.text, old(c.pos))), last.member.value, c.pos)
    ensures last.member.name == Bytes(child.name) && {child} + Block(child.name) <= Owned(last)
    ensures last.named == (child.name != null) && (status.Done? ==> Texts(last))
    ensures fresh(Owned(last) - {child} - Block(child.name)) && live' == live + Owned(last)
    decreases |c.text| - c.pos, 2
  {
    ghost var kids;
    status, kids, live' := ParseValueAt(c, child, live);
    TreeReaches(child, kids);
    last := TreeOf(child, kids);
    if status.Done? {
      Allocated(last);
      c.SkipSpace();
    }
  }

  /** A step and the white space after it. */
  function Skipped<T>(text: seq<byte>, r: Parse<T>): Parse<T>
    requires r.Ok? ==> r.next <= |text|
  {
    if r.Ok? then Ok(r.value, Skip(text, r.next)) else r
  }

  /** The comma before a further sibling, or before a closing bracket; the row is not touched. */
  method TakeComma(c: Cursor, close: byte, ghost head: Node?, ghost before: Forest, ghost child: Node,
                   ghost last: Forest)
      returns (more: bool)
    requires c.pos < |c.text| && At(c.text, c.pos) == COMMA
    requires Row(head, before, child, last)
    modifies c`pos
    ensures Row(head, before, child, last)
    ensures var q := Skip(c.text, old(c.pos) + 1);
            (more <==> At(c.text, q) != close) && c.pos == (if more then q else q + 1)
    ensures c.pos <= |c.text| || close == 0
  {
    Allocated(before);
    Allocated(last);
    c.pos := c.pos + 1;
    c.SkipSpace();
    more := At(c.text, c.pos) != close;
    if !more {
      c.pos := c.pos + 1;
    }
  }

  /** The test for the closing bracket, where all siblings have been read. */
  method CloseRow(c: Cursor, close: byte, soFar: Status, ghost head: Node?, ghost before: Forest, ghost child: Node,
                  ghost last: Forest)
      returns (status: Status, ghost kids: Forest)
    requires Row(head, before, child, last)
    modifies c`pos
    ensures Shape(head, kids) && Follows(null, kids) && Grown(kids) && Owned(kids) == Owned(before) + Owned(last)
    ensures Items(kids) == Items(before) + [last.member.value]
    ensures Members(kids) == Members(before) + [last.member]
    ensures Texts(before) && Texts(last) ==> Texts(kids)
    ensures Named(before) && last.named ==> Named(kids)
    ensures !soFar.Done? ==> status == soFar && c.pos == old(c.pos)
    ensures soFar.Done? && At(c.text, old(c.pos)) == close ==> status.Done? && c.pos == old(c.pos) + 1
    ensures soFar.Done? && At(c.text, old(c.pos)) != close ==> status.NoMatch? && c.pos == old(c.pos)
  {
    hide Describes, NodeValue, Blocks, Items, Members;
    RowForest(head, before, child, last);
    kids := Join(before, last);
    Allocated(kids);
    status := soFar;
    if soFar.Done? {
      if At(c.text, c.pos) != close {
        status := NoMatch;
      } else {
        c.pos := c.pos + 1;
      }
    }
  }

  /** A new last sibling, still empty. */
  method NewSibling(child: Node, ghost head: Node?, ghost before: Forest, ghost last: Forest)
      returns (newItem: Node, ghost before': Forest)
    requires Row(head, before, child, last)
    modifies child`next
    ensures Reaches(head, before', newItem) && Follows(null, before') && Grown(before')
    ensures Owned(before') == Owned(before) + Owned(last)
    ensures Items(before') == Items(before) + [last.member.value]
    ensures Members(before') == Members(before) + [last.member]
    ensures Texts(before) && Texts(last) ==> Texts(before')
    ensures Named(before) && last.named ==> Named(before')
    ensures fresh(newItem) && Unread(newItem) && newItem.next == null && newItem.name == null
    ensures newItem.prev == child == LastNode(before')
    ensures newItem !in Owned(before') && newItem !in Nodes(before')
  {
    hide Grown, Items, Members, Describes, NodeValue, Blocks, Join, Owned;
    Allocated(before);
    Allocated(last);
    RowForest(head, before, child, last);
    before' := Join(before, last);
    NodesOwned(head, before', null);
    newItem := new Node();
    Link(child, newItem, head, before, last);
  }

  /** One more element of an array. */
  method ExtendItems(c: Cursor, child: Node, ghost head: Node?, ghost before: Forest, ghost last: Forest,
                     ghost live: set<object>)
      returns (status: Status, newItem: Node, ghost before': Forest, ghost last': Forest, ghost live': set<object>)
    requires c.pos <= |c.text| && Row(head, before, child, last)
    modifies c`pos, child`next
    ensures Row(head, before', newItem, last') && last'.Tree? && fresh(newItem)
    ensures Items(before') == Items(before) + [last.member.value] && Owned(before') == Owned(before) + Owned(last)
    ensures (Texts(before) && Texts(last) ==> Texts(before')) && (status.Done? ==> Texts(last'))
    ensures Agrees(status, Skipped(c.text, ParseValue(c.text, old(c.pos))), last'.member.value, c.pos)
    ensures fresh(Owned(last')) && live' == live + Owned(last')
    decreases |c.text| - c.pos, 3
  {
    hide ParseValue, Grown, Items, Members, Describes, NodeValue, Blocks, Owned;
    newItem, before' := NewSibling(child, head, before, last);
    Allocated(before');
    status, last', live' := ParseLast(c, newItem, live + {newItem});
  }

  /** The first sibling. */
  method FirstItem(c: Cursor, item: Node, ghost live: set<object>)
      returns (status: Status, child: Node, ghost last: Forest, ghost live': set<object>)
    requires c.pos <= |c.text|
    modifies c`pos, item`child
    ensures item.child == child && Row(item.child, Nil, child, last) && last.Tree? && fresh(child)
    ensures Agrees(status, Skipped(c.text, ParseValue(c.text, old(c.pos))), last.member.value, c.pos)
    ensures fresh(Owned(last)) && live' == live + Owned(last) && (status.Done? ==> Texts(last))
    decreases |c.text| - c.pos, 3
  {
    hide ParseValue, Describes, NodeValue, Blocks;
    child := new Node();
    item.child := child;
    status, last, live' := ParseLast(c, child, live + {child});
  }

  /** The test for the closing bracket. */
  function Closing<T>(text: seq<byte>, p: nat, close: byte): Parse<seq<T>> {
    if At(text, p) == close then Ok([], p + 1) else Fail(p)
  }

  // ----- What the loop of an array is specified to read -----

  /** The values read so far, in terms of what is specified for the whole array. */
  ghost predicate ItemsSoFar(text: seq<byte>, start: nat, values: seq<Json>, status: Status, p: nat)
    requires start <= |text|
  {
    if status.Done? then p <= |text| && ParseItems(text, start) == Prepend(values, ParseMoreItems(text, p))
    else Agrees(status, ParseItems(text, start), values, p)
  }

  /** The same once only the closing bracket is left to ask for. */
  ghost predicate ItemsOver(text: seq<byte>, start: nat, values: seq<Json>, status: Status, p: nat)
    requires start <= |text|
  {
    if status.Done? then ParseItems(text, start) == Prepend(values, Closing(text, p, RBRACKET))
    else Agrees(status, ParseItems(text, start), values, p)
  }

  lemma ItemsFirst(text: seq<byte>, start: nat, status: Status, v: Json, p: nat)
    requires start <= |text| && Agrees(status, Skipped(text, ParseValue(text, start)), v, p)
    ensures ItemsSoFar(text, start, [v], status, p) && (status.Done? ==> start < p <= |text|)
  {
    hide ParseValue;
  }

  lemma ItemsNext(text: seq<byte>, start: nat, values: seq<Json>, p: nat, q: nat, status: Status, v: Json, p': nat)
    requires start <= |text| && p < |text| && ItemsSoFar(text, start, values, Done, p) && At(text, p) == COMMA
    requires q == Skip(text, p + 1) && At(text, q) != RBRACKET
    requires Agrees(status, Skipped(text, ParseValue(text, q)), v, p')
    ensures ItemsSoFar(text, start, values + [v], status, p') && (status.Done? ==> p < p' <= |text|)
  {
    hide ParseValue;
    ItemsFirst(text, q, status, v, p');
    if status.Done? {
      PrependPrepend(values, [v], ParseMoreItems(text, p'));
    }
  }

  lemma ItemsComma(text: seq<byte>, start: nat, values: seq<Json>, p: nat, q: nat)
    requires start <= |text| && p < |text| && ItemsSoFar(text, start, values, Done, p) && At(text, p) == COMMA
    requires q == Skip(text, p + 1) && At(text, q) == RBRACKET
    ensures ItemsOver(text, start, values, Done, q + 1)
  {
    hide ParseValue, ParseItems;
    assert ParseMoreItems(text, p) == Closing(text, q + 1, RBRACKET);
  }

  lemma ItemsEnd(text: seq<byte>, start: nat, values: seq<Json>, status: Status, p: nat)
    requires start <= |text| && ItemsSoFar(text, start, values, status, p)
    requires status.Done? ==> At(text, p) != COMMA
    ensures ItemsOver(text, start, values, status, p)
  {
  }

  lemma ItemsClosed(text: seq<byte>, start: nat, values: seq<Json>, status: Status, p: nat)
    requires start <= |text| && ItemsOver(text, start, values, status, p)
    ensures if !status.Done? then Agrees(status, ParseItems(text, start), values, p)
            else if At(text, p) == RBRACKET then Agrees(Done, ParseItems(text, start), values, p + 1)
            else Agrees(NoMatch, ParseItems(text, start), values, p)
  {
    assert values + [] == values;
  }

  /** The first element and the loop of `parse_array`. */
  method ParseItemsAt(c: Cursor, item: Node, ghost live: set<object>)
      returns (status: Status, ghost kids: Forest, ghost live': set<object>)
    requires c.pos <= |c.text|
    modifies c`pos, item`child
    ensures Agrees(status, ParseItems(c.text, old(c.pos)), Items(kids), c.pos)
    ensures Shape(item.child, kids) && Follows(null, kids) && Grown(kids) && fresh(Owned(kids))
    ensures live' == live + Owned(kids) && (status.Done? ==> Texts(kids))
    decreases |c.text| - c.pos, 4
  {
    hide ParseValue, ParseItems, ItemsSoFar, ItemsOver, Agrees, Skipped;
    hide Row, Reaches, Grown, Owned, Items, Join, Texts;
    EmptyForest();
    ghost var text, start := c.text, c.pos;
    var child;
    ghost var before, last, over := Nil, Nil, false;
    status, child, last, live' := FirstItem(c, item, live);
    ghost var values := [last.member.value];
    ItemsFirst(text, start, status, last.member.value, c.pos);
    while status.Done? && At(c.text, c.pos) == COMMA
      invariant Row(item.child, before, child, last) && fresh(child) && last.Tree?
      invariant fresh(Owned(before)) && fresh(Owned(last)) && live' == live + Owned(before) + Owned(last)
      invariant Texts(before) && (status.Done? ==> Texts(last))
      invariant values == Items(before) + [last.member.value]
      invariant ItemsSoFar(text, start, values, status, c.pos) && (status.Done? ==> start < c.pos <= |text|)
      invariant !over
      decreases status.Done?, |c.text| - c.pos
    {
      ghost var p := c.pos;
      var more := TakeComma(c, RBRACKET, item.child, before, child, last);
      if !more {
        ItemsComma(text, start, values, p, c.pos - 1);
        over := true;
        break;
      }
      ghost var q := c.pos;
      status, child, before, last, live' := ExtendItems(c, child, item.child, before, last, live');
      ItemsNext(text, start, values, p, q, status, last.member.value, c.pos);
      values := values + [last.member.value];
    }
    if !over {
      ItemsEnd(text, start, values, status, c.pos);
    }
    ItemsClosed(text, start, values, status, c.pos);
    status, kids := CloseRow(c, RBRACKET, status, item.child, before, child, last);
  }

  // ----- Members -----

  lemma MemberParts(text: seq<byte>, p: nat)
    requires p <= |text|
    ensures var s, m := Skipped(text, ParseString(text, p)), Skipped(text, ParseMember(text, p));
            if !s.Ok? then m == Failed(s)
            else if At(text, s.next) != COLON then m == Fail(s.next)
            else
              var v := Skipped(text, ParseValue(text, Skip(text, s.next + 1)));
              m == if v.Ok? then Ok(Member(s.value, v.value), v.next) else Failed(v)
  {
    hide ParseString, ParseValue;
  }

  /** The name of a member, moved from where `parse_string` left it. */
  method ParseNameAt(c: Cursor, child: Node, ghost live: set<object>)
      returns (status: Status, ghost live': set<object>)
    requires c.pos <= |c.text| && Unread(child) && child.name == null
    modifies c`pos, child`kind, child`valuestring, child`name
    ensures Unread(child)
    ensures Agrees(status, Skipped(c.text, ParseString(c.text, old(c.pos))), Bytes(child.name), c.pos)
    ensures (status.Done? ==> child.name != null) && (child.name != null ==> fresh(child.name))
    ensures live' == live + Block(child.name)
  {
    hide ParseString;
    status, live' := ParseStringAt(c, child, live);
    if status.Done? {
      c.SkipSpace();
      child.name := child.valuestring;
      child.valuestring := null;
    }
  }

  /** A node that no value has been read into. */
  lemma EmptyTree(child: Node)
    requires Unread(child) && child.next == null
    ensures var last := TreeOf(child, Nil);
            && Reaches(child, last, null) && Grown(last)
            && Owned(last) == {child} + Block(child.name)
  {
    assert Filled(child, Nil);
  }

  /** The name of a member, its colon and its value. */
  method ParseLastMember(c: Cursor, child: Node, ghost live: set<object>)
      returns (status: Status, ghost last: Forest, ghost live': set<object>)
    requires c.pos <= |c.text| && Unread(child) && child.next == null && child.name == null
    requires child in live
    modifies c`pos, child`child, child`kind, child`valuestring, child`n, child`scale, child`subscale, child`name
    ensures Reaches(child, last, null) && Grown(last)
    ensures last.Tree? && last.node == child && last.rest == Nil && child in Owned(last)
    ensures Agrees(status, Skipped(c.text, ParseMember(c.text, old(c.pos))), last.member, c.pos)
    ensures fresh(Owned(last) - {child}) && live' == live + Owned(last)
    ensures status.Done? ==> Texts(last) && last.named
    decreases |c.text| - c.pos, 3
  {
    hide ParseString, ParseValue, ParseMember, Reaches, Owned, Grown, Texts;
    MemberParts(c.text, c.pos);
    status, live' := ParseNameAt(c, child, live);
    if status.Done? {
      if At(c.text, c.pos) == COLON {
        c.pos := c.pos + 1;
        c.SkipSpace();
        status, last, live' := ParseLast(c, child, live');
        return;
      }
      status := NoMatch;
    }
    EmptyTree(child);
    last := TreeOf(child, Nil);
  }

  /** One more member of an object. */
  method ExtendMembers(c: Cursor, child: Node, ghost head: Node?, ghost before: Forest, ghost last: Forest,
                       ghost live: set<object>)
      returns (status: Status, newItem: Node, ghost before': Forest, ghost last': Forest, ghost live': set<object>)
    requires c.pos <= |c.text| && Row(head, before, child, last)
    modifies c`pos, child`next
    ensures Row(head, before', newItem, last') && last'.Tree? && fresh(newItem)
    ensures Members(before') == Members(before) + [last.member] && Owned(before') == Owned(before) + Owned(last)
    ensures (Texts(before) && Texts(last) ==> Texts(before')) && (Named(before) && last.named ==> Named(before'))
    ensures status.Done? ==> Texts(last') && last'.named
    ensures Agrees(status, Skipped(c.text, ParseMember(c.text, old(c.pos))), last'.member, c.pos)
    ensures fresh(Owned(last')) && live' == live + Owned(last')
    decreases |c.text| - c.pos, 4
  {
    hide ParseMember, Grown, Items, Members, Describes, NodeValue, Blocks, Owned;
    newItem, before' := NewSibling(child, head, before, last);
    Allocated(before');
    status, last', live' := ParseLastMember(c, newItem, live + {newItem});
  }

  /** The first member. */
  method FirstMember(c: Cursor, item: Node, ghost live: set<object>)
      returns (status: Status, child: Node, ghost last: Forest, ghost live': set<object>)
    requires c.pos <= |c.text|
    modifies c`pos, item`child
    ensures item.child == child && Row(item.child, Nil, child, last) && last.Tree? && fresh(child)
    ensures Agrees(status, Skipped(c.text, ParseMember(c.text, old(c.pos))), last.member, c.pos)
    ensures fresh(Owned(last)) && live' == live + Owned(last) && (status.Done? ==> Texts(last) && last.named)
    decreases |c.text| - c.pos, 4
  {
    hide ParseMember, Describes, NodeValue, Blocks;
    child := new Node();
    item.child := child;
    status, last, live' := ParseLastMember(c, child, live + {child});
  }

  // ----- What the loop of an object is specified to read -----

  /** The values read so far, in terms of what is specified for the whole object. */
  ghost predicate MembersSoFar(text: seq<byte>, start: nat, values: seq<Member>, status: Status, p: nat)
    requires start <= |text|
  {
    if status.Done? then p <= |text| && ParseMembers(text, start) == Prepend(values, ParseMoreMembers(text, p))
    else Agrees(status, ParseMembers(text, start), values, p)
  }

  /** The same once only the closing bracket is left to ask for. */
  ghost predicate MembersOver(text: seq<byte>, start: nat, values: seq<Member>, status: Status, p: nat)
    requires start <= |text|
  {
    if status.Done? then ParseMembers(text, start) == Prepend(values, Closing(text, p, RBRACE))
    else Agrees(status, ParseMembers(text, start), values, p)
  }

  lemma MembersFirst(text: seq<byte>, start: nat, status: Status, v: Member, p: nat)
    requires start <= |text| && Agrees(status, Skipped(text, ParseMember(text, start)), v, p)
    ensures MembersSoFar(text, start, [v], status, p) && (status.Done? ==> start < p <= |text|)
  {
    hide ParseMember;
  }

  lemma MembersNext(text: seq<byte>, start: nat, values: seq<Member>, p: nat, q: nat, status: Status, v: Member,
                    p': nat)
    requires start <= |text| && p < |text| && MembersSoFar(text, start, values, Done, p) && At(text, p) == COMMA
    requires q == Skip(text, p + 1) && At(text, q) != RBRACE
    requires Agrees(status, Skipped(text, ParseMember(text, q)), v, p')
    ensures MembersSoFar(text, start, values + [v], status, p') && (status.Done? ==> p < p' <= |text|)
  {
    hide ParseMember;
    MembersFirst(text, q, status, v, p');
    if status.Done? {
      PrependPrepend(values, [v], ParseMoreMembers(text, p'));
    }
  }

  lemma MembersComma(text: seq<byte>, start: nat, values: seq<Member>, p: nat, q: nat)
    requires start <= |text| && p < |text| && MembersSoFar(text, start, values, Done, p) && At(text, p) == COMMA
    requires q == Skip(text, p + 1) && At(text, q) == RBRACE
    ensures MembersOver(text, start, values, Done, q + 1)
  {
    hide ParseMember, ParseMembers;
    assert ParseMoreMembers(text, p) == Closing(text, q + 1, RBRACE);
  }

  lemma MembersEnd(text: seq<byte>, start: nat, values: seq<Member>, status: Status, p: nat)
    requires start <= |text| && MembersSoFar(text, start, values, status, p)
    requires status.Done? ==> At(text, p) != COMMA
    ensures MembersOver(text, start, values, status, p)
  {
  }

  lemma MembersClosed(text: seq<byte>, start: nat, values: seq<Member>, status: Status, p: nat)
    requires start <= |text| && MembersOver(text, start, values, status, p)
    ensures if !status.Done? then Agrees(status, ParseMembers(text, start), values, p)
            else if At(text, p) == RBRACE then Agrees(Done, ParseMembers(text, start), values, p + 1)
            else Agrees(NoMatch, ParseMembers(text, start), values, p)
  {
    assert values + [] == values;
  }

  /** The first member and the loop of `parse_object`. */
  method ParseMembersAt(c: Cursor, item: Node, ghost live: set<object>)
      returns (status: Status, ghost kids: Forest, ghost live': set<object>)
    requires c.pos <= |c.text|
    modifies c`pos, item`child
    ensures Agrees(status, ParseMembers(c.text, old(c.pos)), Members(kids), c.pos)
    ensures Shape(item.child, kids) && Follows(null, kids) && Grown(kids) && fresh(Owned(kids))
    ensures live' == live + Owned(kids) && (status.Done? ==> Texts(kids) && Named(kids))
    decreases |c.text| - c.pos, 5
  {
    hide ParseMember, ParseMembers, MembersSoFar, MembersOver, Agrees, Skipped;
    hide Row, Reaches, Grown, Owned, Members, Join, Texts, Named;
    EmptyForest();
    ghost var text, start := c.text, c.pos;
    var child;
    ghost var before, last, over := Nil, Nil, false;
    status, child, last, live' := FirstMember(c, item, live);
    ghost var values := [last.member];
    MembersFirst(text, start, status, last.member, c.pos);
    while status.Done? && At(c.text, c.pos) == COMMA
      invariant Row(item.child, before, child, last) && fresh(child) && last.Tree?
      invariant fresh(Owned(before)) && fresh(Owned(last)) && live' == live + Owned(before) + Owned(last)
      invariant Texts(before) && Named(before) && (status.Done? ==> Texts(last) && last.named)
      invariant values == Members(before) + [last.member]
      invariant MembersSoFar(text, start, values, status, c.pos) && (status.Done? ==> start < c.pos <= |text|)
      invariant !over
      decreases status.Done?, |c.text| - c.pos
    {
      ghost var p := c.pos;
      var more := TakeComma(c, RBRACE, item.child, before, child, last);
      if !more {
        MembersComma(text, start, values, p, c.pos - 1);
        over := true;
        break;
      }
      ghost var q := c.pos;
      status, child, before, last, live' := ExtendMembers(c, child, item.child, before, last, live');
      MembersNext(text, start, values, p, q, status, last.member, c.pos);
      values := values + [last.member];
    }
    if !over {
      MembersEnd(text, start, values, status, c.pos);
    }
    MembersClosed(text, start, values, status, c.pos);
    status, kids := CloseRow(c, RBRACE, status, item.child, before, child, last);
  }

  // ----- Values -----

  /** `parse_array`. */
  method ParseArrayAt(c: Cursor, item: Node, ghost live: set<object>)
      returns (status: Status, ghost kids: Forest, ghost live': set<object>)
    requires c.pos <= |c.text| && At(c.text, c.pos) == LBRACKET && Unread(item)
    modifies c`pos, item`child, item`kind
    ensures Agrees(status, ParseArray(c.text, old(c.pos)), Items(kids), c.pos)
    ensures item.kind == KIND_ARRAY && Shape(item.child, kids) && Follows(null, kids)
    ensures Grown(kids) && fresh(Owned(kids))
    ensures live' == live + Owned(kids) && (status.Done? ==> Texts(kids))
    decreases |c.text| - c.pos, 0
  {
    hide ParseItems;
    item.kind := KIND_ARRAY;
    c.pos := c.pos + 1;
    c.SkipSpace();
    if At(c.text, c.pos) == RBRACKET {
      c.pos := c.pos + 1;
      return Done, Nil, live;
    }
    status, kids, live' := ParseItemsAt(c, item, live);
  }

  /** `parse_object`. */
  method ParseObjectAt(c: Cursor, item: Node, ghost live: set<object>)
      returns (status: Status, ghost kids: Forest, ghost live': set<object>)
    requires c.pos <= |c.text| && At(c.text, c.pos) == LBRACE && Unread(item)
    modifies c`pos, item`child, item`kind
    ensures Agrees(status, ParseObject(c.text, old(c.pos)), Members(kids), c.pos)
    ensures item.kind == KIND_OBJECT && Shape(item.child, kids) && Follows(null, kids)
    ensures Grown(kids) && fresh(Owned(kids))
    ensures live' == live + Owned(kids) && (status.Done? ==> Texts(kids) && Named(kids))
    decreases |c.text| - c.pos, 0
  {
    hide ParseMembers;
    item.kind := KIND_OBJECT;
    c.pos := c.pos + 1;
    c.SkipSpace();
    if At(c.text, c.pos) == RBRACE {
      c.pos := c.pos + 1;
      return Done, Nil, live;
    }
    status, kids, live' := ParseMembersAt(c, item, live);
  }

  /** `parse_value`. */
  method ParseValueAt(c: Cursor, item: Node, ghost live: set<object>)
      returns (status: Status, ghost kids: Forest, ghost live': set<object>)
    requires c.pos <= |c.text| && Unread(item)
    modifies c`pos, item`child, item`kind, item`valuestring, item`n, item`scale, item`subscale
    ensures Agrees(status, ParseValue(c.text, old(c.pos)), NodeValue(item, kids), c.pos)
    ensures Filled(item, kids) && fresh(Owned(kids)) && (item.valuestring != null ==> fresh(item.valuestring))
    ensures live' == live + Owned(kids) + Block(item.valuestring)
    ensures status.Done? ==> Whole(item) && Texts(kids) && (item.kind == KIND_OBJECT ==> Named(kids))
    decreases |c.text| - c.pos, 1
  {
    hide ParseWord, ParseString, ParseNumber, ParseArray, ParseObject, Items, Members, Owned, Separate, AllOwners;
    hide Texts, Named;
    EmptyForest();
    kids, live' := Nil, live;
    var word := ParseWordAt(c, item);
    if word {
      return Done, kids, live';
    }
    var ch := At(c.text, c.pos);
    if ch == QUOTE {
      status, live' := ParseStringAt(c, item, live);
    } else if ch == MINUS || IsDigit(ch) {
      var number := ReadNumber(c);
      item.n, item.scale, item.subscale := number.n, number.scale, number.subscale;
      item.kind := KIND_NUMBER;
      status := Done;
    } else if ch == LBRACKET {
      status, kids, live' := ParseArrayAt(c, item, live);
    } else if ch == LBRACE {
      status, kids, live' := ParseObjectAt(c, item, live);
    } else {
      status := NoMatch;
    }
  }

  // ----- Documents -----

  /** `cJSON_Parse_Stream`. A tree that is returned stands for the document; where none is returned,
      all that was allocated on the way has been freed again. */
  method ParseStreamAt(c: Cursor, ghost live: set<object>)
      returns (status: Status, root: Node?, ghost f: Forest, ghost live': set<object>)
    modifies c`pos
    ensures root != null <==> status.Done?
    ensures Agrees(status, ParseStream(c.text), if f.Tree? then f.member.value else Null, c.pos)
    ensures Shape(root, f) && Grown(f) && AllChains(f) && Texts(f) && fresh(Owned(f)) && Owned(f) !! live
    ensures live' == live + Owned(f)
    ensures root != null ==> fresh(root) && f.Tree? && f.rest == Nil && root.kind < IS_REFERENCE
  {
    hide ParseValue, AllChains;
    EmptyForest();
    var item := new Node();
    c.pos := 0;
    c.SkipSpace();
    ghost var kids;
    status, kids, live' := ParseValueAt(c, item, live + {item});
    TreeReaches(item, kids);
    f := TreeOf(item, kids);
    root := item;
    if !status.Done? {
      live' := Delete(item, f, live');
      root, f := null, Nil;
    }
    ForestChains(root, f, null);
  }

  /** The value of a tree, read off its nodes. */
  method ReadTree(node: Node, ghost f: Forest) returns (t: Json)
    requires Shape(node, f) && AllOwners(f)
    ensures f.Tree? && t == f.member.value
    decreases f, 0
  {
    if node.kind == KIND_FALSE {
      t := False;
    } else if node.kind == KIND_TRUE {
      t := True;
    } else if node.kind == KIND_NUMBER {
      t := Number(node.n, node.scale, node.subscale);
    } else if node.kind == KIND_STRING {
      t := Str(Bytes(node.valuestring));
    } else if node.kind == KIND_ARRAY {
      var members := ReadSiblings(node.child, f.kids);
      t := Arr(Values(members));
      ItemsAreValues(f.kids);
    } else if node.kind == KIND_OBJECT {
      var members := ReadSiblings(node.child, f.kids);
      t := Obj(members);
    } else {
      t := Null;
    }
  }

  function Values(members: seq<Member>): seq<Json> {
    if members == [] then [] else [members[0].value] + Values(members[1..])
  }

  lemma {:induction false} ItemsAreValues(f: Forest)
    ensures Items(f) == Values(Members(f))
  {
    if f.Tree? {
      ItemsAreValues(f.rest);
      assert Members(f)[1..] == Members(f.rest);
    }
  }

  method ReadSiblings(head: Node?, ghost f: Forest) returns (members: seq<Member>)
    requires Shape(head, f) && AllOwners(f)
    ensures members == Members(f)
    decreases f, 1
  {
    hide Describes, NodeValue, Blocks;
    members := [];
    var child := head;
    ghost var rest := f;
    while child != null
      invariant Shape(child, rest) && AllOwners(rest)
      invariant members + Members(rest) == Members(f)
      invariant rest == f || (f decreases to rest)
      decreases rest
    {
      Allocated(rest.rest);
      FirstTree(child, rest);
      assert rest.member.name == Bytes(child.name);
      var t := ReadTree(child, rest);
      members := members + [Member(Bytes(child.name), t)];
      child := child.next;
      rest := rest.rest;
    }
    NoTree(null, rest);
  }
}
