/** The cJSON tree in memory: sibling lists edited in place, references, and deletion. */
module JsonNode {
  import opened Text
  import opened Json

  const KIND_FALSE := 0
  const KIND_TRUE := 1
  const KIND_NULL := 2
  const KIND_NUMBER := 3
  const KIND_STRING := 4
  const KIND_ARRAY := 5
  const KIND_OBJECT := 6
  const IS_REFERENCE := 256

  type CString = s: seq<byte> | NulFree(s)

  /** An allocated C string. */
  class Str {
    const bytes: CString

    constructor (bytes: CString)
      ensures this.bytes == bytes
    {
      this.bytes := bytes;
    }
  }

  /** `struct cJSON`. Its field `string` is `name` here, and a number is what `parse_number` has read
      before it calls `pow`. */
  class Node {
    var next: Node?
    var prev: Node?
    var child: Node?
    var kind: nat
    var valuestring: Str?
    var n: int
    var scale: int
    var subscale: int
    var name: Str?

    /** `cJSON_New_Item`. */
    constructor ()
      ensures next == prev == child == null && kind == 0 && valuestring == null && name == null
    {
      next, prev, child, kind := null, null, null, 0;
      valuestring, n, scale, subscale, name := null, 0, 0, 0, null;
    }
  }

  /** The allocated blocks after `cJSON_free(block)`; only an allocated one may be freed. */
  ghost function Free(live: set<object>, block: object): set<object>
    requires block in live
  {
    live - {block}
  }

  /** `cJSON_strdup`. */
  method StrDup(s: Str, ghost live: set<object>) returns (copy: Str, ghost live': set<object>)
    ensures fresh(copy) && copy.bytes == s.bytes && live' == live + {copy}
  {
    copy := new Str(s.bytes);
    live' := live + {copy};
  }

  /** The flag bit of `type`. */
  predicate HasReferenceFlag(kind: nat) {
    kind / IS_REFERENCE % 2 == 1
  }

  // ----- Sibling lists -----

  /** The node at an index, or null past the end. */
  function Nth(nodes: seq<Node>, i: nat): Node? {
    if i < |nodes| then nodes[i] else null
  }

  /** The node before an index, or null before the first. */
  function Before(nodes: seq<Node>, i: nat): Node?
    requires i <= |nodes|
  {
    if i == 0 then null else nodes[i - 1]
  }

  ghost predicate Linked(nodes: seq<Node>, i: nat)
    requires i < |nodes|
    reads (nodes[i] as Node)`next, (nodes[i] as Node)`prev
  {
    nodes[i].next == Nth(nodes, i + 1) && nodes[i].prev == Before(nodes, i)
  }

  ghost predicate Distinct(nodes: seq<Node>) {
    forall i, j :: 0 <= i < j < |nodes| ==> nodes[i] != nodes[j]
  }

  /** `nodes` are linked both ways, the first one being `head` with no predecessor. */
  ghost predicate Chain(head: Node?, nodes: seq<Node>)
    reads nodes`next, nodes`prev
  {
    && head == Nth(nodes, 0)
    && Distinct(nodes)
    && forall i :: 0 <= i < |nodes| ==> Linked(nodes, i)
  }

  ghost function Without(nodes: seq<Node>, k: nat): seq<Node>
    requires k < |nodes|
  {
    nodes[..k] + nodes[k + 1..]
  }

  /** The index an `int` argument selects: nothing before the first. */
  function Index(which: int): nat {
    if which > 0 then which else 0
  }

  /** The loop `while (c && which>0) c=c->next,which--;`. */
  method Walk(head: Node?, which: int, ghost nodes: seq<Node>) returns (c: Node?)
    requires Chain(head, nodes)
    ensures c == Nth(nodes, Index(which))
  {
    c := head;
    var left := which;
    ghost var i := 0;
    while c != null && left > 0
      invariant 0 <= i && c == Nth(nodes, i) && (c != null ==> i < |nodes|)
      invariant if c != null then i + Index(left) == Index(which) else |nodes| <= Index(which)
      invariant left <= 0 ==> left == which || left == 0
      decreases left
    {
      assert Linked(nodes, i);
      c := c.next;
      i := i + 1;
      left := left - 1;
    }
  }

  /** `cJSON_GetArraySize`. */
  method GetArraySize(parent: Node, ghost nodes: seq<Node>) returns (n: nat)
    requires Chain(parent.child, nodes)
    ensures n == |nodes|
  {
    var c := parent.child;
    n := 0;
    while c != null
      invariant n <= |nodes| && c == Nth(nodes, n)
      decreases |nodes| - n
    {
      assert Linked(nodes, n);
      n := n + 1;
      c := c.next;
    }
  }

  /** `cJSON_AddItemToArray`: the item comes with the siblings after it. */
  method AddItemToArray(parent: Node, item: Node?, ghost nodes: seq<Node>, ghost more: seq<Node>)
    requires Chain(parent.child, nodes) && Chain(item, more)
    requires forall n :: n in nodes ==> n !in more
    modifies parent`child, nodes`next, more`prev
    ensures Chain(parent.child, nodes + more)
  {
    var c := parent.child;
    if item == null {
      assert nodes + more == nodes;
      return;
    }
    if c == null {
      parent.child := item;
      assert nodes + more == more;
    } else {
      ghost var i := 0;
      while c.next != null
        invariant i < |nodes| && c == nodes[i]
        decreases |nodes| - i
      {
        assert Linked(nodes, i);
        c := c.next;
        i := i + 1;
      }
      assert Linked(nodes, i);
      SuffixObject(c, item, nodes, more);
    }
  }

  /** `suffix_object`. */
  method SuffixObject(prev: Node, item: Node, ghost nodes: seq<Node>, ghost more: seq<Node>)
    requires nodes != [] && prev == nodes[|nodes| - 1] && Chain(nodes[0], nodes) && Chain(item, more)
    requires forall n :: n in nodes ==> n !in more
    modifies prev`next, item`prev
    ensures Chain(nodes[0], nodes + more)
  {
    ghost var after := nodes + more;
    assert item == more[0] && more[0] in more && prev in nodes;
    prev.next := item;
    item.prev := prev;
    DistinctParts(nodes, more);
    forall i | 0 <= i < |after| ensures Linked(after, i) {
      if i < |nodes| {
        assert old(Linked(nodes, i));
        assert after[i] == nodes[i] && nodes[i] in nodes;
      } else {
        assert old(Linked(more, i - |nodes|));
        assert after[i] == more[i - |nodes|] && after[i] in more;
      }
    }
  }

  lemma DistinctParts(a: seq<Node>, b: seq<Node>)
    requires Distinct(a) && Distinct(b) && forall n :: n in a ==> n !in b
    ensures Distinct(a + b)
  {
    var s := a + b;
    forall i, j | 0 <= i < j < |s| ensures s[i] != s[j] {
      if i < |a| <= j {
        assert s[i] in a && s[j] in b;
      }
    }
  }

  /** `cJSON_DetachItemFromArray`. */
  method DetachItemFromArray(parent: Node, which: int, ghost nodes: seq<Node>) returns (c: Node?)
    requires Chain(parent.child, nodes)
    modifies parent`child, nodes`next, nodes`prev
    ensures c == Nth(nodes, Index(which))
    ensures c == null ==> Chain(parent.child, nodes)
    ensures c != null ==> Chain(parent.child, Without(nodes, Index(which))) && c.next == c.prev == null
  {
    c := Walk(parent.child, which, nodes);
    if c == null {
      return;
    }
    ghost var k := Index(which);
    assert Linked(nodes, k);
    Unlink(c, nodes, k);
    if c == parent.child {
      parent.child := c.next;
    }
    c.prev := null;
    c.next := null;
    assert forall i :: 0 <= i < |Without(nodes, k)| ==> Without(nodes, k)[i] != c;
  }

  /** The neighbours of a node are linked to each other. */
  method Unlink(c: Node, ghost nodes: seq<Node>, ghost k: nat)
    requires Chain(Nth(nodes, 0), nodes) && k < |nodes| && c == nodes[k]
    modifies nodes`next, nodes`prev
    ensures c.next == old(c.next) == Nth(nodes, k + 1) && c.prev == old(c.prev)
    ensures Chain(Nth(Without(nodes, k), 0), Without(nodes, k))
  {
    ghost var after := Without(nodes, k);
    assert Linked(nodes, k);
    if c.prev != null {
      c.prev.next := c.next;
    }
    if c.next != null {
      c.next.prev := c.prev;
    }
    forall i | 0 <= i < |after| ensures Linked(after, i) {
      if i < k {
        assert old(Linked(nodes, i));
        assert after[i] == nodes[i];
      } else {
        assert old(Linked(nodes, i + 1));
        assert after[i] == nodes[i + 1];
      }
    }
  }

  /** The links of `cJSON_ReplaceItemInArray` up to the deletion of the node replaced. */
  method ReplaceLinks(parent: Node, which: int, newitem: Node, ghost nodes: seq<Node>) returns (c: Node?)
    requires Chain(parent.child, nodes) && newitem !in nodes
    modifies parent`child, nodes`next, nodes`prev, newitem`next, newitem`prev
    ensures c == Nth(nodes, Index(which))
    ensures c == null ==> Chain(parent.child, nodes)
    ensures c != null ==> Chain(parent.child, nodes[Index(which) := newitem]) && c.next == c.prev == null
  {
    c := Walk(parent.child, which, nodes);
    if c == null {
      return;
    }
    ghost var k := Index(which);
    ghost var after := nodes[k := newitem];
    assert Linked(nodes, k);
    newitem.next := c.next;
    newitem.prev := c.prev;
    if newitem.next != null {
      newitem.next.prev := newitem;
    }
    assert c == parent.child <==> k == 0;
    if c == parent.child {
      parent.child := newitem;
    } else {
      newitem.prev.next := newitem;
    }
    c.next := null;
    c.prev := null;
    forall i | 0 <= i < |after| ensures Linked(after, i) {
      assert old(Linked(nodes, i));
      assert i != k ==> after[i] == nodes[i];
    }
  }

  // ----- Items by name -----

  /** `cJSON_strcasecmp(name, key) == 0`. */
  predicate NameIs(name: Str?, key: Str?) {
    if name == null || key == null then name == null && key == null else SameName(name.bytes, key.bytes)
  }

  method StrCaseCmpEqual(s1: Str?, s2: Str?) returns (same: bool)
    ensures same <==> NameIs(s1, s2)
  {
    if s1 == null {
      return s1 == s2;
    }
    if s2 == null {
      return false;
    }
    same := StrCaseEqual(s1.bytes, s2.bytes);
  }

  /** The first of the nodes from the `i`th on that has the name, or their number. */
  ghost function KeyFrom(nodes: seq<Node>, key: Str?, i: nat): (k: nat)
    requires i <= |nodes|
    reads nodes`name
    ensures i <= k <= |nodes|
    ensures forall j :: i <= j < k ==> !NameIs(nodes[j].name, key)
    ensures k < |nodes| ==> NameIs(nodes[k].name, key)
    decreases |nodes| - i
  {
    if i == |nodes| || NameIs(nodes[i].name, key) then i else KeyFrom(nodes, key, i + 1)
  }

  /** The index of the first node of that name, or the number of nodes. */
  ghost function Key(nodes: seq<Node>, key: Str?): (k: nat)
    reads nodes`name
    ensures k <= |nodes|
    ensures forall j :: 0 <= j < k ==> !NameIs(nodes[j].name, key)
    ensures k < |nodes| ==> NameIs(nodes[k].name, key)
  {
    KeyFrom(nodes, key, 0)
  }

  /** `cJSON_GetObjectItem`. */
  method GetObjectItem(parent: Node, key: Str?, ghost nodes: seq<Node>) returns (c: Node?)
    requires Chain(parent.child, nodes)
    ensures c == Nth(nodes, Key(nodes, key))
  {
    var i;
    c, i := Search(parent, key, nodes);
  }

  /** The loop `while (c && cJSON_strcasecmp(c->string,string)) i++,c=c->next;`. */
  method Search(parent: Node, key: Str?, ghost nodes: seq<Node>) returns (c: Node?, i: nat)
    requires Chain(parent.child, nodes)
    ensures i == Key(nodes, key) && c == Nth(nodes, i)
  {
    c := parent.child;
    i := 0;
    while c != null
      invariant i <= |nodes| && c == Nth(nodes, i) && KeyFrom(nodes, key, i) == Key(nodes, key)
      decreases |nodes| - i
    {
      var same := StrCaseCmpEqual(c.name, key);
      if same {
        break;
      }
      assert Linked(nodes, i);
      i := i + 1;
      c := c.next;
    }
  }

  /** `cJSON_DetachItemFromObject`: detaches exactly what `cJSON_GetObjectItem` finds. */
  method DetachItemFromObject(parent: Node, key: Str?, ghost nodes: seq<Node>) returns (c: Node?)
    requires Chain(parent.child, nodes)
    modifies parent`child, nodes`next, nodes`prev
    ensures c == Nth(nodes, Key(nodes, key))
    ensures c == null ==> Chain(parent.child, nodes)
    ensures c != null ==> Chain(parent.child, Without(nodes, Key(nodes, key))) && c.next == c.prev == null
  {
    var i;
    c, i := Search(parent, key, nodes);
    if c != null {
      c := DetachItemFromArray(parent, i, nodes);
    }
  }

  /** `cJSON_AddItemToObject`: the name the item had is freed, before the key is copied. */
  method AddItemToObject(parent: Node, key: Str, item: Node?,
                         ghost nodes: seq<Node>, ghost more: seq<Node>, ghost live: set<object>)
      returns (ghost live': set<object>)
    requires Chain(parent.child, nodes) && Chain(item, more)
    requires forall n :: n in nodes ==> n !in more
    requires item != null && item.name != null ==> item.name in live && item.name != key
    modifies parent`child, nodes`next, more`prev
    modifies (if item == null then {} else {item})`name
    ensures Chain(parent.child, nodes + more)
    ensures item == null ==> live' == live
    ensures item != null ==>
              && item.name != null && fresh(item.name) && item.name.bytes == key.bytes
              && live' == live - {old(item.name)} + {item.name}
  {
    live' := live;
    if item == null {
      assert nodes + more == nodes;
      return;
    }
    if item.name != null {
      live' := Free(live', item.name);
    }
    item.name, live' := StrDup(key, live');
    AddItemToArray(parent, item, nodes, more);
  }

  // ----- Ownership -----

  /** A sibling list: each node with its name and value, the blocks that belong to it and the
      children it owns. A reference is no owner: it has no children, and its value is left open.
      What the printer follows without a test is noted too: whether the node is `whole`, its kind
      known and a string behind it if its kind says so, and whether it is `named`. */
  datatype Forest =
    Nil | Tree(node: Node, owner: bool, whole: bool, named: bool, member: Member, blocks: set<object>, kids: Forest,
               rest: Forest)

  ghost predicate IsReference(node: Node)
    reads node`kind
  {
    HasReferenceFlag(node.kind)
  }

  /** The node itself, its string unless the node is a reference, and its name. */
  ghost function Blocks(node: Node): set<object>
    reads node`kind, node`valuestring, node`name
  {
    {node} + Block(if IsReference(node) then null else node.valuestring) + Block(node.name)
  }

  ghost function Block(s: Str?): set<object> {
    if s == null then {} else {s}
  }

  ghost function Nodes(f: Forest): set<Node> {
    match f
    case Nil => {}
    case Tree(node, _, _, _, _, _, kids, rest) => {node} + Nodes(kids) + Nodes(rest)
  }

  ghost function Items(f: Forest): seq<Json> {
    if f == Nil then [] else [f.member.value] + Items(f.rest)
  }

  ghost function Members(f: Forest): seq<Member> {
    if f == Nil then [] else [f.member] + Members(f.rest)
  }

  function Bytes(s: Str?): seq<byte> {
    if s == null then [] else s.bytes
  }

  /** What a node that is no reference stands for. */
  ghost function NodeValue(node: Node, kids: Forest): Json
    reads node`kind, node`valuestring, node`n, node`scale, node`subscale
  {
    if node.kind == 0 then False
    else if node.kind == 1 then True
    else if node.kind == 3 then Number(node.n, node.scale, node.subscale)
    else if node.kind == 4 then Str(Bytes(node.valuestring))
    else if node.kind == 5 then Arr(Items(kids))
    else if node.kind == 6 then Obj(Members(kids))
    else Null
  }

  /** What the forest says of one node is true of it, its links to siblings and children aside. */
  ghost predicate Describes(f: Forest)
    requires f.Tree?
    reads f.node`kind, f.node`valuestring, f.node`name, f.node`n, f.node`scale, f.node`subscale
  {
    var node := f.node;
    && f.owner == !IsReference(node) && f.blocks == Blocks(node)
    && f.whole == Whole(node) && f.named == (node.name != null)
    && f.member.name == Bytes(node.name) && (f.owner ==> f.member.value == NodeValue(node, f.kids))
    && (f.owner && node.valuestring != null ==> node.valuestring != node.name)
  }

  ghost predicate Whole(node: Node)
    reads node`kind, node`valuestring
  {
    node.kind <= 6 && (node.kind == 4 ==> node.valuestring != null)
  }

  /** The node before the first of the forest is `prev`. */
  ghost predicate Follows(prev: Node?, f: Forest)
    reads match f case Nil => {} case Tree(node, _, _, _, _, _, _, _) => {node}
  {
    f.Tree? ==> f.node.prev == prev
  }

  /** The forest is what hangs from `head` up to the sibling `end`, its lists linked both ways. */
  ghost predicate Reaches(head: Node?, f: Forest, end: Node?)
    reads Nodes(f)
  {
    match f
    case Nil => head == end
    case Tree(node, owner, _, _, _, _, kids, rest) =>
      && head == node && Describes(f)
      && (if owner then Reaches(node.child, kids, null) && Follows(null, kids) else kids == Nil)
      && Reaches(node.next, rest, end) && Follows(node, rest)
  }

  /** The forest is what hangs from `head`. */
  ghost predicate Shape(head: Node?, f: Forest)
    reads Nodes(f)
  {
    Reaches(head, f, null)
  }

  /** There is no reference among the nodes. */
  ghost predicate AllOwners(f: Forest) {
    f.Tree? ==> f.owner && AllOwners(f.kids) && AllOwners(f.rest)
  }

  /** The nodes have the texts their kinds call for, and the members of objects their names. */
  ghost predicate Texts(f: Forest) {
    f.Tree? ==> f.whole && (f.member.value.Obj? ==> Named(f.kids)) && Texts(f.kids) && Texts(f.rest)
  }

  ghost predicate Named(f: Forest) {
    f.Tree? ==> f.named && Named(f.rest)
  }

  ghost function Owned(f: Forest): set<object> {
    match f
    case Nil => {}
    case Tree(_, _, _, _, _, blocks, kids, rest) => blocks + Owned(kids) + Owned(rest)
  }

  /** No block has two owners. */
  ghost predicate Separate(f: Forest) {
    match f
    case Nil => true
    case Tree(_, _, _, _, _, blocks, kids, rest) =>
      && blocks !! Owned(kids) && blocks !! Owned(rest) && Owned(kids) !! Owned(rest)
      && Separate(kids) && Separate(rest)
  }

  // ----- Forests are chains at every level -----

  /** The siblings at the top. */
  ghost function Tops(f: Forest): seq<Node> {
    if f == Nil then [] else [f.node] + Tops(f.rest)
  }

  lemma {:induction false} TopsOwned(head: Node?, f: Forest, end: Node?)
    requires Reaches(head, f, end)
    ensures forall n :: n in Tops(f) ==> n in Owned(f)
  {
    if f.Tree? {
      TopsOwned(f.node.next, f.rest, end);
    }
  }

  lemma {:induction false} TopsDistinct(head: Node?, f: Forest, end: Node?)
    requires Reaches(head, f, end) && Separate(f)
    ensures Distinct(Tops(f))
  {
    if f.Tree? {
      TopsDistinct(f.node.next, f.rest, end);
      TopsOwned(f.node.next, f.rest, end);
      var nodes := Tops(f);
      assert nodes[1..] == Tops(f.rest);
      assert f.node in f.blocks && f.node !in Tops(f.rest);
      forall i, j | 0 <= i < j < |nodes| ensures nodes[i] != nodes[j] {
        assert nodes[j] == Tops(f.rest)[j - 1];
        if i > 0 {
          assert nodes[i] == Tops(f.rest)[i - 1];
        }
      }
    }
  }

  lemma {:induction false} TopsLinked(head: Node?, f: Forest, prev: Node?, i: nat)
    requires Reaches(head, f, null) && Follows(prev, f) && i < |Tops(f)|
    ensures head == Tops(f)[0] && Tops(f)[i].next == Nth(Tops(f), i + 1)
    ensures Tops(f)[i].prev == if i == 0 then prev else Tops(f)[i - 1]
  {
    assert Tops(f)[1..] == Tops(f.rest);
    if i > 0 {
      TopsLinked(f.node.next, f.rest, f.node, i - 1);
      assert Tops(f)[i] == Tops(f.rest)[i - 1];
    } else {
      NoTree(f.node.next, f.rest);
    }
  }

  /** A forest whose first node has none before it is a chain, as the list operations demand. */
  lemma ForestChain(head: Node?, f: Forest)
    requires Shape(head, f) && Follows(null, f) && Separate(f)
    ensures Chain(head, Tops(f))
  {
    TopsDistinct(head, f, null);
    NoTree(head, f);
    forall i | 0 <= i < |Tops(f)| ensures Linked(Tops(f), i) {
      TopsLinked(head, f, null, i);
    }
  }

  /** The children of every owner are a chain. */
  ghost predicate AllChains(f: Forest)
    reads Nodes(f)
  {
    f.Tree? ==>
      && (f.owner ==> (forall n :: n in Tops(f.kids) ==> n in Nodes(f)) && Chain(f.node.child, Tops(f.kids)))
      && AllChains(f.kids) && AllChains(f.rest)
  }

  lemma {:induction false} ForestChains(head: Node?, f: Forest, end: Node?)
    requires Reaches(head, f, end) && Separate(f)
    ensures AllChains(f)
  {
    if f.Tree? {
      ForestChains(f.node.next, f.rest, end);
      if f.owner {
        ForestChains(f.node.child, f.kids, null);
        ForestChain(f.node.child, f.kids);
      }
      TopsIn(f.kids);
    }
  }

  lemma {:induction false} TopsIn(f: Forest)
    ensures forall n :: n in Tops(f) ==> n in Nodes(f)
  {
    if f.Tree? {
      TopsIn(f.rest);
    }
  }

  /** The nodes of a forest at hand exist, so that an allocation does not concern them. */
  lemma {:induction false} Allocated(f: Forest)
    ensures forall n :: n in Nodes(f) ==> allocated(n)
    ensures forall o :: o in Owned(f) ==> allocated(o)
  {
    if f.Tree? {
      Allocated(f.kids);
      Allocated(f.rest);
    }
  }

  lemma EmptyForest()
    ensures Owned(Nil) == {} && Separate(Nil) && AllOwners(Nil) && Texts(Nil) && Named(Nil)
    ensures Items(Nil) == [] && Members(Nil) == []
  {
  }

  /** The first node of a forest and what hangs from it. */
  lemma FirstTree(head: Node, f: Forest)
    requires Shape(head, f)
    ensures f.Tree? && f.node == head && f.blocks == Blocks(head) && f.member.name == Bytes(head.name)
    ensures if IsReference(head) || head.child == null then f.kids == Nil else Shape(head.child, f.kids)
    ensures Shape(head.next, f.rest) && Follows(head, f.rest) && Follows(null, f.kids)
    ensures !IsReference(head) && head.valuestring != null ==> head.valuestring != head.name
  {
    if !IsReference(head) {
      NoTree(head.child, f.kids);
    }
  }

  lemma NoTree(head: Node?, f: Forest)
    requires Reaches(head, f, null)
    ensures head == null <==> f == Nil
  {
  }

  lemma Parts(f: Forest)
    requires f.Tree? && Separate(f)
    ensures Owned(f) == f.blocks + Owned(f.kids) + Owned(f.rest)
    ensures f.blocks !! Owned(f.kids) && f.blocks !! Owned(f.rest) && Owned(f.kids) !! Owned(f.rest)
    ensures Separate(f.kids) && Separate(f.rest)
  {
  }

  lemma OneFreed(live: set<object>, owned: set<object>, rest: Forest, was: set<object>, now: set<object>)
    requires rest.Tree? && Separate(rest) && Owned(rest) <= owned
    requires was == live - owned + Owned(rest) && now == was - Owned(rest.kids) - rest.blocks
    ensures now == live - owned + Owned(rest.rest)
  {
  }

  /** `cJSON_Delete`. Each block the forest owns is freed once, being live until then, and nothing
      else is: a block that only a reference leads to stays as it was. */
  method Delete(c: Node?, ghost f: Forest, ghost live: set<object>) returns (ghost live': set<object>)
    requires Shape(c, f) && Separate(f) && Owned(f) <= live
    ensures live' == live - Owned(f)
    decreases f
  {
    hide Owned, Separate;
    EmptyForest();
    var node := c;
    ghost var rest := f;
    live' := live;
    while node != null
      invariant Shape(node, rest) && Separate(rest) && Owned(rest) <= Owned(f)
      invariant live' == live - Owned(f) + Owned(rest)
      invariant rest == f || (f decreases to rest)
      decreases rest
    {
      ghost var was := live';
      Parts(rest);
      FirstTree(node, rest);
      Allocated(rest.rest);
      var next := node.next;
      if !HasReferenceFlag(node.kind) && node.child != null {
        live' := Delete(node.child, rest.kids, live');
      }
      assert live' == was - Owned(rest.kids);
      if !HasReferenceFlag(node.kind) && node.valuestring != null {
        live' := Free(live', node.valuestring);
      }
      if node.name != null {
        live' := Free(live', node.name);
      }
      live' := Free(live', node);
      assert live' == was - Owned(rest.kids) - rest.blocks;
      OneFreed(live, Owned(f), rest, was, live');
      node := next;
      rest := rest.rest;
    }
  }

  /** The item at an index of a sibling list, alone: what deleting it takes away. */
  ghost predicate Alone(nodes: seq<Node>, k: nat, f: Forest)
    requires k < |nodes|
    reads nodes, Nodes(f)
  {
    && f.Tree? && f.node == nodes[k] && f.rest == Nil && Separate(f)
    && Describes(f)
    && (if f.owner then Shape(f.node.child, f.kids) && Follows(null, f.kids) else f.kids == Nil)
    && forall n :: n in nodes ==> n !in Nodes(f.kids)
  }

  /** A node that is alone in its list is deleted as a forest of its own. */
  lemma AloneShape(c: Node, f: Forest)
    requires f.Tree? && f.node == c && f.rest == Nil && c.next == null
    requires Describes(f)
    requires if f.owner then Shape(c.child, f.kids) && Follows(null, f.kids) else f.kids == Nil
    ensures Shape(c, f)
  {
    assert Reaches(null, Nil, null);
  }

  /** `cJSON_DeleteItemFromArray`. */
  method DeleteItemFromArray(parent: Node, which: int, ghost nodes: seq<Node>, ghost f: Forest,
                             ghost live: set<object>)
      returns (ghost live': set<object>)
    requires Chain(parent.child, nodes)
    requires Index(which) < |nodes| ==>
               Alone(nodes, Index(which), f) && parent !in Nodes(f) && Owned(f) <= live
    modifies parent`child, nodes`next, nodes`prev
    ensures if Index(which) < |nodes| then Chain(parent.child, Without(nodes, Index(which))) && live' == live - Owned(f)
            else Chain(parent.child, nodes) && live' == live
  {
    Allocated(f);
    var c := DetachItemFromArray(parent, which, nodes);
    if c == null {
      EmptyForest();
      live' := Delete(c, Nil, live);
    } else {
      AloneShape(c, f);
      live' := Delete(c, f, live);
    }
  }

  /** `cJSON_DeleteItemFromObject`. */
  method DeleteItemFromObject(parent: Node, key: Str?, ghost nodes: seq<Node>, ghost f: Forest,
                              ghost live: set<object>)
      returns (ghost live': set<object>)
    requires Chain(parent.child, nodes)
    requires Key(nodes, key) < |nodes| ==> Alone(nodes, Key(nodes, key), f) && parent !in Nodes(f) && Owned(f) <= live
    modifies parent`child, nodes`next, nodes`prev
    ensures var k := old(Key(nodes, key));
            if k < |nodes| then Chain(parent.child, Without(nodes, k)) && live' == live - Owned(f)
            else Chain(parent.child, nodes) && live' == live
  {
    Allocated(f);
    var c := DetachItemFromObject(parent, key, nodes);
    if c == null {
      EmptyForest();
      live' := Delete(c, Nil, live);
    } else {
      AloneShape(c, f);
      live' := Delete(c, f, live);
    }
  }

  /** `cJSON_ReplaceItemInArray`. */
  method ReplaceItemInArray(parent: Node, which: int, newitem: Node, ghost nodes: seq<Node>, ghost f: Forest,
                            ghost live: set<object>)
      returns (ghost live': set<object>)
    requires Chain(parent.child, nodes) && newitem !in nodes
    requires Index(which) < |nodes| ==>
               && Alone(nodes, Index(which), f) && Owned(f) <= live
               && parent !in Nodes(f) && newitem !in Nodes(f)
    modifies parent`child, nodes`next, nodes`prev, newitem`next, newitem`prev
    ensures var k := Index(which);
            if k < |nodes| then Chain(parent.child, nodes[k := newitem]) && live' == live - Owned(f)
            else Chain(parent.child, nodes) && live' == live
  {
    Allocated(f);
    var c := ReplaceLinks(parent, which, newitem, nodes);
    if c == null {
      return live;
    }
    AloneShape(c, f);
    live' := Delete(c, f, live);
  }

  /** `cJSON_ReplaceItemInObject`: the node `cJSON_GetObjectItem` finds is replaced. The name that
      the new item had is not freed. */
  method ReplaceItemInObject(parent: Node, key: Str, newitem: Node, ghost nodes: seq<Node>, ghost f: Forest,
                             ghost live: set<object>)
      returns (ghost live': set<object>)
    requires Chain(parent.child, nodes) && newitem !in nodes
    requires Key(nodes, key) < |nodes| ==>
               && Alone(nodes, Key(nodes, key), f) && Owned(f) <= live
               && parent !in Nodes(f) && newitem !in Nodes(f)
    modifies parent`child, nodes`next, nodes`prev, newitem`next, newitem`prev, newitem`name
    ensures var k := old(Key(nodes, key));
            if k < |nodes| then
              && Chain(parent.child, nodes[k := newitem])
              && newitem.name != null && fresh(newitem.name) && newitem.name.bytes == key.bytes
              && live' == live + {newitem.name} - Owned(f)
            else Chain(parent.child, nodes) && live' == live && newitem.name == old(newitem.name)
  {
    Allocated(f);
    var c, i := Search(parent, key, nodes);
    live' := live;
    if c != null {
      newitem.name, live' := StrDup(key, live');
      live' := ReplaceItemInArray(parent, i, newitem, nodes, f, live');
    }
  }

  /** `create_reference`: a nameless, unlinked copy that shares child and string. */
  method CreateReference(item: Node, ghost live: set<object>) returns (ref: Node, ghost live': set<object>)
    ensures fresh(ref) && ref.next == ref.prev == null && ref.name == null && HasReferenceFlag(ref.kind)
    ensures ref.kind % IS_REFERENCE == item.kind % IS_REFERENCE
    ensures ref.child == item.child && ref.valuestring == item.valuestring
    ensures ref.n == item.n && ref.scale == item.scale && ref.subscale == item.subscale
    ensures live' == live + {ref}
    ensures Shape(ref, Tree(ref, false, false, false, Member([], Null), {ref}, Nil, Nil))
  {
    ref := new Node();
    live' := live + {ref};
    ref.child, ref.valuestring := item.child, item.valuestring;
    ref.n, ref.scale, ref.subscale := item.n, item.scale, item.subscale;
    ref.kind := if HasReferenceFlag(item.kind) then item.kind else item.kind + IS_REFERENCE;
  }

  /** `cJSON_AddItemReferenceToArray`: the item stays in its own list. */
  method AddItemReferenceToArray(parent: Node, item: Node, ghost nodes: seq<Node>, ghost live: set<object>)
      returns (ghost ref: Node, ghost live': set<object>)
    requires Chain(parent.child, nodes)
    modifies parent`child, nodes`next
    ensures Chain(parent.child, nodes + [ref])
    ensures fresh(ref) && HasReferenceFlag(ref.kind) && ref.name == null
    ensures ref.child == old(item.child) && ref.valuestring == item.valuestring
    ensures live' == live + {ref} && Shape(ref, Tree(ref, false, false, false, Member([], Null), {ref}, Nil, Nil))
  {
    var copy;
    copy, live' := CreateReference(item, live);
    ref := copy;
    AddItemToArray(parent, copy, nodes, [copy]);
    assert nodes + [copy] == nodes + [ref];
  }
}
