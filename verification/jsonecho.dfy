/** Printing and reading back, on nodes. */
module JsonEcho {
  import opened Text
  import opened Json
  import opened JsonParse
  import opened JsonPrint
  import opened JsonNode
  import opened JsonBuild
  import opened JsonWrite
  import opened JsonRoundTrip

  /** `cJSON_Print` and `cJSON_PrintUnformatted`: what a C program reads from the array returned is a
      document for the tree, and nothing follows it. */
  method PrintTree(item: Node, ghost f: Forest, fmt: bool) returns (out: array<byte>)
    requires Sound(item, f) && f.Tree? && Printable(f.member.value)
    ensures fresh(out) && 0 in out[..]
    ensures var s := UpToNul(out[..]); ParseStream(s) == Ok(f.member.value, |s|)
  {
    hide PrintValue, ParseStream;
    ghost var s := Print(f.member.value, fmt);
    out := WriteValue(item, f, 0, fmt);
    ValueNulFree(f.member.value, 0, fmt);
    assert out[..][..|s|] == s;
    UpToNulAt(out[..], |s|);
    FormsAgree(f.member.value);
  }

  /** A printed tree, parsed again. */
  method Copy(item: Node, ghost f: Forest, fmt: bool, ghost live: set<object>)
      returns (copy: Node, ghost g: Forest, ghost live': set<object>)
    requires Sound(item, f) && f.Tree? && Printable(f.member.value)
    ensures Sound(copy, g) && g.Tree? && g.rest == Nil && g.member.value == f.member.value
    ensures Separate(g) && fresh(Owned(g)) && Owned(g) !! live && live' == live + Owned(g)
  {
    hide ParseStream, Separate, Describes, AllChains;
    var out := PrintTree(item, f, fmt);
    var n := StrLen(out);
    UpToNulAt(out[..], n);
    var c := new Cursor(out[..n]);
    var status, root;
    status, root, g, live' := ParseStreamAt(c, live);
    NoTree(root, g);
    copy := root;
  }

  /** A document that is parsed, printed in either form and parsed again gives a second tree of the
      same value, which shares no block with the first. */
  method Echo(c: Cursor, fmt: bool, ghost live: set<object>)
      returns (root: Node?, copy: Node?, ghost f: Forest, ghost g: Forest, ghost live': set<object>)
    requires ParseStream(c.text).Ok? ==> Printable(ParseStream(c.text).value)
    modifies c`pos
    ensures (root != null <==> ParseStream(c.text).Ok?) && (copy != null <==> root != null)
    ensures Shape(root, f) && Shape(copy, g) && Owned(f) !! Owned(g) && live' == live + Owned(f) + Owned(g)
    ensures root != null ==> f.Tree? && g.Tree? && f.member.value == g.member.value == ParseStream(c.text).value
  {
    hide ParseStream, Separate, Describes, AllChains;
    var status;
    status, root, f, live' := ParseStreamAt(c, live);
    EmptyForest();
    copy, g := null, Nil;
    if root != null {
      Allocated(f);
      copy, g, live' := Copy(root, f, fmt, live');
    } else {
      NoTree(root, f);
    }
  }
}
