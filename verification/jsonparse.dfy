/** What the recursive descent parser reads: `parse_value`, `parse_array`, `parse_object` and
    `cJSON_Parse_Stream` as functions of the text. */
module JsonParse {
  import opened Text
  import opened Json
  import opened JsonNumber
  import opened JsonString

  const NULL_WORD: seq<byte> := [0x6E, 0x75, 0x6C, 0x6C]
  const FALSE_WORD: seq<byte> := [0x66, 0x61, 0x6C, 0x73, 0x65]
  const TRUE_WORD: seq<byte> := [0x74, 0x72, 0x75, 0x65]

  // ----- Words -----

  /** How many bytes of `word` the text at `p` agrees with, the first `k` being known to agree. */
  function CmpLen(text: seq<byte>, p: nat, word: seq<byte>, k: nat): (n: nat)
    requires k <= |word|
    ensures k <= n <= |word|
    ensures forall i :: k <= i < n ==> At(text, p + i) == word[i]
    ensures n < |word| ==> At(text, p + n) != word[n]
    decreases |word| - k
  {
    if k < |word| && At(text, p + k) == word[k] then CmpLen(text, p, word, k + 1) else k
  }

  /** `stream_cmp`: a failed comparison leaves the cursor after the bytes that agreed. */
  function Word(text: seq<byte>, p: nat, word: seq<byte>, t: Json): (r: Parse<Json>)
    requires p <= |text| && NulFree(word)
    ensures r.Ok? ==> r == Ok(t, p + |word|) && p + |word| <= |text|
    ensures r.Fail? ==> p <= r.at <= |text|
    ensures !r.Unspecified?
  {
    var n := CmpLen(text, p, word, 0);
    assert n > 0 ==> At(text, p + (n - 1)) == word[n - 1];
    if n == |word| then Ok(t, p + n) else Fail(p + n)
  }

  /** The three comparisons `parse_value` starts with, each from where the last one stopped. */
  function ParseWord(text: seq<byte>, p: nat): (r: Parse<Json>)
    requires p <= |text|
    ensures r.Ok? ==> p < r.next <= |text|
    ensures r.Fail? ==> p <= r.at <= |text|
    ensures !r.Unspecified?
  {
    var n := Word(text, p, NULL_WORD, Null);
    if n.Ok? then n
    else
      var f := Word(text, n.at, FALSE_WORD, False);
      if f.Ok? then f else Word(text, f.at, TRUE_WORD, True)
  }

  predicate StartsWord(c: byte) {
    c == NULL_WORD[0] || c == FALSE_WORD[0] || c == TRUE_WORD[0]
  }

  lemma NoWord(text: seq<byte>, p: nat)
    requires p <= |text| && !StartsWord(At(text, p))
    ensures ParseWord(text, p) == Fail(p)
  {
  }

  method StreamCmp(c: Cursor, word: seq<byte>) returns (differs: bool)
    requires c.pos <= |c.text| && NulFree(word)
    modifies c`pos
    ensures c.pos == old(c.pos) + CmpLen(c.text, old(c.pos), word, 0) <= |c.text|
    ensures differs <==> c.pos < old(c.pos) + |word|
  {
    var k := 0;
    while k < |word| && At(c.text, c.pos) == word[k]
      invariant 0 <= k <= |word| && c.pos == old(c.pos) + k <= |c.text|
      invariant CmpLen(c.text, old(c.pos), word, k) == CmpLen(c.text, old(c.pos), word, 0)
    {
      c.pos := c.pos + 1;
      k := k + 1;
    }
    differs := k < |word|;
  }

  // ----- Values -----

  function MapJson<T>(r: Parse<T>, f: T -> Json): Parse<Json> {
    match r
    case Ok(t, next) => Ok(f(t), next)
    case Fail(at) => Fail(at)
    case Unspecified => Unspecified
  }

  /** What `parse_value` makes of the text at `p`. */
  function ParseValue(text: seq<byte>, p: nat): (r: Parse<Json>)
    requires p <= |text|
    ensures r.Ok? ==> p < r.next <= |text|
    ensures r.Fail? ==> p <= r.at <= |text|
    decreases |text| - p, 1
  {
    var w := ParseWord(text, p);
    if w.Ok? then w
    else
      var q := w.at;
      var c := At(text, q);
      if c == QUOTE then MapJson(ParseString(text, q), s => Str(s))
      else if c == MINUS || IsDigit(c) then ParseNumber(text, q)
      else if c == LBRACKET then MapJson(ParseArray(text, q), items => Arr(items))
      else if c == LBRACE then MapJson(ParseObject(text, q), members => Obj(members))
      else Fail(q)
  }

  function ParseArray(text: seq<byte>, p: nat): (r: Parse<seq<Json>>)
    requires p <= |text| && At(text, p) == LBRACKET
    ensures r.Ok? ==> p < r.next <= |text|
    ensures r.Fail? ==> p <= r.at <= |text|
    decreases |text| - p, 0
  {
    var q := Skip(text, p + 1);
    if At(text, q) == RBRACKET then Ok([], q + 1) else ParseItems(text, q)
  }

  /** One array element and what follows it. */
  function ParseItems(text: seq<byte>, p: nat): (r: Parse<seq<Json>>)
    requires p <= |text|
    ensures r.Ok? ==> p < r.next <= |text|
    ensures r.Fail? ==> p <= r.at <= |text|
    decreases |text| - p, 2
  {
    match ParseValue(text, p)
    case Ok(v, e) => Prepend([v], ParseMoreItems(text, Skip(text, e)))
    case Fail(at) => Fail(at)
    case Unspecified => Unspecified
  }

  /** The loop of `parse_array`. After a trailing comma it takes the closing bracket and then asks
      for one more. */
  function ParseMoreItems(text: seq<byte>, p: nat): (r: Parse<seq<Json>>)
    requires p <= |text|
    ensures r.Ok? ==> p < r.next <= |text|
    ensures r.Fail? ==> p <= r.at <= |text|
    decreases |text| - p, 3
  {
    if At(text, p) == COMMA then
      var q := Skip(text, p + 1);
      if At(text, q) != RBRACKET then ParseItems(text, q)
      else if At(text, q + 1) == RBRACKET then Ok([], q + 2)
      else Fail(q + 1)
    else if At(text, p) == RBRACKET then Ok([], p + 1)
    else Fail(p)
  }

  function ParseObject(text: seq<byte>, p: nat): (r: Parse<seq<Member>>)
    requires p <= |text| && At(text, p) == LBRACE
    ensures r.Ok? ==> p < r.next <= |text|
    ensures r.Fail? ==> p <= r.at <= |text|
    decreases |text| - p, 0
  {
    var q := Skip(text, p + 1);
    if At(text, q) == RBRACE then Ok([], q + 1) else ParseMembers(text, q)
  }

  /** A name, a colon and a value. */
  function ParseMember(text: seq<byte>, p: nat): (r: Parse<Member>)
    requires p <= |text|
    ensures r.Ok? ==> p < r.next <= |text|
    ensures r.Fail? ==> p <= r.at <= |text|
    decreases |text| - p, 2
  {
    match ParseString(text, p)
    case Fail(at) => Fail(at)
    case Unspecified => Unspecified
    case Ok(name, e) =>
      var q := Skip(text, e);
      if At(text, q) != COLON then Fail(q)
      else
        match ParseValue(text, Skip(text, q + 1))
        case Ok(v, e') => Ok(Member(name, v), e')
        case Fail(at) => Fail(at)
        case Unspecified => Unspecified
  }

  /** One member and what follows it. */
  function ParseMembers(text: seq<byte>, p: nat): (r: Parse<seq<Member>>)
    requires p <= |text|
    ensures r.Ok? ==> p < r.next <= |text|
    ensures r.Fail? ==> p <= r.at <= |text|
    decreases |text| - p, 3
  {
    match ParseMember(text, p)
    case Ok(m, e) => Prepend([m], ParseMoreMembers(text, Skip(text, e)))
    case Fail(at) => Fail(at)
    case Unspecified => Unspecified
  }

  /** The loop of `parse_object`, with the same second closing brace after a trailing comma. */
  function ParseMoreMembers(text: seq<byte>, p: nat): (r: Parse<seq<Member>>)
    requires p <= |text|
    ensures r.Ok? ==> p < r.next <= |text|
    ensures r.Fail? ==> p <= r.at <= |text|
    decreases |text| - p, 4
  {
    if At(text, p) == COMMA then
      var q := Skip(text, p + 1);
      if At(text, q) != RBRACE then ParseMembers(text, q)
      else if At(text, q + 1) == RBRACE then Ok([], q + 2)
      else Fail(q + 1)
    else if At(text, p) == RBRACE then Ok([], p + 1)
    else Fail(p)
  }

  /** `cJSON_Parse_Stream`. */
  function ParseStream(text: seq<byte>): (r: Parse<Json>)
    ensures r.Ok? ==> 0 < r.next <= |text|
    ensures r.Fail? ==> r.at <= |text|
  {
    ParseValue(text, Skip(text, 0))
  }

  /** A failed element fails its container. */
  function Failed<T, U>(r: Parse<T>): Parse<U>
    requires !r.Ok?
  {
    if r.Fail? then Fail(r.at) else Unspecified
  }
}
