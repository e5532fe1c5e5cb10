/** The values a JSON document stands for. */
module Json {
  import opened Text

  /** `Number(n, scale, subscale)` is what `parse_number` has read before it calls `pow`: the
      signed digits, minus the count of fraction digits, and the signed exponent. */
  datatype Json =
    | Null
    | False
    | True
    | Number(n: int, scale: int, subscale: int)
    | Str(s: seq<byte>)
    | Arr(items: seq<Json>)
    | Obj(members: seq<Member>)

  datatype Member = Member(name: seq<byte>, value: Json)

  predicate IsInt32(i: int) {
    -0x8000_0000 <= i < 0x8000_0000
  }

  function Int(i: int): Json {
    Number(i, 0, 0)
  }

  /** The trees the printer is modelled for: C strings throughout, and numbers that take the
      `%d` branch of `print_number`. */
  predicate Printable(t: Json) {
    match t
    case Number(n, scale, subscale) => IsInt32(n) && scale == 0 && subscale == 0
    case Str(s) => NulFree(s)
    case Arr(items) => forall i :: 0 <= i < |items| ==> Printable(items[i])
    case Obj(members) =>
      forall i :: 0 <= i < |members| ==> NulFree(members[i].name) && Printable(members[i].value)
    case _ => true
  }

  /** No number of the tree was written with fraction digits. */
  predicate Integral(t: Json) {
    match t
    case Number(_, scale, _) => scale == 0
    case Arr(items) => forall i :: 0 <= i < |items| ==> Integral(items[i])
    case Obj(members) => forall i :: 0 <= i < |members| ==> Integral(members[i].value)
    case _ => true
  }

  predicate IsContainer(t: Json) {
    t.Arr? || t.Obj?
  }

  // ----- Names -----

  /** `tolower` in the C locale. */
  function ToLower(c: byte): byte {
    if 0x41 <= c <= 0x5A then c + 32 else c
  }

  /** Letters lose their case ... */
  lemma LowerLetters(c: byte, i: nat)
    requires i < 26 && c as char == "ABCDEFGHIJKLMNOPQRSTUVWXYZ"[i]
    ensures ToLower(c) as char == "abcdefghijklmnopqrstuvwxyz"[i]
  {
  }

  /** ... and nothing else changes. */
  lemma OtherBytes(c: byte)
    requires c as char !in "ABCDEFGHIJKLMNOPQRSTUVWXYZ"
    ensures ToLower(c) == c
  {
    assert 0x41 <= c <= 0x5A ==> "ABCDEFGHIJKLMNOPQRSTUVWXYZ"[c - 0x41] == c as char;
  }

  /** The names `cJSON_strcasecmp` takes for the same. */
  predicate SameName(a: seq<byte>, b: seq<byte>) {
    |a| == |b| && forall i :: 0 <= i < |a| ==> ToLower(a[i]) == ToLower(b[i])
  }

  /** `cJSON_strcasecmp(s1, s2) == 0` for two C strings. */
  method StrCaseEqual(s1: seq<byte>, s2: seq<byte>) returns (same: bool)
    requires NulFree(s1) && NulFree(s2)
    ensures same <==> SameName(s1, s2)
  {
    var i := 0;
    while ToLower(At(s1, i)) == ToLower(At(s2, i))
      invariant 0 <= i <= |s1| && i <= |s2|
      invariant forall k :: 0 <= k < i ==> ToLower(s1[k]) == ToLower(s2[k])
      decreases |s1| - i
    {
      if At(s1, i) == 0 {
        return true;
      }
      i := i + 1;
    }
    return false;
  }
}
