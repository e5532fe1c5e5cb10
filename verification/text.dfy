/** C strings as byte sequences: a text is the bytes before its terminator, and the
    position one past its end reads as the terminating zero. */
module Text {

  type byte = b: int | 0 <= b < 256

  datatype Option<+T> = None | Some(value: T)

  const QUOTE: byte := 0x22
  const BACKSLASH: byte := 0x5C
  const PLUS: byte := 0x2B
  const COMMA: byte := 0x2C
  const MINUS: byte := 0x2D
  const DOT: byte := 0x2E
  const ZERO: byte := 0x30
  const NINE: byte := 0x39
  const COLON: byte := 0x3A
  const LBRACKET: byte := 0x5B
  const RBRACKET: byte := 0x5D
  const LBRACE: byte := 0x7B
  const RBRACE: byte := 0x7D
  const TAB: byte := 9
  const NEWLINE: byte := 10
  const SPACE: byte := 32

  /** What a parsing step yields: a value and the cursor after it, a failure with the cursor
      where it stopped, or `Unspecified` where the C run would read past the terminator or use
      an escape that `sscanf` did not fill in. */
  datatype Parse<+T> = Ok(value: T, next: nat) | Fail(at: nat) | Unspecified

  /** The cursor stands where the step left it. */
  predicate Landed<T>(r: Parse<T>, pos: nat) {
    match r
    case Ok(_, next) => pos == next
    case Fail(at) => pos == at
    case Unspecified => true
  }

  /** The byte under the cursor. */
  function At(text: seq<byte>, p: nat): byte {
    if p < |text| then text[p] else 0
  }

  /** `isspace` in the C locale. */
  predicate IsSpace(c: byte) {
    9 <= c <= 13 || c == SPACE
  }

  /** The six bytes: tab, line feed, vertical tab, form feed, carriage return and space. */
  lemma SpaceBytes(c: byte)
    ensures IsSpace(c) <==> c as char in "\t\n\U{0B}\U{0C}\r "
  {
  }

  predicate IsDigit(c: byte) {
    ZERO <= c <= NINE
  }

  predicate NulFree(s: seq<byte>) {
    forall i :: 0 <= i < |s| ==> s[i] != 0
  }

  /** The bytes `part` stand in `text` from position `p` on. */
  ghost predicate Matches(text: seq<byte>, p: nat, part: seq<byte>) {
    p + |part| <= |text| && forall i :: 0 <= i < |part| ==> part[i] == text[p + i]
  }

  lemma MatchesSplit(text: seq<byte>, p: nat, a: seq<byte>, b: seq<byte>)
    ensures Matches(text, p, a + b) <==> Matches(text, p, a) && Matches(text, p + |a|, b)
  {
    var s := a + b;
    if Matches(text, p, s) {
      assert forall i :: 0 <= i < |a| ==> a[i] == s[i];
      assert forall i :: 0 <= i < |b| ==> b[i] == s[|a| + i];
    }
  }

  lemma MatchesByte(text: seq<byte>, p: nat, b: byte)
    requires Matches(text, p, [b])
    ensures p < |text| && text[p] == b
  {
    assert text[p + 0] == [b][0];
  }

  /** Where the cursor stands after leading white space. */
  function Skip(text: seq<byte>, p: nat): (q: nat)
    requires p <= |text|
    ensures p <= q <= |text|
    ensures forall i :: p <= i < q ==> IsSpace(text[i])
    ensures !IsSpace(At(text, q))
    decreases |text| - p
  {
    if IsSpace(At(text, p)) then Skip(text, p + 1) else p
  }

  /** `Skip` is the only position its contract allows. */
  lemma SkipUnique(text: seq<byte>, p: nat, q: nat)
    requires p <= q <= |text|
    requires forall i :: p <= i < q ==> IsSpace(text[i])
    requires !IsSpace(At(text, q))
    ensures Skip(text, p) == q
  {
  }

  /** A C string ends at its first zero. */
  function UpToNul(s: seq<byte>): (t: seq<byte>)
    ensures |t| <= |s| && NulFree(t) && t == s[..|t|] && At(s, |t|) == 0
  {
    if s == [] || s[0] == 0 then [] else [s[0]] + UpToNul(s[1..])
  }

  lemma {:induction false} UpToNulAt(s: seq<byte>, n: nat)
    requires n <= |s| && NulFree(s[..n]) && At(s, n) == 0
    ensures UpToNul(s) == s[..n]
    decreases n
  {
    if n > 0 {
      assert s[..n][0] == s[0] && s[1..][..n - 1] == s[..n][1..];
      UpToNulAt(s[1..], n - 1);
      assert s[..n] == [s[0]] + s[1..][..n - 1];
    }
  }

  lemma UpToNulFree(s: seq<byte>)
    requires NulFree(s)
    ensures UpToNul(s) == s
  {
    assert s[..|s|] == s;
    UpToNulAt(s, |s|);
  }

  /** The moving `char **` of the parser over a text that does not change. */
  class Cursor {
    const text: seq<byte>
    var pos: nat

    constructor (text: seq<byte>)
      ensures this.text == text && pos == 0
    {
      this.text := text;
      pos := 0;
    }

    method SkipSpace()
      requires pos <= |text|
      modifies this`pos
      ensures pos == Skip(text, old(pos))
    {
      while IsSpace(At(text, pos))
        invariant old(pos) <= pos <= |text|
        invariant Skip(text, pos) == Skip(text, old(pos))
        decreases |text| - pos
      {
        pos := pos + 1;
      }
    }
  }

  /** `strlen` of a text held in an array. */
  method StrLen(a: array<byte>) returns (n: nat)
    requires exists k :: 0 <= k < a.Length && a[k] == 0
    ensures n < a.Length && a[n] == 0 && NulFree(a[..n])
  {
    n := 0;
    while a[n] != 0
      invariant n < a.Length
      invariant forall i :: 0 <= i < n ==> a[i] != 0
      decreases a.Length - n
    {
      n := n + 1;
    }
  }

  /** `*ptr++ = c`. */
  method Put(a: array<byte>, w: nat, c: byte) returns (w': nat)
    requires w < a.Length
    modifies a
    ensures w' == w + 1 && a[..w'] == old(a[..w]) + [c]
  {
    a[w] := c;
    w' := w + 1;
  }

  /** `memcpy` or `strcpy` of `s` into an array from position `w` on, terminator left out. */
  method CopyInto(a: array<byte>, w: nat, s: seq<byte>)
    requires w + |s| <= a.Length
    modifies a
    ensures a[..w + |s|] == old(a[..w]) + s
    ensures a[w + |s|..] == old(a[w + |s|..])
  {
    forall i | 0 <= i < |s| {
      a[w + i] := s[i];
    }
  }
}
