/** `parse_string` and `print_string_ptr`: two passes each, one that counts and one that writes. */
module JsonString {
  import opened Text

  const LOWER_B: byte := 0x62
  const LOWER_F: byte := 0x66
  const LOWER_N: byte := 0x6E
  const LOWER_R: byte := 0x72
  const LOWER_T: byte := 0x74
  const LOWER_U: byte := 0x75

  // ----- Hexadecimal digits -----

  predicate IsHex(c: byte) {
    0x30 <= c <= 0x39 || 0x41 <= c <= 0x46 || 0x61 <= c <= 0x66
  }

  function HexValue(c: byte): (v: nat)
    requires IsHex(c)
    ensures v < 16
  {
    if c <= 0x39 then c - 0x30 else if c <= 0x46 then c - 0x41 + 10 else c - 0x61 + 10
  }

  /** The lower-case digit `%04x` writes. */
  function HexDigit(v: nat): (c: byte)
    requires v < 16
    ensures IsHex(c) && HexValue(c) == v
  {
    if v < 10 then 0x30 + v else 0x61 + v - 10
  }

  /** `sscanf("%4x")` at `p` finds its four digits. */
  predicate Hex4(text: seq<byte>, p: nat) {
    p + 4 <= |text| && IsHex(text[p]) && IsHex(text[p + 1]) && IsHex(text[p + 2]) && IsHex(text[p + 3])
  }

  function Hex4Value(text: seq<byte>, p: nat): (v: nat)
    requires Hex4(text, p)
    ensures v < 0x1_0000
  {
    HexValue(text[p]) * 4096 + HexValue(text[p + 1]) * 256 + HexValue(text[p + 2]) * 16 + HexValue(text[p + 3])
  }

  // ----- UTF-16 escapes to UTF-8 -----

  /** The UTF-8 of section 3 of RFC 3629. */
  function Utf8(c: nat): (s: seq<byte>)
    requires 0 < c < 0x20_0000
    ensures 1 <= |s| <= 4
  {
    if c < 0x80 then [c]
    else if c < 0x800 then [0xC0 + c / 64, 0x80 + c % 64]
    else if c < 0x1_0000 then [0xE0 + c / 64 / 64, 0x80 + c / 64 % 64, 0x80 + c % 64]
    else [0xF0 + c / 64 / 64 / 64, 0x80 + c / 64 / 64 % 64, 0x80 + c / 64 % 64, 0x80 + c % 64]
  }

  /** Line 204 ors bit 16 into the twenty payload bits of a surrogate pair instead of adding it. */
  function Combine(hi: nat, lo: nat): (c: nat)
    ensures 0x1_0000 <= c < 0x11_0000
  {
    var z := hi % 1024 * 1024 + lo % 1024;
    if z / 0x1_0000 % 2 == 1 then z else z + 0x1_0000
  }

  /** The arithmetic of `WriteUtf8` is what lines 210-213 write with bit operators ... */
  lemma ByteForms(x: bv32)
    ensures (x | 0x80) & 0xBF == 0x80 + (x & 0x3F)
  {
  }

  lemma MarkForms(x: bv32)
    ensures (x & 0x1F) | 0xC0 == (x & 0x1F) + 0xC0
    ensures (x & 0x0F) | 0xE0 == (x & 0x0F) + 0xE0
    ensures (x & 0x07) | 0xF0 == (x & 0x07) + 0xF0
  {
  }

  /** ... and that of `Combine` is line 204. */
  lemma CombineForm(x: bv32, y: bv32)
    ensures var z := ((x & 0x3FF) << 10) + (y & 0x3FF);
            0x1_0000 | ((x & 0x3FF) << 10) | (y & 0x3FF) == if (z >> 16) & 1 == 1 then z else z + 0x1_0000
  {
  }

  predicate IsLowSurrogate(c: nat) {
    0xDC00 <= c <= 0xDFFF
  }

  predicate IsHighSurrogate(c: nat) {
    0xD800 <= c <= 0xDBFF
  }

  /** What the escape at `p` writes, and where the cursor goes on. */
  function EscapeStep(text: seq<byte>, p: nat): (r: Parse<seq<byte>>)
    requires At(text, p) == BACKSLASH
    ensures !r.Fail?
    ensures r.Ok? ==> p + 2 <= r.next <= |text|
  {
    var d := At(text, p + 1);
    if d == 0 then Unspecified
    else if d == LOWER_U then UnicodeStep(text, p)
    else Ok([SimpleEscape(d)], p + 2)
  }

  function SimpleEscape(d: byte): byte {
    if d == LOWER_B then 8
    else if d == LOWER_F then 12
    else if d == LOWER_N then 10
    else if d == LOWER_R then 13
    else if d == LOWER_T then 9
    else d
  }

  /** A `\u` escape. A stray low surrogate, a zero, a high surrogate without its second half, and
      a second half that is no low surrogate write nothing. */
  function UnicodeStep(text: seq<byte>, p: nat): (r: Parse<seq<byte>>)
    ensures !r.Fail?
    ensures r.Ok? ==> p + 6 <= r.next <= |text|
  {
    if !Hex4(text, p + 2) then Unspecified
    else
      var uc := Hex4Value(text, p + 2);
      if IsLowSurrogate(uc) || uc == 0 then Ok([], p + 6)
      else if !IsHighSurrogate(uc) then Ok(Utf8(uc), p + 6)
      else if At(text, p + 6) != BACKSLASH || At(text, p + 7) != LOWER_U then Ok([], p + 6)
      else if !Hex4(text, p + 8) then Unspecified
      else
        var uc2 := Hex4Value(text, p + 8);
        Ok(if IsLowSurrogate(uc2) then Utf8(Combine(uc, uc2)) else [], p + 12)
  }

  // ----- Parsing -----

  predicate EndsLiteral(c: byte) {
    c == QUOTE || c == 0
  }

  function Prepend<T>(s: seq<T>, r: Parse<seq<T>>): Parse<seq<T>> {
    match r
    case Ok(t, next) => Ok(s + t, next)
    case _ => r
  }

  lemma PrependPrepend<T>(s: seq<T>, t: seq<T>, r: Parse<seq<T>>)
    ensures Prepend(s, Prepend(t, r)) == Prepend(s + t, r)
  {
    if r.Ok? {
      assert s + (t + r.value) == s + t + r.value;
    }
  }

  /** The bytes between the quotes, unescaped, and the position of the closing quote or zero. */
  function Unescape(text: seq<byte>, p: nat): (r: Parse<seq<byte>>)
    requires p <= |text|
    ensures !r.Fail?
    ensures r.Ok? ==> p <= r.next <= |text| && EndsLiteral(At(text, r.next))
    decreases |text| - p
  {
    var c := At(text, p);
    if EndsLiteral(c) then Ok([], p)
    else if c != BACKSLASH then Prepend([c], Unescape(text, p + 1))
    else
      match EscapeStep(text, p)
      case Ok(s, next) => Prepend(s, Unescape(text, next))
      case _ => Unspecified
  }

  /** What `parse_string` makes of the text at `p`: a missing closing quote is not an error. */
  function ParseString(text: seq<byte>, p: nat): (r: Parse<seq<byte>>)
    requires p <= |text|
    ensures r.Ok? ==> p < r.next <= |text|
    ensures r.Fail? <==> At(text, p) != QUOTE
    ensures r.Fail? ==> r.at == p
  {
    if At(text, p) != QUOTE then Fail(p)
    else
      match Unescape(text, p + 1)
      case Ok(s, e) => Ok(s, if At(text, e) == QUOTE then e + 1 else e)
      case _ => Unspecified
  }

  /** What is parsed is a C string: a `\u0000` writes nothing. */
  lemma {:induction false} UnescapeNulFree(text: seq<byte>, p: nat)
    requires p <= |text| && Unescape(text, p).Ok?
    ensures NulFree(Unescape(text, p).value)
    decreases |text| - p
  {
    var c := At(text, p);
    if EndsLiteral(c) {
    } else if c != BACKSLASH {
      UnescapeNulFree(text, p + 1);
    } else {
      UnescapeNulFree(text, EscapeStep(text, p).next);
      assert NulFree(EscapeStep(text, p).value);
    }
  }

  /** The counting pass: every escape counts its backslash and next byte as one. */
  function CountPass(text: seq<byte>, p: nat): (r: Parse<nat>)
    requires p <= |text|
    ensures !r.Fail?
    ensures r.Ok? ==> p <= r.next <= |text|
    decreases |text| - p
  {
    var c := At(text, p);
    if EndsLiteral(c) then Ok(0, p)
    else if c == BACKSLASH && At(text, p + 1) == 0 then Unspecified
    else
      match CountPass(text, if c == BACKSLASH then p + 2 else p + 1)
      case Ok(n, e) => Ok(n + 1, e)
      case _ => Unspecified
  }

  /** Four hexadecimal digits count one each. */
  lemma CountHex4(text: seq<byte>, p: nat)
    requires Hex4(text, p)
    ensures CountPass(text, p).Ok? <==> CountPass(text, p + 4).Ok?
    ensures CountPass(text, p).Ok? ==>
              && CountPass(text, p).value == CountPass(text, p + 4).value + 4
              && CountPass(text, p).next == CountPass(text, p + 4).next
  {
    assert CountPass(text, p).Ok? == CountPass(text, p + 1).Ok?;
    assert CountPass(text, p + 1).Ok? == CountPass(text, p + 2).Ok?;
    assert CountPass(text, p + 2).Ok? == CountPass(text, p + 3).Ok?;
    assert CountPass(text, p + 3).Ok? == CountPass(text, p + 4).Ok?;
  }

  /** An escape writes no more than the counting pass reserved for it. */
  lemma CountEscape(text: seq<byte>, p: nat)
    requires At(text, p) == BACKSLASH && EscapeStep(text, p).Ok?
    ensures var next := EscapeStep(text, p).next;
            && (CountPass(text, p).Ok? <==> CountPass(text, next).Ok?)
            && (CountPass(text, p).Ok? ==>
                  && |EscapeStep(text, p).value| + CountPass(text, next).value <= CountPass(text, p).value
                  && CountPass(text, p).next == CountPass(text, next).next)
  {
    if At(text, p + 1) == LOWER_U {
      assert p + 2 <= |text|;
      CountHex4(text, p + 2);
      if EscapeStep(text, p).next == p + 12 {
        assert CountPass(text, p + 6).Ok? == CountPass(text, p + 8).Ok?;
        CountHex4(text, p + 8);
      }
    }
  }

  /** The two passes of `parse_string` end at the same place, and the first one never counts less
      than the second one writes. */
  lemma {:induction false} CountBoundsBytes(text: seq<byte>, p: nat)
    requires p <= |text| && Unescape(text, p).Ok?
    ensures CountPass(text, p).Ok?
    ensures CountPass(text, p).next == Unescape(text, p).next
    ensures |Unescape(text, p).value| <= CountPass(text, p).value
    decreases |text| - p
  {
    var c := At(text, p);
    if EndsLiteral(c) {
    } else if c != BACKSLASH {
      CountBoundsBytes(text, p + 1);
    } else {
      CountEscape(text, p);
      CountBoundsBytes(text, EscapeStep(text, p).next);
    }
  }

  /** The first loop of `parse_string`. */
  method CountLiteral(text: seq<byte>, p: nat) returns (r: Parse<nat>)
    requires p <= |text|
    ensures r == CountPass(text, p)
  {
    var ptr, len := p, 0;
    while !EndsLiteral(At(text, ptr))
      invariant p <= ptr <= |text|
      invariant CountPass(text, ptr).Ok? <==> CountPass(text, p).Ok?
      invariant CountPass(text, p).Ok? ==>
                  && CountPass(text, p).value == len + CountPass(text, ptr).value
                  && CountPass(text, p).next == CountPass(text, ptr).next
      decreases |text| - ptr
    {
      len := len + 1;
      ptr := ptr + 1;
      if text[ptr - 1] == BACKSLASH {
        if At(text, ptr) == 0 {
          return Unspecified;
        }
        ptr := ptr + 1;
      }
    }
    return Ok(len, ptr);
  }

  /** The second `switch` of `parse_string`: the bytes of one character, last byte first. */
  method WriteUtf8(out: array<byte>, w: nat, c: nat) returns (w': nat)
    requires 0 < c < 0x20_0000
    requires w + |Utf8(c)| <= out.Length
    modifies out
    ensures w' == w + |Utf8(c)|
    ensures out[..w'] == old(out[..w]) + Utf8(c)
  {
    hide Utf8, Shifted, Continued;
    var uc: nat := c;
    var len, mark := 4, 0xF0;
    if uc < 0x80 { len, mark := 1, 0; }
    else if uc < 0x800 { len, mark := 2, 0xC0; }
    else if uc < 0x1_0000 { len, mark := 3, 0xE0; }
    Utf8Parts(c, len, mark);
    w' := w + len;
    var ptr;
    ptr, uc := WriteTail(out, w', len, c);
    ghost var before := out[..ptr - 1];
    ptr := ptr - 1;
    out[ptr] := uc + mark;
    Backwards(out[..w'], ptr, uc + mark, Continued(c, len - 1));
    assert out[..w'][..ptr] == before;
  }

  /** The cases of the switch that fall through to the last one. */
  method WriteTail(out: array<byte>, end: nat, len: nat, c: nat) returns (ptr: nat, uc: nat)
    requires 1 <= len <= 4 && len <= end <= out.Length
    modifies out
    ensures ptr == end - (len - 1) && uc == Shifted(c, len - 1)
    ensures out[ptr..end] == Continued(c, len - 1) && out[..ptr] == old(out[..ptr])
  {
    hide Shifted, Continued;
    ghost var j := 0;
    Unshifted(c);
    ptr, uc := end, c;
    if len >= 4 {
      ptr, uc, j := StepBack(out, ptr, end, uc, c, j);
    }
    if len >= 3 {
      ptr, uc, j := StepBack(out, ptr, end, uc, c, j);
    }
    if len >= 2 {
      ptr, uc, j := StepBack(out, ptr, end, uc, c, j);
    }
  }

  lemma Unshifted(c: nat)
    ensures Shifted(c, 0) == c && Continued(c, 0) == []
  {
  }

  /** What is left of a character after `j` times `uc >>= 6`. */
  function Shifted(c: nat, j: nat): nat {
    if j == 0 then c else Shifted(c, j - 1) / 64
  }

  /** Its last `j` continuation bytes. */
  function Continued(c: nat, j: nat): (s: seq<byte>)
    ensures |s| == j
  {
    if j == 0 then [] else [0x80 + Shifted(c, j - 1) % 64] + Continued(c, j - 1)
  }

  lemma Utf8Parts(c: nat, len: nat, mark: byte)
    requires 0 < c < 0x20_0000
    requires (len, mark as int) == if c < 0x80 then (1, 0) else if c < 0x800 then (2, 0xC0)
                                   else if c < 0x1_0000 then (3, 0xE0) else (4, 0xF0)
    ensures Shifted(c, len - 1) + mark < 256
    ensures Utf8(c) == [Shifted(c, len - 1) + mark] + Continued(c, len - 1)
  {
    assert Shifted(c, 1) == c / 64;
    assert Shifted(c, 2) == c / 64 / 64;
    assert Shifted(c, 3) == c / 64 / 64 / 64;
    assert Continued(c, 1) == [0x80 + c % 64];
    assert Continued(c, 2) == [0x80 + c / 64 % 64, 0x80 + c % 64];
    assert Continued(c, 3) == [0x80 + c / 64 / 64 % 64, 0x80 + c / 64 % 64, 0x80 + c % 64];
  }

  /** `*--ptr2 = ((uc | 0x80) & 0xBF); uc >>= 6;`. */
  method StepBack(out: array<byte>, ptr: nat, end: nat, uc: nat, ghost c: nat, ghost j: nat)
      returns (ptr': nat, uc': nat, ghost j': nat)
    requires 0 < ptr <= end <= out.Length && out[ptr..end] == Continued(c, j) && uc == Shifted(c, j)
    modifies out
    ensures ptr' == ptr - 1 && j' == j + 1 && uc' == Shifted(c, j')
    ensures out[ptr'..end] == Continued(c, j') && out[..ptr'] == old(out[..ptr'])
  {
    hide Shifted, Continued;
    OneMore(c, j);
    out[ptr - 1] := 0x80 + uc % 64;
    ptr', uc', j' := ptr - 1, uc / 64, j + 1;
    assert out[ptr'..end] == [out[ptr']] + out[ptr..end];
  }

  lemma OneMore(c: nat, j: nat)
    ensures Shifted(c, j + 1) == Shifted(c, j) / 64
    ensures Continued(c, j + 1) == [0x80 + Shifted(c, j) % 64] + Continued(c, j)
  {
  }

  lemma Backwards(s: seq<byte>, w: nat, first: byte, tail: seq<byte>)
    requires w < |s| && s[w] == first && s[w + 1..] == tail
    ensures s == s[..w] + ([first] + tail)
  {
  }

  /** `parse_string`: the array is as long as the first pass counted, plus the terminator. */
  method ReadString(c: Cursor) returns (r: Parse<seq<byte>>)
    requires c.pos <= |c.text|
    modifies c`pos
    ensures r == ParseString(c.text, old(c.pos))
    ensures Landed(r, c.pos)
  {
    if At(c.text, c.pos) != QUOTE {
      return Fail(c.pos);
    }
    ghost var start := c.pos + 1;
    var count := CountLiteral(c.text, c.pos + 1);
    if Unescape(c.text, start).Ok? {
      CountBoundsBytes(c.text, start);
    }
    if count.Unspecified? {
      return Unspecified;
    }
    var out := new byte[count.value + 1](_ => 0);
    var s := Transcode(c.text, c.pos + 1, out);
    if s.Unspecified? {
      return Unspecified;
    }
    var ptr := s.next;
    if At(c.text, ptr) == QUOTE {
      ptr := ptr + 1;
    }
    c.pos := ptr;
    return Ok(s.value, ptr);
  }

  /** The second loop of `parse_string`, which writes into `out` and ends it with a zero. */
  method Transcode(text: seq<byte>, p: nat, out: array<byte>) returns (r: Parse<seq<byte>>)
    requires p <= |text| && CountPass(text, p).Ok?
    requires out.Length == CountPass(text, p).value + 1
    modifies out
    ensures r == Unescape(text, p)
    ensures r.Ok? ==> |r.value| < out.Length && out[..|r.value| + 1] == r.value + [0]
  {
    var ptr: nat, w: nat := p, 0;
    assert Prepend(out[..0], Unescape(text, p)) == Unescape(text, p) by {
      if Unescape(text, p).Ok? {
        assert out[..0] + Unescape(text, p).value == Unescape(text, p).value;
      }
    }
    while !EndsLiteral(At(text, ptr))
      invariant p <= ptr <= |text|
      invariant CountPass(text, ptr).Ok? && w + CountPass(text, ptr).value < out.Length
      invariant Unescape(text, p) == Prepend(out[..w], Unescape(text, ptr))
      decreases |text| - ptr
    {
      ghost var s := out[..w];
      if At(text, ptr) != BACKSLASH {
        PrependPrepend(s, [text[ptr]], Unescape(text, ptr + 1));
        out[w] := text[ptr];
        w := w + 1;
        ptr := ptr + 1;
        assert out[..w] == s + [text[ptr - 1]];
      } else {
        var step := EscapeStep(text, ptr);
        if step.Unspecified? {
          return Unspecified;
        }
        CountEscape(text, ptr);
        PrependPrepend(s, step.value, Unescape(text, step.next));
        w := WriteStep(text, ptr, out, w);
        ptr := step.next;
      }
    }
    r := Ok(out[..w], ptr);
    assert out[..w] + [] == out[..w];
    out[w] := 0;
    assert out[..w + 1] == out[..w] + [0] == r.value + [0];
  }

  /** The first `switch` of `parse_string`. */
  method WriteStep(text: seq<byte>, p: nat, out: array<byte>, w: nat) returns (w': nat)
    requires At(text, p) == BACKSLASH && EscapeStep(text, p).Ok?
    requires w + |EscapeStep(text, p).value| <= out.Length
    modifies out
    ensures w' == w + |EscapeStep(text, p).value|
    ensures out[..w'] == old(out[..w]) + EscapeStep(text, p).value
  {
    w' := w;
    var d := At(text, p + 1);
    if d != LOWER_U {
      CopyInto(out, w, [SimpleEscape(d)]);
      w' := w + 1;
    } else {
      var uc := Hex4Value(text, p + 2);
      if IsLowSurrogate(uc) || uc == 0 {
        return;
      }
      if IsHighSurrogate(uc) {
        if At(text, p + 6) != BACKSLASH || At(text, p + 7) != LOWER_U {
          return;
        }
        var uc2 := Hex4Value(text, p + 8);
        if !IsLowSurrogate(uc2) {
          return;
        }
        uc := Combine(uc, uc2);
      }
      w' := WriteUtf8(out, w, uc);
    }
  }

  // ----- Printing -----

  predicate IsPlain(c: byte) {
    c > 31 && c != QUOTE && c != BACKSLASH
  }

  /** The letter of a two-byte escape, or zero where there is none. */
  function ShortEscape(c: byte): byte {
    if c == BACKSLASH || c == QUOTE then c
    else if c == 8 then LOWER_B
    else if c == 12 then LOWER_F
    else if c == 10 then LOWER_N
    else if c == 13 then LOWER_R
    else if c == 9 then LOWER_T
    else 0
  }

  function HexEscape(c: byte): seq<byte> {
    [BACKSLASH, LOWER_U, 0x30, 0x30, HexDigit(c / 16), HexDigit(c % 16)]
  }

  /** How one byte of a string is printed. */
  function EscapeByte(c: byte): (s: seq<byte>)
    requires c != 0
    ensures 1 <= |s| <= 6
  {
    if IsPlain(c) then [c]
    else if ShortEscape(c) != 0 then [BACKSLASH, ShortEscape(c)]
    else HexEscape(c)
  }

  function EscapeAll(s: seq<byte>): seq<byte>
    requires NulFree(s)
  {
    if s == [] then [] else EscapeByte(s[0]) + EscapeAll(s[1..])
  }

  function PrintString(s: seq<byte>): (t: seq<byte>)
    requires NulFree(s)
    ensures |t| >= 2 && t[0] == QUOTE
  {
    [QUOTE] + (EscapeAll(s) + [QUOTE])
  }

  /** A printed string is a C string again. */
  lemma {:induction false} PrintStringNulFree(s: seq<byte>)
    requires NulFree(s)
    ensures NulFree(EscapeAll(s)) && NulFree(PrintString(s))
  {
    if s != [] {
      PrintStringNulFree(s[1..]);
      assert NulFree(EscapeByte(s[0]));
    }
  }

  lemma {:induction false} EscapeAllSnoc(s: seq<byte>, i: nat)
    requires NulFree(s) && i < |s|
    ensures EscapeAll(s[..i + 1]) == EscapeAll(s[..i]) + EscapeByte(s[i])
    decreases i
  {
    if i == 0 {
      assert s[..1][1..] == [] && s[..0] == [];
    } else {
      assert s[1..][..i] == s[..i + 1][1..] && s[1..][..i - 1] == s[..i][1..];
      EscapeAllSnoc(s[1..], i - 1);
    }
  }

  /** `print_string_ptr`: the first loop counts, the second one fills exactly the `len + 3` bytes
      allocated. */
  method PrintStringPtr(s: seq<byte>) returns (out: array<byte>)
    requires NulFree(s)
    ensures fresh(out) && out[..] == PrintString(s) + [0]
  {
    var len := CountEscapes(s);
    out := new byte[len + 3](_ => 0);
    out[0] := QUOTE;
    assert out[..1] == [QUOTE];
    var w := WriteEscapes(out, s);
    out[w] := QUOTE;
    out[w + 1] := 0;
    assert out[..] == out[..w] + [QUOTE, 0];
  }

  /** The second loop of `print_string_ptr`. */
  method WriteEscapes(out: array<byte>, s: seq<byte>) returns (w: nat)
    requires NulFree(s) && out.Length == |EscapeAll(s)| + 3
    modifies out
    ensures w == 1 + |EscapeAll(s)|
    ensures out[..w] == old(out[..1]) + EscapeAll(s)
  {
    hide EscapeByte;
    w := 1;
    ghost var written: seq<byte> := [];
    for i := 0 to |s|
      invariant written == EscapeAll(s[..i])
      invariant w == 1 + |written| < out.Length
      invariant out[..w] == old(out[..1]) + written
    {
      EscapeAllSnoc(s, i);
      EscapePrefix(s, i + 1);
      w := WriteEscape(out, w, s[i]);
      written := written + EscapeByte(s[i]);
    }
    assert s[..|s|] == s;
  }

  /** The first loop of `print_string_ptr`. */
  method CountEscapes(s: seq<byte>) returns (len: nat)
    requires NulFree(s)
    ensures len == |EscapeAll(s)|
  {
    len := 0;
    for i := 0 to |s|
      invariant len == |EscapeAll(s[..i])|
    {
      EscapeAllSnoc(s, i);
      len := len + 1;
      if ShortEscape(s[i]) != 0 { len := len + 1; } else if s[i] < 32 { len := len + 5; }
    }
    assert s[..|s|] == s;
  }

  lemma EscapePrefix(s: seq<byte>, i: nat)
    requires NulFree(s) && i <= |s|
    ensures |EscapeAll(s[..i])| <= |EscapeAll(s)|
    decreases |s| - i
  {
    if i == |s| {
      assert s[..i] == s;
    } else {
      EscapeAllSnoc(s, i);
      EscapePrefix(s, i + 1);
    }
  }

  /** One turn of the second loop; `sprintf` also writes its own terminator. */
  method WriteEscape(out: array<byte>, w: nat, c: byte) returns (w': nat)
    requires c != 0
    requires w + |EscapeByte(c)| < out.Length
    modifies out
    ensures w' == w + |EscapeByte(c)|
    ensures out[..w'] == old(out[..w]) + EscapeByte(c)
  {
    if IsPlain(c) {
      out[w] := c;
      w' := w + 1;
    } else if ShortEscape(c) != 0 {
      CopyInto(out, w, [BACKSLASH, ShortEscape(c)]);
      w' := w + 2;
    } else {
      CopyInto(out, w, HexEscape(c) + [0]);
      w' := w + 6;
    }
  }

  // ----- String literals -----

  /** A Unicode scalar value other than zero. */
  predicate IsScalar(c: nat) {
    0 < c < 0x11_0000 && !(0xD800 <= c <= 0xDFFF)
  }

  type scalar = c: nat | IsScalar(c) witness 1

  /** The surrogate pair of section 2.1 of RFC 2781. */
  function HighSurrogate(c: nat): nat
    requires 0x1_0000 <= c
  {
    0xD800 + (c - 0x1_0000) / 1024
  }

  function LowSurrogate(c: nat): nat
    requires 0x1_0000 <= c
  {
    0xDC00 + (c - 0x1_0000) % 1024
  }

  /** One of the sixteen digits, in either case. */
  predicate IsDigitOf(c: byte, v: nat)
    requires v < 16
  {
    c as char == "0123456789abcdef"[v] || c as char == "0123456789ABCDEF"[v]
  }

  /** Four hexadecimal digits. */
  predicate IsUnit(d: seq<byte>, v: nat) {
    && |d| == 4 && v < 0x1_0000
    && IsDigitOf(d[0], v / 4096) && IsDigitOf(d[1], v / 256 % 16)
    && IsDigitOf(d[2], v / 16 % 16) && IsDigitOf(d[3], v % 16)
  }

  /** A piece of a string literal of section 7 of RFC 8259: a byte that stands for itself, an escape of
      two bytes, or a scalar behind `\u`, twice four digits for a surrogate pair. */
  datatype Piece = Plain(b: byte) | Short(letter: byte, meaning: byte) | Escaped(c: scalar, digits: seq<byte>)

  predicate IsShort(letter: byte, meaning: byte) {
    || (letter, meaning) == (0x22, 0x22) || (letter, meaning) == (0x5C, 0x5C) || (letter, meaning) == (0x2F, 0x2F)
    || (letter, meaning) == (0x62, 0x08) || (letter, meaning) == (0x66, 0x0C) || (letter, meaning) == (0x6E, 0x0A)
    || (letter, meaning) == (0x72, 0x0D) || (letter, meaning) == (0x74, 0x09)
  }

  /** Beyond the grammar, control bytes other than zero may stand for themselves. */
  predicate IsPiece(x: Piece) {
    match x
    case Plain(b) => b != 0x00 && b != 0x22 && b != 0x5C
    case Short(letter, meaning) => IsShort(letter, meaning)
    case Escaped(c, d) =>
      if c < 0x1_0000 then IsUnit(d, c)
      else |d| == 8 && IsUnit(d[..4], HighSurrogate(c)) && IsUnit(d[4..], LowSurrogate(c))
  }

  type piece = x: Piece | IsPiece(x) witness Plain(0x20)

  function PieceText(x: piece): (s: seq<byte>)
    ensures s != []
  {
    match x
    case Plain(b) => [b]
    case Short(letter, _) => [0x5C, letter]
    case Escaped(c, d) =>
      assert IsPiece(x);
      if c < 0x1_0000 then [0x5C, 0x75] + d else [0x5C, 0x75] + d[..4] + [0x5C, 0x75] + d[4..]
  }

  function PiecesText(xs: seq<piece>): seq<byte> {
    if xs == [] then [] else PieceText(xs[0]) + PiecesText(xs[1..])
  }

  /** Bit 6 of the high surrogate, which is bit 16 of the payload. */
  predicate BitSixClear(c: scalar) {
    c < 0x1_0000 || HighSurrogate(c) / 64 % 2 == 0
  }

  /** The character `parse_string` makes of an escaped scalar. */
  function Decoded(c: scalar): (d: nat)
    ensures 0 < d < 0x11_0000
  {
    assert IsScalar(c);
    if BitSixClear(c) then c else c - 0x1_0000
  }

  /** The bytes a piece stands for, or those that `parse_string` makes of it. */
  function Meaning(x: Piece, exact: bool): seq<byte> {
    match x
    case Plain(b) => [b]
    case Short(_, meaning) => [meaning]
    case Escaped(c, _) => assert IsScalar(c); Utf8(if exact then c else Decoded(c))
  }

  function Meanings(xs: seq<Piece>, exact: bool): seq<byte> {
    if xs == [] then [] else Meaning(xs[0], exact) + Meanings(xs[1..], exact)
  }

  /** The table of section 3 of RFC 3629, from the bytes to the character. */
  lemma Utf8Denotes(c: nat)
    requires 0 < c < 0x11_0000
    ensures var s := Utf8(c);
            if c <= 0x7F then s == [c]
            else if c <= 0x7FF then
              |s| == 2 && 0xC0 <= s[0] <= 0xDF && AreTails(s[1..]) && c == (s[0] as int - 0xC0) * 64 + Tails(s[1..])
            else if c <= 0xFFFF then
              |s| == 3 && 0xE0 <= s[0] <= 0xEF && AreTails(s[1..]) && c == (s[0] as int - 0xE0) * 4096 + Tails(s[1..])
            else
              |s| == 4 && 0xF0 <= s[0] <= 0xF7 && AreTails(s[1..]) && c == (s[0] as int - 0xF0) * 262144 + Tails(s[1..])
  {
    var s := Utf8(c);
    var t := s[1..];
    assert |t| > 0 ==> t[..1] == [s[1]];
    assert |t| > 1 ==> t[..2] == [s[1], s[2]] && t[..2][..1] == t[..1];
    assert |t| > 2 ==> t[..3] == t;
    assert c / 64 == c / 64 / 64 * 64 + c / 64 % 64;
    assert c / 64 / 64 == c / 64 / 64 / 64 * 64 + c / 64 / 64 % 64;
    assert Tails([]) == 0;
    assert |t| > 0 ==> Tails(t[..1]) == s[1] as int - 0x80;
    assert |t| > 1 ==> Tails(t[..2]) == Tails(t[..1]) * 64 + (s[2] as int - 0x80);
  }

  predicate AreTails(s: seq<byte>) {
    forall i :: 0 <= i < |s| ==> 0x80 <= s[i] <= 0xBF
  }

  /** The payload of up to three continuation bytes. */
  function Tails(s: seq<byte>): int {
    if s == [] then 0 else Tails(s[..|s| - 1]) * 64 + (s[|s| - 1] as int - 0x80)
  }

  /** A surrogate pair decodes to the scalar it encodes exactly when bit 6 of its high half is clear. */
  lemma CombineExact(c: scalar)
    requires 0x1_0000 <= c
    ensures Combine(HighSurrogate(c), LowSurrogate(c)) == Decoded(c)
    ensures Combine(HighSurrogate(c), LowSurrogate(c)) == c <==> BitSixClear(c)
    ensures IsHighSurrogate(HighSurrogate(c)) && IsLowSurrogate(LowSurrogate(c))
  {
    assert IsScalar(c);
    var z := c - 0x1_0000;
    var h := z / 1024;
    assert h < 1024 && z == h * 1024 + z % 1024;
    assert HighSurrogate(c) % 1024 == h && LowSurrogate(c) % 1024 == z % 1024;
    assert HighSurrogate(c) / 64 == 0x360 + h / 64;
    assert z / 0x1_0000 == h / 64;
  }

  /** The first character that goes wrong: U+20000 is read as U+10000. */
  lemma CombineFails()
    ensures Combine(HighSurrogate(0x2_0000), LowSurrogate(0x2_0000)) == 0x1_0000
  {
    hide Combine;
    assert HighSurrogate(0x2_0000) == 0xD840;
    CombineExact(0x2_0000);
  }

  lemma DigitValue(c: byte, v: nat)
    requires v < 16 && IsDigitOf(c, v)
    ensures IsHex(c) && HexValue(c) == v
  {
  }

  lemma Nibbles(v: nat)
    ensures v == v / 4096 * 4096 + v / 256 % 16 * 256 + v / 16 % 16 * 16 + v % 16
  {
    var a := v / 16;
    assert v == a * 16 + v % 16 && a == a / 16 * 16 + a % 16 && a / 16 == a / 16 / 16 * 16 + a / 16 % 16;
    assert v / 256 == a / 16 && v / 4096 == a / 16 / 16;
  }

  /** Four digits in a text are worth their number. */
  lemma UnitRead(text: seq<byte>, p: nat, d: seq<byte>, v: nat)
    requires IsUnit(d, v) && Matches(text, p, d)
    ensures Hex4(text, p) && Hex4Value(text, p) == v
  {
    hide IsDigitOf, IsHex, HexValue;
    assert text[p + 0] == d[0] && text[p + 1] == d[1] && text[p + 2] == d[2] && text[p + 3] == d[3];
    var a, b, c, e := v / 4096, v / 256 % 16, v / 16 % 16, v % 16;
    assert v == a * 4096 + b * 256 + c * 16 + e by { Nibbles(v); }
    DigitValue(d[0], a);
    DigitValue(d[1], b);
    DigitValue(d[2], c);
    DigitValue(d[3], e);
  }

  /** A backslash, a `u` and four digits. */
  lemma UnitAt(text: seq<byte>, p: nat, d: seq<byte>, v: nat)
    requires IsUnit(d, v) && Matches(text, p, [0x5C, 0x75] + d)
    ensures At(text, p) == BACKSLASH && At(text, p + 1) == LOWER_U
    ensures Hex4(text, p + 2) && Hex4Value(text, p + 2) == v
  {
    var s: seq<byte> := [0x5C, 0x75];
    MatchesSplit(text, p, s, d);
    assert text[p + 0] == s[0] && text[p + 1] == s[1];
    UnitRead(text, p + 2, d, v);
  }

  lemma ScalarRead(text: seq<byte>, p: nat, c: scalar, d: seq<byte>)
    requires IsPiece(Escaped(c, d)) && Matches(text, p, PieceText(Escaped(c, d)))
    ensures At(text, p) == BACKSLASH
    ensures EscapeStep(text, p) == Ok(Utf8(Decoded(c)), p + |PieceText(Escaped(c, d))|)
  {
    hide Utf8, Hex4Value, Matches, IsDigitOf;
    assert IsScalar(c);
    if c < 0x1_0000 {
      UnitAt(text, p, d, c);
    } else {
      var u: seq<byte> := [0x5C, 0x75];
      assert PieceText(Escaped(c, d)) == (u + d[..4]) + (u + d[4..]);
      MatchesSplit(text, p, u + d[..4], u + d[4..]);
      UnitAt(text, p, d[..4], HighSurrogate(c));
      UnitAt(text, p + 6, d[4..], LowSurrogate(c));
      CombineExact(c);
    }
  }

  lemma ShortRead(text: seq<byte>, p: nat, letter: byte, meaning: byte)
    requires IsShort(letter, meaning) && Matches(text, p, [0x5C, letter])
    ensures At(text, p) == BACKSLASH && EscapeStep(text, p) == Ok([meaning], p + 2)
  {
    var s := [0x5C, letter];
    assert text[p + 0] == s[0] && text[p + 1] == s[1];
  }

  /** One piece is read, and what follows it. */
  lemma PieceRead(text: seq<byte>, p: nat, x: piece, s: seq<byte>, end: nat)
    requires Matches(text, p, PieceText(x)) && p + |PieceText(x)| <= |text|
    requires Unescape(text, p + |PieceText(x)|) == Ok(s, end)
    ensures Unescape(text, p) == Ok(Meaning(x, false) + s, end)
  {
    hide EscapeStep, Utf8, Matches, IsUnit, IsShort;
    assert IsPiece(x);
    match x {
      case Plain(b) => MatchesByte(text, p, b);
      case Short(letter, meaning) => ShortRead(text, p, letter, meaning);
      case Escaped(c, d) => ScalarRead(text, p, c, d);
    }
  }

  /** Any pieces are read whole and in order. */
  lemma {:induction false} EscapesRead(text: seq<byte>, p: nat, xs: seq<piece>, end: nat)
    requires Matches(text, p, PiecesText(xs)) && end == p + |PiecesText(xs)| && At(text, end) == QUOTE
    ensures Unescape(text, p) == Ok(Meanings(xs, false), end)
    decreases |xs|
  {
    hide PieceText, Meaning, EscapeStep, Matches;
    if xs != [] {
      var n := |PieceText(xs[0])|;
      MatchesSplit(text, p, PieceText(xs[0]), PiecesText(xs[1..]));
      EscapesRead(text, p + n, xs[1..], end);
      PieceRead(text, p, xs[0], Meanings(xs[1..], false), end);
    }
  }

  lemma Utf8Differs(c: scalar)
    requires !BitSixClear(c)
    ensures |Utf8(Decoded(c))| == |Utf8(c)| == 4 && Utf8(Decoded(c)) != Utf8(c)
  {
    CombineExact(c);
    var d := c - 0x1_0000;
    assert d / 64 / 64 == c / 64 / 64 - 16;
  }

  /** `parse_string` makes of a piece what it stands for. */
  predicate ReadRight(x: Piece) {
    x.Escaped? ==> BitSixClear(x.c)
  }

  lemma MeaningExact(x: Piece)
    ensures |Meaning(x, false)| == |Meaning(x, true)|
    ensures Meaning(x, false) == Meaning(x, true) <==> ReadRight(x)
  {
    hide Utf8;
    if x.Escaped? && !BitSixClear(x.c) {
      Utf8Differs(x.c);
    }
  }

  lemma {:induction false} DecodedExact(xs: seq<Piece>)
    ensures Meanings(xs, false) == Meanings(xs, true) <==> forall x :: x in xs ==> ReadRight(x)
    decreases |xs|
  {
    if xs != [] {
      hide Meaning, ReadRight;
      var x, rest := xs[0], xs[1..];
      DecodedExact(rest);
      MeaningExact(x);
      assert forall y :: y in xs <==> y == x || y in rest;
      var a, b := Meaning(x, false), Meaning(x, true);
      assert (a + Meanings(rest, false))[..|a|] == a && (b + Meanings(rest, true))[..|a|] == b;
      assert (a + Meanings(rest, false))[|a|..] == Meanings(rest, false);
      assert (b + Meanings(rest, true))[|a|..] == Meanings(rest, true);
    }
  }

  /** The literal of some pieces. */
  function Literal(xs: seq<piece>): seq<byte> {
    [0x22] + (PiecesText(xs) + [0x22])
  }

  /** Every string literal is consumed whole, and read as the bytes it stands for exactly when no
      surrogate pair in it has bit 6 of its high half set. */
  lemma UnicodeEscapes(text: seq<byte>, p: nat, xs: seq<piece>)
    requires Matches(text, p, Literal(xs))
    ensures ParseString(text, p) == Ok(Meanings(xs, false), p + |Literal(xs)|)
    ensures ParseString(text, p).value == Meanings(xs, true) <==> forall x :: x in xs ==> ReadRight(x)
  {
    hide Matches, Unescape, PiecesText, ReadRight, Meanings;
    var body := PiecesText(xs);
    MatchesSplit(text, p, [0x22], body + [0x22]);
    MatchesSplit(text, p + 1, body, [0x22]);
    MatchesByte(text, p, 0x22);
    MatchesByte(text, p + 1 + |body|, 0x22);
    EscapesRead(text, p + 1, xs, p + 1 + |body|);
    DecodedExact(xs);
  }

  /** The escapes that write nothing: of zero and of a low surrogate, ... */
  lemma SilentEscape(text: seq<byte>, p: nat, d: seq<byte>, v: nat)
    requires IsUnit(d, v) && Matches(text, p, [0x5C, 0x75] + d)
    requires v == 0 || 0xDC00 <= v <= 0xDFFF
             || (0xD800 <= v <= 0xDBFF && !(At(text, p + 6) == 0x5C && At(text, p + 7) == 0x75))
    ensures p + 6 <= |text| && Unescape(text, p) == Unescape(text, p + 6)
  {
    hide IsUnit, Hex4Value, Utf8, Combine;
    UnitAt(text, p, d, v);
    assert EscapeStep(text, p) == Ok([], p + 6);
    PrependNone(Unescape(text, p + 6));
  }

  /** ... and of a high surrogate that no `\u` follows, or the `\u` of no low surrogate. */
  lemma SilentPair(text: seq<byte>, p: nat, d: seq<byte>, v: nat, d': seq<byte>, v': nat)
    requires IsUnit(d, v) && Matches(text, p, [0x5C, 0x75] + d) && 0xD800 <= v <= 0xDBFF
    requires IsUnit(d', v') && Matches(text, p + 6, [0x5C, 0x75] + d') && !(0xDC00 <= v' <= 0xDFFF)
    ensures p + 12 <= |text| && Unescape(text, p) == Unescape(text, p + 12)
  {
    hide IsUnit, Hex4Value, Utf8, Combine;
    UnitAt(text, p, d, v);
    UnitAt(text, p + 6, d', v');
    assert EscapeStep(text, p) == Ok([], p + 12);
    PrependNone(Unescape(text, p + 12));
  }

  lemma PrependNone<T>(r: Parse<seq<T>>)
    ensures Prepend([], r) == r
  {
    assert r.Ok? ==> [] + r.value == r.value;
  }

  // ----- Round trip -----

  /** The lower-case digit. */
  function LowerDigit(v: nat): (c: byte)
    requires v < 16
    ensures IsDigitOf(c, v)
  {
    "0123456789abcdef"[v] as int
  }

  /** How a byte is printed, in terms of the grammar: the seven short escapes, `\u00` and two digits
      for the other control bytes, and everything else as it is. */
  function PrintedPiece(c: byte): (x: piece)
    requires c != 0
    ensures Meaning(x, false) == Meaning(x, true) == [c]
  {
    if c == 0x22 || c == 0x5C then Short(c, c)
    else if c == 0x08 then Short(0x62, c)
    else if c == 0x0C then Short(0x66, c)
    else if c == 0x0A then Short(0x6E, c)
    else if c == 0x0D then Short(0x72, c)
    else if c == 0x09 then Short(0x74, c)
    else if c < 0x20 then Escaped(c, [0x30, 0x30, LowerDigit(c / 16), LowerDigit(c % 16)])
    else Plain(c)
  }

  function PrintedPieces(s: seq<byte>): (xs: seq<piece>)
    requires NulFree(s)
  {
    if s == [] then [] else [PrintedPiece(s[0])] + PrintedPieces(s[1..])
  }

  lemma SameDigit(v: nat)
    requires v < 16
    ensures HexDigit(v) == LowerDigit(v)
  {
    DigitValue(LowerDigit(v), v);
  }

  lemma PrintedByte(c: byte)
    requires c != 0
    ensures EscapeByte(c) == PieceText(PrintedPiece(c))
  {
    hide HexDigit, LowerDigit, IsDigitOf;
    if c < 0x20 {
      SameDigit(c / 16);
      SameDigit(c % 16);
    }
  }

  /** A printed string is the literal of these pieces, which stand for its bytes. */
  lemma {:induction false} StringPrinted(s: seq<byte>)
    requires NulFree(s)
    ensures EscapeAll(s) == PiecesText(PrintedPieces(s)) && PrintString(s) == Literal(PrintedPieces(s))
    ensures Meanings(PrintedPieces(s), false) == Meanings(PrintedPieces(s), true) == s
    decreases |s|
  {
    hide EscapeByte, PieceText, Meaning;
    if s != [] {
      StringPrinted(s[1..]);
      PrintedByte(s[0]);
      assert PrintedPieces(s)[1..] == PrintedPieces(s[1..]);
      assert [s[0]] + s[1..] == s;
    }
  }

  /** Every NUL-free string, printed anywhere in a text, is parsed back and consumed whole. */
  lemma StringRoundTrip(text: seq<byte>, p: nat, s: seq<byte>)
    requires NulFree(s) && Matches(text, p, PrintString(s))
    ensures ParseString(text, p) == Ok(s, p + |PrintString(s)|)
  {
    hide PrintString, ParseString, Matches;
    StringPrinted(s);
    UnicodeEscapes(text, p, PrintedPieces(s));
  }
}
