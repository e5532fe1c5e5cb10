/** The parser on truncated input: what it does on the first `k` bytes of a text it accepts. */
module JsonCut {
  import opened Text
  import opened Json
  import opened JsonNumber
  import opened JsonString
  import opened JsonParse

  // ----- Where a cut falls -----

  /** A scan from left to right: outside of strings, inside of one, after its backslash, or with so
      many hexadecimal digits of a `\u` still to come. */
  datatype Scanner = Outside | Inside | Slash | Hex(left: nat)

  function ScanByte(s: Scanner, c: byte): Scanner {
    match s
    case Outside => if c == QUOTE then Inside else Outside
    case Inside => if c == QUOTE then Outside else if c == BACKSLASH then Slash else Inside
    case Slash => if c == LOWER_U then Hex(4) else Inside
    case Hex(n) => if n <= 1 then Inside else Hex(n - 1)
  }

  function Scan(s: Scanner, text: seq<byte>, p: nat, k: nat): Scanner
    requires k <= |text|
    decreases k
  {
    if k <= p then s else ScanByte(Scan(s, text, p, k - 1), text[k - 1])
  }

  /** The bytes from `p` to `k` end inside an escape. */
  predicate InEscape(text: seq<byte>, p: nat, k: nat)
    requires k <= |text|
  {
    var s := Scan(Outside, text, p, k);
    s.Slash? || s.Hex?
  }

  /** The bytes from `p` to `k` end with a point outside of strings. */
  predicate AtPoint(text: seq<byte>, p: nat, k: nat)
    requires k <= |text|
  {
    p < k && text[k - 1] == DOT && Scan(Outside, text, p, k) == Outside
  }

  /** Where the parser stops on a text from `p` on that is cut off at `k`; nowhere inside an escape. */
  function Stop(text: seq<byte>, p: nat, k: nat): Option<nat>
    requires k <= |text|
  {
    if InEscape(text, p, k) then None else if AtPoint(text, p, k) then Some(k - 1) else Some(k)
  }

  /** How a container fails that is cut off. */
  function CutOff<T>(text: seq<byte>, p: nat, k: nat): Parse<T>
    requires k <= |text|
  {
    match Stop(text, p, k)
    case None => Unspecified
    case Some(at) => Fail(at)
  }

  /** A step that ends with a closing bracket: unchanged when it is all there, and cut off otherwise. */
  ghost predicate WholeOrCut<T>(text: seq<byte>, p: nat, r: Parse<T>, cut: Parse<T>, k: nat)
    requires k <= |text|
  {
    r.Ok? ==> cut == if r.next <= k then r else CutOff(text, p, k)
  }

  /** A step that may be cut short without noticing: it stops where a container would fail. */
  ghost predicate UpToCut<T>(text: seq<byte>, p: nat, r: Parse<T>, cut: Parse<T>, k: nat)
    requires k <= |text|
  {
    r.Ok? ==>
      if r.next < k then cut == r
      else if r.next == k then cut == Fail(k) || (cut.Ok? && cut.next == k)
      else cut == CutOff(text, p, k) || (cut.Ok? && Stop(text, p, k) == Some(cut.next))
  }

  lemma AtCut(text: seq<byte>, k: nat, p: nat)
    requires p <= k <= |text|
    ensures At(text[..k], p) == if p < k then At(text, p) else 0
  {
  }

  // ----- Closed parts -----

  lemma {:induction false} ScanJoin(s: Scanner, text: seq<byte>, p: nat, q: nat, k: nat)
    requires p <= q <= k <= |text|
    ensures Scan(s, text, p, k) == Scan(Scan(s, text, p, q), text, q, k)
    decreases k
  {
    if q < k {
      ScanJoin(s, text, p, q, k - 1);
    }
  }

  lemma ScanFirst(s: Scanner, text: seq<byte>, p: nat, k: nat)
    requires p < k <= |text|
    ensures Scan(s, text, p, k) == Scan(ScanByte(s, text[p]), text, p + 1, k)
  {
    ScanJoin(s, text, p, p + 1, k);
    assert Scan(s, text, p, p) == s;
  }

  /** A part that leaves the scan where it was and does not end with a point. */
  ghost predicate Closed(text: seq<byte>, p: nat, q: nat) {
    p <= q <= |text| && Scan(Outside, text, p, q) == Outside && (p < q ==> text[q - 1] != DOT)
  }

  lemma ClosedJoin(text: seq<byte>, p: nat, q: nat, r: nat)
    requires Closed(text, p, q) && Closed(text, q, r)
    ensures Closed(text, p, r)
  {
    ScanJoin(Outside, text, p, q, r);
  }

  /** A closed part before it does not change how the rest is cut off. */
  lemma StopJoin(text: seq<byte>, p: nat, q: nat, k: nat)
    requires q <= k <= |text| && Closed(text, p, q)
    ensures Stop(text, p, k) == Stop(text, q, k)
  {
    ScanJoin(Outside, text, p, q, k);
  }

  lemma {:induction false} NoQuotes(text: seq<byte>, p: nat, q: nat)
    requires p <= q <= |text| && forall i :: p <= i < q ==> text[i] != QUOTE
    ensures Scan(Outside, text, p, q) == Outside
    decreases q
  {
    if p < q {
      NoQuotes(text, p, q - 1);
    }
  }

  /** A cut after bytes that are neither quotes nor points. */
  lemma Blank(text: seq<byte>, p: nat, k: nat)
    requires p <= k <= |text| && forall i :: p <= i < k ==> text[i] != QUOTE && text[i] != DOT
    ensures Stop(text, p, k) == Some(k) && Closed(text, p, k)
  {
    NoQuotes(text, p, k);
  }

  lemma SkipClosed(text: seq<byte>, p: nat)
    requires p <= |text|
    ensures Closed(text, p, Skip(text, p))
  {
    NoQuotes(text, p, Skip(text, p));
  }

  // ----- White space, digits, words -----

  lemma SkipCut(text: seq<byte>, k: nat, p: nat)
    requires p <= k <= |text|
    ensures var q := Skip(text, p); Skip(text[..k], p) == if q < k then q else k
  {
    var q := Skip(text, p);
    SkipUnique(text[..k], p, if q < k then q else k);
  }

  lemma {:induction false} DigitsEndCut(text: seq<byte>, k: nat, p: nat)
    requires p <= k <= |text|
    ensures var q := DigitsEnd(text, p); DigitsEnd(text[..k], p) == if q < k then q else k
    decreases k - p
  {
    if p < k && IsDigit(text[p]) {
      DigitsEndCut(text, k, p + 1);
    }
  }

  lemma {:induction false} DecFromCut(n: int, text: seq<byte>, k: nat, p: nat, q: nat)
    requires q <= k <= |text|
    ensures DecFrom(n, text[..k], p, q) == DecFrom(n, text, p, q)
    decreases q
  {
    if p < q {
      DecFromCut(n, text, k, p, q - 1);
    }
  }

  lemma {:induction false} CmpLenCut(text: seq<byte>, k: nat, p: nat, word: seq<byte>, i: nat)
    requires p + i <= k <= |text| && NulFree(word) && i <= |word|
    ensures var n := CmpLen(text, p, word, i);
            CmpLen(text[..k], p, word, i) == if p + n <= k then n else k - p
    decreases |word| - i
  {
    AtCut(text, k, p + i);
    if i < |word| && p + i < k && text[p + i] == word[i] {
      CmpLenCut(text, k, p, word, i + 1);
    }
  }

  lemma WordCut(text: seq<byte>, k: nat, p: nat, word: seq<byte>, t: Json)
    requires p <= k <= |text| && NulFree(word)
    ensures var r := Word(text, p, word, t);
            var end := if r.Ok? then r.next else r.at;
            Word(text[..k], p, word, t) == if end <= k then r else Fail(k)
  {
    CmpLenCut(text, k, p, word, 0);
  }

  /** A word that is cut leaves the cursor at the cut. */
  lemma ParseWordCut(text: seq<byte>, k: nat, p: nat)
    requires p <= k <= |text|
    ensures var r := ParseWord(text, p);
            var end := if r.Ok? then r.next else r.at;
            ParseWord(text[..k], p) == if end <= k then r else Fail(k)
  {
    hide CmpLen;
    WordCut(text, k, p, NULL_WORD, Null);
    var n := Word(text, p, NULL_WORD, Null);
    if n.Fail? {
      AtEndWord(text, k);
      if n.at <= k {
        WordCut(text, k, n.at, FALSE_WORD, False);
        var f := Word(text, n.at, FALSE_WORD, False);
        if f.Fail? && f.at <= k {
          WordCut(text, k, f.at, TRUE_WORD, True);
        }
      }
    } else {
      AtEndWord(text, k);
    }
  }

  lemma AtEndWord(text: seq<byte>, k: nat)
    requires k <= |text|
    ensures Word(text[..k], k, FALSE_WORD, False) == Fail(k)
    ensures Word(text[..k], k, TRUE_WORD, True) == Fail(k)
    ensures ParseWord(text[..k], k) == Fail(k)
  {
  }

  // ----- Strings -----

  lemma SlashScan(text: seq<byte>, p: nat)
    requires p < |text| && text[p] == BACKSLASH
    ensures Scan(Inside, text, p, p + 1) == Slash
  {
    assert Scan(Inside, text, p, p) == Inside;
  }

  /** Inside a `\u` escape, and right after it. */
  lemma {:induction false} UnicodeScan(text: seq<byte>, p: nat, j: nat)
    requires p + j <= |text| && 2 <= j <= 6 && text[p] == BACKSLASH && text[p + 1] == LOWER_U
    ensures Scan(Inside, text, p, p + j) == if j == 6 then Inside else Hex(6 - j)
    decreases j
  {
    SlashScan(text, p);
    if j > 2 {
      UnicodeScan(text, p, j - 1);
    }
  }

  /** After a whole escape the scan is inside the string again. */
  lemma EscapeScan(text: seq<byte>, p: nat)
    requires At(text, p) == BACKSLASH && EscapeStep(text, p).Ok?
    ensures Scan(Inside, text, p, EscapeStep(text, p).next) == Inside
  {
    var e := EscapeStep(text, p).next;
    SlashScan(text, p);
    if At(text, p + 1) == LOWER_U {
      UnicodeScan(text, p, 6);
      if e == p + 12 {
        UnicodeScan(text, p + 6, 6);
        ScanJoin(Inside, text, p, p + 6, e);
      }
    }
  }

  /** An escape that is all there is read as before. */
  lemma EscapeCut(text: seq<byte>, k: nat, p: nat)
    requires p < k <= |text| && text[p] == BACKSLASH && EscapeStep(text, p).Ok? && EscapeStep(text, p).next <= k
    ensures EscapeStep(text[..k], p) == EscapeStep(text, p)
  {
    AtCut(text, k, p + 1);
    if text[p + 1] == LOWER_U {
      assert Hex4(text[..k], p + 2) && Hex4Value(text[..k], p + 2) == Hex4Value(text, p + 2);
      AtCut(text, k, p + 6);
      if p + 7 <= k {
        AtCut(text, k, p + 7);
      }
    }
  }

  /** What the scan knows of a cut inside a string. */
  ghost predicate StringCut(s: Scanner, cut: Parse<seq<byte>>, k: nat) {
    match s
    case Outside => false
    case Inside => cut.Ok? && cut.next == k
    case _ => cut.Unspecified?
  }

  /** An escape that is cut. */
  lemma BrokenEscape(text: seq<byte>, k: nat, p: nat)
    requires p < k <= |text| && text[p] == BACKSLASH && EscapeStep(text, p).Ok? && k < EscapeStep(text, p).next
    ensures StringCut(Scan(Inside, text, p, k), Unescape(text[..k], p), k)
  {
    var s := text[..k];
    SlashScan(text, p);
    AtCut(text, k, p);
    AtCut(text, k, p + 1);
    if p + 2 <= k {
      if k < p + 6 {
        UnicodeScan(text, p, k - p);
      } else {
        UnicodeScan(text, p, 6);
        assert Hex4(s, p + 2) && Hex4Value(s, p + 2) == Hex4Value(text, p + 2);
        AtCut(text, k, p + 6);
        BrokenPair(text, k, p);
      }
    }
  }

  /** A surrogate pair that is cut after its first half. */
  lemma BrokenPair(text: seq<byte>, k: nat, p: nat)
    requires p + 6 <= k <= |text| && text[p] == BACKSLASH && EscapeStep(text, p).Ok? && k < EscapeStep(text, p).next
    requires At(text[..k], p) == BACKSLASH && At(text[..k], p + 1) == LOWER_U && Hex4(text[..k], p + 2)
    requires Hex4Value(text[..k], p + 2) == Hex4Value(text, p + 2)
    ensures StringCut(Scan(Inside, text, p, k), Unescape(text[..k], p), k)
  {
    var s := text[..k];
    UnicodeScan(text, p, 6);
    ScanJoin(Inside, text, p, p + 6, k);
    if k == p + 6 {
      assert EscapeStep(s, p) == Ok([], p + 6);
      assert Unescape(s, p + 6) == Ok([], k);
    } else {
      SlashScan(text, p + 6);
      assert s[p + 6] == BACKSLASH;
      if k == p + 7 {
        assert EscapeStep(s, p) == Ok([], p + 6);
        assert EscapeStep(s, p + 6).Unspecified?;
      } else {
        assert s[p + 7] == LOWER_U;
        UnicodeScan(text, p + 6, k - (p + 6));
        assert EscapeStep(s, p).Unspecified?;
      }
    }
  }

  lemma {:induction false} UnescapeCut(text: seq<byte>, k: nat, p: nat)
    requires p <= k <= |text| && Unescape(text, p).Ok?
    ensures if Unescape(text, p).next < k then Unescape(text[..k], p) == Unescape(text, p)
            else StringCut(Scan(Inside, text, p, k), Unescape(text[..k], p), k)
    decreases k - p
  {
    hide EscapeStep;
    AtCut(text, k, p);
    if p < k && !EndsLiteral(text[p]) {
      if text[p] != BACKSLASH {
        UnescapeCut(text, k, p + 1);
        ScanFirst(Inside, text, p, k);
      } else {
        var e := EscapeStep(text, p).next;
        if e <= k {
          EscapeCut(text, k, p);
          UnescapeCut(text, k, e);
          EscapeScan(text, p);
          ScanJoin(Inside, text, p, e, k);
        } else {
          BrokenEscape(text, k, p);
        }
      }
    }
  }

  lemma {:induction false} UnescapeScan(text: seq<byte>, p: nat)
    requires p <= |text| && Unescape(text, p).Ok?
    ensures Scan(Inside, text, p, Unescape(text, p).next) == Inside
    decreases |text| - p
  {
    hide EscapeStep;
    var r := Unescape(text, p);
    if !EndsLiteral(At(text, p)) {
      if text[p] != BACKSLASH {
        UnescapeScan(text, p + 1);
        ScanFirst(Inside, text, p, r.next);
      } else {
        var e := EscapeStep(text, p).next;
        UnescapeScan(text, e);
        EscapeScan(text, p);
        ScanJoin(Inside, text, p, e, r.next);
      }
    }
  }

  /** A string literal that is cut stops at the cut, unless the cut is inside an escape. */
  lemma ParseStringCut(text: seq<byte>, k: nat, p: nat)
    requires p < k <= |text| && text[p] == QUOTE
    ensures UpToCut(text, p, ParseString(text, p), ParseString(text[..k], p), k)
  {
    hide Unescape;
    var u := Unescape(text, p + 1);
    if u.Ok? {
      UnescapeCut(text, k, p + 1);
      ScanFirst(Outside, text, p, k);
      AtCut(text, k, p);
      AtCut(text, k, k);
      UnescapeScan(text, p + 1);
      if u.next < k {
        AtCut(text, k, u.next);
      }
    }
  }

  /** A string literal with its closing quote. */
  lemma StringClosed(text: seq<byte>, p: nat)
    requires p <= |text| && ParseString(text, p).Ok? && At(text, ParseString(text, p).next) != 0
    ensures Closed(text, p, ParseString(text, p).next)
  {
    hide Unescape;
    var e := Unescape(text, p + 1).next;
    UnescapeScan(text, p + 1);
    ScanFirst(Outside, text, p, e + 1);
  }

  // ----- Numbers -----

  lemma ExponentCut(text: seq<byte>, k: nat, p: nat)
    requires p <= k <= |text|
    ensures var r := Exponent(text, p);
            if r.1 < k then Exponent(text[..k], p) == r else Exponent(text[..k], p).1 == k
  {
    AtCut(text, k, p);
    if p < k && IsExponentMark(text[p]) {
      AtCut(text, k, p + 1);
      var signed := At(text, p + 1) == PLUS || At(text, p + 1) == MINUS;
      var d := if signed then p + 2 else p + 1;
      if d <= k {
        DigitsEndCut(text, k, d);
        if DigitsEnd(text, d) < k {
          DecFromCut(0, text, k, d, DigitsEnd(text, d));
        }
      }
    }
  }

  lemma ExponentBytes(text: seq<byte>, p: nat)
    requires p <= |text|
    ensures forall i :: p <= i < Exponent(text, p).1 ==> text[i] != QUOTE && text[i] != DOT
  {
  }

  /** Where the digits before the exponent stop when they are cut: at the cut, or before a point that
      no digit follows any more. */
  function PointStop(text: seq<byte>, k: nat, next: nat): nat
    requires 0 < k <= |text|
  {
    if k < next && text[k - 1] == DOT then k - 1 else k
  }

  lemma MantissaBytes(text: seq<byte>, p: nat)
    requires p <= |text|
    ensures var w := WholeEnd(text, ZeroEnd(text, p));
            && (forall i :: p <= i < Mantissa(text, p).2 ==>
                  text[i] != QUOTE && (text[i] == DOT <==> i == w && FractionStart(text, w) > w))
            && p <= w <= Mantissa(text, p).2 && (FractionStart(text, w) > w ==> w + 1 < Mantissa(text, p).2)
  {
  }

  /** The digits before the exponent. */
  lemma MantissaCut(text: seq<byte>, k: nat, p: nat)
    requires p <= k <= |text|
    ensures var r := Mantissa(text, p);
            if r.2 < k then Mantissa(text[..k], p) == r
            else Mantissa(text[..k], p).2 == if p < k then PointStop(text, k, r.2) else k
  {
    MantissaBytes(text, p);
    AtCut(text, k, p);
    var w := ZeroEnd(text, p);
    if w <= k && p < k {
      AtCut(text, k, w);
      if ZERO < At(text, w) <= NINE {
        DigitsEndCut(text, k, w);
      }
      if WholeEnd(text, w) < k {
        FractionCutAt(text, k, w, WholeEnd(text, w));
      }
    }
  }

  lemma FractionCutAt(text: seq<byte>, k: nat, w: nat, w': nat)
    requires w <= w' < k <= |text|
    ensures DecFrom(0, text[..k], w, w') == DecFrom(0, text, w, w')
    ensures var f := FractionEnd(text, w');
            if f < k then
              && FractionStart(text[..k], w') == FractionStart(text, w') && FractionEnd(text[..k], w') == f
              && var b := FractionStart(text, w');
              && forall n :: DecFrom(n, text[..k], b, f) == DecFrom(n, text, b, f)
            else FractionEnd(text[..k], w') == if k == w' + 1 then w' else k
  {
    DecFromCut(0, text, k, w, w');
    AtCut(text, k, w');
    AtCut(text, k, w' + 1);
    var f := FractionEnd(text, w');
    if FractionStart(text, w') > w' && w' + 1 < k {
      DigitsEndCut(text, k, w' + 1);
    }
    if f < k {
      var b := FractionStart(text, w');
      forall n ensures DecFrom(n, text[..k], b, f) == DecFrom(n, text, b, f) {
        DecFromCut(n, text, k, b, f);
      }
    }
  }

  /** A number that is cut ends at the cut, or before its point when that is its last byte. */
  lemma ParseNumberCut(text: seq<byte>, k: nat, p: nat)
    requires p < k <= |text| && (text[p] == MINUS || IsDigit(text[p]))
    ensures var r := ParseNumber(text, p);
            if r.next < k then ParseNumber(text[..k], p) == r
            else ParseNumber(text[..k], p).next == PointStop(text, k, r.next)
  {
    hide Mantissa, Exponent;
    AtCut(text, k, p);
    var q := if text[p] == MINUS then p + 1 else p;
    MantissaCut(text, k, q);
    var m := Mantissa(text, q);
    if m.2 < k {
      ExponentCut(text, k, m.2);
      ExponentBytes(text, m.2);
    } else if q < k {
      MantissaEnd(text, q);
      ExponentAfter(text, k, q, m.2);
    } else {
      ExponentAtEnd(text, k);
    }
  }

  lemma MantissaEnd(text: seq<byte>, p: nat)
    requires p <= |text|
    ensures p < Mantissa(text, p).2 ==> text[Mantissa(text, p).2 - 1] != DOT
  {
    MantissaBytes(text, p);
  }

  /** Where the digits were cut, no exponent follows. */
  lemma ExponentAfter(text: seq<byte>, k: nat, q: nat, m: nat)
    requires q < k <= m && k <= |text|
    ensures var stop := PointStop(text, k, m); Exponent(text[..k], stop) == (0, stop)
  {
    AtCut(text, k, PointStop(text, k, m));
  }

  lemma ExponentAtEnd(text: seq<byte>, k: nat)
    requires k <= |text|
    ensures Exponent(text[..k], k) == (0, k)
  {
  }

  lemma NumberBytes(text: seq<byte>, p: nat)
    requires p < |text| && (text[p] == MINUS || IsDigit(text[p]))
    ensures var e := ParseNumber(text, p).next;
            && p < e && text[e - 1] != DOT && forall i :: p <= i < e ==> text[i] != QUOTE
  {
    hide Mantissa, Exponent;
    var q := if text[p] == MINUS then p + 1 else p;
    MantissaBytes(text, q);
    MantissaEnd(text, q);
    ExponentBytes(text, Mantissa(text, q).2);
  }

  lemma NumberCut(text: seq<byte>, k: nat, p: nat)
    requires p < k <= |text| && (text[p] == MINUS || IsDigit(text[p]))
    ensures UpToCut(text, p, ParseNumber(text, p), ParseNumber(text[..k], p), k)
    ensures Closed(text, p, ParseNumber(text, p).next)
  {
    hide ParseNumber;
    ParseNumberCut(text, k, p);
    NumberBytes(text, p);
    var e := ParseNumber(text, p).next;
    NoQuotes(text, p, e);
    NoQuotes(text, p, if k < e then k else e);
  }

  // ----- What is parsed whole is closed -----

  /** The bytes that the keyword comparisons consume. */
  lemma WordBytes(text: seq<byte>, p: nat)
    requires p <= |text|
    ensures var r := ParseWord(text, p);
            var end := if r.Ok? then r.next else r.at;
            p <= end <= |text| && forall i :: p <= i < end ==> text[i] != QUOTE && text[i] != DOT
  {
    LettersAgree(text, p, NULL_WORD);
    var n := Word(text, p, NULL_WORD, Null);
    if n.Fail? {
      LettersAgree(text, n.at, FALSE_WORD);
      var f := Word(text, n.at, FALSE_WORD, False);
      if f.Fail? {
        LettersAgree(text, f.at, TRUE_WORD);
      }
    }
  }

  lemma LettersAgree(text: seq<byte>, p: nat, word: seq<byte>)
    requires p <= |text| && forall i :: 0 <= i < |word| ==> 0x61 <= word[i] <= 0x7A
    ensures forall i :: p <= i < p + CmpLen(text, p, word, 0) && i < |text| ==> text[i] != QUOTE && text[i] != DOT
  {
    forall i | p <= i < p + CmpLen(text, p, word, 0) && i < |text| ensures text[i] != QUOTE && text[i] != DOT {
      assert At(text, p + (i - p)) == word[i - p];
    }
  }

  /** A byte outside of strings. */
  lemma ByteClosed(text: seq<byte>, p: nat)
    requires p < |text| && text[p] != QUOTE && text[p] != DOT
    ensures Closed(text, p, p + 1)
  {
    NoQuotes(text, p, p + 1);
  }

  /** A value that is not a string left open at the end. */
  lemma {:induction false} ValueClosed(text: seq<byte>, p: nat)
    requires p <= |text| && ParseValue(text, p).Ok?
    requires IsContainer(ParseValue(text, p).value) || At(text, ParseValue(text, p).next) != 0
    ensures Closed(text, p, ParseValue(text, p).next)
    decreases |text| - p, 1
  {
    hide ParseWord, ParseString, ParseNumber, ParseArray, ParseObject, Closed;
    WordBytes(text, p);
    var w := ParseWord(text, p);
    if w.Ok? {
      Blank(text, p, w.next);
    } else {
      var q := w.at;
      var e := ParseValue(text, p).next;
      Blank(text, p, q);
      var c := text[q];
      if c == QUOTE {
        StringClosed(text, q);
      } else if c == MINUS || IsDigit(c) {
        NumberCut(text, q + 1, q);
      } else if c == LBRACKET {
        ArrayClosed(text, q);
      } else {
        ObjectClosed(text, q);
      }
      ClosedJoin(text, p, q, e);
    }
  }

  lemma {:induction false} ArrayClosed(text: seq<byte>, p: nat)
    requires p < |text| && text[p] == LBRACKET && ParseArray(text, p).Ok?
    ensures Closed(text, p, ParseArray(text, p).next)
    decreases |text| - p, 0
  {
    hide ParseItems, Skip, Closed;
    var q := Skip(text, p + 1);
    ByteClosed(text, p);
    SkipClosed(text, p + 1);
    ClosedJoin(text, p, p + 1, q);
    if At(text, q) == RBRACKET {
      ByteClosed(text, q);
    } else {
      ItemsClosed(text, q);
    }
    ClosedJoin(text, p, q, ParseArray(text, p).next);
  }

  lemma {:induction false} ItemsClosed(text: seq<byte>, p: nat)
    requires p <= |text| && ParseItems(text, p).Ok?
    ensures Closed(text, p, ParseItems(text, p).next)
    decreases |text| - p, 2
  {
    hide ParseValue, ParseMoreItems, Skip, Closed;
    var e := ParseValue(text, p).next;
    var q := Skip(text, e);
    NoMoreAtZero(text, e);
    ValueClosed(text, p);
    SkipClosed(text, e);
    MoreItemsClosed(text, q);
    ClosedJoin(text, p, e, q);
    ClosedJoin(text, p, q, ParseItems(text, p).next);
  }

  /** Nothing follows a string that is left open. */
  lemma NoMoreAtZero(text: seq<byte>, e: nat)
    requires e <= |text|
    ensures At(text, e) == 0 ==> Skip(text, e) == e && !ParseMoreItems(text, e).Ok? && !ParseMoreMembers(text, e).Ok?
  {
  }

  lemma {:induction false} MoreItemsClosed(text: seq<byte>, p: nat)
    requires p <= |text| && ParseMoreItems(text, p).Ok?
    ensures Closed(text, p, ParseMoreItems(text, p).next)
    decreases |text| - p, 3
  {
    hide ParseItems, Skip, Closed;
    ByteClosed(text, p);
    if text[p] == COMMA {
      var q := Skip(text, p + 1);
      SkipClosed(text, p + 1);
      ClosedJoin(text, p, p + 1, q);
      if At(text, q) != RBRACKET {
        ItemsClosed(text, q);
        ClosedJoin(text, p, q, ParseItems(text, q).next);
      } else {
        ByteClosed(text, q);
        ByteClosed(text, q + 1);
        ClosedJoin(text, p, q, q + 1);
        ClosedJoin(text, p, q + 1, q + 2);
      }
    }
  }

  lemma {:induction false} ObjectClosed(text: seq<byte>, p: nat)
    requires p < |text| && text[p] == LBRACE && ParseObject(text, p).Ok?
    ensures Closed(text, p, ParseObject(text, p).next)
    decreases |text| - p, 0
  {
    hide ParseMembers, Skip, Closed;
    var q := Skip(text, p + 1);
    ByteClosed(text, p);
    SkipClosed(text, p + 1);
    ClosedJoin(text, p, p + 1, q);
    if At(text, q) == RBRACE {
      ByteClosed(text, q);
    } else {
      MembersClosed(text, q);
    }
    ClosedJoin(text, p, q, ParseObject(text, p).next);
  }

  /** A name, its colon and where its value starts. */
  lemma NameClosed(text: seq<byte>, p: nat)
    requires p <= |text| && ParseMember(text, p).Ok?
    ensures var name := ParseString(text, p);
            && name.Ok? && Closed(text, p, name.next)
            && var c := Skip(text, name.next);
            && At(text, c) == COLON && c < |text| && Closed(text, p, c) && Closed(text, p, c + 1)
            && Closed(text, p, Skip(text, c + 1))
  {
    hide ParseString, ParseValue, Skip, Closed;
    var name := ParseString(text, p);
    var c := Skip(text, name.next);
    NoColonAtZero(text, name.next);
    StringClosed(text, p);
    SkipClosed(text, name.next);
    ClosedJoin(text, p, name.next, c);
    ByteClosed(text, c);
    ClosedJoin(text, p, c, c + 1);
    SkipClosed(text, c + 1);
    ClosedJoin(text, p, c + 1, Skip(text, c + 1));
  }

  lemma NoColonAtZero(text: seq<byte>, e: nat)
    requires e <= |text|
    ensures At(text, e) == 0 ==> At(text, Skip(text, e)) != COLON
  {
  }

  lemma {:induction false} MembersClosed(text: seq<byte>, p: nat)
    requires p <= |text| && ParseMembers(text, p).Ok?
    ensures Closed(text, p, ParseMembers(text, p).next)
    ensures Closed(text, p, ParseMember(text, p).next)
    decreases |text| - p, 2
  {
    hide ParseString, ParseValue, ParseMoreMembers, Skip, Closed;
    NameClosed(text, p);
    var v := Skip(text, Skip(text, ParseString(text, p).next) + 1);
    var e := ParseMember(text, p).next;
    NoMoreAtZero(text, e);
    ValueClosed(text, v);
    ClosedJoin(text, p, v, e);
    var q := Skip(text, e);
    SkipClosed(text, e);
    MoreMembersClosed(text, q);
    ClosedJoin(text, p, e, q);
    ClosedJoin(text, p, q, ParseMembers(text, p).next);
  }

  lemma {:induction false} MoreMembersClosed(text: seq<byte>, p: nat)
    requires p <= |text| && ParseMoreMembers(text, p).Ok?
    ensures Closed(text, p, ParseMoreMembers(text, p).next)
    decreases |text| - p, 3
  {
    hide ParseMembers, Skip, Closed;
    ByteClosed(text, p);
    if text[p] == COMMA {
      var q := Skip(text, p + 1);
      SkipClosed(text, p + 1);
      ClosedJoin(text, p, p + 1, q);
      if At(text, q) != RBRACE {
        MembersClosed(text, q);
        ClosedJoin(text, p, q, ParseMembers(text, q).next);
      } else {
        ByteClosed(text, q);
        ByteClosed(text, q + 1);
        ClosedJoin(text, p, q, q + 1);
        ClosedJoin(text, p, q + 1, q + 2);
      }
    }
  }

  // ----- Values -----

  lemma AtEnd(text: seq<byte>, k: nat)
    requires k <= |text|
    ensures ParseValue(text[..k], k) == Fail(k)
    ensures ParseString(text[..k], k) == Fail(k)
  {
    hide ParseWord, ParseString;
    AtEndWord(text, k);
    StringAtEnd(text, k);
  }

  lemma StringAtEnd(text: seq<byte>, k: nat)
    requires k <= |text|
    ensures ParseString(text[..k], k) == Fail(k)
  {
  }

  lemma ItemsAtEnd(text: seq<byte>, k: nat)
    requires k <= |text|
    ensures ParseItems(text[..k], k) == Fail(k)
  {
    hide ParseValue;
    AtEnd(text, k);
  }

  lemma MembersAtEnd(text: seq<byte>, k: nat)
    requires k <= |text|
    ensures ParseMembers(text[..k], k) == Fail(k)
  {
    hide ParseString;
    AtEnd(text, k);
  }

  lemma MoreItemsAtEnd(text: seq<byte>, k: nat)
    requires k <= |text|
    ensures ParseMoreItems(text[..k], k) == Fail(k)
  {
  }

  lemma MoreMembersAtEnd(text: seq<byte>, k: nat)
    requires k <= |text|
    ensures ParseMoreMembers(text[..k], k) == Fail(k)
  {
  }

  /** Where a cut value stops, a list does not go on. */
  lemma StopFails(text: seq<byte>, p: nat, k: nat, at: nat)
    requires p <= k <= |text| && Stop(text, p, k) == Some(at)
    ensures at <= k && Skip(text[..k], at) == at && At(text[..k], at) != COLON
    ensures ParseMoreItems(text[..k], at) == Fail(at) && ParseMoreMembers(text[..k], at) == Fail(at)
  {
    AtCut(text, k, at);
    SkipUnique(text[..k], at, at);
  }

  /** The white space after a closed part. */
  lemma BlankAfter(text: seq<byte>, p: nat, e: nat, k: nat)
    requires Closed(text, p, e) && e <= k <= Skip(text, e)
    ensures Stop(text, p, k) == Some(k)
  {
    StopJoin(text, p, e, k);
    Blank(text, e, k);
  }

  /** On the first `k` bytes of a text, a value is parsed as on the whole text when it ends before the
      cut. Otherwise the parser stops where the scan says, and an array or object that is not all
      there fails there. */
  lemma {:induction false} ValueCut(text: seq<byte>, k: nat, p: nat)
    requires p <= k <= |text|
    ensures UpToCut(text, p, ParseValue(text, p), ParseValue(text[..k], p), k)
    ensures ParseValue(text, p).Ok? && IsContainer(ParseValue(text, p).value) ==>
              WholeOrCut(text, p, ParseValue(text, p), ParseValue(text[..k], p), k)
    decreases k - p, 1
  {
    hide ParseWord, ParseString, ParseNumber, ParseArray, ParseObject, Stop, Closed;
    ParseWordCut(text, k, p);
    WordBytes(text, p);
    var w := ParseWord(text, p);
    var end := if w.Ok? then w.next else w.at;
    AtCut(text, k, k);
    if k <= end {
      Blank(text, p, k);
    } else if w.Fail? {
      var q := w.at;
      Blank(text, p, q);
      StopJoin(text, p, q, k);
      AtCut(text, k, q);
      var c := text[q];
      if c == QUOTE {
        ParseStringCut(text, k, q);
      } else if c == MINUS || IsDigit(c) {
        NumberCut(text, k, q);
      } else if c == LBRACKET {
        ArrayCut(text, k, q);
      } else if c == LBRACE {
        ObjectCut(text, k, q);
      }
    }
  }

  lemma {:induction false} ArrayCut(text: seq<byte>, k: nat, p: nat)
    requires p < k <= |text| && text[p] == LBRACKET
    ensures WholeOrCut(text, p, ParseArray(text, p), ParseArray(text[..k], p), k)
    decreases k - p, 0
  {
    hide ParseItems, Skip, Stop, Closed;
    var q := Skip(text, p + 1);
    AtCut(text, k, p);
    AtCut(text, k, k);
    SkipCut(text, k, p + 1);
    ByteClosed(text, p);
    if q < k {
      SkipClosed(text, p + 1);
      ClosedJoin(text, p, p + 1, q);
      StopJoin(text, p, q, k);
      AtCut(text, k, q);
      if text[q] != RBRACKET {
        ItemsCut(text, k, q);
      }
    } else {
      BlankAfter(text, p, p + 1, k);
      ItemsAtEnd(text, k);
    }
  }

  lemma {:induction false} ObjectCut(text: seq<byte>, k: nat, p: nat)
    requires p < k <= |text| && text[p] == LBRACE
    ensures WholeOrCut(text, p, ParseObject(text, p), ParseObject(text[..k], p), k)
    decreases k - p, 0
  {
    hide ParseMembers, Skip, Stop, Closed;
    var q := Skip(text, p + 1);
    AtCut(text, k, p);
    AtCut(text, k, k);
    SkipCut(text, k, p + 1);
    ByteClosed(text, p);
    if q < k {
      SkipClosed(text, p + 1);
      ClosedJoin(text, p, p + 1, q);
      StopJoin(text, p, q, k);
      AtCut(text, k, q);
      if text[q] != RBRACE {
        MembersCut(text, k, q);
      }
    } else {
      BlankAfter(text, p, p + 1, k);
      MembersAtEnd(text, k);
    }
  }

  lemma {:induction false} ItemsCut(text: seq<byte>, k: nat, p: nat)
    requires p <= k <= |text|
    ensures WholeOrCut(text, p, ParseItems(text, p), ParseItems(text[..k], p), k)
    decreases k - p, 3
  {
    hide ParseValue, ParseMoreItems, Skip, Stop, Closed;
    if ParseItems(text, p).Ok? {
      var e := ParseValue(text, p).next;
      var q := Skip(text, e);
      ValueCut(text, k, p);
      NoMoreAtZero(text, e);
      ValueClosed(text, p);
      if e <= k {
        MoreItemsAtEnd(text, k);
        SkipCut(text, k, e);
        if q < k {
          SkipClosed(text, e);
          ClosedJoin(text, p, e, q);
          StopJoin(text, p, q, k);
          MoreItemsCut(text, k, q);
        } else {
          BlankAfter(text, p, e, k);
        }
      } else if ParseValue(text[..k], p).Ok? {
        StopFails(text, p, k, ParseValue(text[..k], p).next);
      }
    }
  }

  lemma {:induction false} MoreItemsCut(text: seq<byte>, k: nat, p: nat)
    requires p < k <= |text|
    ensures WholeOrCut(text, p, ParseMoreItems(text, p), ParseMoreItems(text[..k], p), k)
    decreases k - p, 4
  {
    hide ParseItems, Skip, Stop, Closed;
    AtCut(text, k, p);
    if text[p] == COMMA {
      var q := Skip(text, p + 1);
      SkipCut(text, k, p + 1);
      AtCut(text, k, k);
      ByteClosed(text, p);
      if q < k {
        SkipClosed(text, p + 1);
        ClosedJoin(text, p, p + 1, q);
        StopJoin(text, p, q, k);
        AtCut(text, k, q);
        AtCut(text, k, q + 1);
        if text[q] != RBRACKET {
          ItemsCut(text, k, q);
        } else {
          Blank(text, q, q + 1);
        }
      } else {
        BlankAfter(text, p, p + 1, k);
        ItemsAtEnd(text, k);
      }
    }
  }

  lemma {:induction false} MemberCut(text: seq<byte>, k: nat, p: nat)
    requires p <= k <= |text|
    ensures UpToCut(text, p, ParseMember(text, p), ParseMember(text[..k], p), k)
    decreases k - p, 2
  {
    hide ParseString, ParseValue, Skip, Stop, Closed;
    AtCut(text, k, k);
    AtEnd(text, k);
    SkipCut(text, k, k);
    Blank(text, k, k);
    var name := ParseString(text, p);
    if p < k && ParseMember(text, p).Ok? {
      var c := Skip(text, name.next);
      var v := Skip(text, c + 1);
      AtCut(text, k, p);
      NameClosed(text, p);
      ParseStringCut(text, k, p);
      if name.next < k {
        SkipCut(text, k, name.next);
        if c < k {
          AtCut(text, k, c);
          SkipCut(text, k, c + 1);
          if v < k {
            ValueCut(text, k, v);
            StopJoin(text, p, v, k);
          } else {
            BlankAfter(text, p, c + 1, k);
          }
        } else {
          BlankAfter(text, p, name.next, k);
        }
      } else if name.next == k {
        BlankAfter(text, p, k, k);
      } else if ParseString(text[..k], p).Ok? {
        StopFails(text, p, k, ParseString(text[..k], p).next);
      }
    }
  }

  lemma {:induction false} MembersCut(text: seq<byte>, k: nat, p: nat)
    requires p <= k <= |text|
    ensures WholeOrCut(text, p, ParseMembers(text, p), ParseMembers(text[..k], p), k)
    decreases k - p, 3
  {
    hide ParseMember, ParseMoreMembers, Skip, Stop, Closed;
    if ParseMembers(text, p).Ok? {
      var e := ParseMember(text, p).next;
      var q := Skip(text, e);
      MemberCut(text, k, p);
      MembersClosed(text, p);
      if e <= k {
        MoreMembersAtEnd(text, k);
        SkipCut(text, k, e);
        if q < k {
          SkipClosed(text, e);
          ClosedJoin(text, p, e, q);
          StopJoin(text, p, q, k);
          MoreMembersCut(text, k, q);
        } else {
          BlankAfter(text, p, e, k);
        }
      } else if ParseMember(text[..k], p).Ok? {
        StopFails(text, p, k, ParseMember(text[..k], p).next);
      }
    }
  }

  lemma {:induction false} MoreMembersCut(text: seq<byte>, k: nat, p: nat)
    requires p < k <= |text|
    ensures WholeOrCut(text, p, ParseMoreMembers(text, p), ParseMoreMembers(text[..k], p), k)
    decreases k - p, 4
  {
    hide ParseMembers, Skip, Stop, Closed;
    AtCut(text, k, p);
    if text[p] == COMMA {
      var q := Skip(text, p + 1);
      SkipCut(text, k, p + 1);
      AtCut(text, k, k);
      ByteClosed(text, p);
      if q < k {
        SkipClosed(text, p + 1);
        ClosedJoin(text, p, p + 1, q);
        StopJoin(text, p, q, k);
        AtCut(text, k, q);
        AtCut(text, k, q + 1);
        if text[q] != RBRACE {
          MembersCut(text, k, q);
        } else {
          Blank(text, q, q + 1);
        }
      } else {
        BlankAfter(text, p, p + 1, k);
        MembersAtEnd(text, k);
      }
    }
  }

  // ----- Main result -----

  /** On every proper prefix of a stream whose first document is an array or object,
      `cJSON_Parse_Stream` fails with its cursor at the end of the input, with two exceptions that a
      scan from left to right finds: right after the point of a number it stops one byte earlier, and
      inside an escape it runs past the end. On every longer prefix it returns the document. */
  lemma StreamCut(text: seq<byte>, k: nat)
    requires k <= |text|
    requires ParseStream(text).Ok? && IsContainer(ParseStream(text).value)
    ensures ParseStream(text[..k]) ==
              if ParseStream(text).next <= k then ParseStream(text)
              else if InEscape(text, 0, k) then Unspecified
              else if AtPoint(text, 0, k) then Fail(k - 1)
              else Fail(k)
  {
    hide ParseValue, Skip, InEscape, AtPoint, Closed;
    var p := Skip(text, 0);
    SkipCut(text, k, 0);
    AtEnd(text, k);
    SkipClosed(text, 0);
    if p <= k {
      StopJoin(text, 0, p, k);
      ValueCut(text, k, p);
    } else {
      Blank(text, 0, k);
    }
  }

  // ----- An instance -----

  /** A number cut right after its decimal point leaves the point unread. */
  lemma DotCut(text: seq<byte>, p: nat, dot: nat)
    requires p < dot < |text| && AllDigits(text[p..dot]) && text[p] != ZERO
    requires text[dot] == DOT && IsDigit(At(text, dot + 1))
    ensures ParseNumber(text[..dot + 1], p).next == dot
    ensures ParseNumber(text, p).next > dot + 1
  {
    var s := text[..dot + 1];
    var d := text[p..dot];
    assert IsDigit(d[0]) && d[0] == s[p] == text[p];
    assert Matches(s, p, d) && Matches(text, p, d);
    DigitsRun(s, p, d);
    DigitsRun(text, p, d);
    assert At(s, dot) == DOT && At(s, dot + 1) == 0;
    assert DigitsEnd(text, dot + 1) > dot + 1;
  }

  /** Any document `[w.f]` cut after its point fails one byte before the end of the input. */
  lemma FractionCut(text: seq<byte>, dot: nat)
    requires 1 < dot < |text| && AllDigits(text[1..dot]) && text[1] != ZERO
    requires text[0] == LBRACKET && text[dot] == DOT && IsDigit(At(text, dot + 1))
    ensures ParseStream(text[..dot + 1]) == Fail(dot)
  {
    hide ParseNumber;
    var s := text[..dot + 1];
    assert IsDigit(text[1..dot][0]) && s[1] == text[1] && s[dot] == DOT;
    SkipUnique(s, 0, 0);
    SkipUnique(s, 1, 1);
    SkipUnique(s, dot, dot);
    DotCut(text, 1, dot);
    NumberValueAt(s, 1);
    assert ParseItems(s, 1) == Fail(dot);
    assert ParseArray(s, 0) == Fail(dot);
    assert ParseWord(s, 0) == Fail(0);
  }

  /** The document `[1.5]` when its first three bytes arrive. */
  lemma PointExample()
    ensures ParseStream([LBRACKET, 0x31, DOT]) == Fail(2)
  {
    var text: seq<byte> := [LBRACKET, 0x31, DOT, 0x35, RBRACKET];
    assert text[1..2] == [0x31] && text[..3] == [LBRACKET, 0x31, DOT];
    FractionCut(text, 2);
  }

  lemma NumberValueAt(text: seq<byte>, p: nat)
    requires p < |text| && IsDigit(text[p])
    ensures ParseValue(text, p) == ParseNumber(text, p)
  {
    hide ParseNumber, ParseString, ParseArray, ParseObject, ParseWord;
    NoWord(text, p);
  }
}
