/** `parse_number` and the `%d` branch of `print_number`. */
module JsonNumber {
  import opened Text
  import opened Json

  const LOWER_E: byte := 0x65
  const UPPER_E: byte := 0x45

  predicate AllDigits(d: seq<byte>) {
    forall i :: 0 <= i < |d| ==> 0x30 <= d[i] <= 0x39
  }

  /** The number `n` after the digits of `text` from `p` to `q` went through `n = n * 10 + digit`. */
  function DecFrom(n: int, text: seq<byte>, p: nat, q: nat): int
    requires q <= |text|
  {
    if q <= p then n else DecFrom(n, text, p, q - 1) * 10 + (text[q - 1] as int - ZERO as int)
  }

  /** Where a maximal run of digits from `p` ends. */
  function DigitsEnd(text: seq<byte>, p: nat): (q: nat)
    requires p <= |text|
    ensures p <= q <= |text|
    ensures forall i :: p <= i < q ==> IsDigit(text[i])
    ensures !IsDigit(At(text, q))
    decreases |text| - p
  {
    if IsDigit(At(text, p)) then DigitsEnd(text, p + 1) else p
  }

  predicate IsExponentMark(c: byte) {
    c == LOWER_E || c == UPPER_E
  }

  function ZeroEnd(text: seq<byte>, p: nat): nat {
    if At(text, p) == ZERO then p + 1 else p
  }

  function WholeEnd(text: seq<byte>, p: nat): nat
    requires p <= |text|
  {
    if ZERO < At(text, p) <= NINE then DigitsEnd(text, p) else p
  }

  /** Where the digits after a decimal point start; `p` itself where there is no fraction. */
  function FractionStart(text: seq<byte>, p: nat): (q: nat)
    requires p <= |text|
    ensures p <= q <= p + 1 && q <= |text|
  {
    if At(text, p) == DOT && IsDigit(At(text, p + 1)) then p + 1 else p
  }

  function FractionEnd(text: seq<byte>, p: nat): (q: nat)
    requires p <= |text|
    ensures FractionStart(text, p) <= q <= |text|
  {
    if FractionStart(text, p) == p then p else DigitsEnd(text, p + 1)
  }

  /** The signed exponent at `p` and the cursor after it. */
  function Exponent(text: seq<byte>, p: nat): (r: (int, nat))
    requires p <= |text|
    ensures p <= r.1 <= |text|
  {
    if !IsExponentMark(At(text, p)) then (0, p)
    else
      var signed := At(text, p + 1) == PLUS || At(text, p + 1) == MINUS;
      var d := if signed then p + 2 else p + 1;
      var q := DigitsEnd(text, d);
      var e := DecFrom(0, text, d, q);
      (if At(text, p + 1) == MINUS then -e else e, q)
  }

  /** The digits before the exponent as one number, minus the count of fraction digits, and the
      cursor after them. */
  function Mantissa(text: seq<byte>, p: nat): (r: (int, int, nat))
    requires p <= |text|
    ensures p <= r.2 <= |text|
    ensures IsDigit(At(text, p)) ==> p < r.2
  {
    var w := ZeroEnd(text, p);
    var w' := WholeEnd(text, w);
    var f: int := FractionStart(text, w');
    var f': int := FractionEnd(text, w');
    (DecFrom(DecFrom(0, text, w, w'), text, f, f'), f - f', f')
  }

  /** What `parse_number` reads after the sign. */
  function ParseUnsigned(text: seq<byte>, p: nat): (r: Parse<Json>)
    requires p <= |text|
    ensures r.Ok? && r.value.Number? && p <= r.next <= |text|
    ensures IsDigit(At(text, p)) ==> p < r.next
  {
    var (n, scale, m) := Mantissa(text, p);
    var (e, q) := Exponent(text, m);
    Ok(Number(n, scale, e), q)
  }

  /** What `parse_number` reads from `p`. */
  function ParseNumber(text: seq<byte>, p: nat): (r: Parse<Json>)
    requires p <= |text|
    ensures r.Ok? && r.value.Number? && p <= r.next <= |text|
    ensures At(text, p) == MINUS || IsDigit(At(text, p)) ==> p < r.next
  {
    if At(text, p) == MINUS then
      var r := ParseUnsigned(text, p + 1);
      Ok(r.value.(n := -r.value.n), r.next)
    else ParseUnsigned(text, p)
  }

  /** `parse_number`. */
  method ReadNumber(c: Cursor) returns (item: Json)
    requires c.pos <= |c.text|
    modifies c`pos
    ensures Ok(item, c.pos) == ParseNumber(c.text, old(c.pos))
  {
    var sign := 1;
    if At(c.text, c.pos) == MINUS {
      sign := -1;
      c.pos := c.pos + 1;
    }
    var n, scale := ReadMantissa(c);
    var subscale := ReadExponent(c);
    assert sign * n == if sign == -1 then -n else n;
    item := Number(sign * n, scale, subscale);
  }

  /** The digits of `parse_number`, before and after the decimal point. */
  method ReadMantissa(c: Cursor) returns (n: int, scale: int)
    requires c.pos <= |c.text|
    modifies c`pos
    ensures (n, scale, c.pos) == Mantissa(c.text, old(c.pos))
  {
    n, scale := 0, 0;
    if At(c.text, c.pos) == ZERO {
      c.pos := c.pos + 1;
    }
    ghost var w := c.pos;
    var count;
    if ZERO < At(c.text, c.pos) <= NINE {
      n, count := ReadDigits(c, n);
    }
    ghost var w' := c.pos;
    assert w' == WholeEnd(c.text, w) && n == DecFrom(0, c.text, w, w');
    if At(c.text, c.pos) == DOT && IsDigit(At(c.text, c.pos + 1)) {
      c.pos := c.pos + 1;
      n, count := ReadDigits(c, n);
      scale := scale - count;
    }
  }

  /** The exponent part of `parse_number`: the value of `subscale * signsubscale`. */
  method ReadExponent(c: Cursor) returns (exponent: int)
    requires c.pos <= |c.text|
    modifies c`pos
    ensures Exponent(c.text, old(c.pos)) == (exponent, c.pos)
  {
    var subscale, signsubscale := 0, 1;
    if IsExponentMark(At(c.text, c.pos)) {
      c.pos := c.pos + 1;
      if At(c.text, c.pos) == PLUS {
        c.pos := c.pos + 1;
      } else if At(c.text, c.pos) == MINUS {
        signsubscale := -1;
        c.pos := c.pos + 1;
      }
      var count;
      subscale, count := ReadDigits(c, subscale);
    }
    exponent := subscale * signsubscale;
  }

  /** The digit loops of `parse_number`, which build on the `n0` read so far. */
  method ReadDigits(c: Cursor, n0: int) returns (n: int, count: int)
    requires c.pos <= |c.text|
    modifies c`pos
    ensures c.pos == DigitsEnd(c.text, old(c.pos))
    ensures n == DecFrom(n0, c.text, old(c.pos), c.pos)
    ensures count == c.pos - old(c.pos)
  {
    n, count := n0, 0;
    while IsDigit(At(c.text, c.pos))
      invariant old(c.pos) <= c.pos <= |c.text|
      invariant DigitsEnd(c.text, c.pos) == DigitsEnd(c.text, old(c.pos))
      invariant n == DecFrom(n0, c.text, old(c.pos), c.pos)
      invariant count == c.pos - old(c.pos)
      decreases |c.text| - c.pos
    {
      n := n * 10 + (At(c.text, c.pos) as int - ZERO as int);
      count := count + 1;
      c.pos := c.pos + 1;
    }
  }

  // ----- Printing -----

  /** The decimal digits of `n`, as `%d` writes them. */
  function Digits(n: nat): (d: seq<byte>)
    ensures d != [] && AllDigits(d)
    ensures d[0] == ZERO ==> n == 0 && d == [ZERO]
  {
    if n < 10 then [ZERO + n] else Digits(n / 10) + [ZERO + n % 10]
  }

  function PrintInt(i: int): (s: seq<byte>)
    ensures s != [] && NulFree(s)
    ensures s[0] == MINUS || IsDigit(s[0])
  {
    if i < 0 then [MINUS] + Digits(-i) else Digits(i)
  }

  /** Digits standing in a text are worth what they are worth on their own. */
  lemma {:induction false} DecFromMatches(n: int, text: seq<byte>, p: nat, d: seq<byte>, k: nat)
    requires Matches(text, p, d) && k <= |d|
    ensures DecFrom(n, text, p, p + k) == DecFrom(n, d, 0, k)
  {
    if k > 0 {
      DecFromMatches(n, text, p, d, k - 1);
      assert d[k - 1] == text[p + (k - 1)];
    }
  }

  lemma {:induction false} DigitsValue(n: nat)
    ensures DecFrom(0, Digits(n), 0, |Digits(n)|) == n
  {
    var d := Digits(n);
    if n < 10 {
      assert DecFrom(0, d, 0, 0) == 0;
    } else {
      DigitsValue(n / 10);
      var d' := Digits(n / 10);
      assert Matches(d, 0, d');
      DecFromMatches(0, d, 0, d', |d'|);
    }
  }

  /** A byte after which `parse_number` does not go on, whatever part it was in. */
  predicate EndsNumber(c: byte) {
    !(0x30 <= c <= 0x39) && c != 0x2E && c != 0x65 && c != 0x45
  }

  lemma DigitsRun(text: seq<byte>, p: nat, d: seq<byte>)
    requires Matches(text, p, d) && AllDigits(d) && !IsDigit(At(text, p + |d|))
    ensures DigitsEnd(text, p) == p + |d|
  {
    forall i | p <= i < p + |d| ensures IsDigit(text[i]) {
      assert IsDigit(d[i - p]);
    }
  }

  /** The whole part of a number text: a single zero, or digits that do not start with one. */
  lemma WholeRead(text: seq<byte>, p: nat, d: seq<byte>)
    requires d != [] && AllDigits(d) && (d[0] == ZERO ==> |d| == 1)
    requires Matches(text, p, d) && !IsDigit(At(text, p + |d|))
    ensures IsDigit(At(text, p))
    ensures ZeroEnd(text, p) <= p + |d| && WholeEnd(text, ZeroEnd(text, p)) == p + |d|
    ensures DecFrom(0, text, ZeroEnd(text, p), p + |d|) == DecFrom(0, d, 0, |d|)
  {
    assert IsDigit(d[0]) && text[p + 0] == d[0];
    DecFromMatches(0, text, p, d, |d|);
    if d[0] == ZERO {
      assert DecFrom(0, d, 0, 1) == DecFrom(0, d, 0, 0) * 10;
    } else {
      DigitsRun(text, p, d);
    }
  }

  // ----- What a number text denotes -----

  function Pow10(k: nat): (r: nat)
    ensures r > 0
  {
    if k == 0 then 1 else 10 * Pow10(k - 1)
  }

  lemma {:induction false} Pow10Add(a: nat, b: nat)
    ensures Pow10(a + b) == Pow10(a) * Pow10(b)
  {
    if a != 0 {
      Pow10Add(a - 1, b);
      assert Pow10(a) * Pow10(b) == 10 * (Pow10(a - 1) * Pow10(b));
    }
  }

  lemma {:induction false} DigitsLength(n: nat, k: nat)
    requires n < Pow10(k) && k > 0
    ensures |Digits(n)| <= k
    decreases k
  {
    if n >= 10 {
      DigitsLength(n / 10, k - 1);
    }
  }

  /** Every `int` fits the 21 bytes `print_number` allocates, terminator included. */
  lemma PrintIntFits(i: int)
    requires IsInt32(i)
    ensures |PrintInt(i)| + 1 <= 12 <= 21
  {
    assert Pow10(10) == 10_000_000_000 by {
      assert Pow10(5) == 100_000;
      Pow10Add(5, 5);
    }
    DigitsLength(if i < 0 then -i else i, 10);
  }

  datatype ExponentSign = NoSign | Plus | Minus

  datatype ExponentText = ExponentText(mark: byte, sign: ExponentSign, digits: seq<byte>)

  /** One text of the number grammar of section 6 of RFC 8259: `[ minus ] int [ frac ] [ exp ]`,
      an absent fraction being an empty run of digits. */
  datatype NumberText =
    NumberText(negative: bool, whole: seq<byte>, fraction: seq<byte>, exponent: Option<ExponentText>)

  predicate WellFormed(x: NumberText) {
    && x.whole != [] && AllDigits(x.whole) && (x.whole[0] == 0x30 ==> |x.whole| == 1)
    && AllDigits(x.fraction)
    && (x.exponent.Some? ==>
          && (x.exponent.value.mark == 0x65 || x.exponent.value.mark == 0x45)
          && x.exponent.value.digits != [] && AllDigits(x.exponent.value.digits))
  }

  function SignText(s: ExponentSign): seq<byte> {
    match s
    case NoSign => []
    case Plus => [0x2B]
    case Minus => [0x2D]
  }

  function FractionText(d: seq<byte>): seq<byte> {
    if d == [] then [] else [0x2E] + d
  }

  function ExponentPart(e: Option<ExponentText>): seq<byte> {
    if e.None? then [] else [e.value.mark] + (SignText(e.value.sign) + e.value.digits)
  }

  function Render(x: NumberText): seq<byte> {
    if x.negative then [0x2D] + Unsigned(x) else Unsigned(x)
  }

  function Unsigned(x: NumberText): seq<byte> {
    x.whole + (FractionText(x.fraction) + ExponentPart(x.exponent))
  }

  /** The weighted sum of a run of digits, the first digit weighing most. */
  function Positional(d: seq<byte>): int {
    if d == [] then 0 else (d[0] as int - 0x30) * Pow10(|d| - 1) + Positional(d[1..])
  }

  /** `x * 10^k`. */
  function Shift(x: real, k: int): real
    decreases if k < 0 then -k else k
  {
    if k == 0 then x else if k > 0 then 10.0 * Shift(x, k - 1) else Shift(x, k + 1) / 10.0
  }

  function ExponentValue(e: Option<ExponentText>): int {
    if e.None? then 0 else if e.value.sign == Minus then -Positional(e.value.digits) else Positional(e.value.digits)
  }

  /** The rational number a text of the grammar denotes. */
  function Denotation(x: NumberText): real {
    var m := Positional(x.whole) as real + Shift(Positional(x.fraction) as real, -|x.fraction|);
    Shift(if x.negative then -m else m, ExponentValue(x.exponent))
  }

  /** The number `parse_number` computes, taken over exact arithmetic: `n * 10^(scale + subscale)`. */
  function NumberValue(t: Json): real
    requires t.Number?
  {
    Shift(t.n as real, t.scale + t.subscale)
  }

  /** Reading digits from the left, on top of `n`, adds up their decimal weights. */
  lemma {:induction false} DecFromIsPositional(n: int, d: seq<byte>)
    ensures DecFrom(n, d, 0, |d|) == n * Pow10(|d|) + Positional(d)
    decreases |d|
  {
    if d != [] {
      var c := d[0] as int - ZERO as int;
      var m := n * 10 + c;
      DecFromIsPositional(m, d[1..]);
      DecFromTail(n, d, |d|);
      Horner(n, c, Pow10(|d| - 1));
    }
  }

  lemma Horner(n: int, c: int, p: int)
    ensures (n * 10 + c) * p == n * (10 * p) + c * p
  {
  }

  lemma {:induction false} DecFromTail(n: int, d: seq<byte>, k: nat)
    requires 0 < k <= |d|
    ensures DecFrom(n, d, 0, k) == DecFrom(n * 10 + (d[0] as int - ZERO as int), d[1..], 0, k - 1)
  {
    if k > 1 {
      DecFromTail(n, d, k - 1);
      assert d[1..][k - 2] == d[k - 1];
    } else {
      assert DecFrom(n, d, 0, 0) == n;
    }
  }

  lemma ShiftStep(x: real, k: int)
    ensures Shift(x, k + 1) == 10.0 * Shift(x, k)
  {
  }

  lemma {:induction false} ShiftAdd(x: real, a: int, b: int)
    ensures Shift(x, a + b) == Shift(Shift(x, a), b)
    decreases if b < 0 then -b else b
  {
    if b > 0 {
      ShiftAdd(x, a, b - 1);
      ShiftStep(x, a + b - 1);
    } else if b < 0 {
      ShiftAdd(x, a, b + 1);
      ShiftStep(x, a + b);
    }
  }

  lemma {:induction false} ShiftSum(x: real, y: real, k: int)
    ensures Shift(x + y, k) == Shift(x, k) + Shift(y, k)
    ensures Shift(-x, k) == -Shift(x, k)
    decreases if k < 0 then -k else k
  {
    if k != 0 {
      ShiftSum(x, y, if k > 0 then k - 1 else k + 1);
    }
  }

  /** Dividing by as many tens as were multiplied in. */
  lemma {:induction false} ShiftPow10(n: int, k: int)
    requires k >= 0
    ensures Shift((n * Pow10(k)) as real, -k) == n as real
  {
    if k != 0 {
      var m := n * Pow10(k - 1);
      assert n * Pow10(k) == 10 * m;
      ShiftPow10(n, k - 1);
      ShiftAdd((10 * m) as real, -1, -(k - 1));
      assert Shift((10 * m) as real, -1) == Shift((10 * m) as real, 0) / 10.0;
    }
  }

  lemma FractionRead(n: int, text: seq<byte>, p: nat, d: seq<byte>)
    requires AllDigits(d) && Matches(text, p, FractionText(d))
    requires var c := At(text, p + |FractionText(d)|); !IsDigit(c) && c != DOT
    ensures FractionEnd(text, p) == p + |FractionText(d)|
    ensures FractionEnd(text, p) - FractionStart(text, p) == |d|
    ensures DecFrom(n, text, FractionStart(text, p), FractionEnd(text, p)) == DecFrom(n, d, 0, |d|)
  {
    if d != [] {
      MatchesSplit(text, p, [DOT], d);
      assert text[p + 0] == [DOT][0];
      assert IsDigit(d[0]) && text[p + 1 + 0] == d[0];
      DigitsRun(text, p + 1, d);
      DecFromMatches(n, text, p + 1, d, |d|);
    }
  }

  lemma ExponentRead(text: seq<byte>, p: nat, e: Option<ExponentText>)
    requires e.Some? ==> IsExponentMark(e.value.mark) && e.value.digits != [] && AllDigits(e.value.digits)
    requires Matches(text, p, ExponentPart(e)) && EndsNumber(At(text, p + |ExponentPart(e)|))
    ensures Exponent(text, p) == (ExponentValue(e), p + |ExponentPart(e)|)
    ensures e.Some? ==> At(text, p) == e.value.mark
  {
    hide DecFrom, Positional, Pow10, DigitsEnd;
    if e.Some? {
      var s, d := SignText(e.value.sign), e.value.digits;
      MatchesSplit(text, p, [e.value.mark], s + d);
      MatchesSplit(text, p + 1, s, d);
      assert text[p + 0] == [e.value.mark][0];
      if e.value.sign != NoSign {
        assert text[p + 1 + 0] == s[0];
      }
      var b := p + 1 + |s|;
      assert IsDigit(d[0]) && text[b + 0] == d[0];
      DigitsRun(text, b, d);
      DecFromMatches(0, text, b, d, |d|);
      DecFromIsPositional(0, d);
    }
  }

  lemma MantissaRead(text: seq<byte>, p: nat, x: NumberText, f: nat, e: nat)
    requires WellFormed(x) && Matches(text, p, x.whole) && Matches(text, f, FractionText(x.fraction))
    requires f == p + |x.whole| && e == f + |FractionText(x.fraction)|
    requires !IsDigit(At(text, e)) && At(text, e) != DOT
    ensures IsDigit(At(text, p))
    ensures Mantissa(text, p) == (RawDigits(x), -|x.fraction|, e)
  {
    assert text[p + 0] == x.whole[0];
    if x.fraction != [] {
      assert text[f + 0] == FractionText(x.fraction)[0];
    }
    FractionRead(DecFrom(0, x.whole, 0, |x.whole|), text, f, x.fraction);
    WholeRead(text, p, x.whole);
  }

  /** What follows the sign is read part by part. */
  lemma UnsignedRead(text: seq<byte>, p: nat, x: NumberText, end: nat)
    requires WellFormed(x) && Matches(text, p, Unsigned(x))
    requires end == p + |Unsigned(x)| && EndsNumber(At(text, end))
    ensures IsDigit(At(text, p))
    ensures ParseUnsigned(text, p) == Ok(Number(RawDigits(x), -|x.fraction|, ExponentValue(x.exponent)), end)
  {
    var fr, ex := FractionText(x.fraction), ExponentPart(x.exponent);
    var f := p + |x.whole|;
    var e := f + |fr|;
    MatchesSplit(text, p, x.whole, fr + ex);
    MatchesSplit(text, f, fr, ex);
    ExponentRead(text, e, x.exponent);
    MantissaRead(text, p, x, f, e);
  }

  function RawDigits(x: NumberText): int {
    DecFrom(DecFrom(0, x.whole, 0, |x.whole|), x.fraction, 0, |x.fraction|)
  }

  lemma MinusRead(text: seq<byte>, p: nat, rest: seq<byte>)
    requires Matches(text, p, [MINUS] + rest)
    ensures Matches(text, p + 1, rest) && At(text, p) == MINUS
  {
    MatchesSplit(text, p, [MINUS], rest);
    assert text[p + 0] == [MINUS][0];
  }

  /** What `parse_number` makes of a text of the grammar. */
  function Parts(x: NumberText): Json {
    Number(if x.negative then -RawDigits(x) else RawDigits(x), -|x.fraction|, ExponentValue(x.exponent))
  }

  /** A printed integer in terms of the grammar. */
  function IntText(i: int): NumberText {
    NumberText(i < 0, Digits(if i < 0 then -i else i), [], None)
  }

  lemma IntPrinted(i: int)
    ensures WellFormed(IntText(i)) && PrintInt(i) == Render(IntText(i)) && Parts(IntText(i)) == Int(i)
  {
    DigitsValue(if i < 0 then -i else i);
  }

  /** A text of the grammar is read part by part. */
  lemma PartsRead(text: seq<byte>, p: nat, x: NumberText, end: nat)
    requires WellFormed(x) && Matches(text, p, Render(x))
    requires end == p + |Render(x)| && EndsNumber(At(text, end))
    ensures ParseNumber(text, p) == Ok(Parts(x), end)
  {
    hide ParseUnsigned, Unsigned, RawDigits, ExponentValue, Matches, WellFormed, EndsNumber;
    if x.negative {
      MinusRead(text, p, Unsigned(x));
      UnsignedRead(text, p + 1, x, end);
    } else {
      UnsignedRead(text, p, x, end);
    }
  }

  /** Parsing a printed integer gives it back, for every integer and every position. */
  lemma IntRoundTrip(text: seq<byte>, p: nat, i: int)
    requires Matches(text, p, PrintInt(i))
    requires EndsNumber(At(text, p + |PrintInt(i)|))
    ensures ParseNumber(text, p) == Ok(Int(i), p + |PrintInt(i)|)
  {
    hide Render, ParseNumber, PrintInt, Matches;
    IntPrinted(i);
    PartsRead(text, p, IntText(i), p + |PrintInt(i)|);
  }

  /** Moving the decimal point `k` digits to the left divides by `10^k`. */
  lemma ShiftFraction(negative: bool, w: int, f: int, k: int, e: int)
    requires k >= 0
    ensures var n, m := w * Pow10(k) + f, w as real + Shift(f as real, -k);
            Shift((if negative then -n else n) as real, -k + e) == Shift(if negative then -m else m, e)
  {
    var a := w * Pow10(k);
    var n, m := (a + f) as real, w as real + Shift(f as real, -k);
    ShiftPow10(w, k);
    ShiftSum(a as real, f as real, -k);
    assert Shift(n, -k) == m;
    ShiftAdd(n, -k, e);
    ShiftSum(n, 0.0, -k + e);
    ShiftSum(m, 0.0, e);
  }

  lemma PartsDenote(x: NumberText)
    ensures NumberValue(Parts(x)) == Denotation(x)
  {
    var w := Positional(x.whole);
    DecFromIsPositional(0, x.whole);
    DecFromIsPositional(w, x.fraction);
    ShiftFraction(x.negative, w, Positional(x.fraction), |x.fraction|, ExponentValue(x.exponent));
  }

  /** Every text of the grammar, wherever it stands and whatever delimiter follows it, is
      consumed whole and parsed to the number it denotes. */
  lemma NumberDenotation(text: seq<byte>, p: nat, x: NumberText)
    requires WellFormed(x) && Matches(text, p, Render(x))
    requires EndsNumber(At(text, p + |Render(x)|))
    ensures ParseNumber(text, p).next == p + |Render(x)|
    ensures NumberValue(ParseNumber(text, p).value) == Denotation(x)
  {
    PartsRead(text, p, x, p + |Render(x)|);
    PartsDenote(x);
  }

  /** Beyond the grammar: one leading zero before other digits is skipped as well. */
  lemma LeadingZeroAccepted(text: seq<byte>, p: nat, d: seq<byte>)
    requires d != [] && AllDigits(d) && d[0] != ZERO
    requires Matches(text, p, [ZERO] + d) && EndsNumber(At(text, p + 1 + |d|))
    ensures ParseNumber(text, p) == Ok(Int(Positional(d)), p + 1 + |d|)
  {
    MatchesSplit(text, p, [ZERO], d);
    assert text[p + 0] == [ZERO][0];
    WholeRead(text, p + 1, d);
    DecFromIsPositional(0, d);
  }
}
