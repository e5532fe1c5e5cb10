/** The checksum of HJ 212-2017 as `CRC16_212` computes it: only the high byte of the register
    enters the next step. */
module Checksum {

  /** One turn of the inner loop. */
  function Shift1(r: bv16): bv16 {
    if r & 1 == 1 then (r >> 1) ^ 0xA001 else r >> 1
  }

  function Turns(r: bv16, n: nat): bv16 {
    if n == 0 then r else Shift1(Turns(r, n - 1))
  }

  /** The inner loop: eight turns from a byte in the low half of the register. */
  function Shift8(b: bv8): bv16 {
    Turns(b as bv16, 8)
  }

  function High(r: bv16): bv8 {
    (r >> 8) as bv8
  }

  function Xor8(a: bv8, b: bv8): bv8 {
    a ^ b
  }

  function Xor16(a: bv16, b: bv16): bv16 {
    a ^ b
  }

  /** `hi ^= buf[j]`. */
  function Mix(r: bv16, b: bv8): bv8 {
    Xor8(High(r), b)
  }

  /** The register after one more byte. */
  function Feed(r: bv16, b: bv8): bv16 {
    Shift8(Mix(r, b))
  }

  /** The register after a whole buffer. */
  function CrcFrom(r: bv16, buf: seq<bv8>): bv16 {
    if buf == [] then r else Feed(CrcFrom(r, buf[..|buf| - 1]), buf[|buf| - 1])
  }

  const SEED: bv16 := 0xFFFF

  function Crc(buf: seq<bv8>): bv16 {
    CrcFrom(SEED, buf)
  }

  /** `CRC16_212`. */
  method Crc16(buf: seq<bv8>) returns (r: bv16)
    ensures r == Crc(buf)
  {
    hide Shift8;
    r := SEED;
    for j := 0 to |buf|
      invariant r == CrcFrom(SEED, buf[..j])
    {
      assert buf[..j + 1][..j] == buf[..j];
      r := EightTurns(Mix(r, buf[j]));
    }
    assert buf[..|buf|] == buf;
  }

  /** The inner loop of `CRC16_212`. */
  method EightTurns(hi: bv8) returns (r: bv16)
    ensures r == Shift8(hi)
  {
    hide Shift1;
    r := hi as bv16;
    for i := 0 to 8
      invariant r == Turns(hi as bv16, i)
    {
      r := OneTurn(r);
    }
  }

  method OneTurn(r0: bv16) returns (r: bv16)
    ensures r == Shift1(r0)
  {
    var flag := r0 & 1;
    r := r0 >> 1;
    if flag == 1 {
      r := r ^ 0xA001;
    }
  }

  // ----- The turn without a branch -----

  function Mask1(r: bv16): bv16 {
    (r >> 1) ^ ((0 - (r & 1)) & 0xA001)
  }

  function Mask4(r: bv16): bv16 {
    Mask1(Mask1(Mask1(Mask1(r))))
  }

  lemma MaskSet(m: bv16)
    requires m == 1
    ensures (0 - m) & 0xA001 == 0xA001
  {
  }

  lemma MaskClear(m: bv16, r: bv16)
    requires m == 0
    ensures r ^ ((0 - m) & 0xA001) == r
  {
  }

  lemma LowBit(r: bv16)
    ensures r & 1 == 1 || r & 1 == 0
  {
  }

  lemma MaskIsShift(r: bv16)
    ensures Mask1(r) == Shift1(r)
  {
    LowBit(r);
    if r & 1 == 1 {
      MaskSet(r & 1);
    } else {
      MaskClear(r & 1, r >> 1);
    }
  }

  lemma MaskFour(r: bv16, n: nat)
    ensures Turns(r, n + 4) == Mask4(Turns(r, n))
  {
    hide Shift1, Mask1;
    var t := Turns(r, n);
    assert Turns(r, n + 1) == Shift1(t);
    assert Turns(r, n + 2) == Shift1(Turns(r, n + 1));
    assert Turns(r, n + 3) == Shift1(Turns(r, n + 2));
    assert Turns(r, n + 4) == Shift1(Turns(r, n + 3));
    MaskIsShift(t);
    MaskIsShift(Turns(r, n + 1));
    MaskIsShift(Turns(r, n + 2));
    MaskIsShift(Turns(r, n + 3));
  }

  lemma MaskEight(b: bv8)
    ensures Shift8(b) == Mask4(Mask4(b as bv16))
  {
    hide Shift1, Mask4, Mask1;
    var r := b as bv16;
    MaskFour(r, 0);
    MaskFour(r, 4);
    assert Turns(r, 0) == r;
  }

  // ----- One byte step is linear and keeps a difference in the high byte -----

  lemma Mask1Linear(x: bv16, y: bv16)
    ensures Mask1(Xor16(x, y)) == Xor16(Mask1(x), Mask1(y))
  {
  }

  lemma Mask4Linear(x: bv16, y: bv16)
    ensures Mask4(Xor16(x, y)) == Xor16(Mask4(x), Mask4(y))
  {
    hide Mask1, Xor16;
    Mask1Linear(x, y);
    Mask1Linear(Mask1(x), Mask1(y));
    Mask1Linear(Mask1(Mask1(x)), Mask1(Mask1(y)));
    Mask1Linear(Mask1(Mask1(Mask1(x))), Mask1(Mask1(Mask1(y))));
  }

  lemma WidenXor(x: bv8, y: bv8)
    ensures Xor8(x, y) as bv16 == Xor16(x as bv16, y as bv16)
  {
  }

  lemma Shift8Linear(x: bv8, y: bv8)
    ensures Shift8(Xor8(x, y)) == Xor16(Shift8(x), Shift8(y))
  {
    hide Mask4, Shift8, Xor8, Xor16;
    MaskEight(x);
    MaskEight(y);
    MaskEight(Xor8(x, y));
    WidenXor(x, y);
    Mask4Linear(x as bv16, y as bv16);
    Mask4Linear(Mask4(x as bv16), Mask4(y as bv16));
  }

  lemma MaskInjective(x: bv8, y: bv8)
    requires High(Mask4(Mask4(x as bv16))) == High(Mask4(Mask4(y as bv16)))
    ensures x == y
  {
  }

  /** The high byte of the eight-turn result determines the byte it came from. */
  lemma HighInjective(x: bv8, y: bv8)
    ensures High(Shift8(x)) == High(Shift8(y)) <==> x == y
  {
    hide Mask4, Shift8, High;
    MaskEight(x);
    MaskEight(y);
    if High(Shift8(x)) == High(Shift8(y)) {
      MaskInjective(x, y);
    }
  }

  lemma XorAssociates(a: bv8, b: bv8, c: bv8)
    ensures Xor8(Xor8(a, b), c) == Xor8(a, Xor8(b, c))
  {
  }

  lemma XorCommutes(a: bv8, b: bv8)
    ensures Xor8(a, b) == Xor8(b, a)
  {
  }

  lemma XorTwice(a: bv8, b: bv8)
    ensures Xor8(a, Xor8(a, b)) == b
  {
  }

  lemma XorExchange(a: bv8, b: bv8, x: bv8, y: bv8)
    ensures Xor8(Xor8(a, b), Xor8(x, y)) == Xor8(Xor8(a, x), Xor8(b, y))
  {
    hide Xor8;
    XorAssociates(a, b, Xor8(x, y));
    XorAssociates(b, x, y);
    XorCommutes(b, x);
    XorAssociates(x, b, y);
    XorAssociates(a, x, Xor8(b, y));
  }

  lemma XorCancel(a: bv8, x: bv8, y: bv8)
    ensures Xor8(a, x) == Xor8(a, y) <==> x == y
    ensures Xor8(x, a) == Xor8(y, a) <==> x == y
  {
  }

  lemma MixCancel(r: bv16, x: bv8, y: bv8)
    ensures Mix(r, x) == Mix(r, y) <==> x == y
  {
    hide High, Xor8;
    XorCancel(High(r), x, y);
  }

  lemma MixSame(r: bv16, q: bv16, b: bv8)
    ensures Mix(r, b) == Mix(q, b) <==> High(r) == High(q)
  {
    hide High, Xor8;
    XorCancel(b, High(r), High(q));
  }

  lemma XorMove(a: bv8, b: bv8, x: bv8, d: bv8)
    ensures Xor8(a, d) == Xor8(b, x) <==> d == Balance(a, b, x)
  {
    hide Xor8;
    XorAssociates(a, b, x);
    XorTwice(a, d);
    XorTwice(a, Xor8(b, x));
  }

  lemma MixMove(r: bv16, q: bv16, x: bv8, d: bv8)
    ensures Mix(r, d) == Mix(q, x) <==> d == Balance(High(r), High(q), x)
  {
    hide High, Xor8, Balance;
    XorMove(High(r), High(q), x, d);
  }

  function Balance(a: bv8, b: bv8, x: bv8): bv8 {
    Xor8(Xor8(a, b), x)
  }

  /** Every byte is the high byte of some eight-turn result. */
  function Preimage(h: bv8): bv8 {
    ((0 - (h & 1)) & 0x03) ^ ((0 - ((h >> 1) & 1)) & 0x06) ^ ((0 - ((h >> 2) & 1)) & 0x0F)
    ^ ((0 - ((h >> 3) & 1)) & 0x1E) ^ ((0 - ((h >> 4) & 1)) & 0x3F) ^ ((0 - ((h >> 5) & 1)) & 0x7E)
    ^ ((0 - ((h >> 6) & 1)) & 0xFF) ^ ((0 - ((h >> 7) & 1)) & 0xFE)
  }

  lemma MaskSurjective(h: bv8)
    ensures High(Mask4(Mask4(Preimage(h) as bv16))) == h
  {
  }

  /** The map from a byte to the high byte of its eight-turn result is a bijection. */
  lemma HighBijective(h: bv8)
    ensures High(Shift8(Preimage(h))) == h
    ensures forall x: bv8 :: High(Shift8(x)) == h ==> x == Preimage(h)
  {
    hide Mask4, Shift8, High, Preimage;
    MaskEight(Preimage(h));
    MaskSurjective(h);
    forall x: bv8 | High(Shift8(x)) == h ensures x == Preimage(h) {
      HighInjective(x, Preimage(h));
    }
  }

  // ----- The checksum in numbers -----

  /** What a set bit contributes. */
  function Bit(b: bv8, mask: bv8, value: bv16): bv16 {
    if b & mask == 0 then 0 else value
  }

  function LowBits(b: bv8): bv16 {
    Bit(b, 0x01, 0xC0C1) ^ Bit(b, 0x02, 0xC181) ^ Bit(b, 0x04, 0xC301) ^ Bit(b, 0x08, 0xC601)
  }

  function HighBits(b: bv8): bv16 {
    Bit(b, 0x10, 0xCC01) ^ Bit(b, 0x20, 0xD801) ^ Bit(b, 0x40, 0xF001) ^ Bit(b, 0x80, 0xA001)
  }

  lemma MaskLow(b: bv8)
    ensures Mask4(Mask4((b & 0x0F) as bv16)) == LowBits(b)
  {
  }

  lemma MaskHigh(b: bv8)
    ensures Mask4(Mask4((b & 0xF0) as bv16)) == HighBits(b)
  {
  }

  lemma Nibbles(b: bv8)
    ensures Xor8(b & 0x0F, b & 0xF0) == b
  {
  }

  /** Eight turns in closed form: the exclusive or of one number for each bit that is set. */
  lemma Shift8Bits(b: bv8)
    ensures Shift8(b) == Xor16(LowBits(b), HighBits(b))
  {
    hide Shift8, Mask4, Mask1, LowBits, HighBits, Xor8, Xor16;
    Nibbles(b);
    Shift8Linear(b & 0x0F, b & 0xF0);
    MaskEight(b & 0x0F);
    MaskEight(b & 0xF0);
    MaskLow(b);
    MaskHigh(b);
  }

  /** Where the register starts and what one more byte makes of it. Together with `Shift8Bits` this
      fixes the checksum of every buffer. */
  lemma CrcSteps(buf: seq<bv8>, b: bv8)
    ensures Crc([]) == 0xFFFF
    ensures Crc(buf + [b]) == Shift8((Crc(buf) >> 8) as bv8 ^ b)
  {
    hide Shift8;
    assert (buf + [b])[..|buf|] == buf;
  }

  /** The checksum of a single zero byte. */
  lemma CrcOfZero()
    ensures Crc([0x00]) == 0x4040
  {
    hide Shift8;
    assert [] + [0x00 as bv8] == [0x00];
    CrcSteps([], 0x00);
    Shift8Bits(0xFF);
  }

  // ----- Error detection -----

  /** The same byte keeps two registers apart, or together, in the high byte. */
  lemma FeedHigh(r: bv16, q: bv16, b: bv8)
    ensures High(Feed(r, b)) == High(Feed(q, b)) <==> High(r) == High(q)
    ensures High(r) == High(q) ==> Feed(r, b) == Feed(q, b)
  {
    hide Shift8, High, Mix;
    HighInjective(Mix(r, b), Mix(q, b));
    MixSame(r, q, b);
  }

  /** Only the high byte of the register matters for what follows. */
  lemma {:induction false} SuffixHigh(r: bv16, q: bv16, buf: seq<bv8>)
    ensures High(CrcFrom(r, buf)) == High(CrcFrom(q, buf)) <==> High(r) == High(q)
    ensures High(r) == High(q) && buf != [] ==> CrcFrom(r, buf) == CrcFrom(q, buf)
    decreases |buf|
  {
    if buf != [] {
      hide Feed, High;
      var before := buf[..|buf| - 1];
      SuffixHigh(r, q, before);
      FeedHigh(CrcFrom(r, before), CrcFrom(q, before), buf[|buf| - 1]);
    }
  }

  lemma {:induction false} CrcConcat(r: bv16, a: seq<bv8>, b: seq<bv8>)
    ensures CrcFrom(r, a + b) == CrcFrom(CrcFrom(r, a), b)
    decreases |b|
  {
    hide Feed;
    if b == [] {
      assert a + b == a;
    } else {
      assert (a + b)[..|a + b| - 1] == a + b[..|b| - 1];
      CrcConcat(r, a, b[..|b| - 1]);
    }
  }

  /** The register at position `i`, the byte there, and the rest. */
  lemma CrcAt(buf: seq<bv8>, i: nat, x: bv8)
    requires i < |buf|
    ensures Crc(buf[i := x]) == CrcFrom(Feed(CrcFrom(SEED, buf[..i]), x), buf[i + 1..])
  {
    hide Feed;
    var c := buf[i := x];
    assert c == buf[..i] + ([x] + buf[i + 1..]);
    CrcConcat(SEED, buf[..i], [x] + buf[i + 1..]);
    CrcConcat(CrcFrom(SEED, buf[..i]), [x], buf[i + 1..]);
    assert [x][..0] == [];
    assert CrcFrom(CrcFrom(SEED, buf[..i]), [x]) == Feed(CrcFrom(CrcFrom(SEED, buf[..i]), []), x);
  }

  /** Any change of any single byte of any buffer changes the checksum. */
  lemma OneByteDetected(buf: seq<bv8>, i: nat, x: bv8)
    requires i < |buf|
    ensures Crc(buf[i := x]) == Crc(buf) <==> x == buf[i]
  {
    hide Shift8, High, Mix;
    assert buf[i := buf[i]] == buf;
    CrcAt(buf, i, x);
    CrcAt(buf, i, buf[i]);
    var r := CrcFrom(SEED, buf[..i]);
    HighInjective(Mix(r, x), Mix(r, buf[i]));
    MixCancel(r, x, buf[i]);
    SuffixHigh(Feed(r, x), Feed(r, buf[i]), buf[i + 1..]);
  }

  /** The byte that hides a change of byte `i` to `x` when it replaces byte `j`. */
  function Compensating(buf: seq<bv8>, i: nat, x: bv8, j: nat): bv8
    requires i < j < |buf|
  {
    Balance(High(Crc(buf[i := x][..j])), High(Crc(buf[..j])), buf[j])
  }

  /** Two changed bytes go undetected for exactly one value of the second: the checksum is worth
      eight bits, not sixteen. */
  lemma TwoBytes(buf: seq<bv8>, i: nat, x: bv8, j: nat, d: bv8)
    requires i < j < |buf|
    ensures Crc(buf[i := x][j := d]) == Crc(buf) <==> d == Compensating(buf, i, x, j)
  {
    hide Shift8, High, Mix, Balance;
    var changed := buf[i := x];
    assert buf[j := buf[j]] == buf;
    CrcAt(changed, j, d);
    CrcAt(buf, j, buf[j]);
    assert changed[j + 1..] == buf[j + 1..];
    var r, q := CrcFrom(SEED, changed[..j]), CrcFrom(SEED, buf[..j]);
    HighInjective(Mix(r, d), Mix(q, buf[j]));
    MixMove(r, q, buf[j], d);
    SuffixHigh(Feed(r, d), Feed(q, buf[j]), buf[j + 1..]);
  }

  /** The checksum of a non-empty buffer is determined by its own high byte, so that there are 256
      of them at most. */
  lemma HighDetermines(buf: seq<bv8>)
    requires buf != []
    ensures Crc(buf) == Shift8(Preimage(High(Crc(buf))))
  {
    hide Shift8, High, Preimage;
    HighBijective(High(Crc(buf)));
  }

  // ----- Affinity -----

  function Sum8(a: bv8, b: bv8, c: bv8): bv8 {
    Xor8(Xor8(a, b), c)
  }

  function Sum16(a: bv16, b: bv16, c: bv16): bv16 {
    Xor16(Xor16(a, b), c)
  }

  /** Three buffers added byte by byte with exclusive or. */
  function Sum(a: seq<bv8>, b: seq<bv8>, c: seq<bv8>): (s: seq<bv8>)
    requires |a| == |b| == |c|
    ensures |s| == |a|
  {
    if a == [] then []
    else
      var n := |a| - 1;
      Sum(a[..n], b[..n], c[..n]) + [Sum8(a[n], b[n], c[n])]
  }

  lemma HighXor(a: bv16, b: bv16)
    ensures High(Xor16(a, b)) == Xor8(High(a), High(b))
  {
  }

  lemma HighSum(a: bv16, b: bv16, c: bv16)
    ensures High(Sum16(a, b, c)) == Sum8(High(a), High(b), High(c))
  {
    hide High, Xor8, Xor16;
    HighXor(Xor16(a, b), c);
    HighXor(a, b);
  }

  lemma SumShuffle(a: bv8, b: bv8, c: bv8, x: bv8, y: bv8, z: bv8)
    ensures Xor8(Sum8(a, b, c), Sum8(x, y, z)) == Sum8(Xor8(a, x), Xor8(b, y), Xor8(c, z))
  {
    hide Xor8;
    XorExchange(Xor8(a, b), c, Xor8(x, y), z);
    XorExchange(a, b, x, y);
  }

  lemma MixSum(r: bv16, p: bv16, q: bv16, x: bv8, y: bv8, z: bv8)
    ensures Mix(Sum16(r, p, q), Sum8(x, y, z)) == Sum8(Mix(r, x), Mix(p, y), Mix(q, z))
  {
    hide High, Sum8, Sum16, Xor8;
    HighSum(r, p, q);
    SumShuffle(High(r), High(p), High(q), x, y, z);
  }

  lemma Shift8Sum(a: bv8, b: bv8, c: bv8)
    ensures Shift8(Sum8(a, b, c)) == Sum16(Shift8(a), Shift8(b), Shift8(c))
  {
    hide Shift8, Xor8, Xor16;
    Shift8Linear(Xor8(a, b), c);
    Shift8Linear(a, b);
  }

  lemma SeedSum()
    ensures Sum16(SEED, SEED, SEED) == SEED
  {
  }

  /** The checksum is affine under exclusive or of three buffers of the same length. */
  lemma {:induction false} Affine(a: seq<bv8>, b: seq<bv8>, c: seq<bv8>)
    requires |a| == |b| == |c|
    ensures Crc(Sum(a, b, c)) == Sum16(Crc(a), Crc(b), Crc(c))
    decreases |a|
  {
    hide Shift8, Mix, Sum8, Sum16;
    if a == [] {
      SeedSum();
    } else {
      var n := |a| - 1;
      var front := Sum(a[..n], b[..n], c[..n]);
      assert Sum(a, b, c)[..n] == front;
      Affine(a[..n], b[..n], c[..n]);
      MixSum(Crc(a[..n]), Crc(b[..n]), Crc(c[..n]), a[n], b[n], c[n]);
      Shift8Sum(Mix(Crc(a[..n]), a[n]), Mix(Crc(b[..n]), b[n]), Mix(Crc(c[..n]), c[n]));
    }
  }

  // ----- The calibration record -----

  /** The record `calib_adc_value` sends to the controller: sixteen bytes and their checksum. */
  datatype Record = Record(data: seq<bv8>, crc: bv16)

  /** As `calib_adc_value` and the other branch of `restore_adc_value` fill it in. */
  function Sealed(data: seq<bv8>): Record {
    Record(data, Crc(data))
  }

  /** The test of `restore_adc_value` on the record it has read back. */
  method Restore(r: Record) returns (data: seq<bv8>, ok: bool)
    ensures ok <==> r == Sealed(r.data)
    ensures data == if ok then r.data else []
  {
    var crc := Crc16(r.data);
    if crc != r.crc {
      return [], false;
    }
    return r.data, true;
  }

  /** A record with one corrupted data byte is rejected, whichever byte and whatever the value. */
  lemma CorruptionRejected(data: seq<bv8>, i: nat, x: bv8)
    requires i < |data| && x != data[i]
    ensures Sealed(data).(data := data[i := x]) != Sealed(data[i := x])
  {
    OneByteDetected(data, i, x);
  }
}
