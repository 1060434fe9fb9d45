// One 8x8 block of a baseline JPEG scan (ITU-T T.81 section F.2.2): what its bits mean, the table that decodes small AC
// coefficients at once, and `stbi__jpeg_decode_block`.

module JpegBlock {
  import opened BitStream
  import opened Huffman
  import opened JpegHuffman
  import opened JpegBits
  import opened Wrappers

  type index = k: int | 0 <= k < 64

  // Where the coefficient at a position of the zigzag stream stands in the block; positions past the end stand for 63.
  const DEZIGZAG: seq<seq<index>> := [
    [0, 1, 8, 16, 9, 2, 3, 10],
    [17, 24, 32, 25, 18, 11, 4, 5],
    [12, 19, 26, 33, 40, 48, 41, 34],
    [27, 20, 13, 6, 7, 14, 21, 28],
    [35, 42, 49, 56, 57, 50, 43, 36],
    [29, 22, 15, 23, 30, 37, 44, 51],
    [58, 59, 52, 45, 38, 31, 39, 46],
    [53, 60, 61, 54, 47, 55, 62, 63],
    [63, 63, 63, 63, 63, 63, 63, 63],
    [63, 63, 63, 63, 63, 63, 63]]

  function Dezigzag(k: nat): index
    requires k < 79
  {
    DEZIGZAG[k / 8][k % 8]
  }

  // `b` comes after `a` on the walk along the diagonals, up and down by turns, turning at the edges.
  predicate Follows(a: index, b: index) {
    var y, x := a / 8, a % 8;
    b == if (y + x) % 2 == 0 then if x == 7 then 8 * (y + 1) + x else if y == 0 then 8 * y + x + 1 else 8 * (y - 1) + x + 1
         else if y == 7 then 8 * y + x + 1 else if x == 0 then 8 * (y + 1) + x else 8 * (y + 1) + x - 1
  }

  // The stream goes that way from the top left corner.
  lemma ZigzagWalk(k: nat)
    requires k < 63
    ensures Dezigzag(0) == 0 && Follows(Dezigzag(k), Dezigzag(k + 1))
  {
    hide *;
    if k < 21 { WalkTop(k); } else if k < 42 { WalkMiddle(k); } else { WalkBottom(k); }
    WalkTop(0);
  }

  lemma WalkTop(k: nat)
    requires k < 21
    ensures Dezigzag(0) == 0 && Follows(Dezigzag(k), Dezigzag(k + 1))
  {
  }

  lemma WalkMiddle(k: nat)
    requires 21 <= k < 42
    ensures Follows(Dezigzag(k), Dezigzag(k + 1))
  {
  }

  lemma WalkBottom(k: nat)
    requires 42 <= k < 63
    ensures Follows(Dezigzag(k), Dezigzag(k + 1))
  {
  }

  // Conversion to `short`.
  function ToShort(v: int): int { (v + 0x8000) % 0x10000 - 0x8000 }

  // Dequantising with ones changes nothing.
  function Ones(): (q: seq<nat>)
    ensures |q| == 64
  {
    seq(64, i => 1)
  }

  // ----- what the bits of a block mean

  // A Huffman code: the lengths of its codewords, and what each stands for.
  datatype Code = Code(lens: seq<nat>, values: seq<byte>)

  ghost predicate IsCode(c: Code) { |c.lens| <= 256 && |c.values| == 256 }

  // Coefficients in natural order, the first bit after them, and the DC value, undequantised; or the bit at which the
  // data is found to stand for no block.
  datatype Block = Block(coefs: seq<int>, pos: nat, dc: int) | Corrupt(pos: nat)

  // The AC coefficients from position `k` of the zigzag stream on.
  ghost function Ac(c: Code, q: seq<nat>, s: seq<bool>, p: nat, k: nat, acc: seq<int>, dc: int): (r: Block)
    requires IsCode(c) && |q| == 64 && |acc| == 64 && 1 <= k < 64
    ensures r.pos >= p && (r.Block? ==> |r.coefs| == 64)
    decreases 80 - k, 2
  {
    match Read(c.lens, s, p)
    case None => Corrupt(p)
    case Some(g) => AcWith(c, q, s, p + g.bits, k, acc, dc, c.values[g.index])
  }

  // ... of which the first symbol was `rs`: a run of zeros and the size of the coefficient after it.
  ghost function AcWith(c: Code, q: seq<nat>, s: seq<bool>, p: nat, k: nat, acc: seq<int>, dc: int, rs: byte): (r: Block)
    requires IsCode(c) && |q| == 64 && |acc| == 64 && 1 <= k < 64
    ensures r.pos >= p + rs as int % 16 && (r.Block? ==> |r.coefs| == 64)
    decreases 80 - k, 1
  {
    var size, run := rs as int % 16, rs as int / 16;
    if size == 0 then
      if rs != 0xF0 then Block(acc, p, dc) else AcFrom(c, q, s, p, k + 16, acc, dc)
    else AcPut(c, q, s, p + size, k + run, acc, dc, Extend(Value(s, p, size), size))
  }

  ghost function AcPut(c: Code, q: seq<nat>, s: seq<bool>, p: nat, k: nat, acc: seq<int>, dc: int, v: int): (r: Block)
    requires IsCode(c) && |q| == 64 && |acc| == 64 && 1 <= k < 79
    ensures r.pos >= p && (r.Block? ==> |r.coefs| == 64)
    decreases 80 - k, 0
  {
    AcFrom(c, q, s, p, k + 1, acc[Dezigzag(k) := ToShort(v * q[Dezigzag(k)])], dc)
  }

  ghost function AcFrom(c: Code, q: seq<nat>, s: seq<bool>, p: nat, k: nat, acc: seq<int>, dc: int): (r: Block)
    requires IsCode(c) && |q| == 64 && |acc| == 64 && 1 <= k <= 79
    ensures r.pos >= p && (r.Block? ==> |r.coefs| == 64)
    decreases 80 - k, 3
  {
    if k < 64 then Ac(c, q, s, p, k, acc, dc) else Block(acc, p, dc)
  }

  // `stbi__addints_valid`
  predicate AddIntsValid(a: int, b: int) {
    if (a >= 0) != (b >= 0) then true else if a < 0 && b < 0 then a >= -0x8000_0000 - b else a <= 0x7FFF_FFFF - b
  }

  // It tells whether the sum is an `int`.
  lemma AddIntsExact(a: int, b: int)
    requires -0x8000_0000 <= a <= 0x7FFF_FFFF && -0x8000_0000 <= b <= 0x7FFF_FFFF
    ensures AddIntsValid(a, b) <==> -0x8000_0000 <= a + b <= 0x7FFF_FFFF
  {
  }

  // `stbi__mul2shorts_valid`, which takes its arguments as shorts.
  predicate Mul2ShortsValid(x: int, y: int) {
    var a, b := ToShort(x), ToShort(y);
    if b == 0 || b == -1 then true
    else if (a >= 0) == (b >= 0) then a <= Quotient(0x7FFF, b)
    else if b < 0 then a <= Quotient(-0x8000, b)
    else a >= Quotient(-0x8000, b)
  }

  predicate IsShort(v: int) { -0x8000 <= v <= 0x7FFF }

  // What the test says of two shorts, by their signs.
  predicate Passes(a: int, b: int) {
    if b == 0 || b == -1 then true
    else if b > 0 then (if a >= 0 then a <= 0x7FFF / b else -a <= 0x8000 / b)
    else if a >= 0 then a <= 0x8000 / -b
    else -a >= 0x7FFF / -b
  }

  // Two negative factors are judged the wrong way round: right only where both ways agree.
  predicate Misjudged(a: int, b: int) {
    a < 0 && b < 0 && if b == -1 then a == -0x8000 else -a != 0x7FFF / -b
  }

  // The test is exact unless both factors are negative and the first is not the quotient itself: -1 times -1 and -16383
  // times -2 are judged rightly, -1 times -2 is refused although it fits, -16384 times -2 passes although it does not.
  lemma Mul2ShortsExact(a: int, b: int)
    requires IsShort(a) && IsShort(b)
    ensures (Mul2ShortsValid(a, b) <==> IsShort(a * b)) <==> !Misjudged(a, b)
    ensures !Misjudged(-1, -1) && !Misjudged(-16383, -2)
    ensures !Mul2ShortsValid(-1, -2) && Mul2ShortsValid(-16384, -2)
  {
    TestIs(a, b);
    TestIs(-1, -2);
    TestIs(-16384, -2);
    if b != 0 { ProductFits(a, b); }
    hide Mul2ShortsValid;
    if a < 0 && b == -1 { assert a * b == -a; }
  }

  // The test, by the signs of its arguments.
  lemma TestIs(a: int, b: int)
    requires IsShort(a) && IsShort(b)
    ensures Mul2ShortsValid(a, b) <==> Passes(a, b)
  {
    ShortStays(a);
    ShortStays(b);
    hide ToShort;
    if b < -1 {
      NegativeQuotient(0x7FFF, -b);
      NegativeQuotient(0x8000, -b);
    }
  }

  // When the product is a short.
  lemma ProductFits(a: int, b: int)
    requires IsShort(a) && IsShort(b) && b != 0
    ensures IsShort(a * b) <==>
      if b > 0 then (if a >= 0 then a <= 0x7FFF / b else -a <= 0x8000 / b)
      else if a >= 0 then a <= 0x8000 / -b
      else -a <= 0x7FFF / -b
  {
    var m, n := Abs(a), Abs(b);
    MulNonNegative(m, n);
    QuotientBound(0x7FFF, m, n);
    QuotientBound(0x8000, m, n);
    Signs(a, b);
  }

  lemma Signs(a: int, b: int)
    ensures a * b == if (a >= 0) == (b >= 0) then Abs(a) * Abs(b) else -(Abs(a) * Abs(b))
  {
  }

  // The caller passes the `int` it has added up and a 16-bit unsigned dequantiser, and the test takes both as shorts. It is
  // wrong of a value beyond a short whose low bits pass, and of dequantisers from 0x8000 on, which look negative.
  predicate DequantiserMisjudged(dc: int, q: nat)
    requires q < 0x1_0000
  {
    if q == 0 then false
    else if !IsShort(dc) then Passes(ToShort(dc), ToShort(q))
    else if q < 0x8000 then false
    else if q == 0xFFFF then dc != 0
    else if dc >= 0 then 1 <= dc <= 0x8000 / (0x1_0000 - q)
    else if q == 0x8000 then dc < -1
    else -dc >= 0x7FFF / (0x1_0000 - q)
  }

  // The test and the product at every value and every dequantiser.
  lemma DequantiserExact(dc: int, q: nat)
    requires q < 0x1_0000
    ensures (Mul2ShortsValid(dc, q) <==> IsShort(dc * q)) <==> !DequantiserMisjudged(dc, q)
  {
    PassesIs(dc, q);
    FitsShort(dc, q);
    if q >= 0x8000 { ToShortHigh(q); }
    if IsShort(dc) { ShortStays(dc); }
    if q < 0x8000 {
      ShortStays(q);
      if IsShort(dc) { Mul2ShortsExact(dc, q); }
    }
    hide Mul2ShortsValid, ToShort, Misjudged;
  }

  lemma ToShortHigh(q: nat)
    requires 0x8000 <= q < 0x1_0000
    ensures ToShort(q) == q - 0x1_0000
  {
  }

  lemma PassesIs(x: int, y: int)
    ensures Mul2ShortsValid(x, y) <==> Passes(ToShort(x), ToShort(y))
  {
    var a, b := ToShort(x), ToShort(y);
    ShortStays(a);
    ShortStays(b);
    TestIs(a, b);
  }

  // When the product is a short.
  lemma FitsShort(dc: int, q: nat)
    requires q < 0x1_0000
    ensures !IsShort(dc) && q > 0 ==> !IsShort(dc * q)
    ensures IsShort(dc) && q >= 0x8000 ==> (IsShort(dc * q) <==> dc == 0 || (dc == -1 && q == 0x8000))
    ensures q == 0 ==> IsShort(dc * q)
  {
    if q > 0 && dc > 0 {
      MulGrows(q, dc);
      MulGrows(dc, q);
    } else if q > 0 && dc < 0 {
      MulGrows(q, -dc);
      MulGrows(-dc, q);
      Signs(dc, q);
      if dc < -1 {
        MulGrows(-dc - 1, q);
        Distribute(-dc - 1, 1, q);
      }
    }
  }

  // Two differences of 32767 in a row add up to 65534, which passes as -2: with the dequantiser 1 the first block's DC
  // coefficient is right and the second one's is -2.
  lemma DequantiserWraps(c: Code, q: seq<nat>, s: seq<bool>, p: nat)
    requires IsCode(c) && |q| == 64 && q[0] == 1
    ensures Extend(0x7FFF, 15) == 0x7FFF && DequantiserMisjudged(0xFFFE, 1)
    ensures WithDiff(c, q, s, p, 0, 0x7FFF) == Ac(c, q, s, p, 1, Zeros()[0 := 0x7FFF], 0x7FFF)
    ensures WithDiff(c, q, s, p, 0x7FFF, 0x7FFF) == Ac(c, q, s, p, 1, Zeros()[0 := -2], 0xFFFE)
  {
    hide Ac;
    Pow2Small();
    PassesIs(0x7FFF, 1);
    PassesIs(0xFFFE, 1);
    assert ToShort(0x7FFF) == 0x7FFF && ToShort(0xFFFE) == -2 && ToShort(1) == 1;
    hide Mul2ShortsValid;
    assert Pow2(14) == 16384;
  }

  lemma ShortStays(a: int)
    requires IsShort(a)
    ensures ToShort(a) == a
  {
  }

  lemma NegativeQuotient(n: int, d: int)
    requires n >= 0 && d > 0
    ensures n / -d == -(n / d)
  {
    var q, r := n / d, n % d;
    assert n == (-d) * (-q) + r;
  }

  lemma QuotientBound(n: nat, a: nat, b: nat)
    requires b > 0
    ensures a <= n / b <==> a * b <= n
  {
    var q, r := n / b, n % b;
    assert n == q * b + r;
    if a <= q { Distribute(a, q - a, b); MulNonNegative(q - a, b); }
    if a > q { Distribute(q + 1, a - q - 1, b); Distribute(q, 1, b); MulNonNegative(a - q - 1, b); }
  }

  function Zeros(): (z: seq<int>)
    ensures |z| == 64
  {
    seq(64, i => 0)
  }

  // The block with the DC difference `diff`, whose AC coefficients start at `p`.
  ghost function WithDiff(c: Code, q: seq<nat>, s: seq<bool>, p: nat, pred: int, diff: int): (r: Block)
    requires IsCode(c) && |q| == 64
    ensures r.pos >= p && (r.Block? ==> |r.coefs| == 64)
  {
    var dc := pred + diff;
    if AddIntsValid(pred, diff) && Mul2ShortsValid(dc, q[0]) then Ac(c, q, s, p, 1, Zeros()[0 := ToShort(dc * q[0])], dc)
    else Corrupt(p)
  }

  // The block that starts at bit `p`, after one whose DC value was `pred`.
  ghost function BlockAt(d: Code, c: Code, q: seq<nat>, s: seq<bool>, p: nat, pred: int): (r: Block)
    requires IsCode(d) && IsCode(c) && |q| == 64
    ensures r.pos >= p && (r.Block? ==> |r.coefs| == 64)
  {
    match Read(d.lens, s, p)
    case None => Corrupt(p)
    case Some(g) =>
      var t, p1 := d.values[g.index], p + g.bits;
      if t > 15 then Corrupt(p1) else WithDiff(c, q, s, p1 + t, pred, if t == 0 then 0 else Extend(Value(s, p1, t), t))
  }

  // ----- stbi__build_fast_ac

  // The nine bits `i` begin with symbol `n`'s codeword, and all the bits of its coefficient follow; 255 is the flag.
  ghost predicate FastFits(c: Code, n: nat, i: nat)
    requires IsCode(c)
  {
    n < |c.lens| && n < 255 && Hit(c.lens, n, i) &&
    var mag := c.values[n] as int % 16;
    mag > 0 && c.lens[n] + mag <= 9 && -128 <= FastValue(c.lens[n], mag, i) <= 127
  }

  function Field(i: nat, len: nat, mag: nat): nat
    requires mag <= 9
  {
    Div(i * Pow2(len) % 512, Pow2(9 - mag))
  }

  function FastValue(len: nat, mag: nat, i: nat): int
    requires 0 < mag <= 9
  {
    Extend(Field(i, len, mag), mag)
  }

  ghost function FastCode(c: Code, n: nat, i: nat): int
    requires IsCode(c) && FastFits(c, n, i)
  {
    var mag, run := c.values[n] as int % 16, c.values[n] as int / 16;
    FastValue(c.lens[n], mag, i) * 256 + run * 16 + (c.lens[n] + mag)
  }

  ghost predicate FastAcOk(c: Code, i: nat, r: int)
    requires IsCode(c)
  {
    r == 0 || exists n: nat :: FastFits(c, n, i) && r == FastCode(c, n, i)
  }

  // Every entry that can be made is made, and says what the bits say.
  method BuildFastAc(h: StbiHuffman, ghost c: Code) returns (fac: array<int>)
    requires h.Valid() && IsCode(c) && h.Tables(c.lens) && h.values[..] == c.values
    ensures fac.Length == 512 && fresh(fac)
    ensures forall i :: 0 <= i < 512 ==> FastAcOk(c, i, fac[i])
    ensures forall i, n: nat :: 0 <= i < 512 && FastFits(c, n, i) ==> fac[i] == FastCode(c, n, i)
  {
    hide FastFits, FastAcOk, StbiHuffman.Tables;
    fac := new int[512];
    for i := 0 to 512
      invariant forall k :: 0 <= k < i ==> FastAcOk(c, k, fac[k])
      invariant forall k, n: nat :: 0 <= k < i && FastFits(c, n, k) ==> fac[k] == FastCode(c, n, k)
    {
      fac[i] := FastAcEntry(h, c, i);
    }
  }

  method FastAcEntry(h: StbiHuffman, ghost c: Code, i: nat) returns (r: int)
    requires h.Valid() && IsCode(c) && h.Tables(c.lens) && h.values[..] == c.values && i < 512
    ensures FastAcOk(c, i, r) && forall n: nat :: FastFits(c, n, i) ==> r == FastCode(c, n, i)
  {
    EntryOf(h, c, i);
    hide StbiHuffman.Tables, FastValue, Shl, BitAnd, Shr, Pow2, FastFits, FastCode, FastAcOk;
    var fast := h.fast[i];
    r := 0;
    if fast < 255 {
      var rs := h.values[fast] as int;
      var run, magbits, len := rs / 16 % 16, rs % 16, h.size[fast];
      FitsBy(c, fast, i);
      if magbits > 0 && len + magbits <= FAST_BITS {
        ValueBy(i, len, magbits);
        var k: int := Shr(BitAnd(Shl(i, len), 511), FAST_BITS - magbits);
        if k < Shl(1, magbits - 1) { k := k + 1 - Pow2(magbits); }
        if -128 <= k <= 127 { r := k * 256 + run * 16 + (len + magbits); }
      }
    }
    AcOkBy(c, i, fast, r);
  }

  lemma EntryOf(h: StbiHuffman, c: Code, i: nat)
    requires h.Valid() && IsCode(c) && h.Tables(c.lens) && h.values[..] == c.values && i < 512
    ensures var e := h.fast[i];
      (e < 255 ==> e < |c.lens| && Hit(c.lens, e, i) && h.size[e] == c.lens[e] && h.values[e] == c.values[e]) &&
      forall n: nat :: FastFits(c, n, i) ==> n == e as int
  {
    var e := h.fast[i];
    assert FastOk(c.lens, |c.lens|, i, e);
    hide Hit, FastFits;
    forall n: nat | FastFits(c, n, i)
      ensures n == e as int
    {
      FitsEntry(c, n, i, e);
    }
  }

  lemma FitsBy(c: Code, n: nat, i: nat)
    requires IsCode(c) && n < |c.lens| && n < 255 && Hit(c.lens, n, i)
    ensures var rs, len := c.values[n] as int, c.lens[n];
      var mag := rs % 16;
      (FastFits(c, n, i) <==> mag > 0 && len + mag <= 9 && -128 <= FastValue(len, mag, i) <= 127) &&
      (FastFits(c, n, i) ==> FastCode(c, n, i) == FastValue(len, mag, i) * 256 + rs / 16 % 16 * 16 + (len + mag))
  {
    hide FastValue, Hit;
  }

  lemma AcOkBy(c: Code, i: nat, e: nat, r: int)
    requires IsCode(c) && forall n: nat :: FastFits(c, n, i) ==> n == e
    requires if FastFits(c, e, i) then r == FastCode(c, e, i) else r == 0
    ensures FastAcOk(c, i, r) && forall n: nat :: FastFits(c, n, i) ==> r == FastCode(c, n, i)
  {
    hide FastFits, FastCode;
  }

  lemma ValueBy(i: nat, len: nat, mag: nat)
    requires 0 < mag <= 9
    ensures var k := Shr(BitAnd(Shl(i, len), 511), 9 - mag);
      FastValue(len, mag, i) == if k < Shl(1, mag - 1) then k + 1 - Pow2(mag) else k
  {
    FieldIs(i, len, mag);
  }

  // Only the symbol of the look-up table fits.
  lemma FitsEntry(c: Code, n: nat, i: nat, e: byte)
    requires IsCode(c) && Realizable(c.lens) && i < 512 && FastOk(c.lens, |c.lens|, i, e) && FastFits(c, n, i)
    ensures n == e as int
  {
    var s := MsbBits(i, 9);
    Pow2Small();
    MsbOf(i, 9);
    WindowInside(s, 0, 9);
    assert s[0..9] == s;
    assert Value(s, 0, 9) == i;
    hide Value, MsbBits, Realizable, Matches, Hit;
    HitIsMatch(c.lens, s, 0, n);
    var m: nat :| m < |c.lens| && Hit(c.lens, m, i) && e as int == m;
    HitIsMatch(c.lens, s, 0, m);
    MatchUnique(c.lens, s, 0, n, m);
  }

  lemma FieldIs(i: nat, len: nat, mag: nat)
    requires mag <= 9
    ensures Shr(BitAnd(Shl(i, len), 511), 9 - mag) == Field(i, len, mag)
  {
    Pow2Small();
    AndMask(Shl(i, len), 9);
  }

  lemma {:induction false} FastSymbol(c: Code, s: seq<bool>, p: nat, r: int) returns (n: nat)
    requires IsCode(c) && Realizable(c.lens) && r != 0 && FastAcOk(c, Value(s, p, 9), r)
    ensures n < |c.lens| && Read(c.lens, s, p) == Some(Got(n, c.lens[n]))
    ensures var mag, len := c.values[n] as int % 16, c.lens[n];
      mag > 0 && r % 16 == len + mag && r / 16 % 16 == c.values[n] as int / 16 &&
      r / 256 == Extend(Value(s, p + len, mag), mag)
  {
    hide *;
    var i := Value(s, p, 9);
    n := MadeFor(c, i, r);
    var rs, len := c.values[n] as int, c.lens[n];
    HitIsMatch(c.lens, s, p, n);
    ReadShort(c.lens, s, p, n);
    FieldValue(s, p, len, rs % 16);
    Unpack(FastValue(len, rs % 16, i), rs / 16, len + rs % 16);
  }

  // The symbol an entry was made for.
  lemma MadeFor(c: Code, i: nat, r: int) returns (n: nat)
    requires IsCode(c) && r != 0 && FastAcOk(c, i, r)
    ensures n < |c.lens| <= 256 && |c.values| == 256 && n < 255 && Hit(c.lens, n, i)
    ensures var rs, len := c.values[n] as int, c.lens[n];
      0 < rs % 16 && 0 < len && len + rs % 16 <= 9 &&
      FastValue(len, rs % 16, i) == Extend(Field(i, len, rs % 16), rs % 16) &&
      r == FastValue(len, rs % 16, i) * 256 + rs / 16 * 16 + (len + rs % 16)
  {
    n :| FastFits(c, n, i) && r == FastCode(c, n, i);
  }

  // What one look into the table says is what decoding the symbol and then receiving its coefficient would.
  lemma FastRefines(c: Code, q: seq<nat>, s: seq<bool>, p: nat, k: nat, acc: seq<int>, dc: int, r: int)
    requires IsCode(c) && Realizable(c.lens) && |q| == 64 && |acc| == 64 && 1 <= k < 64
    requires r != 0 && FastAcOk(c, Value(s, p, 9), r)
    ensures var n, run := r % 16, r / 16 % 16;
      Ac(c, q, s, p, k, acc, dc) == AcPut(c, q, s, p + n, k + run, acc, dc, r / 256)
  {
    hide AcPut, AcFrom, Read, Value, Extend, FastAcOk, Realizable;
    var n := FastSymbol(c, s, p, r);
  }

  lemma Unpack(v: int, run: nat, n: nat)
    requires run < 16 && n < 16
    ensures var r := v * 256 + run * 16 + n; r / 256 == v && r / 16 % 16 == run && r % 16 == n
  {
    var r := v * 256 + run * 16 + n;
    assert r / 16 == v * 16 + run;
  }

  // The field of the nine bits is the next bits of the stream.
  lemma FieldValue(s: seq<bool>, p: nat, len: nat, mag: nat)
    requires len + mag <= 9
    ensures Field(Value(s, p, 9), len, mag) == Value(s, p + len, mag)
  {
    hide *;
    var x := 9 - len - mag;
    ValueConcat(s, p, len, 9 - len);
    ValueConcat(s, p + len, mag, x);
    var a, f, rest := Value(s, p, len), Value(s, p + len, mag), Value(s, p + len + mag, x);
    FieldAt(Value(s, p, 9), len, mag);
    MiddleField(a, Pow2(9 - len), f, Pow2(x), rest, Pow2(len));
  }

  lemma FieldAt(v: nat, len: nat, mag: nat)
    requires len + mag <= 9
    ensures Pow2(9 - len - mag) * Pow2(len) == Pow2(9 - mag) && Pow2(9 - len) * Pow2(len) == 512
    ensures Field(v, len, mag) == Div(v * Pow2(len) % 512, Pow2(9 - len - mag) * Pow2(len))
  {
    Pow2Add(9 - len - mag, len);
    Pow2Add(9 - len, len);
    Pow2Small();
  }

  lemma MiddleField(a: nat, w: nat, f: nat, q: nat, rest: nat, m: nat)
    requires f * q + rest < w && rest < q && m > 0 && w * m == 512
    ensures Div((a * w + (f * q + rest)) * m % 512, q * m) == f
  {
    ShiftOut(a, w, f * q + rest, m);
    ShiftUp(f, q, rest, m);
  }

  lemma ShiftUp(f: nat, q: nat, r: nat, m: nat)
    requires r < q && m > 0
    ensures q * m > 0 && Div((f * q + r) * m, q * m) == f
  {
    assert (f * q + r) * m == f * (q * m) + r * m;
    assert r * m < q * m by { MulGrows(q - r, m); Distribute(q - r, r, m); }
    DivModUnique((f * q + r) * m, q * m, f, r * m);
  }

  // ----- stbi__jpeg_decode_block

  datatype Step = Failed | Ended | More

  // What a step of the AC loop has to do with the rest of the block.
  ghost predicate Stepped(st: Step, was: Block, c: Code, q: seq<nat>, s: seq<bool>, p: nat, k: nat, acc: seq<int>, dc: int)
    requires IsCode(c) && |q| == 64 && |acc| == 64
  {
    match st
    case Failed => was.Corrupt?
    case Ended => was == Block(acc, p, dc)
    case More => 1 <= k <= 79 && was == AcFrom(c, q, s, p, k, acc, dc)
  }

  ghost predicate Decoder(j: BitReader, h: StbiHuffman, c: Code)
    reads j, j.s, h.fast, h.code, h.values, h.size, h.maxcode, h.delta
  {
    j.Valid() && h.Valid() && IsCode(c) && h.Tables(c.lens) && h.values[..] == c.values
  }

  // The outcome of a step that started at bit `p`: exact, unless the data ended before the bits it asked for.
  ghost predicate Outcome(exact: bool, st: Step, was: Block, j: BitReader, k: nat, data: array<int>, c: Code,
      q: seq<nat>, dc: int)
    requires IsCode(c) && |q| == 64 && data.Length == 64
    reads j, data
  {
    if exact then Stepped(st, was, c, q, j.Stream(), j.pos, k, data[..], dc)
    else was.pos > 8 * |j.data|
  }

  // A coefficient from the combined table.
  method FastStep(j: BitReader, data: array<int>, r: int, k0: nat, q: seq<nat>, ghost c: Code, ghost dc: int)
    returns (st: Step, k: nat, ghost exact: bool)
    requires j.Valid() && j.Ready() && IsCode(c) && Realizable(c.lens) && data.Length == 64 && |q| == 64 && 1 <= k0 < 64
    requires r != 0 && FastAcOk(c, Value(j.Stream(), j.pos, 9), r)
    modifies j, data
    ensures j.data == old(j.data) && (st != Failed ==> j.Valid()) && (st == More ==> k0 < k <= 79)
    ensures Outcome(exact, st, Ac(c, q, j.Stream(), old(j.pos), k0, old(data[..]), dc), j, k, data, c, q, dc)
  {
    hide Ac, AcFrom, Read, Value, DataBits, FastAcOk, Extend, ToShort, Realizable, Buffer, Dezigzag;
    FastRefines(c, q, j.Stream(), j.pos, k0, data[..], dc, r);
    k := k0 + r / 16 % 16;
    var s := r % 16;
    if s > j.codeBits { return Failed, k, false; }
    j.Take(s);
    Put(data, k, r / 256, q);
    k := k + 1;
    st, exact := More, true;
  }

  lemma AcByRead(c: Code, q: seq<nat>, s: seq<bool>, p: nat, k: nat, acc: seq<int>, dc: int)
    requires IsCode(c) && |q| == 64 && |acc| == 64 && 1 <= k < 64
    ensures var r := Ac(c, q, s, p, k, acc, dc);
      match Read(c.lens, s, p)
      case None => r == Corrupt(p)
      case Some(g) =>
        var p1, size, run := p + g.bits, c.values[g.index] as int % 16, c.values[g.index] as int / 16;
        r.pos >= p1 + size &&
        if c.values[g.index] == 0xF0 then r == AcFrom(c, q, s, p1, k + 16, acc, dc)
        else if size == 0 then r == Block(acc, p1, dc)
        else r == AcPut(c, q, s, p1 + size, k + run, acc, dc, Extend(Value(s, p1, size), size))
  {
    hide AcFrom, AcPut, Read, Value, Extend;
  }

  lemma PutIs(c: Code, q: seq<nat>, s: seq<bool>, p: nat, k: nat, acc: seq<int>, dc: int, v: int)
    requires IsCode(c) && |q| == 64 && |acc| == 64 && 1 <= k < 79
    ensures AcPut(c, q, s, p, k, acc, dc, v) == AcFrom(c, q, s, p, k + 1, acc[Dezigzag(k) := ToShort(v * q[Dezigzag(k)])], dc)
  {
    hide AcFrom, ToShort, Dezigzag;
  }

  // A coefficient from a Huffman symbol and the bits after it.
  method SlowStep(j: BitReader, data: array<int>, h: StbiHuffman, k0: nat, q: seq<nat>, ghost c: Code, ghost dc: int)
    returns (st: Step, k: nat, ghost exact: bool)
    requires Decoder(j, h, c) && data.Length == 64 && data != h.delta && |q| == 64 && 1 <= k0 < 64
    modifies j, j.s, data
    ensures j.data == old(j.data) && (st != Failed ==> j.Valid()) && (st == More ==> k0 < k <= 79)
    ensures Outcome(exact, st, Ac(c, q, j.Stream(), old(j.pos), k0, old(data[..]), dc), j, k, data, c, q, dc)
  {
    hide Ac, AcPut, AcFrom, Read, Value, DataBits, Extend, ToShort, Buffer, StbiHuffman.Tables, BitReader.Valid, Dezigzag;
    k := k0;
    exact := true;
    ghost var s0, p0 := j.Stream(), j.pos;
    AcByRead(c, q, s0, p0, k0, data[..], dc);
    var rs := j.HuffDecode(h, c.lens);
    if rs < 0 {
      exact := Read(c.lens, s0, p0) == None;
      return Failed, k, exact;
    }
    var s, r := rs % 16, rs / 16;
    if s == 0 {
      if rs != 0xF0 { return Ended, k, exact; }
      k := k + 16;
      st := More;
    } else {
      k := k + r;
      ghost var p := j.pos;
      var v;
      v, exact := ReceiveCoefficient(j, s);
      PutIs(c, q, s0, p + s, k, data[..], dc, Extend(Value(s0, p, s), s));
      Put(data, k, v, q);
      k := k + 1;
      st := More;
    }
  }

  method ReceiveCoefficient(j: BitReader, n: nat) returns (v: int, ghost complete: bool)
    requires j.Valid() && 1 <= n <= 15
    modifies j, j.s
    ensures j.Valid() && j.data == old(j.data)
    ensures if complete then j.pos == old(j.pos) + n && v == Extend(Value(j.Stream(), old(j.pos), n), n)
            else old(j.pos) + n > 8 * |j.data|
  {
    v := j.ExtendReceive(n);
    complete := j.pos == old(j.pos) + n;
  }

  // One turn of the AC loop, with or without entries in the combined table.
  method AcStep(j: BitReader, data: array<int>, h: StbiHuffman, fac: array<int>, k0: nat, q: seq<nat>, ghost c: Code,
      ghost dc: int)
    returns (st: Step, k: nat, ghost exact: bool)
    requires Decoder(j, h, c) && data.Length == 64 && fac.Length == 512 && |q| == 64 && 1 <= k0 < 64
    requires data != fac && data != h.delta && forall i :: 0 <= i < 512 ==> FastAcOk(c, i, fac[i])
    modifies j, j.s, data
    ensures j.data == old(j.data) && (st != Failed ==> j.Valid()) && (st == More ==> k0 < k <= 79)
    ensures Outcome(exact, st, Ac(c, q, j.Stream(), old(j.pos), k0, old(data[..]), dc), j, k, data, c, q, dc)
  {
    hide Ac, Value, DataBits, FastAcOk, Buffer, Outcome;
    if j.codeBits < 16 { j.Grow(); }
    var i := j.Peek(9);
    Pow2Small();
    var r := fac[i];
    if r != 0 {
      st, k, exact := FastStep(j, data, r, k0, q, c, dc);
    } else {
      st, k, exact := SlowStep(j, data, h, k0, q, c, dc);
    }
  }

  // Stores a coefficient where it belongs.
  method Put(data: array<int>, k: nat, v: int, q: seq<nat>)
    requires data.Length == 64 && |q| == 64 && k < 79
    modifies data
    ensures data[..] == old(data[..])[Dezigzag(k) := ToShort(v * q[Dezigzag(k)])]
  {
    var zig := Dezigzag(k);
    data[zig] := ToShort(v * q[zig]);
  }

  lemma BlockByRead(d: Code, c: Code, q: seq<nat>, s: seq<bool>, p: nat, pred: int)
    requires IsCode(d) && IsCode(c) && |q| == 64
    ensures var r := BlockAt(d, c, q, s, p, pred);
      match Read(d.lens, s, p)
      case None => r == Corrupt(p)
      case Some(g) =>
        var t, p1 := d.values[g.index], p + g.bits;
        r.pos >= p1 + (if t > 15 then 0 else t) &&
        if t > 15 then r == Corrupt(p1)
        else r == WithDiff(c, q, s, p1 + t, pred, if t == 0 then 0 else Extend(Value(s, p1, t), t))
  {
    hide WithDiff, Read, Value, Extend;
  }

  // The DC difference.
  method DecodeDiff(j: BitReader, h: StbiHuffman, ghost d: Code) returns (ok: bool, diff: int, ghost exact: bool, ghost g: Got)
    requires Decoder(j, h, d)
    modifies j, j.s
    ensures j.data == old(j.data) && (ok ==> j.Valid())
    ensures exact && ok ==> DiffAt(d, j.Stream(), old(j.pos), g, j.pos, diff)
    ensures exact && !ok ==> DiffBad(d, j.Stream(), old(j.pos))
    ensures !exact ==> DiffShort(d, j.Stream(), old(j.pos), 8 * |j.data|)
  {
    hide Read, Value, DataBits, Extend, Buffer, StbiHuffman.Tables, BitReader.Valid, BitReader.Rest;
    g, exact := Got(0, 0), true;
    var t := j.HuffDecode(h, d.lens);
    ghost var m := Read(d.lens, j.Stream(), old(j.pos));
    if t < 0 {
      exact := m == None;
      return false, 0, exact, g;
    }
    g := m.value;
    if t > 15 { return false, 0, exact, g; }
    ok, diff := true, 0;
    if t != 0 { diff, exact := ReceiveCoefficient(j, t); }
  }

  // A decoder's result against what the bits mean: the same, unless the data ended before the bits asked for.
  ghost predicate Agrees(b: Block, exact: bool, ok: bool, coefs: seq<int>, pos: nat, dc: int, end: nat) {
    if exact then (if ok then b == Block(coefs, pos, dc) else b.Corrupt?) else b.pos > end
  }

  method Clear(data: array<int>)
    requires data.Length == 64
    modifies data
    ensures data[..] == Zeros()
  {
    forall i | 0 <= i < 64 { data[i] := 0; }
  }

  // The block after its DC difference.
  method DecodeRest(j: BitReader, data: array<int>, h: StbiHuffman, fac: array<int>, pred: int, diff: int, q: seq<nat>,
      ghost c: Code)
    returns (ok: bool, dc: int, ghost exact: bool)
    requires Decoder(j, h, c) && data.Length == 64 && fac.Length == 512 && |q| == 64
    requires data != fac && data != h.delta && forall i :: 0 <= i < 512 ==> FastAcOk(c, i, fac[i])
    modifies j, j.s, data
    ensures j.data == old(j.data) && (ok ==> j.Valid())
    ensures Agrees(WithDiff(c, q, j.Stream(), old(j.pos), pred, diff), exact, ok, data[..], j.pos, dc, 8 * |j.data|)
  {
    hide DataBits, Buffer, StbiHuffman.Tables, FastAcOk, Ac, ToShort, WithDiff, Zeros, Mul2ShortsValid, AddIntsValid;
    Clear(data);
    DiffIs(c, q, j.Stream(), j.pos, pred, diff);
    dc, exact := pred + diff, true;
    ok := AddIntsValid(pred, diff) && Mul2ShortsValid(dc, q[0]);
    if !ok { return; }
    data[0] := ToShort(dc * q[0]);
    ok, exact := DecodeAcs(j, data, h, fac, q, c, dc);
  }

  // Decodes the block at the reader's bit exactly as its bits say, unless the data ends inside the block.
  method DecodeBlock(j: BitReader, data: array<int>, hdc: StbiHuffman, hac: StbiHuffman, fac: array<int>, pred: int,
      q: seq<nat>, ghost d: Code, ghost c: Code)
    returns (ok: bool, dc: int, ghost exact: bool)
    requires Decoder(j, hdc, d) && Decoder(j, hac, c) && data.Length == 64 && fac.Length == 512 && |q| == 64
    requires data != fac && data != hdc.delta && data != hac.delta
    requires forall i :: 0 <= i < 512 ==> FastAcOk(c, i, fac[i])
    modifies j, j.s, data
    ensures j.data == old(j.data) && (ok ==> j.Valid())
    ensures Agrees(BlockAt(d, c, q, j.Stream(), old(j.pos), pred), exact, ok, data[..], j.pos, dc, 8 * |j.data|)
  {
    hide Read, Value, DataBits, Extend, Buffer, StbiHuffman.Tables, FastAcOk, BlockAt, WithDiff, Agrees;
    ghost var s0, p0 := j.Stream(), j.pos;
    if j.codeBits < 16 { j.Grow(); }
    var diff;
    ghost var g;
    ok, diff, exact, g := DecodeDiff(j, hdc, d);
    dc := 0;
    if !ok {
      NoDiff(d, c, q, s0, p0, pred, exact, data[..], j.pos, 8 * |j.data|);
      return;
    }
    ghost var p1, whole := j.pos, false;
    ok, dc, whole := DecodeRest(j, data, hac, fac, pred, diff, q, c);
    AfterDiff(d, c, q, s0, p0, pred, exact, g, p1, diff, whole, ok, data[..], j.pos, dc, 8 * |j.data|);
    exact := exact && whole;
  }

  // The DC symbol comes next and stands for the difference `diff`; the AC coefficients start at bit `p1`.
  ghost predicate DiffAt(d: Code, s: seq<bool>, p: nat, g: Got, p1: nat, diff: int)
    requires IsCode(d)
  {
    Read(d.lens, s, p) == Some(g) && d.values[g.index] <= 15 &&
    (var t, q := d.values[g.index], p + g.bits; p1 == q + t && diff == if t == 0 then 0 else Extend(Value(s, q, t), t))
  }

  // Reading the DC difference runs past the data.
  ghost predicate DiffShort(d: Code, s: seq<bool>, p: nat, end: nat)
    requires IsCode(d)
  {
    var g := Read(d.lens, s, p);
    g.Some? && p + g.value.bits + (if d.values[g.value.index] > 15 then 0 else d.values[g.value.index]) > end
  }

  ghost predicate DiffBad(d: Code, s: seq<bool>, p: nat)
    requires IsCode(d)
  {
    var g := Read(d.lens, s, p); g == None || d.values[g.value.index] > 15
  }

  lemma NoDiff(d: Code, c: Code, q: seq<nat>, s: seq<bool>, p: nat, pred: int, exact: bool,
      coefs: seq<int>, pos: nat, end: nat)
    requires IsCode(d) && IsCode(c) && |q| == 64
    requires if exact then DiffBad(d, s, p) else DiffShort(d, s, p, end)
    ensures Agrees(BlockAt(d, c, q, s, p, pred), exact, false, coefs, pos, 0, end)
  {
    BlockByRead(d, c, q, s, p, pred);
    hide BlockAt, WithDiff, Read, Value, Extend;
  }

  lemma AfterDiff(d: Code, c: Code, q: seq<nat>, s: seq<bool>, p: nat, pred: int, exact: bool, g: Got, p1: nat,
      diff: int, whole: bool, ok: bool, coefs: seq<int>, pos: nat, dc: int, end: nat)
    requires IsCode(d) && IsCode(c) && |q| == 64
    requires if exact then DiffAt(d, s, p, g, p1, diff) else DiffShort(d, s, p, end)
    requires Agrees(WithDiff(c, q, s, p1, pred, diff), whole, ok, coefs, pos, dc, end)
    ensures Agrees(BlockAt(d, c, q, s, p, pred), exact && whole, ok, coefs, pos, dc, end)
  {
    hide BlockAt, WithDiff, Read, Value, Extend;
    BlockByRead(d, c, q, s, p, pred);
    if exact { assert BlockAt(d, c, q, s, p, pred) == WithDiff(c, q, s, p1, pred, diff); }
  }

  lemma DiffIs(c: Code, q: seq<nat>, s: seq<bool>, p: nat, pred: int, diff: int)
    requires IsCode(c) && |q| == 64
    ensures var dc := pred + diff;
      WithDiff(c, q, s, p, pred, diff) ==
      if AddIntsValid(pred, diff) && Mul2ShortsValid(dc, q[0]) then Ac(c, q, s, p, 1, Zeros()[0 := ToShort(dc * q[0])], dc)
      else Corrupt(p)
  {
  }

  // The loop over the AC coefficients.
  method DecodeAcs(j: BitReader, data: array<int>, h: StbiHuffman, fac: array<int>, q: seq<nat>, ghost c: Code, ghost dc: int)
    returns (ok: bool, ghost exact: bool)
    requires Decoder(j, h, c) && data.Length == 64 && fac.Length == 512 && |q| == 64
    requires data != fac && data != h.delta && forall i :: 0 <= i < 512 ==> FastAcOk(c, i, fac[i])
    modifies j, j.s, data
    ensures j.data == old(j.data) && (ok ==> j.Valid())
    ensures Agrees(Ac(c, q, j.Stream(), old(j.pos), 1, old(data[..]), dc), exact, ok, data[..], j.pos, dc, 8 * |j.data|)
  {
    hide Ac, FastAcOk, DataBits, Buffer, StbiHuffman.Tables;
    exact := true;
    ghost var b := Ac(c, q, j.Stream(), j.pos, 1, data[..], dc);
    var k := 1;
    FromIs(c, q, j.Stream(), j.pos, 1, data[..], dc);
    while k < 64
      invariant 1 <= k <= 79 && j.Valid() && j.data == old(j.data)
      invariant if exact then b == AcFrom(c, q, j.Stream(), j.pos, k, data[..], dc)
                else b.pos > 8 * |j.data|
      decreases 79 - k
    {
      FromIs(c, q, j.Stream(), j.pos, k, data[..], dc);
      var st;
      ghost var whole;
      st, k, whole := AcStep(j, data, h, fac, k, q, c, dc);
      exact := exact && whole;
      if st == Failed { return false, exact; }
      if st == Ended { return true, exact; }
    }
    ok := true;
  }

  lemma FromIs(c: Code, q: seq<nat>, s: seq<bool>, p: nat, k: nat, acc: seq<int>, dc: int)
    requires IsCode(c) && |q| == 64 && |acc| == 64 && 1 <= k <= 79
    ensures AcFrom(c, q, s, p, k, acc, dc) == if k < 64 then Ac(c, q, s, p, k, acc, dc) else Block(acc, p, dc)
  {
  }

  // With and without the combined table: two decoders that stand at the same bit of the same data end alike on every
  // block, sound or corrupt, whose bits the data holds, whatever the tables.
  method DecodeBothWays(j: BitReader, j': BitReader, data: array<int>, data': array<int>, hdc: StbiHuffman, hac: StbiHuffman,
      fac: array<int>, zeros: array<int>, pred: int, q: seq<nat>, ghost d: Code, ghost c: Code)
    returns (ok: bool, ok': bool, dc: int, dc': int)
    requires Decoder(j, hdc, d) && Decoder(j, hac, c) && Decoder(j', hdc, d) && Decoder(j', hac, c)
    requires data.Length == data'.Length == 64 && fac.Length == zeros.Length == 512 && |q| == 64
    requires {j as object, j.s} !! {j' as object, j'.s}
    requires data != data' && data !in {fac, zeros, hdc.delta, hac.delta} && data' !in {fac, zeros, hdc.delta, hac.delta}
    requires j.data == j'.data && j.pos == j'.pos
    requires forall i :: 0 <= i < 512 ==> FastAcOk(c, i, fac[i]) && zeros[i] == 0
    modifies j, j.s, data, j', j'.s, data'
    ensures BlockAt(d, c, q, old(j.Stream()), old(j.pos), pred).pos <= 8 * |old(j.data)| ==>
      ok == ok' && (ok ==> data[..] == data'[..] && j.pos == j'.pos && dc == dc')
  {
    NoFast(c);
    hide Decoder, FastAcOk, BlockAt;
    ghost var exact, exact';
    ok, dc, exact := DecodeBlock(j, data, hdc, hac, fac, pred, q, d, c);
    ok', dc', exact' := DecodeBlock(j', data', hdc, hac, zeros, pred, q, d, c);
  }

  lemma NoFast(c: Code)
    requires IsCode(c)
    ensures forall i: nat :: FastAcOk(c, i, 0)
  {
  }

  // ----- dequantising

  // Every coefficient times the dequantiser of its place in the block, cut off to a short.
  function Times(coefs: seq<int>, q: seq<nat>): (r: seq<int>)
    requires |coefs| == |q| == 64
    ensures |r| == 64
  {
    seq(64, j requires 0 <= j < 64 => ToShort(coefs[j] * q[j]))
  }

  function Scaled(b: Block, q: seq<nat>): Block
    requires |q| == 64 && (b.Block? ==> |b.coefs| == 64)
  {
    if b.Block? then Block(Times(b.coefs, q), b.pos, b.dc) else b
  }

  lemma ShortTimes(v: int, q: nat)
    ensures ToShort(ToShort(v) * q) == ToShort(v * q)
  {
    var k := (v + 0x8000) / 0x10000;
    var a := v - k * 0x10000;
    assert ToShort(v) == a;
    hide ToShort;
    Distribute(a, k * 0x10000, q);
    assert (k * 0x10000) * q == (k * q) * 0x10000;
    ShortShift(a * q, k * q);
  }

  lemma ShortShift(x: int, k: int)
    ensures ToShort(x + k * 0x10000) == ToShort(x)
  {
  }

  lemma TimesPut(one: seq<int>, q: seq<nat>, z: index, v: int)
    requires |one| == |q| == 64
    ensures Times(one[z := ToShort(v * Ones()[z])], q) == Times(one, q)[z := ToShort(v * q[z])]
  {
    hide ToShort;
    ShortTimes(v, q[z]);
  }

  // The tables of dequantisers only scale: the coefficients are those decoded with ones, times the table.
  lemma {:induction false} AcScaled(c: Code, q: seq<nat>, s: seq<bool>, p: nat, k: nat, one: seq<int>, dc: int)
    requires IsCode(c) && |q| == |one| == 64 && 1 <= k <= 79
    ensures AcFrom(c, q, s, p, k, Times(one, q), dc) == Scaled(AcFrom(c, Ones(), s, p, k, one, dc), q)
    decreases 80 - k
  {
    hide Ac, AcFrom, AcPut, Read, Value, Extend, Times, Ones, ToShort, Dezigzag;
    FromIs(c, q, s, p, k, Times(one, q), dc);
    FromIs(c, Ones(), s, p, k, one, dc);
    if k < 64 {
      AcByRead(c, q, s, p, k, Times(one, q), dc);
      AcByRead(c, Ones(), s, p, k, one, dc);
      var r := Read(c.lens, s, p);
      if r.Some? {
        var g := r.value;
        var rs, p1 := c.values[g.index], p + g.bits;
        var size, run := rs as int % 16, rs as int / 16;
        if rs == 0xF0 {
          AcScaled(c, q, s, p1, k + 16, one, dc);
        } else if size != 0 {
          var v, z := Extend(Value(s, p1, size), size), Dezigzag(k + run);
          PutIs(c, q, s, p1 + size, k + run, Times(one, q), dc, v);
          PutIs(c, Ones(), s, p1 + size, k + run, one, dc, v);
          TimesPut(one, q, z, v);
          AcScaled(c, q, s, p1 + size, k + run + 1, one[z := ToShort(v * Ones()[z])], dc);
        }
      }
    }
  }

  // A block with dequantisers is the block without them, times the table, if the test of the DC product passes.
  lemma BlockScaled(d: Code, c: Code, q: seq<nat>, s: seq<bool>, p: nat, pred: int)
    requires IsCode(d) && IsCode(c) && |q| == 64
    ensures var one, b := BlockAt(d, c, Ones(), s, p, pred), BlockAt(d, c, q, s, p, pred);
      one.Block? ==> if Mul2ShortsValid(one.dc, q[0]) then b == Scaled(one, q) else b.Corrupt?
  {
    hide Read, Value, Extend, WithDiff, Mul2ShortsValid, Times;
    var r := Read(d.lens, s, p);
    if r.Some? && d.values[r.value.index] <= 15 {
      var t, p1 := d.values[r.value.index], p + r.value.bits;
      DiffScaled(c, q, s, p1 + t, pred, if t == 0 then 0 else Extend(Value(s, p1, t), t));
    }
  }

  lemma DiffScaled(c: Code, q: seq<nat>, s: seq<bool>, p: nat, pred: int, diff: int)
    requires IsCode(c) && |q| == 64
    ensures var one, b := WithDiff(c, Ones(), s, p, pred, diff), WithDiff(c, q, s, p, pred, diff);
      one.Block? ==> if Mul2ShortsValid(one.dc, q[0]) then b == Scaled(one, q) else b.Corrupt?
  {
    hide Ac, AcFrom, AddIntsValid, Mul2ShortsValid, Times, Ones, ToShort;
    var dc := pred + diff;
    var one := Zeros()[0 := ToShort(dc * Ones()[0])];
    FirstScaled(q, dc);
    AcScaled(c, q, s, p, 1, one, dc);
    FromIs(c, q, s, p, 1, Times(one, q), dc);
    FromIs(c, Ones(), s, p, 1, one, dc);
    AcKeepsDc(c, Ones(), s, p, 1, one, dc);
  }

  lemma FirstScaled(q: seq<nat>, dc: int)
    requires |q| == 64
    ensures Times(Zeros()[0 := ToShort(dc * Ones()[0])], q) == Zeros()[0 := ToShort(dc * q[0])]
  {
    TimesPut(Zeros(), q, 0, dc);
    assert Times(Zeros(), q) == Zeros();
  }

  lemma {:induction false} AcKeepsDc(c: Code, q: seq<nat>, s: seq<bool>, p: nat, k: nat, acc: seq<int>, dc: int)
    requires IsCode(c) && |q| == |acc| == 64 && 1 <= k <= 79
    ensures var b := AcFrom(c, q, s, p, k, acc, dc); b.Block? ==> b.dc == dc
    decreases 80 - k
  {
    hide Ac, AcFrom, AcPut, Read, Value, Extend, ToShort, Dezigzag;
    FromIs(c, q, s, p, k, acc, dc);
    if k < 64 {
      AcByRead(c, q, s, p, k, acc, dc);
      var r := Read(c.lens, s, p);
      if r.Some? {
        var rs, p1 := c.values[r.value.index], p + r.value.bits;
        var size, run := rs as int % 16, rs as int / 16;
        if rs == 0xF0 {
          AcKeepsDc(c, q, s, p1, k + 16, acc, dc);
        } else if size != 0 {
          var v, z := Extend(Value(s, p1, size), size), Dezigzag(k + run);
          PutIs(c, q, s, p1 + size, k + run, acc, dc, v);
          AcKeepsDc(c, q, s, p1 + size, k + run + 1, acc[z := ToShort(v * q[z])], dc);
        }
      }
    }
  }
}
