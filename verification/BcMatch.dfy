// Colour endpoints and indices of one block: the nearest of the four colours for every texel, masks of two-bit indices,
// and the exchange of endpoints.

module BcMatch {
  import opened BitStream
  import opened BcTexture
  import opened BcChannel
  import opened BcColor

  type u16 = x: int | 0 <= x < 0x10000

  // ----- the source block

  type Block = b: seq<byte> | |b| == 64 witness seq<byte>(64, i => 0)

  function Pixel(block: Block, t: nat): Rgb
    requires t < 16
  {
    Rgb(block[4 * t], block[4 * t + 1], block[4 * t + 2])
  }

  function Alpha(block: Block, t: nat): byte
    requires t < 16
  {
    block[4 * t + 3]
  }

  // ----- masks of two-bit indices

  function MaskOf(idx: seq<nat>): nat {
    if idx == [] then 0 else idx[0] + 4 * MaskOf(idx[1..])
  }

  ghost predicate Indices(idx: seq<nat>, n: nat) { |idx| == n && forall t :: 0 <= t < n ==> idx[t] < 4 }

  lemma {:induction false} DigitOfMask(idx: seq<nat>, t: nat)
    requires t < |idx| && Indices(idx, |idx|)
    ensures Digit(MaskOf(idx), t) == idx[t]
  {
    if t > 0 { DigitOfMask(idx[1..], t - 1); }
  }

  lemma {:induction false} MaskPush(idx: seq<nat>, k: nat)
    requires k < 4 && Indices(idx, |idx|)
    ensures MaskOf(idx) < Pow2(2 * |idx|) && MaskOf(idx + [k]) == MaskOf(idx) + Pow2(2 * |idx|) * k
  {
    if idx == [] {
      assert ([] + [k])[1..] == [];
      assert Pow2(0) == 1;
    } else {
      assert (idx + [k])[1..] == idx[1..] + [k];
      MaskPush(idx[1..], k);
      assert Pow2(2 * |idx|) == 2 * Pow2(2 * |idx| - 1) && Pow2(2 * |idx| - 1) == 2 * Pow2(2 * |idx| - 2);
      Slide(Pow2(2 * |idx| - 2), k);
      Slide(2 * Pow2(2 * |idx| - 2), k);
    }
  }

  // `mask << 2 | k` puts `k` in front.
  lemma MaskFront(idx: seq<nat>, k: nat)
    requires k < 4 && Indices(idx, |idx|) && |idx| < 16
    ensures Shl(MaskOf(idx), 2) < 0x1_0000_0000 && BitOr(Shl(MaskOf(idx), 2), k) == MaskOf([k] + idx)
  {
    Pow2Small();
    Replicate(MaskOf(idx), k, 2);
    assert ([k] + idx)[1..] == idx;
    MaskPush(idx, 0);
    Pow32();
    Pow2Monotone(2 * |idx|, 30);
    assert Pow2(32) == 2 * Pow2(31) && Pow2(31) == 2 * Pow2(30);
  }

  function Xored(a: seq<nat>, b: seq<nat>): (r: seq<nat>)
    requires |a| == |b|
    ensures |r| == |a|
  {
    seq(|a|, i requires 0 <= i < |a| => BitXor(a[i], b[i]))
  }

  lemma XorDigits(d: nat, x: nat, e: nat, y: nat)
    requires d < 4 && e < 4
    ensures BitXor(d + 4 * x, e + 4 * y) == BitXor(d, e) + 4 * BitXor(x, y) && BitXor(d, e) < 4
  {
    hide BitXor;
    var d0, d1, e0, e1 := d % 2, d / 2, e % 2, e / 2;
    var p, q := d1 + 2 * x, e1 + 2 * y;
    assert d == d0 + 2 * d1 && e == e0 + 2 * e1;
    assert d + 4 * x == d0 + 2 * p && e + 4 * y == e0 + 2 * q;
    XorBit(d0, p, e0, q);
    XorBit(d1, x, e1, y);
    XorBit(d0, d1, e0, e1);
    XorBit(d1, 0, e1, 0);
    XorZero(0);
  }

  lemma XorBit(d: nat, x: nat, e: nat, y: nat)
    requires d < 2 && e < 2
    ensures BitXor(d + 2 * x, e + 2 * y) == (if d != e then 1 else 0) + 2 * BitXor(x, y)
  {
    assert (d + 2 * x) % 2 == d && (d + 2 * x) / 2 == x && (e + 2 * y) % 2 == e && (e + 2 * y) / 2 == y;
    XorZero(x);
    XorZero(y);
    XorZero(d + 2 * x);
    XorZero(e + 2 * y);
  }

  lemma XorZero(x: nat)
    ensures BitXor(x, 0) == x == BitXor(0, x)
  {
  }

  lemma {:induction false} XorMask(a: seq<nat>, b: seq<nat>)
    requires |a| == |b| && Indices(a, |a|) && Indices(b, |b|)
    ensures BitXor(MaskOf(a), MaskOf(b)) == MaskOf(Xored(a, b)) && Indices(Xored(a, b), |a|)
  {
    if a != [] {
      XorMask(a[1..], b[1..]);
      XorDigits(a[0], MaskOf(a[1..]), b[0], MaskOf(b[1..]));
      assert Xored(a, b)[1..] == Xored(a[1..], b[1..]);
    }
  }

  // ----- choosing indices

  function Dot(p: Rgb, q: Rgb): int { p.r * q.r + p.g * q.g + p.b * q.b }

  function Axis(color: seq<Rgb>): Rgb
    requires |color| >= 2
  {
    Rgb(color[0].r - color[1].r, color[0].g - color[1].g, color[0].b - color[1].b)
  }

  // Of the colours, projected on the line through the endpoints, `k` is a nearest one to `p`.
  ghost predicate NearestStop(p: Rgb, color: seq<Rgb>, k: nat)
    requires |color| >= 2
  {
    k < |color| && var d := Axis(color);
    forall m: nat :: m < |color| ==> Abs(Dot(p, d) - Dot(color[k], d)) <= Abs(Dot(p, d) - Dot(color[m], d))
  }

  function Pick4(dot: int, s0: int, s1: int, s2: int, s3: int): (k: nat)
    ensures k < 4
  {
    if 2 * dot < s3 + s2 then (if 2 * dot < s1 + s3 then 1 else 3) else if 2 * dot < s2 + s0 then 2 else 0
  }

  function Pick3(dot: int, s0: int, s1: int, s2: int): (k: nat)
    ensures k < 3
  {
    if 2 * dot < s2 + s0 then (if 2 * dot < s1 + s2 then 0 else 2) else if 2 * dot < s1 + s2 then 1 else 0
  }

  lemma Scale(d: int, x: int, y: int)
    requires if d >= 0 then x >= y else x <= y
    ensures d * x >= d * y
  {
    if d >= 0 {
      Distribute(x - y, y, d);
      MulNonNegative(d, x - y);
    } else {
      MulNonNegative(-d, y - x);
      assert (-d) * (y - x) == d * x - d * y;
    }
  }

  lemma Between4(a: int, b: int)
    requires a >= 0 && b >= 0
    ensures var d, u, v := a - b, Lerp13(a, b), Lerp13(b, a); a * d >= u * d >= v * d >= b * d
  {
    var d, u, v := a - b, Lerp13(a, b), Lerp13(b, a);
    assert if d >= 0 then a >= u >= v >= b else a <= u <= v <= b;
    Scale(d, a, u);
    Scale(d, u, v);
    Scale(d, v, b);
  }

  lemma Between3(a: int, b: int)
    requires a >= 0 && b >= 0
    ensures var d, u := a - b, Lerp12(a, b); a * d >= u * d >= b * d
  {
    var d, u := a - b, Lerp12(a, b);
    assert if d >= 0 then a >= u >= b else a <= u <= b;
    Scale(d, a, u);
    Scale(d, u, b);
  }

  // The stops stand in order on the axis.
  lemma Ordered4(c0: u16, c1: u16)
    ensures var c := Eval4Colors(c0, c1); var d := Axis(c); Dot(c[0], d) >= Dot(c[2], d) >= Dot(c[3], d) >= Dot(c[1], d)
  {
    var p, q := From16Bit(c0), From16Bit(c1);
    hide From16Bit, Lerp13;
    Between4(p.r, q.r);
    Between4(p.g, q.g);
    Between4(p.b, q.b);
  }

  lemma Ordered3(c0: u16, c1: u16)
    ensures var c := Eval3Colors(c0, c1); var d := Axis(c); Dot(c[0], d) >= Dot(c[2], d) >= Dot(c[1], d)
  {
    var p, q := From16Bit(c0), From16Bit(c1);
    hide From16Bit, Lerp12;
    Between3(p.r, q.r);
    Between3(p.g, q.g);
    Between3(p.b, q.b);
  }

  function Match4(p: Rgb, color: seq<Rgb>): (k: nat)
    requires |color| == 4
    ensures k < 4
  {
    var d := Axis(color);
    Pick4(Dot(p, d), Dot(color[0], d), Dot(color[1], d), Dot(color[2], d), Dot(color[3], d))
  }

  lemma Match4Nearest(p: Rgb, c0: u16, c1: u16)
    ensures NearestStop(p, Eval4Colors(c0, c1), Match4(p, Eval4Colors(c0, c1)))
  {
    Ordered4(c0, c1);
    hide Eval4Colors, Dot, Axis;
  }

  function Match3(p: Rgb, color: seq<Rgb>): (k: nat)
    requires |color| == 3
    ensures k < 3
  {
    var d := Axis(color);
    Pick3(Dot(p, d), Dot(color[0], d), Dot(color[1], d), Dot(color[2], d))
  }

  // With three colours the index is a nearest one exactly from the first crossover on.
  lemma Match3Nearest(p: Rgb, c0: u16, c1: u16)
    ensures var c := Eval3Colors(c0, c1); var d := Axis(c);
      NearestStop(p, c, Match3(p, c)) <==> 2 * Dot(p, d) >= Dot(c[1], d) + Dot(c[2], d) || Dot(c[0], d) == Dot(c[1], d)
  {
    Ordered3(c0, c1);
    hide Eval3Colors, Dot, Axis;
    var c := Eval3Colors(c0, c1);
    var d := Axis(c);
    if 2 * Dot(p, d) < Dot(c[1], d) + Dot(c[2], d) && Dot(c[0], d) != Dot(c[1], d) {
      assert Match3(p, c) == 0 && Abs(Dot(p, d) - Dot(c[0], d)) > Abs(Dot(p, d) - Dot(c[1], d));
    }
  }

  // Below it the first colour is chosen, even for a texel that is the second one: black between white and black.
  lemma Match3Misses()
    ensures var c := Eval3Colors(0xFFFF, 0);
      c == [Rgb(255, 255, 255), Rgb(0, 0, 0), Rgb(127, 127, 127)] &&
      Match3(Rgb(0, 0, 0), c) == 0 && !NearestStop(Rgb(0, 0, 0), c, 0) && NearestStop(Rgb(0, 0, 0), c, 1)
  {
    hide *;
    Greys();
    BlackMissed(Eval3Colors(0xFFFF, 0));
  }

  lemma BlackMissed(c: seq<Rgb>)
    requires c == [Rgb(255, 255, 255), Rgb(0, 0, 0), Rgb(127, 127, 127)]
    ensures Match3(Rgb(0, 0, 0), c) == 0 && !NearestStop(Rgb(0, 0, 0), c, 0) && NearestStop(Rgb(0, 0, 0), c, 1)
  {
    hide Axis, Dot;
    GreyDots(c);
    var d, p := Axis(c), Rgb(0, 0, 0);
    assert Abs(Dot(p, d) - Dot(c[0], d)) > Abs(Dot(p, d) - Dot(c[1], d));
  }

  lemma GreyDots(c: seq<Rgb>)
    requires c == [Rgb(255, 255, 255), Rgb(0, 0, 0), Rgb(127, 127, 127)]
    ensures Dot(Rgb(0, 0, 0), Axis(c)) == 0 == Dot(c[1], Axis(c)) && Dot(c[0], Axis(c)) == 195075 && Dot(c[2], Axis(c)) == 97155
  {
    var a, b, e := c[0], c[1], c[2];
    assert a == Rgb(255, 255, 255) && b == Rgb(0, 0, 0) && e == Rgb(127, 127, 127);
  }

  lemma Greys()
    ensures Eval3Colors(0xFFFF, 0) == [Rgb(255, 255, 255), Rgb(0, 0, 0), Rgb(127, 127, 127)]
  {
    assert From16Bit(0xFFFF) == Rgb(255, 255, 255) && From16Bit(0) == Rgb(0, 0, 0);
    hide From16Bit;
  }

  // The index every texel gets.
  ghost predicate Matched(idx: seq<nat>, block: Block, color: seq<Rgb>)
    requires |color| == 4
  {
    |idx| == 16 && forall t :: 0 <= t < 16 ==> idx[t] == Match4(Pixel(block, t), color)
  }

  method MatchColorsBlock(block: Block, color: seq<Rgb>) returns (mask: nat, ghost idx: seq<nat>)
    requires |color| == 4
    ensures Matched(idx, block, color) && mask == MaskOf(idx)
  {
    var dir := Axis(color);
    var dots := new int[16](t requires 0 <= t < 16 => Dot(Pixel(block, t), dir));
    var stops := new int[4](k requires 0 <= k < 4 => Dot(color[k], dir));
    var c0Point, halfPoint, c3Point := stops[1] + stops[3], stops[3] + stops[2], stops[2] + stops[0];
    hide Dot, Axis, MaskOf;
    mask, idx := 0, [];
    MaskNone();
    for i := 16 downto 0
      invariant Indices(idx, 16 - i) && mask == MaskOf(idx) && dots.Length == 16
      invariant forall t :: 0 <= t < 16 ==> dots[t] == Dot(Pixel(block, t), dir)
      invariant forall t :: i <= t < 16 ==> idx[t - i] == Match4(Pixel(block, t), color)
    {
      var dot := dots[i] * 2;
      var k := if dot < halfPoint then (if dot < c0Point then 1 else 3) else if dot < c3Point then 2 else 0;
      assert k == Match4(Pixel(block, i), color);
      MaskFront(idx, k);
      mask := BitOr(Shl(mask, 2), k);
      idx := [k] + idx;
    }
  }

  lemma MaskNone()
    ensures MaskOf([]) == 0
  {
  }

  // With alpha, index 3 is for the texels whose alpha is zero.
  ghost predicate MatchedAlpha(idx: seq<nat>, block: Block, color: seq<Rgb>)
    requires |color| == 3
  {
    |idx| == 16 && forall t :: 0 <= t < 16 ==> idx[t] == if Alpha(block, t) == 0 then 3 else Match3(Pixel(block, t), color)
  }

  method MatchColorsAlphaBlock(block: Block, color: seq<Rgb>) returns (mask: nat, ghost idx: seq<nat>)
    requires |color| == 3
    ensures MatchedAlpha(idx, block, color) && mask == MaskOf(idx)
  {
    var dir := Axis(color);
    var dots := new int[16](t requires 0 <= t < 16 => Dot(Pixel(block, t), dir));
    var stops := new int[3](k requires 0 <= k < 3 => Dot(color[k], dir));
    var c0Point, c2Point := stops[1] + stops[2], stops[2] + stops[0];
    hide Dot, Axis, MaskOf;
    mask, idx := 0, [];
    MaskNone();
    for i := 16 downto 0
      invariant Indices(idx, 16 - i) && mask == MaskOf(idx) && dots.Length == 16
      invariant forall t :: 0 <= t < 16 ==> dots[t] == Dot(Pixel(block, t), dir)
      invariant forall t :: i <= t < 16 ==> idx[t - i] == if Alpha(block, t) == 0 then 3 else Match3(Pixel(block, t), color)
    {
      var dot := dots[i] * 2;
      var k: nat := 0;
      if block[4 * i + 3] == 0 {
        k := 3;
      } else if dot < c2Point {
        k := if dot < c0Point then 0 else 2;
      } else {
        k := if dot < c0Point then 1 else 0;
      }
      assert k == if Alpha(block, i) == 0 then 3 else Match3(Pixel(block, i), color);
      MaskFront(idx, k);
      mask := BitOr(Shl(mask, 2), k);
      idx := [k] + idx;
    }
  }

  // ----- endpoints

  method ReorderColors(max0: u16, min0: u16) returns (max16: u16, min16: u16)
    ensures max16 <= min16 && (max16, min16) in {(max0, min0), (min0, max0)}
  {
    max16, min16 := max0, min0;
    if min16 < max16 {
      max16, min16 := min16, max16;
    }
  }

  function Flip(k: nat): nat { if k % 2 == 0 then k + 1 else k - 1 }

  function Flipped(idx: seq<nat>): (r: seq<nat>)
    ensures |r| == |idx|
  {
    seq(|idx|, t requires 0 <= t < |idx| => Flip(idx[t]))
  }

  function Same(k: nat): seq<nat> { seq(16, t => k) }

  // The masks written as constants.
  lemma Constants()
    ensures MaskOf(Same(0)) == 0 && MaskOf(Same(1)) == 0x5555_5555 && MaskOf(Same(2)) == 0xAAAA_AAAA
    ensures MaskOf(Same(3)) == 0xFFFF_FFFF
  {
    SameMask(0);
    SameMask(1);
    SameMask(2);
    SameMask(3);
  }

  lemma SameMask(k: nat)
    ensures MaskOf(Same(k)) == k * 0x5555_5555
  {
    RunMask(k, 1);
    RunMask(k, 2);
    RunMask(k, 4);
    RunMask(k, 8);
    Pow2Small();
    assert Run(k, 16) == Same(k);
    assert MaskOf(Run(k, 0)) == 0;
    assert Run(k, 1)[1..] == Run(k, 0);
  }

  function Run(k: nat, n: nat): seq<nat> { seq(n, t => k) }

  lemma RunMask(k: nat, n: nat)
    ensures MaskOf(Run(k, 2 * n)) == MaskOf(Run(k, n)) + Pow2(2 * n) * MaskOf(Run(k, n))
  {
    assert Run(k, n) + Run(k, n) == Run(k, 2 * n);
    MaskConcat(Run(k, n), Run(k, n));
  }

  lemma {:induction false} MaskConcat(a: seq<nat>, b: seq<nat>)
    ensures MaskOf(a + b) == MaskOf(a) + Pow2(2 * |a|) * MaskOf(b)
  {
    if a == [] {
      assert a + b == b;
      assert Pow2(0) == 1;
    } else {
      assert (a + b)[1..] == a[1..] + b;
      MaskConcat(a[1..], b);
      var p := Pow2(2 * |a| - 2);
      assert Pow2(2 * |a|) == 2 * Pow2(2 * |a| - 1) && Pow2(2 * |a| - 1) == 2 * p;
      Slide(p, MaskOf(b));
      Slide(2 * p, MaskOf(b));
    }
  }

  lemma XorOne(k: nat)
    requires k < 4
    ensures BitXor(k, 1) == Flip(k) < 4
  {
    XorDigits(k, 0, 1, 0);
    assert k in {0, 1, 2, 3};
  }

  lemma XoredOnes(idx: seq<nat>)
    requires Indices(idx, 16)
    ensures Xored(idx, Same(1)) == Flipped(idx) && Indices(Flipped(idx), 16)
  {
    hide BitXor;
    forall t | 0 <= t < 16
      ensures BitXor(idx[t], 1) == Flip(idx[t]) < 4
    {
      XorOne(idx[t]);
    }
    hide Flip;
  }

  lemma FlipMask(idx: seq<nat>)
    requires Indices(idx, 16)
    ensures BitXor(MaskOf(idx), 0x5555_5555) == MaskOf(Flipped(idx)) && Indices(Flipped(idx), 16)
  {
    hide BitXor, MaskOf, Flip;
    Constants();
    XorMask(idx, Same(1));
    XoredOnes(idx);
  }

  method FinalizeColors(max0: u16, min0: u16, mask0: nat, ghost idx: seq<nat>) returns (max16: u16, min16: u16, mask: nat)
    requires Indices(idx, 16) && mask0 == MaskOf(idx)
    ensures if max0 < min0 then (max16, min16, mask) == (min0, max0, MaskOf(Flipped(idx)))
            else (max16, min16, mask) == (max0, min0, mask0)
  {
    max16, min16, mask := max0, min0, mask0;
    if max16 < min16 {
      max16, min16 := min16, max16;
      FlipMask(idx);
      mask := BitXor(mask, 0x5555_5555);
    }
  }

  // Exchanging the endpoints and flipping the low bit of every index changes no texel.
  lemma FlipKeeps(c0: u16, c1: u16, k: nat)
    requires k < 4
    ensures Eval4Colors(c1, c0)[Flip(k)] == Eval4Colors(c0, c1)[k]
  {
    assert k in {0, 1, 2, 3};
  }

  // `stb__Mul8Bit`: `a * b / 255`, rounded.
  function Mul8Bit(a: int, b: int): int { (a * b + 128 + (a * b + 128) / 256) / 256 }

  lemma Mul8BitRounds(a: byte, b: byte)
    ensures 2 * Abs(255 * Mul8Bit(a, b) - a as int * b) <= 255 && 0 <= Mul8Bit(a, b) <= b
  {
    var x: int := a as int * b;
    MulNonNegative(a, b);
    Scale(b, 255, a);
    var t := x + 128;
    var q := t / 256;
    var r := (t + q) / 256;
    assert 256 * q <= t < 256 * q + 256 && 256 * r <= t + q < 256 * r + 256;
  }

  // `stb__As16Bit`
  function As16Bit(c: Rgb): u16
    requires 0 <= c.r < 256 && 0 <= c.g < 256 && 0 <= c.b < 256
  {
    Mul8BitRounds(c.r, 31);
    Mul8BitRounds(c.g, 63);
    Mul8BitRounds(c.b, 31);
    Mul8Bit(c.r, 31) * 2048 + Mul8Bit(c.g, 63) * 32 + Mul8Bit(c.b, 31)
  }

  // Cutting a colour down to 565 and widening it again moves each channel by at most 4, and green by at most 2.
  lemma As16Close(c: Rgb)
    requires 0 <= c.r < 256 && 0 <= c.g < 256 && 0 <= c.b < 256
    ensures var d := From16Bit(As16Bit(c)); Abs(d.r - c.r) <= 4 && Abs(d.g - c.g) <= 2 && Abs(d.b - c.b) <= 4
  {
    hide Mul8Bit;
    Mul8BitRounds(c.r, 31);
    Mul8BitRounds(c.g, 63);
    Mul8BitRounds(c.b, 31);
    var r, g, b := Mul8Bit(c.r, 31), Mul8Bit(c.g, 63), Mul8Bit(c.b, 31);
    Fields565(r, g, b);
  }

  lemma Fields565(r: nat, g: nat, b: nat)
    requires r < 32 && g < 64 && b < 32
    ensures var v := r * 2048 + g * 32 + b; v / 2048 == r && v / 32 % 64 == g && v % 32 == b
  {
  }

  // The principal axis, scaled to at most 512, or the luminance weights.
  type Weight = w: int | -1000 <= w <= 1000

  datatype Direction = Direction(r: Weight, g: Weight, b: Weight)

  function Along(block: Block, t: nat, v: Direction): (d: int)
    requires t < 16
    ensures -0x8000_0000 < d < 0x7fff_ffff
  {
    Reach(block[4 * t], v.r);
    Reach(block[4 * t + 1], v.g);
    Reach(block[4 * t + 2], v.b);
    block[4 * t] as int * v.r + block[4 * t + 1] as int * v.g + block[4 * t + 2] as int * v.b
  }

  lemma Reach(x: byte, w: Weight)
    ensures -255000 <= x as int * w <= 255000
  {
    Scale(x, 1000, w);
    Scale(x, w, -1000);
  }

  ghost predicate Extreme(block: Block, v: Direction, lo: nat, hi: nat, visible: bool) {
    lo < 16 && hi < 16 && (visible ==> Alpha(block, lo) != 0 && Alpha(block, hi) != 0) &&
    forall t :: 0 <= t < 16 && (visible ==> Alpha(block, t) != 0) ==>
      Along(block, lo, v) <= Along(block, t, v) <= Along(block, hi, v)
  }

  // The integer end of `stb__OptimizeColorsBlock`: the extreme texels along the axis become endpoints.
  method OptimizeColorsBlock(block: Block, v: Direction) returns (max16: u16, min16: u16, ghost lo: nat, ghost hi: nat)
    ensures max16 <= min16 && Extreme(block, v, lo, hi, false)
    ensures {max16, min16} == {As16Bit(Pixel(block, lo)), As16Bit(Pixel(block, hi))}
  {
    hide Along;
    var minp, maxp := 0, 0;
    var mind, maxd := Along(block, 0, v), Along(block, 0, v);
    for i := 1 to 16
      invariant 0 <= minp < 16 && 0 <= maxp < 16 && mind == Along(block, minp, v) && maxd == Along(block, maxp, v)
      invariant forall t :: 0 <= t < i ==> mind <= Along(block, t, v) <= maxd
    {
      var dot := Along(block, i, v);
      if dot < mind {
        mind, minp := dot, i;
      }
      if dot > maxd {
        maxd, maxp := dot, i;
      }
    }
    lo, hi := minp, maxp;
    max16, min16 := ReorderColors(As16Bit(Pixel(block, maxp)), As16Bit(Pixel(block, minp)));
  }

  ghost predicate Invisible(block: Block) { forall t :: 0 <= t < 16 ==> Alpha(block, t) == 0 }

  // With alpha only visible texels count, and the endpoints are made to differ.
  method OptimizeColorsAlphaBlock(block: Block, v: Direction)
    returns (max16: u16, min16: u16, ghost lo: nat, ghost hi: nat)
    ensures max16 < min16
    ensures if Invisible(block) then (max16, min16) == (0, 0xffff) else Extreme(block, v, lo, hi, true)
    ensures !Invisible(block) && As16Bit(Pixel(block, lo)) != As16Bit(Pixel(block, hi)) ==>
              {max16, min16} == {As16Bit(Pixel(block, lo)), As16Bit(Pixel(block, hi))}
  {
    hide Along, As16Bit;
    var minp, maxp := -1, -1;
    var mind, maxd := 0x7fff_ffff, -0x8000_0000;
    for i := 0 to 16
      invariant if minp == -1 then maxp == -1 && mind == 0x7fff_ffff && maxd == -0x8000_0000
                else 0 <= minp < 16 && 0 <= maxp < 16 && mind == Along(block, minp, v) && maxd == Along(block, maxp, v) &&
                     Alpha(block, minp) != 0 && Alpha(block, maxp) != 0
      invariant forall t :: 0 <= t < i && Alpha(block, t) != 0 ==> minp != -1 && mind <= Along(block, t, v) <= maxd
    {
      if block[4 * i + 3] != 0 {
        var dot := Along(block, i, v);
        if dot < mind {
          mind, minp := dot, i;
        }
        if dot > maxd {
          maxd, maxp := dot, i;
        }
      }
    }
    lo, hi := 0, 0;
    if maxp == -1 {
      min16, max16 := 0xffff, 0;
    } else {
      lo, hi := minp, maxp;
      max16 := As16Bit(Pixel(block, maxp));
      min16 := As16Bit(Pixel(block, minp));
      if max16 == min16 {
        if max16 > 0 {
          max16 := max16 - 1;
        } else {
          min16 := min16 + 1;
        }
      }
      max16, min16 := ReorderColors(max16, min16);
    }
  }
}
