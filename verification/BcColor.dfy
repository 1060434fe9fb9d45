// Colour blocks of BC1 and BC3: the four colours two 565 endpoints stand for, and the decoder `BC_color`.

module BcColor {
  import opened BitStream
  import opened BcTexture
  import opened BcChannel

  datatype Rgb = Rgb(r: int, g: int, b: int)

  // `stb__From16Bit`: each channel widened to eight bits.
  function From16Bit(v: nat): (c: Rgb)
    requires v < 0x10000
    ensures 0 <= c.r < 256 && 0 <= c.g < 256 && 0 <= c.b < 256
  {
    Rgb(v / 2048 * 33 / 4, v / 32 % 64 * 65 / 16, v % 32 * 33 / 4)
  }

  function Lerp13(a: int, b: int): int { Quotient(2 * a + b, 3) }

  function Lerp12(a: int, b: int): int { Quotient(a + b, 2) }

  function Third(p: Rgb, q: Rgb): Rgb { Rgb(Lerp13(p.r, q.r), Lerp13(p.g, q.g), Lerp13(p.b, q.b)) }

  function Half(p: Rgb, q: Rgb): Rgb { Rgb(Lerp12(p.r, q.r), Lerp12(p.g, q.g), Lerp12(p.b, q.b)) }

  function Eval4Colors(c0: nat, c1: nat): (color: seq<Rgb>)
    requires c0 < 0x10000 && c1 < 0x10000
    ensures |color| == 4
  {
    var p, q := From16Bit(c0), From16Bit(c1);
    [p, q, Third(p, q), Third(q, p)]
  }

  function Eval3Colors(c0: nat, c1: nat): (color: seq<Rgb>)
    requires c0 < 0x10000 && c1 < 0x10000
    ensures |color| == 3
  {
    var p, q := From16Bit(c0), From16Bit(c1);
    [p, q, Half(p, q)]
  }

  // ----- what a block means

  datatype Texel = Opaque(c: Rgb) | Transparent

  function TexelBytes(t: Texel): (b: seq<byte>)
    ensures |b| == 4
  {
    match t
    case Opaque(c) => [(c.r % 256) as byte, (c.g % 256) as byte, (c.b % 256) as byte, 255]
    case Transparent => [0, 0, 0, 0]
  }

  // Four opaque colours, or three and a fourth that is transparent or black.
  function Palette4(c0: nat, c1: nat, hasAlpha: bool, separate: bool): (p: seq<Texel>)
    requires c0 < 0x10000 && c1 < 0x10000
    ensures |p| == 4
  {
    if separate || c0 > c1 then
      var c := Eval4Colors(c0, c1);
      [Opaque(c[0]), Opaque(c[1]), Opaque(c[2]), Opaque(c[3])]
    else
      var c := Eval3Colors(c0, c1);
      [Opaque(c[0]), Opaque(c[1]), Opaque(c[2]), if hasAlpha then Transparent else Opaque(Rgb(0, 0, 0))]
  }

  // Three bytes are a colour's red, green and blue.
  ghost predicate Shows(d: seq<byte>, c: Rgb) {
    |d| >= 3 && d[0] as int == c.r && d[1] as int == c.g && d[2] as int == c.b
  }

  ghost predicate IsColor(c: Rgb) { 0 <= c.r < 256 && 0 <= c.g < 256 && 0 <= c.b < 256 }

  lemma OpaqueShows(c: Rgb)
    requires IsColor(c)
    ensures Shows(TexelBytes(Opaque(c)), c) && TexelBytes(Opaque(c))[3] == 255
  {
  }

  lemma EvalColors(c0: nat, c1: nat)
    requires c0 < 0x10000 && c1 < 0x10000
    ensures forall k :: 0 <= k < 4 ==> IsColor(Eval4Colors(c0, c1)[k])
    ensures forall k :: 0 <= k < 3 ==> IsColor(Eval3Colors(c0, c1)[k])
  {
    hide From16Bit;
  }

  // Digit `t` in base four.
  function Digit(m: nat, t: nat): (d: nat)
    ensures d < 4
  {
    if t == 0 then m % 4 else Digit(m / 4, t - 1)
  }

  function Word(b: seq<byte>, at: nat): nat
    requires at + 2 <= |b|
  {
    b[at] + 256 * b[at + 1] as int
  }

  function TexelAt(block: seq<byte>, hasAlpha: bool, separate: bool, t: nat): Texel
    requires |block| == 8
  {
    Palette4(Word(block, 0), Word(block, 2), hasAlpha, separate)[Digit(Le(block[4..]), t)]
  }

  function ColorTexels(block: seq<byte>, hasAlpha: bool, separate: bool): (texels: seq<seq<byte>>)
    requires |block| == 8
    ensures |texels| == 16 && forall t :: 0 <= t < 16 ==> |texels[t]| == 4
  {
    seq(16, t requires 0 <= t < 16 => TexelBytes(TexelAt(block, hasAlpha, separate, t)))
  }

  // ----- BC_color::decode

  const ALPHA := -0x1000000

  // The decoder's own colour: blue, green, red, and alpha in the top byte of an `int`.
  datatype Color = Color(b: int, g: int, r: int, a: int) {
    function Times(f: int): Color { Color(b * f, g * f, r * f, a * f) }

    function Over(f: int): Color
      requires f > 0
    {
      Color(Quotient(b, f), Quotient(g, f), Quotient(r, f), Quotient(a, f))
    }

    function Shifted(n: nat): Color { Color(b / Pow2(n), g / Pow2(n), r / Pow2(n), a / Pow2(n)) }

    function Plus(c: Color): Color { Color(b + c.b, g + c.g, r + c.r, a + c.a) }

    // `pack8888`, as the little-endian bytes it is stored in; the low bits of `a` are zero.
    function Pack(): (d: seq<byte>)
      ensures |d| == 4
    {
      [(r % 256) as byte, (g % 256) as byte, (b % 256) as byte, (a / 0x1000000 % 256) as byte]
    }
  }

  function Extract565(v: nat): Color {
    Color(BitOr(Shl(BitAnd(v, 0x1F), 3), Shr(BitAnd(v, 0x1C), 2)),
          BitOr(Shr(BitAnd(v, 0x7E0), 3), Shr(BitAnd(v, 0x600), 9)),
          BitOr(Shr(BitAnd(v, 0xF800), 8), Shr(BitAnd(v, 0xE000), 13)), ALPHA)
  }

  // A field of `v` left in its place.
  lemma FieldInPlace(v: nat, n: nat, p: nat)
    ensures BitAnd(v, Shl(Pow2(n) - 1, p)) == Shl(Div(v, Pow2(p)) % Pow2(n), p)
  {
    AndShl(v, Pow2(n) - 1, p);
    AndMask(Shr(v, p), n);
  }

  lemma Replicate(x: nat, y: nat, n: nat)
    requires y < Pow2(n)
    ensures BitOr(Shl(x, n), y) == x * Pow2(n) + y
  {
    OrComm(Shl(x, n), y);
    OrDisjoint(y, n, x);
  }

  lemma Fields(v: nat)
    ensures BitAnd(v, 0x1F) == v % 32 && BitAnd(v, 0x1C) == v / 4 % 8 * 4
    ensures BitAnd(v, 0x7E0) == v / 32 % 64 * 32 && BitAnd(v, 0x600) == v / 512 % 4 * 512
    ensures BitAnd(v, 0xF800) == v / 2048 % 32 * 2048 && BitAnd(v, 0xE000) == v / 8192 % 8 * 8192
  {
    Pow2Small();
    assert Pow2(0) == 1 && Pow2(11) == 2048;
    FieldInPlace(v, 5, 0);
    FieldInPlace(v, 3, 2);
    FieldInPlace(v, 6, 5);
    FieldInPlace(v, 2, 9);
    FieldInPlace(v, 5, 11);
    FieldInPlace(v, 3, 13);
  }

  // `x` of five bits becomes `x << 3 | x >> 2`, and `x` of six bits `x << 2 | x >> 4`.
  lemma Widen5(x: nat)
    requires x < 32
    ensures BitOr(x * 8, x / 4) == x * 33 / 4
  {
    Pow2Small();
    Replicate(x, x / 4, 3);
  }

  lemma Widen6(x: nat)
    requires x < 64
    ensures BitOr(x * 4, x / 16) == x * 65 / 16
  {
    Pow2Small();
    Replicate(x, x / 16, 2);
  }

  lemma ShrTimes(x: nat, n: nat, m: nat)
    requires m % Pow2(n) == 0
    ensures Shr(x * m, n) == x * (m / Pow2(n))
  {
    var p, q := Pow2(n), m / Pow2(n);
    assert m == q * p;
    assert x * (q * p) == (x * q) * p;
    DivModUnique(x * m, p, x * q, 0);
  }

  // The high part of a field is a field.
  lemma TopBits(v: nat)
    ensures v / 4 % 8 == v % 32 / 4
  {
    var w, r := v / 4, v % 4;
    assert v % 32 == 4 * (w % 8) + r;
  }

  lemma TopGreen(v: nat)
    ensures v / 512 % 4 == v / 32 % 64 / 16
  {
    var a := v / 32;
    assert v / 512 == a / 16;
    MiddleBits(a);
  }

  lemma MiddleBits(a: nat)
    ensures a / 16 % 4 == a % 64 / 16
  {
    var e := a % 64;
    assert a / 16 == 4 * (a / 64) + e / 16;
  }

  lemma LowShifts(v: nat)
    ensures Shl(v % 32, 3) == v % 32 * 8 && Shr(v / 4 % 8 * 4, 2) == v % 32 / 4
    ensures Shr(v / 32 % 64 * 32, 3) == v / 32 % 64 * 4 && Shr(v / 512 % 4 * 512, 9) == v / 32 % 64 / 16
  {
    Pow2Small();
    hide Pow2, Shr;
    ShrTimes(v / 4 % 8, 2, 4);
    ShrTimes(v / 32 % 64, 3, 32);
    ShrTimes(v / 512 % 4, 9, 512);
    TopBits(v);
    TopGreen(v);
  }

  lemma HighShifts(v: nat)
    requires v < 0x10000
    ensures Shr(v / 2048 % 32 * 2048, 8) == v / 2048 * 8 && Shr(v / 8192 % 8 * 8192, 13) == v / 2048 / 4
  {
    Pow2Small();
    hide Pow2, Shr;
    ShrTimes(v / 2048 % 32, 8, 2048);
    ShrTimes(v / 8192 % 8, 13, 8192);
  }

  // The decoder widens the endpoints as the compressor does.
  lemma ExtractIs(v: nat)
    requires v < 0x10000
    ensures var c := From16Bit(v); Extract565(v) == Color(c.b, c.g, c.r, ALPHA)
  {
    Fields(v);
    LowShifts(v);
    HighShifts(v);
    hide BitAnd, BitOr, Shl, Shr;
    Widen5(v % 32);
    Widen6(v / 32 % 64);
    Widen5(v / 2048);
  }

  // ----- decoding

  function GetIdx(idx: nat, i: nat): nat { Shr(BitAnd(idx, Shl(3, 2 * i)), 2 * i) }

  lemma GetIdxIs(idx: nat, i: nat)
    ensures GetIdx(idx, i) == Digit(idx, i)
  {
    Pow2Small();
    ShrAnd(idx, 3, 2 * i);
    AndMask(Shr(idx, 2 * i), 2);
    ShrDigit(idx, i);
  }

  lemma ShrTwo(m: nat, n: nat)
    ensures Shr(m, n + 2) == Shr(m / 4, n)
  {
    ShrOne(m, n + 1);
    ShrOne(m / 2, n);
    hide Shr;
    assert m / 2 / 2 == m / 4;
  }

  lemma ShrOne(m: nat, n: nat)
    ensures Shr(m, n + 1) == Shr(m / 2, n)
  {
    HalfMod(m, Pow2(n));
  }

  lemma {:induction false} ShrDigit(m: nat, t: nat)
    ensures Shr(m, 2 * t) % 4 == Digit(m, t)
  {
    if t > 0 {
      ShrTwo(m, 2 * t - 2);
      hide Shr;
      ShrDigit(m / 4, t - 1);
    } else {
      assert Pow2(0) == 1;
    }
  }

  function Of(c: Rgb): Color { Color(c.b, c.g, c.r, ALPHA) }

  lemma PackOf(c: Rgb)
    ensures Of(c).Pack() == TexelBytes(Opaque(c))
  {
  }

  lemma PackClear()
    ensures Color(0, 0, 0, 0).Pack() == TexelBytes(Transparent)
  {
  }

  lemma ThirdOf(p: Rgb, q: Rgb)
    ensures Of(p).Times(2).Plus(Of(q)).Over(3) == Of(Third(p, q))
  {
  }

  lemma HalfOf(p: Rgb, q: Rgb)
    requires p.r >= 0 && p.g >= 0 && p.b >= 0 && q.r >= 0 && q.g >= 0 && q.b >= 0
    ensures Of(p).Plus(Of(q)).Shifted(1) == Of(Half(p, q))
  {
    Pow2Small();
  }

  // The four colours of a block.
  method Colors(c0: nat, c1: nat, hasAlpha: bool, separate: bool) returns (c: array<Color>)
    requires c0 < 0x10000 && c1 < 0x10000
    ensures c.Length == 4 && fresh(c)
    ensures forall k :: 0 <= k < 4 ==> c[k].Pack() == TexelBytes(Palette4(c0, c1, hasAlpha, separate)[k])
  {
    c := new Color[4](k => Color(0, 0, 0, ALPHA));
    ExtractIs(c0);
    ExtractIs(c1);
    var p, q := From16Bit(c0), From16Bit(c1);
    hide Extract565, From16Bit, Third, Half, Color.Times, Color.Over, Color.Plus, Color.Shifted, Color.Pack, TexelBytes;
    c[0] := Extract565(c0);
    c[1] := Extract565(c1);
    assert c[0] == Of(p) && c[1] == Of(q);
    PackOf(p);
    PackOf(q);
    if separate || c0 > c1 {
      c[2] := c[0].Times(2).Plus(c[1]).Over(3);
      c[3] := c[1].Times(2).Plus(c[0]).Over(3);
      ThirdOf(p, q);
      ThirdOf(q, p);
      PackOf(Third(p, q));
      PackOf(Third(q, p));
    } else {
      c[2] := c[0].Plus(c[1]).Shifted(1);
      HalfOf(p, q);
      PackOf(Half(p, q));
      if hasAlpha {
        c[3] := c[3].(a := 0);
      }
      PackOf(Rgb(0, 0, 0));
      PackClear();
    }
  }

  method Decode(block: seq<byte>, dst: array<byte>, g: Grid, hasAlpha: bool, separate: bool)
    requires |block| == 8 && g.Fits(dst.Length) && 4 <= g.bpp
    modifies dst
    ensures Painted(g, dst[..], old(dst[..]), 0, 4, ColorTexels(block, hasAlpha, separate), 16)
  {
    hide Painted, Palette4, Grid.Fits, Grid.Slot, GetIdx, Digit, Le, Color.Pack, TexelBytes, Store;
    var c0, c1, idx := Word(block, 0), Word(block, 2), Le(block[4..]);
    var c := Colors(c0, c1, hasAlpha, separate);
    ghost var palette := Palette4(c0, c1, hasAlpha, separate);
    ghost var was, texels := dst[..], ColorTexels(block, hasAlpha, separate);
    PaintNone(g, was, 0, 4, texels);
    var j := 0;
    while j < 4 && g.y + j < g.h
      invariant j <= 4 && Painted(g, dst[..], was, 0, 4, texels, 4 * j)
      invariant forall k :: 0 <= k < 4 ==> c[k].Pack() == TexelBytes(palette[k])
    {
      var i := 0;
      while i < 4 && g.x + i < g.w
        invariant i <= 4 && Painted(g, dst[..], was, 0, 4, texels, 4 * j + i)
        invariant forall k :: 0 <= k < 4 ==> c[k].Pack() == TexelBytes(palette[k])
      {
        var t := 4 * j + i;
        GetIdxIs(idx, t);
        PaintStep(g, dst[..], was, 0, 4, texels, t);
        SlotIs(g, i, j);
        var d := c[GetIdx(idx, t)].Pack();
        assert texels[t] == d;
        StorePixel(dst, g.at + j * g.pitch + i * g.bpp, d);
        i := i + 1;
      }
      PaintSkip(g, dst[..], was, 0, 4, texels, 4 * j + i, 4 * j + 4);
      j := j + 1;
    }
    PaintSkip(g, dst[..], was, 0, 4, texels, 4 * j, 16);
  }

  method StorePixel(dst: array<byte>, s: nat, d: seq<byte>)
    requires |d| == 4 && s + 4 <= dst.Length
    modifies dst
    ensures dst[..] == Store(old(dst[..]), s, d)
  {
    dst[s], dst[s + 1], dst[s + 2], dst[s + 3] := d[0], d[1], d[2], d[3];
  }
}
