// BC1 and BC3 end to end: `stb_compress_bc1_block` and `stb_compress_bc3_block`, then `bcn::DecodeBc1` and `bcn::DecodeBc3`.

module Bc3 {
  import opened BitStream
  import opened BcTexture
  import BcChannel
  import opened BcColor
  import opened BcMatch
  import opened BcCompress

  method CompressBc1(dest: array<byte>, at: nat, src: Block, alpha: bool, mode: nat, f: Floats)
    returns (ghost c0: u16, ghost c1: u16, ghost idx: seq<nat>)
    requires at + 8 <= dest.Length
    modifies dest
    ensures forall k :: 0 <= k < dest.Length && !(at <= k < at + 8) ==> dest[k] == old(dest[k])
    ensures Decoded(dest[at..at + 8], src, alpha, c0, c1, idx, f)
  {
    c0, c1, idx := CompressColorBlock(dest, at, src, alpha, mode, f);
  }

  // The block without its alpha.
  ghost function Opaqued(src: Block): Block { seq<byte>(64, k requires 0 <= k < 64 => if k % 4 == 3 then 255 else src[k]) }

  ghost function Alphas(src: Block): (a: seq<byte>)
    ensures |a| == 16 && forall t :: 0 <= t < 16 ==> a[t] == Alpha(src, t)
  {
    seq(16, t requires 0 <= t < 16 => Alpha(src, t))
  }

  lemma ColumnIsAlphas(src: Block)
    ensures BcChannel.Column(src[3..], 4) == Alphas(src)
  {
  }

  method CompressBc3(dest: array<byte>, at: nat, src: Block, mode: nat, f: Floats)
    returns (ghost c0: u16, ghost c1: u16, ghost idx: seq<nat>)
    requires at + 16 <= dest.Length
    modifies dest
    ensures forall k :: 0 <= k < dest.Length && !(at <= k < at + 16) ==> dest[k] == old(dest[k])
    ensures BcChannel.Compressed(dest[at..at + 8], Alphas(src))
    ensures Decoded(dest[at + 8..at + 16], Opaqued(src), false, c0, c1, idx, f)
  {
    hide BcChannel.Compressed, Decoded;
    ColumnIsAlphas(src);
    BcChannel.CompressAlphaBlock(dest, at, src[3..], 4);
    ghost var first := dest[at..at + 8];
    var data := new byte[64](k requires 0 <= k < 64 => src[k]);
    for i := 0 to 16
      invariant forall k :: 0 <= k < 64 ==> data[k] == if k % 4 == 3 && k < 4 * i then 255 else src[k]
      invariant dest[at..at + 8] == first
      invariant forall k :: 0 <= k < dest.Length && !(at <= k < at + 8) ==> dest[k] == old(dest[k])
    {
      data[4 * i + 3] := 255;
    }
    assert data[..] == Opaqued(src);
    c0, c1, idx := CompressColorBlock(dest, at + 8, data[..], false, mode, f);
    assert dest[at..at + 8] == first;
  }

  function GridOf(at: nat, x: nat, y: nat, width: nat, height: nat): Grid { Grid(at, x, y, width, height, 4, 4 * width) }

  method DecodeBc1(src: seq<byte>, dst: array<byte>, at: nat, x: nat, y: nat, width: nat, height: nat)
    requires |src| == 8 && GridOf(at, x, y, width, height).Fits(dst.Length)
    modifies dst
    ensures Painted(GridOf(at, x, y, width, height), dst[..], old(dst[..]), 0, 4, ColorTexels(src, true, false), 16)
  {
    BcColor.Decode(src, dst, GridOf(at, x, y, width, height), true, false);
  }

  // A BC3 texel: the colour of the second half of the block, the alpha of the first.
  ghost function Bc3Texels(src: seq<byte>): (texels: seq<seq<byte>>)
    requires |src| == 16
    ensures |texels| == 16 && forall t :: 0 <= t < 16 ==> |texels[t]| == 4
  {
    var four, one := ColorTexels(src[8..], false, true), BcChannel.Texels(src[..8], false);
    seq(16, t requires 0 <= t < 16 => four[t][..3] + one[t])
  }

  // Painting bytes 0 to 4 of each texel and then byte 3 again.
  lemma Overpaint(g: Grid, a: seq<byte>, b: seq<byte>, c: seq<byte>, four: seq<seq<byte>>, one: seq<seq<byte>>,
    both: seq<seq<byte>>)
    requires |four| == 16 && forall t :: 0 <= t < 16 ==> |four[t]| == 4
    requires |one| == 16 && forall t :: 0 <= t < 16 ==> |one[t]| == 1
    requires |both| == 16 && forall t :: 0 <= t < 16 ==> both[t] == four[t][..3] + one[t]
    requires Painted(g, b, a, 0, 4, four, 16) && Painted(g, c, b, 3, 1, one, 16)
    ensures Painted(g, c, a, 0, 4, both, 16)
  {
    hide Grid.Slot, Grid.In;
    forall t: nat, k: nat | g.In(t) && t < 16 && g.Slot(t) <= k < g.Slot(t) + 4
      ensures k < |c| && c[k] == both[t][k - g.Slot(t) - 0]
    {
      Inside(g, |c|, t);
      if k < g.Slot(t) + 3 {
        forall t': nat | g.In(t') && t' < 16
          ensures !(g.Slot(t') + 3 <= k < g.Slot(t') + 4)
        {
          if g.Slot(t') + 3 == k { Apart(g, |c|, t, k - g.Slot(t), t', 3); }
        }
        assert c[k] == b[k];
      }
    }
    forall k: nat | k < |c| && forall t: nat :: g.In(t) && t < 16 ==> !(g.Slot(t) <= k < g.Slot(t) + 4)
      ensures c[k] == a[k]
    {
      assert forall t: nat :: g.In(t) && t < 16 ==> !(g.Slot(t) + 3 <= k < g.Slot(t) + 4);
      assert c[k] == b[k];
    }
  }

  method DecodeBc3(src: seq<byte>, dst: array<byte>, at: nat, x: nat, y: nat, width: nat, height: nat)
    requires |src| == 16 && GridOf(at, x, y, width, height).Fits(dst.Length)
    modifies dst
    ensures Painted(GridOf(at, x, y, width, height), dst[..], old(dst[..]), 0, 4, Bc3Texels(src), 16)
  {
    hide Painted, ColorTexels, BcChannel.Texels;
    var g := GridOf(at, x, y, width, height);
    ghost var was := dst[..];
    BcColor.Decode(src[8..], dst, g, false, true);
    ghost var colored := dst[..];
    BcChannel.Decode(src[..8], dst, g, 3, false);
    Overpaint(g, was, colored, dst[..], ColorTexels(src[8..], false, true), BcChannel.Texels(src[..8], false), Bc3Texels(src));
  }

  // ----- compressing one block and decoding it again

  lemma WholeTexture()
    ensures GridOf(0, 0, 0, 4, 4).Fits(64) && forall t: nat :: t < 16 ==> GridOf(0, 0, 0, 4, 4).In(t)
    ensures forall t: nat :: t < 16 ==> GridOf(0, 0, 0, 4, 4).Slot(t) == 4 * t
  {
  }

  lemma PaintedAll(now: seq<byte>, was: seq<byte>, texels: seq<seq<byte>>, t: nat)
    requires |now| == 64 && |texels| == 16 && (forall u :: 0 <= u < 16 ==> |texels[u]| == 4) && t < 16
    requires Painted(GridOf(0, 0, 0, 4, 4), now, was, 0, 4, texels, 16)
    ensures now[4 * t..4 * t + 4] == texels[t]
  {
    WholeTexture();
    var g := GridOf(0, 0, 0, 4, 4);
    assert g.In(t) && g.Slot(t) == 4 * t;
    hide Grid.In, Grid.Slot, Grid.Fits;
    forall c | 0 <= c < 4
      ensures now[4 * t + c] == texels[t][c]
    {
    }
  }

  method RoundTripBc1(src: Block, alpha: bool, mode: nat, f: Floats)
    returns (out: array<byte>, ghost c0: u16, ghost c1: u16, ghost idx: seq<nat>)
    ensures out.Length == 64 && (!alpha ==> |idx| == 16)
    // Without alpha every texel is opaque and, unless the block is constant, has the nearest of four colours.
    ensures !alpha ==> forall t :: 0 <= t < 16 ==>
      idx[t] < 4 && Shows(out[4 * t..4 * t + 4], Eval4Colors(c0, c1)[idx[t]]) && out[4 * t + 3] == 255 &&
      (!Constant(src) ==> NearestStop(Pixel(src, t), Eval4Colors(c0, c1), idx[t]))
    // With alpha exactly the texels of alpha zero are transparent; the others have the colour matched among three.
    ensures alpha ==> forall t :: 0 <= t < 16 ==> out[4 * t + 3] == if Alpha(src, t) == 0 then 0 else 255
    ensures alpha ==> forall t :: 0 <= t < 16 && Alpha(src, t) != 0 ==>
      Shows(out[4 * t..4 * t + 4], VisibleColor(src, c0, c1, t))
    ensures Constant(src) && !(alpha && Alpha(src, 0) == 0) ==> (c0, c1) == f.single(Pixel(src, 0))
  {
    hide Painted, ColorTexels, Decoded, NearestStop, Constant, TexelAt, TexelBytes, Eval4Colors, VisibleColor, Shows;
    var dest := new byte[8];
    c0, c1, idx := CompressBc1(dest, 0, src, alpha, mode, f);
    var d := dest[..];
    assert dest[0..8] == d;
    out := new byte[64];
    WholeTexture();
    ghost var was := out[..];
    DecodeBc1(d, out, 0, 0, 0, 4, 4);
    ghost var texels := ColorTexels(d, true, false);
    forall t | 0 <= t < 16
      ensures out[4 * t..4 * t + 4] == TexelBytes(TexelAt(d, true, false, t))
    {
      PaintedAll(out[..], was, texels, t);
      TexelsAre(d, true, false, t);
      assert out[..][4 * t..4 * t + 4] == out[4 * t..4 * t + 4];
    }
    if !alpha { DecodedSize(d, src, c0, c1, idx, f); }
    DecodedSingle(d, src, alpha, c0, c1, idx, f);
    forall t | 0 <= t < 16
      ensures !alpha ==> idx[t] < 4 && Shows(out[4 * t..4 * t + 4], Eval4Colors(c0, c1)[idx[t]]) && out[4 * t + 3] == 255
      ensures !alpha && !Constant(src) ==> NearestStop(Pixel(src, t), Eval4Colors(c0, c1), idx[t])
      ensures alpha ==> out[4 * t + 3] == if Alpha(src, t) == 0 then 0 else 255
      ensures alpha && Alpha(src, t) != 0 ==> Shows(out[4 * t..4 * t + 4], VisibleColor(src, c0, c1, t))
    {
      EvalColors(c0, c1);
      assert out[4 * t + 3] == out[4 * t..4 * t + 4][3];
      if alpha {
        AlphaKept(d, src, c0, c1, idx, f, t);
        VisibleIs(src, c0, c1, t);
        OpaqueShows(VisibleColor(src, c0, c1, t));
      } else {
        DecodedAt(d, src, c0, c1, idx, f, true, false, t);
        OpaqueShows(Eval4Colors(c0, c1)[idx[t]]);
      }
    }
  }

  lemma ColorShows(c: Rgb)
    requires IsColor(c)
    ensures Shows(TexelBytes(Opaque(c))[..3], c)
  {
  }

  lemma VisibleIs(src: Block, c0: u16, c1: u16, t: nat)
    requires t < 16
    ensures IsColor(VisibleColor(src, c0, c1, t))
  {
    hide Eval4Colors, Eval3Colors, Constant, IsColor, Match3;
    EvalColors(c0, c1);
  }

  lemma DecodedSize(d: seq<byte>, src: Block, c0: u16, c1: u16, idx: seq<nat>, f: Floats)
    requires |d| == 8 && Decoded(d, src, false, c0, c1, idx, f)
    ensures |idx| == 16 && forall t :: 0 <= t < 16 ==> idx[t] < 4
  {
  }

  lemma DecodedAt(d: seq<byte>, src: Block, c0: u16, c1: u16, idx: seq<nat>, f: Floats, h: bool, s: bool, t: nat)
    requires |d| == 8 && Decoded(d, src, false, c0, c1, idx, f) && t < 16
    ensures |idx| == 16 && idx[t] < 4 && TexelAt(d, h, s, t) == Opaque(Eval4Colors(c0, c1)[idx[t]])
    ensures !Constant(src) ==> NearestStop(Pixel(src, t), Eval4Colors(c0, c1), idx[t])
  {
    hide TexelAt, NearestStop, Constant, Eval4Colors;
  }

  lemma AlphaKept(d: seq<byte>, src: Block, c0: u16, c1: u16, idx: seq<nat>, f: Floats, t: nat)
    requires |d| == 8 && Decoded(d, src, true, c0, c1, idx, f) && t < 16
    ensures TexelBytes(TexelAt(d, true, false, t))[3] == if Alpha(src, t) == 0 then 0 else 255
    ensures Alpha(src, t) != 0 ==> TexelAt(d, true, false, t) == Opaque(VisibleColor(src, c0, c1, t))
  {
    hide TexelAt, VisibleColor;
  }

  lemma DecodedSingle(d: seq<byte>, src: Block, alpha: bool, c0: u16, c1: u16, idx: seq<nat>, f: Floats)
    requires |d| == 8 && Decoded(d, src, alpha, c0, c1, idx, f)
    ensures Constant(src) && !(alpha && Alpha(src, 0) == 0) ==> (c0, c1) == f.single(Pixel(src, 0))
  {
    hide Constant, TexelAt, VisibleColor, Shows4, NearestStop;
  }

  lemma TexelsAre(d: seq<byte>, hasAlpha: bool, separate: bool, t: nat)
    requires |d| == 8 && t < 16
    ensures ColorTexels(d, hasAlpha, separate)[t] == TexelBytes(TexelAt(d, hasAlpha, separate, t))
  {
  }

  // ... and through BC3 the alpha comes back exactly, or within the bound; the colour ignores alpha.
  method RoundTripBc3(src: Block, mode: nat, f: Floats)
    returns (out: array<byte>, ghost c0: u16, ghost c1: u16, ghost idx: seq<nat>, ghost mn: byte, ghost mx: byte)
    ensures out.Length == 64 && |idx| == 16 && mn <= mx
    ensures forall t :: 0 <= t < 16 ==>
      idx[t] < 4 && Shows(out[4 * t..4 * t + 3], Eval4Colors(c0, c1)[idx[t]]) &&
      (!Constant(Opaqued(src)) ==> NearestStop(Pixel(src, t), Eval4Colors(c0, c1), idx[t]))
    ensures BcChannel.Range(Alphas(src), mn, mx)
    ensures forall t :: 0 <= t < 16 ==>
      if mx - mn <= 7 then out[4 * t + 3] == Alpha(src, t)
      else 14 * Abs(out[4 * t + 3] as int - Alpha(src, t)) <= mx - mn + 7
  {
    hide Painted, Bc3Texels, Decoded, NearestStop, Constant, TexelAt, TexelBytes, Eval4Colors, BcChannel.Compressed, BcChannel.Value, Opaqued, Pixel, Shows;
    var dest := new byte[16];
    c0, c1, idx := CompressBc3(dest, 0, src, mode, f);
    var d := dest[..];
    assert dest[0..8] == d[..8] && dest[8..16] == d[8..];
    out := new byte[64];
    WholeTexture();
    ghost var was := out[..];
    DecodeBc3(d, out, 0, 0, 0, 4, 4);
    mn, mx := d[1], d[0];
    DecodedSize(d[8..], Opaqued(src), c0, c1, idx, f);
    BcChannel.CompressedRange(d[..8], Alphas(src));
    hide BcChannel.Range, Alphas, Alpha, Indices;
    forall t | 0 <= t < 16
      ensures Shows(out[4 * t..4 * t + 3], Eval4Colors(c0, c1)[idx[t]])
      ensures !Constant(Opaqued(src)) ==> NearestStop(Pixel(src, t), Eval4Colors(c0, c1), idx[t])
      ensures if mx - mn <= 7 then out[4 * t + 3] == Alpha(src, t)
              else 14 * Abs(out[4 * t + 3] as int - Alpha(src, t)) <= mx - mn + 7
    {
      TexelBack(d, out[..], was, src, c0, c1, idx, f, t);
      assert out[4 * t..4 * t + 3] == out[..][4 * t..4 * t + 3];
      EvalColors(c0, c1);
      ColorShows(Eval4Colors(c0, c1)[idx[t]]);
    }
  }

  // Exact for small ranges, and otherwise off by no more than rounding to one of eight steps makes it.
  ghost predicate AlphaClose(dist: int, got: byte, alpha: byte) {
    if dist <= 7 then got == alpha else 14 * Abs(got as int - alpha) <= dist + 7
  }

  // One texel of the painted block.
  lemma TexelBack(d: seq<byte>, now: seq<byte>, was: seq<byte>, src: Block, c0: u16, c1: u16, idx: seq<nat>,
    f: Floats, t: nat)
    requires |d| == 16 && |now| == 64 && t < 16 && Painted(GridOf(0, 0, 0, 4, 4), now, was, 0, 4, Bc3Texels(d), 16)
    requires BcChannel.Compressed(d[..8], Alphas(src)) && Decoded(d[8..], Opaqued(src), false, c0, c1, idx, f)
    requires |idx| == 16 && idx[t] < 4
    ensures now[4 * t..4 * t + 3] == TexelBytes(Opaque(Eval4Colors(c0, c1)[idx[t]]))[..3]
    ensures !Constant(Opaqued(src)) ==> NearestStop(Pixel(src, t), Eval4Colors(c0, c1), idx[t])
    ensures AlphaClose(d[0] as int - d[1], now[4 * t + 3], Alpha(src, t))
  {
    hide Painted, Bc3Texels, Decoded, NearestStop, Constant, TexelAt, TexelBytes, Eval4Colors, BcChannel.Compressed, BcChannel.Value, Opaqued, Pixel, Shows;
    PaintedAll(now, was, Bc3Texels(d), t);
    Bc3TexelIs(d, t);
    DecodedAt(d[8..], Opaqued(src), c0, c1, idx, f, false, true, t);
    SamePixel(src, t);
    AlphaAt(d[..8], src, t);
    assert now[4 * t..4 * t + 3] == now[4 * t..4 * t + 4][..3] && now[4 * t + 3] == now[4 * t..4 * t + 4][3];
  }

  lemma SamePixel(src: Block, t: nat)
    requires t < 16
    ensures Pixel(Opaqued(src), t) == Pixel(src, t)
  {
  }

  lemma Bc3TexelIs(d: seq<byte>, t: nat)
    requires |d| == 16 && t < 16
    ensures var x := Bc3Texels(d)[t];
      x[..3] == TexelBytes(TexelAt(d[8..], false, true, t))[..3] && x[3] as int == BcChannel.Value(d[..8], false, t) % 256
  {
    TexelsAre(d[8..], false, true, t);
  }

  lemma AlphaAt(d: seq<byte>, src: Block, t: nat)
    requires |d| == 8 && BcChannel.Compressed(d, Alphas(src)) && t < 16
    ensures var v, dist := BcChannel.Value(d, false, t), d[0] as int - d[1];
      0 <= v < 256 &&
      if dist <= 7 then v == Alpha(src, t) as int else 14 * Abs(v - Alpha(src, t)) <= dist + 7
  {
    assert BcChannel.Approximates(d, t, Alphas(src)[t]);
    BcChannel.PaletteRange(d[0], d[1], BcChannel.Index(d, t));
  }
}
