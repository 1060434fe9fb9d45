// `stb__CompressColorBlock`, for whatever its floating-point steps come up with, and the BC1 and BC3 blocks it goes into.

module BcCompress {
  import opened BitStream
  import opened BcTexture
  import opened BcChannel
  import opened BcColor
  import opened BcMatch
  import opened BcRefine

  // The results of floating-point steps: the principal axis of a block, the solution of the least-squares system in
  // 565 form, and the table of the best endpoints for a single colour.
  datatype Floats = Floats(axis: Block -> Direction, solve: Sums -> (u16, u16), single: Rgb -> (u16, u16))

  ghost function Total(block: Block, n: nat): (c: Rgb)
    requires n <= 16
    ensures 0 <= c.r <= 255 * n && 0 <= c.g <= 255 * n && 0 <= c.b <= 255 * n
  {
    if n == 0 then Rgb(0, 0, 0) else PlusTimes(Total(block, n - 1), 1, Pixel(block, n - 1))
  }

  // The mean colour, rounded half up.
  ghost function Mean(block: Block): Rgb {
    var c := Total(block, 16); Rgb((c.r + 8) / 16, (c.g + 8) / 16, (c.b + 8) / 16)
  }

  method Average(block: Block) returns (c: Rgb)
    ensures c == Mean(block)
  {
    var r, g, b := 8, 8, 8;
    for i := 0 to 16
      invariant Total(block, i) == Rgb(r - 8, g - 8, b - 8)
    {
      r := r + block[4 * i] as int;
      g := g + block[4 * i + 1] as int;
      b := b + block[4 * i + 2] as int;
    }
    c := Rgb(r / 16, g / 16, b / 16);
  }

  // The mean of the colours, rounded.
  lemma MeanNearest(block: Block)
    ensures var c, m := Total(block, 16), Mean(block);
      Abs(16 * m.r - c.r) <= 8 && Abs(16 * m.g - c.g) <= 8 && Abs(16 * m.b - c.b) <= 8
  {
  }

  // The endpoints to refine to: the system has a solution exactly when two texels differ in index.
  ghost function Refined(block: Block, f: Floats, idx: seq<nat>): (u16, u16)
    requires Indices(idx, 16)
  {
    if AllSame(idx) then f.single(Mean(block))
    else f.solve(Sums(SumX(block, idx), SumY(block, idx), SumXX(idx), SumYY(idx), SumXY(idx)))
  }

  method RefineBlock(block: Block, max0: u16, min0: u16, mask: nat, f: Floats, ghost idx: seq<nat>)
    returns (changed: bool, max16: u16, min16: u16)
    requires Indices(idx, 16) && mask == MaskOf(idx)
    ensures max16 <= min16 && {max16, min16} == {Refined(block, f, idx).0, Refined(block, f, idx).1}
    ensures changed <==> Refined(block, f, idx) != (max0, min0)
  {
    SameTestIs(idx);
    hide SameTest, MaskOf, AllSame;
    if SameTest(mask) {
      var c := Average(block);
      var pair := f.single(c);
      max16, min16 := pair.0, pair.1;
    } else {
      var s := Accumulate(block, mask, idx);
      Determinant(idx);
      // The reciprocal the solver takes.
      assert s.xx * s.yy - s.xy * s.xy != 0;
      var pair := f.solve(s);
      max16, min16 := pair.0, pair.1;
    }
    changed := min0 != min16 || max0 != max16;
    max16, min16 := ReorderColors(max16, min16);
  }

  // ----- the eight bytes of a block

  function Bytes(max16: u16, min16: u16, mask: nat): (d: seq<byte>)
    ensures |d| == 8
  {
    [max16 % 256, max16 / 256, min16 % 256, min16 / 256,
     mask % 256, mask / 0x100 % 256, mask / 0x10000 % 256, mask / 0x1000000 % 256]
  }

  lemma BytesRead(max16: u16, min16: u16, idx: seq<nat>, t: nat)
    requires Indices(idx, 16) && t < 16
    ensures var d := Bytes(max16, min16, MaskOf(idx));
      Word(d, 0) == max16 && Word(d, 2) == min16 && Digit(Le(d[4..]), t) == idx[t]
  {
    MaskPush(idx, 0);
    Pow32();
    DigitOfMask(idx, t);
    hide MaskOf, Pow2, Digit, Indices, Le;
    var m := MaskOf(idx);
    LeWord(Bytes(max16, min16, m)[4..], m);
  }

  lemma LeWord(d: seq<byte>, m: nat)
    requires m < 0x1_0000_0000 && |d| == 4
    requires d[0] == m % 256 && d[1] == m / 0x100 % 256 && d[2] == m / 0x10000 % 256 && d[3] == m / 0x1000000 % 256
    ensures Le(d) == m
  {
    var a, b, c := m / 0x100, m / 0x10000, m / 0x1000000;
    assert d[3..][1..] == [] && d[2..][1..] == d[3..] && d[1..][1..] == d[2..];
    assert Le(d[3..]) == c;
    assert b / 0x100 == c;
    assert Le(d[2..]) == b;
    assert a / 0x100 == b;
    assert Le(d[1..]) == a;
  }

  // ----- what decoding gives

  // Every texel decodes, in BC1 and in BC3, to the colour its index chose among the four.
  ghost predicate Shows4(d: seq<byte>, c0: u16, c1: u16, idx: seq<nat>)
    requires |d| == 8
  {
    Indices(idx, 16) &&
    forall t, hasAlpha, separate :: 0 <= t < 16 ==>
      TexelAt(d, hasAlpha, separate, t) == Opaque(Eval4Colors(c0, c1)[idx[t]])
  }

  lemma FinishDiffer(c0: u16, c1: u16, idx: seq<nat>)
    requires Indices(idx, 16) && c0 != c1
    ensures c0 > c1 ==> Shows4(Bytes(c0, c1, MaskOf(idx)), c0, c1, idx)
    ensures c0 < c1 && Indices(Flipped(idx), 16) ==> Shows4(Bytes(c1, c0, MaskOf(Flipped(idx))), c0, c1, idx)
  {
    hide Bytes, MaskOf, Digit, Eval4Colors, Eval3Colors, Le, Word, Flip;
    forall t | 0 <= t < 16
      ensures c0 > c1 ==> forall h, s :: TexelAt(Bytes(c0, c1, MaskOf(idx)), h, s, t) == Opaque(Eval4Colors(c0, c1)[idx[t]])
      ensures c0 < c1 && Indices(Flipped(idx), 16) ==>
        forall h, s :: TexelAt(Bytes(c1, c0, MaskOf(Flipped(idx))), h, s, t) == Opaque(Eval4Colors(c0, c1)[idx[t]])
    {
      if c0 > c1 {
        BytesRead(c0, c1, idx, t);
      } else if Indices(Flipped(idx), 16) {
        BytesRead(c1, c0, Flipped(idx), t);
        FlipKeeps(c0, c1, idx[t]);
      }
    }
  }

  lemma FinishSame(c: u16, idx: seq<nat>)
    requires Indices(idx, 16) && forall t :: 0 <= t < 16 ==> idx[t] in {0, 2}
    ensures Shows4(Bytes(c, c, MaskOf(idx)), c, c, idx)
  {
    forall t, h, s | 0 <= t < 16
      ensures TexelAt(Bytes(c, c, MaskOf(idx)), h, s, t) == Opaque(Eval4Colors(c, c)[idx[t]])
    {
      BytesRead(c, c, idx, t);
      OneColour(c);
      hide Bytes, MaskOf, Digit, Le, Word, From16Bit;
    }
  }

  lemma OneColour(c: u16)
    ensures var p := From16Bit(c); Third(p, p) == p == Half(p, p)
  {
  }

  // With the smaller endpoint first there are three colours, and index 3 is transparent.
  lemma FinishAlpha(c0: u16, c1: u16, idx: seq<nat>, t: nat)
    requires Indices(idx, 16) && t < 16
    ensures var x := TexelAt(Bytes(c0, c1, MaskOf(idx)), true, false, t);
      x == Palette4(c0, c1, true, false)[idx[t]] &&
      (c0 <= c1 ==> if idx[t] == 3 then x == Transparent else x == Opaque(Eval3Colors(c0, c1)[idx[t]])) &&
      (c0 > c1 ==> x == Opaque(Eval4Colors(c0, c1)[idx[t]])) &&
      (idx[t] != 3 ==> x.Opaque?)
  {
    BytesRead(c0, c1, idx, t);
    hide Bytes, MaskOf, Digit, Le, Word, Eval3Colors, Eval4Colors;
  }

  // ----- stb__CompressColorBlock

  ghost predicate Constant(block: Block) { forall i :: 0 <= i < 16 ==> block[4 * i..4 * i + 4] == block[..4] }

  method IsConstant(block: Block) returns (r: bool)
    ensures r == Constant(block)
  {
    var i := 1;
    while i < 16
      invariant 1 <= i <= 16 && forall k :: 0 <= k < i ==> block[4 * k..4 * k + 4] == block[..4]
    {
      if block[4 * i..4 * i + 4] != block[..4] { break; }
      i := i + 1;
    }
    r := i == 16;
  }

  method Write(dest: array<byte>, at: nat, max16: u16, min16: u16, mask: nat)
    requires at + 8 <= dest.Length
    modifies dest
    ensures dest[at..at + 8] == Bytes(max16, min16, mask)
    ensures forall k :: 0 <= k < dest.Length && !(at <= k < at + 8) ==> dest[k] == old(dest[k])
  {
    dest[at] := max16 % 256;
    dest[at + 1] := max16 / 256;
    dest[at + 2] := min16 % 256;
    dest[at + 3] := min16 / 256;
    dest[at + 4] := mask % 256;
    dest[at + 5] := mask / 0x100 % 256;
    dest[at + 6] := mask / 0x10000 % 256;
    dest[at + 7] := mask / 0x1000000 % 256;
  }

  // The indices are those of the nearest colours; when the endpoints are the same there is only one colour.
  ghost predicate Fitted(block: Block, c0: u16, c1: u16, idx: seq<nat>) {
    Indices(idx, 16) && c0 <= c1 && if c0 != c1 then Matched(idx, block, Eval4Colors(c0, c1)) else idx == Same(0)
  }

  method MatchColors(block: Block, c0: u16, c1: u16) returns (mask: nat, ghost idx: seq<nat>)
    requires c0 <= c1
    ensures Fitted(block, c0, c1, idx) && mask == MaskOf(idx)
  {
    hide Eval4Colors, MaskOf, Match4;
    if c0 != c1 {
      mask, idx := MatchColorsBlock(block, Eval4Colors(c0, c1));
    } else {
      Constants();
      mask, idx := 0, Same(0);
    }
  }

  // Endpoints and indices of a block that is not constant, without alpha.
  method FitBlock(block: Block, mode: nat, f: Floats) returns (max16: u16, min16: u16, mask: nat, ghost idx: seq<nat>)
    ensures Fitted(block, max16, min16, idx) && mask == MaskOf(idx)
  {
    hide Matched, MaskOf;
    var refinecount := if mode / 2 % 2 == 1 then 2 else 1;
    ghost var lo, hi;
    max16, min16, lo, hi := OptimizeColorsBlock(block, f.axis(block));
    mask, idx := MatchColors(block, max16, min16);
    for i := 0 to refinecount
      invariant Fitted(block, max16, min16, idx) && mask == MaskOf(idx)
    {
      var lastmask := mask;
      var changed;
      changed, max16, min16 := RefineBlock(block, max16, min16, mask, f, idx);
      if changed {
        mask, idx := MatchColors(block, max16, min16);
        if max16 == min16 { break; }
      }
      if mask == lastmask { break; }
    }
  }

  // The colour of texel `t` of a block with alpha. The endpoints of a constant block are not put in order, and index 2 is
  // a third of the way between them, or half of it.
  ghost function VisibleColor(block: Block, c0: u16, c1: u16, t: nat): Rgb
    requires t < 16
  {
    if Constant(block) then ConstantColor(c0, c1) else Eval3Colors(c0, c1)[Match3(Pixel(block, t), Eval3Colors(c0, c1))]
  }

  function ConstantColor(c0: u16, c1: u16): Rgb { if c0 > c1 then Eval4Colors(c0, c1)[2] else Eval3Colors(c0, c1)[2] }

  // A constant block gets the colour it gets without alpha exactly if its first endpoint is the greater one, or the third
  // and the half are the same.
  lemma ConstantAlike(c0: u16, c1: u16)
    ensures ConstantColor(c0, c1) == Eval4Colors(c0, c1)[2] <==>
      c0 > c1 || Half(From16Bit(c0), From16Bit(c1)) == Third(From16Bit(c0), From16Bit(c1))
  {
    hide Half, Third, From16Bit;
  }

  // Red 2, whose endpoints are the first two reds, becomes red 4.
  lemma RedTwo()
    ensures Eval4Colors(0, 0x800)[2] == Rgb(2, 0, 0) && ConstantColor(0, 0x800) == Rgb(4, 0, 0)
  {
    assert From16Bit(0) == Rgb(0, 0, 0) && From16Bit(0x800) == Rgb(8, 0, 0);
    hide From16Bit;
  }

  ghost predicate Decoded(d: seq<byte>, block: Block, alpha: bool, c0: u16, c1: u16, idx: seq<nat>, f: Floats)
    requires |d| == 8
  {
    (Constant(block) && !(alpha && Alpha(block, 0) == 0) ==> (c0, c1) == f.single(Pixel(block, 0)) && idx == Same(2)) &&
    if !alpha then
      Shows4(d, c0, c1, idx) &&
      (!Constant(block) ==> forall t :: 0 <= t < 16 ==> NearestStop(Pixel(block, t), Eval4Colors(c0, c1), idx[t]))
    else forall t :: 0 <= t < 16 ==>
      var x := TexelAt(d, true, false, t);
      (x == Transparent <==> Alpha(block, t) == 0) &&
      (Alpha(block, t) != 0 ==> x == Opaque(VisibleColor(block, c0, c1, t)))
  }

  lemma DecodedOpaque(block: Block, c0: u16, c1: u16, idx: seq<nat>, e0: u16, e1: u16, mask: nat, f: Floats)
    requires !Constant(block) && Fitted(block, c0, c1, idx)
    requires if c0 < c1 then (e0, e1, mask) == (c1, c0, MaskOf(Flipped(idx))) else (e0, e1, mask) == (c0, c1, MaskOf(idx))
    ensures Decoded(Bytes(e0, e1, mask), block, false, c0, c1, idx, f)
  {
    hide MaskOf, Bytes, Constant, NearestStop, Match4, Shows4, Eval4Colors;
    if c0 < c1 {
      FlipMask(idx);
      FinishDiffer(c0, c1, idx);
      forall t | 0 <= t < 16
        ensures NearestStop(Pixel(block, t), Eval4Colors(c0, c1), idx[t])
      {
        Match4Nearest(Pixel(block, t), c0, c1);
      }
    } else {
      FinishSame(c0, idx);
      forall t | 0 <= t < 16
        ensures NearestStop(Pixel(block, t), Eval4Colors(c0, c0), idx[t])
      {
        OneStop(Pixel(block, t), c0);
      }
    }
  }

  lemma OneStop(p: Rgb, c: u16)
    ensures NearestStop(p, Eval4Colors(c, c), 0)
  {
    OneColour(c);
    hide From16Bit;
  }

  lemma DecodedConstant(block: Block, c0: u16, c1: u16, e0: u16, e1: u16, mask: nat, f: Floats)
    requires Constant(block) && (c0, c1) == f.single(Pixel(block, 0))
    requires if c0 < c1 then (e0, e1, mask) == (c1, c0, MaskOf(Flipped(Same(2)))) else (e0, e1, mask) == (c0, c1, MaskOf(Same(2)))
    ensures Decoded(Bytes(e0, e1, mask), block, false, c0, c1, Same(2), f)
  {
    hide MaskOf, Bytes, Constant, Shows4, Eval4Colors;
    if c0 == c1 {
      FinishSame(c0, Same(2));
    } else {
      FlipMask(Same(2));
      FinishDiffer(c0, c1, Same(2));
    }
  }

  lemma ConstantAlpha(block: Block)
    requires Constant(block)
    ensures forall t :: 0 <= t < 16 ==> Alpha(block, t) == Alpha(block, 0)
  {
    forall t | 0 <= t < 16
      ensures Alpha(block, t) == Alpha(block, 0)
    {
      assert block[4 * t..4 * t + 4][3] == block[..4][3];
    }
  }

  lemma DecodedAlpha(block: Block, c0: u16, c1: u16, idx: seq<nat>, f: Floats)
    requires Indices(idx, 16)
    requires if !Constant(block) then c0 <= c1 && MatchedAlpha(idx, block, Eval3Colors(c0, c1))
             else if Alpha(block, 0) == 0 then c0 <= c1 && idx == Same(3)
             else idx == Same(2) && (c0, c1) == f.single(Pixel(block, 0))
    ensures Decoded(Bytes(c0, c1, MaskOf(idx)), block, true, c0, c1, idx, f)
  {
    hide MaskOf, Bytes, Constant, Match3, Eval3Colors, Eval4Colors, TexelAt, Palette4;
    if Constant(block) { ConstantAlpha(block); }
    forall t | 0 <= t < 16
      ensures var x := TexelAt(Bytes(c0, c1, MaskOf(idx)), true, false, t);
        (x == Transparent <==> Alpha(block, t) == 0) &&
        (Alpha(block, t) != 0 ==> x == Opaque(VisibleColor(block, c0, c1, t)))
    {
      FinishAlpha(c0, c1, idx, t);
    }
  }

  lemma AlphaIndices(block: Block, color: seq<Rgb>, idx: seq<nat>)
    requires |color| == 3 && MatchedAlpha(idx, block, color)
    ensures Indices(idx, 16)
  {
  }

  lemma OpaqueIndices(constant: bool, block: Block, c0: u16, c1: u16, idx: seq<nat>)
    requires if constant then idx == Same(2) else Fitted(block, c0, c1, idx)
    ensures Indices(idx, 16)
  {
  }

  method CompressColorBlock(dest: array<byte>, at: nat, block: Block, alpha: bool, mode: nat, f: Floats)
    returns (ghost c0: u16, ghost c1: u16, ghost idx: seq<nat>)
    requires at + 8 <= dest.Length
    modifies dest
    ensures forall k :: 0 <= k < dest.Length && !(at <= k < at + 8) ==> dest[k] == old(dest[k])
    ensures Decoded(dest[at..at + 8], block, alpha, c0, c1, idx, f)
  {
    hide MaskOf, Bytes, Constant, Decoded, Fitted, MatchedAlpha, Eval3Colors;
    var mask: nat;
    var max16: u16, min16: u16;
    var constant := IsConstant(block);
    Constants();
    if constant && block[3] == 0 && alpha {
      mask, max16, min16 := 0xFFFF_FFFF, 0, 0xffff;
      idx := Same(3);
    } else if constant {
      mask := 0xAAAA_AAAA;
      var pair := f.single(Pixel(block, 0));
      max16, min16 := pair.0, pair.1;
      idx := Same(2);
    } else if alpha {
      ghost var lo, hi;
      max16, min16, lo, hi := OptimizeColorsAlphaBlock(block, f.axis(block));
      mask, idx := MatchColorsAlphaBlock(block, Eval3Colors(max16, min16));
      AlphaIndices(block, Eval3Colors(max16, min16), idx);
    } else {
      max16, min16, mask, idx := FitBlock(block, mode, f);
    }
    c0, c1 := max16, min16;
    if !alpha {
      OpaqueIndices(constant, block, c0, c1, idx);
      max16, min16, mask := FinalizeColors(max16, min16, mask, idx);
      if constant {
        DecodedConstant(block, c0, c1, max16, min16, mask, f);
      } else {
        DecodedOpaque(block, c0, c1, idx, max16, min16, mask, f);
      }
    } else {
      DecodedAlpha(block, c0, c1, idx, f);
    }
    Write(dest, at, max16, min16, mask);
  }
}
