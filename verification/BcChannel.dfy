// One channel of a BC3, BC4 or BC5 block: the decoder `BC_channel`, and `stb__CompressAlphaBlock` against it.

module BcChannel {
  import opened BitStream
  import opened BcTexture

  // ----- what a block means

  function Endpoint(b: byte, isSigned: bool): int { if isSigned && b >= 128 then b as int - 256 else b }

  // The value index `i` stands for.
  function Palette(c0: int, c1: int, isSigned: bool, i: nat): int {
    if i == 0 then c0
    else if i == 1 then c1
    else if c0 > c1 then Quotient((8 - i) * c0 + (i - 1) * c1, 7)
    else if i < 6 then Quotient((6 - i) * c0 + (i - 1) * c1, 5)
    else if i == 6 then (if isSigned then -128 else 0)
    else if isSigned then 127 else 255
  }

  // Three bits for each texel, behind the two endpoints.
  ghost function Index(block: seq<byte>, t: nat): (i: nat)
    ensures i < 8
  {
    NatBound(Window(BytesBits(block), 16 + 3 * t, 3));
    Pow2Small();
    Nat(Window(BytesBits(block), 16 + 3 * t, 3))
  }

  ghost function Value(block: seq<byte>, isSigned: bool, t: nat): int
    requires |block| == 8
  {
    Palette(Endpoint(block[0], isSigned), Endpoint(block[1], isSigned), isSigned, Index(block, t))
  }

  ghost function Texels(block: seq<byte>, isSigned: bool): (texels: seq<seq<byte>>)
    requires |block| == 8
    ensures |texels| == 16 && forall t :: 0 <= t < 16 ==> |texels[t]| == 1
  {
    seq(16, t requires 0 <= t < 16 => [(Value(block, isSigned, t) % 256) as byte])
  }

  // ----- BC_channel::decode

  function GetIdx(data: nat, i: nat): nat { Shr(BitAnd(data, Shl(7, 3 * i + 16)), 3 * i + 16) }

  lemma GetIdxIs(block: seq<byte>, i: nat)
    requires |block| == 8 && i < 16
    ensures GetIdx(Le(block), i) == Index(block, i) < 8
  {
    Pow2Small();
    LeBits(block);
    FieldIs(BytesBits(block), 3 * i + 16, 3);
    NatBound(Window(BytesBits(block), 16 + 3 * i, 3));
  }

  lemma EndpointBytes(block: seq<byte>)
    requires |block| == 8
    ensures BitAnd(Le(block), 0xFF) == block[0] && Shr(BitAnd(Le(block), 0xFF00), 8) == block[1]
  {
    var s := BytesBits(block);
    Pow2Small();
    LeBits(block);
    FieldIs(s, 0, 8);
    FieldIs(s, 8, 8);
    assert Shl(255, 0) == 255 && Shl(255, 8) == 0xFF00 by { assert Pow2(0) == 1; }
    ByteWindow(block, 0);
    ByteWindow(block, 1);
    assert Shr(BitAnd(Nat(s), 255), 0) == BitAnd(Nat(s), 255) by { assert Pow2(0) == 1; }
  }

  // The eight values of a block.
  method Values(c0: int, c1: int, isSigned: bool) returns (c: array<int>)
    ensures c.Length == 8 && fresh(c) && forall i :: 0 <= i < 8 ==> c[i] == Palette(c0, c1, isSigned, i)
  {
    c := new int[8];
    c[0], c[1] := c0, c1;
    if c[0] > c[1] {
      for i := 2 to 8
        invariant c[0] == c0 && c[1] == c1
        invariant forall k :: 2 <= k < i ==> c[k] == Palette(c0, c1, isSigned, k)
      {
        c[i] := Quotient((8 - i) * c[0] + (i - 1) * c[1], 7);
      }
    } else {
      for i := 2 to 6
        invariant c[0] == c0 && c[1] == c1
        invariant forall k :: 2 <= k < i ==> c[k] == Palette(c0, c1, isSigned, k)
      {
        c[i] := Quotient((6 - i) * c[0] + (i - 1) * c[1], 5);
      }
      c[6] := if isSigned then -128 else 0;
      c[7] := if isSigned then 127 else 255;
    }
  }

  method Decode(block: seq<byte>, dst: array<byte>, g: Grid, channel: nat, isSigned: bool)
    requires |block| == 8 && g.Fits(dst.Length) && channel < g.bpp
    modifies dst
    ensures Painted(g, dst[..], old(dst[..]), channel, 1, Texels(block, isSigned), 16)
  {
    hide Painted, Palette, Grid.Fits, GetIdx, Index, Le, BitAnd, Shr, BytesBits, Window;
    var data := Le(block);
    EndpointBytes(block);
    var c0, c1 := Endpoint(BitAnd(data, 0xFF), isSigned), Endpoint(Shr(BitAnd(data, 0xFF00), 8), isSigned);
    var c := Values(c0, c1, isSigned);
    ghost var was, texels := dst[..], Texels(block, isSigned);
    PaintNone(g, was, channel, 1, texels);
    var j := 0;
    while j < 4 && g.y + j < g.h
      invariant j <= 4 && Painted(g, dst[..], was, channel, 1, texels, 4 * j)
      invariant forall i :: 0 <= i < 8 ==> c[i] == Palette(c0, c1, isSigned, i)
    {
      var i := 0;
      while i < 4 && g.x + i < g.w
        invariant i <= 4 && Painted(g, dst[..], was, channel, 1, texels, 4 * j + i)
        invariant forall i :: 0 <= i < 8 ==> c[i] == Palette(c0, c1, isSigned, i)
      {
        var t := 4 * j + i;
        GetIdxIs(block, t);
        PaintStep(g, dst[..], was, channel, 1, texels, t);
        SlotIs(g, i, j);
        ghost var before := dst[..];
        var v: byte := c[GetIdx(data, t)] % 256;
        assert texels[t] == [v];
        dst[g.at + channel + i * g.bpp + j * g.pitch] := v;
        StoreOne(before, g.Slot(t) + channel, v);
        i := i + 1;
      }
      PaintSkip(g, dst[..], was, channel, 1, texels, 4 * j + i, 4 * j + 4);
      j := j + 1;
    }
    PaintSkip(g, dst[..], was, channel, 1, texels, 4 * j, 16);
  }

  lemma SlotIs(g: Grid, i: nat, j: nat)
    requires i < 4
    ensures g.Slot(4 * j + i) == g.at + i * g.bpp + j * g.pitch
  {
    assert (4 * j + i) % 4 == i && (4 * j + i) / 4 == j;
  }

  // The values between the endpoints are sevenths of the way from the first to the second, or fifths if the first is not
  // greater; then the last two are the ends of the range.
  lemma PaletteSteps(c0: int, c1: int, isSigned: bool, i: nat)
    requires i < 8
    ensures var v := Palette(c0, c1, isSigned, i);
      (i == 0 ==> v == c0) && (i == 1 ==> v == c1) &&
      (c0 > c1 && i >= 2 ==> -7 < 7 * (v - c0) + (i - 1) * (c0 - c1) < 7) &&
      (c0 <= c1 && 2 <= i < 6 ==> -5 < 5 * (v - c0) - (i - 1) * (c1 - c0) < 5) &&
      (c0 <= c1 && i == 6 ==> v == if isSigned then -128 else 0) && (c0 <= c1 && i == 7 ==> v == if isSigned then 127 else 255)
  {
    hide Quotient;
    if c0 > c1 && i >= 2 { Seventh((8 - i) * c0 + (i - 1) * c1); }
    if c0 <= c1 && 2 <= i < 6 { Fifth((6 - i) * c0 + (i - 1) * c1); }
    assert (8 - i) * c0 + (i - 1) * c1 == 7 * c0 - (i - 1) * (c0 - c1);
    assert (6 - i) * c0 + (i - 1) * c1 == 5 * c0 + (i - 1) * (c1 - c0);
  }

  lemma Seventh(a: int)
    ensures -7 < 7 * Quotient(a, 7) - a < 7
  {
  }

  lemma Fifth(a: int)
    ensures -5 < 5 * Quotient(a, 5) - a < 5
  {
  }

  lemma PaletteRange(c0: byte, c1: byte, i: nat)
    requires i < 8
    ensures 0 <= Palette(c0, c1, false, i) < 256
  {
    assert i in {0, 1, 2, 3, 4, 5, 6, 7};
  }

  // ----- how close the compressor's indices come

  // The value `k` sevenths of the way from the smaller to the larger endpoint, above the smaller one.
  function Step(dist: nat, k: nat): nat { k * dist / 7 }

  function Bias(dist: int): int { if dist < 8 then dist - 1 else dist / 2 + 2 }

  lemma PaletteStep(mn: byte, mx: byte, k: nat)
    requires mn < mx && k <= 7
    ensures Palette(mx, mn, false, if k == 7 then 0 else if k == 0 then 1 else 8 - k) == mn + Step(mx - mn, k)
  {
    var lo: int, hi: int := mn, mx;
    if 1 <= k <= 6 {
      var i := 8 - k;
      assert (8 - i) * hi + (i - 1) * lo == k * (hi - lo) + 7 * lo;
      assert (k * (hi - lo) + 7 * lo) / 7 == k * (hi - lo) / 7 + lo;
    }
  }

  lemma StepMonotone(dist: nat, a: nat, b: nat)
    requires a <= b
    ensures Step(dist, a) <= Step(dist, b)
  {
    Distribute(a, b - a, dist);
    MulNonNegative(b - a, dist);
  }

  // `x` and `x + dist` are both six above a multiple of seven only if neither step is.
  lemma NotBothSix(dist: nat, k: nat)
    ensures !(k * dist % 7 == 6 && (k + 1) * dist % 7 == 6)
  {
    Distribute(k, 1, dist);
    if dist % 7 == 0 {
      var m := dist / 7;
      assert k * dist == 7 * (k * m) by { assert dist == 7 * m; }
    }
  }

  // The step the thresholds pick for an offset `u` is a nearest one.
  lemma Nearest(dist: nat, u: nat, k: nat, j: nat)
    requires 8 <= dist && u <= dist
    requires k * dist <= 7 * u + Bias(dist) < (k + 1) * dist
    ensures Abs(Step(dist, k) - u) <= Abs(Step(dist, j) - u)
  {
    hide Step;
    if j > k {
      HalfwayUp(dist, u, k);
      StepMonotone(dist, k + 1, j);
      StepMonotone(dist, k, k + 1);
    } else if j < k {
      HalfwayDown(dist, u, k);
      StepMonotone(dist, j, k - 1);
      StepMonotone(dist, k - 1, k);
    }
  }

  lemma HalfwayUp(dist: nat, u: nat, k: nat)
    requires 8 <= dist && 7 * u + Bias(dist) < (k + 1) * dist
    ensures Step(dist, k) + Step(dist, k + 1) >= 2 * u
  {
    NotBothSix(dist, k);
    Distribute(k, 1, dist);
    var x := k * dist;
    var p, q := x / 7, (x + dist) / 7;
    assert x == 7 * p + x % 7 && x + dist == 7 * q + (x + dist) % 7;
  }

  lemma HalfwayDown(dist: nat, u: nat, k: nat)
    requires 8 <= dist && k > 0 && k * dist <= 7 * u + Bias(dist)
    ensures Step(dist, k - 1) + Step(dist, k) <= 2 * u
  {
    Distribute(k - 1, 1, dist);
    var y := (k - 1) * dist;
    assert y + dist == k * dist;
    assert y / 7 * 7 <= y && (y + dist) / 7 * 7 <= y + dist;
  }

  lemma Bounded(dist: nat, u: nat, k: nat)
    requires 1 <= dist && u <= dist && k * dist <= 7 * u + Bias(dist) < (k + 1) * dist
    ensures if dist <= 7 then Step(dist, k) == u else 14 * Abs(Step(dist, k) - u) <= dist + 7
  {
    Distribute(k, 1, dist);
    var x := k * dist;
    assert x - 6 <= x / 7 * 7 <= x;
  }

  // ----- stb__CompressAlphaBlock

  // Is `v` what the block's values offer for `a`: a nearest one, exact when the endpoints are close?
  ghost predicate Approximates(block: seq<byte>, t: nat, a: byte)
    requires |block| == 8
  {
    var v, dist := Value(block, false, t), block[0] as int - block[1];
    (forall k: nat :: k < 8 ==> Abs(v - a) <= Abs(Palette(block[0], block[1], false, k) - a)) &&
    if dist <= 7 then v == a else 14 * Abs(v - a) <= dist + 7
  }

  // What the index has to be for `Approximates`, in terms of `a = 7 * (alpha - mn) + bias`.
  ghost predicate Picked(ind: nat, a: int, dist: int) {
    ind < 8 &&
    if dist == 0 then ind == 1
    else var k := if ind == 0 then 7 else if ind == 1 then 0 else 8 - ind; k * dist <= a < (k + 1) * dist
  }

  lemma PickedApproximates(mn: byte, mx: byte, v: byte, ind: nat)
    requires mn <= v <= mx && Picked(ind, 7 * (v as int - mn) + Bias(mx - mn), mx - mn)
    ensures var p := Palette(mx, mn, false, ind);
      (forall k: nat :: k < 8 ==> Abs(p - v) <= Abs(Palette(mx, mn, false, k) - v)) &&
      if mx - mn <= 7 then p == v else 14 * Abs(p - v) <= mx - mn + 7
  {
    var dist := mx - mn;
    if dist > 0 {
      var k := if ind == 0 then 7 else if ind == 1 then 0 else 8 - ind;
      PaletteStep(mn, mx, k);
      Bounded(dist, v - mn, k);
      hide Palette, Step;
      forall i: nat | i < 8 && dist >= 8
        ensures Abs(mn + Step(dist, k) - v) <= Abs(Palette(mx, mn, false, i) - v)
      {
        var j := if i == 0 then 7 else if i == 1 then 0 else 8 - i;
        PaletteStep(mn, mx, j);
        Nearest(dist, v - mn, k, j);
      }
    }
  }

  // `t & v`, for a `t` that is all ones or all zeros.
  function Masked(t: int, v: int): int { if t == -1 then v else 0 }

  // The index, without branches in the source.
  method PickIndex(a0: int, dist: nat) returns (ind: nat)
    requires if dist == 0 then a0 < 0 else 0 <= a0 < 8 * dist
    ensures Picked(ind, a0, dist)
  {
    var dist4, dist2, a := dist * 4, dist * 2, a0;
    var t := if a >= dist4 then -1 else 0;
    var s := Masked(t, 4);
    a := a - Masked(t, dist4);
    t := if a >= dist2 then -1 else 0;
    s := s + Masked(t, 2);
    a := a - Masked(t, dist2);
    s := s + if a >= dist then 1 else 0;
    // A linear scale becomes the block's numbering, where 0 and 1 are the endpoints.
    ind := -s % 8;
    ind := BitXor(ind, if 2 > ind then 1 else 0);
    assert ind == if s == 0 then 1 else if s == 7 then 0 else 8 - s;
  }

  // The sixteen values, `stride` bytes apart.
  ghost function Column(src: seq<byte>, stride: nat): (vals: seq<byte>)
    requires 15 * stride < |src|
    ensures |vals| == 16
  {
    seq(16, i requires 0 <= i < 16 => ByteAt(src, i * stride))
  }

  lemma ColumnAt(src: seq<byte>, stride: nat, i: nat)
    requires 15 * stride < |src| && i < 16
    ensures i * stride < |src| && Column(src, stride)[i] == src[i * stride]
  {
    Distribute(i, 15 - i, stride);
    MulNonNegative(15 - i, stride);
  }

  // The smallest and the largest of the values.
  ghost predicate Range(vals: seq<byte>, mn: byte, mx: byte) {
    mn in vals && mx in vals && forall i :: 0 <= i < |vals| ==> mn <= vals[i] <= mx
  }

  lemma InRange(vals: seq<byte>, mn: byte, mx: byte, i: nat)
    requires Range(vals, mn, mx) && i < |vals|
    ensures mn <= vals[i] <= mx
  {
  }

  method Extremes(src: seq<byte>, stride: nat) returns (mn: byte, mx: byte)
    requires 15 * stride < |src|
    ensures Range(Column(src, stride), mn, mx)
  {
    ghost var vals := Column(src, stride);
    hide Column;
    ColumnAt(src, stride, 0);
    mn, mx := src[0], src[0];
    for i := 1 to 16
      invariant Range(vals[..i], mn, mx)
    {
      ColumnAt(src, stride, i);
      var v := src[i * stride];
      assert vals[..i + 1] == vals[..i] + [v];
      if v < mn {
        mn := v;
      } else if v > mx {
        mx := v;
      }
    }
    assert vals[..16] == vals;
  }

  ghost function IndexBits(inds: seq<nat>): (b: seq<bool>)
    ensures |b| == 3 * |inds|
  {
    if inds == [] then [] else IndexBits(inds[..|inds| - 1]) + Bits(inds[|inds| - 1], 3)
  }

  lemma {:induction false} IndexBitsAt(inds: seq<nat>, t: nat)
    requires t < |inds|
    ensures IndexBits(inds)[3 * t..3 * t + 3] == Bits(inds[t], 3)
  {
    var n := |inds| - 1;
    if t < n {
      IndexBitsAt(inds[..n], t);
      assert IndexBits(inds)[3 * t..3 * t + 3] == IndexBits(inds[..n])[3 * t..3 * t + 3];
    }
  }

  // The bits of the block so far: whole bytes, and what is still in `mask`.
  ghost predicate Packed(done: seq<byte>, mask: nat, bits: nat, all: seq<bool>) {
    mask < Pow2(bits) && BytesBits(done) + Bits(mask, bits) == all
  }

  lemma PackIndex(done: seq<byte>, mask: nat, bits: nat, ind: nat, all: seq<bool>)
    requires Packed(done, mask, bits, all) && ind < 8
    ensures Packed(done, BitOr(mask, Shl(ind, bits)), bits + 3, all + Bits(ind, 3))
  {
    Pow2Small();
    AddBits(mask, bits, ind, 3);
    hide Pow2, Bits, BytesBits, BitOr, Shl;
    assert BytesBits(done) + (Bits(mask, bits) + Bits(ind, 3)) == all + Bits(ind, 3);
  }

  lemma PackByte(done: seq<byte>, mask: nat, bits: nat, all: seq<bool>)
    requires Packed(done, mask, bits, all) && bits >= 8
    ensures BitAnd(mask, 0xFF) < 256 && Packed(done + [BitAnd(mask, 0xFF)], Shr(mask, 8), bits - 8, all)
  {
    FlushBits(mask, bits);
    var low: byte := BitAnd(mask, 0xFF);
    BytesBitsConcat(done, [low]);
    OneByte(low);
    hide Pow2, Bits, BytesBits, BitAnd, Shr;
    assert BytesBits(done) + (Bits(low, 8) + Bits(Shr(mask, 8), bits - 8)) == all;
  }

  lemma BlockIndex(block: seq<byte>, inds: seq<nat>, t: nat)
    requires |block| == 8 && |inds| == 16 && BytesBits(block[2..]) == IndexBits(inds) && t < 16 && inds[t] < 8
    ensures Index(block, t) == inds[t]
  {
    var s := BytesBits(block);
    assert block == block[..2] + block[2..];
    BytesBitsConcat(block[..2], block[2..]);
    WindowInside(s, 16 + 3 * t, 3);
    assert s[16 + 3 * t..16 + 3 * t + 3] == IndexBits(inds)[3 * t..3 * t + 3];
    IndexBitsAt(inds, t);
    Pow2Small();
    NatOfBits(inds[t], 3);
  }

  ghost predicate Compressed(block: seq<byte>, vals: seq<byte>)
    requires |block| == 8 && |vals| == 16
  {
    Range(vals, block[1], block[0]) && forall i :: 0 <= i < 16 ==> Approximates(block, i, vals[i])
  }

  lemma CompressedRange(block: seq<byte>, vals: seq<byte>)
    requires |block| == 8 && |vals| == 16 && Compressed(block, vals)
    ensures Range(vals, block[1], block[0])
  {
  }

  ghost predicate Chosen(ind: nat, v: byte, mn: byte, mx: byte) {
    Picked(ind, 7 * (v as int - mn) + Bias(mx as int - mn), mx as int - mn)
  }

  lemma {:induction false} PickedCompressed(block: seq<byte>, vals: seq<byte>, inds: seq<nat>)
    requires |block| == 8 && |vals| == 16 && Range(vals, block[1], block[0])
    requires |inds| == 16 && BytesBits(block[2..]) == IndexBits(inds)
    requires forall i :: 0 <= i < 16 ==> Chosen(inds[i], vals[i], block[1], block[0])
    ensures Compressed(block, vals)
  {
    forall i | 0 <= i < 16
      ensures Approximates(block, i, vals[i])
    {
      BlockIndex(block, inds, i);
      PickedApproximates(block[1], block[0], vals[i], inds[i]);
    }
  }

  // Writes one index into the block, and a byte of it when one is full.
  method WriteIndex(dest: array<byte>, start: nat, p0: nat, mask0: nat, bits0: nat, ind: nat, ghost all: seq<bool>)
    returns (p: nat, mask: nat, bits: nat)
    requires start <= p0 < dest.Length && bits0 < 8 && ind < 8 && Packed(dest[start..p0], mask0, bits0, all)
    modifies dest
    ensures p in {p0, p0 + 1} && bits < 8 && 8 * p + bits == 8 * p0 + bits0 + 3
    ensures Packed(dest[start..p], mask, bits, all + Bits(ind, 3))
    ensures forall k :: 0 <= k < dest.Length && k != p0 ==> dest[k] == old(dest[k])
  {
    hide Packed, BitOr, BitAnd, Shl, Shr;
    p := p0;
    PackIndex(dest[start..p], mask0, bits0, ind, all);
    mask := BitOr(mask0, Shl(ind, bits0));
    bits := bits0 + 3;
    if bits >= 8 {
      PackByte(dest[start..p], mask, bits, all + Bits(ind, 3));
      ghost var done := dest[start..p];
      dest[p] := BitAnd(mask, 0xFF);
      p := p + 1;
      assert dest[start..p] == done + [dest[p - 1]];
      mask := Shr(mask, 8);
      bits := bits - 8;
    }
  }

  method CompressAlphaBlock(dest: array<byte>, at: nat, src: seq<byte>, stride: nat)
    requires at + 8 <= dest.Length && 15 * stride < |src|
    modifies dest
    ensures forall k :: 0 <= k < dest.Length && !(at <= k < at + 8) ==> dest[k] == old(dest[k])
    ensures Compressed(dest[at..at + 8], Column(src, stride))
  {
    hide Picked, Chosen, IndexBits, Packed, Bits, Compressed, Column, Range;
    ghost var vals := Column(src, stride);
    var mn, mx := Extremes(src, stride);
    dest[at] := mx;
    dest[at + 1] := mn;
    var start := at + 2;
    var p := start;
    var dist := mx as int - mn;
    var bias := if dist < 8 then dist - 1 else dist / 2 + 2;
    bias := bias - mn as int * 7;
    var bits: nat, mask: nat := 0, 0;
    ghost var inds: seq<nat> := [];
    PackNone();
    assert dest[start..p] == [];
    for i := 0 to 16
      invariant start <= p <= at + 8 && bits < 8 && 8 * (p - start) + bits == 3 * i
      invariant dest[at] == mx && dest[at + 1] == mn && |inds| == i
      invariant Packed(dest[start..p], mask, bits, IndexBits(inds))
      invariant forall k :: 0 <= k < i ==> Chosen(inds[k], vals[k], mn, mx)
      invariant forall k :: 0 <= k < dest.Length && !(at <= k < at + 8) ==> dest[k] == old(dest[k])
    {
      ColumnAt(src, stride, i);
      var v := src[i * stride];
      InRange(vals, mn, mx, i);
      AllIndexes(v, mn, mx);
      var ind := PickIndex(v as int * 7 + bias, dist);
      IsChosen(ind, v, mn, mx);
      assert p < dest.Length;
      p, mask, bits := WriteIndex(dest, start, p, mask, bits, ind, IndexBits(inds));
      IndexBitsPush(inds, ind);
      inds := inds + [ind];
    }
    PackAll(dest[start..p], mask, IndexBits(inds));
    var block := dest[at..at + 8];
    assert block[2..] == dest[start..p];
    PickedCompressed(block, vals, inds);
  }

  lemma AllIndexes(v: byte, mn: byte, mx: byte)
    requires mn <= v <= mx
    ensures var dist := mx as int - mn; var a := 7 * (v as int - mn) + Bias(dist);
      if dist == 0 then a < 0 else 0 <= a < 8 * dist
  {
  }

  lemma IsChosen(ind: nat, v: byte, mn: byte, mx: byte)
    requires Picked(ind, 7 * (v as int - mn) + Bias(mx as int - mn), mx as int - mn)
    ensures Chosen(ind, v, mn, mx) && ind < 8
  {
  }

  lemma IndexBitsPush(inds: seq<nat>, ind: nat)
    ensures IndexBits(inds + [ind]) == IndexBits(inds) + Bits(ind, 3)
  {
    assert (inds + [ind])[..|inds|] == inds;
  }

  lemma PackNone()
    ensures Packed([], 0, 0, IndexBits([]))
  {
  }

  lemma PackAll(done: seq<byte>, mask: nat, all: seq<bool>)
    requires Packed(done, mask, 0, all)
    ensures BytesBits(done) == all
  {
  }
}
