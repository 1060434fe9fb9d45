// `stb__RefineBlock`: the integer sums of its least-squares system, and when that system has a solution.

module BcRefine {
  import opened BitStream
  import opened BcChannel
  import opened BcColor
  import opened BcMatch

  // ----- refinement

  // A texel of index `k` is this many thirds of the first endpoint.
  function W1(k: nat): (w: nat)
    requires k < 4
    ensures w <= 3
  {
    if k == 0 then 3 else if k == 1 then 0 else if k == 2 then 2 else 1
  }

  function Prods(k: nat): nat
    requires k < 4
  {
    if k == 0 then 0x090000 else if k == 1 then 0x000900 else if k == 2 then 0x040102 else 0x010402
  }

  // The weights are the shares, in thirds, that the first endpoint has in each of the four colours.
  lemma WeightsAre(c0: u16, c1: u16, k: nat)
    requires k < 4
    ensures var x, p, q, w := Eval4Colors(c0, c1)[k], From16Bit(c0), From16Bit(c1), W1(k);
      x == Rgb((w * p.r + (3 - w) * q.r) / 3, (w * p.g + (3 - w) * q.g) / 3, (w * p.b + (3 - w) * q.b) / 3)
  {
    hide From16Bit;
  }

  // The sums of the normal equations, over the texels of `idx`.
  ghost function SumXX(idx: seq<nat>): nat
    requires Indices(idx, |idx|)
  {
    if idx == [] then 0 else var w := W1(idx[|idx| - 1]); SumXX(idx[..|idx| - 1]) + w * w
  }

  ghost function SumYY(idx: seq<nat>): nat
    requires Indices(idx, |idx|)
  {
    if idx == [] then 0 else var w := 3 - W1(idx[|idx| - 1]); SumYY(idx[..|idx| - 1]) + w * w
  }

  ghost function SumXY(idx: seq<nat>): nat
    requires Indices(idx, |idx|)
  {
    if idx == [] then 0 else var w := W1(idx[|idx| - 1]); SumXY(idx[..|idx| - 1]) + w * (3 - w)
  }

  function PlusTimes(a: Rgb, w: int, p: Rgb): Rgb { Rgb(a.r + w * p.r, a.g + w * p.g, a.b + w * p.b) }

  ghost function SumX(block: Block, idx: seq<nat>): Rgb
    requires Indices(idx, |idx|) && |idx| <= 16
  {
    if idx == [] then Rgb(0, 0, 0)
    else var n := |idx| - 1; PlusTimes(SumX(block, idx[..n]), W1(idx[n]), Pixel(block, n))
  }

  ghost function SumY(block: Block, idx: seq<nat>): Rgb
    requires Indices(idx, |idx|) && |idx| <= 16
  {
    if idx == [] then Rgb(0, 0, 0)
    else var n := |idx| - 1; PlusTimes(SumY(block, idx[..n]), 3 - W1(idx[n]), Pixel(block, n))
  }

  datatype Sums = Sums(at1: Rgb, at2: Rgb, xx: nat, yy: nat, xy: nat)

  lemma {:induction false} SumBounds(idx: seq<nat>)
    requires Indices(idx, |idx|)
    ensures SumXX(idx) <= 9 * |idx| && SumYY(idx) <= 9 * |idx| && SumXY(idx) <= 9 * |idx|
  {
    if idx != [] {
      var n := |idx| - 1;
      SumBounds(idx[..n]);
      assert W1(idx[n]) in {0, 1, 2, 3};
    }
  }

  // `akku`: three sums at once, in the fields of one register.
  ghost function Fields3(idx: seq<nat>): nat
    requires Indices(idx, |idx|)
  {
    0x10000 * SumXX(idx) + 0x100 * SumYY(idx) + SumXY(idx)
  }

  lemma SumStep(block: Block, idx: seq<nat>, i: nat)
    requires Indices(idx, 16) && i < 16
    ensures MaskOf(idx[i..]) % 4 == idx[i] && MaskOf(idx[i..]) / 4 == MaskOf(idx[i + 1..])
    ensures Fields3(idx[..i + 1]) == Fields3(idx[..i]) + Prods(idx[i])
    ensures SumX(block, idx[..i + 1]) == PlusTimes(SumX(block, idx[..i]), W1(idx[i]), Pixel(block, i))
    ensures SumY(block, idx[..i + 1]) == PlusTimes(SumY(block, idx[..i]), 3 - W1(idx[i]), Pixel(block, i))
  {
    assert idx[..i + 1][..i] == idx[..i] && idx[i..][1..] == idx[i + 1..];
    assert idx[i] in {0, 1, 2, 3};
    hide Pixel, PlusTimes;
  }

  lemma Thirds(a: Rgb, b: Rgb, s: Rgb, w: nat, p: Rgb)
    requires w <= 3 && PlusTimes(Rgb(0, 0, 0), 3, s) == PlusTimes(a, 1, b)
    ensures PlusTimes(Rgb(0, 0, 0), 3, PlusTimes(s, 1, p)) == PlusTimes(PlusTimes(a, w, p), 1, PlusTimes(b, 3 - w, p))
  {
    assert w in {0, 1, 2, 3};
  }

  lemma Three(x: nat, y: nat, z: nat)
    requires y < 0x100 && z < 0x100
    ensures var f := 0x10000 * x + 0x100 * y + z; f / 0x10000 == x && f / 0x100 % 0x100 == y && f % 0x100 == z
  {
    var f := 0x10000 * x + 0x100 * y + z;
    DivModUnique(f, 0x10000, x, 0x100 * y + z);
    DivModUnique(f, 0x100, 0x100 * x + y, z);
    DivModUnique(0x100 * x + y, 0x100, x, y);
  }

  lemma FieldsApart(idx: seq<nat>)
    requires Indices(idx, 16)
    ensures var f := Fields3(idx); f / 0x10000 == SumXX(idx) && f / 0x100 % 0x100 == SumYY(idx) && f % 0x100 == SumXY(idx)
  {
    SumBounds(idx);
    Three(SumXX(idx), SumYY(idx), SumXY(idx));
  }

  lemma Rest(a: Rgb, s: Rgb, b: Rgb)
    requires PlusTimes(Rgb(0, 0, 0), 3, s) == PlusTimes(a, 1, b)
    ensures Rgb(3 * s.r - a.r, 3 * s.g - a.g, 3 * s.b - a.b) == b
  {
  }

  method Accumulate(block: Block, mask: nat, ghost idx: seq<nat>) returns (s: Sums)
    requires Indices(idx, 16) && mask == MaskOf(idx)
    ensures s == Sums(SumX(block, idx), SumY(block, idx), SumXX(idx), SumYY(idx), SumXY(idx))
  {
    var akku, cm := 0, mask;
    var at1, at2 := Rgb(0, 0, 0), Rgb(0, 0, 0);
    SumNone(block);
    hide MaskOf, SumXX, SumYY, SumXY, SumX, SumY, Fields3, W1, Prods, PlusTimes, Pixel;
    assert idx[..0] == [] && idx[0..] == idx;
    for i := 0 to 16
      invariant cm == MaskOf(idx[i..]) && akku == Fields3(idx[..i]) && at1 == SumX(block, idx[..i])
      invariant PlusTimes(Rgb(0, 0, 0), 3, at2) == PlusTimes(at1, 1, SumY(block, idx[..i]))
    {
      SumStep(block, idx, i);
      var step := cm % 4;
      var w1 := W1(step);
      Thirds(at1, SumY(block, idx[..i]), at2, w1, Pixel(block, i));
      akku := akku + Prods(step);
      at1 := PlusTimes(at1, w1, Pixel(block, i));
      at2 := PlusTimes(at2, 1, Pixel(block, i));
      cm := cm / 4;
    }
    assert idx[..16] == idx;
    FieldsApart(idx);
    Rest(at1, at2, SumY(block, idx));
    at2 := Rgb(3 * at2.r - at1.r, 3 * at2.g - at1.g, 3 * at2.b - at1.b);
    s := Sums(at1, at2, akku / 0x10000, akku / 0x100 % 0x100, akku % 0x100);
  }

  lemma SumNone(block: Block)
    ensures Fields3([]) == 0 && SumX(block, []) == Rgb(0, 0, 0) == SumY(block, [])
    ensures PlusTimes(Rgb(0, 0, 0), 3, Rgb(0, 0, 0)) == PlusTimes(Rgb(0, 0, 0), 1, Rgb(0, 0, 0))
  {
  }

  ghost predicate AllSame(idx: seq<nat>) { forall t :: 0 <= t < |idx| ==> idx[t] == idx[0] }

  ghost function SumW(idx: seq<nat>): nat
    requires Indices(idx, |idx|)
  {
    if idx == [] then 0 else SumW(idx[..|idx| - 1]) + W1(idx[|idx| - 1])
  }

  // The squared distances of the weights from `w`.
  lemma {:induction false} Deviation(idx: seq<nat>, w: nat)
    requires Indices(idx, |idx|)
    ensures var d := SumXX(idx) + |idx| * (w * w) - 2 * w * SumW(idx);
      d >= 0 && (d == 0 <==> forall t :: 0 <= t < |idx| ==> W1(idx[t]) == w)
  {
    if idx != [] {
      var n := |idx| - 1;
      Deviation(idx[..n], w);
      var v := W1(idx[n]);
      var s := SumW(idx[..n]);
      assert (n + 1) * (w * w) == n * (w * w) + w * w by { Distribute(n, 1, w * w); }
      assert 2 * w * (s + v) == 2 * w * s + 2 * (w * v) by { Distribute(s, v, 2 * w); }
      Square(v, w);
    }
  }

  lemma Square(v: int, w: int)
    ensures v * v + w * w - 2 * (w * v) == (v - w) * (v - w) >= 0
    ensures (v - w) * (v - w) == 0 <==> v == w
  {
  }

  // The determinant is nine times the spread of the weights.
  lemma {:induction false} Spread(idx: seq<nat>)
    requires Indices(idx, |idx|)
    ensures var d := |idx| * SumXX(idx) - SumW(idx) * SumW(idx); d >= 0 && (d == 0 <==> AllSame(idx))
  {
    if idx != [] {
      var n := |idx| - 1;
      var a, v := idx[..n], W1(idx[n]);
      var q, s := SumXX(a), SumW(a);
      Spread(a);
      Deviation(a, v);
      assert (n + 1) * (q + v * v) - (s + v) * (s + v) == (n * q - s * s) + (q + n * (v * v) - 2 * v * s) by {
        Expand(n, q, s, v);
      }
      SameWeights(a, idx[n]);
      assert AllSame(idx) <==> forall t :: 0 <= t < n ==> a[t] == idx[n];
    }
  }

  lemma Expand(n: int, q: int, s: int, v: int)
    ensures (n + 1) * (q + v * v) - (s + v) * (s + v) == (n * q - s * s) + (q + n * (v * v) - 2 * v * s)
  {
    assert (n + 1) * (q + v * v) == n * q + n * (v * v) + q + v * v;
    assert (s + v) * (s + v) == s * s + 2 * v * s + v * v;
  }

  lemma SameWeights(a: seq<nat>, k: nat)
    requires Indices(a, |a|) && k < 4
    ensures (forall t :: 0 <= t < |a| ==> W1(a[t]) == W1(k)) <==> forall t :: 0 <= t < |a| ==> a[t] == k
  {
    assert forall t :: 0 <= t < |a| ==> (W1(a[t]) == W1(k) <==> a[t] == k);
  }

  lemma {:induction false} Moments(idx: seq<nat>)
    requires Indices(idx, |idx|)
    ensures SumYY(idx) == 9 * |idx| - 6 * SumW(idx) + SumXX(idx) && SumXY(idx) == 3 * SumW(idx) - SumXX(idx)
  {
    if idx != [] {
      Moments(idx[..|idx| - 1]);
      var w := W1(idx[|idx| - 1]);
      assert w in {0, 1, 2, 3};
    }
  }

  // The least-squares system is singular exactly when all texels have the same index.
  lemma Determinant(idx: seq<nat>)
    requires Indices(idx, |idx|)
    ensures var d := SumXX(idx) * SumYY(idx) - SumXY(idx) * SumXY(idx); d >= 0 && (d == 0 <==> AllSame(idx))
  {
    Moments(idx);
    Spread(idx);
    Nine(|idx|, SumXX(idx), SumW(idx));
  }

  lemma Nine(n: int, q: int, s: int)
    ensures q * (9 * n - 6 * s + q) - (3 * s - q) * (3 * s - q) == 9 * (n * q - s * s)
  {
    assert q * (9 * n - 6 * s + q) == 9 * (n * q) - 6 * (q * s) + q * q;
    assert (3 * s - q) * (3 * s - q) == 9 * (s * s) - 6 * (q * s) + q * q;
  }

  // ----- do all texels have the same index?

  function SameTest(mask: nat): bool { BitXor(mask, Shl(mask, 2) % 0x1_0000_0000) < 4 }

  lemma {:induction false} MaskSmall(idx: seq<nat>)
    requires Indices(idx, |idx|)
    ensures MaskOf(idx) == 0 <==> forall t :: 0 <= t < |idx| ==> idx[t] == 0
    ensures MaskOf(idx) < 4 <==> forall t :: 1 <= t < |idx| ==> idx[t] == 0
  {
    if idx != [] { MaskSmall(idx[1..]); }
  }

  lemma ShiftMask(idx: seq<nat>)
    requires Indices(idx, 16)
    ensures Shl(MaskOf(idx), 2) % 0x1_0000_0000 == MaskOf([0] + idx[..15])
  {
    var a := [0] + idx[..15];
    assert a + [idx[15]] == [0] + idx;
    assert ([0] + idx)[1..] == idx;
    assert MaskOf([0] + idx) == 4 * MaskOf(idx);
    Pow2Small();
    Pow32();
    MaskPush(a, idx[15]);
    hide MaskOf;
    DivModUnique(4 * MaskOf(idx), 0x1_0000_0000, idx[15], MaskOf(a));
  }

  lemma XorSame(d: nat, e: nat)
    requires d < 4 && e < 4
    ensures BitXor(d, e) == 0 <==> d == e
  {
    assert d in {0, 1, 2, 3} && e in {0, 1, 2, 3};
  }

  lemma SameTestIs(idx: seq<nat>)
    requires Indices(idx, 16)
    ensures SameTest(MaskOf(idx)) <==> AllSame(idx)
  {
    ShiftMask(idx);
    var b := [0] + idx[..15];
    XorMask(idx, b);
    var x := Xored(idx, b);
    MaskSmall(x);
    hide MaskOf, BitXor;
    forall t | 1 <= t < 16
      ensures x[t] == 0 <==> idx[t] == idx[t - 1]
    {
      assert b[t] == idx[t - 1];
      XorSame(idx[t], b[t]);
    }
    Neighbours(idx);
  }

  lemma {:induction false} Neighbours(idx: seq<nat>)
    requires idx != []
    ensures AllSame(idx) <==> forall t :: 1 <= t < |idx| ==> idx[t] == idx[t - 1]
  {
    var n := |idx| - 1;
    if n > 0 {
      Neighbours(idx[..n]);
      assert idx[..n][0] == idx[0] && idx[..n][n - 1] == idx[n - 1];
      if forall t :: 1 <= t < |idx| ==> idx[t] == idx[t - 1] {
        assert forall t :: 1 <= t < n ==> idx[..n][t] == idx[..n][t - 1];
        assert idx[n - 1] == idx[0];
        forall t | 0 <= t < |idx|
          ensures idx[t] == idx[0]
        {
          if t < n { assert idx[..n][t] == idx[t]; }
        }
      }
    }
  }
}
