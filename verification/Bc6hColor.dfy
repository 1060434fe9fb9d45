// BC6H arithmetic: from the numbers of a block to half-precision floats.

module Bc6hColor {
  import opened BitStream

  // ----- two's complement

  // The `n`-bit pattern `v` as a signed number.
  function Signed(v: nat, n: nat): int
    requires n >= 1
  {
    if v >= Pow2(n - 1) then v - Pow2(n) else v
  }

  function U16(v: int): nat { v % 0x1_0000 }

  // `extendSign`: flips the sign bit and subtracts it again.
  function ExtendSign(val: nat, size: nat): int
    requires size >= 1
  {
    BitXor(val, Shl(1, size - 1)) - Shl(1, size - 1)
  }

  lemma {:induction false} ExtendSignIs(val: nat, size: nat)
    requires size >= 1 && val < Pow2(size)
    ensures ExtendSign(val, size) == Signed(val, size) && InRange(Signed(val, size), size, true)
  {
    FlipTop(val, size);
  }

  lemma {:induction false} FlipTop(v: nat, n: nat)
    requires n >= 1 && v < Pow2(n)
    ensures BitXor(v, Pow2(n - 1)) == if v >= Pow2(n - 1) then v - Pow2(n - 1) else v + Pow2(n - 1)
    decreases n
  {
    if n > 1 {
      FlipTop(v / 2, n - 1);
      assert Pow2(n - 1) % 2 == 0 && Pow2(n - 1) / 2 == Pow2(n - 2);
    }
  }

  lemma SignedPattern(v: int)
    requires -0x8000 <= v < 0x8000
    ensures Signed(U16(v), 16) == v
  {
    Pow2Small();
  }

  // Adding patterns and cutting off is adding the numbers they stand for.
  lemma {:induction false} PatternSum(a: int, b: int, n: nat)
    requires n <= 16
    ensures (U16(a) + U16(b)) % Pow2(n) == (a + b) % Pow2(n)
  {
    Pow2Add(n, 16 - n);
    Pow2Small();
    var x, y := a / 0x1_0000, b / 0x1_0000;
    Multiple(a + b, x + y, Pow2(16 - n), Pow2(n));
  }

  lemma Multiple(v: int, k: int, q: nat, p: nat)
    requires p > 0
    ensures (v - k * (p * q)) % p == v % p
  {
    var d := k * q;
    assert k * (p * q) == d * p;
    var a := v / p;
    assert v == p * a + v % p;
    assert v - d * p == (a - d) * p + v % p by { assert (a - d) * p == a * p - d * p; }
    Remainder(v - d * p, p, a - d, v % p);
  }

  // ----- unquantising

  function Magnitude(v: nat, n: nat): nat
    requires n >= 1
  {
    if v >= Pow2(n - 1) - 1 then 0x7FFF else Div(v * 0x8000 + 0x4000, Pow2(n - 1))
  }

  // An endpoint of `n` bits, scaled to 16 bits.
  function Unquantized(v: int, n: nat, isSigned: bool): int
    requires n >= 1 && (isSigned || v >= 0)
  {
    if isSigned then
      if n >= 16 || v == 0 then v else if v < 0 then 0 - Magnitude(-v, n) else Magnitude(v, n)
    else
      if n >= 15 || v == 0 then v else if v == Pow2(n) - 1 then 0xFFFF else Div(v * 0x1_0000 + 0x8000, Pow2(n))
  }

  predicate InRange(v: int, n: nat, isSigned: bool)
    requires n >= 1
  {
    if isSigned then 0 <= v + Pow2(n - 1) < Pow2(n) else 0 <= v < Pow2(n)
  }

  // `v` steps and a half; the last step ends at `unit - 1`.
  lemma Steps(v: nat, p: nat, q: nat, unit: nat)
    requires p * (2 * q) == unit > 0 && unit % 2 == 0
    ensures p > 0 && q > 0
    ensures Div(v * unit + unit / 2, p) == v * (2 * q) + q && Div(v * (2 * q) + q, 2 * q) == v
    ensures Div(unit - 1, 2 * q) == p - 1
    ensures v + 1 < p ==> v * (2 * q) + q < unit
  {
    assert p > 0 && q > 0;
    var r := v * (2 * q) + q;
    assert r * p == v * (p * (2 * q)) + p * q by {
      assert (v * (2 * q)) * p == v * (p * (2 * q));
      assert q * p == p * q;
    }
    assert unit / 2 == p * q by { assert p * (2 * q) == 2 * (p * q); }
    DivModUnique(v * unit + unit / 2, p, r, 0);
    DivModUnique(r, 2 * q, v, q);
    assert unit - 1 == (p - 1) * (2 * q) + (2 * q - 1) by { assert (p - 1) * (2 * q) == p * (2 * q) - 2 * q; }
    DivModUnique(unit - 1, 2 * q, p - 1, 2 * q - 1);
    if v + 1 < p {
      MulGrows(p - v - 1, 2 * q);
      assert (p - v - 1) * (2 * q) == p * (2 * q) - v * (2 * q) - 2 * q;
    }
  }

  // A scaled endpoint starts with the endpoint's own bits; of signed endpoints only the least one does not.
  lemma UnquantizedKeeps(v: int, n: nat, isSigned: bool)
    requires 1 <= n < 15 && InRange(v, n, isSigned)
    ensures InRange(Unquantized(v, n, isSigned), 16, isSigned) && Unquantized(v, n, isSigned) != -0x8000
    ensures Div(Abs(Unquantized(v, n, isSigned)), Pow2(16 - n)) == Abs(v) <==> !(isSigned && v + Pow2(n - 1) == 0)
    ensures v > 0 <==> Unquantized(v, n, isSigned) > 0
    ensures v < 0 <==> Unquantized(v, n, isSigned) < 0
  {
    Pow2Small();
    Pow2Add(n, 16 - n);
    var a, p, q := Abs(v), if isSigned then Pow2(n - 1) else Pow2(n), Pow2(15 - n);
    assert Pow2(16 - n) == 2 * q;
    if isSigned {
      Pow2Add(n - 1, 16 - n);
      Steps(a, p, q, 0x8000);
    } else {
      Steps(a, p, q, 0x1_0000);
    }
    assert Div(0, 2 * q) == 0;
    hide Pow2, Div;
    if a + 1 < p {
      assert v != 0 ==> Abs(Unquantized(v, n, isSigned)) == a * (2 * q) + q;
    }
  }

  // Between zero and the greatest pattern a scaled endpoint is in the middle of the values that start with its bits.
  lemma UnquantizedMiddle(v: nat, n: nat, isSigned: bool)
    requires 1 <= n < 15 && 0 < v && v + 1 < if isSigned then Pow2(n - 1) else Pow2(n)
    ensures Unquantized(v, n, isSigned) == v * Pow2(16 - n) + Pow2(15 - n)
    ensures isSigned ==> Unquantized(0 - v, n, isSigned) == 0 - (v * Pow2(16 - n) + Pow2(15 - n))
  {
    Pow2Small();
    Pow2Add(n, 16 - n);
    var p, q := if isSigned then Pow2(n - 1) else Pow2(n), Pow2(15 - n);
    assert Pow2(16 - n) == 2 * q;
    if isSigned {
      Pow2Add(n - 1, 16 - n);
      Steps(v, p, q, 0x8000);
    } else {
      Steps(v, p, q, 0x1_0000);
    }
    hide Pow2, Div;
  }

  // Zero stays zero, and the greatest pattern becomes the greatest value.
  lemma UnquantizedEnds(n: nat)
    requires 1 <= n < 15
    ensures Unquantized(0, n, false) == Unquantized(0, n, true) == 0 && Unquantized(Pow2(n) - 1, n, false) == 0xFFFF
    ensures n > 1 ==> Unquantized(Pow2(n - 1) - 1, n, true) == 0x7FFF && Unquantized(1 - Pow2(n - 1), n, true) == -0x7FFF
  {
    assert n > 1 ==> Pow2(n - 1) == 2 * Pow2(n - 2);
    hide Pow2, Div;
  }

  // ----- interpolating

  function Weighted(a: int, b: int, w: nat): int
    requires w <= 64
  {
    a * (64 - w) + b * w
  }

  // `w` 64ths of the way from `a` to `b`, rounded.
  function Interpolated(a: int, b: int, w: nat): int
    requires w <= 64
  {
    (Weighted(a, b, w) + 32) / 64
  }

  // The value lies between its endpoints, and the first and the last one are the endpoints.
  lemma InterpolatedBetween(a: int, b: int, w: nat)
    requires w <= 64
    ensures (if a < b then a else b) <= Interpolated(a, b, w) <= (if a < b then b else a)
    ensures Interpolated(a, b, 0) == a && Interpolated(a, b, 64) == b
  {
    var s := a * (64 - w) + b * w;
    assert s == 64 * a + (b - a) * w == 64 * b + (a - b) * (64 - w);
    if a < b { MulNonNegative(b - a, w); MulNonNegative(b - a, 64 - w); assert (a - b) * (64 - w) == -((b - a) * (64 - w)); }
    else { MulNonNegative(a - b, w); MulNonNegative(a - b, 64 - w); assert (b - a) * w == -((a - b) * w); }
  }

  // Rounding is to the nearest.
  lemma InterpolatedNearest(a: int, b: int, w: nat)
    requires w <= 64
    ensures -32 < 64 * Interpolated(a, b, w) - (a * (64 - w) + b * w) <= 32
  {
  }

  // ----- half-precision floats

  // `t` scaled into the finite range, as sign and magnitude; zero has no sign.
  function Half(t: int, isSigned: bool): nat
    requires isSigned || t >= 0
  {
    if !isSigned then t * 31 / 64
    else if t >= 0 then t * 31 / 32
    else if -t * 31 / 32 == 0 then 0 else -t * 31 / 32 + 0x8000
  }

  // The exponent is not all ones.
  predicate Finite(h: nat) { h / 0x400 % 32 != 31 }

  // What a finite pattern counts for in the order of the floats.
  function Order(h: nat): int { if h >= 0x8000 then 0x8000 - h else h }

  // Every value is finite, but for -32768, which becomes minus infinity.
  lemma HalfFinite(t: int, isSigned: bool)
    requires InRange(t, 16, isSigned)
    ensures Half(t, isSigned) < 0x1_0000 && Half(t, isSigned) != 0x8000
    ensures Finite(Half(t, isSigned)) <==> t != -0x8000
    ensures t == -0x8000 ==> Half(t, isSigned) == 0xFC00
    ensures t != -0x8000 ==> Half(t, isSigned) % 0x8000 <= 0x7BFF
  {
    Pow2Small();
  }

  lemma HalfMonotone(t: int, u: int, isSigned: bool)
    requires InRange(t, 16, isSigned) && InRange(u, 16, isSigned) && t <= u
    ensures Order(Half(t, isSigned)) <= Order(Half(u, isSigned))
  {
    Pow2Small();
  }

  // Scaling is by 31/64, or by 31/32 of the magnitude, rounded down.
  lemma HalfScaled(t: int, isSigned: bool)
    requires InRange(t, 16, isSigned)
    ensures !isSigned ==> 64 * Half(t, false) <= 31 * t < 64 * Half(t, false) + 64
    ensures isSigned ==> 32 * (Half(t, true) % 0x8000) <= 31 * Abs(t) < 32 * (Half(t, true) % 0x8000) + 32
    ensures isSigned ==> (Half(t, true) >= 0x8000 <==> t < 0 && Half(t, true) != 0)
  {
    Pow2Small();
  }

  // The interpolated value is -32768 only next to an endpoint that is.
  lemma LeastOnly(a: int, b: int, w: nat)
    requires InRange(a, 16, true) && InRange(b, 16, true) && w <= 64
    ensures Interpolated(a, b, w) == -0x8000 <==> Weighted(a, b, w) < 32 - 64 * 0x8000
    ensures Interpolated(a, b, w) == -0x8000 ==> a == -0x8000 || b == -0x8000
  {
    InterpolatedBetween(a, b, w);
    Pow2Small();
  }
}
