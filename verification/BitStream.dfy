// Bit-level vocabulary shared by the codecs: numbers as bit sequences, the C
// operators `|`, `&`, `<<`, `>>` on unsigned values, and byte strings as bit streams.

module BitStream {
  type byte = x: int | 0 <= x < 256

  const UINT_MAX := 0xFFFF_FFFF
  const INT_MAX := 0x7FFF_FFFF

  function Pow2(n: nat): (r: nat)
    ensures r >= 1
  {
    if n == 0 then 1 else 2 * Pow2(n - 1)
  }

  // The number whose binary digits, least significant first, are `b`.
  function Nat(b: seq<bool>): nat {
    if b == [] then 0 else (if b[0] then 1 else 0) + 2 * Nat(b[1..])
  }

  // The low `k` binary digits of `n`, least significant first.
  function Bits(n: nat, k: nat): (b: seq<bool>)
    ensures |b| == k
  {
    if k == 0 then [] else [n % 2 == 1] + Bits(n / 2, k - 1)
  }

  function Rev(b: seq<bool>): (r: seq<bool>)
    ensures |r| == |b|
    ensures forall i :: 0 <= i < |b| ==> r[i] == b[|b| - 1 - i]
  {
    seq(|b|, i requires 0 <= i < |b| => b[|b| - 1 - i])
  }

  // C's `a | b`, `a & b` and `a ^ b` on unsigned operands.
  function BitOr(a: nat, b: nat): nat
    decreases a + b
  {
    if a == 0 then b else if b == 0 then a
    else (if a % 2 == 1 || b % 2 == 1 then 1 else 0) + 2 * BitOr(a / 2, b / 2)
  }

  function BitAnd(a: nat, b: nat): nat {
    if a == 0 || b == 0 then 0
    else (if a % 2 == 1 && b % 2 == 1 then 1 else 0) + 2 * BitAnd(a / 2, b / 2)
  }

  function BitXor(a: nat, b: nat): nat
    decreases a + b
  {
    if a == 0 then b else if b == 0 then a
    else (if a % 2 != b % 2 then 1 else 0) + 2 * BitXor(a / 2, b / 2)
  }

  function Shl(a: nat, n: nat): nat { a * Pow2(n) }

  function Shr(a: nat, n: nat): nat { Div(a, Pow2(n)) }

  function Div(a: nat, m: nat): nat
    requires m > 0
  {
    a / m
  }

  // Conversion to 32 bits, unsigned and signed.
  function U32(v: int): nat { v % 0x1_0000_0000 }

  function I32(v: int): int { if U32(v) >= 0x8000_0000 then U32(v) - 0x1_0000_0000 else U32(v) }

  function Abs(x: int): nat { if x < 0 then -x else x }

  // C's division, which rounds toward zero.
  function Quotient(a: int, b: int): int
    requires b != 0
  {
    if a >= 0 then a / b else -(-a / b)
  }

  // ----- arithmetic of powers of two

  lemma {:induction false} Pow2Add(a: nat, b: nat)
    ensures Pow2(a + b) == Pow2(a) * Pow2(b)
  {
    if a == 0 {
    } else {
      Pow2Add(a - 1, b);
      assert Pow2(a + b) == 2 * Pow2(a - 1 + b);
      assert 2 * (Pow2(a - 1) * Pow2(b)) == (2 * Pow2(a - 1)) * Pow2(b);
    }
  }

  lemma {:induction false} Pow2Monotone(a: nat, b: nat)
    requires a <= b
    ensures Pow2(a) <= Pow2(b)
  {
    if a < b { Pow2Monotone(a, b - 1); }
  }

  lemma Pow2Small()
    ensures Pow2(1) == 2 && Pow2(2) == 4 && Pow2(3) == 8 && Pow2(4) == 16 && Pow2(5) == 32
    ensures Pow2(6) == 64 && Pow2(7) == 128 && Pow2(8) == 256 && Pow2(9) == 512 && Pow2(10) == 1024
    ensures Pow2(13) == 8192 && Pow2(15) == 32768 && Pow2(16) == 65536
  {
    assert Pow2(4) == 16;
    assert Pow2(8) == 256;
    assert Pow2(11) == 2048;
    assert Pow2(14) == 16384;
  }

  lemma Pow32()
    ensures Pow2(32) == 0x1_0000_0000
  {
    Pow2Small();
    Pow2Add(16, 16);
  }

  lemma MulGrows(k: int, m: int)
    requires k >= 1 && m >= 0
    ensures k * m >= m
  {
    assert (k - 1) * m >= 0;
  }

  lemma Recompose(n: nat, m: nat, q: nat, a: nat)
    requires a < m && n == a + m * q
    ensures n / m == q && n % m == a
  {
    assert m * q == q * m;
    DivModUnique(n, m, q, a);
  }

  lemma Commute(a: int, b: int)
    ensures a * b == b * a
  {
  }

  lemma MulNonNegative(a: nat, b: nat)
    ensures a * b >= 0
  {
  }

  lemma Distribute(a: int, b: int, p: int)
    ensures (a + b) * p == a * p + b * p
  {
  }

  lemma Slide(a: int, p: int)
    ensures (2 * a) * p == a * (2 * p) == 2 * (a * p)
  {
  }

  lemma SmallMultiple(k: int, m: int)
    requires -m < k * m < m
    ensures k == 0
  {
    if k >= 1 {
      MulGrows(k, m);
    } else if k <= -1 {
      MulGrows(-k, m);
    }
  }

  lemma DivModUnique(n: nat, m: nat, q: nat, a: nat)
    requires a < m && n == q * m + a
    ensures n / m == q && n % m == a
  {
    var d, r := n / m, n % m;
    assert n == m * d + r;
    assert (d - q) * m == a - r by {
      assert (d - q) * m == d * m - q * m;
      assert m * d == d * m;
    }
    SmallMultiple(d - q, m);
  }

  lemma Remainder(n: int, m: nat, q: int, a: nat)
    requires a < m && n == q * m + a
    ensures n % m == a
  {
    var d, r := n / m, n % m;
    assert n == m * d + r;
    assert (d - q) * m == a - r by {
      assert (d - q) * m == d * m - q * m;
      assert m * d == d * m;
    }
    SmallMultiple(d - q, m);
  }

  // ----- numbers and their digits

  lemma {:induction false} NatBound(b: seq<bool>)
    ensures Nat(b) < Pow2(|b|)
  {
    if b != [] { NatBound(b[1..]); }
  }

  lemma {:induction false} NatConcat(a: seq<bool>, b: seq<bool>)
    ensures Nat(a + b) == Nat(a) + Pow2(|a|) * Nat(b)
  {
    if a == [] {
      assert a + b == b;
    } else {
      assert (a + b)[1..] == a[1..] + b;
      NatConcat(a[1..], b);
      Slide(Pow2(|a| - 1), Nat(b));
    }
  }

  // Splitting a bit string splits its value by division: the low part is what `& mask` keeps,
  // the high part is what `>>` leaves.
  lemma NatSplit(b: seq<bool>, k: nat)
    requires k <= |b|
    ensures Nat(b[..k]) == Nat(b) % Pow2(k) && Nat(b[k..]) == Nat(b) / Pow2(k)
  {
    var lo, hi := b[..k], b[k..];
    assert b == lo + hi;
    NatConcat(lo, hi);
    NatBound(lo);
    Recompose(Nat(b), Pow2(k), Nat(hi), Nat(lo));
  }

  lemma {:induction false} BitsOfNat(b: seq<bool>)
    ensures Bits(Nat(b), |b|) == b
  {
    if b != [] {
      BitsOfNat(b[1..]);
      assert b == [b[0]] + b[1..];
    }
  }

  lemma {:induction false} NatOfBits(n: nat, k: nat)
    requires n < Pow2(k)
    ensures Nat(Bits(n, k)) == n
  {
    if k > 0 {
      NatOfBits(n / 2, k - 1);
      assert Bits(n, k)[1..] == Bits(n / 2, k - 1);
    }
  }

  lemma {:induction false} NatOfBitsMod(n: nat, k: nat)
    ensures Nat(Bits(n, k)) == n % Pow2(k)
  {
    if k > 0 {
      NatOfBitsMod(n / 2, k - 1);
      assert Bits(n, k)[1..] == Bits(n / 2, k - 1);
      HalfMod(n, Pow2(k - 1));
    }
  }

  lemma NatInjective(a: seq<bool>, b: seq<bool>)
    requires |a| == |b| && Nat(a) == Nat(b)
    ensures a == b
  {
    BitsOfNat(a);
    BitsOfNat(b);
  }

  lemma {:induction false} OrComm(a: nat, b: nat)
    ensures BitOr(a, b) == BitOr(b, a)
    decreases a + b
  {
    if a > 0 && b > 0 { OrComm(a / 2, b / 2); }
  }

  lemma OrEven(a: nat, c: nat)
    requires a > 0
    ensures BitOr(a, 2 * c) == a % 2 + 2 * BitOr(a / 2, c)
  {
    if c > 0 { assert (2 * c) / 2 == c && (2 * c) % 2 == 0; }
  }

  // Appending `k` digits of `c` above the `|b|` digits already held is what
  // `buf |= c << n` does to a bit buffer that holds `n` bits.
  lemma {:induction false} OrDisjoint(a: nat, n: nat, c: nat)
    requires a < Pow2(n)
    ensures BitOr(a, Shl(c, n)) == a + Shl(c, n)
  {
    if n == 0 || a == 0 {
    } else {
      OrDisjoint(a / 2, n - 1, c);
      Slide(c, Pow2(n - 1));
      OrEven(a, Shl(c, n - 1));
    }
  }

  lemma HalfMod(a: nat, m: nat)
    requires m > 0
    ensures a % (2 * m) == 2 * ((a / 2) % m) + a % 2
    ensures a / (2 * m) == (a / 2) / m
  {
    var h := a / 2;
    var q, r := h / m, h % m;
    assert h == m * q + r;
    assert 2 * (m * q) == q * (2 * m);
    DivModUnique(a, 2 * m, q, 2 * r + a % 2);
  }

  lemma OrAppends(a: seq<bool>, b: seq<bool>)
    ensures BitOr(Nat(a), Shl(Nat(b), |a|)) == Nat(a + b)
  {
    NatBound(a);
    OrDisjoint(Nat(a), |a|, Nat(b));
    NatConcat(a, b);
    Commute(Pow2(|a|), Nat(b));
  }

  lemma {:induction false} AndMask(a: nat, n: nat)
    ensures BitAnd(a, Pow2(n) - 1) == a % Pow2(n)
  {
    if n == 0 {
    } else if a == 0 {
    } else {
      AndMask(a / 2, n - 1);
      var m := Pow2(n - 1);
      assert Pow2(n) - 1 == 1 + 2 * (m - 1);
      assert (Pow2(n) - 1) / 2 == m - 1 && (Pow2(n) - 1) % 2 == 1;
      HalfMod(a, m);
    }
  }

  lemma {:induction false} XorOnes(a: nat, n: nat)
    requires a < Pow2(n)
    ensures BitXor(a, Pow2(n) - 1) == Pow2(n) - 1 - a
  {
    if n > 0 {
      var m, ones := Pow2(n - 1), Pow2(n) - 1;
      assert ones == 2 * (m - 1) + 1;
      hide Pow2;
      assert ones / 2 == m - 1 && ones % 2 == 1;
      XorOnes(a / 2, n - 1);
    }
  }

  // ----- zero-extended bit streams

  function At(s: seq<bool>, i: nat): bool { i < |s| && s[i] }

  // `n` bits of `s` from position `p`, reading zeros past the end.
  function Window(s: seq<bool>, p: nat, n: nat): (w: seq<bool>)
    ensures |w| == n
  {
    seq(n, i requires 0 <= i < n => At(s, p + i))
  }

  lemma WindowConcat(s: seq<bool>, p: nat, m: nat, n: nat)
    ensures Window(s, p, m + n) == Window(s, p, m) + Window(s, p + m, n)
    ensures Window(s, p, m + n)[..m] == Window(s, p, m)
    ensures Window(s, p, m + n)[m..] == Window(s, p + m, n)
  {
  }

  lemma WindowInside(s: seq<bool>, p: nat, n: nat)
    requires p + n <= |s|
    ensures Window(s, p, n) == s[p..p + n]
  {
    forall i | 0 <= i < n
      ensures Window(s, p, n)[i] == s[p..p + n][i]
    {
      assert Window(s, p, n)[i] == At(s, p + i);
    }
  }

  // The bits from `p` on start with `w`.
  ghost predicate HasBits(s: seq<bool>, p: nat, w: seq<bool>) { p + |w| <= |s| && s[p..p + |w|] == w }

  lemma HasBitsParts(s: seq<bool>, p: nat, a: seq<bool>, b: seq<bool>)
    requires HasBits(s, p, a + b)
    ensures HasBits(s, p, a) && HasBits(s, p + |a|, b)
  {
    var w := s[p..p + |a + b|];
    assert w[..|a|] == a && w[|a|..] == b;
    assert s[p..p + |a|] == w[..|a|] && s[p + |a|..p + |a| + |b|] == w[|a|..];
  }

  lemma NumberRead(s: seq<bool>, p: nat, v: nat, n: nat)
    requires v < Pow2(n) && HasBits(s, p, Bits(v, n))
    ensures Nat(Window(s, p, n)) == v
  {
    WindowInside(s, p, n);
    NatOfBits(v, n);
  }

  // ----- byte strings as bit streams, least significant bit of each byte first

  function BytesBits(d: seq<byte>): (b: seq<bool>)
    ensures |b| == 8 * |d|
  {
    if d == [] then [] else Bits(d[0], 8) + BytesBits(d[1..])
  }

  lemma {:induction false} BytesBitsConcat(a: seq<byte>, b: seq<byte>)
    ensures BytesBits(a + b) == BytesBits(a) + BytesBits(b)
  {
    if a == [] {
      assert a + b == b;
    } else {
      assert (a + b)[1..] == a[1..] + b;
      BytesBitsConcat(a[1..], b);
    }
  }

  lemma {:induction false} BytesBitsAt(d: seq<byte>, i: nat)
    requires i < |d|
    ensures BytesBits(d)[8 * i..8 * i + 8] == Bits(d[i], 8)
  {
    if i > 0 {
      BytesBitsAt(d[1..], i - 1);
      var s, t := BytesBits(d), BytesBits(d[1..]);
      assert s == Bits(d[0], 8) + t;
      assert s[8 * i..8 * i + 8] == t[8 * (i - 1)..8 * (i - 1) + 8];
    }
  }

  lemma ByteWindow(d: seq<byte>, i: nat)
    ensures Nat(Window(BytesBits(d), 8 * i, 8)) == if i < |d| then d[i] else 0
  {
    var s := BytesBits(d);
    if i < |d| {
      BytesBitsAt(d, i);
      WindowInside(s, 8 * i, 8);
      Pow2Small();
      NatOfBits(d[i], 8);
    } else {
      ZeroWindow(s, 8 * i, 8);
    }
  }

  lemma {:induction false} ZeroWindow(s: seq<bool>, p: nat, n: nat)
    requires |s| <= p
    ensures Nat(Window(s, p, n)) == 0
    decreases n
  {
    if n > 0 {
      ZeroWindow(s, p + 1, n - 1);
      assert Window(s, p, n)[0] == At(s, p + 0);
      assert Window(s, p, n)[1..] == Window(s, p + 1, n - 1);
    }
  }

  lemma AddBits(buf: nat, n: nat, code: nat, m: nat)
    requires buf < Pow2(n) && code < Pow2(m)
    ensures Bits(BitOr(buf, Shl(code, n)), n + m) == Bits(buf, n) + Bits(code, m)
    ensures BitOr(buf, Shl(code, n)) < Pow2(n + m)
  {
    var a, b := Bits(buf, n), Bits(code, m);
    NatOfBits(buf, n);
    NatOfBits(code, m);
    OrAppends(a, b);
    BitsOfNat(a + b);
    NatBound(a + b);
  }

  lemma OneByte(v: byte)
    ensures BytesBits([v]) == Bits(v, 8)
  {
    assert [v][1..] == [];
  }

  lemma FlushBits(buf: nat, n: nat)
    requires buf < Pow2(n) && n >= 8
    ensures BitAnd(buf, 255) < 256 && Shr(buf, 8) < Pow2(n - 8)
    ensures Bits(buf, n) == Bits(BitAnd(buf, 255), 8) + Bits(Shr(buf, 8), n - 8)
  {
    var b := Bits(buf, n);
    NatOfBits(buf, n);
    NatSplit(b, 8);
    AndMask(buf, 8);
    Pow2Small();
    BitsOfNat(b[..8]);
    BitsOfNat(b[8..]);
    NatBound(b[8..]);
    assert b == b[..8] + b[8..];
  }

  lemma AndEven(a: nat, c: nat)
    ensures BitAnd(a, 2 * c) == 2 * BitAnd(a / 2, c)
  {
    if a > 0 && c > 0 { assert (2 * c) / 2 == c && (2 * c) % 2 == 0; }
  }

  lemma {:induction false} ShrAnd(a: nat, m: nat, n: nat)
    ensures Shr(BitAnd(a, Shl(m, n)), n) == BitAnd(Shr(a, n), m)
  {
    if n > 0 {
      var c, p := Shl(m, n - 1), Pow2(n - 1);
      Slide(m, p);
      AndEven(a, c);
      var x := BitAnd(a / 2, c);
      HalfMod(a, p);
      HalfMod(2 * x, p);
      ShrAnd(a / 2, m, n - 1);
    }
  }

  lemma {:induction false} AndShl(a: nat, m: nat, n: nat)
    ensures BitAnd(a, Shl(m, n)) == Shl(BitAnd(Shr(a, n), m), n)
  {
    if n > 0 {
      var c, p := Shl(m, n - 1), Pow2(n - 1);
      Slide(m, p);
      AndEven(a, c);
      HalfMod(a, p);
      AndShl(a / 2, m, n - 1);
      Slide(BitAnd(Shr(a / 2, n - 1), m), p);
    }
  }

  // `(word & (mask << p)) >> p` picks out `n` bits.
  lemma FieldIs(s: seq<bool>, p: nat, n: nat)
    requires p + n <= |s|
    ensures Shr(BitAnd(Nat(s), Shl(Pow2(n) - 1, p)), p) == Nat(Window(s, p, n))
  {
    ShrAnd(Nat(s), Pow2(n) - 1, p);
    NatSplit(s, p);
    AndMask(Nat(s[p..]), n);
    NatSplit(s[p..], n);
    WindowInside(s, p, n);
    assert s[p..][..n] == s[p..p + n];
  }

  // The number a little-endian machine reads from `d`.
  function Le(d: seq<byte>): nat {
    if d == [] then 0 else d[0] + 256 * Le(d[1..])
  }

  lemma {:induction false} LeBits(d: seq<byte>)
    ensures Le(d) == Nat(BytesBits(d))
  {
    if d != [] {
      Pow2Small();
      NatOfBits(d[0], 8);
      NatConcat(Bits(d[0], 8), BytesBits(d[1..]));
      LeBits(d[1..]);
    }
  }

  // A byte of `d`; past the end everything reads as zero.
  function ByteAt(d: seq<byte>, i: nat): byte { if i < |d| then d[i] else 0 }
}
