// Adler-32, RFC 1950 section 8.2, and the deferred reduction that computes it.

module Adler {
  import opened BitStream

  const MOD := 65521

  // The definition: both sums are reduced at every byte.
  function SumA(d: seq<byte>): (r: nat)
    ensures r < MOD
  {
    if d == [] then 1 else (SumA(d[..|d| - 1]) + d[|d| - 1]) % MOD
  }

  function SumB(d: seq<byte>): (r: nat)
    ensures r < MOD
  {
    if d == [] then 0 else (SumB(d[..|d| - 1]) + SumA(d)) % MOD
  }

  function Trailer(d: seq<byte>): (t: seq<byte>)
    ensures |t| == 4
  {
    [SumB(d) / 256, SumB(d) % 256, SumA(d) / 256, SumA(d) % 256]
  }

  // The largest value `s2` can have after `i` bytes of a block.
  function Peak(i: nat): nat { if i == 0 then 65520 else Peak(i - 1) + 65520 + 255 * i }

  lemma {:induction false} PeakClosed(i: nat)
    ensures 2 * Peak(i) == 2 * 65520 * (i + 1) + 255 * (i * (i + 1))
  {
    if i > 0 {
      PeakClosed(i - 1);
      assert i * (i + 1) == (i - 1) * i + 2 * i;
    }
  }

  lemma Product(i: nat)
    requires i <= 5552
    ensures i * (i + 1) <= 5552 * 5553
  {
    Distribute(i, 5552 - i, i + 1);
    MulNonNegative(5552 - i, i + 1);
  }

  lemma PeakFits(i: nat)
    requires i <= 5552
    ensures Peak(i) <= UINT_MAX
  {
    hide Peak;
    PeakClosed(i);
    Product(i);
  }

  lemma Extend(d: seq<byte>, x: byte, s1: nat, s2: nat)
    requires s1 % MOD == SumA(d) && s2 % MOD == SumB(d)
    ensures (s1 + x) % MOD == SumA(d + [x])
    ensures (s2 + (s1 + x)) % MOD == SumB(d + [x])
  {
    assert (d + [x])[..|d|] == d;
    AddMod(s1, x);
    AddMod(s2, s1 + x);
    AddMod(s1 + x, s2 % MOD);
  }

  lemma AddMod(a: nat, x: nat)
    ensures (a + x) % MOD == (a % MOD + x) % MOD
  {
  }

  // Reducing once a block of at most 5552 bytes gives the definition, and neither sum ever leaves 32 bits.
  method Adler32(data: seq<byte>) returns (s1: nat, s2: nat)
    ensures s1 == SumA(data) && s2 == SumB(data)
  {
    hide SumA, SumB;
    SumsOfNothing();
    s1, s2 := 1, 0;
    var blocklen := |data| % 5552;
    var j := 0;
    while j < |data|
      invariant 0 <= j <= |data| && s1 == SumA(data[..j]) && s2 == SumB(data[..j])
      invariant (|data| - j - blocklen) % 5552 == 0 && 0 <= blocklen <= 5552 && (blocklen < 5552 ==> j + blocklen <= |data|)
      decreases |data| - j, 5552 - blocklen
    {
      NextBlock(|data| - j, blocklen);
      s1, s2 := AddBlock(data, j, blocklen, s1, s2);
      s1, s2 := s1 % MOD, s2 % MOD;
      j := j + blocklen;
      blocklen := 5552;
    }
    assert data[..j] == data;
  }

  lemma SumsOfNothing()
    ensures SumA([]) == 1 && SumB([]) == 0
  {
  }

  // Once the odd-sized first block is done, whole blocks remain.
  lemma NextBlock(rest: nat, blocklen: nat)
    requires rest > 0 && (rest - blocklen) % 5552 == 0 && blocklen <= 5552 && (blocklen < 5552 ==> blocklen <= rest)
    ensures blocklen <= rest && (rest - blocklen - 5552) % 5552 == 0
  {
  }

  method AddBlock(data: seq<byte>, j: nat, n: nat, a: nat, b: nat) returns (s1: nat, s2: nat)
    requires j + n <= |data| && n <= 5552 && a == SumA(data[..j]) && b == SumB(data[..j])
    ensures s1 % MOD == SumA(data[..j + n]) && s2 % MOD == SumB(data[..j + n])
    ensures s1 <= UINT_MAX && s2 <= UINT_MAX
  {
    hide SumA, SumB, Peak;
    s1, s2 := a, b;
    PeakFits(0);
    StartPeak(b);
    for i := 0 to n
      invariant s1 % MOD == SumA(data[..j + i]) && s2 % MOD == SumB(data[..j + i])
      invariant s1 <= 65520 + 255 * i && s2 <= Peak(i) <= UINT_MAX
    {
      Extend(data[..j + i], data[j + i], s1, s2);
      assert data[..j + i + 1] == data[..j + i] + [data[j + i]];
      NextPeak(i);
      PeakFits(i + 1);
      s1 := s1 + data[j + i];
      s2 := s2 + s1;
    }
  }

  lemma StartPeak(b: nat)
    requires b < MOD
    ensures b <= Peak(0)
  {
  }

  lemma NextPeak(i: nat)
    ensures Peak(i + 1) == Peak(i) + 65520 + 255 * (i + 1)
  {
  }

  // ----- the sums in closed form

  function Sum(d: seq<byte>): nat { if d == [] then 0 else Sum(d[..|d| - 1]) + d[|d| - 1] }

  // The first byte counts as often as there are bytes, the last one once.
  function Staggered(d: seq<byte>): nat { if d == [] then 0 else Staggered(d[..|d| - 1]) + Sum(d) }

  lemma ModAdd(a: nat, b: nat, m: nat)
    requires m > 0
    ensures (a % m + b) % m == (a + b) % m
  {
    var q, r := a / m, (a % m + b) % m;
    var k := (a % m + b) / m;
    assert a + b == (q + k) * m + r by {
      assert a == q * m + a % m && a % m + b == k * m + r;
      assert (q + k) * m == q * m + k * m;
    }
    Remainder(a + b, m, q + k, r);
  }

  // Without reducing on the way: one more than the sum of the bytes, and the sum of those sums.
  lemma {:induction false} ClosedForm(d: seq<byte>)
    ensures SumA(d) == (1 + Sum(d)) % 65521 && SumB(d) == (|d| + Staggered(d)) % 65521
  {
    if d != [] {
      var n := |d| - 1;
      ClosedForm(d[..n]);
      ModAdd(1 + Sum(d[..n]), d[n], 65521);
      hide Sum, Staggered, SumA, SumB;
      Both(n + Staggered(d[..n]), 1 + Sum(d), 65521);
      LastByte(d);
    }
  }

  lemma Both(a: nat, b: nat, m: nat)
    requires m > 0
    ensures (a % m + b % m) % m == (a + b) % m
  {
    ModAdd(a, b % m, m);
    ModAdd(b, a, m);
  }

  lemma {:induction false} LastByte(d: seq<byte>)
    requires d != []
    ensures var n := |d| - 1;
      SumA(d) == (SumA(d[..n]) + d[n]) % 65521 && SumB(d) == (SumB(d[..n]) + SumA(d)) % 65521 &&
      Sum(d) == Sum(d[..n]) + d[n] && Staggered(d) == Staggered(d[..n]) + Sum(d)
  {
  }

  lemma {:induction false} StaggeredIs(d: seq<byte>, k: nat)
    requires k < |d|
    ensures Staggered(d) == Staggered(d[k := 0]) + (|d| - k) * d[k]
  {
    var n, e := |d| - 1, d[k := 0];
    SumWithout(d, k);
    if k < n {
      assert e[..n] == d[..n][k := 0];
      StaggeredIs(d[..n], k);
      assert (|d| - k) * d[k] == (n - k) * d[k] + d[k];
    } else {
      assert e[..n] == d[..n];
    }
  }

  lemma {:induction false} SumWithout(d: seq<byte>, k: nat)
    requires k < |d|
    ensures Sum(d) == Sum(d[k := 0]) + d[k]
  {
    var n, e := |d| - 1, d[k := 0];
    if k < n {
      assert e[..n] == d[..n][k := 0];
      SumWithout(d[..n], k);
    } else {
      assert e[..n] == d[..n];
    }
  }

  // The trailer is the second sum and the first one, each with its high byte first.
  lemma TrailerIs(d: seq<byte>)
    ensures var t := Trailer(d);
      t[0] as int * 0x100_0000 + t[1] as int * 0x1_0000 + t[2] as int * 0x100 + t[3] as int
      == (|d| + Staggered(d)) % 65521 * 0x1_0000 + (1 + Sum(d)) % 65521
  {
    ClosedForm(d);
  }
}
