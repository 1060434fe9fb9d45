// The mask-and-shift bit reversal of the inflater, and the loop that does the same job in the compressor.

module BitReversal {
  import opened BitStream

  function BitReverse16(v: nat): nat {
    var n := BitOr(Shr(BitAnd(v, 0xAAAA), 1), Shl(BitAnd(v, 0x5555), 1));
    var n := BitOr(Shr(BitAnd(n, 0xCCCC), 2), Shl(BitAnd(n, 0x3333), 2));
    var n := BitOr(Shr(BitAnd(n, 0xF0F0), 4), Shl(BitAnd(n, 0x0F0F), 4));
    BitOr(Shr(BitAnd(n, 0xFF00), 8), Shl(BitAnd(n, 0x00FF), 8))
  }

  function BitReverse(v: nat, bits: nat): nat
    requires bits <= 16
  {
    Shr(BitReverse16(v), 16 - bits)
  }

  // ----- the operators, digit by digit

  ghost function ZipAnd(a: seq<bool>, b: seq<bool>): (r: seq<bool>)
    requires |a| == |b|
  {
    seq(|a|, i requires 0 <= i < |a| => a[i] && b[i])
  }

  ghost function ZipOr(a: seq<bool>, b: seq<bool>): (r: seq<bool>)
    requires |a| == |b|
  {
    seq(|a|, i requires 0 <= i < |a| => a[i] || b[i])
  }

  lemma {:induction false} AndDigits(n: nat, m: seq<bool>)
    ensures BitAnd(n, Nat(m)) == Nat(ZipAnd(Bits(n, |m|), m))
    decreases |m|
  {
    if m != [] {
      AndDigits(n / 2, m[1..]);
      var z := ZipAnd(Bits(n, |m|), m);
      assert z[1..] == ZipAnd(Bits(n / 2, |m[1..]|), m[1..]);
      assert z[0] == (n % 2 == 1 && m[0]);
      if n == 0 || Nat(m) == 0 {
        assert BitAnd(n / 2, Nat(m[1..])) == 0;
      }
    }
  }

  lemma {:induction false} OrDigits(a: seq<bool>, b: seq<bool>)
    requires |a| == |b|
    ensures BitOr(Nat(a), Nat(b)) == Nat(ZipOr(a, b))
    decreases |a|
  {
    if a != [] {
      OrDigits(a[1..], b[1..]);
      var z := ZipOr(a, b);
      assert z[1..] == ZipOr(a[1..], b[1..]);
    }
  }

  ghost function Zeros(n: nat): (z: seq<bool>)
    ensures |z| == n
  {
    seq(n, i => false)
  }

  lemma {:induction false} NatZeros(n: nat)
    ensures Nat(Zeros(n)) == 0
  {
    if n > 0 {
      NatZeros(n - 1);
      assert Zeros(n)[1..] == Zeros(n - 1);
    }
  }

  lemma ShrDigits(a: seq<bool>, w: nat)
    requires w <= |a|
    ensures Shr(Nat(a), w) == Nat(a[w..] + Zeros(w))
  {
    NatSplit(a, w);
    NatConcat(a[w..], Zeros(w));
    NatZeros(w);
  }

  lemma {:induction false} ShlDigits(a: seq<bool>, w: nat)
    requires w <= |a| && a[|a| - w..] == Zeros(w)
    ensures Shl(Nat(a), w) == Nat(Zeros(w) + a[..|a| - w])
  {
    var c := a[..|a| - w];
    assert a == c + Zeros(w);
    NatConcat(c, Zeros(w));
    NatConcat(Zeros(w), c);
    NatZeros(w);
  }

  // ----- one stage: blocks of `w` bits change places with their neighbours

  // Is `i` in the upper of its two neighbouring blocks of width `w`?
  predicate Upper(i: nat, w: nat) {
    match w
    case 1 => i == 1 || i == 3 || i == 5 || i == 7 || i == 9 || i == 11 || i == 13 || i == 15
    case 2 => 2 <= i < 4 || 6 <= i < 8 || 10 <= i < 12 || 14 <= i < 16
    case 4 => 4 <= i < 8 || 12 <= i < 16
    case _ => 8 <= i < 16
  }

  // The position that changes places with `i`.
  function Flip(i: nat, w: nat): nat
    requires i < 16 && w in {1, 2, 4, 8}
  {
    if Upper(i, w) then i - w else i + w
  }

  lemma FlipFacts(i: nat, w: nat)
    requires i < 16 && w in {1, 2, 4, 8}
    ensures if Upper(i, w) then w <= i && !Upper(i - w, w) && (i + w < 16 ==> !Upper(i + w, w))
            else i + w < 16 && Upper(i + w, w) && (w <= i ==> Upper(i - w, w))
    ensures Flip(i, w) < 16
  {
  }

  lemma FlipAll(i: nat)
    requires i < 16
    ensures Flip(i, 8) < 16 && Flip(Flip(i, 8), 4) < 16 && Flip(Flip(Flip(i, 8), 4), 2) < 16
    ensures Flip(Flip(Flip(Flip(i, 8), 4), 2), 1) == 15 - i
  {
  }

  ghost function High(w: nat): (m: seq<bool>)
    ensures |m| == 16
  {
    seq(16, i requires 0 <= i < 16 => Upper(i, w))
  }

  ghost function Low(w: nat): (m: seq<bool>)
    ensures |m| == 16
  {
    seq(16, i requires 0 <= i < 16 => !Upper(i, w))
  }

  ghost predicate Swapped(a: seq<bool>, b: seq<bool>, w: nat) {
    |a| == |b| == 16 && w in {1, 2, 4, 8} &&
    forall i :: 0 <= i < 16 ==> Flip(i, w) < 16 && b[i] == a[Flip(i, w)]
  }

  ghost function SwapBlocks(a: seq<bool>, w: nat): (b: seq<bool>)
    requires |a| == 16 && w in {1, 2, 4, 8}
    ensures Swapped(a, b, w)
  {
    seq(16, i requires 0 <= i < 16 => FlipFacts(i, w); a[Flip(i, w)])
  }

  lemma SwapByMasks(a: seq<bool>, w: nat, h: seq<bool>, l: seq<bool>)
    requires |a| == 16 && w in {1, 2, 4, 8} && h == ZipAnd(a, High(w)) && l == ZipAnd(a, Low(w))
    ensures ZipOr(h[w..] + Zeros(w), Zeros(w) + l[..16 - w]) == SwapBlocks(a, w)
  {
    var x, y := h[w..] + Zeros(w), Zeros(w) + l[..16 - w];
    forall i | 0 <= i < 16
      ensures (x[i] || y[i]) == SwapBlocks(a, w)[i]
    {
      FlipFacts(i, w);
      assert x[i] == (i + w < 16 && a[i + w] && Upper(i + w, w));
      assert y[i] == (w <= i && a[i - w] && !Upper(i - w, w));
    }
  }

  lemma Stage(n: nat, w: nat)
    requires w in {1, 2, 4, 8}
    ensures BitOr(Shr(BitAnd(n, Nat(High(w))), w), Shl(BitAnd(n, Nat(Low(w))), w))
            == Nat(SwapBlocks(Bits(n, 16), w))
  {
    var a := Bits(n, 16);
    AndDigits(n, High(w));
    AndDigits(n, Low(w));
    var h, l := ZipAnd(a, High(w)), ZipAnd(a, Low(w));
    ShrDigits(h, w);
    forall i | 0 <= i < w
      ensures l[16 - w..][i] == Zeros(w)[i]
    {
      FlipFacts(16 - w + i, w);
    }
    assert l[16 - w..] == Zeros(w);
    ShlDigits(l, w);
    OrDigits(h[w..] + Zeros(w), Zeros(w) + l[..16 - w]);
    SwapByMasks(a, w, h, l);
  }

  lemma Nibble(b: seq<bool>)
    requires |b| == 4
    ensures Nat(b) == (if b[0] then 1 else 0) + (if b[1] then 2 else 0) + (if b[2] then 4 else 0) + (if b[3] then 8 else 0)
  {
    assert b[1..][1..] == b[2..] && b[2..][1..] == b[3..];
    assert Nat(b[3..]) == if b[3] then 1 else 0;
    assert Nat(b[2..]) == (if b[2] then 1 else 0) + 2 * Nat(b[3..]);
    assert Nat(b[1..]) == (if b[1] then 1 else 0) + 2 * Nat(b[2..]);
  }

  function Value4(b: seq<bool>): nat
    requires |b| == 4
  {
    (if b[0] then 1 else 0) + (if b[1] then 2 else 0) + (if b[2] then 4 else 0) + (if b[3] then 8 else 0)
  }

  lemma ByteIs(lo: seq<bool>, hi: seq<bool>)
    requires |lo| == |hi| == 4
    ensures Bits(Value4(lo) + 16 * Value4(hi), 8) == lo + hi
  {
    Nibble(lo);
    Nibble(hi);
    NatConcat(lo, hi);
    Pow2Small();
    BitsOfNat(lo + hi);
  }

  lemma Sixteen(b: seq<bool>)
    requires |b| == 16
    ensures Nat(b) == Nat(b[..4]) + 16 * Nat(b[4..8]) + 256 * Nat(b[8..12]) + 4096 * Nat(b[12..])
  {
    Pow2Small();
    assert b == b[..4] + (b[4..8] + (b[8..12] + b[12..]));
    NatConcat(b[..4], b[4..8] + (b[8..12] + b[12..]));
    NatConcat(b[4..8], b[8..12] + b[12..]);
    NatConcat(b[8..12], b[12..]);
  }

  lemma MaskValue(w: nat)
    requires w in {1, 2, 4, 8}
    ensures Nat(High(w)) == (match w case 1 => 0xAAAA case 2 => 0xCCCC case 4 => 0xF0F0 case _ => 0xFF00)
    ensures Nat(Low(w)) == (match w case 1 => 0x5555 case 2 => 0x3333 case 4 => 0x0F0F case _ => 0x00FF)
  {
    HalfMask(High(w), w, true);
    HalfMask(Low(w), w, false);
  }

  lemma HalfMask(m: seq<bool>, w: nat, upper: bool)
    requires w in {1, 2, 4, 8} && |m| == 16 && forall i :: 0 <= i < 16 ==> m[i] == (Upper(i, w) == upper)
    ensures Nat(m) == if upper then (match w case 1 => 0xAAAA case 2 => 0xCCCC case 4 => 0xF0F0 case _ => 0xFF00)
                      else (match w case 1 => 0x5555 case 2 => 0x3333 case 4 => 0x0F0F case _ => 0x00FF)
  {
    Sixteen(m);
    MaskNibble(m, 0, w, upper);
    MaskNibble(m, 4, w, upper);
    MaskNibble(m, 8, w, upper);
    MaskNibble(m, 12, w, upper);
    assert m[12..] == m[12..16] && m[..4] == m[0..4];
  }

  lemma MaskNibble(m: seq<bool>, k: nat, w: nat, upper: bool)
    requires w in {1, 2, 4, 8} && k in {0, 4, 8, 12}
    requires |m| == 16 && forall i :: 0 <= i < 16 ==> m[i] == (Upper(i, w) == upper)
    ensures Nat(m[k..k + 4]) == match w
                                case 1 => if upper then 10 else 5
                                case 2 => if upper then 12 else 3
                                case _ => if Upper(k, w) == upper then 15 else 0
  {
    Nibble(m[k..k + 4]);
    assert m[k] == (Upper(k, w) == upper) && m[k + 1] == (Upper(k + 1, w) == upper);
    assert m[k + 2] == (Upper(k + 2, w) == upper) && m[k + 3] == (Upper(k + 3, w) == upper);
  }

  // Four stages reverse the low sixteen bits; anything above them is dropped.
  lemma ReversesSixteen(v: nat)
    ensures BitReverse16(v) == Nat(Rev(Bits(v, 16)))
  {
    MaskValue(1);
    MaskValue(2);
    MaskValue(4);
    MaskValue(8);
    var a0 := Bits(v, 16);
    Stage(v, 1);
    var a1 := SwapBlocks(a0, 1);
    Stage(Nat(a1), 2);
    BitsOfNat(a1);
    var a2 := SwapBlocks(a1, 2);
    Stage(Nat(a2), 4);
    BitsOfNat(a2);
    var a3 := SwapBlocks(a2, 4);
    Stage(Nat(a3), 8);
    BitsOfNat(a3);
    FourSwaps(a0, a1, a2, a3, SwapBlocks(a3, 8));
  }

  lemma FourSwaps(a0: seq<bool>, a1: seq<bool>, a2: seq<bool>, a3: seq<bool>, a4: seq<bool>)
    requires Swapped(a0, a1, 1) && Swapped(a1, a2, 2) && Swapped(a2, a3, 4) && Swapped(a3, a4, 8)
    ensures a4 == Rev(a0)
  {
    forall i | 0 <= i < 16
      ensures a4[i] == a0[15 - i]
    {
      FlipAll(i);
      assert a4[i] == a3[Flip(i, 8)];
    }
  }

  lemma {:induction false} BitsPrefix(b: seq<bool>, k: nat)
    requires k <= |b|
    ensures Bits(Nat(b), k) == b[..k]
    decreases k
  {
    if k > 0 {
      BitsPrefix(b[1..], k - 1);
      assert b[..k] == [b[0]] + b[1..][..k - 1];
    }
  }

  lemma {:induction false} BitsOfSmall(v: nat, k: nat, n: nat)
    requires v < Pow2(k) && k <= n
    ensures Bits(v, n) == Bits(v, k) + Zeros(n - k)
    decreases n
  {
    if k == 0 {
      if n > 0 {
        BitsOfSmall(0, 0, n - 1);
        assert Zeros(n) == [false] + Zeros(n - 1);
      }
    } else {
      BitsOfSmall(v / 2, k - 1, n - 1);
    }
  }

  // `stbi__bit_reverse`: the value of the `bits`-digit number read backwards.
  lemma Reverses(v: nat, bits: nat)
    requires bits <= 16 && v < Pow2(bits)
    ensures BitReverse(v, bits) == Nat(Rev(Bits(v, bits)))
  {
    ReversesSixteen(v);
    BitsOfSmall(v, bits, 16);
    var r := Rev(Bits(v, 16));
    NatSplit(r, 16 - bits);
    assert r[16 - bits..] == Rev(Bits(v, bits));
  }

  // `stbiw__zlib_bitrev`.
  method Bitrev(code: nat, codebits: nat) returns (res: nat)
    requires code < Pow2(codebits)
    ensures res == Nat(Rev(Bits(code, codebits)))
  {
    res := 0;
    var c: nat, n: nat := code, codebits;
    ghost var done: seq<bool> := [];
    while n > 0
      invariant n <= codebits && c < Pow2(n)
      invariant Rev(Bits(code, codebits)) == Rev(Bits(c, n)) + done
      invariant res == Nat(done) && |done| == codebits - n
    {
      assert Rev(Bits(c, n)) == Rev(Bits(c / 2, n - 1)) + [c % 2 == 1];
      ghost var d := [c % 2 == 1] + done;
      assert Nat(d) == c % 2 + 2 * Nat(done) by { assert d[1..] == done; }
      OrBit(res, c % 2);
      res := BitOr(Shl(res, 1), BitAnd(c, 1));
      done := d;
      c := Shr(c, 1);
      n := n - 1;
    }
    assert Rev(Bits(code, codebits)) == done;
  }

  lemma OrBit(a: nat, b: nat)
    requires b < 2
    ensures BitOr(Shl(a, 1), b) == 2 * a + b
    ensures forall c: nat :: c % 2 == b ==> BitAnd(c, 1) == b
  {
    assert Shl(a, 1) == 2 * a;
    if a == 0 || b == 0 {
    } else {
      assert BitOr(2 * a, b) == 1 + 2 * BitOr(a, 0);
    }
    forall c: nat | c % 2 == b
      ensures BitAnd(c, 1) == b
    {
      assert Pow2(1) == 2;
      AndMask(c, 1);
    }
  }
}
