// `BC6H::Data`: the 128 bits of a block as two words that are shifted right as they are read.

module Bc6hData {
  import opened BitStream
  import opened BitReversal

  // ----- single bits of a number

  function Bit(n: nat, b: nat): bool { Shr(n, b) % 2 == 1 }

  lemma BitNext(n: nat, b: nat)
    ensures Bit(n, b + 1) == Bit(n / 2, b) && Bit(n, 0) == (n % 2 == 1)
  {
    HalfMod(n, Pow2(b));
    assert Pow2(0) == 1;
  }

  lemma OrHalf(m: nat, n: nat)
    ensures BitOr(m, n) % 2 == (if m % 2 == 1 || n % 2 == 1 then 1 else 0) && BitOr(m, n) / 2 == BitOr(m / 2, n / 2)
  {
  }

  lemma {:induction false} BitOfOr(m: nat, n: nat, b: nat)
    ensures Bit(BitOr(m, n), b) <==> Bit(m, b) || Bit(n, b)
    decreases b
  {
    hide Bit, BitOr;
    var k := if b == 0 then 0 else b - 1;
    OrHalf(m, n);
    BitNext(m, k);
    BitNext(n, k);
    BitNext(BitOr(m, n), k);
    if b > 0 { BitOfOr(m / 2, n / 2, b - 1); }
  }

  lemma {:induction false} BitOfNat(w: seq<bool>, b: nat)
    ensures Bit(Nat(w), b) <==> b < |w| && w[b]
    decreases b
  {
    if w == [] {
      NoBit(b);
    } else if b == 0 {
      BitNext(Nat(w), 0);
    } else {
      BitOfNat(w[1..], b - 1);
      BitNext(Nat(w), b - 1);
      assert Nat(w) / 2 == Nat(w[1..]);
    }
  }

  lemma NoBit(b: nat)
    ensures !Bit(0, b)
  {
    assert 0 / Pow2(b) == 0;
  }

  lemma {:induction false} BitOfShl(v: nat, n: nat, b: nat)
    ensures Bit(Shl(v, n), b) <==> b >= n && Bit(v, b - n)
    decreases n
  {
    if n == 0 {
      assert Pow2(0) == 1;
    } else {
      Slide(v, Pow2(n - 1));
      var d := Shl(v, n - 1);
      assert Shl(v, n) == 2 * d && (2 * d) / 2 == d && (2 * d) % 2 == 0;
      if b == 0 { BitNext(2 * d, 0); } else {
        BitNext(2 * d, b - 1);
        BitOfShl(v, n - 1, b - 1);
      }
    }
  }

  // Bits determine the number.
  lemma {:induction false} SameBits(n: nat, w: seq<bool>)
    requires forall b: nat :: Bit(n, b) <==> b < |w| && w[b]
    ensures n == Nat(w)
    decreases |w|, n
  {
    BitNext(n, 0);
    if w == [] && n == 0 { return; }
    var rest := if w == [] then [] else w[1..];
    forall b: nat
      ensures Bit(n / 2, b) <==> b < |rest| && rest[b]
    {
      BitNext(n, b);
    }
    assert Bit(n, 0) <==> 0 < |w| && w[0];
    SameBits(n / 2, rest);
  }

  // ----- reading

  // What a field reads at position `p`: a slice of the block, in place, backwards when `msb < lsb`.
  ghost function FieldBits(s: seq<bool>, p: nat, msb: nat, lsb: nat): nat {
    if msb < lsb then Shl(Nat(Rev(Window(s, p, lsb - msb + 1))), msb) else Shl(Nat(Window(s, p, msb - lsb + 1)), lsb)
  }

  class Data {
    var low64: nat
    var high64: nat
    ghost const s: seq<bool>
    ghost var pos: nat

    // The words hold the 128 bits from `pos` on, zeros past the end of the block.
    ghost predicate Valid()
      reads this
    {
      |s| == 128 && low64 == Nat(Window(s, pos, 64)) && high64 == Nat(Window(s, pos + 64, 64))
    }

    constructor (block: seq<byte>)
      requires |block| == 16
      ensures Valid() && s == BytesBits(block) && pos == 0
    {
      low64 := Le(block[..8]);
      high64 := Le(block[8..]);
      s := BytesBits(block);
      pos := 0;
      new;
      Words(block);
    }

    static lemma Words(block: seq<byte>)
      requires |block| == 16
      ensures var s := BytesBits(block);
        |s| == 128 && Le(block[..8]) == Nat(Window(s, 0, 64)) && Le(block[8..]) == Nat(Window(s, 64, 64))
    {
      hide BytesBits, Le, Nat;
      var s, lo, hi := BytesBits(block), BytesBits(block[..8]), BytesBits(block[8..]);
      LeBits(block[..8]);
      LeBits(block[8..]);
      BytesBitsConcat(block[..8], block[8..]);
      assert block == block[..8] + block[8..];
      WindowInside(s, 0, 64);
      WindowInside(s, 64, 64);
      assert s[0..64] == lo && s[64..64 + 64] == hi;
    }

    method ConsumeBits(msb0: nat, lsb0: nat) returns (bits: nat)
      requires Valid() && -31 < msb0 - lsb0 < 31
      modifies this
      ensures Valid() && bits == FieldBits(s, old(pos), msb0, lsb0)
      ensures pos == old(pos) + Abs(msb0 - lsb0) + 1
    {
      hide Nat, Window, Rev, Pow2, Shr, BitAnd, BitOr;
      var msb, lsb := msb0, lsb0;
      var reversed := msb < lsb;
      if reversed { msb, lsb := lsb, msb; }
      var numBits := msb - lsb + 1;
      var mask := Shl(1, numBits) - 1;
      SliceOff(s, pos, numBits);
      NatBound(Window(s, pos, numBits));
      bits := BitAnd(low64, mask);
      low64 := Shr(low64, numBits);
      low64 := BitOr(low64, Shl(BitAnd(high64, mask), 64 - numBits));
      high64 := Shr(high64, numBits);
      ghost var w := Window(s, pos, numBits);
      pos := pos + numBits;
      if reversed {
        BitsOfNat(w);
        bits := Reverse(bits, numBits);
      }
      bits := Shl(bits, lsb);
    }

    // The loop that turns `n` bits round.
    static method Reverse(v: nat, n: nat) returns (tmp: nat)
      requires v < Pow2(n)
      ensures tmp == Nat(Rev(Bits(v, n)))
    {
      tmp := Bitrev(v, n);
    }

    // Moving on by `n` bits.
    static lemma SliceOff(s: seq<bool>, p: nat, n: nat)
      requires |s| == 128 && n <= 64
      ensures var low, high, mask := Nat(Window(s, p, 64)), Nat(Window(s, p + 64, 64)), Shl(1, n) - 1;
        BitAnd(low, mask) == Nat(Window(s, p, n)) &&
        BitOr(Shr(low, n), Shl(BitAnd(high, mask), 64 - n)) == Nat(Window(s, p + n, 64)) &&
        Shr(high, n) == Nat(Window(s, p + n + 64, 64))
    {
      hide Nat, Window, Shr, BitAnd, BitOr;
      Halves(s, p, n);
      Halves(s, p + 64, n);
      OrAppends(Window(s, p + n, 64 - n), Window(s, p + 64, n));
      WindowConcat(s, p + n, 64 - n, n);
      WindowConcat(s, p + n + 64, 64 - n, n);
      ZeroWindow(s, p + 128, n);
      NatConcat(Window(s, p + n + 64, 64 - n), Window(s, p + 128, n));
    }

    static lemma Halves(s: seq<bool>, p: nat, n: nat)
      requires n <= 64
      ensures BitAnd(Nat(Window(s, p, 64)), Shl(1, n) - 1) == Nat(Window(s, p, n))
      ensures Shr(Nat(Window(s, p, 64)), n) == Nat(Window(s, p + n, 64 - n))
    {
      hide Nat, Window;
      AndMask(Nat(Window(s, p, 64)), n);
      NatSplit(Window(s, p, 64), n);
      WindowConcat(s, p, n, 64 - n);
    }
  }
}
