// The compressor's bit output: the `stbiw__zlib_*` macros over `bitbuf`, `bitcount` and `out`,
// and what a decoder makes of the bits they append.

module ZWriter {
  import opened BitStream
  import opened BitReversal
  import opened Huffman
  import opened Deflate

  // ----- the fixed codes in closed form

  lemma {:induction false} CountRun(lens: seq<nat>, l: nat, a: nat, b: nat, v: nat)
    requires a <= b <= |lens| && forall i :: a <= i < b ==> lens[i] == v
    ensures Count(lens, l, b) == Count(lens, l, a) + (if l == v then b - a else 0)
    decreases b - a
  {
    if a < b { CountRun(lens, l, a, b - 1, v); }
  }

  lemma FixedCount(l: nat, n: nat)
    requires n <= 288
    ensures n <= 144 ==> Count(FixedLengths(), l, n) == if l == 8 then n else 0
    ensures 144 <= n <= 256 ==> Count(FixedLengths(), l, n) == if l == 8 then 144 else if l == 9 then n - 144 else 0
    ensures 256 <= n <= 280 ==>
      Count(FixedLengths(), l, n) == if l == 8 then 144 else if l == 9 then 112 else if l == 7 then n - 256 else 0
    ensures 280 <= n ==>
      Count(FixedLengths(), l, n) == if l == 8 then n - 136 else if l == 9 then 112 else if l == 7 then 24 else 0
  {
    var f := FixedLengths();
    assert Count(f, l, 0) == 0;
    assert forall i :: 0 <= i < 288 ==> f[i] == FixedLength(i);
    hide Count, FixedLengths;
    CountRun(f, l, 0, if n <= 144 then n else 144, 8);
    if n > 144 { CountRun(f, l, 144, if n <= 256 then n else 256, 9); }
    if n > 256 { CountRun(f, l, 256, if n <= 280 then n else 280, 7); }
    if n > 280 { CountRun(f, l, 280, n, 8); }
  }

  lemma {:induction false} FirstCodeZero(lens: seq<nat>, l: nat)
    requires forall k :: 1 <= k < l ==> Total(lens, k) == 0
    ensures FirstCode(lens, l) == 0
  {
    if l > 0 { FirstCodeZero(lens, l - 1); }
  }

  lemma FixedFirstCodes()
    ensures FirstCode(FixedLengths(), 7) == 0 && FirstCode(FixedLengths(), 8) == 0x30 && FirstCode(FixedLengths(), 9) == 0x190
    ensures FirstCode(FixedDistances(), 5) == 0
  {
    forall k | 1 <= k < 10
      ensures Total(FixedLengths(), k) == if k == 7 then 24 else if k == 8 then 152 else if k == 9 then 112 else 0
      ensures k < 5 ==> Total(FixedDistances(), k) == 0
    {
      FixedCount(k, 288);
      assert Count(FixedDistances(), k, 0) == 0;
      CountRun(FixedDistances(), k, 0, 32, 5);
    }
    FirstCodeZero(FixedLengths(), 7);
    FirstCodeZero(FixedDistances(), 5);
  }

  function FixedCode(n: nat): nat
    requires n < 288
  {
    if n <= 143 then 0x30 + n else if n <= 255 then 0x190 + n - 144 else if n <= 279 then n - 256 else 0xc0 + n - 280
  }

  // The constants of the `huff1` to `huff4` macros are the canonical codes.
  lemma FixedCodes(n: nat)
    requires n < 288
    ensures Code(FixedLengths(), n) == FixedCode(n)
    ensures n < 32 ==> Code(FixedDistances(), n) == n
  {
    FixedFirstCodes();
    FixedCount(FixedLength(n), n);
    if n < 32 {
      assert Count(FixedDistances(), 5, 0) == 0;
      CountRun(FixedDistances(), 5, 0, n, 5);
    }
  }

  lemma FixedCodewords(n: nat)
    requires n < 288
    ensures FixedCode(n) < Pow2(FixedLength(n))
    ensures Codeword(FixedLengths(), n) == Rev(Bits(FixedCode(n), FixedLength(n)))
    ensures n < 32 ==> n < Pow2(5) && Codeword(FixedDistances(), n) == Rev(Bits(n, 5))
  {
    FixedCodes(n);
    Pow2Small();
  }

  // ----- bit output

  class ZWriter {
    var bitbuf: nat
    var bitcount: nat
    var out: seq<byte>

    ghost predicate Valid()
      reads this
    {
      bitcount < 8 && bitbuf < Pow2(bitcount)
    }

    // Every bit written so far.
    ghost function Written(): seq<bool>
      reads this
    {
      BytesBits(out) + Bits(bitbuf, bitcount)
    }

    constructor ()
      ensures Valid() && bitcount == 0 && out == []
    {
      bitbuf, bitcount, out := 0, 0, [];
    }

    // `stbiw__sbpush(out, v)`, with the bit buffer empty.
    method PutByte(v: byte)
      requires Valid() && bitcount == 0
      modifies `out
      ensures Valid() && out == old(out) + [v] && Written() == old(Written()) + Bits(v, 8)
    {
      out := out + [v];
      BytesBitsConcat(old(out), [v]);
      assert BytesBits([v]) == Bits(v, 8) by { assert [v][1..] == []; }
    }

    // `stbiw__zlib_add`
    method Add(code: nat, codebits: nat)
      requires Valid() && code < Pow2(codebits)
      modifies this
      ensures Valid() && Written() == old(Written()) + Bits(code, codebits)
      ensures |out| >= old(|out|) && out[..old(|out|)] == old(out) && bitcount == (old(bitcount) + codebits) % 8
    {
      AddBits(bitbuf, bitcount, code, codebits);
      bitbuf := BitOr(bitbuf, Shl(code, bitcount));
      bitcount := bitcount + codebits;
      Flush();
    }

    method Flush()
      requires bitbuf < Pow2(bitcount)
      modifies this
      ensures Valid() && Written() == old(Written())
      ensures |out| >= old(|out|) && out[..old(|out|)] == old(out) && bitcount == old(bitcount) % 8
    {
      hide Pow2, BytesBits, Bits;
      while bitcount >= 8
        invariant bitbuf < Pow2(bitcount) && Written() == old(Written())
        invariant |out| >= old(|out|) && out[..old(|out|)] == old(out) && bitcount % 8 == old(bitcount) % 8
        decreases bitcount
      {
        FlushByte();
      }
    }

    method FlushByte()
      requires bitbuf < Pow2(bitcount) && bitcount >= 8
      modifies this
      ensures bitbuf < Pow2(bitcount) && Written() == old(Written())
      ensures |out| == old(|out|) + 1 && out[..old(|out|)] == old(out) && bitcount == old(bitcount) - 8
    {
      FlushBits(bitbuf, bitcount);
      hide Bits, BitAnd, Shr, Pow2;
      var low: byte := BitAnd(bitbuf, 255);
      BytesBitsConcat(out, [low]);
      OneByte(low);
      out := out + [low];
      bitbuf := Shr(bitbuf, 8);
      bitcount := bitcount - 8;
    }

    // `stbiw__zlib_huffa`
    method Huffa(b: nat, c: nat)
      requires Valid() && b < Pow2(c)
      modifies this
      ensures Valid() && Written() == old(Written()) + Rev(Bits(b, c))
      ensures |out| >= old(|out|) && out[..old(|out|)] == old(out)
    {
      var r := Bitrev(b, c);
      NatBound(Rev(Bits(b, c)));
      BitsOfNat(Rev(Bits(b, c)));
      Add(r, c);
    }

    // `stbiw__zlib_huff`: a literal/length symbol in the fixed code.
    method Huff(n: nat)
      requires Valid() && n < 288
      modifies this
      ensures Valid() && Written() == old(Written()) + Codeword(FixedLengths(), n)
      ensures |out| >= old(|out|) && out[..old(|out|)] == old(out)
    {
      hide Codeword, FixedLengths, FixedLength, FixedCode, Bits, Pow2;
      FixedCodewords(n);
      var b, c := PickCode(n);
      Huffa(b, c);
    }

    static method PickCode(n: nat) returns (b: nat, c: nat)
      requires n < 288
      ensures b == FixedCode(n) && c == FixedLength(n)
    {
      if n <= 143 {
        b, c := 0x30 + n, 8;
      } else if n <= 255 {
        b, c := 0x190 + n - 144, 9;
      } else if n <= 279 {
        b, c := 0 + n - 256, 7;
      } else {
        b, c := 0xc0 + n - 280, 8;
      }
    }

    // A distance symbol: five bits, reversed.
    method HuffDistance(j: nat)
      requires Valid() && j < 32
      modifies this
      ensures Valid() && Written() == old(Written()) + Codeword(FixedDistances(), j)
      ensures |out| >= old(|out|) && out[..old(|out|)] == old(out)
    {
      FixedCodewords(j);
      hide Codeword, FixedDistances, Bits, Pow2, Written, Valid;
      Huffa(j, 5);
    }
  }
}
