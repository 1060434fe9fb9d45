// A sound stream that the inflater refuses.

module ZRefused {
  import opened BitStream
  import opened BitReversal
  import opened Huffman
  import opened Deflate
  import opened Guarded
  import opened ZCompress
  import opened ZWriter
  import opened Wrappers
  import ZDynamic
  import ZDynamicSample

  // Two zero bytes in a block of fixed codes, without an envelope: 26 bits.
  const TWO_ZEROS: seq<byte> := [0x63, 0x60, 0, 0]

  // The stream is sound, but when the end of the block is looked for the input is used up and 13 bits are left.
  lemma Refused(limit: nat)
    requires limit >= 2
    ensures Inflate(TWO_ZEROS, false, limit) == Some(Parsed([0, 0], 26))
    ensures Inflated(TWO_ZEROS, false, limit) == None
  {
    hide *;
    var s := BytesBits(TWO_ZEROS);
    TwoZeros();
    TwoZerosMeans(s, limit);
    TwoZerosStops(s, limit);
    InflateIs(TWO_ZEROS, limit);
  }

  lemma InflateIs(d: seq<byte>, limit: nat)
    ensures Inflate(d, false, limit) == Blocks(BytesBits(d), 0, [], limit)
    ensures Inflated(d, false, limit) == InBlocks(BytesBits(d), Cursor(0, 0), [], limit)
  {
    hide Blocks, InBlocks;
  }

  ghost function Start(): seq<bool> { [true, true, false] }

  ghost function Zero(): seq<bool> { Codeword(FixedLengths(), 0) }

  ghost function Stop(): seq<bool> { Codeword(FixedLengths(), 256) }

  ghost function Pad(): seq<bool> { Zeros(6) }

  ghost predicate IsTwoZeros(s: seq<bool>) {
    |Zero()| == 8 && |Stop()| == 7 && s == Start() + Zero() + Zero() + Stop() + Pad()
  }

  lemma TwoZeros()
    ensures IsTwoZeros(BytesBits(TWO_ZEROS))
  {
    Codewords();
    ByteBits();
    FourBytes(0x63, 0x60, 0, 0);
    hide Codeword, FixedLengths, Bits, BytesBits, Zero, Stop;
    MoreZeros();
    hide Start, Pad, Zeros;
    Regroup(Start(), [false, false, true, true, false], Zeros(3), Zeros(5), Zeros(8));
    Associate(Start() + Zero() + Zero(), Stop(), Pad());
  }

  lemma MoreZeros()
    ensures Zeros(8) == Zeros(3) + Zeros(5)
  {
  }

  lemma Associate(a: seq<bool>, b: seq<bool>, c: seq<bool>)
    ensures a + (b + c) == a + b + c
  {
  }

  lemma Regroup(a: seq<bool>, b: seq<bool>, c: seq<bool>, d: seq<bool>, e: seq<bool>)
    ensures (a + b) + ((c + b) + ((c + d) + e)) == a + (b + c) + (b + c) + (d + e)
  {
  }

  lemma Codewords()
    ensures Zero() == [false, false, true, true, false] + Zeros(3) && Stop() == Zeros(7) && Stop() + Pad() == Zeros(5) + Zeros(8)
  {
    hide *;
    CodewordsAre();
    ByteIs([false, false, false, false], [true, true, false, false]);
    ZeroBits(7);
    Reversed();
  }

  lemma CodewordsAre()
    ensures Zero() == Rev(Bits(0x30, 8)) && Stop() == Rev(Bits(0, 7))
  {
    hide Codeword, FixedLengths, Bits, Rev;
    FixedCodewords(0);
    FixedCodewords(256);
  }

  lemma Reversed()
    ensures Value4([false, false, false, false]) + 16 * Value4([true, true, false, false]) == 0x30
    ensures Rev([false, false, false, false] + [true, true, false, false]) == [false, false, true, true, false] + Zeros(3)
    ensures Rev(Zeros(7)) == Zeros(7) && Zeros(7) + Pad() == Zeros(5) + Zeros(8)
  {
  }

  lemma ZeroBits(n: nat)
    ensures Bits(0, n) == Zeros(n)
  {
    NatZeros(n);
    BitsOfNat(Zeros(n));
  }

  lemma FourBytes(a: byte, b: byte, c: byte, d: byte)
    ensures BytesBits([a, b, c, d]) == Bits(a, 8) + (Bits(b, 8) + (Bits(c, 8) + Bits(d, 8)))
  {
    hide Bits;
    OneByte(d);
    assert [c, d][1..] == [d] && [b, c, d][1..] == [c, d] && [a, b, c, d][1..] == [b, c, d];
    assert BytesBits([c, d]) == Bits(c, 8) + BytesBits([d]);
    assert BytesBits([b, c, d]) == Bits(b, 8) + BytesBits([c, d]);
  }

  lemma ByteBits()
    ensures Bits(0x63, 8) == Start() + [false, false, true, true, false]
    ensures Bits(0x60, 8) == Zeros(3) + [false, false, true, true, false]
    ensures Bits(0, 8) == Zeros(8)
  {
    ByteIs([true, true, false, false], [false, true, true, false]);
    ByteIs([false, false, false, false], [false, true, true, false]);
    ZeroBits(8);
    hide Bits;
  }

  // The first block is the last, and of type 1.
  lemma FixedStart(s: seq<bool>, limit: nat)
    requires |s| >= 3 && s[0] && s[1] && !s[2]
    ensures Blocks(s, 0, [], limit) == Symbols(FixedLengths(), FixedDistances(), s, 3, [], limit)
    ensures InBlocks(s, Cursor(0, 0), [], limit) == Inside(FixedLengths(), FixedDistances(), s, Cursor(3, 32), [], limit)
  {
    hide Symbols, Inside, FixedLengths, FixedDistances, Stored, DynamicCodes, FindCodes, InStored;
    assert Window(s, 1, 2) == [true, false];
    assert Nat([true, false]) == 1 by { assert [true, false][1..] == [false] && [false][1..] == []; }
  }

  lemma OneFixedBlock(s: seq<bool>, limit: nat)
    requires IsTwoZeros(s)
    ensures Blocks(s, 0, [], limit) == Symbols(FixedLengths(), FixedDistances(), s, 3, [], limit)
    ensures InBlocks(s, Cursor(0, 0), [], limit) == Inside(FixedLengths(), FixedDistances(), s, Cursor(3, 32), [], limit)
  {
    hide *;
    ZerosStart(s);
    FixedStart(s, limit);
  }

  lemma ZerosStart(s: seq<bool>)
    requires IsTwoZeros(s)
    ensures |s| >= 3 && s[0] && s[1] && !s[2]
  {
    hide Zero, Stop;
  }

  lemma TwoZerosMeans(s: seq<bool>, limit: nat)
    requires IsTwoZeros(s) && limit >= 2
    ensures Blocks(s, 0, [], limit) == Some(Parsed([0, 0], 26))
  {
    hide *;
    OneFixedBlock(s, limit);
    Named(s);
    DecodesNothing(Start());
    LiteralDecodes(3, Start(), [], 0);
    assert [] + [0 as byte] == [0] && [0 as byte] + [0] == [0, 0];
    LiteralDecodes(3, Start() + Zero(), [0], 0);
    EndDecodes(3, Start() + Zero() + Zero(), [0, 0], Pad(), limit);
  }

  lemma Named(s: seq<bool>)
    requires IsTwoZeros(s)
    ensures Zero() == Codeword(FixedLengths(), 0) && Stop() == Codeword(FixedLengths(), 256)
    ensures |Start()| == 3 && |Zero()| == 8 && |Stop()| == 7 && s == Start() + Zero() + Zero() + Stop() + Pad()
  {
    hide Codeword;
  }

  // What stands at the next three symbols.
  lemma TwoZerosSymbols(s: seq<bool>)
    requires IsTwoZeros(s)
    ensures Symbol(FixedLengths(), s, 3) == Some(0) && Symbol(FixedLengths(), s, 11) == Some(0)
    ensures FixedLengths()[0] == 8
  {
    hide Symbol, FixedLengths, Codeword;
    var a, b, c, t := Start(), Zero(), Stop(), [false, false, false, false, false, false];
    assert (a + b) + (b + c + t) == s && (a + b + b) + (c + t) == s;
    CodewordNext(a, 0, b + c + t);
    CodewordNext(a + b, 0, c + t);
  }

  lemma TwoZerosStops(s: seq<bool>, limit: nat)
    requires IsTwoZeros(s) && limit >= 2
    ensures InBlocks(s, Cursor(0, 0), [], limit) == None
  {
    OneFixedBlock(s, limit);
    TwoZerosSymbols(s);
    hide Symbol, InBlocks, FixedDistances, Codeword, FixedLengths, Zero, Stop, Start;
    var ll, dl := FixedLengths(), FixedDistances();
    assert Look(ll, s, Cursor(3, 32)) == Some(Seen(0, Cursor(11, 32)));
    assert Look(ll, s, Cursor(11, 32)) == Some(Seen(0, Cursor(19, 32)));
    assert Look(ll, s, Cursor(19, 32)) == None;
    hide Look;
    LiteralSeen(ll, dl, s, Cursor(3, 32), [], limit, 0);
    LiteralSeen(ll, dl, s, Cursor(11, 32), [0], limit, 0);
    OtherSeen(ll, dl, s, Cursor(19, 32), [0, 0], limit);
    hide Inside;
    assert [] + [0] == [0] && [0] + [0] == [0, 0];
  }

  // ----- with fifteen bits left

  // Eight bytes in a block of fixed codes: 80 bits, which fill ten bytes.
  const LITERALS: seq<byte> := [0, 255, 255, 255, 255, 255, 0, 255]

  function Full(): seq<byte> { [0x63, 0xF8] + Repeat<byte>(0xFF, 5) + [0x0C, 0xFF] + [0x01] }

  // The end of the block is looked for with fifteen bits left, one too few.
  lemma RefusedFull(limit: nat)
    requires limit >= 8
    ensures Inflate(Full(), false, limit) == Some(Parsed(LITERALS, 80))
    ensures Inflated(Full(), false, limit) == None
  {
    hide *;
    var s := BytesBits(Full());
    FullBits();
    FullSymbols(s);
    FullStart(s, limit);
    FullMeans(s, limit);
    FullStops(s, limit);
    InflateIs(Full(), limit);
  }

  ghost function FullBlock(): seq<bool> {
    [true, true, false] + EightBits() + NineBits() + NineBits() + NineBits() + NineBits() + NineBits() + EightBits() + NineBits() +
    Repeat(false, 7)
  }

  ghost function EightBits(): seq<bool> { [false, false, true, true, false, false, false, false] }

  ghost function NineBits(): seq<bool> { Repeat(true, 9) }

  lemma FullBits()
    ensures BytesBits(Full()) == FullBlock()
  {
    hide Bits, BytesBits;
    ByteIs([true, true, false, false], [false, true, true, false]);
    ByteIs([false, false, false, true], [true, true, true, true]);
    ByteIs([false, false, true, true], [false, false, false, false]);
    ByteIs([true, true, true, true], [true, true, true, true]);
    ByteIs([true, false, false, false], [false, false, false, false]);
    ZDynamicSample.BytePair(0x63, 0xF8);
    ZDynamicSample.BytePair(0x0C, 0xFF);
    ZDynamicSample.OnesBytes(5);
    OneByte(0x01);
    BytesBitsConcat([0x63, 0xF8], Repeat<byte>(0xFF, 5));
    BytesBitsConcat([0x63, 0xF8] + Repeat<byte>(0xFF, 5), [0x0C, 0xFF]);
    BytesBitsConcat([0x63, 0xF8] + Repeat<byte>(0xFF, 5) + [0x0C, 0xFF], [0x01]);
  }

  lemma FullCodewords()
    ensures Codeword(FixedLengths(), 0) == EightBits() && Codeword(FixedLengths(), 255) == NineBits()
    ensures Codeword(FixedLengths(), 256) == Repeat(false, 7)
  {
    hide Codeword, FixedLengths, Bits, Rev;
    FixedCodewords(0);
    FixedCodewords(255);
    FixedCodewords(256);
    ByteIs([false, false, false, false], [true, true, false, false]);
    ZeroBits(7);
    OnesReversed();
    Reversed();
    assert Zeros(7) == Repeat(false, 7);
    assert EightBits() == [false, false, true, true, false] + Zeros(3);
  }

  lemma OnesReversed()
    ensures Rev(Bits(0x1FF, 9)) == NineBits()
  {
    ByteIs([true, true, true, true], [true, true, true, true]);
    assert Bits(0x1FF, 9) == [true] + Bits(0xFF, 8);
  }

  // The symbols and where they stand.
  ghost predicate Spells(s: seq<bool>) {
    |s| == 80 && s[..3] == [true, true, false] &&
    Symbol(FixedLengths(), s, 3) == Some(0) && Symbol(FixedLengths(), s, 11) == Some(255) &&
    Symbol(FixedLengths(), s, 20) == Some(255) && Symbol(FixedLengths(), s, 29) == Some(255) &&
    Symbol(FixedLengths(), s, 38) == Some(255) && Symbol(FixedLengths(), s, 47) == Some(255) &&
    Symbol(FixedLengths(), s, 56) == Some(0) && Symbol(FixedLengths(), s, 64) == Some(255) &&
    Symbol(FixedLengths(), s, 73) == Some(256) &&
    FixedLengths()[0] == 8 && FixedLengths()[255] == 9 && FixedLengths()[256] == 7
  }

  lemma SymbolThere(s: seq<bool>, p: nat, n: nat)
    requires n < 288 && HasBits(s, p, Codeword(FixedLengths(), n))
    ensures Symbol(FixedLengths(), s, p) == Some(n)
  {
    hide Codeword, Symbol, HasBits, Realizable;
    FixedRealizable();
    assert FixedLengths()[n] == FixedLength(n) > 0;
    ZDynamic.CodewordRead(FixedLengths(), s, p, n);
  }

  lemma FullSymbols(s: seq<bool>)
    requires s == FullBlock()
    ensures Spells(s)
  {
    hide Codeword, Symbol, FixedLengths;
    FullCodewords();
    Lengths3();
    SymbolThere(s, 3, 0);
    SymbolThere(s, 11, 255);
    SymbolThere(s, 20, 255);
    SymbolThere(s, 29, 255);
    SymbolThere(s, 38, 255);
    SymbolThere(s, 47, 255);
    SymbolThere(s, 56, 0);
    SymbolThere(s, 64, 255);
    SymbolThere(s, 73, 256);
  }

  lemma Lengths3()
    ensures |FixedLengths()| == 288 && FixedLengths()[0] == 8 && FixedLengths()[255] == 9 && FixedLengths()[256] == 7
  {
  }

  lemma FullStart(s: seq<bool>, limit: nat)
    requires Spells(s)
    ensures Blocks(s, 0, [], limit) == Symbols(FixedLengths(), FixedDistances(), s, 3, [], limit)
    ensures InBlocks(s, Cursor(0, 0), [], limit) == Inside(FixedLengths(), FixedDistances(), s, Cursor(3, 32), [], limit)
  {
    hide *;
    StartBits(s);
    FixedStart(s, limit);
  }

  lemma StartBits(s: seq<bool>)
    requires Spells(s)
    ensures |s| >= 3 && s[0] && s[1] && !s[2]
  {
    hide Symbol, FixedLengths;
    assert s[..3][0] && s[..3][1] && !s[..3][2];
  }

  lemma FullMeans(s: seq<bool>, limit: nat)
    requires Spells(s) && limit >= 8
    ensures Symbols(FixedLengths(), FixedDistances(), s, 3, [], limit) == Some(Parsed(LITERALS, 80))
  {
    hide Symbols, FixedLengths, FixedDistances, Symbol;
    var ll, dl := FixedLengths(), FixedDistances();
    Lengths3();
    LiteralStep(ll, dl, s, 3, [], limit, 0);
    LiteralStep(ll, dl, s, 11, [0], limit, 255);
    LiteralStep(ll, dl, s, 20, [0, 255], limit, 255);
    LiteralStep(ll, dl, s, 29, [0, 255, 255], limit, 255);
    LiteralStep(ll, dl, s, 38, [0, 255, 255, 255], limit, 255);
    LiteralStep(ll, dl, s, 47, [0, 255, 255, 255, 255], limit, 255);
    LiteralStep(ll, dl, s, 56, [0, 255, 255, 255, 255, 255], limit, 0);
    LiteralStep(ll, dl, s, 64, [0, 255, 255, 255, 255, 255, 0], limit, 255);
    OtherStep(ll, dl, s, 73, LITERALS, limit);
    Appended();
  }

  // Output so far and the next byte.
  lemma Appended()
    ensures [] + [0 as byte] == [0] && [0 as byte] + [255] == [0, 255] && [0 as byte, 255] + [255] == [0, 255, 255]
    ensures [0 as byte, 255, 255] + [255] == [0, 255, 255, 255]
    ensures [0 as byte, 255, 255, 255] + [255] == [0, 255, 255, 255, 255]
    ensures [0 as byte, 255, 255, 255, 255] + [255] == [0, 255, 255, 255, 255, 255]
    ensures [0 as byte, 255, 255, 255, 255, 255] + [0] == [0, 255, 255, 255, 255, 255, 0]
    ensures [0 as byte, 255, 255, 255, 255, 255, 0] + [255] == LITERALS
  {
  }

  lemma LookIs(s: seq<bool>, p: nat, end: nat, n: nat, q: nat)
    requires n < 288 && Symbol(FixedLengths(), s, p) == Some(n) && (p + 16 <= end || end < |s|)
    requires q == if p + 16 <= end then end else 8 * (p / 8) + 32
    ensures Look(FixedLengths(), s, Cursor(p, end)) == Some(Seen(n, Cursor(p + FixedLengths()[n], q)))
  {
    hide Symbol, FixedLengths;
  }

  lemma FullLooks(s: seq<bool>)
    requires Spells(s)
    ensures var ll := FixedLengths();
      Look(ll, s, Cursor(3, 32)) == Some(Seen(0, Cursor(11, 32))) && Look(ll, s, Cursor(11, 32)) == Some(Seen(255, Cursor(20, 32))) &&
      Look(ll, s, Cursor(20, 32)) == Some(Seen(255, Cursor(29, 48))) && Look(ll, s, Cursor(29, 48)) == Some(Seen(255, Cursor(38, 48))) &&
      Look(ll, s, Cursor(38, 48)) == Some(Seen(255, Cursor(47, 64))) && Look(ll, s, Cursor(47, 64)) == Some(Seen(255, Cursor(56, 64))) &&
      Look(ll, s, Cursor(56, 64)) == Some(Seen(0, Cursor(64, 88))) && Look(ll, s, Cursor(64, 88)) == Some(Seen(255, Cursor(73, 88))) &&
      Look(ll, s, Cursor(73, 88)) == None
  {
    hide Symbol, FixedLengths;
    Lengths3();
    assert Look(FixedLengths(), s, Cursor(73, 88)) == None;
    hide Look;
    LookIs(s, 3, 32, 0, 32);
    LookIs(s, 11, 32, 255, 32);
    LookIs(s, 20, 32, 255, 48);
    LookIs(s, 29, 48, 255, 48);
    LookIs(s, 38, 48, 255, 64);
    LookIs(s, 47, 64, 255, 64);
    LookIs(s, 56, 64, 0, 88);
    LookIs(s, 64, 88, 255, 88);
  }

  lemma FullStops(s: seq<bool>, limit: nat)
    requires Spells(s) && limit >= 8
    ensures Inside(FixedLengths(), FixedDistances(), s, Cursor(3, 32), [], limit) == None
  {
    hide Inside, Look, FixedLengths, FixedDistances, Spells;
    var ll, dl := FixedLengths(), FixedDistances();
    FullLooks(s);
    Appended();
    LiteralSeen(ll, dl, s, Cursor(3, 32), [], limit, 0);
    LiteralSeen(ll, dl, s, Cursor(11, 32), [0], limit, 255);
    LiteralSeen(ll, dl, s, Cursor(20, 32), [0, 255], limit, 255);
    LiteralSeen(ll, dl, s, Cursor(29, 48), [0, 255, 255], limit, 255);
    LiteralSeen(ll, dl, s, Cursor(38, 48), [0, 255, 255, 255], limit, 255);
    LiteralSeen(ll, dl, s, Cursor(47, 64), [0, 255, 255, 255, 255], limit, 255);
    LiteralSeen(ll, dl, s, Cursor(56, 64), [0, 255, 255, 255, 255, 255], limit, 0);
    LiteralSeen(ll, dl, s, Cursor(64, 88), [0, 255, 255, 255, 255, 255, 0], limit, 255);
    OtherSeen(ll, dl, s, Cursor(73, 88), LITERALS, limit);
  }
}
