// A stream with a code of its own, byte by byte: 256 symbols of eight bits, their lengths written as one length and repeats.

module ZDynamicSample {
  import opened BitStream
  import opened BitReversal
  import opened Huffman
  import opened Deflate
  import opened Guarded
  import opened ZWriter
  import opened ZDynamic
  import opened Wrappers

  // Fields of the first four bytes: 257 and 1 lengths, five code lengths: two bits for 16, two for 0, one for 8.
  function Sample(): seq<byte> { [0x05, 0x20, 0x04, 0x28] + ([0xfe] + Repeat<byte>(0xff, 20) + [0x49]) + [0x86, 0xff] + [0, 0] }

  function CodeLengths(): seq<nat> { [2, 0, 0, 0, 0, 0, 0, 0, 1, 0, 0, 0, 0, 0, 0, 0, 2, 0, 0] }

  function Tail(): seq<Item> { [One(8), One(8), One(0), One(8), One(0)] }

  function Items(): seq<Item> { [One(8)] + (Repeat(Again(6), 42) + Tail()) }

  // Every byte but 255, and the end.
  function Literals(): seq<nat> { Repeat(8, 255) + [0, 8] }

  function SampleHeader(): Header { Header(Literals(), [0], CodeLengths(), 5, Items()) }

  // The sample stands for "a".
  lemma SampleInflates(limit: nat)
    ensures limit >= 1 ==> Inflated(Sample(), false, limit).Some? && Inflated(Sample(), false, limit).value.out == [97]
  {
    hide *;
    SampleHolds();
    assert 8 * |Sample()| == |BytesBits(Sample())|;
    FillsIs(SampleHeader(), [Literal(97)], BytesBits(Sample()), [97]);
    RoundTrip(SampleHeader(), [Literal(97)], Sample(), limit);
  }

  // ----- the code of the lengths

  lemma CountAt(lens: seq<nat>, l: nat, n: nat)
    requires 0 < n <= |lens|
    ensures Count(lens, l, n) == Count(lens, l, n - 1) + (if lens[n - 1] == l then 1 else 0)
  {
  }

  lemma CodeCounts(l: nat)
    requires l in {1, 2}
    ensures Count(CodeLengths(), l, 0) == 0 && Count(CodeLengths(), l, 8) == (if l == 2 then 1 else 0)
    ensures Count(CodeLengths(), l, 16) == 1 && Count(CodeLengths(), l, 19) == (if l == 2 then 2 else 1)
  {
    var c := CodeLengths();
    assert Count(c, l, 0) == 0;
    hide Count;
    CountAt(c, l, 1);
    CountRun(c, l, 1, 8, 0);
    CountAt(c, l, 9);
    CountRun(c, l, 9, 16, 0);
    CountAt(c, l, 17);
    CountRun(c, l, 17, 19, 0);
  }

  lemma CodeLengthCodewords()
    ensures Codeword(CodeLengths(), 8) == [false] && Codeword(CodeLengths(), 0) == [true, false]
    ensures Codeword(CodeLengths(), 16) == [true, true]
  {
    CodeCounts(1);
    CodeCounts(2);
    var c := CodeLengths();
    assert FirstCode(c, 1) == 0 && FirstCode(c, 2) == 2;
    hide Count, FirstCode;
    assert Code(c, 8) == 0 && Code(c, 0) == 2 && Code(c, 16) == 3;
    assert Bits(0, 1) == [false] && Bits(2, 2) == [false, true] && Bits(3, 2) == [true, true];
  }

  lemma CodeRealizable()
    ensures Realizable(CodeLengths())
  {
    hide Kraft, Pow2, CodeLengths;
    var c := CodeLengths();
    CodeLengthsAre();
    KraftNothing(c);
    KraftNext(c, 0);
    KraftNone(c, 1, 8);
    KraftNext(c, 8);
    KraftNone(c, 9, 16);
    KraftNext(c, 16);
    KraftNone(c, 17, 19);
    Pow2Small();
    Pow2Fourteen();
  }

  lemma CodeLengthsAre()
    ensures var c := CodeLengths();
      |c| == 19 && c[0] == 2 && c[8] == 1 && c[16] == 2 && forall i :: 0 <= i < 19 && i !in {0, 8, 16} ==> c[i] == 0
  {
  }

  lemma KraftNothing(lens: seq<nat>)
    requires WithinWord(lens)
    ensures Kraft(lens, 0) == 0
  {
  }

  lemma {:induction false} KraftNone(lens: seq<nat>, a: nat, b: nat)
    requires WithinWord(lens) && a <= b <= |lens| && forall i :: a <= i < b ==> lens[i] == 0
    ensures Kraft(lens, b) == Kraft(lens, a)
    decreases b - a
  {
    if a < b { KraftNone(lens, a, b - 1); }
  }

  // ----- the literals

  lemma LiteralsAre()
    ensures Realizable(Literals()) && Realizable([0])
    ensures Codeword(Literals(), 97) == [false, true, true, false, false, false, false, true]
    ensures Codeword(Literals(), 256) == Repeat(true, 8)
  {
    hide Code, Bits, Rev, Realizable;
    LiteralCodes();
    LiteralKraft();
    ByteIs([true, false, false, false], [false, true, true, false]);
    ByteIs([true, true, true, true], [true, true, true, true]);
    Reversed();
  }

  lemma Reversed()
    ensures Rev([true, false, false, false] + [false, true, true, false]) == [false, true, true, false, false, false, false, true]
    ensures Rev([true, true, true, true] + [true, true, true, true]) == Repeat(true, 8)
  {
  }

  lemma LiteralCodes()
    ensures |Literals()| == 257 && Literals()[97] == 8 && Literals()[256] == 8
    ensures Code(Literals(), 97) == 97 && Code(Literals(), 256) == 255
  {
    hide Count, FirstCode;
    LiteralCounts();
  }

  lemma LiteralCounts()
    ensures FirstCode(Literals(), 8) == 0 && Count(Literals(), 8, 97) == 97 && Count(Literals(), 8, 256) == 255
  {
    var c := Literals();
    assert forall l :: Count(c, l, 0) == 0;
    hide Count;
    CountRun(c, 8, 0, 97, 8);
    CountRun(c, 8, 0, 255, 8);
    CountAt(c, 8, 256);
    forall k | 1 <= k < 8
      ensures Total(c, k) == 0
    {
      CountRun(c, k, 0, 255, 8);
      CountAt(c, k, 256);
      CountAt(c, k, 257);
    }
    FirstCodeZero(c, 8);
  }

  lemma LiteralKraft()
    ensures Realizable(Literals()) && Realizable([0])
  {
    hide Kraft, Pow2;
    var c := Literals();
    KraftNothing(c);
    KraftNothing([0]);
    KraftRun(c, 0, 255, 8);
    KraftNone(c, 255, 256);
    KraftNext(c, 256);
    KraftNone([0], 0, 1);
    Pow2Small();
  }

  // ----- the items

  lemma {:induction false} AgainAdded(n: nat, lens: seq<nat>, rest: seq<Item>)
    requires lens != [] && lens[|lens| - 1] == 8
    ensures AllAdded(lens, Repeat(Again(6), n) + rest) == AllAdded(lens + Repeat(8, 6 * n), rest)
    decreases n
  {
    var items := Repeat(Again(6), n) + rest;
    if n == 0 {
      assert items == rest && lens + Repeat(8, 0) == lens;
    } else {
      assert items[0] == Again(6) && items[1..] == Repeat(Again(6), n - 1) + rest;
      AgainAdded(n - 1, lens + Repeat(8, 6), rest);
      assert lens + Repeat(8, 6) + Repeat(8, 6 * (n - 1)) == lens + Repeat(8, 6 * n);
    }
  }

  lemma ItemsAdded()
    ensures AllAdded([], Items()) == Literals() + [0]
  {
    hide *;
    ItemsAre();
    FirstAdded(Items(), [], One(8), Repeat(Again(6), 42) + Tail());
    LastEight();
    AgainAdded(42, [8], Tail());
    TailAdded([8] + Repeat(8, 252));
    Grouped([8] + Repeat(8, 252));
  }

  lemma LastEight()
    ensures [8][|[8]| - 1] == 8 && Repeat(8, 6 * 42) == Repeat(8, 252)
  {
  }

  lemma ItemsAre()
    ensures Items() != [] && Items()[0] == One(8) && Items()[1..] == Repeat(Again(6), 42) + Tail()
  {
  }

  lemma FirstAdded(items: seq<Item>, lens: seq<nat>, it: Item, rest: seq<Item>)
    requires items != [] && items[0] == it && items[1..] == rest
    ensures AllAdded(lens, items) == AllAdded(Added(lens, it), rest)
    ensures it == One(8) && lens == [] ==> Added(lens, it) == [8]
  {
  }

  lemma TailAdded(lens: seq<nat>)
    ensures AllAdded(lens, Tail()) == lens + [8, 8, 0, 8, 0]
  {
    var a, b, c, d := Tail()[1..], Tail()[2..], Tail()[3..], Tail()[4..];
    assert a[0] == One(8) && a[1..] == b && b[0] == One(0) && b[1..] == c && c[0] == One(8) && c[1..] == d;
    assert d[0] == One(0) && d[1..] == [];
    assert AllAdded(lens + [8, 8, 0, 8], d) == lens + [8, 8, 0, 8] + [0];
    assert AllAdded(lens + [8, 8, 0], c) == AllAdded(lens + [8, 8, 0] + [8], d);
    assert lens + [8, 8, 0] + [8] == lens + [8, 8, 0, 8];
    assert AllAdded(lens + [8, 8], b) == AllAdded(lens + [8, 8] + [0], c);
    assert lens + [8, 8] + [0] == lens + [8, 8, 0];
    assert AllAdded(lens + [8], a) == AllAdded(lens + [8] + [8], b);
    assert lens + [8] + [8] == lens + [8, 8];
    assert lens + [8, 8, 0, 8] + [0] == lens + [8, 8, 0, 8, 0];
  }

  lemma Grouped(lens: seq<nat>)
    requires lens == [8] + Repeat(8, 252)
    ensures lens + [8, 8, 0, 8, 0] == Literals() + [0]
  {
  }

  lemma ItemsWritten()
    ensures Written(CodeLengths(), Items()) && Written(CodeLengths(), Tail()) && AreItems(Items(), true)
  {
    forall i | 0 <= i < |Items()|
      ensures IsItem(Items()[i]) && SymbolOf(Items()[i]) in {0, 8, 16}
    {
    }
  }

  // Each repeat is written as four ones.
  lemma {:induction false} AgainBits(cl: seq<nat>, n: nat, rest: seq<Item>)
    requires Written(cl, rest) && Written(cl, Repeat(Again(6), n) + rest) && |cl| == 19
    requires ItemBits(cl, Again(6)) == Repeat(true, 4)
    ensures ItemsBits(cl, Repeat(Again(6), n) + rest) == Repeat(true, 4 * n) + ItemsBits(cl, rest)
  {
    hide ItemBits;
    var items := Repeat(Again(6), n) + rest;
    if n == 0 {
      assert items == rest;
    } else {
      assert items[0] == Again(6) && items[1..] == Repeat(Again(6), n - 1) + rest;
      AgainBits(cl, n - 1, rest);
      assert Repeat(true, 4 * n) == Repeat(true, 4) + Repeat(true, 4 * (n - 1));
    }
  }

  lemma SingleBits()
    ensures ItemBits(CodeLengths(), Again(6)) == Repeat(true, 4)
    ensures ItemBits(CodeLengths(), One(8)) == [false] && ItemBits(CodeLengths(), One(0)) == [true, false]
  {
    hide Codeword, CodeLengths, Bits;
    CodeLengthsAre();
    CodeLengthCodewords();
    SmallBits();
  }

  lemma SmallBits()
    ensures Bits(3, 2) == [true, true] && Bits(0, 1) == [false] && Bits(2, 2) == [false, true]
    ensures Bits(0, 3) == [false, false, false] && Bits(2, 3) == [false, true, false] && Bits(1, 3) == [true, false, false]
    ensures Bits(1, 4) == [true, false, false, false] && Bits(0, 5) == Repeat(false, 5)
  {
    assert Bits(0, 0) == [];
  }

  lemma TailBits(cl: seq<nat>)
    requires |cl| == 19 && Written(cl, Tail()) && ItemBits(cl, One(8)) == [false] && ItemBits(cl, One(0)) == [true, false]
    ensures ItemsBits(cl, Tail()) == [false, false, true, false, false, true, false]
  {
    hide ItemBits;
    var a, b, e, d := Tail()[1..], Tail()[2..], Tail()[3..], Tail()[4..];
    assert a[0] == One(8) && a[1..] == b && b[0] == One(0) && b[1..] == e && e[0] == One(8) && e[1..] == d;
    assert d[0] == One(0) && d[1..] == [];
    assert ItemsBits(cl, d) == [true, false] + [];
    assert ItemsBits(cl, e) == [false] + [true, false];
    assert ItemsBits(cl, b) == [true, false] + [false, true, false];
    assert ItemsBits(cl, a) == [false] + [true, false, false, true, false];
  }

  lemma ItemsBitsAre()
    requires Written(CodeLengths(), Items())
    ensures ItemsBits(CodeLengths(), Items()) == Middle()
  {
    hide ItemBits, CodeLengths, Tail, Items, Written;
    ItemsWritten();
    CodeLengthsAre();
    SingleBits();
    ItemsAre();
    RestWritten(CodeLengths(), Items());
    AgainBits(CodeLengths(), 42, Tail());
    TailBits(CodeLengths());
  }

  lemma RestWritten(cl: seq<nat>, items: seq<Item>)
    requires items != [] && Written(cl, items)
    ensures Written(cl, items[1..])
  {
  }

  ghost function Middle(): seq<bool> { [false] + Repeat(true, 168) + [false, false, true, false, false, true, false] }

  ghost function Last(): seq<bool> { [false, true, true, false, false, false, false, true] + Repeat(true, 8) }

  // ----- the bytes

  ghost function Front(): seq<bool> {
    [true, false, true] + Repeat(false, 10) + [true, false, false, false] +
    [false, true, false, false, false, false, false, false, false, false, true, false, true, false, false]
  }

  lemma FrontBytes()
    ensures BytesBits([0x05, 0x20, 0x04, 0x28]) == Front()
  {
    hide Bits, BytesBits;
    ByteIs([true, false, true, false], [false, false, false, false]);
    ByteIs([false, false, false, false], [false, true, false, false]);
    ByteIs([false, false, true, false], [false, false, false, false]);
    ByteIs([false, false, false, true], [false, true, false, false]);
    BytePair(0x05, 0x20);
    BytePair(0x04, 0x28);
    BytesBitsConcat([0x05, 0x20], [0x04, 0x28]);
    assert [0x05 as byte, 0x20] + [0x04, 0x28] == [0x05, 0x20, 0x04, 0x28];
  }

  lemma BytePair(a: byte, b: byte)
    ensures BytesBits([a, b]) == Bits(a, 8) + Bits(b, 8)
  {
    OneByte(a);
    OneByte(b);
    BytesBitsConcat([a], [b]);
    assert [a] + [b] == [a, b];
  }

  lemma {:induction false} OnesBytes(n: nat)
    ensures BytesBits(Repeat<byte>(0xff, n)) == Repeat(true, 8 * n)
  {
    hide Bits;
    ByteIs([true, true, true, true], [true, true, true, true]);
    var d: seq<byte> := Repeat<byte>(0xff, n);
    if n == 0 {
      assert d == [];
    } else {
      OnesBytes(n - 1);
      assert d[1..] == Repeat<byte>(0xff, n - 1) && Bits(d[0], 8) == Repeat(true, 8);
      assert BytesBits(d) == Bits(d[0], 8) + BytesBits(d[1..]);
      assert Repeat(true, 8 * n) == Repeat(true, 8) + Repeat(true, 8 * (n - 1));
    }
  }

  lemma MiddleBytes()
    ensures BytesBits([0xfe] + Repeat<byte>(0xff, 20) + [0x49]) == Middle()
  {
    hide Bits, BytesBits;
    ByteIs([false, true, true, true], [true, true, true, true]);
    ByteIs([true, false, false, true], [false, false, true, false]);
    OneByte(0xfe);
    OneByte(0x49);
    OnesBytes(20);
    BytesBitsConcat([0xfe], Repeat<byte>(0xff, 20));
    BytesBitsConcat([0xfe] + Repeat<byte>(0xff, 20), [0x49]);
  }

  lemma LastBytes()
    ensures BytesBits([0x86, 0xff]) == Last()
  {
    hide Bits, BytesBits;
    ByteIs([false, true, true, false], [false, false, false, true]);
    ByteIs([true, true, true, true], [true, true, true, true]);
    BytePair(0x86, 0xff);
  }

  lemma SampleBits()
    ensures BytesBits(Sample()) == Front() + Middle() + Last() + BytesBits([0, 0])
  {
    hide BytesBits, Front, Middle, Last;
    FrontBytes();
    MiddleBytes();
    LastBytes();
    var a, b, c, e := [0x05 as byte, 0x20, 0x04, 0x28], [0xfe as byte] + Repeat<byte>(0xff, 20) + [0x49], [0x86 as byte, 0xff], [0 as byte, 0];
    BytesBitsConcat(a, b);
    BytesBitsConcat(a + b, c);
    BytesBitsConcat(a + b + c, e);
  }

  // ----- together

  lemma FrontIs()
    ensures [true, false, true] + (Bits(0, 5) + Bits(0, 5) + Bits(1, 4) + OrderedBits(CodeLengths(), 5)) == Front()
  {
    hide Bits, OrderedBits, CodeLengths;
    SmallBits();
    OrderedAre();
  }

  lemma OrderedAre()
    ensures OrderedBits(CodeLengths(), 5)
         == [false, true, false] + [false, false, false] + [false, false, false] + [false, true, false] + [true, false, false]
  {
    hide Bits, CodeLengths;
    SmallBits();
    CodeLengthsAre();
    var c := CodeLengths();
    assert OrderedBits(c, 0) == [];
    assert OrderedBits(c, 1) == Bits(c[16], 3);
    assert OrderedBits(c, 2) == OrderedBits(c, 1) + Bits(c[17], 3);
    assert OrderedBits(c, 3) == OrderedBits(c, 2) + Bits(c[18], 3);
    assert OrderedBits(c, 4) == OrderedBits(c, 3) + Bits(c[0], 3);
    assert OrderedBits(c, 5) == OrderedBits(c, 4) + Bits(c[8], 3);
  }

  lemma HeaderValid()
    ensures SampleHeader().Valid()
    ensures SampleHeader().Bitstring() == Bits(0, 5) + Bits(0, 5) + Bits(1, 4) + OrderedBits(CodeLengths(), 5) + Middle()
  {
    hide *;
    CodeRealizable();
    ItemsWritten();
    ItemsAdded();
    ItemsBitsAre();
    LiteralCodes();
    CodeLengthsAre();
    Shown();
    SampleIs();
    HeaderIs(Literals(), [0], CodeLengths(), 5, Items(), SampleHeader());
  }

  lemma HeaderIs(ll: seq<nat>, dl: seq<nat>, cl: seq<nat>, n: nat, items: seq<Item>, h: Header)
    requires h == Header(ll, dl, cl, n, items) && |ll| == 257 && |dl| == 1 && |cl| == 19 && n == 5 && Realizable(cl)
    requires (forall c :: 0 <= c < 19 ==> cl[c] <= 7) && (forall k :: 5 <= k < 19 ==> Ordered(k) < 19 && cl[Ordered(k)] == 0)
    requires AreItems(items, true) && Written(cl, items) && AllAdded([], items) == ll + dl
    ensures h.Valid() && h.Bitstring() == Bits(0, 5) + Bits(0, 5) + Bits(1, 4) + OrderedBits(cl, 5) + ItemsBits(cl, items)
  {
    hide Realizable, Ordered, OrderedBits, ItemsBits, Bits, AllAdded, AreItems, Written;
  }

  lemma SampleIs()
    ensures SampleHeader() == Header(Literals(), [0], CodeLengths(), 5, Items())
  {
  }

  lemma Shown()
    ensures forall k :: 5 <= k < 19 ==> Ordered(k) < 19 && Ordered(k) !in {0, 8, 16}
  {
  }

  // `s` is one block, which stands for `out`, and two bytes.
  ghost predicate Fills(h: Header, ts: seq<Token>, s: seq<bool>, out: seq<byte>) {
    Holds(h, ts, s, 0) && AllOutput(ts, h.ll, h.dl, []) == out && |BlockBits(h, ts)| + 16 == |s|
  }

  lemma SampleHolds()
    ensures Fills(SampleHeader(), [Literal(97)], BytesBits(Sample()), [97])
  {
    hide *;
    var s, e := BytesBits(Sample()), BytesBits([0, 0]);
    SampleBlock();
    SampleBits();
    Starts(Front() + Middle() + Last(), e, s);
    SampleLength();
    FillsAll(SampleHeader(), [Literal(97)], Front() + Middle() + Last(), s, [97]);
  }

  lemma FillsIs(h: Header, ts: seq<Token>, s: seq<bool>, out: seq<byte>)
    requires Fills(h, ts, s, out)
    ensures Holds(h, ts, s, 0) && AllOutput(ts, h.ll, h.dl, []) == out && |BlockBits(h, ts)| + 16 == |s|
  {
    hide AllOutput, BlockBits;
  }

  lemma FillsAll(h: Header, ts: seq<Token>, bits: seq<bool>, s: seq<bool>, out: seq<byte>)
    requires IsBlock(h, ts, bits, out) && HasBits(s, 0, bits) && |bits| + 16 == |s|
    ensures Fills(h, ts, s, out)
  {
    hide Realizable, Header.Valid, AreTokens, AllOutput, HasBits, BlockBits;
  }

  lemma Starts(a: seq<bool>, b: seq<bool>, s: seq<bool>)
    requires s == a + b
    ensures HasBits(s, 0, a)
  {
  }

  lemma SampleLength()
    ensures |Front() + Middle() + Last()| + 16 == 8 * |Sample()| == |BytesBits(Sample())|
  {
  }

  ghost predicate IsBlock(h: Header, ts: seq<Token>, bits: seq<bool>, out: seq<byte>) {
    h.Valid() && Realizable(h.ll) && Realizable(h.dl) && h.ll[256] > 0 && AreTokens(ts, h.ll, h.dl, []) &&
    BlockBits(h, ts) == bits && AllOutput(ts, h.ll, h.dl, []) == out
  }

  lemma SampleBlock()
    ensures IsBlock(SampleHeader(), [Literal(97)], Front() + Middle() + Last(), [97])
  {
    hide Realizable, Codeword, Header.Valid, Header.Bitstring, AreTokens, TokensBits, AllOutput, Literals, CodeLengths, Middle, Front, Bits, OrderedBits, Items, SampleHeader;
    SampleIs();
    SampleTokens();
    LiteralsAre();
    LiteralCodes();
    HeaderValid();
    FrontIs();
  }

  lemma SampleTokens()
    ensures var ts, ll := [Literal(97)], Literals();
      |ll| >= 257 && AreTokens(ts, ll, [0], []) && TokensBits(ts, ll, [0], []) == Codeword(ll, 97) && AllOutput(ts, ll, [0], []) == [97]
  {
    hide Codeword, Literals;
    LiteralCodes();
    var ts := [Literal(97)];
    assert ts[1..] == [];
  }
}
