// A scan of quantised blocks, written and read again: Huffman coding, zigzag order, runs, sign extension, byte stuffing and
// the marker at the end.

module JpegRoundTrip {
  import opened BitStream
  import Huffman
  import opened InputContext
  import opened JpegHuffman
  import opened JpegBits
  import opened JpegBlock
  import opened JpegWriter
  import opened Wrappers

  // ----- zigzag order

  // Where each coefficient of the block stands in the zigzag stream: `stbiw__jpg_ZigZag`.
  const ZIGZAG: seq<seq<index>> := [
    [0, 1, 5, 6, 14, 15, 27, 28],
    [2, 4, 7, 13, 16, 26, 29, 42],
    [3, 8, 12, 17, 25, 30, 41, 43],
    [9, 11, 18, 24, 31, 40, 44, 53],
    [10, 19, 23, 32, 39, 45, 52, 54],
    [20, 22, 33, 38, 46, 51, 55, 60],
    [21, 34, 37, 47, 50, 56, 59, 61],
    [35, 36, 48, 49, 57, 58, 62, 63]]

  function Zigzag(j: nat): index
    requires j < 64
  {
    ZIGZAG[j / 8][j % 8]
  }

  // The writer's order and the reader's undo each other.
  lemma ZigzagInverse(k: nat)
    requires k < 64
    ensures Zigzag(Dezigzag(k)) == k && Dezigzag(Zigzag(k)) == k
  {
    if k < 8 { Inverse0(k); } else if k < 16 { Inverse1(k); } else if k < 24 { Inverse2(k); } else if k < 32 { Inverse3(k); }
    else if k < 40 { Inverse4(k); } else if k < 48 { Inverse5(k); } else if k < 56 { Inverse6(k); } else { Inverse7(k); }
  }

  lemma Inverse0(k: nat)
    requires 0 <= k < 8
    ensures Zigzag(Dezigzag(k)) == k && Dezigzag(Zigzag(k)) == k
  {
    assert k in {0, 1, 2, 3, 4, 5, 6, 7};
  }

  lemma Inverse1(k: nat)
    requires 8 <= k < 16
    ensures Zigzag(Dezigzag(k)) == k && Dezigzag(Zigzag(k)) == k
  {
    assert k in {8, 9, 10, 11, 12, 13, 14, 15};
  }

  lemma Inverse2(k: nat)
    requires 16 <= k < 24
    ensures Zigzag(Dezigzag(k)) == k && Dezigzag(Zigzag(k)) == k
  {
    assert k in {16, 17, 18, 19, 20, 21, 22, 23};
  }

  lemma Inverse3(k: nat)
    requires 24 <= k < 32
    ensures Zigzag(Dezigzag(k)) == k && Dezigzag(Zigzag(k)) == k
  {
    assert k in {24, 25, 26, 27, 28, 29, 30, 31};
  }

  lemma Inverse4(k: nat)
    requires 32 <= k < 40
    ensures Zigzag(Dezigzag(k)) == k && Dezigzag(Zigzag(k)) == k
  {
    assert k in {32, 33, 34, 35, 36, 37, 38, 39};
  }

  lemma Inverse5(k: nat)
    requires 40 <= k < 48
    ensures Zigzag(Dezigzag(k)) == k && Dezigzag(Zigzag(k)) == k
  {
    assert k in {40, 41, 42, 43, 44, 45, 46, 47};
  }

  lemma Inverse6(k: nat)
    requires 48 <= k < 56
    ensures Zigzag(Dezigzag(k)) == k && Dezigzag(Zigzag(k)) == k
  {
    assert k in {48, 49, 50, 51, 52, 53, 54, 55};
  }

  lemma Inverse7(k: nat)
    requires 56 <= k < 64
    ensures Zigzag(Dezigzag(k)) == k && Dezigzag(Zigzag(k)) == k
  {
    assert k in {56, 57, 58, 59, 60, 61, 62, 63};
  }

  // The first `n` coefficients of the zigzag stream in their places, and zeros.
  ghost function Placed(du: Coefs, n: nat): (b: seq<int>)
    requires n <= 64
    ensures |b| == 64
  {
    if n == 0 then Zeros() else Placed(du, n - 1)[Dezigzag(n - 1) := du[n - 1]]
  }

  lemma PlacedNext(du: Coefs, n: nat)
    requires n < 64
    ensures Placed(du, n + 1) == Placed(du, n)[Dezigzag(n) := du[n]]
  {
    hide Dezigzag;
  }

  lemma {:induction false} PlacedAt(du: Coefs, n: nat, k: nat)
    requires n <= 64 && k < 64
    ensures Placed(du, n)[Dezigzag(k)] == if k < n then du[k] else 0
  {
    hide Dezigzag, Zigzag;
    if n > 0 {
      PlacedAt(du, n - 1, k);
      ZigzagInverse(k);
      ZigzagInverse(n - 1);
    }
  }

  lemma {:induction false} PlacedZeros(du: Coefs, i: nat, j: nat)
    requires i <= j <= 64 && forall k :: i <= k < j ==> du[k] == 0
    ensures Placed(du, j) == Placed(du, i)
    decreases j
  {
    hide Dezigzag;
    if i < j {
      PlacedZeros(du, i, j - 1);
      PlacedAt(du, i, j - 1);
    }
  }

  // In natural order, each coefficient is the one the writer took from there.
  lemma PlacedNatural(du: Coefs, j: nat)
    requires j < 64
    ensures Placed(du, 64)[j] == du[Zigzag(j)]
  {
    ZigzagInverse(j);
    PlacedAt(du, 64, Zigzag(j));
  }

  // ----- reading what was written

  // Tables a decoder can be built from, none of whose symbols is lost to the flag.
  ghost predicate Good(c: Code) { IsCode(c) && Huffman.Realizable(c.lens) && Usable(c.lens) }

  lemma IsGood(c: Code)
    requires Good(c)
    ensures IsCode(c)
  {
  }

  // The writer's table has the codeword of the symbol that stands for `rs`.
  ghost predicate Has(c: Code, ht: Table, rs: byte)
    requires IsCode(c)
  {
    exists n: nat :: n < |c.lens| && HasAt(c, ht, rs, n)
  }

  ghost predicate HasAt(c: Code, ht: Table, rs: byte, n: nat)
    requires IsCode(c) && n < |c.lens|
  {
    c.lens[n] > 0 && c.values[n] == rs && ht[rs] == (Huffman.Code(c.lens, n), c.lens[n])
  }

  lemma MsbValue(s: seq<bool>, p: nat, v: nat, n: nat)
    requires HasBits(s, p, MsbBits(v, n)) && v < Pow2(n)
    ensures Huffman.Value(s, p, n) == v
  {
    WindowInside(s, p, n);
    MsbOf(v, n);
  }

  lemma EntryDecodes(c: Code, ht: Table, rs: byte, s: seq<bool>, p: nat) returns (n: nat)
    requires Good(c) && Has(c, ht, rs) && HasBits(s, p, Entry(ht, rs))
    ensures n < |c.lens| && Read(c.lens, s, p) == Some(Got(n, c.lens[n])) && c.values[n] == rs && c.lens[n] == |Entry(ht, rs)|
  {
    n :| n < |c.lens| && HasAt(c, ht, rs, n);
    WindowInside(s, p, c.lens[n]);
    assert Huffman.Matches(c.lens, s, p, n);
    Huffman.SymbolIs(c.lens, s, p, n);
    ReadExact(c.lens, s, p);
  }

  lemma CoefDecodes(v: int, s: seq<bool>, p: nat)
    requires v != 0 && -0x8000 < v < 0x8000 && HasBits(s, p, CoefBits(v))
    ensures Extend(Huffman.Value(s, p, CoefSize(v)), CoefSize(v)) == v
  {
    ExtendLow(v);
    MsbValue(s, p, Low(v, CoefSize(v)), CoefSize(v));
  }

  lemma Undone(v: int, z: index)
    requires -0x8000 < v < 0x8000
    ensures ToShort(v * Ones()[z]) == v
  {
  }

  // Sixteen zeros at a time.
  lemma {:induction false} ZerosDecode(c: Code, ht: Table, s: seq<bool>, p: nat, k: nat, m: nat, acc: seq<int>, dc: int)
    requires Good(c) && Has(c, ht, 0xF0) && |acc| == 64 && 1 <= k && k + 16 * m < 64
    requires HasBits(s, p, Repeated(Entry(ht, 0xF0), m))
    ensures AcFrom(c, Ones(), s, p, k, acc, dc)
         == AcFrom(c, Ones(), s, p + |Repeated(Entry(ht, 0xF0), m)|, k + 16 * m, acc, dc)
    decreases m
  {
    hide Entry, Ac, Has, Ones, Read;
    if m > 0 {
      var w := Repeated(Entry(ht, 0xF0), m - 1);
      HasBitsParts(s, p, w, Entry(ht, 0xF0));
      ZerosDecode(c, ht, s, p, k, m - 1, acc, dc);
      var p1, k1 := p + |w|, k + 16 * (m - 1);
      var n := EntryDecodes(c, ht, 0xF0, s, p1);
      FromIs(c, Ones(), s, p1, k1, acc, dc);
      AcByRead(c, Ones(), s, p1, k1, acc, dc);
    }
  }

  // Every symbol these coefficients need has a codeword.
  ghost predicate Covers(c: Code, ht: Table, size: nat)
    requires IsCode(c)
  {
    Has(c, ht, 0) && Has(c, ht, 0xF0) && forall rs: byte :: 0 < rs as int % 16 <= size ==> Has(c, ht, rs)
  }

  ghost predicate AcFit(du: Coefs, size: nat) { forall k :: 1 <= k < 64 ==> CoefSize(du[k]) <= size }

  // A symbol and the coefficient it announces.
  lemma CoefStep(c: Code, ht: Table, s: seq<bool>, p: nat, k: nat, run: nat, v: int, acc: seq<int>, dc: int)
    requires Good(c) && |acc| == 64 && 1 <= k && run < 16 && k + run < 64
    requires v != 0 && -0x8000 < v < 0x8000 && Has(c, ht, run * 16 + CoefSize(v))
    requires HasBits(s, p, Entry(ht, run * 16 + CoefSize(v)) + CoefBits(v))
    ensures AcFrom(c, Ones(), s, p, k, acc, dc)
         == AcFrom(c, Ones(), s, p + |Entry(ht, run * 16 + CoefSize(v)) + CoefBits(v)|, k + run + 1, acc[Dezigzag(k + run) := v], dc)
  {
    hide *;
    var n := CoefSize(v);
    IsGood(c);
    var e := Entry(ht, run * 16 + n);
    HasBitsParts(s, p, e, CoefBits(v));
    var i := EntryDecodes(c, ht, run * 16 + n, s, p);
    SymbolStep(c, s, p, k, i, |e|, run, n, acc, dc);
    CoefDecodes(v, s, p + |e|);
    CoefLength(v);
    PutIs(c, Ones(), s, p + |e| + n, k + run, acc, dc, v);
    Undone(v, Dezigzag(k + run));
  }

  lemma SymbolStep(c: Code, s: seq<bool>, p: nat, k: nat, i: nat, bits: nat, run: nat, n: nat, acc: seq<int>,
      dc: int)
    requires IsCode(c) && |acc| == 64 && 1 <= k && run < 16 && k + run < 64 && 0 < n < 16
    requires Read(c.lens, s, p) == Some(Got(i, bits)) && c.values[i] == run * 16 + n
    ensures AcFrom(c, Ones(), s, p, k, acc, dc)
         == AcPut(c, Ones(), s, p + bits + n, k + run, acc, dc, Extend(Huffman.Value(s, p + bits, n), n))
  {
    hide Ac, AcFrom, AcPut, Ones, Read, Extend, Huffman.Value;
    FromIs(c, Ones(), s, p, k, acc, dc);
    AcByRead(c, Ones(), s, p, k, acc, dc);
  }

  lemma CoefLength(v: int)
    requires -0x8000 < v < 0x8000
    ensures |CoefBits(v)| == CoefSize(v)
  {
  }

  // A run of zeros and the coefficient after it.
  lemma RunDecodes(c: Code, ht: Table, size: nat, s: seq<bool>, p: nat, k: nat, zeros: nat, v: int,
      acc: seq<int>, dc: int)
    requires Good(c) && Covers(c, ht, size) && |acc| == 64 && 1 <= k && k + zeros < 64
    requires v != 0 && -0x8000 < v < 0x8000 && CoefSize(v) <= size && HasBits(s, p, RunBits(ht, zeros, v))
    ensures AcFrom(c, Ones(), s, p, k, acc, dc)
         == AcFrom(c, Ones(), s, p + |RunBits(ht, zeros, v)|, k + zeros + 1, acc[Dezigzag(k + zeros) := v], dc)
  {
    hide Entry, CoefBits, AcFrom, Has, Ones, Huffman.Realizable, Repeated, CoefSize, Dezigzag, HasBits;
    var m, run := zeros / 16, zeros % 16;
    var z, x := Repeated(Entry(ht, 0xF0), m), Entry(ht, run * 16 + CoefSize(v)) + CoefBits(v);
    HasBitsParts(s, p, z, x);
    ZerosDecode(c, ht, s, p, k, m, acc, dc);
    assert (run * 16 + CoefSize(v)) % 16 == CoefSize(v);
    assert Has(c, ht, run * 16 + CoefSize(v));
    CoefStep(c, ht, s, p + |z|, k + 16 * m, run, v, acc, dc);
  }

  // The AC coefficients from position `i` on.
  lemma {:induction false} AcDecodes(c: Code, ht: Table, size: nat, du: Coefs, s: seq<bool>, p: nat, i: nat, dc: int)
    requires Good(c) && Covers(c, ht, size) && AcFit(du, size) && 1 <= i <= 64
    requires HasBits(s, p, AcBits(ht, du, i))
    ensures AcFrom(c, Ones(), s, p, i, Placed(du, i), dc) == Block(Placed(du, 64), p + |AcBits(ht, du, i)|, dc)
    decreases 64 - i
  {
    hide Entry, CoefBits, Has, Ones, Read, Huffman.Realizable, RunBits, CoefSize, Dezigzag, Ac, AcFrom, HasBits, Placed;
    if i == 64 {
      FromIs(c, Ones(), s, p, 64, Placed(du, 64), dc);
    } else {
      var j := NextNonzero(du, i);
      PlacedZeros(du, i, j);
      if j == 64 {
        BlockEnds(c, ht, s, p, i, Placed(du, i), dc);
      } else {
        var r := RunBits(ht, j - i, du[j]);
        HasBitsParts(s, p, r, AcBits(ht, du, j + 1));
        RunDecodes(c, ht, size, s, p, i, j - i, du[j], Placed(du, i), dc);
        PlacedNext(du, j);
        AcDecodes(c, ht, size, du, s, p + |r|, j + 1, dc);
      }
    }
  }

  lemma BlockEnds(c: Code, ht: Table, s: seq<bool>, p: nat, k: nat, acc: seq<int>, dc: int)
    requires Good(c) && Has(c, ht, 0) && |acc| == 64 && 1 <= k < 64
    requires HasBits(s, p, Entry(ht, 0))
    ensures AcFrom(c, Ones(), s, p, k, acc, dc) == Block(acc, p + |Entry(ht, 0)|, dc)
  {
    hide Entry, Ac, AcFrom, AcPut, Has, Ones, Read, Huffman.Realizable;
    var n := EntryDecodes(c, ht, 0, s, p);
    FromIs(c, Ones(), s, p, k, acc, dc);
    AcByRead(c, Ones(), s, p, k, acc, dc);
  }

  // ----- a whole block

  ghost function BlockBits(htdc: Table, htac: Table, du: Coefs, pred: int): seq<bool>
    requires -0x8000 < du[0] - pred < 0x8000
  {
    DcBits(htdc, du[0] - pred) + AcBits(htac, du, 1)
  }

  ghost predicate DcCovers(d: Code, ht: Table, size: nat)
    requires IsCode(d)
  {
    forall n: byte :: n <= size && n < 16 ==> Has(d, ht, n)
  }

  // The tables can carry the block.
  ghost predicate Fits(d: Code, htdc: Table, c: Code, htac: Table, dcSize: nat, acSize: nat)
  {
    Good(d) && Good(c) &&
    DcCovers(d, htdc, dcSize) && Covers(c, htac, acSize)
  }

  lemma DiffDecodes(d: Code, c: Code, ht: Table, size: nat, diff: int, s: seq<bool>, p: nat, pred: int)
    requires Good(d) && IsCode(c) && DcCovers(d, ht, size)
    requires -0x8000 < diff < 0x8000 && CoefSize(diff) <= size && HasBits(s, p, DcBits(ht, diff))
    ensures BlockAt(d, c, Ones(), s, p, pred) == WithDiff(c, Ones(), s, p + |DcBits(ht, diff)|, pred, diff)
  {
    hide Entry, CoefBits, Has, Ones, Read, Huffman.Realizable, BlockAt, WithDiff, Extend, Huffman.Value;
    var n := CoefSize(diff);
    assert diff == 0 ==> n == 0;
    hide CoefSize;
    BlockByRead(d, c, Ones(), s, p, pred);
    if diff == 0 {
      var i := EntryDecodes(d, ht, 0, s, p);
    } else {
      HasBitsParts(s, p, Entry(ht, n), CoefBits(diff));
      var i := EntryDecodes(d, ht, n, s, p);
      CoefDecodes(diff, s, p + |Entry(ht, n)|);
      CoefLength(diff);
    }
  }

  // What is read from the bits of a block is the block.
  lemma BlockDecodes(d: Code, htdc: Table, c: Code, htac: Table, dcSize: nat, acSize: nat, du: Coefs,
      s: seq<bool>, p: nat, pred: int)
    requires Fits(d, htdc, c, htac, dcSize, acSize) && AcFit(du, acSize)
    requires -0x8000 < pred < 0x8000 && -0x8000 < du[0] - pred < 0x8000 && CoefSize(du[0] - pred) <= dcSize
    requires HasBits(s, p, BlockBits(htdc, htac, du, pred))
    ensures BlockAt(d, c, Ones(), s, p, pred)
         == Block(Placed(du, 64), p + |BlockBits(htdc, htac, du, pred)|, du[0])
  {
    hide Has, Huffman.Realizable, BlockAt, CoefSize, Ac, AcFrom, AcBits, DcBits, WithDiff, HasBits;
    var diff := du[0] - pred;
    HasBitsParts(s, p, DcBits(htdc, diff), AcBits(htac, du, 1));
    DiffDecodes(d, c, htdc, dcSize, diff, s, p, pred);
    var p1 := p + |DcBits(htdc, diff)|;
    DiffIs(c, Ones(), s, p1, pred, diff);
    ShortOne(du[0]);
    FirstPlaced(du);
    FromIs(c, Ones(), s, p1, 1, Placed(du, 1), du[0]);
    AcDecodes(c, htac, acSize, du, s, p1, 1, du[0]);
  }

  lemma FirstPlaced(du: Coefs)
    ensures Placed(du, 1) == Zeros()[0 := du[0]]
  {
    assert Placed(du, 0) == Zeros();
  }

  lemma ShortOne(v: int)
    requires -0x8000 < v < 0x8000
    ensures Mul2ShortsValid(v, Ones()[0]) && ToShort(v * Ones()[0]) == v
  {
  }

  // ----- a whole scan

  lemma FillEndAt(d: seq<byte>, at: nat)
    requires ByteAt(d, at) != 0xFF
    ensures FillEnd(d, at) == at
  {
  }

  function StuffedByte(c: byte): seq<byte> { if c == 0xFF then [0xFF, 0] else [c] }

  lemma StuffedSplit(rest: seq<byte>, c: byte, tail: seq<byte>)
    ensures Stuffed(rest + [c]) == Stuffed(rest) + StuffedByte(c)
    ensures Stuffed(rest + [c]) + tail == Stuffed(rest) + (StuffedByte(c) + tail)
  {
    assert (rest + [c])[..|rest|] == rest;
  }

  // Removing the stuffing gives the data back, up to what follows it.
  lemma {:induction false} UnstuffedStuffed(data: seq<byte>, tail: seq<byte>)
    ensures Unstuffed(Stuffed(data) + tail, 0) == data + Unstuffed(Stuffed(data) + tail, |Stuffed(data)|)
    decreases |data|
  {
    if data == [] {
      assert Stuffed(data) + tail == tail;
    } else {
      hide Stuffed, Unstuffed, StuffedByte;
      var n := |data| - 1;
      var c, rest := data[n], data[..n];
      assert data == rest + [c];
      StuffedSplit(rest, c, tail);
      UnstuffedStuffed(rest, StuffedByte(c) + tail);
      UnstuffedOne(Stuffed(rest), c, tail);
      var u := Unstuffed(Stuffed(data) + tail, |Stuffed(data)|);
      assert rest + ([c] + u) == rest + [c] + u;
    }
  }

  lemma UnstuffedOne(before: seq<byte>, c: byte, tail: seq<byte>)
    ensures var last, at := StuffedByte(c), |before|;
      var d := before + (last + tail);
      Unstuffed(d, at) == [c] + Unstuffed(d, at + |last|)
  {
    var at, d := |before|, before + (StuffedByte(c) + tail);
    assert d[at] == c;
    if c == 0xFF {
      assert d[at + 1] == 0;
      FillEndAt(d, at + 1);
    }
  }

  lemma UnstuffedScan(data: seq<byte>)
    ensures Unstuffed(Stuffed(data) + [0xFF, 0xD9], 0) == data
  {
    var d, at := Stuffed(data) + [0xFF, 0xD9], |Stuffed(data)|;
    UnstuffedStuffed(data, [0xFF, 0xD9]);
    assert d[at] == 0xFF && d[at + 1] == 0xD9;
    FillEndAt(d, at + 1);
    assert Unstuffed(d, at) == [];
    assert data + [] == data;
  }

  // The tables blocks are coded with.
  datatype Coding = Coding(htdc: Table, htac: Table)

  // A scan: what luminance and what the other components are coded with, and the components of the blocks that make up one
  // unit, which are repeated throughout.
  datatype Scan = Scan(y: Coding, uv: Coding, unit: seq<nat>) {
    ghost predicate Valid() { unit != [] && forall i :: 0 <= i < |unit| ==> unit[i] < 3 }

    // The component of block `k`.
    function Component(k: nat): nat
      requires unit != []
    {
      unit[k % |unit|]
    }

    function For(component: nat): Coding { if component == 0 then y else uv }
  }

  // The DC value of the last block of a component before block `n`.
  function Last(sc: Scan, blocks: seq<Coefs>, n: nat, component: nat): int
    requires n <= |blocks| && sc.unit != []
  {
    if n == 0 then 0
    else if sc.Component(n - 1) == component then blocks[n - 1][0]
    else Last(sc, blocks, n - 1, component)
  }

  // The DC value the difference of block `k` is taken from.
  function Pred(sc: Scan, blocks: seq<Coefs>, k: nat): int
    requires k < |blocks| && sc.unit != []
  {
    Last(sc, blocks, k, sc.Component(k))
  }

  // Differences of DC values fit into a short.
  ghost predicate Chained(sc: Scan, blocks: seq<Coefs>) {
    sc.Valid() && forall k :: 0 <= k < |blocks| ==> -0x8000 < blocks[k][0] - Pred(sc, blocks, k) < 0x8000
  }

  // The tables have codes for coefficients of these sizes.
  ghost predicate Writable(sc: Scan, blocks: seq<Coefs>, dcSize: nat, acSize: nat)
    requires Chained(sc, blocks)
  {
    forall k :: 0 <= k < |blocks| ==> AcFit(blocks[k], acSize) && CoefSize(blocks[k][0] - Pred(sc, blocks, k)) <= dcSize
  }

  // The bits of block `k`.
  ghost function UnitBits(sc: Scan, blocks: seq<Coefs>, k: nat): seq<bool>
    requires k < |blocks| && Chained(sc, blocks)
  {
    BlockBits(sc.For(sc.Component(k)).htdc, sc.For(sc.Component(k)).htac, blocks[k], Pred(sc, blocks, k))
  }

  ghost function ScanBits(sc: Scan, blocks: seq<Coefs>, n: nat): seq<bool>
    requires n <= |blocks| && Chained(sc, blocks)
  {
    if n == 0 then [] else ScanBits(sc, blocks, n - 1) + UnitBits(sc, blocks, n - 1)
  }

  lemma ScanNone(sc: Scan, blocks: seq<Coefs>)
    requires Chained(sc, blocks)
    ensures ScanBits(sc, blocks, 0) == [] && sc.unit != [] && forall component :: Last(sc, blocks, 0, component) == 0
  {
  }

  lemma {:induction false} ScanPrefix(sc: Scan, blocks: seq<Coefs>, n: nat, m: nat)
    requires n <= m <= |blocks| && Chained(sc, blocks)
    ensures ScanBits(sc, blocks, n) <= ScanBits(sc, blocks, m)
    decreases m
  {
    hide UnitBits;
    if n < m { ScanPrefix(sc, blocks, n, m - 1); }
  }

  lemma BlockStands(sc: Scan, blocks: seq<Coefs>, k: nat, s: seq<bool>)
    requires k < |blocks| && Chained(sc, blocks) && ScanBits(sc, blocks, |blocks|) <= s
    ensures var p, w := |ScanBits(sc, blocks, k)|, UnitBits(sc, blocks, k);
      HasBits(s, p, w) && |ScanBits(sc, blocks, k + 1)| == p + |w|
  {
    hide ScanBits, UnitBits, Chained, HasBits;
    ScanPrefix(sc, blocks, k + 1, |blocks|);
    ScanNext(sc, blocks, k);
    PrefixStands(ScanBits(sc, blocks, k), UnitBits(sc, blocks, k), ScanBits(sc, blocks, |blocks|), s);
  }

  lemma DiffInRange(sc: Scan, blocks: seq<Coefs>, k: nat)
    requires Chained(sc, blocks) && k < |blocks|
    ensures sc.unit != [] && sc.Component(k) < 3 && -0x8000 < blocks[k][0] - Pred(sc, blocks, k) < 0x8000
  {
    hide Pred;
  }

  lemma ScanNext(sc: Scan, blocks: seq<Coefs>, k: nat)
    requires Chained(sc, blocks) && k < |blocks|
    ensures ScanBits(sc, blocks, k + 1) == ScanBits(sc, blocks, k) + UnitBits(sc, blocks, k)
  {
    hide UnitBits;
  }

  // Only the last DC value of the block's own component changes.
  lemma LastNext(sc: Scan, blocks: seq<Coefs>, k: nat, component: nat)
    requires sc.unit != [] && k < |blocks|
    ensures Last(sc, blocks, k + 1, component)
         == if component == sc.Component(k) then blocks[k][0] else Last(sc, blocks, k, component)
  {
  }

  lemma PrefixStands(a: seq<bool>, w: seq<bool>, all: seq<bool>, s: seq<bool>)
    requires a + w <= all <= s
    ensures HasBits(s, |a|, w)
  {
    assert all[..|a + w|] == a + w && s[..|all|] == all;
    assert s[|a|..|a| + |w|] == (a + w)[|a|..];
  }

  // The blocks of a scan, the bits that fill its last byte, and the marker that ends the image.
  method WriteScan(sc: Scan, blocks: seq<Coefs>) returns (out: seq<byte>, ghost data: seq<byte>)
    requires Chained(sc, blocks)
    ensures out == Stuffed(data) + [0xFF, 0xD9] && ScanBits(sc, blocks, |blocks|) <= DataBits(data)
  {
    hide Chained, ScanBits, MsbBits, DataBits, Stuffed, JpegWriter.Valid;
    var w := new JpegWriter();
    WriteBlocks(w, sc, blocks);
    ghost var bits := w.Written();
    Pow2Small();
    w.WriteBits((0x7F, 7));
    data := w.data;
    WriterIs(w);
    AllWritten(data, w.pend, bits, MsbBits(0x7F, 7));
    out := w.out + [0xFF, 0xD9];
  }

  method WriteBlocks(w: JpegWriter, sc: Scan, blocks: seq<Coefs>)
    requires w.Valid() && w.Written() == [] && Chained(sc, blocks)
    modifies w
    ensures w.Valid() && w.Written() == ScanBits(sc, blocks, |blocks|)
  {
    hide *;
    var dc := new int[3](i => 0);
    ScanNone(sc, blocks);
    for k := 0 to |blocks|
      invariant w.Valid() && w.Written() == ScanBits(sc, blocks, k) && fresh(dc) && dc.Length == 3 && sc.unit != []
      invariant forall component: nat :: component < 3 ==> dc[component] == Last(sc, blocks, k, component)
    {
      WriteUnit(w, sc, blocks, k, dc);
    }
  }

  // One more block, and its DC value.
  method WriteUnit(w: JpegWriter, sc: Scan, blocks: seq<Coefs>, k: nat, dc: array<int>)
    requires w.Valid() && Chained(sc, blocks) && k < |blocks| && dc.Length == 3 && sc.unit != []
    requires w.Written() == ScanBits(sc, blocks, k)
    requires forall component: nat :: component < 3 ==> dc[component] == Last(sc, blocks, k, component)
    modifies w, dc
    ensures w.Valid() && w.Written() == ScanBits(sc, blocks, k + 1)
    ensures forall component: nat :: component < 3 ==> dc[component] == Last(sc, blocks, k + 1, component)
  {
    hide *;
    DiffInRange(sc, blocks, k);
    ScanNext(sc, blocks, k);
    UnitIs(sc, blocks, k);
    PredIs(sc, blocks, k);
    forall component: nat | component < 3 { LastNext(sc, blocks, k, component); }
    var component := sc.Component(k);
    var coding := sc.For(component);
    ProcessDU(w, blocks[k], dc[component], coding.htdc, coding.htac);
    dc[component] := blocks[k][0];
  }

  lemma UnitIs(sc: Scan, blocks: seq<Coefs>, k: nat)
    requires k < |blocks| && Chained(sc, blocks)
    ensures var coding, diff := sc.For(sc.Component(k)), blocks[k][0] - Pred(sc, blocks, k);
      -0x8000 < diff < 0x8000 && UnitBits(sc, blocks, k) == DcBits(coding.htdc, diff) + AcBits(coding.htac, blocks[k], 1)
  {
    hide DcBits, AcBits, Last;
  }

  lemma WriterIs(w: JpegWriter)
    requires w.Valid()
    ensures |w.pend| < 8 && w.out == Stuffed(w.data)
  {
  }

  // Seven bits of filling leave none of the others in the buffer.
  lemma AllWritten(data: seq<byte>, pend: seq<bool>, bits: seq<bool>, fill: seq<bool>)
    requires DataBits(data) + pend == bits + fill && |fill| == 7 && |pend| < 8
    ensures bits <= DataBits(data)
  {
    var d := DataBits(data);
    assert |d| + |pend| == |bits| + 7;
    assert (d + pend)[..|bits|] == d[..|bits|] && (bits + fill)[..|bits|] == bits;
  }

  // ----- reading it

  lemma BlockFits(sc: Scan, blocks: seq<Coefs>, k: nat, dcSize: nat, acSize: nat)
    requires Chained(sc, blocks) && Writable(sc, blocks, dcSize, acSize) && k < |blocks|
    ensures var pred := Pred(sc, blocks, k);
      AcFit(blocks[k], acSize) && -0x8000 < pred < 0x8000 && -0x8000 < blocks[k][0] - pred < 0x8000 &&
      CoefSize(blocks[k][0] - pred) <= dcSize
  {
    hide AcFit, CoefSize;
    LastShort(sc, blocks, k, sc.Component(k));
    hide Last;
  }

  lemma {:induction false} LastShort(sc: Scan, blocks: seq<Coefs>, n: nat, component: nat)
    requires n <= |blocks| && sc.unit != []
    ensures -0x8000 < Last(sc, blocks, n, component) < 0x8000
  {
    if n > 0 { LastShort(sc, blocks, n - 1, component); }
  }

  // The codes of the decoder's tables.
  datatype Codes = Codes(d: Code, c: Code)

  ghost predicate Fitting(sc: Scan, y: Codes, uv: Codes, dcSize: nat, acSize: nat) {
    Fits(y.d, sc.y.htdc, y.c, sc.y.htac, dcSize, acSize) && Fits(uv.d, sc.uv.htdc, uv.c, sc.uv.htac, dcSize, acSize)
  }

  lemma BlockComes(sc: Scan, y: Codes, uv: Codes, blocks: seq<Coefs>, k: nat, dcSize: nat, acSize: nat,
      s: seq<bool>)
    requires Fitting(sc, y, uv, dcSize, acSize) && Chained(sc, blocks) && Writable(sc, blocks, dcSize, acSize) && k < |blocks|
    requires ScanBits(sc, blocks, |blocks|) <= s
    ensures var p, p', codes := |ScanBits(sc, blocks, k)|, |ScanBits(sc, blocks, k + 1)|, if sc.Component(k) == 0 then y else uv;
      IsCode(codes.d) && IsCode(codes.c) && p' <= |s| &&
      BlockAt(codes.d, codes.c, Ones(), s, p, Pred(sc, blocks, k)) == Block(Placed(blocks[k], 64), p', blocks[k][0])
  {
    hide BlockAt, Placed, BlockBits, ScanBits, Has, Huffman.Realizable, CoefSize, AcFit, Writable, Ones, Covers, DcCovers, Last;
    BlockFits(sc, blocks, k, dcSize, acSize);
    BlockStands(sc, blocks, k, s);
    var codes, coding := if sc.Component(k) == 0 then y else uv, sc.For(sc.Component(k));
    BlockDecodes(codes.d, coding.htdc, codes.c, coding.htac, dcSize, acSize, blocks[k], s, |ScanBits(sc, blocks, k)|,
      Pred(sc, blocks, k));
  }

  // The decoder's tables for one component.
  ghost predicate Prepared(hdc: StbiHuffman, hac: StbiHuffman, fac: array<int>, d: Code, c: Code)
    reads hdc.fast, hdc.code, hdc.values, hdc.size, hdc.maxcode, hdc.delta
    reads hac.fast, hac.code, hac.values, hac.size, hac.maxcode, hac.delta, fac
  {
    hdc.Valid() && hac.Valid() && hdc.Tables(d.lens) && hac.Tables(c.lens) && fac.Length == 512 &&
    IsCode(d) && IsCode(c) && hdc.values[..] == d.values && hac.values[..] == c.values &&
    forall i :: 0 <= i < 512 ==> FastAcOk(c, i, fac[i])
  }

  // The decoder's tables for luminance, or for the other components.
  datatype Decoding = Decoding(hdc: StbiHuffman, hac: StbiHuffman, fac: array<int>)

  ghost predicate Ready(dec: Decoding, codes: Codes)
    reads dec.hdc.fast, dec.hdc.code, dec.hdc.values, dec.hdc.size, dec.hdc.maxcode, dec.hdc.delta
    reads dec.hac.fast, dec.hac.code, dec.hac.values, dec.hac.size, dec.hac.maxcode, dec.hac.delta, dec.fac
  {
    Prepared(dec.hdc, dec.hac, dec.fac, codes.d, codes.c)
  }

  // One block that lies in the data.
  method ReadBlock(j: BitReader, data: array<int>, dec: Decoding, pred: int, ghost codes: Codes, ghost b: Block)
    returns (ok: bool, dc: int)
    requires j.Valid() && Ready(dec, codes) && IsCode(codes.d) && IsCode(codes.c) && data.Length == 64
    requires data != dec.fac && data != dec.hdc.delta && data != dec.hac.delta
    requires BlockAt(codes.d, codes.c, Ones(), j.Stream(), j.pos, pred) == b && b.Block? && b.pos <= 8 * |j.data|
    modifies j, j.s, data
    ensures ok && j.Valid() && j.data == old(j.data) && data[..] == b.coefs && j.pos == b.pos && dc == b.dc
  {
    hide StbiHuffman.Tables, FastAcOk, Usable, BitReader.Valid, DataBits, BlockAt;
    ghost var exact;
    ok, dc, exact := DecodeBlock(j, data, dec.hdc, dec.hac, dec.fac, pred, Ones(), codes.d, codes.c);
  }

  // Blocks before `k` have been read.
  ghost predicate ReadUpTo(j: BitReader, dc: array<int>, sc: Scan, blocks: seq<Coefs>, k: nat)
    requires k <= |blocks| && Chained(sc, blocks)
    reads j, j.s, dc
  {
    j.Valid() && sc.unit != [] && dc.Length == 3 && j.pos == |ScanBits(sc, blocks, k)| &&
    forall component :: 0 <= component < 3 ==> dc[component] == Last(sc, blocks, k, component)
  }

  // One more block.
  method ReadUnit(j: BitReader, data: array<int>, dc: array<int>, sc: Scan, y: Decoding, uv: Decoding, ghost yCodes: Codes,
      ghost uvCodes: Codes, ghost blocks: seq<Coefs>, k: nat, ghost dcSize: nat, ghost acSize: nat)
    returns (ok: bool)
    requires Ready(y, yCodes) && Ready(uv, uvCodes) && Fitting(sc, yCodes, uvCodes, dcSize, acSize)
    requires Chained(sc, blocks) && Writable(sc, blocks, dcSize, acSize) && k < |blocks|
    requires {data, dc} !! {y.fac, y.hdc.delta, y.hac.delta, uv.fac, uv.hdc.delta, uv.hac.delta} && data != dc && data.Length == 64
    requires ReadUpTo(j, dc, sc, blocks, k) && ScanBits(sc, blocks, |blocks|) <= DataBits(j.data)
    modifies j, j.s, data, dc
    ensures Ready(y, yCodes) && Ready(uv, uvCodes)
    ensures ok && ReadUpTo(j, dc, sc, blocks, k + 1) && j.data == old(j.data) && data[..] == Placed(blocks[k], 64)
  {
    hide Ready, Fitting, Chained, BitReader.Valid, DataBits, BlockAt, Placed, ScanBits, Writable, Ones, StbiHuffman.Valid;
    hide Huffman.Realizable, StbiHuffman.Tables, FastAcOk, UnitBits, Scan.Valid, Scan.Component, Scan.For, Last, Pred, IsCode;
    BlockComes(sc, yCodes, uvCodes, blocks, k, dcSize, acSize, j.Stream());
    DiffInRange(sc, blocks, k);
    forall component: nat | component < 3 { LastNext(sc, blocks, k, component); }
    PredIs(sc, blocks, k);
    ghost var b := Block(Placed(blocks[k], 64), |ScanBits(sc, blocks, k + 1)|, blocks[k][0]);
    var component := sc.Component(k);
    var dec := if component == 0 then y else uv;
    ghost var codes := if component == 0 then yCodes else uvCodes;
    var v;
    ok, v := ReadBlock(j, data, dec, dc[component], codes, b);
    dc[component] := v;
  }

  lemma NothingRead(j: BitReader, dc: array<int>, sc: Scan, blocks: seq<Coefs>)
    requires Chained(sc, blocks) && j.Valid() && j.pos == 0 && dc.Length == 3 && forall i :: 0 <= i < 3 ==> dc[i] == 0
    ensures ReadUpTo(j, dc, sc, blocks, 0)
  {
    hide BitReader.Valid, Last, ScanBits;
    ScanNone(sc, blocks);
  }

  // `n` blocks of a scan, with or without entries in the combined tables.
  method ReadScan(file: seq<byte>, sc: Scan, y: Decoding, uv: Decoding, ghost yCodes: Codes, ghost uvCodes: Codes,
      ghost blocks: seq<Coefs>, n: nat, ghost dcSize: nat, ghost acSize: nat)
    returns (ok: bool, got: seq<seq<int>>)
    requires Ready(y, yCodes) && Ready(uv, uvCodes) && Fitting(sc, yCodes, uvCodes, dcSize, acSize)
    requires Chained(sc, blocks) && Writable(sc, blocks, dcSize, acSize) && n == |blocks|
    requires ScanBits(sc, blocks, n) <= DataBits(Unstuffed(file, 0))
    ensures ok && |got| == n && forall k :: 0 <= k < n ==> got[k] == Placed(blocks[k], 64)
  {
    hide *;
    var s := new Context(file);
    var j := new BitReader(s);
    var data := new int[64];
    var dc := new int[3](i => 0);
    NothingRead(j, dc, sc, blocks);
    ok, got := ReadUnits(j, data, dc, sc, y, uv, yCodes, uvCodes, blocks, n, dcSize, acSize);
  }

  method ReadUnits(j: BitReader, data: array<int>, dc: array<int>, sc: Scan, y: Decoding, uv: Decoding, ghost yCodes: Codes,
      ghost uvCodes: Codes, ghost blocks: seq<Coefs>, n: nat, ghost dcSize: nat, ghost acSize: nat)
    returns (ok: bool, got: seq<seq<int>>)
    requires Ready(y, yCodes) && Ready(uv, uvCodes) && Fitting(sc, yCodes, uvCodes, dcSize, acSize)
    requires Chained(sc, blocks) && Writable(sc, blocks, dcSize, acSize) && n == |blocks| && data.Length == 64
    requires {data, dc} !! {y.fac, y.hdc.delta, y.hac.delta, uv.fac, uv.hdc.delta, uv.hac.delta} && data != dc
    requires ReadUpTo(j, dc, sc, blocks, 0) && ScanBits(sc, blocks, |blocks|) <= DataBits(j.data)
    modifies j, j.s, data, dc
    ensures ok && |got| == n && forall k :: 0 <= k < n ==> got[k] == Placed(blocks[k], 64)
  {
    hide *;
    ok, got := true, [];
    for k := 0 to n
      invariant ok && |got| == k && j.data == old(j.data) && Ready(y, yCodes) && Ready(uv, uvCodes)
      invariant ReadUpTo(j, dc, sc, blocks, k)
      invariant forall i :: 0 <= i < k ==> got[i] == Placed(blocks[i], 64)
    {
      ok := ReadUnit(j, data, dc, sc, y, uv, yCodes, uvCodes, blocks, k, dcSize, acSize);
      got := got + [data[..]];
    }
  }

  lemma PredIs(sc: Scan, blocks: seq<Coefs>, k: nat)
    requires k < |blocks| && sc.unit != []
    ensures Pred(sc, blocks, k) == Last(sc, blocks, k, sc.Component(k))
  {
  }

  // ----- there and back

  // `DU[stbiw__jpg_ZigZag[j]] = ...`
  method ToZigzag(natural: Coefs) returns (du: Coefs)
    ensures forall j :: 0 <= j < 64 ==> du[Zigzag(j)] == natural[j]
  {
    hide Zigzag, Dezigzag;
    var a := new int[64](i => 0);
    for j := 0 to 64
      invariant forall i :: 0 <= i < 64 ==> -0x8000 < a[i] < 0x8000
      invariant forall i :: 0 <= i < j ==> a[Zigzag(i)] == natural[i]
    {
      forall i | 0 <= i < j
        ensures Zigzag(i) != Zigzag(j)
      {
        ZigzagInverse(i);
        ZigzagInverse(j);
      }
      a[Zigzag(j)] := natural[j];
    }
    du := a[..];
  }

  method ZigzagAll(blocks: seq<Coefs>) returns (du: seq<Coefs>)
    ensures |du| == |blocks| && forall k :: 0 <= k < |du| ==> Reordered(du[k], blocks[k])
  {
    du := [];
    for k := 0 to |blocks|
      invariant |du| == k && forall i :: 0 <= i < k ==> Reordered(du[i], blocks[i])
    {
      var one := ToZigzag(blocks[k]);
      du := du + [one];
    }
  }

  ghost predicate Reordered(du: Coefs, block: Coefs) { forall j :: 0 <= j < 64 ==> du[Zigzag(j)] == block[j] }

  // Reordering moves no coefficient between the first position and the others.
  lemma ReorderedFits(du: Coefs, block: Coefs, size: nat)
    requires Reordered(du, block)
    ensures du[0] == block[0] && (AcFit(block, size) ==> AcFit(du, size))
  {
    assert Zigzag(0) == 0;
    hide Zigzag, Dezigzag, CoefSize;
    forall i | 1 <= i < 64
      ensures exists j :: 1 <= j < 64 && du[i] == block[j]
    {
      ZigzagInverse(i);
      var j := Dezigzag(i);
      assert du[Zigzag(j)] == block[j];
    }
  }

  lemma AllReordered(sc: Scan, du: seq<Coefs>, blocks: seq<Coefs>, dcSize: nat, acSize: nat)
    requires |du| == |blocks| && forall k :: 0 <= k < |du| ==> Reordered(du[k], blocks[k])
    requires Chained(sc, blocks) && Writable(sc, blocks, dcSize, acSize)
    ensures Chained(sc, du) && Writable(sc, du, dcSize, acSize)
  {
    hide Reordered, AcFit, CoefSize, Last, Scan.Component;
    forall k | 0 <= k < |du|
      ensures Pred(sc, du, k) == Pred(sc, blocks, k) && du[k][0] == blocks[k][0] && AcFit(du[k], acSize)
    {
      ReorderedFits(du[k], blocks[k], acSize);
      SameLast(sc, du, blocks, k, sc.Component(k));
    }
  }

  lemma {:induction false} SameLast(sc: Scan, du: seq<Coefs>, blocks: seq<Coefs>, n: nat, component: nat)
    requires n <= |du| == |blocks| && sc.unit != [] && forall k :: 0 <= k < |du| ==> Reordered(du[k], blocks[k])
    ensures Last(sc, du, n, component) == Last(sc, blocks, n, component)
  {
    hide Reordered;
    if n > 0 {
      SameLast(sc, du, blocks, n - 1, component);
      ReorderedFits(du[n - 1], blocks[n - 1], 0);
    }
  }

  // What the file's header says of a pair of tables.
  datatype Header = Header(dcCount: seq<nat>, dcValues: seq<byte>, acCount: seq<nat>, acValues: seq<byte>) {
    ghost predicate Valid() { |dcCount| == |acCount| == 16 && |dcValues| == |acValues| == 256 }

    ghost function AsCodes(): Codes
      requires Valid()
    {
      Codes(Code(Sizes(dcCount, 16), dcValues), Code(Sizes(acCount, 16), acValues))
    }
  }

  // Both tables of a header, and the combined one if it is wanted.
  method MakeDecoding(h: Header, fast: bool) returns (dec: Decoding)
    requires h.Valid() && Good(h.AsCodes().d) && Good(h.AsCodes().c)
    ensures Ready(dec, h.AsCodes())
  {
    hide StbiHuffman.Tables, FastAcOk, Usable, Sizes, Huffman.Realizable;
    var hdc := MakeTables(h.dcCount, h.dcValues);
    var hac := MakeTables(h.acCount, h.acValues);
    var fac := new int[512](i => 0);
    ghost var c := h.AsCodes().c;
    NoFast(c);
    if fast { fac := BuildFastAc(hac, c); }
    dec := Decoding(hdc, hac, fac);
  }

  // Reordering, writing the scan, and decoding it with unit dequantisation gives back the blocks, in order and whatever
  // components are interleaved, through the combined tables or without them.
  method RoundTrip(sc: Scan, blocks: seq<Coefs>, y: Header, uv: Header, fast: bool, ghost dcSize: nat, ghost acSize: nat)
    returns (ok: bool, got: seq<seq<int>>)
    requires y.Valid() && uv.Valid() && Fitting(sc, y.AsCodes(), uv.AsCodes(), dcSize, acSize)
    requires Chained(sc, blocks) && Writable(sc, blocks, dcSize, acSize)
    ensures ok && |got| == |blocks| && forall k :: 0 <= k < |blocks| ==> got[k] == blocks[k]
  {
    hide Chained, Writable, Fitting, Good, Prepared, ScanBits, DataBits, Unstuffed, Stuffed, Placed, Reordered, Header.AsCodes;
    FittingGood(sc, y.AsCodes(), uv.AsCodes(), dcSize, acSize);
    var du := ZigzagAll(blocks);
    AllReordered(sc, du, blocks, dcSize, acSize);
    var file;
    ghost var data;
    file, data := WriteScan(sc, du);
    UnstuffedScan(data);
    var yDec := MakeDecoding(y, fast);
    var uvDec := MakeDecoding(uv, fast);
    ok, got := ReadScan(file, sc, yDec, uvDec, y.AsCodes(), uv.AsCodes(), du, |du|, dcSize, acSize);
    forall k | 0 <= k < |blocks|
      ensures got[k] == blocks[k]
    {
      PlacedBack(du[k], blocks[k]);
    }
  }

  lemma FittingGood(sc: Scan, y: Codes, uv: Codes, dcSize: nat, acSize: nat)
    requires Fitting(sc, y, uv, dcSize, acSize)
    ensures Good(y.d) && Good(y.c) && Good(uv.d) && Good(uv.c)
  {
    hide Good, Covers, DcCovers;
  }

  lemma PlacedBack(du: Coefs, block: Coefs)
    requires Reordered(du, block)
    ensures Placed(du, 64) == block
  {
    hide Placed, Zigzag;
    forall j | 0 <= j < 64
      ensures Placed(du, 64)[j] == block[j]
    {
      PlacedNatural(du, j);
    }
  }

  method MakeTables(count: seq<nat>, values: seq<byte>) returns (h: StbiHuffman)
    requires |count| == 16 && |values| == 256 && |Sizes(count, 16)| <= 256 && Huffman.Realizable(Sizes(count, 16))
    ensures h.Valid() && h.Tables(Sizes(count, 16)) && h.values[..] == values
    ensures fresh(h.fast) && fresh(h.code) && fresh(h.values) && fresh(h.size) && fresh(h.maxcode) && fresh(h.delta)
  {
    hide StbiHuffman.Tables, Huffman.Realizable, Sizes;
    h := new StbiHuffman();
    forall i | 0 <= i < 256 { h.values[i] := values[i]; }
    assert h.values[..] == values;
    var built := h.Build(count);
  }
}
