// `stbi_zlib_compress`: hash-chain LZ77 with lazy matching into one fixed-Huffman block, with a fallback to
// stored blocks; proved to write a stream that stands for its input.

module ZCompress {
  import opened BitStream
  import opened Huffman
  import opened Deflate
  import opened ZWriter
  import opened Wrappers
  import Adler

  const LENGTHC: seq<nat> :=
    [3, 4, 5, 6, 7, 8, 9, 10, 11, 13, 15, 17, 19, 23, 27, 31, 35, 43, 51, 59, 67, 83, 99, 115, 131, 163, 195, 227, 258, 259]

  const LENGTHEB: seq<nat> := [0, 0, 0, 0, 0, 0, 0, 0, 1, 1, 1, 1, 2, 2, 2, 2, 3, 3, 3, 3, 4, 4, 4, 4, 5, 5, 5, 5, 0]

  const DISTC: seq<nat> :=
    [1, 2, 3, 4, 5, 7, 9, 13, 17, 25, 33, 49, 65, 97, 129, 193, 257, 385, 513, 769, 1025, 1537, 2049, 3073, 4097, 6145,
     8193, 12289, 16385, 24577, 32768]

  const DISTEB: seq<nat> :=
    [0, 0, 0, 0, 1, 1, 2, 2, 3, 3, 4, 4, 5, 5, 6, 6, 7, 7, 8, 8, 9, 9, 10, 10, 11, 11, 12, 12, 13, 13]

  const ZHASH := 16384

  // The compressor's tables are the decoder's, and its extra bits reach the next base.
  lemma LengthTable(j: nat)
    requires j < 29
    ensures LENGTHC[j] == LengthBase(j) && LENGTHEB[j] == LengthExtra(j)
    ensures LENGTHC[j + 1] - LENGTHC[j] <= Pow2(LENGTHEB[j])
  {
    Pow2Small();
  }

  lemma DistTable(j: nat)
    requires j < 30
    ensures DISTC[j] == DistBase(j) && DISTEB[j] == DistExtra(j)
    ensures DISTC[j + 1] - DISTC[j] <= Pow2(DISTEB[j])
  {
    Pow2Small();
    assert Pow2(11) == 2048 && Pow2(12) == 4096;
  }

  // ----- what the bits written so far decode to

  // Whatever is appended to `bits`, a decoder that starts at `start` with nothing has produced `out` when it
  // reaches the end of `bits`, and goes on from there.
  ghost predicate Decodes(start: nat, bits: seq<bool>, out: seq<byte>) {
    forall t: seq<bool>, limit: nat :: |out| <= limit ==>
      Symbols(FixedLengths(), FixedDistances(), bits + t, start, [], limit)
      == Symbols(FixedLengths(), FixedDistances(), bits + t, |bits|, out, limit)
  }

  lemma DecodesNothing(bits: seq<bool>)
    ensures Decodes(|bits|, bits, [])
  {
  }

  lemma CodewordNext(bits: seq<bool>, n: nat, t: seq<bool>)
    requires n < 288
    ensures Symbol(FixedLengths(), (bits + Codeword(FixedLengths(), n)) + t, |bits|) == Some(n)
  {
    hide Realizable, Symbol, Codeword;
    FixedRealizable();
    CodewordDecodes(FixedLengths(), bits, n, t);
  }

  lemma LiteralDecodes(start: nat, bits: seq<bool>, out: seq<byte>, z: byte)
    requires Decodes(start, bits, out)
    ensures Decodes(start, bits + Codeword(FixedLengths(), z), out + [z])
  {
    hide Symbols, FixedLengths, FixedDistances, Codeword;
    var w := Codeword(FixedLengths(), z);
    forall t: seq<bool>, limit: nat | |out + [z]| <= limit
      ensures Symbols(FixedLengths(), FixedDistances(), (bits + w) + t, start, [], limit)
           == Symbols(FixedLengths(), FixedDistances(), (bits + w) + t, |bits + w|, out + [z], limit)
    {
      assert bits + (w + t) == (bits + w) + t;
      CodewordNext(bits, z, t);
      LiteralStep(FixedLengths(), FixedDistances(), (bits + w) + t, |bits|, out, limit, z);
    }
  }

  // The bits of one back-reference.
  ghost function MatchBits(len: nat, dist: nat, j: nat, k: nat): seq<bool>
    requires j < 29 && k < 30 && LengthBase(j) <= len && DistBase(k) <= dist
  {
    Codeword(FixedLengths(), 257 + j) + Bits(len - LengthBase(j), LengthExtra(j))
    + Codeword(FixedDistances(), k) + Bits(dist - DistBase(k), DistExtra(k))
  }

  ghost predicate FitsMatch(len: nat, dist: nat, j: nat, k: nat) {
    j < 29 && k < 30 &&
    LengthBase(j) <= len < LengthBase(j) + Pow2(LengthExtra(j)) &&
    DistBase(k) <= dist < DistBase(k) + Pow2(DistExtra(k))
  }

  lemma BitsNext(bits: seq<bool>, v: nat, n: nat, t: seq<bool>)
    requires v < Pow2(n)
    ensures Nat(Window(bits + Bits(v, n) + t, |bits|, n)) == v
  {
    WindowInside(bits + Bits(v, n) + t, |bits|, n);
    NatOfBits(v, n);
  }

  lemma DistanceNext(bits: seq<bool>, k: nat, t: seq<bool>)
    requires k < 32
    ensures Symbol(FixedDistances(), bits + Codeword(FixedDistances(), k) + t, |bits|) == Some(k)
  {
    FixedRealizable();
    assert FixedDistances()[k] == 5;
    hide FixedDistances, Realizable, Symbol, Codeword;
    CodewordDecodes(FixedDistances(), bits, k, t);
  }

  lemma MatchNext(bits: seq<bool>, len: nat, dist: nat, j: nat, k: nat, t: seq<bool>)
    requires FitsMatch(len, dist, j, k)
    ensures var s := bits + MatchBits(len, dist, j, k) + t;
            && Symbol(FixedLengths(), s, |bits|) == Some(257 + j)
            && MatchAt(FixedDistances(), s, |bits| + FixedLengths()[257 + j], j)
               == Some(Match(len, dist, |bits| + |MatchBits(len, dist, j, k)|))
  {
    hide FixedLength, LengthBase, LengthExtra, DistBase, DistExtra, Symbol, Codeword, Nat, Window, Pow2;
    var c1, c2 := Codeword(FixedLengths(), 257 + j), Bits(len - LengthBase(j), LengthExtra(j));
    var c3, c4 := Codeword(FixedDistances(), k), Bits(dist - DistBase(k), DistExtra(k));
    var s := bits + MatchBits(len, dist, j, k) + t;
    var b1, b2, b3 := bits + c1, bits + c1 + c2, bits + c1 + c2 + c3;
    CodewordNext(bits, 257 + j, c2 + c3 + c4 + t);
    assert s == bits + c1 + (c2 + c3 + c4 + t);
    BitsNext(b1, len - LengthBase(j), LengthExtra(j), c3 + c4 + t);
    assert s == b1 + c2 + (c3 + c4 + t);
    DistanceNext(b2, k, c4 + t);
    assert s == b2 + c3 + (c4 + t);
    BitsNext(b3, dist - DistBase(k), DistExtra(k), t);
    assert s == b3 + c4 + t;
  }

  lemma {:induction false} MatchDecodes(start: nat, bits: seq<bool>, out: seq<byte>, len: nat, dist: nat, j: nat, k: nat)
    requires Decodes(start, bits, out) && FitsMatch(len, dist, j, k) && 1 <= dist <= |out|
    ensures Decodes(start, bits + MatchBits(len, dist, j, k), Copy(out, dist, len))
  {
    hide Symbols, FixedLengths, FixedDistances, MatchAt, Codeword, Bits, LengthBase, LengthExtra, DistBase, DistExtra;
    var w, o := MatchBits(len, dist, j, k), Copy(out, dist, len);
    forall t: seq<bool>, limit: nat | |o| <= limit
      ensures Symbols(FixedLengths(), FixedDistances(), (bits + w) + t, start, [], limit)
           == Symbols(FixedLengths(), FixedDistances(), (bits + w) + t, |bits + w|, o, limit)
    {
      assert bits + (w + t) == (bits + w) + t;
      MatchNext(bits, len, dist, j, k, t);
      MatchStep(FixedLengths(), FixedDistances(), (bits + w) + t, |bits|, out, limit, j);
    }
  }

  lemma EndDecodes(start: nat, bits: seq<bool>, out: seq<byte>, t: seq<bool>, limit: nat)
    requires Decodes(start, bits, out) && |out| <= limit
    ensures var w := Codeword(FixedLengths(), 256);
            Symbols(FixedLengths(), FixedDistances(), bits + w + t, start, [], limit) == Some(Parsed(out, |bits| + |w|))
  {
    hide Symbols, FixedLengths, FixedDistances;
    var w := Codeword(FixedLengths(), 256);
    assert bits + (w + t) == (bits + w) + t;
    CodewordNext(bits, 256, t);
    OtherStep(FixedLengths(), FixedDistances(), (bits + w) + t, |bits|, out, limit);
  }

  // A back-reference to equal bytes of the input reproduces the input.
  lemma {:induction false} CopyIsData(data: seq<byte>, i: nat, dist: nat, len: nat)
    requires 1 <= dist <= i && i + len <= |data|
    requires data[i - dist..i - dist + len] == data[i..i + len]
    ensures Copy(data[..i], dist, len) == data[..i + len]
    decreases len
  {
    if len > 0 {
      var a, b := data[i - dist..i - dist + len], data[i..i + len];
      assert a[0] == b[0];
      assert data[..i] + [data[..i][i - dist]] == data[..i + 1];
      assert data[i + 1 - dist..i + 1 - dist + (len - 1)] == a[1..] == b[1..] == data[i + 1..i + 1 + (len - 1)];
      CopyIsData(data, i + 1, dist, len - 1);
    }
  }

  // ----- matching

  function MatchLen(data: seq<byte>, a: nat, b: nat, limit: nat): (n: nat)
    requires a <= b && b + limit <= |data|
    ensures n <= limit
    decreases limit
  {
    if limit == 0 || data[a] != data[b] then 0 else 1 + MatchLen(data, a + 1, b + 1, limit - 1)
  }

  lemma {:induction false} MatchLenEqual(data: seq<byte>, a: nat, b: nat, limit: nat)
    requires a <= b && b + limit <= |data|
    ensures var n := MatchLen(data, a, b, limit); data[a..a + n] == data[b..b + n]
    decreases limit
  {
    if limit > 0 && data[a] == data[b] {
      MatchLenEqual(data, a + 1, b + 1, limit - 1);
      var m := MatchLen(data, a + 1, b + 1, limit - 1);
      assert data[a..a + 1 + m] == [data[a]] + data[a + 1..a + 1 + m];
      assert data[b..b + 1 + m] == [data[b]] + data[b + 1..b + 1 + m];
    }
  }

  function Cap(limit: nat): nat { if limit < 258 then limit else 258 }

  lemma MatchLenStep(data: seq<byte>, a: nat, b: nat, limit: nat)
    requires a <= b && b + limit <= |data|
    ensures limit > 0 && data[a] == data[b] ==> MatchLen(data, a, b, limit) == 1 + MatchLen(data, a + 1, b + 1, limit - 1)
    ensures limit == 0 || data[a] != data[b] ==> MatchLen(data, a, b, limit) == 0
  {
  }

  // `stbiw__zlib_countm`
  method Countm(data: seq<byte>, a: nat, b: nat, limit: nat) returns (i: nat)
    requires a <= b && b + limit <= |data|
    ensures i == MatchLen(data, a, b, Cap(limit))
  {
    hide MatchLen;
    i := 0;
    ghost var whole := MatchLen(data, a, b, Cap(limit));
    while i < limit && i < 258
      invariant i <= Cap(limit) && whole == i + MatchLen(data, a + i, b + i, Cap(limit) - i)
    {
      MatchLenStep(data, a + i, b + i, Cap(limit) - i);
      if data[a + i] != data[b + i] { return; }
      i := i + 1;
    }
    MatchLenStep(data, a + i, b + i, Cap(limit) - i);
  }

  function Word(x: nat): nat { x % 0x1_0000_0000 }

  // `stbiw__zhash`, in 32-bit arithmetic.
  function Zhash(data: seq<byte>, i: nat): nat
    requires i + 3 <= |data|
  {
    var hash := data[i] + Shl(data[i + 1], 8) + Shl(data[i + 2], 16);
    var hash := BitXor(hash, Word(Shl(hash, 3)));
    var hash := Word(hash + Shr(hash, 5));
    var hash := BitXor(hash, Word(Shl(hash, 4)));
    var hash := Word(hash + Shr(hash, 17));
    var hash := BitXor(hash, Word(Shl(hash, 25)));
    Word(hash + Shr(hash, 6))
  }

  function Bucket(data: seq<byte>, i: nat): (h: nat)
    requires i + 3 <= |data|
    ensures h < ZHASH
  {
    assert Pow2(14) == 16384;
    AndMask(Zhash(data, i), 14);
    BitAnd(Zhash(data, i), ZHASH - 1)
  }

  // Positions in the list are behind `i`.
  ghost predicate Behind(list: seq<nat>, i: nat) {
    forall k :: 0 <= k < |list| ==> list[k] < i
  }

  ghost predicate Usable(data: seq<byte>, i: nat, best: nat, loc: Option<nat>) {
    loc.Some? ==> loc.value < i && i - loc.value <= 32767 && 3 <= best <= 258 && i + best <= |data| &&
                  best == MatchLen(data, loc.value, i, Cap(|data| - i))
  }

  // Nothing in the list and the window matches longer.
  ghost predicate Longest(data: seq<byte>, i: nat, hlist: seq<nat>, best: nat, loc: Option<nat>)
    requires i <= |data| && Behind(hlist, i)
  {
    forall q :: q in hlist && q > i - 32768 ==>
      MatchLen(data, q, i, Cap(|data| - i)) < (if loc.Some? then best + 1 else 3)
  }

  // The longest match of at least three bytes in the window, the latest of equals.
  method FindMatch(data: seq<byte>, i: nat, hlist: seq<nat>) returns (best: nat, bestloc: Option<nat>)
    requires i + 3 < |data| && Behind(hlist, i)
    ensures Usable(data, i, best, bestloc)
    ensures Longest(data, i, hlist, best, bestloc)
  {
    hide MatchLen;
    best, bestloc := 3, None;
    for j := 0 to |hlist|
      invariant Usable(data, i, best, bestloc) && best >= 3 && (bestloc == None ==> best == 3)
      invariant Longest(data, i, hlist[..j], best, bestloc)
    {
      assert hlist[..j + 1] == hlist[..j] + [hlist[j]];
      if hlist[j] > i - 32768 {
        var d := Countm(data, hlist[j], i, |data| - i);
        if d >= best {
          best, bestloc := d, Some(hlist[j]);
        }
      }
    }
    assert hlist[..|hlist|] == hlist;
  }

  // "Lazy matching": is there a longer match one byte on?
  method BetterNext(data: seq<byte>, i: nat, hlist: seq<nat>, best: nat) returns (better: bool)
    requires i + 3 < |data| && Behind(hlist, i + 1)
    ensures better <==> exists q :: q in hlist && LongerNext(data, i, q, best)
  {
    hide LongerNext;
    better := false;
    for j := 0 to |hlist|
      invariant forall q :: q in hlist[..j] ==> !LongerNext(data, i, q, best)
    {
      assert hlist[..j + 1] == hlist[..j] + [hlist[j]];
      var e := LongerAt(data, i, hlist[j], best);
      if e { return true; }
    }
    assert hlist[..|hlist|] == hlist;
  }

  ghost predicate LongerNext(data: seq<byte>, i: nat, q: nat, best: nat)
    requires i + 3 < |data| && q < i + 1
  {
    q > i - 32767 && MatchLen(data, q, i + 1, Cap(|data| - i - 1)) > best
  }

  method LongerAt(data: seq<byte>, i: nat, q: nat, best: nat) returns (longer: bool)
    requires i + 3 < |data| && q < i + 1
    ensures longer <==> LongerNext(data, i, q, best)
  {
    longer := false;
    if q > i - 32767 {
      var e := Countm(data, q, i + 1, |data| - i - 1);
      longer := e > best;
    }
  }

  // ----- writing

  ghost predicate Begun(w: ZWriter)
    reads w
  {
    w.Valid() && |w.out| >= 2 && w.out[..2] == [0x78, 0x5e] &&
    |w.Written()| >= 19 && w.Written()[16..19] == [true, true, false]
  }

  method LengthIndex(best: nat) returns (j: nat)
    requires 3 <= best <= 258
    ensures j < 29 && LENGTHC[j] <= best < LENGTHC[j + 1]
  {
    j := 0;
    while best > LENGTHC[j + 1] - 1
      invariant j < 29 && LENGTHC[j] <= best
      decreases 29 - j
    {
      j := j + 1;
    }
  }

  method DistIndex(d: nat) returns (j: nat)
    requires 1 <= d <= 32767
    ensures j < 30 && DISTC[j] <= d < DISTC[j + 1]
  {
    j := 0;
    while d > DISTC[j + 1] - 1
      invariant j < 30 && DISTC[j] <= d
      decreases 30 - j
    {
      j := j + 1;
    }
  }

  method EmitLiteral(w: ZWriter, ghost out: seq<byte>, z: byte)
    requires Begun(w) && Decodes(19, w.Written(), out)
    modifies w
    ensures Begun(w) && Decodes(19, w.Written(), out + [z])
  {
    hide Decodes, Codeword, FixedLengths;
    LiteralDecodes(19, w.Written(), out, z);
    w.Huff(z);
  }

  method EmitMatch(w: ZWriter, ghost out: seq<byte>, best: nat, d: nat)
    requires Begun(w) && Decodes(19, w.Written(), out)
    requires 3 <= best <= 258 && 1 <= d <= 32767 && d <= |out|
    modifies w
    ensures Begun(w) && Decodes(19, w.Written(), Copy(out, d, best))
  {
    hide Decodes, Codeword, FixedLengths, FixedDistances, Copy, Bits, Pow2, ZWriter.Written;
    ghost var bits := w.Written();
    var j := LengthIndex(best);
    LengthTable(j);
    var k := DistIndex(d);
    DistTable(k);
    EmitFields(w, best, d, j, k);
    MatchDecodes(19, bits, out, best, d, j, k);
  }

  method EmitFields(w: ZWriter, best: nat, d: nat, j: nat, k: nat)
    requires Begun(w) && FitsMatch(best, d, j, k)
    modifies w
    ensures Begun(w) && w.Written() == old(w.Written()) + MatchBits(best, d, j, k)
  {
    hide Codeword, FixedLengths, FixedDistances, LengthBase, LengthExtra, DistBase, DistExtra, Pow2, Bits, ZWriter.Written, ZWriter.Valid, Begun;
    EmitHuff(w, 257 + j);
    EmitExtra(w, best - LengthBase(j), LengthExtra(j));
    EmitDistance(w, k);
    EmitExtra(w, d - DistBase(k), DistExtra(k));
  }

  method EmitHuff(w: ZWriter, n: nat)
    requires Begun(w) && n < 288
    modifies w
    ensures Begun(w) && w.Written() == old(w.Written()) + Codeword(FixedLengths(), n)
  {
    hide Codeword, FixedLengths, ZWriter.Written, ZWriter.Valid;
    w.Huff(n);
  }

  method EmitDistance(w: ZWriter, k: nat)
    requires Begun(w) && k < 32
    modifies w
    ensures Begun(w) && w.Written() == old(w.Written()) + Codeword(FixedDistances(), k)
  {
    hide Codeword, FixedDistances, ZWriter.Written, ZWriter.Valid;
    w.HuffDistance(k);
  }

  method EmitExtra(w: ZWriter, v: nat, n: nat)
    requires Begun(w) && v < Pow2(n)
    modifies w
    ensures Begun(w) && w.Written() == old(w.Written()) + Bits(v, n)
  {
    hide Pow2, ZWriter.Written;
    if n != 0 { w.Add(v, n); } else { assert Bits(v, 0) == []; }
  }

  // ----- the main loop

  ghost predicate TableBehind(table: array<seq<nat>>, i: nat)
    requires table.Length == ZHASH
    reads table
  {
    forall h :: 0 <= h < ZHASH ==> Behind(table[h], i)
  }

  // When the entry is too long, deletes its older half; then adds position `i`.
  method Insert(table: array<seq<nat>>, h: nat, i: nat, quality: int)
    requires table.Length == ZHASH && h < ZHASH && TableBehind(table, i) && quality >= 5
    modifies table
    ensures TableBehind(table, i + 1)
    ensures i in table[h] && |table[h]| <= if old(|table[h]|) == 2 * quality then quality + 1 else old(|table[h]|) + 1
  {
    if |table[h]| == 2 * quality {
      table[h] := table[h][quality..];
    }
    table[h] := table[h] + [i];
  }

  method Search(data: seq<byte>, i: nat, quality: int, table: array<seq<nat>>) returns (best: nat, bestloc: Option<nat>)
    requires i + 3 < |data| && table.Length == ZHASH && TableBehind(table, i) && quality >= 5
    modifies table
    ensures TableBehind(table, i + 1) && Usable(data, i, best, bestloc)
  {
    hide Bucket, MatchLen;
    var h := Bucket(data, i);
    best, bestloc := FindMatch(data, i, table[h]);
    Insert(table, h, i, quality);
    if bestloc.Some? {
      var better := BetterNext(data, i, table[Bucket(data, i + 1)], best);
      if better { bestloc := None; }
    }
  }

  // One turn of the loop: a literal or a back-reference for the data at `i`.
  method Step(data: seq<byte>, i: nat, quality: int, table: array<seq<nat>>, w: ZWriter) returns (i': nat)
    requires i + 3 < |data| && table.Length == ZHASH && TableBehind(table, i) && quality >= 5
    requires Begun(w) && Decodes(19, w.Written(), data[..i])
    modifies table, w
    ensures i < i' <= |data| && TableBehind(table, i')
    ensures Begun(w) && Decodes(19, w.Written(), data[..i'])
  {
    hide Decodes, ZWriter.Written, MatchLen;
    var best, bestloc := Search(data, i, quality, table);
    if bestloc.Some? {
      var d := i - bestloc.value;
      MatchLenEqual(data, bestloc.value, i, Cap(|data| - i));
      CopyIsData(data, i, d, best);
      EmitMatch(w, data[..i], best, d);
      i' := i + best;
    } else {
      EmitLiteral(w, data[..i], data[i]);
      assert data[..i] + [data[i]] == data[..i + 1];
      i' := i + 1;
    }
  }

  // The fixed-Huffman stream, before its trailer: one final block for all of `data`, which ends in the last byte.
  ghost predicate Stands(out: seq<byte>, data: seq<byte>, end: nat) {
    |out| >= 2 && out[..2] == [0x78, 0x5e] && end <= 8 * |out| &&
    forall t: seq<bool>, limit: nat :: |data| <= limit ==>
      Blocks(BytesBits(out) + t, 16, [], limit) == Some(Parsed(data, end))
  }

  method CompressFixed(data: seq<byte>, quality: int) returns (out: seq<byte>, ghost end: nat)
    requires quality >= 5
    ensures Stands(out, data, end)
  {
    hide Decodes, ZWriter.Written;
    var w := Begin();
    var table := new seq<nat>[ZHASH](_ => []);
    var i := 0;
    while i < |data| - 3
      invariant 0 <= i <= |data| && TableBehind(table, i)
      invariant Begun(w) && Decodes(19, w.Written(), data[..i])
      decreases |data| - i
    {
      i := Step(data, i, quality, table, w);
    }
    while i < |data|
      invariant 0 <= i <= |data|
      invariant Begun(w) && Decodes(19, w.Written(), data[..i])
      decreases |data| - i
    {
      EmitLiteral(w, data[..i], data[i]);
      assert data[..i] + [data[i]] == data[..i + 1];
      i := i + 1;
    }
    assert data[..i] == data;
    out, end := Finish(w, data);
  }

  // The two header bytes, then BFINAL = 1 and BTYPE = 1.
  method Begin() returns (w: ZWriter)
    ensures fresh(w) && Begun(w) && Decodes(19, w.Written(), [])
  {
    w := new ZWriter();
    w.PutByte(0x78);
    w.PutByte(0x5e);
    Pow2Small();
    w.Add(1, 1);
    w.Add(1, 2);
    DecodesNothing(w.Written());
  }

  // End of block, then zero bits up to a byte boundary.
  method Finish(w: ZWriter, ghost data: seq<byte>) returns (out: seq<byte>, ghost end: nat)
    requires Begun(w) && Decodes(19, w.Written(), data)
    modifies w
    ensures Stands(out, data, end)
  {
    hide Decodes, Codeword, FixedLengths, Symbols, Blocks, BytesBits, Bits;
    ghost var bits := w.Written();
    w.Huff(256);
    ghost var all, pad := w.Written(), [];
    end := |all|;
    while w.bitcount != 0
      invariant Begun(w) && w.Written() == all + pad
      decreases if w.bitcount == 0 then 0 else 8 - w.bitcount
    {
      w.Add(0, 1);
      pad := pad + Bits(0, 1);
    }
    out := w.out;
    assert w.Written() == BytesBits(out);
    FinishStands(bits, pad, out, data);
  }

  lemma FinishStands(bits: seq<bool>, pad: seq<bool>, out: seq<byte>, data: seq<byte>)
    requires BytesBits(out) == bits + Codeword(FixedLengths(), 256) + pad && Decodes(19, bits, data)
    requires |out| >= 2 && out[..2] == [0x78, 0x5e] && |bits| >= 19 && bits[16..19] == [true, true, false]
    ensures Stands(out, data, |bits + Codeword(FixedLengths(), 256)|)
  {
    hide Decodes, Codeword, FixedLengths, Symbols, Blocks, BytesBits;
    var all := bits + Codeword(FixedLengths(), 256);
    forall t: seq<bool>, limit: nat | |data| <= limit
      ensures Blocks(BytesBits(out) + t, 16, [], limit) == Some(Parsed(data, |all|))
    {
      var s := BytesBits(out) + t;
      assert s == all + (pad + t);
      assert s[16..19] == bits[16..19];
      EndDecodes(19, bits, data, pad + t, limit);
      FixedBlock(s, limit);
    }
  }

  lemma FixedBlock(s: seq<bool>, limit: nat)
    requires |s| >= 19 && s[16..19] == [true, true, false]
    ensures Blocks(s, 16, [], limit) == Symbols(FixedLengths(), FixedDistances(), s, 19, [], limit)
  {
    hide Symbols, Stored, DynamicCodes, FixedLengths, FixedDistances;
    assert s[16] && s[17] && !s[18] by {
      var h := s[16..19];
      assert h[0] && h[1] && !h[2];
    }
    assert Window(s, 17, 2) == [true, false];
    assert Nat([true, false]) == 1 by {
      assert [true, false][1..] == [false] && [false][1..] == [];
    }
  }

  // ----- the stored fallback

  // Number of stored blocks for `n` bytes.
  function BlockCount(n: nat): nat { (n + 32766) / 32767 }

  // The stored blocks written so far stand for `d`, and decoding goes on after them.
  ghost predicate StoredSoFar(out: seq<byte>, d: seq<byte>) {
    forall t: seq<bool>, limit: nat :: |d| <= limit ==>
      Blocks(BytesBits(out) + t, 16, [], limit) == Blocks(BytesBits(out) + t, 8 * |out|, d, limit)
  }

  function StoredBlock(chunk: seq<byte>, final: bool): seq<byte>
    requires |chunk| <= 32767
  {
    var n := |chunk|;
    [if final then 1 else 0, n % 256, n / 256, (0xffff - n) % 256, (0xffff - n) / 256] + chunk
  }

  // Replaces the compressed data, after the two header bytes, by stored blocks of at most 32767 bytes.
  method StoreUncompressed(out0: seq<byte>, data: seq<byte>) returns (out: seq<byte>)
    requires |out0| >= 2 && out0[..2] == [0x78, 0x5e]
    ensures |out| == 2 + 5 * BlockCount(|data|) + |data| && out[..2] == out0[..2]
    ensures data != [] ==> Stands(out, data, 8 * |out|)
  {
    hide StoredSoFar, Stands, StoredBlock;
    out := out0[..2];
    FirstStored(out);
    var j := 0;
    while j < |data|
      invariant 0 <= j <= |data| && |out| >= 2 && out[..2] == out0[..2]
      invariant |out| + 5 * BlockCount(|data| - j) == 2 + 5 * BlockCount(|data|) + j
      invariant if j < |data| || data == [] then StoredSoFar(out, data[..j]) else Stands(out, data, 8 * |out|)
      decreases |data| - j
    {
      var blocklen := |data| - j;
      if blocklen > 32767 { blocklen := 32767; }
      var chunk := data[j..j + blocklen];
      NextCount(|data| - j);
      assert data[..j] + chunk == data[..j + blocklen];
      StoreStep(out, data[..j], chunk, |data| - j == blocklen);
      out := AppendStored(out, chunk, |data| - j == blocklen);
      j := j + blocklen;
      if j == |data| { assert data[..j] == data; }
    }
  }

  method AppendStored(out0: seq<byte>, chunk: seq<byte>, final: bool) returns (out: seq<byte>)
    requires |chunk| <= 32767
    ensures out == out0 + StoredBlock(chunk, final) && |StoredBlock(chunk, final)| == 5 + |chunk|
  {
    hide BitAnd, Shr;
    var blocklen := |chunk|;
    LowBytes(blocklen);
    LowBytes(Not(blocklen));
    HighPart(0xffff - blocklen);
    out := out0 + [if final then 1 else 0];
    out := out + [BitAnd(blocklen, 255)];
    out := out + [BitAnd(Shr(blocklen, 8), 255)];
    out := out + [BitAnd(Not(blocklen), 255)];
    out := out + [BitAnd(Shr(Not(blocklen), 8), 255)];
    out := out + chunk;
  }

  // C's `~x` for 0 <= x < 2^31, kept to 32 bits.
  function Not(x: nat): nat
    requires x <= 0xFFFF_FFFF
  {
    0xFFFF_FFFF - x
  }

  lemma NextCount(n: nat)
    requires n > 0
    ensures BlockCount(n) == 1 + BlockCount(n - Least(n, 32767))
  {
  }

  lemma LowBytes(x: nat)
    ensures BitAnd(x, 255) == x % 256 && BitAnd(Shr(x, 8), 255) == (x / 256) % 256
  {
    hide BitAnd;
    Pow2Small();
    AndMask(x, 8);
    AndMask(Shr(x, 8), 8);
  }

  lemma HighPart(m: nat)
    requires m <= 0xffff
    ensures (0xFFFF_0000 + m) % 256 == m % 256 && ((0xFFFF_0000 + m) / 256) % 256 == m / 256
  {
  }

  lemma FirstStored(out: seq<byte>)
    requires |out| == 2
    ensures StoredSoFar(out, [])
  {
  }

  // The first byte of a stored block holds the final bit and a zero type.
  lemma StoredType(s: seq<bool>, p: nat, f: nat)
    requires StreamByte(s, p) == f < 2
    ensures Nat(Window(s, p, 1)) == f && Nat(Window(s, p + 1, 2)) == 0
  {
    Pow2Small();
    WindowConcat(s, p, 1, 7);
    NatSplit(Window(s, p, 8), 1);
    WindowConcat(s, p + 1, 2, 5);
    NatSplit(Window(s, p + 1, 7), 2);
  }

  lemma StoredReads(out: seq<byte>, d: seq<byte>, chunk: seq<byte>, final: bool, t: seq<bool>, limit: nat)
    requires |chunk| <= 32767 && |d + chunk| <= limit
    ensures var o := out + StoredBlock(chunk, final);
            Block(BytesBits(o) + t, 8 * |out|, d, limit) == Some(Parsed(d + chunk, 8 * |o|))
    ensures Nat(Window(BytesBits(out + StoredBlock(chunk, final)) + t, 8 * |out|, 1)) == if final then 1 else 0
  {
    hide Nat, Window, StreamByte, BytesBits;
    var o, k, n := out + StoredBlock(chunk, final), |out|, |chunk|;
    var s := BytesBits(o) + t;
    ByteOfStream(o, t, k);
    ByteOfStream(o, t, k + 1);
    ByteOfStream(o, t, k + 2);
    ByteOfStream(o, t, k + 3);
    ByteOfStream(o, t, k + 4);
    StoredType(s, 8 * k, if final then 1 else 0);
    assert Align(8 * k + 3) == 8 * k + 8;
    TwoBytes(s, 8 * k + 8);
    TwoBytes(s, 8 * k + 24);
    forall i | 0 <= i < n
      ensures StreamByte(s, 8 * k + 40 + 8 * i) == chunk[i]
    {
      ByteOfStream(o, t, k + 5 + i);
    }
    assert StreamBytes(s, 8 * k + 40, n) == chunk;
  }

  lemma StoreStep(out: seq<byte>, d: seq<byte>, chunk: seq<byte>, final: bool)
    requires |out| >= 2 && StoredSoFar(out, d) && |chunk| <= 32767
    ensures !final ==> StoredSoFar(out + StoredBlock(chunk, final), d + chunk)
    ensures final && out[..2] == [0x78, 0x5e] ==>
      Stands(out + StoredBlock(chunk, final), d + chunk, 8 * |out + StoredBlock(chunk, final)|)
  {
    hide Blocks, Block, StoredBlock;
    var b := StoredBlock(chunk, final);
    var o := out + b;
    BytesBitsConcat(out, b);
    forall t: seq<bool>, limit: nat | |d + chunk| <= limit
      ensures Blocks(BytesBits(o) + t, 16, [], limit)
           == if final then Some(Parsed(d + chunk, 8 * |o|)) else Blocks(BytesBits(o) + t, 8 * |o|, d + chunk, limit)
    {
      assert BytesBits(out) + (BytesBits(b) + t) == BytesBits(o) + t;
      StoredReads(out, d, chunk, final, t, limit);
      BlocksStep(BytesBits(o) + t, 8 * |out|, d, limit, if final then 1 else 0);
    }
  }

  // ----- the whole compressor

  // `out` is a zlib stream for `data`: within any output limit that has room it inflates to `data`, its last
  // block ends before the four bytes of the Adler-32 trailer.
  ghost predicate IsZlib(out: seq<byte>, data: seq<byte>) {
    |out| >= 6 && out[|out| - 4..] == Adler.Trailer(data) &&
    exists end: nat :: EndsAt(out, data, end)
  }

  ghost predicate EndsAt(out: seq<byte>, data: seq<byte>, end: nat) {
    end + 32 <= 8 * |out| &&
    forall limit: nat :: |data| <= limit ==> Inflate(out, true, limit) == Some(Parsed(data, end))
  }

  method Compress(data: seq<byte>, quality: int) returns (out: seq<byte>)
    ensures data != [] ==> IsZlib(out, data)
    ensures data == [] ==> out == [0x78, 0x5e] + Adler.Trailer(data)
    ensures |out| <= |data| + 6 + 5 * BlockCount(|data|)
  {
    hide Stands, BitAnd, Shr, Adler.SumA, Adler.SumB;
    ghost var end;
    out, end := CompressFixed(data, if quality < 5 then 5 else quality);
    StandsFacts(out, data, end);
    if |out| > |data| + 2 + BlockCount(|data|) * 5 {
      var stored := StoreUncompressed(out, data);
      // The copy into `out` needs no room beyond what the compressed data took.
      assert |stored| < |out|;
      out, end := stored, 8 * |stored|;
      if data == [] { assert out == out[..2] == [0x78, 0x5e]; }
    }
    var s1, s2 := Adler.Adler32(data);
    TrailerBytes(s1, s2);
    ghost var body := out;
    out := out + [BitAnd(Shr(s2, 8), 255)];
    out := out + [BitAnd(s2, 255)];
    out := out + [BitAnd(Shr(s1, 8), 255)];
    out := out + [BitAnd(s1, 255)];
    assert out == body + Adler.Trailer(data);
    if data != [] { AppendTrailer(body, data, end); }
  }

  lemma TrailerBytes(s1: nat, s2: nat)
    requires s1 < 65521 && s2 < 65521
    ensures BitAnd(Shr(s2, 8), 255) == s2 / 256 && BitAnd(s2, 255) == s2 % 256
    ensures BitAnd(Shr(s1, 8), 255) == s1 / 256 && BitAnd(s1, 255) == s1 % 256
  {
    hide BitAnd, Shr;
    LowBytes(s1);
    LowBytes(s2);
  }

  lemma StandsFacts(out: seq<byte>, data: seq<byte>, end: nat)
    requires Stands(out, data, end)
    ensures |out| > 2 && out[..2] == [0x78, 0x5e]
  {
    hide Blocks;
    assert Blocks(BytesBits(out) + [], 16, [], |data|) == Some(Parsed(data, end));
  }

  lemma AppendTrailer(body: seq<byte>, data: seq<byte>, end: nat)
    requires Stands(body, data, end)
    ensures IsZlib(body + Adler.Trailer(data), data)
  {
    hide Blocks, Adler.Trailer;
    var t := Adler.Trailer(data);
    StandsFacts(body, data, end);
    BytesBitsConcat(body, t);
    assert (body + t)[0] == body[..2][0] && (body + t)[1] == body[..2][1];
    HeaderValues();
    assert (body + t)[|body + t| - 4..] == t;
    forall limit: nat | |data| <= limit
      ensures Inflate(body + t, true, limit) == Some(Parsed(data, end))
    {
      assert Blocks(BytesBits(body) + BytesBits(t), 16, [], limit) == Some(Parsed(data, end));
    }
    assert EndsAt(body + t, data, end);
  }

  lemma HeaderValues()
    ensures (0x78 * 256 + 0x5e) % 31 == 0 && BitAnd(0x5e, 32) == 0 && BitAnd(0x78, 15) == 8
  {
    assert BitAnd(0x5e, 32) == 0;
    assert BitAnd(0x78, 15) == 8;
  }

  // With no data the fallback writes no block at all, and what follows the header is no stream.
  lemma EmptyIsNoStream(limit: nat)
    ensures Inflate([0x78, 0x5e] + Adler.Trailer([]), true, limit) == None
  {
    var d: seq<byte> := [0x78, 0x5e] + Adler.Trailer([]);
    assert Adler.SumA([]) == 1 && Adler.SumB([]) == 0;
    assert d == [0x78, 0x5e, 0, 0, 0, 1];
    var s := BytesBits(d);
    assert s + [] == s;
    ByteOfStream(d, [], 2);
    ByteOfStream(d, [], 3);
    ByteOfStream(d, [], 4);
    ByteOfStream(d, [], 5);
    StoredType(s, 16, 0);
    TwoBytes(s, 24);
    TwoBytes(s, 40);
    ZeroWindow(s, 48, 8);
  }
}
