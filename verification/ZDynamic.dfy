// Blocks with codes of their own (RFC 1951 section 3.2.7), written out bit by bit, and that inflating reads back what was
// written. The writer follows the RFC and shares no table with the inflater.

module ZDynamic {
  import opened BitStream
  import opened Huffman
  import opened Deflate
  import opened Guarded
  import opened Wrappers

  lemma CodewordRead(lens: seq<nat>, s: seq<bool>, p: nat, n: nat)
    requires Realizable(lens) && n < |lens| && lens[n] > 0 && HasBits(s, p, Codeword(lens, n))
    ensures Symbol(lens, s, p) == Some(n) && |Codeword(lens, n)| == lens[n]
  {
    hide Codeword, Realizable;
    WindowInside(s, p, lens[n]);
    SymbolIs(lens, s, p, n);
  }

  // ----- the lengths of the two codes

  // One length, the last one again, or zeros.
  datatype Item = One(len: nat) | Again(n: nat) | Zeros(n: nat) | ManyZeros(n: nat)

  ghost predicate IsItem(it: Item) {
    match it
    case One(len) => len <= 15
    case Again(n) => 3 <= n <= 6
    case Zeros(n) => 3 <= n <= 10
    case ManyZeros(n) => 11 <= n <= 138
  }

  function SymbolOf(it: Item): nat {
    match it case One(len) => len case Again(_) => 16 case Zeros(_) => 17 case ManyZeros(_) => 18
  }

  function RunBits(it: Item): seq<bool> {
    match it
    case One(_) => []
    case Again(n) => if n >= 3 then Bits(n - 3, 2) else []
    case Zeros(n) => if n >= 3 then Bits(n - 3, 3) else []
    case ManyZeros(n) => if n >= 11 then Bits(n - 11, 7) else []
  }

  // The lengths so far and those `it` adds.
  function Added(lens: seq<nat>, it: Item): seq<nat> {
    match it
    case One(len) => lens + [len]
    case Again(n) => lens + Repeat(if lens == [] then 0 else lens[|lens| - 1], n)
    case Zeros(n) => lens + Repeat(0, n)
    case ManyZeros(n) => lens + Repeat(0, n)
  }

  function AllAdded(lens: seq<nat>, items: seq<Item>): (r: seq<nat>)
    ensures lens <= r
    decreases items
  {
    if items == [] then lens else AllAdded(Added(lens, items[0]), items[1..])
  }

  // The items say something, starting with a length.
  ghost predicate AreItems(items: seq<Item>, first: bool) {
    (forall i :: 0 <= i < |items| ==> IsItem(items[i])) && (first && items != [] ==> !items[0].Again?)
  }

  ghost predicate Written(cl: seq<nat>, items: seq<Item>) {
    |cl| == 19 && forall i :: 0 <= i < |items| ==> SymbolOf(items[i]) < 19 && cl[SymbolOf(items[i])] > 0
  }

  ghost function ItemBits(cl: seq<nat>, it: Item): seq<bool>
    requires |cl| == 19 && SymbolOf(it) < 19
  {
    Codeword(cl, SymbolOf(it)) + RunBits(it)
  }

  ghost function ItemsBits(cl: seq<nat>, items: seq<Item>): seq<bool>
    requires Written(cl, items)
  {
    if items == [] then [] else ItemBits(cl, items[0]) + ItemsBits(cl, items[1..])
  }

  // One symbol of the lengths.
  lemma LengthsStep(cl: seq<nat>, s: seq<bool>, p: nat, acc: seq<nat>, total: nat, c: nat)
    requires |acc| < total && IsLengths(acc) && Symbol(cl, s, p) == Some(c) && c < 19
    ensures var r, q := ReadLengths(cl, s, p, acc, total), p + cl[c];
      match c
      case 16 => acc == [] || (var n := Nat(Window(s, q, 2)) + 3; if total - |acc| < n then r == None else
        r == ReadLengths(cl, s, q + 2, acc + Repeat(acc[|acc| - 1], n), total))
      case 17 => (var n := Nat(Window(s, q, 3)) + 3; if total - |acc| < n then r == None else
        r == ReadLengths(cl, s, q + 3, acc + Repeat(0, n), total))
      case 18 => (var n := Nat(Window(s, q, 7)) + 11; if total - |acc| < n then r == None else
        r == ReadLengths(cl, s, q + 7, acc + Repeat(0, n), total))
      case _ => r == ReadLengths(cl, s, q, acc + [c], total)
  {
    hide Symbol, Nat, Window;
  }

  lemma AddedLengths(acc: seq<nat>, it: Item)
    requires IsLengths(acc) && IsItem(it) && (it.Again? ==> acc != [])
    ensures IsLengths(Added(acc, it))
  {
  }

  lemma ItemRead(cl: seq<nat>, it: Item, s: seq<bool>, p: nat, acc: seq<nat>, total: nat)
    requires Realizable(cl) && |cl| == 19 && IsItem(it) && cl[SymbolOf(it)] > 0 && (it.Again? ==> acc != [])
    requires HasBits(s, p, ItemBits(cl, it)) && IsLengths(acc) && |Added(acc, it)| <= total
    ensures IsLengths(Added(acc, it))
    ensures ReadLengths(cl, s, p, acc, total) == ReadLengths(cl, s, p + |ItemBits(cl, it)|, Added(acc, it), total)
  {
    hide Realizable, Codeword, Symbol, HasBits, Nat, Window, Bits, ReadLengths, IsLengths, Pow2;
    AddedLengths(acc, it);
    var w := Codeword(cl, SymbolOf(it));
    HasBitsParts(s, p, w, RunBits(it));
    CodewordRead(cl, s, p, SymbolOf(it));
    match it
    case One(len) => LengthsStep(cl, s, p, acc, total, len);
    case Again(n) => RunRead(cl, s, p, acc, total, 16, n, 2);
    case Zeros(n) => RunRead(cl, s, p, acc, total, 17, n, 3);
    case ManyZeros(n) => RunRead(cl, s, p, acc, total, 18, n, 7);
  }

  // A run of `n`, written in `bits` bits.
  lemma RunRead(cl: seq<nat>, s: seq<bool>, p: nat, acc: seq<nat>, total: nat, c: nat, n: nat, bits: nat)
    requires |cl| == 19 && IsLengths(acc) && Symbol(cl, s, p) == Some(c) && |acc| + n <= total
    requires match c case 16 => bits == 2 && 3 <= n <= 6 && acc != [] case 17 => bits == 3 && 3 <= n <= 10
      case 18 => bits == 7 && 11 <= n <= 138 case _ => false
    requires HasBits(s, p + cl[c], Bits(n - (if c == 18 then 11 else 3), bits))
    ensures var next := acc + Repeat(if c == 16 then acc[|acc| - 1] else 0, n);
      IsLengths(next) && ReadLengths(cl, s, p, acc, total) == ReadLengths(cl, s, p + cl[c] + bits, next, total)
  {
    hide Symbol, HasBits, Nat, Window, Bits, ReadLengths;
    Pow2Small();
    NumberRead(s, p + cl[c], n - (if c == 18 then 11 else 3), bits);
    LengthsStep(cl, s, p, acc, total, c);
  }

  lemma {:induction false} ItemsRead(cl: seq<nat>, items: seq<Item>, s: seq<bool>, p: nat, acc: seq<nat>, total: nat)
    requires Realizable(cl) && Written(cl, items) && AreItems(items, acc == []) && IsLengths(acc)
    requires HasBits(s, p, ItemsBits(cl, items)) && |AllAdded(acc, items)| == total
    ensures ReadLengths(cl, s, p, acc, total) == Some(Lengths(AllAdded(acc, items), p + |ItemsBits(cl, items)|))
    decreases items
  {
    hide Realizable, ItemBits, HasBits;
    if items != [] {
      var it, rest := items[0], items[1..];
      assert IsItem(it);
      HasBitsParts(s, p, ItemBits(cl, it), ItemsBits(cl, rest));
      ItemRead(cl, it, s, p, acc, total);
      hide ReadLengths;
      ItemsRead(cl, rest, s, p + |ItemBits(cl, it)|, Added(acc, it), total);
    }
  }

  // ----- the lengths of the code they are written in

  // Its symbols in the order their lengths stand: the repeats, zero, and then outwards from 8.
  function Ordered(k: nat): nat {
    if k == 0 then 16 else if k == 1 then 17 else if k == 2 then 18 else if k == 3 then 0
    else if k % 2 == 0 then 8 + (k - 4) / 2
    else if k <= 19 then 8 - (k - 3) / 2 else 0
  }

  ghost function OrderedBits(cl: seq<nat>, n: nat): (b: seq<bool>)
    requires |cl| == 19 && n <= 19
    ensures |b| == 3 * n
  {
    if n == 0 then [] else OrderedBits(cl, n - 1) + Bits(cl[Ordered(n - 1)], 3)
  }

  // Field `k` is the length of the symbol that is number `k` in that order; the others have none.
  lemma {:induction false} FieldIs(s: seq<bool>, p: nat, n: nat, k: nat)
    requires n <= 19 && k < 19
    ensures CodeLengthLengths(s, p, n)[Ordered(k)] == if k < n then Nat(Window(s, p + 3 * k, 3)) else 0
  {
    hide Nat, Window, Ordered;
    OrderedIs(k);
    if n > 0 {
      OrderedIs(n - 1);
      if k != n - 1 { Distinct(k, n - 1); }
      FieldIs(s, p, n - 1, k);
    }
  }

  lemma OrderedIs(k: nat)
    requires k < 19
    ensures Ordered(k) < 19 && LENGTH_DEZIGZAG[k] == Ordered(k)
  {
  }

  lemma Distinct(i: nat, j: nat)
    requires i < 19 && j < 19 && i != j
    ensures Ordered(i) != Ordered(j)
  {
  }

  lemma {:induction false} FieldBits(cl: seq<nat>, s: seq<bool>, p: nat, n: nat, k: nat)
    requires |cl| == 19 && k < n <= 19 && HasBits(s, p, OrderedBits(cl, n))
    ensures HasBits(s, p + 3 * k, Bits(cl[Ordered(k)], 3))
  {
    HasBitsParts(s, p, OrderedBits(cl, n - 1), Bits(cl[Ordered(n - 1)], 3));
    hide HasBits;
    if k < n - 1 { FieldBits(cl, s, p, n - 1, k); }
  }

  // Every symbol stands somewhere in the order.
  lemma PlaceOf(c: nat) returns (k: nat)
    requires c < 19
    ensures k < 19 && Ordered(k) == c
  {
    k := if c == 0 then 3 else if c >= 16 then c - 16 else if c >= 8 then 2 * c - 12 else 19 - 2 * c;
  }

  lemma CodeLengthsRead(cl: seq<nat>, n: nat, s: seq<bool>, p: nat)
    requires |cl| == 19 && n <= 19 && HasBits(s, p, OrderedBits(cl, n))
    requires forall c :: 0 <= c < 19 ==> cl[c] <= 7
    requires forall k :: n <= k < 19 ==> cl[Ordered(k)] == 0
    ensures CodeLengthLengths(s, p, n) == cl
  {
    hide Nat, Window, HasBits, OrderedBits, CodeLengthLengths, Ordered, Bits;
    var r := CodeLengthLengths(s, p, n);
    Pow2Small();
    forall c | 0 <= c < 19
      ensures r[c] == cl[c]
    {
      var k := PlaceOf(c);
      FieldIs(s, p, n, k);
      if k < n {
        FieldBits(cl, s, p, n, k);
        NumberRead(s, p + 3 * k, cl[c], 3);
      }
    }
  }

  // ----- the header

  // Two codes, and how their lengths are written.
  datatype Header = Header(ll: seq<nat>, dl: seq<nat>, cl: seq<nat>, shown: nat, items: seq<Item>) {
    ghost predicate Valid() {
      257 <= |ll| <= 288 && 1 <= |dl| <= 32 && |cl| == 19 && 4 <= shown <= 19 && Realizable(cl) &&
      (forall c :: 0 <= c < 19 ==> cl[c] <= 7) && (forall k :: shown <= k < 19 ==> cl[Ordered(k)] == 0) &&
      AreItems(items, true) && Written(cl, items) && AllAdded([], items) == ll + dl
    }

    ghost function Counts(): (b: seq<bool>)
      requires Valid()
      ensures |b| == 14
    {
      Bits(|ll| - 257, 5) + Bits(|dl| - 1, 5) + Bits(shown - 4, 4)
    }

    ghost function Bitstring(): seq<bool>
      requires Valid()
    {
      Counts() + OrderedBits(cl, shown) + ItemsBits(cl, items)
    }
  }

  lemma CountsRead(h: Header, s: seq<bool>, p: nat)
    requires h.Valid() && HasBits(s, p, h.Counts())
    ensures Nat(Window(s, p, 5)) == |h.ll| - 257 && Nat(Window(s, p + 5, 5)) == |h.dl| - 1
    ensures Nat(Window(s, p + 10, 4)) == h.shown - 4
  {
    Pow2Small();
    var a, b, c := Bits(|h.ll| - 257, 5), Bits(|h.dl| - 1, 5), Bits(h.shown - 4, 4);
    assert h.Counts() == a + b + c;
    hide Header.Valid, Header.Counts, HasBits, Bits, Nat, Window;
    HasBitsParts(s, p, a + b, c);
    HasBitsParts(s, p, a, b);
    NumberRead(s, p, |h.ll| - 257, 5);
    NumberRead(s, p + 5, |h.dl| - 1, 5);
    NumberRead(s, p + 10, h.shown - 4, 4);
  }

  // A header gives back its two codes, exactly if they are prefix codes.
  lemma HeaderRead(h: Header, s: seq<bool>, p: nat)
    requires h.Valid() && HasBits(s, p, h.Bitstring())
    ensures DynamicCodes(s, p) ==
      if Realizable(h.ll) && Realizable(h.dl) then Some(Codes(h.ll, h.dl, p + |h.Bitstring()|)) else None
  {
    hide *;
    HeaderParts(h);
    HasBitsParts(s, p, h.Counts() + OrderedBits(h.cl, h.shown), ItemsBits(h.cl, h.items));
    HasBitsParts(s, p, h.Counts(), OrderedBits(h.cl, h.shown));
    CountsRead(h, s, p);
    CodeLengthsRead(h.cl, h.shown, s, p + 14);
    ItemsRead(h.cl, h.items, s, p + 14 + 3 * h.shown, [], |h.ll| + |h.dl|);
    DynamicIs(s, p, h.ll, h.dl, h.cl, h.shown, p + |h.Bitstring()|);
  }

  lemma DynamicIs(s: seq<bool>, p: nat, ll: seq<nat>, dl: seq<nat>, cl: seq<nat>, n: nat, q: nat)
    requires Nat(Window(s, p, 5)) == |ll| - 257 && Nat(Window(s, p + 5, 5)) == |dl| - 1 && Nat(Window(s, p + 10, 4)) == n - 4
    requires 4 <= n <= 19 && CodeLengthLengths(s, p + 14, n) == cl && Realizable(cl)
    requires ReadLengths(cl, s, p + 14 + 3 * n, [], |ll| + |dl|) == Some(Lengths(ll + dl, q))
    ensures DynamicCodes(s, p) == if Realizable(ll) && Realizable(dl) then Some(Codes(ll, dl, q)) else None
  {
    hide Realizable, CodeLengthLengths, ReadLengths, Nat, Window;
    var lens := ll + dl;
    assert lens[..|ll|] == ll && lens[|ll|..] == dl;
  }

  lemma HeaderParts(h: Header)
    requires h.Valid()
    ensures |h.cl| == 19 && 4 <= h.shown <= 19 && Realizable(h.cl) && IsLengths([]) && |h.ll| >= 257 && |h.dl| >= 1
    ensures forall c :: 0 <= c < 19 ==> h.cl[c] <= 7
    ensures forall k :: h.shown <= k < 19 ==> h.cl[Ordered(k)] == 0
    ensures AreItems(h.items, true) && Written(h.cl, h.items) && AllAdded([], h.items) == h.ll + h.dl
    ensures |h.Counts()| == 14 && |OrderedBits(h.cl, h.shown)| == 3 * h.shown
    ensures h.Bitstring() == h.Counts() + OrderedBits(h.cl, h.shown) + ItemsBits(h.cl, h.items)
  {
    hide Realizable, Ordered;
  }

  // ----- the symbols

  // A byte, or `len` bytes from `dist` back.
  datatype Token = Literal(z: byte) | Reference(len: nat, dist: nat)

  // How often a number has to be halved until fewer than `2 * base` are left: its extra bits.
  function Halvings(v: nat, base: nat): nat
    requires base > 0
  {
    if v < 2 * base then 0 else 1 + Halvings(v / 2, base)
  }

  lemma {:induction false} Halved(v: nat, base: nat)
    requires base > 0
    ensures var e := Halvings(v, base); v / Pow2(e) < 2 * base && (e > 0 ==> base <= v / Pow2(e))
  {
    var e := Halvings(v, base);
    if v >= 2 * base {
      Halved(v / 2, base);
      HalfMod(v, Pow2(e - 1));
      if e == 1 { assert v / Pow2(1) == v / 2; }
    }
  }

  // The tables in closed form.
  lemma LengthRule(z: nat)
    requires z < 29
    ensures z == 28 ==> LengthBase(z) == 258 && LengthExtra(z) == 0
    ensures z < 28 ==> LengthExtra(z) == if z < 4 then 0 else z / 4 - 1
    ensures z < 28 ==> LengthBase(z) == 3 + (z - 4 * LengthExtra(z)) * Pow2(LengthExtra(z))
  {
    Pow2Small();
  }

  lemma DistRule(d: nat)
    requires d < 30
    ensures DistExtra(d) == if d < 2 then 0 else d / 2 - 1
    ensures DistBase(d) == 1 + (d - 2 * DistExtra(d)) * Pow2(DistExtra(d))
  {
    Pow2Small();
    assert Pow2(11) == 2048 && Pow2(12) == 4096;
  }

  // The number of extra bits, the symbol, and what the extra bits say.
  datatype Field = Field(symbol: nat, extra: nat, bits: nat)

  function LengthField(len: nat): Field
    requires 3 <= len <= 258
  {
    if len == 258 then Field(285, 0, 0)
    else
      var v := len - 3;
      var e := Halvings(v, 4);
      Field(257 + 4 * e + v / Pow2(e), e, v % Pow2(e))
  }

  function DistField(dist: nat): Field
    requires 1 <= dist <= 32768
  {
    var v := dist - 1;
    var e := Halvings(v, 2);
    Field(2 * e + v / Pow2(e), e, v % Pow2(e))
  }

  lemma HalvingsBound(v: nat, base: nat, n: nat)
    requires base > 0 && v < base * Pow2(n) && n > 0
    ensures Halvings(v, base) < n
  {
    Halved(v, base);
    var e := Halvings(v, base);
    if e >= n {
      Pow2Monotone(n, e);
      Quotient(v, Pow2(e), base, Pow2(n));
    }
  }

  lemma Quotient(v: nat, p: nat, base: nat, m: nat)
    requires 0 < m <= p && base <= v / p
    ensures v >= base * m
  {
    var q := v / p;
    assert v >= q * p by { assert v == p * q + v % p; }
    assert q * p - base * p == (q - base) * p >= 0;
    assert base * p - base * m == base * (p - m) >= 0;
  }

  // Every length and every distance has the symbol and the extra bits the tables have for it.
  lemma LengthFits(len: nat)
    requires 3 <= len <= 258
    ensures var f := LengthField(len);
      257 <= f.symbol < 286 && f.extra == LengthExtra(f.symbol - 257) && f.bits < Pow2(f.extra) &&
      LengthBase(f.symbol - 257) + f.bits == len
  {
    hide Halvings, Pow2, LengthBase, LengthExtra;
    if len == 258 {
      LengthRule(28);
    } else {
      var v := len - 3;
      var e := Halvings(v, 4);
      Pow2Small();
      HalvingsBound(v, 4, 6);
      Halved(v, 4);
      LengthSplit(v, e, v / Pow2(e), Pow2(e));
    }
  }

  lemma LengthSplit(v: nat, e: nat, q: nat, p: nat)
    requires e < 6 && p == Pow2(e) && q == v / p && q < 8 && (e > 0 ==> 4 <= q)
    ensures 4 * e + q < 28 && LengthExtra(4 * e + q) == e && LengthBase(4 * e + q) + v % p == v + 3
  {
    hide Pow2, LengthBase, LengthExtra;
    assert (4 * e + q) / 4 == e + q / 4;
    LengthRule(4 * e + q);
    Recombine(v, p);
  }

  lemma Recombine(v: nat, p: nat)
    requires p > 0
    ensures v / p * p + v % p == v
  {
  }

  lemma DistFits(dist: nat)
    requires 1 <= dist <= 32768
    ensures var f := DistField(dist);
      f.symbol < 30 && f.extra == DistExtra(f.symbol) && f.bits < Pow2(f.extra) && DistBase(f.symbol) + f.bits == dist
  {
    Pow2Fourteen();
    hide Halvings, Pow2, DistBase, DistExtra;
    var v := dist - 1;
    var e := Halvings(v, 2);
    HalvingsBound(v, 2, 14);
    Halved(v, 2);
    DistSplit(v, e, v / Pow2(e), Pow2(e));
  }

  lemma Pow2Fourteen()
    ensures Pow2(14) == 16384
  {
    Pow2Small();
    assert Pow2(14) == 2 * Pow2(13);
  }

  lemma DistSplit(v: nat, e: nat, q: nat, p: nat)
    requires e < 14 && p == Pow2(e) && q == v / p && q < 4 && (e > 0 ==> 2 <= q)
    ensures 2 * e + q < 30 && DistExtra(2 * e + q) == e && DistBase(2 * e + q) + v % p == v + 1
  {
    hide Pow2, DistBase, DistExtra;
    assert (2 * e + q) / 2 == e + q / 2;
    DistRule(2 * e + q);
    Recombine(v, p);
  }

  ghost predicate IsToken(t: Token, ll: seq<nat>, dl: seq<nat>, out: seq<byte>)
    requires 257 <= |ll|
  {
    match t
    case Literal(z) => ll[z] > 0
    case Reference(len, dist) =>
      3 <= len <= 258 && 1 <= dist <= 32768 && dist <= |out| && Used(ll, LengthField(len).symbol) && Used(dl, DistField(dist).symbol)
  }

  ghost predicate Used(lens: seq<nat>, n: nat) { n < |lens| && lens[n] > 0 }

  ghost function FieldBitstring(lens: seq<nat>, f: Field): seq<bool>
    requires Used(lens, f.symbol)
  {
    Codeword(lens, f.symbol) + Bits(f.bits, f.extra)
  }

  ghost function TokenBits(t: Token, ll: seq<nat>, dl: seq<nat>, out: seq<byte>): seq<bool>
    requires 257 <= |ll| && IsToken(t, ll, dl, out)
  {
    match t
    case Literal(z) => Codeword(ll, z)
    case Reference(len, dist) => FieldBitstring(ll, LengthField(len)) + FieldBitstring(dl, DistField(dist))
  }

  // The output after `t`.
  ghost function Output(t: Token, out: seq<byte>): (r: seq<byte>)
    requires t.Reference? ==> 1 <= t.dist <= |out|
    ensures out <= r
  {
    match t
    case Literal(z) => out + [z]
    case Reference(len, dist) => Copy(out, dist, len)
  }

  // Each byte of a reference is the one `dist` before it.
  lemma {:induction false} CopyRepeats(out: seq<byte>, dist: nat, len: nat, i: nat)
    requires 1 <= dist <= |out| <= i < |out| + len
    ensures Copy(out, dist, len)[i] == Copy(out, dist, len)[i - dist]
    decreases len
  {
    var next := out + [out[|out| - dist]];
    var r := Copy(next, dist, len - 1);
    assert r == Copy(out, dist, len);
    if i == |out| {
      assert r[..|next|] == next;
      assert r[|out|] == r[..|next|][|out|] && r[|out| - dist] == r[..|next|][|out| - dist];
    } else {
      CopyRepeats(next, dist, len - 1, i);
    }
  }

  ghost predicate AreTokens(ts: seq<Token>, ll: seq<nat>, dl: seq<nat>, out: seq<byte>)
    requires 257 <= |ll|
    decreases ts
  {
    ts == [] || (IsToken(ts[0], ll, dl, out) && AreTokens(ts[1..], ll, dl, Output(ts[0], out)))
  }

  ghost function TokensBits(ts: seq<Token>, ll: seq<nat>, dl: seq<nat>, out: seq<byte>): seq<bool>
    requires 257 <= |ll| && AreTokens(ts, ll, dl, out)
    decreases ts
  {
    if ts == [] then [] else TokenBits(ts[0], ll, dl, out) + TokensBits(ts[1..], ll, dl, Output(ts[0], out))
  }

  ghost function AllOutput(ts: seq<Token>, ll: seq<nat>, dl: seq<nat>, out: seq<byte>): (r: seq<byte>)
    requires 257 <= |ll| && AreTokens(ts, ll, dl, out)
    ensures out <= r
    decreases ts
  {
    if ts == [] then out else AllOutput(ts[1..], ll, dl, Output(ts[0], out))
  }

  lemma ReferenceRead(t: Token, ll: seq<nat>, dl: seq<nat>, out: seq<byte>, s: seq<bool>, p: nat)
    requires 257 <= |ll| <= 288 && |dl| <= 32 && Realizable(ll) && Realizable(dl) && t.Reference? && IsToken(t, ll, dl, out)
    requires HasBits(s, p, TokenBits(t, ll, dl, out))
    ensures var n := LengthField(t.len).symbol;
      257 <= n < 286 && Symbol(ll, s, p) == Some(n) &&
      MatchAt(dl, s, p + ll[n], n - 257) == Some(Match(t.len, t.dist, p + |TokenBits(t, ll, dl, out)|))
  {
    hide *;
    TokenParts(t, ll, dl, out);
    var f, g := LengthField(t.len), DistField(t.dist);
    LengthFits(t.len);
    DistFits(t.dist);
    var a, b := FieldBitstring(ll, f), FieldBitstring(dl, g);
    HasBitsParts(s, p, a, b);
    FieldRead(ll, f, s, p);
    FieldRead(dl, g, s, p + |a|);
    MatchIs(dl, s, p + ll[f.symbol], f, g);
  }

  lemma TokenParts(t: Token, ll: seq<nat>, dl: seq<nat>, out: seq<byte>)
    requires 257 <= |ll| && t.Reference? && IsToken(t, ll, dl, out)
    ensures 3 <= t.len <= 258 && 1 <= t.dist <= 32768
    ensures var f, g := LengthField(t.len), DistField(t.dist);
      Used(ll, f.symbol) && Used(dl, g.symbol) && TokenBits(t, ll, dl, out) == FieldBitstring(ll, f) + FieldBitstring(dl, g)
  {
    hide LengthField, DistField, FieldBitstring;
  }

  lemma FieldRead(lens: seq<nat>, f: Field, s: seq<bool>, p: nat)
    requires Realizable(lens) && Used(lens, f.symbol) && f.bits < Pow2(f.extra) && HasBits(s, p, FieldBitstring(lens, f))
    ensures f.symbol < |lens| && Symbol(lens, s, p) == Some(f.symbol) && |FieldBitstring(lens, f)| == lens[f.symbol] + f.extra
    ensures Nat(Window(s, p + lens[f.symbol], f.extra)) == f.bits
  {
    hide Realizable, Codeword, Symbol, HasBits, Nat, Window, Bits, Pow2;
    HasBitsParts(s, p, Codeword(lens, f.symbol), Bits(f.bits, f.extra));
    CodewordRead(lens, s, p, f.symbol);
    NumberRead(s, p + lens[f.symbol], f.bits, f.extra);
  }

  lemma MatchIs(dl: seq<nat>, s: seq<bool>, p: nat, f: Field, g: Field)
    requires |dl| <= 32 && 257 <= f.symbol < 286 && f.extra == LengthExtra(f.symbol - 257)
    requires Nat(Window(s, p, f.extra)) == f.bits
    requires g.symbol < 30 && g.symbol < |dl| && g.extra == DistExtra(g.symbol) && Symbol(dl, s, p + f.extra) == Some(g.symbol)
    requires Nat(Window(s, p + f.extra + dl[g.symbol], g.extra)) == g.bits
    ensures MatchAt(dl, s, p, f.symbol - 257) == Some(Match(LengthBase(f.symbol - 257) + f.bits, DistBase(g.symbol) + g.bits,
      p + f.extra + dl[g.symbol] + g.extra))
  {
    hide Nat, Window, Symbol, LengthBase, LengthExtra, DistBase, DistExtra;
  }

  lemma TokenIs(t: Token, ll: seq<nat>, dl: seq<nat>, out: seq<byte>)
    requires 257 <= |ll| && IsToken(t, ll, dl, out)
    ensures t.Reference? ==> 1 <= t.dist <= |out|
  {
  }

  // The tokens of a block and its end, exactly if there is room.
  lemma {:induction false} TokensRead(ts: seq<Token>, ll: seq<nat>, dl: seq<nat>, out: seq<byte>, s: seq<bool>, p: nat, limit: nat)
    requires 257 <= |ll| <= 288 && |dl| <= 32 && Realizable(ll) && Realizable(dl) && ll[256] > 0 && |out| <= limit
    requires AreTokens(ts, ll, dl, out) && HasBits(s, p, TokensBits(ts, ll, dl, out) + Codeword(ll, 256))
    ensures var r := AllOutput(ts, ll, dl, out);
      Symbols(ll, dl, s, p, out, limit)
      == if |r| <= limit then Some(Parsed(r, p + |TokensBits(ts, ll, dl, out)| + |Codeword(ll, 256)|)) else None
    decreases ts
  {
    hide Realizable, Codeword, Symbol, HasBits, IsToken, TokenBits, Symbols, Output, Copy, MatchAt, LengthField;
    HasBitsParts(s, p, TokensBits(ts, ll, dl, out), Codeword(ll, 256));
    if ts == [] {
      CodewordRead(ll, s, p, 256);
      OtherStep(ll, dl, s, p, out, limit);
    } else {
      TokenIs(ts[0], ll, dl, out);
      var w, rest, o := TokenBits(ts[0], ll, dl, out), TokensBits(ts[1..], ll, dl, Output(ts[0], out)), Output(ts[0], out);
      assert TokensBits(ts, ll, dl, out) + Codeword(ll, 256) == w + (rest + Codeword(ll, 256));
      HasBitsParts(s, p, w, rest + Codeword(ll, 256));
      TokenRead(ts[0], ll, dl, out, s, p, limit);
      if |o| <= limit { TokensRead(ts[1..], ll, dl, o, s, p + |w|, limit); }
    }
  }

  lemma TokenRead(t: Token, ll: seq<nat>, dl: seq<nat>, out: seq<byte>, s: seq<bool>, p: nat, limit: nat)
    requires 257 <= |ll| <= 288 && |dl| <= 32 && Realizable(ll) && Realizable(dl) && |out| <= limit
    requires IsToken(t, ll, dl, out) && HasBits(s, p, TokenBits(t, ll, dl, out))
    ensures var o := Output(t, out);
      Symbols(ll, dl, s, p, out, limit)
      == if |o| <= limit then Symbols(ll, dl, s, p + |TokenBits(t, ll, dl, out)|, o, limit) else None
  {
    hide Realizable, Codeword, Symbol, HasBits, Symbols, MatchAt, LengthField, DistField, FieldBitstring;
    match t
    case Literal(z) =>
      CodewordRead(ll, s, p, z);
      LiteralStep(ll, dl, s, p, out, limit, z);
    case Reference(len, dist) =>
      ReferenceRead(t, ll, dl, out, s, p);
      MatchStep(ll, dl, s, p, out, limit, LengthField(len).symbol - 257);
  }

  // ----- streams of one such block

  ghost predicate Holds(h: Header, ts: seq<Token>, s: seq<bool>, p: nat) {
    h.Valid() && Realizable(h.ll) && Realizable(h.dl) && h.ll[256] > 0 && AreTokens(ts, h.ll, h.dl, []) &&
    HasBits(s, p, BlockBits(h, ts))
  }

  // The last block of its stream, of type 2.
  ghost function BlockBits(h: Header, ts: seq<Token>): seq<bool>
    requires h.Valid() && AreTokens(ts, h.ll, h.dl, [])
  {
    [true, false, true] + (h.Bitstring() + (TokensBits(ts, h.ll, h.dl, []) + Codeword(h.ll, 256)))
  }

  lemma BlockRead(h: Header, ts: seq<Token>, s: seq<bool>, p: nat, limit: nat)
    requires Holds(h, ts, s, p)
    ensures var r := AllOutput(ts, h.ll, h.dl, []);
      Blocks(s, p, [], limit) == if |r| <= limit then Some(Parsed(r, p + |BlockBits(h, ts)|)) else None
  {
    hide *;
    BlockParts(h, ts, s, p);
    HeaderRead(h, s, p + 3);
    TokensRead(ts, h.ll, h.dl, [], s, p + 3 + |h.Bitstring()|, limit);
    BlockIs(h, s, p, limit);
  }

  lemma BlockParts(h: Header, ts: seq<Token>, s: seq<bool>, p: nat)
    requires Holds(h, ts, s, p)
    ensures 257 <= |h.ll| <= 288 && |h.dl| <= 32 && h.Valid()
    ensures p + 3 <= |s| && s[p] && !s[p + 1] && s[p + 2] && HasBits(s, p + 3, h.Bitstring())
    ensures Realizable(h.ll) && Realizable(h.dl) && h.ll[256] > 0 && AreTokens(ts, h.ll, h.dl, [])
    ensures HasBits(s, p + 3 + |h.Bitstring()|, TokensBits(ts, h.ll, h.dl, []) + Codeword(h.ll, 256))
    ensures |BlockBits(h, ts)| == 3 + |h.Bitstring()| + |TokensBits(ts, h.ll, h.dl, [])| + |Codeword(h.ll, 256)|
  {
    hide Realizable, Codeword, AreTokens, TokensBits, Header.Bitstring;
    var a, b, c := [true, false, true], h.Bitstring(), TokensBits(ts, h.ll, h.dl, []) + Codeword(h.ll, 256);
    assert BlockBits(h, ts) == a + (b + c);
    HasBitsParts(s, p, a, b + c);
    HasBitsParts(s, p + 3, b, c);
    assert s[p..p + 3] == a;
    assert s[p] == s[p..p + 3][0] && s[p + 1] == s[p..p + 3][1] && s[p + 2] == s[p..p + 3][2];
  }

  lemma BlockIs(h: Header, s: seq<bool>, p: nat, limit: nat)
    requires h.Valid() && p + 3 <= |s| && s[p] && !s[p + 1] && s[p + 2] && |h.ll| <= 288 && |h.dl| <= 32
    requires DynamicCodes(s, p + 3) == Some(Codes(h.ll, h.dl, p + 3 + |h.Bitstring()|))
    ensures Blocks(s, p, [], limit) == Symbols(h.ll, h.dl, s, p + 3 + |h.Bitstring()|, [], limit)
  {
    hide Symbols, Stored, DynamicCodes, FixedLengths, FixedDistances, Header.Valid, Header.Bitstring;
    assert Window(s, p + 1, 2) == [At(s, p + 1), At(s, p + 1 + 1)];
    assert Nat([false, true]) == 2 by { assert [false, true][1..] == [true] && [true][1..] == []; }
  }

  // Any bytes written with any two codes of one's own come back if two bytes follow, exactly if there is room.
  lemma RoundTrip(h: Header, ts: seq<Token>, d: seq<byte>, limit: nat)
    requires Holds(h, ts, BytesBits(d), 0) && 8 * |d| >= |BlockBits(h, ts)| + 16
    ensures var r, i := AllOutput(ts, h.ll, h.dl, []), Inflated(d, false, limit);
      if |r| <= limit then i.Some? && i.value.out == r else i == None
  {
    hide *;
    BlockParts(h, ts, BytesBits(d), 0);
    BlockRead(h, ts, BytesBits(d), 0, limit);
    InflatedAgrees(d, false, limit);
    Conclude(d, limit, AllOutput(ts, h.ll, h.dl, []), |BlockBits(h, ts)|);
  }

  lemma Conclude(d: seq<byte>, limit: nat, r: seq<byte>, end: nat)
    requires Blocks(BytesBits(d), 0, [], limit) == if |r| <= limit then Some(Parsed(r, end)) else None
    requires Agrees(Inflated(d, false, limit), Inflate(d, false, limit), BytesBits(d)) && 8 * |d| >= end + 16
    ensures var i := Inflated(d, false, limit); if |r| <= limit then i.Some? && i.value.out == r else i == None
  {
    hide Blocks, Inflated, BytesBits;
  }
}
