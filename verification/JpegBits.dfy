// The entropy-coded segment of a JPEG scan (ITU-T T.81 section F.2.2): byte stuffing, markers, and the decoder's 32-bit
// window on its bits, most significant bit first.

module JpegBits {
  import opened BitStream
  import opened Huffman
  import opened InputContext
  import opened JpegHuffman
  import opened Wrappers

  // ----- bits, most significant first

  ghost function Msb(w: seq<bool>): nat { Nat(Rev(w)) }

  // The `n` low bits of `v`.
  ghost function MsbBits(v: nat, n: nat): (w: seq<bool>)
    ensures |w| == n
  {
    Rev(Bits(v, n))
  }

  ghost function DataBits(data: seq<byte>): (s: seq<bool>)
    ensures |s| == 8 * |data|
  {
    if data == [] then [] else MsbBits(data[0], 8) + DataBits(data[1..])
  }

  lemma {:induction false} DataBitsConcat(a: seq<byte>, b: seq<byte>)
    ensures DataBits(a + b) == DataBits(a) + DataBits(b)
  {
    if a == [] {
      assert a + b == b;
    } else {
      assert (a + b)[1..] == a[1..] + b;
      DataBitsConcat(a[1..], b);
    }
  }

  lemma {:induction false} MsbConcat(a: seq<bool>, b: seq<bool>)
    ensures Msb(a + b) == Msb(a) * Pow2(|b|) + Msb(b) && Msb(b) < Pow2(|b|)
  {
    assert Rev(a + b) == Rev(b) + Rev(a);
    NatConcat(Rev(b), Rev(a));
    NatBound(Rev(b));
    Commute(Pow2(|b|), Msb(a));
  }

  lemma MsbOf(v: nat, n: nat)
    requires v < Pow2(n)
    ensures Msb(MsbBits(v, n)) == v
  {
    NatOfBits(v, n);
    assert Rev(MsbBits(v, n)) == Bits(v, n);
  }

  lemma MsbInjective(a: seq<bool>, b: seq<bool>)
    requires |a| == |b| && Msb(a) == Msb(b)
    ensures a == b
  {
    NatInjective(Rev(a), Rev(b));
    assert Rev(Rev(a)) == a && Rev(Rev(b)) == b;
  }

  lemma ZeroValue(s: seq<bool>, p: nat, n: nat)
    requires |s| <= p
    ensures Value(s, p, n) == 0
  {
    ZeroWindow(s, p, n);
    var w := Window(s, p, n);
    forall i | 0 <= i < n
      ensures !w[i]
    {
      assert w[i] == At(s, p + i);
    }
    assert Rev(w) == w;
  }

  lemma ValueConcat(s: seq<bool>, p: nat, m: nat, n: nat)
    ensures Value(s, p, m + n) == Value(s, p, m) * Pow2(n) + Value(s, p + m, n) && Value(s, p + m, n) < Pow2(n)
  {
    WindowConcat(s, p, m, n);
    MsbConcat(Window(s, p, m), Window(s, p + m, n));
  }

  lemma {:induction false} DataByte(data: seq<byte>, i: nat)
    requires i < |data|
    ensures Value(DataBits(data), 8 * i, 8) == data[i]
  {
    var s := DataBits(data);
    assert data == data[..i] + ([data[i]] + data[i + 1..]);
    DataBitsConcat(data[..i], [data[i]] + data[i + 1..]);
    assert ([data[i]] + data[i + 1..])[1..] == data[i + 1..];
    WindowInside(s, 8 * i, 8);
    assert s[8 * i..8 * i + 8] == MsbBits(data[i], 8);
    Pow2Small();
    MsbOf(data[i], 8);
  }

  // ----- byte stuffing

  // The first byte from `at` on that is not 0xFF.
  function FillEnd(d: seq<byte>, at: nat): (e: nat)
    ensures e >= at && ByteAt(d, e) != 0xFF
    decreases if at < |d| then |d| - at else 0
  {
    if ByteAt(d, at) == 0xFF then FillEnd(d, at + 1) else at
  }

  // The data bytes from `at` on, up to a marker or the end of the input: 0xFF 0x00 stands for 0xFF.
  ghost function Unstuffed(d: seq<byte>, at: nat): seq<byte>
    decreases if at < |d| then |d| - at else 0
  {
    if at >= |d| then []
    else if d[at] != 0xFF then [d[at]] + Unstuffed(d, at + 1)
    else if ByteAt(d, FillEnd(d, at + 1)) == 0 then [0xFF] + Unstuffed(d, FillEnd(d, at + 1) + 1)
    else []
  }

  // One or more 0xFF: before a zero they stand for one 0xFF, before anything else they are a marker, and at the end of the
  // input, which reads as zeros, they stand for one as well.
  lemma {:induction false} FillBytes(before: seq<byte>, n: nat, rest: seq<byte>)
    requires n > 0 && (rest != [] ==> rest[0] != 0xFF)
    ensures Unstuffed(before + Repeat(0xFF, n) + rest, |before|)
      == if rest == [] then [0xFF]
         else if rest[0] == 0 then [0xFF] + Unstuffed(before + Repeat(0xFF, n) + rest, |before| + n + 1)
         else []
  {
    hide Unstuffed;
    var d := before + Repeat(0xFF, n) + rest;
    FillEndIs(d, |before| + 1, |before| + n);
    assert rest != [] ==> d[|before| + n] == rest[0];
    UnstuffedAt(d, |before|);
    UnstuffedEnd(d, |before| + n + 1);
  }

  lemma UnstuffedAt(d: seq<byte>, at: nat)
    requires at < |d| && d[at] == 0xFF
    ensures var e := FillEnd(d, at + 1);
      Unstuffed(d, at) == if ByteAt(d, e) == 0 then [0xFF] + Unstuffed(d, e + 1) else []
  {
    hide FillEnd;
  }

  lemma UnstuffedEnd(d: seq<byte>, at: nat)
    ensures at >= |d| ==> Unstuffed(d, at) == []
  {
  }

  lemma {:induction false} FillEndIs(d: seq<byte>, at: nat, e: nat)
    requires at <= e && (forall i :: at <= i < e ==> ByteAt(d, i) == 0xFF) && ByteAt(d, e) != 0xFF
    ensures FillEnd(d, at) == e
    decreases e - at
  {
    if at < e { FillEndIs(d, at + 1, e); }
  }

  // ----- the 32-bit window

  // The first `seen` bits of the stream, and nothing after them.
  ghost function Seen(s: seq<bool>, seen: nat): seq<bool> { Window(s, 0, seen) }

  lemma SeenWindow(s: seq<bool>, seen: nat, p: nat, n: nat)
    requires p + n <= seen || |s| <= seen
    ensures Window(Seen(s, seen), p, n) == Window(s, p, n)
  {
    var v := Seen(s, seen);
    forall i | 0 <= i < n
      ensures Window(v, p, n)[i] == Window(s, p, n)[i]
    {
      assert At(v, p + i) == At(s, p + i) by {
        if p + i < seen { assert v[p + i] == At(s, 0 + (p + i)); }
      }
    }
  }

  // What `code_buffer` holds at bit `p`.
  ghost function Buffer(s: seq<bool>, p: nat, bits: nat): nat { Value(Seen(s, p + bits), p, 32) }

  lemma BufferTop(s: seq<bool>, p: nat, bits: nat, k: nat)
    requires k <= 32 && (k <= bits || |s| <= p + bits)
    ensures Shr(Buffer(s, p, bits), 32 - k) == Value(s, p, k)
  {
    ValueShorter(Seen(s, p + bits), p, k, 32);
    SeenWindow(s, p + bits, p, k);
  }

  lemma BufferTake(s: seq<bool>, p: nat, bits: nat, n: nat)
    requires n <= bits <= 32
    ensures Shl(Buffer(s, p, bits), n) % 0x1_0000_0000 == Buffer(s, p + n, bits - n)
  {
    var v := Seen(s, p + bits);
    ValueConcat(v, p, n, 32 - n);
    ValueConcat(v, p + n, 32 - n, n);
    ZeroValue(v, p + 32, n);
    var a, r := Value(v, p, n), Value(v, p + n, 32 - n);
    Pow32();
    Pow2Add(32 - n, n);
    hide Value, Pow2;
    ShiftOut(a, Pow2(32 - n), r, Pow2(n));
  }

  lemma ShiftOut(a: nat, q: nat, r: nat, m: nat)
    requires r < q && m > 0
    ensures (a * q + r) * m % (q * m) == r * m
  {
    assert (a * q + r) * m == a * (q * m) + r * m;
    assert r * m < q * m by { MulGrows(q - r, m); Distribute(q - r, r, m); }
    DivModUnique((a * q + r) * m, q * m, a, r * m);
  }

  lemma {:induction false} OrShift(a: nat, b: nat, n: nat)
    ensures BitOr(Shl(a, n), Shl(b, n)) == Shl(BitOr(a, b), n)
  {
    if n > 0 {
      OrShift(a, b, n - 1);
      var x, y, p := Shl(a, n - 1), Shl(b, n - 1), Pow2(n - 1);
      Slide(a, p);
      Slide(b, p);
      Slide(BitOr(a, b), p);
      OrDouble(x, y);
    }
  }

  lemma OrDouble(x: nat, y: nat)
    ensures BitOr(2 * x, 2 * y) == 2 * BitOr(x, y)
  {
    if x > 0 && y > 0 { assert (2 * x) / 2 == x && (2 * y) / 2 == y; }
  }

  lemma BufferIs(s: seq<bool>, p: nat, bits: nat)
    requires bits <= 32
    ensures Buffer(s, p, bits) == Value(s, p, bits) * Pow2(32 - bits)
  {
    var v := Seen(s, p + bits);
    ValueConcat(v, p, bits, 32 - bits);
    ZeroValue(v, p + bits, 32 - bits);
    SeenWindow(s, p + bits, p, bits);
  }

  lemma AppendByte(w: nat, b: nat, k: nat)
    requires b < 256
    ensures BitOr(w * Pow2(8 + k), Shl(b, k)) == (w * 256 + b) * Pow2(k)
  {
    Pow2Small();
    Pow2Add(8, k);
    assert w * (256 * Pow2(k)) == (w * 256) * Pow2(k);
    OrShift(Shl(w, 8), b, k);
    OrComm(Shl(w, 8), b);
    OrDisjoint(b, 8, w);
  }

  lemma BufferPush(s: seq<bool>, p: nat, bits: nat, b: nat)
    requires bits <= 24 && b == Value(s, p + bits, 8)
    ensures BitOr(Buffer(s, p, bits), Shl(b, 24 - bits)) == Buffer(s, p, bits + 8)
  {
    BufferIs(s, p, bits);
    BufferIs(s, p, bits + 8);
    ValueConcat(s, p, bits, 8);
    Pow2Small();
    AppendByte(Value(s, p, bits), b, 24 - bits);
  }

  // ----- stbi__jpeg, the part that reads bits

  // T.81's EXTEND: the value the `n` bits `v` stand for.
  function Extend(v: nat, n: nat): int
    requires n > 0
  {
    if v < Pow2(n - 1) then v - Pow2(n) + 1 else v
  }

  class BitReader {
    const s: Context
    var codeBuffer: nat
    var codeBits: int
    var marker: byte
    var nomore: bool
    // The data bytes of the segment, and how many of their bits have been consumed.
    ghost var data: seq<byte>
    ghost var pos: nat

    // The input from here on holds the data bytes from the `n`-th on.
    ghost predicate RestAt(n: int)
      reads this, s
    {
      if nomore then n >= |data| else n >= 0 && Unstuffed(s.data, s.at) == From(data, n)
    }

    ghost predicate Rest()
      reads this, s
    {
      RestAt((pos + codeBits) / 8)
    }

    ghost predicate Buffered()
      reads this
    {
      0 <= codeBits <= 32 && (pos + codeBits) % 8 == 0 && codeBuffer == Buffer(DataBits(data), pos, codeBits)
    }

    ghost predicate Valid()
      reads this, s
    {
      Buffered() && Rest()
    }

    // `stbi__jpeg_reset`, at the first byte of a segment.
    constructor (s: Context)
      ensures Valid() && this.s == s && data == Unstuffed(s.data, s.at) && pos == 0 && codeBits == 0 && !nomore
    {
      this.s := s;
      codeBuffer, codeBits, marker, nomore := 0, 0, 0xFF, false;
      data, pos := Unstuffed(s.data, s.at), 0;
      new;
      BufferIs(DataBits(data), 0, 0);
      NoBits(DataBits(data));
    }

    static lemma NoBits(s: seq<bool>)
      ensures Value(s, 0, 0) == 0
    {
      assert Rev(Window(s, 0, 0)) == [];
    }

    // Enough bits for any code, or all there are.
    ghost predicate Filled()
      reads this
    {
      codeBits > 24 || pos + codeBits >= 8 * |data|
    }

    static lemma UnstuffedPlain(d: seq<byte>, at: nat)
      ensures at >= |d| ==> Unstuffed(d, at) == []
      ensures at < |d| && d[at] != 0xFF ==> Unstuffed(d, at) == [d[at]] + Unstuffed(d, at + 1)
    {
    }

    static lemma UnstuffedFill(d: seq<byte>, at: nat)
      requires at < |d| && d[at] == 0xFF
      ensures var e := FillEnd(d, at + 1);
        Unstuffed(d, at) == if ByteAt(d, e) == 0 then [0xFF] + Unstuffed(d, if e < |d| then e + 1 else e) else []
    {
      var e := FillEnd(d, at + 1);
      if e >= |d| { assert Unstuffed(d, e) == [] == Unstuffed(d, e + 1); }
    }

    // The next data byte; past the end of the data it is zero.
    static lemma ByteIs(data: seq<byte>, n: nat)
      ensures Value(DataBits(data), 8 * n, 8) == ByteAt(data, n)
    {
      if n < |data| { DataByte(data, n); } else { ZeroValue(DataBits(data), 8 * n, 8); }
    }

    // The data bytes from the `n`-th on.
    static lemma FromNext(data: seq<byte>, n: nat, b: byte, rest: seq<byte>)
      requires From(data, n) == [b] + rest
      ensures ByteAt(data, n) == b && From(data, n + 1) == rest
    {
      assert From(data, n)[0] == b && From(data, n)[1..] == rest;
    }

    static lemma FromNothing(data: seq<byte>, n: nat)
      requires From(data, n) == []
      ensures n >= |data| && From(data, n + 1) == []
    {
    }

    // One byte of data, or the end of the segment: a marker.
    method NextByte() returns (more: bool, b: byte)
      requires Valid()
      modifies s, `marker, `nomore
      ensures old(nomore) ==> more && nomore
      ensures more ==> b == Value(DataBits(data), pos + codeBits, 8) && RestAt((pos + codeBits) / 8 + 1)
      ensures !more ==> nomore && Valid() && pos + codeBits >= 8 * |data|
    {
      hide Buffer, DataBits, Unstuffed, Value, From;
      ghost var n := (pos + codeBits) / 8;
      assert pos + codeBits == 8 * n;
      ByteIs(data, n);
      more, b := true, 0;
      if nomore { return; }
      ghost var d, at := s.data, s.at;
      UnstuffedPlain(d, at);
      if Unstuffed(d, at) == [] { FromNothing(data, n); }
      b := s.Get8();
      if b == 0xFF {
        UnstuffedFill(d, at);
        var c := SkipFill();
        if c != 0 {
          marker := c;
          nomore := true;
          more := false;
          return;
        }
      }
      if at < |d| { FromNext(data, n, b, Unstuffed(d, s.at)); }
    }

    // The byte after any fill bytes.
    method SkipFill() returns (c: byte)
      modifies s
      ensures var e := FillEnd(s.data, old(s.at)); c == ByteAt(s.data, e) && s.at == if e < |s.data| then e + 1 else e
    {
      ghost var d, q := s.data, s.at;
      c := s.Get8();
      while c == 0xFF
        invariant q >= old(s.at) && FillEnd(d, q) == FillEnd(d, old(s.at)) && c == ByteAt(d, q)
        invariant s.at == if q < |d| then q + 1 else q
        decreases |d| - q
      {
        q := s.at;
        c := s.Get8();
      }
    }

    method Push(b: byte)
      requires Buffered() && codeBits <= 24 && b == Value(DataBits(data), pos + codeBits, 8)
      requires RestAt((pos + codeBits) / 8 + 1)
      modifies `codeBuffer, `codeBits
      ensures Valid() && codeBits == old(codeBits) + 8
    {
      hide Buffer, DataBits, Unstuffed, Value;
      BufferPush(DataBits(data), pos, codeBits, b);
      codeBuffer := BitOr(codeBuffer, Shl(b, 24 - codeBits));
      codeBits := codeBits + 8;
      assert (pos + codeBits) / 8 == (pos + codeBits - 8) / 8 + 1;
    }

    // `stbi__grow_buffer_unsafe`
    method Grow()
      requires Valid() && codeBits <= 24
      modifies this, s
      ensures Valid() && Filled() && pos == old(pos) && data == old(data) && codeBits >= old(codeBits)
      ensures old(nomore) ==> codeBits > 24
    {
      hide Buffer, DataBits, Unstuffed, Value;
      while true
        invariant Valid() && codeBits <= 24 && pos == old(pos) && data == old(data) && codeBits >= old(codeBits)
        invariant old(nomore) ==> nomore
        decreases 24 - codeBits
      {
        var more, b := NextByte();
        if !more { return; }
        Push(b);
        if codeBits > 24 { break; }
      }
    }

    ghost function Stream(): seq<bool>
      reads this
    {
      DataBits(data)
    }

    // All the bits a code can have are in the buffer, or all there are.
    ghost predicate Ready()
      reads this
    {
      codeBits >= 16 || Filled()
    }

    // The next `k` bits.
    method Peek(k: nat) returns (v: nat)
      requires Valid() && Ready() && k <= 16
      ensures v == Value(Stream(), pos, k) < Pow2(k)
    {
      BufferTop(Stream(), pos, codeBits, k);
      NatBound(Rev(Window(Stream(), pos, k)));
      v := Shr(codeBuffer, 32 - k);
    }

    method Take(n: nat)
      requires Valid() && n <= codeBits
      modifies `codeBuffer, `codeBits, `pos
      ensures Valid() && pos == old(pos) + n && codeBits == old(codeBits) - n
    {
      BufferTake(Stream(), pos, codeBits, n);
      codeBuffer := Shl(codeBuffer, n) % 0x1_0000_0000;
      codeBits := codeBits - n;
      pos := pos + n;
    }

    // ----- stbi__jpeg_huff_decode

    // The bits the next symbol takes lie in the data.
    ghost predicate Complete(lens: seq<nat>, p: nat)
      requires |lens| <= 256
      reads this
    {
      var g := Read(lens, Stream(), p); g.Some? && p + g.value.bits <= 8 * |data|
    }

    static lemma FastEntry(h: StbiHuffman, lens: seq<nat>, bs: seq<bool>, p: nat)
      requires h.Valid() && h.Tables(lens) && Value(bs, p, 9) < 512
      ensures var e := h.fast[Value(bs, p, 9)];
        if e < 255 then e < |lens| <= 256 && Read(lens, bs, p) == Some(Got(e, lens[e])) && h.size[e] == lens[e] <= 9
        else forall m: nat :: Matches(lens, bs, p, m) ==> lens[m] > 9 || m == 255
    {
      var e := h.fast[Value(bs, p, 9)];
      assert FastOk(lens, |lens|, Value(bs, p, 9), e);
      FastLookup(lens, bs, p, e);
      if e < 255 { ReadShort(lens, bs, p, e); }
    }

    // Reads one symbol, for every table: as bit-by-bit canonical decoding does, save for the flag (`ReadExact`). A symbol
    // that ends past the data is refused, or made up of zero bits.
    method HuffDecode(h: StbiHuffman, ghost lens: seq<nat>) returns (r: int)
      requires Valid() && h.Valid() && h.Tables(lens) && |lens| <= 256
      modifies this, s
      ensures data == old(data) && (r >= 0 ==> Valid() && r < 256)
      ensures r >= 0 ==>
        var g := Read(lens, Stream(), old(pos));
        g.Some? && r == h.values[g.value.index] as int && pos == old(pos) + g.value.bits
      ensures old(Complete(lens, pos)) ==> r >= 0
    {
      hide Buffer, DataBits, Read, Matches, Value, StbiHuffman.Tables, Rest;
      if codeBits < 16 { Grow(); }
      var c := Peek(9);
      Pow2Small();
      FastEntry(h, lens, Stream(), pos);
      var k := h.fast[c];
      if k < 255 {
        var size := h.size[k];
        if size > codeBits { return -1; }
        Take(size);
        return h.values[k] as int;
      }
      r := SlowDecode(h, lens);
    }

    // A code of more than nine bits: its length is the first whose limit is above the next sixteen bits.
    method SlowDecode(h: StbiHuffman, ghost lens: seq<nat>) returns (r: int)
      requires Valid() && Ready() && h.Valid() && h.Tables(lens) && |lens| <= 256
      requires forall m: nat :: Matches(lens, Stream(), pos, m) ==> lens[m] > 9 || m == 255
      modifies `codeBuffer, `codeBits, `pos
      ensures r >= 0 ==> Valid() && r < 256
      ensures r >= 0 ==>
        var g := Read(lens, Stream(), old(pos));
        g.Some? && r == h.values[g.value.index] as int && pos == old(pos) + g.value.bits
      ensures old(Complete(lens, pos)) ==> r >= 0
    {
      hide Buffer, DataBits, Read, Matches, Value, Rest, Limit, FirstCode, FirstRank, Realizable, Ascending;
      hide StbiHuffman.FastUpTo, StbiHuffman.Coded;
      ghost var bs, p := Stream(), pos;
      var temp := Peek(16);
      Pow2Small();
      var k := FAST_BITS + 1;
      while temp >= h.maxcode[k]
        invariant 10 <= k <= 17 && forall j :: 10 <= j < k ==> Limit(lens, j) <= Value(bs, p, 16)
        decreases 17 - k
      {
        k := k + 1;
      }
      if k == 17 {
        SlowNone(lens, bs, p);
        codeBits := codeBits - 16;
        return -1;
      }
      SlowRead(lens, bs, p, k);
      if k > codeBits { return -1; }
      var top := Peek(k);
      var c := top + h.delta[k];
      if c < 0 || c >= 256 { return -1; }
      Take(k);
      r := h.values[c] as int;
    }

    // ----- stbi__extend_receive

    static function Lrot(x: nat, n: nat): nat
      requires n <= 32
    {
      BitOr(Shl(x, n) % 0x1_0000_0000, Shr(x, 32 - n))
    }

    // Rotating brings the next `n` bits to the bottom; the rest is the buffer shifted.
    static lemma LrotIs(bs: seq<bool>, p: nat, bits: nat, n: nat)
      requires n <= bits <= 32 && n <= 16
      ensures var k := Lrot(Buffer(bs, p, bits), n);
        BitAnd(k, Pow2(n) - 1) == Value(bs, p, n) && k - BitAnd(k, Pow2(n) - 1) == Buffer(bs, p + n, bits - n)
    {
      hide Buffer, Value, Shl, Shr, BitOr, BitAnd, Pow2;
      BufferTake(bs, p, bits, n);
      BufferTop(bs, p, bits, n);
      BufferIs(bs, p + n, bits - n);
      ValueBound(bs, p, n);
      var c := Multiple(Value(bs, p + n, bits - n), 32 - bits, n);
      Joined(c, Value(bs, p, n), n);
    }

    static lemma ValueBound(bs: seq<bool>, p: nat, n: nat)
      ensures Value(bs, p, n) < Pow2(n)
    {
      NatBound(Rev(Window(bs, p, n)));
    }

    static lemma Multiple(w: nat, a: nat, n: nat) returns (c: nat)
      ensures w * Pow2(a + n) == Shl(c, n)
    {
      c := w * Pow2(a);
      Pow2Add(a, n);
      assert w * (Pow2(a) * Pow2(n)) == (w * Pow2(a)) * Pow2(n);
    }

    static lemma Joined(c: nat, y: nat, n: nat)
      requires y < Pow2(n)
      ensures var k := BitOr(Shl(c, n), y); BitAnd(k, Pow2(n) - 1) == y && k - y == Shl(c, n)
    {
      var k := BitOr(Shl(c, n), y);
      OrComm(Shl(c, n), y);
      OrDisjoint(y, n, c);
      AndMask(k, n);
      DivModUnique(k, Pow2(n), c, y);
    }

    method ExtendReceive(n: nat) returns (v: int)
      requires Valid() && 1 <= n <= 15
      modifies this, s
      ensures Valid() && data == old(data)
      ensures (pos == old(pos) + n && v == Extend(Value(Stream(), old(pos), n), n)) || (pos == old(pos) && v == 0)
      ensures old(pos) + n <= 8 * |data| ==> pos == old(pos) + n && v == Extend(Value(Stream(), old(pos), n), n)
    {
      hide Buffer, DataBits, Value, Unstuffed, Lrot, BitAnd, Shr, Pow2;
      if codeBits < n { Grow(); }
      if codeBits < n { return 0; }
      SignBit(Stream(), pos, codeBits, n);
      LrotIs(Stream(), pos, codeBits, n);
      var sgn := Shr(codeBuffer, 31);
      var k := Lrot(codeBuffer, n);
      // `k & ~bmask` and `k & bmask`
      codeBuffer := k - BitAnd(k, Pow2(n) - 1);
      k := BitAnd(k, Pow2(n) - 1);
      codeBits := codeBits - n;
      pos := pos + n;
      // `jbias & (sgn - 1)`
      v := k + if sgn == 0 then 1 - Pow2(n) else 0;
    }

    static lemma SignBit(bs: seq<bool>, p: nat, bits: nat, n: nat)
      requires 1 <= n <= bits <= 32
      ensures Shr(Buffer(bs, p, bits), 31) < 2
      ensures Shr(Buffer(bs, p, bits), 31) == 0 <==> Value(bs, p, n) < Pow2(n - 1)
    {
      Pow2Small();
      hide Buffer, Value, Pow2, Shr;
      BufferTop(bs, p, bits, 1);
      ValueBound(bs, p, 1);
      ValueConcat(bs, p, 1, n - 1);
      assert Value(bs, p, 1) in {0, 1};
    }
  }
}
