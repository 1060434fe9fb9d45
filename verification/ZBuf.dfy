// `stbi__zbuf`: the inflater's bit buffer, its output buffer and its block parsers, each proved
// against what module Guarded makes of the stream.

module ZBuffer {
  import opened BitStream
  import opened BitReversal
  import opened Huffman
  import opened Deflate
  import opened Guarded
  import opened ZHuffmanTables
  import opened Wrappers

  // The largest size that doubling reaches from `size` without leaving 32 bits.
  ghost function Reach(size: nat): (r: nat)
    requires 0 < size
    ensures size <= r
    ensures size <= UINT_MAX ==> r <= UINT_MAX
    decreases UINT_MAX - size
  {
    if size > UINT_MAX / 2 then size else Reach(2 * size)
  }

  ghost function Capacity(size: nat, expandable: bool): nat
    requires expandable ==> size > 0
  {
    if expandable then Reach(size) else size
  }

  class ZBuf {
    const input: seq<byte>
    const expandable: bool
    const zLength: ZHuffman
    const zDistance: ZHuffman
    var zbuffer: int
    var numBits: int
    var codeBuffer: nat
    var zout: array<byte>
    var zoutPos: int
    ghost var pos: nat
    ghost const limit: nat

    ghost function Stream(): (s: seq<bool>)
      ensures |s| == 8 * |input|
    {
      BytesBits(input)
    }

    // `codeBuffer` holds exactly the `numBits` bits of the zero-extended stream from `pos` on,
    // and ends at the next unread byte.
    ghost predicate Reader()
      reads `zbuffer, `numBits, `codeBuffer, `pos
    {
      0 <= zbuffer <= |input| && 0 <= numBits <= 32 &&
      codeBuffer == Nat(Window(Stream(), pos, numBits)) &&
      (pos + numBits) % 8 == 0 &&
      (pos + numBits == 8 * zbuffer || (zbuffer == |input| && pos + numBits > 8 * |input|))
    }

    // Where the stream is being read, and where the buffered bits end.
    ghost function Here(): Cursor
      reads `numBits, `pos
    {
      Cursor(pos, if numBits >= 0 then pos + numBits else pos)
    }

    ghost predicate Writer()
      reads `zout
    {
      zout.Length <= limit <= UINT_MAX &&
      (if expandable then zout.Length > 0 && Reach(zout.Length) == limit else zout.Length == limit) &&
      zLength.Valid() && zDistance.Valid() && zLength.Repr() !! zDistance.Repr() &&
      zout !in zLength.Repr() && zout !in zDistance.Repr()
    }

    ghost predicate Valid()
      reads this
    {
      Reader() && Writer() && 0 <= zoutPos <= zout.Length
    }

    ghost function Contents(): seq<byte>
      requires 0 <= zoutPos <= zout.Length
      reads `zout, `zoutPos, zout
    {
      zout[..zoutPos]
    }

    constructor (input: seq<byte>, obuf: array<byte>, expandable: bool)
      requires obuf.Length <= UINT_MAX && (expandable ==> obuf.Length > 0)
      ensures Valid() && this.input == input && this.expandable == expandable
      ensures zbuffer == 0 && numBits == 0 && pos == 0 && zoutPos == 0 && zout == obuf
      ensures limit == Capacity(obuf.Length, expandable)
      ensures fresh(zLength.Repr()) && fresh(zDistance.Repr())
    {
      this.input := input;
      this.expandable := expandable;
      zLength := new ZHuffman();
      zDistance := new ZHuffman();
      zbuffer, numBits, codeBuffer, pos := 0, 0, 0, 0;
      zout, zoutPos := obuf, 0;
      limit := Capacity(obuf.Length, expandable);
      new;
      assert Window(Stream(), 0, 0) == [];
    }

    // ----- bit input

    predicate Zeof()
      reads `zbuffer
    {
      zbuffer >= |input|
    }

    method Zget8() returns (b: byte)
      requires 0 <= zbuffer <= |input|
      modifies `zbuffer
      ensures b == ByteAt(input, old(zbuffer))
      ensures zbuffer == if old(zbuffer) < |input| then old(zbuffer) + 1 else old(zbuffer)
    {
      if Zeof() {
        b := 0;
      } else {
        b := input[zbuffer];
        zbuffer := zbuffer + 1;
      }
    }

    // Refills to more than 24 bits; which bits come next does not change.
    method FillBits()
      requires Reader() && numBits <= 24
      modifies `zbuffer, `numBits, `codeBuffer
      ensures Reader() && numBits > 24 && Here() == Cursor(pos, Filled(pos))
    {
      hide BitOr, Nat, Window, Stream, Shl;
      var first := true;
      while first || numBits <= 24
        invariant Reader() && (first ==> numBits <= 24)
        decreases 32 - numBits
      {
        first := false;
        if codeBuffer >= Shl(1, numBits) {
          zbuffer := |input|;
          NoOverflow(Stream(), pos, numBits);
          assert false;
          return;
        }
        AppendByte(Stream(), pos, numBits, if pos + numBits == 8 * zbuffer then zbuffer else (pos + numBits) / 8);
        var b := Zget8();
        codeBuffer := BitOr(codeBuffer, Shl(b, numBits));
        numBits := numBits + 8;
      }
    }

    static lemma NoOverflow(s: seq<bool>, p: nat, n: nat)
      ensures Nat(Window(s, p, n)) < Shl(1, n)
    {
      NatBound(Window(s, p, n));
    }

    lemma AppendByte(s: seq<bool>, p: nat, n: nat, i: nat)
      requires s == Stream() && p + n == 8 * i
      ensures BitOr(Nat(Window(s, p, n)), Shl(ByteAt(input, i), n)) == Nat(Window(s, p, n + 8))
    {
      ByteWindow(input, i);
      WindowConcat(s, p, n, 8);
      OrAppends(Window(s, p, n), Window(s, p + n, 8));
    }

    lemma TakeBits(s: seq<bool>, p: nat, m: nat, n: nat)
      requires n <= m
      ensures BitAnd(Nat(Window(s, p, m)), Shl(1, n) - 1) == Nat(Window(s, p, n))
      ensures Shr(Nat(Window(s, p, m)), n) == Nat(Window(s, p + n, m - n))
    {
      AndMask(Nat(Window(s, p, m)), n);
      NatSplit(Window(s, p, m), n);
      WindowConcat(s, p, n, m - n);
    }

    // The next `n` bits as a number, consumed.
    method Zreceive(n: nat) returns (k: nat)
      requires Reader() && n <= 16
      modifies `zbuffer, `numBits, `codeBuffer, `pos
      ensures Reader()
      ensures k == Nat(Window(Stream(), old(Here()).pos, n)) && Here() == Taken(old(Here()), n)
    {
      if numBits < n { FillBits(); }
      TakeBits(Stream(), pos, numBits, n);
      k := BitAnd(codeBuffer, Shl(1, n) - 1);
      Drop(n);
    }
  
    // ----- Huffman decoding

    // Either the next canonical symbol, consumed, or -1: there is none, or it is not looked for.
    method HuffmanDecode(z: ZHuffman, ghost lens: seq<nat>) returns (sym: int)
      requires Reader() && z.Valid() && z.Tables(lens)
      modifies `zbuffer, `numBits, `codeBuffer, `pos
      ensures Reader()
      ensures match Look(lens, Stream(), old(Here()))
              case None => sym < 0
              case Some(Seen(n, c)) => sym == n && Here() == c
    {
      hide Nat, Window, Shr, BitAnd, Symbol, Matches, ZHuffman.Tables, ZHuffman.Valid, Stream;
      if numBits < 16 {
        if Zeof() {
          return -1;
        }
        FillBits();
      }
      var b := FastEntry(z, lens);
      if b != 0 {
        ghost var m := Symbol(lens, Stream(), pos).value;
        SplitEntry(b, lens[m], m);
        Drop(Shr(b, 9));
        return BitAnd(b, 511);
      }
      sym := HuffmanDecodeSlowpath(z, lens);
    }

    method FastEntry(z: ZHuffman, ghost lens: seq<nat>) returns (b: nat)
      requires Reader() && numBits >= 16 && z.Valid() && z.Tables(lens)
      ensures b == 0 ==> forall m: nat :: Matches(lens, Stream(), pos, m) ==> lens[m] > 9
      ensures b != 0 ==> var n := Symbol(lens, Stream(), pos);
        n.Some? && n.value < |lens| <= 512 && b == lens[n.value] * 512 + n.value && lens[n.value] <= 9
    {
      TakeBits(Stream(), pos, numBits, 9);
      NatBound(Window(Stream(), pos, 9));
      Pow2Small();
      b := z.fast[BitAnd(codeBuffer, Shl(1, ZFAST_BITS) - 1)];
      FastLookup(lens, Stream(), pos, b);
      if b != 0 {
        ghost var m: nat :| Matches(lens, Stream(), pos, m) && b == lens[m] * 512 + m && lens[m] <= 9;
        SymbolIs(lens, Stream(), pos, m);
      }
    }

    // `code_buffer >>= n; num_bits -= n`
    method Drop(n: nat)
      requires Reader() && n <= numBits
      modifies `numBits, `codeBuffer, `pos
      ensures Reader() && pos == old(pos) + n && numBits == old(numBits) - n && Here().end == old(Here()).end
    {
      hide Nat, Window, Shr, Stream;
      TakeBits(Stream(), pos, numBits, n);
      codeBuffer := Shr(codeBuffer, n);
      numBits := numBits - n;
      pos := pos + n;
    }

    static lemma SplitEntry(b: nat, s: nat, m: nat)
      requires b == s * 512 + m && m < 512
      ensures Shr(b, 9) == s && BitAnd(b, 511) == m
    {
      Pow2Small();
      AndMask(b, 9);
    }

    method HuffmanDecodeSlowpath(z: ZHuffman, ghost lens: seq<nat>) returns (sym: int)
      requires Reader() && numBits >= 16 && z.Valid() && z.Tables(lens)
      requires forall m: nat :: Matches(lens, Stream(), pos, m) ==> lens[m] > 9
      modifies `numBits, `codeBuffer, `pos
      ensures Reader()
      ensures match Symbol(lens, Stream(), old(pos))
              case None => sym < 0
              case Some(n) => sym == n && Here() == Cursor(old(pos) + lens[n], old(Here()).end)
    {
      var k := BitReverse(codeBuffer, 16);
      SixteenReversed(Stream());
      var s := CodeLength(z, k);
      LevelsBelow(z, lens, k, s);
      if s >= 16 {
        SlowMiss(lens, Stream(), pos);
        return -1;
      }
      sym := RankedSymbol(z, lens, k, s);
    }

    // From a code of known length to its symbol.
    method RankedSymbol(z: ZHuffman, ghost lens: seq<nat>, k: nat, s: nat) returns (sym: int)
      requires Reader() && numBits >= 16 && z.Valid() && z.Tables(lens) && 10 <= s <= 15
      requires k == Value(Stream(), pos, 16) < Limit(lens, s) && forall l :: 10 <= l < s ==> Limit(lens, l) <= k
      requires forall m: nat :: Matches(lens, Stream(), pos, m) ==> lens[m] > 9
      modifies `numBits, `codeBuffer, `pos
      ensures Reader() && Symbol(lens, Stream(), old(pos)) == Some(sym)
      ensures Here() == Cursor(old(pos) + lens[sym], old(Here()).end)
    {
      ghost var n := SlowLookup(lens, Stream(), pos, s);
      ValuePrefix(Stream(), pos, s);
      SymbolIs(lens, Stream(), pos, n);
      assert LevelOk(lens, s, z.firstcode[s], z.maxcode[s], z.firstsymbol[s]);
      var b := Shr(k, 16 - s) - z.firstcode[s] + z.firstsymbol[s];
      if b >= ZNSYMS { return -1; }
      if z.size[b] != s { return -1; }
      Drop(s);
      sym := z.value[b];
    }

    static method CodeLength(z: ZHuffman, k: nat) returns (s: nat)
      requires z.Valid() && z.maxcode[16] == 0x10000 && k < 0x10000
      ensures 10 <= s <= 16 && forall l :: 10 <= l < s ==> z.maxcode[l] <= k
      ensures k < z.maxcode[s]
    {
      s := ZFAST_BITS + 1;
      while k >= z.maxcode[s]
        invariant 10 <= s <= 16
        invariant forall l :: 10 <= l < s ==> z.maxcode[l] <= k
        decreases 16 - s
      {
        s := s + 1;
      }
    }

    static lemma LevelsBelow(z: ZHuffman, lens: seq<nat>, k: nat, s: nat)
      requires z.Valid() && z.Tables(lens) && 10 <= s <= 16
      requires forall l :: 10 <= l < s ==> z.maxcode[l] <= k
      ensures forall l :: 10 <= l < s ==> Limit(lens, l) <= k
      ensures s < 16 ==> z.maxcode[s] == Limit(lens, s)
    {
      forall l | 10 <= l < 16
        ensures z.maxcode[l] == Limit(lens, l)
      {
        assert LevelOk(lens, l, z.firstcode[l], z.maxcode[l], z.firstsymbol[l]);
      }
    }

    lemma SixteenReversed(s: seq<bool>)
      requires Reader() && numBits >= 16 && s == Stream()
      ensures BitReverse(codeBuffer, 16) == Value(s, pos, 16) < 0x10000
    {
      NatBound(Rev(Window(s, pos, 16)));
      Pow2Small();
      ReversesSixteen(codeBuffer);
      BitsPrefix(Window(s, pos, numBits), 16);
      assert Window(s, pos, numBits)[..16] == Window(s, pos, 16);
      assert Pow2(0) == 1;
    }
  
    // ----- output

    // Makes room for `n` more bytes after `zp`, by doubling the buffer.
    method Zexpand(zp: int, n: nat) returns (ok: bool)
      requires Writer() && 0 <= zp <= zout.Length && zp + n > zout.Length
      modifies `zout, `zoutPos
      ensures Writer() && zoutPos == zp
      ensures zout == old(zout) || (expandable && fresh(zout))
      ensures ok <==> zp + n <= limit
      ensures ok ==> zp + n <= zout.Length && zout[..zp] == old(zout[..zp])
    {
      zoutPos := zp;
      if !expandable { return false; }
      var cur, size := zp, zout.Length;
      if UINT_MAX - cur < n { return false; }
      while cur + n > size
        invariant 0 < zout.Length <= size <= UINT_MAX && Reach(size) == limit
        decreases UINT_MAX - size
      {
        if size > UINT_MAX / 2 { return false; }
        size := size * 2;
      }
      var q := new byte[size];
      forall i | 0 <= i < zp { q[i] := zout[i]; }
      zout := q;
      ok := true;
    }

    // A literal byte.
    method PutByte(zp: int, z: byte) returns (ok: bool, zp': int)
      requires Writer() && 0 <= zp <= zout.Length
      modifies `zout, `zoutPos, zout
      ensures Writer() && (zout == old(zout) || (expandable && fresh(zout)))
      ensures ok <==> zp + 1 <= limit
      ensures ok ==> zp' == zp + 1 <= zout.Length && zout[..zp'] == old(zout[..zp]) + [z]
    {
      zp' := zp;
      ok := true;
      if zp >= zout.Length {
        ok := Zexpand(zp, 1);
        if !ok { return; }
        zp' := zoutPos;
      }
      zout[zp'] := z;
      zp' := zp' + 1;
    }

    // A back-reference, copied one byte after the other since source and destination may overlap.
    method PutMatch(zp: int, dist: nat, len: nat) returns (ok: bool, zp': int)
      requires Writer() && 1 <= dist <= zp <= zout.Length && 0 < len
      modifies `zout, `zoutPos, zout
      ensures Writer() && (zout == old(zout) || (expandable && fresh(zout)))
      ensures ok <==> zp + len <= limit
      ensures ok ==> zp' == zp + len <= zout.Length && zout[..zp'] == Copy(old(zout[..zp]), dist, len)
    {
      zp' := zp;
      ok := true;
      if zp + len > zout.Length {
        ok := Zexpand(zp, len);
        if !ok { return; }
        zp' := zoutPos;
      }
      if dist == 1 {
        RunFill(zp', len);
      } else {
        CopyForward(zp', dist, len);
      }
      zp' := zp' + len;
    }

    // A run of one byte.
    method RunFill(zp: int, len: nat)
      requires 1 <= zp && zp + len <= zout.Length && 0 < len
      modifies zout
      ensures zout[..zp + len] == Copy(old(zout[..zp]), 1, len)
    {
      var v, q, n := zout[zp - 1], zp, len;
      ghost var whole := Copy(zout[..zp], 1, len);
      while n > 0
        invariant 0 <= n <= len && q == zp + (len - n) && zout[q - 1] == v
        invariant whole == Copy(zout[..q], 1, n)
      {
        zout[q] := v;
        assert zout[..q + 1] == zout[..q] + [v];
        q, n := q + 1, n - 1;
      }
    }

    method CopyForward(zp: int, dist: nat, len: nat)
      requires 1 <= dist <= zp && zp + len <= zout.Length && 0 < len
      modifies zout
      ensures zout[..zp + len] == Copy(old(zout[..zp]), dist, len)
    {
      var p, q, n := zp - dist, zp, len;
      ghost var whole := Copy(zout[..zp], dist, len);
      while n > 0
        invariant 0 <= n <= len && q == zp + (len - n) && p == q - dist
        invariant whole == Copy(zout[..q], dist, n)
      {
        zout[q] := zout[p];
        assert zout[..q + 1] == zout[..q] + [zout[p]];
        p, q, n := p + 1, q + 1, n - 1;
      }
    }
  
    // ----- compressed blocks

    method ReadExtra(n: nat) returns (k: nat)
      requires Reader() && n <= 16
      modifies `zbuffer, `numBits, `codeBuffer, `pos
      ensures Reader()
      ensures k == Nat(Window(Stream(), old(Here()).pos, n)) && Here() == Taken(old(Here()), n)
    {
      k := 0;
      if n != 0 { k := Zreceive(n); }
    }

    // The rest of a back-reference, after its length symbol `257 + z`.
    method ReadMatch(ghost dl: seq<nat>, z: nat) returns (ok: bool, len: nat, dist: nat)
      requires Reader() && zDistance.Valid() && zDistance.Tables(dl) && |dl| <= 32 && z < 29
      modifies `zbuffer, `numBits, `codeBuffer, `pos
      ensures Reader()
      ensures FindMatch(dl, Stream(), old(Here()), z) == if ok then Some(Found(len, dist, Here())) else None
    {
      hide LengthBase, LengthExtra, DistBase, DistExtra, Look, Taken, Here, Nat, Window, ZHuffman.Tables, Reader;
      ok, dist := false, 0;
      len := LengthBase(z);
      var extra := ReadExtra(LengthExtra(z));
      len := len + extra;
      var d := HuffmanDecode(zDistance, dl);
      if d < 0 || d >= 30 { return; }
      dist := DistBase(d);
      extra := ReadExtra(DistExtra(d));
      dist := dist + extra;
      ok := true;
    }

    // A back-reference read and carried out: `c` is where its length symbol stands.
    method ParseMatch(ghost ll: seq<nat>, ghost dl: seq<nat>, ghost c: Cursor, zp: int, z: nat) returns (ok: bool, zp': int)
      requires Reader() && Writer() && 0 <= zp <= zout.Length && z < 29
      requires zDistance.Tables(dl) && |ll| <= 288 && |dl| <= 32
      requires Look(ll, Stream(), c) == Some(Seen(257 + z, Here()))
      modifies this, zout
      ensures Reader() && Writer() && (zout == old(zout) || (expandable && fresh(zout)))
      ensures ok ==> zp < zp' <= zout.Length
      ensures Inside(ll, dl, Stream(), c, old(zout[..zp]), limit)
           == if ok then Inside(ll, dl, Stream(), Here(), zout[..zp'], limit) else None
    {
      hide Inside, FindMatch, Copy, Look, Here, ZHuffman.Tables, ZHuffman.Valid, ZHuffman.Repr, Reader, Reach, Stream;
      MatchSeen(ll, dl, Stream(), c, zout[..zp], limit, z);
      zp' := zp;
      var len, dist;
      ok, len, dist := ReadMatch(dl, z);
      if !ok { return; }
      if zp < dist { return false, zp; }
      ok, zp' := PutMatch(zp, dist, len);
    }

    // A parser's outcome: the bytes and the cursor the stream leads to, or failure.
    ghost predicate Result(ok: bool, r: Option<Done>)
      reads this, zout
    {
      if ok then 0 <= zoutPos <= zout.Length && r == Some(Done(Contents(), Here())) else r == None
    }

    method ParseHuffmanBlock(ghost ll: seq<nat>, ghost dl: seq<nat>) returns (ok: bool)
      requires Valid() && zLength.Tables(ll) && zDistance.Tables(dl) && |ll| <= 288 && |dl| <= 32
      modifies this, zout
      ensures Reader() && Writer() && (zout == old(zout) || (expandable && fresh(zout)))
      ensures ok ==> Valid()
      ensures Result(ok, Inside(ll, dl, Stream(), old(Here()), old(Contents()), limit))
    {
      hide Inside, FindMatch, Copy, Look, Here, ZHuffman.Tables, ZHuffman.Valid, ZHuffman.Repr, Reader, Reach, Stream;
      var zp := zoutPos;
      ghost var whole := Inside(ll, dl, Stream(), Here(), Contents(), limit);
      while true
        invariant Reader() && Writer() && 0 <= zp <= zout.Length && (zout == old(zout) || (expandable && fresh(zout)))
        invariant zLength.Tables(ll) && zDistance.Tables(dl)
        invariant whole == Inside(ll, dl, Stream(), Here(), zout[..zp], limit)
        decreases limit - zp
      {
        ghost var c, out := Here(), zout[..zp];
        var z := HuffmanDecode(zLength, ll);
        OtherSeen(ll, dl, Stream(), c, out, limit);
        if z < 256 {
          if z < 0 { return false; }
          LiteralSeen(ll, dl, Stream(), c, out, limit, z);
          ok, zp := PutByte(zp, z);
          if !ok { return; }
        } else {
          if z == 256 {
            zoutPos := zp;
            return true;
          }
          if z >= 286 { return false; }
          ok, zp := ParseMatch(ll, dl, c, zp, z - 257);
          if !ok { return; }
        }
      }
    }
  
    // ----- stored blocks

    method ParseUncompressedBlock() returns (ok: bool)
      requires Valid()
      modifies this, zout
      ensures Reader() && Writer() && (zout == old(zout) || (expandable && fresh(zout)))
      ensures ok ==> Valid()
      ensures Result(ok, InStored(Stream(), old(Here()), old(Contents()), limit))
    {
      hide Reader, StreamByte, Nat, Window, Reach, ZHuffman.Valid, ZHuffman.Repr, Stream, BitXor, StreamBytes;
      ghost var p, out0 := pos, Contents();
      var header := ReadStoredHeader();
      StoredHeader(Stream(), Align(p), header[0], header[1], header[2], header[3]);
      var len: nat := header[1] * 256 + header[0];
      var nlen: nat := header[3] * 256 + header[2];
      Complement(len);
      if nlen != BitXor(len, 0xffff) { return false; }
      AtByte(len);
      if zbuffer + len > |input| { return false; }
      if zoutPos + len > zout.Length {
        ok := Zexpand(zoutPos, len);
        if !ok { return; }
      }
      CopyStored(len);
      ok := true;
    }

    // Discards the rest of the current byte, then takes four bytes: first those already in the bit buffer.
    method ReadStoredHeader() returns (header: seq<int>)
      requires Reader()
      modifies `zbuffer, `numBits, `codeBuffer, `pos
      ensures Reader() && numBits == 0 && pos == Align(old(pos)) + 32 && |header| == 4
      ensures forall j :: 0 <= j < 4 ==> header[j] == StreamByte(Stream(), Align(old(pos)) + 8 * j)
    {
      hide StreamByte, Nat, Window, Reader;
      SkipToByte();
      ghost var q := pos;
      header := [];
      while numBits > 0
        invariant Reader() && 0 <= numBits && numBits % 8 == 0 && pos == q + 8 * |header| && numBits + 8 * |header| <= 32
        invariant forall j :: 0 <= j < |header| ==> header[j] == StreamByte(Stream(), q + 8 * j)
        decreases numBits
      {
        var b := BufferedByte();
        header := header + [b];
      }
      while |header| < 4
        invariant Reader() && numBits == 0 && pos == q + 8 * |header| && |header| <= 4
        invariant forall j :: 0 <= j < |header| ==> header[j] == StreamByte(Stream(), q + 8 * j)
        decreases 4 - |header|
      {
        var b := NextByte();
        header := header + [b];
      }
    }

    method SkipToByte()
      requires Reader()
      modifies `zbuffer, `numBits, `codeBuffer, `pos
      ensures Reader() && pos == Align(old(pos)) && 0 <= numBits <= 32 && numBits % 8 == 0
    {
      hide Nat, Window, Stream, Align;
      AlignIs(pos, numBits);
      if numBits % 8 != 0 {
        var _ := Zreceive(numBits % 8);
      }
    }

    static lemma AlignIs(p: nat, n: nat)
      requires (p + n) % 8 == 0
      ensures Align(p) == p + n % 8 && (n - n % 8) % 8 == 0
    {
    }

    method BufferedByte() returns (b: int)
      requires Reader() && numBits >= 8
      modifies `numBits, `codeBuffer, `pos
      ensures Reader() && pos == old(pos) + 8 && numBits == old(numBits) - 8 && b == StreamByte(Stream(), old(pos))
    {
      LowByte(Stream(), pos, numBits);
      b := BitAnd(codeBuffer, 255);
      Drop(8);
    }

    lemma LowByte(s: seq<bool>, p: nat, m: nat)
      requires m >= 8
      ensures BitAnd(Nat(Window(s, p, m)), 255) == StreamByte(s, p)
    {
      TakeBits(s, p, m, 8);
      Pow2Small();
    }

    // `stbi__zget8` with an empty bit buffer.
    method NextByte() returns (b: byte)
      requires Reader() && numBits == 0
      modifies `zbuffer, `codeBuffer, `pos
      ensures Reader() && pos == old(pos) + 8 && b == StreamByte(Stream(), old(pos))
    {
      ByteWindow(input, if pos == 8 * zbuffer then zbuffer else pos / 8);
      b := Zget8();
      pos := pos + 8;
    }

    static lemma StoredHeader(s: seq<bool>, q: nat, a: int, b: int, c: int, d: int)
      requires a == StreamByte(s, q) && b == StreamByte(s, q + 8) && c == StreamByte(s, q + 16) && d == StreamByte(s, q + 24)
      ensures b * 256 + a == Nat(Window(s, q, 16)) && d * 256 + c == Nat(Window(s, q + 16, 16))
    {
      TwoBytes(s, q);
      TwoBytes(s, q + 16);
    }

    static lemma Complement(len: nat)
      requires len < 0x10000
      ensures BitXor(len, 0xffff) == 0xffff - len
    {
      Pow2Small();
      XorOnes(len, 16);
    }

    // With the bit buffer empty the stream position is the byte position, unless the header ran past the end;
    // but then its last byte is 0 and the claimed length is at least 0xff00.
    lemma AtByte(len: nat)
      requires Reader() && numBits == 0 && pos >= 32
      requires Nat(Window(Stream(), pos - 16, 16)) == 0xffff - len
      ensures zbuffer + len > |input| <==> pos + 8 * len > 8 * |input|
      ensures zbuffer + len <= |input| ==> pos == 8 * zbuffer
    {
      if pos > 8 * |input| {
        ByteWindow(input, pos / 8 - 1);
        TwoBytes(Stream(), pos - 16);
      }
    }

    // Whole bytes of the stream are bytes of the input.
    lemma InputBytes(p: nat, len: nat)
      requires p % 8 == 0 && p / 8 + len <= |input|
      ensures StreamBytes(Stream(), p, len) == input[p / 8..p / 8 + len]
    {
      forall i | 0 <= i < len
        ensures StreamBytes(Stream(), p, len)[i] == input[p / 8 + i]
      {
        ByteWindow(input, p / 8 + i);
        assert StreamBytes(Stream(), p, len)[i] == StreamByte(Stream(), p + 8 * i);
      }
    }

    method CopyStored(len: nat)
      requires Valid() && numBits == 0 && pos == 8 * zbuffer && zbuffer + len <= |input| && zoutPos + len <= zout.Length
      modifies this, zout
      ensures Valid() && zout == old(zout) && numBits == 0 && pos == old(pos) + 8 * len
      ensures Contents() == old(Contents()) + StreamBytes(Stream(), old(pos), len)
    {
      forall i | 0 <= i < len { zout[zoutPos + i] := input[zbuffer + i]; }
      InputBytes(pos, len);
      hide StreamBytes;
      zbuffer := zbuffer + len;
      zoutPos := zoutPos + len;
      pos := pos + 8 * len;
      assert Window(Stream(), pos, 0) == [];
    }
  
    // ----- dynamic codes

    // Reads both codes of a dynamic block and builds their tables.
    method ComputeHuffmanCodes() returns (ok: bool, ghost ll: seq<nat>, ghost dl: seq<nat>)
      requires Reader() && zLength.Valid() && zDistance.Valid() && zLength.Repr() !! zDistance.Repr()
      modifies `zbuffer, `numBits, `codeBuffer, `pos, zLength.Repr(), zDistance.Repr()
      ensures Reader()
      ensures FindCodes(Stream(), old(Here())) == if ok then Some(CodesRead(ll, dl, Here())) else None
      ensures ok ==> zLength.Tables(ll) && zDistance.Tables(dl) && |ll| <= 288 && |dl| <= 32
    {
      hide Reader, Here, Nat, Window, FindBoth, Realizable, ZHuffman.Tables, Counts;
      ok, ll, dl := false, [], [];
      var hlit, hdist, hclen := ReadCounts();
      var read, lencodes := ReadBoth(hclen, hlit + hdist);
      if !read { return; }
      ll, dl := lencodes[..hlit], lencodes[hlit..];
      ok := BuildBoth(lencodes[..hlit], lencodes[hlit..]);
    }

    // The lengths of both codes.
    method ReadBoth(hclen: nat, ntot: nat) returns (ok: bool, lencodes: seq<nat>)
      requires Reader() && hclen <= 19 && 0 < ntot <= 320
      modifies `zbuffer, `numBits, `codeBuffer, `pos
      ensures Reader()
      ensures FindBoth(Stream(), old(Here()), hclen, ntot) == if ok then Some(LengthsRead(lencodes, Here())) else None
    {
      hide Reader, Here, Nat, Window, FindLengths, CodeLengthLengths, Realizable, ZHuffman.Tables, Threes;
      ok, lencodes := false, [];
      var sizes := ReadCodeLengthLengths(hclen);
      var z_codelength := new ZHuffman();
      var built := z_codelength.Build(sizes);
      if !built { return; }
      ok, lencodes := ReadLencodes(z_codelength, sizes, ntot);
    }

    method ReadCounts() returns (hlit: nat, hdist: nat, hclen: nat)
      requires Reader()
      modifies `zbuffer, `numBits, `codeBuffer, `pos
      ensures Reader() && Here() == Counts(old(Here()))
      ensures hlit == Nat(Window(Stream(), old(Here()).pos, 5)) + 257 <= 288
      ensures hdist == Nat(Window(Stream(), old(Here()).pos + 5, 5)) + 1 <= 32
      ensures hclen == Nat(Window(Stream(), old(Here()).pos + 10, 4)) + 4 <= 19
    {
      hide Reader, Here, Taken, Nat, Window;
      HeaderBounds(Stream(), Here().pos);
      hlit := Zreceive(5);
      hlit := hlit + 257;
      hdist := Zreceive(5);
      hdist := hdist + 1;
      hclen := Zreceive(4);
      hclen := hclen + 4;
    }

    method BuildBoth(ll: seq<nat>, dl: seq<nat>) returns (ok: bool)
      requires zLength.Valid() && zDistance.Valid() && zLength.Repr() !! zDistance.Repr()
      requires IsLengths(ll) && IsLengths(dl) && |ll| <= 288 && |dl| <= 32
      modifies zLength.Repr(), zDistance.Repr()
      ensures ok <==> Realizable(ll) && Realizable(dl)
      ensures ok ==> zLength.Tables(ll) && zDistance.Tables(dl)
    {
      hide Realizable, ZHuffman.Tables;
      ok := zLength.Build(ll);
      if ok { ok := zDistance.Build(dl); }
    }

    method ReadCodeLengthLengths(hclen: nat) returns (sizes: seq<nat>)
      requires Reader() && hclen <= 19
      modifies `zbuffer, `numBits, `codeBuffer, `pos
      ensures Reader() && Here() == Threes(old(Here()), hclen)
      ensures sizes == CodeLengthLengths(Stream(), old(Here()).pos, hclen) && |sizes| == 19 && IsLengths(sizes)
    {
      hide Reader, Here, Taken, Nat, Window;
      sizes := Repeat0(19);
      for i := 0 to hclen
        invariant Reader() && Here() == Threes(old(Here()), i)
        invariant sizes == CodeLengthLengths(Stream(), old(Here()).pos, i)
      {
        var s := Zreceive(3);
        sizes := sizes[LENGTH_DEZIGZAG[i] := s];
      }
    }

    static function Repeat0(n: nat): (r: seq<nat>)
      ensures r == Repeat(0, n)
    {
      seq(n, i => 0)
    }

    // `lencodes[..n]` grows by single lengths and by runs until it holds `ntot` lengths.
    method ReadLencodes(z: ZHuffman, ghost cl: seq<nat>, ntot: nat) returns (ok: bool, lens: seq<nat>)
      requires Reader() && z.Valid() && z.Tables(cl) && |cl| == 19 && 0 < ntot <= 320
      modifies `zbuffer, `numBits, `codeBuffer, `pos
      ensures Reader()
      ensures FindLengths(cl, Stream(), old(Here()), [], ntot) == if ok then Some(LengthsRead(lens, Here())) else None
    {
      hide Reader, Here, Nat, Window, FindLengths, ZHuffman.Tables, ZHuffman.Valid, Look;
      ok := false;
      var lencodes := new nat[455];
      var n := 0;
      ghost var whole := FindLengths(cl, Stream(), Here(), [], ntot);
      assert lencodes[..0] == [];
      lens := [];
      while n < ntot
        invariant Reader() && 0 <= n <= ntot && z.Tables(cl) && fresh(lencodes)
        invariant IsLengths(lencodes[..n])
        invariant whole == FindLengths(cl, Stream(), Here(), lencodes[..n], ntot)
        decreases ntot - n
      {
        var more;
        more, n := ReadOneLength(z, cl, ntot, lencodes, n);
        if !more { return; }
      }
      AllLengths(cl, Stream(), Here(), lencodes[..n], ntot);
      ok, lens := true, lencodes[..n];
    }

    static lemma AllLengths(cl: seq<nat>, s: seq<bool>, c: Cursor, acc: seq<nat>, total: nat)
      requires |acc| == total && IsLengths(acc)
      ensures FindLengths(cl, s, c, acc, total) == Some(LengthsRead(acc, c))
    {
    }

    method ReadOneLength(z: ZHuffman, ghost cl: seq<nat>, ntot: nat, lencodes: array<nat>, n: nat) returns (ok: bool, n': nat)
      requires Reader() && z.Valid() && z.Tables(cl) && |cl| == 19 && n < ntot <= 320 && lencodes.Length == 455
      requires IsLengths(lencodes[..n]) && lencodes !in z.Repr()
      modifies `zbuffer, `numBits, `codeBuffer, `pos, lencodes
      ensures Reader()
      ensures ok ==> n < n' <= ntot && IsLengths(lencodes[..n'])
      ensures FindLengths(cl, Stream(), old(Here()), old(lencodes[..n]), ntot)
           == if ok then FindLengths(cl, Stream(), Here(), lencodes[..n'], ntot) else None
    {
      hide Reader, Here, Nat, Window, FindLengths, ZHuffman.Tables, ZHuffman.Valid, Look;
      ghost var acc, p := lencodes[..n], Here();
      ok, n' := false, n;
      NoLength(cl, Stream(), p, acc, ntot);
      var c := HuffmanDecode(z, cl);
      if c < 0 || c >= 19 { return; }
      if c < 16 {
        PlainLength(cl, Stream(), p, acc, ntot);
        lencodes[n] := c;
        n' := n + 1;
        assert lencodes[..n'] == acc + [c];
        ok := true;
      } else {
        RepeatLength(cl, Stream(), p, acc, ntot);
        ok, n' := ReadRun(ntot, lencodes, n, c);
      }
    }

    // Codes 16, 17 and 18: repeat the previous length, or zero.
    method ReadRun(ntot: nat, lencodes: array<nat>, n: nat, c: nat) returns (ok: bool, n': nat)
      requires Reader() && n < ntot <= 320 && lencodes.Length == 455 && 16 <= c < 19
      requires IsLengths(lencodes[..n])
      modifies `zbuffer, `numBits, `codeBuffer, `pos, lencodes
      ensures Reader() && Here() == Taken(old(Here()), RepeatBits(c))
      ensures var rep := Nat(Window(Stream(), old(Here()).pos, RepeatBits(c))) + RepeatBase(c);
              ok == !((c == 16 && n == 0) || ntot - n < rep) &&
              (ok ==> n' == n + rep && IsLengths(lencodes[..n']) &&
                      lencodes[..n'] == old(lencodes[..n]) + Repeat(if c == 16 then old(lencodes[n - 1]) else 0, rep))
    {
      hide Reader, Here, Taken, Nat, Window;
      ok, n' := false, n;
      var fill := 0;
      var rep;
      if c == 16 {
        rep := Zreceive(2);
        rep := rep + 3;
        if n == 0 { return; }
        fill := lencodes[n - 1];
        assert fill == lencodes[..n][n - 1];
      } else if c == 17 {
        rep := Zreceive(3);
        rep := rep + 3;
      } else {
        rep := Zreceive(7);
        rep := rep + 11;
      }
      if ntot - n < rep { return; }
      forall i | n <= i < n + rep { lencodes[i] := fill; }
      n' := n + rep;
      assert lencodes[..n'] == old(lencodes[..n]) + Repeat(fill, rep);
      ok := true;
    }
  
    // ----- the whole stream

    method ParseZlibHeader() returns (ok: bool)
      requires zbuffer == 0
      modifies `zbuffer
      ensures ok <==> HeaderOk(input)
      ensures ok ==> zbuffer == 2 < |input|
    {
      hide BitAnd;
      var cmf: int := Zget8();
      var cm := BitAnd(cmf, 15);
      var flg: int := Zget8();
      if Zeof() { return false; }
      if (cmf * 256 + flg) % 31 != 0 { return false; }
      if BitAnd(flg, 32) != 0 { return false; }
      if cm != 8 { return false; }
      ok := true;
    }

    // One block after its final bit and type.
    method ParseBlock(ghost c: Cursor, kind: nat) returns (ok: bool)
      requires Valid() && Here() == Taken(Taken(c, 1), 2) && kind == Nat(Window(Stream(), c.pos + 1, 2))
      modifies this, zout, zLength.Repr(), zDistance.Repr()
      ensures Reader() && Writer() && (zout == old(zout) || (expandable && fresh(zout)))
      ensures ok ==> Valid()
      ensures Result(ok, InBlock(Stream(), c, old(Contents()), limit))
    {
      hide Reader, Here, Taken, Nat, Window, FindCodes, Inside, InStored, Reach, ZHuffman.Tables, Realizable, FixedLengths, FixedDistances;
      TwoBits(Stream(), c.pos + 1);
      if kind == 0 {
        ok := ParseUncompressedBlock();
      } else if kind == 3 {
        return false;
      } else {
        ghost var ll, dl;
        if kind == 1 {
          FixedRealizable();
          var built := BuildBoth(FixedLengths(), FixedDistances());
          if !built { return false; }
          ll, dl := FixedLengths(), FixedDistances();
        } else {
          ok, ll, dl := ComputeHuffmanCodes();
          if !ok { return; }
        }
        ok := ParseHuffmanBlock(ll, dl);
      }
    }

    static lemma TwoBits(s: seq<bool>, p: nat)
      ensures Nat(Window(s, p, 2)) < 4
    {
      NatBound(Window(s, p, 2));
      Pow2Small();
    }

    // Inflates the input.
    method ParseZlib(parseHeader: bool) returns (ok: bool)
      requires Valid() && zbuffer == 0 && pos == 0 && numBits == 0 && zoutPos == 0
      modifies this, zout, zLength.Repr(), zDistance.Repr()
      ensures zout == old(zout) || (expandable && fresh(zout))
      ensures ok ==> Valid()
      ensures Result(ok, Inflated(input, parseHeader, limit))
    {
      hide InBlocks, HeaderOk, Reach;
      if parseHeader {
        ok := ParseZlibHeader();
        if !ok { return; }
        pos := 16;
      }
      numBits, codeBuffer := 0, 0;
      assert Window(Stream(), pos, 0) == [];
      ok := ParseBlocks();
    }

    method ParseBlocks() returns (ok: bool)
      requires Valid()
      modifies this, zout, zLength.Repr(), zDistance.Repr()
      ensures zout == old(zout) || (expandable && fresh(zout))
      ensures ok ==> Valid()
      ensures Result(ok, InBlocks(Stream(), old(Here()), old(Contents()), limit))
    {
      hide Reader, Nat, Window, InBlock, InBlocks, Reach, ZHuffman.Valid, ZHuffman.Repr, Stream;
      ghost var whole := InBlocks(Stream(), Here(), Contents(), limit);
      var final := false;
      while !final
        invariant Valid() && (zout == old(zout) || (expandable && fresh(zout)))
        invariant if final then whole == Some(Done(Contents(), Here()))
                  else whole == InBlocks(Stream(), Here(), Contents(), limit)
        decreases !final, if pos < 8 * |input| then 8 * |input| - pos else 0
      {
        ghost var c, out := Here(), Contents();
        var bit := Zreceive(1);
        var kind := Zreceive(2);
        ok := ParseBlock(c, kind);
        NextBlock(Stream(), c, out, limit, bit);
        if !ok { return; }
        final := bit != 0;
      }
      ok := true;
    }
    }

  // ----- entry points

  // `stbi_zlib_decode_malloc_guesssize_headerflag`, with the buffer it returns as a sequence.
  method DecodeMalloc(buffer: seq<byte>, initialSize: nat, parseHeader: bool) returns (r: Option<seq<byte>>)
    requires 0 < initialSize <= UINT_MAX
    ensures var i := Inflated(buffer, parseHeader, Reach(initialSize));
            r == if i.Some? then Some(i.value.out) else None
  {
    hide Inflated, Reach;
    var p := new byte[initialSize];
    var a := new ZBuf(buffer, p, true);
    var ok := a.ParseZlib(parseHeader);
    r := if ok then Some(a.zout[..a.zoutPos]) else None;
  }

  // `stbi_zlib_decode_buffer` and `stbi_zlib_decode_noheader_buffer`: into a buffer of fixed size.
  method DecodeBuffer(obuffer: array<byte>, ibuffer: seq<byte>, parseHeader: bool) returns (n: int)
    requires obuffer.Length <= UINT_MAX
    modifies obuffer
    ensures match Inflated(ibuffer, parseHeader, obuffer.Length)
            case None => n == -1
            case Some(Done(out, c)) => n == |out| <= obuffer.Length && obuffer[..n] == out
  {
    hide Inflated, Reach;
    var a := new ZBuf(ibuffer, obuffer, false);
    var ok := a.ParseZlib(parseHeader);
    n := if ok then a.zoutPos else -1;
  }
}
