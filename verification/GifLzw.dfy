// GIF LZW (GIF89a Appendix F): `stbi__process_gif_raster` with its linked prefix table, against a dictionary of strings.

module GifLzw {
  import opened BitStream
  import opened GifRaster
  import opened InputContext
  import opened Wrappers

  // ----- the data of the raster

  function Bytes(d: seq<byte>, at: nat, n: nat): (r: seq<byte>)
    ensures |r| == n
  {
    seq<byte>(n, k requires 0 <= k < n => ByteAt(d, at + k))
  }

  // The contents of the data sub-blocks from `at` on, up to an empty one or the end of the input.
  ghost function SubBlocks(d: seq<byte>, at: nat): seq<byte>
    decreases if at < |d| then |d| - at else 0
  {
    if ByteAt(d, at) == 0 then [] else Bytes(d, at + 1, d[at]) + SubBlocks(d, at + 1 + d[at])
  }

  // ----- decoding with a dictionary of strings

  // `prev` is the previous code; `cleared` whether there has been a clear code.
  datatype State = State(dict: seq<seq<byte>>, prev: Option<nat>, size: nat, cleared: bool)

  datatype Result = Done(indices: seq<byte>) | Fail

  // One string of one index for each index; the clear and end codes stand for nothing.
  ghost function Roots(clear: nat): (dict: seq<seq<byte>>)
    ensures |dict| == clear + 2
    ensures forall c :: 0 <= c < clear ==> dict[c] == [c % 256]
  {
    seq(clear + 2, c requires 0 <= c < clear + 2 => if c < clear then [(c % 256) as byte] else [])
  }

  ghost predicate IsDict(dict: seq<seq<byte>>, clear: nat) {
    clear + 2 <= |dict| <= 8192 && forall c :: 0 <= c < |dict| && c != clear && c != clear + 1 ==> dict[c] != []
  }

  ghost predicate IsCode(dict: seq<seq<byte>>, clear: nat, c: nat) {
    c < |dict| && c != clear && c != clear + 1
  }

  // After a previous code, each code adds one string: the previous one and the first index of the current one, which
  // may be the string just being added.
  ghost function Grow(dict: seq<seq<byte>>, clear: nat, prev: Option<nat>, c: nat): (r: Option<seq<seq<byte>>>)
    requires IsDict(dict, clear) && c <= |dict| && c != clear && c != clear + 1 && (prev.Some? ==> IsCode(dict, clear, prev.value))
    ensures r.Some? ==> IsDict(r.value, clear) && IsCode(r.value, clear, c)
  {
    match prev
    case None => if c == |dict| then None else Some(dict)
    case Some(o) =>
      if |dict| >= 8192 then None
      else Some(dict + [dict[o] + [if c == |dict| then dict[o][0] else dict[c][0]]])
  }

  // Codes get longer when the dictionary is full for their length, up to twelve bits.
  function NextSize(n: nat, size: nat): nat {
    if n % Pow2(size) == 0 && n <= 0x0FFF then size + 1 else size
  }

  ghost predicate IsState(st: State, clear: nat) {
    IsDict(st.dict, clear) && (st.prev.Some? ==> IsCode(st.dict, clear, st.prev.value)) && 1 <= st.size <= 13
  }

  ghost function Start(cs: nat, cleared: bool): (st: State)
    requires cs <= 12
    ensures IsState(st, Pow2(cs))
  {
    RootsFit(cs);
    State(Roots(Pow2(cs)), None, cs + 1, cleared)
  }

  lemma RootsFit(cs: nat)
    requires cs <= 12
    ensures Pow2(cs) <= 4096
  {
    Pow2Monotone(cs, 12);
    Pow2Small();
    assert Pow2(12) == 4 * Pow2(10);
  }

  lemma SizeBound(n: nat, size: nat)
    requires size <= 13 && n > 0
    ensures NextSize(n, size) <= 13
  {
    if size == 13 && n <= 0x0FFF {
      Pow2Small();
      assert n % 8192 == n;
    }
  }

  // The indices the bits of `s` from `p` on stand for, after those in `out`.
  ghost function Decode(cs: nat, s: seq<bool>, p: nat, st: State, out: seq<byte>): Result
    requires cs <= 12 && IsState(st, Pow2(cs))
    decreases if p < |s| then |s| - p else 0
  {
    var clear := Pow2(cs);
    if p + st.size > |s| then Done(out)
    else
      var c := Nat(Window(s, p, st.size));
      if c == clear then Decode(cs, s, p + st.size, Start(cs, true), out)
      else if c == clear + 1 then Done(out)
      else if c > |st.dict| || !st.cleared then Fail
      else match Grow(st.dict, clear, st.prev, c)
        case None => Fail
        case Some(dict) =>
          SizeBound(|dict|, st.size);
          Decode(cs, s, p + st.size, State(dict, Some(c), NextSize(|dict|, st.size), true), out + dict[c])
  }

  // ----- the bit buffer

  // What the decoder has read of `data`, the contents of the sub-blocks: it stands at bit `p`, `valid` bits after it are
  // in `bits`, and the input is `len` bytes before the end of a sub-block.
  ghost predicate Feed(data: seq<byte>, d: seq<byte>, at: nat, len: nat, p: nat, bits: nat, valid: nat) {
    (p + valid) % 8 == 0 && p + valid <= 8 * |data| && bits == Nat(Window(BytesBits(data), p, valid)) &&
    data[(p + valid) / 8..] == Bytes(d, at, len) + SubBlocks(d, at + len)
  }

  lemma FeedStart(d: seq<byte>, at: nat)
    ensures Feed(SubBlocks(d, at), d, at, 0, 0, 0, 0)
  {
    assert Window(BytesBits(SubBlocks(d, at)), 0, 0) == [];
    assert Bytes(d, at, 0) == [];
  }

  // Where `stbi__get8` leaves the cursor.
  function Next(d: seq<byte>, at: nat): nat { if at < |d| then at + 1 else at }

  lemma FeedBlock(data: seq<byte>, d: seq<byte>, at: nat, p: nat, bits: nat, valid: nat)
    requires Feed(data, d, at, 0, p, bits, valid)
    ensures ByteAt(d, at) == 0 ==> p + valid == 8 * |data|
    ensures ByteAt(d, at) != 0 ==> Feed(data, d, Next(d, at), ByteAt(d, at), p, bits, valid)
  {
    assert Bytes(d, at, 0) == [];
    hide Bytes, BytesBits, Nat, Window;
    if ByteAt(d, at) == 0 { assert data[(p + valid) / 8..] == []; }
  }

  lemma BytesNext(d: seq<byte>, at: nat, len: nat)
    requires len > 0
    ensures Bytes(d, at, len) + SubBlocks(d, at + len)
            == [ByteAt(d, at)] + (Bytes(d, Next(d, at), len - 1) + SubBlocks(d, Next(d, at) + (len - 1)))
  {
    var x, y := Bytes(d, at, len), Bytes(d, Next(d, at), len - 1);
    assert x == [ByteAt(d, at)] + y by {
      forall k | 0 <= k < len - 1
        ensures x[k + 1] == y[k]
      {
        assert x[k + 1] == ByteAt(d, at + (k + 1)) && y[k] == ByteAt(d, Next(d, at) + k);
      }
    }
    assert SubBlocks(d, at + len) == SubBlocks(d, Next(d, at) + (len - 1));
  }

  lemma FeedByte(data: seq<byte>, d: seq<byte>, at: nat, len: nat, p: nat, bits: nat, valid: nat)
    requires Feed(data, d, at, len, p, bits, valid) && len > 0
    ensures Feed(data, d, Next(d, at), len - 1, p, BitOr(bits, Shl(ByteAt(d, at), valid)), valid + 8)
  {
    hide Bytes, SubBlocks, BytesBits, Nat, Window, BitOr, Shl;
    BytesNext(d, at, len);
    var n, s := (p + valid) / 8, BytesBits(data);
    assert data[n..] != [] && data[n] == data[n..][0];
    assert data[n + 1..] == data[n..][1..];
    ByteWindow(data, n);
    WindowConcat(s, p, valid, 8);
    OrAppends(Window(s, p, valid), Window(s, p + valid, 8));
  }

  lemma FeedCode(data: seq<byte>, d: seq<byte>, at: nat, len: nat, p: nat, bits: nat, valid: nat, size: nat)
    requires Feed(data, d, at, len, p, bits, valid) && size <= valid
    ensures BitAnd(bits, Shl(1, size) - 1) == Nat(Window(BytesBits(data), p, size))
    ensures Feed(data, d, at, len, p + size, Shr(bits, size), valid - size)
  {
    hide Bytes, SubBlocks, BytesBits;
    var s := BytesBits(data);
    AndMask(bits, size);
    WindowConcat(s, p, size, valid - size);
    NatSplit(Window(s, p, valid), size);
  }

  // ----- the linked table

  // What one table entry says about string `c`.
  ghost predicate EntryOk(dict: seq<seq<byte>>, clear: nat, c: nat, prefix: int, first: byte, suffix: byte)
    requires c < |dict|
  {
    dict[c] != [] && first == dict[c][0] &&
    if prefix < 0 then dict[c] == [suffix]
    else prefix < c && IsCode(dict, clear, prefix) && dict[c] == dict[prefix] + [suffix]
  }

  class Gif {
    const raster: Raster
    const prefix: array<int>
    const first: array<byte>
    const suffix: array<byte>

    ghost predicate Valid()
      reads raster, raster.out
    {
      raster.Valid() && prefix.Length == first.Length == suffix.Length == 8192 && first != suffix &&
      first != raster.history && suffix != raster.history
    }

    ghost predicate Table(dict: seq<seq<byte>>, clear: nat)
      requires prefix.Length == first.Length == suffix.Length == 8192
      reads prefix, first, suffix
    {
      |dict| <= 8192 && forall c :: 0 <= c < |dict| && c != clear && c != clear + 1 ==>
        EntryOk(dict, clear, c, prefix[c], first[c], suffix[c])
    }

    constructor (raster: Raster)
      requires raster.Valid()
      ensures Valid() && this.raster == raster && fresh(prefix) && fresh(first) && fresh(suffix)
    {
      this.raster := raster;
      prefix := new int[8192];
      first := new byte[8192];
      suffix := new byte[8192];
    }

    // `stbi__out_gif_code`: plots the whole string of `code`, prefixes first. Each prefix has a smaller number, so the
    // recursion ends.
    method OutGifCode(code: nat, ghost dict: seq<seq<byte>>, ghost clear: nat)
      requires Valid() && Table(dict, clear) && IsCode(dict, clear, code)
      modifies raster, raster.out, raster.history
      ensures Valid() && Table(dict, clear) && raster.emitted == old(raster.emitted) + dict[code]
      decreases code
    {
      hide Raster.Valid;
      assert EntryOk(dict, clear, code, prefix[code], first[code], suffix[code]);
      if prefix[code] >= 0 {
        OutGifCode(prefix[code], dict, clear);
      }
      raster.Plot(suffix[code]);
      assert dict[code] == (if prefix[code] >= 0 then dict[prefix[code]] else []) + [suffix[code]];
    }

    method InitCodes(clear: nat)
      requires prefix.Length == first.Length == suffix.Length == 8192 && first != suffix && clear <= 4096
      modifies prefix, first, suffix
      ensures Table(Roots(clear), clear)
    {
      for code := 0 to clear
        invariant forall c :: 0 <= c < code ==> prefix[c] == -1 && first[c] == suffix[c] == c % 256
      {
        prefix[code] := -1;
        first[code] := code % 256;
        suffix[code] := code % 256;
      }
    }

    // The new entry after code `oldcode` was followed by `code`.
    method AddEntry(avail: nat, oldcode: nat, code: nat, ghost dict: seq<seq<byte>>, ghost clear: nat)
      requires Valid() && Table(dict, clear) && IsDict(dict, clear) && avail == |dict| < 8192 && IsCode(dict, clear, oldcode)
      requires code <= avail && code != clear && code != clear + 1
      modifies prefix, first, suffix
      ensures Valid() && Grow(dict, clear, Some(oldcode), code).Some?
      ensures Table(Grow(dict, clear, Some(oldcode), code).value, clear)
    {
      hide Raster.Valid;
      assert EntryOk(dict, clear, oldcode, prefix[oldcode], first[oldcode], suffix[oldcode]);
      if code < avail { assert EntryOk(dict, clear, code, prefix[code], first[code], suffix[code]); }
      ghost var dict' := Grow(dict, clear, Some(oldcode), code).value;
      prefix[avail] := oldcode;
      var start := first[oldcode];
      first[avail] := start;
      // The source compares with `avail` after incrementing it, so the first alternative is never taken; the string just
      // being added gets its last index from its own first one, which is already in place.
      suffix[avail] := if code == avail + 1 then start else first[code];
      forall c | 0 <= c < |dict'| && c != clear && c != clear + 1
        ensures EntryOk(dict', clear, c, prefix[c], first[c], suffix[c])
      {
        if c < avail { assert EntryOk(dict, clear, c, prefix[c], first[c], suffix[c]); }
      }
    }
  
    // ----- stbi__process_gif_raster

    static lemma StartIs(cs: nat, cleared: bool)
      requires cs <= 12
      ensures Start(cs, cleared) == State(Roots(Pow2(cs)), None, cs + 1, cleared) && |Roots(Pow2(cs))| == Pow2(cs) + 2
    {
    }

    static lemma FeedBound(data: seq<byte>, d: seq<byte>, at: nat, len: nat, p: nat, bits: nat, valid: nat)
      requires Feed(data, d, at, len, p, bits, valid)
      ensures p + valid <= |BytesBits(data)|
    {
    }

    // The single-index strings are never overwritten.
    lemma RootsStay(dict: seq<seq<byte>>, clear: nat)
      requires prefix.Length == first.Length == suffix.Length == 8192 && Table(dict, clear) && Roots(clear) <= dict
      ensures Table(Roots(clear), clear)
    {
      forall c | 0 <= c < clear
        ensures EntryOk(Roots(clear), clear, c, prefix[c], first[c], suffix[c])
      {
        assert EntryOk(dict, clear, c, prefix[c], first[c], suffix[c]);
        assert dict[c] == Roots(clear)[c];
      }
    }

    static lemma ShlOne(n: nat)
      ensures Shl(1, n) == Pow2(n)
    {
    }

    static lemma Exhausted(cs: nat, s: seq<bool>, p: nat, st: State, out: seq<byte>)
      requires cs <= 12 && IsState(st, Pow2(cs)) && p + st.size > |s|
      ensures Decode(cs, s, p, st, out) == Done(out)
    {
    }

    static lemma CodeStep(cs: nat, s: seq<bool>, p: nat, st: State, out: seq<byte>, c: nat)
      requires cs <= 12 && IsState(st, Pow2(cs)) && p + st.size <= |s| && c == Nat(Window(s, p, st.size))
      ensures var r, clear := Decode(cs, s, p, st, out), Pow2(cs);
        if c == clear then r == Decode(cs, s, p + st.size, Start(cs, true), out)
        else if c == clear + 1 then r == Done(out)
        else if c > |st.dict| || !st.cleared then r == Fail
        else match Grow(st.dict, clear, st.prev, c)
             case None => r == Fail
             case Some(dict) =>
               var st' := State(dict, Some(c), NextSize(|dict|, st.size), true);
               IsState(st', clear) && r == Decode(cs, s, p + st.size, st', out + dict[c])
    {
      hide Grow, Start, Nat, Window, NextSize;
      if c != Pow2(cs) && c != Pow2(cs) + 1 && c <= |st.dict| {
        var g := Grow(st.dict, Pow2(cs), st.prev, c);
        if g.Some? { SizeBound(|g.value|, st.size); NextSizeGrows(|g.value|, st.size); }
      }
    }

    static lemma NextSizeGrows(n: nat, size: nat)
      ensures NextSize(n, size) >= size
    {
    }

    // After the end code: the remaining sub-blocks are skipped.
    method SkipRest(s: Context, len0: nat)
      modifies s
    {
      s.Skip(len0);
      var len: int := s.Get8();
      while len > 0
        decreases if s.at < |s.data| then |s.data| - s.at else 0, len
      {
        s.Skip(len);
        len := s.Get8();
      }
    }

    // The next byte of the sub-blocks into the bit buffer; `more` is false at the empty sub-block.
    method FetchByte(s: Context, len0: nat, bits0: nat, valid0: nat, ghost data: seq<byte>, ghost p: nat)
      returns (more: bool, len: nat, bits: nat, valid: nat)
      requires Feed(data, s.data, s.at, len0, p, bits0, valid0)
      modifies s
      ensures !more ==> p + valid0 == |BytesBits(data)|
      ensures more ==> valid == valid0 + 8 && Feed(data, s.data, s.at, len, p, bits, valid)
    {
      hide Feed, BytesBits, BitOr, Shl;
      len, bits, valid := len0, bits0, valid0;
      if len == 0 {
        FeedBlock(data, s.data, s.at, p, bits, valid);
        var b := s.Get8();
        len := b;
        if len == 0 {
          BytesBitsLength(data);
          return false, len, bits, valid;
        }
      }
      FeedByte(data, s.data, s.at, len, p, bits, valid);
      len := len - 1;
      var b := s.Get8();
      bits := BitOr(bits, Shl(b, valid));
      valid := valid + 8;
      more := true;
    }

    // A code that is neither the clear nor the end code: adds the new entry, then plots the code's string.
    method TakeCode(code: nat, avail0: nat, oldcode: int, ghost st: State, ghost clear: nat) returns (ok: bool, avail: nat)
      requires Valid() && IsState(st, clear) && Table(st.dict, clear) && avail0 == |st.dict|
      requires oldcode == (if st.prev.Some? then st.prev.value else -1)
      requires code <= avail0 && code != clear && code != clear + 1
      modifies prefix, first, suffix, raster, raster.out, raster.history
      ensures Valid()
      ensures var g := Grow(st.dict, clear, st.prev, code);
        ok == g.Some? &&
        (ok ==> avail == |g.value| && Table(g.value, clear) && raster.emitted == old(raster.emitted) + g.value[code])
    {
      hide Raster.Valid, EntryOk;
      ghost var dict := st.dict;
      avail := avail0;
      if oldcode >= 0 {
        avail := avail + 1;
        if avail > 8192 { return false, avail; }
        AddEntry(avail - 1, oldcode, code, st.dict, clear);
        dict := Grow(st.dict, clear, st.prev, code).value;
      } else if code == avail {
        return false, avail;
      }
      OutGifCode(code, dict, clear);
      ok := true;
    }

    method ProcessGifRaster(s: Context) returns (ok: bool)
      requires Valid() && raster.emitted == []
      modifies s, prefix, first, suffix, raster, raster.out, raster.history
      ensures Valid()
      ensures var cs := ByteAt(s.data, old(s.at));
        if cs > 12 then !ok
        else var data := SubBlocks(s.data, Next(s.data, old(s.at)));
             var r := Decode(cs, BytesBits(data), 0, Start(cs, false), []);
             if ok then r == Done(raster.emitted) else r == Fail
    {
      hide Raster.Valid, Decode, SubBlocks, Feed, BytesBits, Start, Nat, Window, BitAnd, BitOr, Shl, Shr, Grow, EntryOk, NextSize, Gif.Table, IsDict, Roots;
      var lzw_cs := s.Get8();
      if lzw_cs > 12 { return false; }
      ghost var cs, d, data := lzw_cs, s.data, SubBlocks(s.data, s.at);
      ghost var bs := BytesBits(data);
      ghost var p: nat, st := 0, Start(cs, false);
      RootsFit(cs);
      StartIs(cs, false);
      FeedStart(d, s.at);
      var clear := Shl(1, lzw_cs);
      ShlOne(lzw_cs);
      var codesize: nat := lzw_cs + 1;
      InitCodes(clear);
      var avail, oldcode: int, firstCode := clear + 2, -1, true;
      var len: nat, bits: nat, valid: nat := 0, 0, 0;
      while true
        invariant Valid() && s.data == d && clear == Pow2(cs) <= 4096 && cs <= 12
        invariant IsState(st, clear) && Table(st.dict, clear) && avail == |st.dict| && codesize == st.size
        invariant oldcode == (if st.prev.Some? then st.prev.value else -1) && firstCode == !st.cleared
        invariant Roots(clear) <= st.dict && Feed(data, d, s.at, len, p, bits, valid) && p + valid <= |bs|
        invariant Decode(cs, bs, 0, Start(cs, false), []) == Decode(cs, bs, p, st, raster.emitted)
        decreases |bs| - p, |bs| - p - valid
      {
        if valid < codesize {
          var more;
          more, len, bits, valid := FetchByte(s, len, bits, valid, data, p);
          if !more {
            Exhausted(cs, bs, p, st, raster.emitted);
            return true;
          }
          FeedBound(data, d, s.at, len, p, bits, valid);
        } else {
          FeedCode(data, d, s.at, len, p, bits, valid, codesize);
          ShlOne(codesize);
          var code := BitAnd(bits, Shl(1, codesize) - 1);
          bits := Shr(bits, codesize);
          valid := valid - codesize;
          CodeStep(cs, bs, p, st, raster.emitted, code);
          p := p + codesize;
          if code == clear {
            StartIs(cs, true);
            RootsStay(st.dict, clear);
            codesize := lzw_cs + 1;
            avail, oldcode, firstCode := clear + 2, -1, false;
            st := Start(cs, true);
          } else if code == clear + 1 {
            SkipRest(s, len);
            return true;
          } else if code <= avail {
            if firstCode { return false; }
            GrowKeeps(st.dict, clear, st.prev, code);
            var added;
            added, avail := TakeCode(code, avail, oldcode, st, clear);
            if !added { return false; }
            NextSizeIs(avail, codesize);
            if BitAnd(avail, Shl(1, codesize) - 1) == 0 && avail <= 0x0FFF {
              codesize := codesize + 1;
            }
            oldcode := code;
            st := State(Grow(st.dict, clear, st.prev, code).value, Some(code), codesize, true);
          } else {
            return false;
          }
        }
      }
    }

    static lemma GrowKeeps(dict: seq<seq<byte>>, clear: nat, prev: Option<nat>, c: nat)
      requires IsDict(dict, clear) && c <= |dict| && c != clear && c != clear + 1
      requires prev.Some? ==> IsCode(dict, clear, prev.value)
      ensures var g := Grow(dict, clear, prev, c); g.Some? ==> dict <= g.value
    {
    }

    static lemma NextSizeIs(n: nat, size: nat)
      ensures (BitAnd(n, Shl(1, size) - 1) == 0 && n <= 0x0FFF) == (NextSize(n, size) == size + 1)
      ensures NextSize(n, size) in {size, size + 1}
    {
      ShlOne(size);
      AndMask(n, size);
    }

    static lemma BytesBitsLength(data: seq<byte>)
      ensures |BytesBits(data)| == 8 * |data|
    {
    }
  }
}
