// What a DEFLATE stream means: RFC 1951 sections 3.2.3 to 3.2.7, as functions on the bits of the
// stream. Positions count bits. Reading past the end gives zero bits, except that the
// bytes of a stored block must be there. `limit` is the room there is for output.

module Deflate {
  import opened BitStream
  import opened Huffman
  import opened Wrappers

  datatype Parsed = Parsed(out: seq<byte>, pos: nat)

  const LENGTH_BASE: seq<nat> :=
    [3, 4, 5, 6, 7, 8, 9, 10, 11, 13, 15, 17, 19, 23, 27, 31, 35, 43, 51, 59, 67, 83, 99, 115, 131, 163, 195, 227, 258, 0, 0]

  const LENGTH_EXTRA: seq<nat> :=
    [0, 0, 0, 0, 0, 0, 0, 0, 1, 1, 1, 1, 2, 2, 2, 2, 3, 3, 3, 3, 4, 4, 4, 4, 5, 5, 5, 5, 0, 0, 0]

  const DIST_BASE: seq<nat> :=
    [1, 2, 3, 4, 5, 7, 9, 13, 17, 25, 33, 49, 65, 97, 129, 193, 257, 385, 513, 769, 1025, 1537, 2049, 3073, 4097, 6145,
     8193, 12289, 16385, 24577, 0, 0]

  const DIST_EXTRA: seq<nat> :=
    [0, 0, 0, 0, 1, 1, 2, 2, 3, 3, 4, 4, 5, 5, 6, 6, 7, 7, 8, 8, 9, 9, 10, 10, 11, 11, 12, 12, 13, 13, 0, 0]

  function LengthBase(z: nat): (r: nat)
    requires z < 29
    ensures 3 <= r <= 258
  {
    LENGTH_BASE[z]
  }

  function LengthExtra(z: nat): (r: nat)
    requires z < 29
    ensures r <= 5
  {
    LENGTH_EXTRA[z]
  }

  function DistBase(d: nat): (r: nat)
    requires d < 30
    ensures 1 <= r <= 24577
  {
    DIST_BASE[d]
  }

  function DistExtra(d: nat): (r: nat)
    requires d < 30
    ensures r <= 13
  {
    DIST_EXTRA[d]
  }

  const LENGTH_DEZIGZAG: seq<nat> := [16, 17, 18, 0, 8, 7, 9, 6, 10, 5, 11, 4, 12, 3, 13, 2, 14, 1, 15]

  // ----- the fixed codes

  function FixedLength(n: nat): (l: nat)
    ensures l <= 15
  {
    if n <= 143 then 8 else if n <= 255 then 9 else if n <= 279 then 7 else 8
  }

  function FixedLengths(): (lens: seq<nat>)
    ensures |lens| == 288
  {
    seq(288, i requires 0 <= i < 288 => FixedLength(i))
  }

  function FixedDistances(): (lens: seq<nat>)
    ensures |lens| == 32
  {
    seq(32, i => 5)
  }

  lemma FixedRealizable()
    ensures Realizable(FixedLengths()) && Realizable(FixedDistances())
    ensures IsLengths(FixedLengths()) && IsLengths(FixedDistances())
  {
    hide Realizable, Kraft;
    KraftOfRuns(FixedLengths());
    KraftOfFives(FixedDistances());
  }

  lemma KraftOfFives(lens: seq<nat>)
    requires |lens| == 32 && forall i :: 0 <= i < 32 ==> lens[i] == 5
    ensures Realizable(lens)
  {
    assert Kraft(lens, 0) == 0;
    KraftRun(lens, 0, 32, 5);
    hide Kraft;
    Pow2Small();
  }

  lemma KraftOfRuns(lens: seq<nat>)
    requires |lens| == 288 && forall i :: 0 <= i < 288 ==> lens[i] == FixedLength(i)
    ensures Realizable(lens)
  {
    assert Kraft(lens, 0) == 0;
    KraftRun(lens, 0, 144, 8);
    KraftRun(lens, 144, 256, 9);
    KraftRun(lens, 256, 280, 7);
    KraftRun(lens, 280, 288, 8);
    hide Kraft, FixedLength;
    Pow2Small();
  }

  lemma KraftNext(lens: seq<nat>, b: nat)
    requires WithinWord(lens) && b < |lens| && lens[b] > 0
    ensures Kraft(lens, b + 1) == Kraft(lens, b) + Pow2(16 - lens[b])
  {
  }

  lemma {:induction false} KraftRun(lens: seq<nat>, a: nat, b: nat, l: nat)
    requires WithinWord(lens) && a <= b <= |lens| && 0 < l <= 16
    requires forall i :: a <= i < b ==> lens[i] == l
    ensures Kraft(lens, b) == Kraft(lens, a) + (b - a) * Pow2(16 - l)
    decreases b - a
  {
    hide Kraft, Pow2;
    if a < b {
      KraftRun(lens, a, b - 1, l);
      KraftNext(lens, b - 1);
      var p := Pow2(16 - l);
      Distribute(b - 1 - a, 1, p);
    }
  }

  // ----- symbols of a compressed block

  // A back-reference copies byte by byte, so that it may overlap what it produces.
  ghost function Copy(out: seq<byte>, dist: nat, len: nat): (r: seq<byte>)
    requires 1 <= dist <= |out|
    ensures |r| == |out| + len && out <= r
    decreases len
  {
    if len == 0 then out else Copy(out + [out[|out| - dist]], dist, len - 1)
  }

  datatype Match = Match(len: nat, dist: nat, pos: nat)

  // What follows length symbol `257 + z`: extra length bits, a distance symbol, extra distance bits.
  ghost function MatchAt(dl: seq<nat>, s: seq<bool>, p: nat, z: nat): (r: Option<Match>)
    requires |dl| <= 32 && z < 29
    ensures r.Some? ==> r.value.len > 0 && r.value.dist > 0 && r.value.pos > p
  {
    var len := LengthBase(z) + Nat(Window(s, p, LengthExtra(z)));
    var p := p + LengthExtra(z);
    match Symbol(dl, s, p)
    case None => None
    case Some(d) =>
      if d >= 30 then None
      else
        var p := p + dl[d];
        Some(Match(len, DistBase(d) + Nat(Window(s, p, DistExtra(d))), p + DistExtra(d)))
  }

  ghost function Symbols(ll: seq<nat>, dl: seq<nat>, s: seq<bool>, p: nat, out: seq<byte>, limit: nat): (r: Option<Parsed>)
    requires |ll| <= 288 && |dl| <= 32 && |out| <= limit
    ensures r.Some? ==> r.value.pos > p && |out| <= |r.value.out| <= limit
    decreases limit - |out|
  {
    match Symbol(ll, s, p)
    case None => None
    case Some(z) =>
      var p := p + ll[z];
      if z < 256 then
        if |out| + 1 > limit then None else Symbols(ll, dl, s, p, out + [z], limit)
      else if z == 256 then Some(Parsed(out, p))
      else if z >= 286 then None
      else match MatchAt(dl, s, p, z - 257)
        case None => None
        case Some(Match(len, dist, q)) =>
          if |out| < dist || |out| + len > limit then None
          else Symbols(ll, dl, s, q, Copy(out, dist, len), limit)
  }

  // One symbol of a compressed block at a time.
  lemma LiteralStep(ll: seq<nat>, dl: seq<nat>, s: seq<bool>, p: nat, out: seq<byte>, limit: nat, z: byte)
    requires |ll| <= 288 && |dl| <= 32 && |out| <= limit && Symbol(ll, s, p) == Some(z)
    ensures |out| + 1 <= limit ==> Symbols(ll, dl, s, p, out, limit) == Symbols(ll, dl, s, p + ll[z], out + [z], limit)
    ensures |out| + 1 > limit ==> Symbols(ll, dl, s, p, out, limit) == None
  {
  }

  lemma MatchStep(ll: seq<nat>, dl: seq<nat>, s: seq<bool>, p: nat, out: seq<byte>, limit: nat, z: nat)
    requires |ll| <= 288 && |dl| <= 32 && |out| <= limit && Symbol(ll, s, p) == Some(257 + z) && z < 29
    ensures var r := Symbols(ll, dl, s, p, out, limit);
            match MatchAt(dl, s, p + ll[257 + z], z)
            case None => r == None
            case Some(Match(len, dist, q)) =>
              (r.Some? ==> r.value.pos > q) &&
              if |out| < dist || |out| + len > limit then r == None
              else r == Symbols(ll, dl, s, q, Copy(out, dist, len), limit)
  {
    hide MatchAt, Copy;
  }

  lemma OtherStep(ll: seq<nat>, dl: seq<nat>, s: seq<bool>, p: nat, out: seq<byte>, limit: nat)
    requires |ll| <= 288 && |dl| <= 32 && |out| <= limit
    ensures Symbol(ll, s, p) == None ==> Symbols(ll, dl, s, p, out, limit) == None
    ensures Symbol(ll, s, p) == Some(256) ==> Symbols(ll, dl, s, p, out, limit) == Some(Parsed(out, p + ll[256]))
    ensures Symbol(ll, s, p).Some? && Symbol(ll, s, p).value >= 286 ==> Symbols(ll, dl, s, p, out, limit) == None
  {
  }

  // ----- stored blocks

  function Align(p: nat): (q: nat)
    ensures p <= q < p + 8 && q % 8 == 0
  {
    if p % 8 == 0 then p else p + 8 - p % 8
  }

  ghost function StreamBytes(s: seq<bool>, p: nat, n: nat): (d: seq<byte>)
    ensures |d| == n
  {
    seq(n, i requires 0 <= i < n => StreamByte(s, p + 8 * i))
  }

  ghost function StreamByte(s: seq<bool>, p: nat): byte {
    NatBound(Window(s, p, 8));
    Pow2Small();
    Nat(Window(s, p, 8))
  }

  ghost function Stored(s: seq<bool>, p: nat, out: seq<byte>, limit: nat): (r: Option<Parsed>)
    ensures r.Some? ==> r.value.pos > p && |out| <= |r.value.out| <= limit
  {
    var q := Align(p);
    var len, nlen := Nat(Window(s, q, 16)), Nat(Window(s, q + 16, 16));
    if nlen != 0xffff - len || q + 32 + 8 * len > |s| || |out| + len > limit then None
    else Some(Parsed(out + StreamBytes(s, q + 32, len), q + 32 + 8 * len))
  }

  lemma ByteOfStream(d: seq<byte>, t: seq<bool>, i: nat)
    requires i < |d|
    ensures StreamByte(BytesBits(d) + t, 8 * i) == d[i]
  {
    assert Window(BytesBits(d) + t, 8 * i, 8) == Window(BytesBits(d), 8 * i, 8) by {
      WindowInside(BytesBits(d) + t, 8 * i, 8);
      WindowInside(BytesBits(d), 8 * i, 8);
    }
    ByteWindow(d, i);
  }

  lemma TwoBytes(s: seq<bool>, q: nat)
    ensures Nat(Window(s, q, 16)) == StreamByte(s, q) + 256 * StreamByte(s, q + 8)
  {
    WindowConcat(s, q, 8, 8);
    NatConcat(Window(s, q, 8), Window(s, q + 8, 8));
    Pow2Small();
  }

  // ----- dynamic codes

  datatype Lengths = Lengths(lens: seq<nat>, pos: nat)

  ghost function ReadLengths(cl: seq<nat>, s: seq<bool>, p: nat, acc: seq<nat>, total: nat): (r: Option<Lengths>)
    requires |acc| <= total && IsLengths(acc)
    ensures r.Some? ==> |r.value.lens| == total && IsLengths(r.value.lens) && r.value.pos >= p
    decreases total - |acc|
  {
    if |acc| == total then Some(Lengths(acc, p))
    else match Symbol(cl, s, p)
      case None => None
      case Some(c) =>
        var p := p + cl[c];
        if c < 16 then ReadLengths(cl, s, p, acc + [c], total)
        else if c >= 19 || (c == 16 && acc == []) then None
        else
          var bits := RepeatBits(c);
          var rep := Nat(Window(s, p, bits)) + RepeatBase(c);
          var fill := if c == 16 then acc[|acc| - 1] else 0;
          if total - |acc| < rep then None
          else ReadLengths(cl, s, p + bits, acc + Repeat(fill, rep), total)
  }

  function RepeatBits(c: nat): nat { if c == 16 then 2 else if c == 17 then 3 else 7 }

  function RepeatBase(c: nat): nat { if c == 18 then 11 else 3 }

  // The lengths of the code length code, which come in a special order, three bits each.
  ghost function CodeLengthLengths(s: seq<bool>, p: nat, n: nat): (cl: seq<nat>)
    requires n <= 19
    ensures |cl| == 19 && IsLengths(cl)
  {
    if n == 0 then Repeat(0, 19)
    else
      NatBound(Window(s, p + 3 * (n - 1), 3));
      Pow2Small();
      CodeLengthLengths(s, p, n - 1)[LENGTH_DEZIGZAG[n - 1] := Nat(Window(s, p + 3 * (n - 1), 3))]
  }

  datatype Codes = Codes(ll: seq<nat>, dl: seq<nat>, pos: nat)

  // The two codes, if both are possible.
  ghost function Split(lens: seq<nat>, hlit: nat, pos: nat): (r: Option<Codes>)
    requires hlit <= |lens|
    ensures r.Some? ==> r.value == Codes(lens[..hlit], lens[hlit..], pos) && Realizable(r.value.ll) && Realizable(r.value.dl)
    ensures r.Some? <==> Realizable(lens[..hlit]) && Realizable(lens[hlit..])
  {
    if Realizable(lens[..hlit]) && Realizable(lens[hlit..]) then Some(Codes(lens[..hlit], lens[hlit..], pos)) else None
  }

  ghost function DynamicCodes(s: seq<bool>, p: nat): (r: Option<Codes>)
    ensures r.Some? ==> |r.value.ll| <= 288 && |r.value.dl| <= 32 && Realizable(r.value.ll) && Realizable(r.value.dl)
    ensures r.Some? ==> r.value.pos > p
  {
    HeaderBounds(s, p);
    var hlit, hdist, hclen := Nat(Window(s, p, 5)) + 257, Nat(Window(s, p + 5, 5)) + 1, Nat(Window(s, p + 10, 4)) + 4;
    var cl := CodeLengthLengths(s, p + 14, hclen);
    if !Realizable(cl) then None
    else match ReadLengths(cl, s, p + 14 + 3 * hclen, [], hlit + hdist)
      case None => None
      case Some(Lengths(lens, pos)) => Split(lens, hlit, pos)
  }

  lemma HeaderBounds(s: seq<bool>, p: nat)
    ensures Nat(Window(s, p, 5)) < 32 && Nat(Window(s, p + 5, 5)) < 32 && Nat(Window(s, p + 10, 4)) < 16
  {
    NatBound(Window(s, p, 5));
    NatBound(Window(s, p + 5, 5));
    NatBound(Window(s, p + 10, 4));
    Pow2Small();
  }

  // ----- blocks

  ghost function Block(s: seq<bool>, p: nat, out: seq<byte>, limit: nat): (r: Option<Parsed>)
    requires |out| <= limit
    ensures r.Some? ==> r.value.pos > p && |out| <= |r.value.out| <= limit
  {
    var kind := Nat(Window(s, p + 1, 2));
    if kind == 0 then Stored(s, p + 3, out, limit)
    else if kind == 1 then Symbols(FixedLengths(), FixedDistances(), s, p + 3, out, limit)
    else if kind == 2 then
      match DynamicCodes(s, p + 3)
      case None => None
      case Some(Codes(ll, dl, q)) => Symbols(ll, dl, s, q, out, limit)
    else None
  }

  ghost function Blocks(s: seq<bool>, p: nat, out: seq<byte>, limit: nat): (r: Option<Parsed>)
    requires |out| <= limit
    ensures r.Some? ==> r.value.pos > p && |out| <= |r.value.out| <= limit
    decreases if p < |s| then |s| - p else 0
  {
    if p >= |s| then None
    else match Block(s, p, out, limit)
      case None => None
      case Some(Parsed(o, q)) => if At(s, p) then Some(Parsed(o, q)) else Blocks(s, q, o, limit)
  }

  // A block that starts at or past the end reads as a stored block whose length check fails.
  lemma NoBlockPastEnd(s: seq<bool>, p: nat, out: seq<byte>, limit: nat)
    requires |out| <= limit && p >= |s|
    ensures Block(s, p, out, limit) == None
  {
    ZeroWindow(s, p + 1, 2);
    ZeroWindow(s, Align(p + 3), 16);
    ZeroWindow(s, Align(p + 3) + 16, 16);
  }

  lemma BlocksStep(s: seq<bool>, p: nat, out: seq<byte>, limit: nat, bit: nat)
    requires |out| <= limit && bit == Nat(Window(s, p, 1))
    ensures match Block(s, p, out, limit)
            case None => Blocks(s, p, out, limit) == None
            case Some(Parsed(o, q)) =>
              p < |s| && (Blocks(s, p, out, limit).Some? ==> Blocks(s, p, out, limit).value.pos >= q) &&
              Blocks(s, p, out, limit) == if bit != 0 then Some(Parsed(o, q)) else Blocks(s, q, o, limit)
  {
    hide Block;
    if p >= |s| { NoBlockPastEnd(s, p, out, limit); }
    assert Window(s, p, 1) == [At(s, p)];
    assert Nat([At(s, p)]) == if At(s, p) then 1 else 0 by {
      assert [At(s, p)][1..] == [];
    }
  }

  // ----- the zlib envelope, RFC 1950 section 2.2

  ghost predicate HeaderOk(d: seq<byte>) {
    |d| > 2 &&
    var cmf: int, flg: int := d[0], d[1];
    (cmf * 256 + flg) % 31 == 0 && BitAnd(flg, 32) == 0 && BitAnd(cmf, 15) == 8
  }

  // A multiple of 31, no preset dictionary, and method 8.
  lemma HeaderOkIs(d: seq<byte>)
    ensures HeaderOk(d) <==> |d| > 2 && (d[0] as int * 256 + d[1] as int) % 31 == 0 && d[1] / 32 % 2 == 0 && d[0] % 16 == 8
  {
    if |d| > 2 {
      Pow2Small();
      AndShl(d[1], 1, 5);
      AndMask(Shr(d[1], 5), 1);
      AndMask(d[0], 4);
    }
  }

  // The data a zlib stream stands for, and the position after its last block.
  ghost function Inflate(d: seq<byte>, header: bool, limit: nat): Option<Parsed> {
    if header && !HeaderOk(d) then None
    else Blocks(BytesBits(d), if header then 16 else 0, [], limit)
  }
}
