// What the inflater makes of a DEFLATE stream: the meaning of module Deflate, except that it will not look for a symbol
// once the input is used up and fewer than sixteen bits are buffered. How much is buffered depends on where the buffer was
// last filled.

module Guarded {
  import opened BitStream
  import opened Huffman
  import opened Deflate
  import opened Wrappers

  // The next bit, and the end of the buffered bits.
  datatype Cursor = Cursor(pos: nat, end: nat)

  // Filling at `p` goes on until more than 24 bits are there.
  function Filled(p: nat): nat { 8 * (p / 8) + 32 }

  // After `n` more bits.
  function Taken(c: Cursor, n: nat): (r: Cursor)
    ensures r.pos == c.pos + n
  {
    Cursor(c.pos + n, if c.pos + n <= c.end then c.end else Filled(c.pos))
  }

  // Sixteen bits are there, or more input.
  predicate CanLook(s: seq<bool>, c: Cursor) { c.pos + 16 <= c.end || c.end < |s| }

  datatype Seen = Seen(symbol: nat, c: Cursor)

  ghost function Look(lens: seq<nat>, s: seq<bool>, c: Cursor): (r: Option<Seen>)
    ensures r.Some? ==> r.value.symbol < |lens| && r.value.c.pos == c.pos + lens[r.value.symbol] > c.pos
  {
    if !CanLook(s, c) then None
    else match Symbol(lens, s, c.pos)
      case None => None
      case Some(n) => Some(Seen(n, Cursor(c.pos + lens[n], if c.pos + 16 <= c.end then c.end else Filled(c.pos))))
  }

  // A symbol is refused only in the last sixteen bits.
  lemma LookAgrees(lens: seq<nat>, s: seq<bool>, c: Cursor)
    ensures match Look(lens, s, c)
            case None => Symbol(lens, s, c.pos) == None || c.pos + 16 > |s|
            case Some(Seen(n, q)) => Symbol(lens, s, c.pos) == Some(n) && q.pos == c.pos + lens[n]
  {
    hide Symbol;
  }

  // ----- the symbols of a block

  datatype Found = Found(len: nat, dist: nat, c: Cursor)

  ghost function FindMatch(dl: seq<nat>, s: seq<bool>, c: Cursor, z: nat): (r: Option<Found>)
    requires |dl| <= 32 && z < 29
    ensures r.Some? ==> r.value.len > 0 && r.value.dist > 0 && r.value.c.pos > c.pos
  {
    var len := LengthBase(z) + Nat(Window(s, c.pos, LengthExtra(z)));
    match Look(dl, s, Taken(c, LengthExtra(z)))
    case None => None
    case Some(Seen(d, q)) =>
      if d >= 30 then None
      else Some(Found(len, DistBase(d) + Nat(Window(s, q.pos, DistExtra(d))), Taken(q, DistExtra(d))))
  }

  // The output so far, and the cursor.
  datatype Done = Done(out: seq<byte>, c: Cursor)

  ghost function Inside(ll: seq<nat>, dl: seq<nat>, s: seq<bool>, c: Cursor, out: seq<byte>, limit: nat): (r: Option<Done>)
    requires |ll| <= 288 && |dl| <= 32 && |out| <= limit
    ensures r.Some? ==> r.value.c.pos > c.pos && |out| <= |r.value.out| <= limit
    decreases limit - |out|
  {
    match Look(ll, s, c)
    case None => None
    case Some(Seen(z, c)) =>
      if z < 256 then
        if |out| + 1 > limit then None else Inside(ll, dl, s, c, out + [z], limit)
      else if z == 256 then Some(Done(out, c))
      else if z >= 286 then None
      else match FindMatch(dl, s, c, z - 257)
        case None => None
        case Some(Found(len, dist, q)) =>
          if |out| < dist || |out| + len > limit then None
          else Inside(ll, dl, s, q, Copy(out, dist, len), limit)
  }

  // One symbol of a compressed block at a time.
  lemma LiteralSeen(ll: seq<nat>, dl: seq<nat>, s: seq<bool>, c: Cursor, out: seq<byte>, limit: nat, z: byte)
    requires |ll| <= 288 && |dl| <= 32 && |out| <= limit
    requires var l := Look(ll, s, c); l.Some? && l.value.symbol == z
    ensures Inside(ll, dl, s, c, out, limit)
         == if |out| + 1 <= limit then Inside(ll, dl, s, Look(ll, s, c).value.c, out + [z], limit) else None
  {
    hide Look;
  }

  lemma MatchSeen(ll: seq<nat>, dl: seq<nat>, s: seq<bool>, c: Cursor, out: seq<byte>, limit: nat, z: nat)
    requires |ll| <= 288 && |dl| <= 32 && |out| <= limit && z < 29
    requires var l := Look(ll, s, c); l.Some? && l.value.symbol == 257 + z
    ensures var r := Inside(ll, dl, s, c, out, limit);
            match FindMatch(dl, s, Look(ll, s, c).value.c, z)
            case None => r == None
            case Some(Found(len, dist, q)) =>
              if |out| < dist || |out| + len > limit then r == None
              else r == Inside(ll, dl, s, q, Copy(out, dist, len), limit)
  {
    hide FindMatch, Copy, Look;
  }

  lemma OtherSeen(ll: seq<nat>, dl: seq<nat>, s: seq<bool>, c: Cursor, out: seq<byte>, limit: nat)
    requires |ll| <= 288 && |dl| <= 32 && |out| <= limit
    ensures match Look(ll, s, c)
            case None => Inside(ll, dl, s, c, out, limit) == None
            case Some(Seen(z, q)) =>
              (z == 256 ==> Inside(ll, dl, s, c, out, limit) == Some(Done(out, q))) &&
              (z >= 286 ==> Inside(ll, dl, s, c, out, limit) == None)
  {
    hide Look, FindMatch, Copy;
  }

  // The same as what the stream means, or nothing where the meaning ends in the last sixteen bits.
  ghost predicate Agrees(r: Option<Done>, i: Option<Parsed>, s: seq<bool>) {
    match r
    case None => i == None || i.value.pos + 16 > |s|
    case Some(Done(out, c)) => i == Some(Parsed(out, c.pos))
  }

  lemma MatchAgrees(dl: seq<nat>, s: seq<bool>, c: Cursor, z: nat)
    requires |dl| <= 32 && z < 29
    ensures var i := MatchAt(dl, s, c.pos, z);
            match FindMatch(dl, s, c, z)
            case None => i == None || i.value.pos + 16 > |s|
            case Some(Found(len, dist, q)) => i == Some(Match(len, dist, q.pos))
  {
    hide Symbol, Look, Nat, Window, LengthBase, LengthExtra, DistBase, DistExtra;
    LookAgrees(dl, s, Taken(c, LengthExtra(z)));
  }

  lemma {:induction false} InsideAgrees(ll: seq<nat>, dl: seq<nat>, s: seq<bool>, c: Cursor, out: seq<byte>, limit: nat)
    requires |ll| <= 288 && |dl| <= 32 && |out| <= limit
    ensures Agrees(Inside(ll, dl, s, c, out, limit), Symbols(ll, dl, s, c.pos, out, limit), s)
    decreases limit - |out|
  {
    hide Symbol, Look, FindMatch, MatchAt, Copy;
    LookAgrees(ll, s, c);
    var l := Look(ll, s, c);
    if l.Some? {
      var z, q := l.value.symbol, l.value.c;
      if z < 256 {
        if |out| < limit { InsideAgrees(ll, dl, s, q, out + [z], limit); }
      } else if 256 < z < 286 {
        MatchAgrees(dl, s, q, z - 257);
        var m := FindMatch(dl, s, q, z - 257);
        if m.Some? && m.value.dist <= |out| && |out| + m.value.len <= limit {
          InsideAgrees(ll, dl, s, m.value.c, Copy(out, m.value.dist, m.value.len), limit);
        }
      }
    }
  }

  // ----- dynamic codes

  datatype LengthsRead = LengthsRead(lens: seq<nat>, c: Cursor)

  ghost function FindLengths(cl: seq<nat>, s: seq<bool>, c: Cursor, acc: seq<nat>, total: nat): (r: Option<LengthsRead>)
    requires |acc| <= total && IsLengths(acc)
    ensures r.Some? ==> |r.value.lens| == total && IsLengths(r.value.lens) && r.value.c.pos >= c.pos
    decreases total - |acc|
  {
    if |acc| == total then Some(LengthsRead(acc, c))
    else match Look(cl, s, c)
      case None => None
      case Some(Seen(k, c)) =>
        if k < 16 then FindLengths(cl, s, c, acc + [k], total)
        else if k >= 19 || (k == 16 && acc == []) then None
        else
          var rep := Nat(Window(s, c.pos, RepeatBits(k))) + RepeatBase(k);
          var fill := if k == 16 then acc[|acc| - 1] else 0;
          if total - |acc| < rep then None
          else FindLengths(cl, s, Taken(c, RepeatBits(k)), acc + Repeat(fill, rep), total)
  }

  lemma PlainLength(cl: seq<nat>, s: seq<bool>, c: Cursor, acc: seq<nat>, total: nat)
    requires |acc| < total && IsLengths(acc)
    requires var l := Look(cl, s, c); l.Some? && l.value.symbol < 16
    ensures var l := Look(cl, s, c).value;
            FindLengths(cl, s, c, acc, total) == FindLengths(cl, s, l.c, acc + [l.symbol], total)
  {
    hide Look;
  }

  lemma RepeatLength(cl: seq<nat>, s: seq<bool>, c: Cursor, acc: seq<nat>, total: nat)
    requires |acc| < total && IsLengths(acc)
    requires var l := Look(cl, s, c); l.Some? && 16 <= l.value.symbol < 19
    ensures var r, l := FindLengths(cl, s, c, acc, total), Look(cl, s, c).value;
            var k, rep := l.symbol, Nat(Window(s, l.c.pos, RepeatBits(l.symbol))) + RepeatBase(l.symbol);
            if (k == 16 && acc == []) || total - |acc| < rep then r == None
            else r == FindLengths(cl, s, Taken(l.c, RepeatBits(k)), acc + Repeat(if k == 16 then acc[|acc| - 1] else 0, rep), total)
  {
    hide Look;
  }

  lemma NoLength(cl: seq<nat>, s: seq<bool>, c: Cursor, acc: seq<nat>, total: nat)
    requires |acc| < total && IsLengths(acc)
    ensures Look(cl, s, c) == None || Look(cl, s, c).value.symbol >= 19 ==> FindLengths(cl, s, c, acc, total) == None
  {
    hide Look;
  }

  lemma {:induction false} LengthsAgree(cl: seq<nat>, s: seq<bool>, c: Cursor, acc: seq<nat>, total: nat)
    requires |acc| <= total && IsLengths(acc)
    ensures var i := ReadLengths(cl, s, c.pos, acc, total);
            match FindLengths(cl, s, c, acc, total)
            case None => i == None || i.value.pos + 16 > |s|
            case Some(LengthsRead(lens, q)) => i == Some(Lengths(lens, q.pos))
    decreases total - |acc|
  {
    hide Symbol, Look, Nat, Window;
    if |acc| < total {
      LookAgrees(cl, s, c);
      var l := Look(cl, s, c);
      if l.Some? {
        var k, q := l.value.symbol, l.value.c;
        var rep := Nat(Window(s, q.pos, RepeatBits(k))) + RepeatBase(k);
        if k < 16 {
          LengthsAgree(cl, s, q, acc + [k], total);
        } else if k < 19 && !(k == 16 && acc == []) && rep <= total - |acc| {
          LengthsAgree(cl, s, Taken(q, RepeatBits(k)), acc + Repeat(if k == 16 then acc[|acc| - 1] else 0, rep), total);
        }
      }
    }
  }

  // Three bits, `n` times.
  function Threes(c: Cursor, n: nat): (r: Cursor)
    ensures r.pos == c.pos + 3 * n
  {
    if n == 0 then c else Taken(Threes(c, n - 1), 3)
  }

  datatype CodesRead = CodesRead(ll: seq<nat>, dl: seq<nat>, c: Cursor)

  function Counts(c: Cursor): (r: Cursor)
    ensures r.pos == c.pos + 14
  {
    Taken(Taken(Taken(c, 5), 5), 4)
  }

  // The lengths of both codes, after those of the code they are written in.
  ghost function FindBoth(s: seq<bool>, c: Cursor, hclen: nat, total: nat): (r: Option<LengthsRead>)
    requires hclen <= 19
    ensures r.Some? ==> |r.value.lens| == total && IsLengths(r.value.lens) && r.value.c.pos >= c.pos
  {
    var cl := CodeLengthLengths(s, c.pos, hclen);
    if !Realizable(cl) then None else FindLengths(cl, s, Threes(c, hclen), [], total)
  }

  // The two codes, if both are possible.
  ghost function SplitRead(lens: seq<nat>, hlit: nat, c: Cursor): (r: Option<CodesRead>)
    requires hlit <= |lens|
    ensures r.Some? ==> r.value == CodesRead(lens[..hlit], lens[hlit..], c)
    ensures r.Some? <==> Realizable(lens[..hlit]) && Realizable(lens[hlit..])
  {
    if Realizable(lens[..hlit]) && Realizable(lens[hlit..]) then Some(CodesRead(lens[..hlit], lens[hlit..], c)) else None
  }

  ghost function FindCodes(s: seq<bool>, c: Cursor): (r: Option<CodesRead>)
    ensures r.Some? ==> |r.value.ll| <= 288 && |r.value.dl| <= 32 && Realizable(r.value.ll) && Realizable(r.value.dl)
    ensures r.Some? ==> r.value.c.pos > c.pos
  {
    var p := c.pos;
    HeaderBounds(s, p);
    var hlit, hdist, hclen := Nat(Window(s, p, 5)) + 257, Nat(Window(s, p + 5, 5)) + 1, Nat(Window(s, p + 10, 4)) + 4;
    match FindBoth(s, Counts(c), hclen, hlit + hdist)
    case None => None
    case Some(LengthsRead(lens, q)) => SplitRead(lens, hlit, q)
  }

  lemma CodesAgree(s: seq<bool>, c: Cursor)
    ensures var i := DynamicCodes(s, c.pos);
            match FindCodes(s, c)
            case None => i == None || i.value.pos + 16 > |s|
            case Some(CodesRead(ll, dl, q)) => i == Some(Codes(ll, dl, q.pos))
  {
    hide Symbol, Nat, Window, Realizable, CodeLengthLengths, FindLengths, ReadLengths, Counts, Threes;
    var p := c.pos;
    HeaderBounds(s, p);
    var hlit, hdist, hclen := Nat(Window(s, p, 5)) + 257, Nat(Window(s, p + 5, 5)) + 1, Nat(Window(s, p + 10, 4)) + 4;
    LengthsAgree(CodeLengthLengths(s, p + 14, hclen), s, Threes(Counts(c), hclen), [], hlit + hdist);
  }

  // ----- blocks

  // A stored block leaves no bits in the buffer.
  ghost function InStored(s: seq<bool>, c: Cursor, out: seq<byte>, limit: nat): (r: Option<Done>)
    ensures r.Some? ==> r.value.c.pos > c.pos && |out| <= |r.value.out| <= limit
  {
    match Stored(s, c.pos, out, limit)
    case None => None
    case Some(Parsed(o, q)) => Some(Done(o, Cursor(q, q)))
  }

  ghost function InBlock(s: seq<bool>, c: Cursor, out: seq<byte>, limit: nat): (r: Option<Done>)
    requires |out| <= limit
    ensures r.Some? ==> r.value.c.pos > c.pos && |out| <= |r.value.out| <= limit
  {
    var kind, c := Nat(Window(s, c.pos + 1, 2)), Taken(Taken(c, 1), 2);
    if kind == 0 then InStored(s, c, out, limit)
    else if kind == 1 then Inside(FixedLengths(), FixedDistances(), s, c, out, limit)
    else if kind == 2 then
      match FindCodes(s, c)
      case None => None
      case Some(CodesRead(ll, dl, q)) => Inside(ll, dl, s, q, out, limit)
    else None
  }

  ghost function InBlocks(s: seq<bool>, c: Cursor, out: seq<byte>, limit: nat): (r: Option<Done>)
    requires |out| <= limit
    ensures r.Some? ==> r.value.c.pos > c.pos && |out| <= |r.value.out| <= limit
    decreases if c.pos < |s| then |s| - c.pos else 0
  {
    if c.pos >= |s| then None
    else match InBlock(s, c, out, limit)
      case None => None
      case Some(Done(o, q)) => if At(s, c.pos) then Some(Done(o, q)) else InBlocks(s, q, o, limit)
  }

  lemma StoredAgrees(s: seq<bool>, c: Cursor, out: seq<byte>, limit: nat)
    ensures Agrees(InStored(s, c, out, limit), Stored(s, c.pos, out, limit), s)
  {
    hide Stored;
  }

  lemma CodedAgrees(s: seq<bool>, c: Cursor, out: seq<byte>, limit: nat)
    requires |out| <= limit
    ensures var k, i := FindCodes(s, c), DynamicCodes(s, c.pos);
      Agrees(if k.Some? then Inside(k.value.ll, k.value.dl, s, k.value.c, out, limit) else None,
             if i.Some? then Symbols(i.value.ll, i.value.dl, s, i.value.pos, out, limit) else None, s)
  {
    hide FindCodes, DynamicCodes, Inside, Symbols;
    CodesAgree(s, c);
    var k := FindCodes(s, c);
    if k.Some? { InsideAgrees(k.value.ll, k.value.dl, s, k.value.c, out, limit); }
  }

  lemma BlockAgrees(s: seq<bool>, c: Cursor, out: seq<byte>, limit: nat)
    requires |out| <= limit
    ensures Agrees(InBlock(s, c, out, limit), Block(s, c.pos, out, limit), s)
  {
    hide Nat, Window, Symbols, Inside, DynamicCodes, FindCodes, Stored, InStored, FixedLengths, FixedDistances, Realizable;
    var q := Taken(Taken(c, 1), 2);
    StoredAgrees(s, q, out, limit);
    InsideAgrees(FixedLengths(), FixedDistances(), s, q, out, limit);
    CodedAgrees(s, q, out, limit);
    hide Agrees, Taken;
  }

  lemma {:induction false} BlocksAgree(s: seq<bool>, c: Cursor, out: seq<byte>, limit: nat)
    requires |out| <= limit
    ensures Agrees(InBlocks(s, c, out, limit), Blocks(s, c.pos, out, limit), s)
    decreases if c.pos < |s| then |s| - c.pos else 0
  {
    hide Block, InBlock;
    if c.pos < |s| {
      BlockAgrees(s, c, out, limit);
      var b := InBlock(s, c, out, limit);
      if b.Some? && !At(s, c.pos) { BlocksAgree(s, b.value.c, b.value.out, limit); }
    }
  }

  // A block at or past the end is none.
  lemma NoInBlockPastEnd(s: seq<bool>, c: Cursor, out: seq<byte>, limit: nat)
    requires |out| <= limit && c.pos >= |s|
    ensures InBlock(s, c, out, limit) == None
  {
    hide Nat, Window;
    BlockAgrees(s, c, out, limit);
    NoBlockPastEnd(s, c.pos, out, limit);
    hide Block, InBlock;
  }

  lemma NextBlock(s: seq<bool>, c: Cursor, out: seq<byte>, limit: nat, bit: nat)
    requires |out| <= limit && bit == Nat(Window(s, c.pos, 1))
    ensures match InBlock(s, c, out, limit)
            case None => InBlocks(s, c, out, limit) == None
            case Some(Done(o, q)) =>
              c.pos < |s| && InBlocks(s, c, out, limit) == if bit != 0 then Some(Done(o, q)) else InBlocks(s, q, o, limit)
  {
    hide InBlock;
    if c.pos >= |s| { NoInBlockPastEnd(s, c, out, limit); }
    assert Window(s, c.pos, 1) == [At(s, c.pos)];
    assert Nat([At(s, c.pos)]) == if At(s, c.pos) then 1 else 0 by {
      assert [At(s, c.pos)][1..] == [];
    }
  }

  // What inflating gives, and where it ends.
  ghost function Inflated(d: seq<byte>, header: bool, limit: nat): Option<Done> {
    if header && !HeaderOk(d) then None
    else InBlocks(BytesBits(d), if header then Cursor(16, 16) else Cursor(0, 0), [], limit)
  }

  // Whatever the inflater gives the stream means; and it gives what the stream means if two bytes follow the last block.
  lemma InflatedAgrees(d: seq<byte>, header: bool, limit: nat)
    ensures Agrees(Inflated(d, header, limit), Inflate(d, header, limit), BytesBits(d))
  {
    hide Blocks, InBlocks, HeaderOk;
    BlocksAgree(BytesBits(d), if header then Cursor(16, 16) else Cursor(0, 0), [], limit);
  }
}
