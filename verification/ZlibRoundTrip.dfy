// The compressor and the inflater together.

module ZlibRoundTrip {
  import opened BitStream
  import opened Huffman
  import opened Deflate
  import opened Guarded
  import opened ZBuffer
  import opened ZCompress
  import opened Wrappers
  import Adler

  // An expandable output buffer, whatever its first size, holds every length a C `int` can count.
  lemma {:induction false} ReachLarge(size: nat)
    requires 0 < size
    ensures Reach(size) >= INT_MAX
    decreases UINT_MAX - size
  {
    if size <= UINT_MAX / 2 { ReachLarge(2 * size); }
  }

  // With less room a stream inflates to the same bytes if they fit, and to nothing if not.
  ghost predicate Narrowed(less: Option<Parsed>, more: Option<Parsed>, limit: nat) {
    less == if more.Some? && |more.value.out| <= limit then more else None
  }

  lemma {:induction false} NarrowedSymbols(ll: seq<nat>, dl: seq<nat>, s: seq<bool>, p: nat, out: seq<byte>, limit: nat, more: nat)
    requires |ll| <= 288 && |dl| <= 32 && |out| <= limit <= more
    ensures Narrowed(Symbols(ll, dl, s, p, out, limit), Symbols(ll, dl, s, p, out, more), limit)
    decreases limit - |out|
  {
    hide Symbol, MatchAt, Copy;
    var y := Symbol(ll, s, p);
    if y.Some? {
      var z := y.value;
      if z < 256 {
        if |out| < limit { NarrowedSymbols(ll, dl, s, p + ll[z], out + [z], limit, more); }
      } else if 256 < z < 286 {
        var m := MatchAt(dl, s, p + ll[z], z - 257);
        if m.Some? && m.value.dist <= |out| && |out| + m.value.len <= limit {
          NarrowedSymbols(ll, dl, s, m.value.pos, Copy(out, m.value.dist, m.value.len), limit, more);
        }
      }
    }
  }

  lemma NarrowedBlock(s: seq<bool>, p: nat, out: seq<byte>, limit: nat, more: nat)
    requires |out| <= limit <= more
    ensures Narrowed(Block(s, p, out, limit), Block(s, p, out, more), limit)
  {
    hide Nat, Window, Symbols, DynamicCodes, FixedLengths, FixedDistances, Realizable, StreamBytes;
    NarrowedSymbols(FixedLengths(), FixedDistances(), s, p + 3, out, limit, more);
    var k := DynamicCodes(s, p + 3);
    if k.Some? { NarrowedSymbols(k.value.ll, k.value.dl, s, k.value.pos, out, limit, more); }
  }

  lemma {:induction false} NarrowedBlocks(s: seq<bool>, p: nat, out: seq<byte>, limit: nat, more: nat)
    requires |out| <= limit <= more
    ensures Narrowed(Blocks(s, p, out, limit), Blocks(s, p, out, more), limit)
    decreases if p < |s| then |s| - p else 0
  {
    hide Block;
    if p < |s| {
      NarrowedBlock(s, p, out, limit, more);
      var b := Block(s, p, out, limit);
      if b.Some? && !At(s, p) { NarrowedBlocks(s, b.value.pos, b.value.out, limit, more); }
    }
  }

  // A zlib stream for `data` inflates to it exactly when there is room.
  lemma ZlibInflates(out: seq<byte>, data: seq<byte>, limit: nat)
    requires IsZlib(out, data)
    ensures var i := Inflated(out, true, limit);
            if |data| <= limit then i.Some? && i.value.out == data else i == None
  {
    hide Inflated, HeaderOk, Blocks;
    var end :| EndsAt(out, data, end);
    InflatedAgrees(out, true, limit);
    if limit < |data| {
      assert Inflate(out, true, |data|) == Some(Parsed(data, end));
      NarrowedBlocks(BytesBits(out), 16, [], limit, |data|);
    }
  }

  // Inflating what the compressor wrote gives back the input, at every quality, exactly when there is any input.
  method RoundTrip(data: seq<byte>, quality: int, initialSize: nat) returns (r: Option<seq<byte>>)
    requires |data| <= INT_MAX && 0 < initialSize <= UINT_MAX
    ensures r == if data == [] then None else Some(data)
  {
    hide Inflate, Inflated, IsZlib, Reach, Adler.Trailer;
    var out := Compress(data, quality);
    r := DecodeMalloc(out, initialSize, true);
    if data == [] {
      EmptyIsNoStream(Reach(initialSize));
      InflatedAgrees(out, true, Reach(initialSize));
    } else {
      ReachLarge(initialSize);
      ZlibInflates(out, data, Reach(initialSize));
    }
  }

  // The same into a buffer of fixed size: it comes back exactly if there is room for it.
  method RoundTripInto(data: seq<byte>, quality: int, obuffer: array<byte>) returns (n: int)
    requires data != [] && |data| <= INT_MAX && obuffer.Length <= INT_MAX
    modifies obuffer
    ensures if |data| <= obuffer.Length then n == |data| && obuffer[..n] == data else n == -1
  {
    hide Inflated, IsZlib, Reach;
    var out := Compress(data, quality);
    n := DecodeBuffer(obuffer, out, true);
    ZlibInflates(out, data, obuffer.Length);
  }
}
