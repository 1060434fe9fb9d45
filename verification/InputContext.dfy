// `stbi__context` over a buffer in memory: the loaders' cursor through their input.

module InputContext {
  import opened BitStream
  import opened Wrappers

  function BeAt(d: seq<byte>, i: nat): nat {
    ByteAt(d, i) * 0x100_0000 + ByteAt(d, i + 1) * 0x1_0000 + ByteAt(d, i + 2) * 256 + ByteAt(d, i + 3)
  }

  // What is left of the data at position `k`.
  function From(d: seq<byte>, k: nat): seq<byte> { if k <= |d| then d[k..] else [] }

  lemma HeaderFirst(h: byte, rest: seq<byte>)
    ensures ByteAt([h] + rest, 0) == h && From([h] + rest, 1) == rest
  {
  }

  lemma FromFrom(d: seq<byte>, a: nat, b: nat)
    ensures From(From(d, a), b) == From(d, a + b)
  {
  }

  lemma FromPast(a: seq<byte>, b: seq<byte>)
    ensures From(a + b, |a|) == b
  {
  }

  lemma NextByteOf(data: seq<byte>, at: nat)
    ensures ByteAt(From(data, at), 0) == ByteAt(data, at)
    ensures From(From(data, at), 1) == From(data, if at < |data| then at + 1 else at)
  {
  }

  class Context {
    const data: seq<byte>
    var at: nat

    constructor (data: seq<byte>)
      ensures this.data == data && at == 0
    {
      this.data := data;
      at := 0;
    }

    method Get8() returns (b: byte)
      modifies this
      ensures b == ByteAt(data, old(at)) && at == if old(at) < |data| then old(at) + 1 else old(at)
    {
      b := 0;
      if at < |data| {
        b := data[at];
        at := at + 1;
      }
    }

    method Get32be() returns (v: nat)
      modifies this
      ensures v == BeAt(data, old(at)) && v <= UINT_MAX && at >= old(at)
      ensures old(at) + 4 <= |data| ==> at == old(at) + 4
      ensures old(at) >= |data| ==> v == 0
      ensures old(at) < |data| ==> old(at) < at <= |data|
    {
      var a: int := Get8();
      var b: int := Get8();
      var c: int := Get8();
      var d: int := Get8();
      v := ((a * 256 + b) * 0x1_0000) + (c * 256 + d);
    }

    // Skipping may leave the position past the end, where every byte reads as zero.
    method Skip(n: int)
      modifies this
      ensures at >= old(at) || at == |data|
      ensures at == if n < 0 then |data| else old(at) + n
    {
      if n == 0 { return; }
      if n < 0 {
        at := |data|;
        return;
      }
      at := at + n;
    }

    method Getn(n: nat) returns (r: Option<seq<byte>>)
      modifies this
      ensures if old(at) + n <= |data| then r == Some(data[old(at)..old(at) + n]) && at == old(at) + n
              else r == None && at == old(at)
    {
      if at + n <= |data| {
        r := Some(data[at..at + n]);
        at := at + n;
      } else {
        r := None;
      }
    }
  }
}
