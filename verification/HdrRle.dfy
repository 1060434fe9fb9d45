// Scanlines of Radiance HDR images in RGBE bytes: the run-length encoding of `stbiw__write_hdr_scanline` and the part of
// `stbi__hdr_load` that undoes it.

module HdrRle {
  import opened BitStream
  import opened InputContext
  import opened Wrappers

  // ----- what a coded plane means

  datatype Plane = Plane(bytes: seq<byte>, rest: seq<byte>)

  function Taken(d: seq<byte>, n: nat): (r: seq<byte>)
    ensures |r| == n
  {
    seq(n, i requires 0 <= i < n => ByteAt(d, i))
  }

  // The next `n` bytes: counts above 128 repeat one byte, others announce as many bytes as they are. No count may be zero
  // or reach past the end.
  function Expand(d: seq<byte>, n: nat): (r: Option<Plane>)
    ensures r.Some? ==> |r.value.bytes| == n
    decreases n
  {
    if n == 0 then Some(Plane([], d))
    else
      var count := ByteAt(d, 0) as int;
      var m := if count > 128 then count - 128 else count;
      if m == 0 || m > n then None
      else if count > 128 then Prepend(Repeat(ByteAt(d, 1), m), Expand(From(d, 2), n - m))
      else Prepend(Taken(From(d, 1), m), Expand(From(d, 1 + m), n - m))
  }

  function Prepend(b: seq<byte>, p: Option<Plane>): (r: Option<Plane>)
    ensures r.Some? <==> p.Some?
    ensures r.Some? ==> r.value.bytes == b + p.value.bytes && r.value.rest == p.value.rest
  {
    if p.None? then None else Some(Plane(b + p.value.bytes, p.value.rest))
  }

  // The code `w` stands for the bytes `b`, whatever comes after it.
  ghost predicate Codes(w: seq<byte>, b: seq<byte>) {
    forall tail: seq<byte>, m: nat :: CodesBefore(w, b, tail, m)
  }

  ghost predicate CodesBefore(w: seq<byte>, b: seq<byte>, tail: seq<byte>, m: nat) {
    Expand(w + tail, |b| + m) == Prepend(b, Expand(tail, m))
  }

  lemma CodesNothing()
    ensures Codes([], [])
  {
    hide Expand;
    forall tail: seq<byte>, m: nat
      ensures CodesBefore([], [], tail, m)
    {
      assert [] + tail == tail;
      if Expand(tail, m).Some? { assert [] + Expand(tail, m).value.bytes == Expand(tail, m).value.bytes; }
    }
  }

  lemma CodesBoth(w: seq<byte>, b: seq<byte>, w': seq<byte>, b': seq<byte>)
    requires Codes(w, b) && Codes(w', b')
    ensures Codes(w + w', b + b')
  {
    hide CodesBefore;
    forall tail: seq<byte>, m: nat
      ensures CodesBefore(w + w', b + b', tail, m)
    {
      Joined(w, b, w', b', tail, m);
    }
  }

  lemma Joined(w: seq<byte>, b: seq<byte>, w': seq<byte>, b': seq<byte>, tail: seq<byte>, m: nat)
    requires CodesBefore(w, b, w' + tail, |b'| + m) && CodesBefore(w', b', tail, m)
    ensures CodesBefore(w + w', b + b', tail, m)
  {
    hide Expand;
    assert (w + w') + tail == w + (w' + tail);
    assert |b + b'| + m == |b| + (|b'| + m);
    var e := Expand(tail, m);
    if e.Some? { assert (b + b') + e.value.bytes == b + (b' + e.value.bytes); }
  }

  // `stbiw__write_run_data`
  lemma RunCodes(v: byte, len: nat, tail: seq<byte>, m: nat)
    requires 1 <= len <= 127
    ensures CodesBefore([128 + len, v], Repeat(v, len), tail, m)
  {
    var d := [128 + len, v] + tail;
    assert ByteAt(d, 0) == 128 + len && ByteAt(d, 1) == v && From(d, 2) == tail;
    RunStep(d, len, len + m);
    hide *;
  }

  lemma RunStep(d: seq<byte>, len: nat, n: nat)
    requires ByteAt(d, 0) as int == 128 + len && 1 <= len <= n
    ensures Expand(d, n) == Prepend(Repeat(ByteAt(d, 1), len), Expand(From(d, 2), n - len))
  {
    hide Repeat, From;
  }

  // `stbiw__write_dump_data`
  lemma DumpCodes(b: seq<byte>, tail: seq<byte>, m: nat)
    requires 1 <= |b| <= 128
    ensures CodesBefore([|b|] + b, b, tail, m)
  {
    hide *;
    var d := [|b|] + (b + tail);
    HeaderFirst(|b|, b + tail);
    FromPast(b, tail);
    FromFrom(d, 1, |b|);
    TakenFirst(b, tail);
    DumpStep(d, |b|, |b| + m);
    assert ([|b|] + b) + tail == d;
    BeforeIs([|b|] + b, b, tail, m);
  }

  lemma BeforeIs(w: seq<byte>, b: seq<byte>, tail: seq<byte>, m: nat)
    ensures CodesBefore(w, b, tail, m) <==> Expand(w + tail, |b| + m) == Prepend(b, Expand(tail, m))
  {
    hide Expand;
  }

  lemma TakenFirst(b: seq<byte>, tail: seq<byte>)
    ensures Taken(b + tail, |b|) == b
  {
  }

  lemma DumpStep(d: seq<byte>, len: nat, n: nat)
    requires ByteAt(d, 0) as int == len && 1 <= len <= 128 && len <= n
    ensures Expand(d, n) == Prepend(Taken(From(d, 1), len), Expand(From(d, 1 + len), n - len))
  {
    hide Taken, From;
  }

  // ----- writing

  // Where the next run of three or more starts, or the end.
  method FindRun(comp: seq<byte>, x: nat) returns (r: nat)
    requires x < |comp|
    ensures x <= r <= |comp|
    ensures if r + 2 < |comp| then comp[r] == comp[r + 1] == comp[r + 2] else r == |comp|
  {
    r := x;
    while r + 2 < |comp|
      invariant x <= r < |comp|
    {
      if comp[r] == comp[r + 1] && comp[r] == comp[r + 2] { break; }
      r := r + 1;
    }
    if r + 2 >= |comp| { r := |comp|; }
  }

  method Dump(comp: seq<byte>, x0: nat, r: nat, w0: seq<byte>) returns (w: seq<byte>)
    requires x0 <= r <= |comp| && Codes(w0, comp[..x0])
    ensures Codes(w, comp[..r])
  {
    hide Codes;
    var x := x0;
    w := w0;
    while x < r
      invariant x <= r && Codes(w, comp[..x])
    {
      var len := Least(r - x, 128);
      var packet := [len] + comp[x..x + len];
      DumpsCode(comp[x..x + len]);
      CodesBoth(w, comp[..x], packet, comp[x..x + len]);
      assert comp[..x] + comp[x..x + len] == comp[..x + len];
      w := w + packet;
      x := x + len;
    }
  }

  lemma DumpsCode(b: seq<byte>)
    requires 1 <= |b| <= 128
    ensures Codes([|b|] + b, b)
  {
    hide CodesBefore;
    var w := [|b|] + b;
    forall tail: seq<byte>, m: nat
      ensures CodesBefore(w, b, tail, m)
    {
      DumpCodes(b, tail, m);
    }
  }

  method Run(comp: seq<byte>, x0: nat, r: nat, w0: seq<byte>) returns (w: seq<byte>)
    requires x0 <= r <= |comp| && Codes(w0, comp[..x0]) && forall k :: x0 <= k < r ==> comp[k] == comp[x0]
    ensures Codes(w, comp[..r])
  {
    hide Codes;
    var x := x0;
    w := w0;
    while x < r
      invariant x0 <= x <= r && Codes(w, comp[..x])
    {
      var len := Least(r - x, 127);
      var packet := [128 + len, comp[x]];
      RunsCode(comp[x], len);
      assert comp[x..x + len] == Repeat(comp[x], len);
      CodesBoth(w, comp[..x], packet, comp[x..x + len]);
      assert comp[..x] + comp[x..x + len] == comp[..x + len];
      w := w + packet;
      x := x + len;
    }
  }

  lemma RunsCode(v: byte, len: nat)
    requires 1 <= len <= 127
    ensures Codes([128 + len, v], Repeat(v, len))
  {
    hide CodesBefore;
    var w, b := [128 + len, v], Repeat(v, len);
    forall tail: seq<byte>, m: nat
      ensures CodesBefore(w, b, tail, m)
    {
      RunCodes(v, len, tail, m);
    }
  }

  // One component of a scanline: dumps up to each run, and the run.
  method WritePlane(comp: seq<byte>) returns (w: seq<byte>)
    ensures Codes(w, comp)
  {
    hide Codes;
    CodesNothing();
    w := [];
    var x := 0;
    assert comp[..0] == [];
    while x < |comp|
      invariant x <= |comp| && Codes(w, comp[..x])
    {
      var r := FindRun(comp, x);
      w := Dump(comp, x, r, w);
      x := r;
      if r + 2 < |comp| {
        while r < |comp| && comp[r] == comp[x]
          invariant x <= r <= |comp| && forall k :: x <= k < r ==> comp[k] == comp[x]
        {
          r := r + 1;
        }
        w := Run(comp, x, r, w);
        x := r;
      }
    }
    assert comp[..x] == comp;
  }

  // Component `k` of a scanline of RGBE pixels.
  function Component(rgbe: seq<byte>, width: nat, k: nat): (comp: seq<byte>)
    requires |rgbe| == 4 * width && k < 4
    ensures |comp| == width
  {
    seq(width, x requires 0 <= x < width => rgbe[4 * x + k])
  }

  predicate Flat(width: nat) { width < 8 || width >= 32768 }

  // What stands for a scanline: its pixels as they are, or a header and four coded components.
  ghost predicate Scanned(w: seq<byte>, rgbe: seq<byte>, width: nat)
    requires |rgbe| == 4 * width
  {
    if Flat(width) then w == rgbe
    else exists a, b, c, d :: IsScan(w, rgbe, width, a, b, c, d)
  }

  ghost predicate IsScan(w: seq<byte>, rgbe: seq<byte>, width: nat, a: seq<byte>, b: seq<byte>, c: seq<byte>, d: seq<byte>)
    requires |rgbe| == 4 * width
  {
    w == [2, 2, width / 256 % 256, width % 256] + (a + (b + (c + d))) &&
    Codes(a, Component(rgbe, width, 0)) && Codes(b, Component(rgbe, width, 1)) &&
    Codes(c, Component(rgbe, width, 2)) && Codes(d, Component(rgbe, width, 3))
  }

  method WriteScanline(rgbe: seq<byte>, width: nat) returns (w: seq<byte>)
    requires |rgbe| == 4 * width
    ensures Scanned(w, rgbe, width)
  {
    hide Codes, Component;
    if Flat(width) { return rgbe; }
    var a := WritePlane(Component(rgbe, width, 0));
    var b := WritePlane(Component(rgbe, width, 1));
    var c := WritePlane(Component(rgbe, width, 2));
    var d := WritePlane(Component(rgbe, width, 3));
    w := [2, 2, width / 256 % 256, width % 256] + (a + (b + (c + d)));
    assert IsScan(w, rgbe, width, a, b, c, d);
  }

  // ----- reading

  // The first `i` pixels of the scanline have `bytes` as component `k`; the other components are as they were.
  ghost predicate Filled(now: seq<byte>, was: seq<byte>, k: nat, bytes: seq<byte>) {
    |now| == |was| && k < 4 && 4 * |bytes| <= |now| &&
    (forall m: nat :: m < |bytes| ==> ByteAt(now, 4 * m + k) == bytes[m]) &&
    (forall j: nat :: j < |now| && j % 4 != k ==> now[j] == was[j])
  }

  lemma FilledNext(now: seq<byte>, was: seq<byte>, k: nat, bytes: seq<byte>, v: byte)
    requires Filled(now, was, k, bytes) && 4 * |bytes| + 4 <= |now|
    ensures Filled(now[4 * |bytes| + k := v], was, k, bytes + [v])
  {
    var next, more := now[4 * |bytes| + k := v], bytes + [v];
    forall m: nat | m < |more|
      ensures ByteAt(next, 4 * m + k) == more[m]
    {
      assert m < |bytes| ==> ByteAt(now, 4 * m + k) == bytes[m];
    }
    assert (4 * |bytes| + k) % 4 == k;
  }

  // A run.
  method Fill(scanline: array<byte>, i: nat, k: nat, value: byte, count: nat, ghost was: seq<byte>, ghost done: seq<byte>)
    requires |done| == i && 4 * (i + count) <= scanline.Length && Filled(scanline[..], was, k, done)
    modifies scanline
    ensures Filled(scanline[..], was, k, done + Repeat(value, count))
  {
    hide Filled;
    assert done + Repeat(value, 0) == done;
    FilledBound(scanline[..], was, k, done);
    for z := 0 to count
      invariant Filled(scanline[..], was, k, done + Repeat(value, z))
    {
      FilledNext(scanline[..], was, k, done + Repeat(value, z), value);
      assert (done + Repeat(value, z)) + [value] == done + Repeat(value, z + 1);
      scanline[(i + z) * 4 + k] := value;
    }
  }

  lemma FilledBound(now: seq<byte>, was: seq<byte>, k: nat, bytes: seq<byte>)
    requires Filled(now, was, k, bytes)
    ensures k < 4 && |now| == |was|
  {
  }

  // A dump.
  method Copy(s: Context, scanline: array<byte>, i: nat, k: nat, count: nat, ghost was: seq<byte>, ghost done: seq<byte>)
    requires |done| == i && 4 * (i + count) <= scanline.Length && Filled(scanline[..], was, k, done)
    modifies s, scanline
    ensures Filled(scanline[..], was, k, done + Taken(From(s.data, old(s.at)), count))
    ensures From(s.data, s.at) == From(From(s.data, old(s.at)), count)
  {
    hide Filled, From, Taken;
    ghost var d := From(s.data, s.at);
    CopyNone(d);
    assert done + Taken(d, 0) == done;
    FilledBound(scanline[..], was, k, done);
    for z := 0 to count
      invariant Filled(scanline[..], was, k, done + Taken(d, z)) && From(s.data, s.at) == From(d, z)
    {
      NextByteOf(s.data, s.at);
      FromFrom(d, z, 1);
      TakenNext(d, z);
      var v := s.Get8();
      FilledNext(scanline[..], was, k, done + Taken(d, z), v);
      assert (done + Taken(d, z)) + [v] == done + Taken(d, z + 1);
      scanline[(i + z) * 4 + k] := v;
    }
  }

  lemma CopyNone(d: seq<byte>)
    ensures Taken(d, 0) == [] && From(d, 0) == d
  {
  }

  lemma TakenNext(d: seq<byte>, z: nat)
    ensures Taken(d, z + 1) == Taken(d, z) + [ByteAt(From(d, z), 0)]
  {
  }

  // One component of a scanline.
  method ReadPlane(s: Context, scanline: array<byte>, width: nat, k: nat) returns (ok: bool, ghost bytes: seq<byte>)
    requires scanline.Length == 4 * width && k < 4
    modifies s, scanline
    ensures ok <==> Expand(From(s.data, old(s.at)), width).Some?
    ensures ok ==> Expand(From(s.data, old(s.at)), width) == Some(Plane(bytes, From(s.data, s.at)))
    ensures ok ==> Filled(scanline[..], old(scanline[..]), k, bytes)
  {
    hide Expand, Filled, From, Prepend, Repeat, Taken;
    ghost var d0, was := From(s.data, s.at), scanline[..];
    bytes := [];
    FilledNone(was, k);
    PrependNone(Expand(d0, width));
    var i := 0;
    while i < width
      invariant i <= width && |bytes| == i && Filled(scanline[..], was, k, bytes)
      invariant Expand(d0, width) == Prepend(bytes, Expand(From(s.data, s.at), width - i))
    {
      ghost var d, left := From(s.data, s.at), width - i;
      ExpandStep(d, left);
      NextByteOf(s.data, s.at);
      var count: int := s.Get8();
      if count > 128 {
        NextByteOf(s.data, s.at);
        FromFrom(d, 1, 1);
        SecondByte(d);
        var value := s.Get8();
        count := count - 128;
        if count == 0 || count > width - i { return false, bytes; }
        Fill(scanline, i, k, value, count, was, bytes);
        PrependBoth(bytes, Repeat(value, count), Expand(From(d, 2), left - count));
        bytes := bytes + Repeat(value, count);
      } else {
        if count == 0 || count > width - i { return false, bytes; }
        Copy(s, scanline, i, k, count, was, bytes);
        FromFrom(d, 1, count);
        PrependBoth(bytes, Taken(From(d, 1), count), Expand(From(d, 1 + count), left - count));
        bytes := bytes + Taken(From(d, 1), count);
      }
      i := i + count;
    }
    ExpandNone(From(s.data, s.at), bytes);
    ok := true;
  }

  lemma FilledNone(was: seq<byte>, k: nat)
    requires k < 4
    ensures Filled(was, was, k, [])
  {
  }

  lemma PrependNone(p: Option<Plane>)
    ensures Prepend([], p) == p
  {
    if p.Some? { assert [] + p.value.bytes == p.value.bytes; }
  }

  lemma PrependBoth(a: seq<byte>, b: seq<byte>, p: Option<Plane>)
    ensures Prepend(a, Prepend(b, p)) == Prepend(a + b, p)
  {
    if p.Some? { assert a + (b + p.value.bytes) == (a + b) + p.value.bytes; }
  }

  lemma ExpandNone(d: seq<byte>, bytes: seq<byte>)
    ensures Prepend(bytes, Expand(d, 0)) == Some(Plane(bytes, d))
  {
    assert bytes + [] == bytes;
  }

  lemma ExpandStep(d: seq<byte>, n: nat)
    requires n > 0
    ensures var count := ByteAt(d, 0) as int;
      var m := if count > 128 then count - 128 else count;
      Expand(d, n) ==
        if m == 0 || m > n then None
        else if count > 128 then Prepend(Repeat(ByteAt(d, 1), m), Expand(From(d, 2), n - m))
        else Prepend(Taken(From(d, 1), m), Expand(From(d, 1 + m), n - m))
  {
    hide Repeat, Taken, From, Prepend;
  }

  lemma SecondByte(d: seq<byte>)
    ensures ByteAt(From(d, 1), 0) == ByteAt(d, 1)
  {
  }

  // ----- whole scanlines and images

  datatype Status = Fine | PlainPixel | Corrupt

  // After a code comes what it stands for, and then the rest.
  lemma CodedPlane(w: seq<byte>, b: seq<byte>, tail: seq<byte>)
    requires Codes(w, b)
    ensures Expand(w + tail, |b|) == Some(Plane(b, tail))
  {
    hide Expand;
    assert CodesBefore(w, b, tail, 0);
    ExpandNone(tail, b);
  }

  // Four components that are all in place make up the scanline.
  lemma Interleaved(s0: seq<byte>, s1: seq<byte>, s2: seq<byte>, s3: seq<byte>, s4: seq<byte>,
    rgbe: seq<byte>, width: nat)
    requires |rgbe| == |s0| == 4 * width
    requires Filled(s1, s0, 0, Component(rgbe, width, 0)) && Filled(s2, s1, 1, Component(rgbe, width, 1))
    requires Filled(s3, s2, 2, Component(rgbe, width, 2)) && Filled(s4, s3, 3, Component(rgbe, width, 3))
    ensures s4 == rgbe
  {
    forall j | 0 <= j < 4 * width
      ensures s4[j] == rgbe[j]
    {
      var m, k := j / 4, j % 4;
      assert j == 4 * m + k;
      if k == 0 { assert ByteAt(s1, 4 * m + 0) == Component(rgbe, width, 0)[m]; }
      else if k == 1 { assert ByteAt(s2, 4 * m + 1) == Component(rgbe, width, 1)[m]; }
      else if k == 2 { assert ByteAt(s3, 4 * m + 2) == Component(rgbe, width, 2)[m]; }
      else { assert ByteAt(s4, 4 * m + 3) == Component(rgbe, width, 3)[m]; }
    }
  }

  // A header that does not announce a coded scanline is a pixel of an old file, which is not modelled.
  method ReadScanline(s: Context, scanline: array<byte>, width: nat, ghost w: seq<byte>, ghost rgbe: seq<byte>, ghost tail: seq<byte>)
    returns (st: Status)
    requires scanline.Length == 4 * width && |rgbe| == 4 * width && !Flat(width)
    requires Scanned(w, rgbe, width) && From(s.data, s.at) == w + tail
    modifies s, scanline
    ensures st == Fine && scanline[..] == rgbe && From(s.data, s.at) == tail
  {
    hide *;
    ghost var a, b, c, d := Parts(w, rgbe, width);
    ghost var planes, d0 := a + (b + (c + (d + tail))), From(s.data, s.at);
    HeaderBytes(d0, w, width, a, b, c, d, tail, rgbe);
    NextByteOf(s.data, s.at);
    var c1 := s.Get8();
    NextByteOf(s.data, s.at);
    var c2 := s.Get8();
    NextByteOf(s.data, s.at);
    var len: int := s.Get8();
    if c1 != 2 || c2 != 2 || len >= 128 { return PlainPixel; }
    NextByteOf(s.data, s.at);
    var low := s.Get8();
    if len * 256 + low as int != width { return Corrupt; }
    var ok;
    ghost var s0, bytes := scanline[..], [];
    CodedPlane(a, Component(rgbe, width, 0), b + (c + (d + tail)));
    ok, bytes := ReadPlane(s, scanline, width, 0);
    if !ok { return Corrupt; }
    ghost var s1 := scanline[..];
    CodedPlane(b, Component(rgbe, width, 1), c + (d + tail));
    ok, bytes := ReadPlane(s, scanline, width, 1);
    if !ok { return Corrupt; }
    ghost var s2 := scanline[..];
    CodedPlane(c, Component(rgbe, width, 2), d + tail);
    ok, bytes := ReadPlane(s, scanline, width, 2);
    if !ok { return Corrupt; }
    ghost var s3 := scanline[..];
    CodedPlane(d, Component(rgbe, width, 3), tail);
    ok, bytes := ReadPlane(s, scanline, width, 3);
    if !ok { return Corrupt; }
    Interleaved(s0, s1, s2, s3, scanline[..], rgbe, width);
    st := Fine;
  }

  lemma Parts(w: seq<byte>, rgbe: seq<byte>, width: nat)
    returns (a: seq<byte>, b: seq<byte>, c: seq<byte>, d: seq<byte>)
    requires |rgbe| == 4 * width && Scanned(w, rgbe, width) && !Flat(width)
    ensures w == [2, 2, width / 256 % 256, width % 256] + (a + (b + (c + d)))
    ensures Codes(a, Component(rgbe, width, 0)) && Codes(b, Component(rgbe, width, 1))
    ensures Codes(c, Component(rgbe, width, 2)) && Codes(d, Component(rgbe, width, 3))
  {
    hide Codes, Component;
    a, b, c, d :| IsScan(w, rgbe, width, a, b, c, d);
  }

  lemma HeaderBytes(d0: seq<byte>, w: seq<byte>, width: nat, a: seq<byte>, b: seq<byte>, c: seq<byte>,
    d: seq<byte>, tail: seq<byte>, rgbe: seq<byte>)
    requires d0 == w + tail && w == [2, 2, width / 256 % 256, width % 256] + (a + (b + (c + d))) && !Flat(width)
    ensures ByteAt(d0, 0) == 2 && ByteAt(From(d0, 1), 0) == 2
    ensures ByteAt(From(From(d0, 1), 1), 0) as int == width / 256 < 128
    ensures ByteAt(From(From(From(d0, 1), 1), 1), 0) as int == width % 256
    ensures From(From(From(From(d0, 1), 1), 1), 1) == a + (b + (c + (d + tail)))
  {
    var rest := a + (b + (c + (d + tail)));
    assert d0 == [2, 2, width / 256 % 256, width % 256] + rest;
    FromFrom(d0, 1, 1);
    FromFrom(d0, 2, 1);
    FromFrom(d0, 3, 1);
  }

  // A flat scanline, pixel by pixel.
  method ReadFlat(s: Context, width: nat, ghost rgbe: seq<byte>, ghost tail: seq<byte>) returns (row: seq<byte>)
    requires |rgbe| == 4 * width && From(s.data, s.at) == rgbe + tail
    modifies s
    ensures row == rgbe && From(s.data, s.at) == tail
  {
    hide From;
    row := [];
    assert rgbe == rgbe[0..];
    for i := 0 to width
      invariant row == rgbe[..4 * i] && From(s.data, s.at) == rgbe[4 * i..] + tail
    {
      FourMore(s.data, s.at, rgbe, i, tail);
      var pixel := s.Getn(4);
      row := row + pixel.value;
    }
    assert rgbe[4 * width..] + tail == tail && rgbe[..4 * width] == rgbe;
  }

  lemma FourMore(data: seq<byte>, at: nat, rgbe: seq<byte>, i: nat, tail: seq<byte>)
    requires 4 * i + 4 <= |rgbe| && From(data, at) == rgbe[4 * i..] + tail
    ensures at + 4 <= |data| && rgbe[..4 * i] + data[at..at + 4] == rgbe[..4 * i + 4]
    ensures From(data, at + 4) == rgbe[4 * i + 4..] + tail
  {
    var rest := rgbe[4 * i..];
    hide From;
    FromFrom(data, at, 4);
    FrontOf(rest, tail);
    FrontIs(data, at, 4);
    Consecutive(rgbe, 4 * i, 4);
  }

  lemma FrontOf(rest: seq<byte>, tail: seq<byte>)
    requires |rest| >= 4
    ensures (rest + tail)[..4] == rest[..4] && From(rest + tail, 4) == rest[4..] + tail
  {
  }

  lemma FrontIs(data: seq<byte>, at: nat, n: nat)
    requires n > 0 && |From(data, at)| >= n
    ensures at + n <= |data| && data[at..at + n] == From(data, at)[..n]
  {
  }

  lemma Consecutive(b: seq<byte>, i: nat, n: nat)
    requires i + n <= |b|
    ensures b[..i] + b[i..][..n] == b[..i + n] && b[i..][n..] == b[i + n..]
  {
  }

  ghost predicate AreScans(rows: seq<seq<byte>>, width: nat) { forall j :: 0 <= j < |rows| ==> |rows[j]| == 4 * width }

  // The scanlines from the `j`-th on, one after the other.
  ghost function Tail(parts: seq<seq<byte>>, j: nat): seq<byte>
    requires j <= |parts|
    decreases |parts| - j
  {
    if j == |parts| then [] else parts[j] + Tail(parts, j + 1)
  }

  lemma {:induction false} TailPush(parts: seq<seq<byte>>, j: nat, w: seq<byte>)
    requires j <= |parts|
    ensures Tail(parts + [w], j) == Tail(parts, j) + w
    decreases |parts| - j
  {
    if j < |parts| {
      TailPush(parts, j + 1, w);
      assert parts[j] + (Tail(parts, j + 1) + w) == (parts[j] + Tail(parts, j + 1)) + w;
    } else {
      assert Tail(parts + [w], j + 1) == [] && w + [] == w && [] + w == w;
    }
  }

  ghost predicate AllScanned(parts: seq<seq<byte>>, rows: seq<seq<byte>>, width: nat)
    requires AreScans(rows, width)
  {
    |parts| <= |rows| && forall j :: 0 <= j < |parts| ==> Scanned(parts[j], rows[j], width)
  }

  method WriteImage(rows: seq<seq<byte>>, width: nat) returns (w: seq<byte>, ghost parts: seq<seq<byte>>)
    requires AreScans(rows, width)
    ensures |parts| == |rows| && AllScanned(parts, rows, width) && w == Tail(parts, 0)
  {
    hide Scanned, Tail;
    w, parts := [], [];
    assert Tail([], 0) == [] by { TailNone(); }
    for j := 0 to |rows|
      invariant |parts| == j && AllScanned(parts, rows, width) && w == Tail(parts, 0)
    {
      var part := WriteScanline(rows[j], width);
      TailPush(parts, 0, part);
      w := w + part;
      parts := parts + [part];
    }
  }

  lemma TailNone()
    ensures Tail([], 0) == []
  {
  }

  lemma TailIs(parts: seq<seq<byte>>, j: nat)
    requires j < |parts|
    ensures Tail(parts, j) == parts[j] + Tail(parts, j + 1)
  {
  }

  method ReadImage(file: seq<byte>, width: nat, height: nat, ghost rows: seq<seq<byte>>, ghost parts: seq<seq<byte>>)
    returns (got: Option<seq<seq<byte>>>)
    requires AreScans(rows, width) && |rows| == |parts| == height && AllScanned(parts, rows, width) && file == Tail(parts, 0)
    ensures got == Some(rows)
  {
    hide Scanned, Tail, From;
    var s := new Context(file);
    var scanline := new byte[4 * width];
    var image := [];
    CopyNone(file);
    for j := 0 to height
      invariant |image| == j && forall k :: 0 <= k < j ==> image[k] == rows[k]
      invariant From(s.data, s.at) == Tail(parts, j)
    {
      TailIs(parts, j);
      var row;
      if Flat(width) {
        FlatScan(parts[j], rows[j], width);
        row := ReadFlat(s, width, rows[j], Tail(parts, j + 1));
      } else {
        var st := ReadScanline(s, scanline, width, parts[j], rows[j], Tail(parts, j + 1));
        if st != Fine { return None; }
        row := scanline[..];
      }
      image := image + [row];
    }
    assert image == rows;
    got := Some(image);
  }

  lemma FlatScan(w: seq<byte>, rgbe: seq<byte>, width: nat)
    requires |rgbe| == 4 * width && Flat(width) && Scanned(w, rgbe, width)
    ensures w == rgbe
  {
  }

  const MAX_DIMENSIONS := 0x100_0000

  // `stbi__mad4sizes_valid` for `comp` floats a pixel.
  predicate SizesValid(width: nat, height: nat, comp: nat) {
    MulValid(width, height) && MulValid(width * height, comp) && MulValid(width * height * comp, 4)
  }

  // `stbi__mul2sizes_valid`
  predicate MulValid(a: nat, b: nat) { b == 0 || a <= INT_MAX / b }

  lemma MulValidIs(a: nat, b: nat)
    ensures a * b >= 0 && (MulValid(a, b) <==> a * b <= INT_MAX)
  {
    if b > 0 {
      var q, r := INT_MAX / b, INT_MAX % b;
      assert INT_MAX == q * b + r;
      if a <= q {
        MulNonNegative(q - a, b);
        Distribute(q - a, a, b);
      } else {
        MulGrows(a - q, b);
        Distribute(a - q, q, b);
      }
    }
  }

  // The checks in steps come to one on the whole product.
  lemma SizesValidIs(width: nat, height: nat, comp: nat)
    requires comp > 0
    ensures width * height >= 0 && width * height * comp >= 0
    ensures SizesValid(width, height, comp) <==> width * height * comp * 4 <= INT_MAX
  {
    MulValidIs(width, height);
    MulValidIs(width * height, comp);
    MulValidIs(width * height * comp, 4);
    if width * height > 0 { MulGrows(comp, width * height); Commute(comp, width * height); }
  }

  // The loader from the sizes on; `comp` is the number of components asked for.
  method LoadImage(file: seq<byte>, width: nat, height: nat, comp: nat, ghost rows: seq<seq<byte>>, ghost parts: seq<seq<byte>>)
    returns (got: Option<seq<seq<byte>>>)
    requires AreScans(rows, width) && |rows| == |parts| == height && AllScanned(parts, rows, width) && file == Tail(parts, 0)
    requires 1 <= comp <= 4
    ensures got == if width <= MAX_DIMENSIONS && height <= MAX_DIMENSIONS && width * height * comp * 4 <= INT_MAX then Some(rows) else None
  {
    hide AllScanned, Tail;
    SizesValidIs(width, height, comp);
    if height > MAX_DIMENSIONS || width > MAX_DIMENSIONS { return None; }
    if !SizesValid(width, height, comp) { return None; }
    got := ReadImage(file, width, height, rows, parts);
  }

  // An image of RGBE bytes comes back as it was written exactly if it has pixels and is within the loader's limits.
  method RoundTrip(rows: seq<seq<byte>>, width: nat, comp: nat) returns (got: Option<seq<seq<byte>>>)
    requires AreScans(rows, width) && 1 <= comp <= 4
    ensures got == if 1 <= width <= MAX_DIMENSIONS && 1 <= |rows| <= MAX_DIMENSIONS && width * |rows| * comp * 4 <= INT_MAX then Some(rows)
                   else None
  {
    hide AllScanned, Tail, SizesValid;
    if |rows| == 0 || width == 0 { return None; }
    var w;
    ghost var parts;
    w, parts := WriteImage(rows, width);
    got := LoadImage(w, width, |rows|, comp, rows, parts);
  }
}
