// Run-length encoded TGA images: `stbi_write_tga_core` and the part of `stbi__tga_load` that reads what it writes.

module TgaRle {
  import opened BitStream
  import opened InputContext
  import opened Wrappers

  type Pixel = seq<byte>

  // ----- what packets mean

  // The next pixel of the data; past its end everything reads as zero.
  function PixelAt(d: seq<byte>, n: nat): (p: Pixel)
    ensures |p| == n
  {
    seq(n, c requires 0 <= c < n => ByteAt(d, c))
  }

  // `count` pixels of `n` bytes each, as they stand.
  function Plain(d: seq<byte>, n: nat, count: nat): (r: seq<Pixel>)
    ensures |r| == count
    decreases count
  {
    if count == 0 then [] else [PixelAt(d, n)] + Plain(From(d, n), n, count - 1)
  }

  // The next `count` pixels of the packets in `d`: a header says how many pixels there are, and whether they are one pixel
  // repeated.
  function Unpack(d: seq<byte>, n: nat, count: nat): (r: seq<Pixel>)
    ensures |r| == count
    decreases count
  {
    if count == 0 then []
    else
      var h := ByteAt(d, 0);
      var m := Least(1 + h as int % 128, count);
      if h >= 128 then Repeat(PixelAt(From(d, 1), n), m) + Unpack(From(d, 1 + n), n, count - m)
      else Plain(From(d, 1), n, m) + Unpack(From(d, 1 + m * n), n, count - m)
  }

  // The packets `w` stand for `row`, whatever comes after them.
  ghost predicate Packs(w: seq<byte>, row: seq<Pixel>, n: nat) {
    forall tail: seq<byte>, m: nat :: PacksBefore(w, row, n, tail, m)
  }

  ghost predicate PacksBefore(w: seq<byte>, row: seq<Pixel>, n: nat, tail: seq<byte>, m: nat) {
    Unpack(w + tail, n, |row| + m) == row + Unpack(tail, n, m)
  }

  ghost predicate IsRow(row: seq<Pixel>, n: nat) { forall i :: 0 <= i < |row| ==> |row[i]| == n }

  lemma PacksNothing(n: nat)
    ensures Packs([], [], n)
  {
    hide Unpack;
    forall tail: seq<byte>, m: nat
      ensures PacksBefore([], [], n, tail, m)
    {
      assert [] + tail == tail;
    }
  }

  lemma PacksBoth(w: seq<byte>, row: seq<Pixel>, w': seq<byte>, row': seq<Pixel>, n: nat)
    requires Packs(w, row, n) && Packs(w', row', n)
    ensures Packs(w + w', row + row', n)
  {
    hide PacksBefore;
    forall tail: seq<byte>, m: nat
      ensures PacksBefore(w + w', row + row', n, tail, m)
    {
      Joined(w, row, w', row', n, tail, m);
    }
  }

  lemma Joined(w: seq<byte>, row: seq<Pixel>, w': seq<byte>, row': seq<Pixel>, n: nat, tail: seq<byte>, m: nat)
    requires PacksBefore(w, row, n, w' + tail, |row'| + m) && PacksBefore(w', row', n, tail, m)
    ensures PacksBefore(w + w', row + row', n, tail, m)
  {
    hide Unpack;
    assert (w + w') + tail == w + (w' + tail);
    assert |row + row'| + m == |row| + (|row'| + m);
    assert (row + row') + Unpack(tail, n, m) == row + (row' + Unpack(tail, n, m));
  }

  // A run of up to 128 equal pixels is one packet ...
  lemma RunPacks(p: Pixel, len: nat)
    requires 1 <= len <= 128
    ensures Packs([127 + len] + p, Repeat(p, len), |p|)
  {
    hide PacksBefore;
    var w, row, n := [127 + len] + p, Repeat(p, len), |p|;
    forall tail: seq<byte>, m: nat
      ensures PacksBefore(w, row, n, tail, m)
    {
      RunBefore(p, len, tail, m);
    }
  }

  lemma RunBefore(p: Pixel, len: nat, tail: seq<byte>, m: nat)
    requires 1 <= len <= 128
    ensures PacksBefore([127 + len] + p, Repeat(p, len), |p|, tail, m)
  {
    hide *;
    var d := [127 + len] + (p + tail);
    HeaderFirst(127 + len, p + tail);
    PixelFirst(p, tail);
    FromFrom(d, 1, |p|);
    RunHeader(d, |p|, len + m);
    LeastFirst(len, m);
    assert ([127 + len] + p) + tail == d;
    BeforeIs([127 + len] + p, Repeat(p, len), |p|, tail, m);
  }

  lemma BeforeIs(w: seq<byte>, row: seq<Pixel>, n: nat, tail: seq<byte>, m: nat)
    ensures PacksBefore(w, row, n, tail, m) <==> Unpack(w + tail, n, |row| + m) == row + Unpack(tail, n, m)
  {
    hide Unpack;
  }

  lemma {:induction false} RunHeader(d: seq<byte>, n: nat, count: nat)
    requires count > 0 && ByteAt(d, 0) >= 128
    ensures var m := Least(ByteAt(d, 0) - 127, count);
      Unpack(d, n, count) == Repeat(PixelAt(From(d, 1), n), m) + Unpack(From(d, 1 + n), n, count - m)
  {
    hide Repeat, PixelAt, From, Plain, ByteAt, Least;
    var h := ByteAt(d, 0) as int;
    assert 1 + h % 128 == h - 127;
  }

  lemma RawHeader(d: seq<byte>, n: nat, count: nat)
    requires count > 0 && ByteAt(d, 0) < 128
    ensures var m := Least(ByteAt(d, 0) + 1, count);
      Unpack(d, n, count) == Plain(From(d, 1), n, m) + Unpack(From(d, 1 + m * n), n, count - m)
  {
    hide Repeat, Plain, From, ByteAt, Least;
    var h := ByteAt(d, 0) as int;
    assert 1 + h % 128 == h + 1;
  }

  lemma PixelFirst(p: Pixel, tail: seq<byte>)
    ensures PixelAt(p + tail, |p|) == p && From(p + tail, |p|) == tail
  {
  }

  function Flatten(row: seq<Pixel>): (d: seq<byte>) { if row == [] then [] else row[0] + Flatten(row[1..]) }

  lemma {:induction false} FlattenLength(row: seq<Pixel>, n: nat)
    requires IsRow(row, n)
    ensures |Flatten(row)| == |row| * n
  {
    if row != [] {
      FlattenLength(row[1..], n);
      Distribute(1, |row| - 1, n);
    }
  }

  lemma {:induction false} PlainFlatten(row: seq<Pixel>, n: nat, tail: seq<byte>)
    requires IsRow(row, n)
    ensures Plain(Flatten(row) + tail, n, |row|) == row
  {
    if row != [] {
      var rest := Flatten(row[1..]);
      assert Flatten(row) + tail == row[0] + (rest + tail);
      PixelFirst(row[0], rest + tail);
      PlainFlatten(row[1..], n, tail);
    }
  }

  // ... and so are up to 128 pixels as they stand.
  lemma RawPacks(row: seq<Pixel>, n: nat)
    requires 1 <= |row| <= 128 && IsRow(row, n)
    ensures Packs([|row| - 1] + Flatten(row), row, n)
  {
    hide PacksBefore;
    var w := [|row| - 1] + Flatten(row);
    forall tail: seq<byte>, m: nat
      ensures PacksBefore(w, row, n, tail, m)
    {
      RawBefore(row, n, tail, m);
    }
  }

  lemma RawBefore(row: seq<Pixel>, n: nat, tail: seq<byte>, m: nat)
    requires 1 <= |row| <= 128 && IsRow(row, n)
    ensures PacksBefore([|row| - 1] + Flatten(row), row, n, tail, m)
  {
    hide *;
    var len, all := |row|, Flatten(row);
    var d := [len - 1] + (all + tail);
    HeaderFirst(len - 1, all + tail);
    FlattenLength(row, n);
    PlainFlatten(row, n, tail);
    FromPast(all, tail);
    FromFrom(d, 1, len * n);
    RawHeader(d, n, len + m);
    LeastFirst(len, m);
    assert ([len - 1] + all) + tail == d;
    BeforeIs([len - 1] + all, row, n, tail, m);
  }

  lemma LeastFirst(a: nat, m: nat)
    ensures Least(a, a + m) == a
  {
  }

  // ----- writing

  // A pixel as it is stored: colours in the order blue, green, red.
  function Stored(p: Pixel): (s: Pixel)
    ensures |s| == |p|
  {
    if |p| >= 3 then [p[2], p[1], p[0]] + p[3..] else p
  }

  function StoredRow(row: seq<Pixel>): (r: seq<Pixel>)
    ensures |r| == |row|
  {
    seq(|row|, i requires 0 <= i < |row| => Stored(row[i]))
  }

  // How long the next packet is, and whether its pixels differ. The search for the end of differing pixels compares each
  // one with the one before the last.
  method NextPacket(row: seq<Pixel>, i: nat) returns (len: nat, diff: bool)
    requires i < |row|
    ensures 1 <= len <= 128 && i + len <= |row|
    ensures !diff ==> forall k :: i <= k < i + len ==> row[k] == row[i]
  {
    diff, len := true, 1;
    if i + 1 < |row| {
      len := 2;
      diff := row[i] != row[i + 1];
      var k := i + 2;
      if diff {
        var prev := i;
        while k < |row| && len < 128
          invariant len == k - i <= 128 && i + 2 <= k <= |row| && prev == k - 2
        {
          if row[prev] != row[k] {
            prev := prev + 1;
            len := len + 1;
          } else {
            len := len - 1;
            break;
          }
          k := k + 1;
        }
      } else {
        while k < |row| && len < 128
          invariant len == k - i <= 128 && i + 2 <= k <= |row| && forall m :: i <= m < k ==> row[m] == row[i]
        {
          if row[i] != row[k] { break; }
          len := len + 1;
          k := k + 1;
        }
      }
    }
  }

  // The packets cover the row from left to right and stand for it.
  method WriteRow(row: seq<Pixel>, n: nat) returns (w: seq<byte>)
    requires IsRow(row, n)
    ensures Packs(w, StoredRow(row), n)
  {
    hide Packs, Unpack, Flatten;
    w := [];
    PacksNothing(n);
    assert StoredRow(row)[..0] == [];
    var i := 0;
    while i < |row|
      invariant i <= |row| && Packs(w, StoredRow(row)[..i], n)
    {
      var len, diff := NextPacket(row, i);
      var stored := StoredRow(row);
      var packet;
      if diff {
        packet := [len - 1] + Flatten(stored[i..i + len]);
        RawPacks(stored[i..i + len], n);
      } else {
        packet := [127 + len] + Stored(row[i]);
        RunPacks(Stored(row[i]), len);
        assert stored[i..i + len] == Repeat(Stored(row[i]), len);
      }
      PacksBoth(w, stored[..i], packet, stored[i..i + len], n);
      assert stored[..i] + stored[i..i + len] == stored[..i + len];
      w := w + packet;
      i := i + len;
    }
    assert StoredRow(row)[..i] == StoredRow(row);
  }

  // The image as rows of pixels.
  function RowOf(data: seq<byte>, x: nat, n: nat, j: nat): (row: seq<Pixel>)
    requires (j + 1) * (x * n) <= |data|
    ensures |row| == x && IsRow(row, n)
  {
    seq(x, i requires 0 <= i < x => RowPixel(data, x, n, j, i))
  }

  function RowPixel(data: seq<byte>, x: nat, n: nat, j: nat, i: nat): (p: Pixel)
    requires (j + 1) * (x * n) <= |data| && i < x
    ensures |p| == n
  {
    PixelInside(x, n, j, i);
    data[j * (x * n) + i * n..j * (x * n) + i * n + n]
  }

  lemma PixelInside(x: nat, n: nat, j: nat, i: nat)
    requires i < x
    ensures j * (x * n) + i * n + n <= (j + 1) * (x * n)
  {
    Distribute(j, 1, x * n);
    Distribute(i + 1, x - i - 1, n);
    Distribute(i, 1, n);
    MulNonNegative(x - i - 1, n);
  }

  // The stored pixels of the rows from `y - 1` down to `y - j`, or from 0 up to `j` when the image is flipped.
  ghost function FileRows(data: seq<byte>, x: nat, y: nat, n: nat, flip: bool, j: nat): (r: seq<Pixel>)
    requires j <= y && y * (x * n) <= |data|
    ensures |r| == j * x
  {
    if j == 0 then []
    else
      var k := if flip then j - 1 else y - j;
      RowsInside(x * n, k + 1, y);
      Distribute(j - 1, 1, x);
      FileRows(data, x, y, n, flip, j - 1) + StoredRow(RowOf(data, x, n, k))
  }

  lemma RowsInside(w: nat, k: nat, y: nat)
    requires k <= y
    ensures k * w <= y * w
  {
    Distribute(k, y - k, w);
    MulNonNegative(y - k, w);
  }

  method WriteRows(data: seq<byte>, x: nat, y: nat, n: nat, flip: bool) returns (w: seq<byte>)
    requires y * (x * n) <= |data|
    ensures Packs(w, FileRows(data, x, y, n, flip, y), n)
  {
    hide Packs, Unpack, StoredRow, RowOf;
    w := [];
    PacksNothing(n);
    var j, jdir := if flip then 0 else y - 1, if flip then 1 else -1;
    for k := 0 to y
      invariant Packs(w, FileRows(data, x, y, n, flip, k), n) && j == if flip then k else y - 1 - k
    {
      RowsInside(x * n, j + 1, y);
      var row := WriteRow(RowOf(data, x, n, j), n);
      PacksBoth(w, FileRows(data, x, y, n, flip, k), row, StoredRow(RowOf(data, x, n, j)), n);
      w := w + row;
      j := j + jdir;
    }
  }

  // ----- reading

  // What is still to come: the rest of a packet of which `rle` pixels are left, and the packets after it.
  ghost function Pending(rle: nat, repeating: bool, pixel: Pixel, d: seq<byte>, n: nat, left: nat): (r: seq<Pixel>)
    ensures |r| == left
  {
    var m := Least(rle, left);
    if repeating then Repeat(pixel, m) + Unpack(d, n, left - m)
    else Plain(d, n, m) + Unpack(From(d, m * n), n, left - m)
  }

  lemma PendingNone(repeating: bool, pixel: Pixel, d: seq<byte>, n: nat, left: nat)
    ensures Pending(0, repeating, pixel, d, n, left) == Unpack(d, n, left)
  {
    hide Unpack;
    assert From(d, 0 * n) == d;
  }

  // A header, and the packet it announces.
  lemma NewPacket(d: seq<byte>, n: nat, left: nat)
    requires left > 0
    ensures var h, d1 := ByteAt(d, 0), From(d, 1);
      Unpack(d, n, left) == if h >= 128 then [PixelAt(d1, n)] + Pending(h - 128, true, PixelAt(d1, n), From(d1, n), n, left - 1)
                            else [PixelAt(d1, n)] + Pending(h as int, false, PixelAt(d1, n), From(d1, n), n, left - 1)
  {
    hide Unpack, PixelAt, From;
    var h, d1 := ByteAt(d, 0), From(d, 1);
    if h >= 128 {
      RunHeader(d, n, left);
      FromFrom(d, 1, n);
      RepeatNext(PixelAt(d1, n), h - 128, left - 1, From(d1, n), n);
    } else {
      RawHeader(d, n, left);
      FromFrom(d, 1, Least(h as int + 1, left) * n);
      PlainNext(d1, n, h as int, left - 1, PixelAt(d1, n));
    }
  }

  lemma RepeatNext(p: Pixel, k: nat, left: nat, d: seq<byte>, n: nat)
    ensures Repeat(p, Least(k + 1, left + 1)) + Unpack(d, n, left + 1 - Least(k + 1, left + 1))
         == [p] + Pending(k, true, p, d, n, left)
  {
    hide Unpack;
    assert Repeat(p, Least(k + 1, left + 1)) == [p] + Repeat(p, Least(k, left));
  }

  lemma PlainNext(d: seq<byte>, n: nat, k: nat, left: nat, p: Pixel)
    ensures var m := Least(k + 1, left + 1);
      Plain(d, n, m) + Unpack(From(d, m * n), n, left + 1 - m) == [PixelAt(d, n)] + Pending(k, false, p, From(d, n), n, left)
  {
    hide Unpack, From, PixelAt;
    var m := Least(k, left);
    Distribute(m, 1, n);
    FromFrom(d, n, m * n);
    PlainFirst(d, n, m);
  }

  lemma PlainFirst(d: seq<byte>, n: nat, m: nat)
    ensures Plain(d, n, m + 1) == [PixelAt(d, n)] + Plain(From(d, n), n, m)
  {
  }

  // Inside a packet.
  lemma SamePacket(rle: nat, repeating: bool, pixel: Pixel, p: Pixel, d: seq<byte>, n: nat, left: nat)
    requires rle > 0 && left > 0
    ensures Pending(rle, repeating, pixel, d, n, left) ==
      if repeating then [pixel] + Pending(rle - 1, true, pixel, d, n, left - 1)
      else [PixelAt(d, n)] + Pending(rle - 1, false, p, From(d, n), n, left - 1)
  {
    hide Unpack, PixelAt, From;
    if repeating { RepeatNext(pixel, rle - 1, left - 1, d, n); } else { PlainNext(d, n, rle - 1, left - 1, p); }
  }

  lemma {:induction false} FlattenPush(row: seq<Pixel>, p: Pixel)
    ensures Flatten(row + [p]) == Flatten(row) + p
  {
    if row == [] {
      assert [p][1..] == [] && [] + [p] == [p];
    } else {
      FlattenPush(row[1..], p);
      assert (row + [p])[1..] == row[1..] + [p];
    }
  }

  method ReadPixel(s: Context, n: nat) returns (p: Pixel)
    modifies s
    ensures p == PixelAt(From(s.data, old(s.at)), n) && From(s.data, s.at) == From(From(s.data, old(s.at)), n)
  {
    p := [];
    ghost var d := From(s.data, s.at);
    for j := 0 to n
      invariant p == PixelAt(d, j) && From(s.data, s.at) == From(d, j)
    {
      NextByteOf(s.data, s.at);
      FromFrom(d, j, 1);
      OneMore(d, j);
      var b := s.Get8();
      p := p + [b];
    }
  }

  lemma OneMore(d: seq<byte>, j: nat)
    ensures PixelAt(d, j + 1) == PixelAt(d, j) + [ByteAt(From(d, j), 0)]
  {
  }

  // The loop over all pixels.
  method ReadPixels(s: Context, out: array<byte>, n: nat, count: nat) returns (ghost pixels: seq<Pixel>)
    requires out.Length == count * n
    modifies s, out
    ensures pixels == Unpack(From(s.data, old(s.at)), n, count) && out[..] == Flatten(pixels) && IsRow(pixels, n)
  {
    hide *;
    ghost var d0 := From(s.data, s.at);
    var rleCount, rleRepeating, raw: Pixel := 0, false, seq(n, c => 0);
    pixels := [];
    var at := 0;
    PendingNone(rleRepeating, raw, d0, n, count);
    NoPixels(n);
    for i := 0 to count
      invariant at == i * n && |pixels| == i && IsRow(pixels, n) && |raw| == n
      invariant out[..at] == Flatten(pixels)
      invariant Unpack(d0, n, count) == pixels + Pending(rleCount, rleRepeating, raw, From(s.data, s.at), n, count - i)
    {
      rleCount, rleRepeating, raw := NextPixel(s, n, rleCount, rleRepeating, raw, count - i);
      Distribute(i, 1, n);
      RowsInside(n, i + 1, count);
      PutPixel(out, at, raw, pixels);
      RowPush(pixels, raw, n);
      pixels := pixels + [raw];
      at := at + n;
    }
    assert out[..at] == out[..];
    assert |Pending(rleCount, rleRepeating, raw, From(s.data, s.at), n, 0)| == 0;
  }

  lemma NoPixels(n: nat)
    ensures Flatten([]) == [] && IsRow([], n)
  {
  }

  lemma RowPush(row: seq<Pixel>, p: Pixel, n: nat)
    requires IsRow(row, n) && |p| == n
    ensures IsRow(row + [p], n)
  {
  }

  // A header when the packet before is used up, a pixel when the packet does not repeat one.
  method NextPixel(s: Context, n: nat, rle0: nat, repeating0: bool, raw0: Pixel, ghost left: nat)
    returns (rleCount: nat, rleRepeating: bool, raw: Pixel)
    requires left > 0 && |raw0| == n
    modifies s
    ensures |raw| == n
    ensures Pending(rle0, repeating0, raw0, From(s.data, old(s.at)), n, left)
         == [raw] + Pending(rleCount, rleRepeating, raw, From(s.data, s.at), n, left - 1)
  {
    hide *;
    ghost var d := From(s.data, s.at);
    rleCount, rleRepeating, raw := rle0, repeating0, raw0;
    if rleCount == 0 {
      PendingNone(rleRepeating, raw, d, n, left);
      NewPacket(d, n, left);
      NextByteOf(s.data, s.at);
      var cmd: int := s.Get8();
      rleCount := 1 + cmd % 128;
      rleRepeating := cmd / 128 == 1;
      raw := ReadPixel(s, n);
    } else if !rleRepeating {
      raw := ReadPixel(s, n);
      SamePacket(rleCount, rleRepeating, raw0, raw, d, n, left);
    } else {
      SamePacket(rleCount, rleRepeating, raw0, raw, d, n, left);
    }
    rleCount := rleCount - 1;
  }

  method PutPixel(out: array<byte>, at: nat, raw: Pixel, ghost pixels: seq<Pixel>)
    requires at + |raw| <= out.Length && out[..at] == Flatten(pixels)
    modifies out
    ensures out[..at + |raw|] == Flatten(pixels + [raw])
  {
    hide Flatten;
    forall c | 0 <= c < |raw| { out[at + c] := raw[c]; }
    FlattenPush(pixels, raw);
    assert out[..at] == old(out[..at]);
    assert out[..at + |raw|] == out[..at] + raw;
  }

  // ----- turning the image over, and its colours round

  // Byte `b` of row `r`, in rows of `w` bytes.
  function Cell(w: nat, r: nat, b: nat): nat { r * w + b }

  lemma CellInside(w: nat, r: nat, b: nat, h: nat)
    requires r < h && b < w
    ensures Cell(w, r, b) < h * w
  {
    RowsInside(w, r + 1, h);
    Distribute(r, 1, w);
  }

  lemma CellApart(w: nat, r: nat, b: nat, r': nat, b': nat)
    requires b < w && b' < w && Cell(w, r, b) == Cell(w, r', b')
    ensures r == r' && b == b'
  {
    DivModUnique(Cell(w, r, b), w, r, b);
    DivModUnique(Cell(w, r, b), w, r', b');
  }

  // Rows before `j` have changed places with their mirror images, and so have the first `i` bytes of row `j`.
  ghost predicate Swapped(w: nat, h: nat, j: nat, i: nat, r: nat, b: nat)
    requires r < h
  {
    var k := if 2 * r < h then r else h - 1 - r;
    k < j || (k == j && b < i)
  }

  ghost predicate Turned(now: seq<byte>, was: seq<byte>, w: nat, h: nat, j: nat, i: nat) {
    |now| == |was| == h * w &&
    forall r: nat, b: nat :: r < h && b < w ==>
      ByteAt(now, Cell(w, r, b)) == ByteAt(was, Cell(w, if Swapped(w, h, j, i, r, b) then h - 1 - r else r, b))
  }

  lemma TurnedByte(now: seq<byte>, was: seq<byte>, w: nat, h: nat, j: nat, i: nat)
    requires Turned(now, was, w, h, j, i) && 2 * j < h && i < w
    ensures var a, b := Cell(w, j, i), Cell(w, h - 1 - j, i);
      a < |now| && b < |now| && Turned(now[a := now[b]][b := now[a]], was, w, h, j, i + 1)
  {
    hide Cell;
    var j' := h - 1 - j;
    CellInside(w, j, i, h);
    CellInside(w, j', i, h);
    var a, b := Cell(w, j, i), Cell(w, j', i);
    var next := now[a := now[b]][b := now[a]];
    forall r: nat, c: nat | r < h && c < w
      ensures ByteAt(next, Cell(w, r, c)) == ByteAt(was, Cell(w, if Swapped(w, h, j, i + 1, r, c) then h - 1 - r else r, c))
    {
      CellInside(w, r, c, h);
      assert ByteAt(now, Cell(w, r, c)) == ByteAt(was, Cell(w, if Swapped(w, h, j, i, r, c) then h - 1 - r else r, c));
      assert ByteAt(now, a) == ByteAt(was, a) && ByteAt(now, b) == ByteAt(was, b);
      if Cell(w, r, c) == a { CellApart(w, r, c, j, i); }
      if Cell(w, r, c) == b { CellApart(w, r, c, j', i); }
    }
  }

  // Every row is where its mirror image was.
  ghost predicate TurnedOver(now: seq<byte>, was: seq<byte>, w: nat, h: nat) {
    |now| == |was| &&
    forall r: nat, b: nat :: r < h && b < w ==> ByteAt(now, Cell(w, r, b)) == ByteAt(was, Cell(w, h - 1 - r, b))
  }

  method InvertRows(out: array<byte>, w: nat, h: nat)
    requires out.Length == h * w
    modifies out
    ensures TurnedOver(out[..], old(out[..]), w, h)
  {
    hide Turned, Cell;
    ghost var was := out[..];
    TurnedNone(was, w, h);
    var j := 0;
    while j * 2 < h
      invariant j <= (h + 1) / 2 && Turned(out[..], was, w, h, j, 0)
    {
      var index1, index2 := Cell(w, j, 0), Cell(w, h - 1 - j, 0);
      for i := 0 to w
        invariant Turned(out[..], was, w, h, j, i) && index1 == Cell(w, j, i) && index2 == Cell(w, h - 1 - j, i)
      {
        TurnedByte(out[..], was, w, h, j, i);
        CellNext(w, j, i);
        CellNext(w, h - 1 - j, i);
        out[index1], out[index2] := out[index2], out[index1];
        index1 := index1 + 1;
        index2 := index2 + 1;
      }
      TurnedRow(out[..], was, w, h, j);
      j := j + 1;
    }
    TurnedAll(out[..], was, w, h, j);
  }

  lemma CellNext(w: nat, r: nat, b: nat)
    ensures Cell(w, r, b + 1) == Cell(w, r, b) + 1
  {
  }

  lemma TurnedNone(was: seq<byte>, w: nat, h: nat)
    requires |was| == h * w
    ensures Turned(was, was, w, h, 0, 0)
  {
    hide Cell;
  }

  lemma TurnedRow(now: seq<byte>, was: seq<byte>, w: nat, h: nat, j: nat)
    requires Turned(now, was, w, h, j, w)
    ensures Turned(now, was, w, h, j + 1, 0)
  {
    hide Cell;
    forall r: nat, b: nat | r < h && b < w
      ensures Swapped(w, h, j + 1, 0, r, b) == Swapped(w, h, j, w, r, b)
    {
    }
  }

  lemma TurnedAll(now: seq<byte>, was: seq<byte>, w: nat, h: nat, j: nat)
    requires Turned(now, was, w, h, j, 0) && 2 * j >= h
    ensures TurnedOver(now, was, w, h)
  {
    hide Cell;
    forall r: nat, b: nat | r < h && b < w
      ensures Swapped(w, h, j, 0, r, b)
    {
    }
  }

  // The first and the third byte of a pixel change places.
  function Mirrored(n: nat, c: nat): nat { if n >= 3 && c < 3 then 2 - c else c }

  ghost predicate Recolored(now: seq<byte>, was: seq<byte>, n: nat, count: nat, i: nat) {
    |now| == |was| == count * n &&
    forall k: nat, c: nat :: k < count && c < n ==>
      ByteAt(now, Cell(n, k, c)) == ByteAt(was, Cell(n, k, if k < i then Mirrored(n, c) else c))
  }

  ghost predicate Repainted(now: seq<byte>, was: seq<byte>, n: nat, count: nat) {
    |now| == |was| &&
    forall k: nat, c: nat :: k < count && c < n ==> ByteAt(now, Cell(n, k, c)) == ByteAt(was, Cell(n, k, Mirrored(n, c)))
  }

  method SwapColors(out: array<byte>, n: nat, count: nat)
    requires out.Length == count * n
    modifies out
    ensures Repainted(out[..], old(out[..]), n, count)
  {
    ghost var was := out[..];
    if n >= 3 {
      hide Recolored, Cell;
      RecoloredNone(was, n, count);
      var at := Cell(n, 0, 0);
      for i := 0 to count
        invariant Recolored(out[..], was, n, count, i) && at == Cell(n, i, 0)
      {
        RecoloredPixel(out[..], was, n, count, i);
        out[at], out[at + 2] := out[at + 2], out[at];
        at := at + n;
      }
      RecoloredAll(out[..], was, n, count);
    }
  }

  lemma RecoloredNone(was: seq<byte>, n: nat, count: nat)
    requires |was| == count * n
    ensures Recolored(was, was, n, count, 0)
  {
    hide Cell;
  }

  lemma RecoloredAll(now: seq<byte>, was: seq<byte>, n: nat, count: nat)
    requires Recolored(now, was, n, count, count)
    ensures Repainted(now, was, n, count)
  {
    hide Cell;
  }

  lemma RecoloredPixel(now: seq<byte>, was: seq<byte>, n: nat, count: nat, i: nat)
    requires Recolored(now, was, n, count, i) && i < count && n >= 3
    ensures var a := Cell(n, i, 0);
      a + 2 < |now| && a + n == Cell(n, i + 1, 0) && Recolored(now[a := now[a + 2]][a + 2 := now[a]], was, n, count, i + 1)
  {
    var a := Cell(n, i, 0);
    CellInside(n, i, 2, count);
    assert a + 2 == Cell(n, i, 2) && a + 1 == Cell(n, i, 1);
    Distribute(i, 1, n);
    assert a + n == Cell(n, i + 1, 0);
    var next := now[a := now[a + 2]][a + 2 := now[a]];
    hide Cell;
    forall k: nat, c: nat | k < count && c < n
      ensures ByteAt(next, Cell(n, k, c)) == ByteAt(was, Cell(n, k, if k < i + 1 then Mirrored(n, c) else c))
    {
      CellInside(n, k, c, count);
      assert ByteAt(now, Cell(n, k, c)) == ByteAt(was, Cell(n, k, if k < i then Mirrored(n, c) else c));
      assert ByteAt(now, Cell(n, i, 0)) == ByteAt(was, Cell(n, i, 0)) && ByteAt(now, Cell(n, i, 2)) == ByteAt(was, Cell(n, i, 2));
      if Cell(n, k, c) == a { CellApart(n, k, c, i, 0); }
      if Cell(n, k, c) == a + 2 { CellApart(n, k, c, i, 2); }
    }
  }

  // ----- whole files

  function Le16(v: nat): (d: seq<byte>)
    ensures |d| == 2
  {
    [v % 256, v / 256 % 256]
  }

  function HasAlpha(n: nat): bool { n == 2 || n == 4 }

  // Grey images are of type 3, colour images of type 2; 8 more means run-length encoded.
  function TypeOf(n: nat): byte { if n - (if HasAlpha(n) then 1 else 0) < 2 then 3 else 2 }

  function Header(x: nat, y: nat, n: nat): (d: seq<byte>)
    requires n <= 4
    ensures |d| == 18
  {
    [0, 0, TypeOf(n) + 8] + Le16(0) + Le16(0) + [0] + Le16(0) + Le16(0) + Le16(x) + Le16(y) +
    [n * 8, if HasAlpha(n) then 8 else 0]
  }

  method WriteTga(data: seq<byte>, x: nat, y: nat, n: nat, flip: bool) returns (file: seq<byte>, ghost w: seq<byte>)
    requires 1 <= n <= 4 && y * (x * n) <= |data|
    ensures file == Header(x, y, n) + w && Packs(w, FileRows(data, x, y, n, flip, y), n)
  {
    var packets := WriteRows(data, x, y, n, flip);
    w := packets;
    file := Header(x, y, n) + packets;
  }

  datatype LoadResult = Loaded(x: nat, y: nat, n: nat, pixels: seq<byte>) | Failed | Unmodelled

  method Get16le(s: Context) returns (v: nat)
    modifies s
    ensures old(s.at) + 2 <= |s.data| ==> s.at == old(s.at) + 2 && v == s.data[old(s.at)] as int + 256 * s.data[old(s.at) + 1] as int
    ensures s.at >= old(s.at)
  {
    var a: int := s.Get8();
    var b: int := s.Get8();
    v := a + 256 * b;
  }

  datatype Head = Head(offset: nat, indexed: nat, kind: nat, x: nat, y: nat, bits: nat, descriptor: nat)

  method ReadHeader(s: Context) returns (h: Head)
    requires s.at == 0
    modifies s
    ensures |s.data| >= 18 ==> s.at == 18 && var d := s.data;
      h == Head(d[0], d[1], d[2], d[12] as int + 256 * d[13] as int, d[14] as int + 256 * d[15] as int, d[16], d[17])
  {
    var offset := s.Get8();
    var indexed := s.Get8();
    var kind := s.Get8();
    SkipOrigin(s);
    var x := Get16le(s);
    var y := Get16le(s);
    var bits := s.Get8();
    var descriptor := s.Get8();
    h := Head(offset, indexed, kind, x, y, bits, descriptor);
  }

  // Palette and origin.
  method SkipOrigin(s: Context)
    modifies s
    ensures old(s.at) + 9 <= |s.data| ==> s.at == old(s.at) + 9
    ensures s.at >= old(s.at)
  {
    var start := Get16le(s);
    var len := Get16le(s);
    var paletteBits := s.Get8();
    var xOrigin := Get16le(s);
    var yOrigin := Get16le(s);
  }

  const DEPTHS := {8, 15, 16, 24, 32}

  // The files the loader takes for TGA images: with a width and a height, among others.
  ghost predicate Acceptable(d: seq<byte>)
    requires |d| >= 18
  {
    (if d[1] == 1 then d[2] in {1, 9} && d[7] in DEPTHS && d[16] in {8, 16}
     else d[1] == 0 && d[2] in {2, 3, 10, 11} && d[16] in DEPTHS) &&
    (d[12] > 0 || d[13] > 0) && (d[14] > 0 || d[15] > 0)
  }

  // `stbi__tga_test`, which rewinds.
  method Test(s: Context) returns (ok: bool)
    requires s.at == 0
    modifies s
    ensures s.at == 0 && (|s.data| >= 18 ==> ok == Acceptable(s.data))
  {
    var offset := s.Get8();
    var color: int := s.Get8();
    var kind: int := s.Get8();
    ok := false;
    if color == 1 {
      s.Skip(4);
      var paletteBits: int := s.Get8();
      s.Skip(4);
      ok := kind in {1, 9} && paletteBits in DEPTHS;
    } else if color == 0 {
      s.Skip(9);
      ok := kind in {2, 3, 10, 11};
    }
    if ok {
      var width := Get16le(s);
      var height := Get16le(s);
      var bits: int := s.Get8();
      ok := width >= 1 && height >= 1 && bits in DEPTHS && (color == 1 ==> bits in {8, 16});
    }
    s.at := 0;
  }

  // `stbi__tga_get_comp` without palettes; 15- and 16-bit colours are not modelled.
  function Components(bits: nat, grey: bool): Option<nat> {
    if bits == 8 then Some(1)
    else if bits == 16 && grey then Some(2)
    else if bits == 24 || bits == 32 then Some(bits / 8)
    else None
  }

  // Pixel `i` of row `j`, in rows of `x` pixels.
  function Nth(x: nat, j: nat, i: nat): nat { j * x + i }

  function Other(y: nat, j: nat): nat
    requires j < y
  {
    y - 1 - j
  }

  // The row of the image that row `j` of what comes back shows.
  function Source(y: nat, j: nat, flip: bool): nat
    requires j < y
  {
    if flip then Other(y, j) else j
  }

  lemma Twice(y: nat, j: nat)
    requires j < y
    ensures Other(y, j) == y - 1 - j && Other(y, Other(y, j)) == j
  {
  }

  // What becomes of the image: the one that was written, upside down if it was written flipped.
  ghost predicate SameImage(pixels: seq<byte>, data: seq<byte>, x: nat, y: nat, n: nat, flip: bool) {
    |pixels| == y * (x * n) &&
    forall j: nat, i: nat, c: nat :: j < y && i < x && c < n ==> SameByte(pixels, data, x, y, n, flip, j, i, c)
  }

  ghost predicate SameByte(pixels: seq<byte>, data: seq<byte>, x: nat, y: nat, n: nat, flip: bool, j: nat, i: nat, c: nat)
    requires j < y
  {
    ByteAt(pixels, Cell(n, Nth(x, j, i), c)) == ByteAt(data, Cell(n, Nth(x, Source(y, j, flip), i), c))
  }

  // What the header's two bytes keep of a width or height.
  function Low16(v: nat): nat { v % 0x1_0000 }

  // The loader on the run-length encoded files of the writer.
  method Load(file: seq<byte>, ghost data: seq<byte>, ghost x: nat, ghost y: nat, ghost n: nat, ghost flip: bool,
      ghost w: seq<byte>) returns (r: LoadResult)
    requires 1 <= n <= 4 && y * (x * n) <= |data|
    requires file == Header(x, y, n) + w && Packs(w, FileRows(data, x, y, n, flip, y), n)
    ensures if Low16(x) == 0 || Low16(y) == 0 || Low16(x) * Low16(y) * n > INT_MAX then r == Failed
            else r.Loaded? && r.x == Low16(x) && r.y == Low16(y) && r.n == n && |r.pixels| == r.y * (r.x * n)
    ensures r.Loaded? && r.x == x && r.y == y ==> SameImage(r.pixels, data, x, y, n, flip)
  {
    hide *;
    var s := new Context(file);
    HeaderLength(x, y, n);
    HeaderAccepted(file, x, y, n, w);
    var ok := Test(s);
    if !ok { return Failed; }
    var h := ReadHeader(s);
    HeaderIs(file, x, y, n, w, h);
    if h.indexed != 0 || h.kind < 8 { return Unmodelled; }
    var comp := Components(h.bits, h.kind - 8 == 3);
    if comp == None { return Unmodelled; }
    var m := comp.value;
    if h.x * h.y * m > INT_MAX { return Failed; }
    s.Skip(h.offset);
    Orders(h.x, h.y, m);
    var out := new byte[h.x * h.y * m];
    ghost var pixels := ReadPixels(s, out, m, h.x * h.y);
    ghost var stored := out[..];
    var inverted := 1 - h.descriptor / 32 % 2;
    if inverted != 0 { InvertRows(out, h.x * m, h.y); }
    ghost var turned := out[..];
    SwapColors(out, m, h.x * h.y);
    r := Loaded(h.x, h.y, m, out[..]);
    if h.x == x && h.y == y {
      AllUnpacked(file, data, x, y, n, flip, w, pixels);
      Back(data, x, y, n, flip, pixels, stored, turned, out[..]);
    }
  }

  lemma HeaderLength(x: nat, y: nat, n: nat)
    requires n <= 4
    ensures |Header(x, y, n)| == 18
  {
  }

  lemma HeaderIs(file: seq<byte>, x: nat, y: nat, n: nat, w: seq<byte>, h: Head)
    requires 1 <= n <= 4 && file == Header(x, y, n) + w
    requires |file| >= 18 && h == Head(file[0], file[1], file[2], file[12] as int + 256 * file[13] as int,
               file[14] as int + 256 * file[15] as int, file[16], file[17])
    ensures h.offset == 0 && h.indexed == 0 && h.kind >= 8 && h.x == Low16(x) && h.y == Low16(y) && h.descriptor / 32 % 2 == 0
    ensures Components(h.bits, h.kind - 8 == 3) == Some(n)
    ensures From(file, 18) == w
  {
    var d := Header(x, y, n);
    SizeBytes(file, x, y, n, w);
    TwoBytes(x);
    TwoBytes(y);
    hide Low16;
    assert forall k :: 0 <= k < 18 ==> file[k] == d[k];
  }

  lemma SizeBytes(file: seq<byte>, x: nat, y: nat, n: nat, w: seq<byte>)
    requires 1 <= n <= 4 && file == Header(x, y, n) + w
    ensures |file| >= 18 && file[12..14] == Le16(x) && file[14..16] == Le16(y)
    ensures file[12] == Le16(x)[0] && file[13] == Le16(x)[1] && file[14] == Le16(y)[0] && file[15] == Le16(y)[1]
  {
    var d := Header(x, y, n);
    hide Le16;
    assert d[12..14] == Le16(x) && d[14..16] == Le16(y);
    assert file[12..14] == d[12..14] && file[14..16] == d[14..16];
    assert file[12] == file[12..14][0] && file[13] == file[12..14][1] && file[14] == file[14..16][0] && file[15] == file[14..16][1];
  }

  lemma TwoBytes(v: nat)
    ensures Le16(v)[0] as int + 256 * Le16(v)[1] as int == Low16(v)
  {
  }

  lemma HeaderAccepted(file: seq<byte>, x: nat, y: nat, n: nat, w: seq<byte>)
    requires 1 <= n <= 4 && file == Header(x, y, n) + w
    ensures |file| >= 18 && (Acceptable(file) <==> Low16(x) > 0 && Low16(y) > 0)
  {
    var d := Header(x, y, n);
    SizeBytes(file, x, y, n, w);
    TwoBytes(x);
    TwoBytes(y);
    hide Low16, Le16;
    assert file[1] == d[1] && file[2] == d[2] && file[16] == d[16];
  }

  lemma Orders(x: nat, y: nat, n: nat)
    ensures x * y * n >= 0 && x * y * n == (x * y) * n == y * (x * n)
  {
    assert x * y == y * x;
    assert (y * x) * n == y * (x * n);
  }

  lemma AllUnpacked(file: seq<byte>, data: seq<byte>, x: nat, y: nat, n: nat, flip: bool, w: seq<byte>,
    pixels: seq<Pixel>)
    requires 1 <= n <= 4 && y * (x * n) <= |data| && Packs(w, FileRows(data, x, y, n, flip, y), n)
    requires From(file, 18) == w && pixels == Unpack(From(file, 18), n, x * y)
    ensures pixels == FileRows(data, x, y, n, flip, y)
  {
    hide Unpack, FileRows, From;
    var rows := FileRows(data, x, y, n, flip, y);
    Commute(x, y);
    assert PacksBefore(w, rows, n, [], 0);
    assert w + [] == w && rows + Unpack([], n, 0) == rows;
  }

  lemma {:induction false} FlattenAt(row: seq<Pixel>, n: nat, k: nat, c: nat)
    requires IsRow(row, n) && k < |row| && c < n
    ensures ByteAt(Flatten(row), Cell(n, k, c)) == row[k][c]
    decreases k
  {
    var rest := Flatten(row[1..]);
    assert Flatten(row) == row[0] + rest;
    if k > 0 {
      FlattenAt(row[1..], n, k - 1, c);
      Distribute(k - 1, 1, n);
      MulNonNegative(k - 1, n);
      assert Cell(n, k, c) == n + Cell(n, k - 1, c);
      hide Flatten, Cell;
      assert ByteAt(row[0] + rest, n + Cell(n, k - 1, c)) == ByteAt(rest, Cell(n, k - 1, c));
    }
  }

  lemma {:induction false} FileRowsAt(data: seq<byte>, x: nat, y: nat, n: nat, flip: bool, m: nat, r: nat, i: nat)
    requires m <= y && y * (x * n) <= |data| && r < m && i < x
    ensures var src := Source(y, Other(y, r), flip);
      (src + 1) * (x * n) <= |data| && Nth(x, r, i) < m * x &&
      FileRows(data, x, y, n, flip, m)[Nth(x, r, i)] == Stored(RowPixel(data, x, n, src, i))
    decreases m
  {
    hide Stored, RowPixel;
    var src := Source(y, Other(y, r), flip);
    RowsInside(x * n, src + 1, y);
    RowsInside(x, r + 1, m);
    Distribute(r, 1, x);
    Distribute(m - 1, 1, x);
    var before := FileRows(data, x, y, n, flip, m - 1);
    if r < m - 1 {
      FileRowsAt(data, x, y, n, flip, m - 1, r, i);
    } else {
      assert FileRows(data, x, y, n, flip, m) == before + StoredRow(RowOf(data, x, n, src));
    }
  }

  lemma StoredAt(p: Pixel, c: nat)
    requires c < |p|
    ensures Mirrored(|p|, c) < |p| && Stored(p)[Mirrored(|p|, c)] == p[c]
  {
  }

  lemma CellOf(x: nat, n: nat, j: nat, i: nat, c: nat)
    ensures Cell(n, Nth(x, j, i), c) == Cell(x * n, j, i * n + c)
  {
    Distribute(j * x, i, n);
    assert (j * x) * n == j * (x * n);
  }

  lemma RowPixelAt(data: seq<byte>, x: nat, n: nat, j: nat, i: nat, c: nat)
    requires (j + 1) * (x * n) <= |data| && i < x && c < n
    ensures RowPixel(data, x, n, j, i)[c] == ByteAt(data, Cell(n, Nth(x, j, i), c))
  {
    PixelInside(x, n, j, i);
    CellOf(x, n, j, i, c);
  }

  // One byte: turned over, mirrored, and so back where it came from.
  lemma ByteBack(data: seq<byte>, x: nat, y: nat, n: nat, flip: bool, pixels: seq<Pixel>, stored: seq<byte>,
    turned: seq<byte>, final: seq<byte>, j: nat, i: nat, c: nat)
    requires y * (x * n) <= |data| && pixels == FileRows(data, x, y, n, flip, y) && IsRow(pixels, n) && stored == Flatten(pixels)
    requires TurnedOver(turned, stored, x * n, y)
    requires Repainted(final, turned, n, x * y)
    requires j < y && i < x && c < n
    ensures SameByte(final, data, x, y, n, flip, j, i, c)
  {
    hide *;
    MirroredInside(n, c);
    Unpainted(turned, final, x, y, n, j, i, c);
    Unturned(stored, turned, x, y, n, j, i, Mirrored(n, c));
    Unstored(data, x, y, n, flip, pixels, stored, j, i, c);
    SameByteIs(final, data, x, y, n, flip, j, i, c);
  }

  lemma MirroredInside(n: nat, c: nat)
    requires c < n
    ensures Mirrored(n, c) < n
  {
  }

  lemma Unpainted(turned: seq<byte>, final: seq<byte>, x: nat, y: nat, n: nat, j: nat, i: nat, c: nat)
    requires Repainted(final, turned, n, x * y) && j < y && i < x && c < n
    ensures ByteAt(final, Cell(n, Nth(x, j, i), c)) == ByteAt(turned, Cell(n, Nth(x, j, i), Mirrored(n, c)))
  {
    hide *;
    Position(x, y, n, j, i, c);
    RepaintedAt(final, turned, n, x * y, Nth(x, j, i), c);
  }

  lemma Unturned(stored: seq<byte>, turned: seq<byte>, x: nat, y: nat, n: nat, j: nat, i: nat, d: nat)
    requires TurnedOver(turned, stored, x * n, y) && j < y && i < x && d < n
    ensures ByteAt(turned, Cell(n, Nth(x, j, i), d)) == ByteAt(stored, Cell(n, Nth(x, Other(y, j), i), d))
  {
    hide *;
    Twice(y, j);
    Position(x, y, n, j, i, d);
    CellOf(x, n, j, i, d);
    CellOf(x, n, Other(y, j), i, d);
    TurnedAt(turned, stored, x * n, y, j, i * n + d);
  }

  lemma Unstored(data: seq<byte>, x: nat, y: nat, n: nat, flip: bool, pixels: seq<Pixel>, stored: seq<byte>,
    j: nat, i: nat, c: nat)
    requires y * (x * n) <= |data| && pixels == FileRows(data, x, y, n, flip, y) && IsRow(pixels, n) && stored == Flatten(pixels)
    requires j < y && i < x && c < n
    ensures ByteAt(stored, Cell(n, Nth(x, Other(y, j), i), Mirrored(n, c)))
         == ByteAt(data, Cell(n, Nth(x, Source(y, j, flip), i), c))
  {
    hide *;
    var r, src := Other(y, j), Source(y, j, flip);
    Twice(y, j);
    FileRowsAt(data, x, y, n, flip, y, r, i);
    MirroredInside(n, c);
    StoredAt(RowPixel(data, x, n, src, i), c);
    FlattenAt(pixels, n, Nth(x, r, i), Mirrored(n, c));
    RowPixelAt(data, x, n, src, i, c);
  }

  lemma TurnedAt(now: seq<byte>, was: seq<byte>, w: nat, h: nat, r: nat, b: nat)
    requires TurnedOver(now, was, w, h) && r < h && b < w
    ensures ByteAt(now, Cell(w, r, b)) == ByteAt(was, Cell(w, h - 1 - r, b))
  {
    hide Cell;
  }

  lemma RepaintedAt(now: seq<byte>, was: seq<byte>, n: nat, count: nat, k: nat, c: nat)
    requires Repainted(now, was, n, count) && k < count && c < n
    ensures ByteAt(now, Cell(n, k, c)) == ByteAt(was, Cell(n, k, Mirrored(n, c)))
  {
    hide Cell, Mirrored;
  }

  lemma SameByteIs(pixels: seq<byte>, data: seq<byte>, x: nat, y: nat, n: nat, flip: bool, j: nat, i: nat, c: nat)
    requires j < y
    ensures SameByte(pixels, data, x, y, n, flip, j, i, c) <==>
      ByteAt(pixels, Cell(n, Nth(x, j, i), c)) == ByteAt(data, Cell(n, Nth(x, Source(y, j, flip), i), c))
  {
    hide Cell;
  }

  lemma Position(x: nat, y: nat, n: nat, j: nat, i: nat, d: nat)
    requires j < y && i < x && d < n
    ensures Nth(x, j, i) < x * y && i * n + d < x * n
  {
    RowsInside(x, j + 1, y);
    Distribute(j, 1, x);
    Commute(x, y);
    RowsInside(n, i + 1, x);
    Distribute(i, 1, n);
  }

  lemma Back(data: seq<byte>, x: nat, y: nat, n: nat, flip: bool, pixels: seq<Pixel>, stored: seq<byte>,
    turned: seq<byte>, final: seq<byte>)
    requires y * (x * n) <= |data| && pixels == FileRows(data, x, y, n, flip, y) && IsRow(pixels, n) && stored == Flatten(pixels)
    requires TurnedOver(turned, stored, x * n, y)
    requires Repainted(final, turned, n, x * y)
    requires |final| == y * (x * n)
    ensures SameImage(final, data, x, y, n, flip)
  {
    hide FileRows, Flatten, SameByte, TurnedOver, Repainted, IsRow;
    forall j: nat, i: nat, c: nat | j < y && i < x && c < n
      ensures SameByte(final, data, x, y, n, flip, j, i, c)
    {
      ByteBack(data, x, y, n, flip, pixels, stored, turned, final, j, i, c);
    }
  }

  // The image comes back as it was, or turned over if it was written so.
  ghost predicate ComesBack(r: LoadResult, data: seq<byte>, x: nat, y: nat, n: nat, flip: bool) {
    r.Loaded? && r.x == x && r.y == y && r.n == n && SameImage(r.pixels, data, x, y, n, flip)
  }

  // Written and read again: the image comes back exactly if it has pixels, its sizes fit into two bytes each, and its bytes
  // into an `int`. Others are refused or come back with other sizes.
  method RoundTrip(data: seq<byte>, x: nat, y: nat, n: nat, flip: bool) returns (r: LoadResult)
    requires 1 <= n <= 4 && y * (x * n) <= |data|
    ensures ComesBack(r, data, x, y, n, flip) <==> 1 <= x < 0x1_0000 && 1 <= y < 0x1_0000 && x * y * n <= INT_MAX
    ensures ComesBack(r, data, x, y, n, flip) && !flip ==> r.pixels == data[..y * (x * n)]
    ensures Low16(x) == 0 || Low16(y) == 0 ==> r == Failed
    ensures r == Failed || (r.Loaded? && r.x == Low16(x) && r.y == Low16(y))
  {
    hide *;
    var file;
    ghost var w;
    file, w := WriteTga(data, x, y, n, flip);
    r := Load(file, data, x, y, n, flip, w);
    LowIs(x);
    LowIs(y);
    ComesBackIs(r, data, x, y, n, flip);
    if r.Loaded? && r.x == x && r.y == y && !flip { SameBytes(r.pixels, data, x, y, n); }
  }

  lemma LowIs(v: nat)
    ensures Low16(v) == v <==> v < 0x1_0000
  {
  }

  lemma ComesBackIs(r: LoadResult, data: seq<byte>, x: nat, y: nat, n: nat, flip: bool)
    ensures ComesBack(r, data, x, y, n, flip) <==>
      r.Loaded? && r.x == x && r.y == y && r.n == n && SameImage(r.pixels, data, x, y, n, flip)
  {
    hide SameImage;
  }

  // A grey image of one row of 65537 pixels comes back as one pixel, one of 65536 pixels not at all.
  method TooWide(data: seq<byte>, x: nat) returns (r: LoadResult)
    requires 0x1_0000 <= x <= 0x1_0001 && x <= |data|
    ensures if x == 0x1_0000 then r == Failed else r.Loaded? && r.x == 1 && r.y == 1 && |r.pixels| == 1
  {
    hide SameImage, Packs, FileRows, Header;
    Lows();
    var file;
    ghost var w;
    file, w := WriteTga(data, x, 1, 1, false);
    r := Load(file, data, x, 1, 1, false, w);
  }

  lemma Lows()
    ensures Low16(0x1_0000) == 0 && Low16(0x1_0001) == 1 && Low16(1) == 1
  {
  }

  lemma SameBytes(pixels: seq<byte>, data: seq<byte>, x: nat, y: nat, n: nat)
    requires n > 0 && y * (x * n) <= |data| && SameImage(pixels, data, x, y, n, false)
    ensures pixels == data[..y * (x * n)]
  {
    hide Cell;
    forall m | 0 <= m < y * (x * n)
      ensures pixels[m] == data[m]
    {
      var j, i, c := Coordinates(x, y, n, m);
      assert SameByte(pixels, data, x, y, n, false, j, i, c);
    }
  }

  lemma NoColumns(y: nat, n: nat)
    ensures y * (0 * n) == 0
  {
  }

  lemma Coordinates(x: nat, y: nat, n: nat, m: nat) returns (j: nat, i: nat, c: nat)
    requires n > 0 && m < y * (x * n)
    ensures j < y && i < x && c < n && m == Cell(n, Nth(x, j, i), c)
  {
    if x == 0 { NoColumns(y, n); }
    Associate(y, x, n);
    var k := DivBelow(m, n, y * x);
    c := m - k * n;
    j := DivBelow(k, x, y);
    i := k - j * x;
  }

  lemma DivBelow(m: nat, n: nat, b: nat) returns (q: nat)
    requires n > 0 && m < b * n
    ensures q < b && 0 <= m - q * n < n
  {
    q := m / n;
    assert m == q * n + m % n;
    if q >= b { RowsInside(n, b, q); }
  }

  lemma Associate(a: nat, b: nat, c: nat)
    ensures (a * b) * c == a * (b * c)
  {
  }
}
