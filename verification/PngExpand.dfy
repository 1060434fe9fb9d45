// `stbi__create_png_image_raw` for samples of less than a byte (PNG Specification, Second Edition, section 7.2): packed
// rows are decoded into the right end of their own output rows and unpacked in place.

module PngExpand {
  import opened BitStream
  import opened PngFilter

  // How an image's samples are stored: `imgN` channels of `depth` bits, `outN` channels to come out.
  datatype Format = Format(x: nat, imgN: nat, outN: nat, depth: nat, color: nat) {
    ghost predicate Valid() {
      x > 0 && imgN > 0 && depth in {1, 2, 4} && (outN == imgN || (outN == imgN + 1 && imgN in {1, 3}))
    }

    function PerByte(): nat
      requires Valid()
    {
      if depth == 1 then 8 else if depth == 2 then 4 else 2
    }

    function Samples(): nat { x * imgN }

    // The bytes of a packed and of an unpacked row.
    function Packed(): nat { (imgN * x * depth + 7) / 8 }

    function Stride(): nat { x * outN }
  }

  // ----- what unpacking means

  // Sample `m` of a packed row, the first one in the highest bits.
  function Sample(row: seq<byte>, depth: nat, m: nat): (v: nat)
    requires depth in {1, 2, 4} && m / (8 / depth) < |row|
    ensures v < Pow2(depth)
  {
    Div(row[m / (8 / depth)], Pow2(8 - depth * (m % (8 / depth) + 1))) % Pow2(depth)
  }

  // Grey samples are spread over the range of a byte.
  function Scale(f: Format): nat { if f.color != 0 then 1 else match f.depth case 1 => 0xFF case 2 => 0x55 case _ => 0x11 }

  lemma RowSizes(f: Format)
    requires f.Valid()
    ensures f.Samples() > 0 && f.Packed() == (f.Samples() + f.PerByte() - 1) / f.PerByte()
    ensures f.Packed() <= f.Samples() <= f.Stride()
    ensures f.outN == f.imgN + 1 ==> f.Stride() == f.Samples() + f.x
  {
    MulGrows(f.x, f.imgN);
    Commute(f.imgN, f.x);
    assert f.imgN * f.x * f.depth == f.Samples() * f.depth;
    if f.outN == f.imgN + 1 { assert f.x * (f.imgN + 1) == f.x * f.imgN + f.x; }
  }

  // Sample `m` of the image, as a byte.
  function Scaled(f: Format, row: seq<byte>, m: nat): (v: byte)
    requires f.Valid() && |row| == f.Packed() && m < f.Samples()
  {
    RowSizes(f);
    assert m / (8 / f.depth) < f.Packed();
    assert Pow2(1) == 2 && Pow2(2) == 4 && Pow2(4) == 16;
    Scale(f) * Sample(row, f.depth, m)
  }

  // Position `k` of the unpacked row: a sample, or the alpha that is put in.
  ghost function Unpacked(f: Format, row: seq<byte>): (out: seq<byte>)
    requires f.Valid() && |row| == f.Packed()
    ensures |out| == f.Stride()
  {
    seq(f.Stride(), k requires 0 <= k < f.Stride() => UnpackedAt(f, row, k))
  }

  ghost function UnpackedAt(f: Format, row: seq<byte>, k: nat): byte
    requires f.Valid() && |row| == f.Packed() && k < f.Stride()
  {
    if k % f.outN < f.imgN then
      SampleOf(f, k);
      Scaled(f, row, k / f.outN * f.imgN + k % f.outN)
    else 255
  }

  lemma SampleOf(f: Format, k: nat)
    requires f.Valid() && k < f.Stride() && k % f.outN < f.imgN
    ensures k / f.outN * f.imgN + k % f.outN < f.Samples()
  {
    var q, c := k / f.outN, k % f.outN;
    assert k == q * f.outN + c;
    if q >= f.x {
      Distribute(q - f.x, f.x, f.outN);
      MulNonNegative(q - f.x, f.outN);
    }
    MulNonNegative(f.x - 1 - q, f.imgN);
    assert (f.x - 1 - q) * f.imgN == f.x * f.imgN - f.imgN - q * f.imgN;
  }

  // ----- unpacking in place

  // Bytes that are still to be read are to the right of those written.
  lemma Room(m: nat, n: nat, per: nat)
    requires per in {2, 4, 8} && m + 1 < n
    ensures m < n - (n + per - 1) / per + (m + 1) / per
  {
  }

  // The first `m` samples of the row at `at` are unpacked; the packed bytes with the others are untouched.
  ghost predicate Midway(f: Format, now: seq<byte>, was: seq<byte>, row: seq<byte>, at: nat, m: nat)
    requires f.Valid() && |row| == f.Packed()
  {
    |now| == |was| && at + f.Stride() <= |now| && m <= f.Samples() <= f.Stride() && f.Packed() <= f.Stride() &&
    (forall k :: 0 <= k < m ==> now[at + k] == Scaled(f, row, k)) &&
    (forall q :: m / f.PerByte() <= q < f.Packed() && m < f.Samples() ==> now[at + f.Stride() - f.Packed() + q] == row[q]) &&
    (forall k :: 0 <= k < |now| && !(at <= k < at + f.Stride()) ==> now[k] == was[k])
  }

  // One sample from the byte at `in`.
  method PutSample(out: array<byte>, f: Format, at: nat, m: nat, shift: nat, ghost row: seq<byte>, ghost was: seq<byte>)
    requires f.Valid() && |row| == f.Packed() && m < f.Samples() && Midway(f, out[..], was, row, at, m)
    requires shift == 8 - f.depth * (m % f.PerByte() + 1)
    modifies out
    ensures Midway(f, out[..], was, row, at, m + 1)
  {
    ByteFor(f, m);
    hide Pow2, Scaled, Sample, Scale, BitAnd, Shr;
    var b := out[at + f.Stride() - f.Packed() + m / f.PerByte()];
    ShiftMask(f, row, m, b);
    MidwayStep(f, out[..], was, row, at, m);
    hide Midway, Format.PerByte, Format.Samples, Format.Stride, Format.Packed;
    out[at + m] := Scale(f) * BitAnd(Shr(b, shift), Shl(1, f.depth) - 1);
  }

  lemma MidwayStep(f: Format, now: seq<byte>, was: seq<byte>, row: seq<byte>, at: nat, m: nat)
    requires f.Valid() && |row| == f.Packed() && m < f.Samples() && Midway(f, now, was, row, at, m)
    ensures at + m < |now| && Midway(f, now[at + m := Scaled(f, row, m)], was, row, at, m + 1)
  {
    ByteFor(f, m);
    hide Scaled, Format.PerByte, Format.Samples, Format.Stride, Format.Packed;
  }

  lemma ByteFor(f: Format, m: nat)
    requires f.Valid() && m < f.Samples()
    ensures m / f.PerByte() < f.Packed() <= f.Stride() && f.depth * (m % f.PerByte() + 1) <= 8
    ensures m < f.Stride() && f.PerByte() in {2, 4, 8}
    ensures m + 1 < f.Samples() ==> m < f.Stride() - f.Packed() + (m + 1) / f.PerByte()
    ensures m / f.PerByte() <= (m + 1) / f.PerByte()
  {
    RowSizes(f);
    if m + 1 < f.Samples() { Room(m, f.Samples(), f.PerByte()); }
  }

  lemma ShiftMask(f: Format, row: seq<byte>, m: nat, b: byte)
    requires f.Valid() && |row| == f.Packed() && m < f.Samples()
    requires f.depth * (m % f.PerByte() + 1) <= 8 && m / f.PerByte() < |row| && b == row[m / f.PerByte()]
    ensures Scale(f) * BitAnd(Shr(b, 8 - f.depth * (m % f.PerByte() + 1)), Shl(1, f.depth) - 1) == Scaled(f, row, m)
  {
    AndMask(Shr(b, 8 - f.depth * (m % f.PerByte() + 1)), f.depth);
    assert f.PerByte() == 8 / f.depth;
  }

  // All samples of a row: whole bytes first, then what the last one holds.
  method UnpackRow(out: array<byte>, f: Format, at: nat, ghost row: seq<byte>)
    requires f.Valid() && |row| == f.Packed() && at + f.Stride() <= out.Length
    requires f.Packed() <= f.Stride() && out[at + f.Stride() - f.Packed()..at + f.Stride()] == row
    modifies out
    ensures Midway(f, out[..], old(out[..]), row, at, f.Samples())
  {
    ghost var was := out[..];
    UnpackStart(f, was, row, at);
    var n, per := f.Samples(), f.PerByte();
    assert per in {2, 4, 8} && per == f.PerByte();
    hide Scaled, Midway, Format.PerByte, Format.Samples, Format.Stride, Format.Packed, Pow2;
    var k, m := n, 0;
    while k >= per
      invariant m + k == n && m % per == 0 && Midway(f, out[..], was, row, at, m)
    {
      PutSamples(out, f, at, m, per, row, was);
      Within(m, 0, per);
      k := k - per;
      m := m + per;
    }
    PutSamples(out, f, at, m, k, row, was);
  }

  // The first `k` samples of a packed byte.
  method PutSamples(out: array<byte>, f: Format, at: nat, m: nat, k: nat, ghost row: seq<byte>, ghost was: seq<byte>)
    requires f.Valid() && |row| == f.Packed() && Midway(f, out[..], was, row, at, m)
    requires m % f.PerByte() == 0 && k <= f.PerByte() && m + k <= f.Samples()
    modifies out
    ensures Midway(f, out[..], was, row, at, m + k)
  {
    var per := f.PerByte();
    assert per in {2, 4, 8};
    hide Scaled, Midway, Format.PerByte, Format.Samples, Format.Stride, Format.Packed, Pow2;
    for s := 0 to k
      invariant Midway(f, out[..], was, row, at, m + s)
    {
      Within(m, s, per);
      PutSample(out, f, at, m + s, 8 - f.depth * (s + 1), row, was);
    }
  }

  lemma Within(m: nat, s: nat, per: nat)
    requires per in {2, 4, 8} && m % per == 0 && s < per
    ensures (m + s) % per == s && (m + per) % per == 0
  {
  }

  lemma UnpackStart(f: Format, was: seq<byte>, row: seq<byte>, at: nat)
    requires f.Valid() && |row| == f.Packed() && at + f.Stride() <= |was|
    requires f.Packed() <= f.Stride() && was[at + f.Stride() - f.Packed()..at + f.Stride()] == row
    ensures Midway(f, was, was, row, at, 0)
  {
    RowSizes(f);
    forall q | 0 <= q < f.Packed()
      ensures was[at + f.Stride() - f.Packed() + q] == row[q]
    {
      assert was[at + f.Stride() - f.Packed()..at + f.Stride()][q] == was[at + f.Stride() - f.Packed() + q];
    }
  }

  // Where the byte for position `j` of a row with alpha comes from, in rows of `n` channels.
  function Source(n: nat, j: nat): (k: nat) { j / (n + 1) * n + j % (n + 1) }

  function PixelByte(was: seq<byte>, at: nat, n: nat, j: nat): byte {
    if j % (n + 1) < n then ByteAt(was, at + Source(n, j)) else 255
  }

  // The pixels from `q` on have their alpha; the samples before them are where they were.
  ghost predicate AlphaFrom(now: seq<byte>, was: seq<byte>, at: nat, x: nat, n: nat, q: nat) {
    |now| == |was| && n in {1, 3} && at + x * (n + 1) <= |was| && q <= x &&
    (forall k: nat :: at + q * (n + 1) <= k < at + x * (n + 1) ==> now[k] == PixelByte(was, at, n, k - at)) &&
    (forall k: nat :: k < |was| && (k < at + q * n || k >= at + x * (n + 1)) ==> now[k] == was[k])
  }

  // Alpha goes in from the right, so that no sample is overwritten before it has moved.
  method InsertGrey(out: array<byte>, at: nat, x: nat)
    requires at + x * 2 <= out.Length
    modifies out
    ensures AlphaFrom(out[..], old(out[..]), at, x, 1, 0)
  {
    for q := x downto 0
      invariant AlphaFrom(out[..], old(out[..]), at, x, 1, q)
    {
      GreyStep(out[..], old(out[..]), at, x, q);
      out[at + q * 2 + 1] := 255;
      out[at + q * 2 + 0] := out[at + q];
    }
  }

  lemma GreyStep(now: seq<byte>, was: seq<byte>, at: nat, x: nat, q: nat)
    requires q < x && AlphaFrom(now, was, at, x, 1, q + 1)
    ensures var mid := now[at + q * 2 + 1 := 255]; AlphaFrom(mid[at + q * 2 := mid[at + q]], was, at, x, 1, q)
  {
    var mid := now[at + q * 2 + 1 := 255];
    assert mid[at + q] == was[at + q];
  }

  method InsertColor(out: array<byte>, at: nat, x: nat)
    requires at + x * 4 <= out.Length
    modifies out
    ensures AlphaFrom(out[..], old(out[..]), at, x, 3, 0)
  {
    for q := x downto 0
      invariant AlphaFrom(out[..], old(out[..]), at, x, 3, q)
    {
      ColorStep(out[..], old(out[..]), at, x, q);
      out[at + q * 4 + 3] := 255;
      out[at + q * 4 + 2] := out[at + q * 3 + 2];
      out[at + q * 4 + 1] := out[at + q * 3 + 1];
      out[at + q * 4 + 0] := out[at + q * 3 + 0];
    }
  }

  lemma ColorStep(now: seq<byte>, was: seq<byte>, at: nat, x: nat, q: nat)
    requires q < x && AlphaFrom(now, was, at, x, 3, q + 1)
    ensures at + q * 4 + 3 < |now|
    ensures AlphaFrom(ColorMoved(now, at, q), was, at, x, 3, q)
  {
    hide ColorMoved;
    var moved := ColorMoved(now, at, q);
    forall k: nat | k < |moved|
      ensures moved[k] == if k < at + q * 4 || k > at + q * 4 + 3 then now[k] else PixelByte(was, at, 3, k - at)
    {
      ColorByte(now, at, q, k);
    }
  }

  // The four assignments, one after the other.
  ghost function ColorMoved(now: seq<byte>, at: nat, q: nat): (moved: seq<byte>)
    requires at + q * 4 + 3 < |now|
    ensures |moved| == |now|
  {
    var a := now[at + q * 4 + 3 := 255];
    var b := a[at + q * 4 + 2 := a[at + q * 3 + 2]];
    var c := b[at + q * 4 + 1 := b[at + q * 3 + 1]];
    c[at + q * 4 + 0 := c[at + q * 3 + 0]]
  }

  // Each sample is read before it is overwritten.
  lemma ColorByte(now: seq<byte>, at: nat, q: nat, k: nat)
    requires at + q * 4 + 3 < |now| && k < |now|
    ensures ColorMoved(now, at, q)[k] ==
      if k < at + q * 4 || k > at + q * 4 + 3 then now[k] else if k == at + q * 4 + 3 then 255 else now[at + q * 3 + (k - at - q * 4)]
  {
  }

  // Where pixel and channel of a position are.
  lemma PixelAt(f: Format, k: nat)
    requires f.Valid() && k < f.Stride()
    ensures k / f.outN < f.x && k == k / f.outN * f.outN + k % f.outN
  {
    var q := k / f.outN;
    assert k == q * f.outN + k % f.outN;
    if q >= f.x {
      Distribute(q - f.x, f.x, f.outN);
      MulNonNegative(q - f.x, f.outN);
    }
  }

  // Unpacking and inserting alpha in place is what unpacking means.
  method ExpandRow(out: array<byte>, f: Format, at: nat, ghost row: seq<byte>)
    requires f.Valid() && |row| == f.Packed() && at + f.Stride() <= out.Length
    requires f.Packed() <= f.Stride() && out[at + f.Stride() - f.Packed()..at + f.Stride()] == row
    modifies out
    ensures out[at..at + f.Stride()] == Unpacked(f, row)
    ensures forall k :: 0 <= k < out.Length && !(at <= k < at + f.Stride()) ==> out[k] == old(out[k])
  {
    hide Midway, AlphaFrom, UnpackedAt;
    RowSizes(f);
    ghost var was := out[..];
    UnpackRow(out, f, at, row);
    ghost var mid := out[..];
    if f.imgN != f.outN {
      if f.imgN == 1 { InsertGrey(out, at, f.x); } else { InsertColor(out, at, f.x); }
    }
    hide Format.Packed, Format.Stride, Format.Samples;
    forall j | 0 <= j < f.Stride()
      ensures out[at..at + f.Stride()][j] == UnpackedAt(f, row, j)
    {
      if f.imgN == f.outN { SampleDone(f, was, mid, row, at, j); } else { PixelDone(f, was, mid, out[..], row, at, j); }
    }
    forall k | 0 <= k < out.Length && !(at <= k < at + f.Stride())
      ensures out[k] == was[k]
    {
      Outside(f, was, mid, out[..], row, at, k);
    }
  }

  lemma SampleDone(f: Format, was: seq<byte>, mid: seq<byte>, row: seq<byte>, at: nat, j: nat)
    requires f.Valid() && f.imgN == f.outN && |row| == f.Packed() && Midway(f, mid, was, row, at, f.Samples()) && j < f.Stride()
    ensures mid[at + j] == UnpackedAt(f, row, j)
  {
    PixelAt(f, j);
    hide Scaled;
  }

  lemma PixelDone(f: Format, was: seq<byte>, mid: seq<byte>, now: seq<byte>, row: seq<byte>, at: nat, j: nat)
    requires f.Valid() && f.outN == f.imgN + 1 && |row| == f.Packed() && Midway(f, mid, was, row, at, f.Samples())
    requires AlphaFrom(now, mid, at, f.x, f.imgN, 0) && j < f.Stride()
    ensures now[at + j] == UnpackedAt(f, row, j)
  {
    PixelAt(f, j);
    AlphaThere(f, mid, now, at, j);
    hide Midway, AlphaFrom, Scaled;
    if j % f.outN < f.imgN {
      SampleOf(f, j);
      SampleThere(f, was, mid, row, at, Source(f.imgN, j));
    }
  }

  lemma AlphaThere(f: Format, mid: seq<byte>, now: seq<byte>, at: nat, j: nat)
    requires f.Valid() && f.outN == f.imgN + 1 && AlphaFrom(now, mid, at, f.x, f.imgN, 0) && j < f.Stride()
    ensures at + j < |now| && now[at + j] == PixelByte(mid, at, f.imgN, j)
  {
  }

  lemma SampleThere(f: Format, was: seq<byte>, mid: seq<byte>, row: seq<byte>, at: nat, k: nat)
    requires f.Valid() && |row| == f.Packed() && Midway(f, mid, was, row, at, f.Samples()) && k < f.Samples()
    ensures ByteAt(mid, at + k) == Scaled(f, row, k)
  {
    hide Scaled;
  }

  lemma Outside(f: Format, was: seq<byte>, mid: seq<byte>, now: seq<byte>, row: seq<byte>, at: nat, k: nat)
    requires f.Valid() && |row| == f.Packed() && Midway(f, mid, was, row, at, f.Samples())
    requires if f.imgN == f.outN then now == mid else f.outN == f.imgN + 1 && AlphaFrom(now, mid, at, f.x, f.imgN, 0)
    requires k < |was| && !(at <= k < at + f.Stride())
    ensures |now| == |was| && now[k] == was[k]
  {
    hide Scaled;
    RowSizes(f);
  }

  // ----- whole images

  // Every row names a filter, and packed rows are no longer than the image is wide.
  ghost predicate Usable(f: Format, raw: seq<byte>, y: nat)
    requires f.Valid()
  {
    Decodable(raw, f.Packed(), y) && (y > 0 ==> f.Packed() <= f.x)
  }

  ghost function UnpackedRows(f: Format, rows: seq<seq<byte>>): (r: seq<seq<byte>>)
    requires f.Valid() && IsImage(rows, f.Packed())
    ensures |r| == |rows| && IsImage(r, f.Stride())
  {
    seq(|rows|, j requires 0 <= j < |rows| => Unpacked(f, rows[j]))
  }

  // Row `j` of the output and the packed bytes at its right end.
  function RowStart(f: Format, j: nat): nat { j * f.Stride() }

  function PackedStart(f: Format, j: nat): int { j * f.Stride() + f.Stride() - f.Packed() }

  lemma RowOrder(f: Format, i: nat, j: nat, y: nat)
    requires f.Valid() && i < j <= y
    ensures f.Packed() <= f.Stride() && 0 <= PackedStart(f, i) && RowStart(f, i) <= PackedStart(f, i)
    ensures PackedStart(f, i) + f.Packed() == RowStart(f, i) + f.Stride() == RowStart(f, i + 1) <= RowStart(f, j) <= RowStart(f, y)
    ensures PackedStart(f, i + 1) == PackedStart(f, i) + f.Stride()
  {
    RowSizes(f);
    var s := f.Stride();
    Distribute(i, 1, s);
    Distribute(i + 1, j - i - 1, s);
    MulNonNegative(j - i - 1, s);
    Distribute(j, y - j, s);
    MulNonNegative(y - j, s);
    MulNonNegative(i, s);
    Distribute(i + 1, 1, s);
  }

  ghost predicate PackedRows(f: Format, out: seq<byte>, rows: seq<seq<byte>>, y: nat)
    requires f.Valid()
  {
    |out| == RowStart(f, y) && |rows| <= y && IsImage(rows, f.Packed()) &&
    forall i: nat :: i < |rows| ==> RowHas(f, out, i, rows[i])
  }

  ghost predicate RowHas(f: Format, out: seq<byte>, i: nat, row: seq<byte>)
    requires f.Valid()
  {
    0 <= PackedStart(f, i) && PackedStart(f, i) + f.Packed() <= |out| &&
    out[PackedStart(f, i)..PackedStart(f, i) + f.Packed()] == row
  }

  // One row is decoded below the last one.
  lemma RowAdded(f: Format, now: seq<byte>, was: seq<byte>, rows: seq<seq<byte>>, y: nat, row: seq<byte>)
    requires f.Valid() && PackedRows(f, was, rows, y) && |rows| < y && |now| == |was| && |row| == f.Packed()
    requires 0 <= PackedStart(f, |rows|) && PackedStart(f, |rows|) + f.Packed() <= |now|
    requires now[..PackedStart(f, |rows|)] == was[..PackedStart(f, |rows|)]
    requires now[PackedStart(f, |rows|)..PackedStart(f, |rows|) + f.Packed()] == row
    ensures PackedRows(f, now, rows + [row], y)
  {
    var p := PackedStart(f, |rows|);
    forall i: nat | i < |rows|
      ensures RowHas(f, now, i, rows[i])
    {
      RowOrder(f, i, |rows|, y);
      RowOrder(f, |rows|, |rows| + 1, y);
      hide PackedStart, RowStart;
      var a, b := PackedStart(f, i), PackedStart(f, i) + f.Packed();
      assert RowHas(f, was, i, rows[i]);
      assert now[a..b] == now[..p][a..b] == was[a..b];
    }
  }

  method DecodePacked(out: array<byte>, f: Format, raw: seq<byte>, y: nat) returns (ok: bool)
    requires f.Valid() && out.Length == RowStart(f, y) && |raw| >= y * (f.Packed() + 1)
    modifies out
    ensures ok <==> Usable(f, raw, y)
    ensures ok ==> PackedRows(f, out[..], UnfilterImage(raw, f.Packed(), 1, y), y)
  {
    hide *;
    var w := f.Packed();
    UsableIs(f, raw, w, y);
    NoneDecoded(f, out[..], raw, y);
    var at, cur := 0, StartOf(f, y);
    for j := 0 to y
      invariant at == j * (w + 1) && |raw| >= j * (w + 1) && (j < y ==> cur == PackedStart(f, j))
      invariant (forall i :: 0 <= i < j ==> RowFilter(raw, w, i) <= 4) && (j > 0 ==> w <= f.x)
      invariant PackedRows(f, out[..], UnfilterImage(raw, w, 1, j), y)
    {
      FilterIs(raw, w, at, j, y);
      RowOrder(f, j, j + 1, y);
      var filter := raw[at];
      if filter > 4 { return false; }
      if w > f.x { return false; }
      PackRow(out, f, raw, w, at, cur, j, y);
      at := at + 1 + w;
      cur := cur + f.Stride();
    }
    ok := true;
  }

  lemma UsableIs(f: Format, raw: seq<byte>, w: nat, y: nat)
    requires f.Valid() && w == f.Packed() && |raw| >= y * (w + 1)
    ensures Usable(f, raw, y) <==> (forall j :: 0 <= j < y ==> RowFilter(raw, w, j) <= 4) && (y > 0 ==> w <= f.x)
  {
    hide RowFilter, Format.Packed;
  }

  // Row `j`, from its filter byte on, into the right end of its place.
  method PackRow(out: array<byte>, f: Format, raw: seq<byte>, w: nat, at: nat, cur: int, j: nat, ghost y: nat)
    requires f.Valid() && w == f.Packed() && j < y && At(raw, w, at, j) && cur == PackedStart(f, j)
    requires raw[at] <= 4 && PackedRows(f, out[..], UnfilterImage(raw, w, 1, j), y)
    modifies out
    ensures PackedRows(f, out[..], UnfilterImage(raw, w, 1, j + 1), y)
  {
    hide *;
    AtFacts(raw, w, at, j);
    ghost var was, rows := out[..], UnfilterImage(raw, w, 1, j);
    PlaceOf(f, was, rows, y);
    OneMore(raw, w, at, j);
    DecodeRow(out, cur, cur - f.Stride(), raw[at + 1..at + 1 + w], w, 1, j == 0, raw[at]);
    RowAdded(f, out[..], was, rows, y, out[cur..cur + w]);
  }

  lemma AtFacts(raw: seq<byte>, w: nat, at: nat, j: nat)
    requires At(raw, w, at, j)
    ensures at + 1 + w <= |raw| && j * (w + 1) <= |raw| && (j + 1) * (w + 1) <= |raw|
  {
  }

  // Where the next row goes, below the last one.
  lemma PlaceOf(f: Format, out: seq<byte>, rows: seq<seq<byte>>, y: nat)
    requires f.Valid() && PackedRows(f, out, rows, y) && |rows| < y
    ensures var cur, w := PackedStart(f, |rows|), f.Packed();
      0 < w && 0 <= cur && cur + w <= |out| && (|rows| > 0 ==>
        0 <= cur - f.Stride() <= cur - w && out[cur - f.Stride()..cur - f.Stride() + w] == rows[|rows| - 1])
  {
    RowSizes(f);
    RowOrder(f, |rows|, |rows| + 1, y);
    RowInside(f, out, rows, y);
    if |rows| > 0 { LastPacked(f, out, rows, y); }
  }

  // The filtered row `j` is there, from its filter byte at `at` on.
  ghost predicate At(raw: seq<byte>, w: nat, at: nat, j: nat) {
    at == j * (w + 1) && at + 1 + w == (j + 1) * (w + 1) && at + 1 + w <= |raw|
  }

  lemma RowInside(f: Format, out: seq<byte>, rows: seq<seq<byte>>, y: nat)
    requires f.Valid() && PackedRows(f, out, rows, y) && |rows| < y
    ensures PackedStart(f, |rows|) + f.Packed() <= |out|
  {
    RowOrder(f, |rows|, |rows| + 1, y);
  }

  function StartOf(f: Format, y: nat): (p: nat)
    requires f.Valid()
    ensures y > 0 ==> p == PackedStart(f, 0)
  {
    RowSizes(f);
    f.Stride() - f.Packed()
  }

  lemma NoneDecoded(f: Format, out: seq<byte>, raw: seq<byte>, y: nat)
    requires f.Valid() && |out| == RowStart(f, y)
    ensures PackedRows(f, out, UnfilterImage(raw, f.Packed(), 1, 0), y)
  {
  }

  lemma FilterIs(raw: seq<byte>, w: nat, at: nat, j: nat, y: nat)
    requires j < y && |raw| >= y * (w + 1) && at == j * (w + 1)
    ensures At(raw, w, at, j) && at + 1 + w == (j + 1) * (w + 1) <= |raw| && RowFilter(raw, w, j) == raw[at]
  {
    Bounds(j, y, w);
  }

  lemma LastPacked(f: Format, out: seq<byte>, rows: seq<seq<byte>>, y: nat)
    requires f.Valid() && PackedRows(f, out, rows, y) && 0 < |rows| < y
    ensures var up := PackedStart(f, |rows|) - f.Stride();
      0 <= up && up + f.Packed() <= |out| && out[up..up + f.Packed()] == rows[|rows| - 1] &&
      up + f.Packed() <= PackedStart(f, |rows|)
  {
    RowOrder(f, |rows| - 1, |rows|, y);
    assert RowHas(f, out, |rows| - 1, rows[|rows| - 1]);
    RowSizes(f);
  }

  lemma OneMore(raw: seq<byte>, w: nat, at: nat, j: nat)
    requires At(raw, w, at, j)
    ensures var rows := UnfilterImage(raw, w, 1, j);
      UnfilterImage(raw, w, 1, j + 1)
      == rows + [UnfilterRow(raw[at], raw[at + 1..at + 1 + w], if j == 0 then Zero(w) else rows[j - 1], 1, w)]
  {
    hide UnfilterRow, Zero;
  }

  // The image that comes out, for every width, height and depth.
  method CreateSubByte(raw: seq<byte>, f: Format, y: nat) returns (ok: bool, out: array<byte>)
    requires f.Valid()
    ensures fresh(out) && (ok <==> Usable(f, raw, y))
    ensures ok ==> out[..] == Flat(UnpackedRows(f, UnfilterImage(raw, f.Packed(), 1, y)), f.Stride(), y)
  {
    hide PackedRows, UnfilterImage, UnpackedRows, Unpacked;
    out := new byte[RowStart(f, y)];
    Commute(f.Packed() + 1, y);
    if |raw| < (f.Packed() + 1) * y { return false, out; }
    ok := DecodePacked(out, f, raw, y);
    if ok { UnpackRows(out, f, y, UnfilterImage(raw, f.Packed(), 1, y)); }
  }

  method UnpackRows(out: array<byte>, f: Format, y: nat, ghost rows: seq<seq<byte>>)
    requires f.Valid() && PackedRows(f, out[..], rows, y) && |rows| == y
    modifies out
    ensures out[..] == Flat(UnpackedRows(f, rows), f.Stride(), y)
  {
    hide *;
    EachPacked(f, out[..], rows, y);
    ghost var rs := UnpackedRows(f, rows);
    var at := 0;
    Origin(f, rs);
    for j := 0 to y
      invariant at == RowStart(f, j) <= out.Length == RowStart(f, y) && out[..at] == Flat(rs, f.Stride(), j)
      invariant forall i: nat :: j <= i < y ==> RowHas(f, out[..], i, rows[i])
    {
      RowOrder(f, j, j + 1, y);
      UnpackOne(out, f, at, j, y, rows);
      at := at + f.Stride();
    }
    assert out[..] == out[..at];
  }

  lemma EachPacked(f: Format, out: seq<byte>, rows: seq<seq<byte>>, y: nat)
    requires f.Valid() && PackedRows(f, out, rows, y) && |rows| == y
    ensures |out| == RowStart(f, y) && IsImage(rows, f.Packed()) && forall i: nat :: i < y ==> RowHas(f, out, i, rows[i])
  {
  }

  // Row `j` is unpacked; the rows below it stay packed.
  method UnpackOne(out: array<byte>, f: Format, at: nat, j: nat, ghost y: nat, ghost rows: seq<seq<byte>>)
    requires f.Valid() && IsImage(rows, f.Packed()) && |rows| == y && j < y && at == RowStart(f, j) <= out.Length
    requires out[..at] == Flat(UnpackedRows(f, rows), f.Stride(), j)
    requires forall i: nat :: j <= i < y ==> RowHas(f, out[..], i, rows[i])
    modifies out
    ensures at + f.Stride() <= out.Length
    ensures out[..at + f.Stride()] == Flat(UnpackedRows(f, rows), f.Stride(), j + 1)
    ensures forall i: nat :: j + 1 <= i < y ==> RowHas(f, out[..], i, rows[i])
  {
    hide *;
    ghost var was := out[..];
    RowThere(f, was, j, rows[j]);
    ExpandRow(out, f, at, rows[j]);
    forall i: nat | j + 1 <= i < y
      ensures RowHas(f, out[..], i, rows[i])
    {
      RowOrder(f, j, i, y);
      RowOrder(f, i, i + 1, y);
      RowKept(f, was, out[..], i, rows[i], at);
    }
    FlatNext(f, UnpackedRows(f, rows), j, rows);
    assert out[..at] == was[..at];
    assert out[..at + f.Stride()] == out[..at] + out[at..at + f.Stride()];
  }

  lemma Origin(f: Format, rs: seq<seq<byte>>)
    requires IsImage(rs, f.Stride())
    ensures RowStart(f, 0) == 0 && Flat(rs, f.Stride(), 0) == []
  {
  }

  lemma RowThere(f: Format, out: seq<byte>, j: nat, row: seq<byte>)
    requires f.Valid() && RowHas(f, out, j, row)
    ensures var at := RowStart(f, j);
      f.Packed() <= f.Stride() && |row| == f.Packed() && at + f.Stride() <= |out| &&
      out[at + f.Stride() - f.Packed()..at + f.Stride()] == row
  {
    RowSizes(f);
  }

  // Unpacking a row leaves the packed rows below it.
  lemma RowKept(f: Format, was: seq<byte>, now: seq<byte>, i: nat, row: seq<byte>, at: nat)
    requires f.Valid() && RowHas(f, was, i, row) && |now| == |was| && at + f.Stride() <= PackedStart(f, i)
    requires forall k :: 0 <= k < |was| && !(at <= k < at + f.Stride()) ==> now[k] == was[k]
    ensures RowHas(f, now, i, row)
  {
    hide PackedStart;
    var a, b := PackedStart(f, i), PackedStart(f, i) + f.Packed();
    assert now[a..b] == was[a..b];
  }

  lemma FlatNext(f: Format, rs: seq<seq<byte>>, j: nat, rows: seq<seq<byte>>)
    requires f.Valid() && IsImage(rows, f.Packed()) && rs == UnpackedRows(f, rows) && j < |rows|
    ensures Flat(rs, f.Stride(), j + 1) == Flat(rs, f.Stride(), j) + Unpacked(f, rows[j])
  {
    hide Unpacked;
  }
}
