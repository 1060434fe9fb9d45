// Interlaced images written pass by pass (PNG Specification, Second Edition, sections 7.2, 8.2 and 9), and that putting the
// passes together gives back the image: with samples of a byte, and with packed ones.

module PngPasses {
  import opened BitStream
  import opened PngFilter
  import opened PngExpand
  import opened PngInterlace
  import opened Wrappers

  // ----- the table of the specification

  const ADAM7: seq<seq<nat>> := [
    [1, 6, 4, 6, 2, 6, 4, 6],
    [7, 7, 7, 7, 7, 7, 7, 7],
    [5, 6, 5, 6, 5, 6, 5, 6],
    [7, 7, 7, 7, 7, 7, 7, 7],
    [3, 6, 4, 6, 3, 6, 4, 6],
    [7, 7, 7, 7, 7, 7, 7, 7],
    [5, 6, 5, 6, 5, 6, 5, 6],
    [7, 7, 7, 7, 7, 7, 7, 7]]

  lemma PassIs(x: nat, y: nat)
    ensures |ADAM7| == 8 && |ADAM7[y % 8]| == 8 && PassOf(x, y) + 1 == ADAM7[y % 8][x % 8]
  {
  }

  // ----- packing samples, the first one in the highest bits

  function Nth(v: seq<nat>, k: nat): nat { if k < |v| then v[k] else 0 }

  function PackedByte(v: seq<nat>, depth: nat, b: nat): nat {
    match depth
    case 1 =>
      128 * Nth(v, 8 * b) + 64 * Nth(v, 8 * b + 1) + 32 * Nth(v, 8 * b + 2) + 16 * Nth(v, 8 * b + 3) +
      8 * Nth(v, 8 * b + 4) + 4 * Nth(v, 8 * b + 5) + 2 * Nth(v, 8 * b + 6) + Nth(v, 8 * b + 7)
    case 2 => 64 * Nth(v, 4 * b) + 16 * Nth(v, 4 * b + 1) + 4 * Nth(v, 4 * b + 2) + Nth(v, 4 * b + 3)
    case _ => 16 * Nth(v, 2 * b) + Nth(v, 2 * b + 1)
  }

  // The greatest sample.
  function Top(depth: nat): nat { match depth case 1 => 1 case 2 => 3 case 4 => 15 case _ => 255 }

  ghost predicate AreSamples(v: seq<nat>, depth: nat) {
    depth in {1, 2, 4, 8} && forall i :: 0 <= i < |v| ==> v[i] <= Top(depth)
  }

  ghost function PackedRow(v: seq<nat>, depth: nat, w: nat): (row: seq<byte>)
    requires AreSamples(v, depth) && depth != 8
    ensures |row| == w
  {
    seq(w, b requires 0 <= b < w => PackedBound(v, depth, b); PackedByte(v, depth, b) as byte)
  }

  lemma PackedBound(v: seq<nat>, depth: nat, b: nat)
    requires AreSamples(v, depth) && depth != 8
    ensures PackedByte(v, depth, b) < 256
  {
  }

  lemma SampleIs(v: seq<nat>, depth: nat, w: nat, m: nat)
    requires AreSamples(v, depth) && depth != 8 && m < |v| && m / (8 / depth) < w
    ensures Sample(PackedRow(v, depth, w), depth, m) == v[m]
  {
    SamplesBound(v, depth);
    hide PackedRow, AreSamples, Nth, Pow2, Div, PackedByte;
    PackedAt(v, depth, w, m / (8 / depth));
    assert 8 / 1 == 8 && 8 / 2 == 4 && 8 / 4 == 2;
    Powers();
    NthIs(v, m);
    match depth
    case 1 => Octet(v, m / 8, m);
    case 2 => Quad(v, m / 4, m);
    case _ => Pair(v, m / 2, m);
  }

  lemma NthIs(v: seq<nat>, m: nat)
    requires m < |v|
    ensures Nth(v, m) == v[m]
  {
  }

  lemma PackedAt(v: seq<nat>, depth: nat, w: nat, b: nat)
    requires AreSamples(v, depth) && depth != 8 && b < w
    ensures PackedRow(v, depth, w)[b] == PackedByte(v, depth, b)
  {
  }

  lemma SamplesBound(v: seq<nat>, depth: nat)
    requires AreSamples(v, depth)
    ensures depth in {1, 2, 4, 8} && forall k: nat :: Nth(v, k) <= Top(depth)
  {
  }

  // Taking out one digit.
  lemma Digit(total: nat, p: nat, hi: nat, top: nat, digit: nat, low: nat)
    requires low < p && digit < top && total == (hi * top + digit) * p + low
    ensures Div(total, p) % top == digit
  {
    DivModUnique(total, p, hi * top + digit, low);
    DivModUnique(hi * top + digit, top, hi, digit);
  }

  lemma Octet(v: seq<nat>, b: nat, m: nat)
    requires m / 8 == b && forall k: nat :: Nth(v, k) <= 1
    ensures Div(PackedByte(v, 1, b), Pow2(8 - 1 * (m % 8 + 1))) % 2 == Nth(v, m)
  {
    hide Nth, Pow2, Div;
    var a := [Nth(v, 8 * b), Nth(v, 8 * b + 1), Nth(v, 8 * b + 2), Nth(v, 8 * b + 3), Nth(v, 8 * b + 4), Nth(v, 8 * b + 5),
      Nth(v, 8 * b + 6), Nth(v, 8 * b + 7)];
    assert m == 8 * b + m % 8;
    assert a[m % 8] == Nth(v, m);
    if m % 8 < 4 { HighBits(a, m % 8); } else { LowBits(a, m % 8); }
  }

  function EightBits(a: seq<nat>): nat
    requires |a| == 8
  {
    128 * a[0] + 64 * a[1] + 32 * a[2] + 16 * a[3] + 8 * a[4] + 4 * a[5] + 2 * a[6] + a[7]
  }

  lemma HighBits(a: seq<nat>, r: nat)
    requires |a| == 8 && r < 4 && forall i :: 0 <= i < 8 ==> a[i] <= 1
    ensures Div(EightBits(a), Pow2(8 - 1 * (r + 1))) % 2 == a[r]
  {
    hide Pow2, Div;
    Powers();
    var t := EightBits(a);
    match r
    case 0 => Digit(t, 128, 0, 2, a[0], 64 * a[1] + 32 * a[2] + 16 * a[3] + 8 * a[4] + 4 * a[5] + 2 * a[6] + a[7]);
    case 1 => Digit(t, 64, a[0], 2, a[1], 32 * a[2] + 16 * a[3] + 8 * a[4] + 4 * a[5] + 2 * a[6] + a[7]);
    case 2 => Digit(t, 32, 2 * a[0] + a[1], 2, a[2], 16 * a[3] + 8 * a[4] + 4 * a[5] + 2 * a[6] + a[7]);
    case _ => Digit(t, 16, 4 * a[0] + 2 * a[1] + a[2], 2, a[3], 8 * a[4] + 4 * a[5] + 2 * a[6] + a[7]);
  }

  lemma LowBits(a: seq<nat>, r: nat)
    requires |a| == 8 && 4 <= r < 8 && forall i :: 0 <= i < 8 ==> a[i] <= 1
    ensures Div(EightBits(a), Pow2(8 - 1 * (r + 1))) % 2 == a[r]
  {
    hide Pow2, Div;
    Powers();
    var t := EightBits(a);
    var hi := 8 * a[0] + 4 * a[1] + 2 * a[2] + a[3];
    match r
    case 4 => Digit(t, 8, hi, 2, a[4], 4 * a[5] + 2 * a[6] + a[7]);
    case 5 => Digit(t, 4, 2 * hi + a[4], 2, a[5], 2 * a[6] + a[7]);
    case 6 => Digit(t, 2, 4 * hi + 2 * a[4] + a[5], 2, a[6], a[7]);
    case _ => Digit(t, 1, 8 * hi + 4 * a[4] + 2 * a[5] + a[6], 2, a[7], 0);
  }

  lemma Quad(v: seq<nat>, b: nat, m: nat)
    requires m / 4 == b && forall k: nat :: Nth(v, k) <= 3
    ensures Div(PackedByte(v, 2, b), Pow2(8 - 2 * (m % 4 + 1))) % 4 == Nth(v, m)
  {
    var a0, a1, a2, a3 := Nth(v, 4 * b), Nth(v, 4 * b + 1), Nth(v, 4 * b + 2), Nth(v, 4 * b + 3);
    Powers();
    hide Nth, Pow2, Div;
    var t := PackedByte(v, 2, b);
    match m - 4 * b
    case 0 => Digit(t, 64, 0, 4, a0, 16 * a1 + 4 * a2 + a3);
    case 1 => Digit(t, 16, a0, 4, a1, 4 * a2 + a3);
    case 2 => Digit(t, 4, 4 * a0 + a1, 4, a2, a3);
    case _ => Digit(t, 1, 16 * a0 + 4 * a1 + a2, 4, a3, 0);
  }

  lemma Pair(v: seq<nat>, b: nat, m: nat)
    requires m / 2 == b && forall k: nat :: Nth(v, k) <= 15
    ensures Div(PackedByte(v, 4, b), Pow2(8 - 4 * (m % 2 + 1))) % 16 == Nth(v, m)
  {
    var a0, a1 := Nth(v, 2 * b), Nth(v, 2 * b + 1);
    Powers();
    hide Nth, Pow2, Div;
    var t := PackedByte(v, 4, b);
    match m - 2 * b
    case 0 => Digit(t, 16, 0, 16, a0, a1);
    case _ => Digit(t, 1, a0, 16, a1, 0);
  }

  lemma Powers()
    ensures Pow2(0) == 1 && Pow2(1) == 2 && Pow2(2) == 4 && Pow2(3) == 8 && Pow2(4) == 16 && Pow2(5) == 32
    ensures Pow2(6) == 64 && Pow2(7) == 128
  {
    Pow2Small();
  }

  // ----- one reduced image

  function Channels(k: Kind): nat { if k.Bytes? then k.n else k.imgN }

  function Depth(k: Kind): nat { if k.Bytes? then 8 else k.depth }

  // Filters look back a whole pixel, or a byte where pixels are smaller.
  function Back(k: Kind): nat { if k.Bytes? then k.n else 1 }

  // The bytes of a row of samples.
  ghost function Stored(k: Kind, v: seq<nat>, x: nat): (row: seq<byte>)
    requires k.Valid() && AreSamples(v, Depth(k)) && |v| == x * Channels(k)
    ensures |row| == k.RowBytes(x)
  {
    if k.Bytes? then seq(x * k.n, i requires 0 <= i < x * k.n => v[i] as byte)
    else PackedRow(v, k.depth, k.RowBytes(x))
  }

  // What comes out for a row of samples.
  ghost function Shown(k: Kind, v: seq<nat>, x: nat): (row: seq<byte>)
    requires k.Valid() && AreSamples(v, Depth(k)) && |v| == x * Channels(k)
    ensures |row| == k.RowOut(x)
  {
    if k.Bytes? then Stored(k, v, x) else seq(k.RowOut(x), i requires 0 <= i < k.RowOut(x) => ShownByte(k, v, i))
  }

  // Grey samples are spread so that the greatest one becomes 255.
  ghost function ShownByte(k: Kind, v: seq<nat>, i: nat): byte
    requires k.Valid() && k.Packed? && AreSamples(v, k.depth)
  {
    if i % k.outN >= k.imgN then 255
    else
      var s := Nth(v, i / k.outN * k.imgN + i % k.outN);
      if k.color != 0 then s else s * 255 / Top(k.depth)
  }

  lemma UnpackedIs(k: Kind, v: seq<nat>, x: nat)
    requires k.Valid() && k.Packed? && x > 0 && AreSamples(v, k.depth) && |v| == x * k.imgN
    ensures var f := k.FormatOf(x); f.Valid() && Unpacked(f, Stored(k, v, x)) == Shown(k, v, x)
  {
    hide AreSamples, Stored, Scaled, Format.Packed, ShownByte;
    FormatIs(k, x);
    var f := k.FormatOf(x);
    var row := Stored(k, v, x);
    forall i | 0 <= i < k.RowOut(x)
      ensures UnpackedAt(f, row, i) == ShownByte(k, v, i)
    {
      if i % k.outN < k.imgN { SampleOf(f, i); }
      ByteShown(k, v, x, i);
    }
  }

  lemma FormatIs(k: Kind, x: nat)
    requires k.Valid() && k.Packed? && x > 0
    ensures var f := k.FormatOf(x);
      f.Valid() && f.x == x && f.imgN == k.imgN && f.outN == k.outN && f.Packed() == k.RowBytes(x) && f.Stride() == k.RowOut(x) &&
      f.Samples() == x * k.imgN
  {
  }

  lemma ByteShown(k: Kind, v: seq<nat>, x: nat, i: nat)
    requires k.Valid() && k.Packed? && x > 0 && AreSamples(v, k.depth) && |v| == x * k.imgN && i < k.RowOut(x)
    ensures var f := k.FormatOf(x); f.Valid() && UnpackedAt(f, Stored(k, v, x), i) == ShownByte(k, v, i)
  {
    hide AreSamples, Stored, Scaled, Format.Packed;
    FormatIs(k, x);
    if i % k.outN < k.imgN {
      SampleOf(k.FormatOf(x), i);
      var m := i / k.outN * k.imgN + i % k.outN;
      ScaledIs(k, v, x, m);
      NthIs(v, m);
    }
  }

  lemma ScaledIs(k: Kind, v: seq<nat>, x: nat, m: nat)
    requires k.Valid() && k.Packed? && x > 0 && AreSamples(v, k.depth) && |v| == x * k.imgN && m < |v|
    ensures var f := k.FormatOf(x);
      f.Valid() && Scaled(f, Stored(k, v, x), m) == if k.color != 0 then v[m] else v[m] * 255 / Top(k.depth)
  {
    hide AreSamples, PackedRow, Sample, Top;
    FormatIs(k, x);
    var f := k.FormatOf(x);
    RowSizes(f);
    assert m / (8 / k.depth) < f.Packed();
    SampleIs(v, k.depth, f.Packed(), m);
    SamplesBound(v, k.depth);
    NthIs(v, m);
    Spread(f, v[m]);
  }

  // Grey samples times their scale.
  lemma Spread(f: Format, s: nat)
    requires f.depth in {1, 2, 4} && s <= Top(f.depth)
    ensures Scale(f) * s == if f.color != 0 then s else s * 255 / Top(f.depth)
  {
  }

  // ----- the passes

  // Sample `c` of pixel `x`, `y` is at `Place(w, x, y, Channels(k), c)`.
  ghost predicate IsPicture(k: Kind, pix: seq<nat>, w: nat, h: nat) {
    k.Valid() && AreSamples(pix, Depth(k)) && |pix| == h * (w * Channels(k)) && 0 < w <= 0x100_0000 && 0 < h <= 0x100_0000
  }

  // A filter for each row of each pass.
  ghost predicate AreTypes(types: seq<seq<nat>>, h: nat) {
    |types| == 7 && forall p :: 0 <= p < 7 ==> IsTypes(types[p]) && |types[p]| == PassY(p, h)
  }

  // Every `dx`th pixel of every `dy`th line, written out for each pass.
  ghost function Picked(k: Kind, pix: seq<nat>, w: nat, h: nat, p: nat, j: nat): (v: seq<nat>)
    ensures |v| == PassX(p, w) * Channels(k)
    ensures IsPicture(k, pix, w, h) ==> AreSamples(v, Depth(k))
  {
    seq(PassX(p, w) * Channels(k), i requires 0 <= i < PassX(p, w) * Channels(k) =>
      if Channels(k) == 0 then 0 else Nth(pix, Place(w, XAt(p, i / Channels(k)), YAt(p, j), Channels(k), i % Channels(k))))
  }

  ghost function PassRows(k: Kind, pix: seq<nat>, w: nat, h: nat, p: nat): (rows: seq<seq<byte>>)
    requires IsPicture(k, pix, w, h)
    ensures |rows| == PassY(p, h) && IsImage(rows, k.RowBytes(PassX(p, w)))
  {
    seq(PassY(p, h), j requires 0 <= j < PassY(p, h) => Stored(k, Picked(k, pix, w, h, p, j), PassX(p, w)))
  }

  ghost function ShownRows(k: Kind, pix: seq<nat>, w: nat, h: nat, p: nat): (rows: seq<seq<byte>>)
    requires IsPicture(k, pix, w, h)
    ensures |rows| == PassY(p, h) && IsImage(rows, k.RowOut(PassX(p, w)))
  {
    seq(PassY(p, h), j requires 0 <= j < PassY(p, h) => Shown(k, Picked(k, pix, w, h, p, j), PassX(p, w)))
  }

  ghost function PassData(k: Kind, pix: seq<nat>, types: seq<seq<nat>>, w: nat, h: nat, p: nat): (d: seq<byte>)
    requires IsPicture(k, pix, w, h) && AreTypes(types, h) && p < 7
    ensures |d| == PassY(p, h) * (k.RowBytes(PassX(p, w)) + 1)
  {
    FilterImage(PassRows(k, pix, w, h, p), types[p], k.RowBytes(PassX(p, w)), Back(k), PassY(p, h))
  }

  // The passes before `p` that have pixels, one after the other.
  ghost function Interlaced(k: Kind, pix: seq<nat>, types: seq<seq<nat>>, w: nat, h: nat, p: nat): seq<byte>
    requires IsPicture(k, pix, w, h) && AreTypes(types, h) && p <= 7
  {
    if p == 0 then []
    else
      Interlaced(k, pix, types, w, h, p - 1) +
      if PassX(p - 1, w) > 0 && PassY(p - 1, h) > 0 then PassData(k, pix, types, w, h, p - 1) else []
  }

  // ----- reading them back

  // The filtered data of a pass takes `(bytes + 1) * rows`: less is none, and what follows does not matter.
  lemma ReductionReads(k: Kind, raw: seq<byte>, x: nat, y: nat)
    requires k.Valid() && x > 0
    ensures var n := ((Channels(k) * x * Depth(k) + 7) / 8 + 1) * y;
      if |raw| < n then Reduction(k, raw, x, y) == None else Reduction(k, raw, x, y) == Reduction(k, raw[..n], x, y)
  {
    hide UnfilterImage, UnpackedRows, Flat, Decodable, Kind.RowBytes;
    var b := k.RowBytes(x);
    RowBytesIs(k, x);
    Commute(b + 1, y);
    if |raw| >= y * (b + 1) {
      UnfilterReads(raw, b, Back(k), y, y * (b + 1));
      DecodableReads(raw, b, y);
    }
    ReductionUsed(k, raw, x, y);
    if |raw| >= y * (b + 1) { ReductionUsed(k, raw[..(b + 1) * y], x, y); }
  }

  lemma RowBytesIs(k: Kind, x: nat)
    ensures k.RowBytes(x) == (Channels(k) * x * Depth(k) + 7) / 8
  {
  }

  // A reduced image, by what its data decodes to.
  lemma ReductionUsed(k: Kind, raw: seq<byte>, x: nat, y: nat)
    requires k.Valid() && x > 0
    ensures Reduction(k, raw, x, y).Some? <==> Decodable(raw, k.RowBytes(x), y) && (k.Packed? && y > 0 ==> k.RowBytes(x) <= x)
    ensures Reduction(k, raw, x, y).Some? ==> |raw| >= y * (k.RowBytes(x) + 1)
    ensures Reduction(k, raw, x, y).Some? && k.Bytes? ==>
      Reduction(k, raw, x, y).value == Flat(UnfilterImage(raw, k.RowBytes(x), k.n, y), k.RowBytes(x), y)
    ensures Reduction(k, raw, x, y).Some? && k.Packed? ==>
      k.FormatOf(x).Valid() && k.FormatOf(x).Packed() == k.RowBytes(x) && k.FormatOf(x).Stride() == k.RowOut(x) &&
      Reduction(k, raw, x, y).value
      == Flat(UnpackedRows(k.FormatOf(x), UnfilterImage(raw, k.RowBytes(x), 1, y)), k.RowOut(x), y)
  {
    hide UnfilterImage, UnpackedRows, Flat;
    if k.Packed? { FormatIs(k, x); }
  }

  lemma DecodableReads(raw: seq<byte>, w: nat, y: nat)
    requires |raw| >= y * (w + 1)
    ensures Decodable(raw[..y * (w + 1)], w, y) == Decodable(raw, w, y)
  {
    hide RowFilter;
    var short := raw[..y * (w + 1)];
    forall j | 0 <= j < y
      ensures RowFilter(short, w, j) == RowFilter(raw, w, j)
    {
      FilterReads(raw, w, j, y);
    }
  }

  lemma FilterReads(raw: seq<byte>, w: nat, j: nat, y: nat)
    requires j < y && |raw| >= y * (w + 1)
    ensures RowFilter(raw[..y * (w + 1)], w, j) == RowFilter(raw, w, j)
  {
    Bounds(j, y, w);
  }

  lemma {:induction false} UnfilterReads(raw: seq<byte>, w: nat, bpp: nat, j: nat, n: nat)
    requires j * (w + 1) <= n <= |raw|
    ensures UnfilterImage(raw[..n], w, bpp, j) == UnfilterImage(raw, w, bpp, j)
  {
    hide UnfilterRow, Above;
    if j > 0 {
      Distribute(j - 1, 1, w + 1);
      UnfilterReads(raw, w, bpp, j - 1, n);
      var at := (j - 1) * (w + 1);
      assert raw[..n][at + 1..at + 1 + w] == raw[at + 1..at + 1 + w];
    }
  }

  // Where the next pass starts.
  lemma NextStart(k: Kind, w: nat, h: nat, p: nat)
    requires p < 7 && k.Valid()
    ensures Start(k, w, h, p + 1) == Start(k, w, h, p) +
      if PassX(p, w) > 0 && PassY(p, h) > 0 then ((Channels(k) * PassX(p, w) * Depth(k) + 7) / 8 + 1) * PassY(p, h) else 0
  {
    hide PassX, PassY;
    var b := (Channels(k) * PassX(p, w) * Depth(k) + 7) / 8;
    assert b == k.RowBytes(PassX(p, w));
  }

  // The packed rows of pass `p` are no longer than it is wide: the loader's test.
  ghost predicate Narrow(k: Kind, w: nat, p: nat) { k.Packed? ==> k.RowBytes(PassX(p, w)) <= PassX(p, w) }

  lemma PassRead(k: Kind, pix: seq<nat>, types: seq<seq<nat>>, w: nat, h: nat, p: nat, tail: seq<byte>)
    requires IsPicture(k, pix, w, h) && AreTypes(types, h) && p < 7 && Occupied(p, w, h)
    ensures Reduction(k, PassData(k, pix, types, w, h, p) + tail, PassX(p, w), PassY(p, h))
      == if Narrow(k, w, p) then Some(Flat(ShownRows(k, pix, w, h, p), k.RowOut(PassX(p, w)), PassY(p, h))) else None
  {
    hide *;
    PassFacts(k, pix, types, w, h, p);
    var rows, x, y := PassRows(k, pix, w, h, p), PassX(p, w), PassY(p, h);
    FilteredDecodes(rows, types[p], k.RowBytes(x), Back(k), tail);
    if k.Bytes? {
      BytesShown(k, pix, w, h, p);
    } else {
      RowsShown(k, pix, w, h, p);
    }
    ReductionOf(k, PassData(k, pix, types, w, h, p) + tail, x, y, rows, ShownRows(k, pix, w, h, p));
  }

  lemma PassFacts(k: Kind, pix: seq<nat>, types: seq<seq<nat>>, w: nat, h: nat, p: nat)
    requires IsPicture(k, pix, w, h) && AreTypes(types, h) && p < 7 && Occupied(p, w, h)
    ensures k.Valid() && PassX(p, w) > 0 && PassY(p, h) > 0 && |types| == 7 && IsTypes(types[p]) && |types[p]| == PassY(p, h)
    ensures PassData(k, pix, types, w, h, p)
      == FilterImage(PassRows(k, pix, w, h, p), types[p], k.RowBytes(PassX(p, w)), Back(k), PassY(p, h))
    ensures Narrow(k, w, p) <==> (k.Packed? ==> k.RowBytes(PassX(p, w)) <= PassX(p, w))
  {
    hide PassX, PassY, FilterImage;
  }

  // What unfiltered rows are shown as.
  lemma ReductionOf(k: Kind, raw: seq<byte>, x: nat, y: nat, rows: seq<seq<byte>>, shown: seq<seq<byte>>)
    requires k.Valid() && x > 0 && y > 0 && Decodable(raw, k.RowBytes(x), y) && |rows| == |shown| == y
    requires IsImage(rows, k.RowBytes(x)) && IsImage(shown, k.RowOut(x))
    requires UnfilterImage(raw, k.RowBytes(x), Back(k), y) == rows
    requires if k.Bytes? then shown == rows else k.FormatOf(x).Valid() && UnpackedRows(k.FormatOf(x), rows) == shown
    ensures Reduction(k, raw, x, y)
      == if k.Packed? ==> k.RowBytes(x) <= x then Some(Flat(shown, k.RowOut(x), y)) else None
  {
    hide UnfilterImage, UnpackedRows, Flat;
  }

  lemma BytesShown(k: Kind, pix: seq<nat>, w: nat, h: nat, p: nat)
    requires IsPicture(k, pix, w, h) && k.Bytes?
    ensures PassRows(k, pix, w, h, p) == ShownRows(k, pix, w, h, p)
  {
    hide PassX, PassY, Picked, Stored;
  }

  lemma RowsShown(k: Kind, pix: seq<nat>, w: nat, h: nat, p: nat)
    requires IsPicture(k, pix, w, h) && k.Packed? && PassX(p, w) > 0
    ensures k.FormatOf(PassX(p, w)).Valid()
    ensures UnpackedRows(k.FormatOf(PassX(p, w)), PassRows(k, pix, w, h, p)) == ShownRows(k, pix, w, h, p)
  {
    hide PassX, PassY, Picked, Stored, Shown, Unpacked;
    var f, rows := k.FormatOf(PassX(p, w)), PassRows(k, pix, w, h, p);
    forall j | 0 <= j < PassY(p, h)
      ensures Unpacked(f, rows[j]) == ShownRows(k, pix, w, h, p)[j]
    {
      UnpackedIs(k, Picked(k, pix, w, h, p, j), PassX(p, w));
    }
  }

  lemma {:induction false} DataStarts(k: Kind, pix: seq<nat>, types: seq<seq<nat>>, w: nat, h: nat, p: nat)
    requires IsPicture(k, pix, w, h) && AreTypes(types, h) && p <= 7
    ensures |Interlaced(k, pix, types, w, h, p)| == Start(k, w, h, p)
  {
    hide IsPicture, AreTypes, PassX, PassY, PassData;
    if p > 0 {
      DataStarts(k, pix, types, w, h, p - 1);
      Commute(k.RowBytes(PassX(p - 1, w)) + 1, PassY(p - 1, h));
    }
  }

  lemma {:induction false} DataAfter(k: Kind, pix: seq<nat>, types: seq<seq<nat>>, w: nat, h: nat, p: nat, q: nat, tail: seq<byte>)
    returns (rest: seq<byte>)
    requires IsPicture(k, pix, w, h) && AreTypes(types, h) && p <= q <= 7
    ensures Interlaced(k, pix, types, w, h, q) + tail == Interlaced(k, pix, types, w, h, p) + rest
    decreases q
  {
    hide IsPicture, AreTypes, PassX, PassY, PassData;
    if p == q {
      rest := tail;
    } else {
      var last := if PassX(q - 1, w) > 0 && PassY(q - 1, h) > 0 then PassData(k, pix, types, w, h, q - 1) else [];
      rest := DataAfter(k, pix, types, w, h, p, q - 1, last + tail);
      assert Interlaced(k, pix, types, w, h, q) + tail == Interlaced(k, pix, types, w, h, q - 1) + (last + tail);
    }
  }

  // Each pass is found where it starts.
  lemma PassThere(k: Kind, pix: seq<nat>, types: seq<seq<nat>>, w: nat, h: nat, tail: seq<byte>, p: nat)
    requires IsPicture(k, pix, w, h) && AreTypes(types, h) && p < 7 && Occupied(p, w, h)
    ensures PassImage(k, Interlaced(k, pix, types, w, h, 7) + tail, w, h, p)
      == if Narrow(k, w, p) then Some(Flat(ShownRows(k, pix, w, h, p), k.RowOut(PassX(p, w)), PassY(p, h))) else None
  {
    hide *;
    var data, d := Interlaced(k, pix, types, w, h, 7) + tail, Interlaced(k, pix, types, w, h, p);
    var rest := DataAfter(k, pix, types, w, h, p + 1, 7, tail);
    PassFacts(k, pix, types, w, h, p);
    NextData(k, pix, types, w, h, p);
    DataStarts(k, pix, types, w, h, p);
    var here := PassData(k, pix, types, w, h, p);
    assert data == d + (here + rest);
    assert data[|d|..] == here + rest;
    PassRead(k, pix, types, w, h, p, rest);
    PassImageIs(k, data, w, h, p);
  }

  lemma NextData(k: Kind, pix: seq<nat>, types: seq<seq<nat>>, w: nat, h: nat, p: nat)
    requires IsPicture(k, pix, w, h) && AreTypes(types, h) && p < 7 && Occupied(p, w, h)
    ensures Interlaced(k, pix, types, w, h, p + 1) == Interlaced(k, pix, types, w, h, p) + PassData(k, pix, types, w, h, p)
  {
    hide IsPicture, AreTypes, PassX, PassY, PassData;
  }

  lemma PassImageIs(k: Kind, data: seq<byte>, w: nat, h: nat, p: nat)
    requires k.Valid() && Occupied(p, w, h) && Start(k, w, h, p) <= |data|
    ensures PassX(p, w) > 0 && PassImage(k, data, w, h, p) == Reduction(k, data[Start(k, w, h, p)..], PassX(p, w), PassY(p, h))
  {
    hide PassX, PassY, Reduction, Start;
  }

  // ----- one pixel

  lemma {:induction false} FlatAt(rows: seq<seq<byte>>, w: nat, j: nat, i: nat, m: nat)
    requires IsImage(rows, w) && i < j <= |rows| && m < w
    ensures i * w + m < |Flat(rows, w, j)| && Flat(rows, w, j)[i * w + m] == rows[i][m]
    decreases j
  {
    Bounds(i, j, w);
    Distribute(j - 1, 1, w);
    if i < j - 1 {
      FlatAt(rows, w, j - 1, i, m);
    }
  }

  lemma Split(x: nat, i: nat, j: nat, n: nat, c: nat)
    requires c < n && i < x
    ensures Place(x, i, j, n, c) == j * (x * n) + (i * n + c) && i * n + c < x * n
    ensures (i * n + c) / n == i && (i * n + c) % n == c
  {
    Distribute(j * x, i, n);
    assert (j * x) * n == j * (x * n);
    Distribute(i + 1, x - i - 1, n);
    Distribute(i, 1, n);
    MulNonNegative(x - i - 1, n);
    DivModUnique(i * n + c, n, i, c);
  }

  // The byte a pixel has in the end.
  ghost function Wish(k: Kind, pix: seq<nat>, w: nat, x: nat, y: nat, c: nat): nat {
    var n := Channels(k);
    if k.Bytes? then Nth(pix, Place(w, x, y, n, c))
    else if c >= n then 255
    else if k.color != 0 then Nth(pix, Place(w, x, y, n, c))
    else Nth(pix, Place(w, x, y, n, c)) * 255 / Top(k.depth)
  }

  lemma ShownAt(k: Kind, pix: seq<nat>, w: nat, h: nat, p: nat, i: nat, j: nat, c: nat)
    requires IsPicture(k, pix, w, h) && i < PassX(p, w) && j < PassY(p, h) && c < k.Size()
    ensures i * k.Size() + c < k.RowOut(PassX(p, w))
    ensures ShownRows(k, pix, w, h, p)[j][i * k.Size() + c] == Wish(k, pix, w, XAt(p, i), YAt(p, j), c)
  {
    hide PassX, PassY, XAt, YAt, Place, Nth, AreSamples;
    Split(PassX(p, w), i, j, k.Size(), c);
    var v := Picked(k, pix, w, h, p, j);
    if k.Bytes? {
      assert Stored(k, v, PassX(p, w))[i * k.n + c] == v[i * k.n + c];
    } else if c < k.imgN {
      Split(PassX(p, w), i, j, k.imgN, c);
      NthIs(v, i * k.imgN + c);
    }
  }

  // ----- the whole image

  // Whatever the filters and whatever follows, an interlaced image comes back pixel by pixel, exactly if no packed row is
  // longer than its pass is wide.
  lemma RoundTrip(k: Kind, pix: seq<nat>, types: seq<seq<nat>>, w: nat, h: nat, tail: seq<byte>)
    requires IsPicture(k, pix, w, h) && AreTypes(types, h)
    ensures var data := Interlaced(k, pix, types, w, h, 7) + tail;
      (Complete(k, data, w, h, 7) <==> forall p: nat :: p < 7 && Occupied(p, w, h) ==> Narrow(k, w, p)) &&
      (Complete(k, data, w, h, 7) ==> forall x: nat, y: nat, c: nat :: x < w && y < h && c < k.Size() ==>
        Wanted(k, data, w, h, x, y, c) == Wish(k, pix, w, x, y, c))
  {
    hide IsPicture, AreTypes, Interlaced, Occupied, Narrow, PassImage, PassX, PassY, Wanted, Wish;
    PictureIs(k, pix, w, h);
    var data := Interlaced(k, pix, types, w, h, 7) + tail;
    forall p: nat | p < 7 && Occupied(p, w, h)
      ensures PassImage(k, data, w, h, p).Some? == Narrow(k, w, p)
    {
      PassThere(k, pix, types, w, h, tail, p);
    }
    if Complete(k, data, w, h, 7) {
      forall x: nat, y: nat, c: nat | x < w && y < h && c < k.Size()
        ensures Wanted(k, data, w, h, x, y, c) == Wish(k, pix, w, x, y, c)
      {
        PixelBack(k, pix, types, w, h, tail, x, y, c);
      }
    }
  }

  lemma PictureIs(k: Kind, pix: seq<nat>, w: nat, h: nat)
    requires IsPicture(k, pix, w, h)
    ensures k.Valid() && 0 < w <= 0x100_0000 && 0 < h <= 0x100_0000
  {
  }

  lemma PixelBack(k: Kind, pix: seq<nat>, types: seq<seq<nat>>, w: nat, h: nat, tail: seq<byte>, x: nat, y: nat, c: nat)
    requires IsPicture(k, pix, w, h) && AreTypes(types, h) && x < w && y < h && c < k.Size()
    requires k.Valid() && Complete(k, Interlaced(k, pix, types, w, h, 7) + tail, w, h, 7)
    ensures Wanted(k, Interlaced(k, pix, types, w, h, 7) + tail, w, h, x, y, c) == Wish(k, pix, w, x, y, c)
  {
    hide *;
    PictureIs(k, pix, w, h);
    var data, p := Interlaced(k, pix, types, w, h, 7) + tail, PassOf(x, y);
    InPass(x, y, w, h);
    PngInterlace.PlaceOf(x, y);
    var i: nat, j: nat := Column(p, x), Line(p, y);
    PassThere(k, pix, types, w, h, tail, p);
    CompleteAt(k, data, w, h, p);
    var rows, n := ShownRows(k, pix, w, h, p), k.RowOut(PassX(p, w));
    ShownAt(k, pix, w, h, p, i, j, c);
    FlatAt(rows, n, PassY(p, h), j, i * k.Size() + c);
    WantedIs(k, data, w, h, x, y, c, p, i, j, Flat(rows, n, PassY(p, h)));
    Split(PassX(p, w), i, j, k.Size(), c);
    assert n == PassX(p, w) * k.Size() by { RowOutIs(k, PassX(p, w)); }
    ByteThere(Flat(rows, n, PassY(p, h)), j * n + (i * k.Size() + c));
  }

  lemma CompleteAt(k: Kind, data: seq<byte>, w: nat, h: nat, p: nat)
    requires k.Valid() && Complete(k, data, w, h, 7) && p < 7 && Occupied(p, w, h)
    ensures PassImage(k, data, w, h, p).Some?
  {
    hide Occupied, PassImage;
  }

  lemma RowOutIs(k: Kind, x: nat)
    ensures k.RowOut(x) == x * k.Size()
  {
  }

  lemma ByteThere(d: seq<byte>, i: nat)
    requires i < |d|
    ensures ByteAt(d, i) == d[i]
  {
  }
}
