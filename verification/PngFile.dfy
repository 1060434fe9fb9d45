// `stbi_write_png_to_mem` and the part of `stbi__parse_png_file` that reads non-interlaced 8-bit images without a
// palette: what the writer stores, the loader gives back.

module PngFile {
  import opened BitStream
  import opened Huffman
  import opened Deflate
  import opened InputContext
  import opened PngFilter
  import opened ZCompress
  import opened ZBuffer
  import opened ZlibRoundTrip
  import opened Wrappers

  const MAX_DIMENSIONS := 0x100_0000
  const IDAT_LIMIT := 0x4000_0000

  // ----- the writer's rows

  // The row stored `j`-th: from the bottom up when flipping.
  function RowIndex(j: nat, y: nat, flip: bool): nat
    requires j < y
  {
    if flip then y - 1 - j else j
  }

  function SignedStride(stride: nat, flip: bool): int { if flip then -(stride as int) else stride }

  ghost predicate HoldsImage(pixels: seq<byte>, stride: nat, w: nat, y: nat) {
    w <= stride && (y > 0 ==> stride * (y - 1) + w <= |pixels|)
  }

  lemma RowInside(stride: nat, i: nat, y: nat, w: nat)
    requires i < y
    ensures 0 <= stride * i && stride * i + w <= stride * (y - 1) + w
    ensures i > 0 ==> stride * i - stride == stride * (i - 1)
    ensures stride * i + stride == stride * (i + 1)
  {
    Commute(stride, i);
    Commute(stride, i + 1);
    Commute(stride, i - 1);
    Commute(stride, y - 1);
    Distribute(i, 1, stride);
    Distribute(i, -1, stride);
    Distribute(i, y - 1 - i, stride);
    MulNonNegative(y - 1 - i, stride);
    MulNonNegative(i, stride);
  }

  ghost function StoredRow(pixels: seq<byte>, stride: nat, w: nat, y: nat, flip: bool, j: nat): (row: seq<byte>)
    requires HoldsImage(pixels, stride, w, y) && j < y
    ensures |row| == w
  {
    RowInside(stride, RowIndex(j, y, flip), y, w);
    pixels[stride * RowIndex(j, y, flip)..stride * RowIndex(j, y, flip) + w]
  }

  ghost function StoredRows(pixels: seq<byte>, stride: nat, w: nat, y: nat, flip: bool): (rows: seq<seq<byte>>)
    requires HoldsImage(pixels, stride, w, y)
    ensures |rows| == y && IsImage(rows, w)
    ensures forall j :: 0 <= j < y ==> rows[j] == StoredRow(pixels, stride, w, y, flip, j)
  {
    seq(y, j requires 0 <= j < y => StoredRow(pixels, stride, w, y, flip, j))
  }

  // ----- filtering

  // `y` rows filtered with the forced filter, or each with the one whose magnitudes the search adds up to least.
  method FilterRows(pixels: seq<byte>, stride: nat, x: nat, y: nat, n: nat, forceFilter: int, flip: bool)
    returns (filt: seq<byte>, ghost types: seq<nat>)
    requires 0 < x && 0 < n && HoldsImage(pixels, stride, x * n, y) && forceFilter <= 4
    ensures |types| == y && IsTypes(types)
    ensures Picked(StoredRows(pixels, stride, x * n, y, flip), types, x * n, n, forceFilter)
    ensures filt == FilterImage(StoredRows(pixels, stride, x * n, y, flip), types, x * n, n, y)
  {
    hide FilterImage, StoredRows, FilterRow, Filtered, HoldsImage, StoredRow, Best, Picked, Unsigned;
    var w := x * n;
    RowFits(x, n);
    ghost var rows := StoredRows(pixels, stride, w, y, flip);
    filt, types := [], [];
    NoFilteredRows(rows, w, n, forceFilter);
    var lineBuffer := new int[w];
    for j := 0 to y
      invariant |types| == j && IsTypes(types) && filt == Filtered(rows, types, w, n, j)
      invariant Picked(rows, types, w, n, forceFilter)
    {
      var filterType;
      filterType := FilterOneRow(pixels, stride, w, y, n, j, forceFilter, flip, lineBuffer, rows[j], Above(rows, w, j));
      FilteredStep(rows, types, w, n, j, filterType, lineBuffer[..]);
      PickedStep(rows, types, w, n, filterType, forceFilter);
      types := types + [filterType];
      filt := filt + [filterType] + Unsigned(lineBuffer[..]);
    }
    AllFiltered(rows, types, w, n);
  }

  // How well a filter does: the sum of the magnitudes of its bytes, taken as signed.
  ghost function Cost(f: nat, row: seq<byte>, prior: seq<byte>, n: nat): nat
    requires |row| == |prior|
  {
    Magnitude(seq(|row|, k requires 0 <= k < |row| => SChar(FilterByte(f, row, prior, n, k))))
  }

  // The forced filter, or the first of those whose sums are least in 32 bits.
  ghost predicate Best(t: nat, row: seq<byte>, prior: seq<byte>, n: nat, forceFilter: int)
    requires |row| == |prior|
  {
    if forceFilter > -1 then t == forceFilter
    else forall f: nat :: f <= 4 ==>
      Sum32(f, row, prior, n) >= Sum32(t, row, prior, n) && (f < t ==> Sum32(f, row, prior, n) > Sum32(t, row, prior, n))
  }

  // The sum as the search has it.
  ghost function Sum32(f: nat, row: seq<byte>, prior: seq<byte>, n: nat): (v: int)
    requires |row| == |prior|
    ensures v <= 0x7fff_ffff
  {
    I32(Cost(f, row, prior, n))
  }

  ghost predicate Picked(rows: seq<seq<byte>>, types: seq<nat>, w: nat, n: nat, forceFilter: int)
    requires IsImage(rows, w) && |types| <= |rows|
  {
    forall j :: 0 <= j < |types| ==> Best(types[j], rows[j], Above(rows, w, j), n, forceFilter)
  }

  lemma AllFiltered(rows: seq<seq<byte>>, types: seq<nat>, w: nat, n: nat)
    requires IsImage(rows, w) && IsTypes(types) && |types| == |rows|
    ensures Filtered(rows, types, w, n, |rows|) == FilterImage(rows, types, w, n, |rows|)
  {
    assert rows[..|rows|] == rows;
  }

  // The first `j` rows, filtered.
  ghost function Filtered(rows: seq<seq<byte>>, types: seq<nat>, w: nat, n: nat, j: nat): seq<byte>
    requires IsImage(rows, w) && IsTypes(types) && |types| == j <= |rows|
  {
    FilterImage(rows[..j], types, w, n, j)
  }

  // `signed char` bytes as they are copied into `filt`.
  function Unsigned(line: seq<int>): (d: seq<byte>)
    ensures |d| == |line|
  {
    seq(|line|, k requires 0 <= k < |line| => line[k] % 256)
  }

  method FilterOneRow(pixels: seq<byte>, stride: nat, w: nat, y: nat, n: nat, j: nat, forceFilter: int, flip: bool,
                      lineBuffer: array<int>, ghost row: seq<byte>, ghost prior: seq<byte>) returns (filterType: nat)
    requires 0 < n <= w == lineBuffer.Length && j < y && HoldsImage(pixels, stride, w, y) && forceFilter <= 4
    requires row == StoredRow(pixels, stride, w, y, flip, j)
    requires prior == if j == 0 then Zero(w) else StoredRow(pixels, stride, w, y, flip, j - 1)
    modifies lineBuffer
    ensures filterType <= 4 && Unsigned(lineBuffer[..]) == FilterRow(filterType, row, prior, n)
    ensures Best(filterType, row, prior, n, forceFilter)
  {
    hide FilterByte, Sum32, FilterRow, LineAt, StoredRow, HoldsImage, Magnitude, Unsigned, SChar, I32;
    var z := stride * RowIndex(j, y, flip);
    var up := z - SignedStride(stride, flip);
    LineFits(pixels, stride, w, y, flip, j);
    if forceFilter > -1 {
      filterType := forceFilter;
      EncodePngLine(pixels, z, up, w, n, j, forceFilter, lineBuffer, row, prior);
    } else {
      var bestFilter, bestFilterVal: int := 0, 0x7fff_ffff;
      for f := 0 to 5
        invariant 0 <= bestFilter <= 4 && if f == 0 then bestFilter == 0 else bestFilter < f
        invariant bestFilterVal == if f == 0 then 0x7fff_ffff else Sum32(bestFilter, row, prior, n)
        invariant forall g: nat :: g < f ==> Sum32(g, row, prior, n) >= bestFilterVal
        invariant forall g: nat :: g < bestFilter ==> Sum32(g, row, prior, n) > Sum32(bestFilter, row, prior, n)
      {
        EncodePngLine(pixels, z, up, w, n, j, f, lineBuffer, row, prior);
        LineCost(lineBuffer[..], f, row, prior, n);
        var est := Estimate(lineBuffer[..]);
        if est < bestFilterVal {
          bestFilterVal := est;
          bestFilter := f;
        }
      }
      EncodePngLine(pixels, z, up, w, n, j, bestFilter, lineBuffer, row, prior);
      filterType := bestFilter;
    }
    LineIsRow(lineBuffer[..], filterType, row, prior, n);
  }

  lemma LineCost(line: seq<int>, f: nat, row: seq<byte>, prior: seq<byte>, n: nat)
    requires |line| == |row| == |prior| && forall k :: 0 <= k < |row| ==> line[k] == SChar(FilterByte(f, row, prior, n, k))
    ensures I32(Magnitude(line)) == Sum32(f, row, prior, n)
  {
    hide SChar, FilterByte, Magnitude, I32;
    assert line == seq(|row|, k requires 0 <= k < |row| => SChar(FilterByte(f, row, prior, n, k)));
  }

  // The sum of the magnitudes, in an `int`.
  method Estimate(line: seq<int>) returns (est: int)
    ensures est == I32(Magnitude(line))
  {
    hide I32;
    est := 0;
    SumStep(0, 0);
    for i := 0 to |line|
      invariant est == I32(Magnitude(line[..i]))
    {
      assert line[..i + 1][..i] == line[..i];
      SumStep(Magnitude(line[..i]), Abs(line[i]));
      est := I32(est + Abs(line[i]));
    }
    assert line[..|line|] == line;
  }

  lemma SumStep(a: nat, b: nat)
    ensures I32(0) == 0 && I32(I32(a) + b) == I32(a + b)
  {
  }

  ghost function Magnitude(line: seq<int>): nat {
    if line == [] then 0 else Magnitude(line[..|line| - 1]) + Abs(line[|line| - 1])
  }

  // ----- when the search finds the least sum

  // The first of the filters with the least sum.
  ghost predicate HasLeastSum(t: nat, row: seq<byte>, prior: seq<byte>, n: nat)
    requires |row| == |prior|
  {
    forall f: nat :: f <= 4 ==>
      Cost(f, row, prior, n) >= Cost(t, row, prior, n) && (f < t ==> Cost(f, row, prior, n) > Cost(t, row, prior, n))
  }

  // In rows of less than 2^24 bytes no sum leaves an `int`, and the filter is the first of those with the least sum.
  lemma SearchExact(t: nat, row: seq<byte>, prior: seq<byte>, n: nat)
    requires |row| == |prior| < 0x100_0000 && t <= 4
    ensures Best(t, row, prior, n, -1) <==> HasLeastSum(t, row, prior, n)
  {
    hide Cost;
    forall f: nat | f <= 4
      ensures Sum32(f, row, prior, n) == Cost(f, row, prior, n)
    {
      CostBound(f, row, prior, n);
    }
  }

  lemma CostBound(f: nat, row: seq<byte>, prior: seq<byte>, n: nat)
    requires |row| == |prior|
    ensures Cost(f, row, prior, n) <= 128 * |row|
  {
    hide FilterByte;
    MagnitudeBound(seq(|row|, k requires 0 <= k < |row| => SChar(FilterByte(f, row, prior, n, k))));
  }

  lemma {:induction false} MagnitudeBound(line: seq<int>)
    requires forall k :: 0 <= k < |line| ==> -128 <= line[k] <= 127
    ensures Magnitude(line) <= 128 * |line|
  {
    if line != [] { MagnitudeBound(line[..|line| - 1]); }
  }

  // A row that ends with 2^24 bytes of 128.
  function WideRow(w: nat): (row: seq<byte>)
    requires w >= 0x100_0000
    ensures |row| == w
  {
    seq(w, k => if k < w - 0x100_0000 then 0 else 128)
  }

  // From 2^24 bytes on there is a row whose sum without a filter comes to -2^31, so that it is left as it is whatever is
  // above it, although differences to the left add up to at most 512.
  lemma SearchFails(w: nat, prior: seq<byte>, n: nat, t: nat)
    requires w >= 0x100_0000 && |prior| == w && 1 <= n <= 4 && t <= 4
    ensures Best(t, WideRow(w), prior, n, -1) <==> t == 0
    ensures Cost(0, WideRow(w), prior, n) == 0x8000_0000 && Cost(1, WideRow(w), prior, n) <= 512
  {
    hide Cost;
    var row := WideRow(w);
    WideCosts(w, prior, n);
    assert Sum32(0, row, prior, n) == -0x8000_0000;
    forall f: nat
      ensures Sum32(f, row, prior, n) >= -0x8000_0000
    {
    }
    assert 0 <= 4 as nat;
  }

  lemma WideCosts(w: nat, prior: seq<byte>, n: nat)
    requires w >= 0x100_0000 && |prior| == w && 1 <= n <= 4
    ensures Cost(0, WideRow(w), prior, n) == 0x8000_0000 && Cost(1, WideRow(w), prior, n) == 128 * n
  {
    hide Magnitude;
    var row, z, m := WideRow(w), w - 0x100_0000, 0x100_0000;
    var plain := seq(w, k requires 0 <= k < w => SChar(FilterByte(0, row, prior, n, k)));
    var left := seq(w, k requires 0 <= k < w => SChar(FilterByte(1, row, prior, n, k)));
    assert plain == Repeat(0, z) + Repeat(-128, m);
    assert left == Repeat(0, z) + Repeat(-128, n) + Repeat(0, m - n);
    Equals(0, z);
    Equals(-128, m);
    Equals(-128, n);
    Equals(0, m - n);
    MagnitudeConcat(Repeat(0, z), Repeat(-128, m));
    MagnitudeConcat(Repeat(0, z), Repeat(-128, n));
    MagnitudeConcat(Repeat(0, z) + Repeat(-128, n), Repeat(0, m - n));
  }

  lemma {:induction false} Equals(v: int, n: nat)
    ensures Magnitude(Repeat(v, n)) == Abs(v) * n
  {
    if n > 0 {
      Equals(v, n - 1);
      assert Repeat(v, n)[..n - 1] == Repeat(v, n - 1);
    }
  }

  lemma {:induction false} MagnitudeConcat(a: seq<int>, b: seq<int>)
    ensures Magnitude(a + b) == Magnitude(a) + Magnitude(b)
  {
    if b == [] {
      assert a + b == a;
    } else {
      MagnitudeConcat(a, b[..|b| - 1]);
      assert (a + b)[..|a + b| - 1] == a + b[..|b| - 1];
    }
  }

  lemma LineFits(pixels: seq<byte>, stride: nat, w: nat, y: nat, flip: bool, j: nat)
    requires HoldsImage(pixels, stride, w, y) && j < y
    ensures var z := stride * RowIndex(j, y, flip);
            var prior := if j == 0 then Zero(w) else StoredRow(pixels, stride, w, y, flip, j - 1);
            LineAt(pixels, z, z - SignedStride(stride, flip), w, j == 0, StoredRow(pixels, stride, w, y, flip, j), prior)
  {
    RowInside(stride, RowIndex(j, y, flip), y, w);
    if j > 0 { RowInside(stride, RowIndex(j - 1, y, flip), y, w); }
  }

  lemma LineIsRow(line: seq<int>, f: nat, row: seq<byte>, prior: seq<byte>, n: nat)
    requires |line| == |row| == |prior| && forall k :: 0 <= k < |row| ==> line[k] == SChar(FilterByte(f, row, prior, n, k))
    ensures Unsigned(line) == FilterRow(f, row, prior, n)
  {
    forall k | 0 <= k < |row|
      ensures Unsigned(line)[k] == FilterRow(f, row, prior, n)[k]
    {
      SCharMod(FilterByte(f, row, prior, n, k));
    }
  }

  lemma NoFilteredRows(rows: seq<seq<byte>>, w: nat, n: nat, forceFilter: int)
    requires IsImage(rows, w)
    ensures Filtered(rows, [], w, n, 0) == [] && Picked(rows, [], w, n, forceFilter)
  {
  }

  lemma PickedStep(rows: seq<seq<byte>>, types: seq<nat>, w: nat, n: nat, f: nat, forceFilter: int)
    requires IsImage(rows, w) && |types| < |rows| && Picked(rows, types, w, n, forceFilter)
    requires Best(f, rows[|types|], Above(rows, w, |types|), n, forceFilter)
    ensures Picked(rows, types + [f], w, n, forceFilter)
  {
    hide Best, Above;
    forall j | 0 <= j <= |types|
      ensures Best((types + [f])[j], rows[j], Above(rows, w, j), n, forceFilter)
    {
    }
  }

  lemma FilteredStep(rows: seq<seq<byte>>, types: seq<nat>, w: nat, n: nat, j: nat, f: nat, line: seq<int>)
    requires IsImage(rows, w) && IsTypes(types) && |types| == j < |rows| && f <= 4
    requires Unsigned(line) == FilterRow(f, rows[j], Above(rows, w, j), n)
    ensures IsTypes(types + [f])
    ensures Filtered(rows, types + [f], w, n, j + 1) == Filtered(rows, types, w, n, j) + [f] + Unsigned(line)
  {
    var r, t := rows[..j + 1], types + [f];
    FilterPrefix(rows[..j], rows[j], types, f, w, n, j);
    assert r == rows[..j] + [rows[j]];
    assert Above(r, w, j) == Above(rows, w, j);
  }

  lemma {:induction false} FilterPrefix(rows: seq<seq<byte>>, row: seq<byte>, types: seq<nat>, f: nat, w: nat, n: nat, j: nat)
    requires IsImage(rows, w) && |row| == w && IsTypes(types) && |types| == |rows| && f <= 4 && j <= |rows|
    ensures FilterImage(rows + [row], types + [f], w, n, j) == FilterImage(rows, types, w, n, j)
  {
    hide FilterRow;
    if j > 0 {
      FilterPrefix(rows, row, types, f, w, n, j - 1);
      assert Above(rows + [row], w, j - 1) == Above(rows, w, j - 1);
    }
  }

  // ----- the file

  // Big-endian 32-bit numbers: `stbiw__wp32` and `stbi__get32be`.
  function Be32(v: nat): (d: seq<byte>)
    ensures |d| == 4
  {
    [v / 0x100_0000 % 256, v / 0x1_0000 % 256, v / 256 % 256, v % 256]
  }

  const SIGNATURE: seq<byte> := [137, 80, 78, 71, 13, 10, 26, 10]
  const IHDR: seq<byte> := [73, 72, 68, 82]
  const IDAT: seq<byte> := [73, 68, 65, 84]
  const IEND: seq<byte> := [73, 69, 78, 68]
  const IHDR_TYPE := 0x4948_4452
  const IDAT_TYPE := 0x4944_4154
  const IEND_TYPE := 0x4945_4E44
  const PLTE_TYPE := 0x504C_5445
  const TRNS_TYPE := 0x7452_4E53
  const CGBI_TYPE := 0x4367_4249

  function ColorType(n: nat): byte {
    match n case 1 => 0 case 2 => 4 case 3 => 2 case _ => 6
  }

  // `crc` stands for `stbiw__crc32`, whose value the loader never looks at.
  function Chunk(kind: seq<byte>, body: seq<byte>, crc: seq<byte> -> nat): seq<byte> {
    Be32(|body|) + kind + body + Be32(crc(kind + body))
  }

  function Header(x: nat, y: nat, n: nat): seq<byte> {
    Be32(x) + Be32(y) + [8, ColorType(n), 0, 0, 0]
  }

  function PngBytes(x: nat, y: nat, n: nat, zlib: seq<byte>, crc: seq<byte> -> nat): seq<byte> {
    SIGNATURE + Chunk(IHDR, Header(x, y, n), crc) + Chunk(IDAT, zlib, crc) + Chunk(IEND, [], crc)
  }

  lemma Be32RoundTrip(v: nat, a: seq<byte>, b: seq<byte>)
    requires v <= UINT_MAX
    ensures BeAt(a + Be32(v) + b, |a|) == v
  {
    var d := a + Be32(v) + b;
    assert d[|a|] == Be32(v)[0] && d[|a| + 1] == Be32(v)[1] && d[|a| + 2] == Be32(v)[2] && d[|a| + 3] == Be32(v)[3];
    Digits(v);
  }

  lemma Digits(v: nat)
    requires v <= UINT_MAX
    ensures v / 0x100_0000 % 256 * 0x100_0000 + v / 0x1_0000 % 256 * 0x1_0000 + v / 256 % 256 * 256 + v % 256 == v
  {
    assert v / 0x100_0000 == v / 256 / 256 / 256 && v / 0x1_0000 == v / 256 / 256;
  }

  lemma KindAt(kind: seq<byte>, a: seq<byte>, b: seq<byte>)
    requires |kind| == 4
    ensures BeAt(a + kind + b, |a|)
            == kind[0] as int * 0x100_0000 + kind[1] as int * 0x1_0000 + kind[2] as int * 256 + kind[3] as int
  {
    var d := a + kind + b;
    assert d[|a|] == kind[0] && d[|a| + 1] == kind[1] && d[|a| + 2] == kind[2] && d[|a| + 3] == kind[3];
  }

  // Where the loader finds things in a file of the writer.
  lemma HeaderLayout(x: nat, y: nat, n: nat, zlib: seq<byte>, crc: seq<byte> -> nat)
    requires x <= UINT_MAX && y <= UINT_MAX
    ensures var d := PngBytes(x, y, n, zlib, crc);
            && |d| == 57 + |zlib| && d[..8] == SIGNATURE
            && BeAt(d, 8) == 13 && BeAt(d, 12) == IHDR_TYPE && BeAt(d, 16) == x && BeAt(d, 20) == y
            && d[24..29] == [8, ColorType(n), 0, 0, 0]
  {
    hide BeAt, Be32;
    var s, c := SIGNATURE, Be32(crc(IHDR + Header(x, y, n)));
    var tail := [8, ColorType(n), 0, 0, 0] + c + Chunk(IDAT, zlib, crc) + Chunk(IEND, [], crc);
    var d := PngBytes(x, y, n, zlib, crc);
    assert d == s + (Be32(13) + IHDR + Be32(x) + Be32(y) + tail);
    Be32RoundTrip(13, s, IHDR + Be32(x) + Be32(y) + tail);
    assert d == s + Be32(13) + (IHDR + Be32(x) + Be32(y) + tail);
    KindAt(IHDR, s + Be32(13), Be32(x) + Be32(y) + tail);
    assert d == (s + Be32(13)) + IHDR + (Be32(x) + Be32(y) + tail);
    Be32RoundTrip(x, s + Be32(13) + IHDR, Be32(y) + tail);
    assert d == (s + Be32(13) + IHDR) + Be32(x) + (Be32(y) + tail);
    Be32RoundTrip(y, s + Be32(13) + IHDR + Be32(x), tail);
    assert d == (s + Be32(13) + IHDR + Be32(x)) + Be32(y) + tail;
  }

  lemma DataLayout(x: nat, y: nat, n: nat, zlib: seq<byte>, crc: seq<byte> -> nat)
    requires |zlib| <= UINT_MAX
    ensures var d := PngBytes(x, y, n, zlib, crc);
            && |d| == 57 + |zlib|
            && BeAt(d, 33) == |zlib| && BeAt(d, 37) == IDAT_TYPE && d[41..41 + |zlib|] == zlib
            && BeAt(d, 45 + |zlib|) == 0 && BeAt(d, 49 + |zlib|) == IEND_TYPE
  {
    hide BeAt, Be32;
    var h, c, e := SIGNATURE + Chunk(IHDR, Header(x, y, n), crc), Be32(crc(IDAT + zlib)), Be32(crc(IEND + []));
    var len := Be32(|zlib|);
    var d := PngBytes(x, y, n, zlib, crc);
    var tail := Be32(0) + IEND + e;
    assert |h| == 33;
    assert Chunk(IEND, [], crc) == tail;
    assert d == h + len + (IDAT + zlib + c + tail);
    Be32RoundTrip(|zlib|, h, IDAT + zlib + c + tail);
    assert d == (h + len) + IDAT + (zlib + c + tail);
    KindAt(IDAT, h + len, zlib + c + tail);
    assert d == (h + len + IDAT + zlib + c) + Be32(0) + (IEND + e);
    Be32RoundTrip(0, h + len + IDAT + zlib + c, IEND + e);
    assert d == (h + len + IDAT + zlib + c + Be32(0)) + IEND + e;
    KindAt(IEND, h + len + IDAT + zlib + c + Be32(0), e);
  }

  // ----- stbi_write_png_to_mem

  method WritePngToMem(pixels: seq<byte>, strideBytes: nat, x: nat, y: nat, n: nat, force: int, flip: bool, level: int,
                       crc: seq<byte> -> nat)
    returns (out: seq<byte>, ghost types: seq<nat>, ghost zlib: seq<byte>)
    requires 0 < x && 1 <= n <= 4
    requires HoldsImage(pixels, Stride(strideBytes, x, n), x * n, y)
    ensures out == PngBytes(x, y, n, zlib, crc) && |types| == y && IsTypes(types)
    ensures Picked(StoredRows(pixels, Stride(strideBytes, x, n), x * n, y, flip), types, x * n, n, if force >= 5 then -1 else force)
    ensures y > 0 ==>
      IsZlib(zlib, FilterImage(StoredRows(pixels, Stride(strideBytes, x, n), x * n, y, flip), types, x * n, n, y))
    ensures |zlib| <= y * (x * n + 1) + 6 + 5 * BlockCount(y * (x * n + 1))
  {
    hide FilterImage, StoredRows, IsZlib, BlockCount, HoldsImage, Picked;
    var forceFilter := if force >= 5 then -1 else force;
    var filt;
    filt, types := FilterRows(pixels, Stride(strideBytes, x, n), x, y, n, forceFilter, flip);
    var z := Compress(filt, level);
    if y > 0 { SomeBytes(y, x * n + 1); }
    zlib := z;
    out := SIGNATURE + Chunk(IHDR, Header(x, y, n), crc) + Chunk(IDAT, z, crc) + Chunk(IEND, [], crc);
  }

  function Stride(strideBytes: nat, x: nat, n: nat): nat { if strideBytes == 0 then x * n else strideBytes }

  lemma SomeBytes(y: nat, k: nat)
    requires y > 0 && k > 0
    ensures y * k > 0
  {
    MulGrows(y, k);
  }

  // ----- stbi__parse_png_file

  datatype Info = Info(x: nat, y: nat, depth: nat, color: nat, interlace: nat, n: nat)

  datatype LoadResult = Loaded(x: nat, y: nat, n: nat, pixels: seq<byte>) | Failed | Unmodelled

  // The parameters of a file of the writer.
  datatype File = File(x: nat, y: nat, n: nat, zlib: seq<byte>, crc: seq<byte> -> nat)

  ghost predicate IsFile(d: seq<byte>, f: File) {
    d == PngBytes(f.x, f.y, f.n, f.zlib, f.crc) && f.x <= UINT_MAX && f.y <= UINT_MAX && |f.zlib| <= UINT_MAX && 1 <= f.n <= 4
  }

  // The loader's limits on the size of an image.
  predicate Fits(x: nat, y: nat, n: nat) {
    0 < x <= MAX_DIMENSIONS && 0 < y <= MAX_DIMENSIONS && 0 < n && y <= 0x4000_0000 / x / n
  }

  lemma FitsBound(x: nat, y: nat, n: nat)
    requires Fits(x, y, n)
    ensures x * n * y <= 0x4000_0000
    ensures y * (x * n + 1) == x * n * y + y
  {
    var a := 0x4000_0000 / x;
    DivBound(0x4000_0000, x);
    DivBound(a, n);
    assert y * n <= a by {
      Distribute(y, a / n - y, n);
      MulNonNegative(a / n - y, n);
    }
    assert y * n * x <= a * x by {
      Distribute(y * n, a - y * n, x);
      MulNonNegative(a - y * n, x);
    }
    Associate(x, n, y);
    Commute(x * n, y);
    assert y * (x * n + 1) == y * (x * n) + y;
  }

  lemma DivBound(a: nat, m: nat)
    requires m > 0
    ensures a / m * m <= a
  {
    Commute(a / m, m);
  }

  lemma Associate(x: nat, n: nat, y: nat)
    ensures x * n * y == y * n * x
  {
  }

  // After the IHDR chunk's length and type: `None` is an error.
  method ReadHeader(s: Context, length: nat, ghost f: File) returns (r: Option<Info>)
    modifies s
    ensures r.Some? ==> Fits(r.value.x, r.value.y, r.value.n) || r.value.color == 3
    ensures s.at >= old(s.at)
    ensures IsFile(s.data, f) && old(s.at) == 16 && length == 13 ==>
      if Fits(f.x, f.y, f.n) then r == Some(Info(f.x, f.y, 8, ColorType(f.n), 0, f.n)) && s.at == 29 else r == None
  {
    hide BeAt, PngBytes;
    if IsFile(s.data, f) { HeaderLayout(f.x, f.y, f.n, f.zlib, f.crc); }
    ghost var d, p := s.data, s.at;
    r := None;
    if length != 13 { return; }
    var x := s.Get32be();
    var y := s.Get32be();
    if y > MAX_DIMENSIONS { return; }
    if x > MAX_DIMENSIONS { return; }
    assert IsFile(d, f) && p == 16 ==> s.at == 24 && d[24..29] == [8, ColorType(f.n), 0, 0, 0];
    var depth, color, comp, filter, interlace := FiveBytes(s);
    if depth != 1 && depth != 2 && depth != 4 && depth != 8 && depth != 16 { return; }
    if color > 6 { return; }
    if color == 3 && depth == 16 { return; }
    if color != 3 && color % 2 == 1 { return; }
    if comp != 0 { return; }
    if filter != 0 { return; }
    if interlace > 1 { return; }
    if x == 0 || y == 0 { return; }
    if color == 3 {
      if 0x4000_0000 / x / 4 < y { return; }
      r := Some(Info(x, y, depth, color, interlace, 1));
    } else {
      var n := (if color / 2 % 2 == 1 then 3 else 1) + (if color / 4 % 2 == 1 then 1 else 0);
      if 0x4000_0000 / x / n < y { return; }
      r := Some(Info(x, y, depth, color, interlace, n));
    }
  }

  method FiveBytes(s: Context) returns (a: byte, b: byte, c: byte, d: byte, e: byte)
    modifies s
    ensures old(s.at) + 5 <= |s.data| ==> s.at == old(s.at) + 5 && s.data[old(s.at)..old(s.at) + 5] == [a, b, c, d, e]
    ensures s.at >= old(s.at)
  {
    a := s.Get8();
    b := s.Get8();
    c := s.Get8();
    d := s.Get8();
    e := s.Get8();
  }

  // The IEND chunk: inflate, unfilter.
  method FinishImage(info: Info, idata: seq<byte>, ghost filt: seq<byte>) returns (r: LoadResult)
    requires Fits(info.x, info.y, info.n)
    ensures info.depth == 8 && info.interlace == 0 && IsZlib(idata, filt) && |filt| <= INT_MAX ==>
      var w := info.x * info.n;
      r == if Decodable(filt, w, info.y) then Loaded(info.x, info.y, info.n, Flat(UnfilterImage(filt, w, info.n, info.y), w, info.y))
           else Failed
  {
    hide IsZlib, Inflate, Reach, UnfilterImage, Flat, Decodable;
    if info.depth != 8 || info.interlace != 0 { return Unmodelled; }
    FitsBound(info.x, info.y, info.n);
    var bpl := (info.x * info.depth + 7) / 8;
    RawLength(info.x, info.y, info.n);
    var rawLen := bpl * info.y * info.n + info.y;
    var expanded := DecodeMalloc(idata, rawLen, true);
    if IsZlib(idata, filt) {
      ReachLarge(rawLen);
      ZlibInflates(idata, filt, Reach(rawLen));
    }
    if expanded == None { return Failed; }
    var ok, out := CreatePngImageRaw(expanded.value, info.x, info.y, info.n);
    if !ok { return Failed; }
    r := Loaded(info.x, info.y, info.n, out[..]);
  }

  lemma RawLength(x: nat, y: nat, n: nat)
    requires Fits(x, y, n)
    ensures (x * 8 + 7) / 8 == x && 0 < x * y * n + y <= UINT_MAX
  {
    FitsBound(x, y, n);
    Rotate(x, y, n);
    MulNonNegative(x * y, n);
  }

  lemma Rotate(x: nat, y: nat, n: nat)
    ensures x * y * n == x * n * y
  {
  }

  // What loading a file of the writer gives.
  ghost function Expected(f: File, filt: seq<byte>): LoadResult {
    var w := f.x * f.n;
    if Fits(f.x, f.y, f.n) && |f.zlib| <= IDAT_LIMIT && Decodable(filt, w, f.y)
    then Loaded(f.x, f.y, f.n, Flat(UnfilterImage(filt, w, f.n, f.y), w, f.y))
    else Failed
  }

  // How far the loader is in such a file after `k` chunks.
  ghost predicate InPhase(f: File, k: nat, at: nat, info: Option<Info>, idata: Option<seq<byte>>) {
    match k
    case 0 => at == 8 && info == None && idata == None
    case 1 => at == 33 && info == Some(Info(f.x, f.y, 8, ColorType(f.n), 0, f.n)) && Fits(f.x, f.y, f.n) && idata == None
    case 2 => at == 45 + |f.zlib| && info == Some(Info(f.x, f.y, 8, ColorType(f.n), 0, f.n)) && Fits(f.x, f.y, f.n) &&
              idata == Some(f.zlib) && |f.zlib| <= IDAT_LIMIT
    case _ => false
  }

  ghost predicate Facts(data: seq<byte>, f: File) {
    && |data| == 57 + |f.zlib| && data[..8] == SIGNATURE && f.zlib != []
    && BeAt(data, 8) == 13 && BeAt(data, 12) == IHDR_TYPE
    && BeAt(data, 33) == |f.zlib| && BeAt(data, 37) == IDAT_TYPE && data[41..41 + |f.zlib|] == f.zlib
    && BeAt(data, 45 + |f.zlib|) == 0 && BeAt(data, 49 + |f.zlib|) == IEND_TYPE
  }

  lemma FileFacts(data: seq<byte>, f: File, filt: seq<byte>)
    requires IsFile(data, f) && IsZlib(f.zlib, filt)
    ensures Facts(data, f)
  {
    hide PngBytes, BeAt;
    HeaderLayout(f.x, f.y, f.n, f.zlib, f.crc);
    DataLayout(f.x, f.y, f.n, f.zlib, f.crc);
  }

  method CheckSignature(s: Context) returns (ok: bool)
    requires s.at == 0
    modifies s
    ensures |s.data| >= 8 && s.data[..8] == SIGNATURE ==> ok && s.at == 8
  {
    ok := true;
    for i := 0 to 8
      invariant s.at <= |s.data| && (|s.data| >= 8 ==> s.at == i)
    {
      var b := s.Get8();
      if b != SIGNATURE[i] {
        ok := false;
        assert |s.data| >= 8 ==> s.data[..8][i] == b;
        return;
      }
    }
  }

  // An IDAT chunk: its bytes are added to those already read.
  method ReadData(s: Context, length: nat, idata: Option<seq<byte>>) returns (ok: bool, r: Option<seq<byte>>)
    modifies s
    ensures s.at >= old(s.at)
    ensures idata == None && 0 < length && old(s.at) + length <= |s.data| ==>
      if length <= IDAT_LIMIT then ok && r == Some(s.data[old(s.at)..old(s.at) + length]) && s.at == old(s.at) + length else !ok
  {
    ok, r := false, idata;
    var ioff := if idata.Some? then |idata.value| else 0;
    if length > IDAT_LIMIT { return; }
    if ioff + length >= 0x8000_0000 { return; }
    var bytes := s.Getn(length);
    if bytes == None { return; }
    ok := true;
    if length > 0 {
      assert [] + bytes.value == bytes.value;
      r := Some((if idata.Some? then idata.value else []) + bytes.value);
    }
  }

  // Any other chunk: skipped if it may be, otherwise the result of the load.
  method OtherChunk(s: Context, kind: nat, length: nat, first: bool) returns (stop: Option<LoadResult>)
    modifies s
    ensures s.at >= old(s.at) || s.at == |s.data|
    ensures kind == 0 ==> stop == Some(Failed)
  {
    if kind == CGBI_TYPE { return Some(Unmodelled); }
    if first { return Some(Failed); }
    if kind == PLTE_TYPE || kind == TRNS_TYPE { return Some(Unmodelled); }
    if kind / 0x2000_0000 % 2 == 0 { return Some(Failed); }
    s.Skip(if length >= 0x8000_0000 then length - 0x1_0000_0000 else length);
    stop := None;
  }

  method LoadPng(data: seq<byte>, ghost f: File, ghost filt: seq<byte>) returns (r: LoadResult)
    ensures IsFile(data, f) && IsZlib(f.zlib, filt) && |filt| <= INT_MAX ==> r == Expected(f, filt)
  {
    hide PngBytes, IsZlib, BeAt, Fits, IsFile, UnfilterImage, Flat, Decodable;
    ghost var ours := IsFile(data, f) && IsZlib(f.zlib, filt) && |filt| <= INT_MAX;
    if ours { FileFacts(data, f, filt); }
    var s := new Context(data);
    var signed := CheckSignature(s);
    if !signed { return Failed; }
    var info: Option<Info> := None;
    var idata: Option<seq<byte>> := None;
    ghost var k := 0;
    while true
      invariant s.data == data
      invariant info.Some? ==> Fits(info.value.x, info.value.y, info.value.n)
      invariant ours ==> InPhase(f, k, s.at, info, idata)
      decreases if s.at < |data| then |data| - s.at else 0
    {
      var length := s.Get32be();
      var kind := s.Get32be();
      if kind == IHDR_TYPE {
        if info.Some? { return Failed; }
        info := ReadHeader(s, length, f);
        if info == None { return Failed; }
        if info.value.color == 3 { return Unmodelled; }
      } else if kind == IDAT_TYPE {
        if info == None { return Failed; }
        var ok;
        ok, idata := ReadData(s, length, idata);
        if !ok { return Failed; }
      } else if kind == IEND_TYPE {
        if info == None { return Failed; }
        if idata == None { return Failed; }
        r := FinishImage(info.value, idata.value, filt);
        return;
      } else {
        var more := OtherChunk(s, kind, length, info == None);
        if more != None { return more.value; }
      }
      var _ := s.Get32be();
      k := k + 1;
    }
  }

  // ----- writing, then loading

  // Loading what the writer wrote gives back the image, row for row in the order they were stored, for every filter
  // choice, stride and compression level, exactly when the image is within the loader's limits.
  method RoundTrip(pixels: seq<byte>, strideBytes: nat, x: nat, y: nat, n: nat, force: int, flip: bool, level: int,
                   crc: seq<byte> -> nat)
    returns (file: seq<byte>, r: LoadResult)
    requires 0 < x <= INT_MAX && 0 < y <= INT_MAX && 1 <= n <= 4
    requires y * (x * n + 1) <= INT_MAX
    requires HoldsImage(pixels, Stride(strideBytes, x, n), x * n, y)
    ensures r == if Fits(x, y, n) && |file| <= IDAT_LIMIT + 57
                 then Loaded(x, y, n, Flat(StoredRows(pixels, Stride(strideBytes, x, n), x * n, y, flip), x * n, y))
                 else Failed
  {
    hide PngBytes, IsZlib, FilterImage, UnfilterImage, Flat, Decodable, StoredRows, HoldsImage, Fits;
    ghost var types, zlib;
    file, types, zlib := WritePngToMem(pixels, strideBytes, x, y, n, force, flip, level, crc);
    ghost var rows := StoredRows(pixels, Stride(strideBytes, x, n), x * n, y, flip);
    ghost var f := File(x, y, n, zlib, crc);
    FilteredDecodes(rows, types, x * n, n, []);
    assert FilterImage(rows, types, x * n, n, y) + [] == FilterImage(rows, types, x * n, n, y);
    ZlibFits(zlib, y * (x * n + 1));
    FileLength(f);
    r := LoadPng(file, f, FilterImage(rows, types, x * n, n, y));
  }

  lemma ZlibFits(zlib: seq<byte>, k: nat)
    requires k <= INT_MAX && |zlib| <= k + 6 + 5 * BlockCount(k)
    ensures |zlib| <= UINT_MAX
  {
  }

  lemma FileLength(f: File)
    requires |f.zlib| <= UINT_MAX
    ensures |PngBytes(f.x, f.y, f.n, f.zlib, f.crc)| == 57 + |f.zlib|
  {
    hide PngBytes, BeAt;
    DataLayout(f.x, f.y, f.n, f.zlib, f.crc);
  }
}
