// PNG row filters (PNG Specification, Second Edition, section 9.2): the writer's
// `stbiw__encode_png_line` and the loader's `stbi__create_png_image_raw` for 8-bit samples.

module PngFilter {
  import opened BitStream

  // ----- the filters as the specification defines them

  // `stbi__paeth` and `stbiw__paeth`
  function Paeth(a: int, b: int, c: int): int {
    var p := a + b - c;
    var pa, pb, pc := Abs(p - a), Abs(p - b), Abs(p - c);
    if pa <= pb && pa <= pc then a else if pb <= pc then b else c
  }

  // It is the neighbour nearest to a + b - c, and of equals the one to the left, then the one above.
  lemma PaethNearest(a: int, b: int, c: int)
    ensures var v, p := Paeth(a, b, c), a + b - c;
      v in {a, b, c} && Abs(p - v) <= Abs(p - a) && Abs(p - v) <= Abs(p - b) && Abs(p - v) <= Abs(p - c) &&
      (Abs(p - a) == Abs(p - v) ==> v == a) && (v != a && Abs(p - b) == Abs(p - v) ==> v == b)
  {
  }

  // Prediction from the bytes to the left, above, and above to the left.
  function Predict(f: nat, a: int, b: int, c: int): int {
    match f
    case 0 => 0
    case 1 => a
    case 2 => b
    case 3 => (a + b) / 2
    case _ => Paeth(a, b, c)
  }

  // The byte one pixel before position `k`; outside the image it is zero.
  ghost function Before(row: seq<byte>, bpp: nat, k: nat): byte
    requires k <= |row|
  {
    if k < bpp || bpp == 0 then 0 else row[k - bpp]
  }

  ghost function FilterByte(f: nat, row: seq<byte>, prior: seq<byte>, bpp: nat, k: nat): byte
    requires k < |row| == |prior|
  {
    (row[k] - Predict(f, Before(row, bpp, k), prior[k], Before(prior, bpp, k))) % 256
  }

  ghost function FilterRow(f: nat, row: seq<byte>, prior: seq<byte>, bpp: nat): (raw: seq<byte>)
    requires |row| == |prior|
    ensures |raw| == |row|
  {
    seq(|row|, k requires 0 <= k < |row| => FilterByte(f, row, prior, bpp, k))
  }

  ghost function UnfilterByte(f: nat, raw: byte, done: seq<byte>, prior: seq<byte>, bpp: nat): byte
    requires |done| < |prior|
  {
    (raw + Predict(f, Before(done, bpp, |done|), prior[|done|], Before(prior, bpp, |done|))) % 256
  }

  // The first `k` bytes of the row that `raw` stands for.
  ghost function UnfilterRow(f: nat, raw: seq<byte>, prior: seq<byte>, bpp: nat, k: nat): (row: seq<byte>)
    requires k <= |raw| == |prior|
    ensures |row| == k
  {
    if k == 0 then []
    else
      var done := UnfilterRow(f, raw, prior, bpp, k - 1);
      done + [UnfilterByte(f, raw[k - 1], done, prior, bpp)]
  }

  // Unfiltering undoes filtering, whatever the row above.
  lemma {:induction false} RowRoundTrip(f: nat, row: seq<byte>, prior: seq<byte>, bpp: nat, k: nat)
    requires k <= |row| == |prior|
    ensures UnfilterRow(f, FilterRow(f, row, prior, bpp), prior, bpp, k) == row[..k]
  {
    if k > 0 {
      RowRoundTrip(f, row, prior, bpp, k - 1);
      assert Before(row[..k - 1], bpp, k - 1) == Before(row, bpp, k - 1);
      SubtractAdd(row[k - 1], Predict(f, Before(row, bpp, k - 1), prior[k - 1], Before(prior, bpp, k - 1)));
      assert row[..k] == row[..k - 1] + [row[k - 1]];
    }
  }

  lemma SubtractAdd(x: byte, p: int)
    ensures ((x - p) % 256 + p) % 256 == x
  {
  }

  ghost function Zero(n: nat): (z: seq<byte>)
    ensures |z| == n
  {
    seq(n, i => 0)
  }

  // ----- whole images: one filter byte, then the filtered row, for each row

  ghost predicate IsImage(rows: seq<seq<byte>>, w: nat) {
    forall j :: 0 <= j < |rows| ==> |rows[j]| == w
  }

  ghost predicate IsTypes(types: seq<nat>) {
    forall j :: 0 <= j < |types| ==> types[j] <= 4
  }

  ghost function Above(rows: seq<seq<byte>>, w: nat, j: nat): (row: seq<byte>)
    requires j <= |rows| && IsImage(rows, w)
    ensures |row| == w
  {
    if j == 0 then Zero(w) else rows[j - 1]
  }

  ghost function FilterImage(rows: seq<seq<byte>>, types: seq<nat>, w: nat, bpp: nat, j: nat): (filt: seq<byte>)
    requires IsImage(rows, w) && IsTypes(types) && j <= |rows| == |types|
    ensures |filt| == j * (w + 1)
  {
    if j == 0 then []
    else
      assert j * (w + 1) == (j - 1) * (w + 1) + (w + 1);
      FilterImage(rows, types, w, bpp, j - 1) + [types[j - 1]] + FilterRow(types[j - 1], rows[j - 1], Above(rows, w, j - 1), bpp)
  }

  // Rows the raw data stands for, or nothing if it is short or names no filter.
  ghost function UnfilterImage(raw: seq<byte>, w: nat, bpp: nat, j: nat): (rows: seq<seq<byte>>)
    requires |raw| >= j * (w + 1)
    ensures |rows| == j && IsImage(rows, w)
  {
    if j == 0 then []
    else
      assert j * (w + 1) == (j - 1) * (w + 1) + (w + 1);
      var at := (j - 1) * (w + 1);
      var rows := UnfilterImage(raw, w, bpp, j - 1);
      rows + [UnfilterRow(raw[at], raw[at + 1..at + 1 + w], Above(rows, w, j - 1), bpp, w)]
  }

  lemma {:induction false} ImageRoundTrip(rows: seq<seq<byte>>, types: seq<nat>, w: nat, bpp: nat, j: nat, tail: seq<byte>)
    requires IsImage(rows, w) && IsTypes(types) && j <= |rows| == |types|
    ensures UnfilterImage(FilterImage(rows, types, w, bpp, j) + tail, w, bpp, j) == rows[..j]
  {
    hide FilterRow, UnfilterRow, UnfilterImage, Above;
    NoRowsYet(FilterImage(rows, types, w, bpp, 0) + tail, w, bpp);
    if j > 0 {
      var f, row, prior := types[j - 1], rows[j - 1], Above(rows, w, j - 1);
      var last := [f] + FilterRow(f, row, prior, bpp);
      var head := FilterImage(rows, types, w, bpp, j - 1);
      ImageRoundTrip(rows, types, w, bpp, j - 1, last + tail);
      var raw := FilterImage(rows, types, w, bpp, j) + tail;
      assert raw == head + (last + tail);
      UnfilterStep(head, f, FilterRow(f, row, prior, bpp), tail, w, bpp, j);
      RowRoundTrip(f, row, prior, bpp, w);
      LastRow(rows, w, j);
    }
  }

  lemma NoRowsYet(raw: seq<byte>, w: nat, bpp: nat)
    ensures UnfilterImage(raw, w, bpp, 0) == []
  {
  }

  lemma LastRow(rows: seq<seq<byte>>, w: nat, j: nat)
    requires IsImage(rows, w) && 0 < j <= |rows|
    ensures Above(rows[..j - 1], w, j - 1) == Above(rows, w, j - 1)
    ensures rows[j - 1][..w] == rows[j - 1] && rows[..j] == rows[..j - 1] + [rows[j - 1]]
  {
  }

  lemma UnfilterStep(head: seq<byte>, f: nat, line: seq<byte>, tail: seq<byte>, w: nat, bpp: nat, j: nat)
    requires j > 0 && |head| == (j - 1) * (w + 1) && f <= 4 && |line| == w
    ensures var raw := head + ([f] + line + tail);
            |raw| >= j * (w + 1) && |raw| >= (j - 1) * (w + 1) &&
            var rows := UnfilterImage(raw, w, bpp, j - 1);
            UnfilterImage(raw, w, bpp, j) == rows + [UnfilterRow(f, line, Above(rows, w, j - 1), bpp, w)]
  {
    hide UnfilterRow, Above;
    var raw := head + ([f] + line + tail);
    Distribute(j - 1, 1, w + 1);
    LineAfter(head, f, line, tail);
  }

  lemma LineAfter(head: seq<byte>, f: byte, line: seq<byte>, tail: seq<byte>)
    ensures var raw := head + ([f] + line + tail);
            raw[|head|] == f && raw[|head| + 1..|head| + 1 + |line|] == line
  {
  }

  // ----- stbiw__encode_png_line

  // Conversion to C's `signed char`.
  function SChar(v: int): int { (v + 128) % 256 - 128 }

  lemma SCharMod(v: int)
    ensures SChar(v) == SChar(v % 256) && SChar(v) % 256 == v % 256
  {
  }

  // The filter codes of writer and loader: 5 and 6 are average and Paeth for a row that has none above it.
  function RowKind(first: bool, f: nat): nat {
    if !first then f else match f case 2 => 0 case 3 => 5 case 4 => 6 case _ => f
  }

  // With zeros above, the special codes and `up` as `none` are the filters of the specification.
  lemma FirstRowPredict(f: nat, a: byte)
    requires f <= 4
    ensures Predict(f, a, 0, 0) == match RowKind(true, f) case 1 => a case 5 => a / 2 case 6 => Paeth(a, 0, 0) case _ => 0
    ensures Predict(f, 0, 0, 0) == 0
  {
  }

  // `row` and, unless this is the first row, `prior` are read from `pixels` at `z` and `up`.
  ghost predicate LineAt(pixels: seq<byte>, z: int, up: int, w: nat, first: bool, row: seq<byte>, prior: seq<byte>) {
    |row| == |prior| == w && 0 <= z && z + w <= |pixels| && row == pixels[z..z + w] &&
    if first then prior == Zero(w) else 0 <= up && up + w <= |pixels| && prior == pixels[up..up + w]
  }

  method EncodePngLine(pixels: seq<byte>, z: int, up: int, w: nat, n: nat, y: nat, filterType: nat, lineBuffer: array<int>,
                       ghost row: seq<byte>, ghost prior: seq<byte>)
    requires 0 < n <= w && lineBuffer.Length == w && filterType <= 4 && LineAt(pixels, z, up, w, y == 0, row, prior)
    modifies lineBuffer
    ensures forall k :: 0 <= k < w ==> lineBuffer[k] == SChar(FilterByte(filterType, row, prior, n, k))
  {
    hide SChar, FilterByte, Paeth;
    var kind := RowKind(y == 0, filterType);
    if kind == 0 {
      forall k | 0 <= k < w { lineBuffer[k] := SChar(pixels[z + k]); }
      forall k | 0 <= k < w
        ensures lineBuffer[k] == SChar(FilterByte(filterType, row, prior, n, k))
      {
        LineByteIs(pixels, z, up, w, n, y == 0, filterType, row, prior, k);
      }
      return;
    }
    for i := 0 to n
      invariant forall k :: 0 <= k < i ==> lineBuffer[k] == SChar(FilterByte(filterType, row, prior, n, k))
    {
      LineByteIs(pixels, z, up, w, n, y == 0, filterType, row, prior, i);
      match kind {
        case 2 => lineBuffer[i] := SChar(pixels[z + i] as int - pixels[up + i] as int);
        case 3 => lineBuffer[i] := SChar(pixels[z + i] as int - pixels[up + i] as int / 2);
        case 4 => lineBuffer[i] := SChar(pixels[z + i] - Paeth(0, pixels[up + i], 0));
        case _ => lineBuffer[i] := SChar(pixels[z + i]);
      }
    }
    for i := n to w
      invariant forall k :: 0 <= k < i ==> lineBuffer[k] == SChar(FilterByte(filterType, row, prior, n, k))
    {
      LineByteIs(pixels, z, up, w, n, y == 0, filterType, row, prior, i);
      match kind {
        case 1 => lineBuffer[i] := SChar(pixels[z + i] as int - pixels[z + i - n] as int);
        case 2 => lineBuffer[i] := SChar(pixels[z + i] as int - pixels[up + i] as int);
        case 3 => lineBuffer[i] := SChar(pixels[z + i] as int - (pixels[z + i - n] as int + pixels[up + i] as int) / 2);
        case 4 => lineBuffer[i] := SChar(pixels[z + i] - Paeth(pixels[z + i - n], pixels[up + i], pixels[up + i - n]));
        case 5 => lineBuffer[i] := SChar(pixels[z + i] as int - pixels[z + i - n] as int / 2);
        case _ => lineBuffer[i] := SChar(pixels[z + i] - Paeth(pixels[z + i - n], 0, 0));
      }
    }
  }

  // What each filter code subtracts, byte by byte.
  ghost function Subtracted(pixels: seq<byte>, z: int, up: int, n: nat, kind: nat, k: nat): int
    requires 0 <= z && z + k < |pixels| && (kind in {2, 3, 4} ==> 0 <= up && up + k < |pixels|)
  {
    var a: int := if k < n || n == 0 then 0 else pixels[z + k - n];
    match kind
    case 0 => 0
    case 1 => a
    case 2 => pixels[up + k]
    case 3 => (a + pixels[up + k]) / 2
    case 4 => Paeth(a, pixels[up + k], if k < n || n == 0 then 0 else pixels[up + k - n])
    case 5 => a / 2
    case _ => Paeth(a, 0, 0)
  }

  lemma LineByteIs(pixels: seq<byte>, z: int, up: int, w: nat, n: nat, first: bool, f: nat,
                                      row: seq<byte>, prior: seq<byte>, k: nat)
    requires 0 < n <= w && k < w && f <= 4 && LineAt(pixels, z, up, w, first, row, prior)
    ensures SChar(FilterByte(f, row, prior, n, k))
            == SChar(pixels[z + k] - Subtracted(pixels, z, up, n, RowKind(first, f), k))
    ensures Subtracted(pixels, z, up, n, 6, 0) == 0
    ensures k < n ==> Subtracted(pixels, z, up, n, 6, k) == 0
  {
    hide SChar, Paeth;
    SCharMod(pixels[z + k] - Subtracted(pixels, z, up, n, RowKind(first, f), k));
    FirstRowPredict(f, Before(row, n, k));
    PaethZero();
  }

  lemma PaethZero()
    ensures Paeth(0, 0, 0) == 0
  {
  }

  // ----- stbi__create_png_image_raw, 8-bit samples, as many output channels as the image has

  lemma UnfilterByteIs(img: seq<byte>, z: int, up: int, w: nat, n: nat, first: bool, f: nat,
                                          raw: byte, done: seq<byte>, prior: seq<byte>)
    requires 0 < n <= w && |done| < w == |prior| && f <= 4 && 0 <= z && z + w <= |img|
    requires img[z..z + |done|] == done
    requires if first then prior == Zero(w) else 0 <= up && up + w <= |img| && prior == img[up..up + w]
    ensures UnfilterByte(f, raw, done, prior, n) == (raw + Subtracted(img, z, up, n, RowKind(first, f), |done|)) % 256
    ensures |done| < n ==> Subtracted(img, z, up, n, 6, |done|) == 0
  {
    hide Paeth;
    FirstRowPredict(f, Before(done, n, |done|));
    PaethZero();
    if |done| >= n { assert done[|done| - n] == img[z + |done| - n]; }
  }

  lemma NextByte(f: nat, raw: seq<byte>, prior: seq<byte>, n: nat, k: nat)
    requires k < |raw| == |prior|
    ensures UnfilterRow(f, raw, prior, n, k + 1)
            == UnfilterRow(f, raw, prior, n, k) + [UnfilterByte(f, raw[k], UnfilterRow(f, raw, prior, n, k), prior, n)]
  {
  }

  // One row, decoded where it belongs in the output: at `cur`, below the row at `up`.
  method DecodeRow(out: array<byte>, cur: nat, up: int, raw: seq<byte>, w: nat, n: nat, first: bool, f: nat)
    requires 0 < n <= w == |raw| && cur + w <= out.Length && f <= 4 && (first || 0 <= up <= cur - w)
    modifies out
    ensures var prior := if first then Zero(w) else old(out[up..up + w]);
            out[cur..cur + w] == UnfilterRow(f, raw, prior, n, w)
    ensures out[..cur] == old(out[..cur]) && out[cur + w..] == old(out[cur + w..])
  {
    hide Paeth, UnfilterRow, UnfilterByte, Subtracted, Before;
    ghost var prior := if first then Zero(w) else out[up..up + w];
    var kind := RowKind(first, f);
    NoBytes(f, raw, prior, n);
    for k := 0 to n
      invariant out[cur..cur + k] == UnfilterRow(f, raw, prior, n, k)
      invariant out[..cur] == old(out[..cur]) && out[cur + w..] == old(out[cur + w..])
    {
      DecodeFirst(out, cur, up, raw, w, n, kind, k, first, f, prior);
      Untouched(out[..], old(out[..]), cur, up, w, first);
    }
    for k := n to w
      invariant out[cur..cur + k] == UnfilterRow(f, raw, prior, n, k)
      invariant out[..cur] == old(out[..cur]) && out[cur + w..] == old(out[cur + w..])
    {
      Untouched(out[..], old(out[..]), cur, up, w, first);
      DecodeNext(out, cur, up, raw, w, n, kind, k, first, f, prior);
    }
  }

  lemma Untouched(now: seq<byte>, was: seq<byte>, cur: nat, up: int, w: nat, first: bool)
    requires |now| == |was| && cur + w <= |now| && (first || 0 <= up <= cur - w) && now[..cur] == was[..cur]
    ensures !first ==> now[up..up + w] == was[up..up + w]
  {
    if !first { assert now[up..up + w] == now[..cur][up..up + w]; }
  }

  lemma NoBytes(f: nat, raw: seq<byte>, prior: seq<byte>, n: nat)
    requires |raw| == |prior|
    ensures UnfilterRow(f, raw, prior, n, 0) == []
  {
  }

  // A byte of the row's first pixel.
  method DecodeFirst(out: array<byte>, cur: nat, up: int, raw: seq<byte>, w: nat, n: nat, kind: nat, k: nat,
                     ghost first: bool, ghost f: nat, ghost prior: seq<byte>)
    requires 0 < n <= w == |raw| == |prior| && k < n && cur + w <= out.Length && f <= 4 && kind == RowKind(first, f)
    requires if first then prior == Zero(w) else 0 <= up <= cur - w && prior == out[up..up + w]
    requires out[cur..cur + k] == UnfilterRow(f, raw, prior, n, k)
    modifies out
    ensures out[cur..cur + k + 1] == UnfilterRow(f, raw, prior, n, k + 1) && out[..cur] == old(out[..cur])
    ensures out[cur + w..] == old(out[cur + w..])
  {
    hide Paeth, UnfilterRow, UnfilterByte, Before;
    UnfilterByteIs(out[..], cur, up, w, n, first, f, raw[k], out[cur..cur + k], prior);
    NextByte(f, raw, prior, n, k);
    match kind {
      case 2 => out[cur + k] := (raw[k] as int + out[up + k] as int) % 256;
      case 3 => out[cur + k] := (raw[k] as int + out[up + k] as int / 2) % 256;
      case 4 => out[cur + k] := (raw[k] as int + Paeth(0, out[up + k], 0)) % 256;
      case _ => out[cur + k] := raw[k];
    }
    assert out[cur..cur + k + 1] == old(out[cur..cur + k]) + [out[cur + k]];
  }

  // A byte of a later pixel.
  method DecodeNext(out: array<byte>, cur: nat, up: int, raw: seq<byte>, w: nat, n: nat, kind: nat, k: nat,
                    ghost first: bool, ghost f: nat, ghost prior: seq<byte>)
    requires 0 < n <= k < w == |raw| == |prior| && cur + w <= out.Length && f <= 4 && kind == RowKind(first, f)
    requires if first then prior == Zero(w) else 0 <= up <= cur - w && prior == out[up..up + w]
    requires out[cur..cur + k] == UnfilterRow(f, raw, prior, n, k)
    modifies out
    ensures out[cur..cur + k + 1] == UnfilterRow(f, raw, prior, n, k + 1) && out[..cur] == old(out[..cur])
    ensures out[cur + w..] == old(out[cur + w..])
  {
    hide Paeth, UnfilterRow, UnfilterByte, Before;
    UnfilterByteIs(out[..], cur, up, w, n, first, f, raw[k], out[cur..cur + k], prior);
    NextByte(f, raw, prior, n, k);
    var a: int := out[cur + k - n];
    match kind {
      case 0 => out[cur + k] := raw[k];
      case 1 => out[cur + k] := (raw[k] as int + a) % 256;
      case 2 => out[cur + k] := (raw[k] as int + out[up + k] as int) % 256;
      case 3 => out[cur + k] := (raw[k] as int + (out[up + k] as int + a) / 2) % 256;
      case 4 => out[cur + k] := (raw[k] as int + Paeth(a, out[up + k], out[up + k - n])) % 256;
      case 5 => out[cur + k] := (raw[k] as int + a / 2) % 256;
      case _ => out[cur + k] := (raw[k] as int + Paeth(a, 0, 0)) % 256;
    }
    assert out[cur..cur + k + 1] == old(out[cur..cur + k]) + [out[cur + k]];
  }

  ghost function Flat(rows: seq<seq<byte>>, w: nat, j: nat): (d: seq<byte>)
    requires IsImage(rows, w) && j <= |rows|
    ensures |d| == j * w
  {
    if j == 0 then [] else Distribute(j - 1, 1, w); Flat(rows, w, j - 1) + rows[j - 1]
  }

  // Is there enough data, and does every row name a filter?
  ghost predicate Decodable(raw: seq<byte>, w: nat, y: nat) {
    |raw| >= y * (w + 1) && forall j :: 0 <= j < y ==> RowFilter(raw, w, j) <= 4
  }

  function RowFilter(raw: seq<byte>, w: nat, j: nat): byte {
    if j * (w + 1) < |raw| then raw[j * (w + 1)] else 0
  }

  // Where row `j` starts in the filtered and in the decoded data, which have room for `y` rows.
  ghost predicate RowAt(j: nat, at: nat, cur: nat, w: nat, y: nat, rawSize: nat, outSize: nat) {
    j <= y && at == j * (w + 1) && cur == j * w && rawSize >= y * (w + 1) && outSize == y * w
  }

  lemma NextRow(j: nat, at: nat, cur: nat, w: nat, y: nat, rawSize: nat, outSize: nat)
    requires RowAt(j, at, cur, w, y, rawSize, outSize)
    ensures if j == y then cur == outSize else
      at + 1 + w <= rawSize && cur + w <= outSize && RowAt(j + 1, at + 1 + w, cur + w, w, y, rawSize, outSize)
  {
    if j < y { Bounds(j, y, w); }
  }

  method CreatePngImageRaw(raw: seq<byte>, x: nat, y: nat, n: nat) returns (ok: bool, out: array<byte>)
    requires 0 < x && 0 < n
    ensures fresh(out) && (ok <==> Decodable(raw, x * n, y))
    ensures ok ==> out[..] == Flat(UnfilterImage(raw, x * n, n, y), x * n, y)
  {
    var w := x * n;
    ok := false;
    out := new byte[y * w];
    if |raw| < (w + 1) * y { return; }
    RowFits(x, n);
    ok := DecodeRows(out, raw, w, y, n);
  }

  method DecodeRows(out: array<byte>, raw: seq<byte>, w: nat, y: nat, n: nat) returns (ok: bool)
    requires 0 < n <= w && RowAt(0, 0, 0, w, y, |raw|, out.Length)
    modifies out
    ensures ok <==> Decodable(raw, w, y)
    ensures ok ==> out[..] == Flat(UnfilterImage(raw, w, n, y), w, y)
  {
    hide UnfilterImage, Flat, UnfilterRow, RowFilter, RowAt, Decodable;
    NoRows(raw, w, n);
    DecodableIs(raw, w, y, out.Length);
    var at, cur := 0, 0;
    for j := 0 to y
      invariant RowAt(j, at, cur, w, y, |raw|, out.Length) && |raw| >= j * (w + 1)
      invariant forall i :: 0 <= i < j ==> RowFilter(raw, w, i) <= 4
      invariant cur <= out.Length && out[..cur] == Flat(UnfilterImage(raw, w, n, j), w, j)
    {
      NextRow(j, at, cur, w, y, |raw|, out.Length);
      var filter := raw[at];
      RowFilterIs(raw, w, j, at, cur, y, out.Length);
      if filter > 4 { return false; }
      DecodeOne(out, raw, at, cur, w, n, j, y);
      RowFitsIn(j + 1, at + 1 + w, cur + w, w, y, |raw|, out.Length);
      at := at + 1 + w;
      cur := cur + w;
    }
    NextRow(y, at, cur, w, y, |raw|, out.Length);
    assert out[..] == out[..cur];
    ok := true;
  }

  lemma RowFitsIn(j: nat, at: nat, cur: nat, w: nat, y: nat, rawSize: nat, outSize: nat)
    requires RowAt(j, at, cur, w, y, rawSize, outSize)
    ensures j * (w + 1) <= rawSize
  {
    if j < y { Bounds(j, y, w); }
  }

  lemma DecodableIs(raw: seq<byte>, w: nat, y: nat, outSize: nat)
    requires RowAt(0, 0, 0, w, y, |raw|, outSize)
    ensures Decodable(raw, w, y) <==> forall j :: 0 <= j < y ==> RowFilter(raw, w, j) <= 4
  {
    hide RowFilter;
  }

  lemma RowFilterIs(raw: seq<byte>, w: nat, j: nat, at: nat, cur: nat, y: nat, outSize: nat)
    requires RowAt(j, at, cur, w, y, |raw|, outSize) && at < |raw|
    ensures RowFilter(raw, w, j) == raw[at]
  {
  }

  // Row `j`, from its filter byte on.
  method DecodeOne(out: array<byte>, raw: seq<byte>, at: nat, cur: nat, w: nat, n: nat, j: nat, ghost y: nat)
    requires 0 < n <= w && RowAt(j, at, cur, w, y, |raw|, out.Length) && at + 1 + w <= |raw| && cur + w <= out.Length
    requires raw[at] <= 4 && out[..cur] == Flat(UnfilterImage(raw, w, n, j), w, j)
    modifies out
    ensures out[..cur + w] == Flat(UnfilterImage(raw, w, n, j + 1), w, j + 1)
  {
    hide UnfilterImage, Flat, UnfilterRow;
    Distribute(j, 1, w + 1);
    RowStep(raw, w, n, j, out[..cur]);
    DecodeRow(out, cur, cur - w, raw[at + 1..at + 1 + w], w, n, j == 0, raw[at]);
    assert out[..cur + w] == out[..cur] + out[cur..cur + w];
  }

  lemma RowFits(x: nat, n: nat)
    requires 0 < x
    ensures n <= x * n
  {
    Distribute(x - 1, 1, n);
    MulNonNegative(x - 1, n);
  }

  lemma Bounds(j: nat, y: nat, w: nat)
    requires j < y
    ensures j * (w + 1) + 1 + w <= y * (w + 1) == (w + 1) * y && j * w + w <= y * w
    ensures (j + 1) * (w + 1) == j * (w + 1) + 1 + w && (j + 1) * w == j * w + w
  {
    Distribute(j, 1, w + 1);
    Distribute(j, 1, w);
    Distribute(j + 1, y - j - 1, w + 1);
    Distribute(j + 1, y - j - 1, w);
    MulNonNegative(y - j - 1, w + 1);
    MulNonNegative(y - j - 1, w);
  }

  lemma NoRows(raw: seq<byte>, w: nat, n: nat)
    ensures Flat(UnfilterImage(raw, w, n, 0), w, 0) == []
  {
  }

  lemma RowStep(raw: seq<byte>, w: nat, n: nat, j: nat, done: seq<byte>)
    requires |raw| >= (j + 1) * (w + 1) && |raw| >= j * (w + 1) && |raw| >= j * (w + 1) + 1 + w
    requires done == Flat(UnfilterImage(raw, w, n, j), w, j) && raw[j * (w + 1)] <= 4
    ensures |done| == j * w && (j > 0 ==> |done| >= w)
    ensures var at, prior := j * (w + 1), if j == 0 then Zero(w) else done[|done| - w..];
            Flat(UnfilterImage(raw, w, n, j + 1), w, j + 1)
            == done + UnfilterRow(raw[at], raw[at + 1..at + 1 + w], prior, n, w)
  {
    hide UnfilterRow;
    var rows := UnfilterImage(raw, w, n, j);
    var row := UnfilterRow(raw[j * (w + 1)], raw[j * (w + 1) + 1..j * (w + 1) + 1 + w], Above(rows, w, j), n, w);
    assert UnfilterImage(raw, w, n, j + 1) == rows + [row];
    FlatPrefix(rows, [row], w, j);
    assert Flat(rows + [row], w, j + 1) == Flat(rows + [row], w, j) + row;
    if j > 0 {
      Distribute(j - 1, 1, w);
      MulNonNegative(j - 1, w);
      assert done == Flat(rows, w, j - 1) + rows[j - 1];
    }
  }

  lemma {:induction false} FlatPrefix(rows: seq<seq<byte>>, more: seq<seq<byte>>, w: nat, j: nat)
    requires IsImage(rows + more, w) && IsImage(rows, w) && j <= |rows|
    ensures Flat(rows + more, w, j) == Flat(rows, w, j)
  {
    if j > 0 { FlatPrefix(rows, more, w, j - 1); }
  }

  // Filtered rows, whatever follows them, decode to the rows.
  lemma FilteredDecodes(rows: seq<seq<byte>>, types: seq<nat>, w: nat, n: nat, tail: seq<byte>)
    requires IsImage(rows, w) && IsTypes(types) && |rows| == |types|
    ensures var filt := FilterImage(rows, types, w, n, |rows|) + tail;
            Decodable(filt, w, |rows|) && UnfilterImage(filt, w, n, |rows|) == rows
  {
    hide UnfilterImage;
    var filt := FilterImage(rows, types, w, n, |rows|);
    assert rows[..|rows|] == rows;
    ImageRoundTrip(rows, types, w, n, |rows|, tail);
    forall j | 0 <= j < |rows|
      ensures RowFilter(filt + tail, w, j) <= 4
    {
      Bounds(j, |rows|, w);
      FilterByteAt(rows, types, w, n, |rows|, j);
    }
  }

  lemma {:induction false} FilterByteAt(rows: seq<seq<byte>>, types: seq<nat>, w: nat, n: nat, m: nat, j: nat)
    requires IsImage(rows, w) && IsTypes(types) && j < m <= |rows| == |types|
    ensures RowFilter(FilterImage(rows, types, w, n, m), w, j) == types[j]
    decreases m
  {
    hide FilterRow;
    Bounds(j, m, w);
    Bounds(m - 1, m, w);
    if j < m - 1 {
      FilterByteAt(rows, types, w, n, m - 1, j);
      Bounds(j, m - 1, w);
    }
  }
}
