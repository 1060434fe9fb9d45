// The GIF frame cursor: where `stbi__out_gif_code` puts each pixel, interlaced or not.

module GifRaster {
  import opened BitStream

  // Four bytes: as a colour table entry (blue, green, red, alpha), as a pixel of the image (red, green, blue, alpha).
  datatype Quad = Quad(c0: byte, c1: byte, c2: byte, c3: byte)

  // ----- the order of rows

  // GIF89a Appendix E: every eighth row from 0, every eighth from 4, every fourth from 2, every second from 1.
  function PassOf(r: nat): nat {
    if r % 8 == 0 then 0 else if r % 8 == 4 then 1 else if r % 8 == 2 || r % 8 == 6 then 2 else 3
  }

  // Row spacing and first row of a pass.
  function Spacing(pass: nat): nat { match pass case 0 => 8 case 1 => 8 case 2 => 4 case _ => 2 }

  function FirstRow(pass: nat): nat { match pass case 0 => 0 case 1 => 4 case 2 => 2 case _ => 1 }

  lemma Shift(r: nat, d: nat)
    requires d <= 8
    ensures (r + d) % 8 == if r % 8 + d < 8 then r % 8 + d else r % 8 + d - 8
  {
  }

  // The next row of the same pass is one spacing on, and none between belongs to it.
  lemma SamePass(r: nat, q: nat)
    requires r < q <= r + Spacing(PassOf(r))
    ensures PassOf(q) == PassOf(r) <==> q == r + Spacing(PassOf(r))
  {
    Shift(r, q - r);
  }

  lemma PassStart(r: nat)
    ensures FirstRow(PassOf(r)) <= r
    ensures forall pass :: 0 <= pass <= 3 ==> PassOf(FirstRow(pass)) == pass
  {
  }

  // A rectangle of `w` by `h` pixels at (`x0`, `y0`) in an image of `imageW` by `imageH`.
  datatype Frame = Frame(x0: nat, y0: nat, w: nat, h: nat, imageW: nat, imageH: nat, interlaced: bool)

  ghost predicate IsFrame(f: Frame) { f.x0 + f.w <= f.imageW && f.y0 + f.h <= f.imageH }

  // Pixel (x, r) of the rectangle comes before the cursor at (cx, cr) of pass `pass`.
  ghost predicate Before(f: Frame, x: nat, r: nat, cx: nat, cr: nat, pass: nat) {
    if f.interlaced && PassOf(r) != pass then PassOf(r) < pass
    else r < cr || (r == cr && x < cx)
  }

  // Index of pixel (x, r) in the image.
  function Index(f: Frame, x: nat, r: nat): nat { (f.y0 + r) * f.imageW + (f.x0 + x) }

  lemma IndexInside(f: Frame, x: nat, r: nat)
    requires IsFrame(f) && x < f.w && r < f.h
    ensures Index(f, x, r) < f.imageW * f.imageH
  {
    Distribute(f.y0 + r + 1, f.imageH - (f.y0 + r + 1), f.imageW);
    MulNonNegative(f.imageH - (f.y0 + r + 1), f.imageW);
    Distribute(f.y0 + r, 1, f.imageW);
    Commute(f.imageH, f.imageW);
  }

  lemma IndexInjective(f: Frame, x: nat, r: nat, x': nat, r': nat)
    requires IsFrame(f) && x < f.w && x' < f.w && Index(f, x, r) == Index(f, x', r')
    ensures x == x' && r == r'
  {
    DivModUnique(Index(f, x, r), f.imageW, f.y0 + r, f.x0 + x);
    DivModUnique(Index(f, x', r'), f.imageW, f.y0 + r', f.x0 + x');
  }

  // ----- how the cursor moves through that order

  lemma NextPixel(f: Frame, x: nat, r: nat, cx: nat, cr: nat, pass: nat)
    requires f.interlaced ==> PassOf(cr) == pass
    ensures Before(f, x, r, cx + 1, cr, pass) <==> Before(f, x, r, cx, cr, pass) || (x == cx && r == cr)
  {
  }

  lemma NextRow(f: Frame, x: nat, r: nat, cx: nat, cr: nat, pass: nat)
    requires x < f.w && cx + 1 == f.w && (f.interlaced ==> PassOf(cr) == pass)
    ensures Before(f, x, r, 0, cr + (if f.interlaced then Spacing(pass) else 1), pass)
            <==> Before(f, x, r, cx, cr, pass) || (x == cx && r == cr)
  {
    hide PassOf, Spacing;
    if f.interlaced && cr < r <= cr + Spacing(pass) { SamePass(cr, r); }
    if f.interlaced { SpacingPositive(pass); }
  }

  lemma SpacingPositive(pass: nat)
    ensures 2 <= Spacing(pass) <= 8 && Spacing(pass) % 2 == 0
  {
  }

  // A pass that has run past the last row is the next pass at its first row.
  lemma NextPass(f: Frame, x: nat, r: nat, cr: nat, pass: nat)
    requires f.interlaced && pass < 3 && r < f.h <= cr
    ensures Before(f, x, r, 0, cr, pass) <==> Before(f, x, r, 0, FirstRow(pass + 1), pass + 1)
  {
    PassStart(r);
  }

  // ----- the number of a pixel in the data

  // The rows of the passes before `pass`: an eighth, a quarter, half of them, rounded up.
  function RowsBefore(h: nat, pass: nat): nat {
    match pass case 0 => 0 case 1 => (h + 7) / 8 case 2 => (h + 3) / 4 case 3 => (h + 1) / 2 case _ => h
  }

  function RankIn(h: nat, pass: nat, r: nat): nat
  {
    RowsBefore(h, pass) + r / Spacing(pass)
  }

  // How many rows of the data come before row `r`.
  function Rank(f: Frame, r: nat): nat {
    if !f.interlaced then r
    else if r % 8 == 0 then r / 8
    else if r % 8 == 4 then (f.h + 7) / 8 + r / 8
    else if r % 4 == 2 then (f.h + 3) / 4 + r / 4
    else (f.h + 1) / 2 + r / 2
  }

  // The place of pixel (x, r) in the data.
  function Number(f: Frame, x: nat, r: nat): nat { Rank(f, r) * f.w + x }

  // The pass of a row and its place in it, by the row's quotient and rest.
  function PassOfRest(m: nat): nat { if m == 0 then 0 else if m == 4 then 1 else if m % 2 == 0 then 2 else 3 }

  function PlaceIn(q: nat, m: nat): nat { if m % 4 == 0 then q else if m % 2 == 0 then 2 * q + m / 4 else 4 * q + m / 2 }

  lemma PassParts(r: nat, q: nat, m: nat)
    requires r == 8 * q + m && m < 8
    ensures PassOf(r) == PassOfRest(m) && r / Spacing(PassOfRest(m)) == PlaceIn(q, m)
    ensures r == PlaceIn(q, m) * Spacing(PassOfRest(m)) + FirstRow(PassOfRest(m))
  {
    assert r % 8 == m && r / 8 == q && r / 4 == 2 * q + m / 4 && r / 2 == 4 * q + m / 2;
  }

  lemma RowParts(f: Frame, r: nat, q: nat, m: nat)
    requires r == 8 * q + m && m < 8 && f.interlaced
    ensures PassOf(r) == PassOfRest(m) && Rank(f, r) == RowsBefore(f.h, PassOfRest(m)) + PlaceIn(q, m)
    ensures r / Spacing(PassOfRest(m)) == PlaceIn(q, m)
  {
    assert r % 8 == m && r / 8 == q && r % 4 == m % 4 && r / 4 == 2 * q + m / 4 && r / 2 == 4 * q + m / 2;
    PassParts(r, q, m);
  }

  lemma RankByPass(f: Frame, r: nat)
    ensures f.interlaced ==> Rank(f, r) == RankIn(f.h, PassOf(r), r)
    ensures r < f.h ==> Rank(f, r) < f.h
    ensures f.interlaced && r < f.h ==> RowsBefore(f.h, PassOf(r)) <= Rank(f, r) < RowsBefore(f.h, PassOf(r) + 1)
  {
    if f.interlaced {
      hide Rank, PassOf, RowsBefore, PlaceIn, Spacing;
      RowParts(f, r, r / 8, r % 8);
      if r < f.h { InPass(f.h, r, r / 8, r % 8); }
    } else {
      hide PassOf, RowsBefore, RankIn;
    }
  }

  lemma InPass(h: nat, r: nat, q: nat, m: nat)
    requires r == 8 * q + m && m < 8 && r < h
    ensures RowsBefore(h, PassOfRest(m)) + PlaceIn(q, m) < RowsBefore(h, PassOfRest(m) + 1) <= h
  {
    if m % 4 == 0 {
    } else if m % 2 == 0 {
    } else {
    }
  }

  lemma NextPlace(q: nat, m: nat)
    requires m < 8
    ensures var s := m + Spacing(PassOfRest(m));
      if s < 8 then PassOfRest(s) == PassOfRest(m) && PlaceIn(q, s) == PlaceIn(q, m) + 1
      else s - 8 < 8 && PassOfRest(s - 8) == PassOfRest(m) && PlaceIn(q + 1, s - 8) == PlaceIn(q, m) + 1
  {
  }

  lemma RankNext(f: Frame, r: nat)
    ensures Rank(f, r + if f.interlaced then Spacing(PassOf(r)) else 1) == Rank(f, r) + 1
  {
    if f.interlaced {
      hide *;
      assert r == 8 * (r / 8) + r % 8;
      NextIn(f, r, r / 8, r % 8);
    }
  }

  lemma NextIn(f: Frame, r: nat, q: nat, m: nat)
    requires f.interlaced && r == 8 * q + m && m < 8
    ensures Rank(f, r + Spacing(PassOf(r))) == Rank(f, r) + 1
  {
    hide *;
    RowParts(f, r, q, m);
    NextPlace(q, m);
    var d := Spacing(PassOfRest(m));
    if m + d < 8 { RowParts(f, r + d, q, m + d); } else { RowParts(f, r + d, q + 1, m + d - 8); }
  }

  // Past the last row of a pass the next one begins, and after the last pass all rows were there.
  lemma RankPast(f: Frame, r: nat, pass: nat)
    requires f.interlaced && pass == PassOf(r) && f.h <= r < f.h + Spacing(pass)
    ensures Rank(f, r) == if pass < 3 then Rank(f, FirstRow(pass + 1)) else f.h
  {
    hide Rank, PassOf;
    var q, m := r / 8, r % 8;
    RowParts(f, r, q, m);
    RowParts(f, 4, 0, 4);
    RowParts(f, 2, 0, 2);
    RowParts(f, 1, 0, 1);
    if m % 4 == 0 { Eighths(f.h, r, q, m); } else if m % 2 == 0 { Quarters(f.h, r, q, m); } else { Halves(f.h, r, q, m); }
  }

  lemma Eighths(h: nat, r: nat, q: nat, m: nat)
    requires r == 8 * q + m && m in {0, 4} && h <= r < h + 8
    ensures if m == 0 then q == (h + 7) / 8 else (h + 7) / 8 + q == (h + 3) / 4
  {
  }

  lemma Quarters(h: nat, r: nat, q: nat, m: nat)
    requires r == 8 * q + m && m in {2, 6} && h <= r < h + 4
    ensures (h + 3) / 4 + (2 * q + m / 4) == (h + 1) / 2
  {
  }

  lemma Halves(h: nat, r: nat, q: nat, m: nat)
    requires r == 8 * q + m && m in {1, 3, 5, 7} && h <= r < h + 2
    ensures (h + 1) / 2 + (4 * q + m / 2) == h
  {
  }

  lemma RankInjective(f: Frame, r: nat, r': nat)
    requires r < f.h && r' < f.h && Rank(f, r) == Rank(f, r')
    ensures r == r'
  {
    RankByPass(f, r);
    RankByPass(f, r');
    if f.interlaced {
      Ascending(f.h);
      if PassOf(r) == PassOf(r') { SameRank(r, r'); }
    }
  }

  lemma Ascending(h: nat)
    ensures RowsBefore(h, 0) <= RowsBefore(h, 1) <= RowsBefore(h, 2) <= RowsBefore(h, 3) <= RowsBefore(h, 4)
  {
  }

  lemma SameRank(r: nat, r': nat)
    requires PassOf(r) == PassOf(r') && r / Spacing(PassOf(r)) == r' / Spacing(PassOf(r))
    ensures r == r'
  {
    Residue(r);
    Residue(r');
    hide PassOf;
  }

  // The rest of a row number follows from its pass.
  lemma Residue(r: nat)
    ensures PassOf(r) < 4 && r == r / Spacing(PassOf(r)) * Spacing(PassOf(r)) + FirstRow(PassOf(r))
  {
    hide PassOf, Spacing, FirstRow, PlaceIn;
    PassParts(r, r / 8, r % 8);
  }

  lemma NumberInjective(f: Frame, x: nat, r: nat, x': nat, r': nat)
    requires x < f.w && x' < f.w && r < f.h && r' < f.h && Number(f, x, r) == Number(f, x', r')
    ensures x == x' && r == r'
  {
    hide Rank;
    DivModUnique(Number(f, x, r), f.w, Rank(f, r), x);
    DivModUnique(Number(f, x', r'), f.w, Rank(f, r'), x');
    RankInjective(f, r, r');
  }

  lemma NumberBound(f: Frame, x: nat, r: nat)
    requires x < f.w && r < f.h
    ensures Number(f, x, r) < f.w * f.h
  {
    RankByPass(f, r);
    hide Rank;
    var k := Rank(f, r);
    Distribute(k + 1, f.h - k - 1, f.w);
    Distribute(k, 1, f.w);
    MulNonNegative(f.h - k - 1, f.w);
    Commute(f.h, f.w);
  }

  // ----- what drawing does to the image

  // Palette index `c` drawn over `was`: nearly transparent colours leave it alone.
  function Shade(table: seq<Quad>, was: Quad, c: byte): Quad
    requires |table| == 256
  {
    var q := table[c];
    if q.c3 > 128 then Quad(q.c2, q.c1, q.c0, q.c3) else was
  }

  ghost predicate InFrame(f: Frame, trail: seq<(nat, nat)>) {
    forall k :: 0 <= k < |trail| ==> trail[k].0 < f.w && trail[k].1 < f.h
  }

  ghost predicate Distinct(trail: seq<(nat, nat)>) {
    forall k, l :: 0 <= k < l < |trail| ==> trail[k] != trail[l]
  }

  // The image after the first `n` pixels of the trail were drawn with the first `n` indices.
  ghost function Paint(f: Frame, table: seq<Quad>, base: seq<Quad>, trail: seq<(nat, nat)>, cs: seq<byte>, n: nat): (img: seq<Quad>)
    requires IsFrame(f) && |table| == 256 && |base| == f.imageW * f.imageH && InFrame(f, trail) && n <= |trail| && n <= |cs|
    ensures |img| == |base|
  {
    if n == 0 then base
    else
      var img := Paint(f, table, base, trail, cs, n - 1);
      IndexInside(f, trail[n - 1].0, trail[n - 1].1);
      var i := Index(f, trail[n - 1].0, trail[n - 1].1);
      img[i := Shade(table, img[i], cs[n - 1])]
  }

  // Each drawn pixel has the colour of its own index, and no other pixel changed.
  lemma {:induction false} PaintAt(f: Frame, table: seq<Quad>, base: seq<Quad>, trail: seq<(nat, nat)>, cs: seq<byte>, n: nat,
                                   i: nat)
    requires IsFrame(f) && |table| == 256 && |base| == f.imageW * f.imageH && InFrame(f, trail) && n <= |trail| && n <= |cs|
    requires Distinct(trail) && i < |base|
    ensures (forall k :: 0 <= k < n ==> i != Index(f, trail[k].0, trail[k].1)) ==> Paint(f, table, base, trail, cs, n)[i] == base[i]
    ensures forall k :: 0 <= k < n && i == Index(f, trail[k].0, trail[k].1) ==>
      Paint(f, table, base, trail, cs, n)[i] == Shade(table, base[i], cs[k])
  {
    hide Index, Shade;
    if n > 0 {
      PaintAt(f, table, base, trail, cs, n - 1, i);
      forall k | 0 <= k < n - 1 && Index(f, trail[k].0, trail[k].1) == Index(f, trail[n - 1].0, trail[n - 1].1)
        ensures false
      {
        IndexInjective(f, trail[k].0, trail[k].1, trail[n - 1].0, trail[n - 1].1);
      }
    }
  }

  lemma {:induction false} PaintMore(f: Frame, table: seq<Quad>, base: seq<Quad>, trail: seq<(nat, nat)>, cs: seq<byte>,
                                     p: (nat, nat), c: byte, n: nat)
    requires IsFrame(f) && |table| == 256 && |base| == f.imageW * f.imageH && InFrame(f, trail + [p])
    requires InFrame(f, trail) && n <= |trail| && n <= |cs|
    ensures Paint(f, table, base, trail + [p], cs + [c], n) == Paint(f, table, base, trail, cs, n)
  {
    if n > 0 { PaintMore(f, table, base, trail, cs, p, c, n - 1); }
  }

  // ----- the cursor of stbi__gif

  class Raster {
    const frame: Frame
    const colorTable: seq<Quad>
    const out: array<Quad>
    const history: array<byte>
    var parse: int
    var step: int
    const lineSize: int
    const startX: int
    const startY: int
    const maxX: int
    const maxY: int
    var curX: int
    var curY: int
    ghost var col: nat
    ghost var row: nat
    ghost var trail: seq<(nat, nat)>
    ghost var emitted: seq<byte>
    ghost const base: seq<Quad>

    ghost predicate Geometry() {
      IsFrame(frame) && |colorTable| == 256 && out.Length == history.Length == frame.imageW * frame.imageH &&
      lineSize == frame.imageW * 4 && startX == frame.x0 * 4 && startY == frame.y0 * lineSize &&
      maxX == startX + frame.w * 4 && maxY == startY + frame.h * lineSize && |base| == out.Length
    }

    // The numbers of the struct against row and column. A frame without pixels is done from the start.
    ghost predicate Cursor()
      reads `parse, `step, `curX, `curY, `col, `row
    {
      0 <= parse <= 3 && curY == startY + row * lineSize &&
      if frame.w == 0 || frame.h == 0 then row == frame.h
      else Placed() && (row < frame.h ==> col < frame.w) && (row >= frame.h ==> parse == 0)
    }

    ghost predicate Placed()
      reads `parse, `step, `curX, `curY, `col, `row
    {
      0 <= parse <= 3 && curX == startX + col * 4 && curY == startY + row * lineSize &&
      if frame.interlaced then step == Spacing(3 - parse) * lineSize && PassOf(row) == 3 - parse
      else step == lineSize && parse == 0
    }

    // The pixels of the trail are those before the cursor.
    ghost predicate Covers()
      reads `parse, `col, `row, `trail
    {
      0 <= parse <= 3 &&
      forall x: nat, r: nat :: x < frame.w && r < frame.h ==> ((x, r) in trail <==> Seen(x, r))
    }

    // The cursor has passed (x, r).
    ghost predicate Seen(x: nat, r: nat)
      requires 0 <= parse <= 3
      reads `parse, `col, `row
    {
      Before(frame, x, r, col, row, 3 - parse)
    }

    // The trail is in the order of the data, and the cursor is at the pixel that comes next.
    ghost predicate Numbered()
      reads `col, `row, `trail
    {
      (forall k :: 0 <= k < |trail| ==> Number(frame, trail[k].0, trail[k].1) == k) &&
      (frame.w > 0 && frame.h > 0 ==> |trail| == if row < frame.h then Number(frame, col, row) else frame.w * frame.h)
    }

    // Drawn so far: exactly the pixels before the cursor, each once; whatever came after the last pixel was dropped.
    ghost predicate Trail()
      reads `parse, `col, `row, `trail, `emitted
    {
      InFrame(frame, trail) && Distinct(trail) && Numbered() && (frame.w > 0 && frame.h > 0 ==> Covers()) &&
      |trail| <= |emitted| && (|trail| < |emitted| ==> row >= frame.h)
    }

    ghost predicate Valid()
      reads this, out
    {
      Geometry() && Cursor() && Trail() &&
      out[..] == Paint(frame, colorTable, base, trail, emitted, |trail|)
    }

    // The image descriptor's set-up of the cursor, for a rectangle inside the image.
    constructor (frame: Frame, colorTable: seq<Quad>, out: array<Quad>, history: array<byte>)
      requires IsFrame(frame) && |colorTable| == 256 && out.Length == history.Length == frame.imageW * frame.imageH
      ensures Valid() && this.frame == frame && this.colorTable == colorTable && this.out == out && this.history == history
      ensures emitted == [] && trail == [] && base == old(out[..])
    {
      this.frame, this.colorTable, this.out, this.history := frame, colorTable, out, history;
      var line := frame.imageW * 4;
      lineSize := line;
      startX := frame.x0 * 4;
      startY := frame.y0 * line;
      maxX := frame.x0 * 4 + frame.w * 4;
      maxY := frame.y0 * line + frame.h * line;
      curX := frame.x0 * 4;
      curY := if frame.w == 0 then frame.y0 * line + frame.h * line else frame.y0 * line;
      if frame.interlaced {
        step := 8 * line;
        parse := 3;
      } else {
        step := line;
        parse := 0;
      }
      col, row := 0, if frame.w == 0 then frame.h else 0;
      trail, emitted, base := [], [], out[..];
      new;
      PassStart(0);
      forall x: nat, r: nat | x < frame.w && r < frame.h
        ensures !Seen(x, r)
      {
      }
    }

    // One pixel: the part of `stbi__out_gif_code` after its recursion.
    method Plot(c: byte)
      requires Valid()
      modifies this, out, history
      ensures Valid() && emitted == old(emitted) + [c] && |trail| >= |old(trail)| && trail[..|old(trail)|] == old(trail)
    {
      hide Placed, Seen, Paint, Shade, Distinct, Index, Number;
      RowsDone();
      if curY >= maxY {
        SamePaint(c);
        emitted := emitted + [c];
        return;
      }
      var idx := curX + curY;
      IndexHere();
      PaintNext(c);
      history[idx / 4] := 1;
      out[idx / 4] := Shade(colorTable, out[idx / 4], c);
      trail, emitted := trail + [(col, row)], emitted + [c];
      Advance();
      assert Numbered();
    }

    // The cursor has left the rectangle exactly when its row has.
    lemma RowsDone()
      requires Geometry() && Cursor()
      ensures curY >= maxY <==> row >= frame.h
      ensures row < frame.h ==> frame.w > 0 && frame.h > 0
    {
      if row < frame.h {
        Distribute(row, frame.h - row, lineSize);
        MulGrows(frame.h - row, lineSize);
      } else {
        Distribute(frame.h, row - frame.h, lineSize);
        MulNonNegative(row - frame.h, lineSize);
      }
    }

    lemma IndexHere()
      requires Geometry() && Cursor() && row < frame.h && frame.w > 0
      ensures (curX + curY) / 4 == Index(frame, col, row) < out.Length && (curX + curY) % 4 == 0
    {
      IndexInside(frame, col, row);
      var y0, w, r := frame.y0, frame.imageW, row;
      Distribute(y0, r, w);
      Quarter(y0, w);
      Quarter(r, w);
    }

    static lemma Quarter(a: nat, w: nat)
      ensures a * (w * 4) == 4 * (a * w)
    {
    }

    // Dropping an index leaves the picture of the trail as it is.
    lemma SamePaint(c: byte)
      requires Valid()
      ensures Paint(frame, colorTable, base, trail, emitted + [c], |trail|) == Paint(frame, colorTable, base, trail, emitted, |trail|)
    {
      PaintPrefix(frame, colorTable, base, trail, emitted, c, |trail|);
    }

    static lemma {:induction false} PaintPrefix(f: Frame, table: seq<Quad>, base: seq<Quad>, trail: seq<(nat, nat)>,
                                                cs: seq<byte>, c: byte, n: nat)
      requires IsFrame(f) && |table| == 256 && |base| == f.imageW * f.imageH && InFrame(f, trail) && n <= |trail| && n <= |cs|
      ensures Paint(f, table, base, trail, cs + [c], n) == Paint(f, table, base, trail, cs, n)
    {
      if n > 0 { PaintPrefix(f, table, base, trail, cs, c, n - 1); }
    }

    // Drawing at the cursor: a pixel that was not drawn before, and the picture it makes.
    lemma PaintNext(c: byte)
      requires Valid() && row < frame.h && frame.w > 0
      ensures InFrame(frame, trail + [(col, row)]) && Distinct(trail + [(col, row)]) && |trail| == |emitted|
      ensures Index(frame, col, row) < |base|
      ensures Paint(frame, colorTable, base, trail + [(col, row)], emitted + [c], |trail| + 1)
              == out[..][Index(frame, col, row) := Shade(colorTable, out[Index(frame, col, row)], c)]
    {
      hide Index, Shade;
      assert (col, row) !in trail by { assert !Before(frame, col, row, col, row, 3 - parse); }
      IndexHere();
      PaintMore(frame, colorTable, base, trail, emitted, (col, row), c, |trail|);
    }

    // Moves the cursor on, to the next row or the next pass when it has to.
    method Advance()
      requires Geometry() && Placed() && row < frame.h && col < frame.w
      requires forall x: nat, r: nat :: x < frame.w && r < frame.h ==>
        ((x, r) in trail <==> Seen(x, r) || (x == col && r == row))
      modifies `curX, `curY, `step, `parse, `col, `row
      ensures Cursor() && Covers()
      ensures old(Number(frame, col, row)) + 1 == if row < frame.h then Number(frame, col, row) else frame.w * frame.h
    {
      hide Before, PassOf, Rank;
      ghost var c, q, pass := col, row, 3 - parse;
      ghost var c', q' := c + 1, q + (if frame.interlaced then Spacing(pass) else 1);
      forall x: nat, r: nat | x < frame.w && r < frame.h
        ensures Before(frame, x, r, c', q, pass) <==> Before(frame, x, r, c, q, pass) || (x == c && r == q)
        ensures c' == frame.w ==> (Before(frame, x, r, 0, q', pass) <==> Before(frame, x, r, c, q, pass) || (x == c && r == q))
      {
        NextPixel(frame, x, r, c, q, pass);
        if c' == frame.w { NextRow(frame, x, r, c, q, pass); }
      }
      StepRow();
      curX := curX + 4;
      if curX >= maxX {
        curX := startX;
        curY := curY + step;
        RankNext(frame, row);
        RowEnd(Rank(frame, row));
        col, row := 0, row + (if frame.interlaced then Spacing(3 - parse) else 1);
        NextPasses();
      } else {
        col := col + 1;
      }
    }

    lemma RowEnd(k: nat)
      requires frame.w > 0
      ensures k * frame.w + (frame.w - 1) + 1 == (k + 1) * frame.w
      ensures k + 1 == frame.h ==> (k + 1) * frame.w == frame.w * frame.h
    {
      Distribute(k, 1, frame.w);
      Commute(k + 1, frame.w);
    }

    lemma StepRow()
      requires Geometry() && Placed()
      ensures var d := if frame.interlaced then Spacing(3 - parse) else 1;
              step == d * lineSize && (row + d) * lineSize == row * lineSize + step &&
              (frame.interlaced ==> PassOf(row + d) == 3 - parse)
    {
      var d := if frame.interlaced then Spacing(3 - parse) else 1;
      SpacingPositive(3 - parse);
      Distribute(row, d, lineSize);
      if frame.interlaced { SamePass(row, row + d); }
    }

    method NextPasses()
      requires Geometry() && Placed() && Covers() && col == 0 && frame.w > 0 && frame.h > 0 && Near()
      modifies `curY, `step, `parse, `row
      ensures Cursor() && Covers()
      ensures old(Rank(frame, row)) == if row < frame.h then Rank(frame, row) else frame.h
    {
      hide Before, PassOf, Rank;
      LinePositive();
      while curY >= maxY && parse > 0
        invariant Placed() && Covers() && Near()
        invariant Rank(frame, row) == old(Rank(frame, row))
        decreases parse
      {
        ghost var q, pass, pass' := row, 3 - parse, 4 - parse;
        Past(q);
        RankPast(frame, q, pass);
        forall x: nat, r: nat | x < frame.w && r < frame.h
          ensures Before(frame, x, r, 0, q, pass) <==> Before(frame, x, r, 0, FirstRow(pass'), pass')
        {
          NextPass(frame, x, r, q, pass);
        }
        PassSetUp(parse);
        step := Shl(1, parse) * lineSize;
        curY := startY + step / 2;
        parse := parse - 1;
        row := FirstRow(3 - parse);
      }
      Past(row);
      RankEnd();
    }

    // No more than a step past the last row.
    ghost predicate Near()
      requires 0 <= parse <= 3
      reads `parse, `row
    {
      row < frame.h + if frame.interlaced then Spacing(3 - parse) else 1
    }

    lemma RankEnd()
      requires Geometry() && Placed() && Near() && (row >= frame.h ==> parse == 0)
      ensures row >= frame.h ==> Rank(frame, row) == frame.h
    {
      hide Rank;
      if row >= frame.h && frame.interlaced { RankPast(frame, row, 3); }
      PlainRank(frame, row);
    }

    static lemma PlainRank(f: Frame, r: nat)
      ensures !f.interlaced ==> Rank(f, r) == r
    {
    }

    lemma LinePositive()
      requires Geometry() && frame.w > 0
      ensures lineSize > 0
    {
    }

    lemma Past(r: nat)
      requires Geometry() && lineSize > 0
      ensures startY + r * lineSize >= maxY <==> r >= frame.h
    {
      if r < frame.h {
        Distribute(r, frame.h - r, lineSize);
        MulGrows(frame.h - r, lineSize);
      } else {
        Distribute(frame.h, r - frame.h, lineSize);
        MulNonNegative(r - frame.h, lineSize);
      }
    }

    lemma PassSetUp(p: nat)
      requires 1 <= p <= 3
      ensures Shl(1, p) == Spacing(4 - p) && PassOf(FirstRow(4 - p)) == 4 - p
      ensures (Shl(1, p) * lineSize) / 2 == FirstRow(4 - p) * lineSize
    {
      Pow2Small();
      PassStart(0);
    }
  
    // At most once each; and once as many indices came as the rectangle has pixels, every pixel was drawn.
    lemma EachPixelOnce()
      requires Valid()
      ensures Distinct(trail) && InFrame(frame, trail)
      ensures row >= frame.h ==> forall x: nat, r: nat :: x < frame.w && r < frame.h ==> (x, r) in trail
      ensures |trail| == |emitted| || forall x: nat, r: nat :: x < frame.w && r < frame.h ==> (x, r) in trail
    {
      if row >= frame.h && frame.w > 0 && frame.h > 0 {
        forall x: nat, r: nat | x < frame.w && r < frame.h
          ensures (x, r) in trail
        {
          assert Seen(x, r);
        }
      }
    }

    // Every pixel of the rectangle shows the index that stands at its place in the data, red and blue exchanged, unless that
    // colour is nearly transparent or the data ends before it; no other pixel changes.
    lemma PixelShown(x: nat, r: nat)
      requires Valid() && x < frame.w && r < frame.h
      ensures Index(frame, x, r) < out.Length
      ensures var i, k := Index(frame, x, r), Number(frame, x, r);
        if k < |emitted| then
          var q := colorTable[emitted[k]];
          if q.c3 > 128 then out[i].c0 == q.c2 && out[i].c1 == q.c1 && out[i].c2 == q.c0 && out[i].c3 == q.c3
          else out[i] == base[i]
        else out[i] == base[i]
    {
      hide Rank, Index, Covers, Cursor;
      IndexInside(frame, x, r);
      NumberBound(frame, x, r);
      var i, k := Index(frame, x, r), Number(frame, x, r);
      PaintAt(frame, colorTable, base, trail, emitted, |trail|, i);
      assert out[..][i] == out[i];
      Reached();
      if k < |trail| {
        NumberInjective(frame, x, r, trail[k].0, trail[k].1);
      } else {
        forall m | 0 <= m < |trail| && i == Index(frame, trail[m].0, trail[m].1)
          ensures false
        {
          IndexInjective(frame, x, r, trail[m].0, trail[m].1);
        }
      }
    }

    lemma Reached()
      requires Valid()
      ensures frame.w > 0 && frame.h > 0 ==> |trail| == if |emitted| <= frame.w * frame.h then |emitted| else frame.w * frame.h
    {
      hide Paint, Number, Covers, Seen;
      if frame.w > 0 && frame.h > 0 && row < frame.h { CursorBound(); }
    }

    lemma CursorBound()
      requires Cursor() && frame.w > 0 && row < frame.h
      ensures Number(frame, col, row) < frame.w * frame.h
    {
      NumberBound(frame, col, row);
    }
  }
}
