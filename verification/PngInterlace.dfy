// `stbi__create_png_image` on interlaced data (PNG Specification, Second Edition, section 8.2): seven reduced images, each
// filtered on its own, are put together.

module PngInterlace {
  import opened BitStream
  import opened PngFilter
  import opened PngExpand
  import opened Wrappers

  // ----- the passes

  function XOrig(p: nat): nat { match p case 1 => 4 case 3 => 2 case 5 => 1 case _ => 0 }

  function YOrig(p: nat): nat { match p case 2 => 4 case 4 => 2 case 6 => 1 case _ => 0 }

  function XSpc(p: nat): (d: nat)
    ensures d in {1, 2, 4, 8}
  {
    match p case 0 => 8 case 1 => 8 case 2 => 4 case 3 => 4 case 4 => 2 case 5 => 2 case _ => 1
  }

  function YSpc(p: nat): (d: nat)
    ensures d in {2, 4, 8}
  {
    match p case 0 => 8 case 1 => 8 case 2 => 8 case 3 => 4 case 4 => 4 case _ => 2
  }

  // How many columns, or rows, of `size` a pass has; the subtraction is of unsigned words.
  function Reduced(size: nat, orig: nat, spc: nat): nat
    requires spc > 0
  {
    ((size - orig) % 0x1_0000_0000 + spc - 1) % 0x1_0000_0000 / spc
  }

  function PassX(p: nat, w: nat): nat { Reduced(w, XOrig(p), XSpc(p)) }

  function PassY(p: nat, h: nat): nat { Reduced(h, YOrig(p), YSpc(p)) }

  // The wrap-around is made good: position `i` of the pass is inside exactly when it is one of those counted.
  lemma ReducedIs(size: nat, orig: nat, spc: nat, i: nat)
    requires 0 < size <= 0x100_0000 && (orig == 0 || 2 * orig <= spc) && spc in {1, 2, 4, 8}
    ensures i * spc + orig < size <==> i < Reduced(size, orig, spc)
  {
    NoWrap(size, orig, spc);
    hide Reduced;
    var n := size - orig + spc - 1;
    var q, r := n / spc, n % spc;
    assert n == q * spc + r;
    if i < q {
      Distribute(i + 1, q - i - 1, spc);
      Distribute(i, 1, spc);
      MulNonNegative(q - i - 1, spc);
    } else {
      Distribute(q, i - q, spc);
      MulNonNegative(i - q, spc);
    }
  }

  lemma NoWrap(size: nat, orig: nat, spc: nat)
    requires 0 < size <= 0x100_0000 && (orig == 0 || 2 * orig <= spc) && spc in {1, 2, 4, 8}
    ensures size - orig + spc - 1 >= 0 && Reduced(size, orig, spc) == (size - orig + spc - 1) / spc
  {
    var d := size - orig;
    if d < 0 {
      Remainder(d, 0x1_0000_0000, -1, d + 0x1_0000_0000);
      Remainder(d + 0x1_0000_0000 + spc - 1, 0x1_0000_0000, 1, d + spc - 1);
    } else {
      Remainder(d, 0x1_0000_0000, 0, d);
      Remainder(d + spc - 1, 0x1_0000_0000, 0, d + spc - 1);
    }
  }

  // The pass a pixel belongs to, and where in it.
  function PassOf(x: nat, y: nat): (p: nat)
    ensures p < 7
  {
    var a, b := x % 8, y % 8;
    if b in {1, 3, 5, 7} then 6
    else if a in {1, 3, 5, 7} then 5
    else if b in {2, 6} then 4
    else if a in {2, 6} then 3
    else if b == 4 then 2
    else if a == 4 then 1
    else 0
  }

  function Column(p: nat, x: nat): int { (x - XOrig(p)) / XSpc(p) }

  function Line(p: nat, y: nat): int { (y - YOrig(p)) / YSpc(p) }

  function XAt(p: nat, i: nat): nat { i * XSpc(p) + XOrig(p) }

  function YAt(p: nat, j: nat): nat { j * YSpc(p) + YOrig(p) }

  // The place of a pixel of pass `p` is read off its coordinates ...
  lemma PassAt(p: nat, i: nat, j: nat)
    requires p < 7
    ensures PassOf(XAt(p, i), YAt(p, j)) == p && Column(p, XAt(p, i)) == i && Line(p, YAt(p, j)) == j
  {
    Residues(i);
    Residues(j);
    hide PassOf;
    Quotients(p, i, j);
    PassBy(p, XAt(p, i), YAt(p, j));
  }

  lemma Residues(i: nat)
    ensures (i * 8) % 8 == 0 && (i * 8 + 4) % 8 == 4 && (i * 4) % 8 in {0, 4} && (i * 4 + 2) % 8 in {2, 6}
    ensures (i * 2) % 8 in {0, 2, 4, 6} && (i * 2 + 1) % 8 in {1, 3, 5, 7}
  {
    DivModUnique(i * 8, 8, i, 0);
    DivModUnique(i * 8 + 4, 8, i, 4);
    DivModUnique(i * 4, 8, i / 2, 4 * (i % 2));
    DivModUnique(i * 4 + 2, 8, i / 2, 4 * (i % 2) + 2);
    DivModUnique(i * 2, 8, i / 4, 2 * (i % 4));
    DivModUnique(i * 2 + 1, 8, i / 4, 2 * (i % 4) + 1);
  }

  lemma PassBy(p: nat, x: nat, y: nat)
    requires p < 7
    requires match p
      case 0 => x % 8 == 0 && y % 8 == 0
      case 1 => x % 8 == 4 && y % 8 == 0
      case 2 => x % 8 in {0, 4} && y % 8 == 4
      case 3 => x % 8 in {2, 6} && y % 8 in {0, 4}
      case 4 => x % 8 in {0, 2, 4, 6} && y % 8 in {2, 6}
      case 5 => x % 8 in {1, 3, 5, 7} && y % 8 in {0, 2, 4, 6}
      case _ => y % 8 in {1, 3, 5, 7}
    ensures PassOf(x, y) == p
  {
  }

  lemma Quotients(p: nat, i: nat, j: nat)
    requires p < 7
    ensures Column(p, XAt(p, i)) == i && Line(p, YAt(p, j)) == j
  {
    DivModUnique(i * XSpc(p), XSpc(p), i, 0);
    DivModUnique(j * YSpc(p), YSpc(p), j, 0);
  }

  // ... and every pixel has one.
  lemma PlaceOf(x: nat, y: nat)
    ensures var p := PassOf(x, y); Column(p, x) >= 0 && Line(p, y) >= 0 && XAt(p, Column(p, x)) == x && YAt(p, Line(p, y)) == y
  {
    var p := PassOf(x, y);
    Offsets(x, y);
    hide PassOf;
    Lands(x, XOrig(p), XSpc(p));
    Lands(y, YOrig(p), YSpc(p));
  }

  lemma Offsets(x: nat, y: nat)
    ensures var p := PassOf(x, y);
      x % 8 >= XOrig(p) && (x % 8 - XOrig(p)) % XSpc(p) == 0 && y % 8 >= YOrig(p) && (y % 8 - YOrig(p)) % YSpc(p) == 0
  {
  }

  lemma Lands(x: nat, orig: nat, d: nat)
    requires d in {1, 2, 4, 8} && x % 8 >= orig && (x % 8 - orig) % d == 0
    ensures x >= orig && (x - orig) / d * d + orig == x
  {
    var k, m := x / 8, (x % 8 - orig) / d;
    var q := 8 / d * k + m;
    assert x - orig == q * d by {
      Whole(x, orig, d);
    }
    DivModUnique(x - orig, d, q, 0);
  }

  lemma Whole(x: nat, orig: nat, d: nat)
    requires d in {1, 2, 4, 8} && x % 8 >= orig && (x % 8 - orig) % d == 0
    ensures x - orig == (8 / d * (x / 8) + (x % 8 - orig) / d) * d
  {
    var k, r := x / 8, x % 8 - orig;
    assert r == r / d * d;
    Distribute(8 / d * k, r / d, d);
    assert 8 / d * d == 8;
    assert 8 / d * k * d == 8 * k;
  }

  // Every pixel is written in exactly one pass, and there once.
  lemma WrittenOnce(x: nat, y: nat, p: nat, i: nat, j: nat)
    requires p < 7
    ensures XAt(p, i) == x && YAt(p, j) == y <==> p == PassOf(x, y) && i == Column(p, x) && j == Line(p, y)
  {
    hide *;
    PassAt(p, i, j);
    PlaceOf(x, y);
  }

  // ... inside the image exactly when its place in the pass is inside the pass.
  lemma Inside(p: nat, i: nat, j: nat, w: nat, h: nat)
    requires p < 7 && 0 < w <= 0x100_0000 && 0 < h <= 0x100_0000
    ensures XAt(p, i) < w <==> i < PassX(p, w)
    ensures YAt(p, j) < h <==> j < PassY(p, h)
  {
    ReducedIs(w, XOrig(p), XSpc(p), i);
    ReducedIs(h, YOrig(p), YSpc(p), j);
  }

  // ----- the reduced images

  // What is decoded: images of `n` channels of eight bits, or packed ones.
  datatype Kind = Bytes(n: nat) | Packed(imgN: nat, outN: nat, depth: nat, color: nat) {
    ghost predicate Valid() {
      if Bytes? then n > 0 else FormatOf(1).Valid()
    }

    function FormatOf(x: nat): Format
      requires Packed?
    {
      Format(x, imgN, outN, depth, color)
    }

    // The bytes of a pixel in the output.
    function Size(): nat { if Bytes? then n else outN }

    // The bytes of a row before and after decoding.
    function RowBytes(x: nat): nat { if Bytes? then x * n else (imgN * x * depth + 7) / 8 }

    function RowOut(x: nat): nat { x * Size() }
  }

  // The filtered data of an image of `x` by `y` pixels takes this many bytes.
  function RawLength(k: Kind, x: nat, y: nat): nat { (k.RowBytes(x) + 1) * y }

  // The pixels of a reduced image, if its data stands for one.
  ghost function Reduction(k: Kind, raw: seq<byte>, x: nat, y: nat): (img: Option<seq<byte>>)
    requires k.Valid() && x > 0
    ensures img.Some? ==> |img.value| == y * k.RowOut(x) && |raw| >= RawLength(k, x, y)
  {
    Commute(k.RowBytes(x) + 1, y);
    if k.Bytes? then
      if Decodable(raw, x * k.n, y) then Some(Flat(UnfilterImage(raw, x * k.n, k.n, y), x * k.n, y)) else None
    else
      var f := k.FormatOf(x);
      if Usable(f, raw, y) then Some(Flat(UnpackedRows(f, UnfilterImage(raw, f.Packed(), 1, y)), f.Stride(), y)) else None
  }

  // `stbi__create_png_image_raw`
  method CreateRaw(k: Kind, raw: seq<byte>, x: nat, y: nat) returns (ok: bool, out: array<byte>)
    requires k.Valid() && x > 0
    ensures fresh(out) && (ok <==> Reduction(k, raw, x, y).Some?)
    ensures ok ==> out[..] == Reduction(k, raw, x, y).value
  {
    if k.Bytes? {
      ok, out := CreatePngImageRaw(raw, x, y, k.n);
    } else {
      ok, out := CreateSubByte(raw, k.FormatOf(x), y);
    }
  }

  ghost predicate Occupied(p: nat, w: nat, h: nat) { PassX(p, w) > 0 && PassY(p, h) > 0 }

  // Where the data of pass `p` starts: after that of the passes before it that have pixels.
  ghost function Start(k: Kind, w: nat, h: nat, p: nat): nat {
    if p == 0 then 0
    else Start(k, w, h, p - 1) + (if Occupied(p - 1, w, h) then RawLength(k, PassX(p - 1, w), PassY(p - 1, h)) else 0)
  }

  // The reduced image of pass `p`.
  ghost function PassImage(k: Kind, data: seq<byte>, w: nat, h: nat, p: nat): (img: Option<seq<byte>>)
    requires k.Valid() && Occupied(p, w, h)
    ensures img.Some? ==> |img.value| == PassY(p, h) * k.RowOut(PassX(p, w))
  {
    if Start(k, w, h, p) <= |data| then Reduction(k, data[Start(k, w, h, p)..], PassX(p, w), PassY(p, h)) else None
  }

  // All passes that have pixels have their data, one after the other.
  ghost predicate Complete(k: Kind, data: seq<byte>, w: nat, h: nat, upto: nat)
    requires k.Valid()
  {
    forall p: nat :: p < upto && Occupied(p, w, h) ==> PassImage(k, data, w, h, p).Some?
  }

  // ----- putting them together

  function Place(w: nat, x: nat, y: nat, n: nat, c: nat): nat { (y * w + x) * n + c }

  lemma PlaceBound(w: nat, h: nat, x: nat, y: nat, n: nat, c: nat)
    requires x < w && y < h && c < n
    ensures Place(w, x, y, n, c) == Place(w, x, y, n, 0) + c < h * (w * n)
    ensures Place(w, x, y, n, 0) + n <= h * (w * n)
  {
    var k := y * w + x;
    Distribute(y + 1, h - y - 1, w);
    Distribute(y, 1, w);
    MulNonNegative(h - y - 1, w);
    assert k + 1 <= h * w;
    Distribute(k + 1, h * w - k - 1, n);
    Distribute(k, 1, n);
    MulNonNegative(h * w - k - 1, n);
    assert (h * w) * n == h * (w * n);
  }

  lemma PlaceApart(w: nat, x: nat, y: nat, x': nat, y': nat, n: nat, c: nat, c': nat)
    requires x < w && x' < w && c < n && c' < n && Place(w, x, y, n, c) == Place(w, x', y', n, c')
    ensures x == x' && y == y' && c == c'
  {
    DivModUnique(Place(w, x, y, n, c), n, y * w + x, c);
    DivModUnique(Place(w, x, y, n, c), n, y' * w + x', c');
    DivModUnique(y * w + x, w, y, x);
    DivModUnique(y * w + x, w, y', x');
  }

  // The byte a pixel gets.
  ghost function Wanted(k: Kind, data: seq<byte>, w: nat, h: nat, x: nat, y: nat, c: nat): byte
    requires k.Valid()
  {
    var p := PassOf(x, y);
    if Occupied(p, w, h) && PassImage(k, data, w, h, p).Some? && Column(p, x) >= 0 && Line(p, y) >= 0
    then ByteAt(PassImage(k, data, w, h, p).value, Place(PassX(p, w), Column(p, x), Line(p, y), k.Size(), c))
    else 0
  }

  // Before column `i` of row `j` of pass `p`.
  ghost predicate Earlier(x: nat, y: nat, p: nat, j: nat, i: nat) {
    var q := PassOf(x, y);
    q < p || (q == p && (Line(q, y) < j || (Line(q, y) == j && Column(q, x) < i)))
  }

  ghost predicate Done(k: Kind, data: seq<byte>, w: nat, h: nat, out: seq<byte>, p: nat, j: nat, i: nat)
    requires k.Valid()
  {
    |out| == h * (w * k.Size()) &&
    forall x: nat, y: nat, c: nat :: x < w && y < h && c < k.Size() && Earlier(x, y, p, j, i) ==>
      ByteAt(out, Place(w, x, y, k.Size(), c)) == Wanted(k, data, w, h, x, y, c)
  }

  // One pixel copied.
  ghost predicate Copied(now: seq<byte>, was: seq<byte>, at: nat, img: seq<byte>, start: nat, n: nat) {
    |now| == |was| && at + n <= |was| && start + n <= |img| &&
    forall m: nat :: m < |was| ==> now[m] == if at <= m < at + n then img[start + (m - at)] else was[m]
  }

  method CopyPixel(final: array<byte>, at: nat, img: array<byte>, start: nat, n: nat)
    requires at + n <= final.Length && start + n <= img.Length && final != img
    modifies final
    ensures Copied(final[..], old(final[..]), at, img[..], start, n)
  {
    forall c | 0 <= c < n { final[at + c] := img[start + c]; }
  }

  lemma CopiedByte(k: Kind, data: seq<byte>, w: nat, h: nat, now: seq<byte>, was: seq<byte>, img: seq<byte>,
    p: nat, j: nat, i: nat, x: nat, y: nat, c: nat)
    requires k.Valid() && p < 7 && i < PassX(p, w) && j < PassY(p, h) && XAt(p, i) < w && Done(k, data, w, h, was, p, j, i)
    requires Occupied(p, w, h) && PassImage(k, data, w, h, p) == Some(img)
    requires Copied(now, was, Place(w, XAt(p, i), YAt(p, j), k.Size(), 0), img, Place(PassX(p, w), i, j, k.Size(), 0), k.Size())
    requires x < w && y < h && c < k.Size() && Earlier(x, y, p, j, i + 1)
    ensures ByteAt(now, Place(w, x, y, k.Size(), c)) == Wanted(k, data, w, h, x, y, c)
  {
    hide *;
    var n := k.Size();
    var at, start := Place(w, XAt(p, i), YAt(p, j), n, 0), Place(PassX(p, w), i, j, n, 0);
    DoneLength(k, data, w, h, was, p, j, i);
    PlaceBound(w, h, x, y, n, c);
    CopiedAt(now, was, at, img, start, n, Place(w, x, y, n, c));
    EarlierIs(x, y, p, j, i);
    if x == XAt(p, i) && y == YAt(p, j) {
      WrittenOnce(x, y, p, i, j);
      WantedIs(k, data, w, h, x, y, c, p, i, j, img);
      PlaceBound(PassX(p, w), PassY(p, h), i, j, n, c);
    } else {
      DoneAt(k, data, w, h, was, p, j, i, x, y, c);
      Elsewhere(w, x, y, XAt(p, i), YAt(p, j), n, c);
    }
  }

  lemma CopiedAt(now: seq<byte>, was: seq<byte>, at: nat, img: seq<byte>, start: nat, n: nat, m: nat)
    requires Copied(now, was, at, img, start, n) && m < |was|
    ensures |now| == |was| && start + n <= |img|
    ensures ByteAt(now, m) == if at <= m < at + n then ByteAt(img, start + (m - at)) else ByteAt(was, m)
  {
  }

  // The pixels before the next column are those before this one and the one in it.
  lemma EarlierIs(x: nat, y: nat, p: nat, j: nat, i: nat)
    requires p < 7 && Earlier(x, y, p, j, i + 1)
    ensures Earlier(x, y, p, j, i) || (x == XAt(p, i) && y == YAt(p, j))
  {
    hide PassOf, Column, Line, XAt, YAt;
    PlaceOf(x, y);
  }

  lemma WantedIs(k: Kind, data: seq<byte>, w: nat, h: nat, x: nat, y: nat, c: nat, p: nat, i: nat, j: nat,
    img: seq<byte>)
    requires k.Valid() && Occupied(p, w, h) && PassImage(k, data, w, h, p) == Some(img)
    requires p == PassOf(x, y) && i == Column(p, x) && j == Line(p, y)
    ensures Wanted(k, data, w, h, x, y, c) == ByteAt(img, Place(PassX(p, w), i, j, k.Size(), c))
  {
    hide PassOf, Column, Line, PassImage, Place, PassX, PassY;
  }

  lemma DoneLength(k: Kind, data: seq<byte>, w: nat, h: nat, out: seq<byte>, p: nat, j: nat, i: nat)
    requires k.Valid() && Done(k, data, w, h, out, p, j, i)
    ensures |out| == h * (w * k.Size())
  {
    hide Place, Wanted, Earlier;
  }

  lemma DoneAt(k: Kind, data: seq<byte>, w: nat, h: nat, out: seq<byte>, p: nat, j: nat, i: nat,
    x: nat, y: nat, c: nat)
    requires k.Valid() && Done(k, data, w, h, out, p, j, i) && x < w && y < h && c < k.Size() && Earlier(x, y, p, j, i)
    ensures ByteAt(out, Place(w, x, y, k.Size(), c)) == Wanted(k, data, w, h, x, y, c)
  {
    hide Place, Wanted, Earlier;
  }

  lemma Elsewhere(w: nat, x: nat, y: nat, x': nat, y': nat, n: nat, c: nat)
    requires x < w && x' < w && c < n && (x != x' || y != y')
    ensures !(Place(w, x', y', n, 0) <= Place(w, x, y, n, c) < Place(w, x', y', n, 0) + n)
  {
    var d := Place(w, x, y, n, c) - Place(w, x', y', n, 0);
    if 0 <= d < n {
      assert Place(w, x', y', n, d) == Place(w, x', y', n, 0) + d;
      PlaceApart(w, x, y, x', y', n, c, d);
    }
  }

  lemma PixelDone(k: Kind, data: seq<byte>, w: nat, h: nat, now: seq<byte>, was: seq<byte>, img: seq<byte>,
    p: nat, j: nat, i: nat)
    requires k.Valid() && p < 7 && i < PassX(p, w) && j < PassY(p, h) && XAt(p, i) < w && Done(k, data, w, h, was, p, j, i)
    requires Occupied(p, w, h) && PassImage(k, data, w, h, p) == Some(img)
    requires Copied(now, was, Place(w, XAt(p, i), YAt(p, j), k.Size(), 0), img, Place(PassX(p, w), i, j, k.Size(), 0), k.Size())
    ensures Done(k, data, w, h, now, p, j, i + 1)
  {
    hide PassOf, Column, Line, XAt, YAt, PassX, PassY, PassImage, Wanted, Earlier, Place;
    forall x: nat, y: nat, c: nat | x < w && y < h && c < k.Size() && Earlier(x, y, p, j, i + 1)
      ensures ByteAt(now, Place(w, x, y, k.Size(), c)) == Wanted(k, data, w, h, x, y, c)
    {
      CopiedByte(k, data, w, h, now, was, img, p, j, i, x, y, c);
    }
  }

  // A row is done when its columns are, a pass when its rows are.
  lemma RowDone(k: Kind, data: seq<byte>, w: nat, h: nat, out: seq<byte>, p: nat, j: nat)
    requires k.Valid() && p < 7 && 0 < w <= 0x100_0000 && 0 < h <= 0x100_0000
    requires Done(k, data, w, h, out, p, j, PassX(p, w))
    ensures Done(k, data, w, h, out, p, j + 1, 0)
  {
    hide PassOf, Column, Line, XAt, YAt, PassX, PassY, Wanted, Place;
    forall x: nat, y: nat, c: nat | x < w && y < h && c < k.Size() && Earlier(x, y, p, j + 1, 0)
      ensures ByteAt(out, Place(w, x, y, k.Size(), c)) == Wanted(k, data, w, h, x, y, c)
    {
      InPass(x, y, w, h);
      assert Earlier(x, y, p, j, PassX(p, w));
    }
  }

  lemma PassDone(k: Kind, data: seq<byte>, w: nat, h: nat, out: seq<byte>, p: nat, j: nat)
    requires k.Valid() && p < 7 && 0 < w <= 0x100_0000 && 0 < h <= 0x100_0000
    requires Done(k, data, w, h, out, p, j, 0) && (Occupied(p, w, h) ==> j == PassY(p, h))
    ensures Done(k, data, w, h, out, p + 1, 0, 0)
  {
    hide PassOf, Column, Line, XAt, YAt, PassX, PassY, Wanted, Place;
    forall x: nat, y: nat, c: nat | x < w && y < h && c < k.Size() && Earlier(x, y, p + 1, 0, 0)
      ensures ByteAt(out, Place(w, x, y, k.Size(), c)) == Wanted(k, data, w, h, x, y, c)
    {
      InPass(x, y, w, h);
      assert Earlier(x, y, p, j, 0);
    }
  }

  lemma InPass(x: nat, y: nat, w: nat, h: nat)
    requires x < w <= 0x100_0000 && y < h <= 0x100_0000
    ensures var p := PassOf(x, y); 0 <= Column(p, x) < PassX(p, w) && 0 <= Line(p, y) < PassY(p, h) && Occupied(p, w, h)
  {
    hide PassOf, Column, Line, XAt, YAt, PassX, PassY;
    PlaceOf(x, y);
    Inside(PassOf(x, y), Column(PassOf(x, y), x), Line(PassOf(x, y), y), w, h);
  }

  lemma NoneDone(k: Kind, data: seq<byte>, w: nat, h: nat, out: seq<byte>)
    requires k.Valid() && |out| == h * (w * k.Size())
    ensures Done(k, data, w, h, out, 0, 0, 0)
  {
    hide PassOf, Wanted, Place;
    forall x: nat, y: nat
      ensures !Earlier(x, y, 0, 0, 0)
    {
      PlaceOf(x, y);
    }
  }

  // The pixels of one pass, each to its place.
  method SpreadPass(final: array<byte>, img: array<byte>, k: Kind, w: nat, h: nat, p: nat, x: nat, y: nat, ghost data: seq<byte>)
    requires k.Valid() && p < 7 && 0 < w <= 0x100_0000 && 0 < h <= 0x100_0000 && final != img
    requires x == PassX(p, w) && y == PassY(p, h) && Occupied(p, w, h) && PassImage(k, data, w, h, p) == Some(img[..])
    requires Done(k, data, w, h, final[..], p, 0, 0)
    modifies final
    ensures Done(k, data, w, h, final[..], p + 1, 0, 0)
  {
    hide *;
    ghost var pixels := img[..];
    for j := 0 to y
      invariant Done(k, data, w, h, final[..], p, j, 0) && img[..] == pixels
    {
      for i := 0 to x
        invariant Done(k, data, w, h, final[..], p, j, i) && img[..] == pixels
      {
        SpreadPixel(final, img, k, w, h, p, x, i, j, data);
      }
      RowDone(k, data, w, h, final[..], p, j);
    }
    PassDone(k, data, w, h, final[..], p, y);
  }

  method SpreadPixel(final: array<byte>, img: array<byte>, k: Kind, w: nat, h: nat, p: nat, x: nat, i: nat, j: nat,
      ghost data: seq<byte>)
    requires k.Valid() && p < 7 && 0 < w <= 0x100_0000 && 0 < h <= 0x100_0000 && final != img
    requires x == PassX(p, w) && i < x && j < PassY(p, h) && Occupied(p, w, h) && PassImage(k, data, w, h, p) == Some(img[..])
    requires Done(k, data, w, h, final[..], p, j, i)
    modifies final
    ensures Done(k, data, w, h, final[..], p, j, i + 1) && img[..] == old(img[..])
  {
    hide *;
    Room(k, data, w, h, final[..], img[..], p, i, j);
    CopyPixel(final, Place(w, XAt(p, i), YAt(p, j), k.Size(), 0), img, Place(x, i, j, k.Size(), 0), k.Size());
    PixelDone(k, data, w, h, final[..], old(final[..]), img[..], p, j, i);
  }

  lemma Room(k: Kind, data: seq<byte>, w: nat, h: nat, out: seq<byte>, img: seq<byte>, p: nat, i: nat, j: nat)
    requires k.Valid() && p < 7 && 0 < w <= 0x100_0000 && 0 < h <= 0x100_0000 && i < PassX(p, w) && j < PassY(p, h)
    requires Occupied(p, w, h) && PassImage(k, data, w, h, p) == Some(img) && Done(k, data, w, h, out, p, j, i)
    ensures XAt(p, i) < w && Place(w, XAt(p, i), YAt(p, j), k.Size(), 0) + k.Size() <= |out|
    ensures Place(PassX(p, w), i, j, k.Size(), 0) + k.Size() <= |img|
  {
    hide PassX, PassY, XAt, YAt, Place, PassImage;
    Inside(p, i, j, w, h);
    SizePositive(k);
    PlaceBound(w, h, XAt(p, i), YAt(p, j), k.Size(), 0);
    PlaceBound(PassX(p, w), PassY(p, h), i, j, k.Size(), 0);
  }

  lemma SizePositive(k: Kind)
    requires k.Valid()
    ensures k.Size() > 0
  {
  }

  lemma StartZero(k: Kind, data: seq<byte>, w: nat, h: nat)
    requires k.Valid()
    ensures Start(k, w, h, 0) == 0 && Complete(k, data, w, h, 0)
  {
  }

  // What the data at the start of a pass has to do with the passes after it.
  lemma NextPass(k: Kind, data: seq<byte>, w: nat, h: nat, p: nat)
    requires k.Valid() && p < 7 && Start(k, w, h, p) <= |data| && Complete(k, data, w, h, p)
    ensures Occupied(p, w, h) <==> PassX(p, w) != 0 && PassY(p, h) != 0
    ensures !Occupied(p, w, h) ==> Start(k, w, h, p + 1) == Start(k, w, h, p) && Complete(k, data, w, h, p + 1)
    ensures Occupied(p, w, h) ==>
      var img, next := PassImage(k, data, w, h, p), Start(k, w, h, p) + RawLength(k, PassX(p, w), PassY(p, h));
      img == Reduction(k, data[Start(k, w, h, p)..], PassX(p, w), PassY(p, h)) &&
      if img.Some? then Start(k, w, h, p + 1) == next <= |data| && Complete(k, data, w, h, p + 1)
      else !Complete(k, data, w, h, 7)
  {
    hide PassX, PassY, Reduction, RawLength;
  }

  lemma AllDone(k: Kind, data: seq<byte>, w: nat, h: nat, out: seq<byte>)
    requires k.Valid() && Done(k, data, w, h, out, 7, 0, 0)
    ensures |out| == h * (w * k.Size()) && forall x: nat, y: nat, c: nat :: x < w && y < h && c < k.Size() ==>
      ByteAt(out, Place(w, x, y, k.Size(), c)) == Wanted(k, data, w, h, x, y, c)
  {
    hide Wanted, Place, PassOf;
    forall x: nat, y: nat
      ensures Earlier(x, y, 7, 0, 0)
    {
      assert PassOf(x, y) < 7;
    }
  }

  // Decodes the reduced images one after the other and puts every pixel where it belongs.
  method CreateInterlaced(k: Kind, data: seq<byte>, w: nat, h: nat) returns (ok: bool, final: array<byte>)
    requires k.Valid() && 0 < w <= 0x100_0000 && 0 < h <= 0x100_0000
    ensures ok <==> Complete(k, data, w, h, 7)
    ensures ok ==> final.Length == h * (w * k.Size()) && forall x: nat, y: nat, c: nat :: x < w && y < h && c < k.Size() ==>
      ByteAt(final[..], Place(w, x, y, k.Size(), c)) == Wanted(k, data, w, h, x, y, c)
  {
    hide *;
    final := new byte[h * (w * k.Size())];
    NoneDone(k, data, w, h, final[..]);
    var at := 0;
    StartZero(k, data, w, h);
    for p := 0 to 7
      invariant at == Start(k, w, h, p) <= |data| && Complete(k, data, w, h, p) && fresh(final)
      invariant Done(k, data, w, h, final[..], p, 0, 0)
    {
      var x, y := PassX(p, w), PassY(p, h);
      NextPass(k, data, w, h, p);
      if x != 0 && y != 0 {
        var img;
        ok, img := CreateRaw(k, data[at..], x, y);
        if !ok { return; }
        SpreadPass(final, img, k, w, h, p, x, y, data);
        at := at + RawLength(k, x, y);
      } else {
        PassDone(k, data, w, h, final[..], p, 0);
      }
    }
    ok := true;
    AllDone(k, data, w, h, final[..]);
  }
}
