// The resizer's ring buffer of scanlines, and the two loops over it: resampling through a sliding window of rows gives
// what summing over the whole image would. Floating-point numbers are taken as reals.

module ResizeRing {

  // ----- rows of samples

  type Row = seq<real>

  function Zero(len: nat): (r: Row)
    ensures |r| == len
  {
    seq(len, i => 0.0)
  }

  // `a + b * c`
  function Plus(a: Row, b: Row, c: real): (r: Row)
    requires |a| == |b|
    ensures |r| == |a|
  {
    seq(|a|, x requires 0 <= x < |a| => a[x] + b[x] * c)
  }

  // ----- the ring

  class RingBuffer {
    // One entry a slot, each `length` samples long.
    const buffer: array<Row>
    const length: nat
    // A negative index says that the ring is empty.
    var beginIndex: int
    var firstScanline: int
    var lastScanline: int

    ghost predicate Live(n: int)
      reads this
    {
      beginIndex >= 0 && firstScanline <= n <= lastScanline
    }

    ghost predicate Valid()
      reads this, buffer
    {
      beginIndex < buffer.Length && (beginIndex >= 0 ==> firstScanline <= lastScanline < firstScanline + buffer.Length) &&
      forall n :: Live(n) ==> |Scanline(n)| == length
    }

    function Slot(n: int): (i: int)
      requires 0 <= beginIndex < buffer.Length
      reads this
      ensures 0 <= i < buffer.Length
    {
      (beginIndex + (n - firstScanline)) % buffer.Length
    }

    // What the ring holds for scanline `n`.
    ghost function Scanline(n: int): Row
      requires 0 <= beginIndex < buffer.Length
      reads this, buffer
    {
      buffer[Slot(n)]
    }

    constructor (entries: nat, length: nat)
      requires entries > 0
      ensures Valid() && beginIndex < 0 && buffer.Length == entries && this.length == length && fresh(buffer)
    {
      this.length := length;
      buffer := new Row[entries](i => []);
      beginIndex, firstScanline, lastScanline := -1, 0, 0;
    }

    // Different scanlines of a window no longer than the ring have different slots.
    lemma SlotsApart(m: int, n: int)
      requires 0 <= beginIndex < buffer.Length && firstScanline <= m < n < firstScanline + buffer.Length
      ensures Slot(m) != Slot(n)
    {
      var x, y, k := beginIndex + (m - firstScanline), beginIndex + (n - firstScanline), buffer.Length;
      Wrapped(x, k);
      Wrapped(y, k);
    }

    static lemma Wrapped(x: int, n: int)
      requires 0 <= x < 2 * n
      ensures x % n == if x < n then x else x - n
    {
    }

    // Writing a live scanline leaves the others.
    method Write(n: int, row: Row)
      requires 0 <= beginIndex < buffer.Length && firstScanline <= n <= lastScanline < firstScanline + buffer.Length
      requires |row| == length && forall m :: Live(m) && m != n ==> |Scanline(m)| == length
      modifies buffer
      ensures Valid() && Scanline(n) == row && forall m :: Live(m) && m != n ==> Scanline(m) == old(Scanline(m))
    {
      buffer[Slot(n)] := row;
      forall m | Live(m) && m != n
        ensures Slot(m) != Slot(n)
      {
        SlotsApart(if m < n then m else n, if m < n then n else m);
      }
    }

    // `stbir__add_empty_ring_buffer_entry`: a slot of zeros for the next scanline, or for the first one.
    method AddEmpty(n: int)
      requires Valid() && buffer.Length > 0
      requires beginIndex >= 0 ==> n == lastScanline + 1 && n - firstScanline < buffer.Length
      modifies this, buffer
      ensures Valid() && beginIndex >= 0 && lastScanline == n && Scanline(n) == Zero(length)
      ensures firstScanline == if old(beginIndex) < 0 then n else old(firstScanline)
      ensures forall m :: old(Live(m)) ==> Live(m) && Scanline(m) == old(Scanline(m))
    {
      lastScanline := n;
      if beginIndex < 0 {
        beginIndex := 0;
        firstScanline := n;
      } else {
        SlotsApart(firstScanline, n);
        Wrapped(beginIndex, buffer.Length);
        // the source's own assertion
        assert Slot(n) != beginIndex;
        forall m | Live(m) && m != n
          ensures |Scanline(m)| == length
        {
          assert old(Live(m)) && Scanline(m) == old(Scanline(m));
        }
      }
      Write(n, Zero(length));
    }

    // The oldest scanline leaves.
    method Pop()
      requires Valid() && beginIndex >= 0
      modifies this
      ensures Valid()
      ensures if old(firstScanline == lastScanline) then beginIndex < 0
              else beginIndex >= 0 && firstScanline == old(firstScanline) + 1 && lastScanline == old(lastScanline) &&
                   forall m :: Live(m) ==> Scanline(m) == old(Scanline(m))
    {
      if firstScanline == lastScanline {
        beginIndex, firstScanline, lastScanline := -1, 0, 0;
      } else {
        ghost var b, f := beginIndex, firstScanline;
        firstScanline := firstScanline + 1;
        beginIndex := (beginIndex + 1) % buffer.Length;
        forall m | Live(m)
          ensures Slot(m) == old(Slot(m))
        {
          Shifted(b, f, m, buffer.Length);
        }
        assert forall m :: Live(m) ==> Scanline(m) == old(Scanline(m));
      }
    }

    // The next slot is the first one of the next scanline.
    static lemma Shifted(b: int, f: int, m: int, k: int)
      requires 0 <= b < k && f < m < f + k
      ensures 0 <= (b + 1) % k < k && ((b + 1) % k + (m - (f + 1))) % k == (b + (m - f)) % k
    {
      Wrapped(b + 1, k);
      Wrapped(b + (m - f), k);
      Wrapped((if b + 1 < k then b + 1 else 0) + (m - (f + 1)), k);
    }
  }

  // ----- the windows of rows

  // One direction of a resize: the rows a filter of radius `support` reaches at this scale, the contributors and
  // coefficients found for them, and the horizontally resampled rows. `shift` is zero when the whole image is mapped.
  datatype Plan = Plan(scale: real, shift: real, support: real, inH: nat, outH: nat, length: nat,
    n0: int -> int, n1: int -> int, coef: (int, int) -> real, row: int -> Row)

  function Ceil(x: real): int { -(-x).Floor }

  function Times(x: real, k: real): real { x * k }

  function Over(x: real, k: real): real
    requires k > 0.0
  {
    x / k
  }

  // `stbir__calculate_sample_range_upsample`
  function UpFirst(p: Plan, n: int): int
    requires p.scale > 0.0
  {
    (Over(n as real + 0.5 - Times(p.support, p.scale) + p.shift, p.scale) + 0.5).Floor
  }

  function UpLast(p: Plan, n: int): int
    requires p.scale > 0.0
  {
    (Over(n as real + 0.5 + Times(p.support, p.scale) + p.shift, p.scale) - 0.5).Floor
  }

  // `stbir__calculate_sample_range_downsample`
  function DownFirst(p: Plan, n: int): int
    requires p.scale > 0.0
  {
    ((n as real + 0.5 - p.support / p.scale) * p.scale - p.shift + 0.5).Floor
  }

  function DownLast(p: Plan, n: int): int
    requires p.scale > 0.0
  {
    ((n as real + 0.5 + p.support / p.scale) * p.scale - p.shift - 0.5).Floor
  }

  lemma FloorMonotone(x: real, y: real)
    requires x <= y
    ensures x.Floor <= y.Floor
  {
  }

  // The integers between `c - s` and `c + s` by this rounding: one at least, and no more than `Ceil(2 * s)`.
  lemma WindowWidth(c: real, s: real)
    requires s >= 0.5
    ensures var a, b := (c - s + 0.5).Floor, (c + s - 0.5).Floor; a <= b && b - a + 1 <= Ceil(2.0 * s)
  {
    var a, b := (c - s + 0.5).Floor, (c + s - 0.5).Floor;
    FloorMonotone(c - s + 0.5, c + s - 0.5);
    var w := Ceil(2.0 * s);
    assert w as real >= 2.0 * s;
    assert (b - a) as real < 2.0 * s;
  }

  lemma UpCenter(p: Plan, n: int)
    requires p.scale > 0.0
    ensures var c := Over(n as real + 0.5 + p.shift, p.scale);
      UpFirst(p, n) == (c - p.support + 0.5).Floor && UpLast(p, n) == (c + p.support - 0.5).Floor
  {
    hide Over, Times;
    var a := n as real + 0.5 + p.shift;
    Quotients(a, p.support, p.scale);
    assert n as real + 0.5 - Times(p.support, p.scale) + p.shift == a - Times(p.support, p.scale);
    assert n as real + 0.5 + Times(p.support, p.scale) + p.shift == a + Times(p.support, p.scale);
  }

  lemma Quotients(a: real, s: real, k: real)
    requires k > 0.0
    ensures Over(a - Times(s, k), k) == Over(a, k) - s && Over(a + Times(s, k), k) == Over(a, k) + s
  {
    var q := a / k;
    assert a == q * k;
    assert a - s * k == (q - s) * k && a + s * k == (q + s) * k;
  }

  lemma QuotientMonotone(a: real, b: real, k: real)
    requires k > 0.0 && a <= b
    ensures Over(a, k) <= Over(b, k)
  {
    var q, r := a / k, b / k;
    assert (r - q) * k == b - a;
    PositiveFactor(r - q, k);
  }

  lemma PositiveFactor(x: real, k: real)
    requires k > 0.0 && x * k >= 0.0
    ensures x >= 0.0
  {
  }

  // Each window of an enlargement fits into the ring, and the windows only move on.
  lemma UpWindow(p: Plan, n: int)
    requires p.scale > 1.0 && p.support >= 0.5
    ensures UpFirst(p, n) <= UpLast(p, n) && UpLast(p, n) - UpFirst(p, n) + 1 <= Ceil(2.0 * p.support)
    ensures UpFirst(p, n) <= UpFirst(p, n + 1)
  {
    var c, d := Over(n as real + 0.5 + p.shift, p.scale), Over((n + 1) as real + 0.5 + p.shift, p.scale);
    UpCenter(p, n);
    UpCenter(p, n + 1);
    WindowWidth(c, p.support);
    QuotientMonotone(n as real + 0.5 + p.shift, (n + 1) as real + 0.5 + p.shift, p.scale);
    FloorMonotone(c - p.support + 0.5, d - p.support + 0.5);
  }

  // The centre of an input row among the output rows.
  function Center(p: Plan, n: int): real { Times(n as real + 0.5, p.scale) - p.shift }

  lemma DownCenter(p: Plan, n: int)
    requires p.scale > 0.0
    ensures var c := Center(p, n);
      DownFirst(p, n) == (c - p.support + 0.5).Floor && DownLast(p, n) == (c + p.support - 0.5).Floor
  {
    var a, s, k := n as real + 0.5, p.support, p.scale;
    var q := s / k;
    assert s == q * k;
    assert (a - q) * k == a * k - s && (a + q) * k == a * k + s;
  }

  lemma CenterStep(p: Plan, n: int)
    ensures Center(p, n + 1) == Center(p, n) + p.scale
  {
    var x := n as real + 0.5;
    assert (x + 1.0) * p.scale == x * p.scale + p.scale;
  }

  // Each window of a reduction fits into the ring, the windows only move on, and none starts past the end of the last.
  lemma DownWindow(p: Plan, n: int)
    requires 0.0 < p.scale <= 1.0 && p.support >= 0.5
    ensures DownFirst(p, n) <= DownLast(p, n) && DownLast(p, n) - DownFirst(p, n) + 1 <= Ceil(2.0 * p.support / p.scale)
    ensures DownFirst(p, n) <= DownFirst(p, n + 1) <= DownLast(p, n) + 1 && DownLast(p, n) <= DownLast(p, n + 1)
  {
    hide DownFirst, DownLast, Center, Ceil;
    var c, d := Center(p, n), Center(p, n + 1);
    DownCenter(p, n);
    DownCenter(p, n + 1);
    WindowWidth(c, p.support);
    CenterStep(p, n);
    FloorMonotone(c - p.support + 0.5, d - p.support + 0.5);
    FloorMonotone(c + p.support - 0.5, d + p.support - 0.5);
    FloorMonotone(d - p.support + 0.5, c - p.support + 0.5 + 1.0);
    FloorMonotone(d - p.support + 0.5, c + p.support - 0.5 + 1.0);
    Widens(p.support, p.scale);
  }

  lemma Widens(s: real, k: real)
    requires 0.0 < k <= 1.0 && s >= 0.0
    ensures Ceil(2.0 * s) <= Ceil(2.0 * s / k)
  {
    var q := 2.0 * s / k;
    assert (q - 2.0 * s) * k == 2.0 * s * (1.0 - k);
    assert 2.0 * s * (1.0 - k) >= 0.0;
    PositiveFactor(q - 2.0 * s, k);
    FloorMonotone(-q, -(2.0 * s));
  }

  lemma {:induction false} DownMonotone(p: Plan, m: int, n: int)
    requires 0.0 < p.scale <= 1.0 && p.support >= 0.5 && m <= n
    ensures DownFirst(p, m) <= DownFirst(p, n) && DownLast(p, m) <= DownLast(p, n)
    decreases n - m
  {
    if m < n {
      DownMonotone(p, m, n - 1);
      DownWindow(p, n - 1);
    }
  }

  lemma FloorBetween(lo: real, hi: real, k: int)
    ensures (lo + 0.5).Floor <= k <= (hi - 0.5).Floor <==> lo < k as real + 0.5 <= hi
  {
  }

  // The input rows of an output row are those whose centres are within the support of its own, measured in input rows ...
  lemma UpMembers(p: Plan, n: int, k: int)
    requires p.scale > 0.0
    ensures var c := (n as real + 0.5 + p.shift) / p.scale;
      UpFirst(p, n) <= k <= UpLast(p, n) <==> c - p.support < k as real + 0.5 <= c + p.support
  {
    UpCenter(p, n);
    var c := Over(n as real + 0.5 + p.shift, p.scale);
    FloorBetween(c - p.support, c + p.support, k);
  }

  // ... and the output rows of an input row the same, measured in output rows.
  lemma DownMembers(p: Plan, n: int, k: int)
    requires p.scale > 0.0
    ensures var c := (n as real + 0.5) * p.scale - p.shift;
      DownFirst(p, n) <= k <= DownLast(p, n) <==> c - p.support < k as real + 0.5 <= c + p.support
  {
    DownCenter(p, n);
    FloorBetween(Center(p, n) - p.support, Center(p, n) + p.support, k);
  }

  // When a part of the image is mapped, its first row reaches the first output row and its last row the last one.
  lemma DownEnds(p: Plan)
    requires 0.0 < p.scale <= 1.0 && p.support >= 0.5 && p.shift >= 0.0 && p.inH > 0
    requires p.scale * p.inH as real - p.shift >= p.outH as real
    ensures DownFirst(p, 0) <= 0 && DownLast(p, p.inH - 1) >= p.outH - 1
  {
    DownCenter(p, 0);
    DownCenter(p, p.inH - 1);
    EndCenters(p);
    hide DownFirst, DownLast, Center;
    FloorMonotone(Center(p, 0) - p.support + 0.5, 0.5);
    FloorMonotone((p.outH - 1) as real, Center(p, p.inH - 1) + p.support - 0.5);
  }

  lemma EndCenters(p: Plan)
    requires p.shift >= 0.0 && p.inH > 0 && p.scale * p.inH as real - p.shift >= p.outH as real
    ensures Center(p, 0) <= 0.5 * p.scale && Center(p, p.inH - 1) >= p.outH as real - 0.5 * p.scale
  {
    assert ((p.inH - 1) as real + 0.5) * p.scale == p.scale * p.inH as real - 0.5 * p.scale;
  }

  // ----- enlarging: stbir__buffer_loop_upsample

  ghost predicate IsPlan(p: Plan) { p.support >= 0.5 && p.scale > 0.0 && forall n :: |p.row(n)| == p.length }

  // The contributors of an output row lie in its window.
  ghost predicate UpContributors(p: Plan)
    requires p.scale > 0.0
  {
    forall y :: UpFirst(p, y) <= p.n0(y) && p.n1(y) <= UpLast(p, y)
  }

  // Rows `lo` to `hi` of the image, each times its coefficient for output row `y`.
  ghost function UpSum(p: Plan, y: int, lo: int, hi: int): (r: Row)
    requires IsPlan(p)
    ensures |r| == p.length
    decreases hi - lo
  {
    if hi <= lo then Zero(p.length) else Plus(UpSum(p, y, lo, hi - 1), p.row(hi - 1), p.coef(y, hi - 1))
  }

  ghost function Upsampled(p: Plan, y: int): (r: Row)
    requires IsPlan(p)
  {
    UpSum(p, y, p.n0(y), p.n1(y) + 1)
  }

  // The ring holds rows of the image from `first` on.
  ghost predicate Window(p: Plan, ring: RingBuffer, first: int)
    reads ring, ring.buffer
  {
    ring.Valid() && ring.length == p.length &&
    (ring.beginIndex >= 0 ==> ring.firstScanline == first) && forall n :: ring.Live(n) ==> ring.Scanline(n) == p.row(n)
  }

  method DropBelow(p: Plan, ring: RingBuffer, ghost was: int, first: int)
    requires Window(p, ring, was) && was <= first
    modifies ring
    ensures Window(p, ring, first)
  {
    if ring.beginIndex >= 0 {
      while first > ring.firstScanline
        invariant ring.beginIndex >= 0 && ring.firstScanline <= first && Window(p, ring, ring.firstScanline)
        decreases first - ring.firstScanline
      {
        ring.Pop();
        if ring.beginIndex < 0 { break; }
      }
    }
  }

  // `stbir__decode_and_resample_upsample`
  method LoadRow(p: Plan, ring: RingBuffer, n: int, ghost first: int)
    requires IsPlan(p) && Window(p, ring, first) && ring.buffer.Length > 0
    requires if ring.beginIndex < 0 then n == first else n == ring.lastScanline + 1 && n - ring.firstScanline < ring.buffer.Length
    modifies ring, ring.buffer
    ensures Window(p, ring, first) && ring.beginIndex >= 0 && ring.lastScanline == n
  {
    ring.AddEmpty(n);
    ring.Write(n, p.row(n));
  }

  // `stbir__resample_vertical_upsample`
  method ResampleUp(p: Plan, ring: RingBuffer, y: int) returns (encode: Row)
    requires IsPlan(p) && Window(p, ring, ring.firstScanline) && ring.beginIndex >= 0
    requires ring.firstScanline <= p.n0(y) && p.n1(y) <= ring.lastScanline
    ensures encode == Upsampled(p, y)
  {
    encode := Zero(p.length);
    var k := p.n0(y);
    while k <= p.n1(y)
      invariant p.n0(y) <= k && (k <= p.n1(y) + 1 || k == p.n0(y)) && encode == UpSum(p, y, p.n0(y), k)
      decreases p.n1(y) - k
    {
      assert ring.Live(k);
      encode := Plus(encode, ring.buffer[ring.Slot(k)], p.coef(y, k));
      k := k + 1;
    }
    if p.n1(y) + 1 < p.n0(y) { assert UpSum(p, y, p.n0(y), p.n0(y)) == Zero(p.length); }
  }

  method BufferLoopUpsample(p: Plan) returns (out: seq<Row>)
    requires IsPlan(p) && p.scale > 1.0 && UpContributors(p)
    ensures |out| == p.outH && forall y :: 0 <= y < p.outH ==> out[y] == Upsampled(p, y)
  {
    hide UpFirst, UpLast, Upsampled, Window;
    var entries := Ceil(2.0 * p.support) + 1;
    UpWindow(p, 0);
    var ring := new RingBuffer(entries, p.length);
    out := [];
    EmptyWindow(p, ring, UpFirst(p, 0));
    for y := 0 to p.outH
      invariant fresh(ring) && fresh(ring.buffer) && ring.buffer.Length == entries
      invariant Window(p, ring, UpFirst(p, if y == 0 then 0 else y - 1))
      invariant |out| == y && forall i :: 0 <= i < y ==> out[i] == Upsampled(p, i)
    {
      UpWindow(p, y);
      if y > 0 { UpWindow(p, y - 1); }
      var row := NextUp(p, ring, y);
      out := out + [row];
    }
  }

  lemma EmptyWindow(p: Plan, ring: RingBuffer, first: int)
    requires ring.Valid() && ring.length == p.length && ring.beginIndex < 0
    ensures Window(p, ring, first)
  {
  }

  // One turn of the loop.
  method NextUp(p: Plan, ring: RingBuffer, y: nat) returns (row: Row)
    requires IsPlan(p) && UpContributors(p)
    requires Window(p, ring, UpFirst(p, if y == 0 then 0 else y - 1)) && UpFirst(p, if y == 0 then 0 else y - 1) <= UpFirst(p, y)
    requires UpFirst(p, y) <= UpLast(p, y) && UpLast(p, y) - UpFirst(p, y) + 1 < ring.buffer.Length
    modifies ring, ring.buffer
    ensures Window(p, ring, UpFirst(p, y)) && row == Upsampled(p, y)
  {
    hide UpFirst, UpLast, Upsampled;
    var first, last := UpFirst(p, y), UpLast(p, y);
    DropBelow(p, ring, UpFirst(p, if y == 0 then 0 else y - 1), first);
    if ring.beginIndex < 0 { LoadRow(p, ring, first, first); }
    while last > ring.lastScanline
      invariant Window(p, ring, first) && ring.beginIndex >= 0
      decreases last - ring.lastScanline
    {
      LoadRow(p, ring, ring.lastScanline + 1, first);
    }
    row := ResampleUp(p, ring, y);
  }

  // ----- reducing: stbir__buffer_loop_downsample

  function Margin(p: Plan): int
    requires p.scale > 0.0
  {
    Ceil(2.0 * p.support / p.scale) / 2
  }

  // Rows beyond the margin reach nothing: those above the image none of the output rows when the shift is not negative, those
  // below it none when the output ends no later than the image.
  lemma MarginCovers(p: Plan, n: int)
    requires p.scale > 0.0 && p.support >= 0.5
    ensures p.shift >= 0.0 && n < -Margin(p) ==> DownLast(p, n) < 0
    ensures p.scale * p.inH as real - p.shift >= p.outH as real && n >= p.inH + Margin(p) ==> DownFirst(p, n) >= p.outH
  {
    hide *;
    MarginReach(p);
    DownMembers(p, n, DownLast(p, n));
    DownMembers(p, n, DownFirst(p, n));
    FirstLast(p, n);
    var r := Margin(p) as real + 0.5;
    if p.shift >= 0.0 && n < -Margin(p) { Above(n as real + 0.5, r, p.scale, p.support); }
    if p.scale * p.inH as real - p.shift >= p.outH as real && n >= p.inH + Margin(p) {
      Below(n as real + 0.5, p.inH as real, r, p.scale, p.support);
    }
  }

  lemma FirstLast(p: Plan, n: int)
    requires p.scale > 0.0 && p.support >= 0.5
    ensures DownFirst(p, n) <= DownLast(p, n)
  {
    DownCenter(p, n);
    FloorMonotone(Center(p, n) - p.support + 0.5, Center(p, n) + p.support - 0.5);
  }

  lemma Above(x: real, r: real, k: real, s: real)
    requires k > 0.0 && x <= -r && r * k >= s
    ensures x * k + s <= 0.0
  {
    Scaling(x, -r, k);
    assert -r * k == -(r * k);
  }

  lemma Below(x: real, h: real, r: real, k: real, s: real)
    requires k > 0.0 && x >= h + r && r * k >= s
    ensures x * k - s >= k * h
  {
    Scaling(h + r, x, k);
    assert (h + r) * k == k * h + r * k;
  }

  // Half a row more than the margin is at least the support.
  lemma MarginReach(p: Plan)
    requires p.scale > 0.0 && p.support >= 0.5
    ensures Margin(p) >= 0 && (Margin(p) as real + 0.5) * p.scale >= p.support
  {
    var a := 2.0 * p.support / p.scale;
    Scaled(p.support, p.scale);
    var w := Ceil(a);
    assert w as real >= a && w > 0;
    hide Ceil;
    var r := Margin(p) as real + 0.5;
    assert 2.0 * r >= w as real;
    Halved(a, r, p.support, p.scale);
  }

  lemma Scaled(s: real, k: real)
    requires k > 0.0 && s > 0.0
    ensures 2.0 * s / k > 0.0 && 2.0 * s / k * k == 2.0 * s
  {
  }

  lemma Halved(a: real, r: real, s: real, k: real)
    requires k > 0.0 && a <= 2.0 * r && a * k == 2.0 * s
    ensures r * k >= s
  {
    Scaling(a, 2.0 * r, k);
    assert 2.0 * r * k == 2.0 * (r * k);
  }

  lemma Scaling(a: real, b: real, k: real)
    requires a <= b && k > 0.0
    ensures a * k <= b * k
  {
    assert (b - a) * k >= 0.0;
    assert (b - a) * k == b * k - a * k;
  }

  // The output rows an input row contributes to lie in its window.
  ghost predicate DownContributors(p: Plan)
    requires p.scale > 0.0
  {
    forall y :: DownFirst(p, y) <= p.n0(y) && p.n1(y) <= DownLast(p, y)
  }

  // The scale is at most one; how the image is shifted does not matter.
  ghost predicate IsReduction(p: Plan) {
    IsPlan(p) && p.scale <= 1.0 && p.inH > 0 && p.outH > 0 && DownContributors(p)
  }

  // What the input rows from the margin up to `y` contribute to output row `k`.
  ghost function DownSum(p: Plan, k: int, y: int): (r: Row)
    requires IsPlan(p)
    ensures |r| == p.length
    decreases y + Margin(p)
  {
    if y <= -Margin(p) then Zero(p.length)
    else if p.n0(y - 1) <= k <= p.n1(y - 1) then Plus(DownSum(p, k, y - 1), p.row(y - 1), p.coef(y - 1, k))
    else DownSum(p, k, y - 1)
  }

  ghost function Downsampled(p: Plan, k: int): (r: Row)
    requires IsPlan(p)
  {
    DownSum(p, k, p.inH + Margin(p))
  }

  // Output rows `a` to `n`, each once and in order.
  ghost function Encoded(p: Plan, a: nat, n: nat): seq<(int, Row)>
    requires IsPlan(p)
  {
    if n <= a then [] else Encoded(p, a, n - 1) + [(n - 1, Downsampled(p, n - 1))]
  }

  // The output rows that lie in some window: from the start of the first one to the end of the last one.
  function Lowest(p: Plan): nat
    requires p.scale > 0.0
  {
    Clamp(DownFirst(p, -Margin(p)), p.outH)
  }

  function Highest(p: Plan): nat
    requires p.scale > 0.0
  {
    Clamp(DownLast(p, p.inH + Margin(p) - 1) + 1, p.outH)
  }

  function Clamp(x: int, h: nat): nat { if x < 0 then 0 else if x > h then h else x }

  // Rows whose windows come later add nothing.
  lemma {:induction false} NoMore(p: Plan, k: int, y: int, z: int)
    requires IsReduction(p) && -Margin(p) <= y <= z && k < DownFirst(p, y)
    ensures DownSum(p, k, z) == DownSum(p, k, y)
    decreases z - y
  {
    if y < z {
      NoMore(p, k, y, z - 1);
      DownMonotone(p, y, z - 1);
      assert DownFirst(p, z - 1) <= p.n0(z - 1);
      hide DownFirst, DownLast;
    }
  }

  // Rows whose windows ended before add nothing.
  lemma {:induction false} NothingYet(p: Plan, k: int, y: int)
    requires IsReduction(p) && k > DownLast(p, y - 1)
    ensures DownSum(p, k, y) == Zero(p.length)
    decreases y + Margin(p)
  {
    if y > -Margin(p) {
      assert p.n1(y - 1) <= DownLast(p, y - 1);
      DownMonotone(p, y - 2, y - 1);
      hide DownFirst, DownLast;
      NothingYet(p, k, y - 1);
    }
  }

  // The live output rows hold what has been contributed so far.
  ghost predicate Partial(p: Plan, ring: RingBuffer, y: int)
    requires IsPlan(p)
    reads ring, ring.buffer
  {
    ring.Valid() && ring.length == p.length &&
    forall k :: ring.Live(k) && 0 <= k < p.outH ==> ring.Scanline(k) == DownSum(p, k, y)
  }

  // `stbir__empty_ring_buffer`
  method EmptyRing(p: Plan, ring: RingBuffer, necessary: int, out0: seq<(int, Row)>, ghost y: int) returns (out: seq<(int, Row)>)
    requires IsReduction(p) && Partial(p, ring, y) && -Margin(p) <= y <= p.inH + Margin(p) && necessary <= p.outH
    requires ring.beginIndex >= 0 ==> out0 == Encoded(p, Lowest(p), Clamp(ring.firstScanline, p.outH))
    requires ring.beginIndex >= 0 ==> DownFirst(p, -Margin(p)) <= ring.firstScanline
    requires y < p.inH + Margin(p) ==> necessary <= DownFirst(p, y)
    modifies ring
    ensures Partial(p, ring, y)
    ensures old(ring.beginIndex) < 0 ==> ring.beginIndex < 0 && out == out0
    ensures old(ring.beginIndex) >= 0 && old(ring.lastScanline) >= necessary ==>
              ring.beginIndex >= 0 && ring.lastScanline == old(ring.lastScanline) &&
              ring.firstScanline == (if old(ring.firstScanline) < necessary then necessary else old(ring.firstScanline)) &&
              out == Encoded(p, Lowest(p), Clamp(ring.firstScanline, p.outH))
    ensures old(ring.beginIndex) >= 0 && old(ring.lastScanline) < necessary ==>
              ring.beginIndex < 0 && out == Encoded(p, Lowest(p), Clamp(old(ring.lastScanline) + 1, p.outH))
  {
    hide DownFirst, DownLast, Downsampled, Encoded, Lowest, Margin, Clamp, Partial;
    out := out0;
    if ring.beginIndex >= 0 {
      ghost var last := ring.lastScanline;
      InOrder(p, ring, y);
      while necessary > ring.firstScanline
        invariant Partial(p, ring, y) && ring.beginIndex >= 0 && ring.lastScanline == last
        invariant ring.firstScanline == old(ring.firstScanline) || ring.firstScanline <= necessary
        invariant old(ring.firstScanline) <= ring.firstScanline <= last
        invariant out == Encoded(p, Lowest(p), Clamp(ring.firstScanline, p.outH))
        decreases necessary - ring.firstScanline
      {
        var n := ring.firstScanline;
        EncodedNext(p, n);
        if 0 <= n < p.outH {
          var row := LiveRow(p, ring, n, y);
          Finished(p, n, y, necessary);
          out := out + [(n, row)];
        }
        PopPartial(p, ring, y);
        if ring.beginIndex < 0 { break; }
      }
    }
  }

  lemma EncodedNext(p: Plan, n: int)
    requires IsReduction(p) && DownFirst(p, -Margin(p)) <= n
    ensures var was, now := Encoded(p, Lowest(p), Clamp(n, p.outH)), Encoded(p, Lowest(p), Clamp(n + 1, p.outH));
      now == if 0 <= n < p.outH then was + [(n, Downsampled(p, n))] else was
  {
    hide DownFirst, Downsampled, Margin;
  }

  method LiveRow(p: Plan, ring: RingBuffer, n: int, ghost y: int) returns (row: Row)
    requires IsPlan(p) && Partial(p, ring, y) && ring.beginIndex >= 0 && ring.firstScanline == n && 0 <= n < p.outH
    ensures row == DownSum(p, n, y)
  {
    assert ring.Live(n);
    row := ring.buffer[ring.Slot(n)];
  }

  method PopPartial(p: Plan, ring: RingBuffer, ghost y: int)
    requires IsPlan(p) && Partial(p, ring, y) && ring.beginIndex >= 0
    modifies ring
    ensures Partial(p, ring, y)
    ensures if old(ring.firstScanline) == old(ring.lastScanline) then ring.beginIndex < 0
            else ring.beginIndex >= 0 && ring.firstScanline == old(ring.firstScanline) + 1 && ring.lastScanline == old(ring.lastScanline)
    ensures ring.beginIndex >= 0 ==> ring.firstScanline <= ring.lastScanline
  {
    hide DownSum;
    ring.Pop();
  }

  lemma InOrder(p: Plan, ring: RingBuffer, y: int)
    requires IsPlan(p) && Partial(p, ring, y) && ring.beginIndex >= 0
    ensures ring.firstScanline <= ring.lastScanline
  {
    hide DownSum;
  }

  // A row below every window still to come is complete.
  lemma Finished(p: Plan, k: int, y: int, necessary: int)
    requires IsReduction(p) && -Margin(p) <= y <= p.inH + Margin(p) && k < necessary
    requires y < p.inH + Margin(p) ==> necessary <= DownFirst(p, y)
    ensures DownSum(p, k, y) == Downsampled(p, k)
  {
    if y < p.inH + Margin(p) { NoMore(p, k, y, p.inH + Margin(p)); }
  }

  // Where the ring and the output stand before input row `y`.
  ghost predicate Reached(p: Plan, ring: RingBuffer, out: seq<(int, Row)>, y: int)
    requires IsPlan(p)
    reads ring, ring.buffer
  {
    Partial(p, ring, y) &&
    if ring.beginIndex < 0 then out == [] && (y == -Margin(p) || DownLast(p, y - 1) < 0 || DownFirst(p, -Margin(p)) >= p.outH)
    else y > -Margin(p) && DownLast(p, y - 1) >= 0 && out == Encoded(p, Lowest(p), Clamp(ring.firstScanline, p.outH)) &&
         DownFirst(p, -Margin(p)) <= ring.firstScanline &&
         if DownFirst(p, y - 1) < p.outH
         then ring.firstScanline == DownFirst(p, y - 1) && ring.lastScanline == DownLast(p, y - 1)
         else ring.lastScanline >= p.outH - 1
  }

  // A scanline no earlier row has contributed to.
  method AddZeros(p: Plan, ring: RingBuffer, k: int, ghost y: int)
    requires IsReduction(p) && Partial(p, ring, y) && ring.buffer.Length > 0
    requires ring.beginIndex >= 0 ==> k == ring.lastScanline + 1 && k - ring.firstScanline < ring.buffer.Length
    requires k < 0 || y == -Margin(p) || k > DownLast(p, y - 1)
    modifies ring, ring.buffer
    ensures Partial(p, ring, y) && ring.beginIndex >= 0 && ring.lastScanline == k
    ensures ring.firstScanline == if old(ring.beginIndex) < 0 then k else old(ring.firstScanline)
  {
    hide DownFirst, DownLast;
    if k >= 0 && y > -Margin(p) { NothingYet(p, k, y); }
    ring.AddEmpty(k);
  }

  // `stbir__resample_vertical_downsample`
  method ResampleDown(p: Plan, ring: RingBuffer, y: int)
    requires IsPlan(p) && Partial(p, ring, y) && ring.beginIndex >= 0 && y >= -Margin(p)
    requires ring.firstScanline <= p.n0(y) && p.n1(y) <= ring.lastScanline
    modifies ring.buffer
    ensures Partial(p, ring, y + 1)
  {
    var k := p.n0(y);
    while k <= p.n1(y)
      invariant p.n0(y) <= k && ring.Valid()
      invariant forall m :: ring.Live(m) && 0 <= m < p.outH ==>
        ring.Scanline(m) == if p.n0(y) <= m < k then DownSum(p, m, y + 1) else DownSum(p, m, y)
      decreases p.n1(y) - k
    {
      assert ring.Live(k);
      var row := Plus(ring.buffer[ring.Slot(k)], p.row(y), p.coef(y, k));
      ring.Write(k, row);
      k := k + 1;
    }
  }

  lemma WindowFacts(p: Plan, y: int)
    requires IsReduction(p) && -Margin(p) <= y
    ensures var first, last := DownFirst(p, y), DownLast(p, y);
      first <= last && last - first + 1 <= Ceil(2.0 * p.support / p.scale) && first <= p.n0(y) && p.n1(y) <= last &&
      DownFirst(p, y - 1) <= first <= DownLast(p, y - 1) + 1 && DownLast(p, y - 1) <= last && DownFirst(p, -Margin(p)) <= first
  {
    DownWindow(p, y);
    DownWindow(p, y - 1);
    MarginBound(p);
    DownMonotone(p, -Margin(p), y);
  }

  // One turn of the loop over input rows.
  method NextDown(p: Plan, ring: RingBuffer, out0: seq<(int, Row)>, y: int) returns (out: seq<(int, Row)>)
    requires IsReduction(p) && -Margin(p) <= y < p.inH + Margin(p) && Reached(p, ring, out0, y)
    requires ring.buffer.Length == Ceil(2.0 * p.support / p.scale) + 1
    modifies ring, ring.buffer
    ensures Reached(p, ring, out, y + 1)
  {
    hide DownFirst, DownLast, Ceil, Margin, Encoded, Partial;
    WindowFacts(p, y);
    if DownLast(p, y) < 0 || DownFirst(p, y) >= p.outH {
      out := out0;
      Skipped(p, ring, y);
    } else {
      out := ActiveDown(p, ring, out0, y);
    }
  }

  // ... whose window meets the output.
  method ActiveDown(p: Plan, ring: RingBuffer, out0: seq<(int, Row)>, y: int) returns (out: seq<(int, Row)>)
    requires IsReduction(p) && -Margin(p) <= y < p.inH + Margin(p) && Reached(p, ring, out0, y)
    requires DownLast(p, y) >= 0 && DownFirst(p, y) < p.outH && ring.buffer.Length == Ceil(2.0 * p.support / p.scale) + 1
    modifies ring, ring.buffer
    ensures Partial(p, ring, y + 1) && ring.beginIndex >= 0
    ensures ring.firstScanline == DownFirst(p, y) && ring.lastScanline == DownLast(p, y)
    ensures out == Encoded(p, Lowest(p), Clamp(DownFirst(p, y), p.outH))
  {
    hide DownFirst, DownLast, Ceil, Margin, Partial, Downsampled;
    WindowFacts(p, y);
    var first, last := DownFirst(p, y), DownLast(p, y);
    out := EmptyRing(p, ring, first, out0, y);
    hide Encoded;
    if ring.beginIndex < 0 { AddZeros(p, ring, first, y); }
    while last > ring.lastScanline
      invariant Partial(p, ring, y) && ring.beginIndex >= 0 && ring.firstScanline == first && ring.lastScanline <= last
      invariant ring.lastScanline >= first && (y == -Margin(p) || DownLast(p, y - 1) < 0 || ring.lastScanline >= DownLast(p, y - 1))
      decreases last - ring.lastScanline
    {
      AddZeros(p, ring, ring.lastScanline + 1, y);
    }
    ResampleDown(p, ring, y);
  }

  lemma Skipped(p: Plan, ring: RingBuffer, y: int)
    requires IsReduction(p) && y >= -Margin(p) && Partial(p, ring, y) && (DownLast(p, y) < 0 || DownFirst(p, y) >= p.outH)
    ensures Partial(p, ring, y + 1)
  {
    assert DownFirst(p, y) <= p.n0(y) && p.n1(y) <= DownLast(p, y);
    hide DownFirst, DownLast;
  }

  // The output rows some window reaches are encoded once, in order, and each is the sum of what all input rows contribute to it.
  method BufferLoopDownsample(p: Plan) returns (out: seq<(int, Row)>)
    requires IsReduction(p)
    ensures out == Encoded(p, Lowest(p), Highest(p))
  {
    hide DownFirst, DownLast, Downsampled, Ceil, Margin, Encoded;
    MarginBound(p);
    var entries, pixelMargin := Ceil(2.0 * p.support / p.scale) + 1, Margin(p);
    var ring := new RingBuffer(entries, p.length);
    out := [];
    var y := -pixelMargin;
    while y < p.inH + pixelMargin
      invariant -pixelMargin <= y <= p.inH + pixelMargin && fresh(ring) && fresh(ring.buffer) && ring.buffer.Length == entries
      invariant Reached(p, ring, out, y)
    {
      out := NextDown(p, ring, out, y);
      y := y + 1;
    }
    AtEnd(p, ring, out);
    out := EmptyRing(p, ring, p.outH, out, y);
  }

  // What is left in the ring, if anything is, ends with the highest row.
  lemma AtEnd(p: Plan, ring: RingBuffer, out: seq<(int, Row)>)
    requires IsReduction(p) && Reached(p, ring, out, p.inH + Margin(p))
    ensures Partial(p, ring, p.inH + Margin(p))
    ensures ring.beginIndex >= 0 ==> out == Encoded(p, Lowest(p), Clamp(ring.firstScanline, p.outH))
    ensures ring.beginIndex >= 0 ==> Clamp(ring.lastScanline + 1, p.outH) == Highest(p)
    ensures ring.beginIndex >= 0 && ring.lastScanline >= p.outH ==> Highest(p) == p.outH
    ensures ring.beginIndex < 0 ==> out == Encoded(p, Lowest(p), Highest(p))
  {
    hide DownFirst, DownLast, Partial, Ceil;
    MarginBound(p);
    DownMonotone(p, -Margin(p), p.inH + Margin(p) - 1);
    DownWindow(p, -Margin(p));
    DownWindow(p, p.inH + Margin(p) - 1);
  }

  lemma MarginBound(p: Plan)
    requires IsReduction(p)
    ensures Margin(p) >= 0 && Ceil(2.0 * p.support / p.scale) >= 1
  {
    DownWindow(p, 0);
  }

  // No output row is missing exactly if the first window starts at the first row or before, and the last one ends at the
  // last row or after.
  lemma AllEncoded(p: Plan)
    requires IsReduction(p)
    ensures Lowest(p) == 0 && Highest(p) == p.outH <==>
      DownFirst(p, -Margin(p)) <= 0 && DownLast(p, p.inH + Margin(p) - 1) >= p.outH - 1
    ensures p.shift >= 0.0 && p.scale * p.inH as real - p.shift >= p.outH as real ==> Lowest(p) == 0 && Highest(p) == p.outH
  {
    hide DownFirst, DownLast, Ceil;
    MarginBound(p);
    if p.shift >= 0.0 && p.scale * p.inH as real - p.shift >= p.outH as real {
      DownEnds(p);
      DownMonotone(p, -Margin(p), 0);
      DownMonotone(p, p.inH - 1, p.inH + Margin(p) - 1);
    }
  }

  // A region of the image, from `t0` to `t1` of its height, misses none.
  lemma Region(p: Plan, t0: real, t1: real)
    requires IsReduction(p) && 0.0 <= t0 < t1 <= 1.0
    requires p.scale * p.inH as real * (t1 - t0) == p.outH as real && p.shift == t0 * (p.scale * p.inH as real)
    ensures Lowest(p) == 0 && Highest(p) == p.outH
  {
    hide Lowest, Highest, DownContributors;
    var h := p.scale * p.inH as real;
    assert h >= 0.0;
    NotLess(h, t0);
    NotLess(h, 1.0 - t1);
    assert h - t0 * h == h * (t1 - t0) + h * (1.0 - t1);
    AllEncoded(p);
  }

  lemma NotLess(a: real, b: real)
    requires a >= 0.0 && b >= 0.0
    ensures a * b >= 0.0
  {
  }

  // With rows of the same height and shifted by ten, nothing reaches the first ten output rows.
  lemma RowsUnreached(p: Plan)
    requires p.scale == 1.0 && p.support == 0.5 && p.shift == -10.0
    ensures Lowest(p) == Clamp(10, p.outH)
  {
    assert Margin(p) == 0;
  }

  // Row `k` of the result is written once, and holds the direct sum.
  lemma {:induction false} EncodedAt(p: Plan, a: nat, n: nat, k: nat)
    requires IsPlan(p) && a <= k < n
    ensures |Encoded(p, a, n)| == n - a && Encoded(p, a, n)[k - a] == (k as int, Downsampled(p, k))
  {
    EncodedLength(p, a, n - 1);
    if k < n - 1 { EncodedAt(p, a, n - 1, k); }
  }

  lemma {:induction false} EncodedLength(p: Plan, a: nat, n: nat)
    requires IsPlan(p)
    ensures |Encoded(p, a, n)| == if n <= a then 0 else n - a
  {
    if n > a { EncodedLength(p, a, n - 1); }
  }

  // ----- the rows, number by number

  // What input row `y` adds to number `x` of output row `k`.
  ghost function DownTerm(p: Plan, k: int, x: nat, y: int): real
    requires IsPlan(p) && x < p.length
  {
    if p.n0(y) <= k <= p.n1(y) then p.row(y)[x] * p.coef(y, k) else 0.0
  }

  ghost function DownTerms(p: Plan, k: int, x: nat, lo: int, hi: int): real
    requires IsPlan(p) && x < p.length
    decreases hi - lo
  {
    if hi <= lo then 0.0 else DownTerms(p, k, x, lo, hi - 1) + DownTerm(p, k, x, hi - 1)
  }

  // Each number of an output row is the sum, over all input rows, of theirs times the coefficients of those that contribute.
  lemma {:induction false} DownsampledAt(p: Plan, k: int, x: nat, y: int)
    requires IsPlan(p) && x < p.length && y >= -Margin(p)
    ensures DownSum(p, k, y)[x] == DownTerms(p, k, x, -Margin(p), y)
    decreases y + Margin(p)
  {
    hide Margin;
    if y > -Margin(p) { DownsampledAt(p, k, x, y - 1); }
  }

  ghost function UpTerms(p: Plan, y: int, x: nat, lo: int, hi: int): real
    requires IsPlan(p) && x < p.length
    decreases hi - lo
  {
    if hi <= lo then 0.0 else UpTerms(p, y, x, lo, hi - 1) + p.row(hi - 1)[x] * p.coef(y, hi - 1)
  }

  lemma {:induction false} UpsampledAt(p: Plan, y: int, x: nat, hi: int)
    requires IsPlan(p) && x < p.length && hi >= p.n0(y)
    ensures UpSum(p, y, p.n0(y), hi)[x] == UpTerms(p, y, x, p.n0(y), hi)
    decreases hi - p.n0(y)
  {
    if hi > p.n0(y) { UpsampledAt(p, y, x, hi - 1); }
  }
}
