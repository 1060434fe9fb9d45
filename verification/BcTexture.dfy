// Where a BCn decoder puts the texels of one 4x4 block: rows of a destination texture, cut off at its right and lower edge.

module BcTexture {
  import opened BitStream

  // `at` is where the block's first texel goes; the texture has `w` by `h` texels of `bpp` bytes and the block stands at
  // texel (`x`, `y`) of it. Texels of the block are numbered row by row.
  datatype Grid = Grid(at: nat, x: nat, y: nat, w: nat, h: nat, bpp: nat, pitch: nat) {
    predicate In(t: nat) { t < 16 && x + t % 4 < w && y + t / 4 < h }

    function Slot(t: nat): nat { at + (t % 4) * bpp + (t / 4) * pitch }

    // The texels lie inside `size` bytes and rows do not overlap.
    ghost predicate Fits(size: nat) {
      forall t: nat :: In(t) ==> Slot(t) + bpp <= size && (t % 4) * bpp + bpp <= pitch
    }
  }

  lemma Inside(g: Grid, size: nat, t: nat)
    requires g.In(t) && g.Fits(size)
    ensures g.Slot(t) + g.bpp <= size
  {
  }

  lemma SameDigits(m: nat, q: nat, a: nat, q': nat, a': nat)
    requires a < m && a' < m && q * m + a == q' * m + a'
    ensures q == q' && a == a'
  {
    DivModUnique(q * m + a, m, q, a);
    DivModUnique(q * m + a, m, q', a');
  }

  // No byte belongs to two texels.
  lemma Apart(g: Grid, size: nat, t: nat, c: nat, t': nat, c': nat)
    requires g.In(t) && g.In(t') && g.Fits(size) && c < g.bpp && c' < g.bpp && g.Slot(t) + c == g.Slot(t') + c'
    ensures t == t' && c == c'
  {
    SameDigits(g.pitch, t / 4, (t % 4) * g.bpp + c, t' / 4, (t' % 4) * g.bpp + c');
    SameDigits(g.bpp, t % 4, c, t' % 4, c');
  }

  // `now` is `was` with bytes `lo` to `lo + n` of the block's first `upto` texels set to `texels`.
  ghost predicate Painted(g: Grid, now: seq<byte>, was: seq<byte>, lo: nat, n: nat, texels: seq<seq<byte>>, upto: nat)
    requires |texels| == 16 && forall t :: 0 <= t < 16 ==> |texels[t]| == n
  {
    |now| == |was| && g.Fits(|now|) && lo + n <= g.bpp &&
    (forall t: nat, k: nat :: g.In(t) && t < upto && g.Slot(t) + lo <= k < g.Slot(t) + lo + n ==>
      now[k] == texels[t][k - g.Slot(t) - lo]) &&
    (forall k: nat :: k < |now| && (forall t: nat :: g.In(t) && t < upto ==> !(g.Slot(t) + lo <= k < g.Slot(t) + lo + n)) ==>
      now[k] == was[k])
  }

  lemma PaintNone(g: Grid, was: seq<byte>, lo: nat, n: nat, texels: seq<seq<byte>>)
    requires |texels| == 16 && (forall t :: 0 <= t < 16 ==> |texels[t]| == n) && g.Fits(|was|) && lo + n <= g.bpp
    ensures Painted(g, was, was, lo, n, texels, 0)
  {
  }

  // Past the edge nothing is painted.
  lemma PaintSkip(g: Grid, now: seq<byte>, was: seq<byte>, lo: nat, n: nat, texels: seq<seq<byte>>, upto: nat, upto': nat)
    requires |texels| == 16 && (forall t :: 0 <= t < 16 ==> |texels[t]| == n)
    requires upto <= upto' && Painted(g, now, was, lo, n, texels, upto)
    requires forall t: nat :: upto <= t < upto' ==> !g.In(t)
    ensures Painted(g, now, was, lo, n, texels, upto')
  {
    assert Painted(g, now, was, lo, n, texels, upto);
  }

  function Store(d: seq<byte>, s: nat, texel: seq<byte>): (r: seq<byte>)
    requires s + |texel| <= |d|
    ensures |r| == |d|
    ensures forall k :: 0 <= k < |d| ==> r[k] == if s <= k < s + |texel| then texel[k - s] else d[k]
  {
    d[..s] + texel + d[s + |texel|..]
  }

  lemma StoreOne(d: seq<byte>, s: nat, v: byte)
    requires s < |d|
    ensures Store(d, s, [v]) == d[s := v]
  {
  }

  lemma PaintStep(g: Grid, now: seq<byte>, was: seq<byte>, lo: nat, n: nat, texels: seq<seq<byte>>, u: nat)
    requires |texels| == 16 && forall t :: 0 <= t < 16 ==> |texels[t]| == n
    requires g.In(u) && Painted(g, now, was, lo, n, texels, u)
    ensures g.Slot(u) + lo + n <= |now|
    ensures Painted(g, Store(now, g.Slot(u) + lo, texels[u]), was, lo, n, texels, u + 1)
  {
    hide Store, Grid.Slot, Grid.Fits;
    Inside(g, |now|, u);
    var s := g.Slot(u) + lo;
    var next := Store(now, s, texels[u]);
    forall t: nat, k: nat | g.In(t) && t < u + 1 && g.Slot(t) + lo <= k < g.Slot(t) + lo + n
      ensures k < |next| && next[k] == texels[t][k - g.Slot(t) - lo]
    {
      Inside(g, |now|, t);
      if s <= k < s + n { Apart(g, |now|, u, lo + (k - s), t, k - g.Slot(t)); }
    }
  }
}
