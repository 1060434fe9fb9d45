// The entropy coder of the JPEG writer: `stbiw__jpg_writeBits` with byte stuffing, `stbiw__jpg_calcBits`, and the part of
// `stbiw__jpg_processDU` that codes the quantised coefficients.

module JpegWriter {
  import opened BitStream
  import opened JpegBits
  import opened JpegBlock

  // ----- sizes of coefficients

  // The number of bits of `v`.
  function Size(v: nat): (n: nat)
    ensures v < Pow2(n) && (v > 0 ==> n > 0 && Pow2(n - 1) <= v)
  {
    if v == 0 then 0 else 1 + Size(v / 2)
  }

  // The bits that follow the symbol of a coefficient.
  function Low(v: int, n: nat): nat { (if v < 0 then v - 1 else v) % Pow2(n) }

  // Receiving and extending them gives the coefficient back.
  lemma ExtendLow(v: int)
    requires v != 0
    ensures var n := Size(Abs(v)); n > 0 && Low(v, n) < Pow2(n) && Extend(Low(v, n), n) == v
  {
    var n := Size(Abs(v));
    var p := Pow2(n - 1);
    assert Pow2(n) == 2 * p;
    if v < 0 {
      DivModUnique(v - 1 + 2 * p, 2 * p, 0, v - 1 + 2 * p);
      assert (v - 1) % (2 * p) == (v - 1 + 2 * p) % (2 * p) by { Wrap(v - 1, 2 * p); }
    } else {
      DivModUnique(v, 2 * p, 0, v);
    }
  }

  lemma Wrap(a: int, m: int)
    requires m > 0 && -m <= a < 0
    ensures a % m == (a + m) % m == a + m
  {
    var q, r := a / m, a % m;
    assert a == m * q + r;
    DivModUnique(a + m, m, 0, a + m);
    assert (q + 1) * m == m * q + m;
    SmallMultiple(q + 1, m);
  }

  method CalcBits(val0: int) returns (bits: (nat, nat))
    requires val0 != 0
    ensures bits == (Low(val0, Size(Abs(val0))), Size(Abs(val0)))
  {
    var tmp1 := if val0 < 0 then -val0 else val0;
    var val := if val0 < 0 then val0 - 1 else val0;
    var n: nat := 1;
    tmp1 := tmp1 / 2;
    while tmp1 != 0
      invariant tmp1 >= 0 && Size(Abs(val0)) == n + Size(tmp1)
    {
      n := n + 1;
      tmp1 := tmp1 / 2;
    }
    bits := (val % Pow2(n), n);
  }

  // ----- the bit buffer

  // 0xFF is followed by a zero byte.
  function Stuffed(data: seq<byte>): seq<byte> {
    if data == [] then [] else Stuffed(data[..|data| - 1]) + (if data[|data| - 1] == 0xFF then [0xFF, 0] else [data[|data| - 1]])
  }

  // The buffer's low 24 bits start with `pend`, most significant first; bits above them are left over.
  ghost predicate Holds(buf: nat, pend: seq<bool>) {
    |pend| <= 24 && buf % 0x1000000 == Msb(pend) * Pow2(24 - |pend|)
  }

  lemma MsbAppend(pend: seq<bool>, v: nat, n: nat)
    requires v < Pow2(n)
    ensures Msb(pend + MsbBits(v, n)) == Msb(pend) * Pow2(n) + v && Msb(pend) < Pow2(|pend|)
  {
    MsbConcat(pend, MsbBits(v, n));
    MsbOf(v, n);
    NatBound(Rev(pend));
  }

  lemma HoldsMore(buf: nat, pend: seq<bool>, v: nat, n: nat)
    requires Holds(buf, pend) && |pend| + n <= 24 && v < Pow2(n)
    ensures Holds(BitOr(buf, Shl(v, 24 - |pend| - n)), pend + MsbBits(v, n))
  {
    hide Pow2, Msb, MsbBits, Shl, BitOr;
    MsbAppend(pend, v, n);
    OrLow(buf, |pend|, Msb(pend), n, 24 - |pend| - n, v);
    assert 24 - |pend + MsbBits(v, n)| == 24 - |pend| - n;
  }

  lemma OrLow(buf: nat, c: nat, m: nat, n: nat, k: nat, v: nat)
    requires c + n + k == 24 && m < Pow2(c) && v < Pow2(n) && buf % 0x1000000 == m * Pow2(24 - c)
    ensures BitOr(buf, Shl(v, k)) % 0x1000000 == (m * Pow2(n) + v) * Pow2(k)
  {
    hide Pow2, Shl, BitOr;
    var g, a, b, q := buf / 0x1000000, Pow2(c), Pow2(n), Pow2(k);
    Pow24(c);
    Pow2Add(n, k);
    Shifted(g, a, m, b, q, buf);
    OrBelow(g * a + m, n, k, v);
    NewLow(g, a, m, b, q, v);
  }

  lemma OrBelow(x: nat, n: nat, k: nat, v: nat)
    requires v < Pow2(n)
    ensures BitOr((x * Pow2(n)) * Pow2(k), Shl(v, k)) == (x * Pow2(n) + v) * Pow2(k)
  {
    OrShift(x * Pow2(n), v, k);
    OrComm(x * Pow2(n), v);
    OrDisjoint(v, n, x);
  }

  lemma Pow24(c: nat)
    requires c <= 24
    ensures Pow2(c) * Pow2(24 - c) == 0x1000000
  {
    Pow2Small();
    Pow2Add(c, 24 - c);
    Pow2Add(16, 8);
  }

  lemma Assoc(x: int, y: int, z: int)
    ensures (x * y) * z == x * (y * z)
  {
  }

  lemma Shifted(g: nat, a: nat, m: nat, b: nat, q: nat, buf: nat)
    requires a * (b * q) == 0x1000000 && buf == g * 0x1000000 + m * (b * q)
    ensures buf == ((g * a + m) * b) * q
  {
    var z := b * q;
    Assoc(g * a + m, b, q);
    Distribute(g * a, m, z);
    Assoc(g, a, z);
  }

  lemma NewLow(g: nat, a: nat, m: nat, b: nat, q: nat, v: nat)
    requires a * (b * q) == 0x1000000 && m < a && v < b && q > 0
    ensures ((g * a + m) * b + v) * q % 0x1000000 == (m * b + v) * q
  {
    Shifted(g, a, m, b, q, g * 0x1000000 + m * (b * q));
    Distribute((g * a + m) * b, v, q);
    Assoc(m, b, q);
    Distribute(m * b, v, q);
    Below(a, m, b, v);
    Assoc(a, b, q);
    Below(a * b, m * b + v, q, 0);
    DivModUnique(((g * a + m) * b + v) * q, 0x1000000, g, (m * b + v) * q);
  }

  lemma Below(a: nat, m: nat, b: nat, v: nat)
    requires m < a && v < b
    ensures m * b + v < a * b
  {
    Distribute(m + 1, a - m - 1, b);
    Distribute(m, 1, b);
    MulNonNegative(a - m - 1, b);
  }

  lemma HoldsByte(buf: nat, pend: seq<bool>)
    requires Holds(buf, pend) && |pend| >= 8
    ensures BitAnd(Shr(buf, 16), 255) < 256 && MsbBits(BitAnd(Shr(buf, 16), 255), 8) == pend[..8]
    ensures Holds(Shl(buf, 8) % 0x1_0000_0000, pend[8..])
  {
    var c, g := |pend|, buf / 0x1000000;
    var hi, lo := Msb(pend[..8]), Msb(pend[8..]);
    assert pend == pend[..8] + pend[8..];
    MsbConcat(pend[..8], pend[8..]);
    NatBound(Rev(pend[..8]));
    Pow2Small();
    Pow2Add(c - 8, 24 - c);
    Pow2Add(24 - c, 8);
    AndMask(Shr(buf, 16), 8);
    var a, q := Pow2(c - 8), Pow2(24 - c);
    hide Pow2, Msb, MsbBits, BitAnd, Shl, BitOr;
    TopByte(g, hi, lo, a, q, buf);
    MsbOf(hi, 8);
    MsbInjective(MsbBits(hi, 8), pend[..8]);
    assert 24 - |pend[8..]| == 24 - c + 8;
  }

  lemma TopByte(g: nat, hi: nat, lo: nat, a: nat, q: nat, buf: nat)
    requires a * q == 0x10000 && lo < a && hi < 256 && q > 0
    requires buf == g * 0x1000000 + (hi * a + lo) * q
    ensures buf / 0x10000 % 256 == hi && buf * 256 % 0x1_0000_0000 % 0x1000000 == lo * (q * 256)
  {
    Distribute(hi * a, lo, q);
    Assoc(hi, a, q);
    Below(a, lo, q, 0);
    var r := lo * q;
    assert buf == g * 0x1000000 + hi * 0x10000 + r && r < 0x10000;
    Assoc(lo, q, 256);
    DivModUnique(buf, 0x10000, g * 256 + hi, r);
    DivModUnique(g * 256 + hi, 256, g, hi);
    LowBytes(buf, r);
  }

  lemma LowBytes(buf: nat, r: nat)
    requires buf % 0x10000 == r
    ensures buf * 256 % 0x1_0000_0000 % 0x1000000 == r * 256
  {
    var w := buf / 0x10000;
    assert buf == w * 0x10000 + r;
    DivModUnique(buf * 256, 0x1_0000_0000, w / 256, w % 256 * 0x1000000 + r * 256);
    DivModUnique(w % 256 * 0x1000000 + r * 256, 0x1000000, w % 256, r * 256);
  }

  class JpegWriter {
    var bitBuf: nat
    var bitCnt: nat
    var out: seq<byte>
    // The bytes written, before stuffing, and the bits still in the buffer.
    ghost var data: seq<byte>
    ghost var pend: seq<bool>

    ghost predicate Valid()
      reads this
    {
      bitCnt == |pend| < 8 && Holds(bitBuf, pend) && out == Stuffed(data)
    }

    ghost function Written(): seq<bool>
      reads this
    {
      DataBits(data) + pend
    }

    constructor ()
      ensures Valid() && Written() == [] && out == []
    {
      bitBuf, bitCnt, out := 0, 0, [];
      data, pend := [], [];
      new;
      NoBits();
    }

    static lemma NoBits()
      ensures Holds(0, [])
    {
      assert Rev([]) == [];
    }

    // `stbiw__jpg_writeBits`
    method WriteBits(bs: (nat, nat))
      requires Valid() && bs.1 <= 16 && bs.0 < Pow2(bs.1)
      modifies this
      ensures Valid() && Written() == old(Written()) + MsbBits(bs.0, bs.1)
    {
      hide Holds, MsbBits, BitOr, Shl, DataBits, Stuffed;
      HoldsMore(bitBuf, pend, bs.0, bs.1);
      bitCnt := bitCnt + bs.1;
      bitBuf := BitOr(bitBuf, Shl(bs.0, 24 - bitCnt));
      pend := pend + MsbBits(bs.0, bs.1);
      assert Written() == old(Written()) + MsbBits(bs.0, bs.1);
      while bitCnt >= 8
        invariant bitCnt == |pend| && Holds(bitBuf, pend) && out == Stuffed(data)
        invariant Written() == old(Written()) + MsbBits(bs.0, bs.1)
        decreases bitCnt
      {
        WriteByte();
      }
    }

    method WriteByte()
      requires bitCnt == |pend| && Holds(bitBuf, pend) && out == Stuffed(data) && bitCnt >= 8
      modifies this
      ensures bitCnt == |pend| == old(bitCnt) - 8 && Holds(bitBuf, pend) && out == Stuffed(data)
      ensures Written() == old(Written())
    {
      hide Holds, MsbBits, BitAnd, Shr, Shl, Stuffed, DataBits;
      HoldsByte(bitBuf, pend);
      var c := BitAnd(Shr(bitBuf, 16), 255);
      out := out + [c];
      if c == 255 {
        out := out + [0];
      }
      StuffedPush(data, c);
      DataBitsConcat(data, [c]);
      OneByte(c);
      assert pend == pend[..8] + pend[8..];
      data, pend := data + [c], pend[8..];
      bitBuf := Shl(bitBuf, 8) % 0x1_0000_0000;
      bitCnt := bitCnt - 8;
    }

    static lemma StuffedPush(data: seq<byte>, c: byte)
      ensures Stuffed(data + [c]) == Stuffed(data) + (if c == 0xFF then [0xFF, 0] else [c])
    {
      assert (data + [c])[..|data|] == data;
    }

    static lemma OneByte(c: byte)
      ensures DataBits([c]) == MsbBits(c, 8)
    {
      assert [c][1..] == [];
    }
  }

  // ----- the bits of a block

  // The code and the length of each symbol.
  type Table = ht: seq<(nat, nat)> | |ht| == 256 && forall i :: 0 <= i < 256 ==> ht[i].1 <= 16 && ht[i].0 < Pow2(ht[i].1)
    witness NoCodes()

  function NoCodes(): (ht: seq<(nat, nat)>)
    ensures |ht| == 256 && forall i :: 0 <= i < 256 ==> ht[i] == (0, 0) && ht[i].0 < Pow2(ht[i].1)
  {
    seq(256, i => (0, 0))
  }

  // The coefficients of a block in zigzag order.
  type Coefs = du: seq<int> | |du| == 64 && forall k :: 0 <= k < 64 ==> -0x8000 < du[k] < 0x8000
    witness seq(64, i => 0)

  lemma {:induction false} SizeBelow(v: nat, n: nat)
    requires v < Pow2(n)
    ensures Size(v) <= n
  {
    if Size(v) > n { Pow2Monotone(n, Size(v) - 1); }
  }

  function CoefSize(v: int): (n: nat)
    requires -0x8000 < v < 0x8000
    ensures n <= 15 && (v != 0 ==> n > 0)
  {
    Pow2Small();
    SizeBelow(Abs(v), 15);
    Size(Abs(v))
  }

  ghost function Entry(ht: Table, i: nat): seq<bool>
    requires i < 256
  {
    MsbBits(ht[i].0, ht[i].1)
  }

  ghost function CoefBits(v: int): seq<bool>
    requires -0x8000 < v < 0x8000
  {
    MsbBits(Low(v, CoefSize(v)), CoefSize(v))
  }

  ghost function Repeated(w: seq<bool>, n: nat): seq<bool> { if n == 0 then [] else Repeated(w, n - 1) + w }

  // The first position from `i` on that is not zero.
  function NextNonzero(du: Coefs, i: nat): (r: nat)
    requires i <= 64
    ensures i <= r <= 64 && (r < 64 ==> du[r] != 0) && forall k :: i <= k < r ==> du[k] == 0
    decreases 64 - i
  {
    if i == 64 || du[i] != 0 then i else NextNonzero(du, i + 1)
  }

  // Runs of zeros and coefficients from position `i` on; 0xF0 stands for sixteen zeros, 0 for the end of the block.
  ghost function AcBits(ht: Table, du: Coefs, i: nat): seq<bool>
    requires 1 <= i <= 64
    decreases 64 - i
  {
    if i == 64 then []
    else
      var j := NextNonzero(du, i);
      if j == 64 then Entry(ht, 0) else RunBits(ht, j - i, du[j]) + AcBits(ht, du, j + 1)
  }

  ghost function RunBits(ht: Table, zeros: nat, v: int): seq<bool>
    requires zeros < 64 && v != 0 && -0x8000 < v < 0x8000
  {
    Repeated(Entry(ht, 0xF0), zeros / 16) + (Entry(ht, zeros % 16 * 16 + CoefSize(v)) + CoefBits(v))
  }

  ghost function DcBits(ht: Table, diff: int): seq<bool>
    requires -0x8000 < diff < 0x8000
  {
    if diff == 0 then Entry(ht, 0) else Entry(ht, CoefSize(diff)) + CoefBits(diff)
  }

  // ----- stbiw__jpg_processDU, from the quantised coefficients on

  method ProcessDU(w: JpegWriter, du: Coefs, dc: int, htdc: Table, htac: Table)
    requires w.Valid() && -0x8000 < du[0] - dc < 0x8000
    modifies w
    ensures w.Valid() && w.Written() == old(w.Written()) + (DcBits(htdc, du[0] - dc) + AcBits(htac, du, 1))
  {
    hide AcBits, MsbBits, Pow2, Low, Size, JpegWriter.Valid, JpegWriter.Written;
    WriteDc(w, du[0] - dc, htdc);
    ghost var start, dcBits := old(w.Written()), DcBits(htdc, du[0] - dc);
    assert w.Written() == start + dcBits;
    var end0pos := 63;
    while end0pos > 0 && du[end0pos] == 0
      invariant 0 <= end0pos <= 63 && forall k :: end0pos < k < 64 ==> du[k] == 0
    {
      end0pos := end0pos - 1;
    }
    AcTail(htac, du, end0pos + 1);
    if end0pos == 0 {
      w.WriteBits(htac[0]);
      assert start + dcBits + Entry(htac, 0) == start + (dcBits + Entry(htac, 0));
      return;
    }
    var i := 1;
    assert start + dcBits + AcBits(htac, du, 1) == start + (dcBits + AcBits(htac, du, 1));
    while i <= end0pos
      invariant 1 <= i <= end0pos + 1 && w.Valid()
      invariant w.Written() + AcBits(htac, du, i) == start + (dcBits + AcBits(htac, du, 1))
      decreases end0pos - i
    {
      i := WriteRun(w, du, i, end0pos, htac);
    }
    if end0pos != 63 {
      w.WriteBits(htac[0]);
    }
    assert w.Written() + [] == w.Written();
  }

  lemma AcTail(ht: Table, du: Coefs, i: nat)
    requires 1 <= i <= 64 && forall k :: i <= k < 64 ==> du[k] == 0
    ensures AcBits(ht, du, i) == if i == 64 then [] else Entry(ht, 0)
  {
  }

  method WriteDc(w: JpegWriter, diff: int, ht: Table)
    requires w.Valid() && -0x8000 < diff < 0x8000
    modifies w
    ensures w.Valid() && w.Written() == old(w.Written()) + DcBits(ht, diff)
  {
    hide MsbBits, Pow2, Low, Size, JpegWriter.Valid, JpegWriter.Written;
    if diff == 0 {
      w.WriteBits(ht[0]);
    } else {
      WriteCoef(w, ht, 0, diff);
    }
  }

  // A symbol and the bits of the coefficient it announces.
  method WriteCoef(w: JpegWriter, ht: Table, run: nat, v: int)
    requires w.Valid() && run < 16 && v != 0 && -0x8000 < v < 0x8000
    modifies w
    ensures w.Valid() && w.Written() == old(w.Written()) + (Entry(ht, run * 16 + CoefSize(v)) + CoefBits(v))
  {
    hide MsbBits, Pow2, Low, JpegWriter.Valid, JpegWriter.Written;
    ExtendLow(v);
    var bits := CalcBits(v);
    hide Size;
    assert bits == (Low(v, CoefSize(v)), CoefSize(v));
    w.WriteBits(ht[run * 16 + bits.1]);
    w.WriteBits(bits);
    assert old(w.Written()) + Entry(ht, run * 16 + CoefSize(v)) + CoefBits(v)
        == old(w.Written()) + (Entry(ht, run * 16 + CoefSize(v)) + CoefBits(v));
  }

  method SkipZeros(du: Coefs, i0: nat, end0pos: nat) returns (i: nat)
    requires i0 <= end0pos < 64 && du[end0pos] != 0
    ensures i0 <= i <= end0pos && du[i] != 0 && forall k :: i0 <= k < i ==> du[k] == 0
  {
    i := i0;
    while du[i] == 0 && i <= end0pos
      invariant i0 <= i <= end0pos && forall k :: i0 <= k < i ==> du[k] == 0
    {
      i := i + 1;
    }
  }

  // A run of zeros and the coefficient that ends it.
  method WriteRun(w: JpegWriter, du: Coefs, i0: nat, end0pos: nat, ht: Table) returns (i: nat)
    requires w.Valid() && 1 <= i0 <= end0pos < 64 && du[end0pos] != 0
    modifies w
    ensures w.Valid() && i0 < i <= end0pos + 1
    ensures w.Written() + AcBits(ht, du, i) == old(w.Written()) + AcBits(ht, du, i0)
  {
    hide MsbBits, Pow2, Low, Size, CoefSize, JpegWriter.Valid, JpegWriter.Written, Entry, CoefBits, AcBits, Repeated, RunBits;
    i := SkipZeros(du, i0, end0pos);
    ghost var rest := AcBits(ht, du, i + 1);
    RunStep(ht, du, i0, i);
    RunIs(ht, i - i0, du[i], w.Written(), rest);
    var nrzeroes := i - i0;
    if nrzeroes >= 16 {
      WriteZeros(w, nrzeroes / 16, ht);
      nrzeroes := nrzeroes % 16;
    }
    WriteCoef(w, ht, nrzeroes, du[i]);
    i := i + 1;
  }

  lemma RunIs(ht: Table, zeros: nat, v: int, start: seq<bool>, rest: seq<bool>)
    requires zeros < 64 && v != 0 && -0x8000 < v < 0x8000
    ensures var z := Repeated(Entry(ht, 0xF0), zeros / 16);
      start + z + (Entry(ht, zeros % 16 * 16 + CoefSize(v)) + CoefBits(v)) + rest == start + (RunBits(ht, zeros, v) + rest)
    ensures zeros < 16 ==> start + Repeated(Entry(ht, 0xF0), zeros / 16) == start
  {
    hide Entry, CoefBits;
    var z, x := Repeated(Entry(ht, 0xF0), zeros / 16), Entry(ht, zeros % 16 * 16 + CoefSize(v)) + CoefBits(v);
    assert start + z + x + rest == start + ((z + x) + rest);
    if zeros < 16 { assert z == []; }
  }

  method WriteZeros(w: JpegWriter, lng: nat, ht: Table)
    requires w.Valid()
    modifies w
    ensures w.Valid() && w.Written() == old(w.Written()) + Repeated(Entry(ht, 0xF0), lng)
  {
    hide MsbBits, Pow2, JpegWriter.Valid, JpegWriter.Written;
    ghost var start, zrl := w.Written(), Entry(ht, 0xF0);
    for nrmarker := 0 to lng
      invariant w.Valid() && w.Written() == start + Repeated(zrl, nrmarker)
    {
      w.WriteBits(ht[0xF0]);
      assert start + Repeated(zrl, nrmarker) + zrl == start + (Repeated(zrl, nrmarker) + zrl);
    }
  }

  lemma RunStep(ht: Table, du: Coefs, i: nat, j: nat)
    requires 1 <= i <= j < 64 && du[j] != 0 && forall k :: i <= k < j ==> du[k] == 0
    ensures AcBits(ht, du, i) == RunBits(ht, j - i, du[j]) + AcBits(ht, du, j + 1)
  {
    hide RunBits;
    assert NextNonzero(du, i) == j;
  }
}
