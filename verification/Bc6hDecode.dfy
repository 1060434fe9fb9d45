// The BC6H decoder itself: `RGBf`, `interpolate` and `Block::decode`.

module Bc6hDecode {
  import opened BitStream
  import opened BcTexture
  import BcColor
  import opened Bc6hData
  import opened Bc6hModes
  import opened Bc6hColor
  import opened Bc6h
  import opened Wrappers

  // The number a 16-bit pattern stands for.
  function Meaning(p: nat, isSigned: bool): int { if isSigned then Signed(p, 16) else p }

  // ----- `RGBf`

  class RGBf {
    var channel: seq<nat>
    var size: seq<nat>
    var isSigned: bool

    ghost predicate Valid()
      reads this
    {
      |channel| == 3 && |size| == 3 && forall c :: 0 <= c < 3 ==> channel[c] < 0x1_0000 && 1 <= size[c] <= 16
    }

    constructor (isSigned: bool, size: seq<nat>)
      requires |size| == 3 && forall c :: 0 <= c < 3 ==> 1 <= size[c] <= 16
      ensures Valid() && this.isSigned == isSigned && this.size == size && channel == [0, 0, 0]
    {
      this.isSigned := isSigned;
      this.size := size;
      channel := [0, 0, 0];
    }

    method ExtendSigns()
      requires Valid() && forall c :: 0 <= c < 3 ==> channel[c] < Pow2(size[c])
      modifies `channel
      ensures Valid() && forall c :: 0 <= c < 3 ==> channel[c] == U16(Signed(old(channel)[c], size[c]))
    {
      hide Signed, ExtendSign;
      for i := 0 to 3
        invariant Valid()
        invariant forall c :: 0 <= c < i ==> channel[c] == U16(Signed(old(channel)[c], size[c]))
        invariant forall c :: i <= c < 3 ==> channel[c] == old(channel)[c]
      {
        ExtendSignIs(channel[i], size[i]);
        channel := channel[i := U16(ExtendSign(channel[i], size[i]))];
      }
    }

    // The difference becomes an endpoint, cut off to the width of the base.
    method ResolveDelta(base: RGBf)
      requires Valid() && base.Valid() && base != this
      modifies `channel, `size
      ensures Valid() && size == base.size
      ensures forall c :: 0 <= c < 3 ==>
        channel[c] == U16(Delta(base.channel[c] + old(channel)[c], size[c], isSigned))
    {
      hide Pow2;
      for i := 0 to 3
        invariant Valid()
        invariant forall c :: 0 <= c < i ==>
          size[c] == base.size[c] && channel[c] == (base.channel[c] + old(channel)[c]) % Pow2(size[c])
        invariant forall c :: 0 <= c < i ==> channel[c] < Pow2(size[c])
        invariant forall c :: i <= c < 3 ==> channel[c] == old(channel)[c]
      {
        size := size[i := base.size[i]];
        Cut(base.channel[i] + channel[i], base.size[i]);
        channel := channel[i := BitAnd(base.channel[i] + channel[i], Shl(1, base.size[i]) - 1)];
      }
      assert size == base.size;
      if isSigned { ExtendSigns(); } else { Small(channel); }
    }

    static lemma Small(p: seq<nat>)
      requires |p| == 3 && forall c :: 0 <= c < 3 ==> p[c] < 0x1_0000
      ensures forall c :: 0 <= c < 3 ==> U16(p[c]) == p[c]
    {
    }

    static lemma Cut(v: nat, n: nat)
      requires n <= 16
      ensures BitAnd(v, Shl(1, n) - 1) == v % Pow2(n) < Pow2(n) <= 0x1_0000
    {
      AndMask(v, n);
      Pow2Monotone(n, 16);
      Pow2Small();
    }

    method Unquantize()
      requires Valid()
      requires forall c :: 0 <= c < 3 ==> InRange(Meaning(channel[c], isSigned), size[c], isSigned)
      modifies `channel, `size
      ensures Valid()
      ensures forall c :: 0 <= c < 3 ==>
        channel[c] == U16(Unquantized(Meaning(old(channel)[c], isSigned), old(size)[c], isSigned))
    {
      if isSigned { UnquantizeSigned(); } else { UnquantizeUnsigned(); }
    }

    method UnquantizeUnsigned()
      requires Valid() && forall c :: 0 <= c < 3 ==> channel[c] < Pow2(size[c])
      modifies `channel, `size
      ensures Valid()
      ensures forall c :: 0 <= c < 3 ==> channel[c] == U16(Unquantized(old(channel)[c], old(size)[c], false))
    {
      hide Pow2;
      for i := 0 to 3
        invariant Valid()
        invariant forall c :: 0 <= c < i ==> channel[c] == U16(Unquantized(old(channel)[c], old(size)[c], false))
        invariant forall c :: i <= c < 3 ==> channel[c] == old(channel)[c] && size[c] == old(size)[c]
      {
        if size[i] >= 15 || channel[i] == 0 { continue; }
        Sixteen(channel[i], size[i]);
        if channel[i] == Shl(1, size[i]) - 1 {
          channel := channel[i := 0xFFFF];
        } else {
          channel := channel[i := U16(Shr(Shl(channel[i], 16) + 0x8000, size[i]))];
        }
        size := size[i := 16];
      }
    }

    method UnquantizeSigned()
      requires Valid() && forall c :: 0 <= c < 3 ==> InRange(Signed(channel[c], 16), size[c], true)
      modifies `channel, `size
      ensures Valid()
      ensures forall c :: 0 <= c < 3 ==> channel[c] == U16(Unquantized(Signed(old(channel)[c], 16), old(size)[c], true))
    {
      hide Pow2, Signed, InRange;
      for i := 0 to 3
        invariant Valid()
        invariant forall c :: 0 <= c < i ==> channel[c] == U16(Unquantized(Signed(old(channel)[c], 16), old(size)[c], true))
        invariant forall c :: i <= c < 3 ==> channel[c] == old(channel)[c] && size[c] == old(size)[c]
      {
        SignedWord(channel[i]);
        if size[i] >= 16 || channel[i] == 0 { continue; }
        var result := ScaleSigned(Signed(channel[i], 16), size[i]);
        channel := channel[i := U16(result)];
        size := size[i := 16];
      }
    }
  }

  lemma Sixteen(v: nat, n: nat)
    ensures Shl(v, 16) == v * 0x1_0000 && Shl(v, 15) == v * 0x8000 && Shl(1, n) == Pow2(n)
  {
    Pow2Small();
  }

  // The 16-bit negation of the least endpoint of fewer bits does not wrap.
  method ScaleSigned(v: int, n: nat) returns (result: int)
    requires v != 0 && 1 <= n < 16 && InRange(v, n, true)
    ensures result == Unquantized(v, n, true)
  {
    var value := v;
    result := value;
    var signBit := value < 0;
    Negated(v, n);
    if signBit { value := Signed(U16(-value), 16); }
    Sixteen(value, n - 1);
    if value >= Shl(1, n - 1) - 1 {
      result := 0x7FFF;
    } else {
      result := Shr(Shl(value, 15) + 0x4000, n - 1);
    }
    if signBit { result := -result; }
  }

  lemma Negated(v: int, n: nat)
    requires 1 <= n < 16 && InRange(v, n, true)
    ensures v < 0 ==> Signed(U16(-v), 16) == -v
  {
    Pow2Monotone(n, 15);
    Pow2Small();
    if v < 0 { SignedPattern(-v); }
  }

  lemma SignedWord(p: nat)
    requires p < 0x1_0000
    ensures (Signed(p, 16) == 0 <==> p == 0) && U16(Signed(p, 16)) == p
  {
    Pow2Small();
  }

  // ----- `interpolate`

  // Products of 32-bit words wrap, but not here.
  lemma NoWrap(a: int, w: nat)
    requires -0x8000 <= a < 0x1_0000 && w <= 64
    ensures I32(U32(a) * w) == a * w && -0x20_0000 <= a * w <= 0x40_0000
  {
    WrappedFactor(a, w);
    ProductBounds(a, w);
    hide U32;
    InWord(a * w);
  }

  lemma WrappedFactor(a: int, w: int)
    ensures U32(U32(a) * w) == U32(a * w)
  {
    var d := a / 0x1_0000_0000;
    assert U32(a) == a - d * 0x1_0000_0000;
    assert U32(a) * w == a * w - (d * w) * (0x1_0000_0000 * 1) by { Distribute(a, -d * 0x1_0000_0000, w); Reorder(d, w); }
    Multiple(a * w, d * w, 1, 0x1_0000_0000);
  }

  lemma Reorder(d: int, w: int)
    ensures (-d * 0x1_0000_0000) * w == -((d * w) * 0x1_0000_0000)
  {
  }

  lemma ProductBounds(a: int, w: nat)
    requires -0x8000 <= a < 0x1_0000 && w <= 64
    ensures -0x20_0000 <= a * w <= 0x40_0000
  {
    MulNonNegative(a + 0x8000, w);
    Distribute(a, 0x8000, w);
    MulNonNegative(0x1_0000 - a, w);
    Distribute(a, 0x1_0000 - a, w);
  }

  lemma InWord(v: int)
    requires -0x8000_0000 <= v < 0x8000_0000
    ensures I32(v) == v && forall x: int :: U32(x) == U32(v) ==> I32(x) == v
  {
  }

  lemma SignOf(v: nat)
    requires v <= UINT_MAX
    ensures BitAnd(v, 0x8000_0000) != 0 <==> v >= 0x8000_0000
  {
    Pow2Small();
    Pow2Add(15, 16);
    AndShl(v, 1, 31);
    AndMask(Shr(v, 31), 1);
    assert v / 0x8000_0000 < 2;
  }

  lemma WithSign(m: nat)
    requires m < 0x8000
    ensures BitOr(m, 0x8000) == m + 0x8000
  {
    Pow2Small();
    OrDisjoint(m, 15, 1);
  }

  function Word(p: nat, isSigned: bool): int { if isSigned then ExtendSign(p, 16) else p }

  method InterpolateChannel(p0: nat, p1: nat, e0Weight: nat, e1Weight: nat, isSigned: bool) returns (v: nat)
    requires p0 < 0x1_0000 && p1 < 0x1_0000 && e0Weight + e1Weight == 64
    ensures InRange(Interpolated(Meaning(p0, isSigned), Meaning(p1, isSigned), e1Weight), 16, isSigned)
    ensures v == Half(Interpolated(Meaning(p0, isSigned), Meaning(p1, isSigned), e1Weight), isSigned) < 0x1_0000
  {
    hide BitAnd, BitOr, Pow2, Half, Word, Meaning, Interpolated, InRange, I32, U32;
    ghost var a, b := Meaning(p0, isSigned), Meaning(p1, isSigned);
    Words(p0, isSigned);
    Words(p1, isSigned);
    NoWrap(a, e0Weight);
    NoWrap(b, e1Weight);
    BlendRange(a, b, e1Weight, isSigned);
    var e0Value := I32(U32(Word(p0, isSigned)) * e0Weight);
    var e1Value := I32(U32(Word(p1, isSigned)) * e1Weight);
    InterpolatedIs(a, b, e1Weight);
    v := LimitRange(U32((e0Value + e1Value + 32) / 64), Interpolated(a, b, e1Weight), isSigned);
  }

  lemma InterpolatedIs(a: int, b: int, w: nat)
    requires w <= 64
    ensures Interpolated(a, b, w) == (a * (64 - w) + b * w + 32) / 64
  {
  }

  // Scales by 31/32 or 31/64, the sign apart.
  method LimitRange(tmp0: nat, ghost t: int, isSigned: bool) returns (v: nat)
    requires InRange(t, 16, isSigned) && tmp0 == U32(t)
    ensures (isSigned || t >= 0) && v == Half(t, isSigned) < 0x1_0000
  {
    hide BitAnd, BitOr, Pow2, U32, Half;
    var tmp := tmp0;
    Magnified(t, isSigned);
    HalfFinite(t, isSigned);
    HalfIs(t, isSigned);
    if isSigned {
      SignOf(tmp);
      if BitAnd(tmp, 0x8000_0000) != 0 {
        var magnitude := U32(U32(0xFFFF_FFFF - tmp + 1) * 31) / 32;
        WithSign(magnitude);
        tmp := BitOr(magnitude, 0x8000);
      } else {
        tmp := U32(tmp * 31) / 32;
      }
      if tmp == 0x8000 { tmp := 0; }
    } else {
      tmp := U32(tmp * 31) / 64;
    }
    v := U16(tmp);
  }

  lemma HalfIs(t: int, isSigned: bool)
    requires -0x8000 <= t < 0x1_0000 && (isSigned || t >= 0) && (isSigned ==> t < 0x8000)
    ensures t < 0 ==> U32(-t * 31) / 32 < 0x8000
    ensures t < 0 ==> Half(t, isSigned) == if U32(-t * 31) / 32 == 0 then 0 else U32(-t * 31) / 32 + 0x8000
    ensures t >= 0 ==> Half(t, isSigned) == U32(t * 31) / (if isSigned then 32 else 64) < 0x8000
  {
  }

  lemma Words(p: nat, isSigned: bool)
    requires p < 0x1_0000
    ensures Word(p, isSigned) == Meaning(p, isSigned) && InRange(Meaning(p, isSigned), 16, isSigned)
    ensures -0x8000 <= Meaning(p, isSigned) < 0x1_0000
  {
    Pow2Small();
    if isSigned { ExtendSignIs(p, 16); }
  }

  lemma Magnified(t: int, isSigned: bool)
    requires InRange(t, 16, isSigned)
    ensures -0x8000 <= t < 0x1_0000 && (isSigned || t >= 0) && (isSigned ==> t < 0x8000)
    ensures t < 0 ==> U32(t) == t + 0x1_0000_0000 && U32(0xFFFF_FFFF - U32(t) + 1) == -t
    ensures t >= 0 ==> U32(t) == t
  {
    Pow2Small();
  }

  // ----- endpoints

  ghost predicate Four(e: seq<RGBf>)
    reads e
  {
    |e| == 4 && (forall j, k :: 0 <= j < k < 4 ==> e[j] != e[k]) && forall t :: 0 <= t < 4 ==> e[t].Valid()
  }

  function SizeOf(m: Mode, t: nat, c: nat): nat
    requires |m.deltaBits| == 3 && c < 3
  {
    if t == EP0 || !m.hasDelta then m.endpointBits else m.deltaBits[c]
  }

  method NewEndpoints(m: Mode, isSigned: bool) returns (e: seq<RGBf>)
    requires Sized(m)
    ensures Four(e) && forall t :: 0 <= t < 4 ==> fresh(e[t]) && e[t].isSigned == isSigned && e[t].channel == [0, 0, 0]
    ensures forall t, c :: 0 <= t < 4 && 0 <= c < 3 ==> e[t].size[c] == SizeOf(m, t, c)
  {
    var base := [m.endpointBits, m.endpointBits, m.endpointBits];
    var e0 := new RGBf(isSigned, base);
    var e1 := new RGBf(isSigned, if m.hasDelta then m.deltaBits else base);
    var e2 := new RGBf(isSigned, if m.hasDelta then m.deltaBits else base);
    var e3 := new RGBf(isSigned, if m.hasDelta then m.deltaBits else base);
    e := [e0, e1, e2, e3];
  }

  // `v` holds the bits of the fields before `f`, and the remaining ones are still to come.
  ghost predicate Gathered(v: nat, s: seq<bool>, i: nat, f: Fields, p: nat, t: nat, c: nat)
    requires i < 14
  {
    forall b: nat :: (Bit(v, b) || Set(s, f, p, t, c, b)) <==> Set(s, Modes(i).fields, ModeBits(Modes(i)), t, c, b)
  }

  lemma GatherNone(s: seq<bool>, i: nat, t: nat, c: nat)
    requires i < 14
    ensures Gathered(0, s, i, Modes(i).fields, ModeBits(Modes(i)), t, c)
  {
    forall b: nat
      ensures !Bit(0, b)
    {
      NoBit(b);
    }
  }

  lemma GatherField(v: nat, s: seq<bool>, i: nat, f: Fields, p: nat, t: nat, c: nat)
    requires i < 14 && f.Field? && Gathered(v, s, i, f, p, t, c)
    ensures Gathered(if f.target == t && f.channel == c then BitOr(v, FieldBits(s, p, f.msb, f.lsb)) else v,
      s, i, f.rest, p + Size(f), t, c)
  {
    hide Bit, Modes, FieldBits, BitOr;
    forall b: nat
      ensures Bit(BitOr(v, FieldBits(s, p, f.msb, f.lsb)), b) <==>
        Bit(v, b) || (Fills(f, f.target, f.channel, b) && At(s, p + (if f.msb < f.lsb then f.lsb - b else b - f.lsb)))
    {
      BitOfOr(v, FieldBits(s, p, f.msb, f.lsb), b);
      FieldBit(s, p, f, b);
    }
  }

  lemma GatherAll(v: nat, s: seq<bool>, i: nat, p: nat, t: nat, c: nat)
    requires i < 14 && t <= 4 && c < 3 && Gathered(v, s, i, End, p, t, c)
    ensures v == Stored(s, i, t, c) < 0x1_0000
  {
    hide Bit, Modes;
    StoredIs(s, i, t, c, v);
    StoredBound(s, i, t, c);
    SizedMode(i);
    Pow2Monotone(Width(Modes(i), t, c), 16);
    Pow2Small();
  }

  method ReadFields(data: Data, i: nat, e: seq<RGBf>) returns (partition: nat)
    requires i < 14 && data.Valid() && data.pos == ModeBits(Modes(i))
    requires Four(e) && forall t :: 0 <= t < 4 ==> e[t].channel == [0, 0, 0]
    modifies data, e
    ensures data.Valid() && data.pos == ModeBits(Modes(i)) + Total(Modes(i).fields) && Four(e)
    ensures partition == Stored(data.s, i, PARTITION, R)
    ensures forall t, c :: 0 <= t < 4 && 0 <= c < 3 ==> e[t].channel[c] == Stored(data.s, i, t, c)
    ensures forall t :: 0 <= t < 4 ==> e[t].size == old(e[t].size) && e[t].isSigned == old(e[t].isSigned)
  {
    hide Gathered, Modes, FieldBits, BitOr, Data.Valid, Stored;
    ghost var s := data.s;
    HeaderBits(i);
    partition := 0;
    var f := Modes(i).fields;
    GatherNone(s, i, PARTITION, R);
    forall t, c | 0 <= t < 4 && 0 <= c < 3
      ensures Gathered(e[t].channel[c], s, i, f, data.pos, t, c)
    {
      GatherNone(s, i, t, c);
    }
    while f.Field?
      invariant data.Valid() && data.pos + Total(f) == ModeBits(Modes(i)) + Total(Modes(i).fields) && Named(f)
      invariant forall t :: 0 <= t < 4 ==> |e[t].channel| == 3 && e[t].size == old(e[t].size) && e[t].isSigned == old(e[t].isSigned)
      invariant Gathered(partition, s, i, f, data.pos, PARTITION, R)
      invariant forall t, c :: 0 <= t < 4 && 0 <= c < 3 ==> Gathered(e[t].channel[c], s, i, f, data.pos, t, c)
      decreases f
    {
      ghost var p := data.pos;
      GatherField(partition, s, i, f, p, PARTITION, R);
      forall t, c | 0 <= t < 4 && 0 <= c < 3
        ensures Gathered(if f.target == t && f.channel == c then BitOr(e[t].channel[c], FieldBits(s, p, f.msb, f.lsb))
          else e[t].channel[c], s, i, f.rest, p + Size(f), t, c)
      {
        GatherField(e[t].channel[c], s, i, f, p, t, c);
      }
      var bits := data.ConsumeBits(f.msb, f.lsb);
      if f.target == PARTITION {
        partition := BitOr(partition, bits);
      } else {
        var x := e[f.target];
        x.channel := x.channel[f.channel := BitOr(x.channel[f.channel], bits)];
      }
      f := f.rest;
    }
    GatherAll(partition, s, i, data.pos, PARTITION, R);
    forall t, c | 0 <= t < 4 && 0 <= c < 3
      ensures e[t].channel[c] == Stored(s, i, t, c) < 0x1_0000
    {
      GatherAll(e[t].channel[c], s, i, data.pos, t, c);
    }
  }

  // Endpoints `lo` to `hi` are sign-extended.
  method ExtendAll(e: seq<RGBf>, lo: nat, hi: nat)
    requires Four(e) && lo <= hi <= 4
    requires forall t, c :: lo <= t < hi && 0 <= c < 3 ==> e[t].channel[c] < Pow2(e[t].size[c])
    modifies e
    ensures Four(e) && forall t :: 0 <= t < 4 ==> e[t].size == old(e[t].size) && e[t].isSigned == old(e[t].isSigned)
    ensures forall t :: 0 <= t < 4 && !(lo <= t < hi) ==> e[t].channel == old(e[t].channel)
    ensures forall t, c :: lo <= t < hi && 0 <= c < 3 ==>
      e[t].channel[c] == U16(Signed(old(e[t].channel)[c], e[t].size[c]))
  {
    hide Signed, Pow2;
    for ep := lo to hi
      invariant Four(e) && forall t :: 0 <= t < 4 ==> e[t].size == old(e[t].size) && e[t].isSigned == old(e[t].isSigned)
      invariant forall t :: 0 <= t < 4 && !(lo <= t < ep) ==> e[t].channel == old(e[t].channel)
      invariant forall t, c :: lo <= t < ep && 0 <= c < 3 ==>
        e[t].channel[c] == U16(Signed(old(e[t].channel)[c], e[t].size[c]))
    {
      e[ep].ExtendSigns();
    }
  }

  // Endpoints from the second on are differences to the first.
  method ResolveAll(e: seq<RGBf>, n: nat)
    requires Four(e) && 1 <= n <= 4
    modifies e
    ensures Four(e) && e[0].channel == old(e[0].channel) && e[0].size == old(e[0].size)
    ensures forall t :: 0 <= t < 4 ==> e[t].isSigned == old(e[t].isSigned)
    ensures forall t, c :: 1 <= t < n && 0 <= c < 3 ==>
      e[t].size == e[0].size &&
      e[t].channel[c] == U16(Delta(e[0].channel[c] + old(e[t].channel)[c], e[0].size[c], e[t].isSigned))
  {
    hide Delta;
    for ep := 1 to n
      invariant Four(e) && e[0].channel == old(e[0].channel) && e[0].size == old(e[0].size)
      invariant forall t :: 0 <= t < 4 ==> e[t].isSigned == old(e[t].isSigned)
      invariant forall t :: ep <= t < 4 ==> e[t].channel == old(e[t].channel)
      invariant forall t, c :: 1 <= t < ep && 0 <= c < 3 ==>
        e[t].size == e[0].size &&
        e[t].channel[c] == U16(Delta(e[0].channel[c] + old(e[t].channel)[c], e[0].size[c], e[t].isSigned))
    {
      e[ep].ResolveDelta(e[0]);
    }
  }

  method UnquantizeAll(e: seq<RGBf>, n: nat)
    requires Four(e) && n <= 4
    requires forall t, c :: 0 <= t < n && 0 <= c < 3 ==>
      InRange(Meaning(e[t].channel[c], e[t].isSigned), e[t].size[c], e[t].isSigned)
    modifies e
    ensures Four(e)
    ensures forall t, c :: 0 <= t < n && 0 <= c < 3 ==>
      e[t].channel[c] == U16(Unquantized(Meaning(old(e[t].channel)[c], old(e[t].isSigned)), old(e[t].size)[c], old(e[t].isSigned)))
  {
    hide InRange, Unquantized, Signed;
    for ep := 0 to n
      invariant Four(e) && forall t :: 0 <= t < 4 ==> e[t].isSigned == old(e[t].isSigned)
      invariant forall t :: ep <= t < 4 ==> e[t].channel == old(e[t].channel) && e[t].size == old(e[t].size)
      invariant forall t, c :: 0 <= t < ep && 0 <= c < 3 ==>
        e[t].channel[c] == U16(Unquantized(Meaning(old(e[t].channel)[c], old(e[t].isSigned)), old(e[t].size)[c], old(e[t].isSigned)))
    {
      e[ep].Unquantize();
    }
  }

  // What is stored, sign-extended where it is signed: the first endpoint in signed formats, differences in all.
  ghost function Extended(s: seq<bool>, i: nat, t: nat, c: nat, isSigned: bool): (v: int)
    requires i < 14 && t < 2 * Modes(i).partitions && c < 3
  {
    SizedMode(i);
    var m := Modes(i);
    if isSigned || (m.hasDelta && t >= 1) then Signed(Stored(s, i, t, c), SizeOf(m, t, c)) else Stored(s, i, t, c)
  }

  lemma StoredFits(s: seq<bool>, i: nat, t: nat, c: nat)
    requires i < 14 && t < 2 * Modes(i).partitions && c < 3
    ensures Sized(Modes(i)) && 1 <= SizeOf(Modes(i), t, c) <= 16 && Stored(s, i, t, c) < Pow2(SizeOf(Modes(i), t, c)) <= 0x1_0000
  {
    hide Modes, Stored;
    SizedMode(i);
    StoredBound(s, i, t, c);
    Pow2Monotone(SizeOf(Modes(i), t, c), 16);
    Pow2Small();
  }

  lemma Unresolved(s: seq<bool>, i: nat, t: nat, c: nat, isSigned: bool)
    requires i < 14 && t < 2 * Modes(i).partitions && c < 3 && (t == 0 || !Modes(i).hasDelta)
    ensures Endpoint(s, i, t, c, isSigned) == Extended(s, i, t, c, isSigned)
  {
    hide Modes, Stored, Pow2, Signed, U16, Delta;
  }

  // Patterns resolve to patterns of endpoints.
  lemma Resolved(s: seq<bool>, i: nat, t: nat, c: nat, isSigned: bool)
    requires i < 14 && 0 < t < 2 * Modes(i).partitions && c < 3 && Modes(i).hasDelta
    ensures Sized(Modes(i))
    ensures Endpoint(s, i, t, c, isSigned) ==
      Delta(U16(Extended(s, i, 0, c, isSigned)) + U16(Extended(s, i, t, c, isSigned)), Modes(i).endpointBits, isSigned)
  {
    hide Modes, Stored, Pow2, Signed, U16, Delta;
    SizedMode(i);
    Unresolved(s, i, 0, c, isSigned);
    Sums(Extended(s, i, 0, c, isSigned), Extended(s, i, t, c, isSigned), Modes(i).endpointBits, isSigned);
  }

  lemma Sums(a: int, b: int, n: nat, isSigned: bool)
    requires 1 <= n <= 16
    ensures Delta(U16(a) + U16(b), n, isSigned) == Delta(a + b, n, isSigned)
  {
    PatternSum(a, b, n);
  }

  // A pattern means its endpoint again.
  lemma Meant(v: int, n: nat, isSigned: bool)
    requires 1 <= n <= 16 && InRange(v, n, isSigned)
    ensures Meaning(U16(v), isSigned) == v
  {
    Pow2Monotone(n, 16);
    Pow2Monotone(n - 1, 15);
    Pow2Small();
    if isSigned { SignedPattern(v); }
  }

  method ExtendStored(e: seq<RGBf>, ghost s: seq<bool>, i: nat, isSigned: bool)
    requires i < 14 && Four(e) && Sized(Modes(i))
    requires forall t, c :: 0 <= t < 4 && 0 <= c < 3 ==>
      e[t].size[c] == SizeOf(Modes(i), t, c) && e[t].channel[c] == Stored(s, i, t, c)
    modifies e
    ensures Four(e) && forall t :: 0 <= t < 4 ==> e[t].size == old(e[t].size) && e[t].isSigned == old(e[t].isSigned)
    ensures forall t, c :: 0 <= t < 2 * Modes(i).partitions && 0 <= c < 3 ==>
      e[t].channel[c] == U16(Extended(s, i, t, c, isSigned))
  {
    hide Modes, Stored, Extended, Signed, Pow2, U16, Width;
    var m := Modes(i);
    forall t, c | 0 <= t < 2 * m.partitions && 0 <= c < 3
      ensures e[t].channel[c] < Pow2(e[t].size[c])
    {
      StoredFits(s, i, t, c);
    }
    if isSigned {
      ExtendAll(e, 0, 2 * m.partitions);
    } else if m.hasDelta {
      ExtendAll(e, 1, 2 * m.partitions);
    }
    forall t, c | 0 <= t < 2 * m.partitions && 0 <= c < 3
      ensures e[t].channel[c] == U16(Extended(s, i, t, c, isSigned))
    {
      ExtendedIs(s, i, t, c, isSigned);
    }
  }

  // The endpoints are those the block stands for.
  ghost predicate Final4(e: seq<RGBf>, s: seq<bool>, i: nat, isSigned: bool)
    requires i < 14
    reads e
  {
    Four(e) && Sized(Modes(i)) && forall t, c :: 0 <= t < 2 * Modes(i).partitions && 0 <= c < 3 ==>
      e[t].channel[c] == U16(Final(s, i, t, c, isSigned))
  }

  // Everything from the fields to the endpoints the texels are blended from.
  method ReadEndpoints(data: Data, i: nat, isSigned: bool) returns (e: seq<RGBf>, partition: nat)
    requires i < 14 && data.Valid() && data.pos == ModeBits(Modes(i))
    modifies data
    ensures data.Valid() && data.pos == ModeBits(Modes(i)) + Total(Modes(i).fields)
    ensures Final4(e, data.s, i, isSigned) && partition == Stored(data.s, i, PARTITION, R)
  {
    hide Modes, Data.Valid, Stored, Extended, Endpoint, Final, Signed, Unquantized, InRange, Meaning, Delta, Pow2, Width, U16;
    SizedMode(i);
    var m := Modes(i);
    ghost var s := data.s;
    e := NewEndpoints(m, isSigned);
    partition := ReadFields(data, i, e);
    ExtendStored(e, s, i, isSigned);
    if m.hasDelta { ResolveAll(e, 2 * m.partitions); }
    forall t, c | 0 <= t < 2 * m.partitions && 0 <= c < 3
      ensures e[t].size[c] == m.endpointBits && e[t].channel[c] == U16(Endpoint(s, i, t, c, isSigned))
    {
      if t > 0 && m.hasDelta { Resolved(s, i, t, c, isSigned); } else { Unresolved(s, i, t, c, isSigned); }
    }
    forall t, c | 0 <= t < 2 * m.partitions && 0 <= c < 3
      ensures Meaning(e[t].channel[c], isSigned) == Endpoint(s, i, t, c, isSigned)
      ensures InRange(Endpoint(s, i, t, c, isSigned), m.endpointBits, isSigned)
    {
      EndpointRange(s, i, t, c, isSigned);
      Meant(Endpoint(s, i, t, c, isSigned), m.endpointBits, isSigned);
    }
    UnquantizeAll(e, 2 * m.partitions);
    forall t, c | 0 <= t < 2 * m.partitions && 0 <= c < 3
      ensures e[t].channel[c] == U16(Final(s, i, t, c, isSigned))
    {
      FinalIs(s, i, t, c, isSigned);
    }
  }

  lemma ExtendedIs(s: seq<bool>, i: nat, t: nat, c: nat, isSigned: bool)
    requires i < 14 && t < 2 * Modes(i).partitions && c < 3
    ensures Sized(Modes(i)) && 1 <= SizeOf(Modes(i), t, c)
    ensures if isSigned || (Modes(i).hasDelta && t >= 1)
      then Extended(s, i, t, c, isSigned) == Signed(Stored(s, i, t, c), SizeOf(Modes(i), t, c))
      else Extended(s, i, t, c, isSigned) == Stored(s, i, t, c) == U16(Stored(s, i, t, c))
  {
    hide Modes, Stored, Signed;
    StoredFits(s, i, t, c);
  }

  lemma FinalIs(s: seq<bool>, i: nat, t: nat, c: nat, isSigned: bool)
    requires i < 14 && t < 2 * Modes(i).partitions && c < 3
    ensures Sized(Modes(i)) && (isSigned || Endpoint(s, i, t, c, isSigned) >= 0)
    ensures Final(s, i, t, c, isSigned) == Unquantized(Endpoint(s, i, t, c, isSigned), Modes(i).endpointBits, isSigned)
  {
    hide Modes, Endpoint, Unquantized;
    SizedMode(i);
    EndpointRange(s, i, t, c, isSigned);
  }

  // ----- `Block::decode`

  function Half2(h: nat): seq<byte>
    requires h < 0x1_0000
  {
    [h % 256, h / 256]
  }

  // Red, green, blue and an alpha of 1.0, as half-precision floats.
  function HalfTexel(r: nat, g: nat, b: nat): (d: seq<byte>)
    requires r < 0x1_0000 && g < 0x1_0000 && b < 0x1_0000
    ensures |d| == 8
  {
    Half2(r) + Half2(g) + Half2(b) + Half2(0x3C00)
  }

  // The sixteen texels of a block: black where its mode is not legal.
  ghost function Texels(block: seq<byte>, isSigned: bool): (texels: seq<seq<byte>>)
    requires |block| == 16
    ensures |texels| == 16 && forall t :: 0 <= t < 16 ==> |texels[t]| == 8
  {
    var s := BytesBits(block);
    match ModeToIndex(ModeOf(s))
    case None => seq(16, t => HalfTexel(0, 0, 0))
    case Some(i) => seq(16, t requires 0 <= t < 16 => ColorOf(s, i, t, isSigned))
  }

  ghost function ColorOf(s: seq<bool>, i: nat, t: nat, isSigned: bool): (d: seq<byte>)
    requires i < 14 && t < 16
    ensures |d| == 8
  {
    HalfTexel(Channel(s, i, t, 0, isSigned), Channel(s, i, t, 1, isSigned), Channel(s, i, t, 2, isSigned))
  }

  // Sixteen bits a channel, the low byte first, and an alpha of one.
  lemma TexelBytes(r: nat, g: nat, b: nat)
    requires r < 0x1_0000 && g < 0x1_0000 && b < 0x1_0000
    ensures var d := HalfTexel(r, g, b);
      d[0] as int + 256 * d[1] as int == r && d[2] as int + 256 * d[3] as int == g && d[4] as int + 256 * d[5] as int == b && d[6] == 0 && d[7] == 0x3C
  {
  }

  method StoreTexel(dst: array<byte>, at: nat, r: nat, g: nat, b: nat)
    requires r < 0x1_0000 && g < 0x1_0000 && b < 0x1_0000 && at + 8 <= dst.Length
    modifies dst
    ensures dst[..] == Store(old(dst[..]), at, HalfTexel(r, g, b))
  {
    var d := HalfTexel(r, g, b);
    hide HalfTexel;
    BcColor.StorePixel(dst, at, d[..4]);
    BcColor.StorePixel(dst, at + 4, d[4..]);
  }

  // The mode comes first.
  method ReadMode(data: Data) returns (mode: nat)
    requires data.Valid() && data.pos == 0
    modifies data
    ensures data.Valid() && mode == ModeOf(data.s) < 32 && (mode < 2 || mode / 2 % 2 == 1)
    ensures data.pos == if mode < 2 then 2 else 5
  {
    hide BitAnd, Nat, Window;
    ghost var s := data.s;
    SecondBit(s);
    if BitAnd(data.low64, 2) == 0 {
      mode := data.ConsumeBits(1, 0);
    } else {
      mode := data.ConsumeBits(4, 0);
    }
  }

  lemma SecondBit(s: seq<bool>)
    ensures BitAnd(Nat(Window(s, 0, 64)), 2) == 0 <==> !At(s, 1)
    ensures !At(s, 1) ==> Nat(Window(s, 0, 2)) < 2
    ensures At(s, 1) ==> var m := Nat(Window(s, 0, 5)); m < 32 && m / 2 % 2 == 1
    ensures FieldBits(s, 0, 1, 0) == Nat(Window(s, 0, 2)) && FieldBits(s, 0, 4, 0) == Nat(Window(s, 0, 5))
  {
    var w, w2, w5 := Window(s, 0, 64), Window(s, 0, 2), Window(s, 0, 5);
    AndShl(Nat(w), 1, 1);
    AndMask(Shr(Nat(w), 1), 1);
    BitOfNat(w, 1);
    BitOfNat(w2, 1);
    BitOfNat(w5, 1);
    NatBound(w2);
    NatBound(w5);
    Pow2Small();
    assert Pow2(0) == 1;
  }

  method Decode(block: seq<byte>, dst: array<byte>, g: Grid, isSigned: bool)
    requires |block| == 16 && g.Fits(dst.Length) && g.bpp == 8
    modifies dst
    ensures Painted(g, dst[..], old(dst[..]), 0, 8, Texels(block, isSigned), 16)
  {
    hide Painted, Grid.Fits, Grid.Slot, Data.Valid, Channel, ModeOf;
    var data := new Data(block);
    var mode := ReadMode(data);
    match ModeToIndex(mode)
    case None => Blacken(dst, g, Texels(block, isSigned));
    case Some(i) =>
      ModeIndexed(mode, i);
      var e, partition := ReadEndpoints(data, i, isSigned);
      Blend(data, dst, g, i, e, partition, isSigned, Texels(block, isSigned));
  }

  method Blacken(dst: array<byte>, g: Grid, ghost texels: seq<seq<byte>>)
    requires g.Fits(dst.Length) && g.bpp == 8 && |texels| == 16
    requires forall t :: 0 <= t < 16 ==> |texels[t]| == 8 && texels[t] == HalfTexel(0, 0, 0)
    modifies dst
    ensures Painted(g, dst[..], old(dst[..]), 0, 8, texels, 16)
  {
    hide Painted, Grid.Fits, Grid.Slot, HalfTexel, Store;
    ghost var was := dst[..];
    PaintNone(g, was, 0, 8, texels);
    var y := 0;
    while y < 4 && g.y + y < g.h
      invariant y <= 4 && Painted(g, dst[..], was, 0, 8, texels, 4 * y)
    {
      var x := 0;
      while x < 4 && g.x + x < g.w
        invariant x <= 4 && Painted(g, dst[..], was, 0, 8, texels, 4 * y + x)
      {
        BlackenTexel(dst, g, x, y, texels, was);
        x := x + 1;
      }
      PaintSkip(g, dst[..], was, 0, 8, texels, 4 * y + x, 4 * y + 4);
      y := y + 1;
    }
    PaintSkip(g, dst[..], was, 0, 8, texels, 4 * y, 16);
  }

  method BlackenTexel(dst: array<byte>, g: Grid, x: nat, y: nat, ghost texels: seq<seq<byte>>, ghost was: seq<byte>)
    requires x < 4 && y < 4 && g.x + x < g.w && g.y + y < g.h && g.Fits(dst.Length) && g.bpp == 8 && |texels| == 16
    requires forall t :: 0 <= t < 16 ==> |texels[t]| == 8 && texels[t] == HalfTexel(0, 0, 0)
    requires Painted(g, dst[..], was, 0, 8, texels, 4 * y + x)
    modifies dst
    ensures Painted(g, dst[..], was, 0, 8, texels, 4 * y + x + 1)
  {
    hide Painted, Grid.Fits, Grid.Slot, HalfTexel, Store;
    PaintStep(g, dst[..], was, 0, 8, texels, 4 * y + x);
    SlotIs(g, x, y);
    StoreTexel(dst, g.at + 8 * x + y * g.pitch, 0, 0, 0);
  }

  lemma SlotIs(g: Grid, i: nat, j: nat)
    requires i < 4 && g.bpp == 8
    ensures g.Slot(4 * j + i) == g.at + 8 * i + j * g.pitch
  {
    assert (4 * j + i) % 4 == i && (4 * j + i) / 4 == j;
  }

  // Indices are read for all sixteen texels, and the whole block with them; texels past the edge are not stored.
  method Blend(data: Data, dst: array<byte>, g: Grid, i: nat, e: seq<RGBf>, partition: nat, isSigned: bool,
      ghost texels: seq<seq<byte>>)
    requires i < 14 && data.Valid() && data.pos == ModeBits(Modes(i)) + Total(Modes(i).fields)
    requires Final4(e, data.s, i, isSigned) && partition == Stored(data.s, i, PARTITION, R)
    requires g.Fits(dst.Length) && g.bpp == 8 && |texels| == 16
    requires forall t :: 0 <= t < 16 ==> |texels[t]| == 8
    requires forall t :: 0 <= t < 16 ==> texels[t] == ColorOf(data.s, i, t, isSigned)
    modifies data, dst
    ensures Painted(g, dst[..], old(dst[..]), 0, 8, texels, 16) && data.Valid() && data.pos == 128
  {
    hide Painted, Grid.Fits, Grid.Slot, Data.Valid, Channel, HalfTexel, Store, Modes, Stored, Final, IsAnchor, Subset;
    ghost var s, was := data.s, dst[..];
    PaintNone(g, was, 0, 8, texels);
    for y := 0 to 4
      invariant data.Valid() && data.pos == IndexStart(s, i, 4 * y) && Painted(g, dst[..], was, 0, 8, texels, 4 * y)
      invariant Final4(e, s, i, isSigned)
    {
      for x := 0 to 4
        invariant data.Valid() && data.pos == IndexStart(s, i, 4 * y + x)
        invariant Painted(g, dst[..], was, 0, 8, texels, 4 * y + x)
        invariant Final4(e, s, i, isSigned)
      {
        ghost var t := 4 * y + x;
        var r, gr, b := BlendTexel(data, i, e, partition, isSigned, x + y * 4);
        if g.y + y >= g.h || g.x + x >= g.w {
          PaintSkip(g, dst[..], was, 0, 8, texels, t, t + 1);
        } else {
          PaintStep(g, dst[..], was, 0, 8, texels, t);
          SlotIs(g, x, y);
          StoreTexel(dst, g.at + 8 * x + y * g.pitch, r, gr, b);
        }
      }
    }
    WholeBlock(s, i);
  }

  // One texel's index and colour.
  method BlendTexel(data: Data, i: nat, e: seq<RGBf>, partition: nat, isSigned: bool, t: nat) returns (r: nat, g: nat, b: nat)
    requires i < 14 && t < 16 && data.Valid() && data.pos == IndexStart(data.s, i, t)
    requires Final4(e, data.s, i, isSigned) && partition == Stored(data.s, i, PARTITION, R)
    modifies data
    ensures data.Valid() && data.pos == IndexStart(data.s, i, t + 1)
    ensures r == Channel(data.s, i, t, 0, isSigned) && g == Channel(data.s, i, t, 1, isSigned)
    ensures b == Channel(data.s, i, t, 2, isSigned)
  {
    hide Data.Valid, Modes, Stored, Final, PartitionTable2, AnchorTable2, Weight, Channel, Interpolated, Half, InRange, Meaning;
    ghost var s := data.s;
    var numBits, isAnchor, firstEndpoint := 4, t == 0, 0;
    if Modes(i).partitions != 1 {
      numBits := 3;
      PartitionIs(s, i);
      isAnchor := t == 0 || t == AnchorTable2(partition);
      var side: nat := PartitionTable2(partition)[t];
      firstEndpoint := side * 2;
    }
    SizedMode(i);
    IndexIs(s, i, t);
    assert IndexBits(s, i, t) == numBits - (if isAnchor then 1 else 0);
    var value := data.ConsumeBits(numBits - (if isAnchor then 1 else 0) - 1, 0);
    var w := Weight(numBits, value);
    ChannelIs(s, i, t, isSigned);
    var e0, e1 := e[firstEndpoint], e[firstEndpoint + 1];
    r := InterpolateChannel(e0.channel[0], e1.channel[0], 64 - w, w, isSigned);
    g := InterpolateChannel(e0.channel[1], e1.channel[1], 64 - w, w, isSigned);
    b := InterpolateChannel(e0.channel[2], e1.channel[2], 64 - w, w, isSigned);
  }

  lemma PartitionIs(s: seq<bool>, i: nat)
    requires i < 14 && Modes(i).partitions != 1
    ensures PartitionOf(s, i) == Stored(s, i, PARTITION, R) < 32
  {
    SizedMode(i);
  }

  lemma IndexIs(s: seq<bool>, i: nat, t: nat)
    requires i < 14 && t < 16
    ensures IndexBits(s, i, t) > 0 && FieldBits(s, IndexStart(s, i, t), IndexBits(s, i, t) - 1, 0) == Index(s, i, t)
  {
    assert Pow2(0) == 1;
  }

  lemma ChannelIs(s: seq<bool>, i: nat, t: nat, isSigned: bool)
    requires i < 14 && t < 16
    ensures forall c: nat :: c < 3 ==> Meaning(U16(Near(s, i, t, c, isSigned)), isSigned) == Near(s, i, t, c, isSigned)
    ensures forall c: nat :: c < 3 ==> Meaning(U16(Far(s, i, t, c, isSigned)), isSigned) == Far(s, i, t, c, isSigned)
    ensures forall c: nat :: c < 3 ==> InRange(Blended(s, i, t, c, isSigned), 16, isSigned)
    ensures forall c: nat :: c < 3 ==> Channel(s, i, t, c, isSigned) == Half(Blended(s, i, t, c, isSigned), isSigned)
  {
    hide Near, Far, Blended, Half, InRange, Meaning;
    forall c: nat | c < 3
      ensures Meaning(U16(Near(s, i, t, c, isSigned)), isSigned) == Near(s, i, t, c, isSigned)
      ensures Meaning(U16(Far(s, i, t, c, isSigned)), isSigned) == Far(s, i, t, c, isSigned)
    {
      Meant(Near(s, i, t, c, isSigned), 16, isSigned);
      Meant(Far(s, i, t, c, isSigned), 16, isSigned);
    }
  }
}
