// `BC6H::Block::decode`: a block of 128 bits becomes sixteen texels of half-precision colour.

module Bc6h {
  import opened BitStream
  import opened BcTexture
  import opened Bc6hData
  import opened Bc6hModes
  import opened Bc6hColor
  import opened Wrappers

  // ----- what a block stands for

  // The block's mode number.
  ghost function ModeOf(s: seq<bool>): nat { Nat(Window(s, 0, if At(s, 1) then 5 else 2)) }

  // An endpoint of mode `i` before it is scaled: its own bits, or the first endpoint plus a signed difference, cut off
  // to the first endpoint's width.
  ghost function Endpoint(s: seq<bool>, i: nat, t: nat, c: nat, isSigned: bool): (v: int)
    requires i < 14 && t < 2 * Modes(i).partitions && c < 3
    ensures Sized(Modes(i))
  {
    Once(i, t, c, 0);
    var m := Modes(i);
    var n := m.endpointBits;
    if t == EP0 || !m.hasDelta then Read(Stored(s, i, t, c), n, isSigned)
    else
      Delta(Endpoint(s, i, EP0, c, isSigned) + Signed(Stored(s, i, t, c), m.deltaBits[c]), n, isSigned)
  }

  // A sum cut off to `n` bits.
  ghost function Delta(sum: int, n: nat, isSigned: bool): int
    requires n >= 1
  {
    Read(sum % Pow2(n), n, isSigned)
  }

  // A sum within the width is not cut off.
  lemma DeltaExact(sum: int, n: nat, isSigned: bool)
    requires n >= 1 && InRange(sum, n, isSigned)
    ensures Delta(sum, n, isSigned) == sum
  {
    assert Pow2(n) == 2 * Pow2(n - 1);
    hide Pow2;
    if sum < 0 { Remainder(sum, Pow2(n), -1, sum + Pow2(n)); } else { Remainder(sum, Pow2(n), 0, sum); }
  }

  // A pattern of `n` bits in a signed or an unsigned format.
  ghost function Read(v: nat, n: nat, isSigned: bool): (r: int)
    requires n >= 1
    ensures v < Pow2(n) ==> InRange(r, n, isSigned)
  {
    if isSigned then Signed(v, n) else v
  }

  lemma SizedMode(i: nat)
    requires i < 14
    ensures Sized(Modes(i))
  {
    Once(i, EP0, R, 0);
  }

  lemma StoredBound(s: seq<bool>, i: nat, t: nat, c: nat)
    requires i < 14 && t <= 4 && c < 3
    ensures Sized(Modes(i)) && Stored(s, i, t, c) < Pow2(Width(Modes(i), t, c))
  {
    Once(i, t, c, 0);
    NatBound(StoredBits(s, i, t, c));
  }

  lemma EndpointRange(s: seq<bool>, i: nat, t: nat, c: nat, isSigned: bool)
    requires i < 14 && t < 2 * Modes(i).partitions && c < 3
    ensures Sized(Modes(i)) && InRange(Endpoint(s, i, t, c, isSigned), Modes(i).endpointBits, isSigned)
  {
    SizedMode(i);
    hide Modes, Stored, InRange, Read, Signed, Pow2;
    StoredBound(s, i, t, c);
  }

  // Writing an endpoint, or its difference from the first one, gives it back, whatever its sign.
  lemma EndpointBack(s: seq<bool>, i: nat, t: nat, c: nat, isSigned: bool, e: int)
    requires i < 14 && t < 2 * Modes(i).partitions && c < 3
    requires Sized(Modes(i)) && InRange(e, Modes(i).endpointBits, isSigned)
    requires if t == EP0 || !Modes(i).hasDelta then Stored(s, i, t, c) == e % Pow2(Modes(i).endpointBits)
      else InRange(e - Endpoint(s, i, EP0, c, isSigned), Modes(i).deltaBits[c], true) &&
           Stored(s, i, t, c) == (e - Endpoint(s, i, EP0, c, isSigned)) % Pow2(Modes(i).deltaBits[c])
    ensures Endpoint(s, i, t, c, isSigned) == e
  {
    hide Modes, Stored, InRange, Delta, Pow2;
    var n := Modes(i).endpointBits;
    DeltaExact(e, n, isSigned);
    assert Delta(e, n, isSigned) == Read(e % Pow2(n), n, isSigned) by { DeltaIs(e, n, isSigned); }
    if t != EP0 && Modes(i).hasDelta {
      var b, d := Endpoint(s, i, EP0, c, isSigned), Modes(i).deltaBits[c];
      DeltaExact(e - b, d, true);
      DeltaIs(e - b, d, true);
    }
  }

  lemma DeltaIs(sum: int, n: nat, isSigned: bool)
    requires n >= 1
    ensures Delta(sum, n, isSigned) == Read(sum % Pow2(n), n, isSigned)
  {
  }

  ghost function Final(s: seq<bool>, i: nat, t: nat, c: nat, isSigned: bool): int
    requires i < 14 && t < 2 * Modes(i).partitions && c < 3
  {
    EndpointRange(s, i, t, c, isSigned);
    Unquantized(Endpoint(s, i, t, c, isSigned), Modes(i).endpointBits, isSigned)
  }

  lemma FinalRange(s: seq<bool>, i: nat, t: nat, c: nat, isSigned: bool)
    requires i < 14 && t < 2 * Modes(i).partitions && c < 3
    ensures InRange(Final(s, i, t, c, isSigned), 16, isSigned)
    ensures Modes(i).endpointBits < 16 ==> Final(s, i, t, c, isSigned) != -0x8000
  {
    SizedMode(i);
    hide Modes, Stored, Endpoint, Unquantized, InRange;
    EndpointRange(s, i, t, c, isSigned);
    if Modes(i).endpointBits < 16 {
      UnquantizedKeeps(Endpoint(s, i, t, c, isSigned), Modes(i).endpointBits, isSigned);
    } else {
      WideUnchanged(Endpoint(s, i, t, c, isSigned), isSigned);
    }
  }

  lemma WideUnchanged(v: int, isSigned: bool)
    requires InRange(v, 16, isSigned)
    ensures Unquantized(v, 16, isSigned) == v
  {
  }

  // ----- indices

  // The partition number has five bits, so only the first half of the partitions of BC7 can occur.
  type Side = x: int | 0 <= x < 2

  function PartitionTable2(p: nat): (row: seq<Side>)
    ensures |row| == 16
  {
    match p
    case 0 => [0, 0, 1, 1, 0, 0, 1, 1, 0, 0, 1, 1, 0, 0, 1, 1] case 1 => [0, 0, 0, 1, 0, 0, 0, 1, 0, 0, 0, 1, 0, 0, 0, 1]
    case 2 => [0, 1, 1, 1, 0, 1, 1, 1, 0, 1, 1, 1, 0, 1, 1, 1] case 3 => [0, 0, 0, 1, 0, 0, 1, 1, 0, 0, 1, 1, 0, 1, 1, 1]
    case 4 => [0, 0, 0, 0, 0, 0, 0, 1, 0, 0, 0, 1, 0, 0, 1, 1] case 5 => [0, 0, 1, 1, 0, 1, 1, 1, 0, 1, 1, 1, 1, 1, 1, 1]
    case 6 => [0, 0, 0, 1, 0, 0, 1, 1, 0, 1, 1, 1, 1, 1, 1, 1] case 7 => [0, 0, 0, 0, 0, 0, 0, 1, 0, 0, 1, 1, 0, 1, 1, 1]
    case 8 => [0, 0, 0, 0, 0, 0, 0, 0, 0, 0, 0, 1, 0, 0, 1, 1] case 9 => [0, 0, 1, 1, 0, 1, 1, 1, 1, 1, 1, 1, 1, 1, 1, 1]
    case 10 => [0, 0, 0, 0, 0, 0, 0, 1, 0, 1, 1, 1, 1, 1, 1, 1] case 11 => [0, 0, 0, 0, 0, 0, 0, 0, 0, 0, 0, 1, 0, 1, 1, 1]
    case 12 => [0, 0, 0, 1, 0, 1, 1, 1, 1, 1, 1, 1, 1, 1, 1, 1] case 13 => [0, 0, 0, 0, 0, 0, 0, 0, 1, 1, 1, 1, 1, 1, 1, 1]
    case 14 => [0, 0, 0, 0, 1, 1, 1, 1, 1, 1, 1, 1, 1, 1, 1, 1] case 15 => [0, 0, 0, 0, 0, 0, 0, 0, 0, 0, 0, 0, 1, 1, 1, 1]
    case 16 => [0, 0, 0, 0, 1, 0, 0, 0, 1, 1, 1, 0, 1, 1, 1, 1] case 17 => [0, 1, 1, 1, 0, 0, 0, 1, 0, 0, 0, 0, 0, 0, 0, 0]
    case 18 => [0, 0, 0, 0, 0, 0, 0, 0, 1, 0, 0, 0, 1, 1, 1, 0] case 19 => [0, 1, 1, 1, 0, 0, 1, 1, 0, 0, 0, 1, 0, 0, 0, 0]
    case 20 => [0, 0, 1, 1, 0, 0, 0, 1, 0, 0, 0, 0, 0, 0, 0, 0] case 21 => [0, 0, 0, 0, 1, 0, 0, 0, 1, 1, 0, 0, 1, 1, 1, 0]
    case 22 => [0, 0, 0, 0, 0, 0, 0, 0, 1, 0, 0, 0, 1, 1, 0, 0] case 23 => [0, 1, 1, 1, 0, 0, 1, 1, 0, 0, 1, 1, 0, 0, 0, 1]
    case 24 => [0, 0, 1, 1, 0, 0, 0, 1, 0, 0, 0, 1, 0, 0, 0, 0] case 25 => [0, 0, 0, 0, 1, 0, 0, 0, 1, 0, 0, 0, 1, 1, 0, 0]
    case 26 => [0, 1, 1, 0, 0, 1, 1, 0, 0, 1, 1, 0, 0, 1, 1, 0] case 27 => [0, 0, 1, 1, 0, 1, 1, 0, 0, 1, 1, 0, 1, 1, 0, 0]
    case 28 => [0, 0, 0, 1, 0, 1, 1, 1, 1, 1, 1, 0, 1, 0, 0, 0] case 29 => [0, 0, 0, 0, 1, 1, 1, 1, 1, 1, 1, 1, 0, 0, 0, 0]
    case 30 => [0, 1, 1, 1, 0, 0, 0, 1, 1, 0, 0, 0, 1, 1, 1, 0] case _ => [0, 0, 1, 1, 1, 0, 0, 1, 1, 0, 0, 1, 1, 1, 0, 0]
  }

  function AnchorRow(r: nat): (row: seq<nat>)
    ensures |row| == 8
  {
    match r
    case 0 => [15, 15, 15, 15, 15, 15, 15, 15]
    case 1 => [15, 15, 15, 15, 15, 15, 15, 15]
    case 2 => [15, 2, 8, 2, 2, 8, 8, 15]
    case _ => [2, 8, 2, 2, 8, 8, 2, 2]
  }

  function AnchorTable2(p: nat): (a: nat)
    requires p < 32
    ensures 0 < a < 16
  {
    AnchorRow(p / 8)[p % 8]
  }

  ghost function PartitionOf(s: seq<bool>, i: nat): (p: nat)
    requires i < 14
    ensures Modes(i).partitions == 2 ==> p < 32
  {
    StoredBound(s, i, PARTITION, R);
    Pow2Small();
    Stored(s, i, PARTITION, R)
  }

  // Which pair of endpoints texel `t` lies between.
  ghost function Subset(s: seq<bool>, i: nat, t: nat): (k: nat)
    requires i < 14 && t < 16
    ensures k < Modes(i).partitions
  {
    Once(i, 0, 0, 0);
    if Modes(i).partitions == 1 then 0 else PartitionTable2(PartitionOf(s, i))[t]
  }

  // The texels whose index leaves out its highest bit.
  ghost predicate IsAnchor(s: seq<bool>, i: nat, t: nat)
    requires i < 14
  {
    t == 0 || (Modes(i).partitions == 2 && t == AnchorTable2(PartitionOf(s, i)))
  }

  ghost function IndexBits(s: seq<bool>, i: nat, t: nat): nat
    requires i < 14
  {
    (if Modes(i).partitions == 1 then 4 else 3) - (if IsAnchor(s, i, t) then 1 else 0)
  }

  ghost function IndexStart(s: seq<bool>, i: nat, t: nat): nat
    requires i < 14
  {
    if t == 0 then ModeBits(Modes(i)) + Total(Modes(i).fields) else IndexStart(s, i, t - 1) + IndexBits(s, i, t - 1)
  }

  // Mode, fields and indices make up the block.
  lemma WholeBlock(s: seq<bool>, i: nat)
    requires i < 14
    ensures IndexStart(s, i, 16) == 128
  {
    HeaderBits(i);
    Once(i, 0, 0, 0);
    IndexesBefore(s, i, 16);
  }

  lemma {:induction false} IndexesBefore(s: seq<bool>, i: nat, t: nat)
    requires i < 14 && Modes(i).partitions in {1, 2}
    ensures IndexStart(s, i, t) == IndexStart(s, i, 0) +
      (if Modes(i).partitions == 1 then 4 * t - (if t > 0 then 1 else 0)
       else 3 * t - (if t > 0 then 1 else 0) - (if t > AnchorTable2(PartitionOf(s, i)) then 1 else 0))
  {
    hide Modes, PartitionOf, AnchorTable2;
    if t > 0 { IndexesBefore(s, i, t - 1); }
  }

  ghost function Index(s: seq<bool>, i: nat, t: nat): (k: nat)
    requires i < 14 && t < 16
    ensures k < if Modes(i).partitions == 1 then 16 else 8
  {
    NatBound(Window(s, IndexStart(s, i, t), IndexBits(s, i, t)));
    Pow2Small();
    Nat(Window(s, IndexStart(s, i, t), IndexBits(s, i, t)))
  }

  function Weight(numBits: nat, k: nat): (w: nat)
    requires if numBits == 4 then k < 16 else k < 8
    ensures w <= 64
  {
    if numBits == 4 then [0, 4, 9, 13, 17, 21, 26, 30, 34, 38, 43, 47, 51, 55, 60, 64][k]
    else [0, 9, 18, 27, 37, 46, 55, 64][k]
  }

  // ----- texels

  ghost function WeightOf(s: seq<bool>, i: nat, t: nat): (w: nat)
    requires i < 14 && t < 16
    ensures w <= 64
  {
    Weight(if Modes(i).partitions == 1 then 4 else 3, Index(s, i, t))
  }

  // The two values texel `t` lies between.
  ghost function Near(s: seq<bool>, i: nat, t: nat, c: nat, isSigned: bool): (v: int)
    requires i < 14 && t < 16 && c < 3
    ensures InRange(v, 16, isSigned) && (isSigned || v >= 0) && (v == -0x8000 ==> isSigned && Modes(i).number == 15)
  {
    FinalNumber(s, i, 2 * Subset(s, i, t), c, isSigned);
    Final(s, i, 2 * Subset(s, i, t), c, isSigned)
  }

  ghost function Far(s: seq<bool>, i: nat, t: nat, c: nat, isSigned: bool): (v: int)
    requires i < 14 && t < 16 && c < 3
    ensures InRange(v, 16, isSigned) && (isSigned || v >= 0) && (v == -0x8000 ==> isSigned && Modes(i).number == 15)
  {
    FinalNumber(s, i, 2 * Subset(s, i, t) + 1, c, isSigned);
    Final(s, i, 2 * Subset(s, i, t) + 1, c, isSigned)
  }

  lemma FinalNumber(s: seq<bool>, i: nat, t: nat, c: nat, isSigned: bool)
    requires i < 14 && t < 2 * Modes(i).partitions && c < 3
    ensures var v := Final(s, i, t, c, isSigned);
      InRange(v, 16, isSigned) && (isSigned || v >= 0) && (v == -0x8000 ==> isSigned && Modes(i).number == 15)
  {
    WideMode(i);
    SizedMode(i);
    FinalRange(s, i, t, c, isSigned);
    NotNegative(Final(s, i, t, c, isSigned), isSigned);
  }

  lemma BlendRange(a: int, b: int, w: nat, isSigned: bool)
    requires InRange(a, 16, isSigned) && InRange(b, 16, isSigned) && w <= 64
    ensures InRange(Interpolated(a, b, w), 16, isSigned)
  {
    InterpolatedBetween(a, b, w);
  }

  ghost function Blended(s: seq<bool>, i: nat, t: nat, c: nat, isSigned: bool): (v: int)
    requires i < 14 && t < 16 && c < 3
    ensures InRange(v, 16, isSigned)
  {
    hide Modes, Near, Far, WeightOf, Interpolated, InRange;
    BlendRange(Near(s, i, t, c, isSigned), Far(s, i, t, c, isSigned), WeightOf(s, i, t), isSigned);
    Interpolated(Near(s, i, t, c, isSigned), Far(s, i, t, c, isSigned), WeightOf(s, i, t))
  }

  ghost function Channel(s: seq<bool>, i: nat, t: nat, c: nat, isSigned: bool): (h: nat)
    requires i < 14 && t < 16 && c < 3
    ensures h < 0x1_0000
  {
    HalfFinite(Blended(s, i, t, c, isSigned), isSigned);
    Half(Blended(s, i, t, c, isSigned), isSigned)
  }

  // Every float of a decoded texel is finite, unless the block's mode has 16-bit endpoints and the blend is -32768,
  // for which one of its two ends has to be.
  lemma TexelFinite(s: seq<bool>, i: nat, t: nat, c: nat, isSigned: bool)
    requires i < 14 && t < 16 && c < 3
    ensures Finite(Channel(s, i, t, c, isSigned)) <==>
      Weighted(Near(s, i, t, c, isSigned), Far(s, i, t, c, isSigned), WeightOf(s, i, t)) >= 32 - 64 * 0x8000
    ensures Near(s, i, t, c, isSigned) != -0x8000 && Far(s, i, t, c, isSigned) != -0x8000 ==> Finite(Channel(s, i, t, c, isSigned))
    ensures !isSigned || Modes(i).number != 15 ==> Finite(Channel(s, i, t, c, isSigned))
  {
    hide Modes, Near, Far, WeightOf, Finite, Half, InRange, Interpolated, Weighted;
    HalfFinite(Blended(s, i, t, c, isSigned), isSigned);
    LeastBlend(Near(s, i, t, c, isSigned), Far(s, i, t, c, isSigned), WeightOf(s, i, t), isSigned);
  }

  lemma LeastBlend(a: int, b: int, w: nat, isSigned: bool)
    requires InRange(a, 16, isSigned) && InRange(b, 16, isSigned) && w <= 64
    ensures Interpolated(a, b, w) == -0x8000 <==> Weighted(a, b, w) < 32 - 64 * 0x8000
    ensures Interpolated(a, b, w) == -0x8000 ==> isSigned && (a == -0x8000 || b == -0x8000)
  {
    if isSigned { LeastOnly(a, b, w); } else { InterpolatedBetween(a, b, w); }
  }

  lemma WideMode(i: nat)
    requires i < 14
    ensures Modes(i).endpointBits == 16 <==> Modes(i).number == 15
  {
  }

  lemma NotNegative(v: int, isSigned: bool)
    requires InRange(v, 16, isSigned)
    ensures isSigned || v >= 0
  {
  }

  // A decoded float lies between the two its ends decode to.
  lemma TexelBetween(s: seq<bool>, i: nat, t: nat, c: nat, isSigned: bool)
    requires i < 14 && t < 16 && c < 3
    ensures var x, y := Order(Half(Near(s, i, t, c, isSigned), isSigned)), Order(Half(Far(s, i, t, c, isSigned), isSigned));
      var h := Order(Channel(s, i, t, c, isSigned)); x <= h <= y || y <= h <= x
  {
    hide Modes, Near, Far, WeightOf, Half, Order, Interpolated, InRange;
    var a, b, v := Near(s, i, t, c, isSigned), Far(s, i, t, c, isSigned), Blended(s, i, t, c, isSigned);
    InterpolatedBetween(a, b, WeightOf(s, i, t));
    if a < b {
      HalfMonotone(a, v, isSigned);
      HalfMonotone(v, b, isSigned);
    } else {
      HalfMonotone(b, v, isSigned);
      HalfMonotone(v, a, isSigned);
    }
  }

  // ----- the tables

  // Weights are the 64ths nearest to equal steps.
  lemma WeightNearest(numBits: nat, k: nat)
    requires numBits in {3, 4} && k < if numBits == 4 then 16 else 8
    ensures var top := if numBits == 4 then 15 else 7; -top <= 2 * (top * Weight(numBits, k) - 64 * k) <= top
  {
  }

  // A texel is in the subset that the block's partition names for it, and in the first one if there is but one.
  lemma SubsetIs(s: seq<bool>, i: nat, t: nat)
    requires i < 14 && t < 16
    ensures Subset(s, i, t) == if Modes(i).partitions == 1 then 0 else PartitionTable2(Stored(s, i, PARTITION, R))[t]
  {
    hide Modes, PartitionTable2, Stored;
  }

  // The first index shows the first of its subset's endpoints, and the last one the second.
  lemma EndTexels(s: seq<bool>, i: nat, t: nat, c: nat, isSigned: bool)
    requires i < 14 && t < 16 && c < 3
    ensures var e := 2 * Subset(s, i, t);
      InRange(Final(s, i, e, c, isSigned), 16, isSigned) && InRange(Final(s, i, e + 1, c, isSigned), 16, isSigned) &&
      (isSigned || (Final(s, i, e, c, isSigned) >= 0 && Final(s, i, e + 1, c, isSigned) >= 0)) &&
      (Index(s, i, t) == 0 ==> Channel(s, i, t, c, isSigned) == Half(Final(s, i, e, c, isSigned), isSigned)) &&
      (Index(s, i, t) == (if Modes(i).partitions == 1 then 15 else 7) ==>
        Channel(s, i, t, c, isSigned) == Half(Final(s, i, e + 1, c, isSigned), isSigned))
  {
    hide Modes, Final, Half, InRange, Interpolated, Index, Subset;
    var e := 2 * Subset(s, i, t);
    FinalNumber(s, i, e, c, isSigned);
    FinalNumber(s, i, e + 1, c, isSigned);
    InterpolatedBetween(Final(s, i, e, c, isSigned), Final(s, i, e + 1, c, isSigned), 0);
  }

  // The partitions as masks, the first texel in the lowest bit.
  const PARTITION_MASKS: seq<nat> := [
    0xCCCC, 0x8888, 0xEEEE, 0xECC8, 0xC880, 0xFEEC, 0xFEC8, 0xEC80, 0xC800, 0xFFEC, 0xFE80, 0xE800, 0xFFE8, 0xFF00, 0xFFF0, 0xF000,
    0xF710, 0x008E, 0x7100, 0x08CE, 0x008C, 0x7310, 0x3100, 0x8CCE, 0x088C, 0x3110, 0x6666, 0x366C, 0x17E8, 0x0FF0, 0x718E, 0x399C]

  function Quarter(row: seq<Side>, k: nat): nat
    requires |row| == 16 && k < 4
  {
    row[4 * k] as int + 2 * row[4 * k + 1] as int + 4 * row[4 * k + 2] as int + 8 * row[4 * k + 3] as int
  }

  function Mask(row: seq<Side>): nat
    requires |row| == 16
  {
    Quarter(row, 0) + 16 * Quarter(row, 1) + 256 * Quarter(row, 2) + 4096 * Quarter(row, 3)
  }

  lemma PartitionMask(p: nat)
    requires p < 32
    ensures PARTITION_MASKS[p] == Mask(PartitionTable2(p))
  {
    hide *;
    if p < 11 { PartitionMaskLow(p); } else if p < 22 { PartitionMaskMid(p); } else { PartitionMaskHigh(p); }
  }

  lemma PartitionMaskLow(p: nat)
    requires p < 11
    ensures PARTITION_MASKS[p] == Mask(PartitionTable2(p))
  {
  }

  lemma PartitionMaskMid(p: nat)
    requires 11 <= p < 22
    ensures PARTITION_MASKS[p] == Mask(PartitionTable2(p))
  {
  }

  lemma PartitionMaskHigh(p: nat)
    requires 22 <= p < 32
    ensures PARTITION_MASKS[p] == Mask(PartitionTable2(p))
  {
  }

  // The texels with the shorter index are one of each subset: texel 0, and the anchor of the other.
  lemma AnchorsInside(p: nat)
    requires p < 32
    ensures PartitionTable2(p)[0] == 0 && PartitionTable2(p)[AnchorTable2(p)] == 1
  {
    hide *;
    if p < 11 { AnchorsInsideLow(p); } else if p < 22 { AnchorsInsideMid(p); } else { AnchorsInsideHigh(p); }
  }

  lemma AnchorsInsideLow(p: nat)
    requires p < 11
    ensures PartitionTable2(p)[0] == 0 && PartitionTable2(p)[AnchorTable2(p)] == 1
  {
  }

  lemma AnchorsInsideMid(p: nat)
    requires 11 <= p < 22
    ensures PartitionTable2(p)[0] == 0 && PartitionTable2(p)[AnchorTable2(p)] == 1
  {
  }

  lemma AnchorsInsideHigh(p: nat)
    requires 22 <= p < 32
    ensures PartitionTable2(p)[0] == 0 && PartitionTable2(p)[AnchorTable2(p)] == 1
  {
  }

  // ----- a block that is not finite

  // Mode 15, with nothing set but the signs of the first endpoint.
  const LEAST: seq<bool> := seq(128, k => k < 4 || k in {39, 49, 59})

  // All its texels are minus infinity in every channel.
  lemma MinusInfinity(t: nat, c: nat)
    requires t < 16 && c < 3
    ensures |LEAST| == 128 && ModeOf(LEAST) == 15 == Modes(9).number
    ensures Near(LEAST, 9, t, c, true) == Far(LEAST, 9, t, c, true) == -0x8000
    ensures Channel(LEAST, 9, t, c, true) == 0xFC00 && !Finite(0xFC00)
  {
    hide *;
    LeastMode();
    LeastEnds(c);
    OnePair(LEAST, t, c);
    BothLeast(LEAST, 9, t, c);
  }

  // Mode 15 has one pair of endpoints.
  lemma OnePair(s: seq<bool>, t: nat, c: nat)
    requires t < 16 && c < 3
    ensures Modes(9).number == 15 && Modes(9).partitions == 1
    ensures Near(s, 9, t, c, true) == Final(s, 9, EP0, c, true) && Far(s, 9, t, c, true) == Final(s, 9, EP1, c, true)
  {
    hide Final, InRange;
  }

  lemma BothLeast(s: seq<bool>, i: nat, t: nat, c: nat)
    requires i < 14 && t < 16 && c < 3 && Near(s, i, t, c, true) == Far(s, i, t, c, true) == -0x8000
    ensures Channel(s, i, t, c, true) == 0xFC00 && !Finite(0xFC00)
  {
    hide Modes, Near, Far, WeightOf, Half, Interpolated, InRange, Finite;
    InterpolatedBetween(-0x8000, -0x8000, WeightOf(s, i, t));
    HalfFinite(-0x8000, true);
  }

  lemma LeastMode()
    ensures |LEAST| == 128 && ModeOf(LEAST) == 15
  {
    assert Window(LEAST, 0, 5) == [true, true, true, true, false];
    assert Nat([true, false]) == 1;
    assert [true, true, true, true, false][1..][1..][1..] == [true, false];
  }

  lemma LeastEnds(c: nat)
    requires c < 3
    ensures Final(LEAST, 9, EP0, c, true) == Final(LEAST, 9, EP1, c, true) == -0x8000
  {
    LeastStored(EP0, c);
    LeastStored(EP1, c);
    LeastWrap();
    hide Stored, Read, Delta, Signed, Pow2;
  }

  lemma LeastWrap()
    ensures Read(0x8000, 16, true) == -0x8000 && Delta(-0x8000 + Signed(0, 4), 16, true) == -0x8000
  {
    Pow2Small();
  }

  lemma LeastStored(t: nat, c: nat)
    requires t < 2 && c < 3
    ensures Stored(LEAST, 9, t, c) == if t == EP0 then 0x8000 else 0
  {
    var v := if t == EP0 then 0x8000 else 0;
    forall b: nat
      ensures Bit(v, b) <==> Set(LEAST, M15, 5, t, c, b)
    {
      LeastSet(t, c, b);
      SignBit(b);
      NoBit(b);
    }
    hide Set, Bit, Stored;
    StoredIs(LEAST, 9, t, c, v);
  }

  lemma LeastSet(t: nat, c: nat, b: nat)
    requires t < 2 && c < 3
    ensures Set(LEAST, M15, 5, t, c, b) <==> t == EP0 && b == 15
  {
    var f3 := M15.rest.rest.rest;
    var f6 := f3.rest.rest.rest;
    assert Set(LEAST, f6, 49, t, c, b) <==> t == EP0 && c in {G, B} && b == 15 by {
      assert Set(LEAST, f6.rest.rest, 59, t, c, b) <==> t == EP0 && c == B && b == 15;
    }
    assert Set(LEAST, f3, 35, t, c, b) <==> t == EP0 && b == 15 by {
      assert Set(LEAST, f3.rest.rest, 45, t, c, b) <==> t == EP0 && c in {G, B} && b == 15;
    }
    assert Set(LEAST, M15.rest.rest, 25, t, c, b) <==> t == EP0 && b == 15;
  }

  lemma SignBit(b: nat)
    ensures Bit(0x8000, b) <==> b == 15
  {
    BitOfShl(1, 15, b);
    Pow2Small();
    if b > 15 {
      BitNext(1, b - 16);
      NoBit(b - 16);
    } else {
      BitNext(1, 0);
    }
  }
}
