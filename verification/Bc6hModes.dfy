// The layout of BC6H blocks (`blockDescs`, `modeToIndex`): which bit of a block is which bit of which endpoint.

module Bc6hModes {
  import opened BitStream
  import opened Bc6hData
  import opened Wrappers

  // What a field is part of: one of four endpoints, in one of three channels, or the partition number.
  const EP0 := 0
  const EP1 := 1
  const EP2 := 2
  const EP3 := 3
  const PARTITION := 4

  const R := 0
  const G := 1
  const B := 2

  // The fields in the order they are stored, up to `End`, with the highest and the lowest bit each one fills; where the
  // lower one is named first the bits are stored in reverse.
  datatype Fields = End | Field(target: nat, channel: nat, msb: nat, lsb: nat, rest: Fields)

  datatype Mode = Mode(number: nat, hasDelta: bool, partitions: nat, endpointBits: nat, deltaBits: seq<nat>, fields: Fields)

  const M0_3 := Field(EP2, R, 4, 0, Field(EP3, B, 2, 2, Field(EP3, R, 4, 0, Field(EP3, B, 3, 3,
    Field(PARTITION, R, 4, 0, End)))))
  const M0_2 := Field(EP3, B, 0, 0, Field(EP3, G, 3, 0, Field(EP1, B, 4, 0, Field(EP3, B, 1, 1, Field(EP2, B, 3, 0, M0_3)))))
  const M0_1 := Field(EP0, B, 9, 0, Field(EP1, R, 4, 0, Field(EP3, G, 4, 4, Field(EP2, G, 3, 0, Field(EP1, G, 4, 0, M0_2)))))
  const M0 := Field(EP2, G, 4, 4, Field(EP2, B, 4, 4, Field(EP3, B, 4, 4, Field(EP0, R, 9, 0, Field(EP0, G, 9, 0, M0_1)))))
  const MODE_0 := Mode(0, true, 2, 10, [5, 5, 5], M0)

  const M1_4 := Field(EP3, R, 5, 0, Field(PARTITION, R, 4, 0, End))
  const M1_3 := Field(EP1, G, 5, 0, Field(EP3, G, 3, 0, Field(EP1, B, 5, 0, Field(EP2, B, 3, 0, Field(EP2, R, 5, 0, M1_4)))))
  const M1_2 := Field(EP3, B, 3, 3, Field(EP3, B, 5, 5, Field(EP3, B, 4, 4, Field(EP1, R, 5, 0, Field(EP2, G, 3, 0, M1_3)))))
  const M1_1 := Field(EP0, G, 6, 0, Field(EP2, B, 5, 5, Field(EP3, B, 2, 2, Field(EP2, G, 4, 4, Field(EP0, B, 6, 0, M1_2)))))
  const M1 := Field(EP2, G, 5, 5, Field(EP3, G, 5, 4, Field(EP0, R, 6, 0, Field(EP3, B, 1, 0, Field(EP2, B, 4, 4, M1_1)))))
  const MODE_1 := Mode(1, true, 2, 7, [6, 6, 6], M1)

  const M2_3 := Field(EP3, B, 2, 2, Field(EP3, R, 4, 0, Field(EP3, B, 3, 3, Field(PARTITION, R, 4, 0, End))))
  const M2_2 := Field(EP1, B, 3, 0, Field(EP0, B, 10, 10, Field(EP3, B, 1, 1, Field(EP2, B, 3, 0, Field(EP2, R, 4, 0, M2_3)))))
  const M2_1 := Field(EP2, G, 3, 0, Field(EP1, G, 3, 0, Field(EP0, G, 10, 10, Field(EP3, B, 0, 0, Field(EP3, G, 3, 0, M2_2)))))
  const M2 := Field(EP0, R, 9, 0, Field(EP0, G, 9, 0, Field(EP0, B, 9, 0, Field(EP1, R, 4, 0, Field(EP0, R, 10, 10, M2_1)))))
  const MODE_2 := Mode(2, true, 2, 11, [5, 4, 4], M2)

  const M3 := Field(EP0, R, 9, 0, Field(EP0, G, 9, 0, Field(EP0, B, 9, 0, Field(EP1, R, 9, 0, Field(EP1, G, 9, 0,
    Field(EP1, B, 9, 0, End))))))
  const MODE_3 := Mode(3, false, 1, 10, [0, 0, 0], M3)

  const M6_4 := Field(PARTITION, R, 4, 0, End)
  const M6_3 := Field(EP3, B, 0, 0, Field(EP3, B, 2, 2, Field(EP3, R, 3, 0, Field(EP2, G, 4, 4, Field(EP3, B, 3, 3, M6_4)))))
  const M6_2 := Field(EP1, B, 3, 0, Field(EP0, B, 10, 10, Field(EP3, B, 1, 1, Field(EP2, B, 3, 0, Field(EP2, R, 3, 0, M6_3)))))
  const M6_1 := Field(EP3, G, 4, 4, Field(EP2, G, 3, 0, Field(EP1, G, 4, 0, Field(EP0, G, 10, 10, Field(EP3, G, 3, 0, M6_2)))))
  const M6 := Field(EP0, R, 9, 0, Field(EP0, G, 9, 0, Field(EP0, B, 9, 0, Field(EP1, R, 3, 0, Field(EP0, R, 10, 10, M6_1)))))
  const MODE_6 := Mode(6, true, 2, 11, [4, 5, 4], M6)

  const M7 := Field(EP0, R, 9, 0, Field(EP0, G, 9, 0, Field(EP0, B, 9, 0, Field(EP1, R, 8, 0, Field(EP0, R, 10, 10,
    Field(EP1, G, 8, 0, Field(EP0, G, 10, 10, Field(EP1, B, 8, 0, Field(EP0, B, 10, 10, End)))))))))
  const MODE_7 := Mode(7, true, 1, 11, [9, 9, 9], M7)

  const M10_4 := Field(PARTITION, R, 4, 0, End)
  const M10_3 := Field(EP3, B, 1, 1, Field(EP3, B, 2, 2, Field(EP3, R, 3, 0, Field(EP3, B, 4, 4, Field(EP3, B, 3, 3, M10_4)))))
  const M10_2 := Field(EP3, G, 3, 0, Field(EP1, B, 4, 0, Field(EP0, B, 10, 10, Field(EP2, B, 3, 0, Field(EP2, R, 3, 0, M10_3)))))
  const M10_1 := Field(EP2, B, 4, 4, Field(EP2, G, 3, 0, Field(EP1, G, 3, 0, Field(EP0, G, 10, 10, Field(EP3, B, 0, 0, M10_2)))))
  const M10 := Field(EP0, R, 9, 0, Field(EP0, G, 9, 0, Field(EP0, B, 9, 0, Field(EP1, R, 3, 0, Field(EP0, R, 10, 10, M10_1)))))
  const MODE_10 := Mode(10, true, 2, 11, [4, 4, 5], M10)

  const M11 := Field(EP0, R, 9, 0, Field(EP0, G, 9, 0, Field(EP0, B, 9, 0, Field(EP1, R, 7, 0, Field(EP0, R, 10, 11,
    Field(EP1, G, 7, 0, Field(EP0, G, 10, 11, Field(EP1, B, 7, 0, Field(EP0, B, 10, 11, End)))))))))
  const MODE_11 := Mode(11, true, 1, 12, [8, 8, 8], M11)

  const M14_3 := Field(EP2, R, 4, 0, Field(EP3, B, 2, 2, Field(EP3, R, 4, 0, Field(EP3, B, 3, 3,
    Field(PARTITION, R, 4, 0, End)))))
  const M14_2 := Field(EP3, B, 0, 0, Field(EP3, G, 3, 0, Field(EP1, B, 4, 0, Field(EP3, B, 1, 1, Field(EP2, B, 3, 0, M14_3)))))
  const M14_1 := Field(EP3, B, 4, 4, Field(EP1, R, 4, 0, Field(EP3, G, 4, 4, Field(EP2, G, 3, 0, Field(EP1, G, 4, 0, M14_2)))))
  const M14 := Field(EP0, R, 8, 0, Field(EP2, B, 4, 4, Field(EP0, G, 8, 0, Field(EP2, G, 4, 4, Field(EP0, B, 8, 0, M14_1)))))
  const MODE_14 := Mode(14, true, 2, 9, [5, 5, 5], M14)

  const M15 := Field(EP0, R, 9, 0, Field(EP0, G, 9, 0, Field(EP0, B, 9, 0, Field(EP1, R, 3, 0, Field(EP0, R, 10, 15,
    Field(EP1, G, 3, 0, Field(EP0, G, 10, 15, Field(EP1, B, 3, 0, Field(EP0, B, 10, 15, End)))))))))
  const MODE_15 := Mode(15, true, 1, 16, [4, 4, 4], M15)

  const M18_3 := Field(EP3, B, 1, 1, Field(EP2, B, 3, 0, Field(EP2, R, 5, 0, Field(EP3, R, 5, 0,
    Field(PARTITION, R, 4, 0, End)))))
  const M18_2 := Field(EP2, G, 3, 0, Field(EP1, G, 4, 0, Field(EP3, B, 0, 0, Field(EP3, G, 3, 0, Field(EP1, B, 4, 0, M18_3)))))
  const M18_1 := Field(EP2, G, 4, 4, Field(EP0, B, 7, 0, Field(EP3, B, 3, 3, Field(EP3, B, 4, 4, Field(EP1, R, 5, 0, M18_2)))))
  const M18 := Field(EP0, R, 7, 0, Field(EP3, G, 4, 4, Field(EP2, B, 4, 4, Field(EP0, G, 7, 0, Field(EP3, B, 2, 2, M18_1)))))
  const MODE_18 := Mode(18, true, 2, 8, [6, 5, 5], M18)

  const M22_4 := Field(EP3, B, 3, 3, Field(PARTITION, R, 4, 0, End))
  const M22_3 := Field(EP3, B, 1, 1, Field(EP2, B, 3, 0, Field(EP2, R, 4, 0, Field(EP3, B, 2, 2, Field(EP3, R, 4, 0, M22_4)))))
  const M22_2 := Field(EP3, G, 4, 4, Field(EP2, G, 3, 0, Field(EP1, G, 5, 0, Field(EP3, G, 3, 0, Field(EP1, B, 4, 0, M22_3)))))
  const M22_1 := Field(EP2, G, 4, 4, Field(EP0, B, 7, 0, Field(EP3, G, 5, 5, Field(EP3, B, 4, 4, Field(EP1, R, 4, 0, M22_2)))))
  const M22 := Field(EP0, R, 7, 0, Field(EP3, B, 0, 0, Field(EP2, B, 4, 4, Field(EP0, G, 7, 0, Field(EP2, G, 5, 5, M22_1)))))
  const MODE_22 := Mode(22, true, 2, 8, [5, 6, 5], M22)

  const M26_4 := Field(EP3, B, 3, 3, Field(PARTITION, R, 4, 0, End))
  const M26_3 := Field(EP1, B, 5, 0, Field(EP2, B, 3, 0, Field(EP2, R, 4, 0, Field(EP3, B, 2, 2, Field(EP3, R, 4, 0, M26_4)))))
  const M26_2 := Field(EP3, G, 4, 4, Field(EP2, G, 3, 0, Field(EP1, G, 4, 0, Field(EP3, B, 0, 0, Field(EP3, G, 3, 0, M26_3)))))
  const M26_1 := Field(EP2, G, 4, 4, Field(EP0, B, 7, 0, Field(EP3, B, 5, 5, Field(EP3, B, 4, 4, Field(EP1, R, 4, 0, M26_2)))))
  const M26 := Field(EP0, R, 7, 0, Field(EP3, B, 1, 1, Field(EP2, B, 4, 4, Field(EP0, G, 7, 0, Field(EP2, B, 5, 5, M26_1)))))
  const MODE_26 := Mode(26, true, 2, 8, [5, 5, 6], M26)

  const M30_4 := Field(EP2, B, 3, 0, Field(EP2, R, 5, 0, Field(EP3, R, 5, 0, Field(PARTITION, R, 4, 0, End))))
  const M30_3 := Field(EP1, R, 5, 0, Field(EP2, G, 3, 0, Field(EP1, G, 5, 0, Field(EP3, G, 3, 0, Field(EP1, B, 5, 0, M30_4)))))
  const M30_2 := Field(EP0, B, 5, 0, Field(EP3, G, 5, 5, Field(EP3, B, 3, 3, Field(EP3, B, 5, 5, Field(EP3, B, 4, 4, M30_3)))))
  const M30_1 := Field(EP0, G, 5, 0, Field(EP2, G, 5, 5, Field(EP2, B, 5, 5, Field(EP3, B, 2, 2, Field(EP2, G, 4, 4, M30_2)))))
  const M30 := Field(EP0, R, 5, 0, Field(EP3, G, 4, 4, Field(EP3, B, 0, 0, Field(EP3, B, 1, 1, Field(EP2, B, 4, 4, M30_1)))))
  const MODE_30 := Mode(30, false, 2, 6, [0, 0, 0], M30)

  function Modes(i: nat): Mode {
    match i
    case 0 => MODE_0
    case 1 => MODE_1
    case 2 => MODE_2
    case 3 => MODE_3
    case 4 => MODE_6
    case 5 => MODE_7
    case 6 => MODE_10
    case 7 => MODE_11
    case 8 => MODE_14
    case 9 => MODE_15
    case 10 => MODE_18
    case 11 => MODE_22
    case 12 => MODE_26
    case _ => MODE_30
  }

  // ----- modes

  function ModeToIndex(mode: nat): (r: Option<nat>)
    ensures r.Some? ==> r.value < 14
  {
    if mode <= 3 then Some(mode)
    else if mode / 2 % 2 != 0 then
      if mode <= 18 then Some(mode / 2 + 1 + mode % 2)
      else if mode == 22 || mode == 26 || mode == 30 then Some(mode / 4 + 6)
      else None
    else None
  }

  // The first two bits are the mode unless the second one is set; then it is the first five.
  function ModeBits(m: Mode): nat { if m.number < 2 then 2 else 5 }

  // A mode is legal exactly when the table has it, and it has it once.
  lemma ModeIndexed(mode: nat, i: nat)
    requires (mode < 2 || mode / 2 % 2 == 1) && mode < 32 && i < 14
    ensures ModeToIndex(mode) == Some(i) <==> Modes(i).number == mode
  {
  }

  // ----- fields

  function Size(f: Fields): nat
    requires f.Field?
  {
    Abs(f.msb - f.lsb) + 1
  }

  predicate Fills(f: Fields, t: nat, c: nat, b: nat)
    requires f.Field?
  {
    f.target == t && f.channel == c && (f.lsb <= b <= f.msb || f.msb <= b <= f.lsb)
  }

  // A field's share in bit `b` of channel `c` of `t`: one if it fills the bit.
  function In(target: nat, channel: nat, msb: nat, lsb: nat, t: nat, c: nat, b: nat): nat {
    if Fills(Field(target, channel, msb, lsb, End), t, c, b) then 1 else 0
  }

  // How many fields fill bit `b` of channel `c` of `t`.
  function Hits(f: Fields, t: nat, c: nat, b: nat): nat
    decreases f
  {
    if f.End? then 0 else (if Fills(f, t, c, b) then 1 else 0) + Hits(f.rest, t, c, b)
  }

  function Total(f: Fields): nat { if f.End? then 0 else Size(f) + Total(f.rest) }

  predicate Named(f: Fields) {
    f.Field? ==> f.target <= 4 && f.channel < 3 && (f.target == PARTITION ==> f.channel == R) && f.msb < 16 && f.lsb < 16 && Named(f.rest)
  }

  // How many bits of a channel of an endpoint, or of the partition number, a block of mode `m` has.
  function Width(m: Mode, t: nat, c: nat): nat
    requires |m.deltaBits| == 3 && c < 3
  {
    if t == PARTITION then (if c == R && m.partitions == 2 then 5 else 0)
    else if t >= 2 * m.partitions then 0
    else if t == EP0 || !m.hasDelta then m.endpointBits
    else m.deltaBits[c]
  }

  // Endpoints have at most 16 bits, and deltas fewer than the endpoint they are added to.
  predicate Sized(m: Mode) {
    |m.deltaBits| == 3 && m.partitions in {1, 2} && (6 <= m.endpointBits < 15 || m.endpointBits == 16) &&
    forall c :: 0 <= c < 3 ==> m.hasDelta ==> 1 <= m.deltaBits[c] < m.endpointBits
  }

  lemma Part0_3(t: nat, c: nat, b: nat)
    ensures Hits(M0_3, t, c, b) == In(EP2, R, 4, 0, t, c, b) + In(EP3, B, 2, 2, t, c, b) + In(EP3, R, 4, 0, t, c, b) +
      In(EP3, B, 3, 3, t, c, b) + In(PARTITION, R, 4, 0, t, c, b)
  {
  }

  lemma Part0_2(t: nat, c: nat, b: nat)
    ensures Hits(M0_2, t, c, b) == In(EP3, B, 0, 0, t, c, b) + In(EP3, G, 3, 0, t, c, b) + In(EP1, B, 4, 0, t, c, b) +
      In(EP3, B, 1, 1, t, c, b) + In(EP2, B, 3, 0, t, c, b) + Hits(M0_3, t, c, b)
  {
  }

  lemma Part0_1(t: nat, c: nat, b: nat)
    ensures Hits(M0_1, t, c, b) == In(EP0, B, 9, 0, t, c, b) + In(EP1, R, 4, 0, t, c, b) + In(EP3, G, 4, 4, t, c, b) +
      In(EP2, G, 3, 0, t, c, b) + In(EP1, G, 4, 0, t, c, b) + Hits(M0_2, t, c, b)
  {
  }

  lemma Part0_0(t: nat, c: nat, b: nat)
    ensures Hits(M0, t, c, b) == In(EP2, G, 4, 4, t, c, b) + In(EP2, B, 4, 4, t, c, b) + In(EP3, B, 4, 4, t, c, b) +
      In(EP0, R, 9, 0, t, c, b) + In(EP0, G, 9, 0, t, c, b) + Hits(M0_1, t, c, b)
  {
  }

  lemma Once0(t: nat, c: nat, b: nat)
    requires t <= 4 && c < 3
    ensures Hits(M0, t, c, b) == if b < Width(MODE_0, t, c) then 1 else 0
  {
    hide Hits;
    Part0_3(t, c, b);
    Part0_2(t, c, b);
    Part0_1(t, c, b);
    Part0_0(t, c, b);
  }

  lemma Total0()
    ensures Total(M0) == 80 && Named(M0)
  {
    assert Total(M0_3) == 17 && Named(M0_3);
    assert Total(M0_2) == 32 && Named(M0_2);
    assert Total(M0_1) == 57 && Named(M0_1);
  }

  lemma Part1_4(t: nat, c: nat, b: nat)
    ensures Hits(M1_4, t, c, b) == In(EP3, R, 5, 0, t, c, b) + In(PARTITION, R, 4, 0, t, c, b)
  {
  }

  lemma Part1_3(t: nat, c: nat, b: nat)
    ensures Hits(M1_3, t, c, b) == In(EP1, G, 5, 0, t, c, b) + In(EP3, G, 3, 0, t, c, b) + In(EP1, B, 5, 0, t, c, b) +
      In(EP2, B, 3, 0, t, c, b) + In(EP2, R, 5, 0, t, c, b) + Hits(M1_4, t, c, b)
  {
  }

  lemma Part1_2(t: nat, c: nat, b: nat)
    ensures Hits(M1_2, t, c, b) == In(EP3, B, 3, 3, t, c, b) + In(EP3, B, 5, 5, t, c, b) + In(EP3, B, 4, 4, t, c, b) +
      In(EP1, R, 5, 0, t, c, b) + In(EP2, G, 3, 0, t, c, b) + Hits(M1_3, t, c, b)
  {
  }

  lemma Part1_1(t: nat, c: nat, b: nat)
    ensures Hits(M1_1, t, c, b) == In(EP0, G, 6, 0, t, c, b) + In(EP2, B, 5, 5, t, c, b) + In(EP3, B, 2, 2, t, c, b) +
      In(EP2, G, 4, 4, t, c, b) + In(EP0, B, 6, 0, t, c, b) + Hits(M1_2, t, c, b)
  {
  }

  lemma Part1_0(t: nat, c: nat, b: nat)
    ensures Hits(M1, t, c, b) == In(EP2, G, 5, 5, t, c, b) + In(EP3, G, 5, 4, t, c, b) + In(EP0, R, 6, 0, t, c, b) +
      In(EP3, B, 1, 0, t, c, b) + In(EP2, B, 4, 4, t, c, b) + Hits(M1_1, t, c, b)
  {
  }

  lemma Once1(t: nat, c: nat, b: nat)
    requires t <= 4 && c < 3
    ensures Hits(M1, t, c, b) == if b < Width(MODE_1, t, c) then 1 else 0
  {
    hide Hits;
    Part1_4(t, c, b);
    Part1_3(t, c, b);
    Part1_2(t, c, b);
    Part1_1(t, c, b);
    Part1_0(t, c, b);
  }

  lemma Total1()
    ensures Total(M1) == 80 && Named(M1)
  {
    assert Total(M1_4) == 11 && Named(M1_4);
    assert Total(M1_3) == 37 && Named(M1_3);
    assert Total(M1_2) == 50 && Named(M1_2);
    assert Total(M1_1) == 67 && Named(M1_1);
  }

  lemma Part2_3(t: nat, c: nat, b: nat)
    ensures Hits(M2_3, t, c, b) == In(EP3, B, 2, 2, t, c, b) + In(EP3, R, 4, 0, t, c, b) + In(EP3, B, 3, 3, t, c, b) +
      In(PARTITION, R, 4, 0, t, c, b)
  {
  }

  lemma Part2_2(t: nat, c: nat, b: nat)
    ensures Hits(M2_2, t, c, b) == In(EP1, B, 3, 0, t, c, b) + In(EP0, B, 10, 10, t, c, b) +
      In(EP3, B, 1, 1, t, c, b) + In(EP2, B, 3, 0, t, c, b) + In(EP2, R, 4, 0, t, c, b) + Hits(M2_3, t, c, b)
  {
  }

  lemma Part2_1(t: nat, c: nat, b: nat)
    ensures Hits(M2_1, t, c, b) == In(EP2, G, 3, 0, t, c, b) + In(EP1, G, 3, 0, t, c, b) +
      In(EP0, G, 10, 10, t, c, b) + In(EP3, B, 0, 0, t, c, b) + In(EP3, G, 3, 0, t, c, b) + Hits(M2_2, t, c, b)
  {
  }

  lemma Part2_0(t: nat, c: nat, b: nat)
    ensures Hits(M2, t, c, b) == In(EP0, R, 9, 0, t, c, b) + In(EP0, G, 9, 0, t, c, b) + In(EP0, B, 9, 0, t, c, b) +
      In(EP1, R, 4, 0, t, c, b) + In(EP0, R, 10, 10, t, c, b) + Hits(M2_1, t, c, b)
  {
  }

  lemma Once2(t: nat, c: nat, b: nat)
    requires t <= 4 && c < 3
    ensures Hits(M2, t, c, b) == if b < Width(MODE_2, t, c) then 1 else 0
  {
    hide Hits;
    Part2_3(t, c, b);
    Part2_2(t, c, b);
    Part2_1(t, c, b);
    Part2_0(t, c, b);
  }

  lemma Total2()
    ensures Total(M2) == 77 && Named(M2)
  {
    assert Total(M2_3) == 12 && Named(M2_3);
    assert Total(M2_2) == 27 && Named(M2_2);
    assert Total(M2_1) == 41 && Named(M2_1);
  }

  lemma Once3(t: nat, c: nat, b: nat)
    requires t <= 4 && c < 3
    ensures Hits(M3, t, c, b) == if b < Width(MODE_3, t, c) then 1 else 0
  {
  }

  lemma Total3()
    ensures Total(M3) == 60 && Named(M3)
  {
  }

  lemma Part6_4(t: nat, c: nat, b: nat)
    ensures Hits(M6_4, t, c, b) == In(PARTITION, R, 4, 0, t, c, b)
  {
  }

  lemma Part6_3(t: nat, c: nat, b: nat)
    ensures Hits(M6_3, t, c, b) == In(EP3, B, 0, 0, t, c, b) + In(EP3, B, 2, 2, t, c, b) + In(EP3, R, 3, 0, t, c, b) +
      In(EP2, G, 4, 4, t, c, b) + In(EP3, B, 3, 3, t, c, b) + Hits(M6_4, t, c, b)
  {
  }

  lemma Part6_2(t: nat, c: nat, b: nat)
    ensures Hits(M6_2, t, c, b) == In(EP1, B, 3, 0, t, c, b) + In(EP0, B, 10, 10, t, c, b) +
      In(EP3, B, 1, 1, t, c, b) + In(EP2, B, 3, 0, t, c, b) + In(EP2, R, 3, 0, t, c, b) + Hits(M6_3, t, c, b)
  {
  }

  lemma Part6_1(t: nat, c: nat, b: nat)
    ensures Hits(M6_1, t, c, b) == In(EP3, G, 4, 4, t, c, b) + In(EP2, G, 3, 0, t, c, b) + In(EP1, G, 4, 0, t, c, b) +
      In(EP0, G, 10, 10, t, c, b) + In(EP3, G, 3, 0, t, c, b) + Hits(M6_2, t, c, b)
  {
  }

  lemma Part6_0(t: nat, c: nat, b: nat)
    ensures Hits(M6, t, c, b) == In(EP0, R, 9, 0, t, c, b) + In(EP0, G, 9, 0, t, c, b) + In(EP0, B, 9, 0, t, c, b) +
      In(EP1, R, 3, 0, t, c, b) + In(EP0, R, 10, 10, t, c, b) + Hits(M6_1, t, c, b)
  {
  }

  lemma Once6(t: nat, c: nat, b: nat)
    requires t <= 4 && c < 3
    ensures Hits(M6, t, c, b) == if b < Width(MODE_6, t, c) then 1 else 0
  {
    hide Hits;
    Part6_4(t, c, b);
    Part6_3(t, c, b);
    Part6_2(t, c, b);
    Part6_1(t, c, b);
    Part6_0(t, c, b);
  }

  lemma Total6()
    ensures Total(M6) == 77 && Named(M6)
  {
    assert Total(M6_4) == 5 && Named(M6_4);
    assert Total(M6_3) == 13 && Named(M6_3);
    assert Total(M6_2) == 27 && Named(M6_2);
    assert Total(M6_1) == 42 && Named(M6_1);
  }

  lemma Once7(t: nat, c: nat, b: nat)
    requires t <= 4 && c < 3
    ensures Hits(M7, t, c, b) == if b < Width(MODE_7, t, c) then 1 else 0
  {
  }

  lemma Total7()
    ensures Total(M7) == 60 && Named(M7)
  {
  }

  lemma Part10_4(t: nat, c: nat, b: nat)
    ensures Hits(M10_4, t, c, b) == In(PARTITION, R, 4, 0, t, c, b)
  {
  }

  lemma Part10_3(t: nat, c: nat, b: nat)
    ensures Hits(M10_3, t, c, b) == In(EP3, B, 1, 1, t, c, b) + In(EP3, B, 2, 2, t, c, b) +
      In(EP3, R, 3, 0, t, c, b) + In(EP3, B, 4, 4, t, c, b) + In(EP3, B, 3, 3, t, c, b) + Hits(M10_4, t, c, b)
  {
  }

  lemma Part10_2(t: nat, c: nat, b: nat)
    ensures Hits(M10_2, t, c, b) == In(EP3, G, 3, 0, t, c, b) + In(EP1, B, 4, 0, t, c, b) +
      In(EP0, B, 10, 10, t, c, b) + In(EP2, B, 3, 0, t, c, b) + In(EP2, R, 3, 0, t, c, b) + Hits(M10_3, t, c, b)
  {
  }

  lemma Part10_1(t: nat, c: nat, b: nat)
    ensures Hits(M10_1, t, c, b) == In(EP2, B, 4, 4, t, c, b) + In(EP2, G, 3, 0, t, c, b) +
      In(EP1, G, 3, 0, t, c, b) + In(EP0, G, 10, 10, t, c, b) + In(EP3, B, 0, 0, t, c, b) + Hits(M10_2, t, c, b)
  {
  }

  lemma Part10_0(t: nat, c: nat, b: nat)
    ensures Hits(M10, t, c, b) == In(EP0, R, 9, 0, t, c, b) + In(EP0, G, 9, 0, t, c, b) + In(EP0, B, 9, 0, t, c, b) +
      In(EP1, R, 3, 0, t, c, b) + In(EP0, R, 10, 10, t, c, b) + Hits(M10_1, t, c, b)
  {
  }

  lemma Once10(t: nat, c: nat, b: nat)
    requires t <= 4 && c < 3
    ensures Hits(M10, t, c, b) == if b < Width(MODE_10, t, c) then 1 else 0
  {
    hide Hits;
    Part10_4(t, c, b);
    Part10_3(t, c, b);
    Part10_2(t, c, b);
    Part10_1(t, c, b);
    Part10_0(t, c, b);
  }

  lemma Total10()
    ensures Total(M10) == 77 && Named(M10)
  {
    assert Total(M10_4) == 5 && Named(M10_4);
    assert Total(M10_3) == 13 && Named(M10_3);
    assert Total(M10_2) == 31 && Named(M10_2);
    assert Total(M10_1) == 42 && Named(M10_1);
  }

  lemma Once11(t: nat, c: nat, b: nat)
    requires t <= 4 && c < 3
    ensures Hits(M11, t, c, b) == if b < Width(MODE_11, t, c) then 1 else 0
  {
  }

  lemma Total11()
    ensures Total(M11) == 60 && Named(M11)
  {
  }

  lemma Part14_3(t: nat, c: nat, b: nat)
    ensures Hits(M14_3, t, c, b) == In(EP2, R, 4, 0, t, c, b) + In(EP3, B, 2, 2, t, c, b) +
      In(EP3, R, 4, 0, t, c, b) + In(EP3, B, 3, 3, t, c, b) + In(PARTITION, R, 4, 0, t, c, b)
  {
  }

  lemma Part14_2(t: nat, c: nat, b: nat)
    ensures Hits(M14_2, t, c, b) == In(EP3, B, 0, 0, t, c, b) + In(EP3, G, 3, 0, t, c, b) +
      In(EP1, B, 4, 0, t, c, b) + In(EP3, B, 1, 1, t, c, b) + In(EP2, B, 3, 0, t, c, b) + Hits(M14_3, t, c, b)
  {
  }

  lemma Part14_1(t: nat, c: nat, b: nat)
    ensures Hits(M14_1, t, c, b) == In(EP3, B, 4, 4, t, c, b) + In(EP1, R, 4, 0, t, c, b) +
      In(EP3, G, 4, 4, t, c, b) + In(EP2, G, 3, 0, t, c, b) + In(EP1, G, 4, 0, t, c, b) + Hits(M14_2, t, c, b)
  {
  }

  lemma Part14_0(t: nat, c: nat, b: nat)
    ensures Hits(M14, t, c, b) == In(EP0, R, 8, 0, t, c, b) + In(EP2, B, 4, 4, t, c, b) + In(EP0, G, 8, 0, t, c, b) +
      In(EP2, G, 4, 4, t, c, b) + In(EP0, B, 8, 0, t, c, b) + Hits(M14_1, t, c, b)
  {
  }

  lemma Once14(t: nat, c: nat, b: nat)
    requires t <= 4 && c < 3
    ensures Hits(M14, t, c, b) == if b < Width(MODE_14, t, c) then 1 else 0
  {
    hide Hits;
    Part14_3(t, c, b);
    Part14_2(t, c, b);
    Part14_1(t, c, b);
    Part14_0(t, c, b);
  }

  lemma Total14()
    ensures Total(M14) == 77 && Named(M14)
  {
    assert Total(M14_3) == 17 && Named(M14_3);
    assert Total(M14_2) == 32 && Named(M14_2);
    assert Total(M14_1) == 48 && Named(M14_1);
  }

  lemma Once15(t: nat, c: nat, b: nat)
    requires t <= 4 && c < 3
    ensures Hits(M15, t, c, b) == if b < Width(MODE_15, t, c) then 1 else 0
  {
  }

  lemma Total15()
    ensures Total(M15) == 60 && Named(M15)
  {
  }

  lemma Part18_3(t: nat, c: nat, b: nat)
    ensures Hits(M18_3, t, c, b) == In(EP3, B, 1, 1, t, c, b) + In(EP2, B, 3, 0, t, c, b) +
      In(EP2, R, 5, 0, t, c, b) + In(EP3, R, 5, 0, t, c, b) + In(PARTITION, R, 4, 0, t, c, b)
  {
  }

  lemma Part18_2(t: nat, c: nat, b: nat)
    ensures Hits(M18_2, t, c, b) == In(EP2, G, 3, 0, t, c, b) + In(EP1, G, 4, 0, t, c, b) +
      In(EP3, B, 0, 0, t, c, b) + In(EP3, G, 3, 0, t, c, b) + In(EP1, B, 4, 0, t, c, b) + Hits(M18_3, t, c, b)
  {
  }

  lemma Part18_1(t: nat, c: nat, b: nat)
    ensures Hits(M18_1, t, c, b) == In(EP2, G, 4, 4, t, c, b) + In(EP0, B, 7, 0, t, c, b) +
      In(EP3, B, 3, 3, t, c, b) + In(EP3, B, 4, 4, t, c, b) + In(EP1, R, 5, 0, t, c, b) + Hits(M18_2, t, c, b)
  {
  }

  lemma Part18_0(t: nat, c: nat, b: nat)
    ensures Hits(M18, t, c, b) == In(EP0, R, 7, 0, t, c, b) + In(EP3, G, 4, 4, t, c, b) + In(EP2, B, 4, 4, t, c, b) +
      In(EP0, G, 7, 0, t, c, b) + In(EP3, B, 2, 2, t, c, b) + Hits(M18_1, t, c, b)
  {
  }

  lemma Once18(t: nat, c: nat, b: nat)
    requires t <= 4 && c < 3
    ensures Hits(M18, t, c, b) == if b < Width(MODE_18, t, c) then 1 else 0
  {
    hide Hits;
    Part18_3(t, c, b);
    Part18_2(t, c, b);
    Part18_1(t, c, b);
    Part18_0(t, c, b);
  }

  lemma Total18()
    ensures Total(M18) == 77 && Named(M18)
  {
    Rest18();
    assert Total(M18_1) == 58 && Named(M18_1);
  }

  lemma Rest18()
    ensures Total(M18_2) == 41 && Named(M18_2)
  {
    assert Total(M18_3) == 22 && Named(M18_3);
  }

  lemma Part22_4(t: nat, c: nat, b: nat)
    ensures Hits(M22_4, t, c, b) == In(EP3, B, 3, 3, t, c, b) + In(PARTITION, R, 4, 0, t, c, b)
  {
  }

  lemma Part22_3(t: nat, c: nat, b: nat)
    ensures Hits(M22_3, t, c, b) == In(EP3, B, 1, 1, t, c, b) + In(EP2, B, 3, 0, t, c, b) +
      In(EP2, R, 4, 0, t, c, b) + In(EP3, B, 2, 2, t, c, b) + In(EP3, R, 4, 0, t, c, b) + Hits(M22_4, t, c, b)
  {
  }

  lemma Part22_2(t: nat, c: nat, b: nat)
    ensures Hits(M22_2, t, c, b) == In(EP3, G, 4, 4, t, c, b) + In(EP2, G, 3, 0, t, c, b) +
      In(EP1, G, 5, 0, t, c, b) + In(EP3, G, 3, 0, t, c, b) + In(EP1, B, 4, 0, t, c, b) + Hits(M22_3, t, c, b)
  {
  }

  lemma Part22_1(t: nat, c: nat, b: nat)
    ensures Hits(M22_1, t, c, b) == In(EP2, G, 4, 4, t, c, b) + In(EP0, B, 7, 0, t, c, b) +
      In(EP3, G, 5, 5, t, c, b) + In(EP3, B, 4, 4, t, c, b) + In(EP1, R, 4, 0, t, c, b) + Hits(M22_2, t, c, b)
  {
  }

  lemma Part22_0(t: nat, c: nat, b: nat)
    ensures Hits(M22, t, c, b) == In(EP0, R, 7, 0, t, c, b) + In(EP3, B, 0, 0, t, c, b) + In(EP2, B, 4, 4, t, c, b) +
      In(EP0, G, 7, 0, t, c, b) + In(EP2, G, 5, 5, t, c, b) + Hits(M22_1, t, c, b)
  {
  }

  lemma Once22(t: nat, c: nat, b: nat)
    requires t <= 4 && c < 3
    ensures Hits(M22, t, c, b) == if b < Width(MODE_22, t, c) then 1 else 0
  {
    hide Hits;
    Part22_4(t, c, b);
    Part22_3(t, c, b);
    Part22_2(t, c, b);
    Part22_1(t, c, b);
    Part22_0(t, c, b);
  }

  lemma Total22()
    ensures Total(M22) == 77 && Named(M22)
  {
    assert Total(M22_4) == 6 && Named(M22_4);
    assert Total(M22_3) == 22 && Named(M22_3);
    assert Total(M22_2) == 42 && Named(M22_2);
    assert Total(M22_1) == 58 && Named(M22_1);
  }

  lemma Part26_4(t: nat, c: nat, b: nat)
    ensures Hits(M26_4, t, c, b) == In(EP3, B, 3, 3, t, c, b) + In(PARTITION, R, 4, 0, t, c, b)
  {
  }

  lemma Part26_3(t: nat, c: nat, b: nat)
    ensures Hits(M26_3, t, c, b) == In(EP1, B, 5, 0, t, c, b) + In(EP2, B, 3, 0, t, c, b) +
      In(EP2, R, 4, 0, t, c, b) + In(EP3, B, 2, 2, t, c, b) + In(EP3, R, 4, 0, t, c, b) + Hits(M26_4, t, c, b)
  {
  }

  lemma Part26_2(t: nat, c: nat, b: nat)
    ensures Hits(M26_2, t, c, b) == In(EP3, G, 4, 4, t, c, b) + In(EP2, G, 3, 0, t, c, b) +
      In(EP1, G, 4, 0, t, c, b) + In(EP3, B, 0, 0, t, c, b) + In(EP3, G, 3, 0, t, c, b) + Hits(M26_3, t, c, b)
  {
  }

  lemma Part26_1(t: nat, c: nat, b: nat)
    ensures Hits(M26_1, t, c, b) == In(EP2, G, 4, 4, t, c, b) + In(EP0, B, 7, 0, t, c, b) +
      In(EP3, B, 5, 5, t, c, b) + In(EP3, B, 4, 4, t, c, b) + In(EP1, R, 4, 0, t, c, b) + Hits(M26_2, t, c, b)
  {
  }

  lemma Part26_0(t: nat, c: nat, b: nat)
    ensures Hits(M26, t, c, b) == In(EP0, R, 7, 0, t, c, b) + In(EP3, B, 1, 1, t, c, b) + In(EP2, B, 4, 4, t, c, b) +
      In(EP0, G, 7, 0, t, c, b) + In(EP2, B, 5, 5, t, c, b) + Hits(M26_1, t, c, b)
  {
  }

  lemma Once26(t: nat, c: nat, b: nat)
    requires t <= 4 && c < 3
    ensures Hits(M26, t, c, b) == if b < Width(MODE_26, t, c) then 1 else 0
  {
    hide Hits;
    Part26_4(t, c, b);
    Part26_3(t, c, b);
    Part26_2(t, c, b);
    Part26_1(t, c, b);
    Part26_0(t, c, b);
  }

  lemma Total26()
    ensures Total(M26) == 77 && Named(M26)
  {
    assert Total(M26_4) == 6 && Named(M26_4);
    assert Total(M26_3) == 27 && Named(M26_3);
    assert Total(M26_2) == 42 && Named(M26_2);
    assert Total(M26_1) == 58 && Named(M26_1);
  }

  lemma Part30_4(t: nat, c: nat, b: nat)
    ensures Hits(M30_4, t, c, b) == In(EP2, B, 3, 0, t, c, b) + In(EP2, R, 5, 0, t, c, b) +
      In(EP3, R, 5, 0, t, c, b) + In(PARTITION, R, 4, 0, t, c, b)
  {
  }

  lemma Part30_3(t: nat, c: nat, b: nat)
    ensures Hits(M30_3, t, c, b) == In(EP1, R, 5, 0, t, c, b) + In(EP2, G, 3, 0, t, c, b) +
      In(EP1, G, 5, 0, t, c, b) + In(EP3, G, 3, 0, t, c, b) + In(EP1, B, 5, 0, t, c, b) + Hits(M30_4, t, c, b)
  {
  }

  lemma Part30_2(t: nat, c: nat, b: nat)
    ensures Hits(M30_2, t, c, b) == In(EP0, B, 5, 0, t, c, b) + In(EP3, G, 5, 5, t, c, b) +
      In(EP3, B, 3, 3, t, c, b) + In(EP3, B, 5, 5, t, c, b) + In(EP3, B, 4, 4, t, c, b) + Hits(M30_3, t, c, b)
  {
  }

  lemma Part30_1(t: nat, c: nat, b: nat)
    ensures Hits(M30_1, t, c, b) == In(EP0, G, 5, 0, t, c, b) + In(EP2, G, 5, 5, t, c, b) +
      In(EP2, B, 5, 5, t, c, b) + In(EP3, B, 2, 2, t, c, b) + In(EP2, G, 4, 4, t, c, b) + Hits(M30_2, t, c, b)
  {
  }

  lemma Part30_0(t: nat, c: nat, b: nat)
    ensures Hits(M30, t, c, b) == In(EP0, R, 5, 0, t, c, b) + In(EP3, G, 4, 4, t, c, b) + In(EP3, B, 0, 0, t, c, b) +
      In(EP3, B, 1, 1, t, c, b) + In(EP2, B, 4, 4, t, c, b) + Hits(M30_1, t, c, b)
  {
  }

  lemma Once30(t: nat, c: nat, b: nat)
    requires t <= 4 && c < 3
    ensures Hits(M30, t, c, b) == if b < Width(MODE_30, t, c) then 1 else 0
  {
    hide Hits;
    Part30_4(t, c, b);
    Part30_3(t, c, b);
    Part30_2(t, c, b);
    Part30_1(t, c, b);
    Part30_0(t, c, b);
  }

  lemma Total30()
    ensures Total(M30) == 77 && Named(M30)
  {
    assert Total(M30_4) == 21 && Named(M30_4);
    assert Total(M30_3) == 47 && Named(M30_3);
    assert Total(M30_2) == 57 && Named(M30_2);
    assert Total(M30_1) == 67 && Named(M30_1);
  }

  // In every mode each bit of an endpoint, and of the partition number, is filled by exactly one field, and no other bit is.
  lemma Once(i: nat, t: nat, c: nat, b: nat)
    requires i < 14 && t <= 4 && c < 3
    ensures Sized(Modes(i)) && Hits(Modes(i).fields, t, c, b) == if b < Width(Modes(i), t, c) then 1 else 0
  {
    hide Hits, Width;
    match i
    case 0 => Once0(t, c, b);
    case 1 => Once1(t, c, b);
    case 2 => Once2(t, c, b);
    case 3 => Once3(t, c, b);
    case 4 => Once6(t, c, b);
    case 5 => Once7(t, c, b);
    case 6 => Once10(t, c, b);
    case 7 => Once11(t, c, b);
    case 8 => Once14(t, c, b);
    case 9 => Once15(t, c, b);
    case 10 => Once18(t, c, b);
    case 11 => Once22(t, c, b);
    case 12 => Once26(t, c, b);
    case _ => Once30(t, c, b);
  }

  // Mode and fields take 65 bits, or 82 when there is a partition number.
  lemma HeaderBits(i: nat)
    requires i < 14
    ensures ModeBits(Modes(i)) + Total(Modes(i).fields) == if Modes(i).partitions == 1 then 65 else 82
    ensures Named(Modes(i).fields)
  {
    hide Total;
    match i
    case 0 => Total0();
    case 1 => Total1();
    case 2 => Total2();
    case 3 => Total3();
    case 4 => Total6();
    case 5 => Total7();
    case 6 => Total10();
    case 7 => Total11();
    case 8 => Total14();
    case 9 => Total15();
    case 10 => Total18();
    case 11 => Total22();
    case 12 => Total26();
    case _ => Total30();
  }

  // ----- where a bit comes from

  function Where(f: Fields, p: nat, t: nat, c: nat, b: nat): (q: nat)
    requires Hits(f, t, c, b) > 0
    ensures p <= q < p + Total(f)
    decreases f
  {
    if Fills(f, t, c, b) then p + (if f.msb < f.lsb then f.lsb - b else b - f.lsb)
    else Where(f.rest, p + Size(f), t, c, b)
  }

  // No bit of the block serves twice.
  lemma {:induction false} Apart(f: Fields, p: nat, t: nat, c: nat, b: nat, t': nat, c': nat, b': nat)
    requires Hits(f, t, c, b) > 0 && Hits(f, t', c', b') > 0
    requires Where(f, p, t, c, b) == Where(f, p, t', c', b')
    ensures t == t' && c == c' && b == b'
    decreases f
  {
    var one, other := Fills(f, t, c, b), Fills(f, t', c', b');
    if !one && !other { Apart(f.rest, p + Size(f), t, c, b, t', c', b'); }
  }

  // Some field fills the bit with a set bit of the block.
  ghost predicate Set(s: seq<bool>, f: Fields, p: nat, t: nat, c: nat, b: nat)
    decreases f
  {
    f.Field? && ((Fills(f, t, c, b) && At(s, p + (if f.msb < f.lsb then f.lsb - b else b - f.lsb))) ||
      Set(s, f.rest, p + Size(f), t, c, b))
  }

  lemma {:induction false} SetOnce(s: seq<bool>, f: Fields, p: nat, t: nat, c: nat, b: nat)
    requires Hits(f, t, c, b) <= 1
    ensures Set(s, f, p, t, c, b) <==> Hits(f, t, c, b) == 1 && At(s, Where(f, p, t, c, b))
    decreases f
  {
    if f.Field? {
      SetOnce(s, f.rest, p + Size(f), t, c, b);
      if Fills(f, t, c, b) { assert Hits(f.rest, t, c, b) == 0; }
    }
  }

  // Bit `b` of what the field reads.
  lemma FieldBit(s: seq<bool>, p: nat, f: Fields, b: nat)
    requires f.Field?
    ensures Bit(FieldBits(s, p, f.msb, f.lsb), b) <==>
      Fills(f, f.target, f.channel, b) && At(s, p + (if f.msb < f.lsb then f.lsb - b else b - f.lsb))
  {
    hide Bit, Window, Nat, Shl, Rev;
    var lo, n := if f.msb < f.lsb then f.msb else f.lsb, Size(f);
    var w := Window(s, p, n);
    BitOfShl(if f.msb < f.lsb then Nat(Rev(w)) else Nat(w), lo, b);
    if b >= lo {
      WindowBit(s, p, n, b - lo);
    }
  }

  lemma WindowBit(s: seq<bool>, p: nat, n: nat, k: nat)
    ensures Bit(Nat(Window(s, p, n)), k) <==> k < n && At(s, p + k)
    ensures Bit(Nat(Rev(Window(s, p, n))), k) <==> k < n && At(s, p + (n - 1 - k))
  {
    hide Bit, Nat;
    BitOfNat(Window(s, p, n), k);
    BitOfNat(Rev(Window(s, p, n)), k);
  }

  // The number a channel of an endpoint has in the block, or the partition number.
  ghost function Stored(s: seq<bool>, i: nat, t: nat, c: nat): (v: nat)
    requires i < 14 && t <= 4 && c < 3
  {
    Nat(StoredBits(s, i, t, c))
  }

  ghost function StoredBits(s: seq<bool>, i: nat, t: nat, c: nat): (w: seq<bool>)
    requires i < 14 && t <= 4 && c < 3
    ensures Sized(Modes(i)) && |w| == Width(Modes(i), t, c)
  {
    var m := Modes(i);
    Once(i, t, c, 0);
    seq(Width(m, t, c), b requires 0 <= b < Width(m, t, c) =>
      Once(i, t, c, b); At(s, Where(m.fields, ModeBits(m), t, c, b)))
  }

  lemma StoredIs(s: seq<bool>, i: nat, t: nat, c: nat, v: nat)
    requires i < 14 && t <= 4 && c < 3
    requires forall b: nat :: Bit(v, b) <==> Set(s, Modes(i).fields, ModeBits(Modes(i)), t, c, b)
    ensures v == Stored(s, i, t, c)
  {
    hide Bit, Set, Hits, Where, Modes, Width, ModeBits;
    var m, w := Modes(i), StoredBits(s, i, t, c);
    forall b: nat
      ensures Bit(v, b) <==> b < |w| && w[b]
    {
      Once(i, t, c, b);
      SetOnce(s, m.fields, ModeBits(m), t, c, b);
    }
    SameBits(v, w);
  }
}
