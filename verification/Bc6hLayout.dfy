// The published layout of BC6H blocks as one rule for all modes (Khronos Data Format Specification, BC6H): the low bits of
// every endpoint stand at the same places in each mode, and a table has the few bits that do not.

module Bc6hLayout {
  import opened BitStream
  import opened Bc6hData
  import opened Bc6hModes
  import opened Wrappers

  // Where bits 4 and 5 of the third endpoint's green and blue and of the fourth one's green stand, and bits 0 to 5 of the
  // fourth one's blue; 0 where the mode has no such bit.
  function Scattered(i: nat): (row: seq<nat>)
    ensures |row| == 12
  {
    match i
    case 0 => [2, 0, 3, 0, 40, 0, 50, 60, 70, 76, 4, 0]
    case 1 => [24, 2, 14, 22, 3, 4, 12, 13, 23, 32, 34, 33]
    case 2 => [0, 0, 0, 0, 0, 0, 50, 60, 70, 76, 0, 0]
    case 3 => [0, 0, 0, 0, 0, 0, 0, 0, 0, 0, 0, 0]
    case 4 => [75, 0, 0, 0, 40, 0, 69, 60, 70, 76, 0, 0]
    case 5 => [0, 0, 0, 0, 0, 0, 0, 0, 0, 0, 0, 0]
    case 6 => [0, 0, 40, 0, 0, 0, 50, 69, 70, 76, 75, 0]
    case 7 => [0, 0, 0, 0, 0, 0, 0, 0, 0, 0, 0, 0]
    case 8 => [24, 0, 14, 0, 40, 0, 50, 60, 70, 76, 34, 0]
    case 9 => [0, 0, 0, 0, 0, 0, 0, 0, 0, 0, 0, 0]
    case 10 => [24, 0, 14, 0, 13, 0, 50, 60, 23, 33, 34, 0]
    case 11 => [24, 23, 14, 0, 40, 33, 13, 60, 70, 76, 34, 0]
    case 12 => [24, 0, 14, 23, 40, 0, 50, 13, 70, 76, 34, 33]
    case _ => [24, 21, 14, 22, 11, 31, 12, 13, 23, 32, 34, 33]
  }

  // Columns of that table.
  function Column(t: nat, c: nat, b: nat): int { if t == EP2 && c == B then b - 2 else if c == G then (if t == EP2 then b - 4 else b) else 6 + b }

  // Bit `b` of channel `c` of endpoint `t`, in blocks of `n` partitions with differences of `delta` bits.
  function PlaceIn(row: seq<nat>, n: nat, delta: seq<nat>, t: nat, c: nat, b: nat): int
    requires |row| == 12 && |delta| == 3
  {
    if t == EP0 then
      if b < 10 then 5 + 10 * c + b
      else if n == 1 then 44 + 10 * c - (b - 10)
      else 35 + 10 * c + (if c < 3 then delta[c] else 0)
    else if t == EP1 then 35 + 10 * c + b
    else if t == PARTITION then 77 + b
    else if c == R then (if t == EP2 then 65 else 71) + b
    else if t == EP2 && b < 4 then (if c == G then 41 else 61) + b
    else if t == EP3 && c == G && b < 4 then 51 + b
    else if 0 <= Column(t, c, b) < 12 then row[Column(t, c, b)]
    else 0
  }

  function Place(i: nat, t: nat, c: nat, b: nat): int
    requires i < 14 && |Modes(i).deltaBits| == 3
  {
    PlaceIn(Scattered(i), Modes(i).partitions, Modes(i).deltaBits, t, c, b)
  }

  // Every field from `p` on stands where the rule has its bits.
  ghost predicate Laid(f: Fields, p: nat, row: seq<nat>, n: nat, delta: seq<nat>)
    requires |row| == 12 && |delta| == 3
    decreases f
  {
    f.End? || (LaidField(f.target, f.channel, f.msb, f.lsb, p, row, n, delta) && Laid(f.rest, p + Size(f), row, n, delta))
  }

  // Both ends of a field are where the rule has them, and so is what is between them.
  predicate LaidField(target: nat, channel: nat, msb: nat, lsb: nat, p: nat, row: seq<nat>, n: nat, delta: seq<nat>)
    requires |row| == 12 && |delta| == 3
  {
    var lo, hi := if msb < lsb then msb else lsb, if msb < lsb then lsb else msb;
    PlaceIn(row, n, delta, target, channel, lo) == p + (if msb < lsb then hi - lo else 0) &&
    PlaceIn(row, n, delta, target, channel, hi) == p + (if msb < lsb then 0 else hi - lo) &&
    (hi <= lo + 1 || Straight(target, channel, lo, hi))
  }

  // The rule has no break between bits `lo` and `hi`.
  predicate Straight(t: nat, c: nat, lo: nat, hi: nat) {
    if t == EP0 then hi < 10 || lo >= 10
    else t == EP1 || t == PARTITION || c == R || (hi < 4 && !(t == EP3 && c == B))
  }

  lemma FieldPlace(t: nat, c: nat, msb: nat, lsb: nat, p: nat, row: seq<nat>, n: nat, delta: seq<nat>, b: nat)
    requires |row| == 12 && |delta| == 3 && LaidField(t, c, msb, lsb, p, row, n, delta) && t <= 4 && c < 3
    requires lsb <= b <= msb || msb <= b <= lsb
    ensures PlaceIn(row, n, delta, t, c, b) == p + (if msb < lsb then lsb - b else b - lsb)
  {
    var lo, hi := if msb < lsb then msb else lsb, if msb < lsb then lsb else msb;
    if lo < b < hi {
      assert Straight(t, c, lo, hi);
    }
  }

  lemma LaidStep(target: nat, channel: nat, msb: nat, lsb: nat, rest: Fields, p: nat, row: seq<nat>, n: nat, delta: seq<nat>)
    requires |row| == 12 && |delta| == 3 && LaidField(target, channel, msb, lsb, p, row, n, delta)
    requires Laid(rest, p + Abs(msb - lsb) + 1, row, n, delta)
    ensures Laid(Field(target, channel, msb, lsb, rest), p, row, n, delta)
  {
    hide LaidField;
  }

  lemma LaidEnd(p: nat, row: seq<nat>, n: nat, delta: seq<nat>)
    requires |row| == 12 && |delta| == 3
    ensures Laid(End, p, row, n, delta)
  {
  }

  lemma {:induction false} LaidWhere(f: Fields, p: nat, row: seq<nat>, n: nat, delta: seq<nat>, t: nat, c: nat, b: nat)
    requires |row| == 12 && |delta| == 3 && Laid(f, p, row, n, delta) && Hits(f, t, c, b) > 0 && t <= 4 && c < 3
    ensures Where(f, p, t, c, b) == PlaceIn(row, n, delta, t, c, b)
    decreases f
  {
    hide PlaceIn, LaidField;
    if Fills(f, t, c, b) {
      FieldPlace(t, c, f.msb, f.lsb, p, row, n, delta, b);
    } else {
      LaidWhere(f.rest, p + Size(f), row, n, delta, t, c, b);
    }
  }

  lemma Laid0_3()
    ensures Laid(M0_3, 65, [2, 0, 3, 0, 40, 0, 50, 60, 70, 76, 4, 0], 2, [5, 5, 5])
  {
    hide Laid;
    var row, delta := [2, 0, 3, 0, 40, 0, 50, 60, 70, 76, 4, 0], [5, 5, 5];
    LaidEnd(82, row, 2, delta);
    LaidStep(PARTITION, R, 4, 0, M0_3.rest.rest.rest.rest.rest, 77, row, 2, delta);
    LaidStep(EP3, B, 3, 3, M0_3.rest.rest.rest.rest, 76, row, 2, delta);
    LaidStep(EP3, R, 4, 0, M0_3.rest.rest.rest, 71, row, 2, delta);
    LaidStep(EP3, B, 2, 2, M0_3.rest.rest, 70, row, 2, delta);
    LaidStep(EP2, R, 4, 0, M0_3.rest, 65, row, 2, delta);
  }

  lemma Laid0_2()
    ensures Laid(M0_2, 50, [2, 0, 3, 0, 40, 0, 50, 60, 70, 76, 4, 0], 2, [5, 5, 5])
  {
    hide Laid;
    var row, delta := [2, 0, 3, 0, 40, 0, 50, 60, 70, 76, 4, 0], [5, 5, 5];
    Laid0_3();
    LaidStep(EP2, B, 3, 0, M0_2.rest.rest.rest.rest.rest, 61, row, 2, delta);
    LaidStep(EP3, B, 1, 1, M0_2.rest.rest.rest.rest, 60, row, 2, delta);
    LaidStep(EP1, B, 4, 0, M0_2.rest.rest.rest, 55, row, 2, delta);
    LaidStep(EP3, G, 3, 0, M0_2.rest.rest, 51, row, 2, delta);
    LaidStep(EP3, B, 0, 0, M0_2.rest, 50, row, 2, delta);
  }

  lemma Laid0_1()
    ensures Laid(M0_1, 25, [2, 0, 3, 0, 40, 0, 50, 60, 70, 76, 4, 0], 2, [5, 5, 5])
  {
    hide Laid;
    var row, delta := [2, 0, 3, 0, 40, 0, 50, 60, 70, 76, 4, 0], [5, 5, 5];
    Laid0_2();
    LaidStep(EP1, G, 4, 0, M0_1.rest.rest.rest.rest.rest, 45, row, 2, delta);
    LaidStep(EP2, G, 3, 0, M0_1.rest.rest.rest.rest, 41, row, 2, delta);
    LaidStep(EP3, G, 4, 4, M0_1.rest.rest.rest, 40, row, 2, delta);
    LaidStep(EP1, R, 4, 0, M0_1.rest.rest, 35, row, 2, delta);
    LaidStep(EP0, B, 9, 0, M0_1.rest, 25, row, 2, delta);
  }

  lemma Laid0()
    ensures Laid(M0, 2, [2, 0, 3, 0, 40, 0, 50, 60, 70, 76, 4, 0], 2, [5, 5, 5])
  {
    hide Laid;
    var row, delta := [2, 0, 3, 0, 40, 0, 50, 60, 70, 76, 4, 0], [5, 5, 5];
    Laid0_1();
    LaidStep(EP0, G, 9, 0, M0.rest.rest.rest.rest.rest, 15, row, 2, delta);
    LaidStep(EP0, R, 9, 0, M0.rest.rest.rest.rest, 5, row, 2, delta);
    LaidStep(EP3, B, 4, 4, M0.rest.rest.rest, 4, row, 2, delta);
    LaidStep(EP2, B, 4, 4, M0.rest.rest, 3, row, 2, delta);
    LaidStep(EP2, G, 4, 4, M0.rest, 2, row, 2, delta);
  }

  lemma Laid1_4()
    ensures Laid(M1_4, 71, [24, 2, 14, 22, 3, 4, 12, 13, 23, 32, 34, 33], 2, [6, 6, 6])
  {
    hide Laid;
    var row, delta := [24, 2, 14, 22, 3, 4, 12, 13, 23, 32, 34, 33], [6, 6, 6];
    LaidEnd(82, row, 2, delta);
    LaidStep(PARTITION, R, 4, 0, M1_4.rest.rest, 77, row, 2, delta);
    LaidStep(EP3, R, 5, 0, M1_4.rest, 71, row, 2, delta);
  }

  lemma Laid1_3()
    ensures Laid(M1_3, 45, [24, 2, 14, 22, 3, 4, 12, 13, 23, 32, 34, 33], 2, [6, 6, 6])
  {
    hide Laid;
    var row, delta := [24, 2, 14, 22, 3, 4, 12, 13, 23, 32, 34, 33], [6, 6, 6];
    Laid1_4();
    LaidStep(EP2, R, 5, 0, M1_3.rest.rest.rest.rest.rest, 65, row, 2, delta);
    LaidStep(EP2, B, 3, 0, M1_3.rest.rest.rest.rest, 61, row, 2, delta);
    LaidStep(EP1, B, 5, 0, M1_3.rest.rest.rest, 55, row, 2, delta);
    LaidStep(EP3, G, 3, 0, M1_3.rest.rest, 51, row, 2, delta);
    LaidStep(EP1, G, 5, 0, M1_3.rest, 45, row, 2, delta);
  }

  lemma Laid1_2()
    ensures Laid(M1_2, 32, [24, 2, 14, 22, 3, 4, 12, 13, 23, 32, 34, 33], 2, [6, 6, 6])
  {
    hide Laid;
    var row, delta := [24, 2, 14, 22, 3, 4, 12, 13, 23, 32, 34, 33], [6, 6, 6];
    Laid1_3();
    LaidStep(EP2, G, 3, 0, M1_2.rest.rest.rest.rest.rest, 41, row, 2, delta);
    LaidStep(EP1, R, 5, 0, M1_2.rest.rest.rest.rest, 35, row, 2, delta);
    LaidStep(EP3, B, 4, 4, M1_2.rest.rest.rest, 34, row, 2, delta);
    LaidStep(EP3, B, 5, 5, M1_2.rest.rest, 33, row, 2, delta);
    LaidStep(EP3, B, 3, 3, M1_2.rest, 32, row, 2, delta);
  }

  lemma Laid1_1()
    ensures Laid(M1_1, 15, [24, 2, 14, 22, 3, 4, 12, 13, 23, 32, 34, 33], 2, [6, 6, 6])
  {
    hide Laid;
    var row, delta := [24, 2, 14, 22, 3, 4, 12, 13, 23, 32, 34, 33], [6, 6, 6];
    Laid1_2();
    LaidStep(EP0, B, 6, 0, M1_1.rest.rest.rest.rest.rest, 25, row, 2, delta);
    LaidStep(EP2, G, 4, 4, M1_1.rest.rest.rest.rest, 24, row, 2, delta);
    LaidStep(EP3, B, 2, 2, M1_1.rest.rest.rest, 23, row, 2, delta);
    LaidStep(EP2, B, 5, 5, M1_1.rest.rest, 22, row, 2, delta);
    LaidStep(EP0, G, 6, 0, M1_1.rest, 15, row, 2, delta);
  }

  lemma Laid1()
    ensures Laid(M1, 2, [24, 2, 14, 22, 3, 4, 12, 13, 23, 32, 34, 33], 2, [6, 6, 6])
  {
    hide Laid;
    var row, delta := [24, 2, 14, 22, 3, 4, 12, 13, 23, 32, 34, 33], [6, 6, 6];
    Laid1_1();
    LaidStep(EP2, B, 4, 4, M1.rest.rest.rest.rest.rest, 14, row, 2, delta);
    LaidStep(EP3, B, 1, 0, M1.rest.rest.rest.rest, 12, row, 2, delta);
    LaidStep(EP0, R, 6, 0, M1.rest.rest.rest, 5, row, 2, delta);
    LaidStep(EP3, G, 5, 4, M1.rest.rest, 3, row, 2, delta);
    LaidStep(EP2, G, 5, 5, M1.rest, 2, row, 2, delta);
  }

  lemma Laid2_3()
    ensures Laid(M2_3, 70, [0, 0, 0, 0, 0, 0, 50, 60, 70, 76, 0, 0], 2, [5, 4, 4])
  {
    hide Laid;
    var row, delta := [0, 0, 0, 0, 0, 0, 50, 60, 70, 76, 0, 0], [5, 4, 4];
    LaidEnd(82, row, 2, delta);
    LaidStep(PARTITION, R, 4, 0, M2_3.rest.rest.rest.rest, 77, row, 2, delta);
    LaidStep(EP3, B, 3, 3, M2_3.rest.rest.rest, 76, row, 2, delta);
    LaidStep(EP3, R, 4, 0, M2_3.rest.rest, 71, row, 2, delta);
    LaidStep(EP3, B, 2, 2, M2_3.rest, 70, row, 2, delta);
  }

  lemma Laid2_2()
    ensures Laid(M2_2, 55, [0, 0, 0, 0, 0, 0, 50, 60, 70, 76, 0, 0], 2, [5, 4, 4])
  {
    hide Laid;
    var row, delta := [0, 0, 0, 0, 0, 0, 50, 60, 70, 76, 0, 0], [5, 4, 4];
    Laid2_3();
    LaidStep(EP2, R, 4, 0, M2_2.rest.rest.rest.rest.rest, 65, row, 2, delta);
    LaidStep(EP2, B, 3, 0, M2_2.rest.rest.rest.rest, 61, row, 2, delta);
    LaidStep(EP3, B, 1, 1, M2_2.rest.rest.rest, 60, row, 2, delta);
    LaidStep(EP0, B, 10, 10, M2_2.rest.rest, 59, row, 2, delta);
    LaidStep(EP1, B, 3, 0, M2_2.rest, 55, row, 2, delta);
  }

  lemma Laid2_1()
    ensures Laid(M2_1, 41, [0, 0, 0, 0, 0, 0, 50, 60, 70, 76, 0, 0], 2, [5, 4, 4])
  {
    hide Laid;
    var row, delta := [0, 0, 0, 0, 0, 0, 50, 60, 70, 76, 0, 0], [5, 4, 4];
    Laid2_2();
    LaidStep(EP3, G, 3, 0, M2_1.rest.rest.rest.rest.rest, 51, row, 2, delta);
    LaidStep(EP3, B, 0, 0, M2_1.rest.rest.rest.rest, 50, row, 2, delta);
    LaidStep(EP0, G, 10, 10, M2_1.rest.rest.rest, 49, row, 2, delta);
    LaidStep(EP1, G, 3, 0, M2_1.rest.rest, 45, row, 2, delta);
    LaidStep(EP2, G, 3, 0, M2_1.rest, 41, row, 2, delta);
  }

  lemma Laid2()
    ensures Laid(M2, 5, [0, 0, 0, 0, 0, 0, 50, 60, 70, 76, 0, 0], 2, [5, 4, 4])
  {
    hide Laid;
    var row, delta := [0, 0, 0, 0, 0, 0, 50, 60, 70, 76, 0, 0], [5, 4, 4];
    Laid2_1();
    LaidStep(EP0, R, 10, 10, M2.rest.rest.rest.rest.rest, 40, row, 2, delta);
    LaidStep(EP1, R, 4, 0, M2.rest.rest.rest.rest, 35, row, 2, delta);
    LaidStep(EP0, B, 9, 0, M2.rest.rest.rest, 25, row, 2, delta);
    LaidStep(EP0, G, 9, 0, M2.rest.rest, 15, row, 2, delta);
    LaidStep(EP0, R, 9, 0, M2.rest, 5, row, 2, delta);
  }

  lemma Laid3()
    ensures Laid(M3, 5, [0, 0, 0, 0, 0, 0, 0, 0, 0, 0, 0, 0], 1, [0, 0, 0])
  {
    hide Laid;
    var row, delta := [0, 0, 0, 0, 0, 0, 0, 0, 0, 0, 0, 0], [0, 0, 0];
    LaidEnd(65, row, 1, delta);
    LaidStep(EP1, B, 9, 0, M3.rest.rest.rest.rest.rest.rest, 55, row, 1, delta);
    LaidStep(EP1, G, 9, 0, M3.rest.rest.rest.rest.rest, 45, row, 1, delta);
    LaidStep(EP1, R, 9, 0, M3.rest.rest.rest.rest, 35, row, 1, delta);
    LaidStep(EP0, B, 9, 0, M3.rest.rest.rest, 25, row, 1, delta);
    LaidStep(EP0, G, 9, 0, M3.rest.rest, 15, row, 1, delta);
    LaidStep(EP0, R, 9, 0, M3.rest, 5, row, 1, delta);
  }

  lemma Laid6_4()
    ensures Laid(M6_4, 77, [75, 0, 0, 0, 40, 0, 69, 60, 70, 76, 0, 0], 2, [4, 5, 4])
  {
    hide Laid;
    var row, delta := [75, 0, 0, 0, 40, 0, 69, 60, 70, 76, 0, 0], [4, 5, 4];
    LaidEnd(82, row, 2, delta);
    LaidStep(PARTITION, R, 4, 0, M6_4.rest, 77, row, 2, delta);
  }

  lemma Laid6_3()
    ensures Laid(M6_3, 69, [75, 0, 0, 0, 40, 0, 69, 60, 70, 76, 0, 0], 2, [4, 5, 4])
  {
    hide Laid;
    var row, delta := [75, 0, 0, 0, 40, 0, 69, 60, 70, 76, 0, 0], [4, 5, 4];
    Laid6_4();
    LaidStep(EP3, B, 3, 3, M6_3.rest.rest.rest.rest.rest, 76, row, 2, delta);
    LaidStep(EP2, G, 4, 4, M6_3.rest.rest.rest.rest, 75, row, 2, delta);
    LaidStep(EP3, R, 3, 0, M6_3.rest.rest.rest, 71, row, 2, delta);
    LaidStep(EP3, B, 2, 2, M6_3.rest.rest, 70, row, 2, delta);
    LaidStep(EP3, B, 0, 0, M6_3.rest, 69, row, 2, delta);
  }

  lemma Laid6_2()
    ensures Laid(M6_2, 55, [75, 0, 0, 0, 40, 0, 69, 60, 70, 76, 0, 0], 2, [4, 5, 4])
  {
    hide Laid;
    var row, delta := [75, 0, 0, 0, 40, 0, 69, 60, 70, 76, 0, 0], [4, 5, 4];
    Laid6_3();
    LaidStep(EP2, R, 3, 0, M6_2.rest.rest.rest.rest.rest, 65, row, 2, delta);
    LaidStep(EP2, B, 3, 0, M6_2.rest.rest.rest.rest, 61, row, 2, delta);
    LaidStep(EP3, B, 1, 1, M6_2.rest.rest.rest, 60, row, 2, delta);
    LaidStep(EP0, B, 10, 10, M6_2.rest.rest, 59, row, 2, delta);
    LaidStep(EP1, B, 3, 0, M6_2.rest, 55, row, 2, delta);
  }

  lemma Laid6_1()
    ensures Laid(M6_1, 40, [75, 0, 0, 0, 40, 0, 69, 60, 70, 76, 0, 0], 2, [4, 5, 4])
  {
    hide Laid;
    var row, delta := [75, 0, 0, 0, 40, 0, 69, 60, 70, 76, 0, 0], [4, 5, 4];
    Laid6_2();
    LaidStep(EP3, G, 3, 0, M6_1.rest.rest.rest.rest.rest, 51, row, 2, delta);
    LaidStep(EP0, G, 10, 10, M6_1.rest.rest.rest.rest, 50, row, 2, delta);
    LaidStep(EP1, G, 4, 0, M6_1.rest.rest.rest, 45, row, 2, delta);
    LaidStep(EP2, G, 3, 0, M6_1.rest.rest, 41, row, 2, delta);
    LaidStep(EP3, G, 4, 4, M6_1.rest, 40, row, 2, delta);
  }

  lemma Laid6()
    ensures Laid(M6, 5, [75, 0, 0, 0, 40, 0, 69, 60, 70, 76, 0, 0], 2, [4, 5, 4])
  {
    hide Laid;
    var row, delta := [75, 0, 0, 0, 40, 0, 69, 60, 70, 76, 0, 0], [4, 5, 4];
    Laid6_1();
    LaidStep(EP0, R, 10, 10, M6.rest.rest.rest.rest.rest, 39, row, 2, delta);
    LaidStep(EP1, R, 3, 0, M6.rest.rest.rest.rest, 35, row, 2, delta);
    LaidStep(EP0, B, 9, 0, M6.rest.rest.rest, 25, row, 2, delta);
    LaidStep(EP0, G, 9, 0, M6.rest.rest, 15, row, 2, delta);
    LaidStep(EP0, R, 9, 0, M6.rest, 5, row, 2, delta);
  }

  lemma Laid7()
    ensures Laid(M7, 5, [0, 0, 0, 0, 0, 0, 0, 0, 0, 0, 0, 0], 1, [9, 9, 9])
  {
    hide Laid;
    var row, delta := [0, 0, 0, 0, 0, 0, 0, 0, 0, 0, 0, 0], [9, 9, 9];
    LaidEnd(65, row, 1, delta);
    LaidStep(EP0, B, 10, 10, M7.rest.rest.rest.rest.rest.rest.rest.rest.rest, 64, row, 1, delta);
    LaidStep(EP1, B, 8, 0, M7.rest.rest.rest.rest.rest.rest.rest.rest, 55, row, 1, delta);
    LaidStep(EP0, G, 10, 10, M7.rest.rest.rest.rest.rest.rest.rest, 54, row, 1, delta);
    LaidStep(EP1, G, 8, 0, M7.rest.rest.rest.rest.rest.rest, 45, row, 1, delta);
    LaidStep(EP0, R, 10, 10, M7.rest.rest.rest.rest.rest, 44, row, 1, delta);
    LaidStep(EP1, R, 8, 0, M7.rest.rest.rest.rest, 35, row, 1, delta);
    LaidStep(EP0, B, 9, 0, M7.rest.rest.rest, 25, row, 1, delta);
    LaidStep(EP0, G, 9, 0, M7.rest.rest, 15, row, 1, delta);
    LaidStep(EP0, R, 9, 0, M7.rest, 5, row, 1, delta);
  }

  lemma Laid10_4()
    ensures Laid(M10_4, 77, [0, 0, 40, 0, 0, 0, 50, 69, 70, 76, 75, 0], 2, [4, 4, 5])
  {
    hide Laid;
    var row, delta := [0, 0, 40, 0, 0, 0, 50, 69, 70, 76, 75, 0], [4, 4, 5];
    LaidEnd(82, row, 2, delta);
    LaidStep(PARTITION, R, 4, 0, M10_4.rest, 77, row, 2, delta);
  }

  lemma Laid10_3()
    ensures Laid(M10_3, 69, [0, 0, 40, 0, 0, 0, 50, 69, 70, 76, 75, 0], 2, [4, 4, 5])
  {
    hide Laid;
    var row, delta := [0, 0, 40, 0, 0, 0, 50, 69, 70, 76, 75, 0], [4, 4, 5];
    Laid10_4();
    LaidStep(EP3, B, 3, 3, M10_3.rest.rest.rest.rest.rest, 76, row, 2, delta);
    LaidStep(EP3, B, 4, 4, M10_3.rest.rest.rest.rest, 75, row, 2, delta);
    LaidStep(EP3, R, 3, 0, M10_3.rest.rest.rest, 71, row, 2, delta);
    LaidStep(EP3, B, 2, 2, M10_3.rest.rest, 70, row, 2, delta);
    LaidStep(EP3, B, 1, 1, M10_3.rest, 69, row, 2, delta);
  }

  lemma Laid10_2()
    ensures Laid(M10_2, 51, [0, 0, 40, 0, 0, 0, 50, 69, 70, 76, 75, 0], 2, [4, 4, 5])
  {
    hide Laid;
    var row, delta := [0, 0, 40, 0, 0, 0, 50, 69, 70, 76, 75, 0], [4, 4, 5];
    Laid10_3();
    LaidStep(EP2, R, 3, 0, M10_2.rest.rest.rest.rest.rest, 65, row, 2, delta);
    LaidStep(EP2, B, 3, 0, M10_2.rest.rest.rest.rest, 61, row, 2, delta);
    LaidStep(EP0, B, 10, 10, M10_2.rest.rest.rest, 60, row, 2, delta);
    LaidStep(EP1, B, 4, 0, M10_2.rest.rest, 55, row, 2, delta);
    LaidStep(EP3, G, 3, 0, M10_2.rest, 51, row, 2, delta);
  }

  lemma Laid10_1()
    ensures Laid(M10_1, 40, [0, 0, 40, 0, 0, 0, 50, 69, 70, 76, 75, 0], 2, [4, 4, 5])
  {
    hide Laid;
    var row, delta := [0, 0, 40, 0, 0, 0, 50, 69, 70, 76, 75, 0], [4, 4, 5];
    Laid10_2();
    LaidStep(EP3, B, 0, 0, M10_1.rest.rest.rest.rest.rest, 50, row, 2, delta);
    LaidStep(EP0, G, 10, 10, M10_1.rest.rest.rest.rest, 49, row, 2, delta);
    LaidStep(EP1, G, 3, 0, M10_1.rest.rest.rest, 45, row, 2, delta);
    LaidStep(EP2, G, 3, 0, M10_1.rest.rest, 41, row, 2, delta);
    LaidStep(EP2, B, 4, 4, M10_1.rest, 40, row, 2, delta);
  }

  lemma Laid10()
    ensures Laid(M10, 5, [0, 0, 40, 0, 0, 0, 50, 69, 70, 76, 75, 0], 2, [4, 4, 5])
  {
    hide Laid;
    var row, delta := [0, 0, 40, 0, 0, 0, 50, 69, 70, 76, 75, 0], [4, 4, 5];
    Laid10_1();
    LaidStep(EP0, R, 10, 10, M10.rest.rest.rest.rest.rest, 39, row, 2, delta);
    LaidStep(EP1, R, 3, 0, M10.rest.rest.rest.rest, 35, row, 2, delta);
    LaidStep(EP0, B, 9, 0, M10.rest.rest.rest, 25, row, 2, delta);
    LaidStep(EP0, G, 9, 0, M10.rest.rest, 15, row, 2, delta);
    LaidStep(EP0, R, 9, 0, M10.rest, 5, row, 2, delta);
  }

  lemma Laid11()
    ensures Laid(M11, 5, [0, 0, 0, 0, 0, 0, 0, 0, 0, 0, 0, 0], 1, [8, 8, 8])
  {
    hide Laid;
    var row, delta := [0, 0, 0, 0, 0, 0, 0, 0, 0, 0, 0, 0], [8, 8, 8];
    LaidEnd(65, row, 1, delta);
    LaidStep(EP0, B, 10, 11, M11.rest.rest.rest.rest.rest.rest.rest.rest.rest, 63, row, 1, delta);
    LaidStep(EP1, B, 7, 0, M11.rest.rest.rest.rest.rest.rest.rest.rest, 55, row, 1, delta);
    LaidStep(EP0, G, 10, 11, M11.rest.rest.rest.rest.rest.rest.rest, 53, row, 1, delta);
    LaidStep(EP1, G, 7, 0, M11.rest.rest.rest.rest.rest.rest, 45, row, 1, delta);
    LaidStep(EP0, R, 10, 11, M11.rest.rest.rest.rest.rest, 43, row, 1, delta);
    LaidStep(EP1, R, 7, 0, M11.rest.rest.rest.rest, 35, row, 1, delta);
    LaidStep(EP0, B, 9, 0, M11.rest.rest.rest, 25, row, 1, delta);
    LaidStep(EP0, G, 9, 0, M11.rest.rest, 15, row, 1, delta);
    LaidStep(EP0, R, 9, 0, M11.rest, 5, row, 1, delta);
  }

  lemma Laid14_3()
    ensures Laid(M14_3, 65, [24, 0, 14, 0, 40, 0, 50, 60, 70, 76, 34, 0], 2, [5, 5, 5])
  {
    hide Laid;
    var row, delta := [24, 0, 14, 0, 40, 0, 50, 60, 70, 76, 34, 0], [5, 5, 5];
    LaidEnd(82, row, 2, delta);
    LaidStep(PARTITION, R, 4, 0, M14_3.rest.rest.rest.rest.rest, 77, row, 2, delta);
    LaidStep(EP3, B, 3, 3, M14_3.rest.rest.rest.rest, 76, row, 2, delta);
    LaidStep(EP3, R, 4, 0, M14_3.rest.rest.rest, 71, row, 2, delta);
    LaidStep(EP3, B, 2, 2, M14_3.rest.rest, 70, row, 2, delta);
    LaidStep(EP2, R, 4, 0, M14_3.rest, 65, row, 2, delta);
  }

  lemma Laid14_2()
    ensures Laid(M14_2, 50, [24, 0, 14, 0, 40, 0, 50, 60, 70, 76, 34, 0], 2, [5, 5, 5])
  {
    hide Laid;
    var row, delta := [24, 0, 14, 0, 40, 0, 50, 60, 70, 76, 34, 0], [5, 5, 5];
    Laid14_3();
    LaidStep(EP2, B, 3, 0, M14_2.rest.rest.rest.rest.rest, 61, row, 2, delta);
    LaidStep(EP3, B, 1, 1, M14_2.rest.rest.rest.rest, 60, row, 2, delta);
    LaidStep(EP1, B, 4, 0, M14_2.rest.rest.rest, 55, row, 2, delta);
    LaidStep(EP3, G, 3, 0, M14_2.rest.rest, 51, row, 2, delta);
    LaidStep(EP3, B, 0, 0, M14_2.rest, 50, row, 2, delta);
  }

  lemma Laid14_1()
    ensures Laid(M14_1, 34, [24, 0, 14, 0, 40, 0, 50, 60, 70, 76, 34, 0], 2, [5, 5, 5])
  {
    hide Laid;
    var row, delta := [24, 0, 14, 0, 40, 0, 50, 60, 70, 76, 34, 0], [5, 5, 5];
    Laid14_2();
    LaidStep(EP1, G, 4, 0, M14_1.rest.rest.rest.rest.rest, 45, row, 2, delta);
    LaidStep(EP2, G, 3, 0, M14_1.rest.rest.rest.rest, 41, row, 2, delta);
    LaidStep(EP3, G, 4, 4, M14_1.rest.rest.rest, 40, row, 2, delta);
    LaidStep(EP1, R, 4, 0, M14_1.rest.rest, 35, row, 2, delta);
    LaidStep(EP3, B, 4, 4, M14_1.rest, 34, row, 2, delta);
  }

  lemma Laid14()
    ensures Laid(M14, 5, [24, 0, 14, 0, 40, 0, 50, 60, 70, 76, 34, 0], 2, [5, 5, 5])
  {
    hide Laid;
    var row, delta := [24, 0, 14, 0, 40, 0, 50, 60, 70, 76, 34, 0], [5, 5, 5];
    Laid14_1();
    LaidStep(EP0, B, 8, 0, M14.rest.rest.rest.rest.rest, 25, row, 2, delta);
    LaidStep(EP2, G, 4, 4, M14.rest.rest.rest.rest, 24, row, 2, delta);
    LaidStep(EP0, G, 8, 0, M14.rest.rest.rest, 15, row, 2, delta);
    LaidStep(EP2, B, 4, 4, M14.rest.rest, 14, row, 2, delta);
    LaidStep(EP0, R, 8, 0, M14.rest, 5, row, 2, delta);
  }

  lemma Laid15()
    ensures Laid(M15, 5, [0, 0, 0, 0, 0, 0, 0, 0, 0, 0, 0, 0], 1, [4, 4, 4])
  {
    hide Laid;
    var row, delta := [0, 0, 0, 0, 0, 0, 0, 0, 0, 0, 0, 0], [4, 4, 4];
    LaidEnd(65, row, 1, delta);
    LaidStep(EP0, B, 10, 15, M15.rest.rest.rest.rest.rest.rest.rest.rest.rest, 59, row, 1, delta);
    LaidStep(EP1, B, 3, 0, M15.rest.rest.rest.rest.rest.rest.rest.rest, 55, row, 1, delta);
    LaidStep(EP0, G, 10, 15, M15.rest.rest.rest.rest.rest.rest.rest, 49, row, 1, delta);
    LaidStep(EP1, G, 3, 0, M15.rest.rest.rest.rest.rest.rest, 45, row, 1, delta);
    LaidStep(EP0, R, 10, 15, M15.rest.rest.rest.rest.rest, 39, row, 1, delta);
    LaidStep(EP1, R, 3, 0, M15.rest.rest.rest.rest, 35, row, 1, delta);
    LaidStep(EP0, B, 9, 0, M15.rest.rest.rest, 25, row, 1, delta);
    LaidStep(EP0, G, 9, 0, M15.rest.rest, 15, row, 1, delta);
    LaidStep(EP0, R, 9, 0, M15.rest, 5, row, 1, delta);
  }

  lemma Laid18_3()
    ensures Laid(M18_3, 60, [24, 0, 14, 0, 13, 0, 50, 60, 23, 33, 34, 0], 2, [6, 5, 5])
  {
    hide Laid;
    var row, delta := [24, 0, 14, 0, 13, 0, 50, 60, 23, 33, 34, 0], [6, 5, 5];
    LaidEnd(82, row, 2, delta);
    LaidStep(PARTITION, R, 4, 0, M18_3.rest.rest.rest.rest.rest, 77, row, 2, delta);
    LaidStep(EP3, R, 5, 0, M18_3.rest.rest.rest.rest, 71, row, 2, delta);
    LaidStep(EP2, R, 5, 0, M18_3.rest.rest.rest, 65, row, 2, delta);
    LaidStep(EP2, B, 3, 0, M18_3.rest.rest, 61, row, 2, delta);
    LaidStep(EP3, B, 1, 1, M18_3.rest, 60, row, 2, delta);
  }

  lemma Laid18_2()
    ensures Laid(M18_2, 41, [24, 0, 14, 0, 13, 0, 50, 60, 23, 33, 34, 0], 2, [6, 5, 5])
  {
    hide Laid;
    var row, delta := [24, 0, 14, 0, 13, 0, 50, 60, 23, 33, 34, 0], [6, 5, 5];
    Laid18_3();
    LaidStep(EP1, B, 4, 0, M18_2.rest.rest.rest.rest.rest, 55, row, 2, delta);
    LaidStep(EP3, G, 3, 0, M18_2.rest.rest.rest.rest, 51, row, 2, delta);
    LaidStep(EP3, B, 0, 0, M18_2.rest.rest.rest, 50, row, 2, delta);
    LaidStep(EP1, G, 4, 0, M18_2.rest.rest, 45, row, 2, delta);
    LaidStep(EP2, G, 3, 0, M18_2.rest, 41, row, 2, delta);
  }

  lemma Laid18_1()
    ensures Laid(M18_1, 24, [24, 0, 14, 0, 13, 0, 50, 60, 23, 33, 34, 0], 2, [6, 5, 5])
  {
    hide Laid;
    var row, delta := [24, 0, 14, 0, 13, 0, 50, 60, 23, 33, 34, 0], [6, 5, 5];
    Laid18_2();
    LaidStep(EP1, R, 5, 0, M18_1.rest.rest.rest.rest.rest, 35, row, 2, delta);
    LaidStep(EP3, B, 4, 4, M18_1.rest.rest.rest.rest, 34, row, 2, delta);
    LaidStep(EP3, B, 3, 3, M18_1.rest.rest.rest, 33, row, 2, delta);
    LaidStep(EP0, B, 7, 0, M18_1.rest.rest, 25, row, 2, delta);
    LaidStep(EP2, G, 4, 4, M18_1.rest, 24, row, 2, delta);
  }

  lemma Laid18()
    ensures Laid(M18, 5, [24, 0, 14, 0, 13, 0, 50, 60, 23, 33, 34, 0], 2, [6, 5, 5])
  {
    hide Laid;
    var row, delta := [24, 0, 14, 0, 13, 0, 50, 60, 23, 33, 34, 0], [6, 5, 5];
    Laid18_1();
    LaidStep(EP3, B, 2, 2, M18.rest.rest.rest.rest.rest, 23, row, 2, delta);
    LaidStep(EP0, G, 7, 0, M18.rest.rest.rest.rest, 15, row, 2, delta);
    LaidStep(EP2, B, 4, 4, M18.rest.rest.rest, 14, row, 2, delta);
    LaidStep(EP3, G, 4, 4, M18.rest.rest, 13, row, 2, delta);
    LaidStep(EP0, R, 7, 0, M18.rest, 5, row, 2, delta);
  }

  lemma Laid22_4()
    ensures Laid(M22_4, 76, [24, 23, 14, 0, 40, 33, 13, 60, 70, 76, 34, 0], 2, [5, 6, 5])
  {
    hide Laid;
    var row, delta := [24, 23, 14, 0, 40, 33, 13, 60, 70, 76, 34, 0], [5, 6, 5];
    LaidEnd(82, row, 2, delta);
    LaidStep(PARTITION, R, 4, 0, M22_4.rest.rest, 77, row, 2, delta);
    LaidStep(EP3, B, 3, 3, M22_4.rest, 76, row, 2, delta);
  }

  lemma Laid22_3()
    ensures Laid(M22_3, 60, [24, 23, 14, 0, 40, 33, 13, 60, 70, 76, 34, 0], 2, [5, 6, 5])
  {
    hide Laid;
    var row, delta := [24, 23, 14, 0, 40, 33, 13, 60, 70, 76, 34, 0], [5, 6, 5];
    Laid22_4();
    LaidStep(EP3, R, 4, 0, M22_3.rest.rest.rest.rest.rest, 71, row, 2, delta);
    LaidStep(EP3, B, 2, 2, M22_3.rest.rest.rest.rest, 70, row, 2, delta);
    LaidStep(EP2, R, 4, 0, M22_3.rest.rest.rest, 65, row, 2, delta);
    LaidStep(EP2, B, 3, 0, M22_3.rest.rest, 61, row, 2, delta);
    LaidStep(EP3, B, 1, 1, M22_3.rest, 60, row, 2, delta);
  }

  lemma Laid22_2()
    ensures Laid(M22_2, 40, [24, 23, 14, 0, 40, 33, 13, 60, 70, 76, 34, 0], 2, [5, 6, 5])
  {
    hide Laid;
    var row, delta := [24, 23, 14, 0, 40, 33, 13, 60, 70, 76, 34, 0], [5, 6, 5];
    Laid22_3();
    LaidStep(EP1, B, 4, 0, M22_2.rest.rest.rest.rest.rest, 55, row, 2, delta);
    LaidStep(EP3, G, 3, 0, M22_2.rest.rest.rest.rest, 51, row, 2, delta);
    LaidStep(EP1, G, 5, 0, M22_2.rest.rest.rest, 45, row, 2, delta);
    LaidStep(EP2, G, 3, 0, M22_2.rest.rest, 41, row, 2, delta);
    LaidStep(EP3, G, 4, 4, M22_2.rest, 40, row, 2, delta);
  }

  lemma Laid22_1()
    ensures Laid(M22_1, 24, [24, 23, 14, 0, 40, 33, 13, 60, 70, 76, 34, 0], 2, [5, 6, 5])
  {
    hide Laid;
    var row, delta := [24, 23, 14, 0, 40, 33, 13, 60, 70, 76, 34, 0], [5, 6, 5];
    Laid22_2();
    LaidStep(EP1, R, 4, 0, M22_1.rest.rest.rest.rest.rest, 35, row, 2, delta);
    LaidStep(EP3, B, 4, 4, M22_1.rest.rest.rest.rest, 34, row, 2, delta);
    LaidStep(EP3, G, 5, 5, M22_1.rest.rest.rest, 33, row, 2, delta);
    LaidStep(EP0, B, 7, 0, M22_1.rest.rest, 25, row, 2, delta);
    LaidStep(EP2, G, 4, 4, M22_1.rest, 24, row, 2, delta);
  }

  lemma Laid22()
    ensures Laid(M22, 5, [24, 23, 14, 0, 40, 33, 13, 60, 70, 76, 34, 0], 2, [5, 6, 5])
  {
    hide Laid;
    var row, delta := [24, 23, 14, 0, 40, 33, 13, 60, 70, 76, 34, 0], [5, 6, 5];
    Laid22_1();
    LaidStep(EP2, G, 5, 5, M22.rest.rest.rest.rest.rest, 23, row, 2, delta);
    LaidStep(EP0, G, 7, 0, M22.rest.rest.rest.rest, 15, row, 2, delta);
    LaidStep(EP2, B, 4, 4, M22.rest.rest.rest, 14, row, 2, delta);
    LaidStep(EP3, B, 0, 0, M22.rest.rest, 13, row, 2, delta);
    LaidStep(EP0, R, 7, 0, M22.rest, 5, row, 2, delta);
  }

  lemma Laid26_4()
    ensures Laid(M26_4, 76, [24, 0, 14, 23, 40, 0, 50, 13, 70, 76, 34, 33], 2, [5, 5, 6])
  {
    hide Laid;
    var row, delta := [24, 0, 14, 23, 40, 0, 50, 13, 70, 76, 34, 33], [5, 5, 6];
    LaidEnd(82, row, 2, delta);
    LaidStep(PARTITION, R, 4, 0, M26_4.rest.rest, 77, row, 2, delta);
    LaidStep(EP3, B, 3, 3, M26_4.rest, 76, row, 2, delta);
  }

  lemma Laid26_3()
    ensures Laid(M26_3, 55, [24, 0, 14, 23, 40, 0, 50, 13, 70, 76, 34, 33], 2, [5, 5, 6])
  {
    hide Laid;
    var row, delta := [24, 0, 14, 23, 40, 0, 50, 13, 70, 76, 34, 33], [5, 5, 6];
    Laid26_4();
    LaidStep(EP3, R, 4, 0, M26_3.rest.rest.rest.rest.rest, 71, row, 2, delta);
    LaidStep(EP3, B, 2, 2, M26_3.rest.rest.rest.rest, 70, row, 2, delta);
    LaidStep(EP2, R, 4, 0, M26_3.rest.rest.rest, 65, row, 2, delta);
    LaidStep(EP2, B, 3, 0, M26_3.rest.rest, 61, row, 2, delta);
    LaidStep(EP1, B, 5, 0, M26_3.rest, 55, row, 2, delta);
  }

  lemma Laid26_2()
    ensures Laid(M26_2, 40, [24, 0, 14, 23, 40, 0, 50, 13, 70, 76, 34, 33], 2, [5, 5, 6])
  {
    hide Laid;
    var row, delta := [24, 0, 14, 23, 40, 0, 50, 13, 70, 76, 34, 33], [5, 5, 6];
    Laid26_3();
    LaidStep(EP3, G, 3, 0, M26_2.rest.rest.rest.rest.rest, 51, row, 2, delta);
    LaidStep(EP3, B, 0, 0, M26_2.rest.rest.rest.rest, 50, row, 2, delta);
    LaidStep(EP1, G, 4, 0, M26_2.rest.rest.rest, 45, row, 2, delta);
    LaidStep(EP2, G, 3, 0, M26_2.rest.rest, 41, row, 2, delta);
    LaidStep(EP3, G, 4, 4, M26_2.rest, 40, row, 2, delta);
  }

  lemma Laid26_1()
    ensures Laid(M26_1, 24, [24, 0, 14, 23, 40, 0, 50, 13, 70, 76, 34, 33], 2, [5, 5, 6])
  {
    hide Laid;
    var row, delta := [24, 0, 14, 23, 40, 0, 50, 13, 70, 76, 34, 33], [5, 5, 6];
    Laid26_2();
    LaidStep(EP1, R, 4, 0, M26_1.rest.rest.rest.rest.rest, 35, row, 2, delta);
    LaidStep(EP3, B, 4, 4, M26_1.rest.rest.rest.rest, 34, row, 2, delta);
    LaidStep(EP3, B, 5, 5, M26_1.rest.rest.rest, 33, row, 2, delta);
    LaidStep(EP0, B, 7, 0, M26_1.rest.rest, 25, row, 2, delta);
    LaidStep(EP2, G, 4, 4, M26_1.rest, 24, row, 2, delta);
  }

  lemma Laid26()
    ensures Laid(M26, 5, [24, 0, 14, 23, 40, 0, 50, 13, 70, 76, 34, 33], 2, [5, 5, 6])
  {
    hide Laid;
    var row, delta := [24, 0, 14, 23, 40, 0, 50, 13, 70, 76, 34, 33], [5, 5, 6];
    Laid26_1();
    LaidStep(EP2, B, 5, 5, M26.rest.rest.rest.rest.rest, 23, row, 2, delta);
    LaidStep(EP0, G, 7, 0, M26.rest.rest.rest.rest, 15, row, 2, delta);
    LaidStep(EP2, B, 4, 4, M26.rest.rest.rest, 14, row, 2, delta);
    LaidStep(EP3, B, 1, 1, M26.rest.rest, 13, row, 2, delta);
    LaidStep(EP0, R, 7, 0, M26.rest, 5, row, 2, delta);
  }

  lemma Laid30_4()
    ensures Laid(M30_4, 61, [24, 21, 14, 22, 11, 31, 12, 13, 23, 32, 34, 33], 2, [0, 0, 0])
  {
    hide Laid;
    var row, delta := [24, 21, 14, 22, 11, 31, 12, 13, 23, 32, 34, 33], [0, 0, 0];
    LaidEnd(82, row, 2, delta);
    LaidStep(PARTITION, R, 4, 0, M30_4.rest.rest.rest.rest, 77, row, 2, delta);
    LaidStep(EP3, R, 5, 0, M30_4.rest.rest.rest, 71, row, 2, delta);
    LaidStep(EP2, R, 5, 0, M30_4.rest.rest, 65, row, 2, delta);
    LaidStep(EP2, B, 3, 0, M30_4.rest, 61, row, 2, delta);
  }

  lemma Laid30_3()
    ensures Laid(M30_3, 35, [24, 21, 14, 22, 11, 31, 12, 13, 23, 32, 34, 33], 2, [0, 0, 0])
  {
    hide Laid;
    var row, delta := [24, 21, 14, 22, 11, 31, 12, 13, 23, 32, 34, 33], [0, 0, 0];
    Laid30_4();
    LaidStep(EP1, B, 5, 0, M30_3.rest.rest.rest.rest.rest, 55, row, 2, delta);
    LaidStep(EP3, G, 3, 0, M30_3.rest.rest.rest.rest, 51, row, 2, delta);
    LaidStep(EP1, G, 5, 0, M30_3.rest.rest.rest, 45, row, 2, delta);
    LaidStep(EP2, G, 3, 0, M30_3.rest.rest, 41, row, 2, delta);
    LaidStep(EP1, R, 5, 0, M30_3.rest, 35, row, 2, delta);
  }

  lemma Laid30_2()
    ensures Laid(M30_2, 25, [24, 21, 14, 22, 11, 31, 12, 13, 23, 32, 34, 33], 2, [0, 0, 0])
  {
    hide Laid;
    var row, delta := [24, 21, 14, 22, 11, 31, 12, 13, 23, 32, 34, 33], [0, 0, 0];
    Laid30_3();
    LaidStep(EP3, B, 4, 4, M30_2.rest.rest.rest.rest.rest, 34, row, 2, delta);
    LaidStep(EP3, B, 5, 5, M30_2.rest.rest.rest.rest, 33, row, 2, delta);
    LaidStep(EP3, B, 3, 3, M30_2.rest.rest.rest, 32, row, 2, delta);
    LaidStep(EP3, G, 5, 5, M30_2.rest.rest, 31, row, 2, delta);
    LaidStep(EP0, B, 5, 0, M30_2.rest, 25, row, 2, delta);
  }

  lemma Laid30_1()
    ensures Laid(M30_1, 15, [24, 21, 14, 22, 11, 31, 12, 13, 23, 32, 34, 33], 2, [0, 0, 0])
  {
    hide Laid;
    var row, delta := [24, 21, 14, 22, 11, 31, 12, 13, 23, 32, 34, 33], [0, 0, 0];
    Laid30_2();
    LaidStep(EP2, G, 4, 4, M30_1.rest.rest.rest.rest.rest, 24, row, 2, delta);
    LaidStep(EP3, B, 2, 2, M30_1.rest.rest.rest.rest, 23, row, 2, delta);
    LaidStep(EP2, B, 5, 5, M30_1.rest.rest.rest, 22, row, 2, delta);
    LaidStep(EP2, G, 5, 5, M30_1.rest.rest, 21, row, 2, delta);
    LaidStep(EP0, G, 5, 0, M30_1.rest, 15, row, 2, delta);
  }

  lemma Laid30()
    ensures Laid(M30, 5, [24, 21, 14, 22, 11, 31, 12, 13, 23, 32, 34, 33], 2, [0, 0, 0])
  {
    hide Laid;
    var row, delta := [24, 21, 14, 22, 11, 31, 12, 13, 23, 32, 34, 33], [0, 0, 0];
    Laid30_1();
    LaidStep(EP2, B, 4, 4, M30.rest.rest.rest.rest.rest, 14, row, 2, delta);
    LaidStep(EP3, B, 1, 1, M30.rest.rest.rest.rest, 13, row, 2, delta);
    LaidStep(EP3, B, 0, 0, M30.rest.rest.rest, 12, row, 2, delta);
    LaidStep(EP3, G, 4, 4, M30.rest.rest, 11, row, 2, delta);
    LaidStep(EP0, R, 5, 0, M30.rest, 5, row, 2, delta);
  }

  // In every mode each bit of each endpoint, and of the partition number, stands where the rule says.
  lemma Layout(i: nat, t: nat, c: nat, b: nat)
    requires i < 14 && t <= 4 && c < 3
    ensures Sized(Modes(i)) && (Hits(Modes(i).fields, t, c, b) > 0 <==> b < Width(Modes(i), t, c))
    ensures b < Width(Modes(i), t, c) ==> Where(Modes(i).fields, ModeBits(Modes(i)), t, c, b) == Place(i, t, c, b)
  {
    Once(i, t, c, b);
    AllLaid(i);
    hide Laid, Hits, Where, PlaceIn, Width, Modes, Scattered;
    if b < Width(Modes(i), t, c) {
      LaidWhere(Modes(i).fields, ModeBits(Modes(i)), Scattered(i), Modes(i).partitions, Modes(i).deltaBits, t, c, b);
    }
  }

  lemma AllLaid(i: nat)
    requires i < 14
    ensures |Modes(i).deltaBits| == 3 && Laid(Modes(i).fields, ModeBits(Modes(i)), Scattered(i), Modes(i).partitions, Modes(i).deltaBits)
  {
    hide Laid;
    match i
    case 0 => Laid0();
    case 1 => Laid1();
    case 2 => Laid2();
    case 3 => Laid3();
    case 4 => Laid6();
    case 5 => Laid7();
    case 6 => Laid10();
    case 7 => Laid11();
    case 8 => Laid14();
    case 9 => Laid15();
    case 10 => Laid18();
    case 11 => Laid22();
    case 12 => Laid26();
    case _ => Laid30();
  }

  // So the number of a channel of an endpoint is the one whose bits are read there.
  lemma StoredAt(s: seq<bool>, i: nat, t: nat, c: nat, b: nat)
    requires i < 14 && t <= 4 && c < 3
    ensures Sized(Modes(i))
    ensures b < Width(Modes(i), t, c) ==> 0 <= Place(i, t, c, b) && StoredBits(s, i, t, c)[b] == At(s, Place(i, t, c, b))
  {
    Layout(i, t, c, b);
    hide Place, Where, Hits, Width, Modes;
  }
}
