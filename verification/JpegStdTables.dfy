// The writer's four constant Huffman tables, which are the ones ITU-T T.81 section K.3 suggests: every code in them is the
// canonical one for the counts and symbols the header announces.

module JpegStdTables {
  import opened BitStream
  import Huffman
  import opened JpegHuffman
  import opened JpegBits
  import opened JpegBlock
  import opened JpegWriter
  import opened JpegRoundTrip

  // ----- codes by length

  // How many codes are shorter than `l`, and the first code of length `l`.
  function Start(count: seq<nat>, l: nat): nat
    requires 1 <= l <= |count| + 1
  {
    if l == 1 then 0 else Start(count, l - 1) + count[l - 2]
  }

  function First(count: seq<nat>, l: nat): nat
    requires 1 <= l <= |count| + 1
  {
    if l == 1 then 0 else 2 * (First(count, l - 1) + count[l - 2])
  }

  // Code `e` is that of the symbol `rs` stands for.
  predicate Canonical(count: seq<nat>, values: seq<byte>, rs: nat, e: (nat, nat))
    requires |count| == 16 && |values| == 256
  {
    1 <= e.1 <= 16 && First(count, e.1) <= e.0 < First(count, e.1) + count[e.1 - 1] &&
    var n := Start(count, e.1) + e.0 - First(count, e.1); n < 256 && values[n] as int == rs
  }

  // The lengths of level `l` are those from its start to the next one.
  lemma {:induction false} SizesAt(count: seq<nat>, l: nat)
    requires 1 <= l <= |count| + 1
    ensures |Sizes(count, l - 1)| == Start(count, l)
    ensures l <= |count| ==> forall i :: Start(count, l) <= i < Start(count, l + 1) ==> Sizes(count, l)[i] == l
    decreases l
  {
    if l > 1 { SizesAt(count, l - 1); }
    if l <= |count| {
      var was, now := Sizes(count, l - 1), Sizes(count, l);
      assert now == was + seq(count[l - 1], i => l);
    }
  }

  // Below level `l` lie the symbols before its start.
  lemma RankIs(count: seq<nat>, l: nat)
    requires |count| == 16 && 1 <= l <= 17
    ensures Huffman.FirstRank(Sizes(count, 16), l) == Start(count, l)
  {
    hide Sizes, Start, Huffman.UsedBelow, Huffman.FirstRank;
    var lens, a := Sizes(count, 16), Start(count, l);
    SizesAt(count, l);
    SizesPrefix(count, l - 1, 16);
    SizesAscending(count, l - 1);
    SizesAscending(count, 16);
    UsedBelowAll(lens, l, a);
    AtLeast(count, l - 1);
    UsedBelowStop(lens, l, a, |lens|);
    Huffman.FirstRankIsUsedBelow(lens, l);
  }

  lemma {:induction false} Levels(count: seq<nat>, l: nat)
    requires |count| == 16 && 1 <= l <= 16
    ensures var lens := Sizes(count, 16);
      Huffman.Total(lens, l) == count[l - 1] && Huffman.FirstRank(lens, l) == Start(count, l) &&
      Huffman.FirstCode(lens, l) == First(count, l)
    decreases l
  {
    hide Sizes;
    RankIs(count, l);
    RankIs(count, l + 1);
    if l > 1 { Levels(count, l - 1); }
  }

  lemma AtLeast(count: seq<nat>, l: nat)
    requires l <= |count|
    ensures forall i :: |Sizes(count, l)| <= i < |Sizes(count, |count|)| ==> Sizes(count, |count|)[i] > l
  {
    Later(count, l, |count|);
  }

  lemma {:induction false} Later(count: seq<nat>, l: nat, m: nat)
    requires l <= m <= |count|
    ensures forall i :: |Sizes(count, l)| <= i < |Sizes(count, m)| ==> Sizes(count, m)[i] > l
    decreases m
  {
    if l < m { Later(count, l, m - 1); }
  }

  // A canonical entry is what the decoder's tables are built from.
  lemma CanonicalHas(count: seq<nat>, values: seq<byte>, ht: Table, rs: byte)
    requires |count| == 16 && |values| == 256 && |Sizes(count, 16)| <= 256 && Canonical(count, values, rs, ht[rs])
    ensures Has(Code(Sizes(count, 16), values), ht, rs)
  {
    hide Sizes, Start, First, Huffman.Code, Huffman.FirstRank, Huffman.Total, Huffman.FirstCode;
    var lens, l := Sizes(count, 16), ht[rs].1;
    var n := CanonicalAt(count, values, rs, ht[rs]);
    assert HasAt(Code(lens, values), ht, rs, n);
  }

  lemma CanonicalAt(count: seq<nat>, values: seq<byte>, rs: byte, e: (nat, nat)) returns (n: nat)
    requires |count| == 16 && |values| == 256 && |Sizes(count, 16)| <= 256 && Canonical(count, values, rs, e)
    ensures var lens := Sizes(count, 16); n < |lens| && lens[n] == e.1 > 0 && Huffman.Code(lens, n) == e.0 && values[n] == rs
  {
    hide Sizes, First, Huffman.Code, Huffman.FirstRank, Huffman.Total, Huffman.FirstCode;
    var lens, l := Sizes(count, 16), e.1;
    n := Start(count, l) + e.0 - First(count, l);
    SizesAt(count, l);
    SizesAt(count, l + 1);
    SizesPrefix(count, l, 16);
    SizesAscending(count, 16);
    Levels(count, l);
    assert n < |Sizes(count, l)| <= |lens| && Sizes(count, l)[n] == l;
    CodeSorted(lens, n);
  }

  predicate Bounded(e: (nat, nat)) { e.1 <= 16 && e.0 < Pow2(e.1) }

  lemma NoCode()
    ensures Bounded((0, 0))
  {
  }

  lemma CanonicalBounded(count: seq<nat>, values: seq<byte>, rs: nat, e: (nat, nat))
    requires |count| == 16 && |values| == 256 && Huffman.Realizable(Sizes(count, 16)) && Canonical(count, values, rs, e)
    ensures Bounded(e)
  {
    hide Sizes, Start, First, Huffman.Realizable, Huffman.FirstCode, Huffman.FirstRank, Huffman.Total;
    Levels(count, e.1);
    Huffman.RealizableFits(Sizes(count, 16), e.1);
  }

  lemma CountsFit(count: seq<nat>)
    requires |count| == 16 && First(count, 16) + count[15] <= 0x10000
    ensures Huffman.Realizable(Sizes(count, 16))
  {
    Levels(count, 16);
    SizesAscending(count, 16);
    Pow2Small();
    Huffman.FitsRealizable(Sizes(count, 16));
  }

  // ----- AC tables

  // The codes for runs of `r` zeros followed by a coefficient of 1 to 10 bits; 0x00 and 0xF0 are on their own.
  predicate Run(count: seq<nat>, values: seq<byte>, r: nat, row: seq<(nat, nat)>)
    requires |count| == 16 && |values| == 256 && |row| == 11
  {
    Canonical(count, values, 16 * r + 1, row[1]) && Canonical(count, values, 16 * r + 2, row[2]) &&
    Canonical(count, values, 16 * r + 3, row[3]) && Canonical(count, values, 16 * r + 4, row[4]) &&
    Canonical(count, values, 16 * r + 5, row[5]) && Canonical(count, values, 16 * r + 6, row[6]) &&
    Canonical(count, values, 16 * r + 7, row[7]) && Canonical(count, values, 16 * r + 8, row[8]) &&
    Canonical(count, values, 16 * r + 9, row[9]) && Canonical(count, values, 16 * r + 10, row[10]) &&
    if r == 0 || r == 15 then Canonical(count, values, 16 * r, row[0]) else row[0] == (0, 0)
  }

  lemma RunBounded(count: seq<nat>, values: seq<byte>, r: nat, row: seq<(nat, nat)>, j: nat)
    requires |count| == 16 && |values| == 256 && Huffman.Realizable(Sizes(count, 16))
    requires |row| == 11 && j < 11 && Run(count, values, r, row)
    ensures Bounded(row[j])
  {
    hide Sizes, Canonical, Huffman.Realizable;
    if row[j] != (0, 0) { CanonicalBounded(count, values, 16 * r + j, row[j]); }
  }

  // A table made of such rows has a code for every symbol a block of 10-bit coefficients needs.
  lemma RunsCover(count: seq<nat>, values: seq<byte>, ht: Table, rows: nat -> seq<(nat, nat)>)
    requires |count| == 16 && |values| == 256 && |Sizes(count, 16)| <= 256
    requires forall r: nat :: r < 16 ==> |rows(r)| == 11 && Run(count, values, r, rows(r))
    requires forall i: nat :: i < 256 && i % 16 < 11 ==> ht[i] == rows(i / 16)[i % 16]
    ensures Covers(Code(Sizes(count, 16), values), ht, 10)
  {
    hide Sizes, Canonical, Has;
    forall rs: byte | rs == 0 || rs == 0xF0 || 0 < rs as int % 16 <= 10
      ensures Has(Code(Sizes(count, 16), values), ht, rs)
    {
      RunHas(count, values, rs, rows(rs as int / 16));
      CanonicalHas(count, values, ht, rs);
    }
  }

  lemma RunHas(count: seq<nat>, values: seq<byte>, rs: nat, row: seq<(nat, nat)>)
    requires |count| == 16 && |values| == 256 && |row| == 11 && rs < 256 && Run(count, values, rs / 16, row)
    requires rs == 0 || rs == 0xF0 || 0 < rs % 16 <= 10
    ensures Canonical(count, values, rs, row[rs % 16])
  {
    hide Canonical;
    assert rs == 16 * (rs / 16) + rs % 16;
  }

  // ----- luminance, AC

  const YAC_COUNT: seq<nat> := [0, 2, 1, 3, 3, 2, 4, 3, 5, 5, 4, 4, 0, 0, 1, 125]

  const YAC_0: seq<(nat, nat)> := [(10, 4), (0, 2), (1, 2), (4, 3), (11, 4), (26, 5), (120, 7), (248, 8), (1014, 10), (65410, 16), (65411, 16)]
  const YAC_1: seq<(nat, nat)> := [(0, 0), (12, 4), (27, 5), (121, 7), (502, 9), (2038, 11), (65412, 16), (65413, 16), (65414, 16), (65415, 16), (65416, 16)]
  const YAC_2: seq<(nat, nat)> := [(0, 0), (28, 5), (249, 8), (1015, 10), (4084, 12), (65417, 16), (65418, 16), (65419, 16), (65420, 16), (65421, 16), (65422, 16)]
  const YAC_3: seq<(nat, nat)> := [(0, 0), (58, 6), (503, 9), (4085, 12), (65423, 16), (65424, 16), (65425, 16), (65426, 16), (65427, 16), (65428, 16), (65429, 16)]
  const YAC_4: seq<(nat, nat)> := [(0, 0), (59, 6), (1016, 10), (65430, 16), (65431, 16), (65432, 16), (65433, 16), (65434, 16), (65435, 16), (65436, 16), (65437, 16)]
  const YAC_5: seq<(nat, nat)> := [(0, 0), (122, 7), (2039, 11), (65438, 16), (65439, 16), (65440, 16), (65441, 16), (65442, 16), (65443, 16), (65444, 16), (65445, 16)]
  const YAC_6: seq<(nat, nat)> := [(0, 0), (123, 7), (4086, 12), (65446, 16), (65447, 16), (65448, 16), (65449, 16), (65450, 16), (65451, 16), (65452, 16), (65453, 16)]
  const YAC_7: seq<(nat, nat)> := [(0, 0), (250, 8), (4087, 12), (65454, 16), (65455, 16), (65456, 16), (65457, 16), (65458, 16), (65459, 16), (65460, 16), (65461, 16)]
  const YAC_8: seq<(nat, nat)> := [(0, 0), (504, 9), (32704, 15), (65462, 16), (65463, 16), (65464, 16), (65465, 16), (65466, 16), (65467, 16), (65468, 16), (65469, 16)]
  const YAC_9: seq<(nat, nat)> := [(0, 0), (505, 9), (65470, 16), (65471, 16), (65472, 16), (65473, 16), (65474, 16), (65475, 16), (65476, 16), (65477, 16), (65478, 16)]
  const YAC_10: seq<(nat, nat)> := [(0, 0), (506, 9), (65479, 16), (65480, 16), (65481, 16), (65482, 16), (65483, 16), (65484, 16), (65485, 16), (65486, 16), (65487, 16)]
  const YAC_11: seq<(nat, nat)> := [(0, 0), (1017, 10), (65488, 16), (65489, 16), (65490, 16), (65491, 16), (65492, 16), (65493, 16), (65494, 16), (65495, 16), (65496, 16)]
  const YAC_12: seq<(nat, nat)> := [(0, 0), (1018, 10), (65497, 16), (65498, 16), (65499, 16), (65500, 16), (65501, 16), (65502, 16), (65503, 16), (65504, 16), (65505, 16)]
  const YAC_13: seq<(nat, nat)> := [(0, 0), (2040, 11), (65506, 16), (65507, 16), (65508, 16), (65509, 16), (65510, 16), (65511, 16), (65512, 16), (65513, 16), (65514, 16)]
  const YAC_14: seq<(nat, nat)> := [(0, 0), (65515, 16), (65516, 16), (65517, 16), (65518, 16), (65519, 16), (65520, 16), (65521, 16), (65522, 16), (65523, 16), (65524, 16)]
  const YAC_15: seq<(nat, nat)> := [(2041, 11), (65525, 16), (65526, 16), (65527, 16), (65528, 16), (65529, 16), (65530, 16), (65531, 16), (65532, 16), (65533, 16), (65534, 16)]

  function YacRow(r: nat): (row: seq<(nat, nat)>)
    ensures |row| == 11
  {
    match r
    case 0 => YAC_0 case 1 => YAC_1 case 2 => YAC_2 case 3 => YAC_3
    case 4 => YAC_4 case 5 => YAC_5 case 6 => YAC_6 case 7 => YAC_7
    case 8 => YAC_8 case 9 => YAC_9 case 10 => YAC_10 case 11 => YAC_11
    case 12 => YAC_12 case 13 => YAC_13 case 14 => YAC_14 case _ => YAC_15
  }

  function YacSymbols(r: nat): (row: seq<byte>)
    ensures |row| == 16
  {
    match r
    case 0 => [0x01, 0x02, 0x03, 0x00, 0x04, 0x11, 0x05, 0x12, 0x21, 0x31, 0x41, 0x06, 0x13, 0x51, 0x61, 0x07]
    case 1 => [0x22, 0x71, 0x14, 0x32, 0x81, 0x91, 0xa1, 0x08, 0x23, 0x42, 0xb1, 0xc1, 0x15, 0x52, 0xd1, 0xf0]
    case 2 => [0x24, 0x33, 0x62, 0x72, 0x82, 0x09, 0x0a, 0x16, 0x17, 0x18, 0x19, 0x1a, 0x25, 0x26, 0x27, 0x28]
    case 3 => [0x29, 0x2a, 0x34, 0x35, 0x36, 0x37, 0x38, 0x39, 0x3a, 0x43, 0x44, 0x45, 0x46, 0x47, 0x48, 0x49]
    case 4 => [0x4a, 0x53, 0x54, 0x55, 0x56, 0x57, 0x58, 0x59, 0x5a, 0x63, 0x64, 0x65, 0x66, 0x67, 0x68, 0x69]
    case 5 => [0x6a, 0x73, 0x74, 0x75, 0x76, 0x77, 0x78, 0x79, 0x7a, 0x83, 0x84, 0x85, 0x86, 0x87, 0x88, 0x89]
    case 6 => [0x8a, 0x92, 0x93, 0x94, 0x95, 0x96, 0x97, 0x98, 0x99, 0x9a, 0xa2, 0xa3, 0xa4, 0xa5, 0xa6, 0xa7]
    case 7 => [0xa8, 0xa9, 0xaa, 0xb2, 0xb3, 0xb4, 0xb5, 0xb6, 0xb7, 0xb8, 0xb9, 0xba, 0xc2, 0xc3, 0xc4, 0xc5]
    case 8 => [0xc6, 0xc7, 0xc8, 0xc9, 0xca, 0xd2, 0xd3, 0xd4, 0xd5, 0xd6, 0xd7, 0xd8, 0xd9, 0xda, 0xe1, 0xe2]
    case 9 => [0xe3, 0xe4, 0xe5, 0xe6, 0xe7, 0xe8, 0xe9, 0xea, 0xf1, 0xf2, 0xf3, 0xf4, 0xf5, 0xf6, 0xf7, 0xf8]
    case _ => [0xf9, 0xfa, 0x00, 0x00, 0x00, 0x00, 0x00, 0x00, 0x00, 0x00, 0x00, 0x00, 0x00, 0x00, 0x00, 0x00]
  }

  function YacValues(): (values: seq<byte>)
    ensures |values| == 256 && forall i :: 0 <= i < 162 ==> values[i] == YacSymbols(i / 16)[i % 16]
  {
    seq(256, i requires 0 <= i < 256 => if i < 162 then YacSymbols(i / 16)[i % 16] else 0)
  }

  lemma YacLevels()
    ensures |YAC_COUNT| == 16
    ensures First(YAC_COUNT, 1) == 0 && Start(YAC_COUNT, 1) == 0 && First(YAC_COUNT, 2) == 0 && Start(YAC_COUNT, 2) == 0
    ensures First(YAC_COUNT, 3) == 4 && Start(YAC_COUNT, 3) == 2 && First(YAC_COUNT, 4) == 10 && Start(YAC_COUNT, 4) == 3
    ensures First(YAC_COUNT, 5) == 26 && Start(YAC_COUNT, 5) == 6 && First(YAC_COUNT, 6) == 58 && Start(YAC_COUNT, 6) == 9
    ensures First(YAC_COUNT, 7) == 120 && Start(YAC_COUNT, 7) == 11 && First(YAC_COUNT, 8) == 248 && Start(YAC_COUNT, 8) == 15
    ensures First(YAC_COUNT, 9) == 502 && Start(YAC_COUNT, 9) == 18 && First(YAC_COUNT, 10) == 1014 && Start(YAC_COUNT, 10) == 23
    ensures First(YAC_COUNT, 11) == 2038 && Start(YAC_COUNT, 11) == 28 && First(YAC_COUNT, 12) == 4084 && Start(YAC_COUNT, 12) == 32
    ensures First(YAC_COUNT, 13) == 8176 && Start(YAC_COUNT, 13) == 36 && First(YAC_COUNT, 14) == 16352 && Start(YAC_COUNT, 14) == 36
    ensures First(YAC_COUNT, 15) == 32704 && Start(YAC_COUNT, 15) == 36 && First(YAC_COUNT, 16) == 65410 && Start(YAC_COUNT, 16) == 37
  {
  }

  lemma YacRun0() ensures Run(YAC_COUNT, YacValues(), 0, YAC_0) { YacLevels(); hide First, Start, YacValues; }
  lemma YacRun1() ensures Run(YAC_COUNT, YacValues(), 1, YAC_1) { YacLevels(); hide First, Start, YacValues; }
  lemma YacRun2() ensures Run(YAC_COUNT, YacValues(), 2, YAC_2) { YacLevels(); hide First, Start, YacValues; }
  lemma YacRun3() ensures Run(YAC_COUNT, YacValues(), 3, YAC_3) { YacLevels(); hide First, Start, YacValues; }
  lemma YacRun4() ensures Run(YAC_COUNT, YacValues(), 4, YAC_4) { YacLevels(); hide First, Start, YacValues; }
  lemma YacRun5() ensures Run(YAC_COUNT, YacValues(), 5, YAC_5) { YacLevels(); hide First, Start, YacValues; }
  lemma YacRun6() ensures Run(YAC_COUNT, YacValues(), 6, YAC_6) { YacLevels(); hide First, Start, YacValues; }
  lemma YacRun7() ensures Run(YAC_COUNT, YacValues(), 7, YAC_7) { YacLevels(); hide First, Start, YacValues; }
  lemma YacRun8() ensures Run(YAC_COUNT, YacValues(), 8, YAC_8) { YacLevels(); hide First, Start, YacValues; }
  lemma YacRun9() ensures Run(YAC_COUNT, YacValues(), 9, YAC_9) { YacLevels(); hide First, Start, YacValues; }
  lemma YacRun10() ensures Run(YAC_COUNT, YacValues(), 10, YAC_10) { YacLevels(); hide First, Start, YacValues; }
  lemma YacRun11() ensures Run(YAC_COUNT, YacValues(), 11, YAC_11) { YacLevels(); hide First, Start, YacValues; }
  lemma YacRun12() ensures Run(YAC_COUNT, YacValues(), 12, YAC_12) { YacLevels(); hide First, Start, YacValues; }
  lemma YacRun13() ensures Run(YAC_COUNT, YacValues(), 13, YAC_13) { YacLevels(); hide First, Start, YacValues; }
  lemma YacRun14() ensures Run(YAC_COUNT, YacValues(), 14, YAC_14) { YacLevels(); hide First, Start, YacValues; }
  lemma YacRun15() ensures Run(YAC_COUNT, YacValues(), 15, YAC_15) { YacLevels(); hide First, Start, YacValues; }

  lemma YacRuns(r: nat)
    requires r < 16
    ensures Run(YAC_COUNT, YacValues(), r, YacRow(r))
  {
    hide Run, YacValues;
    match r
    case 0 => YacRun0(); case 1 => YacRun1(); case 2 => YacRun2(); case 3 => YacRun3();
    case 4 => YacRun4(); case 5 => YacRun5(); case 6 => YacRun6(); case 7 => YacRun7();
    case 8 => YacRun8(); case 9 => YacRun9(); case 10 => YacRun10(); case 11 => YacRun11();
    case 12 => YacRun12(); case 13 => YacRun13(); case 14 => YacRun14(); case _ => YacRun15();
  }

  lemma YacFits()
    ensures |Sizes(YAC_COUNT, 16)| == 162 && Huffman.Realizable(Sizes(YAC_COUNT, 16))
  {
    YacLevels();
    hide First;
    SizesAt(YAC_COUNT, 17);
    hide Sizes;
    CountsFit(YAC_COUNT);
  }

  function Yac(): (ht: Table)
    ensures forall i: nat :: i < 256 && i % 16 < 11 ==> ht[i] == YacRow(i / 16)[i % 16]
  {
    var ht := seq(256, i requires 0 <= i < 256 => if i % 16 < 11 then YacRow(i / 16)[i % 16] else (0, 0));
    YacBounded(ht);
    ht
  }

  lemma YacBounded(ht: seq<(nat, nat)>)
    requires |ht| == 256
    requires forall i :: 0 <= i < 256 ==> ht[i] == if i % 16 < 11 then YacRow(i / 16)[i % 16] else (0, 0)
    ensures forall i :: 0 <= i < 256 ==> Bounded(ht[i])
  {
    hide YacRow, YacValues, Run, Sizes, Huffman.Realizable, Bounded;
    YacFits();
    NoCode();
    forall i | 0 <= i < 256
      ensures Bounded(ht[i])
    {
      YacRuns(i / 16);
      if i % 16 < 11 { RunBounded(YAC_COUNT, YacValues(), i / 16, YacRow(i / 16), i % 16); }
    }
  }

  lemma YacCovers()
    ensures var c := Code(Sizes(YAC_COUNT, 16), YacValues()); IsCode(c) && Covers(c, Yac(), 10)
  {
    hide YacRow, YacValues, Run, Sizes, Yac, Huffman.Realizable, Covers;
    YacFits();
    forall r: nat | r < 16
      ensures Run(YAC_COUNT, YacValues(), r, YacRow(r))
    {
      YacRuns(r);
    }
    RunsCover(YAC_COUNT, YacValues(), Yac(), YacRow);
  }

  // ----- chrominance, AC

  const UVAC_COUNT: seq<nat> := [0, 2, 1, 2, 4, 4, 3, 4, 7, 5, 4, 4, 0, 1, 2, 119]

  const UVAC_0: seq<(nat, nat)> := [(0, 2), (1, 2), (4, 3), (10, 4), (24, 5), (25, 5), (56, 6), (120, 7), (500, 9), (1014, 10), (4084, 12)]
  const UVAC_1: seq<(nat, nat)> := [(0, 0), (11, 4), (57, 6), (246, 8), (501, 9), (2038, 11), (4085, 12), (65416, 16), (65417, 16), (65418, 16), (65419, 16)]
  const UVAC_2: seq<(nat, nat)> := [(0, 0), (26, 5), (247, 8), (1015, 10), (4086, 12), (32706, 15), (65420, 16), (65421, 16), (65422, 16), (65423, 16), (65424, 16)]
  const UVAC_3: seq<(nat, nat)> := [(0, 0), (27, 5), (248, 8), (1016, 10), (4087, 12), (65425, 16), (65426, 16), (65427, 16), (65428, 16), (65429, 16), (65430, 16)]
  const UVAC_4: seq<(nat, nat)> := [(0, 0), (58, 6), (502, 9), (65431, 16), (65432, 16), (65433, 16), (65434, 16), (65435, 16), (65436, 16), (65437, 16), (65438, 16)]
  const UVAC_5: seq<(nat, nat)> := [(0, 0), (59, 6), (1017, 10), (65439, 16), (65440, 16), (65441, 16), (65442, 16), (65443, 16), (65444, 16), (65445, 16), (65446, 16)]
  const UVAC_6: seq<(nat, nat)> := [(0, 0), (121, 7), (2039, 11), (65447, 16), (65448, 16), (65449, 16), (65450, 16), (65451, 16), (65452, 16), (65453, 16), (65454, 16)]
  const UVAC_7: seq<(nat, nat)> := [(0, 0), (122, 7), (2040, 11), (65455, 16), (65456, 16), (65457, 16), (65458, 16), (65459, 16), (65460, 16), (65461, 16), (65462, 16)]
  const UVAC_8: seq<(nat, nat)> := [(0, 0), (249, 8), (65463, 16), (65464, 16), (65465, 16), (65466, 16), (65467, 16), (65468, 16), (65469, 16), (65470, 16), (65471, 16)]
  const UVAC_9: seq<(nat, nat)> := [(0, 0), (503, 9), (65472, 16), (65473, 16), (65474, 16), (65475, 16), (65476, 16), (65477, 16), (65478, 16), (65479, 16), (65480, 16)]
  const UVAC_10: seq<(nat, nat)> := [(0, 0), (504, 9), (65481, 16), (65482, 16), (65483, 16), (65484, 16), (65485, 16), (65486, 16), (65487, 16), (65488, 16), (65489, 16)]
  const UVAC_11: seq<(nat, nat)> := [(0, 0), (505, 9), (65490, 16), (65491, 16), (65492, 16), (65493, 16), (65494, 16), (65495, 16), (65496, 16), (65497, 16), (65498, 16)]
  const UVAC_12: seq<(nat, nat)> := [(0, 0), (506, 9), (65499, 16), (65500, 16), (65501, 16), (65502, 16), (65503, 16), (65504, 16), (65505, 16), (65506, 16), (65507, 16)]
  const UVAC_13: seq<(nat, nat)> := [(0, 0), (2041, 11), (65508, 16), (65509, 16), (65510, 16), (65511, 16), (65512, 16), (65513, 16), (65514, 16), (65515, 16), (65516, 16)]
  const UVAC_14: seq<(nat, nat)> := [(0, 0), (16352, 14), (65517, 16), (65518, 16), (65519, 16), (65520, 16), (65521, 16), (65522, 16), (65523, 16), (65524, 16), (65525, 16)]
  const UVAC_15: seq<(nat, nat)> := [(1018, 10), (32707, 15), (65526, 16), (65527, 16), (65528, 16), (65529, 16), (65530, 16), (65531, 16), (65532, 16), (65533, 16), (65534, 16)]

  function UvacRow(r: nat): (row: seq<(nat, nat)>)
    ensures |row| == 11
  {
    match r
    case 0 => UVAC_0 case 1 => UVAC_1 case 2 => UVAC_2 case 3 => UVAC_3
    case 4 => UVAC_4 case 5 => UVAC_5 case 6 => UVAC_6 case 7 => UVAC_7
    case 8 => UVAC_8 case 9 => UVAC_9 case 10 => UVAC_10 case 11 => UVAC_11
    case 12 => UVAC_12 case 13 => UVAC_13 case 14 => UVAC_14 case _ => UVAC_15
  }

  function UvacSymbols(r: nat): (row: seq<byte>)
    ensures |row| == 16
  {
    match r
    case 0 => [0x00, 0x01, 0x02, 0x03, 0x11, 0x04, 0x05, 0x21, 0x31, 0x06, 0x12, 0x41, 0x51, 0x07, 0x61, 0x71]
    case 1 => [0x13, 0x22, 0x32, 0x81, 0x08, 0x14, 0x42, 0x91, 0xa1, 0xb1, 0xc1, 0x09, 0x23, 0x33, 0x52, 0xf0]
    case 2 => [0x15, 0x62, 0x72, 0xd1, 0x0a, 0x16, 0x24, 0x34, 0xe1, 0x25, 0xf1, 0x17, 0x18, 0x19, 0x1a, 0x26]
    case 3 => [0x27, 0x28, 0x29, 0x2a, 0x35, 0x36, 0x37, 0x38, 0x39, 0x3a, 0x43, 0x44, 0x45, 0x46, 0x47, 0x48]
    case 4 => [0x49, 0x4a, 0x53, 0x54, 0x55, 0x56, 0x57, 0x58, 0x59, 0x5a, 0x63, 0x64, 0x65, 0x66, 0x67, 0x68]
    case 5 => [0x69, 0x6a, 0x73, 0x74, 0x75, 0x76, 0x77, 0x78, 0x79, 0x7a, 0x82, 0x83, 0x84, 0x85, 0x86, 0x87]
    case 6 => [0x88, 0x89, 0x8a, 0x92, 0x93, 0x94, 0x95, 0x96, 0x97, 0x98, 0x99, 0x9a, 0xa2, 0xa3, 0xa4, 0xa5]
    case 7 => [0xa6, 0xa7, 0xa8, 0xa9, 0xaa, 0xb2, 0xb3, 0xb4, 0xb5, 0xb6, 0xb7, 0xb8, 0xb9, 0xba, 0xc2, 0xc3]
    case 8 => [0xc4, 0xc5, 0xc6, 0xc7, 0xc8, 0xc9, 0xca, 0xd2, 0xd3, 0xd4, 0xd5, 0xd6, 0xd7, 0xd8, 0xd9, 0xda]
    case 9 => [0xe2, 0xe3, 0xe4, 0xe5, 0xe6, 0xe7, 0xe8, 0xe9, 0xea, 0xf2, 0xf3, 0xf4, 0xf5, 0xf6, 0xf7, 0xf8]
    case _ => [0xf9, 0xfa, 0x00, 0x00, 0x00, 0x00, 0x00, 0x00, 0x00, 0x00, 0x00, 0x00, 0x00, 0x00, 0x00, 0x00]
  }

  function UvacValues(): (values: seq<byte>)
    ensures |values| == 256 && forall i :: 0 <= i < 162 ==> values[i] == UvacSymbols(i / 16)[i % 16]
  {
    seq(256, i requires 0 <= i < 256 => if i < 162 then UvacSymbols(i / 16)[i % 16] else 0)
  }

  lemma UvacLevels()
    ensures |UVAC_COUNT| == 16
    ensures First(UVAC_COUNT, 1) == 0 && Start(UVAC_COUNT, 1) == 0 && First(UVAC_COUNT, 2) == 0 && Start(UVAC_COUNT, 2) == 0
    ensures First(UVAC_COUNT, 3) == 4 && Start(UVAC_COUNT, 3) == 2 && First(UVAC_COUNT, 4) == 10 && Start(UVAC_COUNT, 4) == 3
    ensures First(UVAC_COUNT, 5) == 24 && Start(UVAC_COUNT, 5) == 5 && First(UVAC_COUNT, 6) == 56 && Start(UVAC_COUNT, 6) == 9
    ensures First(UVAC_COUNT, 7) == 120 && Start(UVAC_COUNT, 7) == 13 && First(UVAC_COUNT, 8) == 246 && Start(UVAC_COUNT, 8) == 16
    ensures First(UVAC_COUNT, 9) == 500 && Start(UVAC_COUNT, 9) == 20 && First(UVAC_COUNT, 10) == 1014 && Start(UVAC_COUNT, 10) == 27
    ensures First(UVAC_COUNT, 11) == 2038 && Start(UVAC_COUNT, 11) == 32 && First(UVAC_COUNT, 12) == 4084 && Start(UVAC_COUNT, 12) == 36
    ensures First(UVAC_COUNT, 13) == 8176 && Start(UVAC_COUNT, 13) == 40 && First(UVAC_COUNT, 14) == 16352 && Start(UVAC_COUNT, 14) == 40
    ensures First(UVAC_COUNT, 15) == 32706 && Start(UVAC_COUNT, 15) == 41 && First(UVAC_COUNT, 16) == 65416 && Start(UVAC_COUNT, 16) == 43
  {
  }

  lemma UvacRun0() ensures Run(UVAC_COUNT, UvacValues(), 0, UVAC_0) { UvacLevels(); hide First, Start, UvacValues; }
  lemma UvacRun1() ensures Run(UVAC_COUNT, UvacValues(), 1, UVAC_1) { UvacLevels(); hide First, Start, UvacValues; }
  lemma UvacRun2() ensures Run(UVAC_COUNT, UvacValues(), 2, UVAC_2) { UvacLevels(); hide First, Start, UvacValues; }
  lemma UvacRun3() ensures Run(UVAC_COUNT, UvacValues(), 3, UVAC_3) { UvacLevels(); hide First, Start, UvacValues; }
  lemma UvacRun4() ensures Run(UVAC_COUNT, UvacValues(), 4, UVAC_4) { UvacLevels(); hide First, Start, UvacValues; }
  lemma UvacRun5() ensures Run(UVAC_COUNT, UvacValues(), 5, UVAC_5) { UvacLevels(); hide First, Start, UvacValues; }
  lemma UvacRun6() ensures Run(UVAC_COUNT, UvacValues(), 6, UVAC_6) { UvacLevels(); hide First, Start, UvacValues; }
  lemma UvacRun7() ensures Run(UVAC_COUNT, UvacValues(), 7, UVAC_7) { UvacLevels(); hide First, Start, UvacValues; }
  lemma UvacRun8() ensures Run(UVAC_COUNT, UvacValues(), 8, UVAC_8) { UvacLevels(); hide First, Start, UvacValues; }
  lemma UvacRun9() ensures Run(UVAC_COUNT, UvacValues(), 9, UVAC_9) { UvacLevels(); hide First, Start, UvacValues; }
  lemma UvacRun10() ensures Run(UVAC_COUNT, UvacValues(), 10, UVAC_10) { UvacLevels(); hide First, Start, UvacValues; }
  lemma UvacRun11() ensures Run(UVAC_COUNT, UvacValues(), 11, UVAC_11) { UvacLevels(); hide First, Start, UvacValues; }
  lemma UvacRun12() ensures Run(UVAC_COUNT, UvacValues(), 12, UVAC_12) { UvacLevels(); hide First, Start, UvacValues; }
  lemma UvacRun13() ensures Run(UVAC_COUNT, UvacValues(), 13, UVAC_13) { UvacLevels(); hide First, Start, UvacValues; }
  lemma UvacRun14() ensures Run(UVAC_COUNT, UvacValues(), 14, UVAC_14) { UvacLevels(); hide First, Start, UvacValues; }
  lemma UvacRun15() ensures Run(UVAC_COUNT, UvacValues(), 15, UVAC_15) { UvacLevels(); hide First, Start, UvacValues; }

  lemma UvacRuns(r: nat)
    requires r < 16
    ensures Run(UVAC_COUNT, UvacValues(), r, UvacRow(r))
  {
    hide Run, UvacValues;
    match r
    case 0 => UvacRun0(); case 1 => UvacRun1(); case 2 => UvacRun2(); case 3 => UvacRun3();
    case 4 => UvacRun4(); case 5 => UvacRun5(); case 6 => UvacRun6(); case 7 => UvacRun7();
    case 8 => UvacRun8(); case 9 => UvacRun9(); case 10 => UvacRun10(); case 11 => UvacRun11();
    case 12 => UvacRun12(); case 13 => UvacRun13(); case 14 => UvacRun14(); case _ => UvacRun15();
  }

  lemma UvacFits()
    ensures |Sizes(UVAC_COUNT, 16)| == 162 && Huffman.Realizable(Sizes(UVAC_COUNT, 16))
  {
    UvacLevels();
    hide First;
    SizesAt(UVAC_COUNT, 17);
    hide Sizes;
    CountsFit(UVAC_COUNT);
  }

  function Uvac(): (ht: Table)
    ensures forall i: nat :: i < 256 && i % 16 < 11 ==> ht[i] == UvacRow(i / 16)[i % 16]
  {
    var ht := seq(256, i requires 0 <= i < 256 => if i % 16 < 11 then UvacRow(i / 16)[i % 16] else (0, 0));
    UvacBounded(ht);
    ht
  }

  lemma UvacBounded(ht: seq<(nat, nat)>)
    requires |ht| == 256
    requires forall i :: 0 <= i < 256 ==> ht[i] == if i % 16 < 11 then UvacRow(i / 16)[i % 16] else (0, 0)
    ensures forall i :: 0 <= i < 256 ==> Bounded(ht[i])
  {
    hide UvacRow, UvacValues, Run, Sizes, Huffman.Realizable, Bounded;
    UvacFits();
    NoCode();
    forall i | 0 <= i < 256
      ensures Bounded(ht[i])
    {
      UvacRuns(i / 16);
      if i % 16 < 11 { RunBounded(UVAC_COUNT, UvacValues(), i / 16, UvacRow(i / 16), i % 16); }
    }
  }

  lemma UvacCovers()
    ensures var c := Code(Sizes(UVAC_COUNT, 16), UvacValues()); IsCode(c) && Covers(c, Uvac(), 10)
  {
    hide UvacRow, UvacValues, Run, Sizes, Uvac, Huffman.Realizable, Covers;
    UvacFits();
    forall r: nat | r < 16
      ensures Run(UVAC_COUNT, UvacValues(), r, UvacRow(r))
    {
      UvacRuns(r);
    }
    RunsCover(UVAC_COUNT, UvacValues(), Uvac(), UvacRow);
  }

  // ----- DC tables

  // The symbols of a DC table are the categories themselves.
  function Categories(): (values: seq<byte>)
    ensures |values| == 256 && forall i :: 0 <= i < 12 ==> values[i] == i
  {
    seq(256, i requires 0 <= i < 256 => if i < 12 then i else 0)
  }

  predicate Categorized(count: seq<nat>, row: seq<(nat, nat)>)
    requires |count| == 16 && |row| == 12
  {
    Canonical(count, Categories(), 0, row[0]) && Canonical(count, Categories(), 1, row[1]) &&
    Canonical(count, Categories(), 2, row[2]) && Canonical(count, Categories(), 3, row[3]) &&
    Canonical(count, Categories(), 4, row[4]) && Canonical(count, Categories(), 5, row[5]) &&
    Canonical(count, Categories(), 6, row[6]) && Canonical(count, Categories(), 7, row[7]) &&
    Canonical(count, Categories(), 8, row[8]) && Canonical(count, Categories(), 9, row[9]) &&
    Canonical(count, Categories(), 10, row[10]) && Canonical(count, Categories(), 11, row[11])
  }

  lemma CategoryAt(count: seq<nat>, row: seq<(nat, nat)>, n: nat)
    requires |count| == 16 && |row| == 12 && Categorized(count, row) && n < 12
    ensures Canonical(count, Categories(), n, row[n])
  {
    hide Canonical, Categories;
  }

  function DcTable(row: seq<(nat, nat)>): (ht: Table)
    requires |row| == 12 && forall i :: 0 <= i < 12 ==> Bounded(row[i])
    ensures forall i :: 0 <= i < 12 ==> ht[i] == row[i]
  {
    NoCode();
    var ht := seq(256, i requires 0 <= i < 256 => if i < 12 then row[i] else (0, 0));
    assert forall i :: 0 <= i < 256 ==> Bounded(ht[i]);
    ht
  }

  lemma DcBounded(count: seq<nat>, row: seq<(nat, nat)>)
    requires |count| == 16 && |row| == 12 && Categorized(count, row) && Huffman.Realizable(Sizes(count, 16))
    ensures forall i :: 0 <= i < 12 ==> Bounded(row[i])
  {
    hide Canonical, Categories, Categorized, Sizes, Huffman.Realizable;
    forall i | 0 <= i < 12
      ensures Bounded(row[i])
    {
      CategoryAt(count, row, i);
      CanonicalBounded(count, Categories(), i, row[i]);
    }
  }

  lemma DcTableCovers(count: seq<nat>, row: seq<(nat, nat)>)
    requires |count| == 16 && |row| == 12 && Categorized(count, row) && Huffman.Realizable(Sizes(count, 16))
    requires |Sizes(count, 16)| <= 256
    ensures (forall i :: 0 <= i < 12 ==> Bounded(row[i])) && DcCovers(Code(Sizes(count, 16), Categories()), DcTable(row), 11)
  {
    hide Canonical, Categories, Categorized, Sizes, Huffman.Realizable, Has, Bounded;
    DcBounded(count, row);
    forall n: byte | n <= 11
      ensures Has(Code(Sizes(count, 16), Categories()), DcTable(row), n)
    {
      CategoryAt(count, row, n);
      CanonicalHas(count, Categories(), DcTable(row), n);
    }
  }

  // ----- luminance, DC

  const YDC_COUNT: seq<nat> := [0, 1, 5, 1, 1, 1, 1, 1, 1, 0, 0, 0, 0, 0, 0, 0]

  const YDC_ROW: seq<(nat, nat)> := [(0, 2), (2, 3), (3, 3), (4, 3), (5, 3), (6, 3), (14, 4), (30, 5), (62, 6), (126, 7), (254, 8), (510, 9)]

  lemma YdcLevels()
    ensures |YDC_COUNT| == 16
    ensures First(YDC_COUNT, 1) == 0 && Start(YDC_COUNT, 1) == 0 && First(YDC_COUNT, 2) == 0 && Start(YDC_COUNT, 2) == 0
    ensures First(YDC_COUNT, 3) == 2 && Start(YDC_COUNT, 3) == 1 && First(YDC_COUNT, 4) == 14 && Start(YDC_COUNT, 4) == 6
    ensures First(YDC_COUNT, 5) == 30 && Start(YDC_COUNT, 5) == 7 && First(YDC_COUNT, 6) == 62 && Start(YDC_COUNT, 6) == 8
    ensures First(YDC_COUNT, 7) == 126 && Start(YDC_COUNT, 7) == 9 && First(YDC_COUNT, 8) == 254 && Start(YDC_COUNT, 8) == 10
    ensures First(YDC_COUNT, 9) == 510 && Start(YDC_COUNT, 9) == 11 && First(YDC_COUNT, 10) == 1022 && Start(YDC_COUNT, 10) == 12
    ensures First(YDC_COUNT, 11) == 2044 && Start(YDC_COUNT, 11) == 12 && First(YDC_COUNT, 12) == 4088 && Start(YDC_COUNT, 12) == 12
    ensures First(YDC_COUNT, 13) == 8176 && Start(YDC_COUNT, 13) == 12 && First(YDC_COUNT, 14) == 16352 && Start(YDC_COUNT, 14) == 12
    ensures First(YDC_COUNT, 15) == 32704 && Start(YDC_COUNT, 15) == 12 && First(YDC_COUNT, 16) == 65408 && Start(YDC_COUNT, 16) == 12
  {
  }

  lemma YdcFits()
    ensures |Sizes(YDC_COUNT, 16)| == 12 && Huffman.Realizable(Sizes(YDC_COUNT, 16))
  {
    YdcLevels();
    hide First;
    SizesAt(YDC_COUNT, 17);
    hide Sizes, Start;
    CountsFit(YDC_COUNT);
  }

  lemma YdcCanonical()
    ensures Categorized(YDC_COUNT, YDC_ROW)
  {
    YdcLevels();
    hide First, Start, Categories;
  }

  // ----- chrominance, DC

  const UVDC_COUNT: seq<nat> := [0, 3, 1, 1, 1, 1, 1, 1, 1, 1, 1, 0, 0, 0, 0, 0]

  const UVDC_ROW: seq<(nat, nat)> := [(0, 2), (1, 2), (2, 2), (6, 3), (14, 4), (30, 5), (62, 6), (126, 7), (254, 8), (510, 9), (1022, 10), (2046, 11)]

  lemma UvdcLevels()
    ensures |UVDC_COUNT| == 16
    ensures First(UVDC_COUNT, 1) == 0 && Start(UVDC_COUNT, 1) == 0 && First(UVDC_COUNT, 2) == 0 && Start(UVDC_COUNT, 2) == 0
    ensures First(UVDC_COUNT, 3) == 6 && Start(UVDC_COUNT, 3) == 3 && First(UVDC_COUNT, 4) == 14 && Start(UVDC_COUNT, 4) == 4
    ensures First(UVDC_COUNT, 5) == 30 && Start(UVDC_COUNT, 5) == 5 && First(UVDC_COUNT, 6) == 62 && Start(UVDC_COUNT, 6) == 6
    ensures First(UVDC_COUNT, 7) == 126 && Start(UVDC_COUNT, 7) == 7 && First(UVDC_COUNT, 8) == 254 && Start(UVDC_COUNT, 8) == 8
    ensures First(UVDC_COUNT, 9) == 510 && Start(UVDC_COUNT, 9) == 9 && First(UVDC_COUNT, 10) == 1022 && Start(UVDC_COUNT, 10) == 10
    ensures First(UVDC_COUNT, 11) == 2046 && Start(UVDC_COUNT, 11) == 11 && First(UVDC_COUNT, 12) == 4094 && Start(UVDC_COUNT, 12) == 12
    ensures First(UVDC_COUNT, 13) == 8188 && Start(UVDC_COUNT, 13) == 12 && First(UVDC_COUNT, 14) == 16376 && Start(UVDC_COUNT, 14) == 12
    ensures First(UVDC_COUNT, 15) == 32752 && Start(UVDC_COUNT, 15) == 12 && First(UVDC_COUNT, 16) == 65504 && Start(UVDC_COUNT, 16) == 12
  {
  }

  lemma UvdcFits()
    ensures |Sizes(UVDC_COUNT, 16)| == 12 && Huffman.Realizable(Sizes(UVDC_COUNT, 16))
  {
    UvdcLevels();
    hide First;
    SizesAt(UVDC_COUNT, 17);
    hide Sizes, Start;
    CountsFit(UVDC_COUNT);
  }

  lemma UvdcCanonical()
    ensures Categorized(UVDC_COUNT, UVDC_ROW)
  {
    UvdcLevels();
    hide First, Start, Categories;
  }

  // ----- the round trip with these tables

  lemma LuminanceFits()
    ensures |YDC_COUNT| == |YAC_COUNT| == 16 && |YDC_ROW| == 12 && forall i :: 0 <= i < 12 ==> Bounded(YDC_ROW[i])
    ensures Fits(Code(Sizes(YDC_COUNT, 16), Categories()), DcTable(YDC_ROW), Code(Sizes(YAC_COUNT, 16), YacValues()), Yac(), 11, 10)
  {
    hide Sizes, Huffman.Realizable, Categories, YacValues, Yac, Covers, DcCovers, Canonical, Categorized, Bounded;
    YdcFits();
    YdcCanonical();
    DcTableCovers(YDC_COUNT, YDC_ROW);
    YacFits();
    YacCovers();
  }

  lemma ChrominanceFits()
    ensures |UVDC_COUNT| == |UVAC_COUNT| == 16 && |UVDC_ROW| == 12 && forall i :: 0 <= i < 12 ==> Bounded(UVDC_ROW[i])
    ensures Fits(Code(Sizes(UVDC_COUNT, 16), Categories()), DcTable(UVDC_ROW), Code(Sizes(UVAC_COUNT, 16), UvacValues()), Uvac(), 11, 10)
  {
    hide Sizes, Huffman.Realizable, Categories, UvacValues, Uvac, Covers, DcCovers, Canonical, Categorized, Bounded;
    UvdcFits();
    UvdcCanonical();
    DcTableCovers(UVDC_COUNT, UVDC_ROW);
    UvacFits();
    UvacCovers();
  }

  function Luminance(): Coding { Coding(DcTable(YDC_ROW), Yac()) }

  function Chrominance(): Coding { Coding(DcTable(UVDC_ROW), Uvac()) }

  // The components in the order the encoder writes them: four blocks of luminance to one of each colour difference when it
  // halves their resolution, as many of each otherwise.
  function Interleaved(subsampled: bool): Scan {
    Scan(Luminance(), Chrominance(), if subsampled then [0, 0, 0, 0, 1, 2] else [0, 1, 2])
  }

  // What the encoder writes with its own tables, the decoder reads back once it has built its tables from the header: every
  // scan whose DC differences, each from the last block of the same component, need at most 11 bits and whose AC
  // coefficients at most 10.
  method ScanRoundTrip(sc: Scan, blocks: seq<Coefs>, fast: bool) returns (ok: bool, got: seq<seq<int>>)
    requires sc.y == Luminance() && sc.uv == Chrominance() && Chained(sc, blocks) && Writable(sc, blocks, 11, 10)
    ensures ok && |got| == |blocks| && forall k :: 0 <= k < |blocks| ==> got[k] == blocks[k]
  {
    BothFit(sc);
    hide *;
    ok, got := RoundTrip(sc, blocks, Header(YDC_COUNT, Categories(), YAC_COUNT, YacValues()),
      Header(UVDC_COUNT, Categories(), UVAC_COUNT, UvacValues()), fast, 11, 10);
  }

  lemma BothFit(sc: Scan)
    requires sc.y == Luminance() && sc.uv == Chrominance()
    ensures var y, uv := Header(YDC_COUNT, Categories(), YAC_COUNT, YacValues()), Header(UVDC_COUNT, Categories(), UVAC_COUNT, UvacValues());
      y.Valid() && uv.Valid() && Fitting(sc, y.AsCodes(), uv.AsCodes(), 11, 10)
  {
    LuminanceFits();
    ChrominanceFits();
    hide Fits, Sizes, Categories, YacValues, UvacValues, Yac, Uvac, DcTable;
  }

  // The scan of a colour image.
  method InterleavedRoundTrip(blocks: seq<Coefs>, subsampled: bool, fast: bool) returns (ok: bool, got: seq<seq<int>>)
    requires Chained(Interleaved(subsampled), blocks) && Writable(Interleaved(subsampled), blocks, 11, 10)
    ensures ok && |got| == |blocks| && forall k :: 0 <= k < |blocks| ==> got[k] == blocks[k]
  {
    hide Chained, Writable, Luminance, Chrominance;
    ok, got := ScanRoundTrip(Interleaved(subsampled), blocks, fast);
  }
}
