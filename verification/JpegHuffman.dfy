// `stbi__huffman`: JPEG's Huffman tables (ITU-T T.81 Annex C), their 9-bit look-up table, and the combined table `fast_ac`.

module JpegHuffman {
  import opened BitStream
  import opened Huffman
  import opened Wrappers

  const FAST_BITS := 9

  // ----- the lengths of the codes, in order

  function Sizes(count: seq<nat>, n: nat): (lens: seq<nat>)
    requires n <= |count|
  {
    if n == 0 then [] else Sizes(count, n - 1) + seq(count[n - 1], i => n)
  }

  // Lengths that never decrease; every symbol is used.
  ghost predicate Ascending(lens: seq<nat>) {
    (forall i :: 0 <= i < |lens| ==> 1 <= lens[i] <= 16) && forall i, j :: 0 <= i <= j < |lens| ==> lens[i] <= lens[j]
  }

  lemma {:induction false} SizesAscending(count: seq<nat>, n: nat)
    requires n <= |count| <= 16
    ensures Ascending(Sizes(count, n)) && forall i :: 0 <= i < |Sizes(count, n)| ==> Sizes(count, n)[i] <= n
  {
    if n > 0 { SizesAscending(count, n - 1); }
  }

  lemma {:induction false} SizesPrefix(count: seq<nat>, n: nat, m: nat)
    requires n <= m <= |count|
    ensures Sizes(count, n) <= Sizes(count, m)
    decreases m
  {
    if n < m { SizesPrefix(count, n, m - 1); }
  }

  // ----- sorted lengths: a symbol's rank is its index

  lemma {:induction false} UsedBelowAll(lens: seq<nat>, l: nat, n: nat)
    requires n <= |lens| && forall i :: 0 <= i < n ==> 0 < lens[i] < l
    ensures UsedBelow(lens, l, n) == n
    decreases n
  {
    if n > 0 {
      UsedBelowAll(lens, l, n - 1);
      UsedBelowStep(lens, l, n);
    } else {
      UsedBelowNone(lens, l);
    }
  }

  lemma {:induction false} UsedBelowStop(lens: seq<nat>, l: nat, n: nat, m: nat)
    requires n <= m <= |lens| && forall i :: n <= i < m ==> lens[i] >= l
    ensures UsedBelow(lens, l, m) == UsedBelow(lens, l, n)
    decreases m
  {
    if n < m {
      UsedBelowStop(lens, l, n, m - 1);
      UsedBelowStep(lens, l, m);
    }
  }

  lemma RankSorted(lens: seq<nat>, n: nat)
    requires Ascending(lens) && n < |lens|
    ensures Rank(lens, n) == n && FirstRank(lens, lens[n]) <= n < FirstRank(lens, lens[n] + 1)
  {
    var l := lens[n];
    UsedBelowAll(lens, l + 1, n);
    FirstRankIsUsedBelow(lens, l);
    UsedBelowStop(lens, l, n, |lens|);
    CountStrict(lens, n, |lens|);
  }

  // The symbols of length `l` are those from its first rank to the next one's.
  lemma LengthAt(lens: seq<nat>, k: nat, l: nat)
    requires Ascending(lens) && k < |lens| && l > 0
    ensures FirstRank(lens, l) <= k < FirstRank(lens, l + 1) <==> lens[k] == l
  {
    RankSorted(lens, k);
    if lens[k] < l {
      FirstRankMonotone(lens, lens[k] + 1, l);
    } else if lens[k] > l {
      FirstRankMonotone(lens, l + 1, lens[k]);
    }
  }

  lemma FirstRankAll(lens: seq<nat>, l: nat)
    ensures FirstRank(lens, l) <= |lens|
    ensures Ascending(lens) && l == 17 ==> FirstRank(lens, l) == |lens|
  {
    FirstRankIsUsedBelow(lens, l);
    UsedBelowBound(lens, l, |lens|);
    if Ascending(lens) && l == 17 { UsedBelowAll(lens, l, |lens|); }
  }

  lemma CodeSorted(lens: seq<nat>, n: nat)
    requires Ascending(lens) && n < |lens|
    ensures Code(lens, n) == FirstCode(lens, lens[n]) + (n - FirstRank(lens, lens[n]))
  {
    RankSorted(lens, n);
  }

  // ----- the tables

  // The nine bits `c` begin with symbol `m`'s codeword.
  ghost predicate Hit(lens: seq<nat>, m: nat, c: nat)
    requires m < |lens|
  {
    0 < lens[m] <= 9 && Div(c, Pow2(9 - lens[m])) == Code(lens, m)
  }

  // What entry `e` for the bits `c` says once the first `n` symbols are entered; 255 says nothing.
  ghost predicate FastOk(lens: seq<nat>, n: nat, c: nat, e: nat)
    requires n <= |lens|
  {
    (e == 255 && forall m :: 0 <= m < n ==> !Hit(lens, m, c)) || exists m :: 0 <= m < n && Hit(lens, m, c) && e == m
  }

  // ----- what a look-up finds

  lemma HitIsMatch(lens: seq<nat>, s: seq<bool>, p: nat, m: nat)
    requires Realizable(lens) && m < |lens|
    ensures Hit(lens, m, Value(s, p, 9)) <==> lens[m] <= 9 && Matches(lens, s, p, m)
  {
    if 0 < lens[m] <= 9 {
      ValueShorter(s, p, lens[m], 9);
      MatchesByValue(lens, s, p, m);
    }
  }

  // 255 flags an entry that is not accelerated, so a symbol with that number must not have a short code.
  ghost predicate Usable(lens: seq<nat>) { |lens| < 256 || lens[255] > 9 }

  // What decoding takes from the stream: a symbol's index and its bits.
  datatype Got = Got(index: nat, bits: nat)

  // What the tables make of the next bits: the symbol whose codeword they begin with, save that a short codeword of symbol
  // 255 falls through to the search among longer codes.
  ghost function Read(lens: seq<nat>, s: seq<bool>, p: nat): (r: Option<Got>)
    requires |lens| <= 256
    ensures r.Some? ==> r.value.index < 256 && r.value.bits > 0
  {
    match Symbol(lens, s, p)
    case None => None
    case Some(n) => if n == 255 && lens[255] <= 9 then Misread(lens, s, p) else Some(Got(n, lens[n]))
  }

  ghost function Misread(lens: seq<nat>, s: seq<bool>, p: nat): Option<Got> {
    var c := Value(s, p, 10) + (FirstRank(lens, 10) - FirstCode(lens, 10));
    if 0 <= c < 256 then Some(Got(c, 10)) else None
  }

  // Reading is canonical decoding exactly when the symbol is not the flag with a short codeword.
  lemma ReadExact(lens: seq<nat>, s: seq<bool>, p: nat)
    requires |lens| <= 256
    ensures var n := Symbol(lens, s, p);
      (n.Some? ==> n.value < |lens|) &&
      (Read(lens, s, p) == (if n.None? then None else Some(Got(n.value, lens[n.value]))) <==>
       !(n == Some(255) && lens[255] <= 9))
  {
    hide Symbol;
  }

  // One code of eight bits and 255 of nine.
  const FULL_COUNT: seq<nat> := Repeat(0, 7) + [1, 255] + Repeat(0, 7)
  const FULL: seq<nat> := [8] + Repeat(9, 255)

  // A header with these counts is sound, and yet symbol 255's codeword is read as symbol 254 with a bit too many.
  lemma FlagMisread()
    ensures Sizes(FULL_COUNT, 16) == FULL && Realizable(FULL) && |FULL| == 256
    ensures Symbol(FULL, [true], 0) == Some(255) && Read(FULL, [true], 0) == Some(Got(254, 10))
  {
    hide *;
    FullSizes();
    FullIs();
    FullCodes();
    TopBit(9);
    TopBit(10);
    Powers();
    MatchesByValue(FULL, [true], 0, 255);
    SymbolIs(FULL, [true], 0, 255);
    ReadFlag(FULL, [true], 0);
  }

  lemma FullIs()
    ensures |FULL| == 256 && FULL[0] == 8 && (forall i :: 1 <= i < 256 ==> FULL[i] == 9) && Realizable(FULL) && Ascending(FULL)
  {
    hide Kraft;
    FullKraft(256);
    Pow2Small();
  }

  lemma Powers()
    ensures Pow2(8) == 256 && Pow2(9) == 512
  {
  }

  lemma ReadFlag(lens: seq<nat>, s: seq<bool>, p: nat)
    requires |lens| == 256 && lens[255] <= 9 && Symbol(lens, s, p) == Some(255)
    ensures var c := Value(s, p, 10) + (FirstRank(lens, 10) - FirstCode(lens, 10));
      Read(lens, s, p) == if 0 <= c < 256 then Some(Got(c, 10)) else None
  {
    hide Symbol, Value, FirstRank, FirstCode;
  }

  lemma FullSizes()
    ensures Sizes(FULL_COUNT, 16) == FULL
  {
    SizesNone(FULL_COUNT, 0, 7);
    SizesNone(FULL_COUNT, 9, 16);
    assert Sizes(FULL_COUNT, 8) == Sizes(FULL_COUNT, 7) + seq(1, i => 8);
    assert Sizes(FULL_COUNT, 9) == Sizes(FULL_COUNT, 8) + seq(255, i => 9);
  }

  lemma {:induction false} SizesNone(count: seq<nat>, a: nat, b: nat)
    requires a <= b <= |count| && forall i :: a <= i < b ==> count[i] == 0
    ensures Sizes(count, b) == Sizes(count, a)
    decreases b
  {
    if a < b { SizesNone(count, a, b - 1); }
  }

  lemma {:induction false} FullKraft(n: nat)
    requires 1 <= n <= 256
    ensures WithinWord(FULL) && Kraft(FULL, n) == 128 + 128 * n
  {
    Pow2Small();
    if n == 1 { assert Kraft(FULL, 0) == 0; } else { FullKraft(n - 1); }
  }

  lemma {:induction false} FullCount(l: nat, n: nat)
    requires 1 <= n <= 256
    ensures Count(FULL, l, n) == if l == 8 then 1 else if l == 9 then n - 1 else 0
  {
    if n == 1 { assert Count(FULL, l, 0) == 0; } else { FullCount(l, n - 1); }
  }

  lemma {:induction false} FullFirst(l: nat)
    requires l <= 10
    ensures FirstCode(FULL, l) == if l <= 8 then 0 else if l == 9 then 2 else 514
    ensures FirstRank(FULL, l) == if l <= 8 then 0 else if l == 9 then 1 else 256
  {
    if l > 0 {
      FullFirst(l - 1);
      FullCount(l - 1, 256);
    }
  }

  lemma FullCodes()
    ensures Code(FULL, 255) == 256 && FirstCode(FULL, 10) == 514 && FirstRank(FULL, 10) == 256
  {
    hide FirstCode, FirstRank, Count;
    FullFirst(9);
    FullFirst(10);
    FullCount(9, 255);
  }

  lemma TopBit(n: nat)
    requires n >= 1
    ensures Value([true], 0, n) == Pow2(n - 1)
  {
    hide Nat;
    var zeros := Window([true], 1, n - 1);
    ZeroWindow([true], 1, n - 1);
    TopFirst(n);
    NatConcat(zeros, [true]);
    OneBit();
  }

  lemma OneBit()
    ensures Nat([true]) == 1
  {
    assert [true][1..] == [];
  }

  lemma TopFirst(n: nat)
    requires n >= 1
    ensures Rev(Window([true], 0, n)) == Window([true], 1, n - 1) + [true]
  {
    var zeros, r := Window([true], 1, n - 1), Rev(Window([true], 0, n));
    forall i | 0 <= i < n
      ensures r[i] == (zeros + [true])[i]
    {
      assert r[i] == At([true], n - 1 - i);
    }
  }

  // A symbol the look-up table has.
  lemma ReadShort(lens: seq<nat>, s: seq<bool>, p: nat, n: nat)
    requires Realizable(lens) && |lens| <= 256 && Matches(lens, s, p, n) && n < 255
    ensures Symbol(lens, s, p) == Some(n) && Read(lens, s, p) == Some(Got(n, lens[n]))
  {
    SymbolIs(lens, s, p, n);
  }

  // With no codes above nine bits no limit is above the ninth.
  lemma {:induction false} LimitFlat(lens: seq<nat>, k: nat)
    requires 9 <= k <= 16 && forall i :: 0 <= i < |lens| ==> lens[i] <= 9
    ensures Limit(lens, k) == Limit(lens, 9)
    decreases k
  {
    if k > 9 {
      LimitFlat(lens, k - 1);
      CountAbsent(lens, k, |lens|);
      LimitBefore(lens, k);
    }
  }

  // The search among the longer codes: the first length whose limit is above the next sixteen bits.
  lemma SlowRead(lens: seq<nat>, s: seq<bool>, p: nat, k: nat)
    requires Realizable(lens) && Ascending(lens) && |lens| <= 256 && 10 <= k <= 16
    requires forall m: nat :: Matches(lens, s, p, m) ==> lens[m] > 9 || m == 255
    requires (forall j :: 10 <= j < k ==> Limit(lens, j) <= Value(s, p, 16)) && Value(s, p, 16) < Limit(lens, k)
    ensures var c := Value(s, p, k) + (FirstRank(lens, k) - FirstCode(lens, k));
      Read(lens, s, p) == if 0 <= c < 256 then Some(Got(c, k)) else None
  {
    if Usable(lens) { SlowLong(lens, s, p, k); } else { SlowFlag(lens, s, p, k); }
  }

  lemma SlowLong(lens: seq<nat>, s: seq<bool>, p: nat, k: nat)
    requires Usable(lens) && Realizable(lens) && Ascending(lens) && |lens| <= 256 && 10 <= k <= 16
    requires forall m: nat :: Matches(lens, s, p, m) ==> lens[m] > 9 || m == 255
    requires (forall j :: 10 <= j < k ==> Limit(lens, j) <= Value(s, p, 16)) && Value(s, p, 16) < Limit(lens, k)
    ensures var c := Value(s, p, k) + (FirstRank(lens, k) - FirstCode(lens, k));
      0 <= c < 256 && Read(lens, s, p) == Some(Got(c, k))
  {
    assert forall m: nat :: Matches(lens, s, p, m) ==> lens[m] > 9;
    var n := SlowLookup(lens, s, p, k);
    RankSorted(lens, n);
    SymbolIs(lens, s, p, n);
  }

  // All codes are short, and the one that comes next is the flag's.
  lemma SlowFlag(lens: seq<nat>, s: seq<bool>, p: nat, k: nat)
    requires !Usable(lens) && Realizable(lens) && Ascending(lens) && |lens| <= 256 && 10 <= k <= 16
    requires forall m: nat :: Matches(lens, s, p, m) ==> lens[m] > 9 || m == 255
    requires (forall j :: 10 <= j < k ==> Limit(lens, j) <= Value(s, p, 16)) && Value(s, p, 16) < Limit(lens, k)
    ensures k == 10 && Read(lens, s, p) == Misread(lens, s, p)
  {
    assert forall i :: 0 <= i < |lens| ==> lens[i] <= lens[255] <= 9;
    LimitFlat(lens, 10);
    LimitFlat(lens, k);
    hide Limit, Misread, Realizable, Ascending;
    var l := LengthOf(lens, s, p, 9);
    var n := SymbolInInterval(lens, s, p, l);
    SymbolIs(lens, s, p, n);
  }

  lemma SlowNone(lens: seq<nat>, s: seq<bool>, p: nat)
    requires Realizable(lens) && |lens| <= 256
    requires forall k :: 10 <= k <= 16 ==> Limit(lens, k) <= Value(s, p, 16)
    requires forall m: nat :: Matches(lens, s, p, m) ==> lens[m] > 9 || m == 255
    ensures Read(lens, s, p) == None
  {
    forall m: nat | Matches(lens, s, p, m)
      ensures lens[m] > 9
    {
      MatchInterval(lens, s, p, m);
      if lens[m] <= 9 { LimitMonotone(lens, lens[m], 10); }
    }
    LongMiss(lens, s, p);
  }

  lemma FastLookup(lens: seq<nat>, s: seq<bool>, p: nat, e: byte)
    requires Realizable(lens) && |lens| <= 256 && FastOk(lens, |lens|, Value(s, p, 9), e)
    ensures e < 255 ==> Matches(lens, s, p, e) && lens[e] <= 9
    ensures e == 255 ==> forall m: nat :: Matches(lens, s, p, m) ==> lens[m] > 9 || m == 255
  {
    if e < 255 {
      HitIsMatch(lens, s, p, e);
    } else {
      forall m: nat | Matches(lens, s, p, m) && m != 255
        ensures lens[m] > 9
      {
        HitIsMatch(lens, s, p, m);
        if Hit(lens, m, Value(s, p, 9)) && Hit(lens, 255, Value(s, p, 9)) {
          HitIsMatch(lens, s, p, 255);
          MatchUnique(lens, s, p, m, 255);
        }
      }
    }
  }

  lemma LongMiss(lens: seq<nat>, s: seq<bool>, p: nat)
    requires Realizable(lens)
    requires forall m: nat :: Matches(lens, s, p, m) ==> lens[m] > 9
    requires forall k :: 10 <= k <= 16 ==> Limit(lens, k) <= Value(s, p, 16)
    ensures Symbol(lens, s, p) == None
  {
    if n: nat :| Matches(lens, s, p, n) {
      MatchInterval(lens, s, p, n);
    }
  }

  class StbiHuffman {
    const fast: array<byte>
    const code: array<nat>
    const values: array<byte>
    const size: array<nat>
    const maxcode: array<nat>
    const delta: array<int>

    ghost predicate Valid() {
      fast.Length == 512 && code.Length == 256 && values.Length == 256 && size.Length == 257 && maxcode.Length == 18 &&
      delta.Length == 17 && fast != values && code != size && code != maxcode && size != maxcode
    }

    constructor ()
      ensures Valid() && fresh(fast) && fresh(code) && fresh(values) && fresh(size) && fresh(maxcode) && fresh(delta)
    {
      fast := new byte[512];
      code := new nat[256];
      values := new byte[256];
      size := new nat[257];
      maxcode := new nat[18];
      delta := new int[17];
    }

    ghost predicate Sized(lens: seq<nat>)
      requires Valid()
      reads size
    {
      |lens| <= 256 && size[|lens|] == 0 && forall k :: 0 <= k < |lens| ==> size[k] == lens[k]
    }

    ghost predicate Coded(lens: seq<nat>, n: nat)
      requires Valid() && n <= |lens|
      reads code
    {
      |lens| <= 256 && forall k :: 0 <= k < n ==> code[k] == Code(lens, k)
    }

    ghost predicate Levels(lens: seq<nat>, l: nat)
      requires Valid() && l <= 17
      reads maxcode, delta
    {
      forall j :: 1 <= j < l ==> maxcode[j] == Limit(lens, j) && delta[j] == FirstRank(lens, j) - FirstCode(lens, j)
    }

    ghost predicate FastUpTo(lens: seq<nat>, n: nat)
      requires Valid() && n <= |lens|
      reads fast
    {
      forall c :: 0 <= c < 512 ==> FastOk(lens, n, c, fast[c])
    }

    ghost predicate Tables(lens: seq<nat>)
      requires Valid()
      reads fast, code, size, maxcode, delta
    {
      Realizable(lens) && Ascending(lens) && Sized(lens) && Coded(lens, |lens|) && Levels(lens, 17) &&
      maxcode[17] == UINT_MAX && FastUpTo(lens, |lens|)
    }

    // ----- stbi__build_huffman

    // Accepts the counts exactly when there are no more than 256 codes and a prefix code with these lengths exists.
    method Build(count: seq<nat>) returns (ok: bool)
      requires Valid() && |count| == 16
      modifies fast, code, size, maxcode, delta
      ensures ok <==> |Sizes(count, 16)| <= 256 && Realizable(Sizes(count, 16))
      ensures ok ==> Tables(Sizes(count, 16))
    {
      ghost var lens := Sizes(count, 16);
      SizesAscending(count, 16);
      var k: nat;
      ok, k := ListSizes(count);
      if !ok { return; }
      ok := AssignCodes(lens);
      if !ok { return; }
      maxcode[17] := UINT_MAX;
      FillFast(lens, k);
    }

    method ListSizes(count: seq<nat>) returns (ok: bool, k: nat)
      requires Valid() && |count| == 16
      modifies size
      ensures ok <==> |Sizes(count, 16)| <= 256
      ensures ok ==> Sized(Sizes(count, 16)) && k == |Sizes(count, 16)|
    {
      k := 0;
      for i := 0 to 16
        invariant k == |Sizes(count, i)| <= 256
        invariant forall m :: 0 <= m < k ==> size[m] == Sizes(count, i)[m]
      {
        ghost var was := Sizes(count, i);
        SizesPrefix(count, i + 1, 16);
        for j := 0 to count[i]
          invariant k == |was| + j <= 256
          invariant forall m :: 0 <= m < k ==> size[m] == if m < |was| then was[m] else i + 1
        {
          size[k] := i + 1;
          k := k + 1;
          if k >= 257 { return false, k; }
        }
      }
      size[k] := 0;
      ok := true;
    }

    method AssignCodes(ghost lens: seq<nat>) returns (ok: bool)
      requires Valid() && Ascending(lens) && Sized(lens)
      modifies code, maxcode, delta
      ensures ok <==> Realizable(lens)
      ensures ok ==> Coded(lens, |lens|) && Levels(lens, 17)
    {
      hide Realizable, Code, Coded, Levels, FirstCode, FirstRank, Total, Limit;
      var c: nat, k: nat := 0, 0;
      Start(lens);
      for j := 1 to 17
        invariant c == FirstCode(lens, j) && k == FirstRank(lens, j) <= |lens| && CodesFit(lens, j - 1)
        invariant Coded(lens, k) && Levels(lens, j)
      {
        ok, c, k := AssignLevel(lens, j, c, k);
        if !ok { return; }
      }
      FirstRankAll(lens, 17);
      WordFits(lens);
      ok := true;
    }

    lemma Start(lens: seq<nat>)
      requires Valid() && |lens| <= 256
      ensures FirstCode(lens, 1) == 0 && FirstRank(lens, 1) == 0 && CodesFit(lens, 0) && Coded(lens, 0) && Levels(lens, 1)
    {
      assert FirstCode(lens, 0) == 0 && FirstRank(lens, 0) == 0;
    }

    static lemma WordFits(lens: seq<nat>)
      requires Ascending(lens) && CodesFit(lens, 16)
      ensures Realizable(lens)
    {
      FitsRealizable(lens);
    }

    // One turn of the loop over lengths.
    method AssignLevel(ghost lens: seq<nat>, j: nat, c0: nat, k0: nat) returns (ok: bool, c: nat, k: nat)
      requires Valid() && Ascending(lens) && Sized(lens) && 1 <= j <= 16
      requires c0 == FirstCode(lens, j) && k0 == FirstRank(lens, j) <= |lens| && CodesFit(lens, j - 1)
      requires Coded(lens, k0) && Levels(lens, j)
      modifies code, maxcode, delta
      ensures !ok ==> !Realizable(lens)
      ensures ok ==> c == FirstCode(lens, j + 1) && k == FirstRank(lens, j + 1) <= |lens| && CodesFit(lens, j)
      ensures ok ==> Coded(lens, k) && Levels(lens, j + 1)
    {
      hide Realizable, Code, Limit, FirstCode, FirstRank, Total, Shl;
      c, k := c0, k0;
      FirstRankAll(lens, j + 1);
      LevelStep(lens, j);
      delta[j] := k - c;
      if size[k] == j {
        while size[k] == j
          invariant k0 <= k <= FirstRank(lens, j + 1) && c == c0 + (k - k0)
          invariant Coded(lens, k)
          modifies code
          decreases |lens| - k
        {
          Inside(lens, k, j);
          LengthAt(lens, k, j);
          CodeSorted(lens, k);
          code[k] := c;
          c := c + 1;
          k := k + 1;
        }
        Stops(lens, j, k);
        if c - 1 >= Shl(1, j) {
          return false, c, k;
        }
      } else {
        Stops(lens, j, k);
      }
      maxcode[j] := Shl(c, 16 - j);
      c := Shl(c, 1);
      ok := true;
    }

    lemma Inside(lens: seq<nat>, k: nat, j: nat)
      requires Valid() && Sized(lens) && k <= |lens| && size[k] == j > 0
      ensures k < |lens| && lens[k] == j
    {
    }

    // The first index past those of length `j`.
    lemma Stops(lens: seq<nat>, j: nat, k: nat)
      requires Valid() && Ascending(lens) && Sized(lens) && j > 0
      requires FirstRank(lens, j) <= k <= FirstRank(lens, j + 1) <= |lens| && size[k] != j
      ensures k == FirstRank(lens, j + 1)
    {
      if k < |lens| { LengthAt(lens, k, j); }
    }

    static lemma LevelStep(lens: seq<nat>, j: nat)
      requires 1 <= j <= 16 && CodesFit(lens, j - 1)
      ensures var e := FirstCode(lens, j) + Total(lens, j);
        FirstCode(lens, j + 1) == Shl(e, 1) && Limit(lens, j) == Shl(e, 16 - j) &&
        FirstRank(lens, j + 1) == FirstRank(lens, j) + Total(lens, j) &&
        (Total(lens, j) == 0 ==> CodesFit(lens, j)) && (e > 0 ==> (CodesFit(lens, j) <==> e - 1 < Shl(1, j))) &&
        (!CodesFit(lens, j) ==> !Realizable(lens))
    {
      Pow2Small();
      if Realizable(lens) { RealizableFits(lens, j); }
    }

    // ----- the look-up table

    method FillFast(ghost lens: seq<nat>, k: nat)
      requires Valid() && Realizable(lens) && Ascending(lens) && Sized(lens) && Coded(lens, |lens|) && k == |lens|
      modifies fast
      ensures FastUpTo(lens, |lens|)
    {
      hide Realizable, Ascending, Code, Hit;
      forall c | 0 <= c < 512 { fast[c] := 255; }
      for i := 0 to k
        invariant FastUpTo(lens, i)
      {
        var s := size[i];
        ghost var was := fast[..];
        if s <= FAST_BITS {
          FillRun(lens, i, s);
        } else {
          NoHit(lens, i);
        }
        forall c | 0 <= c < 512
          ensures FastOk(lens, i + 1, c, fast[c])
        {
          assert was[c] == fast[c] || Hit(lens, i, c);
          assert FastOk(lens, i, c, was[c]);
        }
      }
    }

    static lemma NoHit(lens: seq<nat>, i: nat)
      requires i < |lens| && lens[i] > 9
      ensures forall c: nat :: !Hit(lens, i, c)
    {
    }

    // Every entry that begins with the codeword of `i`.
    method FillRun(ghost lens: seq<nat>, i: nat, s: nat)
      requires Valid() && Realizable(lens) && Ascending(lens) && Coded(lens, |lens|) && i < |lens| && lens[i] == s <= 9
      modifies fast
      ensures forall c :: 0 <= c < 512 ==> fast[c] == if Hit(lens, i, c) then i else old(fast[c])
    {
      hide Realizable, Code, Hit;
      Interval(lens, i);
      var c, m := Shl(code[i], FAST_BITS - s), Shl(1, FAST_BITS - s);
      hide Shl;
      for j := 0 to m
        invariant forall e :: 0 <= e < 512 ==> fast[e] == if c <= e < c + j then i else old(fast[e])
      {
        fast[c + j] := i;
      }
    }

    static lemma Interval(lens: seq<nat>, i: nat)
      requires Realizable(lens) && i < |lens| && 0 < lens[i] <= 9
      ensures var c, m := Shl(Code(lens, i), 9 - lens[i]), Shl(1, 9 - lens[i]);
        c + m <= 512 && forall e: nat :: Hit(lens, i, e) <==> c <= e < c + m
    {
      var p, q := Pow2(9 - lens[i]), Code(lens, i);
      CodeBound(lens, i);
      Pow2Add(lens[i], 9 - lens[i]);
      Pow2Small();
      Distribute(q, 1, p);
      Distribute(q + 1, Pow2(lens[i]) - (q + 1), p);
      MulNonNegative(Pow2(lens[i]) - (q + 1), p);
      forall e: nat
        ensures Hit(lens, i, e) <==> q * p <= e < q * p + p
      {
        DivBetween(e, p, q, q + 1);
      }
    }
  }
}
