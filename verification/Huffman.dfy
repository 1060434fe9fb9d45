// Canonical prefix codes as RFC 1951 section 3.2.2 defines them, from a list of code lengths,
// and the facts about them that a table-driven decoder rests on.

module Huffman {
  import opened BitStream
  import opened Wrappers

  // ----- definitions

  ghost predicate IsLengths(lens: seq<nat>) {
    forall i :: 0 <= i < |lens| ==> lens[i] <= 15
  }

  // JPEG's codes may be one bit longer than DEFLATE's.
  ghost predicate WithinWord(lens: seq<nat>) {
    forall i :: 0 <= i < |lens| ==> lens[i] <= 16
  }

  // How many of the first `n` symbols have length `l`.
  ghost function Count(lens: seq<nat>, l: nat, n: nat): nat
    requires n <= |lens|
  {
    if n == 0 then 0 else Count(lens, l, n - 1) + (if lens[n - 1] == l then 1 else 0)
  }

  // Symbols with length `l`; length 0 means "not used" and is never counted.
  ghost function Total(lens: seq<nat>, l: nat): nat {
    if l == 0 then 0 else Count(lens, l, |lens|)
  }

  // The first code of length `l`.
  ghost function FirstCode(lens: seq<nat>, l: nat): nat {
    if l == 0 then 0 else 2 * (FirstCode(lens, l - 1) + Total(lens, l - 1))
  }

  ghost function Code(lens: seq<nat>, n: nat): nat
    requires n < |lens|
  {
    FirstCode(lens, lens[n]) + Count(lens, lens[n], n)
  }

  // Huffman codes are packed starting with their most significant bit.
  ghost function Codeword(lens: seq<nat>, n: nat): (w: seq<bool>)
    requires n < |lens|
    ensures |w| == lens[n]
  {
    Rev(Bits(Code(lens, n), lens[n]))
  }

  // Symbol `n`'s codeword stands at position `p` of the zero-extended stream `s`.
  ghost predicate Matches(lens: seq<nat>, s: seq<bool>, p: nat, n: nat) {
    n < |lens| && lens[n] > 0 && Window(s, p, lens[n]) == Codeword(lens, n)
  }

  // Bit-by-bit canonical decoding: the symbol whose codeword comes next, if there is one.
  ghost function Symbol(lens: seq<nat>, s: seq<bool>, p: nat): (r: Option<nat>)
    ensures r.Some? ==> Matches(lens, s, p, r.value)
    ensures r.None? ==> forall n: nat :: !Matches(lens, s, p, n)
  {
    if exists n: nat :: Matches(lens, s, p, n) then
      var n: nat :| Matches(lens, s, p, n);
      Some(n)
    else None
  }

  // The Kraft sum, scaled by 2^16.
  ghost function Kraft(lens: seq<nat>, n: nat): nat
    requires n <= |lens| && WithinWord(lens)
  {
    if n == 0 then 0
    else Kraft(lens, n - 1) + (if lens[n - 1] == 0 then 0 else Pow2(16 - lens[n - 1]))
  }

  // A prefix code with these lengths exists.
  ghost predicate Realizable(lens: seq<nat>) {
    WithinWord(lens) && Kraft(lens, |lens|) <= Pow2(16)
  }

  // Number of used symbols with length below `l`: the canonical rank of the first one with length `l`.
  ghost function FirstRank(lens: seq<nat>, l: nat): nat {
    if l == 0 then 0 else FirstRank(lens, l - 1) + Total(lens, l - 1)
  }

  // The canonical rank of symbol `n`: its index once symbols are sorted by (length, value).
  ghost function Rank(lens: seq<nat>, n: nat): nat
    requires n < |lens|
  {
    FirstRank(lens, lens[n]) + Count(lens, lens[n], n)
  }

  // One past the last code of length `l`, left-aligned to 16 bits.
  ghost function Limit(lens: seq<nat>, l: nat): nat
    requires l <= 16
  {
    (FirstCode(lens, l) + Total(lens, l)) * Pow2(16 - l)
  }

  // ----- counting

  lemma {:induction false} CountMonotone(lens: seq<nat>, l: nat, m: nat, n: nat)
    requires m <= n <= |lens|
    ensures Count(lens, l, m) <= Count(lens, l, n)
    decreases n - m
  {
    if m < n { CountMonotone(lens, l, m, n - 1); }
  }

  lemma CountStrict(lens: seq<nat>, m: nat, n: nat)
    requires m < n <= |lens|
    ensures Count(lens, lens[m], m) < Count(lens, lens[m], n)
  {
    assert Count(lens, lens[m], m + 1) == Count(lens, lens[m], m) + 1;
    CountMonotone(lens, lens[m], m + 1, n);
  }

  // The symbol that has exactly `r` symbols of the same length before it.
  lemma {:induction false} NthSymbol(lens: seq<nat>, l: nat, r: nat, n: nat) returns (m: nat)
    requires n <= |lens| && r < Count(lens, l, n)
    ensures m < n && lens[m] == l && Count(lens, l, m) == r
  {
    if lens[n - 1] == l && Count(lens, l, n - 1) == r {
      m := n - 1;
    } else {
      m := NthSymbol(lens, l, r, n - 1);
    }
  }

  lemma {:induction false} FirstRankMonotone(lens: seq<nat>, a: nat, b: nat)
    requires a <= b
    ensures FirstRank(lens, a) <= FirstRank(lens, b)
    decreases b - a
  {
    if a < b { FirstRankMonotone(lens, a, b - 1); }
  }

  lemma RankInjective(lens: seq<nat>, m: nat, n: nat)
    requires m < |lens| && n < |lens| && lens[m] > 0 && lens[n] > 0 && m != n
    ensures Rank(lens, m) != Rank(lens, n)
  {
    if lens[m] == lens[n] {
      CountStrict(lens, if m < n then m else n, if m < n then n else m);
    } else {
      RankApart(lens, if lens[m] < lens[n] then m else n, if lens[m] < lens[n] then n else m);
    }
  }

  lemma RankApart(lens: seq<nat>, m: nat, n: nat)
    requires m < |lens| && n < |lens| && 0 < lens[m] < lens[n]
    ensures Rank(lens, m) < Rank(lens, n)
  {
    CountStrict(lens, m, |lens|);
    FirstRankMonotone(lens, lens[m] + 1, lens[n]);
  }

  // Symbols with lengths 1 .. l-1 among the first `n`.
  ghost function UsedBelow(lens: seq<nat>, l: nat, n: nat): nat
    requires n <= |lens|
  {
    if l <= 1 then 0 else UsedBelow(lens, l - 1, n) + Count(lens, l - 1, n)
  }

  lemma {:induction false} UsedBelowStep(lens: seq<nat>, l: nat, n: nat)
    requires 0 < n <= |lens|
    ensures UsedBelow(lens, l, n) == UsedBelow(lens, l, n - 1) + (if 0 < lens[n - 1] < l then 1 else 0)
  {
    if l > 1 { UsedBelowStep(lens, l - 1, n); }
  }

  lemma {:induction false} UsedBelowBound(lens: seq<nat>, l: nat, n: nat)
    requires n <= |lens|
    ensures UsedBelow(lens, l, n) <= n
    decreases n
  {
    if n > 0 {
      UsedBelowBound(lens, l, n - 1);
      UsedBelowStep(lens, l, n);
    } else {
      UsedBelowNone(lens, l);
    }
  }

  lemma {:induction false} UsedBelowNone(lens: seq<nat>, l: nat)
    ensures UsedBelow(lens, l, 0) == 0
  {
    if l > 1 { UsedBelowNone(lens, l - 1); }
  }

  lemma {:induction false} FirstRankIsUsedBelow(lens: seq<nat>, l: nat)
    ensures FirstRank(lens, l) == UsedBelow(lens, l, |lens|)
  {
    if l > 1 { FirstRankIsUsedBelow(lens, l - 1); }
    else if l == 1 { assert FirstRank(lens, 0) == 0; }
  }

  // Ranks index a table with one slot a symbol.
  lemma RankBound(lens: seq<nat>, n: nat)
    requires n < |lens| && lens[n] > 0
    ensures Rank(lens, n) < |lens|
  {
    CountStrict(lens, n, |lens|);
    FirstRankIsUsedBelow(lens, lens[n] + 1);
    UsedBelowBound(lens, lens[n] + 1, |lens|);
  }

  // ----- the Kraft inequality

  ghost function KraftByLength(lens: seq<nat>, l: nat, n: nat): nat
    requires l <= 16 && n <= |lens|
  {
    if l == 0 then 0 else KraftByLength(lens, l - 1, n) + Count(lens, l, n) * Pow2(16 - l)
  }

  lemma {:induction false} KraftByLengthStep(lens: seq<nat>, l: nat, n: nat)
    requires l <= 16 && 0 < n <= |lens|
    ensures KraftByLength(lens, l, n) == KraftByLength(lens, l, n - 1)
                                         + (if 0 < lens[n - 1] <= l then Pow2(16 - lens[n - 1]) else 0)
  {
    if l > 0 {
      KraftByLengthStep(lens, l - 1, n);
      var c := Count(lens, l, n - 1);
      assert (c + 1) * Pow2(16 - l) == c * Pow2(16 - l) + Pow2(16 - l);
    }
  }

  lemma {:induction false} KraftByLengthNone(lens: seq<nat>, l: nat)
    requires l <= 16
    ensures KraftByLength(lens, l, 0) == 0
  {
    if l > 0 { KraftByLengthNone(lens, l - 1); }
  }

  lemma {:induction false} KraftSum(lens: seq<nat>, n: nat)
    requires WithinWord(lens) && n <= |lens|
    ensures Kraft(lens, n) == KraftByLength(lens, 16, n)
  {
    if n == 0 {
      KraftByLengthNone(lens, 16);
    } else {
      KraftSum(lens, n - 1);
      KraftByLengthStep(lens, 16, n);
    }
  }

  lemma {:induction false} KraftUpTo(lens: seq<nat>, l: nat)
    requires l <= 16
    ensures (FirstCode(lens, l) + Total(lens, l)) * Pow2(16 - l) == KraftByLength(lens, l, |lens|)
  {
    if l > 0 {
      KraftUpTo(lens, l - 1);
      var e, t, p := FirstCode(lens, l - 1) + Total(lens, l - 1), Total(lens, l), Pow2(16 - l);
      assert Pow2(16 - (l - 1)) == 2 * p;
      Distribute(2 * e, t, p);
      Slide(e, p);
    }
  }

  lemma {:induction false} KraftByLengthMonotone(lens: seq<nat>, l: nat, m: nat)
    requires l <= m <= 16
    ensures KraftByLength(lens, l, |lens|) <= KraftByLength(lens, m, |lens|)
    decreases m - l
  {
    if l < m { KraftByLengthMonotone(lens, l, m - 1); }
  }

  // No length has more codes than bits to write them with.
  ghost predicate CodesFit(lens: seq<nat>, l: nat)
  {
    FirstCode(lens, l) + Total(lens, l) <= Pow2(l)
  }

  lemma MulLe(a: nat, b: nat, p: nat)
    requires a * p <= b * p && p > 0
    ensures a <= b
  {
    if a > b {
      Distribute(a - b, b, p);
      MulGrows(a - b, p);
    }
  }

  lemma RealizableFits(lens: seq<nat>, l: nat)
    requires Realizable(lens) && l <= 16
    ensures CodesFit(lens, l)
  {
    KraftSum(lens, |lens|);
    KraftUpTo(lens, l);
    KraftByLengthMonotone(lens, l, 16);
    Pow2Add(l, 16 - l);
    MulLe(FirstCode(lens, l) + Total(lens, l), Pow2(l), Pow2(16 - l));
  }

  // The running test of `stbi__zbuild_huffman`, made only at lengths in use, is the Kraft inequality.
  lemma {:induction false} FitsAtUsedLengths(lens: seq<nat>, l: nat)
    requires forall k :: 1 <= k <= l && Total(lens, k) > 0 ==> CodesFit(lens, k)
    ensures CodesFit(lens, l)
  {
    if l > 0 { FitsAtUsedLengths(lens, l - 1); }
  }

  lemma FitsRealizable(lens: seq<nat>)
    requires WithinWord(lens) && CodesFit(lens, 16)
    ensures Realizable(lens)
  {
    KraftSum(lens, |lens|);
    KraftUpTo(lens, 16);
  }

  lemma {:induction false} CountAbsent(lens: seq<nat>, l: nat, n: nat)
    requires n <= |lens| && forall i :: 0 <= i < n ==> lens[i] != l
    ensures Count(lens, l, n) == 0
  {
    if n > 0 { CountAbsent(lens, l, n - 1); }
  }

  lemma ShortRealizable(lens: seq<nat>)
    requires IsLengths(lens) && CodesFit(lens, 15)
    ensures Realizable(lens)
  {
    CountAbsent(lens, 16, |lens|);
    assert FirstCode(lens, 16) == 2 * (FirstCode(lens, 15) + Total(lens, 15)) && Pow2(16) == 2 * Pow2(15);
    hide FirstCode, Pow2, Kraft;
    FitsRealizable(lens);
  }

  // ----- codewords as intervals of the 16-bit left-aligned value of the stream

  ghost function Value(s: seq<bool>, p: nat, l: nat): nat { Nat(Rev(Window(s, p, l))) }

  lemma ValuePrefix(s: seq<bool>, p: nat, l: nat)
    requires l <= 16
    ensures Value(s, p, l) == Value(s, p, 16) / Pow2(16 - l)
  {
    ValueShorter(s, p, l, 16);
  }

  lemma ValueShorter(s: seq<bool>, p: nat, l: nat, n: nat)
    requires l <= n
    ensures Value(s, p, l) == Value(s, p, n) / Pow2(n - l)
  {
    WindowConcat(s, p, l, n - l);
    var a, b := Rev(Window(s, p, l)), Rev(Window(s, p + l, n - l));
    assert Window(s, p, l + (n - l)) == Window(s, p, n);
    assert Rev(Window(s, p, n)) == b + a;
    NatConcat(b, a);
    NatBound(b);
    Recompose(Value(s, p, n), Pow2(n - l), Nat(a), Nat(b));
  }

  lemma CodeBound(lens: seq<nat>, n: nat)
    requires Realizable(lens) && n < |lens| && lens[n] > 0
    ensures Code(lens, n) < FirstCode(lens, lens[n]) + Total(lens, lens[n]) <= Pow2(lens[n])
    ensures Nat(Rev(Codeword(lens, n))) == Code(lens, n)
  {
    CountStrict(lens, n, |lens|);
    RealizableFits(lens, lens[n]);
    NatOfBits(Code(lens, n), lens[n]);
    assert Rev(Codeword(lens, n)) == Bits(Code(lens, n), lens[n]);
  }

  lemma MatchesByValue(lens: seq<nat>, s: seq<bool>, p: nat, n: nat)
    requires Realizable(lens) && n < |lens| && lens[n] > 0
    ensures Matches(lens, s, p, n) <==> Value(s, p, lens[n]) == Code(lens, n)
  {
    CodeBound(lens, n);
    var w := Window(s, p, lens[n]);
    if Value(s, p, lens[n]) == Code(lens, n) {
      NatInjective(Rev(w), Rev(Codeword(lens, n)));
      assert Rev(Rev(w)) == w && Rev(Rev(Codeword(lens, n))) == Codeword(lens, n);
    }
  }

  lemma LimitBefore(lens: seq<nat>, l: nat)
    requires 1 <= l <= 16
    ensures Limit(lens, l - 1) == FirstCode(lens, l) * Pow2(16 - l)
  {
    var e, p := FirstCode(lens, l - 1) + Total(lens, l - 1), Pow2(16 - l);
    assert Pow2(16 - (l - 1)) == 2 * p;
    Slide(e, p);
  }

  lemma {:induction false} LimitMonotone(lens: seq<nat>, a: nat, b: nat)
    requires a <= b <= 16
    ensures Limit(lens, a) <= Limit(lens, b)
    decreases b - a
  {
    if a < b {
      LimitMonotone(lens, a, b - 1);
      LimitBefore(lens, b);
      Distribute(FirstCode(lens, b), Total(lens, b), Pow2(16 - b));
    }
  }

  lemma DivBetween(k: nat, p: nat, a: nat, b: nat)
    requires p > 0
    ensures a <= k / p < b <==> a * p <= k < b * p
  {
    var q, r := k / p, k % p;
    assert k == p * q + r;
    assert p * q == q * p;
    if a <= q { assert (q - a) * p >= 0; assert (q - a) * p == q * p - a * p; }
    if a > q { MulGrows(a - q, p); assert (a - q) * p == a * p - q * p; }
    if q < b { MulGrows(b - q, p); assert (b - q) * p == b * p - q * p; }
    if q >= b { assert (q - b) * p >= 0; assert (q - b) * p == q * p - b * p; }
  }

  // The values whose first `l` bits are a code of length `l`.
  lemma LengthInterval(lens: seq<nat>, s: seq<bool>, p: nat, l: nat)
    requires 1 <= l <= 16
    ensures Limit(lens, l - 1) <= Value(s, p, 16) < Limit(lens, l)
            <==> FirstCode(lens, l) <= Value(s, p, l) < FirstCode(lens, l) + Total(lens, l)
  {
    LimitBefore(lens, l);
    ValuePrefix(s, p, l);
    DivBetween(Value(s, p, 16), Pow2(16 - l), FirstCode(lens, l), FirstCode(lens, l) + Total(lens, l));
  }

  lemma MatchInterval(lens: seq<nat>, s: seq<bool>, p: nat, n: nat)
    requires Realizable(lens) && Matches(lens, s, p, n)
    ensures Limit(lens, lens[n] - 1) <= Value(s, p, 16) < Limit(lens, lens[n])
  {
    MatchesByValue(lens, s, p, n);
    CodeBound(lens, n);
    LengthInterval(lens, s, p, lens[n]);
  }

  // Codewords are prefix-free: at most one symbol stands at a position.
  lemma MatchUnique(lens: seq<nat>, s: seq<bool>, p: nat, m: nat, n: nat)
    requires Realizable(lens) && Matches(lens, s, p, m) && Matches(lens, s, p, n)
    ensures m == n
  {
    MatchInterval(lens, s, p, m);
    MatchInterval(lens, s, p, n);
    if lens[m] < lens[n] {
      LimitMonotone(lens, lens[m], lens[n] - 1);
    } else if lens[n] < lens[m] {
      LimitMonotone(lens, lens[n], lens[m] - 1);
    } else {
      MatchesByValue(lens, s, p, m);
      MatchesByValue(lens, s, p, n);
      if m != n { CountStrict(lens, if m < n then m else n, if m < n then n else m); }
    }
  }

  lemma SymbolIs(lens: seq<nat>, s: seq<bool>, p: nat, n: nat)
    requires Realizable(lens) && Matches(lens, s, p, n)
    ensures Symbol(lens, s, p) == Some(n)
  {
    var m: nat :| Matches(lens, s, p, m) && Symbol(lens, s, p) == Some(m);
    MatchUnique(lens, s, p, m, n);
  }

  // Decoding undoes encoding: whatever precedes and follows it, a codeword decodes to its symbol.
  lemma CodewordDecodes(lens: seq<nat>, before: seq<bool>, n: nat, after: seq<bool>)
    requires Realizable(lens) && n < |lens| && lens[n] > 0
    ensures Symbol(lens, before + Codeword(lens, n) + after, |before|) == Some(n)
  {
    var s := before + Codeword(lens, n) + after;
    WindowInside(s, |before|, lens[n]);
    assert Matches(lens, s, |before|, n);
    SymbolIs(lens, s, |before|, n);
  }

  // Between two limits there is a symbol, and its rank is read off the value.
  lemma SymbolInInterval(lens: seq<nat>, s: seq<bool>, p: nat, l: nat) returns (n: nat)
    requires Realizable(lens) && 1 <= l <= 16
    requires Limit(lens, l - 1) <= Value(s, p, 16) < Limit(lens, l)
    ensures Matches(lens, s, p, n) && lens[n] == l
    ensures Rank(lens, n) == Value(s, p, l) - FirstCode(lens, l) + FirstRank(lens, l)
  {
    LengthInterval(lens, s, p, l);
    n := NthSymbol(lens, l, Value(s, p, l) - FirstCode(lens, l), |lens|);
    MatchesByValue(lens, s, p, n);
  }

  lemma LimitZero(lens: seq<nat>)
    ensures Limit(lens, 0) == 0
  {
    assert FirstCode(lens, 0) + Total(lens, 0) == 0;
  }

  lemma {:induction false} LengthOf(lens: seq<nat>, s: seq<bool>, p: nat, l: nat) returns (k: nat)
    requires l <= 16 && Value(s, p, 16) < Limit(lens, l)
    ensures 1 <= k <= l && Limit(lens, k - 1) <= Value(s, p, 16) < Limit(lens, k)
  {
    LimitZero(lens);
    if Limit(lens, l - 1) <= Value(s, p, 16) {
      k := l;
    } else {
      k := LengthOf(lens, s, p, l - 1);
    }
  }

  // The slow path stops at the first length above 9 whose limit exceeds the next 16 bits.
  lemma SlowLookup(lens: seq<nat>, s: seq<bool>, p: nat, l: nat) returns (n: nat)
    requires Realizable(lens) && 10 <= l <= 16
    requires forall m: nat :: Matches(lens, s, p, m) ==> lens[m] > 9
    requires forall k :: 10 <= k < l ==> Limit(lens, k) <= Value(s, p, 16)
    requires Value(s, p, 16) < Limit(lens, l)
    ensures Matches(lens, s, p, n) && lens[n] == l
    ensures Rank(lens, n) == Value(s, p, l) - FirstCode(lens, l) + FirstRank(lens, l)
  {
    var k := LengthOf(lens, s, p, l);
    n := SymbolInInterval(lens, s, p, k);
  }
}
