// `stbi__zhuffman` and `stbi__zbuild_huffman`: decoding tables for one prefix code.

module ZHuffmanTables {
  import opened BitStream
  import opened BitReversal
  import opened Huffman
  import opened Wrappers

  const ZFAST_BITS := 9
  const ZNSYMS := 288

  // The low bits of the table index `j` are symbol `m`'s codeword, and it is short enough for the fast table.
  ghost predicate Hit(lens: seq<nat>, m: nat, j: nat)
    requires m < |lens|
  {
    0 < lens[m] <= 9 && Bits(j, lens[m]) == Codeword(lens, m)
  }

  // What a fast-table entry `v` at index `j` says once the first `n` symbols are entered.
  ghost predicate FastOk(lens: seq<nat>, n: nat, j: nat, v: nat)
    requires n <= |lens|
  {
    if v == 0 then forall m :: 0 <= m < n ==> !Hit(lens, m, j)
    else exists m :: 0 <= m < n && Hit(lens, m, j) && v == lens[m] * 512 + m
  }

  lemma FastOkStep(lens: seq<nat>, n: nat, j: nat, v: nat)
    requires n < |lens| && FastOk(lens, n, j, v)
    ensures !Hit(lens, n, j) ==> FastOk(lens, n + 1, j, v)
    ensures Hit(lens, n, j) ==> FastOk(lens, n + 1, j, lens[n] * 512 + n)
  {
  }

  ghost predicate LevelOk(lens: seq<nat>, l: nat, first: nat, max: nat, symbol: nat)
    requires l <= 16
  {
    first == FirstCode(lens, l) && max == Limit(lens, l) && symbol == FirstRank(lens, l)
  }

  // ----- what a look-up in finished tables finds

  lemma HitIsMatch(lens: seq<nat>, s: seq<bool>, p: nat, m: nat)
    requires m < |lens|
    ensures Hit(lens, m, Nat(Window(s, p, 9))) <==> lens[m] <= 9 && Matches(lens, s, p, m)
  {
    if 0 < lens[m] <= 9 {
      WindowConcat(s, p, lens[m], 9 - lens[m]);
      BitsPrefix(Window(s, p, 9), lens[m]);
    }
  }

  lemma FastLookup(lens: seq<nat>, s: seq<bool>, p: nat, v: nat)
    requires IsLengths(lens) && FastOk(lens, |lens|, Nat(Window(s, p, 9)), v)
    ensures v == 0 ==> forall m: nat :: Matches(lens, s, p, m) ==> lens[m] > 9
    ensures v != 0 ==> exists m: nat :: Matches(lens, s, p, m) && v == lens[m] * 512 + m && lens[m] <= 9
  {
    if v == 0 {
      forall m: nat | Matches(lens, s, p, m)
        ensures lens[m] > 9
      {
        HitIsMatch(lens, s, p, m);
      }
    } else {
      var m: nat :| m < |lens| && Hit(lens, m, Nat(Window(s, p, 9))) && v == lens[m] * 512 + m;
      HitIsMatch(lens, s, p, m);
    }
  }

  lemma SlowMiss(lens: seq<nat>, s: seq<bool>, p: nat)
    requires Realizable(lens) && IsLengths(lens)
    requires forall m: nat :: Matches(lens, s, p, m) ==> lens[m] > 9
    requires forall k :: 10 <= k < 16 ==> Limit(lens, k) <= Value(s, p, 16)
    ensures Symbol(lens, s, p) == None
  {
    if n: nat :| Matches(lens, s, p, n) {
      MatchInterval(lens, s, p, n);
    }
  }

  class ZHuffman {
    const fast: array<nat>
    const firstcode: array<nat>
    const maxcode: array<nat>
    const firstsymbol: array<nat>
    const size: array<nat>
    const value: array<nat>

    ghost predicate Valid() {
      fast.Length == 512 && firstcode.Length == 16 && maxcode.Length == 17 && firstsymbol.Length == 16 &&
      size.Length == ZNSYMS && value.Length == ZNSYMS &&
      fast != firstcode && fast != maxcode && fast != firstsymbol && fast != size && fast != value &&
      firstcode != firstsymbol && firstcode != maxcode && firstcode != size && firstcode != value &&
      maxcode != firstsymbol && maxcode != size && maxcode != value &&
      firstsymbol != size && firstsymbol != value && size != value
    }

    ghost function Repr(): set<object> { {fast, firstcode, maxcode, firstsymbol, size, value} }

    constructor ()
      ensures Valid() && fresh(Repr())
    {
      fast := new nat[512];
      firstcode := new nat[16];
      maxcode := new nat[17];
      firstsymbol := new nat[16];
      size := new nat[ZNSYMS];
      value := new nat[ZNSYMS];
    }

    // ----- what the tables say about the code

    ghost predicate Levels(lens: seq<nat>, l: nat)
      requires Valid() && l <= 16
      reads firstcode, maxcode, firstsymbol
    {
      forall k :: 1 <= k < l ==> LevelOk(lens, k, firstcode[k], maxcode[k], firstsymbol[k])
    }

    ghost predicate Ranked(lens: seq<nat>, n: nat)
      requires Valid() && n <= |lens|
      reads size, value
    {
      forall m :: 0 <= m < n && lens[m] > 0 ==>
        Rank(lens, m) < ZNSYMS && size[Rank(lens, m)] == lens[m] && value[Rank(lens, m)] == m
    }

    ghost predicate FastUpTo(lens: seq<nat>, n: nat)
      requires Valid() && n <= |lens|
      reads fast
    {
      forall j :: 0 <= j < 512 ==> FastOk(lens, n, j, fast[j])
    }

    ghost predicate Tables(lens: seq<nat>)
      requires Valid()
      reads fast, firstcode, maxcode, firstsymbol, size, value
    {
      Realizable(lens) && IsLengths(lens) && |lens| <= ZNSYMS &&
      Levels(lens, 16) && maxcode[16] == 0x10000 && Ranked(lens, |lens|) && FastUpTo(lens, |lens|)
    }

    // ----- stbi__zbuild_huffman

    // Accepts a list of lengths exactly when a prefix code with those lengths exists.
    method Build(sizelist: seq<nat>) returns (ok: bool)
      requires Valid() && IsLengths(sizelist) && |sizelist| <= ZNSYMS
      modifies fast, firstcode, maxcode, firstsymbol, size, value
      ensures ok <==> Realizable(sizelist)
      ensures ok ==> Tables(sizelist)
    {
      forall j | 0 <= j < 512 { fast[j] := 0; }
      var sizes := CountSizes(sizelist);
      for i := 1 to 16
        invariant forall k :: 1 <= k < i ==> sizes[k] <= Shl(1, k)
      {
        if sizes[i] > Shl(1, i) {
          TooMany(sizelist, i);
          return false;
        }
      }
      var next_code := new nat[16];
      ok := AssignCodes(sizelist, sizes, next_code);
      if ok {
        maxcode[16] := 0x10000;
        FillSymbols(sizelist, next_code);
      }
    }

    static method CountSizes(sizelist: seq<nat>) returns (sizes: array<nat>)
      requires IsLengths(sizelist)
      ensures fresh(sizes) && sizes.Length == 17
      ensures forall l :: 0 <= l < 16 ==> sizes[l] == Total(sizelist, l)
    {
      sizes := new nat[17](i => 0);
      for i := 0 to |sizelist|
        invariant forall l :: 0 <= l < 16 ==> sizes[l] == Count(sizelist, l, i)
      {
        sizes[sizelist[i]] := sizes[sizelist[i]] + 1;
      }
      sizes[0] := 0;
    }

    static lemma TooMany(lens: seq<nat>, l: nat)
      requires IsLengths(lens) && 1 <= l <= 15 && Total(lens, l) > Shl(1, l)
      ensures !Realizable(lens)
    {
      if Realizable(lens) { RealizableFits(lens, l); }
    }

    method AssignCodes(ghost lens: seq<nat>, sizes: array<nat>, next_code: array<nat>) returns (ok: bool)
      requires Valid() && IsLengths(lens) && |lens| <= ZNSYMS
      requires sizes.Length == 17 && next_code.Length == 16 && sizes !in Repr() && next_code !in Repr() && sizes != next_code
      requires forall l :: 0 <= l < 16 ==> sizes[l] == Total(lens, l)
      modifies firstcode, maxcode, firstsymbol, next_code
      ensures ok <==> Realizable(lens)
      ensures ok ==> Levels(lens, 16) && forall l :: 1 <= l < 16 ==> next_code[l] == FirstCode(lens, l)
    {
      var code: nat, k: nat := 0, 0;
      assert FirstCode(lens, 0) == 0 && FirstRank(lens, 0) == 0;
      for i := 1 to 16
        invariant code == FirstCode(lens, i) && k == FirstRank(lens, i)
        invariant CodesFit(lens, i - 1)
        invariant Levels(lens, i)
        invariant forall l :: 1 <= l < i ==> next_code[l] == FirstCode(lens, l)
      {
        ok, code, k := AssignLevel(lens, i, sizes[i], next_code, code, k);
        if !ok { return; }
      }
      ShortRealizable(lens);
      ok := true;
    }

    // One turn of the loop over lengths.
    method AssignLevel(ghost lens: seq<nat>, i: nat, n: nat, next_code: array<nat>, code: nat, k: nat)
      returns (ok: bool, code': nat, k': nat)
      requires Valid() && IsLengths(lens) && |lens| <= ZNSYMS && 1 <= i <= 15
      requires next_code.Length == 16 && next_code !in Repr()
      requires code == FirstCode(lens, i) && k == FirstRank(lens, i) && n == Total(lens, i) && CodesFit(lens, i - 1)
      modifies firstcode, maxcode, firstsymbol, next_code
      ensures !ok ==> !Realizable(lens)
      ensures ok ==> CodesFit(lens, i) && code' == FirstCode(lens, i + 1) && k' == FirstRank(lens, i + 1)
      ensures next_code[..] == old(next_code[..])[i := FirstCode(lens, i)]
      ensures ok ==> LevelOk(lens, i, firstcode[i], maxcode[i], firstsymbol[i])
      ensures forall l :: 0 <= l < 16 && l != i ==>
        firstcode[l] == old(firstcode[l]) && maxcode[l] == old(maxcode[l]) && firstsymbol[l] == old(firstsymbol[l])
    {
      FieldBounds(lens, i);
      LevelStep(lens, i);
      next_code[i] := code;
      firstcode[i] := code % 0x10000;
      firstsymbol[i] := k % 0x10000;
      code', k', ok := code + n, k, true;
      if n != 0 {
        if code' - 1 >= Shl(1, i) {
          ok := false;
          return;
        }
      }
      maxcode[i] := Shl(code', 16 - i);
      code' := Shl(code', 1);
      k' := k + n;
    }

    static lemma LevelStep(lens: seq<nat>, i: nat)
      requires IsLengths(lens) && 1 <= i <= 15 && CodesFit(lens, i - 1)
      ensures Limit(lens, i) == Shl(FirstCode(lens, i) + Total(lens, i), 16 - i)
      ensures FirstCode(lens, i + 1) == Shl(FirstCode(lens, i) + Total(lens, i), 1)
      ensures FirstRank(lens, i + 1) == FirstRank(lens, i) + Total(lens, i)
      ensures Total(lens, i) == 0 || FirstCode(lens, i) + Total(lens, i) - 1 < Shl(1, i) ==> CodesFit(lens, i)
      ensures FirstCode(lens, i) + Total(lens, i) - 1 >= Shl(1, i) ==> !Realizable(lens)
    {
      Pow2Small();
      if Realizable(lens) { RealizableFits(lens, i); }
    }

    // The 16-bit fields do not truncate.
    static lemma FieldBounds(lens: seq<nat>, i: nat)
      requires |lens| <= ZNSYMS && 1 <= i <= 15 && CodesFit(lens, i - 1)
      ensures FirstCode(lens, i) < 0x10000 && FirstRank(lens, i) <= ZNSYMS
    {
      FirstRankIsUsedBelow(lens, i);
      UsedBelowBound(lens, i, |lens|);
      Pow2Monotone(i, 15);
      Pow2Small();
    }

    method FillSymbols(lens: seq<nat>, next_code: array<nat>)
      requires Valid() && Realizable(lens) && IsLengths(lens) && |lens| <= ZNSYMS
      requires next_code.Length == 16 && next_code !in Repr()
      requires Levels(lens, 16) && forall l :: 1 <= l < 16 ==> next_code[l] == FirstCode(lens, l)
      requires forall j :: 0 <= j < 512 ==> fast[j] == 0
      modifies fast, size, value, next_code
      ensures Ranked(lens, |lens|) && FastUpTo(lens, |lens|)
    {
      NoneFilled(lens);
      hide Levels, Ranked, FastUpTo, FirstCode, Count, Realizable;
      for i := 0 to |lens|
        invariant Levels(lens, 16) && Assigned(lens, next_code, i)
        invariant Ranked(lens, i) && FastUpTo(lens, i)
      {
        FillNext(lens, i, next_code);
      }
    }

    // The codes to assign next, after the first `i` symbols.
    static ghost predicate Assigned(lens: seq<nat>, next_code: array<nat>, i: nat)
      requires i <= |lens|
      reads next_code
    {
      next_code.Length == 16 && forall l :: 1 <= l < 16 ==> next_code[l] == FirstCode(lens, l) + Count(lens, l, i)
    }

    lemma NoneFilled(lens: seq<nat>)
      requires Valid() && forall j :: 0 <= j < 512 ==> fast[j] == 0
      ensures Ranked(lens, 0) && FastUpTo(lens, 0)
    {
    }

    method FillNext(lens: seq<nat>, i: nat, next_code: array<nat>)
      requires Valid() && Realizable(lens) && IsLengths(lens) && i < |lens| <= ZNSYMS && next_code !in Repr()
      requires Levels(lens, 16) && Assigned(lens, next_code, i) && Ranked(lens, i) && FastUpTo(lens, i)
      modifies fast, size, value, next_code
      ensures Levels(lens, 16) && Assigned(lens, next_code, i + 1) && Ranked(lens, i + 1) && FastUpTo(lens, i + 1)
    {
      var s := lens[i];
      if s != 0 {
        FillOne(lens, i, s, next_code[s]);
        next_code[s] := next_code[s] + 1;
      } else {
        forall j | 0 <= j < 512
          ensures FastOk(lens, i + 1, j, fast[j])
        {
          FastOkStep(lens, i, j, fast[j]);
        }
      }
    }

    // Where a symbol of length `s` goes in the sorted tables.
    lemma RankSlot(lens: seq<nat>, i: nat, s: nat, code: nat)
      requires Valid() && |lens| <= ZNSYMS && i < |lens| && lens[i] == s && 0 < s <= 15
      requires Levels(lens, 16) && code == Code(lens, i)
      ensures code - firstcode[s] + firstsymbol[s] == Rank(lens, i) < ZNSYMS
      ensures forall m :: 0 <= m < i && lens[m] > 0 ==> Rank(lens, m) != Rank(lens, i)
    {
      assert LevelOk(lens, s, firstcode[s], maxcode[s], firstsymbol[s]);
      RankBound(lens, i);
      forall m | 0 <= m < i && lens[m] > 0
        ensures Rank(lens, m) != Rank(lens, i)
      {
        RankInjective(lens, m, i);
      }
    }

    // One turn of the loop over symbols.
    method FillOne(ghost lens: seq<nat>, i: nat, s: nat, code: nat)
      requires Valid() && Realizable(lens) && IsLengths(lens) && |lens| <= ZNSYMS && i < |lens| && lens[i] == s > 0
      requires Levels(lens, 16) && code == Code(lens, i)
      requires Ranked(lens, i) && FastUpTo(lens, i)
      modifies fast, size, value
      ensures Ranked(lens, i + 1) && FastUpTo(lens, i + 1)
    {
      hide Realizable, Code, Rank, FastOk, Hit, Levels;
      RankSlot(lens, i, s, code);
      var c := code - firstcode[s] + firstsymbol[s];
      size[c] := s;
      value[c] := i;
      ghost var was := fast[..];
      if s <= ZFAST_BITS {
        FillFast(lens, i, s, code);
      } else {
        TooLong(lens, i);
      }
      forall j | 0 <= j < 512
        ensures FastOk(lens, i + 1, j, fast[j])
      {
        FastOkStep(lens, i, j, was[j]);
      }
    }

    static lemma TooLong(lens: seq<nat>, i: nat)
      requires i < |lens| && lens[i] > 9
      ensures forall j: nat :: !Hit(lens, i, j)
    {
    }

    // Every table index whose low bits are the codeword gets the symbol.
    method FillFast(ghost lens: seq<nat>, i: nat, s: nat, code: nat)
      requires Valid() && Realizable(lens) && |lens| <= ZNSYMS && i < |lens| && lens[i] == s && 0 < s <= 9
      requires code == Code(lens, i)
      modifies fast
      ensures forall q :: 0 <= q < 512 ==> fast[q] == if Hit(lens, i, q) then s * 512 + i else old(fast[q])
    {
      hide Codeword, BitReverse, Nat, Shl, BitOr, Hit, Realizable, Code;
      StartIndex(lens, i, s, code);
      var fastv := BitOr(Shl(s, 9), i);
      FastEntry(s, i);
      var j := BitReverse(code, s);
      HitFirst(lens, i);
      while j < 512
        invariant Hit(lens, i, j)
        invariant forall q :: 0 <= q < 512 ==>
          fast[q] == if q < j && Hit(lens, i, q) then fastv else old(fast[q])
        decreases 512 - j
      {
        HitNext(lens, i, j);
        fast[j] := fastv;
        j := j + Shl(1, s);
      }
    }

    static lemma StartIndex(lens: seq<nat>, i: nat, s: nat, code: nat)
      requires Realizable(lens) && i < |lens| && lens[i] == s && 0 < s <= 9 && code == Code(lens, i)
      ensures code < Pow2(s) && BitReverse(code, s) == Nat(Codeword(lens, i))
    {
      CodeBound(lens, i);
      Reverses(code, s);
    }

    static lemma HitFirst(lens: seq<nat>, m: nat)
      requires m < |lens| && 0 < lens[m] <= 9
      ensures Hit(lens, m, Nat(Codeword(lens, m)))
      ensures forall q :: 0 <= q < Nat(Codeword(lens, m)) ==> !Hit(lens, m, q)
    {
      var c, p := Nat(Codeword(lens, m)), Pow2(lens[m]);
      NatBound(Codeword(lens, m));
      hide Hit, Codeword, Nat, Pow2;
      HitMod(lens, m, c);
      SmallMod(c, p);
      forall q | 0 <= q < c
        ensures !Hit(lens, m, q)
      {
        HitMod(lens, m, q);
        SmallMod(q, p);
      }
    }

    static lemma SmallMod(q: nat, p: nat)
      requires q < p
      ensures q % p == q
    {
    }

    static lemma HitNext(lens: seq<nat>, m: nat, j: nat)
      requires m < |lens| && 0 < lens[m] <= 9 && Hit(lens, m, j)
      ensures Hit(lens, m, j + Shl(1, lens[m])) && Shl(1, lens[m]) > 0
      ensures forall q :: j < q < j + Shl(1, lens[m]) ==> !Hit(lens, m, q)
    {
      hide Hit, Codeword, Nat;
      var p := Pow2(lens[m]);
      HitMod(lens, m, j);
      HitMod(lens, m, j + p);
      ModNext(j, p);
      forall q | j < q < j + p
        ensures !Hit(lens, m, q)
      {
        HitMod(lens, m, q);
        NotCongruent(q, j, p);
      }
    }

    static lemma ModNext(j: nat, p: nat)
      requires p > 0
      ensures (j + p) % p == j % p
    {
      var q, r := j / p, j % p;
      assert j == p * q + r;
      assert p * q == q * p;
      Distribute(q, 1, p);
      DivModUnique(j + p, p, q + 1, r);
    }

    static lemma FastEntry(s: nat, i: nat)
      requires 0 < s <= 15 && i < 512
      ensures BitOr(Shl(s, 9), i) == s * 512 + i
    {
      Pow2Small();
      OrComm(Shl(s, 9), i);
      OrDisjoint(i, 9, s);
    }

    static lemma HitMod(lens: seq<nat>, m: nat, q: nat)
      requires m < |lens| && 0 < lens[m] <= 9
      ensures Hit(lens, m, q) <==> q % Pow2(lens[m]) == Nat(Codeword(lens, m))
    {
      NatOfBitsMod(q, lens[m]);
      if q % Pow2(lens[m]) == Nat(Codeword(lens, m)) {
        NatInjective(Bits(q, lens[m]), Codeword(lens, m));
      }
    }

    static lemma NotCongruent(q: nat, j: nat, p: nat)
      requires p > 0 && j < q < j + p
      ensures q % p != j % p
    {
      if q % p == j % p {
        var a, b := q / p, j / p;
        assert q == p * a + q % p && j == p * b + j % p;
        assert p * a == a * p && p * b == b * p;
        Distribute(a - b, b, p);
        SmallMultiple(a - b, p);
      }
    }
  }
}
