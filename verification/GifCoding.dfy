// What an LZW encoder writes (GIF89a Appendix F), and that the decoder of module GifLzw gives back every text, however the
// encoder chooses its codes and when it clears its dictionary.

module GifCoding {
  import opened BitStream
  import opened GifLzw
  import opened Wrappers

  // ----- codes and what they stand for

  // `c` is a code other than the clear and end codes, for a string that `text` starts with.
  ghost predicate Names(dict: seq<seq<byte>>, clear: nat, c: nat, text: seq<byte>) {
    IsCode(dict, clear, c) && dict[c] != [] && dict[c] <= text
  }

  // A string of the dictionary with the next index of the text becomes a new one, until there are 4096.
  ghost function Learned(dict: seq<seq<byte>>, c: nat, text: seq<byte>): (r: seq<seq<byte>>)
    requires c < |dict| && dict[c] <= text
    ensures dict <= r
  {
    if |dict| < 4096 && |dict[c]| < |text| then dict + [text[..|dict[c]| + 1]] else dict
  }

  // `codes` stand for `text`: one after the other names the start of what is left of it.
  ghost predicate Codes(dict: seq<seq<byte>>, clear: nat, codes: seq<nat>, text: seq<byte>)
    decreases codes
  {
    if codes == [] then text == []
    else
      Names(dict, clear, codes[0], text) &&
      Codes(Learned(dict, codes[0], text), clear, codes[1..], text[|dict[codes[0]]|..])
  }

  // The longest name is taken.
  ghost predicate Greedy(dict: seq<seq<byte>>, clear: nat, codes: seq<nat>, text: seq<byte>)
    requires Codes(dict, clear, codes, text)
    decreases codes
  {
    codes != [] ==>
      (forall c: nat :: Names(dict, clear, c, text) ==> |dict[c]| <= |dict[codes[0]]|) &&
      Greedy(Learned(dict, codes[0], text), clear, codes[1..], text[|dict[codes[0]]|..])
  }

  // ----- how many bits a code takes

  // As many as the greatest code that may come, `top`, takes, but at most twelve.
  function Width(least: nat, top: nat): (w: nat)
    requires least <= 12
    ensures least <= w <= 12
    decreases 12 - least
  {
    if least == 12 || top < Pow2(least) then least else Width(least + 1, top)
  }

  // Code `k` after a clear code: a string is added with each code after the first one.
  function WidthAt(cs: nat, k: nat): (w: nat)
    requires cs <= 11
  {
    Width(cs + 1, Pow2(cs) + 1 + k)
  }

  lemma {:induction false} WidthHolds(least: nat, top: nat, c: nat)
    requires least <= 12 && c <= top && c < 4096
    ensures c < Pow2(Width(least, top))
    decreases 12 - least
  {
    if least == 12 {
      Twelve();
    } else if top >= Pow2(least) {
      WidthHolds(least + 1, top, c);
    }
  }

  lemma Twelve()
    ensures Pow2(12) == 4096 && Pow2(11) == 2048
  {
    Pow2Small();
  }

  lemma {:induction false} WidthNext(least: nat, top: nat)
    requires least <= 12
    ensures Width(least, top + 1) == if top + 1 == Pow2(Width(least, top)) && top + 1 < 4096 then Width(least, top) + 1 else Width(least, top)
    decreases 12 - least
  {
    Twelve();
    if least < 12 && top >= Pow2(least) {
      WidthNext(least + 1, top);
    } else if least < 12 && top + 1 == Pow2(least) {
      Pow2Monotone(least, 11);
    }
  }

  // ----- one code

  // The bits of `codes`, of which the first is number `k` after a clear code.
  ghost function CodesBits(cs: nat, codes: seq<nat>, k: nat): seq<bool>
    requires cs <= 11
    decreases codes
  {
    if codes == [] then [] else Bits(codes[0], WidthAt(cs, k)) + CodesBits(cs, codes[1..], k + 1)
  }

  ghost function Cut(dict: seq<seq<byte>>): seq<seq<byte>> { if |dict| <= 4096 then dict else dict[..4096] }

  // The decoder's dictionary and the string it is about to learn, which it knows but for the last index.
  ghost function Ahead(dict: seq<seq<byte>>, prev: Option<nat>, text: seq<byte>): seq<seq<byte>>
    requires prev.Some? ==> prev.value < |dict|
  {
    if prev.Some? && text != [] then dict + [dict[prev.value] + [text[0]]] else dict
  }

  // Encoder and decoder before code `k`, with `text` still to come.
  ghost predicate Sync(cs: nat, st: State, dict: seq<seq<byte>>, text: seq<byte>, k: nat) {
    1 <= cs <= 11 && IsState(st, Pow2(cs)) && st.cleared && st.size == WidthAt(cs, k) && (st.prev.Some? <==> k > 0) &&
    |st.dict| == Pow2(cs) + 2 + (if k == 0 then 0 else k - 1) && (text != [] ==> dict == Cut(Ahead(st.dict, st.prev, text)))
  }

  // What the decoder knows after it.
  ghost function After(cs: nat, st: State, c: nat, k: nat): State
    requires 1 <= cs <= 11 && IsState(st, Pow2(cs)) && c <= |st.dict| && c != Pow2(cs) && c != Pow2(cs) + 1
  {
    var g := Grow(st.dict, Pow2(cs), st.prev, c);
    State(if g.Some? then g.value else st.dict, Some(c), WidthAt(cs, k + 1), true)
  }

  lemma NameFacts(cs: nat, st: State, dict: seq<seq<byte>>, c: nat, text: seq<byte>, k: nat)
    requires Sync(cs, st, dict, text, k) && Names(dict, Pow2(cs), c, text)
    ensures c <= |st.dict| && c <= Pow2(cs) + 1 + k && c < 4096 && c != Pow2(cs) && c != Pow2(cs) + 1
    ensures text != [] && dict[c][0] == text[0]
    ensures if c < |st.dict| then dict[c] == st.dict[c] && st.dict[c] != []
      else st.prev.Some? && dict[c] == st.dict[st.prev.value] + [text[0]]
    ensures c == |st.dict| ==> st.dict[st.prev.value][0] == text[0]
  {
    hide Pow2, WidthAt;
    assert text != [];
    RootsFit(cs);
    var a := Ahead(st.dict, st.prev, text);
    assert dict[c] == a[c];
    assert text[0] == text[..|dict[c]|][0];
    if c == |st.dict| {
      var o := st.prev.value;
      assert st.dict[o] != [];
      assert (st.dict[o] + [text[0]])[0] == st.dict[o][0];
    }
  }

  // What the decoder learns is what the encoder learned one code earlier.
  lemma Grown(cs: nat, st: State, dict: seq<seq<byte>>, c: nat, text: seq<byte>, k: nat)
    requires Sync(cs, st, dict, text, k) && Names(dict, Pow2(cs), c, text)
    ensures c <= |st.dict| && c != Pow2(cs) && c != Pow2(cs) + 1 && text != []
    ensures var g := Grow(st.dict, Pow2(cs), st.prev, c);
      (g.Some? <==> k == 0 || |st.dict| < 8192) &&
      (g.Some? ==> g.value == Ahead(st.dict, st.prev, text) && g.value[c] == dict[c] && |g.value| == Pow2(cs) + 2 + k)
  {
    hide Pow2, WidthAt, Roots;
    NameFacts(cs, st, dict, c, text, k);
  }

  lemma SizeNext(cs: nat, k: nat)
    requires 1 <= cs <= 11
    ensures NextSize(Pow2(cs) + 2 + k, WidthAt(cs, k)) == WidthAt(cs, k + 1)
  {
    hide NextSize, Width, Pow2;
    var top := Pow2(cs) + 1 + k;
    WidthNext(cs + 1, top);
    WidthIs(cs + 1, top);
    NextSizeIs(top + 1, WidthAt(cs, k));
    assert Pow2(cs) + 1 + (k + 1) == top + 1;
  }

  lemma NextSizeIs(n: nat, w: nat)
    requires n > 0 && w <= 12 && (n <= Pow2(w) || w == 12)
    ensures NextSize(n, w) == if n == Pow2(w) && n < 4096 then w + 1 else w
  {
    Twelve();
    hide Pow2;
    if n < Pow2(w) {
      DivModUnique(n, Pow2(w), 0, n);
    } else if n == Pow2(w) {
      DivModUnique(n, Pow2(w), 1, 0);
    }
  }

  lemma {:induction false} WidthIs(least: nat, top: nat)
    requires least <= 12
    ensures top < Pow2(Width(least, top)) || Width(least, top) == 12
    decreases 12 - least
  {
    if least < 12 && top >= Pow2(least) { WidthIs(least + 1, top); }
  }

  // The encoder's side of learning: what was known, and the string with the next index of the text.
  lemma Ahead2(st: State, dict: seq<seq<byte>>, c: nat, text: seq<byte>, g: seq<seq<byte>>)
    requires c < |dict| && c < |g| && dict[c] <= text && dict[c] != [] && g[c] == dict[c] && dict == Cut(g) && c < 4096
    ensures var rest := text[|dict[c]|..];
      rest != [] ==> Learned(dict, c, text) == Cut(Ahead(g, Some(c), rest))
  {
    var rest := text[|dict[c]|..];
    if rest != [] {
      assert text[..|dict[c]| + 1] == dict[c] + [rest[0]];
    }
  }

  // One code: the decoder emits the string it names, and stays in step, as long as its table has room.
  lemma CodeDecodes(cs: nat, st: State, dict: seq<seq<byte>>, c: nat, text: seq<byte>, k: nat, s: seq<bool>, p: nat, out: seq<byte>)
    requires Sync(cs, st, dict, text, k) && Names(dict, Pow2(cs), c, text) && HasBits(s, p, Bits(c, WidthAt(cs, k)))
    ensures c <= |st.dict| && c != Pow2(cs) && c != Pow2(cs) + 1
    ensures var st', rest := After(cs, st, c, k), text[|dict[c]|..];
      IsState(st, Pow2(cs)) &&
      if k == 0 || |st.dict| < 8192 then
        Sync(cs, st', Learned(dict, c, text), rest, k + 1) &&
        Decode(cs, s, p, st, out) == Decode(cs, s, p + WidthAt(cs, k), st', out + dict[c])
      else Decode(cs, s, p, st, out) == Fail
  {
    hide Decode, Nat, Window, Bits, NextSize, Width, HasBits, Grow, Cut, Ahead, Learned;
    NameFacts(cs, st, dict, c, text, k);
    Grown(cs, st, dict, c, text, k);
    WidthHolds(cs + 1, Pow2(cs) + 1 + k, c);
    NumberRead(s, p, c, WidthAt(cs, k));
    BitsInside(s, p, c, WidthAt(cs, k));
    Gif.CodeStep(cs, s, p, st, out, c);
    SizeNext(cs, k);
    var g := Grow(st.dict, Pow2(cs), st.prev, c);
    if g.Some? { Ahead2(st, dict, c, text, g.value); }
  }

  lemma BitsInside(s: seq<bool>, p: nat, v: nat, n: nat)
    requires HasBits(s, p, Bits(v, n))
    ensures p + n <= |s|
  {
  }

  // ----- all codes up to the next clear code

  lemma {:induction false} CodesDecode(cs: nat, st: State, dict: seq<seq<byte>>, codes: seq<nat>, text: seq<byte>, k: nat, s: seq<bool>,
    p: nat, out: seq<byte>) returns (st': State)
    requires Sync(cs, st, dict, text, k) && Codes(dict, Pow2(cs), codes, text) && HasBits(s, p, CodesBits(cs, codes, k))
    ensures IsState(st, Pow2(cs)) && IsState(st', Pow2(cs))
    ensures if codes == [] || k + |codes| <= 8191 - Pow2(cs)
      then st'.size == WidthAt(cs, k + |codes|) && st'.cleared &&
           Decode(cs, s, p, st, out) == Decode(cs, s, p + |CodesBits(cs, codes, k)|, st', out + text)
      else Decode(cs, s, p, st, out) == Fail
    decreases codes
  {
    hide Decode, Names, HasBits, Bits, Width, Learned, After;
    st' := st;
    if codes == [] {
      assert out + text == out;
    } else {
      var c, w := codes[0], Bits(codes[0], WidthAt(cs, k));
      HasBitsParts(s, p, w, CodesBits(cs, codes[1..], k + 1));
      CodeDecodes(cs, st, dict, c, text, k, s, p, out);
      NameIn(dict, Pow2(cs), c, text);
      if k == 0 || |st.dict| < 8192 {
        var rest := text[|dict[c]|..];
        assert out + dict[c] + rest == out + text;
        st' := CodesDecode(cs, After(cs, st, c, k), Learned(dict, c, text), codes[1..], rest, k + 1, s, p + |w|, out + dict[c]);
      }
    }
  }

  lemma NameIn(dict: seq<seq<byte>>, clear: nat, c: nat, text: seq<byte>)
    requires Names(dict, clear, c, text)
    ensures c < |dict| && dict[c] <= text && text == dict[c] + text[|dict[c]|..]
  {
  }

  // ----- the whole stream

  // Codes between two clear codes, and what they stand for.
  datatype Chunk = Chunk(codes: seq<nat>, text: seq<byte>)

  ghost predicate AreChunks(cs: nat, chunks: seq<Chunk>)
    requires cs <= 11
  {
    forall i :: 0 <= i < |chunks| ==> Codes(Roots(Pow2(cs)), Pow2(cs), chunks[i].codes, chunks[i].text)
  }

  // Each chunk after a clear code, and the end code. Clear and end codes are as long as a code would be that follows the `k`
  // codes before them.
  ghost function ChunksBits(cs: nat, chunks: seq<Chunk>, k: nat): seq<bool>
    requires cs <= 11
    decreases chunks
  {
    if chunks == [] then Bits(Pow2(cs) + 1, WidthAt(cs, k))
    else
      Bits(Pow2(cs), WidthAt(cs, k)) +
      (CodesBits(cs, chunks[0].codes, 0) + ChunksBits(cs, chunks[1..], |chunks[0].codes|))
  }

  function Texts(chunks: seq<Chunk>): seq<byte>
    decreases chunks
  {
    if chunks == [] then [] else chunks[0].text + Texts(chunks[1..])
  }

  // The decoder's table has room for the codes of every chunk.
  ghost predicate Roomy(cs: nat, chunks: seq<Chunk>) {
    forall i :: 0 <= i < |chunks| ==> |chunks[i].codes| <= 8191 - Pow2(cs)
  }

  lemma ControlRead(cs: nat, st: State, c: nat, k: nat, s: seq<bool>, p: nat, out: seq<byte>)
    requires 1 <= cs <= 11 && IsState(st, Pow2(cs)) && st.size == WidthAt(cs, k) && c in {Pow2(cs), Pow2(cs) + 1}
    requires HasBits(s, p, Bits(c, WidthAt(cs, k)))
    ensures Decode(cs, s, p, st, out)
      == if c == Pow2(cs) then Decode(cs, s, p + WidthAt(cs, k), Start(cs, true), out) else Done(out)
  {
    hide Decode, Nat, Window, Bits, NextSize, Width, HasBits, Grow, IsState;
    Pow2Monotone(cs, 11);
    Twelve();
    WidthHolds(cs + 1, Pow2(cs) + 1 + k, c);
    NumberRead(s, p, c, WidthAt(cs, k));
    BitsInside(s, p, c, WidthAt(cs, k));
    Gif.CodeStep(cs, s, p, st, out, c);
  }

  lemma StartSync(cs: nat, text: seq<byte>)
    requires 1 <= cs <= 11
    ensures Sync(cs, Start(cs, true), Roots(Pow2(cs)), text, 0)
  {
    hide Pow2, WidthAt, Roots, Start, IsState;
    StartWidth(cs);
    Gif.StartIs(cs, true);
    Pow2Eleven(cs);
  }

  lemma Pow2Eleven(cs: nat)
    requires cs <= 11
    ensures Pow2(cs) <= 2048
  {
    Pow2Monotone(cs, 11);
    Twelve();
  }

  lemma StartWidth(cs: nat)
    requires 1 <= cs <= 11
    ensures WidthAt(cs, 0) == cs + 1
  {
    assert Pow2(cs + 1) == 2 * Pow2(cs) && Pow2(cs) == 2 * Pow2(cs - 1);
  }

  lemma {:induction false} ChunksDecode(cs: nat, st: State, chunks: seq<Chunk>, k: nat, s: seq<bool>, p: nat, out: seq<byte>)
    requires 1 <= cs <= 11 && IsState(st, Pow2(cs)) && st.size == WidthAt(cs, k) && AreChunks(cs, chunks)
    requires HasBits(s, p, ChunksBits(cs, chunks, k))
    ensures Decode(cs, s, p, st, out) == if Roomy(cs, chunks) then Done(out + Texts(chunks)) else Fail
    decreases chunks
  {
    hide Decode, HasBits, Bits, Width, WidthAt, Codes, CodesBits, IsState, Roots, Sync, Start, Pow2;
    if chunks == [] {
      ControlRead(cs, st, Pow2(cs) + 1, k, s, p, out);
      assert out + [] == out;
    } else {
      var a, rest, w := chunks[0], chunks[1..], Bits(Pow2(cs), WidthAt(cs, k));
      var b, q := CodesBits(cs, a.codes, 0), p + WidthAt(cs, k);
      HasBitsParts(s, p, w, b + ChunksBits(cs, rest, |a.codes|));
      HasBitsParts(s, q, b, ChunksBits(cs, rest, |a.codes|));
      ControlRead(cs, st, Pow2(cs), k, s, p, out);
      StartSync(cs, a.text);
      var st' := CodesDecode(cs, Start(cs, true), Roots(Pow2(cs)), a.codes, a.text, 0, s, q, out);
      RoomyParts(cs, chunks);
      Pow2Eleven(cs);
      if |a.codes| <= 8191 - Pow2(cs) {
        ChunksDecode(cs, st', rest, |a.codes|, s, q + |b|, out + a.text);
        assert out + a.text + Texts(rest) == out + (a.text + Texts(rest));
      }
    }
  }

  lemma RoomyParts(cs: nat, chunks: seq<Chunk>)
    requires chunks != []
    ensures Roomy(cs, chunks) <==> |chunks[0].codes| <= 8191 - Pow2(cs) && Roomy(cs, chunks[1..])
  {
    hide Pow2;
    assert Roomy(cs, chunks[1..]) && |chunks[0].codes| <= 8191 - Pow2(cs) ==>
      forall i :: 0 < i < |chunks| ==> chunks[i] == chunks[1..][i - 1];
    forall i | 0 <= i < |chunks[1..]|
      ensures chunks[1..][i] == chunks[i + 1]
    {
    }
  }

  // Whatever codes an encoder chose, and wherever it cleared its dictionary, the decoder gives back the text, exactly if no more
  // than 8191 - clear codes come between two clear codes.
  lemma RoundTrip(cs: nat, chunks: seq<Chunk>, s: seq<bool>)
    requires 1 <= cs <= 11 && AreChunks(cs, chunks) && HasBits(s, 0, ChunksBits(cs, chunks, 0))
    ensures Decode(cs, s, 0, Start(cs, false), []) == if Roomy(cs, chunks) then Done(Texts(chunks)) else Fail
  {
    StartWidth(cs);
    hide Decode, HasBits, AreChunks, ChunksBits, IsState, Roots, Pow2, WidthAt;
    Gif.StartIs(cs, false);
    ChunksDecode(cs, Start(cs, false), chunks, 0, s, 0, []);
    assert [] + Texts(chunks) == Texts(chunks);
  }

  // ----- encoders

  // The dictionary has every string of one index.
  ghost predicate HasRoots(dict: seq<seq<byte>>, clear: nat) {
    clear <= |dict| && forall c :: 0 <= c < clear && c < 256 ==> dict[c] == [c as byte]
  }

  // The longest of the names among the first `n` codes, of which the first index is one.
  lemma {:induction false} Longest(dict: seq<seq<byte>>, clear: nat, text: seq<byte>, n: nat) returns (c: nat)
    requires HasRoots(dict, clear) && text != [] && text[0] < clear && n <= |dict|
    ensures Names(dict, clear, c, text) && forall b: nat :: b < n && Names(dict, clear, b, text) ==> |dict[b]| <= |dict[c]|
  {
    if n == 0 {
      c := text[0];
      assert dict[c] == text[..1];
    } else {
      c := Longest(dict, clear, text, n - 1);
      if Names(dict, clear, n - 1, text) && |dict[n - 1]| > |dict[c]| { c := n - 1; }
    }
  }

  // Taking the longest name each time covers every text.
  lemma {:induction false} Encode(dict: seq<seq<byte>>, clear: nat, text: seq<byte>) returns (codes: seq<nat>)
    requires HasRoots(dict, clear) && forall i :: 0 <= i < |text| ==> text[i] < clear
    ensures Codes(dict, clear, codes, text) && Greedy(dict, clear, codes, text) && |codes| <= |text|
    decreases |text|
  {
    if text == [] {
      codes := [];
    } else {
      var c := Longest(dict, clear, text, |dict|);
      var more := Encode(Learned(dict, c, text), clear, text[|dict[c]|..]);
      codes := [c] + more;
      assert codes[1..] == more;
    }
  }

  // So every picture of at most 2^cs colours can be written and comes back: in one piece if it is that short.
  lemma GreedyRoundTrip(cs: nat, text: seq<byte>) returns (codes: seq<nat>)
    requires 1 <= cs <= 8 && forall i :: 0 <= i < |text| ==> text[i] < Pow2(cs)
    ensures Codes(Roots(Pow2(cs)), Pow2(cs), codes, text) && Greedy(Roots(Pow2(cs)), Pow2(cs), codes, text)
    ensures forall s :: HasBits(s, 0, ChunksBits(cs, [Chunk(codes, text)], 0)) ==>
      Decode(cs, s, 0, Start(cs, false), []) == if |codes| <= 8191 - Pow2(cs) then Done(text) else Fail
  {
    hide Decode, Codes, Greedy, HasBits, ChunksBits, Start, Pow2;
    RootsThere(Pow2(cs));
    codes := Encode(Roots(Pow2(cs)), Pow2(cs), text);
    var chunks := [Chunk(codes, text)];
    assert chunks[1..] == [] && Texts(chunks) == text + [];
    forall s | HasBits(s, 0, ChunksBits(cs, chunks, 0))
      ensures Decode(cs, s, 0, Start(cs, false), []) == if |codes| <= 8191 - Pow2(cs) then Done(text) else Fail
    {
      RoundTrip(cs, chunks, s);
      assert Roomy(cs, chunks) <==> |chunks[0].codes| <= 8191 - Pow2(cs);
    }
  }

  lemma RootsThere(clear: nat)
    ensures HasRoots(Roots(clear), clear)
  {
  }

  // An encoder that goes on with a full dictionary, as the standard lets it: one code for each index is a coding ...
  lemma {:induction false} OneByOne(dict: seq<seq<byte>>, clear: nat, n: nat)
    requires HasRoots(dict, clear) && clear > 0
    ensures Codes(dict, clear, Repeat<nat>(0, n), Repeat<byte>(0, n))
    decreases n
  {
    if n > 0 {
      var codes, text := Repeat<nat>(0, n), Repeat<byte>(0, n);
      assert dict[0] == text[..1];
      assert codes[1..] == Repeat<nat>(0, n - 1) && text[|dict[0]|..] == Repeat<byte>(0, n - 1);
      OneByOne(Learned(dict, 0, text), clear, n - 1);
    }
  }

  // ... and refused from 8192 - clear codes on.
  lemma FullTable(cs: nat, n: nat, s: seq<bool>)
    requires 1 <= cs <= 8 && n > 8191 - Pow2(cs)
    requires HasBits(s, 0, ChunksBits(cs, [Chunk(Repeat<nat>(0, n), Repeat<byte>(0, n))], 0))
    ensures AreChunks(cs, [Chunk(Repeat<nat>(0, n), Repeat<byte>(0, n))]) && Decode(cs, s, 0, Start(cs, false), []) == Fail
  {
    hide Decode, Codes, HasBits, ChunksBits, Start, Pow2;
    RootsThere(Pow2(cs));
    OneByOne(Roots(Pow2(cs)), Pow2(cs), n);
    var chunks := [Chunk(Repeat<nat>(0, n), Repeat<byte>(0, n))];
    RoundTrip(cs, chunks, s);
    assert |chunks[0].codes| == n;
  }

  // ----- sub-blocks

  // Pieces of 1 to 255 bytes, each after its length, and an empty one.
  ghost predicate ArePieces(pieces: seq<seq<byte>>) { forall i :: 0 <= i < |pieces| ==> 1 <= |pieces[i]| <= 255 }

  function Blocked(pieces: seq<seq<byte>>): seq<byte>
    requires ArePieces(pieces)
    decreases pieces
  {
    if pieces == [] then [0] else [|pieces[0]|] + pieces[0] + Blocked(pieces[1..])
  }

  function Joined(pieces: seq<seq<byte>>): seq<byte>
    decreases pieces
  {
    if pieces == [] then [] else pieces[0] + Joined(pieces[1..])
  }

  lemma {:induction false} SubBlocksRead(pieces: seq<seq<byte>>, before: seq<byte>, after: seq<byte>)
    requires ArePieces(pieces)
    ensures SubBlocks(before + Blocked(pieces) + after, |before|) == Joined(pieces)
    decreases pieces
  {
    var d := before + Blocked(pieces) + after;
    if pieces != [] {
      var a, rest := pieces[0], Blocked(pieces[1..]);
      assert d == (before + [|a|] + a) + rest + after;
      SubBlocksRead(pieces[1..], before + [|a|] + a, after);
      assert d[|before|] == |a|;
      assert Bytes(d, |before| + 1, |a|) == a by { PieceThere(d, before, a, rest + after); }
    } else {
      assert d[|before|] == 0;
    }
  }

  lemma PieceThere(d: seq<byte>, before: seq<byte>, a: seq<byte>, rest: seq<byte>)
    requires |a| <= 255 && d == (before + [|a|] + a) + rest
    ensures Bytes(d, |before| + 1, |a|) == a
  {
    forall i | 0 <= i < |a|
      ensures Bytes(d, |before| + 1, |a|)[i] == a[i]
    {
      assert Bytes(d, |before| + 1, |a|)[i] == ByteAt(d, |before| + 1 + i);
      assert d[|before| + 1 + i] == a[i];
    }
  }
}
