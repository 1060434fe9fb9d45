// `getopt_long` in GNU's PERMUTE order: the state machine over calls, and what a whole run does to `argv`.

module Getopt {
  import opened Wrappers

  // ----- the options a caller declares

  datatype LongOption = LongOption(name: string, hasArg: int, flag: Option<nat>, val: int)

  // `opts` is the option string without its leading '-' or '+'.
  datatype Env = Env(opts: string, longs: Option<seq<LongOption>>, longOnly: bool)

  datatype Ordering = RequireOrder | Permute | ReturnInOrder

  predicate NonOption(arg: string) { |arg| < 2 || arg[0] != '-' }

  // `strchr`: the first position of `c`.
  function Find(s: string, c: char): (i: Option<nat>)
    ensures i.Some? ==> i.value < |s| && s[i.value] == c && c !in s[..i.value]
    ensures i == None ==> c !in s
  {
    if s == "" then None
    else if s[0] == c then Some(0)
    else match Find(s[1..], c)
      case None => None
      case Some(i) =>
        assert s[..i + 1] == [s[0]] + s[1..][..i];
        Some(i + 1)
  }

  datatype Need = NoArgument | RequiredArgument | OptionalArgument | Unknown

  // How option character `c` is declared.
  function Declared(opts: string, c: char): Need {
    match Find(opts, c)
    case None => Unknown
    case Some(i) =>
      if c == ':' || c == ';' then Unknown
      else if i + 1 < |opts| && opts[i + 1] == ':' then
        if i + 2 < |opts| && opts[i + 2] == ':' then OptionalArgument else RequiredArgument
      else NoArgument
  }

  // No option is declared as "W;".
  predicate NoW(opts: string) {
    forall i :: 0 <= i < |opts| - 1 ==> !(opts[i] == 'W' && opts[i + 1] == ';')
  }

  // ----- long options

  datatype Lookup = Absent | Found(index: nat) | Ambiguous

  // The name is what stands before '=', if there is one.
  function NameEnd(s: string): (n: nat)
    ensures n <= |s| && '=' !in s[..n] && (n < |s| ==> s[n] == '=')
  {
    match Find(s, '=') case None => |s| case Some(i) => i
  }

  predicate Same(a: LongOption, b: LongOption) { a.hasArg == b.hasArg && a.flag == b.flag && a.val == b.val }

  predicate Abbreviates(name: string, p: LongOption) { name <= p.name }

  // The loop of the source from entry `i` on: the first match so far, and whether a different one has followed it.
  ghost function LookupFrom(env: Env, name: string, i: nat, found: Option<nat>, ambig: bool): (r: Lookup)
    requires env.longs.Some? && i <= |env.longs.value|
    requires found.Some? ==> found.value < |env.longs.value|
    ensures r.Found? ==> r.index < |env.longs.value|
    decreases |env.longs.value| - i
  {
    var longs := env.longs.value;
    if i == |longs| then
      if ambig then Ambiguous else if found.Some? then Found(found.value) else Absent
    else if !Abbreviates(name, longs[i]) then LookupFrom(env, name, i + 1, found, ambig)
    else if |name| == |longs[i].name| then Found(i)
    else if found == None then LookupFrom(env, name, i + 1, Some(i), ambig)
    else LookupFrom(env, name, i + 1, found, ambig || env.longOnly || !Same(longs[found.value], longs[i]))
  }

  ghost function LookupName(env: Env, name: string): (r: Lookup)
    requires env.longs.Some?
    ensures r.Found? ==> r.index < |env.longs.value|
  {
    LookupFrom(env, name, 0, None, false)
  }

  // ----- what one element of argv consumes

  // Is `arg` looked up among the long options?
  predicate TriesLong(env: Env, arg: string)
    requires |arg| >= 2
  {
    env.longs.Some? && (arg[1] == '-' || (env.longOnly && (|arg| > 2 || Find(env.opts, arg[1]) == None)))
  }

  // Does the part `next` of `arg` end by taking the following element as its argument?
  ghost predicate Takes(env: Env, arg: string, next: string)
    requires |arg| >= 2 && next != ""
    decreases |next|
  {
    if TriesLong(env, arg) then
      match LookupName(env, next[..NameEnd(next)])
      case Ambiguous => false
      case Found(i) => NameEnd(next) == |next| && env.longs.value[i].hasArg == 1
      case Absent =>
        if !env.longOnly || arg[1] == '-' || Find(env.opts, next[0]) == None then false
        else TakesShort(env, arg, next)
    else TakesShort(env, arg, next)
  }

  ghost predicate TakesShort(env: Env, arg: string, next: string)
    requires |arg| >= 2 && next != ""
    decreases |next|, 0
  {
    match Declared(env.opts, next[0])
    case RequiredArgument => |next| == 1
    case OptionalArgument => false
    case _ => |next| > 1 && Takes(env, arg, next[1..])
  }

  // Where scanning of an element begins: after the dash, or after both for a long option.
  function Start(env: Env, arg: string): (next: string)
    requires !NonOption(arg) && arg != "--"
    ensures next != ""
  {
    arg[1 + (if env.longs.Some? && arg[1] == '-' then 1 else 0)..]
  }

  // How many elements the option at `i` takes up.
  ghost function Width(env: Env, a: seq<string>, i: nat): (k: nat)
    requires i < |a| && !NonOption(a[i]) && a[i] != "--"
    ensures 1 <= k <= 2 && i + k <= |a|
  {
    if Takes(env, a[i], Start(env, a[i])) && i + 1 < |a| then 2 else 1
  }

  // The options of `a` from `i` on, with the arguments they take and the "--" that ends them.
  ghost function Options(env: Env, a: seq<string>, i: nat): seq<string>
    requires i <= |a|
    decreases |a| - i
  {
    if i == |a| then []
    else if NonOption(a[i]) then Options(env, a, i + 1)
    else if a[i] == "--" then ["--"]
    else a[i..i + Width(env, a, i)] + Options(env, a, i + Width(env, a, i))
  }

  ghost function NonOptions(env: Env, a: seq<string>, i: nat): seq<string>
    requires i <= |a|
    decreases |a| - i
  {
    if i == |a| then []
    else if NonOption(a[i]) then [a[i]] + NonOptions(env, a, i + 1)
    else if a[i] == "--" then a[i + 1..]
    else NonOptions(env, a, i + Width(env, a, i))
  }

  // ----- what the calls answer

  // The code a call returns, and what it leaves in `optarg` and `longind`.
  datatype Answer = Answer(code: int, arg: Option<string>, index: Option<nat>)

  // A `char`, which is signed, as an `int`.
  function CharCode(c: char): int {
    var v := c as int % 256;
    if v >= 128 then v - 256 else v
  }

  function Missing(opts: string): int { if opts != "" && opts[0] == ':' then ':' as int else '?' as int }

  // The answer at option character `next[0]`; `following` is the next element.
  function ShortAnswer(opts: string, next: string, following: Option<string>): Answer
    requires next != ""
  {
    var c, rest := CharCode(next[0]), next[1..];
    match Declared(opts, next[0])
    case Unknown => Answer('?' as int, None, None)
    case NoArgument => Answer(c, None, None)
    case OptionalArgument => Answer(c, if rest == "" then None else Some(rest), None)
    case RequiredArgument =>
      if rest != "" then Answer(c, Some(rest), None)
      else if following.Some? then Answer(c, following, None)
      else Answer(Missing(opts), None, None)
  }

  // What of the element is left to scan.
  function ShortRest(opts: string, next: string): (rest: string)
    requires next != ""
    ensures |rest| < |next|
  {
    match Declared(opts, next[0])
    case RequiredArgument => ""
    case OptionalArgument => ""
    case _ => next[1..]
  }

  // The answer to a long option whose entry is `p`.
  function FoundAnswer(opts: string, p: LongOption, index: nat, next: string, following: Option<string>): Answer {
    var n, code := NameEnd(next), if p.flag.Some? then 0 else p.val;
    if n < |next| then
      if p.hasArg != 0 then Answer(code, Some(next[n + 1..]), Some(index)) else Answer('?' as int, None, None)
    else if p.hasArg != 1 then Answer(code, None, Some(index))
    else if following.Some? then Answer(code, following, Some(index))
    else Answer(Missing(opts), None, None)
  }

  // The entry whose flag is set.
  predicate SetsFlag(p: LongOption, next: string, following: Option<string>) {
    p.flag.Some? && if NameEnd(next) < |next| then p.hasArg != 0 else p.hasArg != 1 || following.Some?
  }

  // Is the part `next` of `arg` answered as a long option?
  ghost predicate AsLong(env: Env, arg: string, next: string)
    requires |arg| >= 2 && next != ""
  {
    TriesLong(env, arg) &&
    (LookupName(env, next[..NameEnd(next)]) != Absent || !env.longOnly || arg[1] == '-' || Find(env.opts, next[0]) == None)
  }

  ghost function LongAnswer(env: Env, next: string, following: Option<string>): Answer
    requires env.longs.Some?
  {
    match LookupName(env, next[..NameEnd(next)])
    case Found(i) => FoundAnswer(env.opts, env.longs.value[i], i, next, following)
    case _ => Answer('?' as int, None, None)
  }

  // The answers to the part `next` of `arg`.
  ghost function ElementAnswers(env: Env, arg: string, next: string, following: Option<string>): seq<Answer>
    requires |arg| >= 2
    decreases |next|
  {
    if next == "" then []
    else if AsLong(env, arg, next) then [LongAnswer(env, next, following)]
    else [ShortAnswer(env.opts, next, following)] + ElementAnswers(env, arg, ShortRest(env.opts, next), following)
  }

  function Following(a: seq<string>, i: nat): Option<string> { if i + 1 < |a| then Some(a[i + 1]) else None }

  // All the answers from element `i` on.
  ghost function Answers(env: Env, order: Ordering, a: seq<string>, i: nat): seq<Answer>
    requires i <= |a|
    decreases |a| - i
  {
    if i == |a| then []
    else if NonOption(a[i]) then
      match order
      case Permute => Answers(env, order, a, i + 1)
      case RequireOrder => []
      case ReturnInOrder => [Answer(1, Some(a[i]), None)] + Answers(env, order, a, i + 1)
    else if a[i] == "--" then []
    else ElementAnswers(env, a[i], Start(env, a[i]), Following(a, i)) + Answers(env, order, a, i + Width(env, a, i))
  }

  // The answers still to come when `next` is left of element `o`.
  ghost function ToCome(env: Env, order: Ordering, a: seq<string>, o: nat, next: string): seq<Answer> {
    if o > |a| then []
    else if next == "" || o == |a| || NonOption(a[o]) || a[o] == "--" then Answers(env, order, a, o)
    else ElementAnswers(env, a[o], next, Following(a, o)) + Answers(env, order, a, o + Width(env, a, o))
  }

  lemma ToComeLong(env: Env, order: Ordering, a: seq<string>, o: nat, next: string)
    requires o < |a| && !NonOption(a[o]) && a[o] != "--" && next != "" && AsLong(env, a[o], next)
    ensures ToCome(env, order, a, o, next)
         == [LongAnswer(env, next, Following(a, o))] + ToCome(env, order, a, o + Width(env, a, o), "")
  {
    hide AsLong, LongAnswer, Answers, Width;
  }

  lemma ToComeShort(env: Env, order: Ordering, a: seq<string>, o: nat, next: string)
    requires o < |a| && !NonOption(a[o]) && a[o] != "--" && next != "" && !AsLong(env, a[o], next)
    ensures var rest := ShortRest(env.opts, next);
      ToCome(env, order, a, o, next) == [ShortAnswer(env.opts, next, Following(a, o))] +
        (if rest == "" then ToCome(env, order, a, o + Width(env, a, o), "") else ToCome(env, order, a, o, rest))
  {
    hide *;
    var rest, f := ShortRest(env.opts, next), Following(a, o);
    Pending(env, order, a, o, next);
    ElementShort(env, a[o], next, f);
    if rest != "" { Pending(env, order, a, o, rest); } else { NothingLeft(env, a[o], f); }
    NoneToCome(env, order, a, o + Width(env, a, o));
  }

  lemma NoneToCome(env: Env, order: Ordering, a: seq<string>, o: nat)
    requires o <= |a|
    ensures ToCome(env, order, a, o, "") == Answers(env, order, a, o)
  {
    hide Answers;
  }

  lemma NothingLeft(env: Env, arg: string, f: Option<string>)
    requires |arg| >= 2
    ensures ElementAnswers(env, arg, "", f) == []
  {
  }

  lemma Pending(env: Env, order: Ordering, a: seq<string>, o: nat, next: string)
    requires o < |a| && !NonOption(a[o]) && a[o] != "--" && next != ""
    ensures |a[o]| >= 2
    ensures ToCome(env, order, a, o, next)
         == ElementAnswers(env, a[o], next, Following(a, o)) + Answers(env, order, a, o + Width(env, a, o))
  {
    hide ElementAnswers, Answers, Width, Following;
  }

  lemma ElementShort(env: Env, arg: string, next: string, f: Option<string>)
    requires |arg| >= 2 && next != "" && !AsLong(env, arg, next)
    ensures ElementAnswers(env, arg, next, f)
         == [ShortAnswer(env.opts, next, f)] + ElementAnswers(env, arg, ShortRest(env.opts, next), f)
  {
    hide AsLong, ShortAnswer, ShortRest;
  }

  // Before an option nothing is left of the element before.
  lemma ToComeStart(env: Env, order: Ordering, a: seq<string>, o: nat)
    requires o < |a| && !NonOption(a[o]) && a[o] != "--"
    ensures ToCome(env, order, a, o, "") == ToCome(env, order, a, o, Start(env, a[o]))
    ensures StopsAt(env, order, a, o) == StopsAt(env, order, a, o + Width(env, a, o))
  {
    hide ElementAnswers, Width;
  }

  lemma ToComeElse(env: Env, order: Ordering, a: seq<string>, o: nat)
    requires o <= |a| && (o == |a| || a[o] == "--" || NonOption(a[o]))
    ensures o < |a| && NonOption(a[o]) && order == Permute ==> ToCome(env, order, a, o, "") == ToCome(env, order, a, o + 1, "")
    ensures o < |a| && NonOption(a[o]) && order == ReturnInOrder ==>
      ToCome(env, order, a, o, "") == [Answer(1, Some(a[o]), None)] + ToCome(env, order, a, o + 1, "") &&
      StopsAt(env, order, a, o) == StopsAt(env, order, a, o + 1)
    ensures o == |a| || a[o] == "--" || order == RequireOrder ==> ToCome(env, order, a, o, "") == []
    ensures o == |a| || a[o] == "--" || order == RequireOrder ==>
      StopsAt(env, order, a, o) == if o < |a| && a[o] == "--" then o + 1 else o
  {
  }

  // The first element that is not scanned, when none are moved.
  ghost function StopsAt(env: Env, order: Ordering, a: seq<string>, i: nat): (k: nat)
    requires i <= |a|
    ensures i <= k <= |a|
    decreases |a| - i
  {
    if i == |a| then i
    else if NonOption(a[i]) then if order == RequireOrder then i else StopsAt(env, order, a, i + 1)
    else if a[i] == "--" then i + 1
    else StopsAt(env, order, a, i + Width(env, a, i))
  }

  // ----- exchange_a

  ghost function Rotated(s: seq<string>, b: nat, m: nat, t: nat): seq<string>
    requires b <= m <= t <= |s|
  {
    s[..b] + s[m..t] + s[b..m] + s[t..]
  }

  ghost function Swapped(s: seq<string>, p: nat, q: nat, len: nat): (r: seq<string>)
    requires p + len <= q && q + len <= |s|
    ensures |r| == |s|
  {
    s[..p] + s[q..q + len] + s[p + len..q] + s[p..p + len] + s[q + len..]
  }

  // A longer upper block: its end changes places with the lower block.
  lemma ShrinkTop(s: seq<string>, b: nat, m: nat, t: nat)
    requires b <= m <= t <= |s| && m - b < t - m
    ensures var len := m - b; Rotated(Swapped(s, b, t - len, len), b, m, t - len) == Rotated(s, b, m, t)
  {
    var len := m - b;
    var r := Swapped(s, b, t - len, len);
    var head, lower, mid, last, tail := s[..b], s[b..m], s[m..t - len], s[t - len..t], s[t..];
    assert s[m..t] == mid + last;
    assert r[..b] == head && r[b..m] == last && r[m..t - len] == mid && r[t - len..] == lower + tail;
    hide Swapped;
    assert head + mid + last + (lower + tail) == head + (mid + last) + lower + tail;
  }

  lemma RaiseBottom(s: seq<string>, b: nat, m: nat, t: nat)
    requires b <= m <= t <= |s| && t - m <= m - b
    ensures var len := t - m; Rotated(Swapped(s, b, m, len), b + len, m, t) == Rotated(s, b, m, t)
  {
    var len := t - m;
    var r := Swapped(s, b, m, len);
    assert r[..b + len] == s[..b] + s[m..t] && r[b + len..m] == s[b + len..m] && r[m..t] == s[b..b + len];
    assert r[t..] == s[t..];
    assert s[b..m] == s[b..b + len] + s[b + len..m];
  }

  // Rotates `argv[first..last]` behind `argv[last..ind]`, in place, by block swaps.
  method Exchange(argv: array<string>, first: nat, last: nat, ind: nat)
    requires first <= last <= ind <= argv.Length
    modifies argv
    ensures argv[..] == Rotated(old(argv[..]), first, last, ind)
  {
    hide Rotated, Swapped;
    var bottom, middle, top := first, last, ind;
    while top > middle && middle > bottom
      invariant 0 <= bottom <= middle <= top <= argv.Length
      invariant Rotated(argv[..], bottom, middle, top) == Rotated(old(argv[..]), first, last, ind)
      decreases top - bottom
    {
      if top - middle > middle - bottom {
        var len := middle - bottom;
        ShrinkTop(argv[..], bottom, middle, top);
        SwapBlocks(argv, bottom, top - (middle - bottom), len);
        top := top - len;
      } else {
        var len := top - middle;
        RaiseBottom(argv[..], bottom, middle, top);
        SwapBlocks(argv, bottom, middle, len);
        bottom := bottom + len;
      }
    }
    Trivial(argv[..], bottom, middle, top);
  }

  lemma Trivial(s: seq<string>, b: nat, m: nat, t: nat)
    requires b <= m <= t <= |s| && (b == m || m == t)
    ensures Rotated(s, b, m, t) == s
  {
  }

  // What stands at `k` once the first `i` elements of the blocks at `p` and `q` have changed places.
  ghost function SwapAt(was: seq<string>, p: nat, q: nat, i: nat, k: nat): string
    requires p + i <= q && q + i <= |was| && k < |was|
  {
    if p <= k < p + i then was[k + (q - p)] else if q <= k < q + i then was[k - (q - p)] else was[k]
  }

  ghost predicate SwappedTo(now: seq<string>, was: seq<string>, p: nat, q: nat, i: nat)
    requires p + i <= q && q + i <= |was|
  {
    |now| == |was| &&
    forall k :: 0 <= k < |was| ==> now[k] == SwapAt(was, p, q, i, k)
  }

  lemma SwapNext(now: seq<string>, was: seq<string>, p: nat, q: nat, i: nat)
    requires p + i < q && q + i < |was| && SwappedTo(now, was, p, q, i)
    ensures SwappedTo(now[p + i := now[q + i]][q + i := now[p + i]], was, p, q, i + 1)
  {
    var next := now[p + i := now[q + i]][q + i := now[p + i]];
    forall k | 0 <= k < |was|
      ensures next[k] == SwapAt(was, p, q, i + 1, k)
    {
      assert now[k] == SwapAt(was, p, q, i, k);
      assert now[p + i] == SwapAt(was, p, q, i, p + i) && now[q + i] == SwapAt(was, p, q, i, q + i);
    }
  }

  lemma SwapDone(now: seq<string>, was: seq<string>, p: nat, q: nat, len: nat)
    requires p + len <= q && q + len <= |was| && SwappedTo(now, was, p, q, len)
    ensures now == Swapped(was, p, q, len)
  {
    var r := Swapped(was, p, q, len);
    forall k | 0 <= k < |was|
      ensures now[k] == r[k]
    {
      assert now[k] == SwapAt(was, p, q, len, k);
      if k < p {
      } else if k < p + len {
        assert r[k] == was[q..q + len][k - p];
      } else if k < q {
        assert r[k] == was[p + len..q][k - p - len];
      } else if k < q + len {
        assert r[k] == was[p..p + len][k - q];
      }
    }
  }

  // Exchanges two blocks of `len` elements that do not overlap.
  method SwapBlocks(argv: array<string>, p: nat, q: nat, len: nat)
    requires p + len <= q && q + len <= argv.Length
    modifies argv
    ensures argv[..] == Swapped(old(argv[..]), p, q, len)
  {
    hide Swapped, SwappedTo;
    ghost var was := argv[..];
    NoneSwapped(was, p, q);
    for i := 0 to len
      invariant SwappedTo(argv[..], was, p, q, i)
    {
      SwapNext(argv[..], was, p, q, i);
      var tem := argv[p + i];
      argv[p + i] := argv[q + i];
      argv[q + i] := tem;
    }
    SwapDone(argv[..], was, p, q, len);
  }

  lemma NoneSwapped(was: seq<string>, p: nat, q: nat)
    requires p <= q <= |was|
    ensures SwappedTo(was, was, p, q, 0)
  {
  }

  // ----- where a run stands between elements

  // `s` is argv now and `a` argv at the start, where scanning began at `p`. What was consumed so far lies in
  // s[p..f] and s[l..o], what was skipped in s[f..l], and s[o..] is still to come.
  ghost predicate Split(env: Env, a: seq<string>, p: nat, s: seq<string>, f: nat, l: nat, o: nat) {
    |s| == |a| && p <= f <= l <= o <= |a| && s[..p] == a[..p] && s[o..] == a[o..] &&
    s[p..f] + s[l..o] + Options(env, a, o) == Options(env, a, p) &&
    s[f..l] + NonOptions(env, a, o) == NonOptions(env, a, p)
  }

  // A stable partition: first the options with their arguments, then, from `ind` on, the other elements.
  ghost predicate Partitioned(env: Env, a: seq<string>, p: nat, s: seq<string>, ind: nat) {
    p <= |a| && s == a[..p] + Options(env, a, p) + NonOptions(env, a, p) && ind == p + |Options(env, a, p)|
  }

  lemma SplitStart(env: Env, a: seq<string>, p: nat)
    requires p <= |a|
    ensures Split(env, a, p, a, p, p, p)
  {
    hide Options, NonOptions;
    assert a[p..p] + a[p..p] + Options(env, a, p) == Options(env, a, p);
    assert a[p..p] + NonOptions(env, a, p) == NonOptions(env, a, p);
  }

  lemma SplitExchange(env: Env, a: seq<string>, p: nat, s: seq<string>, f: nat, l: nat, o: nat)
    requires Split(env, a, p, s, f, l, o)
    ensures Split(env, a, p, Rotated(s, f, l, o), f + (o - l), o, o)
  {
    hide Options, NonOptions;
    var r, g := Rotated(s, f, l, o), f + (o - l);
    assert r[..p] == s[..p] && r[o..] == s[o..];
    assert r[p..g] + r[o..o] == s[p..f] + s[l..o];
    assert r[g..o] == s[f..l];
  }

  lemma SplitMove(env: Env, a: seq<string>, p: nat, s: seq<string>, f: nat, o: nat)
    requires Split(env, a, p, s, f, f, o)
    ensures Split(env, a, p, s, o, o, o)
  {
    hide Options, NonOptions;
    assert s[p..o] + s[o..o] == s[p..f] + s[f..o];
    assert s[o..o] == s[f..f];
  }

  lemma SameRest(s: seq<string>, a: seq<string>, o: nat, k: nat)
    requires |s| == |a| && o + k <= |a| && s[o..] == a[o..]
    ensures s[o..o + k] == a[o..o + k] && s[o + k..] == a[o + k..] && (k > 0 ==> s[o] == a[o])
  {
    assert s[o..o + k] == s[o..][..k] && a[o..o + k] == a[o..][..k];
    assert s[o + k..] == s[o..][k..] && a[o + k..] == a[o..][k..];
    if k > 0 { assert s[o..][0] == a[o..][0]; }
  }

  lemma SplitSkip(env: Env, a: seq<string>, p: nat, s: seq<string>, f: nat, o: nat)
    requires Split(env, a, p, s, f, o, o) && o < |a| && NonOption(s[o])
    ensures Split(env, a, p, s, f, o + 1, o + 1)
  {
    hide Options, NonOptions, NonOption;
    SameRest(s, a, o, 1);
    StepNonOption(env, a, o);
    assert s[o + 1..o + 1] == s[o..o];
    assert s[f..o + 1] + NonOptions(env, a, o + 1) == s[f..o] + ([a[o]] + NonOptions(env, a, o + 1));
  }

  lemma StepNonOption(env: Env, a: seq<string>, o: nat)
    requires o < |a| && NonOption(a[o])
    ensures Options(env, a, o) == Options(env, a, o + 1)
    ensures NonOptions(env, a, o) == [a[o]] + NonOptions(env, a, o + 1)
  {
  }

  lemma StepOption(env: Env, a: seq<string>, o: nat)
    requires o < |a| && !NonOption(a[o]) && a[o] != "--"
    ensures Options(env, a, o) == a[o..o + Width(env, a, o)] + Options(env, a, o + Width(env, a, o))
    ensures NonOptions(env, a, o) == NonOptions(env, a, o + Width(env, a, o))
  {
  }

  lemma SplitTake(env: Env, a: seq<string>, p: nat, s: seq<string>, f: nat, l: nat, o: nat)
    requires Split(env, a, p, s, f, l, o) && o < |a| && !NonOption(a[o]) && a[o] != "--"
    ensures Split(env, a, p, s, f, l, o + Width(env, a, o))
  {
    StepOption(env, a, o);
    hide Options, NonOptions, Width;
    var k := Width(env, a, o);
    SameRest(s, a, o, k);
    assert s[l..o + k] == s[l..o] + s[o..o + k];
    assert s[p..f] + s[l..o + k] + Options(env, a, o + k) == s[p..f] + s[l..o] + (a[o..o + k] + Options(env, a, o + k));
  }

  // The "--" itself is consumed, and everything after it is not an option.
  lemma SplitDashes(env: Env, a: seq<string>, p: nat, s: seq<string>, f: nat, o: nat)
    requires Split(env, a, p, s, f, o, o) && o < |a| && s[o] == "--"
    ensures Partitioned(env, a, p, Rotated(s, f, o, o + 1), f + 1)
  {
    SameRest(s, a, o, 1);
    assert Options(env, a, o) == ["--"] && NonOptions(env, a, o) == a[o + 1..];
    hide Options, NonOptions;
    assert s[o..o] == [];
    assert Options(env, a, p) == s[p..f] + ["--"];
    assert Rotated(s, f, o, o + 1) == s[..p] + (s[p..f] + [s[o]]) + (s[f..o] + s[o + 1..]);
  }

  lemma SplitEnd(env: Env, a: seq<string>, p: nat, s: seq<string>, f: nat)
    requires Split(env, a, p, s, f, |a|, |a|)
    ensures Partitioned(env, a, p, s, f)
  {
    assert Options(env, a, |a|) == [] && NonOptions(env, a, |a|) == [];
    hide Options, NonOptions;
    assert s[|a|..|a|] == [];
    assert s == s[..p] + s[p..f] + s[f..|a|];
  }

  // Within an element: `next` is the part of it not scanned yet, and decides what the element takes.
  ghost predicate Within(env: Env, arg: string, next: string) {
    !NonOption(arg) && arg != "--" && (next != "" ==> (Takes(env, arg, next) <==> Takes(env, arg, Start(env, arg))))
  }

  lemma WidthOf(env: Env, a: seq<string>, o: nat, next: string)
    requires o < |a| && Within(env, a[o], next) && next != ""
    ensures Width(env, a, o) == if Takes(env, a[o], next) && o + 1 < |a| then 2 else 1
  {
  }

  // ----- struct _getopt_data_a

  function Strip(optstring: string): string {
    if optstring != "" && (optstring[0] == '-' || optstring[0] == '+') then optstring[1..] else optstring
  }

  // A call's result: the end of the options (-1 in the source), or the code it returns.
  datatype Outcome = End | Code(c: int)

  class GetoptData {
    var optind: nat
    var optarg: Option<string>
    var optopt: int
    var initialized: bool
    var nextchar: string
    var ordering: Ordering
    var firstNonopt: nat
    var lastNonopt: nat
    var flags: map<nat, int>

    constructor ()
      ensures optind == 1 && !initialized && nextchar == ""
    {
      optind, optarg, optopt, initialized, nextchar := 1, None, '?' as int, false, "";
      ordering, firstNonopt, lastNonopt, flags := Permute, 1, 1, map[];
    }

    // A scan of `a` from `p` on is under way.
    ghost predicate Scanning(env: Env, a: seq<string>, p: nat, s: seq<string>)
      reads this
    {
      initialized && 1 <= p <= optind <= |a| == |s| &&
      (nextchar != "" ==> optind < |a| && Within(env, s[optind], nextchar)) &&
      if ordering == Permute then Split(env, a, p, s, firstNonopt, lastNonopt, optind)
      else s == a && firstNonopt == lastNonopt <= optind
    }

    lemma ScanningFacts(env: Env, a: seq<string>, p: nat, s: seq<string>)
      requires Scanning(env, a, p, s)
      ensures initialized && 1 <= optind <= |a| == |s|
    {
    }

    // `_getopt_initialize_a`; `posixly` also stands for the environment variable POSIXLY_CORRECT.
    method Initialize(optstring: string, posixly: bool)
      modifies this
      ensures firstNonopt == lastNonopt == optind == old(optind) && nextchar == "" && initialized == old(initialized)
      ensures optarg == old(optarg)
      ensures ordering == if optstring != "" && optstring[0] == '-' then ReturnInOrder
                          else if (optstring != "" && optstring[0] == '+') || posixly then RequireOrder else Permute
    {
      firstNonopt, lastNonopt, nextchar := optind, optind, "";
      if optstring != "" && optstring[0] == '-' {
        ordering := ReturnInOrder;
      } else if optstring != "" && optstring[0] == '+' {
        ordering := RequireOrder;
      } else if posixly {
        ordering := RequireOrder;
      } else {
        ordering := Permute;
      }
    }

    // Moves what was skipped behind what was consumed since, then skips further.
    method PermuteStep(env: Env, argv: array<string>, ghost a: seq<string>, ghost p: nat)
      requires Scanning(env, a, p, argv[..]) && ordering == Permute && nextchar == ""
      modifies `optind, `firstNonopt, `lastNonopt, argv
      ensures Scanning(env, a, p, argv[..]) && lastNonopt == optind >= old(optind)
      ensures optind < |a| ==> !NonOption(argv[optind])
      ensures ToCome(env, Permute, a, optind, "") == ToCome(env, Permute, a, old(optind), "")
    {
      hide Split, Within, NonOption, Rotated, ToCome;
      SplitFacts(env, a, p, argv[..], firstNonopt, lastNonopt, optind);
      if firstNonopt != lastNonopt && lastNonopt != optind {
        SplitExchange(env, a, p, argv[..], firstNonopt, lastNonopt, optind);
        Exchange(argv, firstNonopt, lastNonopt, optind);
        firstNonopt := firstNonopt + (optind - lastNonopt);
        lastNonopt := optind;
      } else if lastNonopt != optind {
        SplitMove(env, a, p, argv[..], firstNonopt, optind);
        firstNonopt := optind;
      }
      while optind < argv.Length && NonOption(argv[optind])
        invariant Split(env, a, p, argv[..], firstNonopt, optind, optind)
        invariant old(optind) <= optind <= argv.Length
        invariant ToCome(env, Permute, a, optind, "") == ToCome(env, Permute, a, old(optind), "")
      {
        SplitElement(env, a, p, argv[..], firstNonopt, optind, optind);
        ToComeElse(env, Permute, a, optind);
        SplitSkip(env, a, p, argv[..], firstNonopt, optind);
        optind := optind + 1;
      }
      lastNonopt := optind;
    }

    static lemma SplitFacts(env: Env, a: seq<string>, p: nat, s: seq<string>, f: nat, l: nat, o: nat)
      requires Split(env, a, p, s, f, l, o)
      ensures |s| == |a| && p <= f <= l <= o <= |a|
    {
    }

    static lemma SplitElement(env: Env, a: seq<string>, p: nat, s: seq<string>, f: nat, l: nat, o: nat)
      requires Split(env, a, p, s, f, l, o) && o < |a|
      ensures |s| == |a| && s[o] == a[o]
    {
      assert s[o..][0] == a[o..][0];
    }

    // Finds the next element to scan. `None`: it is an option, and `nextchar` is at its start.
    method NextElement(env: Env, argv: array<string>, ghost a: seq<string>, ghost p: nat) returns (r: Option<Outcome>)
      requires Scanning(env, a, p, argv[..]) && nextchar == ""
      modifies this, argv
      ensures initialized && ordering == old(ordering)
      ensures r == None ==> Scanning(env, a, p, argv[..]) && nextchar != "" && optind >= old(optind)
      ensures r == Some(End) && ordering == Permute ==> Partitioned(env, a, p, argv[..], optind)
      ensures ordering == Permute ==> r == None || r == Some(End)
      ensures ordering != Permute ==> argv[..] == a
      ensures r.Some? && r.value.Code? ==> r == Some(Code(1))
      ensures r.Some? && r.value.Code? ==> Scanning(env, a, p, argv[..]) && optind > old(optind) && nextchar == ""
      ensures r == None ==> optarg == old(optarg)
      ensures ToCome(env, ordering, a, old(optind), "") == match r
              case None => ToCome(env, ordering, a, optind, nextchar)
              case Some(End) => []
              case Some(Code(c)) => [Answer(c, optarg, None)] + ToCome(env, ordering, a, optind, "")
      ensures ordering != Permute ==>
        StopsAt(env, ordering, a, old(optind)) == if r == Some(End) then optind else StopsAt(env, ordering, a, optind)
    {
      hide Split, Within, Partitioned, ToCome, StopsAt;
      if ordering == Permute {
        PermuteStep(env, argv, a, p);
      }
      SameElement(env, a, p, argv[..]);
      if optind == |a| || a[optind] == "--" || NonOption(a[optind]) { ToComeElse(env, ordering, a, optind); }
      if optind != argv.Length && argv[optind] == "--" {
        Dashes(env, argv, a, p);
        return Some(End);
      }
      if optind == argv.Length {
        if ordering == Permute { SplitEnd(env, a, p, argv[..], firstNonopt); }
        if firstNonopt != lastNonopt { optind := firstNonopt; }
        return Some(End);
      }
      if NonOption(argv[optind]) {
        if ordering == RequireOrder { return Some(End); }
        optarg := Some(argv[optind]);
        optind := optind + 1;
        return Some(Code(1));
      }
      ToComeStart(env, ordering, a, optind);
      nextchar := Start(env, argv[optind]);
      StartsWithin(env, argv[optind]);
      r := None;
    }

    static lemma StartsWithin(env: Env, arg: string)
      requires !NonOption(arg) && arg != "--"
      ensures Within(env, arg, Start(env, arg))
    {
    }

    // Where scanning stands at the element "--".
    lemma DashesAt(env: Env, s: seq<string>, a: seq<string>, p: nat)
      requires Scanning(env, a, p, s) && optind < |s| && s[optind] == "--" && (ordering == Permute ==> lastNonopt == optind)
      ensures |s| == |a| && firstNonopt <= lastNonopt <= optind
      ensures ordering != Permute ==> s == a && firstNonopt == lastNonopt
      ensures ordering == Permute ==> Partitioned(env, a, p, Rotated(s, firstNonopt, optind, optind + 1), firstNonopt + 1)
    {
      hide Partitioned, Rotated;
      if ordering == Permute {
        SplitFacts(env, a, p, s, firstNonopt, lastNonopt, optind);
        SplitDashes(env, a, p, s, firstNonopt, optind);
      }
    }

    // The element "--": what follows is not scanned.
    method Dashes(env: Env, argv: array<string>, ghost a: seq<string>, ghost p: nat)
      requires Scanning(env, a, p, argv[..]) && nextchar == "" && optind < argv.Length && argv[optind] == "--"
      requires ordering == Permute ==> lastNonopt == optind
      modifies `optind, `firstNonopt, `lastNonopt, argv
      ensures ordering == Permute ==> Partitioned(env, a, p, argv[..], optind)
      ensures ordering != Permute ==> argv[..] == a && optind == old(optind) + 1
    {
      hide *;
      DashesAt(env, argv[..], a, p);
      optind := optind + 1;
      if firstNonopt != lastNonopt && lastNonopt != optind {
        Exchange(argv, firstNonopt, lastNonopt, optind);
        firstNonopt := firstNonopt + (optind - lastNonopt);
        lastNonopt := optind;
      } else if firstNonopt == lastNonopt {
        if ordering == Permute { Trivial(argv[..], firstNonopt, firstNonopt, optind); }
        firstNonopt := optind;
      }
      lastNonopt := argv.Length;
      optind := argv.Length;
      if optind == argv.Length {
        if firstNonopt != lastNonopt { optind := firstNonopt; }
      }
    }
  
    // ----- one option

    // The search through the long options.
    method FindLong(env: Env, name: string) returns (found: Option<nat>, ambig: bool)
      requires env.longs.Some?
      ensures LookupName(env, name) == if ambig then Ambiguous else if found.Some? then Found(found.value) else Absent
      ensures found.Some? ==> found.value < |env.longs.value|
    {
      hide LookupFrom, Abbreviates, Same;
      var longs := env.longs.value;
      found, ambig := None, false;
      for i := 0 to |longs|
        invariant found.Some? ==> found.value < |longs|
        invariant LookupFrom(env, name, 0, None, false) == LookupFrom(env, name, i, found, ambig)
      {
        LookupStep(env, name, i, found, ambig);
        if Abbreviates(name, longs[i]) {
          if |name| == |longs[i].name| {
            // an exact match overrides any ambiguity
            return Some(i), false;
          } else if found == None {
            found := Some(i);
          } else if env.longOnly || !Same(longs[found.value], longs[i]) {
            ambig := true;
          }
        }
      }
      LookupDone(env, name, found, ambig);
    }

    static lemma LookupStep(env: Env, name: string, i: nat, found: Option<nat>, ambig: bool)
      requires env.longs.Some? && i < |env.longs.value| && (found.Some? ==> found.value < |env.longs.value|)
      ensures var longs := env.longs.value;
              LookupFrom(env, name, i, found, ambig) ==
              if !Abbreviates(name, longs[i]) then LookupFrom(env, name, i + 1, found, ambig)
              else if |name| == |longs[i].name| then Found(i)
              else if found == None then LookupFrom(env, name, i + 1, Some(i), ambig)
              else if env.longOnly || !Same(longs[found.value], longs[i]) then LookupFrom(env, name, i + 1, found, true)
              else LookupFrom(env, name, i + 1, found, ambig)
    {
    }

    static lemma LookupDone(env: Env, name: string, found: Option<nat>, ambig: bool)
      requires env.longs.Some? && (found.Some? ==> found.value < |env.longs.value|)
      ensures LookupFrom(env, name, |env.longs.value|, found, ambig)
              == if ambig then Ambiguous else if found.Some? then Found(found.value) else Absent
    {
    }

    // A long option, or `None` when the element is to be scanned as short options instead.
    method LongStep(env: Env, argv: array<string>) returns (r: Option<Outcome>, longind: Option<nat>)
      requires optind < argv.Length && nextchar != "" && !NonOption(argv[optind]) && TriesLong(env, argv[optind]) && optarg == None
      modifies `optind, `optarg, `optopt, `nextchar, `flags
      ensures r.Some? <==> AsLong(env, argv[old(optind)], old(nextchar))
      ensures r.Some? ==>
        r.value.Code? &&
        Answer(r.value.c, optarg, longind) == LongAnswer(env, old(nextchar), Following(argv[..], old(optind)))
      ensures r == None ==> optarg == None && longind == None
      ensures r == None ==> optind == old(optind) && nextchar == old(nextchar)
      ensures r == None ==> (Takes(env, argv[old(optind)], old(nextchar)) <==> TakesShort(env, argv[old(optind)], old(nextchar)))
      ensures r.Some? ==> r.value.Code? && nextchar == "" && var more := old(optind) + 1 < argv.Length;
        optind == old(optind) + (if Takes(env, argv[old(optind)], old(nextchar)) && more then 2 else 1)
    {
      hide LookupName, TakesShort, FoundAnswer;
      longind := None;
      var n := NameEnd(nextchar);
      ghost var arg, next := argv[optind], nextchar;
      var found, ambig := FindLong(env, nextchar[..n]);
      if ambig {
        nextchar := "";
        optind := optind + 1;
        optopt := 0;
        return Some(Code('?' as int)), None;
      }
      if found.Some? {
        r, longind := LongFound(env, argv, found.value, n);
        return;
      }
      if !env.longOnly || argv[optind][1] == '-' || Find(env.opts, nextchar[0]) == None {
        nextchar := "";
        optind := optind + 1;
        optopt := 0;
        return Some(Code('?' as int)), None;
      }
      r := None;
    }

    method LongFound(env: Env, argv: array<string>, index: nat, n: nat) returns (r: Option<Outcome>, longind: Option<nat>)
      requires optind < argv.Length && env.longs.Some? && index < |env.longs.value| && n == NameEnd(nextchar) && optarg == None
      modifies `optind, `optarg, `optopt, `nextchar, `flags
      ensures r.Some? && r.value.Code? && nextchar == ""
      ensures var takes := n == old(|nextchar|) && env.longs.value[index].hasArg == 1;
              optind == old(optind) + (if takes && old(optind) + 1 < argv.Length then 2 else 1)
      ensures var pfound, following := env.longs.value[index], Following(argv[..], old(optind));
              Answer(r.value.c, optarg, longind) == FoundAnswer(env.opts, pfound, index, old(nextchar), following) &&
              flags == if SetsFlag(pfound, old(nextchar), following) then old(flags)[pfound.flag.value := pfound.val] else old(flags)
      ensures longind == None ==> optopt == env.longs.value[index].val
    {
      longind := None;
      var pfound := env.longs.value[index];
      optind := optind + 1;
      if n < |nextchar| {
        if pfound.hasArg != 0 {
          optarg := Some(nextchar[n + 1..]);
        } else {
          nextchar := "";
          optopt := pfound.val;
          return Some(Code('?' as int)), None;
        }
      } else if pfound.hasArg == 1 {
        if optind < argv.Length {
          optarg := Some(argv[optind]);
          optind := optind + 1;
        } else {
          nextchar := "";
          optopt := pfound.val;
          return Some(Code(Missing(env.opts))), None;
        }
      }
      nextchar := "";
      longind := Some(index);
      if pfound.flag.Some? {
        flags := flags[pfound.flag.value := pfound.val];
        return Some(Code(0)), longind;
      }
      r := Some(Code(pfound.val));
    }

    // One option character.
    method ShortStep(env: Env, argv: array<string>) returns (c: int)
      requires optind < argv.Length && nextchar != "" && !NonOption(argv[optind]) && NoW(env.opts) && optarg == None
      modifies `optind, `optarg, `optopt, `nextchar
      ensures nextchar != "" ==> optind == old(optind) && |nextchar| < old(|nextchar|) &&
                                 (TakesShort(env, argv[optind], old(nextchar)) <==> Takes(env, argv[optind], nextchar))
      ensures nextchar == "" ==> var more := old(optind) + 1 < argv.Length;
        optind == old(optind) + (if TakesShort(env, argv[old(optind)], old(nextchar)) && more then 2 else 1)
      ensures Answer(c, optarg, None) == ShortAnswer(env.opts, old(nextchar), Following(argv[..], old(optind)))
      ensures nextchar == ShortRest(env.opts, old(nextchar))
      ensures c == '?' as int && Declared(env.opts, old(nextchar)[0]).Unknown? ==> optopt == CharCode(old(nextchar)[0])
    {
      hide Takes;
      var ch := nextchar[0];
      nextchar := nextchar[1..];
      var temp := Find(env.opts, ch);
      if nextchar == "" { optind := optind + 1; }
      if temp == None || ch == ':' || ch == ';' {
        optopt := CharCode(ch);
        return '?' as int;
      }
      c := CharCode(ch);
      var t := temp.value;
      if t + 1 < |env.opts| && env.opts[t + 1] == ':' {
        if t + 2 < |env.opts| && env.opts[t + 2] == ':' {
          if nextchar != "" {
            optarg := Some(nextchar);
            optind := optind + 1;
          } else {
            optarg := None;
          }
          nextchar := "";
        } else {
          if nextchar != "" {
            optarg := Some(nextchar);
            optind := optind + 1;
          } else if optind == argv.Length {
            optopt := CharCode(ch);
            c := Missing(env.opts);
          } else {
            optarg := Some(argv[optind]);
            optind := optind + 1;
          }
          nextchar := "";
        }
      }
    }

    // ----- one call

    // `_getopt_internal_r_a`
    method Getopt(argv: array<string>, optstring: string, longs: Option<seq<LongOption>>, longOnly: bool, posixly: bool,
                  ghost a: seq<string>, ghost p: nat)
      returns (r: Outcome, longind: Option<nat>)
      requires NoW(Strip(optstring))
      requires argv.Length > 0 ==> if optind == 0 || !initialized
                                   then a == argv[..] && p == (if optind == 0 then 1 else optind) && p <= |a|
                                   else Scanning(Env(Strip(optstring), longs, longOnly), a, p, argv[..])
      modifies this, argv
      ensures argv.Length > 0 ==> initialized
      ensures argv.Length > 0 ==>
        ordering == if old(initialized) && old(optind) > 0 then old(ordering) else OrderingOf(optstring, posixly)
      ensures argv.Length > 0 && r.Code? ==> Scanning(Env(Strip(optstring), longs, longOnly), a, p, argv[..])
      ensures argv.Length > 0 && r.Code? && old(initialized) && old(optind) > 0 ==>
        optind > old(optind) || (optind == old(optind) && nextchar != "" && (old(nextchar) == "" || |nextchar| < |old(nextchar)|))
      ensures argv.Length > 0 && r == End && ordering == Permute ==>
        Partitioned(Env(Strip(optstring), longs, longOnly), a, p, argv[..], optind)
      ensures argv.Length > 0 && ordering != Permute ==> argv[..] == a
      ensures argv.Length > 0 ==>
        (if old(initialized) && old(optind) > 0 then ToCome(Env(Strip(optstring), longs, longOnly), ordering, a, old(optind), old(nextchar))
         else ToCome(Env(Strip(optstring), longs, longOnly), ordering, a, p, "")) == After(Env(Strip(optstring), longs, longOnly), a, r, longind)
      ensures argv.Length > 0 && ordering != Permute ==>
        StopsAt(Env(Strip(optstring), longs, longOnly), ordering, a, if old(initialized) && old(optind) > 0 then old(optind) else p)
          == if r == End then optind else StopsAt(Env(Strip(optstring), longs, longOnly), ordering, a, optind)
    {
      hide Split, Within, Takes, TakesShort, Partitioned, ToCome, StopsAt;
      var env := Env(Strip(optstring), longs, longOnly);
      longind := None;
      if argv.Length < 1 { return End, None; }
      optarg := None;
      if optind == 0 || !initialized {
        if optind == 0 { optind := 1; }
        Initialize(optstring, posixly);
        initialized := true;
        SplitStart(env, a, p);
      }
      if nextchar == "" {
        if ordering == Permute { SplitFacts(env, a, p, argv[..], firstNonopt, lastNonopt, optind); }
        lastNonopt := Least(lastNonopt, optind);
        firstNonopt := Least(firstNonopt, optind);
        var stop := NextElement(env, argv, a, p);
        if stop.Some? { return stop.value, None; }
      }
      r, longind := OneOption(env, argv, a, p);
    }

    // The answer a call gave, and those still to come.
    ghost function After(env: Env, a: seq<string>, r: Outcome, longind: Option<nat>): seq<Answer>
      reads this
    {
      if r == End then [] else [Answer(r.c, optarg, longind)] + ToCome(env, ordering, a, optind, nextchar)
    }

    // Scans at `nextchar`.
    method OneOption(env: Env, argv: array<string>, ghost a: seq<string>, ghost p: nat) returns (r: Outcome, longind: Option<nat>)
      requires NoW(env.opts) && Scanning(env, a, p, argv[..]) && nextchar != "" && optarg == None
      modifies `optind, `optarg, `optopt, `nextchar, `flags
      ensures r.Code? && Scanning(env, a, p, argv[..])
      ensures optind > old(optind) || (optind == old(optind) && nextchar != "" && |nextchar| < |old(nextchar)|)
      ensures ToCome(env, ordering, a, old(optind), old(nextchar))
           == [Answer(r.c, optarg, longind)] + ToCome(env, ordering, a, optind, nextchar)
      ensures StopsAt(env, ordering, a, optind) == StopsAt(env, ordering, a, old(optind))
    {
      hide Split, Takes, TakesShort, ToCome, StopsAt, AsLong, LongAnswer, ShortAnswer, ShortRest;
      ghost var o, next := optind, nextchar;
      SameElement(env, a, p, argv[..]);
      WidthOf(env, a, o, next);
      ToComeStart(env, ordering, a, o);
      SameFollowing(env, a, p, argv[..]);
      if AsLong(env, a[o], next) { ToComeLong(env, ordering, a, o, next); } else { ToComeShort(env, ordering, a, o, next); }
      longind := None;
      if TriesLong(env, argv[optind]) {
        var l;
        l, longind := LongStep(env, argv);
        if l.Some? {
          r := l.value;
          if ordering == Permute { SplitTake(env, a, p, argv[..], firstNonopt, lastNonopt, o); }
          return;
        }
      } else {
        ShortOnly(env, argv[optind], nextchar);
        NotLong(env, argv[optind], nextchar);
      }
      var c := ShortStep(env, argv);
      r := Code(c);
      if nextchar == "" && ordering == Permute { SplitTake(env, a, p, argv[..], firstNonopt, lastNonopt, o); }
    }

    lemma SameElement(env: Env, a: seq<string>, p: nat, s: seq<string>)
      requires Scanning(env, a, p, s)
      ensures optind <= |a| == |s| && (optind < |a| ==> s[optind] == a[optind])
    {
      if ordering == Permute && optind < |a| { assert s[optind..][0] == a[optind..][0]; }
    }

    lemma SameFollowing(env: Env, a: seq<string>, p: nat, s: seq<string>)
      requires Scanning(env, a, p, s) && optind < |a|
      ensures |s| == |a| && Following(s, optind) == Following(a, optind)
    {
      if ordering == Permute && optind + 1 < |a| { assert s[optind..][1] == a[optind..][1]; }
    }

    static lemma NotLong(env: Env, arg: string, next: string)
      requires !NonOption(arg) && !TriesLong(env, arg) && next != ""
      ensures !AsLong(env, arg, next)
    {
    }

    static lemma ShortOnly(env: Env, arg: string, next: string)
      requires !NonOption(arg) && !TriesLong(env, arg) && next != ""
      ensures Takes(env, arg, next) <==> TakesShort(env, arg, next)
    {
    }
  }

  function OrderingOf(optstring: string, posixly: bool): Ordering {
    if optstring != "" && optstring[0] == '-' then ReturnInOrder
    else if (optstring != "" && optstring[0] == '+') || posixly then RequireOrder else Permute
  }

  // ----- a whole run

  // A caller that stops at -1 takes an answer of -1 for the end.
  function Heard(answers: seq<Answer>): seq<Answer> {
    if answers == [] || answers[0].code == -1 then [] else [answers[0]] + Heard(answers[1..])
  }

  lemma {:induction false} HeardAll(x: seq<Answer>, y: seq<Answer>)
    requires forall i :: 0 <= i < |x| ==> x[i].code != -1
    ensures Heard(x + y) == x + Heard(y)
  {
    if x == [] {
      assert x + y == y;
    } else {
      assert (x + y)[1..] == x[1..] + y;
      HeardAll(x[1..], y);
    }
  }

  // All answers are heard exactly if none is -1, as option character 255 is, and a long option of that value.
  lemma {:induction false} HeardIff(x: seq<Answer>)
    ensures Heard(x) == x <==> forall i :: 0 <= i < |x| ==> x[i].code != -1
    ensures CharCode(255 as char) == -1
  {
    if x != [] && x[0].code != -1 {
      HeardIff(x[1..]);
      assert x == [x[0]] + x[1..];
      assert Heard(x) == x ==> Heard(x)[1..] == x[1..];
      assert forall i :: 1 <= i < |x| ==> x[i] == x[1..][i - 1];
    }
  }

  // Calls until -1. The answers are those the elements stand for; when all are heard, PERMUTE order leaves argv stably
  // partitioned with `optind` at the first element that is not an option, and the other orders leave it as it was.
  method Run(argv: array<string>, optstring: string, longs: Option<seq<LongOption>>, longOnly: bool, posixly: bool)
    returns (answers: seq<Answer>, ind: nat)
    requires argv.Length > 0 && NoW(Strip(optstring))
    modifies argv
    ensures var env, order := Env(Strip(optstring), longs, longOnly), OrderingOf(optstring, posixly);
      var all := Answers(env, order, old(argv[..]), 1);
      answers == Heard(all) &&
      (answers == all ==> if order == Permute then Partitioned(env, old(argv[..]), 1, argv[..], ind)
                          else argv[..] == old(argv[..]) && ind == StopsAt(env, order, old(argv[..]), 1))
  {
    hide Partitioned, Split, Within, NoW, Answers, StopsAt, ToCome, Heard, Strip, OrderingOf, GetoptData.Scanning, GetoptData.After;
    var d := new GetoptData();
    answers := [];
    ghost var a, order := argv[..], OrderingOf(optstring, posixly);
    ghost var env := Env(Strip(optstring), longs, longOnly);
    var r, longind := d.Getopt(argv, optstring, longs, longOnly, posixly, a, 1);
    AllToCome(env, order, a);
    if r.Code? { d.ScanningFacts(env, a, 1, argv[..]); }
    while r.Code? && r.c != -1
      invariant d.initialized && d.ordering == order && fresh(d)
      invariant Answers(env, order, a, 1) == answers + d.After(env, a, r, longind)
      invariant forall i :: 0 <= i < |answers| ==> answers[i].code != -1
      invariant r.Code? ==> d.Scanning(env, a, 1, argv[..]) && 1 <= d.optind <= |a|
      invariant order != Permute ==> argv[..] == a
      invariant order != Permute ==> StopsAt(env, order, a, 1) == if r == End then d.optind else StopsAt(env, order, a, d.optind)
      invariant r == End && order == Permute ==> Partitioned(env, a, 1, argv[..], d.optind)
      decreases r.Code?, argv.Length - d.optind, d.nextchar == "", |d.nextchar|
    {
      AfterIs(d, env, a, r, longind);
      answers := answers + [Answer(r.c, d.optarg, longind)];
      r, longind := d.Getopt(argv, optstring, longs, longOnly, posixly, a, 1);
      if r.Code? { d.ScanningFacts(env, a, 1, argv[..]); }
    }
    ind := d.optind;
    AfterIs(d, env, a, r, longind);
    HeardAll(answers, d.After(env, a, r, longind));
    HeardEnd(d.After(env, a, r, longind));
  }

  lemma AfterIs(d: GetoptData, env: Env, a: seq<string>, r: Outcome, longind: Option<nat>)
    ensures d.After(env, a, r, longind)
         == if r == End then [] else [Answer(r.c, d.optarg, longind)] + ToCome(env, d.ordering, a, d.optind, d.nextchar)
  {
    hide ToCome;
  }

  lemma AllToCome(env: Env, order: Ordering, a: seq<string>)
    requires |a| > 0
    ensures ToCome(env, order, a, 1, "") == Answers(env, order, a, 1)
  {
    hide Answers;
  }

  lemma HeardEnd(y: seq<Answer>)
    requires y == [] || y[0].code == -1
    ensures Heard(y) == []
  {
  }

  // Nothing is lost or made up: the two parts hold the scanned elements, each as often as before.
  lemma {:induction false} PartitionConserves(env: Env, a: seq<string>, i: nat)
    requires i <= |a|
    ensures multiset(Options(env, a, i)) + multiset(NonOptions(env, a, i)) == multiset(a[i..])
    decreases |a| - i
  {
    hide Width, Options, NonOptions, NonOption;
    LastParts(env, a, i);
    if i < |a| && NonOption(a[i]) {
      PartitionConserves(env, a, i + 1);
      StepNonOption(env, a, i);
      ConserveOne(Options(env, a, i + 1), NonOptions(env, a, i + 1), a[i], a[i + 1..]);
      assert a[i..] == [a[i]] + a[i + 1..];
    } else if i < |a| && a[i] != "--" {
      var k := Width(env, a, i);
      PartitionConserves(env, a, i + k);
      StepOption(env, a, i);
      ConserveSome(Options(env, a, i + k), a[i..i + k], NonOptions(env, a, i + k), a[i + k..]);
      assert a[i..] == a[i..i + k] + a[i + k..];
    }
  }

  lemma ConserveOne(x: seq<string>, y: seq<string>, e: string, rest: seq<string>)
    requires multiset(x) + multiset(y) == multiset(rest)
    ensures multiset(x) + multiset([e] + y) == multiset([e] + rest)
  {
  }

  lemma ConserveSome(x: seq<string>, x0: seq<string>, y: seq<string>, rest: seq<string>)
    requires multiset(x) + multiset(y) == multiset(rest)
    ensures multiset(x0 + x) + multiset(y) == multiset(x0 + rest)
  {
  }

  lemma LastParts(env: Env, a: seq<string>, i: nat)
    requires i <= |a|
    ensures i == |a| || a[i] == "--" ==>
      multiset(Options(env, a, i)) + multiset(NonOptions(env, a, i)) == multiset(a[i..])
  {
    if i < |a| { assert a[i..] == [a[i]] + a[i + 1..]; }
  }

  // `x` is what is left of `y` once some elements are taken out.
  ghost predicate Subsequence(x: seq<string>, y: seq<string>) {
    x == [] || (y != [] && ((x[0] == y[0] && Subsequence(x[1..], y[1..])) || Subsequence(x, y[1..])))
  }

  lemma {:induction false} SubsequenceAfter(x: seq<string>, y: seq<string>, z: seq<string>)
    requires Subsequence(x, y)
    ensures Subsequence(x, z + y) && Subsequence(z + x, z + y)
    decreases |z|
  {
    if z == [] {
      assert z + x == x && z + y == y;
    } else {
      SubsequenceAfter(x, y, z[1..]);
      assert (z + x)[1..] == z[1..] + x && (z + y)[1..] == z[1..] + y;
    }
  }

  lemma SubsequenceSelf(x: seq<string>)
    ensures Subsequence(x, x)
  {
    SubsequenceAfter([], [], x);
    assert x + [] == x;
  }

  // Both parts keep the order the elements had.
  lemma {:induction false} PartitionInOrder(env: Env, a: seq<string>, i: nat)
    requires i <= |a|
    ensures Subsequence(Options(env, a, i), a[i..]) && Subsequence(NonOptions(env, a, i), a[i..])
    decreases |a| - i
  {
    hide Width, Options, NonOptions, NonOption, Subsequence;
    if i == |a| || a[i] == "--" {
      LastInOrder(env, a, i);
    } else if NonOption(a[i]) {
      PartitionInOrder(env, a, i + 1);
      StepNonOption(env, a, i);
      assert a[i..] == [a[i]] + a[i + 1..];
      SubsequenceAfter(Options(env, a, i + 1), a[i + 1..], [a[i]]);
      SubsequenceAfter(NonOptions(env, a, i + 1), a[i + 1..], [a[i]]);
    } else {
      var k := Width(env, a, i);
      PartitionInOrder(env, a, i + k);
      StepOption(env, a, i);
      assert a[i..] == a[i..i + k] + a[i + k..];
      SubsequenceAfter(Options(env, a, i + k), a[i + k..], a[i..i + k]);
      SubsequenceAfter(NonOptions(env, a, i + k), a[i + k..], a[i..i + k]);
    }
  }

  lemma LastInOrder(env: Env, a: seq<string>, i: nat)
    requires i <= |a| && (i == |a| || a[i] == "--")
    ensures Subsequence(Options(env, a, i), a[i..]) && Subsequence(NonOptions(env, a, i), a[i..])
  {
    if i < |a| {
      assert a[i..] == ["--"] + a[i + 1..];
      SubsequenceSelf(a[i + 1..]);
      SubsequenceAfter([], a[i + 1..], ["--"]);
      SubsequenceAfter(a[i + 1..], a[i + 1..], ["--"]);
      assert ["--"] + [] == ["--"];
    }
  }

  // Without a "--" only elements that are no options, a lone dash among them, are left behind.
  lemma {:induction false} LeftBehind(env: Env, a: seq<string>, i: nat)
    requires i <= |a| && forall k :: i <= k < |a| ==> a[k] != "--"
    ensures forall k :: 0 <= k < |NonOptions(env, a, i)| ==> NonOption(NonOptions(env, a, i)[k])
    decreases |a| - i
  {
    if i == |a| {
    } else if NonOption(a[i]) {
      LeftBehind(env, a, i + 1);
      StepNonOption(env, a, i);
    } else {
      LeftBehind(env, a, i + Width(env, a, i));
      StepOption(env, a, i);
    }
  }

  // ----- what an abbreviation stands for

  // An exact name is found whatever else it abbreviates.
  lemma {:induction false} ExactWins(env: Env, name: string, i: nat, found: Option<nat>, ambig: bool, k: nat)
    requires env.longs.Some? && i <= k < |env.longs.value| && (found.Some? ==> found.value < |env.longs.value|)
    requires env.longs.value[k].name == name && forall j :: i <= j < k ==> env.longs.value[j].name != name
    ensures LookupFrom(env, name, i, found, ambig) == Found(k)
    decreases k - i
  {
    if i < k {
      var p := env.longs.value[i];
      if Abbreviates(name, p) { assert |name| == |p.name| ==> p.name == name; }
      if !Abbreviates(name, p) {
        ExactWins(env, name, i + 1, found, ambig, k);
      } else if found == None {
        ExactWins(env, name, i + 1, Some(i), ambig, k);
      } else {
        ExactWins(env, name, i + 1, found, ambig || env.longOnly || !Same(env.longs.value[found.value], p), k);
      }
    }
  }

  lemma {:induction false} AbsentIff(env: Env, name: string, i: nat, found: Option<nat>, ambig: bool)
    requires env.longs.Some? && i <= |env.longs.value| && (found.Some? ==> found.value < |env.longs.value|)
    requires ambig ==> found.Some?
    ensures LookupFrom(env, name, i, found, ambig) == Absent
            <==> found == None && forall j :: i <= j < |env.longs.value| ==> !Abbreviates(name, env.longs.value[j])
    decreases |env.longs.value| - i
  {
    if i < |env.longs.value| {
      var p := env.longs.value[i];
      if !Abbreviates(name, p) {
        AbsentIff(env, name, i + 1, found, ambig);
      } else if |name| != |p.name| {
        if found == None {
          AbsentIff(env, name, i + 1, Some(i), ambig);
        } else {
          AbsentIff(env, name, i + 1, found, ambig || env.longOnly || !Same(env.longs.value[found.value], p));
        }
      }
    }
  }

  ghost predicate NoExact(env: Env, name: string, i: nat)
    requires env.longs.Some?
  {
    forall j :: i <= j < |env.longs.value| ==> env.longs.value[j].name != name
  }

  // Entry `k` is the first one with this name, or the first one the name abbreviates.
  ghost predicate FirstExact(env: Env, name: string, k: nat)
    requires env.longs.Some?
  {
    k < |env.longs.value| && env.longs.value[k].name == name && forall j :: 0 <= j < k ==> env.longs.value[j].name != name
  }

  ghost predicate FirstAbbreviated(env: Env, name: string, k: nat)
    requires env.longs.Some?
  {
    k < |env.longs.value| && Abbreviates(name, env.longs.value[k]) &&
    forall j :: 0 <= j < k ==> !Abbreviates(name, env.longs.value[j])
  }

  // An entry from `i` on that the name abbreviates as well, and that does not stand for the same as entry `f`.
  ghost predicate Contested(env: Env, name: string, f: nat, i: nat)
    requires env.longs.Some? && f < |env.longs.value|
  {
    exists j :: i <= j < |env.longs.value| && Abbreviates(name, env.longs.value[j]) &&
      (env.longOnly || !Same(env.longs.value[f], env.longs.value[j]))
  }

  // Once the first match is known, what follows decides whether it stands.
  lemma {:induction false} Decided(env: Env, name: string, i: nat, f: nat, ambig: bool)
    requires env.longs.Some? && i <= |env.longs.value| && f < |env.longs.value| && NoExact(env, name, i)
    ensures LookupFrom(env, name, i, Some(f), ambig) == if ambig || Contested(env, name, f, i) then Ambiguous else Found(f)
    decreases |env.longs.value| - i
  {
    if i < |env.longs.value| {
      var p := env.longs.value[i];
      var next := ambig || (Abbreviates(name, p) && (env.longOnly || !Same(env.longs.value[f], p)));
      Decided(env, name, i + 1, f, next);
      if Abbreviates(name, p) { assert |name| == |p.name| ==> p.name == name; }
      assert Contested(env, name, f, i) <==>
        Contested(env, name, f, i + 1) || (Abbreviates(name, p) && (env.longOnly || !Same(env.longs.value[f], p)));
    }
  }

  lemma {:induction false} Skipped(env: Env, name: string, k: nat)
    requires env.longs.Some? && k <= |env.longs.value| && forall j :: 0 <= j < k ==> !Abbreviates(name, env.longs.value[j])
    ensures LookupFrom(env, name, 0, None, false) == LookupFrom(env, name, k, None, false)
  {
    if k > 0 { Skipped(env, name, k - 1); }
  }

  lemma FirstOf(env: Env, name: string) returns (k: nat)
    requires env.longs.Some?
    ensures k <= |env.longs.value| && forall j :: 0 <= j < k ==> !Abbreviates(name, env.longs.value[j])
    ensures k < |env.longs.value| ==> Abbreviates(name, env.longs.value[k])
  {
    k := 0;
    while k < |env.longs.value| && !Abbreviates(name, env.longs.value[k])
      invariant k <= |env.longs.value| && forall j :: 0 <= j < k ==> !Abbreviates(name, env.longs.value[j])
    {
      k := k + 1;
    }
  }

  lemma FirstNamed(env: Env, name: string) returns (k: nat)
    requires env.longs.Some?
    ensures k <= |env.longs.value| && forall j :: 0 <= j < k ==> env.longs.value[j].name != name
    ensures k < |env.longs.value| ==> env.longs.value[k].name == name
  {
    k := 0;
    while k < |env.longs.value| && env.longs.value[k].name != name
      invariant k <= |env.longs.value| && forall j :: 0 <= j < k ==> env.longs.value[j].name != name
    {
      k := k + 1;
    }
  }

  // A name that is no entry's is that of the first entry it abbreviates, unless another such entry differs from that one;
  // among options with one dash all differ.
  lemma FoundIff(env: Env, name: string, k: nat)
    requires env.longs.Some?
    ensures LookupName(env, name) == Found(k) <==>
      FirstExact(env, name, k) ||
      (NoExact(env, name, 0) && FirstAbbreviated(env, name, k) && !Contested(env, name, k, k + 1))
    ensures LookupName(env, name) == Ambiguous <==>
      NoExact(env, name, 0) && exists f: nat :: FirstAbbreviated(env, name, f) && Contested(env, name, f, f + 1)
  {
    hide LookupFrom, Contested, Abbreviates, Same;
    var x := FirstNamed(env, name);
    var f := FirstOf(env, name);
    if x < |env.longs.value| {
      ExactWins(env, name, 0, None, false, x);
    } else {
      AbsentIff(env, name, 0, None, false);
      if f < |env.longs.value| {
        Skipped(env, name, f);
        NotNamed(env, name, f);
        LookupStepOf(env, name, f);
        Decided(env, name, f + 1, f, false);
        assert FirstAbbreviated(env, name, f);
      }
    }
  }

  lemma NotNamed(env: Env, name: string, f: nat)
    requires env.longs.Some? && f < |env.longs.value| && Abbreviates(name, env.longs.value[f]) && NoExact(env, name, 0)
    ensures |name| != |env.longs.value[f].name|
  {
    var other := env.longs.value[f].name;
    assert other != name && name == other[..|name|];
  }

  lemma LookupStepOf(env: Env, name: string, f: nat)
    requires env.longs.Some? && f < |env.longs.value|
    requires Abbreviates(name, env.longs.value[f]) && |name| != |env.longs.value[f].name|
    ensures LookupFrom(env, name, f, None, false) == LookupFrom(env, name, f + 1, Some(f), false)
  {
  }
}
