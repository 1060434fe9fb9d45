// Which elements of `argv` the arguments of options are, spelled out on the characters of the elements: an argument that
// stands in an element of its own is moved along with its option.

module GetoptArguments {
  import opened Getopt
  import opened Wrappers

  // ----- an element takes the next one exactly if it answers it

  ghost function LastArg(x: seq<Answer>): Option<string>
    requires x != []
  {
    x[|x| - 1].arg
  }

  // The answers of the part `next` end with the following element, whatever it is, or do not depend on it.
  lemma {:induction false} TakesIff(env: Env, arg: string, next: string, f: string)
    requires |arg| >= 2 && next != ""
    ensures ElementAnswers(env, arg, next, Some(f)) != []
    ensures if Takes(env, arg, next) then LastArg(ElementAnswers(env, arg, next, Some(f))) == Some(f)
            else ElementAnswers(env, arg, next, Some(f)) == ElementAnswers(env, arg, next, None)
    decreases |next|
  {
    hide LookupFrom, Declared;
    if !AsLong(env, arg, next) {
      var rest := ShortRest(env.opts, next);
      assert Takes(env, arg, next) <==> TakesShort(env, arg, next);
      if rest != "" { TakesIff(env, arg, rest, f); }
    }
  }

  // ----- short options

  // `c` first stands at `k` of the option string, before `n` colons, of which at most two count.
  ghost predicate DeclaredAt(opts: string, c: char, k: nat, n: nat) {
    k < |opts| && opts[k] == c && c !in opts[..k] && c != ':' && c != ';' && n <= 2 &&
    (k + 1 < |opts| && opts[k + 1] == ':' <==> n >= 1) && (n >= 1 ==> (k + 2 < |opts| && opts[k + 2] == ':' <==> n == 2))
  }

  ghost predicate IsDeclared(opts: string, c: char, n: nat) { exists k: nat :: DeclaredAt(opts, c, k, n) }

  lemma DeclaredIs(opts: string, c: char, n: nat)
    requires IsDeclared(opts, c, n)
    ensures n <= 2 && Declared(opts, c) == if n == 0 then NoArgument else if n == 1 then RequiredArgument else OptionalArgument
  {
    hide Find;
    var k: nat :| DeclaredAt(opts, c, k, n);
    assert opts[k] == c;
    var i := Find(opts, c);
    assert i.Some?;
    FirstIs(opts, i.value, k);
  }

  lemma FirstIs(s: string, i: nat, k: nat)
    requires i < |s| && k < |s| && s[i] == s[k] && s[i] !in s[..i] && s[k] !in s[..k]
    ensures i == k
  {
    NoneBefore(s, i);
    NoneBefore(s, k);
  }

  lemma NoneBefore(s: string, i: nat)
    requires i < |s| && s[i] !in s[..i]
    ensures forall j :: 0 <= j < i ==> s[j] != s[i]
  {
    forall j | 0 <= j < i
      ensures s[j] != s[i]
    {
      assert s[j] == s[..i][j];
    }
  }

  // An element of short options only.
  ghost predicate IsShort(env: Env, arg: string) {
    |arg| >= 2 && arg[0] == '-' && arg != "--" && (env.longs == None || (arg[1] != '-' && !env.longOnly))
  }

  // Not declared at all: colons and semicolons are not.
  ghost predicate IsUndeclared(opts: string, c: char) { c !in opts || c == ':' || c == ';' }

  // Options without an argument, and characters that are none.
  ghost predicate AreFlags(opts: string, fs: string) {
    forall i :: 0 <= i < |fs| ==> IsDeclared(opts, fs[i], 0) || IsUndeclared(opts, fs[i])
  }

  ghost function FlagAnswer(opts: string, c: char): Answer {
    Answer(if IsUndeclared(opts, c) then '?' as int else CharCode(c), None, None)
  }

  ghost function FlagAnswers(opts: string, fs: string): (x: seq<Answer>)
    ensures |x| == |fs|
  {
    seq(|fs|, i requires 0 <= i < |fs| => FlagAnswer(opts, fs[i]))
  }

  lemma FlagIs(opts: string, c: char)
    requires IsDeclared(opts, c, 0) || IsUndeclared(opts, c)
    ensures Declared(opts, c) == if IsUndeclared(opts, c) then Unknown else NoArgument
  {
    hide Find;
    if !IsUndeclared(opts, c) { DeclaredIs(opts, c, 0); }
  }

  lemma {:induction false} FlagsAnswer(env: Env, arg: string, fs: string, rest: string, f: Option<string>)
    requires IsShort(env, arg) && AreFlags(env.opts, fs)
    ensures ElementAnswers(env, arg, fs + rest, f) == FlagAnswers(env.opts, fs) + ElementAnswers(env, arg, rest, f)
    ensures rest != "" ==> (Takes(env, arg, fs + rest) <==> Takes(env, arg, rest))
    ensures rest == "" && fs != "" ==> !Takes(env, arg, fs + rest)
    decreases |fs|
  {
    hide Declared, IsDeclared, IsUndeclared, ElementAnswers, Takes, TakesShort, FlagAnswer;
    if fs == "" {
      assert fs + rest == rest;
    } else {
      assert (fs + rest)[0] == fs[0] && (fs + rest)[1..] == fs[1..] + rest;
      OneFlag(env, arg, fs + rest, f);
      FlagsAnswer(env, arg, fs[1..], rest, f);
      assert FlagAnswers(env.opts, fs) == [FlagAnswer(env.opts, fs[0])] + FlagAnswers(env.opts, fs[1..]);
    }
  }

  lemma OneFlag(env: Env, arg: string, next: string, f: Option<string>)
    requires IsShort(env, arg) && next != "" && (IsDeclared(env.opts, next[0], 0) || IsUndeclared(env.opts, next[0]))
    ensures ElementAnswers(env, arg, next, f) == [FlagAnswer(env.opts, next[0])] + ElementAnswers(env, arg, next[1..], f)
    ensures Takes(env, arg, next) <==> next[1..] != "" && Takes(env, arg, next[1..])
  {
    hide Declared, IsDeclared, IsUndeclared;
    FlagIs(env.opts, next[0]);
    assert !AsLong(env, arg, next);
    assert Takes(env, arg, next) <==> TakesShort(env, arg, next);
  }

  // An option that may have an argument, after others that have none: `rest` is what follows it in its element.
  lemma ArgumentAnswers(env: Env, arg: string, fs: string, c: char, n: nat, rest: string, f: Option<string>)
    requires IsShort(env, arg) && AreFlags(env.opts, fs) && IsDeclared(env.opts, c, n) && n > 0
    ensures var code := CharCode(c);
      ElementAnswers(env, arg, fs + [c] + rest, f) == FlagAnswers(env.opts, fs) + [
        if rest != "" then Answer(code, Some(rest), None)
        else if n == 2 then Answer(code, None, None)
        else if f.Some? then Answer(code, f, None)
        else Answer(if env.opts[0] == ':' then ':' as int else '?' as int, None, None)]
    ensures Takes(env, arg, fs + [c] + rest) <==> n == 1 && rest == ""
  {
    hide Declared, Takes, TakesShort, ElementAnswers, IsDeclared;
    DeclaredIs(env.opts, c, n);
    Nonempty(env.opts, c, n);
    assert fs + [c] + rest == fs + ([c] + rest);
    FlagsAnswer(env, arg, fs, [c] + rest, f);
    OneAnswer(env, arg, [c] + rest, f);
  }

  lemma Nonempty(opts: string, c: char, n: nat)
    requires IsDeclared(opts, c, n)
    ensures opts != "" && n <= 2
  {
  }

  lemma OneAnswer(env: Env, arg: string, next: string, f: Option<string>)
    requires IsShort(env, arg) && next != "" && Declared(env.opts, next[0]) in {RequiredArgument, OptionalArgument}
    ensures ElementAnswers(env, arg, next, f) == [ShortAnswer(env.opts, next, f)]
    ensures Takes(env, arg, next) <==> Declared(env.opts, next[0]) == RequiredArgument && |next| == 1
  {
    hide Declared;
    assert !AsLong(env, arg, next);
    assert ElementAnswers(env, arg, "", f) == [];
  }

  // What of argv element `i` takes up, when it is one option or several short ones.
  ghost predicate TakesUp(env: Env, order: Ordering, a: seq<string>, i: nat, k: nat, x: seq<Answer>) {
    i + k <= |a| && k > 0 &&
    Options(env, a, i) == a[i..i + k] + Options(env, a, i + k) && NonOptions(env, a, i) == NonOptions(env, a, i + k) &&
    Answers(env, order, a, i) == x + Answers(env, order, a, i + k)
  }

  lemma ElementTakesUp(env: Env, order: Ordering, a: seq<string>, i: nat)
    requires i < |a| && !NonOption(a[i]) && a[i] != "--"
    ensures var k := if Takes(env, a[i], Start(env, a[i])) && i + 1 < |a| then 2 else 1;
      TakesUp(env, order, a, i, k, ElementAnswers(env, a[i], Start(env, a[i]), Following(a, i)))
  {
    hide Takes, ElementAnswers, Start;
  }

  // A required argument is the rest of its element, or the element after it, which is then no operand of its own; an optional
  // one is never the element after it.
  lemma ShortArgument(env: Env, order: Ordering, a: seq<string>, i: nat, fs: string, c: char, n: nat, rest: string)
    requires i < |a| && a[i] == "-" + fs + [c] + rest && IsShort(env, a[i])
    requires AreFlags(env.opts, fs) && IsDeclared(env.opts, c, n) && n > 0
    ensures var code := CharCode(c);
      if rest != "" then TakesUp(env, order, a, i, 1, FlagAnswers(env.opts, fs) + [Answer(code, Some(rest), None)])
      else if n == 2 then TakesUp(env, order, a, i, 1, FlagAnswers(env.opts, fs) + [Answer(code, None, None)])
      else if i + 1 < |a| then TakesUp(env, order, a, i, 2, FlagAnswers(env.opts, fs) + [Answer(code, Some(a[i + 1]), None)])
      else TakesUp(env, order, a, i, 1, FlagAnswers(env.opts, fs) + [Answer(if env.opts[0] == ':' then ':' as int else '?' as int, None, None)])
  {
    hide Takes, ElementAnswers, IsDeclared, TakesUp;
    assert Start(env, a[i]) == fs + [c] + rest;
    ElementTakesUp(env, order, a, i);
    ArgumentAnswers(env, a[i], fs, c, n, rest, Following(a, i));
    Nonempty(env.opts, c, n);
  }

  // Options without arguments take up their own element.
  lemma ShortFlags(env: Env, order: Ordering, a: seq<string>, i: nat, fs: string)
    requires i < |a| && a[i] == "-" + fs && fs != "" && IsShort(env, a[i]) && AreFlags(env.opts, fs)
    ensures TakesUp(env, order, a, i, 1, FlagAnswers(env.opts, fs))
  {
    hide Takes, ElementAnswers, IsDeclared, TakesUp;
    assert Start(env, a[i]) == fs;
    ElementTakesUp(env, order, a, i);
    assert fs + "" == fs;
    FlagsAnswer(env, a[i], fs, "", Following(a, i));
    Nothing(env, a[i], Following(a, i));
    assert FlagAnswers(env.opts, fs) + [] == FlagAnswers(env.opts, fs);
  }

  lemma Nothing(env: Env, arg: string, f: Option<string>)
    requires |arg| >= 2
    ensures ElementAnswers(env, arg, "", f) == []
  {
  }

  // ----- long options

  lemma NameEndIs(name: string, value: string)
    requires '=' !in name
    ensures NameEnd(name) == |name| && NameEnd(name + "=" + value) == |name|
    ensures (name + "=" + value)[|name| + 1..] == value && (name + "=" + value)[..|name|] == name
  {
    hide Find;
    PlainName(name, value);
    var s := name + "=" + value;
    var n := NameEnd(s);
    assert s[|name|] == '=' && s[..|name|] == name;
    FirstIs(s, n, |name|);
  }

  lemma PlainName(name: string, value: string)
    requires '=' !in name
    ensures NameEnd(name) == |name| && NameEnd(name + "=" + value) < |name + "=" + value|
  {
    hide Find;
    assert (name + "=" + value)[|name|] == '=';
  }

  // The first entry of this name, or if there is none the first one it abbreviates, unless another such entry is different.
  ghost predicate StandsFor(env: Env, name: string, k: nat)
    requires env.longs.Some?
  {
    FirstExact(env, name, k) || (NoExact(env, name, 0) && FirstAbbreviated(env, name, k) && !Contested(env, name, k, k + 1))
  }

  // After two dashes, or after one where that is enough and the element is no single short option.
  ghost predicate AfterDashes(env: Env, arg: string, next: string) {
    next != "" && env.longs.Some? &&
    (arg == "--" + next || (arg == "-" + next && env.longOnly && next[0] != '-' && (|next| > 1 || next[0] !in env.opts)))
  }

  lemma DashesTaken(env: Env, arg: string, next: string)
    requires AfterDashes(env, arg, next)
    ensures |arg| >= 2 && !NonOption(arg) && arg != "--" && Start(env, arg) == next && TriesLong(env, arg)
  {
    hide Find;
    assert arg == "--" + next ==> arg[2..] == next;
    assert arg == "-" + next ==> arg[1..] == next && arg[1] == next[0];
    assert env.longOnly && |next| == 1 && next[0] !in env.opts ==> Find(env.opts, next[0]) == None;
  }

  // A long option, by its name or an abbreviation, alone or before '=' and a value.
  lemma LongArgument(env: Env, order: Ordering, a: seq<string>, i: nat, name: string, k: nat, value: Option<string>)
    requires i < |a| && env.longs.Some? && k < |env.longs.value| && '=' !in name && StandsFor(env, name, k)
    requires AfterDashes(env, a[i], name + if value.Some? then "=" + value.value else "")
    ensures var p := env.longs.value[k];
      var code := if p.flag.Some? then 0 else p.val;
      if value.Some? then
        TakesUp(env, order, a, i, 1, [if p.hasArg != 0 then Answer(code, value, Some(k)) else Answer('?' as int, None, None)])
      else if p.hasArg != 1 then TakesUp(env, order, a, i, 1, [Answer(code, None, Some(k))])
      else if i + 1 < |a| then TakesUp(env, order, a, i, 2, [Answer(code, Some(a[i + 1]), Some(k))])
      else TakesUp(env, order, a, i, 1, [Answer(if env.opts != "" && env.opts[0] == ':' then ':' as int else '?' as int, None, None)])
  {
    hide ElementAnswers, TakesUp, LookupName, FirstExact, NoExact, FirstAbbreviated, Contested, Takes, NameEnd, AfterDashes;
    var next := name + if value.Some? then "=" + value.value else "";
    DashesTaken(env, a[i], next);
    assert value.Some? ==> next == name + "=" + value.value;
    assert value == None ==> next == name;
    NameEndIs(name, if value.Some? then value.value else "");
    ElementTakesUp(env, order, a, i);
    FoundIff(env, name, k);
    assert next[..|name|] == name;
    LongElement(env, a[i], next, name, k, Following(a, i));
  }

  lemma LongElement(env: Env, arg: string, next: string, name: string, k: nat, f: Option<string>)
    requires |arg| >= 2 && TriesLong(env, arg) && env.longs.Some? && k < |env.longs.value| && next != ""
    requires NameEnd(next) == |name| && next[..|name|] == name && LookupName(env, name) == Found(k)
    ensures ElementAnswers(env, arg, next, f) == [FoundAnswer(env.opts, env.longs.value[k], k, next, f)]
    ensures Takes(env, arg, next) <==> |name| == |next| && env.longs.value[k].hasArg == 1
  {
    hide LookupName, FoundAnswer, TriesLong;
  }

  // A name after two dashes that no entry has or starts with, or that is contested, is answered by a question mark.
  lemma LongRefused(env: Env, order: Ordering, a: seq<string>, i: nat, next: string)
    requires i < |a| && env.longs.Some? && next != "" && a[i] == "--" + next
    requires forall k: nat :: !StandsFor(env, next[..NameEnd(next)], k)
    ensures TakesUp(env, order, a, i, 1, [Answer('?' as int, None, None)])
  {
    hide ElementAnswers, TakesUp, LookupName, StandsFor, Takes, NameEnd;
    var name := next[..NameEnd(next)];
    DashesTaken(env, a[i], next);
    ElementTakesUp(env, order, a, i);
    NoneFound(env, name);
    RefusedElement(env, a[i], next, Following(a, i));
  }

  lemma NoneFound(env: Env, name: string)
    requires env.longs.Some? && forall k: nat :: !StandsFor(env, name, k)
    ensures !LookupName(env, name).Found?
  {
    hide LookupName, FirstExact, NoExact, FirstAbbreviated, Contested;
    forall k: nat
      ensures LookupName(env, name) != Found(k)
    {
      FoundIff(env, name, k);
      assert !StandsFor(env, name, k);
    }
  }

  lemma RefusedElement(env: Env, arg: string, next: string, f: Option<string>)
    requires |arg| >= 2 && arg[1] == '-' && TriesLong(env, arg) && next != "" && !LookupName(env, next[..NameEnd(next)]).Found?
    ensures ElementAnswers(env, arg, next, f) == [Answer('?' as int, None, None)] && !Takes(env, arg, next)
  {
    hide LookupName, TriesLong;
  }

  // ----- operands, and the end of the options

  // An element that is no option: in the default order it is left for later, with a leading '+' or where the environment asks
  // for it it ends the options, and with a leading '-' it is answered as the argument of code 1.
  lemma Operand(env: Env, order: Ordering, a: seq<string>, i: nat)
    requires i < |a| && (|a[i]| < 2 || a[i][0] != '-')
    ensures Options(env, a, i) == Options(env, a, i + 1) && NonOptions(env, a, i) == [a[i]] + NonOptions(env, a, i + 1)
    ensures order == Permute ==> Answers(env, order, a, i) == Answers(env, order, a, i + 1)
    ensures order == RequireOrder ==> Answers(env, order, a, i) == [] && StopsAt(env, order, a, i) == i
    ensures order == ReturnInOrder ==> Answers(env, order, a, i) == [Answer(1, Some(a[i]), None)] + Answers(env, order, a, i + 1)
  {
  }

  // The element "--" ends the options in every order, and is the last of them.
  lemma DashDash(env: Env, order: Ordering, a: seq<string>, i: nat)
    requires i < |a| && a[i] == "--"
    ensures Options(env, a, i) == ["--"] && NonOptions(env, a, i) == a[i + 1..] && Answers(env, order, a, i) == []
    ensures order != Permute ==> StopsAt(env, order, a, i) == i + 1
  {
  }

  // The order is what the first character of the option string asks for, or else the environment.
  lemma Orders(opts: string, posixly: bool)
    ensures OrderingOf("-" + opts, posixly) == ReturnInOrder && OrderingOf("+" + opts, posixly) == RequireOrder
    ensures opts == "" || (opts[0] != '-' && opts[0] != '+') ==>
      OrderingOf(opts, posixly) == (if posixly then RequireOrder else Permute) && Strip(opts) == opts
    ensures Strip("-" + opts) == opts && Strip("+" + opts) == opts
  {
    assert ("-" + opts)[1..] == opts && ("+" + opts)[1..] == opts;
  }

  // A character's code is that of a signed byte.
  lemma CharCodes(c: char)
    requires c as int < 256
    ensures CharCode(c) == if c as int < 128 then c as int else c as int - 256
  {
  }
}
