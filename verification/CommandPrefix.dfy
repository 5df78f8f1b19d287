/**
 Command-name expansion of internal/cli/cmdprefix.go: unambiguous prefixes of
 command names are rewritten to the full name, walking down the command tree.
 */
module CommandPrefix {
  import opened Basics
  import opened CommandFlags

  const MAX_COMMAND_WORDS := 8

  function Current(path: Path): Command
    requires path != []
  {
    path[|path| - 1]
  }

  // ---------------------------------------------------------------- scanning

  /** commandWordIndex: the next command word at or after i, or -1. */
  ghost function WordIndex(path: Path, args: seq<string>, i: nat): (r: int)
    ensures r == -1 || i <= r < |args|
    decreases |args| - i
  {
    if i >= |args| then -1
    else if !FlagLike(args[i]) then i
    else if args[i] == "--" then -1
    else WordIndex(path, args, i + 1 + (if TakesValue(path, args[i]) then 1 else 0))
  }

  /** The scan depends only on the tokens before the word it finds. */
  lemma {:induction false} ScanLocal(path: Path, args: seq<string>, other: seq<string>, i: nat)
    requires |args| == |other| && WordIndex(path, args, i) >= 0
    requires forall j :: 0 <= j < WordIndex(path, args, i) ==> args[j] == other[j]
    requires !FlagLike(other[WordIndex(path, args, i)])
    ensures WordIndex(path, other, i) == WordIndex(path, args, i)
    decreases |args| - i
  {
    if FlagLike(args[i]) {
      ScanLocal(path, args, other, i + 1 + (if TakesValue(path, args[i]) then 1 else 0));
    }
  }

  lemma {:induction false} WordIsNoFlag(path: Path, args: seq<string>, i: nat)
    ensures var r := WordIndex(path, args, i); r >= 0 ==> !FlagLike(args[r])
    decreases |args| - i
  {
    if i < |args| && FlagLike(args[i]) && args[i] != "--" {
      WordIsNoFlag(path, args, i + 1 + (if TakesValue(path, args[i]) then 1 else 0));
    }
  }

  // ---------------------------------------------------------------- children

  predicate Spelled(c: Command, word: string) { c.name == word || word in c.aliases }

  /** The first child so spelled, or the number of children. */
  function ExactIndex(subs: seq<Command>, word: string): (r: nat)
    ensures r <= |subs|
  {
    if subs == [] || Spelled(subs[0], word) then 0 else 1 + ExactIndex(subs[1..], word)
  }

  /** exactChild: the first child so spelled, by name or alias. */
  function ExactChild(c: Command, word: string): Option<Command> {
    var i := ExactIndex(c.subs, word);
    if i < |c.subs| then Some(c.subs[i]) else None
  }

  lemma {:induction false} ExactIndexSpec(subs: seq<Command>, word: string)
    ensures var r := ExactIndex(subs, word);
      && (r < |subs| ==> Spelled(subs[r], word))
      && (forall j :: 0 <= j < r ==> !Spelled(subs[j], word))
  {
    if subs != [] && !Spelled(subs[0], word) {
      ExactIndexSpec(subs[1..], word);
      var r := ExactIndex(subs[1..], word);
      assert forall j :: 1 <= j < 1 + r ==> subs[j] == subs[1..][j - 1];
    }
  }

  predicate Hit(c: Command, word: string) {
    word <= c.name || exists a :: 0 <= a < |c.aliases| && word <= c.aliases[a]
  }

  /** The children whose name or one of whose aliases has the word as a prefix. */
  function Hits(subs: seq<Command>, word: string): (r: seq<nat>)
    ensures forall j :: 0 <= j < |r| ==> r[j] < |subs|
  {
    if subs == [] then []
    else
      var n := |subs| - 1;
      if Hit(subs[n], word) then Hits(subs[..n], word) + [n] else Hits(subs[..n], word)
  }

  /** soleChildWithPrefix: the name of the only such child. */
  function SoleChild(c: Command, word: string): Option<string> {
    var hits := Hits(c.subs, word);
    if |hits| == 1 then Some(c.subs[hits[0]].name) else None
  }

  lemma {:induction false} HitsSpec(subs: seq<Command>, word: string, i: nat)
    requires i < |subs|
    ensures i in Hits(subs, word) <==> Hit(subs[i], word)
  {
    var n := |subs| - 1;
    if i < n {
      HitsSpec(subs[..n], word, i);
    } else {
      assert i !in Hits(subs[..n], word);
    }
  }

  /** A sole child is the one child the word abbreviates. */
  lemma SoleChildSpec(c: Command, word: string)
    ensures SoleChild(c, word).Some? ==>
      exists i :: 0 <= i < |c.subs| && Hit(c.subs[i], word) && SoleChild(c, word) == Some(c.subs[i].name)
                  && forall j :: 0 <= j < |c.subs| && Hit(c.subs[j], word) ==> j == i
  {
    if SoleChild(c, word).Some? {
      var hits := Hits(c.subs, word);
      var i := hits[0];
      assert hits == [i];
      HitsSpec(c.subs, word, i);
      forall j | 0 <= j < |c.subs| && Hit(c.subs[j], word) ensures j == i { HitsSpec(c.subs, word, j); }
    }
  }

  method IsHit(c: Command, word: string) returns (hit: bool)
    ensures hit <==> Hit(c, word)
  {
    hit := word <= c.name;
    for a := 0 to |c.aliases|
      invariant hit <==> word <= c.name || exists b :: 0 <= b < a && word <= c.aliases[b]
    {
      hit := hit || word <= c.aliases[a];
    }
  }

  /** Among the first n children only `sole` has the prefix, or none. */
  ghost predicate SoleSoFar(subs: seq<Command>, word: string, n: nat, sole: int) {
    n <= |subs| && -1 <= sole < n && Hits(subs[..n], word) == if sole == -1 then [] else [sole]
  }

  lemma SoleNext(subs: seq<Command>, word: string, n: nat, sole: int)
    requires n < |subs| && SoleSoFar(subs, word, n, sole)
    ensures !Hit(subs[n], word) ==> SoleSoFar(subs, word, n + 1, sole)
    ensures Hit(subs[n], word) && sole == -1 ==> SoleSoFar(subs, word, n + 1, n)
    ensures Hit(subs[n], word) && sole >= 0 ==> |Hits(subs, word)| >= 2
  {
    assert subs[..n + 1][..n] == subs[..n];
    HitsGrow(subs, word, n + 1);
  }

  method FindSoleChild(c: Command, word: string) returns (r: Option<string>)
    ensures r == SoleChild(c, word)
  {
    var sole := -1;
    for i := 0 to |c.subs|
      invariant SoleSoFar(c.subs, word, i, sole)
    {
      var hit := IsHit(c.subs[i], word);
      SoleNext(c.subs, word, i, sole);
      if hit {
        if sole >= 0 {
          return None;
        }
        sole := i;
      }
    }
    assert c.subs[..|c.subs|] == c.subs;
    r := if sole < 0 then None else Some(c.subs[sole].name);
  }

  lemma {:induction false} HitsGrow(subs: seq<Command>, word: string, n: nat)
    requires n <= |subs|
    ensures |Hits(subs[..n], word)| <= |Hits(subs, word)|
    decreases |subs|
  {
    if n < |subs| {
      HitsGrow(subs[..|subs| - 1], word, n);
      assert subs[..|subs| - 1][..n] == subs[..n];
    } else {
      assert subs[..n] == subs;
    }
  }

  // -------------------------------------------------------------------- walk

  /** A command word: its position, its full spelling and the child it names. */
  datatype Step = Stop | Word(i: nat, word: string, next: Command)

  /** What one word resolves to: an exact name or alias wins over a prefix. */
  function Lead(c: Command, word: string): Option<(string, Command)> {
    var exact, full := ExactChild(c, word), SoleChild(c, word);
    if exact.Some? then Some((word, exact.value))
    else if full.None? || ExactChild(c, full.value).None? then None
    else Some((full.value, ExactChild(c, full.value).value))
  }

  /** One step of the walk. */
  ghost function Resolve(path: Path, args: seq<string>, from: nat): Step {
    var i := WordIndex(path, args, from);
    if path == [] || i < 0 then Stop
    else
      var lead := Lead(Current(path), args[i]);
      if lead.None? then Stop else Word(i, lead.value.0, lead.value.1)
  }

  /** The same step by exact names and aliases alone. */
  ghost function ResolveExact(path: Path, args: seq<string>, from: nat): Step {
    var i := WordIndex(path, args, from);
    if path == [] || i < 0 then Stop
    else
      var exact := ExactChild(Current(path), args[i]);
      if exact.None? then Stop else Word(i, args[i], exact.value)
  }

  /** A command without children resolves nothing. */
  lemma LeafStops(c: Command, word: string)
    requires c.subs == []
    ensures Lead(c, word).None?
  {}

  /** No command anywhere in the tree can be taken for a flag. */
  ghost predicate Sane(c: Command) {
    !FlagLike(c.name) && forall s :: s in c.subs ==> Sane(s)
  }

  /** A full spelling leads where the word it stands for leads. */
  lemma LeadSettles(c: Command, word: string)
    ensures Lead(c, word).Some? ==>
      var (full, next) := Lead(c, word).value; Lead(c, full) == Some((full, next)) && ExactChild(c, full) == Some(next)
  {}

  lemma LeadStaysSane(c: Command, word: string)
    requires Sane(c) && Lead(c, word).Some? && !FlagLike(word)
    ensures !FlagLike(Lead(c, word).value.0) && Sane(Lead(c, word).value.1)
  {
    var (full, next) := Lead(c, word).value;
    assert next in c.subs;
    if full != word {
      SoleChildSpec(c, word);
      var i :| 0 <= i < |c.subs| && SoleChild(c, word) == Some(c.subs[i].name);
      assert c.subs[i] in c.subs;
    }
  }

  /** A name found by its prefix is always found again by its full spelling. */
  lemma SoleChildIsExact(c: Command, word: string)
    ensures SoleChild(c, word).Some? ==> ExactChild(c, SoleChild(c, word).value).Some?
  {
    if SoleChild(c, word).Some? {
      SoleChildSpec(c, word);
      ExactIndexSpec(c.subs, SoleChild(c, word).value);
    }
  }

  // ----------------------------------------------------- walks by any resolver

  type Resolver = (Path, seq<string>, nat) -> Step

  datatype Walk = Walk(out: seq<string>, path: Path)

  /** ExpandCommandPrefixes from some point on, for a way to resolve words: the
      arguments after rewriting and the command reached. */
  ghost function Expand(resolve: Resolver, path: Path, args: seq<string>, from: nat, words: nat): (w: Walk)
    ensures |w.out| == |args|
    decreases words
  {
    var step := if words == 0 then Stop else resolve(path, args, from);
    if step.Word? && from <= step.i < |args| then
      Expand(resolve, path + [step.next], args[step.i := step.word], step.i + 1, words - 1)
    else Walk(args, path)
  }

  /** Rewriting never changes what was already passed. */
  lemma {:induction false} PrefixKept(resolve: Resolver, path: Path, args: seq<string>, from: nat, words: nat)
    ensures forall k :: 0 <= k < from && k < |args| ==> Expand(resolve, path, args, from, words).out[k] == args[k]
    decreases words
  {
    var step := if words == 0 then Stop else resolve(path, args, from);
    if step.Word? && from <= step.i < |args| {
      PrefixKept(resolve, path + [step.next], args[step.i := step.word], step.i + 1, words - 1);
    }
  }

  /** Where `resolve` finds a word, `again` finds its full spelling once it is
      written; where it stops, `again` stops. */
  ghost predicate SettlesAt(resolve: Resolver, again: Resolver, path: Path, args: seq<string>, from: nat) {
    match resolve(path, args, from)
    case Stop => again(path, args, from) == Stop
    case Word(i, word, next) =>
      from <= i < |args| &&
      forall out: seq<string> {:trigger again(path, out, from)} :: |out| == |args| && out[..i] == args[..i] && out[i] == word ==>
        again(path, out, from) == Word(i, word, next)
  }

  lemma ExpandGo(resolve: Resolver, path: Path, args: seq<string>, from: nat, words: nat, step: Step)
    requires words > 0 && step.Word? && from <= step.i < |args| && resolve(path, args, from) == step
    ensures Expand(resolve, path, args, from, words)
            == Expand(resolve, path + [step.next], args[step.i := step.word], step.i + 1, words - 1)
  {}

  lemma ExpandStop(resolve: Resolver, path: Path, args: seq<string>, from: nat, words: nat)
    requires resolve(path, args, from) == Stop
    ensures Expand(resolve, path, args, from, words) == Walk(args, path)
  {}

  /** Once the full spelling is written, the other walk takes the step too. */
  lemma StepAgain(resolve: Resolver, again: Resolver, path: Path, args: seq<string>, from: nat, words: nat, step: Step, out: seq<string>)
    requires words > 0 && step.Word? && resolve(path, args, from) == step && SettlesAt(resolve, again, path, args, from)
    requires |out| == |args| && out[..step.i] == args[..step.i] && out[step.i] == step.word
    ensures Expand(again, path, out, from, words) == Expand(again, path + [step.next], out, step.i + 1, words - 1)
  {
    assert out[step.i := step.word] == out;
    ExpandGo(again, path, out, from, words, step);
  }

  /** The walk behind a word keeps it and what is in front of it. */
  lemma FrontKept(resolve: Resolver, path: Path, args: seq<string>, step: Step, words: nat)
    requires step.Word? && step.i < |args|
    ensures var out := Expand(resolve, path, args[step.i := step.word], step.i + 1, words).out;
      out[..step.i] == args[..step.i] && out[step.i] == step.word
  {
    PrefixKept(resolve, path, args[step.i := step.word], step.i + 1, words);
  }

  lemma {:induction false} WalkSettles(resolve: Resolver, again: Resolver, path: Path, args: seq<string>, from: nat, words: nat, w: Walk)
    requires SettlesAlong(resolve, again, path, args, from, words) && w == Expand(resolve, path, args, from, words)
    ensures Expand(again, path, w.out, from, words) == w
    decreases words
  {
    if words > 0 && resolve(path, args, from).Word? {
      var step := resolve(path, args, from);
      StepSettlesAlong(resolve, again, path, args, from, words, step, w);
      WalkSettles(resolve, again, path + [step.next], args[step.i := step.word], step.i + 1, words - 1, w);
    } else {
      WalkStops(resolve, again, path, args, from, words);
    }
  }

  lemma WalkStops(resolve: Resolver, again: Resolver, path: Path, args: seq<string>, from: nat, words: nat)
    requires SettlesAlong(resolve, again, path, args, from, words) && (words == 0 || resolve(path, args, from) == Stop)
    ensures Expand(resolve, path, args, from, words) == Expand(again, path, args, from, words) == Walk(args, path)
  {}

  /** What one step of the walk leaves to show for the rest of it. */
  lemma StepSettlesAlong(resolve: Resolver, again: Resolver, path: Path, args: seq<string>, from: nat, words: nat, step: Step, w: Walk)
    requires SettlesAlong(resolve, again, path, args, from, words) && w == Expand(resolve, path, args, from, words)
    requires words > 0 && step.Word? && step == resolve(path, args, from)
    ensures step.i < |args| && SettlesAlong(resolve, again, path + [step.next], args[step.i := step.word], step.i + 1, words - 1)
    ensures w == Expand(resolve, path + [step.next], args[step.i := step.word], step.i + 1, words - 1)
    ensures Expand(again, path, w.out, from, words) == Expand(again, path + [step.next], w.out, step.i + 1, words - 1)
  {
    ExpandGo(resolve, path, args, from, words, step);
    FrontKept(resolve, path + [step.next], args, step, words - 1);
    StepAgain(resolve, again, path, args, from, words, step, w.out);
  }

  /** SettlesAt at every step of the walk. */
  ghost predicate SettlesAlong(resolve: Resolver, again: Resolver, path: Path, args: seq<string>, from: nat, words: nat)
    decreases words
  {
    words == 0 ||
    (SettlesAt(resolve, again, path, args, from) &&
     (var step := resolve(path, args, from);
      step.Word? ==> step.i < |args| && SettlesAlong(resolve, again, path + [step.next], args[step.i := step.word], step.i + 1, words - 1)))
  }

  /** A resolver that settles from every good command settles along every walk. */
  lemma {:induction false} GoodSettles(resolve: Resolver, again: Resolver, good: Command -> bool,
                                       path: Path, args: seq<string>, from: nat, words: nat)
    requires GoodResolver(resolve, again, good) && path != [] && good(Current(path))
    ensures SettlesAlong(resolve, again, path, args, from, words)
    decreases words
  {
    if words > 0 {
      assert GoodStep(resolve, again, good, path, args, from);
      var step := resolve(path, args, from);
      if step.Word? {
        GoodSettles(resolve, again, good, path + [step.next], args[step.i := step.word], step.i + 1, words - 1);
      }
    }
  }

  ghost predicate GoodStep(resolve: Resolver, again: Resolver, good: Command -> bool, path: Path, args: seq<string>, from: nat) {
    path != [] && good(Current(path)) ==>
      SettlesAt(resolve, again, path, args, from) &&
      (resolve(path, args, from).Word? ==> good(resolve(path, args, from).next))
  }

  ghost predicate GoodResolver(resolve: Resolver, again: Resolver, good: Command -> bool) {
    forall path: Path, args: seq<string>, from: nat :: GoodStep(resolve, again, good, path, args, from)
  }

  // --------------------------------------------------- theorems about the code

  /** Seen again after rewriting, a step finds the full spelling in its place, unless
      that spelling looks like a flag. */
  lemma StepSettles(path: Path, args: seq<string>, from: nat, out: seq<string>)
    requires path != [] && |out| == |args| && Resolve(path, args, from).Word?
    requires var step := Resolve(path, args, from);
      out[..step.i] == args[..step.i] && out[step.i] == step.word && !FlagLike(step.word)
    ensures Resolve(path, out, from) == ResolveExact(path, out, from) == Resolve(path, args, from)
  {
    var c, step := Current(path), Resolve(path, args, from);
    LeadSettles(c, args[step.i]);
    forall j | 0 <= j < step.i ensures args[j] == out[j] { assert args[..step.i][j] == out[..step.i][j]; }
    ScanLocal(path, args, out, from);
  }

  /** In a sane tree no spelling does. */
  lemma StepStaysSane(path: Path, args: seq<string>, from: nat)
    requires path != [] && Sane(Current(path)) && Resolve(path, args, from).Word?
    ensures !FlagLike(Resolve(path, args, from).word) && Sane(Resolve(path, args, from).next)
  {
    WordIsNoFlag(path, args, from);
    LeadStaysSane(Current(path), args[Resolve(path, args, from).i]);
  }

  lemma CodeSettlesAt(path: Path, args: seq<string>, from: nat)
    requires path != [] && Sane(Current(path))
    ensures SettlesAt(Resolve, Resolve, path, args, from) && SettlesAt(Resolve, ResolveExact, path, args, from)
    ensures Resolve(path, args, from).Word? ==> Sane(Resolve(path, args, from).next)
  {
    var step := Resolve(path, args, from);
    if step.Word? {
      StepStaysSane(path, args, from);
      forall out: seq<string> | |out| == |args| && out[..step.i] == args[..step.i] && out[step.i] == step.word
        ensures Resolve(path, out, from) == step && ResolveExact(path, out, from) == step
      {
        StepSettles(path, args, from, out);
      }
      assert args[step.i := step.word][..step.i] == args[..step.i];
    }
  }

  /** ExpandCommandPrefixes is a fixpoint: expanding again changes nothing, and
      the expanded arguments lead by exact names alone to the command the
      prefixes led to. */
  lemma ExpansionSettles(root: Command, args: seq<string>)
    requires Sane(root)
    ensures var w := Expand(Resolve, [root], args, 0, MAX_COMMAND_WORDS);
      && Expand(Resolve, [root], w.out, 0, MAX_COMMAND_WORDS) == w
      && Expand(ResolveExact, [root], w.out, 0, MAX_COMMAND_WORDS) == w
  {
    forall path: Path, a: seq<string>, from: nat
      ensures GoodStep(Resolve, Resolve, Sane, path, a, from) && GoodStep(Resolve, ResolveExact, Sane, path, a, from)
    {
      if path != [] && Sane(Current(path)) { CodeSettlesAt(path, a, from); }
    }
    var w := Expand(Resolve, [root], args, 0, MAX_COMMAND_WORDS);
    GoodSettles(Resolve, Resolve, Sane, [root], args, 0, MAX_COMMAND_WORDS);
    GoodSettles(Resolve, ResolveExact, Sane, [root], args, 0, MAX_COMMAND_WORDS);
    WalkSettles(Resolve, Resolve, [root], args, 0, MAX_COMMAND_WORDS, w);
    WalkSettles(Resolve, ResolveExact, [root], args, 0, MAX_COMMAND_WORDS, w);
  }

  // ---------------------------------------------------- the exact condition

  /** The steps of the walk: the words it comes to, as they are written. */
  ghost function Steps(resolve: Resolver, path: Path, args: seq<string>, from: nat, words: nat): seq<Step>
    decreases words
  {
    var step := if words == 0 then Stop else resolve(path, args, from);
    if step.Word? && from <= step.i < |args| then
      [step] + Steps(resolve, path + [step.next], args[step.i := step.word], step.i + 1, words - 1)
    else []
  }

  ghost predicate WritesFlag(steps: seq<Step>) {
    exists n :: 0 <= n < |steps| && steps[n].Word? && FlagLike(steps[n].word)
  }

  lemma WritesFlagCons(step: Step, rest: seq<Step>)
    ensures WritesFlag([step] + rest) <==> (step.Word? && FlagLike(step.word)) || WritesFlag(rest)
  {
    var all := [step] + rest;
    if n :| 0 <= n < |rest| && rest[n].Word? && FlagLike(rest[n].word) { assert all[n + 1] == rest[n]; }
    if n :| 0 <= n < |all| && all[n].Word? && FlagLike(all[n].word) { assert n > 0 ==> rest[n - 1] == all[n]; }
    if step.Word? && FlagLike(step.word) { assert all[0] == step; }
  }

  /** Once its word is written, a step is found again exactly if the word is no flag. */
  ghost predicate FlagsDecide(resolve: Resolver, path: Path, args: seq<string>, from: nat) {
    var step := resolve(path, args, from);
    step.Word? ==>
      (from <= step.i < |args| &&
       forall out: seq<string> {:trigger resolve(path, out, from)} :: |out| == |args| && out[..step.i] == args[..step.i] && out[step.i] == step.word ==>
         (resolve(path, out, from) == step <==> !FlagLike(step.word)))
  }

  ghost predicate FlagsAlwaysDecide(resolve: Resolver) {
    forall path: Path, args: seq<string>, from: nat :: path != [] ==> FlagsDecide(resolve, path, args, from)
  }

  /** The first step of a walk over what the walk itself wrote. */
  lemma WrittenStep(resolve: Resolver, path: Path, args: seq<string>, from: nat, words: nat, step: Step, out: seq<string>)
    requires words > 0 && step == resolve(path, args, from) && step.Word? && FlagsDecide(resolve, path, args, from)
    requires out == Expand(resolve, path, args, from, words).out
    ensures from <= step.i < |args| && out[step.i := step.word] == out
    ensures out == Expand(resolve, path + [step.next], args[step.i := step.word], step.i + 1, words - 1).out
    ensures resolve(path, out, from) == step <==> !FlagLike(step.word)
  {
    FrontKept(resolve, path + [step.next], args, step, words - 1);
  }

  /** Walking the expanded arguments takes the same steps again if and only if no word
      that was written looks like a flag. */
  lemma {:induction false} StepsSettle(resolve: Resolver, path: Path, args: seq<string>, from: nat, words: nat, out: seq<string>)
    requires path != [] && FlagsAlwaysDecide(resolve) && out == Expand(resolve, path, args, from, words).out
    ensures Steps(resolve, path, out, from, words) == Steps(resolve, path, args, from, words)
            <==> !WritesFlag(Steps(resolve, path, args, from, words))
    decreases words
  {
    if words > 0 && resolve(path, args, from).Word? {
      var step := resolve(path, args, from);
      WrittenStep(resolve, path, args, from, words, step, out);
      var path', args' := path + [step.next], args[step.i := step.word];
      StepsSettle(resolve, path', args', step.i + 1, words - 1, out);
      var rest := Steps(resolve, path', args', step.i + 1, words - 1);
      WritesFlagCons(step, rest);
      if !FlagLike(step.word) {
        SameTail(step, Steps(resolve, path', out, step.i + 1, words - 1), rest);
      } else {
        FirstStep(resolve, path, out, from, words);
      }
    }
  }

  lemma CodeFlagsDecide(path: Path, args: seq<string>, from: nat)
    requires path != []
    ensures FlagsDecide(Resolve, path, args, from)
  {
    var step := Resolve(path, args, from);
    if step.Word? {
      forall out: seq<string> | |out| == |args| && out[..step.i] == args[..step.i] && out[step.i] == step.word
        ensures Resolve(path, out, from) == step <==> !FlagLike(step.word)
      {
        if FlagLike(step.word) { WordIsNoFlag(path, out, from); } else { StepSettles(path, args, from, out); }
      }
    }
  }

  /** For every tree: expanding again takes the same steps, word by word and command by
      command, if and only if no word that was written looks like a flag. */
  lemma StepsSettleExactly(root: Command, args: seq<string>)
    ensures var out := Expand(Resolve, [root], args, 0, MAX_COMMAND_WORDS).out;
      var steps := Steps(Resolve, [root], args, 0, MAX_COMMAND_WORDS);
      Steps(Resolve, [root], out, 0, MAX_COMMAND_WORDS) == steps <==> !WritesFlag(steps)
  {
    forall path: Path, a: seq<string>, from: nat | path != [] ensures FlagsDecide(Resolve, path, a, from) {
      CodeFlagsDecide(path, a, from);
    }
    StepsSettle(Resolve, [root], args, 0, MAX_COMMAND_WORDS, Expand(Resolve, [root], args, 0, MAX_COMMAND_WORDS).out);
  }

  lemma SameTail(step: Step, a: seq<Step>, b: seq<Step>)
    ensures [step] + a == [step] + b <==> a == b
  {
    assert ([step] + a)[1..] == a && ([step] + b)[1..] == b;
  }

  lemma FirstStep(resolve: Resolver, path: Path, out: seq<string>, from: nat, words: nat)
    requires words > 0
    ensures var steps := Steps(resolve, path, out, from, words); steps != [] ==> steps[0] == resolve(path, out, from)
  {}

  /** A tree with a command named like a flag, on which expanding again changes the
      arguments: the first pass hides the word it wrote, the second takes the next. */
  lemma DashNameUnsettles()
    ensures var root := Command("koc", [], [], [], [Command("-x", [], [], [], []), Command("list", [], [], [], [])]);
      var once := Expand(Resolve, [root], ["-", "li"], 0, MAX_COMMAND_WORDS).out;
      once == ["-x", "li"] && Expand(Resolve, [root], once, 0, MAX_COMMAND_WORDS).out == ["-x", "list"]
  {
    var x, list := Command("-x", [], [], [], []), Command("list", [], [], [], []);
    var root := Command("koc", [], [], [], [x, list]);
    assert "-"[0] != "list"[0] && "li"[0] != "-x"[0];
    LeadsByPrefix(root, x, list, 0, "-");
    LeadsByPrefix(root, x, list, 1, "li");
    assert WordIndex([root], ["-", "li"], 0) == 0;
    assert Resolve([root], ["-", "li"], 0) == Word(0, "-x", x);
    ExpandGo(Resolve, [root], ["-", "li"], 0, 8, Word(0, "-x", x));
    assert ["-", "li"][0 := "-x"] == ["-x", "li"];
    LeafStops(x, "li");
    assert Current([root] + [x]) == x;
    assert Resolve([root] + [x], ["-x", "li"], 1) == Stop;
    assert FirstIn([], ByShorthand("x")) == None && Find([], ByShorthand("x")) == None;
    assert [root][..0] == [] && Shorthand([root], "x") == None;
    assert WordIndex([root], ["-x", "li"], 0) == WordIndex([root], ["-x", "li"], 1) == 1;
    assert Resolve([root], ["-x", "li"], 0) == Word(1, "list", list);
    ExpandGo(Resolve, [root], ["-x", "li"], 0, 8, Word(1, "list", list));
    assert ["-x", "li"][1 := "list"] == ["-x", "list"];
    assert Resolve([root] + [list], ["-x", "list"], 2) == Stop;
  }

  lemma LeadsByPrefix(root: Command, a: Command, b: Command, n: nat, word: string)
    requires root.subs == [a, b] && n < 2 && a.aliases == b.aliases == [] && a.name != b.name
    requires a.name != word && b.name != word
    requires if n == 0 then word <= a.name && !(word <= b.name) else word <= b.name && !(word <= a.name)
    ensures Lead(root, word) == Some((root.subs[n].name, root.subs[n]))
  {
    var subs := root.subs;
    assert subs[..1] == [a] && [a][..0] == [];
    assert Hits([], word) == [];
    assert Hits([a], word) == if n == 0 then [0] else [];
    assert Hits(subs, word) == [n];
    assert subs[1..] == [b] && [b][1..] == [];
    assert ExactIndex([b], word) == 1 && ExactIndex(subs, word) == 2;
    var full := subs[n].name;
    assert ExactIndex([b], full) == (if n == 1 then 0 else 1);
    assert ExactIndex(subs, full) == n;
  }

  // ------------------------------------------------- the loops of the program

  method CommandWordIndex(path: Path, args: seq<string>, from: nat) returns (r: int)
    ensures r == WordIndex(path, args, from)
  {
    var i := from;
    while i < |args|
      invariant WordIndex(path, args, from) == WordIndex(path, args, i)
      decreases |args| - i
    {
      var tok := args[i];
      if tok == "--" {
        return -1;
      }
      if !FlagLike(tok) {
        return i;
      }
      var n := ConsumesValue(path, tok);
      i := i + n + 1;
    }
    r := -1;
  }

  predicate Asked(path: Path, args: seq<string>, from: nat) { true }

  /** `resolve` resolves words as the program does. */
  ghost predicate Resolves(resolve: Resolver) {
    forall path: Path, args: seq<string>, from: nat {:trigger Asked(path, args, from)} ::
      Asked(path, args, from) ==> resolve(path, args, from) == Resolve(path, args, from)
  }

  /** ExpandCommandPrefixes. */
  method ExpandCommandPrefixes(root: Command, args: seq<string>) returns (out: seq<string>)
    ensures out == Expand(Resolve, [root], args, 0, MAX_COMMAND_WORDS).out
  {
    out := ExpandWords(root, args, MAX_COMMAND_WORDS, Resolve);
  }

  /** The loop, for any bound on the number of command words. */
  method ExpandWords(root: Command, args: seq<string>, words: nat, ghost resolve: Resolver) returns (out: seq<string>)
    requires Resolves(resolve)
    ensures out == Expand(resolve, [root], args, 0, words).out
  {
    out := args;
    var path: Path, from: nat := [root], 0;
    ghost var goal := Expand(resolve, [root], args, 0, words);
    for n := 0 to words
      invariant path != []
      invariant Expand(resolve, path, out, from, words - n) == goal
    {
      var step := ResolveWord(path, out, from, resolve);
      if step.Stop? {
        ExpandStop(resolve, path, out, from, words - n);
        return;
      }
      ExpandGo(resolve, path, out, from, words - n, step);
      out := out[step.i := step.word];
      path, from := path + [step.next], step.i + 1;
    }
  }

  /** One turn of the loop: the exact child, or else the only one with the prefix. */
  method ResolveWord(path: Path, out: seq<string>, from: nat, ghost resolve: Resolver) returns (step: Step)
    requires path != [] && Resolves(resolve)
    ensures step == resolve(path, out, from)
    ensures step.Word? ==> from <= step.i < |out|
  {
    assert Asked(path, out, from);
    var cur := Current(path);
    if cur.subs == [] {
      if WordIndex(path, out, from) >= 0 { LeafStops(cur, out[WordIndex(path, out, from)]); }
      return Stop;
    }
    var i := CommandWordIndex(path, out, from);
    if i < 0 {
      return Stop;
    }
    var next := ExactChild(cur, out[i]);
    if next.Some? {
      return Word(i, out[i], next.value);
    }
    var full := FindSoleChild(cur, out[i]);
    if full.None? {
      return Stop;
    }
    SoleChildIsExact(cur, out[i]);
    next := ExactChild(cur, full.value);
    step := if next.None? then Stop else Word(i, full.value, next.value);
  }
}
