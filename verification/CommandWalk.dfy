/**
 What ExpandCommandPrefixes does, told by the tokens it steps over, the child each word
 means and the places it rewrites; and what the program's walk therefore leaves alone.
 */
module CommandWalk {
  import opened Basics
  import opened CommandFlags
  import opened CommandPrefix

  // ------------------------------------------------------------------- scans

  /** How many tokens the one at p takes up: itself, and the next if it takes that. */
  ghost function Taken(path: Path, args: seq<string>, p: nat): nat {
    if p < |args| && |args[p]| > 1 && TakesNext(path, args[p]) then 2 else 1
  }

  predicate IsFlag(args: seq<string>, p: nat) { p < |args| && FlagLike(args[p]) && args[p] != "--" }

  /** Flags stand one behind the other from `from` on, the values they take between them,
      and `to` is the position behind. */
  ghost predicate ScansTo(path: Path, args: seq<string>, from: nat, flags: seq<nat>, to: nat)
    decreases |flags|
  {
    if flags == [] then to == from
    else flags[0] == from && IsFlag(args, from) && ScansTo(path, args, from + Taken(path, args, from), flags[1..], to)
  }

  /** Stepping over flags and values leads to a token that is no flag. */
  ghost predicate Finds(path: Path, args: seq<string>, from: nat, i: nat) {
    i < |args| && !FlagLike(args[i]) && exists flags :: ScansTo(path, args, from, flags, i)
  }

  /** It leads to a terminator or behind the last token. */
  ghost predicate FindsNone(path: Path, args: seq<string>, from: nat) {
    exists flags, to: nat :: ScansTo(path, args, from, flags, to) && (to >= |args| || args[to] == "--")
  }

  /** The scan of the program steps over flags and values, and halts where no flag is. */
  lemma {:induction false} ScanExactly(path: Path, args: seq<string>, from: nat) returns (flags: seq<nat>, to: nat)
    ensures ScansTo(path, args, from, flags, to) && !IsFlag(args, to)
    ensures WordIndex(path, args, from) == if to < |args| && args[to] != "--" then to else -1
    decreases |args| - from
  {
    flags, to := [], from;
    if IsFlag(args, from) {
      TakesNextExactly(path, args[from]);
      var rest;
      rest, to := ScanExactly(path, args, from + Taken(path, args, from));
      flags := [from] + rest;
      assert flags[1..] == rest;
    }
  }

  /** What a scan steps over lies between its ends. */
  lemma {:induction false} ScanWithin(path: Path, args: seq<string>, from: nat, flags: seq<nat>, to: nat, p: nat)
    requires ScansTo(path, args, from, flags, to)
    ensures from <= to && (p in flags ==> from <= p && p + Taken(path, args, p) <= to && IsFlag(args, p))
    decreases |flags|
  {
    if flags != [] {
      ScanWithin(path, args, from + Taken(path, args, from), flags[1..], to, p);
    }
  }

  /** A scan that halts has stepped over all that any other scan has. */
  lemma {:induction false} HaltsLast(path: Path, args: seq<string>, from: nat, flags: seq<nat>, to: nat, others: seq<nat>, end: nat)
    requires ScansTo(path, args, from, flags, to) && !IsFlag(args, to) && ScansTo(path, args, from, others, end)
    ensures end <= to
    decreases |flags|
  {
    if others == [] || flags == [] {
      ScanWithin(path, args, from, flags, to, from);
    } else {
      HaltsLast(path, args, from + Taken(path, args, from), flags[1..], to, others[1..], end);
    }
  }

  /** Every token between is a flag stepped over or the value it takes. */
  lemma {:induction false} ScanCovers(path: Path, args: seq<string>, from: nat, flags: seq<nat>, to: nat, j: nat)
    requires ScansTo(path, args, from, flags, to) && from <= j < to
    ensures exists p :: p in flags && (j == p || (j == p + 1 && Taken(path, args, p) == 2))
    decreases |flags|
  {
    assert flags[0] in flags;
    if j >= from + Taken(path, args, from) {
      ScanCovers(path, args, from + Taken(path, args, from), flags[1..], to, j);
      var p :| p in flags[1..] && (j == p || (j == p + 1 && Taken(path, args, p) == 2));
      assert p in flags;
    }
  }

  /** The word the program's scan finds is the one that stepping over flags and values
      leads to; it finds none exactly if that leads to a terminator or the end. */
  lemma WordIsFirst(path: Path, args: seq<string>, from: nat, i: nat)
    ensures WordIndex(path, args, from) == i <==> Finds(path, args, from, i)
    ensures WordIndex(path, args, from) == -1 <==> FindsNone(path, args, from)
  {
    var flags, to := ScanExactly(path, args, from);
    if Finds(path, args, from, i) {
      var other :| ScansTo(path, args, from, other, i);
      OneHalt(path, args, from, flags, to, other, i);
    }
    if FindsNone(path, args, from) {
      var other, end: nat :| ScansTo(path, args, from, other, end) && (end >= |args| || args[end] == "--");
      OneHalt(path, args, from, flags, to, other, end);
    }
  }

  lemma OneHalt(path: Path, args: seq<string>, from: nat, a: seq<nat>, i: nat, b: seq<nat>, j: nat)
    requires ScansTo(path, args, from, a, i) && !IsFlag(args, i) && ScansTo(path, args, from, b, j) && !IsFlag(args, j)
    ensures i == j
  {
    HaltsLast(path, args, from, a, i, b, j);
    HaltsLast(path, args, from, b, j, a, i);
  }

  // ---------------------------------------------------------------- children

  ghost function Spellings(c: Command): set<string> { {c.name} + set a | a in c.aliases }

  /** The first child with that name or alias. */
  ghost predicate FirstSpelled(c: Command, word: string, next: Command) {
    exists i :: 0 <= i < |c.subs| && c.subs[i] == next && word in Spellings(next)
                && forall j :: 0 <= j < i ==> word !in Spellings(c.subs[j])
  }

  ghost predicate Abbreviates(word: string, c: Command) { exists w :: w in Spellings(c) && word <= w }

  ghost predicate OnlyChild(c: Command, word: string, i: int) {
    0 <= i < |c.subs| && Abbreviates(word, c.subs[i])
    && forall j :: 0 <= j < |c.subs| && Abbreviates(word, c.subs[j]) ==> j == i
  }

  /** The child a word means and how it is spelled out: a child's name or alias stands for
      itself; any other word for the name of the one child it abbreviates. */
  ghost predicate ChildMeant(c: Command, word: string, full: string, next: Command) {
    && FirstSpelled(c, full, next)
    && (if exists s :: s in c.subs && word in Spellings(s) then full == word
        else exists i :: OnlyChild(c, word, i) && full == c.subs[i].name)
  }

  lemma SpelledExactly(c: Command, word: string)
    ensures Spelled(c, word) <==> word in Spellings(c)
    ensures Hit(c, word) <==> Abbreviates(word, c)
  {
    if a :| 0 <= a < |c.aliases| && word <= c.aliases[a] { assert c.aliases[a] in Spellings(c); }
    assert c.name in Spellings(c);
  }

  lemma ExactExactly(c: Command, word: string, next: Command)
    ensures ExactChild(c, word) == Some(next) <==> FirstSpelled(c, word, next)
    ensures ExactChild(c, word).Some? <==> exists s :: s in c.subs && word in Spellings(s)
  {
    ExactIndexSpec(c.subs, word);
    forall s | s in c.subs ensures Spelled(s, word) <==> word in Spellings(s) { SpelledExactly(s, word); }
    var r := ExactIndex(c.subs, word);
    if r < |c.subs| { assert c.subs[r] in c.subs; }
  }

  lemma {:induction false} HitsClimb(subs: seq<Command>, word: string)
    ensures forall a, b :: 0 <= a < b < |Hits(subs, word)| ==> Hits(subs, word)[a] < Hits(subs, word)[b]
  {
    if subs != [] { HitsClimb(subs[..|subs| - 1], word); }
  }

  lemma SoleExactly(c: Command, word: string, i: nat)
    requires i < |c.subs|
    ensures Hits(c.subs, word) == [i] <==> OnlyChild(c, word, i)
  {
    forall j: nat | j < |c.subs| ensures j in Hits(c.subs, word) <==> Abbreviates(word, c.subs[j]) {
      HitsSpec(c.subs, word, j);
      SpelledExactly(c.subs[j], word);
    }
    var hits := Hits(c.subs, word);
    HitsClimb(c.subs, word);
    if |hits| > 1 { assert hits[0] < hits[1]; }
    if OnlyChild(c, word, i) {
      assert i in hits;
      forall k | 0 <= k < |hits| ensures hits[k] == i { assert hits[k] in hits; }
    }
  }

  /** What the program resolves a word to is the child it means. */
  lemma LeadExactly(c: Command, word: string, full: string, next: Command)
    ensures Lead(c, word) == Some((full, next)) <==> ChildMeant(c, word, full, next)
  {
    ExactExactly(c, word, next);
    ExactExactly(c, full, next);
    if ExactChild(c, word).None? {
      var hits := Hits(c.subs, word);
      if |hits| == 1 { SoleExactly(c, word, hits[0]); }
      forall i | OnlyChild(c, word, i) ensures hits == [i] { SoleExactly(c, word, i); }
    }
  }

  // ------------------------------------------------------------------- walks

  /** A leg of the walk: the word it comes to, spelled out, and the child it means. */
  ghost predicate Leg(path: Path, args: seq<string>, from: nat, step: Step) {
    && path != [] && step.Word? && Finds(path, args, from, step.i)
    && ChildMeant(Current(path), args[step.i], step.word, step.next)
  }

  /** No word, or one that means no child. */
  ghost predicate LegStops(path: Path, args: seq<string>, from: nat)
    requires path != []
  {
    FindsNone(path, args, from) ||
    exists i: nat :: Finds(path, args, from, i) && forall full, next :: !ChildMeant(Current(path), args[i], full, next)
  }

  /** Legs taken from the command reached, each from behind the word before, until one
      stops or the words are used up. */
  ghost predicate IsWalk(path: Path, args: seq<string>, from: nat, words: nat, steps: seq<Step>)
    requires path != []
    decreases |steps|
  {
    if steps == [] then words == 0 || LegStops(path, args, from)
    else words > 0 && Leg(path, args, from, steps[0])
         && IsWalk(path + [steps[0].next], args, steps[0].i + 1, words - 1, steps[1..])
  }

  ghost predicate WordAt(steps: seq<Step>, k: nat) {
    exists n :: 0 <= n < |steps| && steps[n].Word? && steps[n].i == k
  }

  /** Every word is written where it stood, and nothing else is. */
  ghost predicate Rewrites(args: seq<string>, steps: seq<Step>, out: seq<string>) {
    && |out| == |args|
    && (forall n :: 0 <= n < |steps| && steps[n].Word? && steps[n].i < |args| ==> out[steps[n].i] == steps[n].word)
    && (forall k :: 0 <= k < |args| && !WordAt(steps, k) ==> out[k] == args[k])
  }

  /** What is in front of `from` has no say. */
  lemma {:induction false} ScanMoves(path: Path, args: seq<string>, other: seq<string>, from: nat, flags: seq<nat>, to: nat)
    requires |args| == |other| && forall j :: from <= j < |args| ==> args[j] == other[j]
    requires ScansTo(path, args, from, flags, to)
    ensures ScansTo(path, other, from, flags, to) && from <= to
    decreases |flags|
  {
    if flags != [] { ScanMoves(path, args, other, from + Taken(path, args, from), flags[1..], to); }
  }

  lemma FindMoves(path: Path, args: seq<string>, other: seq<string>, from: nat)
    requires |args| == |other| && forall j :: from <= j < |args| ==> args[j] == other[j]
    ensures forall i :: Finds(path, args, from, i) ==> Finds(path, other, from, i) && from <= i
    ensures FindsNone(path, args, from) ==> FindsNone(path, other, from)
  {
    forall i | Finds(path, args, from, i) ensures Finds(path, other, from, i) && from <= i {
      var flags :| ScansTo(path, args, from, flags, i);
      ScanMoves(path, args, other, from, flags, i);
    }
    if FindsNone(path, args, from) {
      var flags, to: nat :| ScansTo(path, args, from, flags, to) && (to >= |args| || args[to] == "--");
      ScanMoves(path, args, other, from, flags, to);
    }
  }

  lemma LegMoves(path: Path, args: seq<string>, other: seq<string>, from: nat, step: Step)
    requires |args| == |other| && (forall j :: from <= j < |args| ==> args[j] == other[j]) && Leg(path, args, from, step)
    ensures Leg(path, other, from, step) && from <= step.i < |args|
  {
    FindMoves(path, args, other, from);
  }

  lemma StopMoves(path: Path, args: seq<string>, other: seq<string>, from: nat)
    requires |args| == |other| && forall j :: from <= j < |args| ==> args[j] == other[j]
    requires path != [] && LegStops(path, args, from)
    ensures LegStops(path, other, from)
  {
    FindMoves(path, args, other, from);
  }

  lemma {:induction false} WalkMoves(path: Path, args: seq<string>, other: seq<string>, from: nat, words: nat, steps: seq<Step>)
    requires |args| == |other| && forall j :: from <= j < |args| ==> args[j] == other[j]
    requires path != [] && IsWalk(path, args, from, words, steps)
    ensures IsWalk(path, other, from, words, steps)
    decreases |steps|
  {
    if steps == [] {
      if words > 0 { StopMoves(path, args, other, from); }
    } else {
      LegMoves(path, args, other, from, steps[0]);
      WalkMoves(path + [steps[0].next], args, other, steps[0].i + 1, words - 1, steps[1..]);
    }
  }

  /** A resolver's step is the leg that is meant. */
  ghost predicate StepMeant(resolve: Resolver, path: Path, args: seq<string>, from: nat) {
    var step := resolve(path, args, from);
    path != [] ==> if step.Word? then Leg(path, args, from, step) && from <= step.i < |args| else LegStops(path, args, from)
  }

  lemma CodeStepMeant(path: Path, args: seq<string>, from: nat)
    ensures StepMeant(Resolve, path, args, from)
  {
    if path != [] {
      var i := WordIndex(path, args, from);
      if i < 0 {
        WordIsFirst(path, args, from, 0);
      } else {
        WordIsFirst(path, args, from, i);
        ChildOrNone(Current(path), args[i]);
      }
    }
  }

  lemma ChildOrNone(c: Command, word: string)
    ensures var lead := Lead(c, word);
      if lead.Some? then ChildMeant(c, word, lead.value.0, lead.value.1) else forall full, next :: !ChildMeant(c, word, full, next)
  {
    forall full, next ensures Lead(c, word) == Some((full, next)) <==> ChildMeant(c, word, full, next) {
      LeadExactly(c, word, full, next);
    }
  }

  /** The steps of a walk from any point on, where each is meant. */
  lemma {:induction false} StepsWalk(resolve: Resolver, path: Path, args: seq<string>, from: nat, words: nat)
    requires path != [] && forall p: Path, a: seq<string>, f: nat :: StepMeant(resolve, p, a, f)
    ensures IsWalk(path, args, from, words, Steps(resolve, path, args, from, words))
    decreases words
  {
    if words > 0 {
      assert StepMeant(resolve, path, args, from);
      var step := resolve(path, args, from);
      if step.Word? {
        StepsWalk(resolve, path + [step.next], args[step.i := step.word], step.i + 1, words - 1);
        StepsGo(resolve, path, args, from, words, step);
        WalkCons(path, args, from, words, step, Steps(resolve, path + [step.next], args[step.i := step.word], step.i + 1, words - 1));
      }
    }
  }

  lemma StepsGo(resolve: Resolver, path: Path, args: seq<string>, from: nat, words: nat, step: Step)
    requires words > 0 && step.Word? && from <= step.i < |args| && resolve(path, args, from) == step
    ensures Steps(resolve, path, args, from, words)
         == [step] + Steps(resolve, path + [step.next], args[step.i := step.word], step.i + 1, words - 1)
  {}

  lemma WalkCons(path: Path, args: seq<string>, from: nat, words: nat, step: Step, rest: seq<Step>)
    requires words > 0 && path != [] && Leg(path, args, from, step) && step.i < |args|
    requires IsWalk(path + [step.next], args[step.i := step.word], step.i + 1, words - 1, rest)
    ensures IsWalk(path, args, from, words, [step] + rest)
  {
    WalkMoves(path + [step.next], args[step.i := step.word], args, step.i + 1, words - 1, rest);
    WalkFrom(path, args, from, words, step, rest);
  }

  lemma WalkFrom(path: Path, args: seq<string>, from: nat, words: nat, step: Step, rest: seq<Step>)
    requires words > 0 && path != [] && Leg(path, args, from, step)
    requires IsWalk(path + [step.next], args, step.i + 1, words - 1, rest)
    ensures IsWalk(path, args, from, words, [step] + rest)
  {
    assert ([step] + rest)[1..] == rest;
  }

  lemma WordAtCons(step: Step, rest: seq<Step>, k: nat)
    requires step.Word?
    ensures WordAt([step] + rest, k) <==> k == step.i || WordAt(rest, k)
  {
    var all := [step] + rest;
    assert all[0] == step;
    if n :| 0 <= n < |rest| && rest[n].Word? && rest[n].i == k { assert all[n + 1] == rest[n]; }
    if n :| 0 <= n < |all| && all[n].Word? && all[n].i == k { assert n > 0 ==> all[n] == rest[n - 1]; }
  }

  ghost predicate Behind(steps: seq<Step>, from: nat) {
    forall n :: 0 <= n < |steps| ==> steps[n].Word? && from <= steps[n].i
  }

  lemma {:induction false} StepsBehind(resolve: Resolver, path: Path, args: seq<string>, from: nat, words: nat)
    ensures Behind(Steps(resolve, path, args, from, words), from)
    decreases words
  {
    var step := if words == 0 then Stop else resolve(path, args, from);
    if step.Word? && from <= step.i < |args| {
      StepsBehind(resolve, path + [step.next], args[step.i := step.word], step.i + 1, words - 1);
    }
  }

  lemma RewritesCons(args: seq<string>, step: Step, rest: seq<Step>, out: seq<string>)
    requires step.Word? && step.i < |args| && Behind(rest, step.i + 1) && Rewrites(args[step.i := step.word], rest, out)
    ensures Rewrites(args, [step] + rest, out)
  {
    forall k | 0 <= k < |args| ensures WordAt([step] + rest, k) <==> k == step.i || WordAt(rest, k) { WordAtCons(step, rest, k); }
  }

  /** Expanding rewrites the words its steps come to. */
  lemma {:induction false} StepsRewrite(resolve: Resolver, path: Path, args: seq<string>, from: nat, words: nat)
    ensures Rewrites(args, Steps(resolve, path, args, from, words), Expand(resolve, path, args, from, words).out)
    decreases words
  {
    var step := if words == 0 then Stop else resolve(path, args, from);
    if step.Word? && from <= step.i < |args| {
      var args' := args[step.i := step.word];
      StepsRewrite(resolve, path + [step.next], args', step.i + 1, words - 1);
      StepsBehind(resolve, path + [step.next], args', step.i + 1, words - 1);
      RewritesCons(args, step, Steps(resolve, path + [step.next], args', step.i + 1, words - 1),
                   Expand(resolve, path + [step.next], args', step.i + 1, words - 1).out);
    }
  }

  /** ExpandCommandPrefixes walks down the tree by the child each word means, eight words
      at the most, and writes their full names where they stood. */
  lemma ExpansionIsWalk(root: Command, args: seq<string>)
    ensures var steps := Steps(Resolve, [root], args, 0, MAX_COMMAND_WORDS);
      IsWalk([root], args, 0, 8, steps) && Rewrites(args, steps, Expand(Resolve, [root], args, 0, MAX_COMMAND_WORDS).out)
  {
    forall p: Path, a: seq<string>, f: nat ensures StepMeant(Resolve, p, a, f) { CodeStepMeant(p, a, f); }
    StepsWalk(Resolve, [root], args, 0, MAX_COMMAND_WORDS);
    StepsRewrite(Resolve, [root], args, 0, MAX_COMMAND_WORDS);
  }

  lemma OneLeg(path: Path, args: seq<string>, from: nat, a: Step, b: Step)
    requires Leg(path, args, from, a) && Leg(path, args, from, b)
    ensures a == b
  {
    OneFound(path, args, from, a.i, b.i);
    LeadExactly(Current(path), args[a.i], a.word, a.next);
    LeadExactly(Current(path), args[a.i], b.word, b.next);
  }

  lemma OneFound(path: Path, args: seq<string>, from: nat, i: nat, j: nat)
    requires Finds(path, args, from, i) && Finds(path, args, from, j)
    ensures i == j
  {
    WordIsFirst(path, args, from, i);
    WordIsFirst(path, args, from, j);
  }

  lemma LegGoesOn(path: Path, args: seq<string>, from: nat, step: Step)
    requires Leg(path, args, from, step)
    ensures !LegStops(path, args, from)
  {
    WordIsFirst(path, args, from, step.i);
    forall i: nat | Finds(path, args, from, i) ensures i == step.i { OneFound(path, args, from, i, step.i); }
  }

  lemma SameFirst(path: Path, args: seq<string>, from: nat, words: nat, a: seq<Step>, b: seq<Step>)
    requires path != [] && IsWalk(path, args, from, words, a) && IsWalk(path, args, from, words, b)
    ensures a == [] <==> b == []
    ensures a != [] ==> a[0] == b[0]
  {
    if a != [] { LegGoesOn(path, args, from, a[0]); }
    if b != [] { LegGoesOn(path, args, from, b[0]); }
    if a != [] && b != [] { OneLeg(path, args, from, a[0], b[0]); }
  }

  lemma WalkTail(path: Path, args: seq<string>, from: nat, words: nat, steps: seq<Step>)
    requires path != [] && steps != [] && IsWalk(path, args, from, words, steps)
    ensures words > 0 && steps[0].Word? && IsWalk(path + [steps[0].next], args, steps[0].i + 1, words - 1, steps[1..])
  {}

  lemma SameWalkOn(path: Path, args: seq<string>, from: nat, words: nat, a: seq<Step>, b: seq<Step>)
    requires path != [] && IsWalk(path, args, from, words, a) && IsWalk(path, args, from, words, b)
    ensures a == [] <==> b == []
    ensures a != [] ==> a[0] == b[0] && a[0].Word? && words > 0
    ensures a != [] ==> IsWalk(path + [a[0].next], args, a[0].i + 1, words - 1, a[1..])
    ensures a != [] ==> IsWalk(path + [a[0].next], args, a[0].i + 1, words - 1, b[1..])
  {
    SameFirst(path, args, from, words, a, b);
    if a != [] {
      WalkTail(path, args, from, words, a);
      WalkTail(path, args, from, words, b);
    }
  }

  type Walker = (Path, nat, nat, seq<Step>) -> bool

  /** `walk` says which steps are a walk of the arguments. */
  ghost predicate Walks(walk: Walker, args: seq<string>) {
    forall path: Path, from: nat, words: nat, steps: seq<Step> {:trigger walk(path, from, words, steps)} ::
      walk(path, from, words, steps) <==> path != [] && IsWalk(path, args, from, words, steps)
  }

  /** Walks that begin alike go on alike. */
  ghost predicate BeginsAlike(walk: Walker, path: Path, from: nat, words: nat, a: seq<Step>, b: seq<Step>) {
    walk(path, from, words, a) && walk(path, from, words, b) ==>
      && (a == [] <==> b == [])
      && (a != [] ==> a[0] == b[0] && a[0].Word? && words > 0)
      && (a != [] ==> walk(path + [a[0].next], a[0].i + 1, words - 1, a[1..]) && walk(path + [a[0].next], a[0].i + 1, words - 1, b[1..]))
  }

  lemma {:induction false} Alike(walk: Walker, path: Path, from: nat, words: nat, a: seq<Step>, b: seq<Step>)
    requires forall p: Path, f: nat, w: nat, s: seq<Step>, t: seq<Step> :: BeginsAlike(walk, p, f, w, s, t)
    requires walk(path, from, words, a) && walk(path, from, words, b)
    ensures a == b
    decreases |a|
  {
    assert BeginsAlike(walk, path, from, words, a, b);
    if a != [] {
      Alike(walk, path + [a[0].next], a[0].i + 1, words - 1, a[1..], b[1..]);
      assert a == [a[0]] + a[1..] && b == [b[0]] + b[1..];
    }
  }

  lemma WalksBeginAlike(walk: Walker, args: seq<string>, path: Path, from: nat, words: nat, a: seq<Step>, b: seq<Step>)
    requires Walks(walk, args)
    ensures BeginsAlike(walk, path, from, words, a, b)
  {
    if walk(path, from, words, a) && walk(path, from, words, b) {
      SameWalkOn(path, args, from, words, a, b);
    }
  }

  /** No other steps are a walk of these arguments. */
  lemma OneWalk(path: Path, args: seq<string>, from: nat, words: nat, a: seq<Step>, b: seq<Step>)
    requires path != [] && IsWalk(path, args, from, words, a) && IsWalk(path, args, from, words, b)
    ensures a == b
  {
    var walk := (p: Path, f: nat, w: nat, s: seq<Step>) => p != [] && IsWalk(p, args, f, w, s);
    assert Walks(walk, args);
    AlikeWalks(walk, args, path, from, words, a, b);
  }

  lemma AlikeWalks(walk: Walker, args: seq<string>, path: Path, from: nat, words: nat, a: seq<Step>, b: seq<Step>)
    requires Walks(walk, args) && walk(path, from, words, a) && walk(path, from, words, b)
    ensures a == b
  {
    forall p: Path, f: nat, w: nat, s: seq<Step>, t: seq<Step> ensures BeginsAlike(walk, p, f, w, s, t) {
      WalksBeginAlike(walk, args, p, f, w, s, t);
    }
    Alike(walk, path, from, words, a, b);
  }

  // ------------------------------------------------------ what is left alone

  /** Somewhere along the walk the command reached is that of `leg` and the scan goes on at `at`. */
  ghost predicate OnLeg(path: Path, from: nat, steps: seq<Step>, leg: Path, at: nat)
    decreases |steps|
  {
    || (leg == path && at == from)
    || (steps != [] && steps[0].Word? && OnLeg(path + [steps[0].next], steps[0].i + 1, steps[1..], leg, at))
  }

  lemma {:induction false} OnLegBehind(path: Path, args: seq<string>, from: nat, words: nat, steps: seq<Step>, leg: Path, at: nat)
    requires path != [] && IsWalk(path, args, from, words, steps) && OnLeg(path, from, steps, leg, at)
    ensures from <= at
    decreases |steps|
  {
    if !(leg == path && at == from) {
      LegMoves(path, args, args, from, steps[0]);
      OnLegBehind(path + [steps[0].next], args, steps[0].i + 1, words - 1, steps[1..], leg, at);
    }
  }

  lemma {:induction false} WordsBehind(path: Path, args: seq<string>, from: nat, words: nat, steps: seq<Step>, k: nat)
    requires path != [] && IsWalk(path, args, from, words, steps) && WordAt(steps, k)
    ensures from <= k < |args| && !FlagLike(args[k])
    decreases |steps|
  {
    LegMoves(path, args, args, from, steps[0]);
    if k != steps[0].i {
      Unword(steps, k);
      WordsBehind(path + [steps[0].next], args, steps[0].i + 1, words - 1, steps[1..], k);
    }
  }

  lemma Unword(steps: seq<Step>, k: nat)
    requires steps != [] && steps[0].Word?
    ensures WordAt(steps, k) <==> k == steps[0].i || WordAt(steps[1..], k)
  {
    WordAtCons(steps[0], steps[1..], k);
    assert steps == [steps[0]] + steps[1..];
  }

  /** What a scan steps over before the first word is no word of the walk. */
  lemma NoWordBefore(path: Path, args: seq<string>, from: nat, words: nat, steps: seq<Step>, flags: seq<nat>, to: nat, k: nat)
    requires path != [] && IsWalk(path, args, from, words, steps) && ScansTo(path, args, from, flags, to) && from <= k < to
    ensures !WordAt(steps, k)
  {
    if steps != [] {
      var i := steps[0].i;
      var others :| ScansTo(path, args, from, others, i);
      HaltsLast(path, args, from, others, i, flags, to);
      Unword(steps, k);
      if WordAt(steps[1..], k) { WordsBehind(path + [steps[0].next], args, i + 1, words - 1, steps[1..], k); }
    }
  }

  lemma LaterLeg(path: Path, args: seq<string>, from: nat, words: nat, steps: seq<Step>, leg: Path, at: nat)
    requires path != [] && IsWalk(path, args, from, words, steps)
    requires OnLeg(path, from, steps, leg, at) && !(leg == path && at == from)
    ensures steps != [] && steps[0].Word? && words > 0 && steps[0].i < at
    ensures IsWalk(path + [steps[0].next], args, steps[0].i + 1, words - 1, steps[1..])
    ensures OnLeg(path + [steps[0].next], steps[0].i + 1, steps[1..], leg, at)
  {
    OnLegBehind(path + [steps[0].next], args, steps[0].i + 1, words - 1, steps[1..], leg, at);
  }

  /** A later leg is a leg of what is behind the first word. */
  ghost predicate GoesOn(walk: Walker, path: Path, from: nat, words: nat, steps: seq<Step>, leg: Path, at: nat) {
    walk(path, from, words, steps) && OnLeg(path, from, steps, leg, at) && !(leg == path && at == from) ==>
      && steps != [] && steps[0].Word? && words > 0 && steps[0].i < at
      && walk(path + [steps[0].next], steps[0].i + 1, words - 1, steps[1..])
      && OnLeg(path + [steps[0].next], steps[0].i + 1, steps[1..], leg, at)
  }

  lemma WalkGoesOn(walk: Walker, args: seq<string>, path: Path, from: nat, words: nat, steps: seq<Step>, leg: Path, at: nat)
    requires Walks(walk, args)
    ensures GoesOn(walk, path, from, words, steps, leg, at)
  {
    if walk(path, from, words, steps) && OnLeg(path, from, steps, leg, at) && !(leg == path && at == from) {
      LaterLeg(path, args, from, words, steps, leg, at);
    }
  }

  /** The rest of the walk from a leg on. */
  lemma {:induction false} RestOfWalk(walk: Walker, path: Path, from: nat, words: nat, steps: seq<Step>, leg: Path, at: nat)
    returns (left: nat, rest: seq<Step>)
    requires forall p: Path, f: nat, w: nat, s: seq<Step> :: GoesOn(walk, p, f, w, s, leg, at)
    requires walk(path, from, words, steps) && OnLeg(path, from, steps, leg, at)
    ensures walk(leg, at, left, rest) && SameBehind(steps, rest, at)
    decreases |steps|
  {
    if leg == path && at == from {
      left, rest := words, steps;
    } else {
      assert GoesOn(walk, path, from, words, steps, leg, at);
      left, rest := RestOfWalk(walk, path + [steps[0].next], steps[0].i + 1, words - 1, steps[1..], leg, at);
      MoreBehind(steps, rest, at);
    }
  }

  ghost predicate SameBehind(steps: seq<Step>, rest: seq<Step>, at: nat) {
    forall k: nat :: at <= k && WordAt(steps, k) ==> WordAt(rest, k)
  }

  lemma MoreBehind(steps: seq<Step>, rest: seq<Step>, at: nat)
    requires steps != [] && steps[0].Word? && steps[0].i < at && SameBehind(steps[1..], rest, at)
    ensures SameBehind(steps, rest, at)
  {
    forall k: nat | at <= k && WordAt(steps, k) ensures WordAt(rest, k) { Unword(steps, k); }
  }

  lemma NoWordInScan(path: Path, args: seq<string>, from: nat, words: nat, steps: seq<Step>,
                     leg: Path, at: nat, flags: seq<nat>, to: nat, k: nat)
    requires path != [] && IsWalk(path, args, from, words, steps) && OnLeg(path, from, steps, leg, at)
    requires ScansTo(leg, args, at, flags, to) && at <= k < to
    ensures !WordAt(steps, k)
  {
    var walk := (p: Path, f: nat, w: nat, s: seq<Step>) => p != [] && IsWalk(p, args, f, w, s);
    assert Walks(walk, args);
    forall p: Path, f: nat, w: nat, s: seq<Step> ensures GoesOn(walk, p, f, w, s, leg, at) {
      WalkGoesOn(walk, args, p, f, w, s, leg, at);
    }
    var left, rest := RestOfWalk(walk, path, from, words, steps, leg, at);
    NoWordBefore(leg, args, at, left, rest, flags, to, k);
  }

  /** No flag that the walk steps over is rewritten, and no value that a flag takes,
      whatever it looks like and whichever command is reached there. */
  lemma ValuesUntouched(path: Path, args: seq<string>, from: nat, words: nat, steps: seq<Step>, out: seq<string>,
                        leg: Path, at: nat, flags: seq<nat>, to: nat, p: nat)
    requires path != [] && IsWalk(path, args, from, words, steps) && Rewrites(args, steps, out)
    requires OnLeg(path, from, steps, leg, at) && ScansTo(leg, args, at, flags, to) && p in flags
    ensures p < |args| && |args[p]| > 1 && out[p] == args[p]
    ensures TakesNext(leg, args[p]) && p + 1 < |args| ==> out[p + 1] == args[p + 1]
  {
    ScanWithin(leg, args, at, flags, to, p);
    NoWordInScan(path, args, from, words, steps, leg, at, flags, to, p);
    if TakesNext(leg, args[p]) { NoWordInScan(path, args, from, words, steps, leg, at, flags, to, p + 1); }
  }

  /** Only command words are rewritten. */
  lemma FlagsUntouched(path: Path, args: seq<string>, from: nat, words: nat, steps: seq<Step>, out: seq<string>, k: nat)
    requires path != [] && IsWalk(path, args, from, words, steps) && Rewrites(args, steps, out)
    requires k < |args| && out[k] != args[k]
    ensures WordAt(steps, k) && from <= k && !FlagLike(args[k])
  {
    WordsBehind(path, args, from, words, steps, k);
  }

  /** Position j holds the value of a flag that the walk steps over. */
  ghost predicate Swallowed(path: Path, args: seq<string>, from: nat, steps: seq<Step>, j: nat) {
    exists leg, at: nat, flags, to: nat, p: nat ::
      OnLeg(path, from, steps, leg, at) && ScansTo(leg, args, at, flags, to) && TakenAt(leg, args, flags, p, j)
  }

  ghost predicate TakenAt(leg: Path, args: seq<string>, flags: seq<nat>, p: nat, j: nat) {
    p in flags && p < |args| && |args[p]| > 1 && TakesNext(leg, args[p]) && j == p + 1
  }

  lemma TerminatorInScan(path: Path, args: seq<string>, from: nat, steps: seq<Step>, i: nat, j: nat)
    requires Finds(path, args, from, i) && from <= j < i && args[j] == "--"
    ensures Swallowed(path, args, from, steps, j)
  {
    var flags :| ScansTo(path, args, from, flags, i);
    ScanCovers(path, args, from, flags, i, j);
    var p :| p in flags && (j == p || (j == p + 1 && Taken(path, args, p) == 2));
    ScanWithin(path, args, from, flags, i, p);
    assert OnLeg(path, from, steps, path, from) && TakenAt(path, args, flags, p, j);
  }

  /** A command word has only terminators before it that flags took as their values. */
  lemma {:induction false} TerminatorsBefore(path: Path, args: seq<string>, from: nat, words: nat, steps: seq<Step>, k: nat, j: nat)
    requires path != [] && IsWalk(path, args, from, words, steps) && WordAt(steps, k)
    requires from <= j <= k < |args| && args[j] == "--"
    ensures Swallowed(path, args, from, steps, j)
    decreases |steps|
  {
    var path', i := path + [steps[0].next], steps[0].i;
    Unword(steps, k);
    if j < i {
      TerminatorInScan(path, args, from, steps, i, j);
    } else {
      TerminatorsBefore(path', args, i + 1, words - 1, steps[1..], k, j);
      var leg, at: nat, flags, to: nat, p: nat :|
        OnLeg(path', i + 1, steps[1..], leg, at) && ScansTo(leg, args, at, flags, to) && TakenAt(leg, args, flags, p, j);
      assert OnLeg(path, from, steps, leg, at);
    }
  }

  /** Everything from a bare terminator on is left alone, wherever in the walk it comes,
      unless a flag took that terminator as its value. */
  lemma TerminatorEndsWalk(path: Path, args: seq<string>, from: nat, words: nat, steps: seq<Step>, out: seq<string>, k: nat, j: nat)
    requires path != [] && IsWalk(path, args, from, words, steps) && Rewrites(args, steps, out)
    requires from <= j <= k < |args| && args[j] == "--" && !Swallowed(path, args, from, steps, j)
    ensures out[k] == args[k]
  {
    if WordAt(steps, k) { TerminatorsBefore(path, args, from, words, steps, k, j); }
  }
}
