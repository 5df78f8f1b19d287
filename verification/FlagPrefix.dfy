/**
 Long-flag expansion of internal/cli/flagprefix.go: an unambiguous prefix of a
 defined long flag is rewritten to the full name. The names defined on the command
 the arguments resolve to are an input.
 */
module FlagPrefix {
  import opened Basics
  import opened CommandFlags
  import opened CommandPrefix

  /** The full name a token stands for, if it is a proper abbreviation. */
  ghost function FullName(names: set<string>, tok: string): (full: Option<string>)
    ensures full.Some? ==> |tok| > 2 && full.value in names && Cut(tok[2..]).0 <= full.value && full.value != ""
  {
    if !("--" <= tok) || |tok| == 2 then None
    else
      var name := Cut(tok[2..]).0;
      if name == "" || name in names then None else Sole(WithPrefix(names, name))
  }

  /** The token with its name completed; what follows the name stays. */
  ghost function Completed(names: set<string>, tok: string): string {
    var full := FullName(names, tok);
    if full.None? then tok
    else CutLength(tok[2..]); "--" + full.value + tok[2 + |Cut(tok[2..]).0|..]
  }

  /** The token is "--", a name that is not defined and what follows it, if anything an
      '=' and more; and the name begins just one defined name. */
  ghost predicate Abbreviates(names: set<string>, tok: string, name: string, rest: string, full: string) {
    && tok == "--" + name + rest && name != "" && '=' !in name && (rest == "" || rest[0] == '=')
    && name !in names && full in names && name <= full
    && forall other :: other in names && name <= other ==> other == full
  }

  /** The name that is abbreviated is written out and the rest kept; any other token is kept. */
  ghost predicate Completes(names: set<string>, tok: string, out: string) {
    && (forall name, rest, full :: Abbreviates(names, tok, name, rest, full) ==> out == "--" + full + rest)
    && ((forall name, rest, full :: !Abbreviates(names, tok, name, rest, full)) ==> out == tok)
  }

  lemma SoleOfPrefix(names: set<string>, name: string, full: string)
    ensures Sole(WithPrefix(names, name)) == Some(full) <==>
      full in names && name <= full && forall other :: other in names && name <= other ==> other == full
  {
    var hits := WithPrefix(names, name);
    if Sole(hits) == Some(full) {
      SoleMeans(hits, full);
      assert full in hits;
      forall other | other in names && name <= other ensures other == full { assert other in hits; }
    }
    if full in names && name <= full && forall other :: other in names && name <= other ==> other == full {
      assert hits == {full};
    }
  }

  /** The pieces of an abbreviation are those the cut gives. */
  lemma AbbreviationCuts(names: set<string>, tok: string, name: string, rest: string, full: string)
    requires Abbreviates(names, tok, name, rest, full)
    ensures FullName(names, tok) == Some(full) && Cut(tok[2..]).0 == name && tok[2 + |name|..] == rest && |tok| > 2
  {
    assert tok[2..] == name + rest;
    CutAt(name, rest);
    SoleOfPrefix(names, name, full);
  }

  lemma CutAbbreviates(names: set<string>, tok: string)
    requires FullName(names, tok).Some?
    ensures exists name, rest :: Abbreviates(names, tok, name, rest, FullName(names, tok).value)
  {
    var name := Cut(tok[2..]).0;
    CutLength(tok[2..]);
    SoleOfPrefix(names, name, FullName(names, tok).value);
    var rest := tok[2..][|name|..];
    assert tok == "--" + name + rest;
    assert Abbreviates(names, tok, name, rest, FullName(names, tok).value);
  }

  /** Exactly the abbreviated names are completed. */
  lemma CompletedExactly(names: set<string>, tok: string)
    ensures Completes(names, tok, Completed(names, tok))
  {
    forall name, rest, full | Abbreviates(names, tok, name, rest, full)
      ensures Completed(names, tok) == "--" + full + rest
    {
      AbbreviationCuts(names, tok, name, rest, full);
    }
    if FullName(names, tok).Some? { CutAbbreviates(names, tok); }
  }

  /** The position of the first bare "--". */
  function Terminator(args: seq<string>): (t: nat)
    ensures t <= |args| && (t < |args| ==> args[t] == "--") && forall i :: 0 <= i < t ==> args[i] != "--"
  {
    if args == [] || args[0] == "--" then 0 else 1 + Terminator(args[1..])
  }

  ghost predicate IsExpanded(names: set<string>, args: seq<string>, out: seq<string>) {
    |out| == |args| &&
    forall i :: 0 <= i < |args| ==> out[i] == if i < Terminator(args) then Completed(names, args[i]) else args[i]
  }

  /** ExpandFlagPrefixes: every token before the terminator is completed, and nothing
      from the terminator on is touched. */
  method ExpandFlagPrefixes(names: set<string>, args: seq<string>) returns (out: seq<string>)
    ensures IsExpanded(names, args, out)
  {
    out := args;
    if args == [] || names == {} {
      forall i | 0 <= i < |args| ensures Completed(names, args[i]) == args[i] { NothingDefined(args[i]); }
      return;
    }
    var i := 0;
    while i < |args| && args[i] != "--"
      invariant 0 <= i <= Terminator(args) && |out| == |args|
      invariant forall j :: 0 <= j < |args| ==> out[j] == if j < i then Completed(names, args[j]) else args[j]
    {
      var arg := Complete(names, args[i]);
      out := out[i := arg];
      i := i + 1;
    }
  }

  method Complete(names: set<string>, arg: string) returns (r: string)
    ensures r == Completed(names, arg)
  {
    r := arg;
    if "--" <= arg && |arg| > 2 {
      var name := Cut(arg[2..]).0;
      CutLength(arg[2..]);
      if name != "" && name !in names {
        var full := SoleFlagWithPrefix(names, name);
        if full.Some? { r := "--" + full.value + arg[2 + |name|..]; }
      }
    }
  }

  lemma NothingDefined(tok: string)
    ensures Completed({}, tok) == tok
  {
    assert forall p :: WithPrefix({}, p) == {};
  }

  // ------------------------------------------------------------------- cutting

  lemma {:induction false} CutLength(s: string)
    ensures Cut(s).0 <= s && '=' !in Cut(s).0
    ensures Cut(s).1 <==> |Cut(s).0| < |s|
    ensures Cut(s).1 ==> s[|Cut(s).0|] == '='
  {
    if s != [] && s[0] != '=' {
      CutLength(s[1..]);
      assert s == [s[0]] + s[1..];
    }
  }

  /** The cut falls at the first '='. */
  lemma {:induction false} CutAt(name: string, rest: string)
    requires '=' !in name && (rest == "" || rest[0] == '=')
    ensures Cut(name + rest) == (name, rest != "")
  {
    if name == "" {
      assert name + rest == rest;
    } else {
      CutAt(name[1..], rest);
      assert (name + rest)[1..] == name[1..] + rest;
      assert [name[0]] + name[1..] == name;
    }
  }

  // ---------------------------------------------------------------- settling

  /** Another name in front of what follows the name cuts where the name ends. */
  lemma Recut(long: string, full: string)
    requires '=' !in full
    ensures |Cut(long).0| <= |long| && Cut(full + long[|Cut(long).0|..]) == (full, Cut(long).1)
  {
    CutLength(long);
    CutAt(full, long[|Cut(long).0|..]);
  }

  /** Completing a name leaves the rest of the token, and the cut after it, alone. */
  lemma CompletedCuts(names: set<string>, tok: string)
    requires FullName(names, tok).Some? && '=' !in FullName(names, tok).value
    ensures var c := Completed(names, tok);
      "--" <= c && |c| > 2 && Cut(c[2..]) == (FullName(names, tok).value, Cut(tok[2..]).1)
  {
    var full, name := FullName(names, tok).value, Cut(tok[2..]).0;
    Recut(tok[2..], full);
    var rest := tok[2..][|name|..];
    assert rest == tok[2 + |name|..];
    var c := "--" + full + rest;
    assert c[2..] == full + rest;
    assert Completed(names, tok) == c;
  }

  /** A second pass changes nothing exactly when the completed name holds no '='. */
  lemma SettlesExactly(names: set<string>, tok: string)
    ensures Completed(names, Completed(names, tok)) == Completed(names, tok) <==>
      (FullName(names, tok).Some? ==> '=' !in FullName(names, tok).value)
  {
    var full := FullName(names, tok);
    if full.Some? {
      if '=' in full.value {
        Unsettled(names, tok);
      } else {
        CompletedCuts(names, tok);
      }
    }
  }

  /** Completing tokens does not move the terminator. */
  lemma TerminatorStays(names: set<string>, args: seq<string>, out: seq<string>)
    requires IsExpanded(names, args, out)
    ensures Terminator(out) == Terminator(args)
  {
    var t := Terminator(args);
    forall i | 0 <= i < t ensures out[i] != "--" { CompletionKeepsKind(names, args[i]); }
    assert t < |args| ==> out[t] == "--";
  }

  /** For whole argument lists: expanding again changes nothing exactly when no completed
      name holds an '='. */
  lemma ListSettlesExactly(names: set<string>, args: seq<string>, once: seq<string>, twice: seq<string>)
    requires IsExpanded(names, args, once) && IsExpanded(names, once, twice)
    ensures twice == once <==>
      forall i :: 0 <= i < Terminator(args) && FullName(names, args[i]).Some? ==> '=' !in FullName(names, args[i]).value
  {
    TerminatorStays(names, args, once);
    forall i | 0 <= i < Terminator(args)
      ensures twice[i] == once[i] <==> (FullName(names, args[i]).Some? ==> '=' !in FullName(names, args[i]).value)
    {
      SettlesExactly(names, args[i]);
    }
  }

  /** Such a name: with only `a=b` defined, `--a` keeps growing. */
  lemma EqualsUnsettles()
    ensures Completed({"a=b"}, "--a") == "--a=b" && Completed({"a=b"}, "--a=b") == "--a=b=b"
  {
    var names := {"a=b"};
    assert "--a"[2..] == "a" && "--a=b"[2..] == "a=b";
    CutAt("a", "");
    CutAt("a", "=b");
    assert "a" + "" == "a" && "a" + "=b" == "a=b";
    assert "a" <= "a=b" && WithPrefix(names, "a") == {"a=b"};
    assert "--a"[3..] == "" && "--a=b"[3..] == "=b";
  }

  lemma Unsettled(names: set<string>, tok: string)
    requires FullName(names, tok).Some? && '=' in FullName(names, tok).value
    ensures |Completed(names, Completed(names, tok))| > |Completed(names, tok)|
  {
    var full, name := FullName(names, tok).value, Cut(tok[2..]).0;
    CutLength(tok[2..]);
    CutLength(full);
    var a, rest := Cut(full).0, tok[2 + |name|..];
    var c := Completed(names, tok);
    FirstEquals(full);
    assert c[2..] == a + (full[|a|..] + rest);
    CutAt(a, full[|a|..] + rest);
    SolePrefix(names, name, full, a);
    assert FullName(names, c) == Some(full);
  }

  lemma {:induction false} FirstEquals(s: string)
    requires '=' in s
    ensures Cut(s).1 && Cut(s).0 <= s && |Cut(s).0| < |s| && s[|Cut(s).0|] == '='
  {
    CutLength(s);
  }

  /** A longer prefix of the only match, ending before its '=', is no name itself and
      has the same only match. */
  lemma SolePrefix(names: set<string>, p: string, full: string, q: string)
    requires Sole(WithPrefix(names, p)) == Some(full) && '=' !in p && p <= full
    requires q < full && full[|q|] == '='
    ensures q !in names && Sole(WithPrefix(names, q)) == Some(full)
  {
    assert |p| <= |q| && p <= q;
    SoleMeans(WithPrefix(names, p), full);
    assert full in WithPrefix(names, p);
    assert q in names ==> q in WithPrefix(names, p);
    forall n ensures n in WithPrefix(names, q) <==> n == full {
      assert q <= n ==> p <= n;
      assert n in WithPrefix(names, q) ==> n in WithPrefix(names, p);
    }
    assert WithPrefix(names, q) == {full};
  }

  // ------------------------------------------------- agreement with the walk

  /** Completing a flag does not change whether it takes the next token. */
  lemma CompletionKeepsArity(path: Path, tok: string)
    requires |tok| > 1 && forall n :: n in FlagNames(path) ==> '=' !in n
    ensures var c := Completed(FlagNames(path), tok); 
      |c| > 1 && TakesValue(path, c) == TakesValue(path, tok) && TakesNext(path, c) == TakesNext(path, tok)
  {
    var names := FlagNames(path);
    var full := FullName(names, tok);
    TakesNextExactly(path, tok);
    TakesNextExactly(path, Completed(names, tok));
    if full.Some? {
      CompletedCuts(names, tok);
      NamedExactly(path, full.value);
      NamedExactly(path, Cut(tok[2..]).0);
    }
  }

  /** So the command walk finds the same word before and after the flags are
      completed, value tokens and terminator included. */
  lemma {:induction false} CompletionKeepsScan(path: Path, args: seq<string>, out: seq<string>, i: nat)
    requires forall n :: n in FlagNames(path) ==> '=' !in n
    requires IsExpanded(FlagNames(path), args, out)
    ensures WordIndex(path, out, i) == WordIndex(path, args, i)
    decreases |args| - i
  {
    if i < |args| {
      CompletionKeepsKind(FlagNames(path), args[i]);
      if FlagLike(args[i]) && args[i] != "--" {
        CompletionKeepsArity(path, args[i]);
        CompletionKeepsScan(path, args, out, i + 1 + (if TakesValue(path, args[i]) then 1 else 0));
      }
    }
  }

  lemma CompletionKeepsKind(names: set<string>, tok: string)
    ensures FlagLike(Completed(names, tok)) == FlagLike(tok)
    ensures Completed(names, tok) == "--" <==> tok == "--"
    ensures !FlagLike(tok) ==> Completed(names, tok) == tok
  {}
}
