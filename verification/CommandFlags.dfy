/**
 Which flag a token means and whether it takes the next token: flagFinder of
 internal/cli/cmdprefix.go.
 */
module CommandFlags {
  import opened Basics

  datatype Flag = Flag(name: string, shorthand: string, noOptDefVal: string)

  datatype Command = Command(
    name: string, aliases: seq<string>, flags: seq<Flag>, persistent: seq<Flag>, subs: seq<Command>)

  /** A command with its ancestors, root first. */
  type Path = seq<Command>

  function FirstIn(fs: seq<Flag>, picked: Flag -> bool): Option<Flag> {
    if fs == [] then None else if picked(fs[0]) then Some(fs[0]) else FirstIn(fs[1..], picked)
  }

  /** flagFinder.find: own flags, then persistent ones, then the parent's. */
  function Find(path: Path, picked: Flag -> bool): Option<Flag> {
    if path == [] then None
    else
      var c := path[|path| - 1];
      var own := FirstIn(c.flags, picked);
      if own.Some? then own
      else
        var persistent := FirstIn(c.persistent, picked);
        if persistent.Some? then persistent else Find(path[..|path| - 1], picked)
  }

  function ByName(name: string): Flag -> bool { (f: Flag) => f.name == name }

  function ByShorthand(sh: string): Flag -> bool { (f: Flag) => f.shorthand == sh }

  function Lookup(path: Path, name: string): Option<Flag> { Find(path, ByName(name)) }

  function Shorthand(path: Path, sh: string): Option<Flag> { Find(path, ByShorthand(sh)) }

  function FlagNames(path: Path): set<string> {
    set c, f | c in path && f in c.flags + c.persistent :: f.name
  }

  /** soleFlagWithPrefix, then lookup of the full name. */
  ghost function Prefixed(path: Path, prefix: string): Option<Flag> {
    var sole := Sole(WithPrefix(FlagNames(path), prefix));
    if sole.Some? then Lookup(path, sole.value) else None
  }

  function WithPrefix(names: set<string>, prefix: string): set<string> {
    set n | n in names && prefix <= n
  }

  /** The only element of a set that has one. */
  ghost function Sole(names: set<string>): Option<string> {
    if |names| == 1 then var n :| n in names; Some(n) else None
  }

  lemma SoleIs(names: set<string>, n: string)
    requires names == {n}
    ensures Sole(names) == Some(n)
  {}

  lemma SoleMeans(hits: set<string>, n: string)
    requires Sole(hits) == Some(n)
    ensures hits == {n}
  {
    forall m | m in hits ensures m == n {
      if m != n { TwoHits(hits, m, n); }
    }
  }

  lemma TwoHits(hits: set<string>, a: string, b: string)
    requires a in hits && b in hits && a != b
    ensures |hits| >= 2
  {
    assert |hits - {a}| == |hits| - 1;
    assert b in hits - {a};
  }

  /** The part of a long flag before '=', and whether there is one. */
  function Cut(s: string): (string, bool) {
    if s == [] then ([], false)
    else if s[0] == '=' then ([], true)
    else var (name, has) := Cut(s[1..]); ([s[0]] + name, has)
  }

  lemma {:induction false} CutExactly(s: string)
    ensures Cut(s).1 <==> '=' in s
    ensures '=' !in s ==> Cut(s).0 == s
  {
    if s != [] && s[0] != '=' {
      CutExactly(s[1..]);
      assert s == [s[0]] + s[1..];
    }
  }

  /** Whether the flag token takes the next token as its value. */
  ghost predicate TakesValue(path: Path, tok: string)
    requires |tok| > 1
  {
    if "--" <= tok then
      var (name, has) := Cut(tok[2..]);
      !has &&
      (var exact := Lookup(path, name);
       var f := if exact.Some? then exact else Prefixed(path, name);
       f.Some? && f.value.noOptDefVal == "")
    else
      var f := Shorthand(path, [tok[|tok| - 1]]);
      f.Some? && f.value.noOptDefVal == ""
  }

  /** A token that is a flag or the terminator, never a command word. */
  predicate FlagLike(tok: string) { |tok| > 1 && tok[0] == '-' }

  // ---------------------------------------------------- the flag that is meant

  /** The flags of the d-th command up the path, its own before the persistent ones. */
  ghost function Declared(path: Path, d: nat): seq<Flag>
    requires d < |path|
  {
    var c := path[|path| - 1 - d];
    c.flags + c.persistent
  }

  /** Flag i of command d is one of those picked, and none nearer is. */
  ghost predicate StandsNearest(path: Path, picked: Flag -> bool, d: int, i: int) {
    && 0 <= d < |path| && 0 <= i < |Declared(path, d)| && picked(Declared(path, d)[i])
    && (forall j :: 0 <= j < i ==> !picked(Declared(path, d)[j]))
    && (forall e, j :: 0 <= e < d && 0 <= j < |Declared(path, e)| ==> !picked(Declared(path, e)[j]))
  }

  ghost predicate IsNearest(path: Path, picked: Flag -> bool, f: Flag) {
    exists d, i :: StandsNearest(path, picked, d, i) && f == Declared(path, d)[i]
  }

  /** A flag of some command of the path. */
  ghost predicate InReach(path: Path, f: Flag) {
    exists c :: c in path && f in c.flags + c.persistent
  }

  /** `full` is the one name in reach that the prefix abbreviates. */
  ghost predicate OnlyAbbreviated(path: Path, prefix: string, full: string) {
    && (exists f :: InReach(path, f) && f.name == full && prefix <= full)
    && (forall f :: InReach(path, f) && prefix <= f.name ==> f.name == full)
  }

  ghost predicate NearestNamed(path: Path, name: string, f: Flag) {
    IsNearest(path, (g: Flag) => g.name == name, f)
  }

  ghost predicate NearestShort(path: Path, sh: string, f: Flag) {
    IsNearest(path, (g: Flag) => g.shorthand == sh, f)
  }

  /** The nearest flag of that name or, where no flag has it, of the one name it abbreviates. */
  ghost predicate Meant(path: Path, name: string, f: Flag) {
    || NearestNamed(path, name, f)
    || ((forall g :: InReach(path, g) ==> g.name != name)
        && exists full :: OnlyAbbreviated(path, name, full) && NearestNamed(path, full, f))
  }

  /** A long token takes the next one if it holds no '=' and the flag meant has no default
      to stand in for a value; a cluster, if the flag of its last letter has none. */
  ghost predicate TakesNext(path: Path, tok: string)
    requires |tok| > 1
  {
    if "--" <= tok then '=' !in tok && exists f :: Meant(path, tok[2..], f) && f.noOptDefVal == ""
    else exists f :: NearestShort(path, [tok[|tok| - 1]], f) && f.noOptDefVal == ""
  }

  lemma {:induction false} FirstInExactly(fs: seq<Flag>, picked: Flag -> bool)
    ensures FirstIn(fs, picked).None? ==> forall i :: 0 <= i < |fs| ==> !picked(fs[i])
    ensures FirstIn(fs, picked).Some? ==>
      exists i :: 0 <= i < |fs| && FirstIn(fs, picked).value == fs[i] && picked(fs[i]) && forall j :: 0 <= j < i ==> !picked(fs[j])
  {
    if fs != [] && !picked(fs[0]) {
      FirstInExactly(fs[1..], picked);
      assert forall i :: 1 <= i < |fs| ==> fs[i] == fs[1..][i - 1];
      if FirstIn(fs, picked).Some? {
        var i :| 0 <= i < |fs| - 1 && FirstIn(fs, picked).value == fs[1..][i] && picked(fs[1..][i])
                 && forall j :: 0 <= j < i ==> !picked(fs[1..][j]);
        assert fs[i + 1] == fs[1..][i];
      }
    }
  }

  lemma {:induction false} FirstInConcat(a: seq<Flag>, b: seq<Flag>, picked: Flag -> bool)
    ensures FirstIn(a + b, picked) == if FirstIn(a, picked).Some? then FirstIn(a, picked) else FirstIn(b, picked)
  {
    if a == [] {
      assert a + b == b;
    } else {
      FirstInConcat(a[1..], b, picked);
      assert (a + b)[1..] == a[1..] + b;
    }
  }

  /** The same flags, one command further up. */
  lemma DeclaredAbove(path: Path, d: nat)
    requires d + 1 < |path|
    ensures Declared(path, d + 1) == Declared(path[..|path| - 1], d)
  {}

  lemma NearestAbove(path: Path, picked: Flag -> bool, f: Flag)
    requires path != [] && IsNearest(path[..|path| - 1], picked, f)
    requires forall j :: 0 <= j < |Declared(path, 0)| ==> !picked(Declared(path, 0)[j])
    ensures IsNearest(path, picked, f)
  {
    var up := path[..|path| - 1];
    var d, i :| StandsNearest(up, picked, d, i) && f == Declared(up, d)[i];
    DeclaredAbove(path, d);
    forall e, j | 0 <= e < d + 1 && 0 <= j < |Declared(path, e)| ensures !picked(Declared(path, e)[j]) {
      if e > 0 { DeclaredAbove(path, e - 1); }
    }
    assert StandsNearest(path, picked, d + 1, i);
  }

  lemma ReachSplits(path: Path, f: Flag)
    requires path != []
    ensures InReach(path, f) <==> f in Declared(path, 0) || InReach(path[..|path| - 1], f)
  {
    var c, up := path[|path| - 1], path[..|path| - 1];
    assert forall d :: d in path <==> d == c || d in up;
  }

  /** What is found is the nearest flag picked; if nothing is found, none in reach is. */
  lemma {:induction false} FindExactly(path: Path, picked: Flag -> bool)
    ensures Find(path, picked).Some? ==> IsNearest(path, picked, Find(path, picked).value)
    ensures Find(path, picked).None? ==> forall f :: InReach(path, f) ==> !picked(f)
  {
    if path != [] {
      var c, up := path[|path| - 1], path[..|path| - 1];
      FirstInConcat(c.flags, c.persistent, picked);
      FirstInExactly(Declared(path, 0), picked);
      var first := FirstIn(Declared(path, 0), picked);
      if first.Some? {
        var i :| 0 <= i < |Declared(path, 0)| && first.value == Declared(path, 0)[i] && picked(first.value)
                 && forall j :: 0 <= j < i ==> !picked(Declared(path, 0)[j]);
        assert StandsNearest(path, picked, 0, i);
      } else {
        FindExactly(up, picked);
        if Find(up, picked).Some? {
          NearestAbove(path, picked, Find(up, picked).value);
        } else {
          forall f | InReach(path, f) ensures !picked(f) { ReachSplits(path, f); }
        }
      }
    }
  }

  lemma NearestInReach(path: Path, picked: Flag -> bool, f: Flag)
    requires IsNearest(path, picked, f)
    ensures InReach(path, f) && picked(f)
  {
    var d, i :| StandsNearest(path, picked, d, i) && f == Declared(path, d)[i];
    assert path[|path| - 1 - d] in path;
  }

  lemma OneNearest(path: Path, picked: Flag -> bool, f: Flag, g: Flag)
    requires IsNearest(path, picked, f) && IsNearest(path, picked, g)
    ensures f == g
  {
    var d, i :| StandsNearest(path, picked, d, i) && f == Declared(path, d)[i];
    var e, j :| StandsNearest(path, picked, e, j) && g == Declared(path, e)[j];
  }

  /** A flag is found exactly if it is the nearest one picked. */
  lemma FoundExactly(path: Path, picked: Flag -> bool, f: Flag)
    ensures Find(path, picked) == Some(f) <==> IsNearest(path, picked, f)
  {
    FindExactly(path, picked);
    if IsNearest(path, picked, f) {
      NearestInReach(path, picked, f);
      OneNearest(path, picked, f, Find(path, picked).value);
    }
  }

  lemma SamePicked(path: Path, p: Flag -> bool, q: Flag -> bool, f: Flag)
    requires forall g :: p(g) == q(g)
    ensures IsNearest(path, p, f) <==> IsNearest(path, q, f)
  {
    if d, i :| StandsNearest(path, p, d, i) && f == Declared(path, d)[i] { assert StandsNearest(path, q, d, i); }
    if d, i :| StandsNearest(path, q, d, i) && f == Declared(path, d)[i] { assert StandsNearest(path, p, d, i); }
  }

  lemma LookupExactly(path: Path, name: string, f: Flag)
    ensures Lookup(path, name) == Some(f) <==> NearestNamed(path, name, f)
  {
    FoundExactly(path, ByName(name), f);
    SamePicked(path, ByName(name), (g: Flag) => g.name == name, f);
  }

  lemma ShorthandExactly(path: Path, sh: string, f: Flag)
    ensures Shorthand(path, sh) == Some(f) <==> NearestShort(path, sh, f)
  {
    FoundExactly(path, ByShorthand(sh), f);
    SamePicked(path, ByShorthand(sh), (g: Flag) => g.shorthand == sh, f);
  }

  /** A name is found exactly if some flag in reach has it. */
  lemma NamedExactly(path: Path, name: string)
    ensures Lookup(path, name).Some? <==> name in FlagNames(path)
    ensures name in FlagNames(path) <==> exists g :: InReach(path, g) && g.name == name
  {
    FindExactly(path, ByName(name));
    if Lookup(path, name).Some? { NearestInReach(path, ByName(name), Lookup(path, name).value); }
    if g :| InReach(path, g) && g.name == name {
      var c :| c in path && g in c.flags + c.persistent;
      assert g.name in FlagNames(path);
    }
  }

  lemma AbbreviatedExactly(path: Path, prefix: string, full: string)
    ensures Sole(WithPrefix(FlagNames(path), prefix)) == Some(full) <==> OnlyAbbreviated(path, prefix, full)
  {
    var hits := WithPrefix(FlagNames(path), prefix);
    forall n ensures n in hits <==> prefix <= n && exists g :: InReach(path, g) && g.name == n { NamedExactly(path, n); }
    if Sole(hits) == Some(full) {
      SoleMeans(hits, full);
      assert full in hits;
      forall f | InReach(path, f) && prefix <= f.name ensures f.name == full { assert f.name in hits; }
    }
    if OnlyAbbreviated(path, prefix, full) {
      assert full in hits;
      forall n | n in hits ensures n == full {}
      assert hits == {full};
    }
  }

  /** The flag a long token means: by its exact name, or else by the only one it abbreviates. */
  lemma MeantExactly(path: Path, name: string, f: Flag)
    ensures Meant(path, name, f) <==>
      (if Lookup(path, name).Some? then Lookup(path, name) else Prefixed(path, name)) == Some(f)
  {
    NamedExactly(path, name);
    LookupExactly(path, name, f);
    if Lookup(path, name).None? {
      var sole := Sole(WithPrefix(FlagNames(path), name));
      if sole.Some? {
        AbbreviatedExactly(path, name, sole.value);
        LookupExactly(path, sole.value, f);
      }
      forall full | OnlyAbbreviated(path, name, full) ensures sole == Some(full) { AbbreviatedExactly(path, name, full); }
    }
  }

  /** Whether a token takes the next one, decided by the flags of the path. */
  lemma TakesNextExactly(path: Path, tok: string)
    requires |tok| > 1
    ensures TakesValue(path, tok) <==> TakesNext(path, tok)
  {
    if "--" <= tok {
      var name := tok[2..];
      CutExactly(name);
      assert '=' in tok <==> '=' in name by { assert tok == "--" + name; }
      if '=' !in tok {
        var f := if Lookup(path, name).Some? then Lookup(path, name) else Prefixed(path, name);
        forall g ensures Meant(path, name, g) <==> f == Some(g) { MeantExactly(path, name, g); }
      }
    } else {
      var sh := [tok[|tok| - 1]];
      forall f ensures Shorthand(path, sh) == Some(f) <==> NearestShort(path, sh, f) { ShorthandExactly(path, sh, f); }
    }
  }

  // ------------------------------------------------- the loops of the program

  /** soleFlagWithPrefix, over the names in any order; names are never empty
      when the prefix is not. */
  method SoleFlagWithPrefix(names: set<string>, prefix: string) returns (r: Option<string>)
    requires prefix != ""
    ensures r == Sole(WithPrefix(names, prefix))
  {
    var todo, found := names, "";
    ghost var hits := WithPrefix(names, prefix);
    while todo != {}
      invariant todo <= names
      invariant found == "" ==> hits <= todo
      invariant found != "" ==> found in hits && found !in todo && hits - {found} <= todo
      decreases |todo|
    {
      var name :| name in todo;
      todo := todo - {name};
      if prefix <= name {
        if found != "" {
          TwoHits(hits, found, name);
          return None;
        }
        found := name;
      }
    }
    if found == "" {
      assert hits == {};
      return None;
    }
    SoleIs(hits, found);
    r := Some(found);
  }

  method ConsumesValue(path: Path, tok: string) returns (n: nat)
    requires |tok| > 1 && tok != "--" && tok[0] == '-'
    ensures n == if TakesValue(path, tok) then 1 else 0
    ensures n == if TakesNext(path, tok) then 1 else 0
  {
    TakesNextExactly(path, tok);
    if "--" <= tok {
      var (name, has) := Cut(tok[2..]);
      if has {
        return 0;
      }
      CutExactly(tok[2..]);
      var f := Lookup(path, name);
      if f.None? {
        var full := SoleFlagWithPrefix(FlagNames(path), name);
        f := if full.Some? then Lookup(path, full.value) else None;
      }
      return if f.Some? && f.value.noOptDefVal == "" then 1 else 0;
    }
    var f := Shorthand(path, [tok[|tok| - 1]]);
    n := if f.Some? && f.value.noOptDefVal == "" then 1 else 0;
  }
}
