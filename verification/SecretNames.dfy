/**
 Which keys and flags name a credential (internal/auth/debug.go): isSecretKey, used
 on the keys of a dumped body, and IsSecretName, used on flags and history.
 */
module SecretNames {
  import opened Text

  const SECRET_KEYS: set<string> := {
    "password", "secret", "application_credential_secret", "passcode", "adminpass", "admin_pass",
    "private_key", "secret_id", "role_id", "token", "blob", "auth_key", "priv_key"
  }

  /** Lower-casing as far as it can reach an ASCII letter: besides A to Z, the Kelvin
      sign and the dotted capital I have one as their lower case. */
  function LowerChar(c: char): (l: char)
    ensures (l == '_' <==> c == '_') && (l == '-' <==> c == '-')
  {
    if 'A' <= c <= 'Z' then c + 32 as char
    else if c == '\U{212A}' then 'k'
    else if c == '\U{0130}' then 'i'
    else c
  }

  function Lower(s: string): (r: string)
    ensures |r| == |s| && forall i :: 0 <= i < |s| ==> r[i] == LowerChar(s[i])
  {
    if s == [] then [] else [LowerChar(s[0])] + Lower(s[1..])
  }

  /** Where an underscore-separated tail of a name begins. */
  predicate TailStarts(s: string, i: int) {
    0 <= i <= |s| && (i == 0 || s[i - 1] == '_')
  }

  ghost predicate ListedTail(list: set<string>, s: string) {
    exists i :: TailStarts(s, i) && s[i..] in list
  }

  /** A credential by its key: one of its tails, lower-cased, is on the list. */
  ghost predicate SecretKey(key: string) {
    ListedTail(SECRET_KEYS, Lower(key))
  }

  /** strings.IndexByte, with the length for a byte that is not there. */
  function IndexOf(s: string, c: char): (n: nat)
    ensures n <= |s| && c !in s[..n] && (n < |s| ==> s[n] == c)
  {
    if s == [] || s[0] == c then 0 else 1 + IndexOf(s[1..], c)
  }

  method HasListedTail(list: set<string>, s: string) returns (b: bool)
    ensures b <==> ListedTail(list, s)
  {
    var k := s;
    ghost var at := 0;
    while true
      invariant TailStarts(s, at) && k == s[at..]
      invariant forall i :: TailStarts(s, i) && i < at ==> s[i..] !in list
      decreases |k|
    {
      if k in list { return true; }
      var i := IndexOf(k, '_');
      NoTailWithin(s, at, i);
      if i == |k| { return false; }
      assert k[i + 1..] == s[at + i + 1..];
      k := k[i + 1..];
      at := at + i + 1;
    }
  }

  /** No tail begins inside a stretch without underscores. */
  lemma NoTailWithin(s: string, at: nat, n: nat)
    requires at + n <= |s| && '_' !in s[at..][..n]
    ensures forall j :: TailStarts(s, j) ==> j <= at || j > at + n
  {
    forall j | at < j <= at + n ensures !TailStarts(s, j) {
      assert s[at..][..n][j - 1 - at] == s[j - 1];
    }
  }

  method IsSecretKey(key: string) returns (b: bool)
    ensures b <==> SecretKey(key)
  {
    b := HasListedTail(SECRET_KEYS, Lower(key));
  }

  // ------------------------------------------------------------------ by name

  function LeadingDashes(s: string): (n: nat)
    ensures n <= |s| && forall i :: 0 <= i < n ==> s[i] == '-'
    ensures n < |s| ==> s[n] != '-'
  {
    if s != [] && s[0] == '-' then 1 + LeadingDashes(s[1..]) else 0
  }

  /** Dashes to underscores, then lower case. */
  function Folded(s: string): (r: string)
    ensures |r| == |s| && forall i :: 0 <= i < |s| ==> r[i] == if s[i] == '-' then '_' else LowerChar(s[i])
  {
    if s == [] then [] else [if s[0] == '-' then '_' else LowerChar(s[0])] + Folded(s[1..])
  }

  function Segments(name: string): seq<string> {
    Split(Folded(name[LeadingDashes(name)..]), '_')
  }

  /** A credential by its name: a tail or a single segment of it is on the list. */
  ghost predicate NameOn(list: set<string>, name: string) {
    var segs := Segments(name);
    exists i :: 0 <= i < |segs| && (Join(segs[i..], '_') in list || segs[i] in list)
  }

  ghost predicate SecretName(name: string) {
    NameOn(SECRET_KEYS, name)
  }

  method IsNameOn(list: set<string>, name: string) returns (b: bool)
    ensures b <==> NameOn(list, name)
  {
    var segs := Segments(name);
    for i := 0 to |segs|
      invariant forall j :: 0 <= j < i ==> Join(segs[j..], '_') !in list && segs[j] !in list
    {
      if Join(segs[i..], '_') in list || segs[i] in list { return true; }
    }
    return false;
  }

  method IsSecretName(name: string) returns (b: bool)
    ensures b <==> SecretName(name)
  {
    b := IsNameOn(SECRET_KEYS, name);
  }

  /** A tail of a string is a join of its last segments. */
  lemma {:induction false} TailIsJoin(s: string, i: nat) returns (j: nat)
    requires TailStarts(s, i)
    ensures j < |Split(s, '_')| && Join(Split(s, '_')[j..], '_') == s[i..] && (i > 0 ==> j > 0)
  {
    if i == 0 {
      JoinOfSplit(s, '_');
      assert Split(s, '_')[0..] == Split(s, '_');
      j := 0;
    } else {
      j := TailIsJoin(s[1..], i - 1);
      assert s[1..][i - 1..] == s[i..];
      var rest := Split(s[1..], '_');
      if s[0] == '_' {
        assert ([""] + rest)[j + 1..] == rest[j..];
        j := j + 1;
      } else {
        assert ([[s[0]] + rest[0]] + rest[1..])[j..] == rest[j..];
      }
    }
  }

  /** Where there is no dash, folding is lower-casing. */
  lemma {:induction false} FoldedIsLower(s: string)
    requires '-' !in s
    ensures Folded(s) == Lower(s)
  {
    if s != [] { FoldedIsLower(s[1..]); }
  }

  lemma {:induction false} LowerDrop(s: string, d: nat)
    requires d <= |s|
    ensures Lower(s[d..]) == Lower(s)[d..] && Folded(s[d..]) == Folded(s)[d..]
  {
    if d == 0 {
      assert s[d..] == s;
    } else {
      LowerDrop(s[1..], d - 1);
      assert s[1..][d - 1..] == s[d..];
    }
  }

  /** A dash-free tail lies past the leading dashes. */
  lemma PastDashes(key: string, i: nat)
    requires TailStarts(key, i) && '-' !in key[i..]
    ensures var d := LeadingDashes(key); d <= i && (i > 0 ==> d < i)
  {
    assert i < |key| ==> key[i..][0] == key[i];
  }

  lemma FoldedTail(t: string, n: nat)
    requires n <= |t| && '-' !in t[n..]
    ensures Folded(t)[n..] == Lower(t[n..])
    ensures n > 0 && t[n - 1] == '_' ==> Folded(t)[n - 1] == '_'
  {
    LowerDrop(t, n);
    FoldedIsLower(t[n..]);
  }

  /** Trimming and folding leaves a dash-free tail a tail. */
  lemma TailSurvives(key: string, d: nat, i: nat, t: string)
    requires d <= i <= |key| && t == key[d..]
    requires i > 0 ==> d < i && key[i - 1] == '_'
    requires '-' !in key[i..]
    ensures TailStarts(Folded(t), i - d) && Folded(t)[i - d..] == Lower(key[i..])
  {
    assert t[i - d..] == key[i..];
    FoldedTail(t, i - d);
  }

  lemma KeyOnImpliesNameOn(list: set<string>, key: string)
    requires ListedTail(list, Lower(key)) && forall k :: k in list ==> '-' !in k
    ensures NameOn(list, key)
  {
    var low := Lower(key);
    var i :| TailStarts(low, i) && low[i..] in list;
    forall x | 0 <= x < |key| - i ensures key[i..][x] != '-' { assert low[i..][x] == LowerChar(key[i + x]); }
    PastDashes(key, i);
    LowerDrop(key, i);
    var d := LeadingDashes(key);
    TailSurvives(key, d, i, key[d..]);
    var j := TailIsJoin(Folded(key[d..]), i - d);
    assert Join(Segments(key)[j..], '_') in list;
  }

  lemma ListedHasNoDash(k: string)
    requires k in SECRET_KEYS
    ensures '-' !in k
  {}

  /** Every key that is hidden in a dump is hidden by name too. */
  lemma KeyImpliesName(key: string)
    requires SecretKey(key)
    ensures SecretName(key)
  {
    forall k | k in SECRET_KEYS ensures '-' !in k { ListedHasNoDash(k); }
    KeyOnImpliesNameOn(SECRET_KEYS, key);
  }
}
