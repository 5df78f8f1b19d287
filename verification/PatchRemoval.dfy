/**
 The index removals of `inspection rule unset`
 (internal/cli/baremetal/inspection_rule.go): the indices an operator names are
 turned into JSON-patch removals, which the service applies one after another
 (section 4.2 of RFC 6902).
 */
module PatchRemoval {
  import opened Basics

  // ------------------------------------------------------------ sort, compact

  ghost predicate Ascending(s: seq<int>) {
    forall i, j :: 0 <= i < j < |s| ==> s[i] <= s[j]
  }

  ghost predicate StrictlyAscending(s: seq<int>) {
    forall i, j :: 0 <= i < j < |s| ==> s[i] < s[j]
  }

  ghost predicate SameMembers(a: seq<int>, b: seq<int>) {
    forall x :: x in a <==> x in b
  }

  /** slices.Sort, by insertion. */
  method Sort(idx: seq<int>) returns (s: seq<int>)
    ensures Ascending(s) && SameMembers(s, idx)
  {
    s := [];
    for k := 0 to |idx|
      invariant Ascending(s) && SameMembers(s, idx[..k])
    {
      var x, p := idx[k], |s|;
      while p > 0 && s[p - 1] > x
        invariant 0 <= p <= |s|
        invariant forall j :: p <= j < |s| ==> s[j] > x
      {
        p := p - 1;
      }
      ghost var old_s := s;
      s := s[..p] + [x] + s[p..];
      Inserted(old_s, p, x);
      assert idx[..k + 1] == idx[..k] + [x];
    }
    assert idx[..|idx|] == idx;
  }

  lemma Inserted(s: seq<int>, p: nat, x: int)
    requires Ascending(s) && p <= |s|
    requires forall j :: p <= j < |s| ==> s[j] > x
    requires p > 0 ==> s[p - 1] <= x
    ensures Ascending(s[..p] + [x] + s[p..])
    ensures forall y :: y in s[..p] + [x] + s[p..] <==> y == x || y in s
  {
    assert s == s[..p] + s[p..];
  }

  /** slices.Compact: drops a value equal to the one before it. */
  method Compact(s: seq<int>) returns (r: seq<int>)
    requires Ascending(s)
    ensures StrictlyAscending(r) && SameMembers(r, s)
  {
    r := [];
    for k := 0 to |s|
      invariant StrictlyAscending(r) && SameMembers(r, s[..k])
      invariant if k == 0 then r == [] else r != [] && r[|r| - 1] == s[k - 1]
    {
      assert s[..k + 1] == s[..k] + [s[k]];
      assert forall x :: x in s[..k + 1] <==> x in s[..k] || x == s[k];
      if k == 0 || s[k] != s[k - 1] {
        assert forall j :: 0 <= j < |r| ==> r[j] <= r[|r| - 1] < s[k];
        r := r + [s[k]];
      } else {
        assert s[..k][k - 1] in s[..k];
      }
    }
    assert s[..|s|] == s;
  }

  // -------------------------------------------------------------- the removals

  ghost predicate Descending(ops: seq<nat>) {
    forall i, j :: 0 <= i < j < |ops| ==> ops[i] > ops[j]
  }

  /** What the flags ask for: the named indices, highest first, each once; or, if one
      is negative, the largest such as the error. */
  ghost predicate RemovalsOf(idx: seq<int>, r: Result<seq<nat>, int>) {
    match r
    case Ok(ops) => (forall x :: x in idx ==> x >= 0) && Descending(ops) && forall x: nat :: x in ops <==> x in idx
    case Err(bad) => bad in idx && bad < 0 && forall x :: x in idx && x < 0 ==> x <= bad
  }

  method Removals(idx: seq<int>) returns (r: Result<seq<nat>, int>)
    ensures RemovalsOf(idx, r)
  {
    var sorted := Sort(idx);
    var s := Compact(sorted);
    var ops: seq<nat> := [];
    var i := |s| - 1;
    while i >= 0
      invariant -1 <= i < |s| && |ops| == |s| - 1 - i
      invariant forall j :: 0 <= j < |ops| ==> ops[j] == s[|s| - 1 - j]
      invariant forall j :: i < j < |s| ==> s[j] >= 0
      decreases i
    {
      if s[i] < 0 {
        assert s[i] in s;
        forall x | x in idx && x < 0 ensures x <= s[i] {
          assert x in s;
          var j :| 0 <= j < |s| && s[j] == x;
        }
        return Err(s[i]);
      }
      ops := ops + [s[i]];
      i := i - 1;
    }
    Reversed(s, ops);
    forall x | x in idx ensures x >= 0 { assert x in s; }
    r := Ok(ops);
  }

  lemma Reversed(s: seq<int>, ops: seq<nat>)
    requires StrictlyAscending(s) && |ops| == |s| && forall j :: 0 <= j < |ops| ==> ops[j] == s[|s| - 1 - j]
    ensures Descending(ops) && forall x: nat :: x in ops <==> x in s
  {
    forall x: nat | x in s ensures x in ops {
      var j :| 0 <= j < |s| && s[j] == x;
      assert ops[|s| - 1 - j] == x;
    }
  }

  // --------------------------------------------------------- what they amount to

  /** One removal after another; an index out of range fails the whole patch. */
  function ApplyAll<T>(a: seq<T>, ops: seq<nat>): Option<seq<T>> {
    if ops == [] then Some(a)
    else if ops[0] >= |a| then None
    else ApplyAll(a[..ops[0]] + a[ops[0] + 1..], ops[1..])
  }

  /** All named positions deleted at once. */
  ghost function Without<T>(a: seq<T>, del: seq<nat>): seq<T> {
    if a == [] then []
    else
      var n := |a| - 1;
      if n in del then Without(a[..n], del) else Without(a[..n], del) + [a[n]]
  }

  /** Positions beyond the end are not there to delete. */
  lemma {:induction false} WithoutIgnores<T>(a: seq<T>, del: seq<nat>, del': seq<nat>)
    requires forall i :: 0 <= i < |a| ==> (i in del <==> i in del')
    ensures Without(a, del) == Without(a, del')
  {
    if a != [] { WithoutIgnores(a[..|a| - 1], del, del'); }
  }

  /** Deleting the highest position first leaves the others where they are. */
  lemma {:induction false} DropHighest<T>(a: seq<T>, top: nat, rest: seq<nat>)
    requires top < |a| && forall i :: 0 <= i < |rest| ==> rest[i] < top
    ensures Without(a, [top] + rest) == Without(a[..top] + a[top + 1..], rest)
  {
    var n := |a| - 1;
    var b := a[..top] + a[top + 1..];
    if n == top {
      assert b == a[..n];
      WithoutIgnores(a[..n], [top] + rest, rest);
    } else {
      DropHighest(a[..n], top, rest);
      assert b[..|b| - 1] == a[..n][..top] + a[..n][top + 1..];
      assert b[|b| - 1] == a[n];
      assert n !in [top] + rest && |b| - 1 !in rest;
    }
  }

  /** For every array: the removals succeed exactly when every named position
      exists, and then they delete exactly the named positions. */
  lemma {:induction false} RemovalsAreSimultaneous<T>(a: seq<T>, ops: seq<nat>)
    requires Descending(ops)
    ensures ApplyAll(a, ops).Some? <==> forall i :: 0 <= i < |ops| ==> ops[i] < |a|
    ensures ApplyAll(a, ops).Some? ==> ApplyAll(a, ops).value == Without(a, ops)
    decreases |ops|
  {
    if ops == [] {
      NothingNamed(a);
    } else if ops[0] < |a| {
      var top, rest := ops[0], ops[1..];
      RemovalsAreSimultaneous(a[..top] + a[top + 1..], rest);
      DropHighest(a, top, rest);
      assert ops == [top] + rest;
      assert forall i :: 0 <= i < |rest| ==> rest[i] < top <= |a| - 1;
    }
  }

  lemma {:induction false} NothingNamed<T>(a: seq<T>)
    ensures Without(a, []) == a
  {
    if a != [] {
      NothingNamed(a[..|a| - 1]);
      assert a == a[..|a| - 1] + [a[|a| - 1]];
    }
  }

  /** A descending list is determined by its members. */
  lemma {:induction false} DescendingUnique(a: seq<nat>, b: seq<nat>)
    requires Descending(a) && Descending(b) && forall x: nat :: x in a <==> x in b
    ensures a == b
    decreases |a|
  {
    assert forall i :: 0 <= i < |b| ==> b[i] in a;
    assert forall i :: 0 <= i < |a| ==> a[i] in b;
    if a != [] {
      assert a[0] in b && b[0] in a && a[0] == b[0];
      forall x: nat ensures x in a[1..] <==> x in b[1..] {
        TailMembers(a, x);
        TailMembers(b, x);
      }
      DescendingUnique(a[1..], b[1..]);
    }
  }

  lemma TailMembers(a: seq<nat>, x: nat)
    requires a != [] && Descending(a)
    ensures x in a[1..] <==> x in a && x != a[0]
  {
    if x in a && x != a[0] {
      var i :| 0 <= i < |a| && a[i] == x;
      assert a[1..][i - 1] == x;
    }
  }

  /** The order and repetition of the flags do not matter: they ask for the same
      removals, or are refused for the same index. */
  lemma OrderIrrelevant(idx: seq<int>, idx': seq<int>, r: Result<seq<nat>, int>, r': Result<seq<nat>, int>)
    requires RemovalsOf(idx, r) && RemovalsOf(idx', r') && forall x :: x in idx <==> x in idx'
    ensures r == r'
  {
    if r.Ok? && r'.Ok? { DescendingUnique(r.value, r'.value); }
  }

  /** The unset of any indices on any array: it succeeds exactly when every index is a
      position of the array, and deletes exactly the named positions. */
  lemma UnsetDeletesNamed<T>(a: seq<T>, idx: seq<int>, r: Result<seq<nat>, int>)
    requires RemovalsOf(idx, r) && r.Ok?
    ensures ApplyAll(a, r.value).Some? <==> forall x :: x in idx ==> 0 <= x < |a|
    ensures ApplyAll(a, r.value).Some? ==> ApplyAll(a, r.value).value == Without(a, r.value)
  {
    RemovalsAreSimultaneous(a, r.value);
    if forall x :: x in idx ==> 0 <= x < |a| {
      forall i | 0 <= i < |r.value| ensures r.value[i] < |a| { assert r.value[i] in idx; }
    } else {
      var x :| x in idx && !(0 <= x < |a|);
      var i :| 0 <= i < |r.value| && r.value[i] == x;
    }
  }
}
