/**
 canonicalQuery of internal/s3/sign.go: name/value pairs sorted by name then
 value and percent-encoded. The query is a map from names to lists of values;
 Go iterates it in any order.
 */
module CanonicalQuery {
  import opened Basics
  import opened Text
  import opened UriEncode

  type Query = map<string, seq<string>>

  datatype Pair = Pair(name: string, value: string)

  // --------------------------------------------------------- byte-wise order

  predicate Le(a: string, b: string) {
    a == [] || (b != [] && (a[0] < b[0] || (a[0] == b[0] && Le(a[1..], b[1..]))))
  }

  lemma {:induction false} LeTotal(a: string, b: string)
    ensures Le(a, b) || Le(b, a)
    ensures Le(a, b) && Le(b, a) ==> a == b
  {
    if a != [] && b != [] && a[0] == b[0] {
      LeTotal(a[1..], b[1..]);
      assert a == [a[0]] + a[1..] && b == [b[0]] + b[1..];
    }
  }

  lemma {:induction false} LeTransitive(a: string, b: string, c: string)
    requires Le(a, b) && Le(b, c)
    ensures Le(a, c)
  {
    if a != [] && a[0] == b[0] && b[0] == c[0] { LeTransitive(a[1..], b[1..], c[1..]); }
  }

  predicate PairLe(p: Pair, q: Pair) {
    if p.name == q.name then Le(p.value, q.value) else Le(p.name, q.name)
  }

  lemma PairLeTotal(p: Pair, q: Pair)
    ensures PairLe(p, q) || PairLe(q, p)
    ensures PairLe(p, q) && PairLe(q, p) ==> p == q
  {
    LeTotal(p.name, q.name);
    LeTotal(p.value, q.value);
  }

  // ---------------------------------------------------------------- sorting

  ghost predicate Ascending(ss: seq<string>) {
    forall i, j :: 0 <= i < j < |ss| ==> Le(ss[i], ss[j])
  }

  function Insert(s: string, ss: seq<string>): seq<string> {
    if ss == [] || Le(s, ss[0]) then [s] + ss else [ss[0]] + Insert(s, ss[1..])
  }

  /** sort.Strings. */
  function Sort(ss: seq<string>): seq<string> {
    if ss == [] then [] else Insert(ss[0], Sort(ss[1..]))
  }

  lemma {:induction false} InsertSorts(s: string, ss: seq<string>)
    requires Ascending(ss)
    ensures Ascending(Insert(s, ss)) && multiset(Insert(s, ss)) == multiset{s} + multiset(ss)
    ensures forall x :: x in Insert(s, ss) <==> x == s || x in ss
  {
    if ss == [] {
    } else if Le(s, ss[0]) {
      forall j | 0 <= j < |ss| ensures Le(s, ss[j]) {
        if j > 0 { LeTransitive(s, ss[0], ss[j]); }
      }
    } else {
      LeTotal(s, ss[0]);
      InsertSorts(s, ss[1..]);
      var rest := Insert(s, ss[1..]);
      assert ss == [ss[0]] + ss[1..];
      forall j | 0 <= j < |rest| ensures Le(ss[0], rest[j]) {
        assert rest[j] in rest;
      }
    }
  }

  lemma {:induction false} SortSorts(ss: seq<string>)
    ensures Ascending(Sort(ss)) && multiset(Sort(ss)) == multiset(ss)
  {
    if ss != [] {
      SortSorts(ss[1..]);
      InsertSorts(ss[0], Sort(ss[1..]));
      assert ss == [ss[0]] + ss[1..];
    }
  }

  // ------------------------------------------------------------ what it means

  ghost predicate BytesQuery(q: Query) {
    forall k :: k in q ==> IsBytes(k) && forall i :: 0 <= i < |q[k]| ==> IsBytes(q[k][i])
  }

  /** How often a query holds a name with a value. */
  function Times(q: Query, p: Pair): nat {
    if p.name in q then multiset(q[p.name])[p.value] else 0
  }

  /** `pairs` lists the query, sorted by name and then value. */
  ghost predicate Lists(q: Query, pairs: seq<Pair>) {
    && (forall i, j :: 0 <= i < j < |pairs| ==> PairLe(pairs[i], pairs[j]))
    && (forall p :: multiset(pairs)[p] == Times(q, p))
  }

  predicate BytesPairs(pairs: seq<Pair>) {
    forall i :: 0 <= i < |pairs| ==> IsBytes(pairs[i].name) && IsBytes(pairs[i].value)
  }

  function RenderPair(p: Pair): string
    requires IsBytes(p.name) && IsBytes(p.value)
  {
    Encode(p.name, false) + ['='] + Encode(p.value, false)
  }

  function RenderAll(pairs: seq<Pair>): (parts: seq<string>)
    requires BytesPairs(pairs)
    ensures |parts| == |pairs| && forall i :: 0 <= i < |parts| ==> parts[i] == RenderPair(pairs[i])
  {
    if pairs == [] then [] else RenderAll(pairs[..|pairs| - 1]) + [RenderPair(pairs[|pairs| - 1])]
  }

  function Render(pairs: seq<Pair>): string
    requires BytesPairs(pairs)
  {
    Join(RenderAll(pairs), '&')
  }

  // -------------------------------------------------------------- reading back

  /** A part up to its first '='; the rest is the value. */
  function ParsePair(part: string): Pair {
    var fields := Split(part, '=');
    Pair(Decode(fields[0]), if |fields| > 1 then Decode(fields[1]) else "")
  }

  function ParseParts(parts: seq<string>): (pairs: seq<Pair>)
    ensures |pairs| == |parts| && forall i :: 0 <= i < |pairs| ==> pairs[i] == ParsePair(parts[i])
  {
    if parts == [] then [] else ParseParts(parts[..|parts| - 1]) + [ParsePair(parts[|parts| - 1])]
  }

  function Parse(s: string): seq<Pair> {
    if s == "" then [] else ParseParts(Split(s, '&'))
  }

  lemma SplitPair(name: string, value: string)
    requires '=' !in name && '=' !in value && '&' !in name && '&' !in value
    ensures Split(name + ['='] + value, '=') == [name, value] && '&' !in name + ['='] + value
  {
    SplitHead(name, value, '=');
    SplitNothing(value, '=');
    assert [name] + [value] == [name, value];
  }

  lemma NoDelimiters(s: string)
    requires IsBytes(s)
    ensures '=' !in Encode(s, false) && '&' !in Encode(s, false)
  {
    EncodedAlphabet(s, false);
  }

  lemma PairReadsBack(p: Pair)
    requires IsBytes(p.name) && IsBytes(p.value)
    ensures '&' !in RenderPair(p) && RenderPair(p) != "" && ParsePair(RenderPair(p)) == p
  {
    NoDelimiters(p.name);
    NoDelimiters(p.value);
    SplitPair(Encode(p.name, false), Encode(p.value, false));
    DecodeEncode(p.name, false);
    DecodeEncode(p.value, false);
  }

  lemma ReadsBack(pairs: seq<Pair>)
    requires BytesPairs(pairs)
    ensures Parse(Render(pairs)) == pairs
  {
    if pairs != [] {
      var parts := RenderAll(pairs);
      forall i | 0 <= i < |pairs| ensures '&' !in parts[i] && parts[i] != "" && ParsePair(parts[i]) == pairs[i] {
        PairReadsBack(pairs[i]);
      }
      SplitOfJoin(parts, '&');
      assert Render(pairs) != "" by {
        if |parts| == 1 { assert parts[0] != ""; }
      }
    }
  }

  // ---------------------------------------------------------------- uniqueness

  /** A sorted list is determined by what it holds. */
  lemma {:induction false} SortedUnique(a: seq<Pair>, b: seq<Pair>)
    requires forall i, j :: 0 <= i < j < |a| ==> PairLe(a[i], a[j])
    requires forall i, j :: 0 <= i < j < |b| ==> PairLe(b[i], b[j])
    requires multiset(a) == multiset(b)
    ensures a == b
  {
    assert |a| == |multiset(a)| && |b| == |multiset(b)|;
    if a != [] {
      var x, y := a[0], b[0];
      SameHead(a, b);
      assert a == [x] + a[1..] && b == [y] + b[1..];
      assert multiset(a[1..]) == multiset(a) - multiset{x};
      assert multiset(b[1..]) == multiset(b) - multiset{y};
      SortedUnique(a[1..], b[1..]);
    }
  }

  lemma SameHead(a: seq<Pair>, b: seq<Pair>)
    requires a != [] && b != [] && multiset(a) == multiset(b)
    requires forall i, j :: 0 <= i < j < |a| ==> PairLe(a[i], a[j])
    requires forall i, j :: 0 <= i < j < |b| ==> PairLe(b[i], b[j])
    ensures a[0] == b[0]
  {
    assert a[0] in multiset(b) && b[0] in multiset(a);
    var i :| 0 <= i < |b| && b[i] == a[0];
    var j :| 0 <= j < |a| && a[j] == b[0];
    PairLeTotal(a[0], b[0]);
  }

  /** The string renders the sorted list of the query's pairs. */
  ghost predicate IsCanonical(q: Query, r: string) {
    exists pairs :: Lists(q, pairs) && BytesPairs(pairs) && r == Render(pairs)
  }

  /** Two queries have the same canonical string exactly when they hold the same
      pairs equally often: the string is independent of the order of names and
      of values, and determines the query. */
  lemma CanonicalMeansEqual(q: Query, r: string, q': Query, r': string)
    requires IsCanonical(q, r) && IsCanonical(q', r')
    ensures r == r' <==> forall p :: Times(q, p) == Times(q', p)
  {
    var pairs :| Lists(q, pairs) && BytesPairs(pairs) && r == Render(pairs);
    var pairs' :| Lists(q', pairs') && BytesPairs(pairs') && r' == Render(pairs');
    ListsMeanEqual(q, pairs, q', pairs');
  }

  lemma ListsMeanEqual(q: Query, pairs: seq<Pair>, q': Query, pairs': seq<Pair>)
    requires Lists(q, pairs) && Lists(q', pairs') && BytesPairs(pairs) && BytesPairs(pairs')
    ensures Render(pairs) == Render(pairs') <==> forall p :: Times(q, p) == Times(q', p)
  {
    ReadsBack(pairs);
    ReadsBack(pairs');
    if forall p :: Times(q, p) == Times(q', p) {
      assert forall p :: multiset(pairs)[p] == multiset(pairs')[p];
      assert multiset(pairs) == multiset(pairs');
      SortedUnique(pairs, pairs');
    }
    if Render(pairs) == Render(pairs') {
      assert pairs == pairs';
      forall p ensures Times(q, p) == Times(q', p) { assert multiset(pairs)[p] == Times(q, p); }
    }
  }

  // ----------------------------------------------------------------- the code

  ghost predicate Enumerates(names: seq<string>, q: Query) {
    && (forall i, j :: 0 <= i < j < |names| ==> names[i] != names[j])
    && (forall k :: k in q <==> k in names)
  }

  /** The part of the query under the first n of the sorted names. */
  ghost predicate Holds(q: Query, names: seq<string>, n: nat, pairs: seq<Pair>)
    requires n <= |names|
  {
    && (forall i, j :: 0 <= i < j < |pairs| ==> PairLe(pairs[i], pairs[j]))
    && (forall p :: multiset(pairs)[p] == if p.name in names[..n] then Times(q, p) else 0)
  }

  /** canonicalQuery. `names` is the order in which Go happens to iterate the
      map; the result does not depend on it. */
  method CanonicalQuery(q: Query, names: seq<string>) returns (r: string)
    requires BytesQuery(q) && Enumerates(names, q)
    ensures IsCanonical(q, r)
  {
    var keys := Sort(names);
    SortedNames(q, names);
    var parts: seq<string> := [];
    ghost var pairs: seq<Pair> := [];
    for n := 0 to |keys|
      invariant Holds(q, keys, n, pairs) && BytesPairs(pairs) && parts == RenderAll(pairs)
    {
      assert keys[n] in keys;
      var vals := Sort(q[keys[n]]);
      SortedValues(q, keys[n]);
      BlockHolds(q, keys, n, pairs, vals);
      var more := RenderValues(keys[n], vals);
      BlockRendered(keys[n], vals, more);
      RenderConcat(pairs, Block(keys[n], vals));
      parts := parts + more;
      pairs := pairs + Block(keys[n], vals);
    }
    assert keys[..|keys|] == keys;
    r := Join(parts, '&');
    assert Lists(q, pairs);
  }

  method RenderValues(k: string, vals: seq<string>) returns (parts: seq<string>)
    requires IsBytes(k) && forall i :: 0 <= i < |vals| ==> IsBytes(vals[i])
    ensures |parts| == |vals| && forall i :: 0 <= i < |vals| ==> parts[i] == RenderPair(Pair(k, vals[i]))
  {
    parts := [];
    for i := 0 to |vals|
      invariant |parts| == i && forall j :: 0 <= j < i ==> parts[j] == RenderPair(Pair(k, vals[j]))
    {
      var name := UriEncode.UriEncode(k, false);
      var value := UriEncode.UriEncode(vals[i], false);
      parts := parts + [name + ['='] + value];
    }
  }

  lemma {:induction false} RenderConcat(a: seq<Pair>, b: seq<Pair>)
    requires BytesPairs(a) && BytesPairs(b)
    ensures BytesPairs(a + b) && RenderAll(a + b) == RenderAll(a) + RenderAll(b)
  {
    if b == [] {
      assert a + b == a;
    } else {
      var init, all, last := b[..|b| - 1], a + b, RenderPair(b[|b| - 1]);
      assert all[..|all| - 1] == a + init;
      calc {
        RenderAll(all);
        RenderAll(a + init) + [last];
        { RenderConcat(a, init); }
        RenderAll(a) + RenderAll(init) + [last];
        { ConcatAssociative(RenderAll(a), RenderAll(init), [last]); }
        RenderAll(a) + (RenderAll(init) + [last]);
        RenderAll(a) + RenderAll(b);
      }
    }
  }

  lemma BlockRendered(k: string, vals: seq<string>, parts: seq<string>)
    requires IsBytes(k) && forall i :: 0 <= i < |vals| ==> IsBytes(vals[i])
    requires |parts| == |vals| && forall i :: 0 <= i < |vals| ==> parts[i] == RenderPair(Pair(k, vals[i]))
    ensures BytesPairs(Block(k, vals)) && RenderAll(Block(k, vals)) == parts
  {}

  ghost function Block(k: string, vals: seq<string>): (b: seq<Pair>)
    ensures |b| == |vals| && forall i :: 0 <= i < |b| ==> b[i] == Pair(k, vals[i])
  {
    seq(|vals|, i requires 0 <= i < |vals| => Pair(k, vals[i]))
  }

  lemma {:induction false} BlockCount(k: string, vals: seq<string>, p: Pair)
    ensures multiset(Block(k, vals))[p] == if p.name == k then multiset(vals)[p.value] else 0
  {
    if vals != [] {
      var n := |vals| - 1;
      BlockCount(k, vals[..n], p);
      assert vals == vals[..n] + [vals[n]];
      assert Block(k, vals) == Block(k, vals[..n]) + [Pair(k, vals[n])];
    } else {
      assert Block(k, vals) == [];
    }
  }

  lemma SortedNames(q: Query, names: seq<string>)
    requires Enumerates(names, q)
    ensures Ascending(Sort(names)) && Enumerates(Sort(names), q)
  {
    SortSorts(names);
    var keys := Sort(names);
    assert forall k :: k in keys <==> k in multiset(keys);
    assert forall k :: k in names <==> k in multiset(names);
    forall i, j | 0 <= i < j < |keys| ensures keys[i] != keys[j] {
      if keys[i] == keys[j] { Repeated(keys, i, j); Single(names, keys[i]); }
    }
  }

  lemma Repeated(ss: seq<string>, i: nat, j: nat)
    requires i < j < |ss| && ss[i] == ss[j]
    ensures multiset(ss)[ss[i]] >= 2
  {
    var front, back := ss[..j], ss[j..];
    assert ss == front + back;
    assert multiset(ss) == multiset(front) + multiset(back);
    assert front[i] in multiset(front) && back[0] in multiset(back);
  }

  lemma {:induction false} Single(ss: seq<string>, s: string)
    requires forall i, j :: 0 <= i < j < |ss| ==> ss[i] != ss[j]
    ensures multiset(ss)[s] <= 1
  {
    if ss != [] {
      Single(ss[1..], s);
      assert ss == [ss[0]] + ss[1..];
      if ss[0] == s { assert s !in ss[1..]; }
    }
  }

  lemma SortedValues(q: Query, k: string)
    requires BytesQuery(q) && k in q
    ensures var vals := Sort(q[k]);
      Ascending(vals) && multiset(vals) == multiset(q[k]) && IsBytes(k) && forall i :: 0 <= i < |vals| ==> IsBytes(vals[i])
  {
    SortSorts(q[k]);
    var vals := Sort(q[k]);
    forall i | 0 <= i < |vals| ensures IsBytes(vals[i]) {
      assert vals[i] in multiset(q[k]);
    }
  }

  /** The values of the next name extend the list in order. */
  lemma BlockHolds(q: Query, keys: seq<string>, n: nat, pairs: seq<Pair>, vals: seq<string>)
    requires n < |keys| && Holds(q, keys, n, pairs) && Ascending(keys) && Enumerates(keys, q)
    requires Ascending(vals) && multiset(vals) == multiset(q[keys[n]])
    ensures Holds(q, keys, n + 1, pairs + Block(keys[n], vals))
  {
    var k, block := keys[n], Block(keys[n], vals);
    var all := pairs + block;
    assert keys[..n + 1] == keys[..n] + [k];
    assert k !in keys[..n];
    forall p: Pair ensures multiset(all)[p] == if p.name in keys[..n + 1] then Times(q, p) else 0 {
      BlockCount(k, vals, p);
      assert multiset(all) == multiset(pairs) + multiset(block);
    }
    forall i | 0 <= i < |pairs| ensures pairs[i].name != k && Le(pairs[i].name, k) {
      assert pairs[i] in multiset(pairs);
      var j :| 0 <= j < n && keys[j] == pairs[i].name;
    }
    forall i, j | 0 <= i < j < |all| ensures PairLe(all[i], all[j]) {
      if j >= |pairs| {
        assert all[j] == block[j - |pairs|];
        if i >= |pairs| { assert all[i] == block[i - |pairs|]; }
      }
    }
  }

  // ------------------------------------------------------------ what is written

  /** The name spelled out, an equals sign, the value spelled out; slashes are not kept. */
  ghost predicate PairReads(part: string, p: Pair) {
    exists names, values :: SpellsAll(p.name, false, names) && SpellsAll(p.value, false, values)
                            && part == Flatten(names) + "=" + Flatten(values)
  }

  lemma PairRendered(p: Pair)
    requires IsBytes(p.name) && IsBytes(p.value)
    ensures PairReads(RenderPair(p), p) && '&' !in RenderPair(p)
  {
    var names := EncodedExactly(p.name, false);
    var values := EncodedExactly(p.value, false);
    PairReadsBack(p);
  }

  /** Between ampersands the string holds the pairs, one after the other. */
  lemma RenderedExactly(pairs: seq<Pair>)
    requires BytesPairs(pairs)
    ensures pairs == [] ==> Render(pairs) == ""
    ensures pairs != [] ==>
      var parts := Split(Render(pairs), '&'); |parts| == |pairs| && forall i :: 0 <= i < |parts| ==> PairReads(parts[i], pairs[i])
  {
    var parts := RenderAll(pairs);
    forall i | 0 <= i < |parts| ensures PairReads(parts[i], pairs[i]) && '&' !in parts[i] { PairRendered(pairs[i]); }
    if pairs != [] { SplitOfJoin(parts, '&'); }
  }
}
