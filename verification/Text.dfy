/** Splitting and joining strings at a separator, as Go's strings package does. */
module Text {
  import opened Basics

  /** strings.Split for a one-character separator. */
  function Split(s: string, sep: char): (parts: seq<string>)
    ensures parts != []
    ensures forall i :: 0 <= i < |parts| ==> sep !in parts[i]
  {
    if s == [] then [""]
    else
      var rest := Split(s[1..], sep);
      if s[0] == sep then [""] + rest else [[s[0]] + rest[0]] + rest[1..]
  }

  /** strings.Join with a one-character separator. */
  function Join(parts: seq<string>, sep: char): string {
    if parts == [] then "" else if |parts| == 1 then parts[0] else parts[0] + [sep] + Join(parts[1..], sep)
  }

  /** Splitting a head that is free of the separator off the rest. */
  lemma {:induction false} SplitHead(head: string, tail: string, sep: char)
    requires sep !in head
    ensures Split(head + [sep] + tail, sep) == [head] + Split(tail, sep)
  {
    var s := head + [sep] + tail;
    if head == [] {
      assert s[1..] == tail;
    } else {
      SplitHead(head[1..], tail, sep);
      assert s[1..] == head[1..] + [sep] + tail;
      assert [head[0]] + head[1..] == head;
    }
  }

  lemma {:induction false} SplitNothing(s: string, sep: char)
    requires sep !in s
    ensures Split(s, sep) == [s]
  {
    if s != [] {
      SplitNothing(s[1..], sep);
      assert [s[0]] + s[1..] == s;
    }
  }

  lemma {:induction false} SplitOfJoin(parts: seq<string>, sep: char)
    requires parts != [] && forall i :: 0 <= i < |parts| ==> sep !in parts[i]
    ensures Split(Join(parts, sep), sep) == parts
  {
    if |parts| == 1 {
      SplitNothing(parts[0], sep);
    } else {
      SplitOfJoin(parts[1..], sep);
      SplitHead(parts[0], Join(parts[1..], sep), sep);
      assert parts == [parts[0]] + parts[1..];
    }
  }

  lemma {:induction false} JoinOfSplit(s: string, sep: char)
    ensures Join(Split(s, sep), sep) == s
  {
    if s != [] {
      JoinOfSplit(s[1..], sep);
      var rest := Split(s[1..], sep);
      if s[0] == sep {
        assert ([""] + rest)[1..] == rest;
        assert s == [] + [sep] + s[1..];
      } else {
        var parts := [[s[0]] + rest[0]] + rest[1..];
        assert parts[1..] == rest[1..];
        assert s == [s[0]] + s[1..];
        if |rest| > 1 {
          assert [s[0]] + rest[0] + [sep] + Join(rest[1..], sep) == [s[0]] + (rest[0] + [sep] + Join(rest[1..], sep));
        }
      }
    }
  }

  // ---------------------------------------------------------- dropping chars

  /** The string without every occurrence of one character. */
  function Without(s: string, drop: char): (r: string)
    ensures drop !in r && |r| <= |s|
  {
    if s == [] then []
    else if s[|s| - 1] == drop then Without(s[..|s| - 1], drop)
    else Without(s[..|s| - 1], drop) + [s[|s| - 1]]
  }

  lemma {:induction false} WithoutConcat(a: string, b: string, drop: char)
    ensures Without(a + b, drop) == Without(a, drop) + Without(b, drop)
  {
    if b == [] {
      assert a + b == a;
    } else {
      var init := b[..|b| - 1];
      WithoutConcat(a, init, drop);
      assert (a + b)[..|a + b| - 1] == a + init;
    }
  }

  lemma {:induction false} WithoutNothing(s: string, drop: char)
    requires drop !in s
    ensures Without(s, drop) == s
  {
    if s != [] {
      WithoutNothing(s[..|s| - 1], drop);
      assert s == s[..|s| - 1] + [s[|s| - 1]];
    }
  }

  /** Splitting at a character and gluing the pieces drops that character. */
  lemma {:induction false} SplitDropsOnly(s: string, sep: char)
    ensures Flatten(Split(s, sep)) == Without(s, sep)
  {
    if s == [] {
      assert Flatten([""]) == Flatten([]) + "" by { assert [""][..0] == []; }
    } else {
      var rest := Split(s[1..], sep);
      SplitDropsOnly(s[1..], sep);
      WithoutConcat([s[0]], s[1..], sep);
      assert s == [s[0]] + s[1..];
      if s[0] == sep {
        FlattenCons("", rest);
      } else {
        var first := [s[0]] + rest[0];
        FlattenCons(first, rest[1..]);
        FlattenCons(rest[0], rest[1..]);
        assert rest == [rest[0]] + rest[1..];
        assert [s[0]] + rest[0] + Flatten(rest[1..]) == [s[0]] + (rest[0] + Flatten(rest[1..]));
      }
    }
  }

  lemma FlattenCons(s: string, ss: seq<string>)
    ensures Flatten([s] + ss) == s + Flatten(ss)
  {
    FlattenConcat([s], ss);
    assert [s][..0] == [];
    assert Flatten([s]) == Flatten([]) + s;
  }
}
