/** Cell wrapping of internal/output/output.go: physical lines no wider than a column. */
module WrapText {
  import opened Basics
  import opened Text

  ghost predicate Fit(lines: seq<string>, width: int) {
    forall i :: 0 <= i < |lines| ==> |lines[i]| <= width
  }

  /** What has been laid out so far, spaces aside, is `done`. */
  ghost predicate Kept(lines: seq<string>, cur: string, done: string) {
    Without(Flatten(lines) + cur, ' ') == done
  }

  lemma AddWord(lines: seq<string>, cur: string, done: string, w: string)
    requires Kept(lines, cur, done) && ' ' !in w
    ensures Kept(lines, cur + w, done + w)
    ensures Kept(lines, cur + [' '] + w, done + w)
  {
    var all := Flatten(lines) + cur;
    WithoutNothing(w, ' ');
    WithoutConcat(all, w, ' ');
    assert Flatten(lines) + (cur + w) == all + w;
    WithoutConcat(all, [' '], ' ');
    WithoutConcat(all + [' '], w, ' ');
    assert Without([' '], ' ') == [];
    assert Flatten(lines) + (cur + [' '] + w) == all + [' '] + w;
  }

  lemma FlushKeeps(lines: seq<string>, cur: string, done: string)
    requires Kept(lines, cur, done)
    ensures Kept(lines + [cur], [], done)
  {
    FlattenSnoc(lines, cur);
    assert Flatten(lines) + cur + [] == Flatten(lines) + cur;
  }

  /** A word stands unbroken on some line. */
  ghost predicate Stands(w: string, line: string) {
    exists i: nat :: IsAt(w, line, i)
  }

  ghost predicate IsAt(w: string, line: string, i: nat) {
    i + |w| <= |line| && line[i..i + |w|] == w
  }

  ghost predicate StandsIn(w: string, lines: seq<string>, cur: string) {
    Stands(w, cur) || exists i :: 0 <= i < |lines| && Stands(w, lines[i])
  }

  lemma StandsGrow(w: string, lines: seq<string>, cur: string, more: string)
    requires StandsIn(w, lines, cur)
    ensures StandsIn(w, lines, cur + more)
    ensures StandsIn(w, lines + [cur], more)
  {
    if Stands(w, cur) {
      var i: nat :| IsAt(w, cur, i);
      assert (cur + more)[i..i + |w|] == w;
      assert IsAt(w, cur + more, i);
      assert (lines + [cur])[|lines|] == cur;
    } else {
      var i :| 0 <= i < |lines| && Stands(w, lines[i]);
      assert (lines + [cur])[i] == lines[i];
    }
  }

  lemma StandsAtEnd(w: string, lines: seq<string>, front: string)
    ensures StandsIn(w, lines, front + w)
  {
    assert IsAt(w, front + w, |front|);
  }

  ghost predicate AllStand(words: seq<string>, n: nat, width: int, lines: seq<string>, cur: string)
    requires n <= |words|
  {
    forall j :: 0 <= j < n && |words[j]| <= width ==> StandsIn(words[j], lines, cur)
  }

  lemma AllGrow(words: seq<string>, n: nat, width: int, lines: seq<string>, cur: string, more: string)
    requires n <= |words| && AllStand(words, n, width, lines, cur)
    ensures AllStand(words, n, width, lines, cur + more)
    ensures AllStand(words, n, width, lines + [cur], more)
  {
    forall j | 0 <= j < n && |words[j]| <= width
      ensures StandsIn(words[j], lines, cur + more) && StandsIn(words[j], lines + [cur], more)
    {
      StandsGrow(words[j], lines, cur, more);
    }
  }

  /** The state of the layout: `done` is laid out, every line fits, and the
      first n words, if they fit a line, stand unbroken. */
  ghost predicate Laid(words: seq<string>, n: nat, width: int, lines: seq<string>, cur: string, done: string) {
    n <= |words| && Kept(lines, cur, done) && Fit(lines, width) && |cur| <= width && AllStand(words, n, width, lines, cur)
  }

  lemma LaidFlush(words: seq<string>, n: nat, width: int, lines: seq<string>, cur: string, done: string)
    requires width >= 1 && Laid(words, n, width, lines, cur, done)
    ensures Laid(words, n, width, lines + [cur], [], done)
  {
    FlushKeeps(lines, cur, done);
    AllGrow(words, n, width, lines, cur, []);
  }

  lemma LaidAdd(words: seq<string>, n: nat, width: int, lines: seq<string>, cur: string, done: string, w: string)
    requires width >= 1 && Laid(words, n, width, lines, cur, done) && ' ' !in w
    ensures |cur| + |w| <= width ==> Laid(words, n, width, lines, cur + w, done + w)
    ensures |cur| + 1 + |w| <= width ==> Laid(words, n, width, lines, cur + [' '] + w, done + w)
  {
    AddWord(lines, cur, done, w);
    AllGrow(words, n, width, lines, cur, w);
    AllGrow(words, n, width, lines, cur, [' '] + w);
    assert cur + ([' '] + w) == cur + [' '] + w;
  }

  lemma LaidLine(words: seq<string>, n: nat, width: int, lines: seq<string>, done: string, piece: string)
    requires width >= 1 && Laid(words, n, width, lines, [], done) && ' ' !in piece && |piece| <= width
    ensures Laid(words, n, width, lines + [piece], [], done + piece)
  {
    LaidAdd(words, n, width, lines, [], done, piece);
    assert [] + piece == piece;
    LaidFlush(words, n, width, lines, piece, done + piece);
  }

  // ---------------------------------------------------------------- packing

  /** What a line begins with, up to its first space. */
  function FirstWord(line: string): (w: string)
    ensures w <= line && ' ' !in w && (|w| < |line| ==> line[|w|] == ' ')
  {
    if line == [] || line[0] == ' ' then [] else [line[0]] + FirstWord(line[1..])
  }

  lemma FirstWordUnique(w: string, line: string)
    requires w <= line && ' ' !in w && (|w| < |line| ==> line[|w|] == ' ')
    ensures FirstWord(line) == w
  {
    assert |FirstWord(line)| == |w|;
  }

  /** No line had room for the first word of the line after it. */
  ghost predicate Packed(lines: seq<string>, width: int) {
    forall i :: 0 <= i < |lines| - 1 ==> |lines[i]| + 1 + |FirstWord(lines[i + 1])| > width
  }

  /** Packed so far, with `cur` begun behind the lines: the last line had no room for the
      first word of `cur`, or for any word if there is none yet. */
  ghost predicate PackedTo(lines: seq<string>, cur: string, width: int) {
    Packed(lines, width) &&
    (lines != [] ==>
       if cur == [] then |lines[|lines| - 1]| >= width else |lines[|lines| - 1]| + 1 + |FirstWord(cur)| > width)
  }

  lemma PackLine(lines: seq<string>, cur: string, width: int)
    requires PackedTo(lines, cur, width) && (cur != [] || lines == [])
    ensures Packed(lines + [cur], width)
  {
    var all := lines + [cur];
    assert forall i :: 0 <= i < |all| - 1 ==> all[i] == lines[i];
  }

  /** A full piece of an over-long word, behind what was begun. */
  lemma PackPiece(lines: seq<string>, cur: string, piece: string, width: int)
    requires width >= 1 && PackedTo(lines, cur, width) && |piece| == width && ' ' !in piece
    ensures PackedTo((if cur == [] then lines else lines + [cur]) + [piece], [], width)
  {
    FirstWordUnique(piece, piece);
    var before := if cur == [] then lines else lines + [cur];
    if cur != [] { PackLine(lines, cur, width); }
    assert PackedTo(before, piece, width);
    PackLine(before, piece, width);
  }

  lemma PackFirst(lines: seq<string>, rest: string, width: int)
    requires PackedTo(lines, [], width) && ' ' !in rest
    ensures PackedTo(lines, rest, width)
  {
    FirstWordUnique(rest, rest);
  }

  lemma PackJoin(lines: seq<string>, cur: string, rest: string, width: int)
    requires PackedTo(lines, cur, width) && cur != []
    ensures PackedTo(lines, cur + [' '] + rest, width)
  {
    var w, all := FirstWord(cur), cur + [' '] + rest;
    assert all[..|cur|] == cur;
    FirstWordUnique(w, all);
  }

  lemma PackFlush(lines: seq<string>, cur: string, rest: string, width: int)
    requires PackedTo(lines, cur, width) && cur != [] && ' ' !in rest && |cur| + 1 + |rest| > width
    ensures PackedTo(lines + [cur], rest, width)
  {
    PackLine(lines, cur, width);
    FirstWordUnique(rest, rest);
  }

  // ----------------------------------------------------------------- wrapLine

  /** Everything the layout keeps while a word is placed. */
  ghost predicate Holds(words: seq<string>, n: nat, width: int, lines: seq<string>, cur: string, done: string) {
    Laid(words, n, width, lines, cur, done) && PackedTo(lines, cur, width)
  }

  /** A full piece of an over-long word becomes a line of its own. */
  lemma PlacePiece(words: seq<string>, n: nat, width: int, lines: seq<string>, cur: string, done: string, piece: string)
    requires width >= 1 && Holds(words, n, width, lines, cur, done) && |piece| == width && ' ' !in piece
    ensures Holds(words, n, width, (if cur == [] then lines else lines + [cur]) + [piece], [], done + piece)
  {
    PackPiece(lines, cur, piece, width);
    if cur == [] {
      LaidLine(words, n, width, lines, done, piece);
    } else {
      LaidFlush(words, n, width, lines, cur, done);
      LaidLine(words, n, width, lines + [cur], done, piece);
    }
  }

  /** Cuts an over-long word into full lines; the short remainder is returned. */
  method BreakWord(word: string, width: int, lines: seq<string>, cur: string,
                   ghost words: seq<string>, ghost n: nat, ghost done: string)
    returns (lines': seq<string>, cur': string, rest: string, ghost done': string)
    requires width >= 1 && ' ' !in word && Holds(words, n, width, lines, cur, done)
    ensures |rest| <= width && ' ' !in rest && done' + rest == done + word
    ensures Holds(words, n, width, lines', cur', done')
    ensures |word| <= width ==> rest == word
  {
    lines', cur', rest, done' := lines, cur, word, done;
    while |rest| > width
      invariant ' ' !in rest && done' + rest == done + word
      invariant Holds(words, n, width, lines', cur', done')
      invariant |word| <= width ==> rest == word
      decreases |rest|
    {
      var piece := rest[..width];
      PlacePiece(words, n, width, lines', cur', done', piece);
      if |cur'| > 0 {
        lines', cur' := lines' + [cur'], [];
      }
      assert done' + piece + rest[width..] == done' + rest;
      lines', done', rest := lines' + [piece], done' + piece, rest[width..];
    }
  }

  lemma PlaceFirst(words: seq<string>, n: nat, width: int, lines: seq<string>, done: string, rest: string)
    requires width >= 1 && Holds(words, n, width, lines, [], done) && ' ' !in rest && |rest| <= width
    ensures Holds(words, n, width, lines, rest, done + rest) && StandsIn(rest, lines, rest)
  {
    LaidAdd(words, n, width, lines, [], done, rest);
    PackFirst(lines, rest, width);
    StandsAtEnd(rest, lines, []);
    assert [] + rest == rest;
  }

  lemma PlaceJoined(words: seq<string>, n: nat, width: int, lines: seq<string>, cur: string, done: string, rest: string)
    requires width >= 1 && Holds(words, n, width, lines, cur, done) && ' ' !in rest && cur != [] && |cur| + 1 + |rest| <= width
    ensures Holds(words, n, width, lines, cur + [' '] + rest, done + rest) && StandsIn(rest, lines, cur + [' '] + rest)
  {
    LaidAdd(words, n, width, lines, cur, done, rest);
    PackJoin(lines, cur, rest, width);
    StandsAtEnd(rest, lines, cur + [' ']);
  }

  lemma PlaceBelow(words: seq<string>, n: nat, width: int, lines: seq<string>, cur: string, done: string, rest: string)
    requires width >= 1 && Holds(words, n, width, lines, cur, done) && ' ' !in rest && |rest| <= width
    requires cur != [] && |cur| + 1 + |rest| > width
    ensures Holds(words, n, width, lines + [cur], rest, done + rest) && StandsIn(rest, lines + [cur], rest)
  {
    LaidFlush(words, n, width, lines, cur, done);
    LaidAdd(words, n, width, lines + [cur], [], done, rest);
    PackFlush(lines, cur, rest, width);
    StandsAtEnd(rest, lines + [cur], []);
    assert [] + rest == rest;
  }

  /** Places the remainder of a word after it has been cut to size. */
  method Place(rest: string, width: int, lines: seq<string>, cur: string, ghost words: seq<string>, ghost n: nat, ghost done: string)
    returns (lines': seq<string>, cur': string)
    requires width >= 1 && ' ' !in rest && |rest| <= width && Holds(words, n, width, lines, cur, done)
    ensures Holds(words, n, width, lines', cur', done + rest)
    ensures StandsIn(rest, lines', cur')
  {
    lines', cur' := lines, cur;
    if |cur| == 0 {
      PlaceFirst(words, n, width, lines, done, rest);
      cur' := cur + rest;
      assert cur' == rest;
    } else if |cur| + 1 + |rest| <= width {
      PlaceJoined(words, n, width, lines, cur, done, rest);
      cur' := cur + [' '] + rest;
    } else {
      PlaceBelow(words, n, width, lines, cur, done, rest);
      lines', cur' := lines + [cur], rest;
    }
  }

  /** The lines of a newline-free text: they fit, no visible rune is lost, repeated or
      moved, no word that fits a line is broken, and no line leaves room for the first
      word of the next. */
  ghost predicate Wraps(s: string, width: int, lines: seq<string>) {
    && lines != []
    && (width <= 0 || |s| <= width ==> lines == [s])
    && (width >= 1 ==> Fit(lines, width) && Packed(lines, width))
    && Without(Flatten(lines), ' ') == Without(s, ' ')
    && (1 <= width < |s| ==> forall w :: w in Split(s, ' ') && |w| <= width ==> StandsIn(w, lines, []))
  }

  /** wrapLine. */
  method WrapLine(s: string, width: int) returns (lines: seq<string>)
    ensures Wraps(s, width, lines)
  {
    if width <= 0 || |s| <= width {
      FlattenOne(s);
      return [s];
    }
    var words := Split(s, ' ');
    var cur;
    lines, cur := LayWords(words, width);
    LinesDone(s, words, width, lines, cur);
    if |cur| > 0 || |lines| == 0 {
      lines := lines + [cur];
    }
  }

  /** The loop over the words. */
  method LayWords(words: seq<string>, width: int) returns (lines: seq<string>, cur: string)
    requires width >= 1 && forall i :: 0 <= i < |words| ==> ' ' !in words[i]
    ensures Holds(words, |words|, width, lines, cur, Flatten(words))
  {
    lines, cur := [], [];
    for k := 0 to |words|
      invariant Holds(words, k, width, lines, cur, Flatten(words[..k]))
    {
      ghost var done := Flatten(words[..k]);
      var rest;
      ghost var part;
      lines, cur, rest, part := BreakWord(words[k], width, lines, cur, words, k, done);
      lines, cur := Place(rest, width, lines, cur, words, k, part);
      LaidNext(words, k, width, lines, cur, done + words[k]);
      FlattenSnoc(words[..k], words[k]);
      assert words[..k + 1] == words[..k] + [words[k]];
    }
    assert words[..|words|] == words;
  }

  /** The last line joins the others unless it is empty and not the only one. */
  lemma LinesDone(s: string, words: seq<string>, width: int, lines: seq<string>, cur: string)
    requires 1 <= width < |s| && words == Split(s, ' ') && Holds(words, |words|, width, lines, cur, Flatten(words))
    ensures Wraps(s, width, if |cur| > 0 || |lines| == 0 then lines + [cur] else lines)
  {
    SplitDropsOnly(s, ' ');
    if |cur| > 0 || |lines| == 0 {
      LaidFlush(words, |words|, width, lines, cur, Flatten(words));
      PackLine(lines, cur, width);
      LaidDone(words, width, lines + [cur], Flatten(words));
    } else {
      LaidDone(words, width, lines, Flatten(words));
    }
  }

  lemma LaidDone(words: seq<string>, width: int, lines: seq<string>, done: string)
    requires Laid(words, |words|, width, lines, [], done)
    ensures Without(Flatten(lines), ' ') == done
    ensures forall w :: w in words && |w| <= width ==> StandsIn(w, lines, [])
  {
    assert Flatten(lines) + [] == Flatten(lines);
    forall w | w in words && |w| <= width ensures StandsIn(w, lines, []) {
      var j :| 0 <= j < |words| && words[j] == w;
    }
  }

  lemma LaidNext(words: seq<string>, k: nat, width: int, lines: seq<string>, cur: string, done: string)
    requires k < |words| && Laid(words, k, width, lines, cur, done)
    requires |words[k]| <= width ==> StandsIn(words[k], lines, cur)
    ensures Laid(words, k + 1, width, lines, cur, done)
  {}

  lemma FlattenOne(s: string)
    ensures Flatten([s]) == s
  {
    assert [s][..0] == [];
  }

  // ------------------------------------------------------- whole cell texts

  /** A visible rune on some line comes from the text. */
  lemma {:induction false} WithoutMember(s: string, drop: char, c: char)
    requires c != drop
    ensures c in Without(s, drop) <==> c in s
  {
    if s != [] {
      WithoutMember(s[..|s| - 1], drop, c);
      assert s == s[..|s| - 1] + [s[|s| - 1]];
    }
  }

  lemma {:induction false} FlattenMember(lines: seq<string>, i: nat, c: char)
    requires i < |lines| && c in lines[i]
    ensures c in Flatten(lines)
  {
    if i < |lines| - 1 { FlattenMember(lines[..|lines| - 1], i, c); }
  }

  lemma NoNewRunes(lines: seq<string>, s: string, c: char)
    requires Without(Flatten(lines), ' ') == Without(s, ' ') && c != ' ' && c !in s
    ensures forall i :: 0 <= i < |lines| ==> c !in lines[i]
  {
    WithoutMember(s, ' ', c);
    WithoutMember(Flatten(lines), ' ', c);
    forall i | 0 <= i < |lines| ensures c !in lines[i] {
      if c in lines[i] { FlattenMember(lines, i, c); }
    }
  }

  ghost predicate OneLiners(lines: seq<string>) {
    forall i :: 0 <= i < |lines| ==> '\n' !in lines[i]
  }

  /** One group of lines for each segment, in turn. */
  ghost predicate WrapsEach(segs: seq<string>, width: int, groups: seq<seq<string>>) {
    |groups| == |segs| && forall i :: 0 <= i < |segs| ==> Wraps(segs[i], width, groups[i])
  }

  /** The lines of any text: newlines are hard breaks, and each segment between them is
      wrapped on its own. */
  ghost predicate WrapsText(s: string, width: int, lines: seq<string>) {
    exists groups :: WrapsEach(Split(s, '\n'), width, groups) && lines == Flatten(groups)
  }

  /** What holds of every line so far. */
  ghost predicate Clean(lines: seq<string>, segs: seq<string>, width: int) {
    && OneLiners(lines)
    && (segs != [] ==> lines != [])
    && (width >= 1 ==> Fit(lines, width))
    && (width <= 0 ==> lines == segs)
    && Without(Flatten(lines), ' ') == Without(Flatten(segs), ' ')
  }

  lemma CleanNext(lines: seq<string>, segs: seq<string>, width: int, more: seq<string>, seg: string)
    requires Clean(lines, segs, width) && Wraps(seg, width, more) && '\n' !in seg
    ensures Clean(lines + more, segs + [seg], width)
  {
    NoNewRunes(more, seg, '\n');
    FlattenConcat(lines, more);
    WithoutConcat(Flatten(lines), Flatten(more), ' ');
    FlattenSnoc(segs, seg);
    WithoutConcat(Flatten(segs), seg, ' ');
  }

  lemma FlattenTake<T>(groups: seq<seq<T>>, k: nat)
    requires k < |groups|
    ensures Flatten(groups[..k + 1]) == Flatten(groups[..k]) + groups[k]
  {
    assert groups[..k + 1] == groups[..k] + [groups[k]];
    FlattenSnoc(groups[..k], groups[k]);
  }

  lemma TakeSnoc(segs: seq<string>, k: nat)
    requires k < |segs|
    ensures segs[..k + 1] == segs[..k] + [segs[k]]
  {}

  /** What holds of lines and segments so far still does with one more group. */
  ghost predicate Grows(holds: (seq<string>, seq<string>) -> bool, seg: string, more: seq<string>) {
    forall lines: seq<string>, segs: seq<string> :: holds(lines, segs) ==> holds(lines + more, segs + [seg])
  }

  lemma {:induction false} OverGroups(holds: (seq<string>, seq<string>) -> bool, segs: seq<string>, groups: seq<seq<string>>, k: nat)
    requires |segs| == |groups| && k <= |segs| && holds([], [])
    requires forall i :: 0 <= i < |segs| ==> Grows(holds, segs[i], groups[i])
    ensures holds(Flatten(groups[..k]), segs[..k])
  {
    if k > 0 {
      OverGroups(holds, segs, groups, k - 1);
      FlattenTake(groups, k - 1);
      TakeSnoc(segs, k - 1);
      assert Grows(holds, segs[k - 1], groups[k - 1]);
    }
  }

  lemma CleanGrows(width: int, seg: string, more: seq<string>)
    requires Wraps(seg, width, more) && '\n' !in seg
    ensures Grows((lines, segs) => Clean(lines, segs, width), seg, more)
  {
    forall lines: seq<string>, segs: seq<string> | Clean(lines, segs, width) ensures Clean(lines + more, segs + [seg], width) {
      CleanNext(lines, segs, width, more, seg);
    }
  }

  lemma AllClean(segs: seq<string>, width: int, groups: seq<seq<string>>)
    requires WrapsEach(segs, width, groups) && forall i :: 0 <= i < |segs| ==> '\n' !in segs[i]
    ensures Clean(Flatten(groups), segs, width)
  {
    var holds := (lines: seq<string>, ss: seq<string>) => Clean(lines, ss, width);
    forall i | 0 <= i < |segs| ensures Grows(holds, segs[i], groups[i]) { CleanGrows(width, segs[i], groups[i]); }
    OverGroups(holds, segs, groups, |segs|);
    assert groups[..|segs|] == groups && segs[..|segs|] == segs;
  }

  /** wrapText. */
  method Wrap(s: string, width: int) returns (lines: seq<string>)
    ensures WrapsText(s, width, lines)
    ensures lines != [] && OneLiners(lines)
    ensures width >= 1 ==> Fit(lines, width)
    ensures width <= 0 ==> lines == Split(s, '\n')
    ensures Without(Flatten(lines), ' ') == Without(Without(s, '\n'), ' ')
  {
    ghost var groups;
    lines, groups := WrapGroups(s, width);
    AllClean(Split(s, '\n'), width, groups);
    SplitDropsOnly(s, '\n');
  }

  method WrapGroups(s: string, width: int) returns (lines: seq<string>, ghost groups: seq<seq<string>>)
    ensures WrapsEach(Split(s, '\n'), width, groups) && lines == Flatten(groups)
  {
    if '\n' !in s {
      lines := WrapLine(s, width);
      groups := [lines];
      SplitNothing(s, '\n');
      OneGroup(lines);
    } else {
      lines, groups := WrapSegments(Split(s, '\n'), width);
    }
  }

  lemma OneGroup(lines: seq<string>)
    ensures Flatten([lines]) == lines
  {
    assert [lines][..0] == [];
  }

  method WrapSegments(segments: seq<string>, width: int) returns (lines: seq<string>, ghost groups: seq<seq<string>>)
    ensures WrapsEach(segments, width, groups) && lines == Flatten(groups)
  {
    lines, groups := [], [];
    for k := 0 to |segments|
      invariant |groups| == k && lines == Flatten(groups)
      invariant forall i :: 0 <= i < k ==> Wraps(segments[i], width, groups[i])
    {
      var more := WrapLine(segments[k], width);
      FlattenSnoc(groups, more);
      lines, groups := lines + more, groups + [more];
    }
  }

  // ------------------------------------------------------------ compact rows

  /** unicode.IsSpace. */
  predicate IsSpace(c: char) {
    var n := c as int;
    || 9 <= n <= 13 || n == 32 || n == 0x85 || n == 0xA0 || n == 0x1680 || 0x2000 <= n <= 0x200A
    || n == 0x2028 || n == 0x2029 || n == 0x202F || n == 0x205F || n == 0x3000
  }

  /** strings.Join(strings.Fields(s), " "): every run of spaces between two
      fields becomes one, the outer ones go. */
  function JoinFields(s: string): (r: string)
    ensures |r| <= |s|
    ensures '\n' !in r
    ensures r != [] ==> !IsSpace(r[0]) && !IsSpace(r[|r| - 1])
  {
    if s == [] then []
    else
      var rest := JoinFields(s[1..]);
      if IsSpace(s[0]) then rest
      else if rest == [] then [s[0]]
      else if IsSpace(s[1]) then [s[0], ' '] + rest
      else [s[0]] + rest
  }

  /** Words with the gaps around and between them, put together. */
  ghost function Interleaved(words: seq<string>, gaps: seq<string>): string
    requires |gaps| == |words| + 1
  {
    if words == [] then gaps[0] else gaps[0] + words[0] + Interleaved(words[1..], gaps[1..])
  }

  ghost predicate AllSpace(s: string) { forall i :: 0 <= i < |s| ==> IsSpace(s[i]) }

  ghost predicate IsWord(s: string) { s != [] && forall i :: 0 <= i < |s| ==> !IsSpace(s[i]) }

  /** The words of a text and the spaces around them. */
  ghost predicate Fields(s: string, words: seq<string>, gaps: seq<string>) {
    && |gaps| == |words| + 1 && s == Interleaved(words, gaps)
    && (forall i :: 0 <= i < |words| ==> IsWord(words[i]))
    && (forall i :: 0 <= i < |gaps| ==> AllSpace(gaps[i]))
    && (forall i :: 1 <= i < |words| ==> gaps[i] != [])
  }

  /** The words of any text are what is joined, by single spaces. */
  lemma {:induction false} JoinFieldsExactly(s: string) returns (words: seq<string>, gaps: seq<string>)
    ensures Fields(s, words, gaps) && JoinFields(s) == Join(words, ' ')
  {
    if s == [] {
      words, gaps := [], [[]];
    } else {
      var ws, gs := JoinFieldsExactly(s[1..]);
      assert s == [s[0]] + s[1..];
      WordsJoined(ws);
      if IsSpace(s[0]) {
        words, gaps := ws, [[s[0]] + gs[0]] + gs[1..];
        GapGrows(s[1..], ws, gs, s[0]);
      } else if ws != [] && gs[0] == [] {
        words, gaps := [[s[0]] + ws[0]] + ws[1..], gs;
        WordGrows(s[1..], ws, gs, s[0]);
        JoinGrows(ws, s[0]);
      } else {
        words, gaps := [[s[0]]] + ws, [[]] + gs;
        WordBegins(s[1..], ws, gs, s[0]);
      }
    }
  }

  lemma GapGrows(s: string, ws: seq<string>, gs: seq<string>, c: char)
    requires Fields(s, ws, gs) && IsSpace(c)
    ensures Fields([c] + s, ws, [[c] + gs[0]] + gs[1..])
  {
    var gaps := [[c] + gs[0]] + gs[1..];
    assert gaps[1..] == gs[1..];
    assert gaps[0] == [c] + gs[0];
    if ws != [] {
      var later := Interleaved(ws[1..], gs[1..]);
      assert [c] + (gs[0] + ws[0] + later) == [c] + gs[0] + ws[0] + later;
    }
  }

  lemma WordGrows(s: string, ws: seq<string>, gs: seq<string>, c: char)
    requires Fields(s, ws, gs) && !IsSpace(c) && ws != [] && gs[0] == []
    ensures Fields([c] + s, [[c] + ws[0]] + ws[1..], gs)
    ensures s != [] && !IsSpace(s[0])
  {
    var words := [[c] + ws[0]] + ws[1..];
    assert words[1..] == ws[1..];
    var later := Interleaved(ws[1..], gs[1..]);
    assert gs[0] + ws[0] + later == ws[0] + later;
    assert s[0] == ws[0][0];
    ConcatAssociative([c], ws[0], later);
    assert gs[0] + ([c] + ws[0]) + later == ([c] + ws[0]) + later;
    WordsGrow(ws, c);
  }

  lemma WordsGrow(ws: seq<string>, c: char)
    requires !IsSpace(c) && ws != [] && forall i :: 0 <= i < |ws| ==> IsWord(ws[i])
    ensures forall i :: 0 <= i < |ws| ==> IsWord(([[c] + ws[0]] + ws[1..])[i])
  {}

  lemma JoinGrows(ws: seq<string>, c: char)
    requires ws != []
    ensures Join([[c] + ws[0]] + ws[1..], ' ') == [c] + Join(ws, ' ')
  {
    var words := [[c] + ws[0]] + ws[1..];
    assert words[1..] == ws[1..];
    if |ws| > 1 {
      ConcatAssociative([c], ws[0] + [' '], Join(ws[1..], ' '));
      ConcatAssociative([c], ws[0], [' ']);
    }
  }

  lemma WordBegins(s: string, ws: seq<string>, gs: seq<string>, c: char)
    requires Fields(s, ws, gs) && !IsSpace(c) && (ws == [] || gs[0] != [])
    ensures Fields([c] + s, [[c]] + ws, [[]] + gs)
    ensures Join([[c]] + ws, ' ') == if ws == [] then [c] else [c, ' '] + Join(ws, ' ')
    ensures ws != [] ==> s != [] && IsSpace(s[0])
  {
    var words, gaps := [[c]] + ws, [[]] + gs;
    assert words[1..] == ws && gaps[1..] == gs;
    assert [] + [c] + s == [c] + s;
    if ws != [] { assert s[0] == gs[0][0]; }
  }

  lemma WordsJoined(ws: seq<string>)
    requires forall i :: 0 <= i < |ws| ==> IsWord(ws[i])
    ensures Join(ws, ' ') == [] <==> ws == []
  {
    if ws != [] { assert IsWord(ws[0]); }
  }

  function CollapseLines(s: string): (r: string)
    ensures |r| <= |s| && '\n' !in r
    ensures '\n' !in s ==> r == s
  {
    if '\n' !in s then s else JoinFields(s)
  }

  /** A text without newline is kept; of any other the words are kept, single spaces apart. */
  ghost predicate Collapsed(s: string, r: string) {
    if '\n' in s then exists words, gaps :: Fields(s, words, gaps) && r == Join(words, ' ') else r == s
  }

  lemma CollapsedExactly(s: string)
    ensures Collapsed(s, CollapseLines(s))
  {
    var words, gaps := JoinFieldsExactly(s);
  }

  const ELLIPSIS := '\U{2026}'

  /** truncateCell: one line, cut short with an ellipsis. */
  function Truncate(s: string, width: int): (r: string)
    ensures '\n' !in r
    ensures width >= 1 ==> |r| <= width
    ensures width <= 0 || |CollapseLines(s)| <= width ==> r == CollapseLines(s)
    ensures 1 <= width < |CollapseLines(s)| ==> |r| == width && r[..width - 1] == CollapseLines(s)[..width - 1] && r[width - 1] == ELLIPSIS
  {
    var t := CollapseLines(s);
    if width <= 0 || |t| <= width then t
    else if width == 1 then [ELLIPSIS]
    else t[..width - 1] + [ELLIPSIS]
  }
}
