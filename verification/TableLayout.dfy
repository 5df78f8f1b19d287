/** The table writer of internal/output/output.go: measure, fit, wrap, emit. */
module TableLayout {
  import opened Basics
  import opened Text
  import opened WrapText
  import opened ShrinkWidths
  import opened TableText

  const MAX_TABLE_CELL := 1024

  datatype Layout = Layout(fitWidth: int, minWidth: int, elide: bool, compact: bool)

  /** Rows of rendered cells; a row may be shorter than the column list. */
  type Cells = seq<seq<string>>

  // ---------------------------------------------------------------- measure

  function MaxLineWidth(lines: seq<string>): (n: nat)
    ensures forall i :: 0 <= i < |lines| ==> |lines[i]| <= n
    ensures n == 0 || exists i :: 0 <= i < |lines| && |lines[i]| == n
  {
    if lines == [] then 0
    else
      var m := MaxLineWidth(lines[..|lines| - 1]);
      if |lines[|lines| - 1]| > m then |lines[|lines| - 1]| else m
  }

  function TabsToSpaces(s: string): string {
    seq(|s|, i requires 0 <= i < |s| => if s[i] == '\t' then ' ' else s[i])
  }

  /** elideCell, the placeholder text being a parameter of the model. */
  function Elide(s: string, placeholder: string -> string): string {
    if |s| <= MAX_TABLE_CELL then s else placeholder(s)
  }

  function CellText(row: seq<string>, ci: nat, l: Layout, placeholder: string -> string): string {
    var s := TabsToSpaces(if ci < |row| then row[ci] else "");
    var e := if l.elide then Elide(s, placeholder) else s;
    if l.compact then CollapseLines(e) else e
  }

  /** A text with every tab made a blank. */
  ghost predicate Untabbed(s: string, plain: string) {
    |plain| == |s| && forall i :: 0 <= i < |s| ==> plain[i] == if s[i] == '\t' then ' ' else s[i]
  }

  /** A cell's text: its tabs made blanks, a text over 1024 runes replaced when the
      layout elides, its lines put on one when it is compact; a missing cell is empty. */
  ghost predicate CellReadsAs(row: seq<string>, ci: nat, l: Layout, placeholder: string -> string, text: string) {
    exists plain :: Untabbed(if ci < |row| then row[ci] else "", plain) &&
      var shown := if l.elide && |plain| > 1024 then placeholder(plain) else plain;
      if l.compact then Collapsed(shown, text) else text == shown
  }

  lemma CellTextExactly(row: seq<string>, ci: nat, l: Layout, placeholder: string -> string)
    ensures CellReadsAs(row, ci, l, placeholder, CellText(row, ci, l, placeholder))
  {
    var plain := TabsToSpaces(if ci < |row| then row[ci] else "");
    assert Untabbed(if ci < |row| then row[ci] else "", plain);
    CollapsedExactly(if l.elide then Elide(plain, placeholder) else plain);
  }

  predicate HasColumn(texts: Cells, c: nat) { forall r :: 0 <= r < |texts| ==> c < |texts[r]| }

  /** The width of a text's widest line. */
  function TextWidth(s: string): nat { MaxLineWidth(Split(s, '\n')) }

  /** The widest line of a column: its header, or a line of one of its cells. */
  function NaturalWidth(header: nat, texts: Cells, c: nat): (n: nat)
    requires HasColumn(texts, c)
    ensures header <= n && forall r :: 0 <= r < |texts| ==> TextWidth(texts[r][c]) <= n
    ensures n == header || exists r :: 0 <= r < |texts| && TextWidth(texts[r][c]) == n
  {
    if texts == [] then header
    else
      var last := |texts| - 1;
      assert texts == texts[..last] + [texts[last]];
      Max(NaturalWidth(header, texts[..last], c), TextWidth(texts[last][c]))
  }

  ghost predicate Measured(cols: seq<string>, texts: Cells, natural: seq<int>) {
    && |natural| == |cols|
    && (forall r :: 0 <= r < |texts| ==> |texts[r]| == |cols|)
    && (forall c :: 0 <= c < |cols| ==> natural[c] == NaturalWidth(|cols[c]|, texts, c))
  }

  /** tableCells. */
  method TableCells(cols: seq<string>, rows: Cells, l: Layout, placeholder: string -> string) returns (texts: Cells, natural: seq<int>)
    ensures |texts| == |rows| && Measured(cols, texts, natural)
    ensures forall r, c :: 0 <= r < |rows| && 0 <= c < |cols| ==> texts[r][c] == CellText(rows[r], c, l, placeholder)
  {
    natural := seq(|cols|, i requires 0 <= i < |cols| => |cols[i]|);
    texts := [];
    for r := 0 to |rows|
      invariant |texts| == r && Measured(cols, texts, natural)
      invariant forall k, c :: 0 <= k < r && 0 <= c < |cols| ==> texts[k][c] == CellText(rows[k], c, l, placeholder)
    {
      var row;
      row, natural := RowCells(cols, texts, rows[r], natural, l, placeholder);
      texts := texts + [row];
    }
  }

  method RowCells(cols: seq<string>, ghost texts: Cells, row: seq<string>, before: seq<int>, l: Layout, placeholder: string -> string)
    returns (out: seq<string>, natural: seq<int>)
    requires Measured(cols, texts, before)
    ensures |out| == |cols| && forall c :: 0 <= c < |cols| ==> out[c] == CellText(row, c, l, placeholder)
    ensures Measured(cols, texts + [out], natural)
  {
    out := CellTexts(|cols|, row, l, placeholder);
    natural := Widen(before, out);
    MeasuredNext(cols, texts, before, out, natural);
  }

  method CellTexts(n: nat, row: seq<string>, l: Layout, placeholder: string -> string) returns (out: seq<string>)
    ensures |out| == n && forall c :: 0 <= c < n ==> out[c] == CellText(row, c, l, placeholder)
  {
    out := [];
    for c := 0 to n
      invariant |out| == c && forall k :: 0 <= k < c ==> out[k] == CellText(row, k, l, placeholder)
    {
      out := out + [CellText(row, c, l, placeholder)];
    }
  }

  /** Each column as wide as before, or as the widest line of its new text. */
  method Widen(before: seq<int>, out: seq<string>) returns (natural: seq<int>)
    requires |before| == |out|
    ensures |natural| == |out|
    ensures forall c :: 0 <= c < |out| ==> natural[c] == Max(before[c], TextWidth(out[c]))
  {
    natural := before;
    for c := 0 to |out|
      invariant |natural| == |out|
      invariant forall k :: 0 <= k < c ==> natural[k] == Max(before[k], TextWidth(out[k]))
      invariant forall k :: c <= k < |out| ==> natural[k] == before[k]
    {
      var n := TextWidth(out[c]);
      if n > natural[c] {
        natural := natural[c := n];
      }
    }
  }

  lemma MeasuredNext(cols: seq<string>, texts: Cells, before: seq<int>, out: seq<string>, natural: seq<int>)
    requires Measured(cols, texts, before) && |out| == |natural| == |cols|
    requires forall c :: 0 <= c < |cols| ==> natural[c] == Max(before[c], TextWidth(out[c]))
    ensures Measured(cols, texts + [out], natural)
  {
    var all := texts + [out];
    assert all[..|texts|] == texts;
  }

  // ------------------------------------------------------------------- wrap

  /** Lines that fit a column and hold no newline. */
  ghost predicate Fits(lines: seq<string>, width: int) {
    OneLiners(lines) && Fit(lines, width)
  }

  /** What a cell shows of its text: the cut line, or the text wrapped. */
  ghost predicate Shows(s: string, lines: seq<string>, width: int, compact: bool) {
    if compact then lines == [Truncate(s, width)] else WrapsText(s, width, lines)
  }

  /** A cell done: it shows its text, and fits the width if the text can be cut to it. */
  ghost predicate Done(s: string, lines: seq<string>, width: int, compact: bool) {
    lines != [] && OneLiners(lines) && (Cuttable(s, width) ==> Fit(lines, width)) && Shows(s, lines, width, compact)
  }

  /** wrapText or truncateCell, as the layout asks. */
  method FitCell(s: string, width: int, compact: bool) returns (lines: seq<string>)
    ensures Done(s, lines, width, compact)
  {
    if compact {
      CutFits(s, width);
      lines := [Truncate(s, width)];
    } else {
      lines := Wrap(s, width);
      WrappedFits(s, width, lines);
    }
  }

  lemma CutFits(s: string, width: int)
    ensures OneLiners([Truncate(s, width)]) && (Cuttable(s, width) ==> Fit([Truncate(s, width)], width))
  {
    if width == 0 && Cuttable(s, width) { AllBlank(s); }
  }

  lemma WrappedFits(s: string, width: int, lines: seq<string>)
    requires width >= 1 ==> Fit(lines, width)
    requires width <= 0 ==> lines == Split(s, '\n')
    ensures Cuttable(s, width) ==> Fit(lines, width)
  {}

  /** A text whose lines are all empty collapses to nothing. */
  lemma AllBlank(s: string)
    requires TextWidth(s) <= 0
    ensures CollapseLines(s) == []
  {
    JoinOfSplit(s, '\n');
    OnlyNewlines(Split(s, '\n'));
    if '\n' in s { BlankFields(s); }
  }

  lemma {:induction false} OnlyNewlines(parts: seq<string>)
    requires parts != [] && forall i :: 0 <= i < |parts| ==> parts[i] == []
    ensures forall i :: 0 <= i < |Join(parts, '\n')| ==> Join(parts, '\n')[i] == '\n'
  {
    if |parts| > 1 { OnlyNewlines(parts[1..]); }
  }

  lemma {:induction false} BlankFields(s: string)
    requires forall i :: 0 <= i < |s| ==> s[i] == '\n'
    ensures JoinFields(s) == []
  {
    if s != [] { BlankFields(s[1..]); }
  }

  /** A width the text can be cut to: any but zero, unless the text is blank. */
  ghost predicate Cuttable(s: string, width: int) {
    width >= 1 || (width == 0 && TextWidth(s) <= 0)
  }

  /** Widths every text of its column can be cut to. */
  ghost predicate Suits(cols: seq<string>, texts: Cells, target: seq<int>) {
    && |target| == |cols|
    && (forall r :: 0 <= r < |texts| ==> |texts[r]| == |cols|)
    && (forall c :: 0 <= c < |cols| ==> Cuttable(cols[c], target[c]))
    && (forall r, c :: 0 <= r < |texts| && 0 <= c < |cols| ==> Cuttable(texts[r][c], target[c]))
  }

  ghost predicate GridFits(row: Grid, widths: seq<int>) {
    |row| == |widths| && forall c :: 0 <= c < |row| ==> row[c] != [] && Fits(row[c], widths[c])
  }

  lemma GridWidens(row: Grid, ws: seq<int>, ws': seq<int>)
    requires GridFits(row, ws) && |ws| == |ws'| && forall c :: 0 <= c < |ws| ==> ws[c] <= ws'[c]
    ensures GridFits(row, ws')
  {
    forall c | 0 <= c < |row| ensures Fits(row[c], ws'[c]) { assert Fits(row[c], ws[c]); }
  }

  ghost predicate RowShows(texts: seq<string>, row: Grid, target: seq<int>, compact: bool) {
    |texts| == |row| == |target| && forall c :: 0 <= c < |texts| ==> Shows(texts[c], row[c], target[c], compact)
  }

  predicate Judged(s: string, lines: seq<string>, width: int) { true }

  /** `done` judges cells as `Done` does. */
  ghost predicate Judges(done: (string, seq<string>, int) -> bool, compact: bool) {
    forall s: string, lines: seq<string>, width: int {:trigger Judged(s, lines, width)} ::
      Judged(s, lines, width) ==> done(s, lines, width) == Done(s, lines, width, compact)
  }

  method FitNext(s: string, width: int, compact: bool, ghost done: (string, seq<string>, int) -> bool) returns (lines: seq<string>)
    requires Judges(done, compact)
    ensures done(s, lines, width)
  {
    lines := FitCell(s, width, compact);
    assert Judged(s, lines, width);
  }

  /** Every cell of a row, wrapped or cut. */
  method FitRow(texts: seq<string>, target: seq<int>, compact: bool, ghost done: (string, seq<string>, int) -> bool) returns (row: Grid)
    requires |texts| == |target| && Judges(done, compact)
    ensures |row| == |texts| && forall c :: 0 <= c < |row| ==> done(texts[c], row[c], target[c])
  {
    row := [];
    for c := 0 to |texts|
      invariant |row| == c && forall k :: 0 <= k < c ==> done(texts[k], row[k], target[k])
    {
      var lines := FitNext(texts[c], target[c], compact, done);
      row := row + [lines];
    }
  }

  /** Each column as wide as before, or as its widest new line. */
  method WidenTo(before: seq<int>, row: Grid) returns (widths: seq<int>)
    requires |before| == |row|
    ensures |widths| == |row| && forall c :: 0 <= c < |row| ==> widths[c] == Max(before[c], MaxLineWidth(row[c]))
  {
    widths := before;
    for c := 0 to |row|
      invariant |widths| == |row|
      invariant forall k :: 0 <= k < c ==> widths[k] == Max(before[k], MaxLineWidth(row[k]))
      invariant forall k :: c <= k < |row| ==> widths[k] == before[k]
    {
      var n := MaxLineWidth(row[c]);
      if n > widths[c] {
        widths := widths[c := n];
      }
    }
  }

  /** One row of cells wrapped; the widths grow to what it needs, and not
      beyond a target the texts can be cut to. */
  method WrapRow(texts: seq<string>, target: seq<int>, before: seq<int>, compact: bool) returns (row: Grid, widths: seq<int>)
    requires |texts| == |target| == |before| && forall c :: 0 <= c < |before| ==> 0 <= before[c]
    ensures GridFits(row, widths) && |widths| == |before|
    ensures forall c :: 0 <= c < |texts| ==> widths[c] == Max(before[c], MaxLineWidth(row[c]))
    ensures RowShows(texts, row, target, compact)
    ensures forall c :: 0 <= c < |texts| && Cuttable(texts[c], target[c]) && before[c] <= target[c] ==> widths[c] <= target[c]
  {
    row := FitRow(texts, target, compact, (s, lines, width) => Done(s, lines, width, compact));
    widths := WidenTo(before, row);
    forall c | 0 <= c < |row|
      ensures Fits(row[c], widths[c])
      ensures Cuttable(texts[c], target[c]) && before[c] <= target[c] ==> widths[c] <= target[c]
    {
      MaxWithin(row[c], target[c]);
    }
  }

  lemma MaxWithin(lines: seq<string>, width: int)
    ensures Fit(lines, MaxLineWidth(lines))
    ensures Fit(lines, width) && width >= 0 ==> MaxLineWidth(lines) <= width
  {}

  /** Every column is just as wide as its widest line. */
  ghost predicate Tight(header: Grid, body: seq<Grid>, widths: seq<int>) {
    |header| == |widths| &&
    forall c :: 0 <= c < |widths| ==>
      widths[c] == MaxLineWidth(header[c]) ||
      exists r :: 0 <= r < |body| && c < |body[r]| && widths[c] == MaxLineWidth(body[r][c])
  }

  lemma TightNext(header: Grid, body: seq<Grid>, ws: seq<int>, row: Grid, widths: seq<int>)
    requires Tight(header, body, ws) && |row| == |ws| == |widths|
    requires forall c :: 0 <= c < |widths| ==> widths[c] == Max(ws[c], MaxLineWidth(row[c]))
    ensures Tight(header, body + [row], widths)
  {
    var all := body + [row];
    forall c | 0 <= c < |widths| && widths[c] != MaxLineWidth(header[c])
      ensures exists r :: 0 <= r < |all| && c < |all[r]| && widths[c] == MaxLineWidth(all[r][c])
    {
      if widths[c] == MaxLineWidth(row[c]) {
        assert all[|body|] == row;
      } else {
        var r :| 0 <= r < |body| && c < |body[r]| && ws[c] == MaxLineWidth(body[r][c]);
        assert all[r] == body[r];
      }
    }
  }

  /** The first rows laid out: each cell fits its column and shows its text. */
  ghost predicate LaidOut(body: seq<Grid>, texts: Cells, widths: seq<int>, target: seq<int>, compact: bool) {
    |body| <= |texts| &&
    forall r :: 0 <= r < |body| ==> GridFits(body[r], widths) && RowShows(texts[r], body[r], target, compact)
  }

  lemma LaidOutNext(body: seq<Grid>, texts: Cells, ws: seq<int>, widths: seq<int>, target: seq<int>, compact: bool, row: Grid)
    requires LaidOut(body, texts, ws, target, compact) && |body| < |texts|
    requires |ws| == |widths| && forall c :: 0 <= c < |ws| ==> ws[c] <= widths[c]
    requires GridFits(row, widths) && RowShows(texts[|body|], row, target, compact)
    ensures LaidOut(body + [row], texts, widths, target, compact)
  {
    forall r | 0 <= r < |body| ensures GridFits(body[r], widths) { GridWidens(body[r], ws, widths); }
  }

  /** wrapTableCells. */
  method WrapTableCells(cols: seq<string>, texts: Cells, target: seq<int>, compact: bool)
    returns (header: Grid, body: seq<Grid>, widths: seq<int>)
    requires |target| == |cols| && forall r :: 0 <= r < |texts| ==> |texts[r]| == |cols|
    ensures |widths| == |cols| && |body| == |texts|
    ensures forall c :: 0 <= c < |cols| ==> 0 <= widths[c]
    ensures Suits(cols, texts, target) ==> forall c :: 0 <= c < |cols| ==> widths[c] <= target[c]
    ensures GridFits(header, widths) && RowShows(cols, header, target, compact)
    ensures LaidOut(body, texts, widths, target, compact) && Tight(header, body, widths)
  {
    widths, body := seq(|cols|, _ => 0), [];
    header, widths := WrapRow(cols, target, widths, compact);
    for r := 0 to |texts|
      invariant |widths| == |cols| && |body| == r
      invariant forall c :: 0 <= c < |cols| ==> 0 <= widths[c]
      invariant Suits(cols, texts, target) ==> forall c :: 0 <= c < |cols| ==> widths[c] <= target[c]
      invariant GridFits(header, widths)
      invariant LaidOut(body, texts, widths, target, compact) && Tight(header, body, widths)
    {
      ghost var ws := widths;
      var row;
      row, widths := WrapRow(texts[r], target, widths, compact);
      GridWidens(header, ws, widths);
      LaidOutNext(body, texts, ws, widths, target, compact, row);
      TightNext(header, body, ws, row, widths);
      body := body + [row];
    }
  }

  // ------------------------------------------------------------------- emit

  function Repeat(c: char, n: nat): string { seq(n, _ => c) }

  /** fmt's %-*s: padded with blanks up to the width. */
  function Pad(s: string, width: int): string {
    if |s| < width then s + Repeat(' ', width - |s|) else s
  }

  function Border(widths: seq<int>): string
    requires forall c :: 0 <= c < |widths| ==> widths[c] >= 0
  {
    if widths == [] then "+"
    else Border(widths[..|widths| - 1]) + Repeat('-', widths[|widths| - 1] + 2) + "+"
  }

  lemma {:induction false} BorderWidth(widths: seq<int>)
    requires forall c :: 0 <= c < |widths| ==> widths[c] >= 0
    ensures |Border(widths)| == TableWidth(widths)
  {
    if widths != [] { BorderWidth(widths[..|widths| - 1]); }
  }

  /** One physical line of a row, undecorated. */
  function RowLine(row: Grid, widths: seq<int>, li: nat): string
    requires |row| == |widths|
  {
    if row == [] then "|"
    else
      var c := |row| - 1;
      RowLine(row[..c], widths[..c], li) + " " + Pad(if li < |row[c]| then row[c][li] else "", widths[c]) + " |"
  }

  lemma {:induction false} RowLineWidth(row: Grid, widths: seq<int>, li: nat)
    requires GridFits(row, widths) && forall c :: 0 <= c < |widths| ==> widths[c] >= 0
    ensures |RowLine(row, widths, li)| == TableWidth(widths)
  {
    if row != [] {
      var c := |row| - 1;
      RowLineWidth(row[..c], widths[..c], li);
      assert Fits(row[c], widths[c]);
    }
  }

  ghost predicate Even(lines: seq<string>, width: int) {
    forall i :: 0 <= i < |lines| ==> |lines[i]| == width
  }

  /** The number of lines of the tallest cell, at least one. */
  function Tallest(row: Grid): (h: nat)
    ensures h >= 1 && forall c :: 0 <= c < |row| ==> |row[c]| <= h
    ensures h == 1 || exists c :: 0 <= c < |row| && |row[c]| == h
  {
    if row == [] then 1
    else
      var h, n := Tallest(row[..|row| - 1]), |row[|row| - 1]|;
      if n > h then n else h
  }

  function FirstLines(row: Grid, widths: seq<int>, n: nat): (lines: seq<string>)
    requires |row| == |widths|
    ensures |lines| == n
  {
    if n == 0 then [] else FirstLines(row, widths, n - 1) + [RowLine(row, widths, n - 1)]
  }

  method Height(row: Grid) returns (h: nat)
    ensures h == Tallest(row)
  {
    h := 1;
    for c := 0 to |row|
      invariant h == Tallest(row[..c])
    {
      assert row[..c + 1][..c] == row[..c];
      if |row[c]| > h {
        h := |row[c]|;
      }
    }
    assert row[..|row|] == row;
  }

  /** tableWriter.row: one physical line for each line of the tallest cell. */
  method Row(row: Grid, widths: seq<int>) returns (lines: seq<string>)
    requires |row| == |widths|
    ensures lines == FirstLines(row, widths, Tallest(row))
    ensures GridFits(row, widths) ==> BlockReads(lines, row, widths)
  {
    if GridFits(row, widths) { RowBlockReads(row, widths); }
    var h := Height(row);
    lines := [];
    for li := 0 to h
      invariant lines == FirstLines(row, widths, li)
    {
      lines := lines + [RowLine(row, widths, li)];
    }
  }

  lemma EvenSnoc(lines: seq<string>, line: string, width: int)
    requires Even(lines, width) && |line| == width
    ensures Even(lines + [line], width)
  {}

  lemma {:induction false} FirstLinesEven(row: Grid, widths: seq<int>, n: nat, width: int)
    requires |row| == |widths| && forall li: nat :: |RowLine(row, widths, li)| == width
    ensures Even(FirstLines(row, widths, n), width)
  {
    if n > 0 {
      FirstLinesEven(row, widths, n - 1, width);
      EvenSnoc(FirstLines(row, widths, n - 1), RowLine(row, widths, n - 1), width);
    }
  }

  lemma LinesEven(row: Grid, widths: seq<int>, n: nat)
    requires GridFits(row, widths) && forall c :: 0 <= c < |widths| ==> widths[c] >= 0
    ensures Even(FirstLines(row, widths, n), TableWidth(widths))
  {
    forall li: nat ensures |RowLine(row, widths, li)| == TableWidth(widths) { RowLineWidth(row, widths, li); }
    FirstLinesEven(row, widths, n, TableWidth(widths));
  }

  ghost predicate Ruled(body: seq<Grid>, columns: nat) {
    forall r :: 0 <= r < |body| ==> |body[r]| == columns
  }

  /** The physical lines of the first n rows. */
  ghost function BodyLines(body: seq<Grid>, widths: seq<int>, n: nat): seq<string>
    requires n <= |body| && Ruled(body, |widths|)
  {
    if n == 0 then []
    else BodyLines(body, widths, n - 1) + FirstLines(body[n - 1], widths, Tallest(body[n - 1]))
  }

  lemma {:induction false} BodyEven(body: seq<Grid>, widths: seq<int>, n: nat)
    requires n <= |body| && Ruled(body, |widths|) && forall r :: 0 <= r < |body| ==> GridFits(body[r], widths)
    requires forall c :: 0 <= c < |widths| ==> widths[c] >= 0
    ensures Even(BodyLines(body, widths, n), TableWidth(widths))
  {
    if n > 0 {
      BodyEven(body, widths, n - 1);
      LinesEven(body[n - 1], widths, Tallest(body[n - 1]));
    }
  }

  ghost predicate Roomy(cols: seq<string>, l: Layout) {
    l.minWidth >= 1 && l.fitWidth >= 1 + |cols| * (l.minWidth + 3)
  }

  lemma {:induction false} SumMonotone(a: seq<int>, b: seq<int>)
    requires |a| == |b| && forall c :: 0 <= c < |a| ==> a[c] <= b[c]
    ensures Sum(a) <= Sum(b)
  {
    if a != [] { SumMonotone(a[..|a| - 1], b[..|b| - 1]); }
  }

  ghost predicate IsAssigned(natural: seq<int>, l: Layout, target: seq<int>) {
    if l.fitWidth > 0 then IsShrunk(natural, l.fitWidth, l.minWidth, target) else target == natural
  }

  /** The widths to wrap to: natural, or shrunk to the fitting width. */
  method AssignWidths(cols: seq<string>, texts: Cells, natural: seq<int>, l: Layout) returns (target: seq<int>)
    requires Measured(cols, texts, natural)
    ensures |target| == |cols| && IsAssigned(natural, l, target)
    ensures l.fitWidth > 0 && Roomy(cols, l) ==> Suits(cols, texts, target) && TableWidth(target) <= l.fitWidth
    ensures l.fitWidth > 0 && Roomy(cols, l) && TableWidth(natural) > l.fitWidth ==> TableWidth(target) == l.fitWidth
    ensures l.fitWidth <= 0 || TableWidth(natural) <= l.fitWidth ==> target == natural
  {
    target := natural;
    NaturalSuits(cols, texts, natural);
    if l.fitWidth > 0 {
      target := Shrink(natural, l.fitWidth, l.minWidth);
      if Roomy(cols, l) && TableWidth(natural) > l.fitWidth {
        ShrunkSuits(cols, texts, natural, l, target);
      }
    }
  }

  lemma NaturalSuits(cols: seq<string>, texts: Cells, natural: seq<int>)
    requires Measured(cols, texts, natural)
    ensures Suits(cols, texts, natural)
  {
    forall c | 0 <= c < |cols| ensures Cuttable(cols[c], natural[c]) {
      if natural[c] == 0 { assert cols[c] == []; }
    }
  }

  lemma ShrunkSuits(cols: seq<string>, texts: Cells, natural: seq<int>, l: Layout, target: seq<int>)
    requires Measured(cols, texts, natural) && Roomy(cols, l) && TableWidth(natural) > l.fitWidth && |cols| > 0
    requires IsShrunk(natural, l.fitWidth, l.minWidth, target)
    ensures Suits(cols, texts, target) && TableWidth(target) == l.fitWidth
  {
    RoomShrinks(natural, l.fitWidth, l.minWidth, target);
    NaturalSuits(cols, texts, natural);
    CutColumns(cols, texts, natural, target);
  }

  lemma CutColumns(cols: seq<string>, texts: Cells, natural: seq<int>, target: seq<int>)
    requires Suits(cols, texts, natural) && |target| == |natural|
    requires forall c :: 0 <= c < |target| ==> target[c] >= 1 || target[c] == natural[c]
    ensures Suits(cols, texts, target)
  {
    forall r, c | 0 <= r < |texts| && 0 <= c < |cols| ensures Cuttable(texts[r][c], target[c]) {
      assert Cuttable(texts[r][c], natural[c]);
    }
  }

  /** The laid-out cells behind a table. */
  datatype Sheet = Sheet(texts: Cells, natural: seq<int>, target: seq<int>, header: Grid, body: seq<Grid>, widths: seq<int>) {
    ghost predicate Shaped() {
      |header| == |widths| && Ruled(body, |widths|) && forall c :: 0 <= c < |widths| ==> widths[c] >= 0
    }

    /** Every cell fits its column and shows its text. */
    ghost predicate Filled(cols: seq<string>, compact: bool) {
      && |texts| == |body|
      && GridFits(header, widths) && RowShows(cols, header, target, compact)
      && LaidOut(body, texts, widths, target, compact) && Tight(header, body, widths)
    }

    /** The cells were cut to widths assigned from the measured ones. */
    ghost predicate Assigned(cols: seq<string>, l: Layout) {
      Measured(cols, texts, natural) && IsAssigned(natural, l, target)
    }

    /** The texts are those of the rows, cell by cell. */
    ghost predicate Renders(cols: seq<string>, rows: Cells, l: Layout, placeholder: string -> string) {
      |texts| == |rows| &&
      forall r, c :: 0 <= r < |rows| && 0 <= c < |cols| ==>
        |texts[r]| == |cols| && texts[r][c] == CellText(rows[r], c, l, placeholder)
    }
  }

  /** Border, header, border, rows, border. */
  function Framed(border: string, head: seq<string>, body: seq<string>): seq<string> {
    [border] + head + [border] + body + [border]
  }

  lemma FramedEven(border: string, head: seq<string>, body: seq<string>, width: int)
    requires |border| == width && Even(head, width) && Even(body, width)
    ensures Even(Framed(border, head, body), width)
  {}

  ghost function TableLines(t: Sheet): seq<string>
    requires t.Shaped()
  {
    Framed(Border(t.widths), FirstLines(t.header, t.widths, Tallest(t.header)), BodyLines(t.body, t.widths, |t.body|))
  }

  lemma TableEven(t: Sheet)
    requires t.Shaped() && GridFits(t.header, t.widths)
    requires forall r :: 0 <= r < |t.body| ==> GridFits(t.body[r], t.widths)
    ensures Even(TableLines(t), TableWidth(t.widths))
  {
    BorderWidth(t.widths);
    LinesEven(t.header, t.widths, Tallest(t.header));
    BodyEven(t.body, t.widths, |t.body|);
    FramedEven(Border(t.widths), FirstLines(t.header, t.widths, Tallest(t.header)), BodyLines(t.body, t.widths, |t.body|),
               TableWidth(t.widths));
  }

  // ------------------------------------------------------- reading the lines

  ghost function CellOf(row: Grid, widths: seq<int>, li: nat, c: nat): string
    requires c < |row| == |widths|
  {
    " " + Pad(LineOf(row[c], li), widths[c]) + " |"
  }

  /** Blanks make up the width. */
  lemma CellOfReads(row: Grid, widths: seq<int>, li: nat, c: nat)
    requires GridFits(row, widths) && c < |row|
    ensures IsCell(CellOf(row, widths, li, c), LineOf(row[c], li), widths[c])
  {
    assert Fits(row[c], widths[c]) && |row[c][0]| <= widths[c];
    var text := LineOf(row[c], li);
    var blanks := Repeat(' ', widths[c] - |text|);
    assert AllOf(blanks, ' ') && Pad(text, widths[c]) == text + blanks;
    assert " " + (text + blanks) + " |" == " " + text + blanks + " |";
  }

  lemma RowLineNext(row: Grid, widths: seq<int>, li: nat, n: nat)
    requires n < |row| == |widths|
    ensures RowLine(row[..n + 1], widths[..n + 1], li) == RowLine(row[..n], widths[..n], li) + CellOf(row, widths, li, n)
  {
    TakeTake(row, n);
    TakeTake(widths, n);
    Append3(RowLine(row[..n], widths[..n], li), " ", Pad(LineOf(row[n], li), widths[n]), " |");
  }

  lemma TakeTake<T>(s: seq<T>, n: nat)
    requires n < |s|
    ensures s[..n + 1][..n] == s[..n]
  {}

  lemma Append3(s: string, a: string, b: string, c: string)
    ensures s + a + b + c == s + (a + b + c)
  {
    ConcatAssociative(s, a + b, c);
    ConcatAssociative(s, a, b);
  }

  /** Appending the pieces one by one puts them together. */
  lemma {:induction false} Built<T>(built: nat -> seq<T>, pieces: seq<seq<T>>, n: nat)
    requires n <= |pieces| && forall k :: 0 <= k < |pieces| ==> built(k + 1) == built(k) + pieces[k]
    ensures built(n) == built(0) + Flatten(pieces[..n])
  {
    if n > 0 {
      Built(built, pieces, n - 1);
      FlattenTake(pieces, n - 1);
      ConcatAssociative(built(0), Flatten(pieces[..n - 1]), pieces[n - 1]);
    }
  }

  lemma LineOfCells(row: Grid, widths: seq<int>, li: nat, cells: seq<string>)
    requires |row| == |widths| == |cells|
    requires forall c :: 0 <= c < |row| ==> cells[c] == CellOf(row, widths, li, c)
    ensures RowLine(row, widths, li) == "|" + Flatten(cells)
  {
    var built := (k: nat) => if k <= |row| then RowLine(row[..k], widths[..k], li) else "";
    forall k | 0 <= k < |cells| ensures built(k + 1) == built(k) + cells[k] { RowLineNext(row, widths, li, k); }
    Built(built, cells, |row|);
    Whole(row);
    Whole(widths);
    Whole(cells);
  }

  lemma Whole<T>(s: seq<T>)
    ensures s[..|s|] == s
  {}

  lemma RowLineReads(row: Grid, widths: seq<int>, li: nat)
    requires GridFits(row, widths)
    ensures RowReads(RowLine(row, widths, li), row, widths, li)
  {
    var cells := seq(|row|, c requires 0 <= c < |row| => CellOf(row, widths, li, c));
    forall c | 0 <= c < |cells| ensures IsCell(cells[c], LineOf(row[c], li), widths[c]) { CellOfReads(row, widths, li, c); }
    LineOfCells(row, widths, li, cells);
    assert AreCells(cells, row, widths, li);
  }

  ghost function RuleOf(width: int): string
    requires width >= 0
  {
    Repeat('-', width + 2) + "+"
  }

  lemma RuleOfReads(width: int)
    requires width >= 0
    ensures IsRule(RuleOf(width), width)
  {
    assert AllOf(Repeat('-', width + 2), '-');
  }

  lemma BorderNext(widths: seq<int>, n: nat)
    requires n < |widths| && forall c :: 0 <= c < |widths| ==> widths[c] >= 0
    ensures Border(widths[..n + 1]) == Border(widths[..n]) + RuleOf(widths[n])
  {
    assert widths[..n + 1][..n] == widths[..n];
  }

  lemma BorderOfRules(widths: seq<int>, rules: seq<string>)
    requires |widths| == |rules| && forall c :: 0 <= c < |widths| ==> widths[c] >= 0
    requires forall c :: 0 <= c < |widths| ==> rules[c] == RuleOf(widths[c])
    ensures Border(widths) == "+" + Flatten(rules)
  {
    var built := (k: nat) => if k <= |widths| then Border(widths[..k]) else "";
    forall k | 0 <= k < |rules| ensures built(k + 1) == built(k) + rules[k] { BorderNext(widths, k); }
    Built(built, rules, |widths|);
    Whole(widths);
    Whole(rules);
  }

  lemma BorderLineReads(widths: seq<int>)
    requires forall c :: 0 <= c < |widths| ==> widths[c] >= 0
    ensures BorderReads(Border(widths), widths)
  {
    var rules := seq(|widths|, c requires 0 <= c < |widths| => RuleOf(widths[c]));
    forall c | 0 <= c < |rules| ensures IsRule(rules[c], widths[c]) { RuleOfReads(widths[c]); }
    BorderOfRules(widths, rules);
    assert AreRules(rules, widths);
  }

  lemma {:induction false} FirstLinesAre(row: Grid, widths: seq<int>, n: nat, li: nat)
    requires |row| == |widths| && li < n
    ensures FirstLines(row, widths, n)[li] == RowLine(row, widths, li)
  {
    if li < n - 1 { FirstLinesAre(row, widths, n - 1, li); }
  }

  lemma RowBlockReads(row: Grid, widths: seq<int>)
    requires GridFits(row, widths)
    ensures BlockReads(FirstLines(row, widths, Tallest(row)), row, widths)
  {
    var lines := FirstLines(row, widths, Tallest(row));
    forall li | 0 <= li < |lines| ensures RowReads(lines[li], row, widths, li) {
      FirstLinesAre(row, widths, Tallest(row), li);
      RowLineReads(row, widths, li);
    }
    assert IsHeight(|lines|, row);
  }

  lemma {:induction false} BodyOfBlocks(body: seq<Grid>, widths: seq<int>, blocks: seq<seq<string>>, n: nat)
    requires n <= |body| == |blocks| && Ruled(body, |widths|)
    requires forall r :: 0 <= r < |body| ==> blocks[r] == FirstLines(body[r], widths, Tallest(body[r]))
    ensures BodyLines(body, widths, n) == Flatten(blocks[..n])
  {
    if n > 0 {
      BodyOfBlocks(body, widths, blocks, n - 1);
      FlattenTake(blocks, n - 1);
    }
  }

  lemma BodyLinesRead(body: seq<Grid>, widths: seq<int>) returns (blocks: seq<seq<string>>)
    requires Ruled(body, |widths|) && forall r :: 0 <= r < |body| ==> GridFits(body[r], widths)
    ensures BodyLines(body, widths, |body|) == Flatten(blocks) && BlocksRead(blocks, body, widths)
  {
    blocks := seq(|body|, r requires 0 <= r < |body| => FirstLines(body[r], widths, Tallest(body[r])));
    forall r | 0 <= r < |body| ensures BlockReads(blocks[r], body[r], widths) { RowBlockReads(body[r], widths); }
    BodyOfBlocks(body, widths, blocks, |body|);
    assert blocks[..|body|] == blocks;
  }

  /** The lines of a filled sheet read as its header and its rows. */
  lemma SheetReads(t: Sheet)
    requires t.Shaped() && GridFits(t.header, t.widths)
    requires forall r :: 0 <= r < |t.body| ==> GridFits(t.body[r], t.widths)
    ensures TableReads(TableLines(t), t.header, t.body, t.widths)
  {
    BorderLineReads(t.widths);
    RowBlockReads(t.header, t.widths);
    var blocks := BodyLinesRead(t.body, t.widths);
    assert Parts(TableLines(t), Border(t.widths), FirstLines(t.header, t.widths, Tallest(t.header)), blocks,
                 t.header, t.body, t.widths);
  }

  /** measure, fit, wrap. */
  method LayOut(cols: seq<string>, rows: Cells, l: Layout, placeholder: string -> string) returns (t: Sheet)
    ensures t.Shaped() && t.Filled(cols, l.compact) && t.Assigned(cols, l) && t.Renders(cols, rows, l, placeholder)
    ensures l.fitWidth > 0 && Roomy(cols, l) ==> TableWidth(t.widths) <= l.fitWidth
  {
    var texts, natural := TableCells(cols, rows, l, placeholder);
    var target := AssignWidths(cols, texts, natural, l);
    var header, body, widths := WrapTableCells(cols, texts, target, l.compact);
    if l.fitWidth > 0 && Roomy(cols, l) { SumMonotone(widths, target); }
    t := Sheet(texts, natural, target, header, body, widths);
  }

  method EmitRows(body: seq<Grid>, widths: seq<int>) returns (lines: seq<string>)
    requires Ruled(body, |widths|)
    ensures lines == BodyLines(body, widths, |body|)
  {
    lines := [];
    for r := 0 to |body|
      invariant lines == BodyLines(body, widths, r)
    {
      var more := Row(body[r], widths);
      lines := lines + more;
    }
  }

  method Emit(t: Sheet) returns (lines: seq<string>)
    requires t.Shaped()
    ensures lines == TableLines(t)
  {
    var border := Border(t.widths);
    var head := Row(t.header, t.widths);
    var rows := EmitRows(t.body, t.widths);
    lines := Framed(border, head, rows);
  }

  /** The lines picture the rows: they are those of a sheet that shows every row's
      cells, each as wide as the sheet, which fits when there is room. */
  ghost predicate Pictures(lines: seq<string>, t: Sheet, cols: seq<string>, rows: Cells, l: Layout, placeholder: string -> string) {
    && t.Shaped() && t.Filled(cols, l.compact) && t.Assigned(cols, l) && t.Renders(cols, rows, l, placeholder)
    && TableReads(lines, t.header, t.body, t.widths) && Even(lines, TableWidth(t.widths))
    && (l.fitWidth > 0 && Roomy(cols, l) ==> TableWidth(t.widths) <= l.fitWidth)
  }

  /** writeTable: every undecorated line has the same width, and when there is room
      for the columns' floors that width is at most the fitting width. */
  method WriteTable(cols: seq<string>, rows: Cells, l: Layout, placeholder: string -> string) returns (lines: seq<string>)
    ensures exists t :: Pictures(lines, t, cols, rows, l, placeholder)
  {
    var t := LayOut(cols, rows, l, placeholder);
    lines := Emit(t);
    TableEven(t);
    SheetReads(t);
    assert Pictures(lines, t, cols, rows, l, placeholder);
  }
}
