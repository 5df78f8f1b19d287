/** What the printed lines of a table hold, and where. */
module TableText {
  import opened Basics

  /** A row of cells, each a list of physical lines. */
  type Grid = seq<seq<string>>

  ghost predicate AllOf(s: string, mark: char) { forall i :: 0 <= i < |s| ==> s[i] == mark }

  /** A blank, the text, blanks up to the width, a blank and the bar. */
  ghost predicate IsCell(cell: string, text: string, width: int) {
    exists blanks :: AllOf(blanks, ' ') && |text| + |blanks| == width && cell == " " + text + blanks + " |"
  }

  /** Dashes under a column and its two blanks, and the corner. */
  ghost predicate IsRule(rule: string, width: int) {
    exists dashes :: AllOf(dashes, '-') && |dashes| == width + 2 && rule == dashes + "+"
  }

  /** Line li of a cell, or nothing past its last one. */
  ghost function LineOf(cell: seq<string>, li: nat): string {
    if li < |cell| then cell[li] else ""
  }

  ghost predicate AreCells(cells: seq<string>, row: Grid, widths: seq<int>, li: nat) {
    |cells| == |row| == |widths| && forall c :: 0 <= c < |cells| ==> IsCell(cells[c], LineOf(row[c], li), widths[c])
  }

  ghost predicate AreRules(rules: seq<string>, widths: seq<int>) {
    |rules| == |widths| && forall c :: 0 <= c < |rules| ==> IsRule(rules[c], widths[c])
  }

  /** A bar, and line li of every cell in turn. */
  ghost predicate RowReads(line: string, row: Grid, widths: seq<int>, li: nat) {
    exists cells :: AreCells(cells, row, widths, li) && line == "|" + Flatten(cells)
  }

  /** A corner, and the dashes of every column in turn. */
  ghost predicate BorderReads(line: string, widths: seq<int>) {
    exists rules :: AreRules(rules, widths) && line == "+" + Flatten(rules)
  }

  /** As high as the row's tallest cell, and one at least. */
  ghost predicate IsHeight(h: nat, row: Grid) {
    h >= 1 && (forall c :: 0 <= c < |row| ==> |row[c]| <= h) && (h == 1 || exists c :: 0 <= c < |row| && |row[c]| == h)
  }

  /** All the lines of one row. */
  ghost predicate BlockReads(lines: seq<string>, row: Grid, widths: seq<int>) {
    IsHeight(|lines|, row) && forall li :: 0 <= li < |lines| ==> RowReads(lines[li], row, widths, li)
  }

  ghost predicate BlocksRead(blocks: seq<seq<string>>, body: seq<Grid>, widths: seq<int>) {
    |blocks| == |body| && forall r :: 0 <= r < |body| ==> BlockReads(blocks[r], body[r], widths)
  }

  /** Border, header, border, the rows in order, border, and no other line. */
  ghost predicate TableReads(lines: seq<string>, header: Grid, body: seq<Grid>, widths: seq<int>) {
    exists border, head, blocks :: Parts(lines, border, head, blocks, header, body, widths)
  }

  ghost predicate Parts(lines: seq<string>, border: string, head: seq<string>, blocks: seq<seq<string>>, header: Grid,
                        body: seq<Grid>, widths: seq<int>)
  {
    && BorderReads(border, widths) && BlockReads(head, header, widths) && BlocksRead(blocks, body, widths)
    && lines == [border] + head + [border] + Flatten(blocks) + [border]
  }

  // ------------------------------------------------------------------ places

  /** Where piece k begins when the pieces are put together. */
  ghost function Before<T>(pieces: seq<seq<T>>, k: nat): nat
    requires k <= |pieces|
  {
    if k == 0 then 0 else Before(pieces, k - 1) + |pieces[k - 1]|
  }

  lemma {:induction false} BeforeIsLength<T>(pieces: seq<seq<T>>, k: nat)
    requires k <= |pieces|
    ensures Before(pieces, k) == |Flatten(pieces[..k])|
  {
    if k > 0 {
      BeforeIsLength(pieces, k - 1);
      assert pieces[..k][..k - 1] == pieces[..k - 1];
    }
  }

  lemma SliceInside<T>(front: seq<T>, s: seq<T>, back: seq<T>, from: nat, to: nat)
    requires from <= to <= |s|
    ensures (front + s + back)[|front| + from..|front| + to] == s[from..to]
  {}

  lemma FlattenAround<T>(pieces: seq<seq<T>>, k: nat)
    requires k < |pieces|
    ensures Flatten(pieces) == Flatten(pieces[..k]) + pieces[k] + Flatten(pieces[k + 1..])
  {
    FlattenSnoc(pieces[..k], pieces[k]);
    FlattenConcat(pieces[..k] + [pieces[k]], pieces[k + 1..]);
    assert pieces == pieces[..k] + [pieces[k]] + pieces[k + 1..];
  }

  lemma PieceStands<T>(pieces: seq<seq<T>>, k: nat)
    requires k < |pieces|
    ensures Before(pieces, k) + |pieces[k]| <= |Flatten(pieces)|
    ensures Flatten(pieces)[Before(pieces, k)..Before(pieces, k) + |pieces[k]|] == pieces[k]
  {
    BeforeIsLength(pieces, k);
    FlattenAround(pieces, k);
    SliceInside(Flatten(pieces[..k]), pieces[k], Flatten(pieces[k + 1..]), 0, |pieces[k]|);
    assert pieces[k][0..] == pieces[k];
  }

  /** Where column c begins: behind the first bar, the widths before it, and two
      blanks and a bar for each of them. */
  ghost function ColumnAt(widths: seq<int>, c: nat): int
    requires c <= |widths|
  {
    if c == 0 then 1 else ColumnAt(widths, c - 1) + widths[c - 1] + 3
  }

  ghost predicate Wide(cells: seq<string>, widths: seq<int>) {
    |cells| == |widths| && forall c :: 0 <= c < |cells| ==> |cells[c]| == widths[c] + 3
  }

  lemma CellsAreWide(cells: seq<string>, row: Grid, widths: seq<int>, li: nat)
    requires AreCells(cells, row, widths, li)
    ensures Wide(cells, widths)
  {
    forall c | 0 <= c < |cells| ensures |cells[c]| == widths[c] + 3 { assert IsCell(cells[c], LineOf(row[c], li), widths[c]); }
  }

  lemma {:induction false} CellsBefore(cells: seq<string>, widths: seq<int>, c: nat)
    requires Wide(cells, widths) && c <= |cells|
    ensures ColumnAt(widths, c) == 1 + Before(cells, c)
  {
    if c > 0 { CellsBefore(cells, widths, c - 1); }
  }

  lemma CellAt(cells: seq<string>, widths: seq<int>, c: nat)
    requires Wide(cells, widths) && c < |cells|
    ensures 0 <= ColumnAt(widths, c) <= ColumnAt(widths, c + 1) <= 1 + |Flatten(cells)|
    ensures ("|" + Flatten(cells))[ColumnAt(widths, c)..ColumnAt(widths, c + 1)] == cells[c]
  {
    CellsBefore(cells, widths, c);
    PieceStands(cells, c);
    var at, line := Before(cells, c), "|" + Flatten(cells);
    SliceInside("|", Flatten(cells), [], at, at + |cells[c]|);
    assert line + [] == line;
  }

  /** Cell c of a line stands at its column's offset, which the widths give. */
  lemma CellStandsAt(line: string, row: Grid, widths: seq<int>, li: nat, c: nat)
    requires RowReads(line, row, widths, li) && c < |row|
    ensures |row| == |widths| && 0 <= ColumnAt(widths, c) <= ColumnAt(widths, c + 1) <= |line|
    ensures IsCell(line[ColumnAt(widths, c)..ColumnAt(widths, c + 1)], LineOf(row[c], li), widths[c])
  {
    var cells :| AreCells(cells, row, widths, li) && line == "|" + Flatten(cells);
    CellsAreWide(cells, row, widths, li);
    CellAt(cells, widths, c);
  }

  /** How many lines the first n rows take, the heights being those of the rows. */
  ghost function Above(heights: seq<nat>, n: nat): nat
    requires n <= |heights|
  {
    if n == 0 then 0 else Above(heights, n - 1) + heights[n - 1]
  }

  ghost predicate AreHeights(heights: seq<nat>, body: seq<Grid>) {
    |heights| == |body| && forall r :: 0 <= r < |body| ==> IsHeight(heights[r], body[r])
  }

  ghost predicate High(blocks: seq<seq<string>>, heights: seq<nat>) {
    |blocks| == |heights| && forall r :: 0 <= r < |blocks| ==> |blocks[r]| == heights[r]
  }

  lemma BlocksAreHigh(blocks: seq<seq<string>>, body: seq<Grid>, widths: seq<int>, heights: seq<nat>)
    requires BlocksRead(blocks, body, widths) && AreHeights(heights, body)
    ensures High(blocks, heights)
  {
    forall r | 0 <= r < |blocks| ensures |blocks[r]| == heights[r] {
      assert BlockReads(blocks[r], body[r], widths);
      OneHeight(heights[r], |blocks[r]|, body[r]);
    }
  }

  lemma {:induction false} BlocksBefore(blocks: seq<seq<string>>, heights: seq<nat>, r: nat)
    requires High(blocks, heights) && r <= |blocks|
    ensures Above(heights, r) == Before(blocks, r)
  {
    if r > 0 { BlocksBefore(blocks, heights, r - 1); }
  }

  lemma OneHeight(h: nat, k: nat, row: Grid)
    requires IsHeight(h, row) && IsHeight(k, row)
    ensures h == k
  {}

  /** Row r of a table stands below the header and the rows before it. */
  lemma RowStandsAt(lines: seq<string>, header: Grid, body: seq<Grid>, widths: seq<int>, h: nat, heights: seq<nat>, r: nat)
    requires TableReads(lines, header, body, widths) && IsHeight(h, header) && AreHeights(heights, body) && r < |body|
    ensures h + 2 + Above(heights, r + 1) < |lines|
    ensures BlockReads(lines[h + 2 + Above(heights, r)..h + 2 + Above(heights, r + 1)], body[r], widths)
  {
    var border, head, blocks :| Parts(lines, border, head, blocks, header, body, widths);
    OneHeight(h, |head|, header);
    BlocksAreHigh(blocks, body, widths, heights);
    BlocksBefore(blocks, heights, r);
    PieceStands(blocks, r);
    BlockStands([border] + head + [border], blocks, [border], r);
  }

  lemma BlockStands(front: seq<string>, blocks: seq<seq<string>>, back: seq<string>, r: nat)
    requires r < |blocks|
    ensures Before(blocks, r) + |blocks[r]| <= |Flatten(blocks)|
    ensures var at := |front| + Before(blocks, r); (front + Flatten(blocks) + back)[at..at + |blocks[r]|] == blocks[r]
  {
    PieceStands(blocks, r);
    SliceInside(front, Flatten(blocks), back, Before(blocks, r), Before(blocks, r) + |blocks[r]|);
  }
}
