/**
 The frame differ of internal/watch/diff.go: rows are matched by identity
 between one refresh and the next, not by position.
 */
module TableDiff {
  import Text

  /** A row as rendered; it may be shorter than the column list. */
  type Row = seq<string>

  datatype TableState = TableState(signature: string, order: seq<string>, cells: map<string, seq<string>>)

  datatype CellStyle = Plain | Changed | Added | Removed

  // --------------------------------------------------------------- snapshot

  /** strings.Join(cols, "\x00"). */
  function Signature(cols: seq<string>): string {
    Text.Join(cols, '\0')
  }

  function LowerAscii(c: char): char {
    if 'A' <= c <= 'Z' then ((c as int) + 32) as char else c
  }

  /** strings.EqualFold against an ASCII word without 'k' or 's'. */
  predicate EqualFold(a: string, b: string) {
    |a| == |b| && forall i :: 0 <= i < |a| ==> LowerAscii(a[i]) == LowerAscii(b[i])
  }

  /** The first column spelled `want`, or -1. */
  function FindColumn(cols: seq<string>, want: string, from: nat): (k: int)
    requires from <= |cols|
    ensures k == -1 || (from <= k < |cols| && EqualFold(cols[k], want))
    ensures forall j :: from <= j < (if k == -1 then |cols| else k) ==> !EqualFold(cols[j], want)
    decreases |cols| - from
  {
    if from == |cols| then -1 else if EqualFold(cols[from], want) then from else FindColumn(cols, want, from + 1)
  }

  function KeyColumn(cols: seq<string>): (k: int)
    ensures -1 <= k < |cols|
  {
    var id := FindColumn(cols, "ID", 0);
    if id >= 0 then id
    else
      var name := FindColumn(cols, "Name", 0);
      if name >= 0 then name
      else if |cols| == 2 && EqualFold(cols[0], "Field") then 0 else -1
  }

  /** The cells compared: one per column, missing ones empty. */
  function RowCells(cols: seq<string>, row: Row): seq<string> {
    seq(|cols|, j => if 0 <= j < |row| then row[j] else "")
  }

  function Decimal(n: nat): (s: string)
    ensures s != []
  {
    if n < 10 then [('0' as int + n) as char] else Decimal(n / 10) + [('0' as int + n % 10) as char]
  }

  function PositionKey(pos: nat): string { "#" + Decimal(pos) }

  function RowKey(cells: seq<string>, key: int, pos: nat): string {
    if key < 0 || key >= |cells| || cells[key] == "" then PositionKey(pos) else "k:" + cells[key]
  }

  /** The identity a row gets: its key, or its position if the key is taken. */
  function Identity(cols: seq<string>, s: TableState, row: Row, pos: nat): string {
    var id := RowKey(RowCells(cols, row), KeyColumn(cols), pos);
    if id in s.cells then PositionKey(pos) else id
  }

  function AddRow(cols: seq<string>, s: TableState, row: Row, pos: nat): TableState {
    var id := Identity(cols, s, row, pos);
    s.(order := s.order + [id], cells := s.cells[id := RowCells(cols, row)])
  }

  function Snapshot(cols: seq<string>, rows: seq<Row>): TableState {
    if rows == [] then TableState(Signature(cols), [], map[])
    else AddRow(cols, Snapshot(cols, rows[..|rows| - 1]), rows[|rows| - 1], |rows| - 1)
  }

  method TakeSnapshot(cols: seq<string>, rows: seq<Row>) returns (s: TableState)
    ensures s == Snapshot(cols, rows)
  {
    var key := KeyColumn(cols);
    s := TableState(Signature(cols), [], map[]);
    for i := 0 to |rows|
      invariant s == Snapshot(cols, rows[..i])
    {
      var cells := RowCells(cols, rows[i]);
      var id := RowKey(cells, key, i);
      if id in s.cells {
        id := PositionKey(i);
      }
      assert rows[..i + 1][..i] == rows[..i];
      s := s.(order := s.order + [id], cells := s.cells[id := cells]);
    }
    assert rows[..|rows|] == rows;
  }

  // ------------------------------------------- row identities are distinct

  lemma {:induction false} DecimalInjective(m: nat, n: nat)
    requires Decimal(m) == Decimal(n)
    ensures m == n
  {
    var a, b := Decimal(m), Decimal(n);
    assert a[|a| - 1] == b[|b| - 1];
    if m >= 10 && n >= 10 {
      assert a[..|a| - 1] == Decimal(m / 10) && b[..|b| - 1] == Decimal(n / 10);
      DecimalInjective(m / 10, n / 10);
    }
  }

  lemma PositionKeyInjective(m: nat, n: nat)
    requires PositionKey(m) == PositionKey(n)
    ensures m == n
  {
    assert PositionKey(m)[1..] == Decimal(m) && PositionKey(n)[1..] == Decimal(n);
    DecimalInjective(m, n);
  }

  ghost predicate Distinct(order: seq<string>) {
    forall i, j :: 0 <= i < j < |order| ==> order[i] != order[j]
  }

  /** Every identity is a key or a position already passed. */
  ghost predicate IsIdentity(id: string, bound: nat) {
    (id != [] && id[0] == 'k') || exists p: nat :: p < bound && id == PositionKey(p)
  }

  /** The shape of every snapshot: one entry per row, `width` cells each. */
  ghost predicate Shaped(s: TableState, width: nat) {
    && Distinct(s.order)
    && (forall id :: id in s.order <==> id in s.cells)
    && (forall id :: id in s.cells ==> |s.cells[id]| == width)
  }

  lemma FreshIdentity(cols: seq<string>, s: TableState, row: Row, pos: nat)
    requires forall id :: id in s.cells ==> IsIdentity(id, pos)
    ensures Identity(cols, s, row, pos) !in s.cells
    ensures IsIdentity(Identity(cols, s, row, pos), pos + 1)
  {
    var id := Identity(cols, s, row, pos);
    if id == PositionKey(pos) {
      if id in s.cells {
        assert id[0] == '#';
        var p: nat :| p < pos && id == PositionKey(p);
        PositionKeyInjective(p, pos);
      }
    } else {
      assert id[0] == 'k';
    }
  }

  lemma {:induction false} SnapshotShaped(cols: seq<string>, rows: seq<Row>)
    ensures var s := Snapshot(cols, rows);
      && Shaped(s, |cols|) && |s.order| == |rows| && s.signature == Signature(cols)
      && forall id :: id in s.cells ==> IsIdentity(id, |rows|)
  {
    if rows != [] {
      var n := |rows| - 1;
      SnapshotShaped(cols, rows[..n]);
      var s := Snapshot(cols, rows[..n]);
      FreshIdentity(cols, s, rows[n], n);
      ShapedAdd(cols, s, rows[n], n);
    }
  }

  lemma ShapedAdd(cols: seq<string>, s: TableState, row: Row, pos: nat)
    requires Shaped(s, |cols|) && Identity(cols, s, row, pos) !in s.cells
    ensures Shaped(AddRow(cols, s, row, pos), |cols|)
  {
    var id, t := Identity(cols, s, row, pos), AddRow(cols, s, row, pos);
    assert t.order == s.order + [id];
    assert id !in s.order;
  }

  // --------------------------------------------------------- what changed is

  function At(cells: seq<string>, i: nat): string {
    if i < |cells| then cells[i] else ""
  }

  /** differs(): the cheap comparison taken when highlighting is off. */
  ghost predicate Differs(prev: TableState, cur: TableState) {
    || |prev.order| != |cur.order|
    || exists id :: id in cur.cells && (id !in prev.cells || cur.cells[id] != prev.cells[id])
  }

  ghost predicate Moved(width: nat, now: seq<string>, was: seq<string>) {
    exists i: nat :: i < width && At(now, i) != At(was, i)
  }

  /** What decorate() reports while it builds the styles for `width` columns. */
  ghost predicate DecorateSees(width: nat, prev: TableState, cur: TableState) {
    || (exists id :: id in cur.order && (id !in prev.cells || (id in cur.cells && Moved(width, cur.cells[id], prev.cells[id]))))
    || (exists id :: id in prev.order && id !in cur.cells)
  }

  ghost function AsSet(order: seq<string>): set<string> { set id | id in order }

  lemma {:induction false} DistinctCardinality(order: seq<string>)
    requires Distinct(order)
    ensures |AsSet(order)| == |order|
  {
    if order != [] {
      var n := |order| - 1;
      DistinctCardinality(order[..n]);
      assert AsSet(order) == AsSet(order[..n]) + {order[n]};
    }
  }

  lemma SubsetOfSameSize(a: set<string>, b: set<string>)
    requires a <= b && |a| == |b|
    ensures a == b
  {
    if x :| x in b && x !in a {
      assert a <= b - {x};
      SubsetSize(a, b - {x});
    }
  }

  lemma {:induction false} SubsetSize(a: set<string>, b: set<string>)
    requires a <= b
    ensures |a| <= |b|
  {
    if x :| x in a {
      SubsetSize(a - {x}, b - {x});
    }
  }

  /** Same number of rows and no new identity means no lost identity. */
  lemma NoneLost(prev: TableState, cur: TableState, w1: nat, w2: nat)
    requires Shaped(prev, w1) && Shaped(cur, w2) && |prev.order| == |cur.order|
    requires forall id :: id in cur.order ==> id in prev.cells
    ensures forall id :: id in prev.order ==> id in cur.cells
  {
    DistinctCardinality(prev.order);
    DistinctCardinality(cur.order);
    SubsetOfSameSize(AsSet(cur.order), AsSet(prev.order));
    forall id | id in prev.order ensures id in cur.cells {
      assert id in AsSet(cur.order);
    }
  }

  lemma NoneAdded(prev: TableState, cur: TableState, w1: nat, w2: nat)
    requires Shaped(prev, w1) && Shaped(cur, w2)
    requires forall id :: id in cur.order ==> id in prev.cells
    requires forall id :: id in prev.order ==> id in cur.cells
    ensures |prev.order| == |cur.order|
  {
    DistinctCardinality(prev.order);
    DistinctCardinality(cur.order);
    assert AsSet(cur.order) == AsSet(prev.order);
  }

  lemma MovedIsUnequal(width: nat, a: seq<string>, b: seq<string>)
    requires |a| == |b| == width
    ensures Moved(width, a, b) <==> a != b
  {
    if a != b {
      var i :| 0 <= i < width && a[i] != b[i];
      assert At(a, i) != At(b, i);
    }
  }

  /** The two ways of detecting a change agree on tables of the same width. */
  lemma SameVerdict(prev: TableState, cur: TableState, width: nat)
    requires Shaped(prev, width) && Shaped(cur, width)
    ensures DecorateSees(width, prev, cur) <==> Differs(prev, cur)
  {
    forall id | id in cur.cells && id in prev.cells
      ensures Moved(width, cur.cells[id], prev.cells[id]) <==> cur.cells[id] != prev.cells[id]
    {
      MovedIsUnequal(width, cur.cells[id], prev.cells[id]);
    }
    if !Differs(prev, cur) {
      forall id | id in cur.order ensures id in prev.cells { assert id in cur.cells; }
      NoneLost(prev, cur, width, width);
      assert !DecorateSees(width, prev, cur);
    }
    if !DecorateSees(width, prev, cur) {
      NoneAdded(prev, cur, width, width);
      forall id | id in cur.cells ensures id in prev.cells && cur.cells[id] == prev.cells[id] { assert id in cur.order; }
      assert !Differs(prev, cur);
    }
  }

  // -------------------------------------------- when signatures tell columns

  ghost predicate NulFree(cols: seq<string>) {
    cols != [] && forall i :: 0 <= i < |cols| ==> '\0' !in cols[i]
  }

  /** A non-empty list of NUL-free names is recovered from its signature. */
  lemma SignatureInjective(a: seq<string>, b: seq<string>)
    requires NulFree(a) && NulFree(b) && Signature(a) == Signature(b)
    ensures a == b
  {
    Text.SplitOfJoin(a, '\0');
    Text.SplitOfJoin(b, '\0');
  }

  /** The verdict does not depend on the highlight switch for any two tables
      with usable column lists and the same signature. */
  lemma VerdictIgnoresSwitch(cols: seq<string>, cols': seq<string>, rows: seq<Row>, rows': seq<Row>)
    requires NulFree(cols) && NulFree(cols') && Signature(cols) == Signature(cols')
    ensures DecorateSees(|cols'|, Snapshot(cols, rows), Snapshot(cols', rows'))
            <==> Differs(Snapshot(cols, rows), Snapshot(cols', rows'))
  {
    SignatureInjective(cols, cols');
    SnapshotShaped(cols, rows);
    SnapshotShaped(cols', rows');
    SameVerdict(Snapshot(cols, rows), Snapshot(cols', rows'), |cols|);
  }

  ghost predicate NulFreeNames(cols: seq<string>) {
    forall i :: 0 <= i < |cols| ==> '\0' !in cols[i]
  }

  /** NUL-free column lists share a signature only if they are the same, or one is
      empty and the other holds one nameless column. */
  lemma SignaturesClashExactly(a: seq<string>, b: seq<string>)
    requires NulFreeNames(a) && NulFreeNames(b)
    ensures Signature(a) == Signature(b) <==> a == b || (a == [] && b == [""]) || (a == [""] && b == [])
  {
    if a != [] { Text.SplitOfJoin(a, '\0'); }
    if b != [] { Text.SplitOfJoin(b, '\0'); }
  }

  /** Rows without a key column are known by their positions. */
  ghost predicate Positional(s: TableState, cols: seq<string>, rows: seq<Row>) {
    && |s.order| == |rows|
    && (forall i :: 0 <= i < |rows| ==> s.order[i] == PositionKey(i))
    && (forall i: nat :: PositionKey(i) in s.cells <==> i < |rows|)
    && (forall i: nat :: i < |rows| ==> s.cells[PositionKey(i)] == RowCells(cols, rows[i]))
    && (forall id :: id in s.cells ==> id in s.order)
  }

  lemma {:induction false} PositionalSnapshot(cols: seq<string>, rows: seq<Row>)
    requires KeyColumn(cols) == -1
    ensures Positional(Snapshot(cols, rows), cols, rows)
  {
    if rows != [] {
      PositionalSnapshot(cols, rows[..|rows| - 1]);
      PositionalAdd(cols, Snapshot(cols, rows[..|rows| - 1]), rows);
    }
  }

  lemma PositionalAdd(cols: seq<string>, s: TableState, rows: seq<Row>)
    requires KeyColumn(cols) == -1 && rows != [] && Positional(s, cols, rows[..|rows| - 1])
    ensures Positional(AddRow(cols, s, rows[|rows| - 1], |rows| - 1), cols, rows)
  {
    var n := |rows| - 1;
    var t := AddRow(cols, s, rows[n], n);
    assert Identity(cols, s, rows[n], n) == PositionKey(n);
    forall i: nat | i != n ensures PositionKey(i) != PositionKey(n) {
      if PositionKey(i) == PositionKey(n) { PositionKeyInjective(i, n); }
    }
  }

  /** A first cell that shows nothing. */
  predicate BlankFirst(row: Row) { row == [] || row[0] == "" }

  ghost predicate Clash(cols: seq<string>, cols': seq<string>) {
    (cols == [] && cols' == [""]) || (cols == [""] && cols' == [])
  }

  lemma ClashMoved(cols: seq<string>, cols': seq<string>, row: Row, row': Row)
    requires Clash(cols, cols')
    ensures Moved(|cols'|, RowCells(cols', row'), RowCells(cols, row)) <==> cols' == [""] && !BlankFirst(row')
  {
    if cols' == [""] {
      assert At(RowCells(cols', row'), 0) == if row' == [] then "" else row'[0];
      assert At(RowCells(cols, row), 0) == "";
    }
  }

  /** Positional tables of one length have the same identities. */
  lemma SamePositions(prev: TableState, cur: TableState, cols: seq<string>, cols': seq<string>, rows: seq<Row>, rows': seq<Row>)
    requires Positional(prev, cols, rows) && Positional(cur, cols', rows') && |rows| == |rows'|
    ensures forall id :: id in prev.order ==> id in cur.cells
    ensures forall id :: id in cur.order ==> id in prev.cells && exists i: nat :: i < |rows'| && id == PositionKey(i)
  {
    forall id | id in cur.order ensures id in prev.cells && exists i: nat :: i < |rows'| && id == PositionKey(i) {
      var i :| 0 <= i < |cur.order| && cur.order[i] == id;
      assert id == PositionKey(i);
    }
    forall id | id in prev.order ensures id in cur.cells {
      var i :| 0 <= i < |prev.order| && prev.order[i] == id;
      assert id == PositionKey(i);
    }
  }

  /** On a clash with as many rows the cheap comparison always reports a change. */
  lemma ClashDiffers(prev: TableState, cur: TableState, cols: seq<string>, cols': seq<string>, rows: seq<Row>, rows': seq<Row>)
    requires Positional(prev, cols, rows) && Positional(cur, cols', rows') && |rows| == |rows'| > 0 && Clash(cols, cols')
    ensures Differs(prev, cur)
  {
    var id := PositionKey(0);
    assert id in cur.cells && |cur.cells[id]| == |cols'| && |prev.cells[id]| == |cols|;
  }

  /** And decorate exactly if a cell of a new nameless column shows something. */
  lemma ClashSeen(prev: TableState, cur: TableState, cols: seq<string>, cols': seq<string>, rows: seq<Row>, rows': seq<Row>)
    requires Positional(prev, cols, rows) && Positional(cur, cols', rows') && |rows| == |rows'| && Clash(cols, cols')
    ensures DecorateSees(|cols'|, prev, cur) <==> cols' == [""] && exists r :: 0 <= r < |rows'| && !BlankFirst(rows'[r])
  {
    SamePositions(prev, cur, cols, cols', rows, rows');
    if r :| cols' == [""] && 0 <= r < |rows'| && !BlankFirst(rows'[r]) {
      ClashMoved(cols, cols', rows[r], rows'[r]);
      assert cur.order[r] == PositionKey(r) && cur.order[r] in cur.order;
      assert Moved(|cols'|, cur.cells[PositionKey(r)], prev.cells[PositionKey(r)]);
    }
    if id :| id in cur.order && id in prev.cells && id in cur.cells && Moved(|cols'|, cur.cells[id], prev.cells[id]) {
      var i: nat :| i < |rows'| && id == PositionKey(i);
      ClashMoved(cols, cols', rows[i], rows'[i]);
    }
  }

  /** Another number of rows is seen by both. */
  lemma OtherLength(prev: TableState, cur: TableState, width: nat, cols: seq<string>, cols': seq<string>, rows: seq<Row>, rows': seq<Row>)
    requires Positional(prev, cols, rows) && Positional(cur, cols', rows') && |rows| != |rows'|
    ensures Differs(prev, cur) && DecorateSees(width, prev, cur)
  {
    if |rows| < |rows'| {
      var id := cur.order[|rows|];
      assert id in cur.order && id == PositionKey(|rows|) && id !in prev.cells;
    } else {
      var id := prev.order[|rows'|];
      assert id in prev.order && id == PositionKey(|rows'|) && id !in cur.cells;
    }
  }

  /** The clash, whatever the rows. */
  lemma ClashParts(prev: TableState, cur: TableState, cols: seq<string>, cols': seq<string>, rows: seq<Row>, rows': seq<Row>)
    requires Positional(prev, cols, rows) && Positional(cur, cols', rows') && Clash(cols, cols')
    ensures DecorateSees(|cols'|, prev, cur) != Differs(prev, cur) <==>
      |rows| == |rows'| > 0 && (cols' == [""] ==> forall r :: 0 <= r < |rows'| ==> BlankFirst(rows'[r]))
  {
    if |rows| != |rows'| {
      OtherLength(prev, cur, |cols'|, cols, cols', rows, rows');
    } else {
      ClashSeen(prev, cur, cols, cols', rows, rows');
      if rows == [] {
        assert forall id :: id in cur.cells ==> id in cur.order;
      } else {
        ClashDiffers(prev, cur, cols, cols', rows, rows');
      }
    }
  }

  lemma NoKeyColumn(cols: seq<string>)
    requires cols == [] || cols == [""]
    ensures KeyColumn(cols) == -1
  {}

  ghost predicate VerdictsPart(width: nat, prev: TableState, cur: TableState) {
    DecorateSees(width, prev, cur) != Differs(prev, cur)
  }

  /** As many rows, and not none; and a new nameless column shows nothing. */
  ghost predicate NothingShows(cols': seq<string>, rows: seq<Row>, rows': seq<Row>) {
    |rows| == |rows'| > 0 && (cols' == [""] ==> forall r :: 0 <= r < |rows'| ==> BlankFirst(rows'[r]))
  }

  lemma ClashSnapshotsPart(cols: seq<string>, cols': seq<string>, rows: seq<Row>, rows': seq<Row>)
    requires Clash(cols, cols')
    ensures VerdictsPart(|cols'|, Snapshot(cols, rows), Snapshot(cols', rows')) <==>
      NothingShows(cols', rows, rows')
  {
    NoKeyColumn(cols);
    NoKeyColumn(cols');
    PositionalSnapshot(cols, rows);
    PositionalSnapshot(cols', rows');
    ClashParts(Snapshot(cols, rows), Snapshot(cols', rows'), cols, cols', rows, rows');
  }

  lemma SameColumnsAgree(cols: seq<string>, rows: seq<Row>, rows': seq<Row>)
    ensures !VerdictsPart(|cols|, Snapshot(cols, rows), Snapshot(cols, rows'))
  {
    SnapshotShaped(cols, rows);
    SnapshotShaped(cols, rows');
    SameVerdict(Snapshot(cols, rows), Snapshot(cols, rows'), |cols|);
  }

  /** When the two verdicts part, for any two tables with NUL-free column names that
      are compared at all: the columns went from none to one nameless one or back, the
      rows are as many and not none, and a new nameless column shows nothing. */
  lemma VerdictsPartExactly(cols: seq<string>, cols': seq<string>, rows: seq<Row>, rows': seq<Row>)
    requires NulFreeNames(cols) && NulFreeNames(cols') && Signature(cols) == Signature(cols')
    ensures VerdictsPart(|cols'|, Snapshot(cols, rows), Snapshot(cols', rows')) <==>
      cols != cols' && NothingShows(cols', rows, rows')
  {
    SignaturesClashExactly(cols, cols');
    if cols == cols' { SameColumnsAgree(cols, rows, rows'); } else { ClashSnapshotsPart(cols, cols', rows, rows'); }
  }

  /** Such a pair: no column and one nameless column, one row. */
  lemma ClashingSignatures()
    ensures Signature([]) == Signature([""])
    ensures VerdictsPart(1, Snapshot([], [[]]), Snapshot([""], [[]]))
  {
    var one: seq<Row> := [[]];
    VerdictsPartExactly([], [""], one, one);
  }

  // --------------------------------------------------------------- decorate

  function RowStyles(width: nat, prev: TableState, cur: TableState, id: string): seq<CellStyle> {
    if id !in prev.cells || id !in cur.cells then seq(width, _ => Added)
    else seq(width, i => if i >= 0 && At(cur.cells[id], i) != At(prev.cells[id], i) then Changed else Plain)
  }

  /** The identities that left, in the order they had. */
  function Departed(order: seq<string>, cur: TableState): seq<string> {
    if order == [] then []
    else
      var init, id := Departed(order[..|order| - 1], cur), order[|order| - 1];
      if id in cur.cells then init else init + [id]
  }

  function GhostRow(width: nat, cells: seq<string>): Row {
    seq(width, i => if i >= 0 then At(cells, i) else "")
  }

  function AllRowStyles(width: nat, prev: TableState, cur: TableState): seq<seq<CellStyle>> {
    seq(|cur.order|, i requires 0 <= i < |cur.order| => RowStyles(width, prev, cur, cur.order[i]))
  }

  function GhostRows(width: nat, prev: TableState, gone: seq<string>): seq<Row> {
    seq(|gone|, i requires 0 <= i < |gone| => GhostRow(width, if gone[i] in prev.cells then prev.cells[gone[i]] else []))
  }

  function GhostStyles(width: nat, n: nat): seq<seq<CellStyle>> {
    seq(n, _ => seq(width, _ => Removed))
  }

  /** decorate(): the frame is the rows followed by one ghost row for each row
      that left; every row gets one style per column. */
  method Decorate(cols: seq<string>, rows: seq<Row>, prev: TableState, cur: TableState)
    returns (frame: seq<Row>, styles: seq<seq<CellStyle>>, changed: bool)
    requires forall id :: id in cur.order ==> id in cur.cells
    requires forall id :: id in prev.order ==> id in prev.cells
    ensures var gone := Departed(prev.order, cur);
      && frame == rows + GhostRows(|cols|, prev, gone)
      && styles == AllRowStyles(|cols|, prev, cur) + GhostStyles(|cols|, |gone|)
    ensures changed <==> DecorateSees(|cols|, prev, cur)
  {
    var extra, ghosts, left;
    styles, changed := StyleRows(cols, prev, cur);
    extra, ghosts, left := CollectGhosts(cols, prev, cur);
    frame, styles, changed := rows + extra, styles + ghosts, changed || left;
  }

  method StyleRows(cols: seq<string>, prev: TableState, cur: TableState)
    returns (styles: seq<seq<CellStyle>>, changed: bool)
    requires forall id :: id in cur.order ==> id in cur.cells
    ensures styles == AllRowStyles(|cols|, prev, cur)
    ensures changed <==> exists id :: id in cur.order && RowSeen(|cols|, prev, cur, id)
  {
    styles, changed := [], false;
    for k := 0 to |cur.order|
      invariant |styles| == k
      invariant forall i :: 0 <= i < k ==> styles[i] == RowStyles(|cols|, prev, cur, cur.order[i])
      invariant changed <==> exists i :: 0 <= i < k && RowSeen(|cols|, prev, cur, cur.order[i])
    {
      var id := cur.order[k];
      assert id in cur.order;
      var row := RowStyles(|cols|, prev, cur, id);
      styles := styles + [row];
      SeenInStyles(|cols|, prev, cur, id);
      changed := changed || id !in prev.cells || Changed in row;
    }
  }

  method CollectGhosts(cols: seq<string>, prev: TableState, cur: TableState)
    returns (extra: seq<Row>, styles: seq<seq<CellStyle>>, changed: bool)
    requires forall id :: id in prev.order ==> id in prev.cells
    ensures extra == GhostRows(|cols|, prev, Departed(prev.order, cur))
    ensures styles == GhostStyles(|cols|, |Departed(prev.order, cur)|)
    ensures changed <==> exists id :: id in prev.order && id !in cur.cells
  {
    extra, styles, changed := [], [], false;
    for k := 0 to |prev.order|
      invariant extra == GhostRows(|cols|, prev, Departed(prev.order[..k], cur))
      invariant styles == GhostStyles(|cols|, |Departed(prev.order[..k], cur)|)
      invariant changed <==> exists i :: 0 <= i < k && prev.order[i] !in cur.cells
    {
      var id := prev.order[k];
      assert id in prev.order;
      assert prev.order[..k + 1][..k] == prev.order[..k];
      if id !in cur.cells {
        extra := extra + [GhostRow(|cols|, prev.cells[id])];
        styles := styles + [seq(|cols|, _ => Removed)];
        changed := true;
      }
    }
    assert prev.order[..|prev.order|] == prev.order;
  }

  ghost predicate RowSeen(width: nat, prev: TableState, cur: TableState, id: string) {
    id !in prev.cells || (id in cur.cells && Moved(width, cur.cells[id], prev.cells[id]))
  }

  lemma SeenInStyles(width: nat, prev: TableState, cur: TableState, id: string)
    requires id in cur.cells
    ensures RowSeen(width, prev, cur, id) <==> id !in prev.cells || Changed in RowStyles(width, prev, cur, id)
  {
    if id in prev.cells {
      var st := RowStyles(width, prev, cur, id);
      if Changed in st {
        var i :| 0 <= i < |st| && st[i] == Changed;
        assert At(cur.cells[id], i) != At(prev.cells[id], i);
      }
      if Moved(width, cur.cells[id], prev.cells[id]) {
        var i: nat :| i < width && At(cur.cells[id], i) != At(prev.cells[id], i);
        assert st[i] == Changed;
      }
    }
  }

  // ------------------------------------------------------------ permutations

  /** Every row has a non-empty key of its own. */
  ghost predicate Keyed(cols: seq<string>, rows: seq<Row>) {
    var k := KeyColumn(cols);
    && k >= 0
    && (forall i :: 0 <= i < |rows| ==> RowCells(cols, rows[i])[k] != "")
    && (forall i, j :: 0 <= i < j < |rows| ==> RowCells(cols, rows[i])[k] != RowCells(cols, rows[j])[k])
  }

  ghost function KeyId(cols: seq<string>, row: Row): string
    requires KeyColumn(cols) >= 0
  {
    "k:" + RowCells(cols, row)[KeyColumn(cols)]
  }

  /** A keyed table is the map from its keys to its rows, in row order. */
  ghost predicate Represents(s: TableState, cols: seq<string>, rows: seq<Row>)
    requires KeyColumn(cols) >= 0
  {
    && |s.order| == |rows|
    && (forall i :: 0 <= i < |rows| ==>
          s.order[i] == KeyId(cols, rows[i]) && s.order[i] in s.cells && s.cells[s.order[i]] == RowCells(cols, rows[i]))
    && (forall id :: id in s.cells ==> id in s.order)
  }

  lemma {:induction false} KeyedSnapshot(cols: seq<string>, rows: seq<Row>)
    requires Keyed(cols, rows)
    ensures Represents(Snapshot(cols, rows), cols, rows)
  {
    if rows != [] {
      var n := |rows| - 1;
      KeyedSnapshot(cols, rows[..n]);
      KeyedAdd(cols, Snapshot(cols, rows[..n]), rows);
    }
  }

  lemma KeyedAdd(cols: seq<string>, s: TableState, rows: seq<Row>)
    requires rows != [] && Keyed(cols, rows) && Represents(s, cols, rows[..|rows| - 1])
    ensures Represents(AddRow(cols, s, rows[|rows| - 1], |rows| - 1), cols, rows)
  {
    var n := |rows| - 1;
    var id := KeyId(cols, rows[n]);
    forall i | 0 <= i < n ensures s.order[i] != id {
      assert s.order[i] == KeyId(cols, rows[..n][i]);
      assert s.order[i][2..] == RowCells(cols, rows[i])[KeyColumn(cols)];
      assert id[2..] == RowCells(cols, rows[n])[KeyColumn(cols)];
    }
    assert id !in s.cells;
    var t := AddRow(cols, s, rows[n], n);
    assert t.order == s.order + [id] && t.cells == s.cells[id := RowCells(cols, rows[n])];
    forall i | 0 <= i < n ensures t.order[i] == KeyId(cols, rows[i]) && t.cells[t.order[i]] == RowCells(cols, rows[i]) {
      assert rows[..n][i] == rows[i];
    }
  }

  /** Reordering the rows of a keyed table marks nothing: no style other than
      plain, no ghost row, no change, whatever the order was. */
  lemma PermutationIsQuiet(cols: seq<string>, rows: seq<Row>, rows': seq<Row>)
    requires Keyed(cols, rows) && Keyed(cols, rows') && multiset(rows) == multiset(rows')
    ensures Quiet(|cols|, Snapshot(cols, rows), Snapshot(cols, rows'))
  {
    var prev, cur := Snapshot(cols, rows), Snapshot(cols, rows');
    KeyedSnapshot(cols, rows);
    KeyedSnapshot(cols, rows');
    SubTable(cols, cur, rows', prev, rows);
    SubTable(cols, prev, rows, cur, rows');
    SnapshotShaped(cols, rows);
    SnapshotShaped(cols, rows');
    SameCellsQuiet(|cols|, prev, cur);
  }

  ghost predicate Quiet(width: nat, prev: TableState, cur: TableState) {
    && Departed(prev.order, cur) == []
    && (forall id :: id in cur.order ==> RowStyles(width, prev, cur, id) == seq(width, _ => Plain))
    && !Differs(prev, cur)
    && !DecorateSees(width, prev, cur)
  }

  lemma SameCellsQuiet(width: nat, prev: TableState, cur: TableState)
    requires Shaped(prev, width) && Shaped(cur, width)
    requires forall id :: id in prev.cells <==> id in cur.cells
    requires forall id :: id in prev.cells ==> prev.cells[id] == cur.cells[id]
    ensures Quiet(width, prev, cur)
  {
    NoneDeparted(prev.order, cur);
    NoneAdded(prev, cur, width, width);
    SameVerdict(prev, cur, width);
  }

  lemma SubTable(cols: seq<string>, s: TableState, rows: seq<Row>, t: TableState, rows': seq<Row>)
    requires KeyColumn(cols) >= 0 && Represents(s, cols, rows) && Represents(t, cols, rows') && multiset(rows) == multiset(rows')
    ensures forall id :: id in s.cells ==> id in t.cells && s.cells[id] == t.cells[id]
  {
    forall id | id in s.cells ensures id in t.cells && s.cells[id] == t.cells[id] {
      var i :| 0 <= i < |rows| && s.order[i] == id;
      assert rows[i] in multiset(rows');
      var j :| 0 <= j < |rows'| && rows'[j] == rows[i];
      assert t.order[j] == id;
    }
  }

  lemma {:induction false} NoneDeparted(order: seq<string>, cur: TableState)
    requires forall id :: id in order ==> id in cur.cells
    ensures Departed(order, cur) == []
  {
    if order != [] { NoneDeparted(order[..|order| - 1], cur); }
  }
}
