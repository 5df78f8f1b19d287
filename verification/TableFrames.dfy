/**
 What a highlighted frame shows, said of the rows of two tables alone: which rows
 are the same row, which left, and how every cell is styled
 (internal/watch/diff.go).
 */
module TableFrames {
  import opened TableDiff

  /** The text a row shows in a column; a short row shows nothing. */
  function CellAt(row: Row, j: nat): string { if j < |row| then row[j] else "" }

  // ----------------------------------------------------------- the key column

  /** The key is the first column spelled ID, or else the first spelled Name, or else
      the first of two if it is spelled Field, whatever the case of the letters. */
  lemma KeyColumnExactly(cols: seq<string>, k: int)
    ensures KeyColumn(cols) == k <==>
      if exists i :: 0 <= i < |cols| && EqualFold(cols[i], "ID") then
        0 <= k < |cols| && EqualFold(cols[k], "ID") && forall i :: 0 <= i < k ==> !EqualFold(cols[i], "ID")
      else if exists i :: 0 <= i < |cols| && EqualFold(cols[i], "Name") then
        0 <= k < |cols| && EqualFold(cols[k], "Name") && forall i :: 0 <= i < k ==> !EqualFold(cols[i], "Name")
      else if |cols| == 2 && EqualFold(cols[0], "Field") then k == 0
      else k == -1
  {
    var id, name := FindColumn(cols, "ID", 0), FindColumn(cols, "Name", 0);
    if id >= 0 { assert EqualFold(cols[id], "ID"); }
    if name >= 0 { assert EqualFold(cols[name], "Name"); }
  }

  /** Case folding on the letters of the words looked for. */
  lemma FoldsCase()
    ensures EqualFold("id", "ID") && EqualFold("Id", "ID") && EqualFold("NAME", "Name") && EqualFold("field", "Field")
    ensures !EqualFold("Name", "ID") && !EqualFold("IDs", "ID")
  {}

  // ----------------------------------------------------------- row identities

  /** A row known by its key: it has one, and no earlier row has the same. */
  ghost predicate KeyedBy(cols: seq<string>, rows: seq<Row>, i: nat)
    requires i < |rows|
  {
    var k := KeyColumn(cols);
    k >= 0 && CellAt(rows[i], k) != "" && forall j :: 0 <= j < i ==> CellAt(rows[j], k) != CellAt(rows[i], k)
  }

  /** Row p of the old table and row i of the new one are the same row: they are known by
      the same key, or neither by a key and both by the same position. */
  ghost predicate Matches(cols: seq<string>, before: seq<Row>, p: nat, rows: seq<Row>, i: nat)
    requires p < |before| && i < |rows|
  {
    if KeyedBy(cols, before, p) && KeyedBy(cols, rows, i) then
      CellAt(before[p], KeyColumn(cols)) == CellAt(rows[i], KeyColumn(cols))
    else !KeyedBy(cols, before, p) && !KeyedBy(cols, rows, i) && p == i
  }

  ghost function Name(cols: seq<string>, rows: seq<Row>, i: nat): string
    requires i < |rows|
  {
    if KeyedBy(cols, rows, i) then "k:" + CellAt(rows[i], KeyColumn(cols)) else PositionKey(i)
  }

  /** A snapshot holds every row's cells under the row's name. */
  ghost predicate Records(s: TableState, cols: seq<string>, rows: seq<Row>, n: nat)
    requires n <= |rows|
  {
    && |s.order| == n
    && (forall i :: 0 <= i < n ==> s.order[i] == Name(cols, rows, i) && s.order[i] in s.cells && s.cells[s.order[i]] == RowCells(cols, rows[i]))
    && (forall id :: id in s.cells ==> id in s.order)
  }

  lemma NamesDiffer(cols: seq<string>, rows: seq<Row>, i: nat, j: nat)
    requires i < j < |rows|
    ensures Name(cols, rows, i) != Name(cols, rows, j)
  {
    assert ("k:" + CellAt(rows[i], 0))[0] == 'k' && PositionKey(i)[0] == '#' && PositionKey(j)[0] == '#';
    if KeyedBy(cols, rows, i) && KeyedBy(cols, rows, j) {
      var a, b := CellAt(rows[i], KeyColumn(cols)), CellAt(rows[j], KeyColumn(cols));
      assert a == ("k:" + a)[2..] && b == ("k:" + b)[2..];
    } else if !KeyedBy(cols, rows, i) && !KeyedBy(cols, rows, j) && PositionKey(i) == PositionKey(j) {
      PositionKeyInjective(i, j);
    }
  }

  /** A key is taken exactly if an earlier row has it. */
  lemma KeyTaken(cols: seq<string>, s: TableState, rows: seq<Row>, n: nat, key: string)
    requires n < |rows| && Records(s, cols, rows, n) && KeyColumn(cols) >= 0 && key != ""
    ensures "k:" + key in s.cells <==> exists j :: 0 <= j < n && CellAt(rows[j], KeyColumn(cols)) == key
  {
    var k := KeyColumn(cols);
    if "k:" + key in s.cells {
      var j :| 0 <= j < n && s.order[j] == "k:" + key;
      assert PositionKey(j)[0] == '#' && ("k:" + key)[0] == 'k';
      assert CellAt(rows[j], k) == ("k:" + CellAt(rows[j], k))[2..] && key == ("k:" + key)[2..];
    }
    if exists j :: 0 <= j < n && CellAt(rows[j], k) == key {
      var j := FirstWith(rows, k, key, n);
      assert KeyedBy(cols, rows, j);
      assert s.order[j] == "k:" + key;
    }
  }

  lemma {:induction false} FirstWith(rows: seq<Row>, k: nat, key: string, n: nat) returns (j: nat)
    requires n <= |rows| && exists i :: 0 <= i < n && CellAt(rows[i], k) == key
    ensures j < n && CellAt(rows[j], k) == key && forall i :: 0 <= i < j ==> CellAt(rows[i], k) != key
  {
    if exists i :: 0 <= i < n - 1 && CellAt(rows[i], k) == key {
      j := FirstWith(rows, k, key, n - 1);
    } else {
      j := n - 1;
    }
  }

  lemma RowNamed(cols: seq<string>, s: TableState, rows: seq<Row>, n: nat)
    requires n < |rows| && Records(s, cols, rows, n)
    ensures Identity(cols, s, rows[n], n) == Name(cols, rows, n)
  {
    var k := KeyColumn(cols);
    if k >= 0 {
      var key := CellAt(rows[n], k);
      assert RowCells(cols, rows[n])[k] == key;
      if key != "" { KeyTaken(cols, s, rows, n, key); }
    }
  }

  lemma NewName(cols: seq<string>, s: TableState, rows: seq<Row>, n: nat)
    requires n < |rows| && Records(s, cols, rows, n)
    ensures Name(cols, rows, n) !in s.cells
  {
    if Name(cols, rows, n) in s.cells {
      var i :| 0 <= i < n && s.order[i] == Name(cols, rows, n);
      NamesDiffer(cols, rows, i, n);
    }
  }

  lemma RecordsMore(s: TableState, t: TableState, cols: seq<string>, rows: seq<Row>, n: nat, name: string)
    requires n < |rows| && Records(s, cols, rows, n) && name == Name(cols, rows, n) && name !in s.cells
    requires t.order == s.order + [name] && t.cells == s.cells[name := RowCells(cols, rows[n])]
    ensures Records(t, cols, rows, n + 1)
  {}

  lemma RecordsNext(cols: seq<string>, s: TableState, rows: seq<Row>, n: nat)
    requires n < |rows| && Records(s, cols, rows, n)
    ensures Records(AddRow(cols, s, rows[n], n), cols, rows, n + 1)
  {
    RowNamed(cols, s, rows, n);
    NewName(cols, s, rows, n);
    RecordsMore(s, AddRow(cols, s, rows[n], n), cols, rows, n, Name(cols, rows, n));
  }

  lemma {:induction false} SnapshotRecords(cols: seq<string>, rows: seq<Row>, n: nat)
    requires n <= |rows|
    ensures Records(Snapshot(cols, rows[..n]), cols, rows, n)
  {
    if n > 0 {
      SnapshotRecords(cols, rows, n - 1);
      assert rows[..n][..n - 1] == rows[..n - 1];
      RecordsNext(cols, Snapshot(cols, rows[..n - 1]), rows, n - 1);
    }
  }

  lemma NamesMatch(cols: seq<string>, before: seq<Row>, p: nat, rows: seq<Row>, i: nat)
    requires p < |before| && i < |rows|
    ensures Name(cols, before, p) == Name(cols, rows, i) <==> Matches(cols, before, p, rows, i)
  {
    var k := KeyColumn(cols);
    assert PositionKey(p)[0] == '#' && PositionKey(i)[0] == '#';
    if k >= 0 {
      var a, b := CellAt(before[p], k), CellAt(rows[i], k);
      assert a == ("k:" + a)[2..] && b == ("k:" + b)[2..] && ("k:" + a)[0] == ("k:" + b)[0] == 'k';
    }
    if PositionKey(p) == PositionKey(i) { PositionKeyInjective(p, i); }
  }

  // ------------------------------------------------------------------- frames

  ghost predicate Stays(cols: seq<string>, before: seq<Row>, p: nat, rows: seq<Row>)
    requires p < |before|
  {
    exists i: nat :: i < |rows| && Matches(cols, before, p, rows, i)
  }

  ghost predicate Ascending(left: seq<nat>, bound: nat) {
    (forall n :: 0 <= n < |left| ==> left[n] < bound) && forall m, n :: 0 <= m < n < |left| ==> left[m] < left[n]
  }

  /** `left` lists the rows that left, in their old order. */
  ghost predicate LeftBehind(cols: seq<string>, before: seq<Row>, rows: seq<Row>, left: seq<nat>) {
    Ascending(left, |before|) && forall p: nat :: p < |before| ==> (p in left <==> !Stays(cols, before, p, rows))
  }

  /** A row that left, once more: cell by cell what it showed. */
  ghost predicate ShownAgain(cols: seq<string>, old_row: Row, row: Row) {
    |row| == |cols| && forall j :: 0 <= j < |cols| ==> row[j] == CellAt(old_row, j)
  }

  ghost predicate ExtraRows(cols: seq<string>, before: seq<Row>, left: seq<nat>, extra: seq<Row>) {
    |extra| == |left| && forall n :: 0 <= n < |left| && left[n] < |before| ==> ShownAgain(cols, before[left[n]], extra[n])
  }

  /** The style of a cell: added if its row is new, changed exactly where its text
      differs from that of the row it was. */
  ghost predicate CellStyled(cols: seq<string>, before: seq<Row>, rows: seq<Row>, i: nat, j: nat, style: CellStyle)
    requires i < |rows|
  {
    && ((forall p: nat :: p < |before| ==> !Matches(cols, before, p, rows, i)) ==> style == Added)
    && forall p: nat :: p < |before| && Matches(cols, before, p, rows, i) ==>
         style == if CellAt(rows[i], j) != CellAt(before[p], j) then Changed else Plain
  }

  ghost predicate RowStyled(cols: seq<string>, before: seq<Row>, rows: seq<Row>, i: nat, styles: seq<CellStyle>)
    requires i < |rows|
  {
    |styles| == |cols| && forall j :: 0 <= j < |cols| ==> CellStyled(cols, before, rows, i, j, styles[j])
  }

  ghost predicate OwnStyles(cols: seq<string>, before: seq<Row>, rows: seq<Row>, own: seq<seq<CellStyle>>) {
    |own| == |rows| && forall i :: 0 <= i < |rows| ==> RowStyled(cols, before, rows, i, own[i])
  }

  ghost predicate AllRemoved(styles: seq<CellStyle>, width: nat) {
    |styles| == width && forall j :: 0 <= j < width ==> styles[j] == Removed
  }

  /** What the operator sees of a table against the one before it: the rows in order,
      then every row that left once more, in its old order, marked as removed. */
  ghost predicate Shown(cols: seq<string>, before: seq<Row>, rows: seq<Row>, frame: seq<Row>, styles: seq<seq<CellStyle>>) {
    exists left: seq<nat>, extra: seq<Row>, own: seq<seq<CellStyle>>, marks: seq<seq<CellStyle>> ::
      && LeftBehind(cols, before, rows, left)
      && frame == rows + extra && ExtraRows(cols, before, left, extra)
      && styles == own + marks && OwnStyles(cols, before, rows, own)
      && |marks| == |left| && forall n :: 0 <= n < |marks| ==> AllRemoved(marks[n], |cols|)
  }

  /** The positions of those of the first n old rows that left. */
  ghost function Gone(prev: TableState, cur: TableState, n: nat): (left: seq<nat>)
    requires n <= |prev.order|
  {
    if n == 0 then []
    else if prev.order[n - 1] in cur.cells then Gone(prev, cur, n - 1)
    else Gone(prev, cur, n - 1) + [n - 1]
  }

  lemma {:induction false} GoneAscends(prev: TableState, cur: TableState, n: nat)
    requires n <= |prev.order|
    ensures Ascending(Gone(prev, cur, n), n)
  {
    if n > 0 { GoneAscends(prev, cur, n - 1); }
  }

  lemma {:induction false} GoneMembers(prev: TableState, cur: TableState, n: nat, p: nat)
    requires n <= |prev.order| && p < |prev.order|
    ensures p in Gone(prev, cur, n) <==> p < n && prev.order[p] !in cur.cells
  {
    if n > 0 { GoneMembers(prev, cur, n - 1, p); }
  }

  lemma {:induction false} GoneIsDeparted(prev: TableState, cur: TableState, n: nat)
    requires n <= |prev.order|
    ensures var left, ids := Gone(prev, cur, n), Departed(prev.order[..n], cur);
      |left| == |ids| && forall m :: 0 <= m < |left| ==> left[m] < |prev.order| && ids[m] == prev.order[left[m]]
  {
    if n > 0 {
      GoneIsDeparted(prev, cur, n - 1);
      assert prev.order[..n][..n - 1] == prev.order[..n - 1];
    }
  }

  /** Two snapshots of tables with the same columns. */
  ghost predicate Both(prev: TableState, cur: TableState, cols: seq<string>, before: seq<Row>, rows: seq<Row>) {
    Records(prev, cols, before, |before|) && Records(cur, cols, rows, |rows|)
  }

  lemma StaysExactly(prev: TableState, cur: TableState, cols: seq<string>, before: seq<Row>, rows: seq<Row>, p: nat)
    requires Both(prev, cur, cols, before, rows) && p < |before|
    ensures prev.order[p] in cur.cells <==> Stays(cols, before, p, rows)
  {
    forall i: nat | i < |rows| ensures prev.order[p] == cur.order[i] <==> Matches(cols, before, p, rows, i) {
      NamesMatch(cols, before, p, rows, i);
    }
    if prev.order[p] in cur.cells { var i :| 0 <= i < |cur.order| && cur.order[i] == prev.order[p]; }
  }

  lemma CellStyledRight(prev: TableState, cur: TableState, cols: seq<string>, before: seq<Row>, rows: seq<Row>, i: nat, j: nat)
    requires Both(prev, cur, cols, before, rows) && i < |rows| && j < |cols|
    ensures CellStyled(cols, before, rows, i, j, RowStyles(|cols|, prev, cur, cur.order[i])[j])
  {
    var id := cur.order[i];
    forall p: nat | p < |before| ensures prev.order[p] == id <==> Matches(cols, before, p, rows, i) {
      NamesMatch(cols, before, p, rows, i);
    }
    if id in prev.cells {
      var p :| 0 <= p < |prev.order| && prev.order[p] == id;
      assert At(cur.cells[id], j) == CellAt(rows[i], j) && At(prev.cells[id], j) == CellAt(before[p], j);
      forall q: nat | q < |before| && Matches(cols, before, q, rows, i) ensures q == p {
        if q < p { NamesDiffer(cols, before, q, p); } else if p < q { NamesDiffer(cols, before, p, q); }
      }
    }
  }

  lemma LeftIs(prev: TableState, cur: TableState, cols: seq<string>, before: seq<Row>, rows: seq<Row>)
    requires Both(prev, cur, cols, before, rows)
    ensures LeftBehind(cols, before, rows, Gone(prev, cur, |before|))
  {
    GoneAscends(prev, cur, |before|);
    forall p: nat | p < |before| ensures p in Gone(prev, cur, |before|) <==> !Stays(cols, before, p, rows) {
      GoneMembers(prev, cur, |before|, p);
      StaysExactly(prev, cur, cols, before, rows, p);
    }
  }

  lemma GhostShown(prev: TableState, cols: seq<string>, before: seq<Row>, p: nat)
    requires Records(prev, cols, before, |before|) && p < |before|
    ensures ShownAgain(cols, before[p], GhostRow(|cols|, prev.cells[prev.order[p]]))
  {}

  lemma ExtraIs(prev: TableState, cur: TableState, cols: seq<string>, before: seq<Row>, rows: seq<Row>)
    requires Both(prev, cur, cols, before, rows)
    ensures ExtraRows(cols, before, Gone(prev, cur, |before|), GhostRows(|cols|, prev, Departed(prev.order, cur)))
  {
    GoneIsDeparted(prev, cur, |before|);
    assert prev.order[..|before|] == prev.order;
    var left, ids := Gone(prev, cur, |before|), Departed(prev.order, cur);
    var extra := GhostRows(|cols|, prev, ids);
    forall n | 0 <= n < |left| && left[n] < |before| ensures ShownAgain(cols, before[left[n]], extra[n]) {
      GhostShown(prev, cols, before, left[n]);
      assert extra[n] == GhostRow(|cols|, prev.cells[ids[n]]);
    }
  }

  lemma OwnIs(prev: TableState, cur: TableState, cols: seq<string>, before: seq<Row>, rows: seq<Row>)
    requires Both(prev, cur, cols, before, rows)
    ensures OwnStyles(cols, before, rows, AllRowStyles(|cols|, prev, cur))
  {
    forall i | 0 <= i < |rows| ensures RowStyled(cols, before, rows, i, RowStyles(|cols|, prev, cur, cur.order[i])) {
      forall j | 0 <= j < |cols| ensures CellStyled(cols, before, rows, i, j, RowStyles(|cols|, prev, cur, cur.order[i])[j]) {
        CellStyledRight(prev, cur, cols, before, rows, i, j);
      }
    }
  }

  /** decorate() shows exactly that. */
  lemma DecorateShows(prev: TableState, cur: TableState, cols: seq<string>, before: seq<Row>, rows: seq<Row>,
                      frame: seq<Row>, styles: seq<seq<CellStyle>>)
    requires Both(prev, cur, cols, before, rows)
    requires frame == rows + GhostRows(|cols|, prev, Departed(prev.order, cur))
    requires styles == AllRowStyles(|cols|, prev, cur) + GhostStyles(|cols|, |Departed(prev.order, cur)|)
    ensures Shown(cols, before, rows, frame, styles)
  {
    LeftIs(prev, cur, cols, before, rows);
    ExtraIs(prev, cur, cols, before, rows);
    OwnIs(prev, cur, cols, before, rows);
    ShownBy(cols, before, rows, frame, styles, Gone(prev, cur, |before|), GhostRows(|cols|, prev, Departed(prev.order, cur)),
            AllRowStyles(|cols|, prev, cur), GhostStyles(|cols|, |Departed(prev.order, cur)|));
  }

  lemma ShownBy(cols: seq<string>, before: seq<Row>, rows: seq<Row>, frame: seq<Row>, styles: seq<seq<CellStyle>>,
                left: seq<nat>, extra: seq<Row>, own: seq<seq<CellStyle>>, marks: seq<seq<CellStyle>>)
    requires LeftBehind(cols, before, rows, left) && frame == rows + extra && ExtraRows(cols, before, left, extra)
    requires styles == own + marks && OwnStyles(cols, before, rows, own)
    requires |marks| == |left| && forall n :: 0 <= n < |marks| ==> AllRemoved(marks[n], |cols|)
    ensures Shown(cols, before, rows, frame, styles)
  {}

  /** So does a table against the snapshot of the one before it. */
  lemma SnapshotsShow(cols: seq<string>, before: seq<Row>, rows: seq<Row>, frame: seq<Row>, styles: seq<seq<CellStyle>>)
    requires var prev, cur := Snapshot(cols, before), Snapshot(cols, rows);
      && frame == rows + GhostRows(|cols|, prev, Departed(prev.order, cur))
      && styles == AllRowStyles(|cols|, prev, cur) + GhostStyles(|cols|, |Departed(prev.order, cur)|)
    ensures Shown(cols, before, rows, frame, styles)
  {
    SnapshotRecords(cols, before, |before|);
    SnapshotRecords(cols, rows, |rows|);
    assert before[..|before|] == before && rows[..|rows|] == rows;
    DecorateShows(Snapshot(cols, before), Snapshot(cols, rows), cols, before, rows, frame, styles);
  }
}
