/** The Differ object of internal/watch/diff.go and its begin/commit/rollback protocol. */
module FrameDiffer {
  import opened Basics
  import opened TableDiff
  import opened TableFrames

  datatype Table = Table(cols: seq<string>, rows: seq<Row>)

  function Snapshots(tables: seq<Table>): seq<TableState> {
    seq(|tables|, i requires 0 <= i < |tables| => Snapshot(tables[i].cols, tables[i].rows))
  }

  function TotalRows(tables: seq<Table>): nat {
    if tables == [] then 0 else TotalRows(tables[..|tables| - 1]) + |tables[|tables| - 1].rows|
  }

  /** Whether a table counts as changed against the table that had its place in
      the baseline. A missing place or another signature compares to nothing. */
  ghost predicate TableChanged(enabled: bool, baseline: seq<TableState>, ordinal: nat, t: Table) {
    var cur := Snapshot(t.cols, t.rows);
    && ordinal < |baseline|
    && baseline[ordinal].signature == cur.signature
    && (if enabled then DecorateSees(|t.cols|, baseline[ordinal], cur) else Differs(baseline[ordinal], cur))
  }

  ghost predicate FrameChanged(enabled: bool, baseline: seq<TableState>, tables: seq<Table>) {
    exists i :: 0 <= i < |tables| && TableChanged(enabled, baseline, i, tables[i])
  }

  lemma FrameChangedSnoc(enabled: bool, baseline: seq<TableState>, tables: seq<Table>, t: Table)
    ensures FrameChanged(enabled, baseline, tables + [t])
            <==> FrameChanged(enabled, baseline, tables) || TableChanged(enabled, baseline, |tables|, t)
  {
    var all := tables + [t];
    assert all[|tables|] == t;
    if i :| 0 <= i < |tables| && TableChanged(enabled, baseline, i, tables[i]) {
      assert all[i] == tables[i];
    }
    if i :| 0 <= i < |all| && TableChanged(enabled, baseline, i, all[i]) && !TableChanged(enabled, baseline, |tables|, t) {
      assert tables[i] == all[i];
    }
  }

  ghost predicate Usable(tables: seq<Table>) {
    forall i :: 0 <= i < |tables| ==> NulFree(tables[i].cols)
  }

  /** With usable columns the highlight switch has no say in what changed. */
  lemma FrameChangedIgnoresSwitch(before: seq<Table>, tables: seq<Table>)
    requires Usable(before) && Usable(tables)
    ensures FrameChanged(true, Snapshots(before), tables) <==> FrameChanged(false, Snapshots(before), tables)
  {
    forall i | 0 <= i < |tables|
      ensures TableChanged(true, Snapshots(before), i, tables[i]) <==> TableChanged(false, Snapshots(before), i, tables[i])
    {
      if i < |before| {
        var p, t := before[i], tables[i];
        SnapshotShaped(p.cols, p.rows);
        SnapshotShaped(t.cols, t.rows);
        if Signature(p.cols) == Signature(t.cols) {
          VerdictIgnoresSwitch(p.cols, t.cols, p.rows, t.rows);
        }
      }
    }
  }

  /** The same tables, place by place: as many, with the same columns. */
  ghost predicate SameLayout(before: seq<Table>, tables: seq<Table>) {
    |before| == |tables| && forall i :: 0 <= i < |tables| ==> before[i].cols == tables[i].cols
  }

  /** On an unchanged layout "changed" means what it says: some table's rows,
      by identity, are not the rows it had. */
  lemma FrameChangedExactly(enabled: bool, before: seq<Table>, tables: seq<Table>)
    requires SameLayout(before, tables)
    ensures !FrameChanged(enabled, Snapshots(before), tables)
            <==> forall i :: 0 <= i < |tables| ==> Snapshots(before)[i].cells == Snapshots(tables)[i].cells
  {
    forall i | 0 <= i < |tables|
      ensures !TableChanged(enabled, Snapshots(before), i, tables[i])
              <==> Snapshots(before)[i].cells == Snapshots(tables)[i].cells
    {
      var p, t := before[i], tables[i];
      SnapshotShaped(p.cols, p.rows);
      SnapshotShaped(t.cols, t.rows);
      CellsDecide(Snapshot(p.cols, p.rows), Snapshot(t.cols, t.rows), |t.cols|);
    }
  }

  lemma CellsDecide(prev: TableState, cur: TableState, width: nat)
    requires Shaped(prev, width) && Shaped(cur, width)
    ensures !Differs(prev, cur) <==> prev.cells == cur.cells
    ensures DecorateSees(width, prev, cur) <==> Differs(prev, cur)
  {
    SameVerdict(prev, cur, width);
    if !Differs(prev, cur) {
      forall id | id in cur.order ensures id in prev.cells { assert id in cur.cells; }
      NoneLost(prev, cur, width, width);
      assert forall id :: id in prev.cells <==> id in prev.order;
      assert prev.cells == cur.cells;
    }
    if prev.cells == cur.cells {
      assert forall id :: id in cur.order ==> id in prev.cells;
      assert forall id :: id in prev.order ==> id in cur.cells;
      NoneAdded(prev, cur, width, width);
    }
  }

  /** Place i holds a table with the same columns and other rows. */
  ghost predicate RowsMoved(before: seq<Table>, tables: seq<Table>, i: int) {
    0 <= i < |before| && i < |tables| && before[i].cols == tables[i].cols &&
    Snapshot(before[i].cols, before[i].rows).cells != Snapshot(tables[i].cols, tables[i].rows).cells
  }

  lemma PlaceDecides(enabled: bool, before: seq<Table>, tables: seq<Table>, i: int)
    requires 0 <= i < |tables| && Usable(before) && Usable(tables)
    ensures TableChanged(enabled, Snapshots(before), i, tables[i]) <==> RowsMoved(before, tables, i)
  {
    if i < |before| {
      var p, t := before[i], tables[i];
      SnapshotShaped(p.cols, p.rows);
      SnapshotShaped(t.cols, t.rows);
      if p.cols == t.cols {
        CellsDecide(Snapshot(p.cols, p.rows), Snapshot(t.cols, t.rows), |t.cols|);
      } else if Signature(p.cols) == Signature(t.cols) {
        SignatureInjective(p.cols, t.cols);
      }
    }
  }

  /** For any two frames with usable columns: "changed" means that some table that
      kept its place and its columns has other rows. */
  lemma FrameChangedMeans(enabled: bool, before: seq<Table>, tables: seq<Table>)
    requires Usable(before) && Usable(tables)
    ensures FrameChanged(enabled, Snapshots(before), tables) <==> exists i :: RowsMoved(before, tables, i)
  {
    forall i | 0 <= i < |tables|
      ensures TableChanged(enabled, Snapshots(before), i, tables[i]) <==> RowsMoved(before, tables, i)
    {
      PlaceDecides(enabled, before, tables, i);
    }
    if i :| 0 <= i < |tables| && TableChanged(enabled, Snapshots(before), i, tables[i]) { assert RowsMoved(before, tables, i); }
    if i :| RowsMoved(before, tables, i) { assert TableChanged(enabled, Snapshots(before), i, tables[i]); }
  }

  /** The frames differ in anything the differ looks at. */
  ghost predicate FramesDiffer(before: seq<Table>, tables: seq<Table>) {
    !SameLayout(before, tables) || exists i :: RowsMoved(before, tables, i)
  }

  /** So a difference goes unreported exactly when tables were gained, lost or given
      other columns and every table that kept its place and columns kept its rows; and
      nothing else is ever reported. */
  lemma UnreportedExactly(enabled: bool, before: seq<Table>, tables: seq<Table>)
    requires Usable(before) && Usable(tables)
    ensures FrameChanged(enabled, Snapshots(before), tables) ==> FramesDiffer(before, tables)
    ensures FramesDiffer(before, tables) && !FrameChanged(enabled, Snapshots(before), tables) <==>
      !SameLayout(before, tables) && forall i :: 0 <= i < |before| && i < |tables| && before[i].cols == tables[i].cols ==>
        Snapshot(before[i].cols, before[i].rows).cells == Snapshot(tables[i].cols, tables[i].rows).cells
  {
    FrameChangedMeans(enabled, before, tables);
    forall i | 0 <= i < |before| && i < |tables| && before[i].cols == tables[i].cols
      ensures RowsMoved(before, tables, i) <==>
        Snapshot(before[i].cols, before[i].rows).cells != Snapshot(tables[i].cols, tables[i].rows).cells
    {}
  }

  /** In particular no frame that only gains tables at its end, or loses them there, is
      ever reported. */
  lemma GainAndLossUnseen(enabled: bool, kept: seq<Table>, more: seq<Table>)
    requires Usable(kept + more)
    ensures !FrameChanged(enabled, Snapshots(kept), kept + more)
    ensures !FrameChanged(enabled, Snapshots(kept + more), kept)
    ensures more != [] ==> FramesDiffer(kept, kept + more) && FramesDiffer(kept + more, kept)
  {
    var all := kept + more;
    assert forall i :: 0 <= i < |kept| ==> all[i] == kept[i];
    FrameChangedMeans(enabled, kept, all);
    FrameChangedMeans(enabled, all, kept);
  }

  class Differ {
    var enabled: bool
    var prev: seq<TableState>
    var cur: seq<TableState>
    var idx: nat
    var rows: nat
    var tables: nat
    var changed: bool

    /** The identities of the baseline are all backed by cells. */
    ghost predicate Valid()
      reads this
    {
      forall i, id :: 0 <= i < |prev| && id in prev[i].order ==> id in prev[i].cells
    }

    /** A frame is open and has rendered `seen` so far. */
    ghost predicate InFrame(seen: seq<Table>)
      reads this
    {
      cur == Snapshots(seen) && idx == |seen| && changed == FrameChanged(enabled, prev, seen)
    }

    constructor (on: bool)
      ensures Valid() && enabled == on && prev == [] && tables == 0 && rows == 0
    {
      enabled, prev, cur, idx, rows, tables, changed := on, [], [], 0, 0, 0, false;
    }

    method SetEnabled(on: bool)
      modifies this`enabled
      ensures enabled == on
    {
      enabled := on;
    }

    method BeginFrame()
      modifies this`cur, this`idx, this`changed
      ensures InFrame([])
    {
      cur, idx, changed := [], 0, false;
    }

    /** Called once per table while a frame renders. */
    method Highlight(cols: seq<string>, rws: seq<Row>, ghost seen: seq<Table>)
      returns (frame: seq<Row>, styles: Option<seq<seq<CellStyle>>>)
      requires Valid() && InFrame(seen)
      modifies this`cur, this`idx, this`changed
      ensures InFrame(seen + [Table(cols, rws)])
      ensures styles.None? ==> frame == rws
      ensures styles.Some? <==> enabled && |seen| < |prev| && prev[|seen|].signature == Signature(cols)
      ensures styles.Some? ==>
        (var now := Snapshot(cols, rws);
         var gone := Departed(prev[|seen|].order, now);
         && frame == rws + GhostRows(|cols|, prev[|seen|], gone)
         && styles.value == AllRowStyles(|cols|, prev[|seen|], now) + GhostStyles(|cols|, |gone|))
      ensures styles.Some? ==> forall before: seq<Table> ::
        prev == Snapshots(before) && |seen| < |before| && before[|seen|].cols == cols ==>
          Shown(cols, before[|seen|].rows, rws, frame, styles.value)
    {
      ghost var t := Table(cols, rws);
      FrameChangedSnoc(enabled, prev, seen, t);
      SnapshotShaped(cols, rws);
      var ordinal := idx;
      idx := idx + 1;
      var state := TakeSnapshot(cols, rws);
      cur := cur + [state];
      assert cur == Snapshots(seen + [t]);
      frame, styles := rws, None;
      if ordinal >= |prev| || prev[ordinal].signature != state.signature {
        return;
      }
      if !enabled {
        var differs := DiffersNow(prev[ordinal], state);
        changed := changed || differs;
        return;
      }
      var matrix, moved;
      frame, matrix, moved := Decorate(cols, rws, prev[ordinal], state);
      changed := changed || moved;
      styles := Some(matrix);
      forall before: seq<Table> | prev == Snapshots(before) && |seen| < |before| && before[|seen|].cols == cols
        ensures Shown(cols, before[|seen|].rows, rws, frame, matrix)
      {
        SnapshotsShow(cols, before[|seen|].rows, rws, frame, matrix);
      }
    }

    method Commit(ghost seen: seq<Table>)
      requires InFrame(seen)
      modifies this`prev, this`rows, this`tables
      ensures Valid() && prev == Snapshots(seen) && tables == |seen| && rows == TotalRows(seen)
    {
      prev := cur;
      rows := 0;
      tables := |cur|;
      for i := 0 to |cur|
        invariant rows == TotalRows(seen[..i])
        invariant prev == cur == Snapshots(seen) && tables == |cur|
      {
        SnapshotShaped(seen[i].cols, seen[i].rows);
        assert seen[..i + 1][..i] == seen[..i];
        rows := rows + |cur[i].order|;
      }
      assert seen[..|seen|] == seen;
      forall i | 0 <= i < |seen| ensures forall id :: id in prev[i].order ==> id in prev[i].cells {
        SnapshotShaped(seen[i].cols, seen[i].rows);
      }
    }

    method Rollback()
      modifies this`cur
      ensures cur == []
    {
      cur := [];
    }
  }

  /** differs() as the code runs it: a loop over the current cells. */
  method DiffersNow(prev: TableState, cur: TableState) returns (r: bool)
    ensures r <==> Differs(prev, cur)
  {
    if |prev.order| != |cur.order| {
      return true;
    }
    var todo := cur.cells.Keys;
    while todo != {}
      invariant todo <= cur.cells.Keys
      invariant forall id :: id in cur.cells && id !in todo ==> id in prev.cells && cur.cells[id] == prev.cells[id]
      decreases |todo|
    {
      var id :| id in todo;
      if id !in prev.cells || cur.cells[id] != prev.cells[id] {
        return true;
      }
      todo := todo - {id};
    }
    r := false;
  }
}
