/** The tab-separated writer of internal/output/output.go and its exact inverse. */
module Tsv {
  import opened Basics
  import opened Text

  type Row = seq<string>

  /** tsvEscaper. */
  function Escape(s: string): (r: string)
    ensures '\t' !in r && '\n' !in r
  {
    if s == [] then []
    else
      (if s[0] == '\\' then ['\\', '\\'] else if s[0] == '\t' then ['\\', 't'] else if s[0] == '\n' then ['\\', 'n'] else [s[0]])
      + Escape(s[1..])
  }

  function EscapeAll(row: Row): (r: Row)
    ensures |r| == |row| && forall i :: 0 <= i < |r| ==> r[i] == Escape(row[i])
  {
    seq(|row|, i requires 0 <= i < |row| => Escape(row[i]))
  }

  /** One row as one line, without its line feed. */
  function Line(row: Row): string { Join(EscapeAll(row), '\t') }

  function Tsv(rows: seq<Row>): string {
    if rows == [] then [] else Tsv(rows[..|rows| - 1]) + Line(rows[|rows| - 1]) + ['\n']
  }

  /** writeTSV. */
  method WriteTsv(rows: seq<Row>) returns (out: string)
    ensures out == Tsv(rows)
  {
    out := "";
    for k := 0 to |rows|
      invariant out == Tsv(rows[..k])
    {
      var cells: Row := [];
      for i := 0 to |rows[k]|
        invariant |cells| == i && forall j :: 0 <= j < i ==> cells[j] == Escape(rows[k][j])
      {
        cells := cells + [Escape(rows[k][i])];
      }
      assert cells == EscapeAll(rows[k]);
      assert rows[..k + 1][..k] == rows[..k];
      out := out + Join(cells, '\t') + ['\n'];
    }
    assert rows[..|rows|] == rows;
  }

  // ------------------------------------------------------------ reading back

  /** Undoes the three escapes; any other escaped character stands for itself. */
  function Unescape(s: string): string {
    if s == [] then []
    else if s[0] != '\\' || |s| == 1 then [s[0]] + Unescape(s[1..])
    else [if s[1] == 't' then '\t' else if s[1] == 'n' then '\n' else s[1]] + Unescape(s[2..])
  }

  lemma {:induction false} UnescapeEscape(s: string)
    ensures Unescape(Escape(s)) == s
  {
    if s != [] {
      UnescapeEscape(s[1..]);
      var e, rest := Escape(s), Escape(s[1..]);
      assert s == [s[0]] + s[1..];
      if s[0] == '\\' || s[0] == '\t' || s[0] == '\n' {
        assert e[2..] == rest;
      } else {
        assert e[1..] == rest;
      }
    }
  }

  function UnescapeAll(row: Row): Row {
    seq(|row|, i requires 0 <= i < |row| => Unescape(row[i]))
  }

  function ReadLine(line: string): Row { UnescapeAll(Split(line, '\t')) }

  /** Splits on line feeds (the last one ends the last line), then on tabs. */
  function Read(text: string): seq<Row> {
    var lines := Split(text, '\n');
    ReadLines(lines[..|lines| - 1])
  }

  function ReadLines(lines: seq<string>): (rows: seq<Row>)
    ensures |rows| == |lines| && forall i :: 0 <= i < |rows| ==> rows[i] == ReadLine(lines[i])
  {
    if lines == [] then [] else ReadLines(lines[..|lines| - 1]) + [ReadLine(lines[|lines| - 1])]
  }

  /** What a reader gets back for a row: itself, but a row without cells is
      indistinguishable from a row of one empty cell. */
  function Seen(row: Row): Row { if row == [] then [""] else row }

  lemma LineReadsBack(row: Row)
    ensures '\n' !in Line(row) && ReadLine(Line(row)) == Seen(row)
  {
    NoNewlineInJoin(EscapeAll(row));
    if row == [] {
      assert Split("", '\t') == [""];
      assert UnescapeAll([""]) == [""];
    } else {
      SplitOfJoin(EscapeAll(row), '\t');
      forall i | 0 <= i < |row| ensures Unescape(Escape(row[i])) == row[i] { UnescapeEscape(row[i]); }
      assert UnescapeAll(EscapeAll(row)) == row;
    }
  }

  lemma {:induction false} NoNewlineInJoin(parts: seq<string>)
    requires forall i :: 0 <= i < |parts| ==> '\n' !in parts[i]
    ensures '\n' !in Join(parts, '\t')
  {
    if |parts| > 1 { NoNewlineInJoin(parts[1..]); }
  }

  function Lines(rows: seq<Row>): seq<string> {
    seq(|rows|, i requires 0 <= i < |rows| => Line(rows[i]))
  }

  lemma {:induction false} TsvIsLines(rows: seq<Row>)
    ensures Tsv(rows) == Join(Lines(rows) + [""], '\n')
  {
    if rows != [] {
      var n := |rows| - 1;
      TsvIsLines(rows[..n]);
      assert Lines(rows) == Lines(rows[..n]) + [Line(rows[n])];
      JoinSnoc(Lines(rows[..n]), Line(rows[n]));
    }
  }

  lemma {:induction false} JoinSnoc(parts: seq<string>, last: string)
    ensures Join(parts + [last] + [""], '\n') == Join(parts + [""], '\n') + last + ['\n']
  {
    var all := parts + [last] + [""];
    if parts == [] {
      assert all[1..] == [""];
      assert parts + [""] == [""];
    } else {
      JoinSnoc(parts[1..], last);
      var short := parts + [""];
      assert all[1..] == parts[1..] + [last] + [""];
      assert short[1..] == parts[1..] + [""];
      var head, mid := parts[0] + ['\n'], Join(parts[1..] + [""], '\n');
      assert head + (mid + last + ['\n']) == head + mid + last + ['\n'];
    }
  }

  /** Reading the output back gives every row, cell by cell. */
  lemma ReadsBack(rows: seq<Row>)
    ensures |Read(Tsv(rows))| == |rows| && forall i :: 0 <= i < |rows| ==> Read(Tsv(rows))[i] == Seen(rows[i])
  {
    SplitsToLines(rows);
    assert (Lines(rows) + [""])[..|rows|] == Lines(rows);
    assert Read(Tsv(rows)) == ReadLines(Lines(rows));
    forall i | 0 <= i < |rows| ensures ReadLine(Lines(rows)[i]) == Seen(rows[i]) {
      LineReadsBack(rows[i]);
    }
  }

  lemma SplitsToLines(rows: seq<Row>)
    ensures Split(Tsv(rows), '\n') == Lines(rows) + [""]
  {
    var lines := Lines(rows) + [""];
    TsvIsLines(rows);
    forall i | 0 <= i < |lines| ensures '\n' !in lines[i] {
      if i < |rows| { LineReadsBack(rows[i]); }
    }
    SplitOfJoin(lines, '\n');
  }

  /** The original rows come back exactly when each has at least one cell. */
  lemma RoundTrip(rows: seq<Row>)
    ensures Read(Tsv(rows)) == rows <==> forall i :: 0 <= i < |rows| ==> rows[i] != []
  {
    ReadsBack(rows);
    var back := Read(Tsv(rows));
    assert forall i :: 0 <= i < |rows| ==> back[i] == Seen(rows[i]);
    if back == rows {
      assert forall i :: 0 <= i < |rows| ==> rows[i] == Seen(rows[i]);
    }
  }

  // ---------------------------------------------------------- what is written

  /** A backslash, a tab and a line feed are written as two characters, any other as itself. */
  ghost predicate Writes(c: char, e: string) {
    e == if c == '\\' then "\\\\" else if c == '\t' then "\\t" else if c == '\n' then "\\n" else [c]
  }

  /** A cell is written character by character. */
  lemma {:induction false} EscapedExactly(s: string) returns (pieces: seq<string>)
    ensures |pieces| == |s| && forall i :: 0 <= i < |s| ==> Writes(s[i], pieces[i])
    ensures Escape(s) == Flatten(pieces)
  {
    pieces := [];
    if s != [] {
      var rest := EscapedExactly(s[1..]);
      var first := if s[0] == '\\' then "\\\\" else if s[0] == '\t' then "\\t" else if s[0] == '\n' then "\\n" else [s[0]];
      pieces := [first] + rest;
      FlattenCons(first, rest);
    }
  }
}
