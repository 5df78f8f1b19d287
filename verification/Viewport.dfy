/**
 The scrolling window of the live display (internal/watch/viewport.go): which
 physical lines of a frame are pinned, which are shown, and what is below.
 */
module Viewport {

  datatype Frame = Frame(head: seq<string>, body: seq<string>, more: nat, first: nat, last: nat)

  // ----------------------------------------------------------------- geometry

  predicate IsBorder(line: string) {
    |line| >= 2 && line[0] == '+' && line[1] == '-'
  }

  /** How many leading lines a table pins: border, header row, rule. */
  function HeadLength(lines: seq<string>): (n: nat)
    ensures n <= |lines| && (n == 0 || n < |lines|)
  {
    if |lines| < 4 || !IsBorder(lines[0]) || !IsBorder(lines[2]) then 0 else 3
  }

  /** The height left for the body before the marker takes its line. */
  function Room(head: nat, rows: int, reserve: int): int {
    rows - reserve - head
  }

  /** The number of body lines a window shows at most. */
  function Height(total: nat, head: nat, rows: int, reserve: int): (h: nat)
    ensures rows > 0 ==> h >= 1
  {
    var room := Room(head, rows, reserve);
    var avail := if room < 1 then 1 else room;
    if rows <= 0 then total
    else if total > avail && avail > 1 then avail - 1
    else avail
  }

  /** The nearest offset at which the window lies inside the body. */
  function Clamp(offset: int, total: nat, height: nat): (at: nat)
    ensures at <= total && (total <= height ==> at == 0)
    ensures height <= total ==> at + height <= total
    ensures 0 <= offset && offset + height <= total ==> at == offset
  {
    var low := if offset > total - height then total - height else offset;
    if low < 0 then 0 else low
  }

  function PageStep(height: int): (n: int)
    ensures n >= 1 && (height >= 2 ==> n == height - 1)
  {
    if height <= 1 then 1 else height - 1
  }

  // ---------------------------------------------------------------- the frame

  /** A window of the given height at the given offset below the pinned head. */
  function Window(head: seq<string>, body: seq<string>, at: nat, height: nat): Frame
    requires at <= |body|
  {
    var end := if at + height < |body| then at + height else |body|;
    Frame(head, body[at..end], |body| - end, if body == [] then 0 else at + 1, if body == [] then 0 else end)
  }

  /** The window is a contiguous slice, and its measurements account for every line
      of the body: above, on screen, below. */
  lemma WindowIsSlice(head: seq<string>, body: seq<string>, offset: int, height: nat)
    ensures var at := Clamp(offset, |body|, height);
      var f := Window(head, body, at, height);
      f.head == head && f.last + f.more == |body| &&
      body == body[..at] + f.body + body[|body| - f.more..] &&
      |f.body| == (if |body| <= height then |body| else height) &&
      (body != [] ==> f.last - f.first + 1 == |f.body|)
  {}

  /** The lines a paint occupies on the screen. */
  function Occupied(f: Frame, reserve: int): int {
    |f.head| + |f.body| + (if f.more > 0 then 1 else 0) + reserve
  }

  /** Exactly when a paint fits the terminal: always with two lines of room, with
      one line when the window shows the end, and with none when there is no body. */
  lemma FitsExactly(head: seq<string>, body: seq<string>, offset: int, rows: int, reserve: int)
    requires rows > 0
    ensures var height := Height(|body|, |head|, rows, reserve);
      var f := Window(head, body, Clamp(offset, |body|, height), height);
      var room := Room(|head|, rows, reserve);
      Occupied(f, reserve) <= rows <==>
        room >= 2 || (room == 1 && (|body| <= 1 || offset >= |body| - 1)) || (room == 0 && body == [])
  {}

  /** Three lines are pinned, the border, the header row and the rule, where a table of
      more than these begins the frame; no line is pinned otherwise. */
  lemma HeadExactly(lines: seq<string>)
    ensures HeadLength(lines) == 3 <==> |lines| > 3 && "+-" <= lines[0] && "+-" <= lines[2]
    ensures HeadLength(lines) == 0 || HeadLength(lines) == 3
  {}

  /** The window is as tall as can be: it shows a body that has room, and else leaves just
      the line for the marker, except that it never shows less than one line. */
  lemma HeightExactly(total: nat, head: nat, rows: int, reserve: int)
    ensures var h := Height(total, head, rows, reserve);
      && (rows <= 0 || (total <= rows - reserve - head && total > 0) ==> h >= total)
      && (rows > 0 && total > rows - reserve - head >= 2 ==> head + h + 1 + reserve == rows)
      && (rows > 0 && rows - reserve - head < 2 ==> h == 1)
  {}

  // --------------------------------------------------------------- the window

  class Viewport {
    var offset: int
    var total: int
    var shown: int

    constructor ()
      ensures offset == 0 && total == 0 && shown == 0
    {
      offset, total, shown := 0, 0, 0;
    }

    /** Windows a frame at the nearest offset inside it. A terminal of no known
        height shows everything. */
    method Apply(lines: seq<string>, rows: int, reserve: int) returns (f: Frame)
      modifies this
      ensures var n := HeadLength(lines);
        total == |lines| - n && shown == Height(total, n, rows, reserve) &&
        offset == (if rows <= 0 then 0 else Clamp(old(offset), total, shown))
      ensures var w := Window(lines[..HeadLength(lines)], lines[HeadLength(lines)..], offset, shown);
        f == if rows <= 0 then w.(first := 1) else w
    {
      var n := HeadLength(lines);
      var head, body := lines[..n], lines[n..];
      if rows <= 0 {
        offset, total, shown := 0, |body|, |body|;
        return Frame(head, body, 0, 1, |body|);
      }
      var avail := rows - reserve - |head|;
      if avail < 1 { avail := 1; }
      if |body| > avail {
        avail := avail - 1;
        if avail < 1 { avail := 1; }
      }
      total, shown := |body|, avail;
      var last := |body| - avail;
      if offset > last { offset := last; }
      if offset < 0 { offset := 0; }
      var end := if offset + avail < |body| then offset + avail else |body|;
      f := Frame(head, body[offset..end], |body| - end, 0, 0);
      if |body| > 0 { f := f.(first := offset + 1, last := end); }
    }

    /** Whether the last paint showed the whole frame. */
    predicate Fits()
      reads this
    {
      total <= shown
    }

    function Page(): (n: int)
      reads this
      ensures n == PageStep(shown)
    {
      if shown <= 1 then 1 else shown - 1
    }

    method Scroll(n: int)
      modifies this`offset
      ensures offset == if old(offset) + n < 0 then 0 else old(offset) + n
    {
      offset := offset + n;
      if offset < 0 { offset := 0; }
    }

    method Top()
      modifies this`offset
      ensures offset == 0
    {
      offset := 0;
    }

    method Bottom()
      modifies this`offset
      ensures offset == total
    {
      offset := total;
    }

    /** The end key and a paint of the same frame: nothing is left below. */
    method ToBottom(lines: seq<string>, rows: int, reserve: int) returns (f: Frame)
      requires total == |lines| - HeadLength(lines)
      modifies this
      ensures f.more == 0 && f.last == total == old(total)
    {
      Bottom();
      f := Apply(lines, rows, reserve);
    }

    /** A page-down key and a paint of the same frame: one more press. */
    method PageDown(lines: seq<string>, rows: int, reserve: int, ghost k: nat) returns (f: Frame)
      requires rows > 0 && total == |lines| - HeadLength(lines)
      requires shown == Height(total, HeadLength(lines), rows, reserve)
      requires offset == AfterPresses(total, shown, k)
      modifies this
      ensures total == old(total) && shown == old(shown)
      ensures offset == AfterPresses(total, shown, k + 1)
      ensures f == Window(lines[..HeadLength(lines)], lines[HeadLength(lines)..], offset, shown)
    {
      var n := Page();
      Scroll(n);
      f := Apply(lines, rows, reserve);
    }
  }

  // ---------------------------------------------------------------- page down

  /** The offset after k presses of page down from the top. */
  function AfterPresses(total: nat, height: nat, k: nat): (at: nat)
    ensures at <= total && (total <= height ==> at == 0)
    ensures height <= total ==> at + height <= total
  {
    if k == 0 then 0 else Clamp(AfterPresses(total, height, k - 1) + PageStep(height), total, height)
  }

  /** Until the end is on screen every press moves the window down. */
  lemma {:induction false} PressesAdvance(total: nat, height: nat, k: nat)
    requires height >= 1
    ensures AfterPresses(total, height, k) + height >= total || AfterPresses(total, height, k) >= k
  {
    if k > 0 { PressesAdvance(total, height, k - 1); }
  }

  /** So the bottom is reached, in no more presses than there are lines, and is
      never left again. */
  lemma {:induction false} BottomReached(total: nat, height: nat, k: nat)
    requires height >= 1 && k + height >= total
    ensures AfterPresses(total, height, k) == if total <= height then 0 else total - height
  {
    PressesAdvance(total, height, k);
  }

  /** Every body line is on screen after some number of presses, no more than its
      own position: consecutive windows leave no gap. */
  lemma {:induction false} EveryLineShown(total: nat, height: nat, line: nat)
    requires line < total && height >= 1
    ensures exists k: nat :: k <= line && AfterPresses(total, height, k) <= line < AfterPresses(total, height, k) + height
  {
    if line < height {
      assert AfterPresses(total, height, 0) <= line < AfterPresses(total, height, 0) + height;
    } else {
      EveryLineShown(total, height, line - 1);
      var k: nat :| k <= line - 1 && AfterPresses(total, height, k) <= line - 1 < AfterPresses(total, height, k) + height;
      if line < AfterPresses(total, height, k) + height {
        assert AfterPresses(total, height, k) <= line < AfterPresses(total, height, k) + height;
      } else {
        assert AfterPresses(total, height, k + 1) <= line < AfterPresses(total, height, k + 1) + height;
      }
    }
  }

  /** A refresh of any other length leaves the window inside the new body, and no
      further up than it must be. */
  lemma ShorterRefresh(offset: nat, total: nat, height: nat, other: nat)
    requires height >= 1 && other <= offset && (other == 0 || other + height <= total)
    ensures other <= Clamp(offset, total, height) <= offset
    ensures total > 0 ==> Clamp(offset, total, height) < total
  {}
}
