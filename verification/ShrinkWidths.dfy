/** Column width allocation of internal/output/output.go (shrinkWidths). */
module ShrinkWidths {

  function Sum(ws: seq<int>): int {
    if ws == [] then 0 else Sum(ws[..|ws| - 1]) + ws[|ws| - 1]
  }

  /** The width of a table: one border character, and three per column besides its content. */
  function TableWidth(ws: seq<int>): int {
    1 + Sum(ws) + 3 * |ws|
  }

  function Max(a: int, b: int): int { if a > b then a else b }

  /** The total of the columns no wider than the fair share. */
  function NarrowSum(natural: seq<int>, fair: int): int {
    if natural == [] then 0
    else
      var w := natural[|natural| - 1];
      NarrowSum(natural[..|natural| - 1], fair) + (if w <= fair then w else 0)
  }

  function WideCount(natural: seq<int>, fair: int): nat {
    if natural == [] then 0
    else WideCount(natural[..|natural| - 1], fair) + (if natural[|natural| - 1] <= fair then 0 else 1)
  }

  /** Narrow columns keep their width, wide ones get `share`, the last of them `last`. */
  function Allocation(natural: seq<int>, fair: int, share: int, last: int): (ws: seq<int>)
    ensures |ws| == |natural|
  {
    if natural == [] then []
    else
      var n := |natural| - 1;
      if natural[n] <= fair then Allocation(natural[..n], fair, share, last) + [natural[n]]
      else Allocation(natural[..n], fair, share, share) + [last]
  }

  lemma {:induction false} AllocationSum(natural: seq<int>, fair: int, share: int, last: int)
    ensures var k := WideCount(natural, fair);
      Sum(Allocation(natural, fair, share, last)) == NarrowSum(natural, fair) + (if k == 0 then 0 else (k - 1) * share + last)
  {
    if natural != [] {
      var n := |natural| - 1;
      var init := natural[..n];
      var ws := Allocation(natural, fair, share, last);
      if natural[n] <= fair {
        AllocationSum(init, fair, share, last);
        assert ws[..n] == Allocation(init, fair, share, last);
      } else {
        AllocationSum(init, fair, share, share);
        assert ws[..n] == Allocation(init, fair, share, share);
        var k := WideCount(init, fair);
        assert k > 0 ==> (k - 1) * share + share == k * share;
      }
    }
  }

  /** Whether column i is the last wide one. */
  ghost predicate LastWide(natural: seq<int>, fair: int, i: nat) {
    forall j :: i < j < |natural| ==> natural[j] <= fair
  }

  lemma {:induction false} AllocationAt(natural: seq<int>, fair: int, share: int, last: int, i: nat)
    requires i < |natural|
    ensures Allocation(natural, fair, share, last)[i] ==
      if natural[i] <= fair then natural[i] else if LastWide(natural, fair, i) then last else share
  {
    var n := |natural| - 1;
    if i < n {
      var init := natural[..n];
      if natural[n] <= fair {
        AllocationAt(init, fair, share, last, i);
        assert LastWide(natural, fair, i) <==> LastWide(init, fair, i) by {
          assert forall j :: i < j < n ==> natural[j] == init[j];
        }
      } else {
        AllocationAt(init, fair, share, share, i);
        assert !LastWide(natural, fair, i);
      }
    }
  }

  /** Narrow columns leave at least the fair share to each wide one. */
  lemma {:induction false} NarrowBound(natural: seq<int>, fair: int)
    requires fair >= 0
    ensures NarrowSum(natural, fair) + WideCount(natural, fair) * fair <= |natural| * fair
  {
    if natural != [] {
      var init := natural[..|natural| - 1];
      NarrowBound(init, fair);
      assert |natural| * fair == |init| * fair + fair;
      var k := WideCount(init, fair);
      assert (k + 1) * fair == k * fair + fair;
    }
  }

  lemma {:induction false} AllNarrow(natural: seq<int>, fair: int)
    requires WideCount(natural, fair) == 0
    ensures NarrowSum(natural, fair) == Sum(natural)
  {
    if natural != [] { AllNarrow(natural[..|natural| - 1], fair); }
  }

  lemma ShareBound(rest: int, k: int)
    requires rest >= 0 && k >= 1
    ensures 0 <= rest / k && (rest / k) * k <= rest < (rest / k) * k + k
  {}

  lemma ScaleMonotone(k: nat, a: int, b: int)
    requires a <= b
    ensures k * a <= k * b
    ensures k > 0 && a < b ==> k * a < k * b
  {
    assert k * b == k * a + k * (b - a);
  }

  lemma ShareAtLeast(rest: int, k: nat, fair: int)
    requires k >= 1 && fair >= 0 && rest >= k * fair
    ensures rest / k >= fair
  {
    ShareBound(rest, k);
    var q := rest / k;
    assert (q + 1) * k == q * k + k;
    if q + 1 <= fair { ScaleMonotone(k, q + 1, fair); }
  }

  ghost function Usable(natural: seq<int>, termWidth: int): int {
    Max(termWidth - 1 - 3 * |natural|, 0)
  }

  ghost function Fair(natural: seq<int>, termWidth: int): int
    requires natural != []
  {
    Usable(natural, termWidth) / |natural|
  }

  ghost function Rest(natural: seq<int>, termWidth: int): int
    requires natural != []
  {
    Usable(natural, termWidth) - NarrowSum(natural, Fair(natural, termWidth))
  }

  lemma RestBound(natural: seq<int>, termWidth: int)
    requires natural != []
    ensures var fair := Fair(natural, termWidth); fair >= 0 && Rest(natural, termWidth) >= WideCount(natural, fair) * fair
  {
    var usable, fair := Usable(natural, termWidth), Fair(natural, termWidth);
    ShareBound(usable, |natural|);
    NarrowBound(natural, fair);
  }

  /** The widths a terminal leaves: the natural ones if they fit; otherwise narrow
      columns keep theirs, and wide ones share what those leave. */
  ghost predicate IsShrunk(natural: seq<int>, termWidth: int, minWidth: int, out: seq<int>) {
    if TableWidth(natural) <= termWidth || natural == [] then out == natural
    else
      var fair := Fair(natural, termWidth);
      var k, rest := WideCount(natural, fair), Rest(natural, termWidth);
      if k == 0 then out == natural
      else out == Allocation(natural, fair, Max(minWidth, rest / k), Max(minWidth, rest - (k - 1) * (rest / k)))
  }

  /** shrinkWidths. */
  method Shrink(natural: seq<int>, termWidth: int, minWidth: int) returns (out: seq<int>)
    ensures |out| == |natural| && IsShrunk(natural, termWidth, minWidth, out)
  {
    var ncols := |natural|;
    var total := 1;
    for i := 0 to ncols
      invariant total == TableWidth(natural[..i])
    {
      assert natural[..i + 1][..i] == natural[..i];
      total := total + natural[i] + 3;
    }
    assert natural[..ncols] == natural;
    if total <= termWidth || ncols == 0 {
      return natural;
    }
    var usable := termWidth - 1 - 3 * ncols;
    if usable < 0 {
      usable := 0;
    }
    var fair := usable / ncols;
    var remaining, shrink := Divide(natural, usable, fair);
    if |shrink| == 0 {
      return natural;
    }
    RestBound(natural, termWidth);
    out := Assign(natural, fair, minWidth, remaining, shrink);
  }

  /** The wide columns, ascending. */
  function WideList(natural: seq<int>, fair: int): (shrink: seq<nat>)
    ensures |shrink| == WideCount(natural, fair)
    ensures forall j :: 0 <= j < |shrink| ==> shrink[j] < |natural| && natural[shrink[j]] > fair
  {
    if natural == [] then []
    else
      var n := |natural| - 1;
      if natural[n] <= fair then WideList(natural[..n], fair) else WideList(natural[..n], fair) + [n]
  }

  /** The columns to shrink and the width left for them. */
  method Divide(natural: seq<int>, usable: int, fair: int) returns (remaining: int, shrink: seq<nat>)
    ensures remaining == usable - NarrowSum(natural, fair)
    ensures shrink == WideList(natural, fair)
  {
    remaining, shrink := usable, [];
    for i := 0 to |natural|
      invariant remaining == usable - NarrowSum(natural[..i], fair)
      invariant shrink == WideList(natural[..i], fair)
    {
      assert natural[..i + 1][..i] == natural[..i];
      if natural[i] <= fair {
        remaining := remaining - natural[i];
      } else {
        shrink := shrink + [i];
      }
    }
    assert natural[..|natural|] == natural;
  }

  /** Where the list stops, nothing wide is left out. */
  ghost function Bound(natural: seq<int>, shrink: seq<nat>, j: nat): int {
    if j < |shrink| then shrink[j] else |natural|
  }

  lemma {:induction false} NoWideBetween(natural: seq<int>, fair: int, j: nat, i: nat)
    requires i < |natural| && natural[i] > fair && j < WideCount(natural, fair)
    ensures var shrink := WideList(natural, fair);
      && shrink[j] < Bound(natural, shrink, j + 1)
      && (i < Bound(natural, shrink, j + 1) ==> i <= shrink[j])
      && Bound(natural, shrink, 0) <= i
  {
    var n := |natural| - 1;
    var shrink := WideList(natural, fair);
    var init := natural[..n];
    var before := WideList(init, fair);
    if natural[n] <= fair {
      NoWideBetween(init, fair, j, i);
    } else {
      assert shrink == before + [n];
      if i < n && j < |before| {
        NoWideBetween(init, fair, j, i);
      } else if i < n {
        WideExists(init, fair, i);
        NoWideBetween(init, fair, 0, i);
      } else if j < |before| {
        NoWideBetween(init, fair, j, before[j]);
      }
    }
  }

  lemma {:induction false} WideExists(natural: seq<int>, fair: int, i: nat)
    requires i < |natural| && natural[i] > fair
    ensures WideCount(natural, fair) > 0
  {
    if i < |natural| - 1 { WideExists(natural[..|natural| - 1], fair, i); }
  }

  /** After j assignments the wide columns before the j-th have their share. */
  ghost predicate Assigned(natural: seq<int>, fair: int, shrink: seq<nat>, j: nat, share: int, out: seq<int>) {
    && |out| == |natural|
    && forall i :: 0 <= i < |natural| ==>
        out[i] == if natural[i] > fair && i < Bound(natural, shrink, j) then share else natural[i]
  }

  lemma AssignNext(natural: seq<int>, fair: int, j: nat, share: int, out: seq<int>)
    requires j < WideCount(natural, fair) && Assigned(natural, fair, WideList(natural, fair), j, share, out)
    ensures var shrink := WideList(natural, fair);
      Assigned(natural, fair, shrink, j + 1, share, out[shrink[j] := share])
  {
    var shrink := WideList(natural, fair);
    forall i: nat | i < |natural| && natural[i] > fair
      ensures (i < Bound(natural, shrink, j + 1) <==> i < shrink[j] || i == shrink[j])
    {
      NoWideBetween(natural, fair, j, i);
    }
  }

  method Assign(natural: seq<int>, fair: int, minWidth: int, rest: int, shrink: seq<nat>) returns (out: seq<int>)
    requires shrink != [] && shrink == WideList(natural, fair) && rest >= 0
    ensures var k := |shrink|;
      out == Allocation(natural, fair, Max(minWidth, rest / k), Max(minWidth, rest - (k - 1) * (rest / k)))
  {
    out := natural;
    var remaining, k := rest, |shrink|;
    var shrinkTo := rest / k;
    var share := Max(minWidth, shrinkTo);
    forall i: nat | i < |natural| && natural[i] > fair ensures shrink[0] <= i { NoWideBetween(natural, fair, 0, i); }
    for j := 0 to k - 1
      invariant remaining == rest - j * shrinkTo
      invariant Assigned(natural, fair, shrink, j, share, out)
    {
      assert (j + 1) * shrinkTo == j * shrinkTo + shrinkTo;
      AssignNext(natural, fair, j, share, out);
      out := out[shrink[j] := share];
      remaining := remaining - shrinkTo;
    }
    var width := Max(minWidth, remaining);
    AssignedIsAllocation(natural, fair, share, width, out);
    out := out[shrink[k - 1] := width];
  }

  lemma AssignedIsAllocation(natural: seq<int>, fair: int, share: int, width: int, out: seq<int>)
    requires WideCount(natural, fair) > 0
    requires Assigned(natural, fair, WideList(natural, fair), WideCount(natural, fair) - 1, share, out)
    ensures var shrink := WideList(natural, fair);
      out[shrink[|shrink| - 1] := width] == Allocation(natural, fair, share, width)
  {
    var shrink := WideList(natural, fair);
    var last := shrink[|shrink| - 1];
    forall i: nat | i < |natural| && natural[i] > fair ensures i <= last { NoWideBetween(natural, fair, |shrink| - 1, i); }
    forall i: nat | i < |natural|
      ensures out[last := width][i] == Allocation(natural, fair, share, width)[i]
    {
      AllocationAt(natural, fair, share, width, i);
      if natural[i] > fair && i != last { assert natural[last] > fair; }
    }
  }

  /** The shares add up to what there is exactly while the floor stays out of the way. */
  lemma SharesFill(k: nat, rest: int, minWidth: int)
    requires k >= 1 && rest >= 0
    ensures var q := rest / k;
      (k - 1) * Max(minWidth, q) + Max(minWidth, rest - (k - 1) * q) == rest <==> minWidth <= q
  {
    ShareBound(rest, k);
    var q := rest / k;
    assert (k - 1) * q + q == k * q;
    ScaleMonotone(k - 1, q, Max(minWidth, q));
  }

  /** When the natural widths do not fit, the allocation fills the usable width
      exactly if and only if the floor stays below an equal share of what the
      narrow columns leave; every wide column then gets at least the floor. */
  lemma FillsExactly(natural: seq<int>, termWidth: int, minWidth: int)
    requires natural != [] && TableWidth(natural) > termWidth && termWidth - 1 - 3 * |natural| >= 0
    ensures var fair := Fair(natural, termWidth);
      var k, rest := WideCount(natural, fair), Rest(natural, termWidth);
      && k >= 1
      && (var out := Allocation(natural, fair, Max(minWidth, rest / k), Max(minWidth, rest - (k - 1) * (rest / k)));
          (TableWidth(out) == termWidth <==> minWidth <= rest / k) &&
          forall i :: 0 <= i < |natural| ==> if natural[i] > fair then out[i] >= minWidth else out[i] == natural[i])
  {
    var fair := Fair(natural, termWidth);
    var k, rest := WideCount(natural, fair), Rest(natural, termWidth);
    RestBound(natural, termWidth);
    if k == 0 { AllNarrow(natural, fair); }
    assert k >= 1;
    ShareAtLeast(rest, k, fair);
    ShareBound(rest, k);
    AllocationSum(natural, fair, Max(minWidth, rest / k), Max(minWidth, rest - (k - 1) * (rest / k)));
    SharesFill(k, rest, minWidth);
    var share, last := Max(minWidth, rest / k), Max(minWidth, rest - (k - 1) * (rest / k));
    forall i | 0 <= i < |natural|
      ensures var w := Allocation(natural, fair, share, last)[i]; if natural[i] > fair then w >= minWidth else w == natural[i]
    {
      AllocationAt(natural, fair, share, last, i);
    }
  }

  /** The guarantee a caller gets from the terminal width alone. */
  lemma RoomMeansExact(natural: seq<int>, termWidth: int, minWidth: int)
    requires natural != [] && minWidth >= 1 && termWidth >= 1 + |natural| * (minWidth + 3)
    ensures var fair := Fair(natural, termWidth); fair >= minWidth
    ensures WideCount(natural, Fair(natural, termWidth)) >= 1 ==>
      Rest(natural, termWidth) / WideCount(natural, Fair(natural, termWidth)) >= minWidth
  {
    var n := |natural|;
    assert n * (minWidth + 3) == n * minWidth + 3 * n;
    assert n * minWidth >= 0;
    ShareAtLeast(Usable(natural, termWidth), n, minWidth);
    var fair := Fair(natural, termWidth);
    RestBound(natural, termWidth);
    var k := WideCount(natural, fair);
    if k >= 1 { ShareAtLeast(Rest(natural, termWidth), k, fair); }
  }

  /** What that means for the widths: the table fills the terminal, and a column is
      either at least as wide as the floor or as wide as it was. */
  lemma RoomShrinks(natural: seq<int>, termWidth: int, minWidth: int, out: seq<int>)
    requires natural != [] && minWidth >= 1 && termWidth >= 1 + |natural| * (minWidth + 3)
    requires TableWidth(natural) > termWidth && IsShrunk(natural, termWidth, minWidth, out)
    ensures |out| == |natural| && TableWidth(out) == termWidth
    ensures forall i :: 0 <= i < |out| ==> out[i] >= minWidth || out[i] == natural[i]
  {
    var n := |natural|;
    assert n * (minWidth + 3) == n * minWidth + 3 * n;
    assert n * minWidth >= 0;
    RoomMeansExact(natural, termWidth, minWidth);
    FillsExactly(natural, termWidth, minWidth);
  }

  // ------------------------------------------------------------ who gets what

  /** A column wider than an equal part of the usable width. */
  ghost predicate Wide(natural: seq<int>, usable: int, i: int) {
    0 <= i < |natural| && natural[i] * |natural| > usable
  }

  ghost predicate WideAfter(natural: seq<int>, usable: int, i: int) { exists j :: j > i && Wide(natural, usable, j) }

  /** All the usable width is given out: narrow columns get their own, wide ones the same
      share each, and the last wide one what is left over as well. */
  ghost predicate Shared(natural: seq<int>, usable: int, given: seq<int>, share: int) {
    && |given| == |natural| && Sum(given) == usable
    && forall i :: 0 <= i < |given| ==>
        if !Wide(natural, usable, i) then given[i] == natural[i]
        else if WideAfter(natural, usable, i) then given[i] == share
        else share <= given[i] < share + |set j | 0 <= j < |natural| && Wide(natural, usable, j)|
  }

  /** Wide columns get what is given to them, or the floor if that is more. */
  ghost predicate Floored(natural: seq<int>, usable: int, minWidth: int, given: seq<int>, out: seq<int>) {
    |given| == |out| == |natural| &&
    forall i :: 0 <= i < |out| ==> out[i] == if Wide(natural, usable, i) && given[i] < minWidth then minWidth else given[i]
  }

  lemma WideMeans(natural: seq<int>, usable: int, i: nat)
    requires i < |natural| && usable >= 0
    ensures Wide(natural, usable, i) <==> natural[i] > usable / |natural|
  {
    var n, fair, w := |natural|, usable / |natural|, natural[i];
    ShareBound(usable, n);
    assert (fair + 1) * n == fair * n + n;
    if w > fair { ScaleMonotone(n, fair + 1, w); } else { ScaleMonotone(n, w, fair); }
  }

  lemma {:induction false} WideCounted(natural: seq<int>, fair: int)
    ensures WideCount(natural, fair) == |set j | 0 <= j < |natural| && natural[j] > fair|
  {
    if natural != [] {
      var n := |natural| - 1;
      WideCounted(natural[..n], fair);
      var before := set j | 0 <= j < n && natural[..n][j] > fair;
      var all := set j | 0 <= j < |natural| && natural[j] > fair;
      assert all == if natural[n] > fair then before + {n} else before;
    }
  }

  lemma AfterIsLast(natural: seq<int>, usable: int, i: nat)
    requires i < |natural| && usable >= 0
    ensures WideAfter(natural, usable, i) <==> !LastWide(natural, usable / |natural|, i)
  {
    forall j: nat | j < |natural| ensures Wide(natural, usable, j) <==> natural[j] > usable / |natural| { WideMeans(natural, usable, j); }
  }

  /** What is left for the last wide column. */
  ghost function Last(rest: int, k: nat): int
    requires k >= 1
  {
    rest - (k - 1) * (rest / k)
  }

  lemma LastIs(rest: int, k: nat)
    requires rest >= 0 && k >= 1
    ensures rest / k <= Last(rest, k) < rest / k + k
  {
    ShareBound(rest, k);
    var q := rest / k;
    assert (k - 1) * q + q == k * q;
  }

  lemma RestIsThere(natural: seq<int>, usable: int)
    requires natural != [] && usable >= 0
    ensures usable - NarrowSum(natural, usable / |natural|) >= 0
  {
    var fair := usable / |natural|;
    ShareBound(usable, |natural|);
    NarrowBound(natural, fair);
    ScaleMonotone(WideCount(natural, fair), 0, fair);
  }

  lemma Given(natural: seq<int>, usable: int, k: nat, rest: int)
    requires natural != [] && usable >= 0 && k >= 1
    requires k == WideCount(natural, usable / |natural|) && rest == usable - NarrowSum(natural, usable / |natural|)
    ensures Shared(natural, usable, Allocation(natural, usable / |natural|, rest / k, Last(rest, k)), rest / k)
  {
    RestIsThere(natural, usable);
    LastIs(rest, k);
    GivenAt(natural, usable, rest / k, Last(rest, k));
    AllocationSum(natural, usable / |natural|, rest / k, Last(rest, k));
  }

  lemma GivenAt(natural: seq<int>, usable: int, share: int, last: int)
    requires natural != [] && usable >= 0 && share <= last < share + WideCount(natural, usable / |natural|)
    ensures var given := Allocation(natural, usable / |natural|, share, last);
      forall i :: 0 <= i < |given| ==>
        if !Wide(natural, usable, i) then given[i] == natural[i]
        else if WideAfter(natural, usable, i) then given[i] == share
        else share <= given[i] < share + |set j | 0 <= j < |natural| && Wide(natural, usable, j)|
  {
    var fair := usable / |natural|;
    WideCounted(natural, fair);
    forall j: nat | j < |natural| ensures Wide(natural, usable, j) <==> natural[j] > fair { WideMeans(natural, usable, j); }
    assert (set j | 0 <= j < |natural| && Wide(natural, usable, j)) == set j | 0 <= j < |natural| && natural[j] > fair;
    forall i: nat | i < |natural|
      ensures Allocation(natural, fair, share, last)[i] ==
        if !Wide(natural, usable, i) then natural[i] else if WideAfter(natural, usable, i) then share else last
    {
      AllocationAt(natural, fair, share, last, i);
      AfterIsLast(natural, usable, i);
    }
  }

  lemma FlooredAt(natural: seq<int>, usable: int, minWidth: int, share: int, last: int)
    requires natural != [] && usable >= 0
    ensures var fair := usable / |natural|;
      Floored(natural, usable, minWidth, Allocation(natural, fair, share, last),
              Allocation(natural, fair, Max(minWidth, share), Max(minWidth, last)))
  {
    var fair := usable / |natural|;
    forall i: nat | i < |natural|
      ensures var w, g := Allocation(natural, fair, Max(minWidth, share), Max(minWidth, last))[i], Allocation(natural, fair, share, last)[i];
        w == if Wide(natural, usable, i) && g < minWidth then minWidth else g
    {
      WideMeans(natural, usable, i);
      AllocationAt(natural, fair, share, last, i);
      AllocationAt(natural, fair, Max(minWidth, share), Max(minWidth, last), i);
    }
  }

  /** What a table that does not fit is shrunk to: nothing if no column is wide, and else
      what the usable width gives every column, but no wide column less than the floor. */
  lemma ShrunkExactly(natural: seq<int>, termWidth: int, minWidth: int, out: seq<int>) returns (given: seq<int>, share: int)
    requires natural != [] && TableWidth(natural) > termWidth && IsShrunk(natural, termWidth, minWidth, out)
    ensures var usable := if termWidth - 1 - 3 * |natural| < 0 then 0 else termWidth - 1 - 3 * |natural|;
      if exists i :: Wide(natural, usable, i)
      then Shared(natural, usable, given, share) && Floored(natural, usable, minWidth, given, out)
      else out == natural
  {
    var usable := Usable(natural, termWidth);
    given, share := [], 0;
    if i :| Wide(natural, usable, i) {
      WideMeans(natural, usable, i);
      WideExists(natural, Fair(natural, termWidth), i);
      given, share := ShrunkWide(natural, usable, minWidth);
    } else {
      NoneWide(natural, usable);
    }
  }

  lemma ShrunkWide(natural: seq<int>, usable: int, minWidth: int) returns (given: seq<int>, share: int)
    requires natural != [] && usable >= 0 && WideCount(natural, usable / |natural|) >= 1
    ensures Shared(natural, usable, given, share)
    ensures var fair := usable / |natural|;
      var k, rest := WideCount(natural, fair), usable - NarrowSum(natural, fair);
      Floored(natural, usable, minWidth, given, Allocation(natural, fair, Max(minWidth, rest / k), Max(minWidth, Last(rest, k))))
  {
    var fair := usable / |natural|;
    var k, rest := WideCount(natural, fair), usable - NarrowSum(natural, fair);
    share := rest / k;
    given := Allocation(natural, fair, share, Last(rest, k));
    Given(natural, usable, k, rest);
    FlooredAt(natural, usable, minWidth, share, Last(rest, k));
  }

  lemma NoneWide(natural: seq<int>, usable: int)
    requires natural != [] && usable >= 0 && forall i :: !Wide(natural, usable, i)
    ensures WideCount(natural, usable / |natural|) == 0
  {
    WideCounted(natural, usable / |natural|);
    var wide := set j | 0 <= j < |natural| && natural[j] > usable / |natural|;
    if j :| j in wide { WideMeans(natural, usable, j); }
  }
}
