/**
 What a run of the watch loop (internal/watch/watch.go) may look like from the
 outside: the refreshes it starts and how they end, the keys it takes and acts
 on. `Allowed` is the rule every event has to meet, given what came before it.
 */
module WatchTrace {
  import opened Basics
  import opened FrameDiffer
  import opened WatchErrors

  // ------------------------------------------------------------------- keys

  const ETX := 0x03
  const EOT := 0x04
  const SPACE := 0x20

  datatype KeyClass = Deferred | Immediate | Abort

  predicate IsQuitKey(k: int) { k == 'q' as int || k == 'Q' as int }

  predicate IsInterruptKey(k: int) { k == ETX || k == EOT }

  predicate IsPauseKey(k: int) { k == 'p' as int || k == 'P' as int }

  predicate IsRefreshKey(k: int) { k == SPACE || k == 'r' as int || k == 'R' as int }

  predicate IsScrollKey(k: int) {
    || k in {'j' as int, 'k' as int, 'g' as int, 'G' as int, 0x06, 0x02}
    || k in {0x100, 0x101, 0x104, 0x105, 0x106, 0x107}
  }

  const DIFF_KEY := 'd' as int
  const HELP_KEY := '?' as int
  const ESCAPE_KEY := 0x108

  predicate IsSlowerKey(k: int) { k == '+' as int || k == '=' as int }

  const FASTER_KEY := '-' as int

  function Classify(k: int): KeyClass {
    if IsInterruptKey(k) || IsQuitKey(k) then Abort
    else if IsPauseKey(k) || IsSlowerKey(k) || k == FASTER_KEY || k == HELP_KEY || IsScrollKey(k) || k == ESCAPE_KEY then Immediate
    else Deferred
  }

  // ------------------------------------------------------------------ events

  datatype Options = Options(count: int, exitOnError: bool, untilChange: bool)

  datatype Event =
    | Started(whilePaused: bool)
    | Received(key: int)
    | Acted(key: int, wasPaused: bool)
    | Succeeded(body: seq<byte>, tables: seq<Table>, enabled: bool)
    | Failed(error: Error)
    | CutShort(key: int)

  type Trace = seq<Event>

  function Starts(h: Trace): nat {
    if h == [] then 0 else Starts(h[..|h| - 1]) + (if h[|h| - 1].Started? then 1 else 0)
  }

  function Successes(h: Trace): nat {
    if h == [] then 0 else Successes(h[..|h| - 1]) + (if h[|h| - 1].Succeeded? then 1 else 0)
  }

  /** A refresh is in flight. */
  predicate Open(h: Trace) {
    h != [] && match h[|h| - 1]
      case Started(_) => true
      case Succeeded(_, _, _) => false
      case Failed(_) => false
      case CutShort(_) => false
      case _ => Open(h[..|h| - 1])
  }

  function LastSuccess(h: Trace): Option<Event> {
    if h == [] then None else if h[|h| - 1].Succeeded? then Some(h[|h| - 1]) else LastSuccess(h[..|h| - 1])
  }

  /** The keys that have to wait for a refresh, as received and as acted on. */
  function DeferredReceived(h: Trace): seq<int> {
    if h == [] then []
    else
      var e := h[|h| - 1];
      DeferredReceived(h[..|h| - 1]) + (if e.Received? && Classify(e.key).Deferred? then [e.key] else [])
  }

  function DeferredActed(h: Trace): seq<int> {
    if h == [] then []
    else
      var e := h[|h| - 1];
      DeferredActed(h[..|h| - 1]) + (if e.Acted? && Classify(e.key).Deferred? then [e.key] else [])
  }

  predicate Paused(h: Trace) {
    h != [] && (if h[|h| - 1].Acted? && IsPauseKey(h[|h| - 1].key) then !Paused(h[..|h| - 1]) else Paused(h[..|h| - 1]))
  }

  /** A key that asks for a refresh even while paused. */
  predicate Forces(e: Event) {
    e.Acted? && (IsRefreshKey(e.key) || e.key == DIFF_KEY || (IsPauseKey(e.key) && e.wasPaused))
  }

  /** A refresh is owed: the first one, or one asked for since the last start. */
  predicate Owed(h: Trace) {
    h == [] || (!h[|h| - 1].Started? && (Forces(h[|h| - 1]) || Owed(h[..|h| - 1])))
  }

  predicate IsStopKey(k: int) { IsQuitKey(k) || IsInterruptKey(k) }

  predicate StopKeyActed(h: Trace) {
    h != [] && ((h[|h| - 1].Acted? && IsStopKey(h[|h| - 1].key)) || StopKeyActed(h[..|h| - 1]))
  }

  predicate InterruptActed(h: Trace) {
    h != [] && ((h[|h| - 1].Acted? && IsInterruptKey(h[|h| - 1].key)) || InterruptActed(h[..|h| - 1]))
  }

  /** A failure the loop must not ride out, given what came before it. */
  predicate IsFatal(o: Options, h: Trace, e: Error) {
    || IsCancellation(e)
    || IsAuthFailure(e)
    || (Successes(h) == 0 && !IsTransient(e))
    || o.exitOnError
  }

  predicate FatalSeen(o: Options, h: Trace) {
    h != [] &&
    ((h[|h| - 1].Failed? && IsFatal(o, h[..|h| - 1], h[|h| - 1].error)) || FatalSeen(o, h[..|h| - 1]))
  }

  /** A success that differs from the success before it: in its tables, or in
      its bytes when it rendered no table. */
  ghost predicate IsChange(h: Trace, e: Event)
    requires e.Succeeded?
  {
    var before := LastSuccess(h);
    && before.Some? && before.value.Succeeded?
    && (|| FrameChanged(e.enabled, Snapshots(before.value.tables), e.tables)
        || (e.tables == [] && e.body != before.value.body))
  }

  ghost predicate ChangeSeen(h: Trace) {
    h != [] && ((h[|h| - 1].Succeeded? && IsChange(h[..|h| - 1], h[|h| - 1])) || ChangeSeen(h[..|h| - 1]))
  }

  // ------------------------------------------------------------------- rules

  ghost predicate Allowed(o: Options, h: Trace, e: Event) {
    match e
    case Started(whilePaused) =>
      && !Open(h)
      && (o.count > 0 ==> Starts(h) < o.count)
      && !StopKeyActed(h)
      && !FatalSeen(o, h)
      && (o.untilChange ==> !ChangeSeen(h))
      && whilePaused == Paused(h)
      && (whilePaused ==> Owed(h))
    case Acted(k, wasPaused) =>
      && wasPaused == Paused(h)
      && (Open(h) ==> Classify(k).Immediate?)
      && (Classify(k).Deferred? ==> DeferredActed(h) + [k] <= DeferredReceived(h))
    case Succeeded(_, _, _) => Open(h)
    case Failed(_) => Open(h)
    case CutShort(k) => Open(h) && Classify(k).Abort?
    case Received(_) => true
  }

  ghost predicate Lawful(o: Options, h: Trace) {
    h == [] || (Lawful(o, h[..|h| - 1]) && Allowed(o, h[..|h| - 1], h[|h| - 1]))
  }

  // ---------------------------------------------------------------- theorems

  lemma {:induction false} LawfulPrefix(o: Options, h: Trace, n: nat)
    requires Lawful(o, h) && n <= |h|
    ensures Lawful(o, h[..n])
    decreases |h| - n
  {
    if n == |h| {
      assert h[..n] == h;
    } else {
      LawfulPrefix(o, h[..|h| - 1], n);
      assert h[..|h| - 1][..n] == h[..n];
    }
  }

  lemma LawfulAt(o: Options, h: Trace, i: nat)
    requires Lawful(o, h) && i < |h|
    ensures Allowed(o, h[..i], h[i])
  {
    LawfulPrefix(o, h, i + 1);
    assert h[..i + 1][..i] == h[..i];
  }

  /** The number of refreshes never exceeds a positive count. */
  lemma {:induction false} RendersBounded(o: Options, h: Trace)
    requires Lawful(o, h) && o.count > 0
    ensures Starts(h) <= o.count
  {
    if h != [] { RendersBounded(o, h[..|h| - 1]); }
  }

  lemma {:induction false} StopKeyStays(h: Trace, i: nat, n: nat)
    requires i < n <= |h| && h[i].Acted? && IsStopKey(h[i].key)
    ensures StopKeyActed(h[..n])
    decreases n
  {
    assert h[..n][..n - 1] == h[..n - 1];
    if i < n - 1 { StopKeyStays(h, i, n - 1); }
  }

  /** No refresh starts after a quit or interrupt key has been acted on. */
  lemma NoRenderAfterStopKey(o: Options, h: Trace, i: nat, j: nat)
    requires Lawful(o, h) && i < j < |h| && h[i].Acted? && IsStopKey(h[i].key)
    ensures !h[j].Started?
  {
    LawfulAt(o, h, j);
    StopKeyStays(h, i, j);
  }

  lemma {:induction false} FatalStays(o: Options, h: Trace, i: nat, n: nat)
    requires i < n <= |h| && h[i].Failed? && IsFatal(o, h[..i], h[i].error)
    ensures FatalSeen(o, h[..n])
    decreases n
  {
    assert h[..n][..n - 1] == h[..n - 1];
    if i < n - 1 { FatalStays(o, h, i, n - 1); }
  }

  /** A refresh refused for its credential is the last one of the run. */
  lemma RejectedCredentialIsLast(o: Options, h: Trace, i: nat, j: nat)
    requires Lawful(o, h) && i < j < |h| && h[i].Failed? && IsAuthFailure(h[i].error)
    ensures !h[j].Started?
  {
    LawfulAt(o, h, j);
    FatalStays(o, h, i, j);
  }

  lemma {:induction false} ChangeStays(h: Trace, i: nat, n: nat)
    requires i < n <= |h| && h[i].Succeeded? && IsChange(h[..i], h[i])
    ensures ChangeSeen(h[..n])
    decreases n
  {
    assert h[..n][..n - 1] == h[..n - 1];
    if i < n - 1 { ChangeStays(h, i, n - 1); }
  }

  /** Under until-change, a success that differs from the previous one is the
      last refresh of the run. */
  lemma ChangeIsLast(o: Options, h: Trace, i: nat, j: nat)
    requires Lawful(o, h) && o.untilChange && i < j < |h| && h[i].Succeeded? && IsChange(h[..i], h[i])
    ensures !h[j].Started?
  {
    LawfulAt(o, h, j);
    ChangeStays(h, i, j);
  }

  /** While a refresh is in flight nothing but presentation keys is acted on:
      the highlight switch cannot flip between the start of a refresh and its end. */
  lemma SwitchHeldDuringRefresh(o: Options, h: Trace, i: nat)
    requires Lawful(o, h) && i < |h| && h[i].Acted? && Open(h[..i])
    ensures h[i].key != DIFF_KEY && !IsRefreshKey(h[i].key) && !IsStopKey(h[i].key)
  {
    LawfulAt(o, h, i);
  }

  /** Deferred keys are acted on in the order they arrived, each at most once. */
  lemma {:induction false} DeferredInOrder(o: Options, h: Trace)
    requires Lawful(o, h)
    ensures DeferredActed(h) <= DeferredReceived(h)
  {
    if h != [] {
      DeferredInOrder(o, h[..|h| - 1]);
    }
  }

  /** The witness behind Owed: a forcing key after the last start. */
  lemma {:induction false} OwedWitness(h: Trace)
    requires Owed(h)
    ensures (forall i :: 0 <= i < |h| ==> !h[i].Started?)
            || exists i :: 0 <= i < |h| && Forces(h[i]) && forall j :: i < j < |h| ==> !h[j].Started?
  {
    if h != [] {
      var n := |h| - 1;
      if !Forces(h[n]) {
        var init := h[..n];
        OwedWitness(init);
        if i :| 0 <= i < n && Forces(init[i]) && forall j :: i < j < n ==> !init[j].Started? {
          assert Forces(h[i]);
          assert forall j :: i < j < |h| ==> j == n || h[j] == init[j];
        } else {
          assert forall i :: 0 <= i < n ==> h[i] == init[i];
        }
      }
    }
  }

  /** A refresh starts while paused only as the first one, or because a
      refresh, highlight or resume key was acted on since the previous start. */
  lemma PausedRefreshWasAsked(o: Options, h: Trace, i: nat)
    requires Lawful(o, h) && i < |h| && h[i] == Started(true)
    ensures (forall k :: 0 <= k < i ==> !h[k].Started?)
            || exists k :: 0 <= k < i && Forces(h[k]) && forall j :: k < j < i ==> !h[j].Started?
  {
    LawfulAt(o, h, i);
    var before := h[..i];
    OwedWitness(before);
    if k :| 0 <= k < i && Forces(before[k]) && forall j :: k < j < i ==> !before[j].Started? {
      assert Forces(h[k]);
      assert forall j :: k < j < i ==> h[j] == before[j];
    } else {
      assert forall k :: 0 <= k < i ==> h[k] == before[k];
    }
  }
}
