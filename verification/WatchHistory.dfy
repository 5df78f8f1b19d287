/**
 What every run of the loop looks like: its events are lawful (`WatchTrace`), the
 loop's fields are what the events say, and events and inputs account for each
 other.
 */
module WatchHistory {
  import opened Basics
  import opened FrameDiffer
  import opened WatchErrors
  import opened WatchTrace
  import opened WatchMachine

  // ------------------------------------------------- fields against history

  ghost predicate Agrees(o: Options, h: Trace, f: Facts) {
    && Lawful(o, h)
    && f.attempts == Starts(h)
    && f.frames == Successes(h)
    && f.paused == Paused(h)
    && f.force == Owed(h)
    && DeferredActed(h) + f.inHand + f.deferred == DeferredReceived(h)
    && (InterruptActed(h) ==> f.cancelled)
    && (match LastSuccess(h)
        case None => f.body == [] && f.baseline == []
        case Some(e) => e.Succeeded? && f.body == e.body && f.baseline == Snapshots(e.tables))
  }

  lemma StartAgrees(o: Options, h: Trace, f: Facts)
    requires Agrees(o, h, f) && Allowed(o, h, Started(f.paused))
    ensures Agrees(o, h + [Started(f.paused)], f.(attempts := f.attempts + 1, force := false))
  {
    assert (h + [Started(f.paused)])[..|h|] == h;
  }

  lemma ReceiveQueued(o: Options, h: Trace, f: Facts, k: int)
    requires Agrees(o, h, f) && Classify(k).Deferred?
    ensures Agrees(o, h + [Received(k)], f.(deferred := f.deferred + [k]))
  {
    assert (h + [Received(k)])[..|h|] == h;
    assert DeferredActed(h) + f.inHand + (f.deferred + [k]) == DeferredActed(h) + f.inHand + f.deferred + [k];
  }

  lemma ReceiveInHand(o: Options, h: Trace, f: Facts, k: int)
    requires Agrees(o, h, f) && f.inHand == f.deferred == []
    ensures Agrees(o, h + [Received(k)], f.(inHand := InHand(k)))
  {
    assert (h + [Received(k)])[..|h|] == h;
    assert DeferredActed(h) + InHand(k) + [] == DeferredActed(h) + [] + [] + InHand(k);
  }

  lemma ReceiveOther(o: Options, h: Trace, f: Facts, k: int)
    requires Agrees(o, h, f) && !Classify(k).Deferred?
    ensures Agrees(o, h + [Received(k)], f)
  {
    assert (h + [Received(k)])[..|h|] == h;
  }

  ghost predicate MayAct(h: Trace, f: Facts, k: int) {
    && (Open(h) ==> Classify(k).Immediate?)
    && f.inHand == InHand(k)
  }

  lemma ActAgrees(o: Options, h: Trace, f: Facts, k: int)
    requires Agrees(o, h, f) && MayAct(h, f, k)
    ensures Agrees(o, h + [Acted(k, f.paused)], AfterKey(f, k))
  {
    var e := Acted(k, f.paused);
    assert (h + [e])[..|h|] == h;
    if Classify(k).Deferred? {
      assert DeferredActed(h) + [k] + f.deferred == DeferredReceived(h);
      assert DeferredActed(h) + [k] <= DeferredReceived(h);
      assert DeferredActed(h) + [k] + [] + f.deferred == DeferredReceived(h);
    }
  }

  lemma EndAgrees(o: Options, h: Trace, f: Facts, e: Event)
    requires Agrees(o, h, f) && Open(h)
    requires e.Failed? || (e.CutShort? && Classify(e.key).Abort?)
    ensures Agrees(o, h + [e], f) && !Open(h + [e])
  {
    assert (h + [e])[..|h|] == h;
  }

  lemma SuccessAgrees(o: Options, h: Trace, f: Facts, e: Event)
    requires Agrees(o, h, f) && Open(h) && e.Succeeded?
    ensures Agrees(o, h + [e], f.(frames := f.frames + 1, body := e.body, baseline := Snapshots(e.tables))) && !Open(h + [e])
  {
    assert (h + [e])[..|h|] == h;
  }

  /** Events that neither start nor end a refresh leave `Open` alone. */
  lemma StaysOpen(h: Trace, e: Event)
    requires e.Received? || e.Acted?
    ensures Open(h + [e]) == Open(h)
  {
    assert (h + [e])[..|h|] == h;
  }

  /** No end of the run is due, the refresh count aside. */
  ghost predicate NoStop(o: Options, h: Trace) {
    !StopKeyActed(h) && !FatalSeen(o, h) && (o.untilChange ==> !ChangeSeen(h))
  }

  /** Nothing forbids another refresh. */
  ghost predicate MayRefresh(o: Options, h: Trace) {
    NoStop(o, h) && (o.count > 0 ==> Starts(h) < o.count)
  }

  lemma KeyKeepsNoStop(o: Options, h: Trace, e: Event)
    requires e.Received? || (e.Acted? && !IsStopKey(e.key))
    ensures NoStop(o, h + [e]) == NoStop(o, h) && Starts(h + [e]) == Starts(h)
  {
    assert (h + [e])[..|h|] == h;
  }

  lemma StartKeepsNoStop(o: Options, h: Trace, e: Event)
    requires e.Started?
    ensures NoStop(o, h + [e]) == NoStop(o, h) && Open(h + [e])
  {
    assert (h + [e])[..|h|] == h;
  }

  lemma FatalSnoc(o: Options, h: Trace, e: Error)
    ensures FatalSeen(o, h + [Failed(e)]) <==> IsFatal(o, h, e) || FatalSeen(o, h)
  {
    assert (h + [Failed(e)])[..|h|] == h;
  }

  lemma OthersSnoc(h: Trace, e: Error)
    ensures StopKeyActed(h + [Failed(e)]) == StopKeyActed(h) && ChangeSeen(h + [Failed(e)]) == ChangeSeen(h)
  {
    assert (h + [Failed(e)])[..|h|] == h;
  }

  lemma FailureKeepsNoStop(o: Options, h: Trace, e: Error)
    requires NoStop(o, h)
    ensures NoStop(o, h + [Failed(e)]) <==> !IsFatal(o, h, e)
  {
    FatalSnoc(o, h, e);
    OthersSnoc(h, e);
  }

  lemma SuccessKeepsNoStop(o: Options, h: Trace, e: Event)
    requires NoStop(o, h) && e.Succeeded?
    ensures NoStop(o, h + [e]) <==> !(o.untilChange && IsChange(h, e))
  {
    assert (h + [e])[..|h|] == h;
  }

  lemma {:induction false} SuccessExists(h: Trace)
    ensures LastSuccess(h).Some? <==> Successes(h) > 0
    ensures LastSuccess(h).Some? ==> LastSuccess(h).value.Succeeded?
  {
    if h != [] { SuccessExists(h[..|h| - 1]); }
  }

  /** Why the run ended, read off its history. */
  ghost predicate Justified(o: Options, h: Trace, cancelled: bool, why: Stop) {
    match why
    case Quit => h != [] && h[|h| - 1].Acted? && IsQuitKey(h[|h| - 1].key)
    case CountReached => o.count > 0 && Starts(h) == o.count && h != [] && (h[|h| - 1].Succeeded? || h[|h| - 1].Failed?)
    case ChangeNoticed => o.untilChange && h != [] && h[|h| - 1].Succeeded? && IsChange(h[..|h| - 1], h[|h| - 1])
    case Fatal(e) => h != [] && h[|h| - 1] == Failed(e) && IsFatal(o, h[..|h| - 1], e)
    case Cancelled => cancelled
  }

  /** Between refreshes, as a statement about values. */
  ghost predicate Rests(o: Options, h: Trace, f: Facts) {
    Agrees(o, h, f) && !Open(h) && (f.cancelled || MayRefresh(o, h))
  }

  ghost predicate Ends(o: Options, h: Trace, f: Facts, why: Stop) {
    Agrees(o, h, f) && Justified(o, h, f.cancelled, why)
  }

  lemma FailureVerdict(o: Options, h: Trace, f: Facts, e: Error)
    requires Agrees(o, h, f) && Open(h) && NoStop(o, h)
    ensures var h' := h + [Failed(e)];
      if IsFatal(o, h, e) then Ends(o, h', f, Fatal(e))
      else if CountHit(o, f) then Ends(o, h', f, CountReached)
      else Rests(o, h', f)
  {
    var h' := h + [Failed(e)];
    assert h'[..|h|] == h;
    EndAgrees(o, h, f, Failed(e));
    FailureKeepsNoStop(o, h, e);
    if o.count > 0 { RendersBounded(o, h'); }
  }

  lemma SuccessVerdict(o: Options, h: Trace, f: Facts, e: Event)
    requires Agrees(o, h, f) && Open(h) && NoStop(o, h) && e.Succeeded?
    ensures var h', f' := h + [e], f.(frames := f.frames + 1, body := e.body, baseline := Snapshots(e.tables));
      if CountHit(o, f) then Ends(o, h', f', CountReached)
      else if o.untilChange && IsChange(h, e) then Ends(o, h', f', ChangeNoticed)
      else Rests(o, h', f')
  {
    var h' := h + [e];
    assert h'[..|h|] == h;
    SuccessAgrees(o, h, f, e);
    SuccessKeepsNoStop(o, h, e);
    if o.count > 0 { RendersBounded(o, h'); }
  }

  /** The loop's own test for a change is the one the history defines. */
  lemma ChangeTest(o: Options, h: Trace, f: Facts, e: Event)
    requires Agrees(o, h, f) && e.Succeeded?
    ensures IsChange(h, e) <==>
      f.frames > 0 && (FrameChanged(e.enabled, f.baseline, e.tables) || (e.tables == [] && e.body != f.body))
  {
    SuccessExists(h);
  }

  lemma StartVerdict(o: Options, h: Trace, f: Facts)
    requires Rests(o, h, f) && !f.cancelled && f.inHand == [] && (f.force || !f.paused)
    ensures var h' := h + [Started(f.paused)];
      Agrees(o, h', f.(attempts := f.attempts + 1, force := false)) && Open(h') && NoStop(o, h')
  {
    StartAgrees(o, h, f);
    StartKeepsNoStop(o, h, Started(f.paused));
  }

  lemma PopVerdict(o: Options, h: Trace, f: Facts)
    requires Rests(o, h, f) && f.inHand == [] && f.deferred != []
    ensures Classify(f.deferred[0]).Deferred?
    ensures Rests(o, h, f.(inHand := [f.deferred[0]], deferred := f.deferred[1..]))
  {
    var k := f.deferred[0];
    assert f.deferred == [k] + f.deferred[1..];
    assert DeferredActed(h) + [k] + f.deferred[1..] == DeferredActed(h) + [] + f.deferred;
    AllDeferred(h);
    assert DeferredReceived(h)[|DeferredActed(h)|] == k;
  }

  lemma {:induction false} AllDeferred(h: Trace)
    ensures forall i :: 0 <= i < |DeferredReceived(h)| ==> Classify(DeferredReceived(h)[i]).Deferred?
  {
    if h != [] { AllDeferred(h[..|h| - 1]); }
  }

  // ------------------------------------------------------- every run is lawful

  /** The machine is in step with the events so far. */
  ghost predicate Sound(o: Options, h: Trace, m: Machine) {
    && Agrees(o, h, m.facts)
    && Open(h) == m.flying
    && m.facts.inHand == (if m.next.Acts? then InHand(m.next.key) else [])
    && (m.aborted.Some? ==> m.flying && Classify(m.aborted.value).Abort?)
    && Standing(o, h, m)
  }

  /** What may come next is allowed by the events so far. */
  ghost predicate Standing(o: Options, h: Trace, m: Machine) {
    match m.next
    case Halted(why) => !m.flying && Justified(o, h, m.facts.cancelled, why)
    case Finishes(e) => m.flying && NoStop(o, h) && (e.Succeeded? || e.Failed? || (e.CutShort? && Classify(e.key).Abort?))
    case Acts(k) =>
      if m.flying then NoStop(o, h) && Classify(k).Immediate?
      else Classify(k).Abort? || m.facts.cancelled || MayRefresh(o, h)
    case Hears(_) => if m.flying then NoStop(o, h) else m.facts.deferred == [] && (m.facts.cancelled || MayRefresh(o, h))
    case Wakes => !m.flying && (m.facts.cancelled || MayRefresh(o, h))
    case _ => if m.flying then NoStop(o, h) else m.facts.cancelled || MayRefresh(o, h)
  }

  lemma SoundInput(o: Options, h: Trace, m: Machine, i: Input)
    requires Sound(o, h, m) && TurnOf(m) == Listen
    ensures Sound(o, h, AfterInput(m, i))
  {
    assert m.next.Calm? || m.next.Wakes?;
  }

  lemma SoundStarted(o: Options, h: Trace, m: Machine, paused: bool)
    requires Sound(o, h, m) && TurnOf(m) == Emit(Started(paused)) && (m.next.Calm? || m.next.Wakes?)
    ensures Sound(o, h + [Started(paused)], AfterStarted(m))
  {
    StartVerdict(o, h, m.facts);
  }

  lemma SoundReceived(o: Options, h: Trace, m: Machine, k: int)
    requires Sound(o, h, m) && m.next == Hears(k)
    ensures Sound(o, h + [Received(k)], AfterReceived(m, k))
  {
    StaysOpen(h, Received(k));
    KeyKeepsNoStop(o, h, Received(k));
    if !m.flying {
      ReceiveInHand(o, h, m.facts, k);
    } else if Classify(k).Deferred? {
      ReceiveQueued(o, h, m.facts, k);
    } else {
      ReceiveOther(o, h, m.facts, k);
    }
  }

  lemma SoundActedInFlight(o: Options, h: Trace, m: Machine, k: int)
    requires Sound(o, h, m) && m.next == Acts(k) && m.flying
    ensures Sound(o, h + [Acted(k, m.facts.paused)], Act(m, m.facts, k))
  {
    var e := Acted(k, m.facts.paused);
    ActAgrees(o, h, m.facts, k);
    StaysOpen(h, e);
    KeyKeepsNoStop(o, h, e);
  }

  /** A key acted on between refreshes; `f` are the facts with the key in hand. */
  lemma SoundActedAtRest(o: Options, h: Trace, m: Machine, f: Facts, k: int)
    requires Agrees(o, h, f) && f.inHand == InHand(k) && !Open(h) && !m.flying && m.aborted.None? && f.paused == m.facts.paused
    requires Classify(k).Abort? || f.cancelled || MayRefresh(o, h)
    ensures Sound(o, h + [Acted(k, f.paused)], Act(m, f, k))
  {
    var e := Acted(k, f.paused);
    ActAgrees(o, h, f, k);
    StaysOpen(h, e);
    if !IsStopKey(k) { KeyKeepsNoStop(o, h, e); }
  }

  lemma SoundDrained(o: Options, h: Trace, m: Machine)
    requires Sound(o, h, m) && AtEase(m) && m.facts.deferred != []
    ensures Sound(o, h + [Acted(m.facts.deferred[0], m.facts.paused)], Act(m, Popped(m.facts), m.facts.deferred[0]))
  {
    PopVerdict(o, h, m.facts);
    SoundActedAtRest(o, h, m, Popped(m.facts), m.facts.deferred[0]);
  }

  lemma SuccessAgendaIs(o: Options, h: Trace, f: Facts, e: Event)
    requires Agrees(o, h, f) && e.Succeeded?
    ensures SuccessAgenda(o, f, e.body, e.tables, e.enabled) ==
      if CountHit(o, f) then Halted(CountReached) else if o.untilChange && IsChange(h, e) then Halted(ChangeNoticed) else Calm
  {
    ChangeTest(o, h, f, e);
  }

  lemma SoundSucceeded(o: Options, h: Trace, m: Machine, e: Event)
    requires Sound(o, h, m) && m.next == Finishes(e) && e.Succeeded?
    ensures Sound(o, h + [e], AfterSuccess(o, m, e.body, e.tables, e.enabled))
  {
    SuccessVerdict(o, h, m.facts, e);
    SuccessAgendaIs(o, h, m.facts, e);
    EndCloses(h, e);
    assert m.facts.inHand == [];
  }

  lemma SoundFailed(o: Options, h: Trace, m: Machine, e: Error)
    requires Sound(o, h, m) && m.next == Finishes(Failed(e))
    ensures Sound(o, h + [Failed(e)], AfterFailure(o, m, e))
  {
    FailureVerdict(o, h, m.facts, e);
    EndCloses(h, Failed(e));
  }

  lemma SoundCutShort(o: Options, h: Trace, m: Machine, k: int)
    requires Sound(o, h, m) && m.next == Finishes(CutShort(k))
    ensures Sound(o, h + [CutShort(k)], Landed(m, Acts(k)))
  {
    EndAgrees(o, h, m.facts, CutShort(k));
  }

  lemma EndCloses(h: Trace, e: Event)
    requires e.Succeeded? || e.Failed? || e.CutShort?
    ensures !Open(h + [e])
  {
    assert (h + [e])[..|h|] == h;
  }

  lemma SoundActed(o: Options, h: Trace, m: Machine, k: int, paused: bool)
    requires Sound(o, h, m) && TurnOf(m) == Emit(Acted(k, paused))
    ensures Sound(o, h + [Acted(k, paused)], AfterActed(m, k))
  {
    if !m.next.Acts? {
      SoundDrained(o, h, m);
    } else if m.flying {
      SoundActedInFlight(o, h, m, k);
    } else {
      SoundActedAtRest(o, h, m, m.facts, k);
    }
  }

  lemma SoundEvent(o: Options, h: Trace, m: Machine, e: Event)
    requires Sound(o, h, m) && TurnOf(m) == Emit(e)
    ensures Sound(o, h + [e], AfterEvent(o, m, e))
  {
    match e {
      case Started(paused) => SoundStarted(o, h, m, paused);
      case Received(k) => SoundReceived(o, h, m, k);
      case Acted(k, paused) => SoundActed(o, h, m, k, paused);
      case Succeeded(_, _, _) => SoundSucceeded(o, h, m, e);
      case Failed(error) => SoundFailed(o, h, m, error);
      case CutShort(k) => SoundCutShort(o, h, m, k);
    }
  }

  lemma SoundStep(o: Options, h: Trace, m: Machine, x: Entry)
    requires Sound(o, h, m) && Due(m, x)
    ensures Sound(o, if x.Out? then h + [x.event] else h, After(o, m, x))
  {
    if x.In? { SoundInput(o, h, m, x.input); } else { SoundEvent(o, h, m, x.event); }
  }

  lemma SoundStart(o: Options, every: int, on: bool)
    ensures Sound(o, [], Fresh(every, on))
  {}

  /** Every run of a fresh loop is in step with its events: they are lawful, and they
      determine the loop's fields. */
  lemma {:induction false} RunIsSound(o: Options, r: Rules, every: int, on: bool, log: Log)
    requires Applies(o, r) && Follows(r, Fresh(every, on), log)
    ensures Sound(o, Events(log), Replay(r, Fresh(every, on), log))
  {
    if log == [] {
      SoundStart(o, every, on);
    } else {
      var start, init := Fresh(every, on), log[..|log| - 1];
      LastStep(o, r, start, log);
      RunIsSound(o, r, every, on, init);
      SoundStep(o, Events(init), Replay(r, start, init), log[|log| - 1]);
    }
  }

  // ------------------------------------------------ inputs and events, accounted

  /** The keys pressed while the keyboard was open. */
  function Pressed(ins: seq<Input>): seq<int> {
    if ins == [] then []
    else
      var init, i := ins[..|ins| - 1], ins[|ins| - 1];
      Pressed(init) + (if i.Press? && KeysClosed !in init then [i.key] else [])
  }

  function KeysReceived(h: Trace): seq<int> {
    if h == [] then []
    else KeysReceived(h[..|h| - 1]) + (if h[|h| - 1].Received? then [h[|h| - 1].key] else [])
  }

  ghost predicate KeysAccounted(ins: seq<Input>, h: Trace, m: Machine) {
    && (m.keysOpen <==> KeysClosed !in ins)
    && Pressed(ins) == KeysReceived(h) + (if m.next.Hears? then [m.next.key] else [])
  }

  lemma KeysAfterInput(ins: seq<Input>, h: Trace, m: Machine, i: Input)
    requires KeysAccounted(ins, h, m) && TurnOf(m) == Listen
    ensures KeysAccounted(ins + [i], h, AfterInput(m, i))
  {
    assert (ins + [i])[..|ins|] == ins;
    assert !m.next.Hears?;
  }

  lemma KeysAfterEvent(o: Options, ins: seq<Input>, h: Trace, m: Machine, e: Event)
    requires KeysAccounted(ins, h, m) && TurnOf(m) == Emit(e) && (m.next.Finishes? ==> !e.Received?)
    ensures KeysAccounted(ins, h + [e], AfterEvent(o, m, e))
  {
    assert (h + [e])[..|h|] == h;
  }

  lemma KeysAfterStep(o: Options, ins: seq<Input>, h: Trace, m: Machine, x: Entry)
    requires KeysAccounted(ins, h, m) && Due(m, x) && Sound(o, h, m)
    ensures KeysAccounted(if x.In? then ins + [x.input] else ins, if x.Out? then h + [x.event] else h, After(o, m, x))
  {
    if x.In? { KeysAfterInput(ins, h, m, x.input); } else { KeysAfterEvent(o, ins, h, m, x.event); }
  }

  /** Every key pressed while the keyboard is open is received, once and in order. */
  lemma {:induction false} EveryKeyReceived(o: Options, r: Rules, every: int, on: bool, log: Log)
    requires Applies(o, r) && Follows(r, Fresh(every, on), log)
    ensures KeysAccounted(Inputs(log), Events(log), Replay(r, Fresh(every, on), log))
  {
    if log != [] {
      var start, init := Fresh(every, on), log[..|log| - 1];
      LastStep(o, r, start, log);
      EveryKeyReceived(o, r, every, on, init);
      RunIsSound(o, r, every, on, init);
      KeysAfterStep(o, Inputs(init), Events(init), Replay(r, start, init), log[|log| - 1]);
    }
  }

  // -------------------------------------------------------- how refreshes end

  /** The tables reported since the last refresh started. */
  function TablesSince(log: Log): seq<Table> {
    if log == [] then []
    else
      match log[|log| - 1]
      case Out(Started(_)) => []
      case In(RenderTable(t)) => TablesSince(log[..|log| - 1]) + [t]
      case _ => TablesSince(log[..|log| - 1])
  }

  /** The first quit or interrupt key received since the last refresh started. */
  function AbortSince(log: Log): Option<int> {
    if log == [] then None
    else
      match log[|log| - 1]
      case Out(Started(_)) => None
      case Out(Received(k)) =>
        var before := AbortSince(log[..|log| - 1]);
        if before.None? && Classify(k).Abort? then Some(k) else before
      case _ => AbortSince(log[..|log| - 1])
  }

  /** The highlight switch, flipped by every highlight key acted on. */
  function SwitchAfter(on: bool, log: Log): bool {
    if log == [] then on
    else
      match log[|log| - 1]
      case Out(Acted(k, _)) => SwitchAfter(on, log[..|log| - 1]) != (k == DIFF_KEY)
      case _ => SwitchAfter(on, log[..|log| - 1])
  }

  predicate IsReport(x: Entry) { x.In? && (x.input.RenderOk? || x.input.RenderErr?) }

  predicate IsEnding(x: Entry) { x.Out? && (x.event.Succeeded? || x.event.Failed? || x.event.CutShort?) }

  /** How the refresh in flight ends on a report. */
  function EndingAfter(on: bool, log: Log, report: Entry): Event
    requires IsReport(report)
  {
    Ending(report.input, TablesSince(log), AbortSince(log), SwitchAfter(on, log))
  }

  ghost predicate FlightAccounted(on: bool, log: Log, m: Machine) {
    && m.enabled == SwitchAfter(on, log)
    && m.seen == (if m.flying then TablesSince(log) else [])
    && m.aborted == (if m.flying then AbortSince(log) else None)
    && (m.next.Finishes? ==> log != [] && IsReport(log[|log| - 1]) && m.next.event == EndingAfter(on, log[..|log| - 1], log[|log| - 1]))
  }

  lemma FlightAfterInput(on: bool, log: Log, m: Machine, i: Input)
    requires FlightAccounted(on, log, m) && TurnOf(m) == Listen
    ensures FlightAccounted(on, log + [In(i)], AfterInput(m, i))
  {
    assert (log + [In(i)])[..|log|] == log;
  }

  lemma FlightAfterEvent(o: Options, on: bool, log: Log, m: Machine, e: Event)
    requires FlightAccounted(on, log, m) && TurnOf(m) == Emit(e) && (e.Started? ==> !m.flying)
    ensures FlightAccounted(on, log + [Out(e)], AfterEvent(o, m, e))
  {
    assert (log + [Out(e)])[..|log|] == log;
  }

  lemma GroundedStart(o: Options, h: Trace, m: Machine, e: Event)
    requires Sound(o, h, m) && TurnOf(m) == Emit(e) && e.Started?
    ensures !m.flying
  {}

  lemma FlightAfterStep(o: Options, h: Trace, on: bool, log: Log, m: Machine, x: Entry)
    requires FlightAccounted(on, log, m) && Due(m, x) && Sound(o, h, m)
    ensures FlightAccounted(on, log + [x], After(o, m, x))
  {
    if x.In? {
      FlightAfterInput(on, log, m, x.input);
    } else {
      if x.event.Started? { GroundedStart(o, h, m, x.event); }
      FlightAfterEvent(o, on, log, m, x.event);
    }
  }

  lemma {:induction false} RunIsAccounted(o: Options, r: Rules, every: int, on: bool, log: Log)
    requires Applies(o, r) && Follows(r, Fresh(every, on), log)
    ensures FlightAccounted(on, log, Replay(r, Fresh(every, on), log))
  {
    if log != [] {
      var start, init, x := Fresh(every, on), log[..|log| - 1], log[|log| - 1];
      LastStep(o, r, start, log);
      RunIsAccounted(o, r, every, on, init);
      RunIsSound(o, r, every, on, init);
      assert log == init + [x];
      FlightAfterStep(o, Events(init), on, init, Replay(r, start, init), x);
    }
  }

  /** Every end of a refresh is the answer to the report right before it: a success
      carries the reported body and the tables reported since the start, a failure the
      reported error, and a refresh is cut short exactly by the first quit or interrupt
      key received while it was in flight. */
  lemma EndingsAnswerReports(o: Options, r: Rules, every: int, on: bool, log: Log, i: nat)
    requires Applies(o, r) && Follows(r, Fresh(every, on), log) && i < |log| && IsEnding(log[i])
    ensures i > 0 && IsReport(log[i - 1]) && log[i].event == EndingAfter(on, log[..i - 1], log[i - 1])
  {
    var start := Fresh(every, on);
    FollowsPrefix(r, start, log, i);
    DueAt(o, r, start, log, i);
    RunIsAccounted(o, r, every, on, log[..i]);
    EndingDue(Replay(r, start, log[..i]), log[i]);
    assert i > 0 ==> log[..i][..i - 1] == log[..i - 1];
  }

  lemma EndingDue(m: Machine, x: Entry)
    requires Due(m, x) && IsEnding(x)
    ensures m.next == Finishes(x.event)
  {}

  /** And every report on a refresh in flight is answered at once. */
  lemma ReportsAreAnswered(o: Options, r: Rules, every: int, on: bool, log: Log, i: nat)
    requires Applies(o, r) && Follows(r, Fresh(every, on), log) && i < |log|
    requires IsReport(log[i]) && Open(Events(log[..i]))
    ensures if i + 1 < |log| then IsEnding(log[i + 1])
            else TurnOf(Replay(r, Fresh(every, on), log)).Emit?
  {
    var start := Fresh(every, on);
    FollowsPrefix(r, start, log, i);
    RunIsSound(o, r, every, on, log[..i]);
    DueAt(o, r, start, log, i);
    var m := Replay(r, start, log[..i]);
    ReportDue(o, m, log[i]);
    if i + 1 < |log| {
      DueAt(o, r, start, log, i + 1);
    } else {
      assert log[..i + 1] == log;
    }
  }

  lemma ReportDue(o: Options, m: Machine, x: Entry)
    requires Due(m, x) && IsReport(x) && m.flying
    ensures var t := TurnOf(After(o, m, x)); t.Emit? && IsEnding(Out(t.event))
  {}

  // ------------------------------------------------------------- when they start

  /** Every run begins with a refresh. */
  lemma RefreshComesFirst(o: Options, r: Rules, every: int, on: bool, log: Log)
    requires Applies(o, r) && Follows(r, Fresh(every, on), log)
    ensures if log == [] then TurnOf(Replay(r, Fresh(every, on), log)) == Emit(Started(false)) else log[0] == Out(Started(false))
  {
    if log != [] {
      DueAt(o, r, Fresh(every, on), log, 0);
      assert log[..0] == [];
    }
  }

  /** What the clock shows. */
  function Clock(log: Log): int {
    if log == [] then 0
    else
      match log[|log| - 1]
      case In(Time(t)) => t
      case _ => Clock(log[..|log| - 1])
  }

  /** What it showed when the last refresh started. */
  function LastStart(log: Log): int {
    if log == [] then 0
    else
      match log[|log| - 1]
      case Out(Started(_)) => Clock(log[..|log| - 1])
      case _ => LastStart(log[..|log| - 1])
  }

  lemma {:induction false} ClockAccounted(o: Options, r: Rules, every: int, on: bool, log: Log)
    requires Applies(o, r) && Follows(r, Fresh(every, on), log)
    ensures var t := Replay(r, Fresh(every, on), log).timing; t.clock == Clock(log) && t.tickAt == LastStart(log)
  {
    if log != [] {
      LastStep(o, r, Fresh(every, on), log);
      ClockAccounted(o, r, every, on, log[..|log| - 1]);
      ClockAfter(o, Replay(r, Fresh(every, on), log[..|log| - 1]), log[|log| - 1]);
    }
  }

  lemma ClockAfter(o: Options, m: Machine, x: Entry)
    ensures var t := After(o, m, x).timing;
      && t.clock == (if x.In? && x.input.Time? then x.input.now else m.timing.clock)
      && t.tickAt == (if x.Out? && x.event.Started? then m.timing.clock else m.timing.tickAt)
  {}

  /** An interval between a quarter of a second and an hour, in nanoseconds. */
  function Bounded(d: int): int {
    if d < 250_000_000 then 250_000_000 else if d > 3_600_000_000_000 then 3_600_000_000_000 else d
  }

  /** The interval asked for, and the one in force, read off the log: a slower or faster
      key steps the one in force by a quarter of a second below a second and by a second
      above, and resets both; a success stretches it to twice the time it took. */
  function Intervals(every: int, log: Log): (int, int) {
    if log == [] then
      var d := if every <= 0 then 2_000_000_000 else every; (d, d)
    else
      var before := log[..|log| - 1];
      var (base, now) := Intervals(every, before);
      match log[|log| - 1]
      case Out(Acted(k, _)) =>
        if k == '+' as int || k == '=' as int then
          var d := Bounded(now + if now < 1_000_000_000 then 250_000_000 else 1_000_000_000); (d, d)
        else if k == '-' as int then
          var d := Bounded(now - if now <= 1_000_000_000 then 250_000_000 else 1_000_000_000); (d, d)
        else (base, now)
      case Out(Succeeded(_, _, _)) =>
        var twice := 2 * (Clock(before) - LastStart(before));
        var want := if twice > base then twice else base;
        (base, if want > 3_600_000_000_000 then 3_600_000_000_000 else want)
      case _ => (base, now)
  }

  function IntervalOf(every: int, log: Log): int { Intervals(every, log).1 }

  lemma IntervalAfterKey(t: Timing, k: int)
    ensures var u := t.OnKey(k);
      && (k == '+' as int || k == '=' as int ==>
            u.base == u.interval == Bounded(t.interval + if t.interval < 1_000_000_000 then 250_000_000 else 1_000_000_000))
      && (k == '-' as int ==>
            u.base == u.interval == Bounded(t.interval - if t.interval <= 1_000_000_000 then 250_000_000 else 1_000_000_000))
      && (k != '+' as int && k != '=' as int && k != '-' as int ==> u == t)
  {}

  lemma IntervalAfterSuccess(o: Options, m: Machine, e: Event)
    requires e.Succeeded?
    ensures var u, t := AfterEvent(o, m, e).timing, m.timing;
      var twice := 2 * (t.clock - t.tickAt);
      var want := if twice > t.base then twice else t.base;
      u.base == t.base && u.interval == if want > 3_600_000_000_000 then 3_600_000_000_000 else want
  {}

  lemma IntervalKept(o: Options, m: Machine, x: Entry)
    requires x.Out? ==> !x.event.Acted? && !x.event.Succeeded?
    ensures var u, t := After(o, m, x).timing, m.timing; u.base == t.base && u.interval == t.interval
  {}

  lemma ActedTiming(o: Options, m: Machine, k: int, paused: bool)
    ensures After(o, m, Out(Acted(k, paused))).timing == m.timing.OnKey(k)
  {}

  lemma {:induction false} IntervalAccounted(o: Options, r: Rules, every: int, on: bool, log: Log)
    requires Applies(o, r) && Follows(r, Fresh(every, on), log)
    ensures var t := Replay(r, Fresh(every, on), log).timing; (t.base, t.interval) == Intervals(every, log)
  {
    if log != [] {
      var start, init, x := Fresh(every, on), log[..|log| - 1], log[|log| - 1];
      LastStep(o, r, start, log);
      IntervalAccounted(o, r, every, on, init);
      ClockAccounted(o, r, every, on, init);
      var m := Replay(r, start, init);
      if x.Out? && x.event.Acted? {
        ActedTiming(o, m, x.event.key, x.event.wasPaused);
        IntervalAfterKey(m.timing, x.event.key);
      } else if x.Out? && x.event.Succeeded? {
        IntervalAfterSuccess(o, m, x.event);
      } else {
        IntervalKept(o, m, x);
      }
    }
  }

  /** Between refreshes the loop takes another input only while it is paused or the next
      refresh lies ahead, and only with no key left in the queue. */
  lemma NeverLate(o: Options, r: Rules, every: int, on: bool, log: Log)
    requires Applies(o, r) && Follows(r, Fresh(every, on), log)
    requires TurnOf(Replay(r, Fresh(every, on), log)) == Listen && !Open(Events(log))
    ensures Paused(Events(log)) || Clock(log) < LastStart(log) + IntervalOf(every, log)
    ensures DeferredActed(Events(log)) == DeferredReceived(Events(log))
  {
    RunIsSound(o, r, every, on, log);
    ClockAccounted(o, r, every, on, log);
    IntervalAccounted(o, r, every, on, log);
    QuietMeansRest(Replay(r, Fresh(every, on), log));
    QueueDone(o, Events(log), Replay(r, Fresh(every, on), log));
  }

  lemma QueueDone(o: Options, h: Trace, m: Machine)
    requires Sound(o, h, m) && m.facts.deferred == [] && !m.next.Acts?
    ensures DeferredActed(h) == DeferredReceived(h)
  {
    assert DeferredActed(h) + [] + [] == DeferredActed(h);
  }

  lemma QuietMeansRest(m: Machine)
    requires TurnOf(m) == Listen && !m.flying
    ensures m.facts.deferred == [] && !m.next.Acts? && (m.facts.paused || m.timing.clock < m.timing.tickAt + m.timing.interval)
  {}

  /** An entry that calls for a refresh at once: the wait's timer, or a key. */
  ghost predicate Calls(x: Entry) {
    x == In(Expire) || (x.Out? && Forces(x.event))
  }

  lemma InputWakes(m: Machine, i: Input)
    requires AfterInput(m, i).next.Wakes?
    ensures i == Expire
  {}

  lemma ActedWakes(m: Machine, k: int, paused: bool)
    requires TurnOf(m) == Emit(Acted(k, paused)) && !m.next.Finishes? && AfterActed(m, k).next.Wakes?
    ensures Forces(Acted(k, paused))
  {}

  lemma OthersNeverWake(o: Options, m: Machine, e: Event)
    requires !e.Acted?
    ensures !AfterEvent(o, m, e).next.Wakes?
  {
    if e.Received? { assert !AfterReceived(m, e.key).next.Wakes?; }
  }

  lemma WakesHasCause(o: Options, h: Trace, m: Machine, x: Entry)
    requires Sound(o, h, m) && Due(m, x) && After(o, m, x).next.Wakes?
    ensures Calls(x)
  {
    if x.In? {
      InputWakes(m, x.input);
    } else if x.event.Acted? {
      ActedWakes(m, x.event.key, x.event.wasPaused);
    } else {
      OthersNeverWake(o, m, x.event);
    }
  }

  lemma WakeWasCalled(o: Options, r: Rules, every: int, on: bool, log: Log)
    requires Applies(o, r) && Follows(r, Fresh(every, on), log) && log != []
    requires Replay(r, Fresh(every, on), log).next.Wakes?
    ensures Calls(log[|log| - 1])
  {
    var start, init := Fresh(every, on), log[..|log| - 1];
    LastStep(o, r, start, log);
    RunIsSound(o, r, every, on, init);
    WakesHasCause(o, Events(init), Replay(r, start, init), log[|log| - 1]);
  }

  lemma StartDue(m: Machine, e: Event)
    requires TurnOf(m) == Emit(e) && e.Started? && !m.next.Finishes?
    ensures m.next.Wakes? || m.timing.clock >= m.timing.tickAt + m.timing.interval
  {}

  /** No refresh but the first starts before it is due: right before it the wait's timer
      ran out or a key called for it, or the interval since the last start is over. */
  lemma NeverEarly(o: Options, r: Rules, every: int, on: bool, log: Log, i: nat)
    requires Applies(o, r) && Follows(r, Fresh(every, on), log) && 0 < i < |log| && log[i].Out? && log[i].event.Started?
    ensures Calls(log[i - 1]) || Clock(log[..i]) >= LastStart(log[..i]) + IntervalOf(every, log[..i])
  {
    var start, before := Fresh(every, on), log[..i];
    FollowsPrefix(r, start, log, i);
    DueAt(o, r, start, log, i);
    RunIsSound(o, r, every, on, before);
    ClockAccounted(o, r, every, on, before);
    IntervalAccounted(o, r, every, on, before);
    var m := Replay(r, start, before);
    StartDue(m, log[i].event);
    if m.next.Wakes? { WakeWasCalled(o, r, every, on, before); }
  }

  /** And a call at rest is answered: the next entry is a refresh, unless the run is
      cancelled, or the timer of a paused loop ran out. */
  lemma CallsAreAnswered(o: Options, r: Rules, every: int, on: bool, log: Log, i: nat)
    requires Applies(o, r) && Follows(r, Fresh(every, on), log) && i < |log| && Calls(log[i]) && !Open(Events(log[..i]))
    requires log[i].In? ==> !Paused(Events(log[..i]))
    ensures i + 1 < |log| ==> log[i + 1].Out? && log[i + 1].event.Started?
    ensures i + 1 == |log| ==>
      TurnOf(Replay(r, Fresh(every, on), log)) == Halt(Cancelled) ||
      (TurnOf(Replay(r, Fresh(every, on), log)).Emit? && TurnOf(Replay(r, Fresh(every, on), log)).event.Started?)
  {
    var start := Fresh(every, on);
    FollowsPrefix(r, start, log, i);
    DueAt(o, r, start, log, i);
    RunIsSound(o, r, every, on, log[..i]);
    CallWakes(o, Events(log[..i]), Replay(r, start, log[..i]), log[i]);
    if i + 1 < |log| { DueAt(o, r, start, log, i + 1); } else { assert log[..i + 1] == log; }
  }

  lemma CallWakes(o: Options, h: Trace, m: Machine, x: Entry)
    requires Sound(o, h, m) && Due(m, x) && Calls(x) && !m.flying && (x.In? ==> !m.facts.paused)
    ensures var t := TurnOf(After(o, m, x)); t == Halt(Cancelled) || (t.Emit? && t.event.Started?)
  {
    if x.Out? { ForcedWakes(o, m, x.event); }
  }

  lemma ForcedWakes(o: Options, m: Machine, e: Event)
    requires TurnOf(m) == Emit(e) && Forces(e) && !m.flying && !m.next.Finishes?
    ensures var t := AfterEvent(o, m, e); t.next.Wakes? && t.facts.force
  {}

  // ------------------------------------------------------------------ at the end

  /** Cancelled by the caller, or by an interrupt key that was acted on. */
  ghost predicate WasCancelled(ins: seq<Input>, h: Trace) {
    Cancel in ins || InterruptActed(h)
  }

  /** What cancels the loop: the caller's cancellation, or an interrupt key acted on. */
  predicate Cancels(x: Entry) {
    match x
    case In(i) => i.Cancel?
    case Out(e) => e.Acted? && IsInterruptKey(e.key)
  }

  lemma InputCancels(m: Machine, i: Input)
    ensures AfterInput(m, i).facts.cancelled <==> m.facts.cancelled || i.Cancel?
  {}

  lemma ActedCancels(m: Machine, k: int)
    ensures AfterActed(m, k).facts.cancelled <==> m.facts.cancelled || IsInterruptKey(k)
  {}

  lemma OthersCancelNothing(o: Options, m: Machine, e: Event)
    requires !e.Acted?
    ensures AfterEvent(o, m, e).facts.cancelled == m.facts.cancelled
  {
    if e.Received? { assert AfterReceived(m, e.key).facts.cancelled == m.facts.cancelled; }
  }

  lemma MachineCancelled(o: Options, m: Machine, x: Entry)
    ensures After(o, m, x).facts.cancelled <==> m.facts.cancelled || Cancels(x)
  {
    if x.In? {
      InputCancels(m, x.input);
    } else if x.event.Acted? {
      ActedCancels(m, x.event.key);
    } else {
      OthersCancelNothing(o, m, x.event);
    }
  }

  lemma RunCancelled(ins: seq<Input>, h: Trace, x: Entry)
    ensures WasCancelled(if x.In? then ins + [x.input] else ins, if x.Out? then h + [x.event] else h) <==>
      WasCancelled(ins, h) || Cancels(x)
  {
    if x.Out? { assert (h + [x.event])[..|h|] == h; }
  }

  /** The loop's own notion of being cancelled is what the run shows. */
  lemma {:induction false} CancelAccounted(o: Options, r: Rules, every: int, on: bool, log: Log)
    requires Applies(o, r) && Follows(r, Fresh(every, on), log)
    ensures Replay(r, Fresh(every, on), log).facts.cancelled <==> WasCancelled(Inputs(log), Events(log))
  {
    if log != [] {
      var start, init := Fresh(every, on), log[..|log| - 1];
      LastStep(o, r, start, log);
      CancelAccounted(o, r, every, on, init);
      MachineCancelled(o, Replay(r, start, init), log[|log| - 1]);
      RunCancelled(Inputs(init), Events(init), log[|log| - 1]);
    }
  }

  lemma StartUncancelled(m: Machine, e: Event)
    requires TurnOf(m) == Emit(e) && e.Started? && !m.next.Finishes?
    ensures !m.facts.cancelled
  {}

  /** Once the run is cancelled no refresh starts. */
  lemma NoRefreshOnceCancelled(o: Options, r: Rules, every: int, on: bool, log: Log, i: nat)
    requires Applies(o, r) && Follows(r, Fresh(every, on), log) && i < |log| && log[i].Out? && log[i].event.Started?
    ensures !WasCancelled(Inputs(log[..i]), Events(log[..i]))
  {
    FollowsPrefix(r, Fresh(every, on), log, i);
    DueAt(o, r, Fresh(every, on), log, i);
    RunIsSound(o, r, every, on, log[..i]);
    CancelAccounted(o, r, every, on, log[..i]);
    StartUncancelled(Replay(r, Fresh(every, on), log[..i]), log[i].event);
  }

  lemma DoneHalts(o: Options, m: Machine)
    requires !m.flying && m.facts.cancelled
    ensures TurnOf(After(o, m, In(SeeDone))) == Halt(Cancelled)
  {}

  /** And the cancellation, seen between refreshes, is the last entry and ends the run. */
  lemma CancellationEndsRun(o: Options, r: Rules, every: int, on: bool, log: Log, i: nat)
    requires Applies(o, r) && Follows(r, Fresh(every, on), log) && i < |log| && log[i] == In(SeeDone)
    requires !Open(Events(log[..i])) && WasCancelled(Inputs(log[..i]), Events(log[..i]))
    ensures i == |log| - 1 && TurnOf(Replay(r, Fresh(every, on), log)) == Halt(Cancelled)
  {
    var start := Fresh(every, on);
    FollowsPrefix(r, start, log, i);
    DueAt(o, r, start, log, i);
    RunIsSound(o, r, every, on, log[..i]);
    CancelAccounted(o, r, every, on, log[..i]);
    DoneHalts(o, Replay(r, start, log[..i]));
    if i + 1 < |log| { DueAt(o, r, start, log, i + 1); } else { assert log[..i + 1] == log; }
  }

  /** The end an event puts to the run, given what came before it. A fatal failure goes
      before the count, and the count before a change. */
  ghost function EndOf(o: Options, h: Trace, e: Event): Option<Stop> {
    var counted := o.count > 0 && Starts(h) >= o.count;
    match e
    case Acted(k, _) => if IsQuitKey(k) then Some(Quit) else None
    case Failed(error) => if IsFatal(o, h, error) then Some(Fatal(error)) else if counted then Some(CountReached) else None
    case Succeeded(_, _, _) =>
      if counted then Some(CountReached) else if o.untilChange && IsChange(h, e) then Some(ChangeNoticed) else None
    case _ => None
  }

  ghost predicate HaltsBy(m: Machine, end: Option<Stop>) {
    match end
    case Some(why) => m.next == Halted(why)
    case None => !m.next.Halted?
  }

  lemma ActedHalts(o: Options, h: Trace, m: Machine, k: int, paused: bool)
    requires Sound(o, h, m) && TurnOf(m) == Emit(Acted(k, paused))
    ensures HaltsBy(AfterActed(m, k), EndOf(o, h, Acted(k, paused)))
  {}

  lemma FailedHalts(o: Options, h: Trace, m: Machine, e: Error)
    requires Agrees(o, h, m.facts)
    ensures HaltsBy(AfterFailure(o, m, e), EndOf(o, h, Failed(e)))
  {}

  lemma SucceededHalts(o: Options, h: Trace, m: Machine, e: Event)
    requires Agrees(o, h, m.facts) && e.Succeeded?
    ensures HaltsBy(AfterSuccess(o, m, e.body, e.tables, e.enabled), EndOf(o, h, e))
  {
    SuccessAgendaIs(o, h, m.facts, e);
  }

  lemma OthersGoOn(o: Options, h: Trace, m: Machine, e: Event)
    requires e.Started? || e.Received? || e.CutShort?
    ensures HaltsBy(AfterEvent(o, m, e), EndOf(o, h, e))
  {}

  lemma EventHalts(o: Options, h: Trace, m: Machine, e: Event)
    requires Sound(o, h, m) && TurnOf(m) == Emit(e)
    ensures HaltsBy(AfterEvent(o, m, e), EndOf(o, h, e))
  {
    match e {
      case Acted(k, paused) => ActedHalts(o, h, m, k, paused);
      case Failed(error) => FailedHalts(o, h, m, error);
      case Succeeded(_, _, _) => SucceededHalts(o, h, m, e);
      case _ => OthersGoOn(o, h, m, e);
    }
  }

  /** A quit key acted on, a fatal failure, the last refresh of the count and, under
      until-change, a success that differs from the one before it: each is the last
      entry of the run, and ends it for just that reason. */
  lemma CauseEndsRun(o: Options, r: Rules, every: int, on: bool, log: Log, i: nat)
    requires Applies(o, r) && Follows(r, Fresh(every, on), log) && i < |log| && log[i].Out?
    requires EndOf(o, Events(log[..i]), log[i].event).Some?
    ensures i == |log| - 1
    ensures TurnOf(Replay(r, Fresh(every, on), log)) == Halt(EndOf(o, Events(log[..i]), log[i].event).value)
  {
    var start := Fresh(every, on);
    FollowsPrefix(r, start, log, i);
    RunIsSound(o, r, every, on, log[..i]);
    DueAt(o, r, start, log, i);
    EventHalts(o, Events(log[..i]), Replay(r, start, log[..i]), log[i].event);
    if i + 1 < |log| {
      DueAt(o, r, start, log, i + 1);
    } else {
      assert log[..i + 1] == log;
    }
  }

  /** And there is no other end: a run that is over was cancelled, or its last entry is
      such an event. */
  lemma EndHasCause(o: Options, r: Rules, every: int, on: bool, log: Log, why: Stop)
    requires Applies(o, r) && Follows(r, Fresh(every, on), log) && TurnOf(Replay(r, Fresh(every, on), log)) == Halt(why)
    ensures if why == Cancelled then WasCancelled(Inputs(log), Events(log))
            else log != [] && log[|log| - 1].Out? && EndOf(o, Events(log[..|log| - 1]), log[|log| - 1].event) == Some(why)
  {
    var start := Fresh(every, on);
    var m := Replay(r, start, log);
    HaltIsKnown(m);
    if why == Cancelled {
      CancelAccounted(o, r, every, on, log);
      RunIsSound(o, r, every, on, log);
    } else {
      assert log != [];
      var init, x := log[..|log| - 1], log[|log| - 1];
      LastStep(o, r, start, log);
      RunIsSound(o, r, every, on, init);
      if x.In? {
        InputNeverEnds(Replay(r, start, init), x.input);
      } else {
        EventHalts(o, Events(init), Replay(r, start, init), x.event);
      }
    }
  }

  lemma InputNeverEnds(m: Machine, i: Input)
    requires TurnOf(m) == Listen
    ensures AfterInput(m, i).next.Halted? ==> AfterInput(m, i).next == Halted(Cancelled)
  {}

  /** Where a run has ended or waits for input: its events are lawful, every key taken
      was received, and an end shows its reason. */
  lemma EndIsJustified(o: Options, r: Rules, every: int, on: bool, log: Log)
    requires Applies(o, r) && Follows(r, Fresh(every, on), log) && !TurnOf(Replay(r, Fresh(every, on), log)).Emit?
    ensures var m, h := Replay(r, Fresh(every, on), log), Events(log);
      && Lawful(o, h)
      && KeysReceived(h) == Pressed(Inputs(log))
      && (TurnOf(m).Halt? ==> Justified(o, h, WasCancelled(Inputs(log), h), TurnOf(m).why))
  {
    RunIsSound(o, r, every, on, log);
    EveryKeyReceived(o, r, every, on, log);
    CancelAccounted(o, r, every, on, log);
    var m, h := Replay(r, Fresh(every, on), log), Events(log);
    assert KeysReceived(h) + [] == KeysReceived(h);
    HaltIsKnown(m);
  }

  lemma HaltIsKnown(m: Machine)
    requires !TurnOf(m).Emit?
    ensures !m.next.Hears?
    ensures TurnOf(m).Halt? ==> m.next == Halted(TurnOf(m).why) || (TurnOf(m).why == Cancelled && m.facts.cancelled)
  {}
}
