/**
 What a run of the live-refresh loop (internal/watch/watch.go) has to be, given
 its inputs. A run is a log of inputs taken and events that happened. `Turn` says
 what has to come next after any beginning of a run (an event, the next input, or
 the end), so the inputs alone determine the whole run.
 */
module WatchMachine {
  import opened Basics
  import opened TableDiff
  import opened FrameDiffer
  import opened WatchErrors
  import opened WatchTrace

  const MIN_INTERVAL := 250_000_000
  const MAX_INTERVAL := 3600_000_000_000
  const SECOND := 1_000_000_000

  datatype Input =
    | Time(now: int)             // the clock is moved, possibly backwards
    | Press(key: int)
    | KeysClosed
    | Resize
    | Expire                     // the wait's timer channel is chosen
    | Cancel                     // the caller's context is cancelled
    | SeeDone                    // the wait's ctx.Done() channel is chosen
    | RenderTable(table: Table)  // the render goroutine reports a table
    | RenderOk(body: seq<byte>)
    | RenderErr(error: Error)

  datatype Stop =
    | Quit
    | CountReached
    | ChangeNoticed
    | Fatal(error: Error)
    | Cancelled

  // -------------------------------------------------------------------- logs

  datatype Entry = In(input: Input) | Out(event: Event)

  type Log = seq<Entry>

  function Inputs(log: Log): seq<Input> {
    if log == [] then []
    else Inputs(log[..|log| - 1]) + (if log[|log| - 1].In? then [log[|log| - 1].input] else [])
  }

  function Events(log: Log): Trace {
    if log == [] then []
    else Events(log[..|log| - 1]) + (if log[|log| - 1].Out? then [log[|log| - 1].event] else [])
  }

  // ------------------------------------------------------------------ timing

  function IntervalStep(d: int): int { if d < SECOND then 250_000_000 else SECOND }

  function StepDown(d: int): int { if d <= SECOND then 250_000_000 else SECOND }

  function Clamp(d: int): (r: int)
    ensures MIN_INTERVAL <= r <= MAX_INTERVAL
  {
    if d < MIN_INTERVAL then MIN_INTERVAL else if d > MAX_INTERVAL then MAX_INTERVAL else d
  }

  /** Twice the latency if that is longer than the interval asked for, up to the cap. */
  function WithLatency(base: int, latency: int): int {
    var want := if latency * 2 > base then latency * 2 else base;
    if want > MAX_INTERVAL then MAX_INTERVAL else want
  }

  datatype Timing = Timing(clock: int, tickAt: int, base: int, interval: int) {
    predicate Overdue() { tickAt + interval - clock <= 0 }

    function OnKey(k: int): Timing {
      if IsSlowerKey(k) then Every(Clamp(interval + IntervalStep(interval)))
      else if k == FASTER_KEY then Every(Clamp(interval - StepDown(interval)))
      else this
    }

    function Every(d: int): Timing { this.(base := d, interval := d) }
  }

  // ----------------------------------------------------------------- machine

  /** The loop's fields that the events determine. `inHand` is a deferred key taken
      off the keyboard or the queue and not yet acted on. */
  datatype Facts = Facts(
    attempts: int, frames: int, paused: bool, force: bool, deferred: seq<int>, inHand: seq<int>,
    cancelled: bool, body: seq<byte>, baseline: seq<TableState>)

  function InHand(k: int): seq<int> {
    if Classify(k).Deferred? then [k] else []
  }

  /** What acting on a key does to the facts. */
  function AfterKey(f: Facts, k: int): Facts {
    f.(inHand := [],
       paused := if IsPauseKey(k) then !f.paused else f.paused,
       force := f.force || Ticks(k, f.paused),
       cancelled := f.cancelled || IsInterruptKey(k))
  }

  /** A key that sends the waiting loop back to its top. */
  predicate Ticks(k: int, paused: bool) {
    IsRefreshKey(k) || k == DIFF_KEY || (IsPauseKey(k) && paused)
  }

  /** Where acting on a key leaves the waiting loop. */
  function KeyAgenda(k: int, paused: bool): Agenda {
    if IsQuitKey(k) then Halted(Quit) else if Ticks(k, paused) then Wakes else Calm
  }

  predicate CountHit(o: Options, f: Facts) { o.count > 0 && f.attempts >= o.count }

  /** What is known to come next: nothing in particular, a key to be put on record or
      acted on, the end of the refresh, the top of the loop, or the end of the run. */
  datatype Agenda = Calm | Hears(key: int) | Acts(key: int) | Finishes(event: Event) | Wakes | Halted(why: Stop)

  /** `flying` tells that a refresh is in flight, `seen` are its tables so far, and
      `aborted` is the key that cut it short. */
  datatype Machine = Machine(
    flying: bool, next: Agenda, seen: seq<Table>, aborted: Option<int>,
    facts: Facts, timing: Timing, keysOpen: bool, enabled: bool)

  function Fresh(every: int, on: bool): Machine {
    var d := if every <= 0 then 2 * SECOND else every;
    Machine(false, Wakes, [], None, Facts(0, 0, false, true, [], [], false, [], []), Timing(0, 0, d, d), true, on)
  }

  // ------------------------------------------------------------ what comes next

  datatype Turn = Listen | Emit(event: Event) | Halt(why: Stop)

  /** The top of the loop. */
  function TopTurn(m: Machine): Turn {
    if m.facts.cancelled then Halt(Cancelled)
    else if m.facts.force || !m.facts.paused then Emit(Started(m.facts.paused))
    else RestTurn(m)
  }

  /** Waiting: the queue first, then a refresh that is due, then the next input. */
  function RestTurn(m: Machine): Turn {
    if m.facts.deferred != [] then Emit(Acted(m.facts.deferred[0], m.facts.paused))
    else if !m.facts.paused && m.timing.Overdue() then
      if m.facts.cancelled then Halt(Cancelled) else Emit(Started(false))
    else Listen
  }

  function TurnOf(m: Machine): Turn {
    match m.next
    case Hears(k) => Emit(Received(k))
    case Acts(k) => Emit(Acted(k, m.facts.paused))
    case Finishes(e) => Emit(e)
    case Halted(why) => Halt(why)
    case Wakes => TopTurn(m)
    case Calm => if m.flying then Listen else RestTurn(m)
  }

  /** How a refresh ends when the render goroutine reports. */
  function Ending(input: Input, seen: seq<Table>, aborted: Option<int>, enabled: bool): Event
    requires input.RenderOk? || input.RenderErr?
  {
    if aborted.Some? then CutShort(aborted.value)
    else if input.RenderOk? then Succeeded(input.body, seen, enabled)
    else Failed(input.error)
  }

  /** A machine waiting between refreshes, or at the top of the loop. */
  predicate AtEase(m: Machine) {
    !m.flying && (m.next.Calm? || m.next.Wakes?)
  }

  function AfterInput(m: Machine, i: Input): Machine {
    match i
    case Time(t) => m.(next := Calm, timing := m.timing.(clock := t))
    case Cancel => m.(next := Calm, facts := m.facts.(cancelled := true))
    case KeysClosed => m.(next := Calm, keysOpen := false)
    case Press(k) => m.(next := if m.keysOpen then Hears(k) else Calm)
    case Expire => m.(next := if m.flying then Calm else Wakes)
    case SeeDone => m.(next := if !m.flying && m.facts.cancelled then Halted(Cancelled) else Calm)
    case RenderTable(t) => m.(next := Calm, seen := if m.flying then m.seen + [t] else m.seen)
    case RenderOk(_) => m.(next := if m.flying then Finishes(Ending(i, m.seen, m.aborted, m.enabled)) else Calm)
    case RenderErr(_) => m.(next := if m.flying then Finishes(Ending(i, m.seen, m.aborted, m.enabled)) else Calm)
    case Resize => m.(next := Calm)
  }

  function AfterReceived(m: Machine, k: int): Machine {
    if !m.flying then m.(next := Acts(k), facts := m.facts.(inHand := InHand(k)))
    else match Classify(k)
      case Abort => m.(next := Calm, aborted := if m.aborted.None? then Some(k) else m.aborted)
      case Immediate => m.(next := Acts(k))
      case Deferred => m.(next := Calm, facts := m.facts.(deferred := m.facts.deferred + [k]))
  }

  /** The oldest key of the queue is taken in hand. */
  function Popped(f: Facts): Facts
    requires f.deferred != []
  {
    f.(inHand := [f.deferred[0]], deferred := f.deferred[1..])
  }

  lemma HandIsEmptied(f: Facts, k: int)
    requires f.deferred != []
    ensures AfterKey(Popped(f), k) == AfterKey(f.(inHand := [], deferred := f.deferred[1..]), k)
  {}

  function Act(m: Machine, f: Facts, k: int): Machine {
    m.(facts := AfterKey(f, k),
       timing := m.timing.OnKey(k),
       enabled := if k == DIFF_KEY then !m.enabled else m.enabled,
       next := if m.flying then Calm else KeyAgenda(k, f.paused))
  }

  /** The key is the one in hand, or the oldest of the queue. */
  function AfterActed(m: Machine, k: int): Machine {
    Act(m, if m.next.Acts? || m.facts.deferred == [] then m.facts else Popped(m.facts), k)
  }

  /** The refresh is over, whatever became of it. */
  function Landed(m: Machine, next: Agenda): Machine {
    m.(flying := false, next := next, seen := [], aborted := None)
  }

  /** Whether a frame differs from the last good one. */
  ghost predicate Differing(f: Facts, body: seq<byte>, tables: seq<Table>, enabled: bool) {
    f.frames > 0 && (FrameChanged(enabled, f.baseline, tables) || (tables == [] && body != f.body))
  }

  function WithFrame(f: Facts, body: seq<byte>, tables: seq<Table>): Facts {
    f.(frames := f.frames + 1, body := body, baseline := Snapshots(tables))
  }

  /** Where a good frame leaves the loop; `f` are the facts before it. */
  ghost function SuccessAgenda(o: Options, f: Facts, body: seq<byte>, tables: seq<Table>, enabled: bool): Agenda {
    if CountHit(o, f) then Halted(CountReached)
    else if o.untilChange && Differing(f, body, tables, enabled) then Halted(ChangeNoticed)
    else Calm
  }

  ghost function AfterSuccess(o: Options, m: Machine, body: seq<byte>, tables: seq<Table>, enabled: bool): Machine {
    Landed(m, SuccessAgenda(o, m.facts, body, tables, enabled)).(
      facts := WithFrame(m.facts, body, tables),
      timing := m.timing.(interval := WithLatency(m.timing.base, m.timing.clock - m.timing.tickAt)))
  }

  /** A failure the loop does not ride out. */
  predicate IsFatalNow(o: Options, f: Facts, e: Error) {
    IsCancellation(e) || IsAuthFailure(e) || (f.frames == 0 && !IsTransient(e)) || o.exitOnError
  }

  function FailureAgenda(o: Options, f: Facts, e: Error): Agenda {
    if IsFatalNow(o, f, e) then Halted(Fatal(e)) else if CountHit(o, f) then Halted(CountReached) else Calm
  }

  function AfterFailure(o: Options, m: Machine, e: Error): Machine {
    Landed(m, FailureAgenda(o, m.facts, e))
  }

  function AfterStarted(m: Machine): Machine {
    m.(flying := true, next := Calm, facts := m.facts.(attempts := m.facts.attempts + 1, force := false),
       timing := m.timing.(tickAt := m.timing.clock))
  }

  ghost function AfterEvent(o: Options, m: Machine, e: Event): Machine {
    match e
    case Started(_) => AfterStarted(m)
    case Received(k) => AfterReceived(m, k)
    case Acted(k, _) => AfterActed(m, k)
    case Succeeded(body, tables, enabled) => AfterSuccess(o, m, body, tables, enabled)
    case Failed(error) => AfterFailure(o, m, error)
    case CutShort(k) => Landed(m, Acts(k))
  }

  ghost function After(o: Options, m: Machine, x: Entry): Machine {
    match x
    case In(i) => AfterInput(m, i)
    case Out(e) => AfterEvent(o, m, e)
  }

  ghost predicate Due(m: Machine, x: Entry) {
    match x
    case In(_) => TurnOf(m) == Listen
    case Out(e) => TurnOf(m) == Emit(e)
  }

  // -------------------------------------------------------------------- runs

  /** A way to judge and to carry on a run. */
  datatype Rules = Rules(due: (Machine, Entry) -> bool, after: (Machine, Entry) -> Machine)

  ghost function Replay(r: Rules, start: Machine, log: Log): Machine {
    if log == [] then start else r.after(Replay(r, start, log[..|log| - 1]), log[|log| - 1])
  }

  /** Every entry of the log is the one that was due. */
  ghost predicate Follows(r: Rules, start: Machine, log: Log) {
    log == [] ||
    (Follows(r, start, log[..|log| - 1]) && r.due(Replay(r, start, log[..|log| - 1]), log[|log| - 1]))
  }

  /** The rules of the loop. */
  ghost function RulesOf(o: Options): Rules {
    Rules((m: Machine, x: Entry) => Due(m, x), (m: Machine, x: Entry) => After(o, m, x))
  }

  predicate Consulted(m: Machine, x: Entry) { true }

  /** `r` are the rules of the loop, looked up case by case. */
  ghost predicate Applies(o: Options, r: Rules) {
    forall m, x {:trigger Consulted(m, x)} :: Consulted(m, x) ==> r.due(m, x) == Due(m, x) && r.after(m, x) == After(o, m, x)
  }

  lemma RulesApply(o: Options)
    ensures Applies(o, RulesOf(o))
  {}

  lemma Consult(o: Options, r: Rules, m: Machine, x: Entry)
    requires Applies(o, r)
    ensures r.due(m, x) == Due(m, x) && r.after(m, x) == After(o, m, x)
  {
    assert Consulted(m, x);
  }

  lemma Extend(r: Rules, start: Machine, log: Log, x: Entry)
    requires Follows(r, start, log) && r.due(Replay(r, start, log), x)
    ensures Follows(r, start, log + [x])
    ensures Replay(r, start, log + [x]) == r.after(Replay(r, start, log), x)
    ensures Inputs(log + [x]) == Inputs(log) + (if x.In? then [x.input] else [])
    ensures Events(log + [x]) == Events(log) + (if x.Out? then [x.event] else [])
  {
    assert (log + [x])[..|log|] == log;
  }

  /** One more entry, by the rules. */
  lemma Advance(o: Options, r: Rules, start: Machine, log: Log, m: Machine, x: Entry)
    requires Applies(o, r) && Follows(r, start, log) && Replay(r, start, log) == m && Due(m, x)
    ensures Follows(r, start, log + [x]) && Replay(r, start, log + [x]) == After(o, m, x)
    ensures Inputs(log + [x]) == Inputs(log) + (if x.In? then [x.input] else [])
    ensures Events(log + [x]) == Events(log) + (if x.Out? then [x.event] else [])
  {
    Consult(o, r, m, x);
    Extend(r, start, log, x);
  }

  /** The log is a run that has led to m. */
  ghost predicate LeadsTo(r: Rules, start: Machine, log: Log, m: Machine) {
    Follows(r, start, log) && Replay(r, start, log) == m
  }

  lemma InputStep(o: Options, r: Rules, start: Machine, log: Log, m: Machine, i: Input)
    requires Applies(o, r) && LeadsTo(r, start, log, m) && TurnOf(m) == Listen
    ensures LeadsTo(r, start, log + [In(i)], AfterInput(m, i)) && Inputs(log + [In(i)]) == Inputs(log) + [i]
  {
    Advance(o, r, start, log, m, In(i));
  }

  lemma StartedStep(o: Options, r: Rules, start: Machine, log: Log, m: Machine, e: Event)
    requires Applies(o, r) && LeadsTo(r, start, log, m) && TurnOf(m) == Emit(e) && e.Started?
    ensures LeadsTo(r, start, log + [Out(e)], AfterStarted(m)) && Inputs(log + [Out(e)]) == Inputs(log)
  {
    Advance(o, r, start, log, m, Out(e));
  }

  lemma ReceivedStep(o: Options, r: Rules, start: Machine, log: Log, m: Machine, k: int)
    requires Applies(o, r) && LeadsTo(r, start, log, m) && m.next == Hears(k)
    ensures LeadsTo(r, start, log + [Out(Received(k))], AfterReceived(m, k)) && Inputs(log + [Out(Received(k))]) == Inputs(log)
  {
    Advance(o, r, start, log, m, Out(Received(k)));
  }

  lemma ActedStep(o: Options, r: Rules, start: Machine, log: Log, m: Machine, k: int)
    requires Applies(o, r) && LeadsTo(r, start, log, m) && m.next == Acts(k)
    ensures var x := Out(Acted(k, m.facts.paused));
      LeadsTo(r, start, log + [x], Act(m, m.facts, k)) && Inputs(log + [x]) == Inputs(log)
  {
    Advance(o, r, start, log, m, Out(Acted(k, m.facts.paused)));
  }

  lemma DrainDue(o: Options, m: Machine, x: Entry)
    requires m.facts.deferred != [] && x == Out(Acted(m.facts.deferred[0], m.facts.paused))
    requires TurnOf(m) == RestTurn(m)
    ensures Due(m, x)
  {}

  lemma DrainLeads(o: Options, m: Machine, k: int, paused: bool)
    requires m.facts.deferred != [] && AtEase(m)
    ensures After(o, m, Out(Acted(k, paused))) == Act(m, Popped(m.facts), k)
  {}

  /** The oldest key of the queue is acted on. */
  lemma DrainStep(o: Options, r: Rules, start: Machine, log: Log, m: Machine, x: Entry)
    requires Applies(o, r) && LeadsTo(r, start, log, m) && m.facts.deferred != []
    requires TurnOf(m) == RestTurn(m) && AtEase(m) && x == Out(Acted(m.facts.deferred[0], m.facts.paused))
    ensures LeadsTo(r, start, log + [x], Act(m, Popped(m.facts), m.facts.deferred[0])) && Inputs(log + [x]) == Inputs(log)
  {
    DrainDue(o, m, x);
    DrainLeads(o, m, m.facts.deferred[0], m.facts.paused);
    Advance(o, r, start, log, m, x);
  }

  lemma SucceededStep(o: Options, r: Rules, start: Machine, log: Log, m: Machine, body: seq<byte>, tables: seq<Table>, enabled: bool)
    requires Applies(o, r) && LeadsTo(r, start, log, m) && m.next == Finishes(Succeeded(body, tables, enabled))
    ensures var x := Out(Succeeded(body, tables, enabled));
      LeadsTo(r, start, log + [x], AfterSuccess(o, m, body, tables, enabled)) && Inputs(log + [x]) == Inputs(log)
  {
    Advance(o, r, start, log, m, Out(Succeeded(body, tables, enabled)));
  }

  lemma FailedStep(o: Options, r: Rules, start: Machine, log: Log, m: Machine, e: Error)
    requires Applies(o, r) && LeadsTo(r, start, log, m) && m.next == Finishes(Failed(e))
    ensures LeadsTo(r, start, log + [Out(Failed(e))], AfterFailure(o, m, e)) && Inputs(log + [Out(Failed(e))]) == Inputs(log)
  {
    Advance(o, r, start, log, m, Out(Failed(e)));
  }

  lemma CutShortStep(o: Options, r: Rules, start: Machine, log: Log, m: Machine, k: int)
    requires Applies(o, r) && LeadsTo(r, start, log, m) && m.next == Finishes(CutShort(k))
    ensures LeadsTo(r, start, log + [Out(CutShort(k))], Landed(m, Acts(k))) && Inputs(log + [Out(CutShort(k))]) == Inputs(log)
  {
    Advance(o, r, start, log, m, Out(CutShort(k)));
  }

  /** The last step of a run. */
  lemma LastStep(o: Options, r: Rules, start: Machine, log: Log)
    requires Applies(o, r) && Follows(r, start, log) && log != []
    ensures var init, x := log[..|log| - 1], log[|log| - 1];
      && Follows(r, start, init) && Due(Replay(r, start, init), x)
      && Replay(r, start, log) == After(o, Replay(r, start, init), x)
      && Inputs(log) == (if x.In? then Inputs(init) + [x.input] else Inputs(init))
      && Events(log) == (if x.Out? then Events(init) + [x.event] else Events(init))
  {
    Consult(o, r, Replay(r, start, log[..|log| - 1]), log[|log| - 1]);
  }

  lemma {:induction false} FollowsPrefix(r: Rules, start: Machine, log: Log, n: nat)
    requires Follows(r, start, log) && n <= |log|
    ensures Follows(r, start, log[..n])
    ensures n < |log| ==> r.due(Replay(r, start, log[..n]), log[n])
    ensures n < |log| ==> Replay(r, start, log[..n + 1]) == r.after(Replay(r, start, log[..n]), log[n])
    decreases |log| - n
  {
    if n == |log| {
      assert log[..n] == log;
    } else {
      FollowsPrefix(r, start, log, n + 1);
      assert log[..n + 1][..n] == log[..n];
    }
  }

  /** What was due at a place of the log, and what it led to. */
  lemma DueAt(o: Options, r: Rules, start: Machine, log: Log, n: nat)
    requires Applies(o, r) && Follows(r, start, log) && n < |log|
    ensures Due(Replay(r, start, log[..n]), log[n])
    ensures Replay(r, start, log[..n + 1]) == After(o, Replay(r, start, log[..n]), log[n])
  {
    FollowsPrefix(r, start, log, n);
    Consult(o, r, Replay(r, start, log[..n]), log[n]);
  }

  // ------------------------------------------------------------- determinism

  lemma DueUnique(o: Options, r: Rules, m: Machine, x: Entry, y: Entry)
    requires Applies(o, r) && r.due(m, x) && r.due(m, y)
    ensures x == y || (x.In? && y.In?)
  {
    Consult(o, r, m, x);
    Consult(o, r, m, y);
  }

  /** The inputs determine the run: two runs on the same inputs agree as far as the
      shorter one goes. */
  lemma {:induction false} RunIsDetermined(o: Options, r: Rules, start: Machine, a: Log, b: Log)
    requires Applies(o, r) && Follows(r, start, a) && Follows(r, start, b)
    requires Inputs(a) <= Inputs(b) && |a| <= |b|
    ensures a <= b
    decreases |a|
  {
    if a != [] {
      var n := |a| - 1;
      InputsPrefix(a, n);
      RunIsDetermined(o, r, start, a[..n], b);
      FollowsPrefix(r, start, b, n);
      assert b[..n] == a[..n];
      DueUnique(o, r, Replay(r, start, a[..n]), a[n], b[n]);
      SameInput(a, b, n);
      assert a == a[..n] + [a[n]];
    }
  }

  lemma SameInput(a: Log, b: Log, n: nat)
    requires n == |a| - 1 < |b| && a[..n] == b[..n] && Inputs(a) <= Inputs(b)
    ensures a[n].In? && b[n].In? ==> a[n] == b[n]
  {
    InputsPrefix(b, n + 1);
    assert b[..n + 1][..n] == b[..n];
    var before := Inputs(a[..n]);
    if a[n].In? && b[n].In? {
      assert Inputs(a)[|before|] == a[n].input;
      assert Inputs(b[..n + 1])[|before|] == b[n].input;
    }
  }

  lemma {:induction false} InputsPrefix(log: Log, n: nat)
    requires n <= |log|
    ensures Inputs(log[..n]) <= Inputs(log)
    decreases |log| - n
  {
    if n == |log| {
      assert log[..n] == log;
    } else {
      InputsPrefix(log, n + 1);
      assert log[..n + 1][..n] == log[..n];
    }
  }
}
