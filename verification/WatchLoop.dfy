/**
 The live-refresh loop of internal/watch/watch.go and keys.go. The environment
 (clock, keyboard, the render goroutine, the caller's context) is a tape of
 inputs: every finite run of the loop is a run on some tape, and the contracts
 below say what the run on that tape is.
 */
module WatchLoop {
  import opened Basics
  import opened FrameDiffer
  import opened WatchErrors
  import opened WatchTrace
  import opened WatchMachine
  import opened WatchHistory

  datatype KeyEvent = NoEvent | TickNow | QuitNow

  datatype Rendering = Rendered(body: seq<byte>) | Broken(error: Error) | Unfinished

  class Runner {
    const o: Options
    const tape: seq<Input>
    const differ: Differ
    ghost const start: Machine
    ghost const rules: Rules
    var at: nat
    var clock: int
    var keysOpen: bool
    var cancelled: bool

    var baseInterval: int
    var interval: int
    var attempts: int
    var frames: int
    var errs: nat
    var lastErr: Option<Error>
    var tickAt: int
    var lastOK: int
    var paused: bool
    var showHelp: bool
    var force: bool
    var skipped: nat
    var deferred: seq<int>
    var body: seq<byte>
    ghost var log: Log

    /** The machine the fields show, at a given point of the code. */
    ghost function Now(flying: bool, next: Agenda, seen: seq<Table>, aborted: Option<int>): Machine
      reads this, differ
    {
      Machine(flying, next, seen, aborted,
              if next.Acts? then Fields().(inHand := InHand(next.key)) else Fields(), Times(), keysOpen, differ.enabled)
    }

    ghost function Fields(): Facts
      reads this, differ
    {
      Facts(attempts, frames, paused, force, deferred, [], cancelled, body, differ.prev)
    }

    ghost function Times(): Timing
      reads this
    {
      Timing(clock, tickAt, baseInterval, interval)
    }

    /** The inputs taken and the events on record are a run that has led to m. */
    ghost predicate Led(m: Machine)
      reads this, differ
    {
      && Applies(o, rules) && LeadsTo(rules, start, log, m)
      && at <= |tape| && Inputs(log) == tape[..at]
      && Sane()
    }

    ghost predicate At(flying: bool, next: Agenda, seen: seq<Table>, aborted: Option<int>)
      reads this, differ
    {
      Led(Now(flying, next, seen, aborted))
    }

    ghost predicate Sane()
      reads this, differ
    {
      differ.Valid() && interval > 0 && baseInterval > 0
    }

    /** Between refreshes. */
    ghost predicate Idle(next: Agenda)
      reads this, differ
    {
      At(false, next, [], None)
    }

    /** A refresh is in flight and has reported `seen`. */
    ghost predicate InFlight(next: Agenda, seen: seq<Table>, aborted: Option<int>)
      reads this, differ
    {
      At(true, next, seen, aborted) && differ.InFrame(seen) && (aborted.Some? ==> Classify(aborted.value).Abort?)
    }

    /** At rest, and the wait decides what comes next. */
    ghost predicate Waiting(next: Agenda)
      reads this, differ
    {
      Idle(next) && (next.Calm? || next.Wakes?) && TurnOf(Now(false, next, [], None)) == RestTurn(Now(false, next, [], None))
    }

    /** At rest, and the top of the loop decides what comes next. */
    ghost predicate AtTop(next: Agenda)
      reads this, differ
    {
      Idle(next) && (next.Calm? || next.Wakes?) && TurnOf(Now(false, next, [], None)) == TopTurn(Now(false, next, [], None))
    }

    /** The run has come to its end, or to the end of the tape, where the rules call
        for another input. The fields are those the run determines. */
    ghost predicate Ended(why: Option<Stop>)
      reads this, differ
    {
      && Applies(o, rules) && Follows(rules, start, log) && at <= |tape| && Inputs(log) == tape[..at]
      && Replay(rules, start, log).facts == Fields()
      && (match why
          case Some(stop) => TurnOf(Replay(rules, start, log)) == Halt(stop)
          case None => at == |tape| && TurnOf(Replay(rules, start, log)) == Listen)
    }

    /** A fresh runner: a refresh is owed, the frame is empty. */
    constructor (o: Options, tape: seq<Input>, d: Differ, every: int)
      requires d.Valid() && d.prev == []
      ensures Idle(Wakes) && log == [] && at == 0
      ensures this.o == o && this.tape == tape && differ == d && start == Fresh(every, d.enabled)
    {
      this.o, this.tape, this.differ, this.start, this.rules := o, tape, d, Fresh(every, d.enabled), RulesOf(o);
      RulesApply(o);
      at, clock, keysOpen, cancelled := 0, 0, true, false;
      baseInterval := if every <= 0 then 2 * SECOND else every;
      interval := if every <= 0 then 2 * SECOND else every;
      attempts, frames, errs, lastErr, tickAt, lastOK := 0, 0, 0, None, 0, 0;
      paused, showHelp, force, skipped, deferred, body := false, false, true, 0, [], [];
      log := [];
    }

    // ------------------------------------------------------------------- keys

    method SetInterval(d: int)
      modifies this`interval, this`baseInterval
      ensures interval == baseInterval == Clamp(d)
    {
      baseInterval := Clamp(d);
      interval := baseInterval;
    }

    method TogglePause() returns (ev: KeyEvent)
      modifies this`paused, this`force
      ensures paused == !old(paused)
      ensures force == (old(force) || old(paused))
      ensures ev == (if old(paused) then TickNow else NoEvent)
    {
      paused := !paused;
      if paused {
        return NoEvent;
      }
      force := true;
      ev := TickNow;
    }

    /** What a key does to the loop's own fields. */
    method Perform(k: int) returns (ev: KeyEvent)
      modifies this`paused, this`force, this`cancelled, this`interval, this`baseInterval, this`showHelp, differ`enabled
      ensures Fields() == AfterKey(old(Fields()), k)
      ensures Times() == old(Times()).OnKey(k)
      ensures AgendaOf(ev) == KeyAgenda(k, old(paused))
      ensures differ.enabled == (if k == DIFF_KEY then !old(differ.enabled) else old(differ.enabled))
      ensures showHelp == (if k == HELP_KEY then !old(showHelp) else if k == ESCAPE_KEY then false else old(showHelp))
    {
      ev := NoEvent;
      if IsScrollKey(k) {
        return;
      }
      if IsInterruptKey(k) {
        cancelled := true;
      } else if IsQuitKey(k) {
        ev := QuitNow;
      } else if IsRefreshKey(k) {
        force := true;
        ev := TickNow;
      } else if IsPauseKey(k) {
        ev := TogglePause();
      } else if IsSlowerKey(k) {
        SetInterval(interval + IntervalStep(interval));
      } else if k == FASTER_KEY {
        SetInterval(interval - StepDown(interval));
      } else if k == DIFF_KEY {
        differ.SetEnabled(!differ.enabled);
        force := true;
        ev := TickNow;
      } else if k == HELP_KEY {
        showHelp := !showHelp;
      } else if k == ESCAPE_KEY {
        showHelp := false;
      }
    }

    /** Acts on one key, with the log to show for it. */
    method Key(k: int, ghost flying: bool, ghost seen: seq<Table>, ghost aborted: Option<int>) returns (ev: KeyEvent)
      requires At(flying, Acts(k), seen, aborted)
      modifies this`paused, this`force, this`cancelled, this`interval, this`baseInterval, this`showHelp, this`log, differ`enabled
      ensures At(flying, if flying then Calm else AgendaOf(ev), seen, aborted)
      ensures AgendaOf(ev) == KeyAgenda(k, old(paused))
      ensures k != DIFF_KEY ==> differ.enabled == old(differ.enabled)
    {
      ghost var m := Now(flying, Acts(k), seen, aborted);
      ActedStep(o, rules, start, log, m, k);
      log := log + [Out(Acted(k, paused))];
      ev := Perform(k);
      assert Now(flying, if flying then Calm else AgendaOf(ev), seen, aborted) == Act(m, m.facts, k);
    }

    // ---------------------------------------------------------------- refresh

    /** Takes the next input off the tape. */
    method Take(ghost m: Machine) returns (input: Input)
      requires Led(m) && TurnOf(m) == Listen && at < |tape|
      modifies this`at, this`log
      ensures at == old(at) + 1 && input == tape[old(at)]
      ensures Led(AfterInput(m, input))
    {
      input := tape[at];
      InputStep(o, rules, start, log, m, input);
      assert tape[..at + 1] == tape[..at] + [input];
      log := log + [In(input)];
      at := at + 1;
    }

    /** Puts a key that was taken on record. */
    method Receive(k: int, ghost m: Machine)
      requires Led(m) && m.next == Hears(k)
      modifies this`log
      ensures Led(AfterReceived(m, k))
    {
      ReceivedStep(o, rules, start, log, m, k);
      log := log + [Out(Received(k))];
    }

    /** A key during a refresh: acted on, queued, or turned into an abort. */
    method KeyDuringRefresh(k: int, aborted: Option<int>, ghost seen: seq<Table>) returns (stopper: Option<int>)
      requires InFlight(Hears(k), seen, aborted)
      modifies this`paused, this`force, this`cancelled, this`interval, this`baseInterval, this`showHelp, this`log, this`deferred, differ`enabled
      ensures InFlight(Calm, seen, stopper)
      ensures differ.enabled == old(differ.enabled)
    {
      Receive(k, Now(true, Hears(k), seen, aborted));
      stopper := aborted;
      match Classify(k) {
        case Abort => if aborted.None? { stopper := Some(k); }
        case Immediate => ActInFlight(k, aborted, seen);
        case Deferred => deferred := deferred + [k];
      }
    }

    method ActInFlight(k: int, ghost aborted: Option<int>, ghost seen: seq<Table>)
      requires InFlight(Acts(k), seen, aborted) && Classify(k).Immediate?
      modifies this`paused, this`force, this`cancelled, this`interval, this`baseInterval, this`showHelp, this`log, differ`enabled
      ensures InFlight(Calm, seen, aborted)
      ensures differ.enabled == old(differ.enabled)
    {
      var _ := Key(k, true, seen, aborted);
    }

    /** An input that only changes what the loop knows of its surroundings. */
    method Absorb(input: Input, ghost m: Machine)
      requires Led(AfterInput(m, input)) && IsQuiet(input) && m == Now(m.flying, m.next, m.seen, m.aborted) && !m.next.Acts?
      modifies this`clock, this`cancelled, this`keysOpen
      ensures At(m.flying, Calm, m.seen, m.aborted)
    {
      match input {
        case Time(t) => clock := t;
        case Cancel => cancelled := true;
        case KeysClosed => keysOpen := false;
        case Resize =>
      }
    }

    method TableReported(t: Table, aborted: Option<int>, ghost seen: seq<Table>)
      requires At(true, Calm, seen + [t], aborted) && differ.InFrame(seen)
      modifies differ`cur, differ`idx, differ`changed
      ensures At(true, Calm, seen + [t], aborted) && differ.InFrame(seen + [t])
    {
      var _, _ := differ.Highlight(t.cols, t.rows, seen);
    }

    /** One turn of refresh()'s select. */
    method Select(aborted: Option<int>, ghost seen: seq<Table>) returns (stopper: Option<int>, r: Rendering, ghost now: seq<Table>)
      requires InFlight(Calm, seen, aborted) && at < |tape|
      modifies this`at, this`clock, this`keysOpen, this`paused, this`force, this`cancelled, this`interval, this`baseInterval,
               this`showHelp, this`log, this`deferred, differ`enabled, differ`cur, differ`idx, differ`changed
      ensures at == old(at) + 1 && differ.enabled == old(differ.enabled)
      ensures InFlight(if r.Unfinished? then Calm else Finishes(Outcome(r, now, stopper, differ.enabled)), now, stopper)
    {
      ghost var m := Now(true, Calm, seen, aborted);
      var input := Take(m);
      stopper, r, now := aborted, Unfinished, seen;
      if IsQuiet(input) {
        Absorb(input, m);
      } else if input.Press? {
        if keysOpen { stopper := KeyDuringRefresh(input.key, aborted, seen); }
      } else if input.RenderTable? {
        TableReported(input.table, aborted, seen);
        now := seen + [input.table];
      } else if input.RenderOk? {
        r := Rendered(input.body);
      } else if input.RenderErr? {
        r := Broken(input.error);
      }
    }

    /** refresh(): runs one render, watching the keyboard while it is in flight. */
    method Refresh() returns (aborted: Option<int>, r: Rendering, ghost seen: seq<Table>)
      requires InFlight(Calm, [], None)
      modifies this`at, this`clock, this`keysOpen, this`paused, this`force, this`cancelled, this`interval, this`baseInterval,
               this`showHelp, this`log, this`deferred, differ`enabled, differ`cur, differ`idx, differ`changed
      ensures differ.enabled == old(differ.enabled)
      ensures InFlight(if r.Unfinished? then Calm else Finishes(Outcome(r, seen, aborted, differ.enabled)), seen, aborted)
      ensures if r.Unfinished? then at == |tape| else at > old(at)
    {
      aborted, r, seen := None, Unfinished, [];
      while at < |tape| && r.Unfinished?
        invariant InFlight(if r.Unfinished? then Calm else Finishes(Outcome(r, seen, aborted, differ.enabled)), seen, aborted)
        invariant differ.enabled == old(differ.enabled) && at <= |tape|
        invariant old(at) <= at && (r.Unfinished? || old(at) < at)
        decreases |tape| - at
      {
        aborted, r, seen := Select(aborted, seen);
      }
    }

    // ------------------------------------------------------------------- tick

    /** The refresh was cut short on purpose; the key that did it is acted on now. */
    method EndCutShort(k: int, ghost seen: seq<Table>) returns (next: Agenda)
      requires InFlight(Finishes(CutShort(k)), seen, Some(k))
      modifies this`paused, this`force, this`cancelled, this`interval, this`baseInterval, this`showHelp, this`log, differ`enabled, differ`cur
      ensures Idle(next) && next == if IsQuitKey(k) then Halted(Quit) else Calm
    {
      ghost var m := Now(true, Finishes(CutShort(k)), seen, Some(k));
      CutShortStep(o, rules, start, log, m, k);
      differ.Rollback();
      log := log + [Out(CutShort(k))];
      assert Now(false, Acts(k), [], None) == Landed(m, Acts(k));
      var ev := Key(k, false, [], None);
      next := if ev == QuitNow then Halted(Quit) else Calm;
    }

    predicate CountIsReached()
      reads this
    {
      o.count > 0 && attempts >= o.count
    }

    /** recordError(): whether the failure ends the run. */
    method RecordError(e: Error) returns (fatal: bool)
      modifies this`errs, this`lastErr
      ensures fatal <==> IsFatalNow(o, Fields(), e)
      ensures if IsCancellation(e) then errs == old(errs) && lastErr == old(lastErr) else errs == old(errs) + 1 && lastErr == Some(e)
    {
      if IsCancellation(e) {
        return true;
      }
      errs := errs + 1;
      lastErr := Some(e);
      if IsAuthFailure(e) {
        return true;
      }
      if frames == 0 && !IsTransient(e) {
        return true;
      }
      fatal := o.exitOnError;
    }

    /** Whether a failure ends the run, and if not, whether it was the last attempt. */
    method Judge(e: Error) returns (next: Agenda)
      modifies this`errs, this`lastErr
      ensures next == FailureAgenda(o, Fields(), e)
    {
      var fatal := RecordError(e);
      next := if fatal then Halted(Fatal(e)) else if CountIsReached() then Halted(CountReached) else Calm;
    }

    /** Puts a failed refresh on record. */
    method RecordFailure(e: Error, ghost m: Machine)
      requires Led(m) && m.next == Finishes(Failed(e))
      modifies this`log
      ensures Led(AfterFailure(o, m, e))
    {
      FailedStep(o, rules, start, log, m, e);
      log := log + [Out(Failed(e))];
    }

    method EndFailed(e: Error, ghost seen: seq<Table>) returns (next: Agenda)
      requires InFlight(Finishes(Failed(e)), seen, None)
      modifies this`errs, this`lastErr, this`log, differ`cur
      ensures Idle(next)
      ensures next == FailureAgenda(o, Fields(), e)
    {
      ghost var m := Now(true, Finishes(Failed(e)), seen, None);
      RecordFailure(e, m);
      differ.Rollback();
      next := Judge(e);
      assert Fields() == m.facts && Times() == m.timing;
    }

    /** backoff(): twice the latency if that is longer, never beyond the cap. */
    method Backoff(latency: int)
      modifies this`interval
      ensures interval == WithLatency(baseInterval, latency)
    {
      interval := baseInterval;
      if latency * 2 > interval {
        interval := latency * 2;
      }
      if interval > MAX_INTERVAL {
        interval := MAX_INTERVAL;
      }
    }

    /** The fields a good frame replaces, and whether it differs from the last. */
    method Accept(b: seq<byte>, latency: int, ghost seen: seq<Table>) returns (differs: bool)
      requires differ.InFrame(seen) && frames >= 0
      modifies this`errs, this`lastErr, this`frames, this`lastOK, this`body, this`interval, differ`prev, differ`rows, differ`tables
      ensures differs <==> Differing(old(Fields()), b, seen, differ.enabled)
      ensures Fields() == WithFrame(old(Fields()), b, seen) && differ.Valid()
      ensures errs == 0 && lastErr == None && lastOK == tickAt && interval == WithLatency(baseInterval, latency)
    {
      var moved := differ.changed;
      differ.Commit(seen);
      var byteChange := differ.tables == 0 && frames > 0 && b != body;
      errs, lastErr := 0, None;
      frames, lastOK, body := frames + 1, tickAt, b;
      Backoff(latency);
      differs := frames > 1 && (moved || byteChange);
    }

    /** Puts a good frame on record. */
    method RecordSuccess(b: seq<byte>, ghost seen: seq<Table>, ghost m: Machine)
      requires Led(m) && m.next == Finishes(Succeeded(b, seen, differ.enabled))
      modifies this`log
      ensures Led(AfterSuccess(o, m, b, seen, differ.enabled))
    {
      SucceededStep(o, rules, start, log, m, b, seen, differ.enabled);
      log := log + [Out(Succeeded(b, seen, differ.enabled))];
    }

    method EndSucceeded(b: seq<byte>, latency: int, ghost seen: seq<Table>) returns (next: Agenda)
      requires InFlight(Finishes(Succeeded(b, seen, differ.enabled)), seen, None) && latency == clock - tickAt && frames >= 0
      modifies this`errs, this`lastErr, this`frames, this`lastOK, this`body, this`interval, this`log, differ`prev, differ`rows, differ`tables
      ensures Idle(next) && Fields() == WithFrame(old(Fields()), b, seen)
      ensures next == SuccessAgenda(o, old(Fields()), b, seen, differ.enabled)
    {
      RecordSuccess(b, seen, Now(true, Finishes(Succeeded(b, seen, differ.enabled)), seen, None));
      var differs := Accept(b, latency, seen);
      next := if CountIsReached() then Halted(CountReached) else if o.untilChange && differs then Halted(ChangeNoticed) else Calm;
    }

    /** The start of tick(): the refresh is on record before it runs. */
    method Begin(ghost agenda: Agenda)
      requires Idle(agenda) && TurnOf(Now(false, agenda, [], None)) == Emit(Started(paused))
      modifies this`log, this`force, this`tickAt, this`attempts, differ`cur, differ`idx, differ`changed
      ensures InFlight(Calm, [], None)
    {
      ghost var m := Now(false, agenda, [], None);
      StartedStep(o, rules, start, log, m, Started(paused));
      log := log + [Out(Started(paused))];
      force := false;
      tickAt := clock;
      attempts := attempts + 1;
      differ.BeginFrame();
      assert Now(true, Calm, [], None) == AfterStarted(m);
    }

    /** The end of tick(), by how the render came out. */
    method Finish(aborted: Option<int>, r: Rendering, ghost seen: seq<Table>) returns (next: Agenda)
      requires !r.Unfinished? && InFlight(Finishes(Outcome(r, seen, aborted, differ.enabled)), seen, aborted) && frames >= 0
      modifies this`paused, this`force, this`cancelled, this`interval, this`baseInterval, this`showHelp, this`log, this`errs, this`lastErr,
               this`frames, this`lastOK, this`body, differ`enabled, differ`cur, differ`prev, differ`rows, differ`tables
      ensures Idle(next) && (next.Calm? || next.Halted?) && frames >= 0
    {
      if aborted.Some? {
        next := EndCutShort(aborted.value, seen);
      } else if r.Broken? {
        next := EndFailed(r.error, seen);
      } else {
        next := EndSucceeded(r.body, clock - tickAt, seen);
      }
    }

    /** tick(): one refresh, recorded from its start to its end; None if the tape ends
        while it is in flight. */
    method Tick(ghost agenda: Agenda) returns (next: Option<Agenda>)
      requires Idle(agenda) && TurnOf(Now(false, agenda, [], None)) == Emit(Started(paused)) && frames >= 0
      modifies this, differ
      ensures next.None? ==> Ended(None)
      ensures next.Some? ==> Idle(next.value) && (next.value.Calm? || next.value.Halted?) && at > old(at)
      ensures frames >= 0
    {
      Begin(agenda);
      var aborted, r;
      ghost var seen;
      aborted, r, seen := Refresh();
      if r.Unfinished? {
        return None;
      }
      var end := Finish(aborted, r, seen);
      next := Some(end);
    }

    // ------------------------------------------------------------------- wait

    function UntilNext(): int
      reads this
    {
      if paused then MAX_INTERVAL else tickAt + interval - clock
    }

    /** The interval since the last refresh started is over, and the loop not paused. */
    predicate DeadlinePassed()
      reads this
    {
      !paused && clock >= tickAt + interval
    }

    /** noteSkips(): deadlines already missed are counted, never queued. */
    method NoteSkips()
      requires interval > 0 && UntilNext() <= 0
      modifies this`skipped
      ensures skipped == old(skipped) + (clock - (tickAt + interval)) / interval
    {
      var overdue := clock - (tickAt + interval);
      var missed := overdue / interval;
      if missed > 0 {
        skipped := skipped + missed;
      }
    }

    /** A key pressed between refreshes. */
    method KeyWhileIdle(k: int) returns (next: Agenda)
      requires Idle(Hears(k))
      modifies this`paused, this`force, this`cancelled, this`interval, this`baseInterval, this`showHelp, this`log, differ`enabled
      ensures Idle(next) && next == KeyAgenda(k, old(paused))
    {
      Receive(k, Now(false, Hears(k), [], None));
      var ev := Key(k, false, [], None);
      next := AgendaOf(ev);
    }

    /** One event of wait()'s select. */
    method Hear(ghost agenda: Agenda) returns (next: Agenda)
      requires Waiting(agenda) && TurnOf(Now(false, agenda, [], None)) == Listen && at < |tape|
      modifies this`at, this`clock, this`keysOpen, this`paused, this`force, this`cancelled, this`interval, this`baseInterval, this`showHelp,
               this`log, differ`enabled
      ensures at == old(at) + 1
      ensures Idle(next) && (next.Calm? || next.Wakes? || next.Halted?)
    {
      ghost var m := Now(false, agenda, [], None);
      var input := Take(m);
      next := Calm;
      if IsQuiet(input) {
        Absorb(input, m);
      } else if input.Expire? {
        next := Wakes;
      } else if input.SeeDone? && cancelled {
        next := Halted(Cancelled);
      } else if input.Press? && keysOpen {
        next := KeyWhileIdle(input.key);
      }
    }

    /** Puts the oldest key of the queue on record as acted on. */
    method RecordDrain(ghost agenda: Agenda)
      requires Waiting(agenda) && deferred != []
      modifies this`log
      ensures Led(Act(Now(false, agenda, [], None), Popped(Now(false, agenda, [], None).facts), deferred[0]))
    {
      DrainStep(o, rules, start, log, Now(false, agenda, [], None), Out(Acted(deferred[0], paused)));
      log := log + [Out(Acted(deferred[0], paused))];
    }

    /** The oldest key held back during a refresh is acted on first. */
    method Drain(ghost agenda: Agenda) returns (next: Agenda)
      requires Waiting(agenda) && deferred != []
      modifies this`paused, this`force, this`cancelled, this`interval, this`baseInterval, this`showHelp, this`log, this`deferred, differ`enabled
      ensures deferred == old(deferred)[1..]
      ensures Idle(next) && next == KeyAgenda(old(deferred)[0], old(paused))
    {
      ghost var f, t := Popped(Fields()), Times();
      var k := deferred[0];
      RecordDrain(agenda);
      HandIsEmptied(Fields(), k);
      deferred := deferred[1..];
      var ev := Perform(k);
      next := AgendaOf(ev);
      assert Fields() == AfterKey(f, k) && Times() == t.OnKey(k);
    }

    /** Where the wait stands: on, back to the top of the loop (`here` tells whether by
        an event or because a refresh is due), or at the end of the run. */
    ghost predicate Waited(next: Agenda, here: Agenda)
      reads this, differ
    {
      match next
      case Calm => Waiting(Calm)
      case Wakes => AtTop(here)
      case Halted(_) => Idle(next)
      case _ => false
    }

    /** One turn of wait(). It acts on a queued key, finds a refresh due, has no more
        tape, or hears an input. */
    method WaitTurn(ghost agenda: Agenda) returns (next: Option<Agenda>, ghost here: Agenda)
      requires Waiting(agenda)
      modifies this`at, this`clock, this`keysOpen, this`paused, this`force, this`cancelled, this`interval, this`baseInterval, this`showHelp,
               this`log, this`deferred, this`skipped, differ`enabled
      ensures next.None? ==> Ended(None)
      ensures next.Some? ==> Waited(next.value, here)
      ensures next.Some? ==> at == old(at) + 1 || (at == old(at) && |deferred| == |old(deferred)| - 1)
                             || (next == Some(Wakes) && at == old(at) && deferred == old(deferred) && DeadlinePassed() && old(DeadlinePassed()))
    {
      here := agenda;
      if deferred != [] {
        var end := Drain(agenda);
        next, here := Some(end), end;
      } else if UntilNext() <= 0 {
        NoteSkips();
        next := Some(Wakes);
      } else if at == |tape| {
        next := None;
      } else {
        var end := Hear(agenda);
        next, here := Some(end), end;
      }
    }

    /** wait(): until a refresh is due or the run ends. Without a key or an input
        consumed it returns only when a refresh is due. */
    method Wait(ghost agenda: Agenda) returns (next: Option<Agenda>, ghost here: Agenda)
      requires Waiting(agenda)
      modifies this`at, this`clock, this`keysOpen, this`paused, this`force, this`cancelled, this`interval, this`baseInterval, this`showHelp,
               this`log, this`deferred, this`skipped, differ`enabled
      ensures next.None? ==> Ended(None)
      ensures next.Some? ==> !next.value.Calm? && Waited(next.value, here)
      ensures old(at) <= at
      ensures next.Some? && at == old(at) ==> |deferred| < |old(deferred)| || (deferred == old(deferred) && old(DeadlinePassed()))
    {
      ghost var now := agenda;
      while true
        invariant Waiting(now)
        invariant at > old(at) || (at == old(at) && |deferred| < |old(deferred)|)
                  || (at == old(at) && deferred == old(deferred) && DeadlinePassed() == old(DeadlinePassed()))
        decreases |tape| - at, |deferred|
      {
        next, here := WaitTurn(now);
        if next != Some(Calm) { return; }
        now := Calm;
      }
    }

    /** loop(): refresh, wait, repeat. For every tape the log is the run the rules
        prescribe for it, up to its end or the end of the tape. */
    method Loop() returns (why: Option<Stop>)
      requires Idle(Wakes) && frames >= 0
      modifies this, differ
      ensures Ended(why)
    {
      ghost var here := Wakes;
      while true
        invariant AtTop(here) && frames >= 0
        decreases |tape| - at, |deferred|
      {
        if cancelled {
          return Some(Cancelled);
        }
        ghost var agenda := here;
        if force || !paused {
          var ended := Tick(here);
          if ended.None? { return None; }
          if ended.value.Halted? { return Some(ended.value.why); }
          agenda := Calm;
        }
        var next;
        next, here := Wait(agenda);
        if next.None? { return None; }
        if next.value.Halted? { return Some(next.value.why); }
      }
    }

    /** Run(): a fresh loop. The events of the run are lawful, they account for the keys
        of the tape, and they show why the run ended. */
    method Run(ghost every: int, ghost on: bool) returns (why: Option<Stop>)
      requires Idle(Wakes) && log == [] && start == Fresh(every, on)
      modifies this, differ
      ensures Ended(why)
      ensures Lawful(o, Events(log)) && KeysReceived(Events(log)) == Pressed(tape[..at])
      ensures why.Some? ==> Justified(o, Events(log), WasCancelled(tape[..at], Events(log)), why.value)
    {
      why := Loop();
      EndIsJustified(o, rules, every, on, log);
    }
  }

  predicate IsQuiet(i: Input) { i.Time? || i.Cancel? || i.KeysClosed? || i.Resize? }

  /** How a refresh ends, from what the render goroutine reported. */
  function Outcome(r: Rendering, seen: seq<Table>, aborted: Option<int>, enabled: bool): Event
    requires !r.Unfinished?
  {
    if aborted.Some? then CutShort(aborted.value)
    else if r.Rendered? then Succeeded(r.body, seen, enabled)
    else Failed(r.error)
  }

  function AgendaOf(ev: KeyEvent): Agenda {
    match ev
    case QuitNow => Halted(Quit)
    case TickNow => Wakes
    case NoEvent => Calm
  }
}
