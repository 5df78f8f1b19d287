/** What becomes of every key of a run: acted on at once, kept for later, or ending a refresh. */
module WatchKeys {
  import opened WatchTrace
  import opened WatchMachine
  import opened WatchHistory

  /** Pausing, the interval, help, scrolling and Escape; quitting and interrupting; the rest. */
  lemma KeyClasses(k: int)
    ensures Classify(k).Abort? <==> k == 0x03 || k == 0x04 || k == 'q' as int || k == 'Q' as int
    ensures Classify(k).Immediate? <==>
      || k == 'p' as int || k == 'P' as int || k == '+' as int || k == '=' as int || k == '-' as int || k == '?' as int
      || k == 'j' as int || k == 'k' as int || k == 'g' as int || k == 'G' as int || k == 0x02 || k == 0x06
      || k == 0x100 || k == 0x101 || 0x104 <= k <= 0x108
  {}

  lemma ReceivedDue(o: Options, m: Machine, k: int, x: Entry)
    requires TurnOf(m) == Emit(Received(k)) && Due(After(o, m, Out(Received(k))), x)
    ensures !m.flying || Classify(k).Immediate? ==> x == Out(Acted(k, m.facts.paused))
    ensures m.flying && !Classify(k).Immediate? ==> x.In?
  {}

  /** A key received between refreshes, or one that only changes what is seen, is acted on
      next; any other key leaves the refresh in flight to go on. */
  lemma ReceivedIsAnswered(o: Options, r: Rules, every: int, on: bool, log: Log, i: nat)
    requires Applies(o, r) && Follows(r, Fresh(every, on), log) && i + 1 < |log| && log[i].Out? && log[i].event.Received?
    ensures var k, h := log[i].event.key, Events(log[..i]);
      if !Open(h) || Classify(k).Immediate? then log[i + 1] == Out(Acted(k, Paused(h))) else log[i + 1].In?
  {
    var start := Fresh(every, on);
    DueAt(o, r, start, log, i);
    DueAt(o, r, start, log, i + 1);
    FollowsPrefix(r, start, log, i);
    RunIsSound(o, r, every, on, log[..i]);
    ReceivedDue(o, Replay(r, start, log[..i]), log[i].event.key, log[i + 1]);
  }

  lemma CutShortDue(o: Options, m: Machine, k: int, x: Entry)
    requires Due(After(o, m, Out(CutShort(k))), x)
    ensures x == Out(Acted(k, m.facts.paused))
  {}

  /** The key that cut a refresh short is acted on next. */
  lemma CutShortIsAnswered(o: Options, r: Rules, every: int, on: bool, log: Log, i: nat)
    requires Applies(o, r) && Follows(r, Fresh(every, on), log) && i + 1 < |log| && log[i].Out? && log[i].event.CutShort?
    ensures log[i + 1] == Out(Acted(log[i].event.key, Paused(Events(log[..i]))))
  {
    var start := Fresh(every, on);
    DueAt(o, r, start, log, i);
    DueAt(o, r, start, log, i + 1);
    FollowsPrefix(r, start, log, i);
    RunIsSound(o, r, every, on, log[..i]);
    CutShortDue(o, Replay(r, start, log[..i]), log[i].event.key, log[i + 1]);
  }

  lemma StartWithoutCall(m: Machine, e: Event)
    requires TurnOf(m) == Emit(e) && e.Started? && !m.next.Finishes? && !m.next.Wakes?
    ensures m.facts.deferred == [] && !m.next.Acts?
  {}

  /** A refresh that nothing called for starts only when every key kept for later has been
      acted on. */
  lemma QueueComesFirst(o: Options, r: Rules, every: int, on: bool, log: Log, i: nat)
    requires Applies(o, r) && Follows(r, Fresh(every, on), log) && 0 < i < |log| && log[i].Out? && log[i].event.Started?
    requires !Calls(log[i - 1])
    ensures DeferredActed(Events(log[..i])) == DeferredReceived(Events(log[..i]))
  {
    var start, before := Fresh(every, on), log[..i];
    FollowsPrefix(r, start, log, i);
    DueAt(o, r, start, log, i);
    RunIsSound(o, r, every, on, before);
    var m := Replay(r, start, before);
    if m.next.Wakes? {
      WakeWasCalled(o, r, every, on, before);
    } else {
      StartWithoutCall(m, log[i].event);
      QueueDone(o, Events(before), m);
    }
  }
}
