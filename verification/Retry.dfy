/**
 The retry loop around one signed S3 request (internal/s3/s3.go) and its policy
 (internal/s3/retry.go). The server, the clock and the caller's cancellation are
 functions of the attempt number, so the contracts hold for every history of them.
 */
module Retry {
  import opened Basics

  // ------------------------------------------------------------------- errors

  /** An error chain; `Sink` is the marker put on an error raised while the response
      body was being consumed. */
  datatype Error =
    | Other(text: string)
    | Api(code: string, status: int)
    | Sink(inner: Error)
    | Wrapped(inner: Error)

  /** errors.As for the marker: the error under the outermost one. */
  function SinkCause(e: Error): Option<Error> {
    match e
    case Sink(inner) => Some(inner)
    case Wrapped(inner) => SinkCause(inner)
    case _ => None
  }

  function ApiCause(e: Error): (a: Option<Error>)
    ensures a.Some? ==> a.value.Api?
  {
    match e
    case Api(_, _) => Some(e)
    case Sink(inner) => ApiCause(inner)
    case Wrapped(inner) => ApiCause(inner)
    case Other(_) => None
  }

  const RETRYABLE_CODES: set<string> := {"InternalError", "ServiceUnavailable", "SlowDown", "RequestTimeout"}

  predicate Retryable(e: Error) {
    if SinkCause(e).Some? then false
    else
      var api := ApiCause(e);
      api.None? || api.value.code in RETRYABLE_CODES ||
      api.value.status == 408 || api.value.status == 429 || api.value.status >= 500
  }

  function UnwrapSink(e: Error): Error {
    var cause := SinkCause(e);
    if cause.Some? then cause.value else e
  }

  /** x is the error or is wrapped in it. */
  ghost predicate Reaches(e: Error, x: Error) {
    e == x || match e
      case Sink(inner) => Reaches(inner, x)
      case Wrapped(inner) => Reaches(inner, x)
      case _ => false
  }

  ghost predicate WorthAnother(code: string, status: int) {
    || code == "InternalError" || code == "ServiceUnavailable" || code == "SlowDown" || code == "RequestTimeout"
    || status == 408 || status == 429 || status >= 500
  }

  /** An error is worth another try unless the response was being consumed, or the
      service gave an answer that is none of those it gives under load. */
  lemma {:induction false} RetryableExactly(e: Error)
    ensures Retryable(e) <==>
      (forall inner :: !Reaches(e, Sink(inner))) && (forall code, status :: Reaches(e, Api(code, status)) ==> WorthAnother(code, status))
  {
    SinkExactly(e);
    ApiExactly(e);
  }

  lemma {:induction false} SinkExactly(e: Error)
    ensures SinkCause(e).Some? <==> exists inner :: Reaches(e, Sink(inner))
  {
    match e
    case Sink(inner) => assert Reaches(e, Sink(inner));
    case Wrapped(inner) => SinkExactly(inner);
    case _ =>
  }

  lemma {:induction false} ApiExactly(e: Error)
    ensures forall code, status :: ApiCause(e) == Some(Api(code, status)) <==> Reaches(e, Api(code, status))
  {
    match e
    case Sink(inner) => ApiExactly(inner);
    case Wrapped(inner) => ApiExactly(inner);
    case _ =>
  }

  // -------------------------------------------------------------------- delay

  const MAX_DELAY: int := 10_000_000_000

  function Pow2(n: nat): (p: int)
    ensures p >= 1
  {
    if n == 0 then 1 else 2 * Pow2(n - 1)
  }

  lemma {:induction false} Pow2Grows(a: nat, b: nat)
    requires a <= b
    ensures Pow2(a) <= Pow2(b)
  {
    if a < b { Pow2Grows(a, b - 1); }
  }

  lemma DoublingGrows(base: int, a: nat, b: nat)
    requires base >= 0 && a <= b
    ensures base * Pow2(a) <= base * Pow2(b)
  {
    Pow2Grows(a, b);
    Product(base, Pow2(a), Pow2(b));
  }

  lemma Product(base: int, x: int, y: int)
    requires base >= 0 && x <= y
    ensures base * x <= base * y
  {}

  /** Go's remainder: it takes the sign of the dividend. */
  function GoRem(a: int, b: int): (r: int)
    requires b > 0
    ensures -b < r < b && (a >= 0 ==> r >= 0)
  {
    if a >= 0 then a % b else -((-a) % b)
  }

  /** The wait before retry n, without its jitter: the base doubled n - 1 times and
      capped, the cap being looked at after each doubling. */
  function Nominal(base: int, n: nat): int
    requires n >= 1
  {
    if n == 1 || base * Pow2(n - 1) < MAX_DELAY then base * Pow2(n - 1) else MAX_DELAY
  }

  /** For a base within the cap this is the doubled base or the cap, whichever is
      less, and it never shrinks from one retry to the next. */
  lemma NominalIsCapped(base: int, n: nat)
    requires n >= 1 && 0 < base <= MAX_DELAY
    ensures Nominal(base, n) == if base * Pow2(n - 1) < MAX_DELAY then base * Pow2(n - 1) else MAX_DELAY
    ensures base <= Nominal(base, n) <= Nominal(base, n + 1) <= MAX_DELAY
  {
    DoublingGrows(base, 0, n - 1);
    DoublingGrows(base, n - 1, n);
    assert Pow2(0) == 1;
  }

  method Delay(base: int, n: nat, clock: int) returns (d: int)
    requires n >= 1
    ensures clock >= 0 ==> Nominal(base, n) <= d
    ensures Nominal(base, n) >= 4 ==> d - Nominal(base, n) < Nominal(base, n) / 4
    ensures Nominal(base, n) < 4 ==> d == Nominal(base, n)
  {
    d := base;
    var i := 0;
    assert base * Pow2(0) == base;
    while i < n - 1
      invariant 0 <= i <= n - 1
      invariant d == base * Pow2(i)
      invariant i > 0 ==> d < MAX_DELAY
    {
      Doubled(base, i);
      d := d * 2;
      i := i + 1;
      if d >= MAX_DELAY {
        DoublingGrows(base, i, n - 1);
        d := MAX_DELAY;
        break;
      }
    }
    assert d == Nominal(base, n);
    var spread := d / 4;
    if spread > 0 {
      d := d + GoRem(clock, spread);
    }
  }

  lemma Doubled(base: int, i: nat)
    ensures base * Pow2(i) * 2 == base * Pow2(i + 1)
  {
    var p := Pow2(i);
    assert Pow2(i + 1) == 2 * p;
    assert base * p * 2 == base * (2 * p);
  }

  // ------------------------------------------------------------------ attempts

  /** What the network makes of one attempt. `sink` is what the caller's consumer
      returns for this response. */
  datatype Reply =
    | NoAnswer(error: Error)
    | Answer(status: int, code: string, sink: Option<Error>)

  predicate Accepted(r: Reply) {
    r.Answer? && 200 <= r.status < 300
  }

  /** The error one attempt ends in. */
  function Fault(r: Reply): Option<Error> {
    match r
    case NoAnswer(e) => Some(Wrapped(e))
    case Answer(status, code, sink) =>
      if !Accepted(r) then Some(Api(code, status))
      else if sink.Some? then Some(Sink(sink.value))
      else None
  }

  /** What the caller is told when a reply settles the request. */
  function Verdict(r: Reply): Option<Error> {
    match Fault(r)
    case None => None
    case Some(e) => Some(UnwrapSink(e))
  }

  /** Which replies are asked for again, and what a reply that settles the request says. */
  lemma RepliesJudged(r: Reply)
    ensures r.Answer? ==>
      ((Fault(r).Some? && Retryable(Fault(r).value)) <==> !(200 <= r.status < 300) && WorthAnother(r.code, r.status))
    ensures r.Answer? ==> Verdict(r) == if 200 <= r.status < 300 then r.sink else Some(Api(r.code, r.status))
    ensures r.NoAnswer? ==> Fault(r).Some? && (Retryable(Fault(r).value) <==> Retryable(r.error))
  {}

  /** One request's surroundings, attempt by attempt: the reply, how many body bytes
      the transport read, whether the caller had given up by then, whether the wait
      before it was cut short, whether the body could be rewound, and the clock. */
  datatype World = World(reply: nat -> Reply, used: nat -> nat, gaveUp: nat -> bool,
                         waitCut: nat -> bool, rewinds: nat -> bool, clock: nat -> int)

  datatype Event = Sent(offset: Option<int>) | Consumed | Paused(retry: nat, delay: int)

  function Sends(log: seq<Event>): nat {
    if log == [] then 0 else Sends(log[..|log| - 1]) + if log[|log| - 1].Sent? then 1 else 0
  }

  function Sinks(log: seq<Event>): nat {
    if log == [] then 0 else Sinks(log[..|log| - 1]) + if log[|log| - 1].Consumed? then 1 else 0
  }

  lemma Note(log: seq<Event>, e: Event)
    ensures Sends(log + [e]) == Sends(log) + if e.Sent? then 1 else 0
    ensures Sinks(log + [e]) == Sinks(log) + if e.Consumed? then 1 else 0
  {
    assert (log + [e])[..|log|] == log;
  }

  /** Whether the loop goes round again after attempt i, under a policy that says
      which errors are worth it. */
  predicate TriesAgain(w: World, policy: Error -> bool, maxRetries: int, i: nat) {
    i < maxRetries && !w.gaveUp(i) && Fault(w.reply(i)).Some? && policy(Fault(w.reply(i)).value)
  }

  /** An attempt is followed by another exactly if one is left, the caller has not given up,
      and the reply was no answer or one that is worth asking again. */
  lemma RetriedExactly(w: World, maxRetries: int, i: nat)
    ensures TriesAgain(w, Retryable, maxRetries, i) <==>
      i < maxRetries && !w.gaveUp(i) &&
      match w.reply(i)
      case NoAnswer(e) => Retryable(e)
      case Answer(status, code, _) => !(200 <= status < 300) && WorthAnother(code, status)
  {
    RepliesJudged(w.reply(i));
  }

  /** What the loop needs of the policy: an error from the sink is never retried. */
  ghost predicate SparesSink(policy: Error -> bool) {
    forall e :: !policy(Sink(e))
  }

  ghost predicate RetriedUpTo(w: World, policy: Error -> bool, maxRetries: int, n: int) {
    forall i :: 0 <= i < n ==> TriesAgain(w, policy, maxRetries, i)
  }

  /** A response that was handed to the sink is never asked for again. */
  lemma AcceptedIsFinal(w: World, policy: Error -> bool, maxRetries: int, i: nat)
    requires SparesSink(policy)
    ensures TriesAgain(w, policy, maxRetries, i) ==> !Accepted(w.reply(i))
  {}

  ghost predicate PauseLawful(base: int, w: World, e: Event) {
    e.Paused? ==>
      e.retry >= 1 && (w.clock(e.retry) >= 0 ==> Nominal(base, e.retry) <= e.delay) &&
      (if Nominal(base, e.retry) < 4 then e.delay == Nominal(base, e.retry)
       else e.delay - Nominal(base, e.retry) < Nominal(base, e.retry) / 4)
  }

  /** Where a log of n attempts has every body sent from the same place and every
      pause lawful. */
  ghost predicate Lawful(base: int, w: World, start: Option<int>, log: seq<Event>) {
    forall i :: 0 <= i < |log| ==> (log[i].Sent? ==> log[i].offset == start) && PauseLawful(base, w, log[i])
  }

  /** The entry at i is where it belongs: a body goes out first of all, or right after
      the wait for just this retry, and a wait is for the retry that is due. */
  ghost predicate InTurn(log: seq<Event>, i: nat)
    requires i < |log|
  {
    var n := Sends(log[..i]);
    && (log[i].Sent? ==> if n == 0 then i == 0 else log[i - 1].Paused? && log[i - 1].retry == n)
    && (log[i].Paused? ==> log[i].retry == n)
    && (log[i].Consumed? ==> i > 0 && log[i - 1].Sent?)
  }

  /** Between two attempts there is always a wait, and it is the one for that retry. */
  ghost predicate Spaced(log: seq<Event>) {
    forall i :: 0 <= i < |log| ==> InTurn(log, i)
  }

  lemma SpacedNext(log: seq<Event>, e: Event)
    requires Spaced(log)
    requires e.Sent? ==> if Sends(log) == 0 then log == [] else log[|log| - 1].Paused? && log[|log| - 1].retry == Sends(log)
    requires e.Paused? ==> e.retry == Sends(log)
    requires e.Consumed? ==> log != [] && log[|log| - 1].Sent?
    ensures Spaced(log + [e])
  {
    var all := log + [e];
    forall i | 0 <= i < |all| ensures InTurn(all, i) {
      if i < |log| {
        assert InTurn(log, i) && all[..i] == log[..i];
      } else {
        assert all[..i] == log;
      }
    }
  }

  /** Attempt n may begin: it is the first, or its wait is over. */
  ghost predicate Ready(log: seq<Event>, n: nat) {
    n == Sends(log) && if n == 0 then log == [] else log != [] && log[|log| - 1].Paused? && log[|log| - 1].retry == n
  }

  /** The wait before retry n, noted in the log. */
  method Backoff(base: int, n: nat, w: World, ghost start: Option<int>, log: seq<Event>) returns (log': seq<Event>)
    requires n == Sends(log) >= 1 && Lawful(base, w, start, log) && Spaced(log)
    ensures Lawful(base, w, start, log') && Spaced(log') && Ready(log', n) && Sinks(log') == Sinks(log)
    ensures log <= log'
  {
    var d := Delay(base, n, w.clock(n));
    Note(log, Paused(n, d));
    SpacedNext(log, Paused(n, d));
    log' := log + [Paused(n, d)];
  }

  /** What comes between two attempts: the wait, then the body rewound to where it
      started; either can end the request. */
  method Prepare(base: int, n: nat, w: World, start: Option<int>, pos: Option<int>, log: seq<Event>,
                 rewindError: Error, cancelled: Error)
    returns (stop: Option<Error>, pos': Option<int>, log': seq<Event>)
    requires n == Sends(log) >= 1 && Lawful(base, w, start, log) && Spaced(log) && (start.None? ==> pos == start)
    ensures Lawful(base, w, start, log') && Spaced(log') && Ready(log', n) && Sinks(log') == Sinks(log)
    ensures stop.None? ==> pos' == start
    ensures stop.Some? <==> w.waitCut(n) || (start.Some? && !w.rewinds(n))
    ensures stop.Some? ==> stop.value == if w.waitCut(n) then cancelled else rewindError
  {
    stop, pos' := None, pos;
    log' := Backoff(base, n, w, start, log);
    if w.waitCut(n) { stop := Some(cancelled); return; }
    if start.Some? {
      if !w.rewinds(n) { stop := Some(rewindError); return; }
      pos' := start;
    }
  }

  /** One attempt: the body goes out from where it stands, and the sink sees the
      response exactly when it was accepted. */
  method Attempt(base: int, w: World, n: nat, pos: Option<int>, log: seq<Event>)
    returns (fault: Option<Error>, log': seq<Event>)
    requires Lawful(base, w, pos, log) && Spaced(log) && Ready(log, n)
    ensures fault == Fault(w.reply(n)) && Lawful(base, w, pos, log') && Spaced(log')
    ensures Sends(log') == n + 1
    ensures Sinks(log') == Sinks(log) + if Accepted(w.reply(n)) then 1 else 0
  {
    log' := Record(log, Sent(pos), base, w, pos);
    match w.reply(n)
    case NoAnswer(e) => fault := Some(Wrapped(e));
    case Answer(status, code, sink) =>
      if status < 200 || status >= 300 {
        fault := Some(Api(code, status));
      } else {
        log' := Record(log', Consumed, base, w, pos);
        fault := if sink.Some? then Some(Sink(sink.value)) else None;
      }
  }

  /** One more entry, in its turn. */
  method Record(log: seq<Event>, e: Event, ghost base: int, ghost w: World, ghost start: Option<int>) returns (log': seq<Event>)
    requires Lawful(base, w, start, log) && Spaced(log) && !e.Paused?
    requires e.Sent? ==> e.offset == start && Ready(log, Sends(log))
    requires e.Consumed? ==> log != [] && log[|log| - 1].Sent?
    ensures log' == log + [e] && Lawful(base, w, start, log') && Spaced(log')
    ensures Sends(log') == Sends(log) + if e.Sent? then 1 else 0
    ensures Sinks(log') == Sinks(log) + if e.Consumed? then 1 else 0
  {
    Note(log, e);
    SpacedNext(log, e);
    log' := log + [e];
  }

  /** Whether an attempt settles the request, and with what. */
  method Settle(policy: Error -> bool, maxRetries: int, w: World, n: nat, fault: Option<Error>)
    returns (over: bool, err: Option<Error>)
    requires fault == Fault(w.reply(n))
    ensures over <==> !TriesAgain(w, policy, maxRetries, n)
    ensures over ==> err == Verdict(w.reply(n))
  {
    if fault.None? { return true, None; }
    over := n >= maxRetries || w.gaveUp(n) || !policy(fault.value);
    err := Some(UnwrapSink(fault.value));
  }

  /** One attempt and what becomes of the request. */
  method Try(policy: Error -> bool, maxRetries: int, base: int, w: World, n: nat, pos: Option<int>, log: seq<Event>)
    returns (over: bool, err: Option<Error>, log': seq<Event>)
    requires SparesSink(policy) && Lawful(base, w, pos, log) && Spaced(log) && Ready(log, n) && Sinks(log) == 0
    ensures over <==> !TriesAgain(w, policy, maxRetries, n)
    ensures over ==> err == Verdict(w.reply(n))
    ensures !over ==> !Accepted(w.reply(n)) && n < maxRetries
    ensures Lawful(base, w, pos, log') && Spaced(log') && Sends(log') == n + 1
    ensures Sinks(log') == if Accepted(w.reply(n)) then 1 else 0
  {
    var fault;
    fault, log' := Attempt(base, w, n, pos, log);
    over, err := Settle(policy, maxRetries, w, n, fault);
    AcceptedIsFinal(w, policy, maxRetries, n);
  }

  /** How a request ended, from its last attempt: success, the error of that attempt
      as the caller should see it, or the reason the next one could not begin. */
  function Ending(w: World, policy: Error -> bool, maxRetries: int, last: nat, rewindError: Error, cancelled: Error): Option<Error> {
    if !TriesAgain(w, policy, maxRetries, last) then Verdict(w.reply(last))
    else if w.waitCut(last + 1) then Some(cancelled)
    else Some(rewindError)
  }

  /** A request succeeds exactly if its last reply was accepted and consumed; an error of the
      consumer, and an answer the service refused with, reach the caller as they are. */
  lemma ToldExactly(w: World, maxRetries: int, last: nat, rewindError: Error, cancelled: Error)
    ensures var err := Ending(w, Retryable, maxRetries, last, rewindError, cancelled);
      && (err.None? <==> w.reply(last).Answer? && 200 <= w.reply(last).status < 300 && w.reply(last).sink.None?)
      && (w.reply(last).Answer? && 200 <= w.reply(last).status < 300 ==> err == w.reply(last).sink)
      && (w.reply(last).Answer? && !(200 <= w.reply(last).status < 300) && (last >= maxRetries || w.gaveUp(last)) ==>
            err == Some(Api(w.reply(last).code, w.reply(last).status)))
  {
    RepliesJudged(w.reply(last));
  }

  /** The attempts, from the position the body was found at. */
  method Attempts(policy: Error -> bool, maxRetries: int, base: int, start: Option<int>, w: World,
                  rewindError: Error, cancelled: Error)
    returns (err: Option<Error>, log: seq<Event>, attempts: nat)
    requires SparesSink(policy)
    ensures 1 <= attempts <= (if maxRetries > 0 then maxRetries else 0) + 1 && attempts == Sends(log)
    ensures Lawful(base, w, start, log) && Spaced(log)
    ensures RetriedUpTo(w, policy, maxRetries, attempts - 1)
    ensures TriesAgain(w, policy, maxRetries, attempts - 1) ==>
      Ready(log, attempts) && (w.waitCut(attempts) || (start.Some? && !w.rewinds(attempts)))
    ensures Sinks(log) == if Accepted(w.reply(attempts - 1)) then 1 else 0
    ensures err == Ending(w, policy, maxRetries, attempts - 1, rewindError, cancelled)
  {
    log, attempts := [], 0;
    var pos := start;
    while true
      invariant attempts <= (if maxRetries > 0 then maxRetries else 0)
      invariant attempts == Sends(log) && Sinks(log) == 0 && (attempts == 0 ==> log == [])
      invariant attempts == 0 || start.None? ==> pos == start
      invariant Lawful(base, w, start, log) && Spaced(log)
      invariant RetriedUpTo(w, policy, maxRetries, attempts)
      invariant attempts > 0 ==> !Accepted(w.reply(attempts - 1))
      decreases maxRetries - attempts
    {
      if attempts > 0 {
        var stop;
        stop, pos, log := Prepare(base, attempts, w, start, pos, log, rewindError, cancelled);
        if stop.Some? { return stop, log, attempts; }
      }
      var over;
      over, err, log := Try(policy, maxRetries, base, w, attempts, pos, log);
      pos := if pos.Some? then Some(pos.value + w.used(attempts)) else None;
      attempts := attempts + 1;
      if over { return; }
    }
  }

  /** One request with its retries. `body` is the body's position, or the error of
      asking for it; `rewindError` stands for the error of a failed rewind and
      `cancelled` for the context's own. */
  method Do(maxRetries: int, base: int, body: Option<Result<int, Error>>, w: World, rewindError: Error, cancelled: Error)
    returns (err: Option<Error>, log: seq<Event>, attempts: nat)
    ensures attempts == Sends(log) <= (if maxRetries > 0 then maxRetries else 0) + 1
    ensures Sinks(log) <= 1 && Spaced(log)
    ensures err.None? ==> Sinks(log) == 1
    ensures if body.Some? && body.value.Err? then log == [] && err == Some(body.value.error)
            else attempts > 0 && Lawful(base, w, if body.Some? then Some(body.value.value) else None, log) &&
                 err == Ending(w, Retryable, maxRetries, attempts - 1, rewindError, cancelled) &&
                 RetriedUpTo(w, Retryable, maxRetries, attempts - 1) &&
                 (TriesAgain(w, Retryable, maxRetries, attempts - 1) ==> Ready(log, attempts))
  {
    var start := None;
    if body.Some? {
      if body.value.Err? { return Some(body.value.error), [], 0; }
      start := Some(body.value.value);
    }
    err, log, attempts := Attempts(Retryable, maxRetries, base, start, w, rewindError, cancelled);
  }
}
