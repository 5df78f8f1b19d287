/** Theorems about every schedule of the uploader, and the object that runs one. */
module MultipartTheorems {
  import opened Basics
  import opened Multipart
  import opened MultipartInvariant

  // ------------------------------------------------------------------- runs

  /** Whether a schedule is one the goroutines can follow. */
  ghost predicate Legal(c: Upload, s: State, run: seq<Action>)
    requires c.Valid()
    decreases |run|
  {
    run == [] || (Enabled(c, s, run[0]) && Legal(c, Apply(c, s, run[0]), run[1..]))
  }

  ghost function Exec(c: Upload, s: State, run: seq<Action>): State
    requires c.Valid() && Legal(c, s, run)
    decreases |run|
  {
    if run == [] then s else Exec(c, Apply(c, s, run[0]), run[1..])
  }

  lemma {:induction false} RunKeepsInv(c: Upload, s: State, run: seq<Action>)
    requires c.Valid() && Inv(c, s) && Legal(c, s, run)
    ensures Inv(c, Exec(c, s, run))
    decreases |run|
  {
    if run != [] {
      StepKeepsInv(c, s, run[0]);
      RunKeepsInv(c, Apply(c, s, run[0]), run[1..]);
    }
  }

  lemma ReachableInv(c: Upload, run: seq<Action>)
    requires c.Valid() && Legal(c, Init(c), run)
    ensures Inv(c, Exec(c, Init(c), run))
  {
    assert Inv(c, Init(c));
    RunKeepsInv(c, Init(c), run);
  }

  // --------------------------------------------------------------- theorems

  ghost predicate Requested(s: State, list: seq<CompletedPart>) {
    CompleteUpload(list) in s.log || s.reader == Completing(list)
  }

  /** Whatever the schedule, a list handed to the completion request is the
      source: numbered 1..n, every part with the tag the server gave its own
      body, the bodies concatenating to the data, every part but the last full,
      and the source shorter than MAX_PARTS parts. */
  lemma CompletionIsExact(c: Upload, run: seq<Action>, list: seq<CompletedPart>)
    requires c.Valid() && Legal(c, Init(c), run)
    requires Requested(Exec(c, Init(c), run), list)
    ensures var s := Exec(c, Init(c), run);
      && |list| == |s.sent| == |s.workers| <= MAX_PARTS
      && Flatten(s.sent) == c.data
      && (forall i :: 0 <= i < |list| ==>
            && list[i].number == i + 1
            && s.workers[i].outcome == Stored(list[i].etag)
            && list[i].size == |s.sent[i]|)
      && (forall i :: 0 <= i < |list| - 1 ==> |s.sent[i]| == c.partSize)
      && (forall i :: 0 <= i < |list| ==> 0 < |s.sent[i]| <= c.partSize)
      && |c.data| < c.Capacity()
      && EndOutcome(c.end) == EndOfSource
  {
    ReachableInv(c, run);
    RequestedIsExact(c, Exec(c, Init(c), run), list);
  }

  lemma RequestedIsExact(c: Upload, s: State, list: seq<CompletedPart>)
    requires Inv(c, s) && Requested(s, list)
    ensures Exact(s, list) && Flatten(s.sent) == c.data && |c.data| < c.Capacity() && EndOutcome(c.end) == EndOfSource
  {
    assert Exact(s, list);
    assert s.failures == [] && !InLoop(s);
    assert Flatten(s.sent) + [] + [] == Flatten(s.sent);
  }

  /** A completion is requested only after every worker has exited, at most
      once, and never together with an abort. */
  lemma CompletionAfterJoin(c: Upload, run: seq<Action>, list: seq<CompletedPart>)
    requires c.Valid() && Legal(c, Init(c), run)
    requires Requested(Exec(c, Init(c), run), list)
    ensures var s := Exec(c, Init(c), run);
      AllGone(s.workers) && s.failures == [] && AbortUpload !in s.log && |s.log| <= 1
  {
    ReachableInv(c, run);
    RequestedIsClean(Exec(c, Init(c), run), list);
  }

  lemma RequestedIsClean(s: State, list: seq<CompletedPart>)
    requires LogInv(s) && Requested(s, list)
    ensures Exact(s, list) && AllGone(s.workers) && AbortUpload !in s.log && |s.log| <= 1
  {
    assert s.reader == Completing(list) || (s.reader.Finished? && CompletedWith(s));
  }

  /** A failure anywhere means: no completion is ever requested, and a finished
      run has sent exactly one abort and returns the first failure. */
  lemma FailureMeansAbort(c: Upload, run: seq<Action>)
    requires c.Valid() && Legal(c, Init(c), run)
    requires Exec(c, Init(c), run).failures != []
    ensures var s := Exec(c, Init(c), run);
      && s.err == Some(s.failures[0])
      && Explains(c, s, s.failures[0])
      && s.cancelled
      && (forall list :: CompleteUpload(list) !in s.log)
      && !s.reader.Completing?
      && (s.reader.Finished? ==> s.log == [AbortUpload] && s.reader.result.UploadFailed? && s.reader.result.first == s.failures[0])
  {
    ReachableInv(c, run);
  }

  /** How a run can finish, and what the service was told by then. A refused
      completion is not followed by an abort: the parts stay behind. */
  lemma ResultExactly(c: Upload, run: seq<Action>)
    requires c.Valid() && Legal(c, Init(c), run) && Exec(c, Init(c), run).reader.Finished?
    ensures var s := Exec(c, Init(c), run);
      match s.reader.result
      case Uploaded(size) =>
        && size == |c.data|
        && (if c.data == [] then s.log == [AbortUpload, PutEmptyObject] else |s.log| == 1 && s.log[0].CompleteUpload?)
      case CompletionFailed => c.data != [] && s.failures == [] && |s.log| == 1 && s.log[0].CompleteUpload?
      case EmptyObjectFailed => c.data == [] && s.failures == [] && [AbortUpload] <= s.log
      case UploadFailed(first, _) => s.log == [AbortUpload] && s.failures != [] && first == s.failures[0]
  {
    ReachableInv(c, run);
    var s := Exec(c, Init(c), run);
    if s.failures == [] { SentAll(c, s); }
  }

  lemma SentAll(c: Upload, s: State)
    requires Inv(c, s) && s.reader.Finished? && s.failures == []
    ensures Flatten(s.sent) == c.data
    ensures s.sent == [] <==> c.data == []
  {
    assert Flatten(s.sent) + [] + [] == Flatten(s.sent);
    if s.sent != [] {
      assert Flatten(s.sent) == Flatten(s.sent[..|s.sent| - 1]) + s.sent[|s.sent| - 1];
    }
  }

  // ------------------------------------------- what the service's answers decide

  /** What a result says of the answers to the closing requests. */
  ghost predicate Tells(run: seq<Action>, result: UploadResult) {
    match result
    case UploadFailed(_, abortFailed) => abortFailed <==> AbortReturns(false) in run
    case EmptyObjectFailed =>
      (AbortReturns(false) in run || PutEmptyReturns(false) in run) && CompleteReturns(false) !in run
    case CompletionFailed => CompleteReturns(false) in run && AbortReturns(false) !in run && PutEmptyReturns(false) !in run
    case Uploaded(_) => AbortReturns(false) !in run && CompleteReturns(false) !in run && PutEmptyReturns(false) !in run
  }

  ghost predicate IsClosing(a: Action) { a.AbortReturns? || a.CompleteReturns? || a.PutEmptyReturns? }

  /** Once the upload is finished no closing request is answered any more. */
  lemma {:induction false} FinishedStays(c: Upload, s: State, run: seq<Action>)
    requires c.Valid() && Legal(c, s, run) && s.reader.Finished?
    ensures Exec(c, s, run).reader == s.reader && forall a :: a in run ==> !IsClosing(a)
    decreases |run|
  {
    if run != [] {
      FinishedStep(c, s, run[0]);
      FinishedStays(c, Apply(c, s, run[0]), run[1..]);
      assert run == [run[0]] + run[1..];
    }
  }

  lemma FinishedStep(c: Upload, s: State, a: Action)
    requires c.Valid() && Enabled(c, s, a) && s.reader.Finished?
    ensures !IsClosing(a) && Apply(c, s, a).reader == s.reader
  {}

  /** A step that answers no closing request does not finish the upload. */
  lemma OtherStep(c: Upload, s: State, a: Action)
    requires c.Valid() && Enabled(c, s, a) && !s.reader.Finished? && !IsClosing(a)
    ensures var t := Apply(c, s, a); !t.reader.Finished? && (t.reader.PuttingEmpty? <==> s.reader.PuttingEmpty?)
  {}

  /** What one answer leads to. */
  lemma ClosingStep(c: Upload, s: State, a: Action)
    requires c.Valid() && Enabled(c, s, a) && IsClosing(a)
    ensures var r := Apply(c, s, a).reader;
      (a.PutEmptyReturns? <==> s.reader.PuttingEmpty?) &&
      if r.Finished? then Tells([a], r.result) && (a.PutEmptyReturns? ==> !r.result.UploadFailed? && !r.result.CompletionFailed?)
      else a == AbortReturns(true) && r.PuttingEmpty?
  {
    match a {
      case AbortReturns(ok) => assert Apply(c, s, a).reader == AfterAbort(s, ok).reader;
      case _ =>
    }
  }

  lemma TellsMore(first: Action, rest: seq<Action>, result: UploadResult)
    requires forall a :: a in rest ==> !IsClosing(a)
    ensures Tells([first], result) ==> Tells([first] + rest, result)
  {
    assert forall a :: a in [first] + rest <==> a == first || a in rest;
  }

  lemma TellsOn(first: Action, rest: seq<Action>, result: UploadResult)
    requires !IsClosing(first) || first == AbortReturns(true)
    ensures Tells(rest, result) ==> Tells([first] + rest, result)
  {
    assert forall a :: a in [first] + rest <==> a == first || a in rest;
  }

  lemma {:induction false} AnswersFrom(c: Upload, s: State, run: seq<Action>)
    requires c.Valid() && Legal(c, s, run) && !s.reader.Finished? && Exec(c, s, run).reader.Finished?
    ensures Tells(run, Exec(c, s, run).reader.result)
    decreases |run|
  {
    var a, rest := run[0], run[1..];
    var t := Apply(c, s, a);
    assert run == [a] + rest;
    if IsClosing(a) { ClosingStep(c, s, a); } else { OtherStep(c, s, a); }
    if t.reader.Finished? {
      FinishedStays(c, t, rest);
      TellsMore(a, rest, t.reader.result);
    } else {
      AnswersFrom(c, t, rest);
      TellsOn(a, rest, Exec(c, s, run).reader.result);
    }
  }

  /** For every schedule: a failed abort is reported exactly if the service refused it,
      an empty object fails exactly on a refused abort or a refused empty PUT, a
      completion exactly on a refused completion, and success means none was refused. */
  lemma AnswersDecide(c: Upload, run: seq<Action>)
    requires c.Valid() && Legal(c, Init(c), run) && Exec(c, Init(c), run).reader.Finished?
    ensures match Exec(c, Init(c), run).reader.result
      case UploadFailed(_, abortFailed) => abortFailed <==> AbortReturns(false) in run
      case EmptyObjectFailed =>
        (AbortReturns(false) in run || PutEmptyReturns(false) in run) && CompleteReturns(false) !in run
      case CompletionFailed => CompleteReturns(false) in run && AbortReturns(false) !in run && PutEmptyReturns(false) !in run
      case Uploaded(_) => AbortReturns(false) !in run && CompleteReturns(false) !in run && PutEmptyReturns(false) !in run
  {
    AnswersFrom(c, Init(c), run);
  }

  /** The recorded error never changes once it is set. */
  lemma {:induction false} FirstErrorWins(c: Upload, s: State, run: seq<Action>)
    requires c.Valid() && Legal(c, s, run)
    ensures s.failures <= Exec(c, s, run).failures
    ensures s.err.Some? ==> Exec(c, s, run).err == s.err
    decreases |run|
  {
    if run != [] {
      FirstErrorWins(c, Apply(c, s, run[0]), run[1..]);
      StepExtendsFailures(c, s, run[0]);
    }
  }

  ghost predicate Extends(s: State, t: State) {
    s.failures <= t.failures && (s.err.Some? ==> t.err == s.err)
  }

  lemma ReaderExtendsFailures(c: Upload, s: State, a: Action)
    requires c.Valid() && Enabled(c, s, a) && (a.ReadPart? || a.AcquireSlot? || a.GiveUpSending?)
    ensures Extends(s, Apply(c, s, a))
  {
    assert forall f :: Extends(s, Multipart.Fail(s, f));
    assert forall outcome :: Extends(s, Multipart.AfterPart(s, outcome));
  }

  lemma SettleExtendsFailures(s: State, i: nat)
    requires i < |s.workers| && i < |s.sent|
    ensures Extends(s, DoSettle(s, i))
  {}

  lemma StepExtendsFailures(c: Upload, s: State, a: Action)
    requires c.Valid() && Enabled(c, s, a)
    ensures Extends(s, Apply(c, s, a))
  {
    if a.ReadPart? || a.AcquireSlot? || a.GiveUpSending? {
      ReaderExtendsFailures(c, s, a);
    } else if a.Settle? {
      SettleExtendsFailures(s, a.worker);
    } else {
      var t := Apply(c, s, a);
      assert t.failures == s.failures && t.err == s.err;
    }
  }

  /** The part-sized buffers in use: one for each worker that holds a slot, and the one
      the reader has allocated to read into or waits to send. */
  ghost function LiveBuffers(s: State): nat {
    Holding(s.workers) + (if s.reader.Sending? || (s.reader.Reading? && |s.sent| < MAX_PARTS) then 1 else 0)
  }

  /** At most `concurrency` workers hold a slot, so at most one part-sized
      buffer more than that is live: the reader's. */
  lemma SlotsBound(c: Upload, run: seq<Action>)
    requires c.Valid() && Legal(c, Init(c), run)
    ensures var s := Exec(c, Init(c), run); Holding(s.workers) <= c.concurrency && LiveBuffers(s) <= c.concurrency + 1
  {
    ReachableInv(c, run);
  }

  ghost function Rank(s: State): nat {
    match s.reader
    case Reading => 6
    case Sending(_, _) => 12
    case Joining => 5
    case Aborting => 3
    case Completing(_) => 4
    case PuttingEmpty => 2
    case Finished(_) => 0
  }

  /** Bounds the number of steps still to come, over every continuation. */
  ghost function Measure(s: State): nat {
    8 * |s.unread| + Rank(s) + WorkLeft(s.workers) + (if s.parentCancelled then 0 else 1)
  }

  lemma {:induction false} MoveDecreases(s: State, t: State, i: nat)
    requires Moved(s, t, i)
    ensures Measure(t) < Measure(s)
  {
    UpdateWorker(s.workers, i, t.workers[i]);
  }

  lemma AfterPartGoesOn(s: State, outcome: ReadOutcome)
    ensures var t := AfterPart(s, outcome);
      t.workers == s.workers && t.unread == s.unread && t.parentCancelled == s.parentCancelled && Rank(t) <= 6
  {}

  lemma {:induction false} AcquireDecreases(s: State)
    requires s.reader.Sending?
    ensures Measure(DoAcquire(s)) < Measure(s)
  {
    AppendWorker(s.workers, Worker(Pending, Uploading));
    AfterPartGoesOn(Launched(s), s.reader.outcome);
  }

  lemma {:induction false} ReadDecreases(c: Upload, s: State)
    requires c.Valid() && s.reader.Reading?
    ensures Measure(DoRead(c, s)) < Measure(s)
  {
    var t := DoRead(c, s);
    assert t.workers == s.workers && t.parentCancelled == s.parentCancelled;
    assert if t.reader.Sending? then |t.unread| < |s.unread| else t.reader.Joining? && t.unread == s.unread;
  }

  lemma RestDecreases(c: Upload, s: State, a: Action)
    requires c.Valid() && Enabled(c, s, a) && !IsMove(a) && !a.ReadPart? && !a.AcquireSlot?
    ensures Measure(Apply(c, s, a)) < Measure(s)
  {
    var t := Apply(c, s, a);
    assert t.workers == s.workers && t.unread == s.unread;
  }

  lemma {:induction false} StepDecreases(c: Upload, s: State, a: Action)
    requires c.Valid() && Enabled(c, s, a)
    ensures Measure(Apply(c, s, a)) < Measure(s)
  {
    if a.AcquireSlot? {
      AcquireDecreases(s);
    } else if a.ReadPart? {
      ReadDecreases(c, s);
    } else if IsMove(a) {
      MoveIs(c, s, a);
      MoveDecreases(s, Apply(c, s, a), a.worker);
    } else {
      RestDecreases(c, s, a);
    }
  }

  /** The longest schedule is bounded by the source alone. */
  lemma {:induction false} EveryRunEnds(c: Upload, s: State, run: seq<Action>)
    requires c.Valid() && Legal(c, s, run)
    ensures |run| <= Measure(s)
    decreases |run|
  {
    if run != [] {
      StepDecreases(c, s, run[0]);
      EveryRunEnds(c, Apply(c, s, run[0]), run[1..]);
    }
  }

  /** Picks a step that needs no cooperation from the caller's context: a worker's call
      returns `outcome`, an abort is accepted, and `ok` answers the closing request. */
  ghost function NextAction(c: Upload, s: State, outcome: Outcome, ok: bool): Action {
    match s.reader
    case Reading => ReadPart
    case Aborting => AbortReturns(true)
    case Completing(list) => if list == [] then AbortReturns(true) else CompleteReturns(ok)
    case PuttingEmpty => PutEmptyReturns(ok)
    case Sending(_, _) => if s.slots < c.concurrency then AcquireSlot else WorkerAction(s, outcome)
    case Joining => if AllGone(s.workers) then Join else WorkerAction(s, outcome)
    case Finished(_) => Join
  }

  /** The next step of some worker that is not gone. */
  ghost function WorkerAction(s: State, outcome: Outcome): Action {
    if exists i: nat :: i < |s.workers| && !s.workers[i].stage.Gone? then
      var i: nat :| i < |s.workers| && !s.workers[i].stage.Gone?;
      match s.workers[i].stage
      case Uploading => UploadReturns(i, outcome)
      case Returned => Settle(i)
      case Settled => ReleaseSlot(i)
      case _ => Exit(i)
    else Join
  }

  lemma WorkerCanMove(c: Upload, s: State, outcome: Outcome)
    requires SlotInv(c, s) && |s.workers| == |s.sent| && !outcome.Pending? && !AllGone(s.workers)
    ensures Enabled(c, s, WorkerAction(s, outcome))
    ensures var a := WorkerAction(s, outcome); a.UploadReturns? || a.Settle? || a.ReleaseSlot? || a.Exit?
  {
    forall i: nat | i < |s.workers| ensures s.workers[i].HoldsSlot() ==> s.slots > 0 {
      UpdateWorker(s.workers, i, s.workers[i]);
    }
  }

  /** No deadlock: until the run has finished some step other than the caller
      cancelling is always possible, whatever the service answers. */
  lemma {:induction false} NoDeadlock(c: Upload, s: State, outcome: Outcome, ok: bool)
    requires c.Valid() && Inv(c, s) && !s.reader.Finished? && !outcome.Pending?
    ensures Enabled(c, s, NextAction(c, s, outcome, ok)) && !NextAction(c, s, outcome, ok).ParentCancel?
  {
    if s.reader.Joining? {
      if !AllGone(s.workers) { WorkerCanMove(c, s, outcome); }
    } else if s.reader.Sending? && s.slots >= c.concurrency {
      if AllGone(s.workers) { NoHolderMeansNone(s.workers); }
      WorkerCanMove(c, s, outcome);
    }
  }

  /** Nothing but the source and the closing request can fail. */
  ghost predicate Undisturbed(s: State) {
    !s.parentCancelled && forall i :: 0 <= i < |s.workers| ==> !s.workers[i].outcome.Refused?
  }

  /** When nothing but the source can fail, its length alone decides: a source
      of exactly MAX_PARTS full parts is already refused, because the limit is
      checked before the end of the source is seen. A source whose own reader
      reports an unexpected EOF counts as ended, and is completed. */
  lemma LengthDecides(c: Upload, run: seq<Action>)
    requires c.Valid() && Legal(c, Init(c), run) && !c.end.ReadError?
    requires Exec(c, Init(c), run).reader.Finished? && Undisturbed(Exec(c, Init(c), run))
    ensures var s := Exec(c, Init(c), run);
      if |c.data| < c.Capacity() then
        s.failures == [] && (s.reader.result == Uploaded(|c.data|) || s.reader.result.CompletionFailed? || s.reader.result.EmptyObjectFailed?)
      else
        s.failures != [] && s.log == [AbortUpload] && s.reader.result.UploadFailed? && s.reader.result.first == TooManyParts
  {
    ReachableInv(c, run);
    ResultExactly(c, run);
    var s := Exec(c, Init(c), run);
    if s.failures != [] { assert Explains(c, s, s.failures[0]); }
  }

  // ------------------------------------------------------------ runs that exist

  /** No call of a worker was refused, and the service answered the closing requests
      as `ok` says. */
  ghost predicate Favoured(s: State, ok: bool) {
    Undisturbed(s) &&
    (s.reader.Finished? ==>
       match s.reader.result
       case Uploaded(_) => ok
       case CompletionFailed => !ok
       case EmptyObjectFailed => !ok
       case UploadFailed(_, abortFailed) => !abortFailed)
  }

  /** A reply from the service other than a part's. */
  lemma EndStaysFavoured(c: Upload, s: State, a: Action, ok: bool)
    requires c.Valid() && Enabled(c, s, a) && Undisturbed(s)
    requires a == AbortReturns(true) || a == CompleteReturns(ok) || a == PutEmptyReturns(ok) || a.Join?
    ensures Favoured(Apply(c, s, a), ok)
  {
    var t := Apply(c, s, a);
    assert t.workers == s.workers && t.parentCancelled == s.parentCancelled;
  }

  lemma MoveStaysFavoured(c: Upload, s: State, a: Action, ok: bool)
    requires c.Valid() && Enabled(c, s, a) && Favoured(s, ok) && IsMove(a) && (a.UploadReturns? ==> a.outcome.Stored?)
    ensures Favoured(Apply(c, s, a), ok)
  {
    MoveIs(c, s, a);
    var t := Apply(c, s, a);
    assert t.workers[a.worker].outcome == if a.UploadReturns? then a.outcome else s.workers[a.worker].outcome;
  }

  lemma ReadStaysFavoured(c: Upload, s: State, a: Action, ok: bool)
    requires c.Valid() && Enabled(c, s, a) && Undisturbed(s) && (a.AcquireSlot? || a.ReadPart?)
    ensures Favoured(Apply(c, s, a), ok)
  {}

  lemma StepStaysFavoured(c: Upload, s: State, a: Action, ok: bool)
    requires c.Valid() && !s.reader.Finished? && Favoured(s, ok)
    requires a == NextAction(c, s, Stored(""), ok) && Enabled(c, s, a)
    ensures Favoured(Apply(c, s, a), ok)
  {
    if IsMove(a) {
      assert a.UploadReturns? ==> a.outcome == Stored("");
      MoveStaysFavoured(c, s, a, ok);
    } else if a.AcquireSlot? || a.ReadPart? {
      ReadStaysFavoured(c, s, a, ok);
    } else {
      EndStaysFavoured(c, s, a, ok);
    }
  }

  /** From any state of an undisturbed upload some schedule leads to its end. */
  lemma {:induction false} FavouredRun(c: Upload, s: State, ok: bool) returns (run: seq<Action>)
    requires c.Valid() && Inv(c, s) && Favoured(s, ok)
    ensures Legal(c, s, run) && Exec(c, s, run).reader.Finished? && Favoured(Exec(c, s, run), ok)
    decreases Measure(s)
  {
    if s.reader.Finished? {
      run := [];
    } else {
      var a := NextAction(c, s, Stored(""), ok);
      NoDeadlock(c, s, Stored(""), ok);
      StepKeepsInv(c, s, a);
      StepDecreases(c, s, a);
      StepStaysFavoured(c, s, a, ok);
      var rest := FavouredRun(c, Apply(c, s, a), ok);
      run := [a] + rest;
      assert run[1..] == rest;
    }
  }

  /** For every source without a read error, truncated or not, there is such a run from
      the start. It stores the whole source, or ends in a refused closing request, as
      the service chooses, if the source is short enough; and it ends in TooManyParts
      otherwise, from exactly MAX_PARTS full parts on. */
  lemma EverySourceHasARun(c: Upload, ok: bool) returns (run: seq<Action>)
    requires c.Valid() && !c.end.ReadError?
    ensures Legal(c, Init(c), run) && Undisturbed(Exec(c, Init(c), run))
    ensures Exec(c, Init(c), run).reader == Finished(
      if |c.data| >= c.Capacity() then UploadFailed(TooManyParts, false)
      else if ok then Uploaded(|c.data|)
      else if c.data == [] then EmptyObjectFailed
      else CompletionFailed)
  {
    assert Inv(c, Init(c)) by { ReachableInv(c, []); }
    run := FavouredRun(c, Init(c), ok);
    LengthDecides(c, run);
    ResultExactly(c, run);
  }

  // ------------------------------------------------------------ the extra buffer

  /** k workers are in their network calls, and the reader is about to read on. */
  ghost predicate Filled(c: Upload, s: State, k: nat) {
    && s.reader.Reading? && k == s.slots == |s.sent| == Holding(s.workers)
    && k <= c.concurrency && |s.unread| >= (c.concurrency - k) * c.partSize
  }

  lemma TakeOne(m: int, p: int)
    requires m >= 1 && p >= 0
    ensures m * p >= p && m * p - p == (m - 1) * p
  {
    assert m * p == (m - 1) * p + p;
  }

  lemma FillOne(c: Upload, s: State, k: nat)
    requires c.Valid() && c.concurrency < MAX_PARTS && Filled(c, s, k) && k < c.concurrency
    ensures Enabled(c, s, ReadPart) && Enabled(c, Apply(c, s, ReadPart), AcquireSlot)
    ensures Filled(c, Apply(c, Apply(c, s, ReadPart), AcquireSlot), k + 1)
  {
    TakeOne(c.concurrency - k, c.partSize);
    AppendWorker(s.workers, Worker(Pending, Uploading));
    var s1 := Apply(c, s, ReadPart);
    assert s1.reader == Sending(s.unread[..c.partSize], Full) && s1.workers == s.workers;
  }

  lemma {:induction false} FillSlots(c: Upload, s: State, k: nat) returns (run: seq<Action>)
    requires c.Valid() && c.concurrency < MAX_PARTS && Filled(c, s, k)
    ensures Legal(c, s, run) && LiveBuffers(Exec(c, s, run)) == c.concurrency + 1
    decreases c.concurrency - k
  {
    if k == c.concurrency {
      run := [];
    } else {
      FillOne(c, s, k);
      var t := Apply(c, s, ReadPart);
      var rest := FillSlots(c, Apply(c, t, AcquireSlot), k + 1);
      var tail := [AcquireSlot] + rest;
      assert tail[1..] == rest;
      assert Legal(c, t, tail) && Exec(c, t, tail) == Exec(c, Apply(c, t, AcquireSlot), rest);
      run := [ReadPart] + tail;
      assert run[1..] == tail;
    }
  }

  /** The parts sent, the part in hand and what is unread are no more than the source,
      whatever has failed. */
  ghost predicate WithinSource(c: Upload, s: State) {
    |Flatten(s.sent)| + |PendingBody(s)| + |s.unread| <= |c.data|
  }

  lemma ReadStaysWithin(c: Upload, s: State)
    requires c.Valid() && WithinSource(c, s) && s.reader.Reading?
    ensures WithinSource(c, DoRead(c, s))
  {
    assert DoRead(c, s).sent == s.sent;
  }

  lemma AcquireStaysWithin(c: Upload, s: State)
    requires WithinSource(c, s) && s.reader.Sending?
    ensures WithinSource(c, DoAcquire(s))
  {
    FlattenSnoc(s.sent, s.reader.body);
    assert DoAcquire(s).sent == s.sent + [s.reader.body];
  }

  lemma RestStaysWithin(s: State, t: State, c: Upload)
    requires WithinSource(c, s) && t.sent == s.sent && t.unread == s.unread && (t.reader == s.reader || !InLoop(t))
    ensures WithinSource(c, t)
  {}

  lemma {:induction false} RunStaysWithin(c: Upload, s: State, run: seq<Action>)
    requires c.Valid() && WithinSource(c, s) && Legal(c, s, run)
    ensures WithinSource(c, Exec(c, s, run))
    decreases |run|
  {
    if run != [] {
      var a := run[0];
      if a.ReadPart? {
        ReadStaysWithin(c, s);
      } else if a.AcquireSlot? {
        AcquireStaysWithin(c, s);
      } else {
        ElseIs(c, s, a);
        RestStaysWithin(s, Apply(c, s, a), c);
      }
      RunStaysWithin(c, Apply(c, s, a), run[1..]);
    }
  }

  lemma {:induction false} HoldingBound(ws: seq<Worker>)
    ensures Holding(ws) <= |ws|
  {
    if ws != [] { HoldingBound(ws[..|ws| - 1]); }
  }

  /** With every slot taken and a buffer at the reader, that many full parts were sent. */
  lemma BuffersNeedSource(c: Upload, s: State)
    requires c.Valid() && Inv(c, s) && WithinSource(c, s) && LiveBuffers(s) == c.concurrency + 1
    ensures c.concurrency < MAX_PARTS && |c.data| >= c.concurrency * c.partSize
  {
    HoldingBound(s.workers);
    assert InLoop(s) && c.concurrency <= |s.workers| == |s.sent| < MAX_PARTS;
    FullPartsSize(s.sent, c.partSize);
    FewerParts(c.concurrency, |s.sent|, c.partSize);
  }

  lemma FewerParts(m: nat, n: nat, size: int)
    requires m <= n && size >= 0
    ensures m * size <= n * size
  {
    assert n * size - m * size == (n - m) * size;
  }

  /** Exactly when one part-sized buffer more than `concurrency` is live in some
      schedule: the part limit lets that many workers run and still read on, and the
      source holds a full part for each of them. */
  lemma ExtraBufferExactly(c: Upload)
    requires c.Valid()
    ensures (exists run :: Legal(c, Init(c), run) && LiveBuffers(Exec(c, Init(c), run)) == c.concurrency + 1) <==>
      c.concurrency < MAX_PARTS && |c.data| >= c.concurrency * c.partSize
  {
    if c.concurrency < MAX_PARTS && |c.data| >= c.concurrency * c.partSize {
      var run := FillSlots(c, Init(c), 0);
    }
    forall run | Legal(c, Init(c), run) && LiveBuffers(Exec(c, Init(c), run)) == c.concurrency + 1
      ensures c.concurrency < MAX_PARTS && |c.data| >= c.concurrency * c.partSize
    {
      ReachableInv(c, run);
      RunStaysWithin(c, Init(c), run);
      BuffersNeedSource(c, Exec(c, Init(c), run));
    }
  }

  // ------------------------------------------------------------- the object

  /** The mutable uploader: the fields the reader and the workers share. */
  class PartUploader {
    var reader: Reader
    var unread: seq<byte>
    var sent: seq<seq<byte>>
    var workers: seq<Worker>
    var slots: nat
    var parts: seq<CompletedPart>
    var err: Option<Failure>
    var cancelled: bool
    var log: seq<Request>
    ghost var failures: seq<Failure>
    ghost var parentCancelled: bool

    ghost function View(): State
      reads this
    {
      State(reader, unread, sent, workers, slots, parts, err, cancelled, log, failures, parentCancelled)
    }

    constructor (c: Upload)
      ensures View() == Init(c)
    {
      reader, unread, sent, workers, slots := Reading, c.data, [], [], 0;
      parts, err, cancelled, log := [], None, false, [];
      failures, parentCancelled := [], false;
    }

    method Fail(f: Failure)
      modifies this
      ensures View() == Multipart.Fail(old(View()), f)
    {
      failures := failures + [f];
      if err.None? {
        err := Some(f);
        cancelled := true;
      }
    }

    /** The end of a read-loop turn: stop on the end of the source or a read error. */
    method AfterPart(outcome: ReadOutcome)
      modifies this
      ensures View() == Multipart.AfterPart(old(View()), outcome)
    {
      match outcome {
        case Full => reader := Reading;
        case EndOfSource => reader := Joining;
        case ReadFailure(cause) =>
          Fail(ReadFailed(cause));
          reader := Joining;
      }
    }

    method ReadPart(c: Upload)
      requires c.partSize > 0
      modifies this
      ensures View() == DoRead(c, old(View()))
    {
      if |sent| + 1 > MAX_PARTS {
        Fail(TooManyParts);
        reader := Joining;
        return;
      }
      if |unread| >= c.partSize {
        reader, unread := Sending(unread[..c.partSize], Full), unread[c.partSize..];
      } else if unread != [] {
        reader, unread := Sending(unread, EndOutcome(c.end)), [];
      } else {
        AfterPart(EndOutcome(c.end));
      }
    }

    /** A worker's critical section: append the part or record the failure. */
    method Settle(i: nat)
      requires i < |workers| && i < |sent|
      modifies this
      ensures View() == DoSettle(old(View()), i)
    {
      var outcome := workers[i].outcome;
      workers := workers[i := workers[i].(stage := Settled)];
      match outcome {
        case Pending =>
        case Stored(etag) => parts := parts + [CompletedPart(i + 1, etag, |sent[i]|)];
        case Refused(cause) => Fail(PartFailed(i + 1, cause));
      }
    }

    /** The requests that end the upload. */
    method Conclude(c: Upload, a: Action)
      requires c.Valid() && Enabled(c, View(), a)
      requires a.AbortReturns? || a.CompleteReturns? || a.PutEmptyReturns?
      modifies this
      ensures View() == Apply(c, old(View()), a)
    {
      match a {
        case AbortReturns(ok) =>
          log := log + [AbortUpload];
          if err.Some? {
            reader := Finished(UploadFailed(err.value, !ok));
          } else {
            reader := if ok then PuttingEmpty else Finished(EmptyObjectFailed);
          }
        case CompleteReturns(ok) =>
          log := log + [CompleteUpload(reader.sorted)];
          reader := Finished(if ok then Uploaded(TotalSize(reader.sorted)) else CompletionFailed);
        case PutEmptyReturns(ok) =>
          log := log + [PutEmptyObject];
          reader := Finished(if ok then Uploaded(0) else EmptyObjectFailed);
      }
    }

    /** What the reader does on its own. */
    method StepReader(c: Upload, a: Action)
      requires c.Valid() && Enabled(c, View(), a) && (a.ReadPart? || a.AcquireSlot? || a.GiveUpSending? || a.Join?)
      modifies this
      ensures View() == Apply(c, old(View()), a)
    {
      match a {
        case ReadPart => ReadPart(c);
        case AcquireSlot =>
          var outcome := reader.outcome;
          slots, sent, workers := slots + 1, sent + [reader.body], workers + [Worker(Pending, Uploading)];
          AfterPart(outcome);
        case GiveUpSending =>
          Fail(SendCancelled);
          reader := Joining;
        case Join => reader := if err.Some? then Aborting else Completing(SortParts(parts));
      }
    }

    /** What a worker does. */
    method StepWorker(c: Upload, a: Action)
      requires c.Valid() && Enabled(c, View(), a) && IsMove(a)
      modifies this
      ensures View() == Apply(c, old(View()), a)
    {
      match a {
        case UploadReturns(i, outcome) => workers := workers[i := workers[i].(outcome := outcome, stage := Returned)];
        case Settle(i) => Settle(i);
        case ReleaseSlot(i) => workers, slots := workers[i := workers[i].(stage := Released)], slots - 1;
        case Exit(i) => workers := workers[i := workers[i].(stage := Gone)];
      }
    }

    method Step(c: Upload, a: Action)
      requires c.Valid() && Enabled(c, View(), a)
      modifies this
      ensures View() == Apply(c, old(View()), a)
    {
      if IsMove(a) {
        StepWorker(c, a);
      } else if a.ReadPart? || a.AcquireSlot? || a.GiveUpSending? || a.Join? {
        StepReader(c, a);
      } else if a.ParentCancel? {
        cancelled, parentCancelled := true, true;
      } else {
        Conclude(c, a);
      }
    }

    /** Follows any schedule from a fresh upload; the object keeps the invariant
        throughout and ends in the state the theorems are about. */
    method Follow(c: Upload, run: seq<Action>)
      requires c.Valid() && View() == Init(c) && Legal(c, Init(c), run)
      modifies this
      ensures View() == Exec(c, Init(c), run) && Inv(c, View())
    {
      ReachableInv(c, run);
      for k := 0 to |run|
        invariant Legal(c, View(), run[k..])
        invariant Exec(c, View(), run[k..]) == Exec(c, Init(c), run)
      {
        assert run[k..][0] == run[k] && run[k..][1..] == run[k + 1..];
        Step(c, run[k]);
      }
    }
  }
}
