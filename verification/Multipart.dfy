/**
 The concurrent multipart uploader of internal/s3/multipart.go.

 One goroutine reads the source forwards in part-sized buffers; each part is
 uploaded by a worker goroutine that holds a slot of a bounded channel. The
 shared state changes only in atomic steps (a channel operation, a critical
 section of the mutex, a return of the network call), so a run is a sequence of
 actions, and every schedule of the goroutines is one such sequence.
 */
module Multipart {
  import opened Basics

  const MIN_PART_SIZE := 5 * 1024 * 1024
  const DEFAULT_PART_SIZE := 16 * 1024 * 1024
  const DEFAULT_CONCURRENCY := 4
  const MAX_PARTS := 10000

  // ---------------------------------------------------------------- options

  datatype UploadOptions = UploadOptions(partSize: int, concurrency: int, size: int)

  datatype OptionsError = PartTooSmall(got: int) | BadConcurrency(got: int)

  /** The options after validation; zero means "default" for both knobs. */
  function WithDefaults(o: UploadOptions): (r: Result<UploadOptions, OptionsError>)
    ensures r.Ok? <==> (o.partSize == 0 || o.partSize >= MIN_PART_SIZE) && (o.concurrency == 0 || o.concurrency >= 1)
    ensures r.Ok? ==> r.value.partSize >= MIN_PART_SIZE && r.value.concurrency >= 1 && r.value.size == o.size
    ensures r.Ok? ==> r.value.partSize == if o.partSize == 0 then 16 * 1024 * 1024 else o.partSize
    ensures r.Ok? ==> r.value.concurrency == if o.concurrency == 0 then 4 else o.concurrency
    ensures r.Err? && r.error.PartTooSmall? ==> r.error.got == o.partSize
    ensures r.Err? && r.error.BadConcurrency? ==> r.error.got == o.concurrency < 1
  {
    var partSize := if o.partSize == 0 then DEFAULT_PART_SIZE else o.partSize;
    if partSize < MIN_PART_SIZE then Err(PartTooSmall(partSize))
    else
      var concurrency := if o.concurrency == 0 then DEFAULT_CONCURRENCY else o.concurrency;
      if concurrency < 1 then Err(BadConcurrency(concurrency))
      else Ok(UploadOptions(partSize, concurrency, o.size))
  }

  // ----------------------------------------------------------------- source

  /** How the source ends once its bytes are delivered. A reader that itself
      reports io.ErrUnexpectedEOF (a cut connection) is `Truncated`. */
  datatype SourceEnd = CleanEOF | Truncated | ReadError(cause: string)

  datatype Upload = Upload(data: seq<byte>, end: SourceEnd, partSize: int, concurrency: int) {
    ghost predicate Valid() {
      partSize >= MIN_PART_SIZE && concurrency >= 1
    }

    /** The bytes MAX_PARTS full parts hold. */
    function Capacity(): int { 10000 * partSize }
  }

  /** What io.ReadFull reports, as the read loop distinguishes it. */
  datatype ReadOutcome = Full | EndOfSource | ReadFailure(cause: string)

  function EndOutcome(end: SourceEnd): ReadOutcome {
    match end
    case CleanEOF => EndOfSource
    case Truncated => EndOfSource
    case ReadError(cause) => ReadFailure(cause)
  }

  // ------------------------------------------------------------------ state

  datatype CompletedPart = CompletedPart(number: nat, etag: string, size: nat)

  datatype Failure =
    | TooManyParts
    | ReadFailed(cause: string)
    | SendCancelled
    | PartFailed(number: nat, cause: string)

  /** Where a worker goroutine is: in the network call, back from it, past the
      critical section that records its outcome, past the slot release, gone. */
  datatype Stage = Uploading | Returned | Settled | Released | Gone

  datatype Outcome = Pending | Stored(etag: string) | Refused(cause: string)

  /** Worker i carries part i + 1, whose body is `sent[i]` in the state. */
  datatype Worker = Worker(outcome: Outcome, stage: Stage) {
    predicate HoldsSlot() { stage.Uploading? || stage.Returned? || stage.Settled? }
    predicate IsSettled() { stage.Settled? || stage.Released? || stage.Gone? }
    predicate Recorded() { IsSettled() && outcome.Stored? }
  }

  datatype UploadResult =
    | Uploaded(size: nat)
    | UploadFailed(first: Failure, abortFailed: bool)
    | CompletionFailed
    | EmptyObjectFailed

  datatype Reader =
    | Reading
    | Sending(body: seq<byte>, outcome: ReadOutcome)
    | Joining
    | Aborting
    | Completing(sorted: seq<CompletedPart>)
    | PuttingEmpty
    | Finished(result: UploadResult)

  /** Requests that decide the fate of the upload as a whole. */
  datatype Request = CompleteUpload(list: seq<CompletedPart>) | AbortUpload | PutEmptyObject

  /** `failures` and `parentCancelled` are history: every error handed to
      fail(), in order, and whether the caller's context was cancelled. */
  datatype State = State(
    reader: Reader,
    unread: seq<byte>,
    sent: seq<seq<byte>>,
    workers: seq<Worker>,
    slots: nat,
    parts: seq<CompletedPart>,
    err: Option<Failure>,
    cancelled: bool,
    log: seq<Request>,
    failures: seq<Failure>,
    parentCancelled: bool)

  function Init(c: Upload): State {
    State(Reading, c.data, [], [], 0, [], None, false, [], [], false)
  }

  datatype Action =
    | ReadPart
    | AcquireSlot
    | GiveUpSending
    | UploadReturns(worker: nat, outcome: Outcome)
    | Settle(worker: nat)
    | ReleaseSlot(worker: nat)
    | Exit(worker: nat)
    | ParentCancel
    | Join
    | AbortReturns(ok: bool)
    | CompleteReturns(ok: bool)
    | PutEmptyReturns(ok: bool)

  predicate AllGone(workers: seq<Worker>) {
    forall i :: 0 <= i < |workers| ==> workers[i].stage.Gone?
  }

  predicate AtStage(s: State, i: nat, stage: Stage) {
    i < |s.workers| && s.workers[i].stage == stage
  }

  predicate Enabled(c: Upload, s: State, a: Action) {
    match a
    case ReadPart => s.reader.Reading?
    case AcquireSlot => s.reader.Sending? && s.slots < c.concurrency
    case GiveUpSending => s.reader.Sending? && s.cancelled
    case UploadReturns(i, outcome) => AtStage(s, i, Uploading) && !outcome.Pending?
    case Settle(i) => AtStage(s, i, Returned) && i < |s.sent|
    case ReleaseSlot(i) => AtStage(s, i, Settled) && s.slots > 0
    case Exit(i) => AtStage(s, i, Released)
    case ParentCancel => !s.parentCancelled
    case Join => s.reader.Joining? && AllGone(s.workers)
    case AbortReturns(_) => s.reader.Aborting? || s.reader == Completing([])
    case CompleteReturns(_) => s.reader.Completing? && s.reader.sorted != []
    case PutEmptyReturns(_) => s.reader.PuttingEmpty?
  }

  /** fail(): the first error wins and cancels the other workers. */
  function Fail(s: State, f: Failure): State {
    if s.err.None? then s.(err := Some(f), cancelled := true, failures := s.failures + [f])
    else s.(failures := s.failures + [f])
  }

  function SetWorker(s: State, i: nat, w: Worker): State
    requires i < |s.workers|
  {
    s.(workers := s.workers[i := w])
  }

  /** One turn of the read loop up to the point where send would block. */
  function DoRead(c: Upload, s: State): State
    requires c.partSize > 0
  {
    if |s.sent| + 1 > MAX_PARTS then Fail(s, TooManyParts).(reader := Joining)
    else if |s.unread| >= c.partSize then
      s.(reader := Sending(s.unread[..c.partSize], Full), unread := s.unread[c.partSize..])
    else if s.unread != [] then s.(reader := Sending(s.unread, EndOutcome(c.end)), unread := [])
    else AfterPart(s, EndOutcome(c.end))
  }

  /** What the read loop does with the read error once the part, if any, is on its way. */
  function AfterPart(s: State, outcome: ReadOutcome): State {
    match outcome
    case Full => s.(reader := Reading)
    case EndOfSource => s.(reader := Joining)
    case ReadFailure(cause) => Fail(s, ReadFailed(cause)).(reader := Joining)
  }

  /** The part in hand goes to a worker of its own. */
  function Launched(s: State): State
    requires s.reader.Sending?
  {
    s.(slots := s.slots + 1, sent := s.sent + [s.reader.body], workers := s.workers + [Worker(Pending, Uploading)])
  }

  function DoAcquire(s: State): State
    requires s.reader.Sending?
  {
    AfterPart(Launched(s), s.reader.outcome)
  }

  function DoSettle(s: State, i: nat): State
    requires i < |s.workers| && i < |s.sent|
  {
    var w := s.workers[i];
    var s1 := SetWorker(s, i, w.(stage := Settled));
    match w.outcome
    case Pending => s1
    case Stored(etag) => s1.(parts := s1.parts + [CompletedPart(i + 1, etag, |s.sent[i]|)])
    case Refused(cause) => Fail(s1, PartFailed(i + 1, cause))
  }

  function Apply(c: Upload, s: State, a: Action): State
    requires c.partSize > 0 && Enabled(c, s, a)
  {
    match a
    case ReadPart => DoRead(c, s)
    case AcquireSlot => DoAcquire(s)
    case GiveUpSending => Fail(s, SendCancelled).(reader := Joining)
    case UploadReturns(i, outcome) => SetWorker(s, i, s.workers[i].(outcome := outcome, stage := Returned))
    case Settle(i) => DoSettle(s, i)
    case ReleaseSlot(i) => SetWorker(s, i, s.workers[i].(stage := Released)).(slots := s.slots - 1)
    case Exit(i) => SetWorker(s, i, s.workers[i].(stage := Gone))
    case ParentCancel => s.(cancelled := true, parentCancelled := true)
    case Join => s.(reader := if s.err.Some? then Aborting else Completing(SortParts(s.parts)))
    case AbortReturns(ok) => AfterAbort(s, ok).(log := s.log + [AbortUpload])
    case CompleteReturns(ok) =>
      s.(reader := Finished(if ok then Uploaded(TotalSize(s.reader.sorted)) else CompletionFailed),
         log := s.log + [CompleteUpload(s.reader.sorted)])
    case PutEmptyReturns(ok) =>
      s.(reader := Finished(if ok then Uploaded(0) else EmptyObjectFailed), log := s.log + [PutEmptyObject])
  }

  /** An upload that failed is over once aborted; an upload without parts turns
      into a zero-length PUT once aborted. */
  function AfterAbort(s: State, ok: bool): State {
    if s.err.Some? then s.(reader := Finished(UploadFailed(s.err.value, !ok)))
    else if ok then s.(reader := PuttingEmpty)
    else s.(reader := Finished(EmptyObjectFailed))
  }

  function TotalSize(parts: seq<CompletedPart>): nat {
    if parts == [] then 0 else TotalSize(parts[..|parts| - 1]) + parts[|parts| - 1].size
  }

  // ---------------------------------------------------------------- sorting

  ghost predicate SortedByNumber(parts: seq<CompletedPart>) {
    forall i, j :: 0 <= i < j < |parts| ==> parts[i].number <= parts[j].number
  }

  function InsertPart(p: CompletedPart, parts: seq<CompletedPart>): seq<CompletedPart> {
    if parts == [] || p.number <= parts[0].number then [p] + parts
    else [parts[0]] + InsertPart(p, parts[1..])
  }

  lemma {:induction false} InsertKeepsElements(p: CompletedPart, parts: seq<CompletedPart>)
    ensures multiset(InsertPart(p, parts)) == multiset(parts) + multiset{p}
  {
    if !(parts == [] || p.number <= parts[0].number) {
      InsertKeepsElements(p, parts[1..]);
      assert parts == [parts[0]] + parts[1..];
      assert InsertPart(p, parts) == [parts[0]] + InsertPart(p, parts[1..]);
    }
  }

  lemma SortedCons(first: CompletedPart, rest: seq<CompletedPart>)
    requires SortedByNumber(rest) && forall q :: q in rest ==> first.number <= q.number
    ensures SortedByNumber([first] + rest)
  {
    forall i | 0 <= i < |rest| ensures first.number <= rest[i].number { assert rest[i] in rest; }
  }

  lemma {:induction false} InsertSorts(p: CompletedPart, parts: seq<CompletedPart>)
    requires SortedByNumber(parts)
    ensures SortedByNumber(InsertPart(p, parts))
  {
    if parts == [] || p.number <= parts[0].number {
      SortedCons(p, parts);
    } else {
      var rest := InsertPart(p, parts[1..]);
      InsertSorts(p, parts[1..]);
      InsertKeepsElements(p, parts[1..]);
      forall q | q in rest ensures parts[0].number <= q.number {
        assert q in multiset(rest);
        assert q == p || q in parts[1..];
      }
      SortedCons(parts[0], rest);
    }
  }

  /** sort.Slice by part number, by insertion. */
  function SortParts(parts: seq<CompletedPart>): seq<CompletedPart> {
    if parts == [] then [] else InsertPart(parts[|parts| - 1], SortParts(parts[..|parts| - 1]))
  }

  lemma {:induction false} SortPartsSorts(parts: seq<CompletedPart>)
    ensures SortedByNumber(SortParts(parts)) && multiset(SortParts(parts)) == multiset(parts)
  {
    if parts != [] {
      var init := parts[..|parts| - 1];
      SortPartsSorts(init);
      InsertSorts(parts[|parts| - 1], SortParts(init));
      InsertKeepsElements(parts[|parts| - 1], SortParts(init));
      assert parts == init + [parts[|parts| - 1]];
    }
  }
}
