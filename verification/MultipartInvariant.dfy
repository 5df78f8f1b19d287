/** What every step of the uploader keeps. */
module MultipartInvariant {
  import opened Basics
  import opened Multipart

  // ------------------------------------------------- measurements of workers

  /** How many workers hold a slot. */
  ghost function Holding(ws: seq<Worker>): nat {
    if ws == [] then 0 else Holding(ws[..|ws| - 1]) + (if ws[|ws| - 1].HoldsSlot() then 1 else 0)
  }

  ghost function StageRank(stage: Stage): nat {
    match stage case Uploading => 4 case Returned => 3 case Settled => 2 case Released => 1 case Gone => 0
  }

  /** Steps the workers still have to take. */
  ghost function WorkLeft(ws: seq<Worker>): nat {
    if ws == [] then 0 else WorkLeft(ws[..|ws| - 1]) + StageRank(ws[|ws| - 1].stage)
  }

  lemma {:induction false} UpdateWorker(ws: seq<Worker>, i: nat, w: Worker)
    requires i < |ws|
    ensures Holding(ws[i := w]) == Holding(ws) - (if ws[i].HoldsSlot() then 1 else 0) + (if w.HoldsSlot() then 1 else 0)
    ensures WorkLeft(ws[i := w]) == WorkLeft(ws) - StageRank(ws[i].stage) + StageRank(w.stage)
    ensures ws[i].HoldsSlot() ==> Holding(ws) >= 1
  {
    var n := |ws| - 1;
    if i == n {
      assert ws[i := w][..n] == ws[..n];
    } else {
      UpdateWorker(ws[..n], i, w);
      assert ws[i := w][..n] == ws[..n][i := w];
    }
  }

  lemma AppendWorker(ws: seq<Worker>, w: Worker)
    ensures Holding(ws + [w]) == Holding(ws) + (if w.HoldsSlot() then 1 else 0)
    ensures WorkLeft(ws + [w]) == WorkLeft(ws) + StageRank(w.stage)
  {
    assert (ws + [w])[..|ws|] == ws;
  }

  lemma {:induction false} NoHolderMeansNone(ws: seq<Worker>)
    requires forall i :: 0 <= i < |ws| ==> !ws[i].HoldsSlot()
    ensures Holding(ws) == 0
  {
    if ws != [] { NoHolderMeansNone(ws[..|ws| - 1]); }
  }

  lemma {:induction false} FullPartsSize(sent: seq<seq<byte>>, size: nat)
    requires forall i :: 0 <= i < |sent| ==> |sent[i]| == size
    ensures |Flatten(sent)| == |sent| * size
  {
    if sent != [] {
      FullPartsSize(sent[..|sent| - 1], size);
      assert |sent| * size == (|sent| - 1) * size + size;
    }
  }

  lemma ScaleBound(n: nat, size: nat)
    requires n <= MAX_PARTS
    ensures n < MAX_PARTS ==> n * size + size <= 10000 * size
    ensures n == MAX_PARTS ==> n * size == 10000 * size
  {
    if n < MAX_PARTS {
      var gap: nat := 9999 - n;
      assert 10000 * size == n * size + size + gap * size;
    }
  }

  // -------------------------------------------------------------- invariant

  ghost predicate InLoop(s: State) { s.reader.Reading? || s.reader.Sending? }

  ghost function PendingBody(s: State): seq<byte> {
    if s.reader.Sending? then s.reader.body else []
  }

  /** Part sizes and the part-count limit. */
  ghost predicate ShapeInv(c: Upload, s: State) {
    && |s.sent| <= MAX_PARTS
    && (forall i :: 0 <= i < |s.sent| ==> 0 < |s.sent[i]| <= c.partSize)
    && (forall i :: 0 <= i < |s.sent| - 1 ==> |s.sent[i]| == c.partSize)
    && (InLoop(s) && s.sent != [] ==> |s.sent[|s.sent| - 1]| == c.partSize)
    && (s.reader.Sending? ==>
          && |s.sent| < MAX_PARTS
          && 0 < |s.reader.body| <= c.partSize
          && s.reader.outcome == (if |s.reader.body| == c.partSize then Full else EndOutcome(c.end))
          && (s.reader.outcome.Full? || s.unread == []))
  }

  /** No byte of the source is lost, duplicated or reordered while nothing failed. */
  ghost predicate DataInv(c: Upload, s: State) {
    s.failures == [] ==>
      && c.data == Flatten(s.sent) + PendingBody(s) + s.unread
      && (!InLoop(s) ==> s.unread == [] && EndOutcome(c.end) == EndOfSource && |c.data| < c.Capacity())
  }

  ghost predicate SlotInv(c: Upload, s: State) {
    s.slots == Holding(s.workers) && s.slots <= c.concurrency
  }

  function PartOf(s: State, i: nat): CompletedPart
    requires i < |s.workers| && i < |s.sent| && s.workers[i].outcome.Stored?
  {
    CompletedPart(i + 1, s.workers[i].outcome.etag, |s.sent[i]|)
  }

  ghost predicate Describes(s: State, p: CompletedPart)
    requires |s.workers| == |s.sent|
  {
    && 1 <= p.number <= |s.workers|
    && s.workers[p.number - 1].Recorded()
    && p == PartOf(s, p.number - 1)
  }

  /** The result list holds exactly one entry per recorded worker. */
  ghost predicate PartsInv(s: State) {
    && |s.workers| == |s.sent|
    && (forall p :: p in s.parts ==> Describes(s, p))
    && DistinctNumbers(s.parts)
    && (forall i :: 0 <= i < |s.workers| && s.workers[i].Recorded() ==> PartOf(s, i) in s.parts)
    && (forall i :: 0 <= i < |s.workers| ==> (s.workers[i].stage.Uploading? <==> s.workers[i].outcome.Pending?))
  }

  ghost predicate DistinctNumbers(parts: seq<CompletedPart>) {
    forall j, k :: 0 <= j < k < |parts| ==> parts[j].number != parts[k].number
  }

  /** Why a first failure happened. */
  ghost predicate Explains(c: Upload, s: State, f: Failure) {
    match f
    case TooManyParts => |c.data| >= c.Capacity()
    case ReadFailed(cause) => c.end == ReadError(cause)
    case SendCancelled => s.parentCancelled
    case PartFailed(n, cause) => 1 <= n <= |s.workers| && s.workers[n - 1].outcome == Refused(cause)
  }

  ghost predicate FailInv(c: Upload, s: State) {
    && s.err == (if s.failures == [] then None else Some(s.failures[0]))
    && (s.cancelled <==> s.parentCancelled || s.failures != [])
    && (s.failures != [] ==> Explains(c, s, s.failures[0]))
    && (forall i :: 0 <= i < |s.workers| && s.workers[i].IsSettled() && s.workers[i].outcome.Refused? ==> s.failures != [])
  }

  ghost predicate AllStored(ws: seq<Worker>) {
    forall i :: 0 <= i < |ws| ==> ws[i].stage.Gone? && ws[i].outcome.Stored?
  }

  /** The completion list is the whole upload, in order: part i + 1 with the
      entity tag its own worker got and the size of its own body. */
  ghost predicate Exact(s: State, list: seq<CompletedPart>) {
    && s.failures == []
    && |list| == |s.workers| == |s.sent|
    && AllStored(s.workers)
    && forall i :: 0 <= i < |list| ==> list[i] == PartOf(s, i)
  }

  /** Which requests decided the upload, phase by phase. */
  ghost predicate LogInv(s: State) {
    match s.reader
    case Aborting => s.log == [] && AllGone(s.workers) && s.failures != []
    case Completing(list) => s.log == [] && Exact(s, list)
    case PuttingEmpty => s.log == [AbortUpload] && Exact(s, [])
    case Finished(result) => AllGone(s.workers) && FinishedInv(s, result)
    case _ => s.log == []
  }

  ghost predicate FinishedInv(s: State, result: UploadResult) {
    match result
    case UploadFailed(first, _) => s.log == [AbortUpload] && s.failures != [] && first == s.failures[0]
    case Uploaded(size) =>
      || (s.log == [AbortUpload, PutEmptyObject] && Exact(s, []) && size == 0)
      || (CompletedWith(s) && size == |Flatten(s.sent)|)
    case CompletionFailed => CompletedWith(s)
    case EmptyObjectFailed => (s.log == [AbortUpload] || s.log == [AbortUpload, PutEmptyObject]) && Exact(s, [])
  }

  ghost predicate CompletedWith(s: State) {
    |s.log| == 1 && s.log[0].CompleteUpload? && s.log[0].list != [] && Exact(s, s.log[0].list)
  }

  ghost predicate Inv(c: Upload, s: State) {
    ShapeInv(c, s) && DataInv(c, s) && SlotInv(c, s) && PartsInv(s) && FailInv(c, s) && LogInv(s)
  }

  // ----------------------------------------------------------- preservation

  /** In the loop every part sent so far is full, so the part count measures
      how much of the source is gone. */
  lemma {:induction false} LimitMeetsLength(c: Upload, s: State)
    requires c.Valid() && ShapeInv(c, s) && DataInv(c, s) && s.failures == [] && InLoop(s)
    ensures |s.sent| == MAX_PARTS ==> |c.data| >= c.Capacity()
    ensures |s.sent| < MAX_PARTS && s.unread == [] && |PendingBody(s)| < c.partSize ==> |c.data| < c.Capacity()
  {
    FullPartsSize(s.sent, c.partSize);
    ScaleBound(|s.sent|, c.partSize);
  }

  lemma {:induction false} ReadKeepsShape(c: Upload, s: State)
    requires c.Valid() && ShapeInv(c, s) && s.reader.Reading?
    ensures ShapeInv(c, DoRead(c, s))
  {
    assert DoRead(c, s).sent == s.sent;
  }

  lemma Regroup(front: seq<byte>, back: seq<byte>, n: nat)
    requires n <= |back|
    ensures front + [] + back == front + back[..n] + back[n..]
    ensures front + [] + back == front + back + []
  {}

  lemma {:induction false} ReadKeepsData(c: Upload, s: State)
    requires c.Valid() && ShapeInv(c, s) && DataInv(c, s) && s.reader.Reading?
    ensures DataInv(c, DoRead(c, s))
  {
    var t := DoRead(c, s);
    if |s.sent| == MAX_PARTS {
      assert t.failures != [];
    } else if s.unread == [] {
      if s.failures == [] { LimitMeetsLength(c, s); }
      assert PendingBody(s) == PendingBody(t) && s.sent == t.sent && s.unread == t.unread;
    } else {
      assert InLoop(t) && s.sent == t.sent && s.failures == t.failures;
      Regroup(Flatten(s.sent), s.unread, |t.reader.body|);
    }
  }

  lemma {:induction false} AcquireKeepsShape(c: Upload, s: State)
    requires c.Valid() && ShapeInv(c, s) && s.reader.Sending?
    ensures ShapeInv(c, DoAcquire(s))
  {
    assert DoAcquire(s).sent == s.sent + [s.reader.body];
  }

  lemma AcquiredData(c: Upload, s: State)
    requires DataInv(c, s) && s.failures == [] && s.reader.Sending?
    ensures c.data == Flatten(DoAcquire(s).sent) + [] + DoAcquire(s).unread
  {
    var front, body := Flatten(s.sent), s.reader.body;
    FlattenSnoc(s.sent, body);
    assert front + body + [] == front + body;
  }

  /** A part that is not full is the last, and the source stays below the limit. */
  lemma LastPartFits(c: Upload, s: State)
    requires c.Valid() && ShapeInv(c, s) && DataInv(c, s) && s.reader.Sending? && !s.reader.outcome.Full? && s.failures == []
    ensures |c.data| < c.Capacity() && s.unread == [] && s.reader.outcome == EndOutcome(c.end)
  {
    LimitMeetsLength(c, s);
  }

  lemma {:induction false} AcquireKeepsData(c: Upload, s: State)
    requires c.Valid() && ShapeInv(c, s) && DataInv(c, s) && s.reader.Sending?
    ensures DataInv(c, DoAcquire(s))
  {
    var t := DoAcquire(s);
    assert PendingBody(t) == [] && t.unread == s.unread;
    if s.failures == [] {
      AcquiredData(c, s);
      if s.reader.outcome.Full? { assert InLoop(t); } else { LastPartFits(c, s); }
    } else {
      assert t.failures != [];
    }
  }

  /** A step that neither reads nor sends. */
  lemma {:induction false} ElseKeepsSource(c: Upload, s: State, t: State)
    requires ShapeInv(c, s) && DataInv(c, s)
    requires t.sent == s.sent && t.unread == s.unread && (t.failures == [] ==> s.failures == [])
    requires t.reader == s.reader || (!InLoop(t) && (InLoop(s) ==> t.failures != []))
    ensures ShapeInv(c, t) && DataInv(c, t)
  {}

  lemma ElseIs(c: Upload, s: State, a: Action)
    requires c.Valid() && Enabled(c, s, a) && !a.ReadPart? && !a.AcquireSlot?
    ensures var t := Apply(c, s, a);
      && t.sent == s.sent && t.unread == s.unread && (t.failures == [] ==> s.failures == [])
      && (t.reader == s.reader || (!InLoop(t) && (InLoop(s) ==> t.failures != [])))
  {}

  lemma {:induction false} SourceKept(c: Upload, s: State, a: Action)
    requires c.Valid() && ShapeInv(c, s) && DataInv(c, s) && Enabled(c, s, a)
    ensures ShapeInv(c, Apply(c, s, a)) && DataInv(c, Apply(c, s, a))
  {
    if a.ReadPart? {
      ReadKeepsShape(c, s);
      ReadKeepsData(c, s);
    } else if a.AcquireSlot? {
      AcquireKeepsShape(c, s);
      AcquireKeepsData(c, s);
    } else {
      ElseIs(c, s, a);
      ElseKeepsSource(c, s, Apply(c, s, a));
    }
  }

  // ------------------------------------------------------------ worker moves

  predicate IsMove(a: Action) { a.UploadReturns? || a.Settle? || a.ReleaseSlot? || a.Exit? }

  /** t is s after worker i has moved on by one stage. */
  ghost predicate Moved(s: State, t: State, i: nat) {
    && i < |s.workers| == |t.workers| && t.workers == s.workers[i := t.workers[i]]
    && StageRank(t.workers[i].stage) < StageRank(s.workers[i].stage)
    && t.slots == s.slots - (if s.workers[i].HoldsSlot() && !t.workers[i].HoldsSlot() then 1 else 0)
    && (t.workers[i].HoldsSlot() ==> s.workers[i].HoldsSlot())
    && t.reader == s.reader && t.unread == s.unread && t.sent == s.sent && t.parentCancelled == s.parentCancelled
  }

  lemma MoveIs(c: Upload, s: State, a: Action)
    requires c.Valid() && Enabled(c, s, a) && IsMove(a)
    ensures Moved(s, Apply(c, s, a), a.worker)
  {}

  lemma {:induction false} MoveKeepsSlots(c: Upload, s: State, t: State, i: nat)
    requires SlotInv(c, s) && Moved(s, t, i)
    ensures SlotInv(c, t)
  {
    UpdateWorker(s.workers, i, t.workers[i]);
  }

  lemma RestKeepsWorkers(c: Upload, s: State, a: Action)
    requires c.Valid() && Enabled(c, s, a) && !IsMove(a) && !a.AcquireSlot?
    ensures var t := Apply(c, s, a); t.workers == s.workers && t.slots == s.slots
  {}

  lemma LaunchKeepsSlots(c: Upload, s: State)
    requires SlotInv(c, s) && s.reader.Sending? && s.slots < c.concurrency
    ensures SlotInv(c, Launched(s))
  {
    AppendWorker(s.workers, Worker(Pending, Uploading));
  }

  lemma AfterPartKeepsSlots(c: Upload, s: State, outcome: ReadOutcome)
    requires SlotInv(c, s)
    ensures SlotInv(c, AfterPart(s, outcome))
  {}

  lemma {:induction false} SlotsKept(c: Upload, s: State, a: Action)
    requires c.Valid() && SlotInv(c, s) && Enabled(c, s, a)
    ensures SlotInv(c, Apply(c, s, a))
  {
    if a.AcquireSlot? {
      LaunchKeepsSlots(c, s);
      AfterPartKeepsSlots(c, Launched(s), s.reader.outcome);
    } else if IsMove(a) {
      MoveIs(c, s, a);
      MoveKeepsSlots(c, s, Apply(c, s, a), a.worker);
    } else {
      RestKeepsWorkers(c, s, a);
    }
  }

  /** A worker that moves without becoming recorded leaves the list right. */
  lemma {:induction false} MoveKeepsParts(s: State, i: nat, w: Worker)
    requires PartsInv(s) && i < |s.workers|
    requires w.Recorded() == s.workers[i].Recorded()
    requires w.Recorded() ==> w.outcome == s.workers[i].outcome
    requires w.stage.Uploading? <==> w.outcome.Pending?
    ensures PartsInv(SetWorker(s, i, w))
  {
    var t := SetWorker(s, i, w);
    forall p | p in t.parts ensures Describes(t, p) { assert Describes(s, p); }
    forall k | 0 <= k < |t.workers| && t.workers[k].Recorded() ensures PartOf(t, k) in t.parts {
      assert PartOf(t, k) == PartOf(s, k);
    }
  }

  lemma {:induction false} SettleKeepsParts(s: State, i: nat)
    requires PartsInv(s) && AtStage(s, i, Returned)
    ensures PartsInv(DoSettle(s, i))
  {
    var t := DoSettle(s, i);
    assert t.sent == s.sent && t.workers == s.workers[i := s.workers[i].(stage := Settled)];
    forall p | p in s.parts ensures Describes(t, p) && p.number != i + 1 { assert Describes(s, p); }
    if s.workers[i].outcome.Stored? {
      assert t.parts == s.parts + [PartOf(t, i)];
    } else {
      assert t.parts == s.parts;
    }
    assert DistinctNumbers(t.parts);
    forall k | 0 <= k < |t.workers| && t.workers[k].Recorded() ensures PartOf(t, k) in t.parts {
      if k != i { assert PartOf(t, k) == PartOf(s, k); }
    }
  }

  lemma {:induction false} AcquireKeepsParts(s: State)
    requires PartsInv(s) && s.reader.Sending?
    ensures PartsInv(DoAcquire(s))
  {
    var t := DoAcquire(s);
    assert t.parts == s.parts && t.sent == s.sent + [s.reader.body];
    assert t.workers == s.workers + [Worker(Pending, Uploading)];
    forall p | p in t.parts ensures Describes(t, p) { assert Describes(s, p); }
    forall k | 0 <= k < |t.workers| && t.workers[k].Recorded() ensures PartOf(t, k) in t.parts {
      assert PartOf(t, k) == PartOf(s, k);
    }
  }

  lemma SamePartsKept(s: State, t: State)
    requires PartsInv(s) && t.parts == s.parts && t.workers == s.workers && t.sent == s.sent
    ensures PartsInv(t)
  {
    forall p | p in t.parts ensures Describes(t, p) { assert Describes(s, p); }
  }

  lemma RestKeepsLists(c: Upload, s: State, a: Action)
    requires c.Valid() && Enabled(c, s, a) && !IsMove(a) && !a.AcquireSlot?
    ensures var t := Apply(c, s, a); t.parts == s.parts && t.workers == s.workers && t.sent == s.sent
  {}

  lemma {:induction false} PartsKept(c: Upload, s: State, a: Action)
    requires c.Valid() && PartsInv(s) && Enabled(c, s, a)
    ensures PartsInv(Apply(c, s, a))
  {
    if a.AcquireSlot? {
      AcquireKeepsParts(s);
    } else if a.UploadReturns? {
      MoveKeepsParts(s, a.worker, s.workers[a.worker].(outcome := a.outcome, stage := Returned));
    } else if a.Settle? {
      SettleKeepsParts(s, a.worker);
    } else if a.ReleaseSlot? {
      MoveKeepsParts(s, a.worker, s.workers[a.worker].(stage := Released));
      SamePartsKept(SetWorker(s, a.worker, s.workers[a.worker].(stage := Released)), Apply(c, s, a));
    } else if a.Exit? {
      MoveKeepsParts(s, a.worker, s.workers[a.worker].(stage := Gone));
    } else {
      RestKeepsLists(c, s, a);
      SamePartsKept(s, Apply(c, s, a));
    }
  }

  /** fail() keeps the bookkeeping if its error explains itself when it is the first. */
  lemma {:induction false} FailKeepsFailures(c: Upload, s: State, f: Failure)
    requires FailInv(c, s) && (s.failures == [] ==> Explains(c, s, f))
    ensures FailInv(c, Fail(s, f))
  {}

  lemma {:induction false} WorkerMoveKeepsFailures(c: Upload, s: State, i: nat, w: Worker)
    requires FailInv(c, s) && i < |s.workers|
    requires s.workers[i].stage.Uploading? || w.outcome == s.workers[i].outcome
    requires s.workers[i].stage.Uploading? ==> s.workers[i].outcome.Pending?
    requires w.IsSettled() ==> s.workers[i].IsSettled() || !w.outcome.Refused?
    ensures FailInv(c, SetWorker(s, i, w))
  {
    if s.failures != [] { assert Explains(c, SetWorker(s, i, w), s.failures[0]); }
  }

  lemma {:induction false} SettleKeepsFailures(c: Upload, s: State, i: nat)
    requires FailInv(c, s) && AtStage(s, i, Returned) && i < |s.sent|
    ensures FailInv(c, DoSettle(s, i))
  {
    var w := s.workers[i];
    if w.outcome.Refused? {
      var t := DoSettle(s, i);
      if s.failures == [] {
        assert Explains(c, t, PartFailed(i + 1, w.outcome.cause));
      } else {
        assert Explains(c, t, s.failures[0]);
      }
    } else {
      WorkerMoveKeepsFailures(c, s, i, w.(stage := Settled));
    }
  }

  lemma {:induction false} ReadKeepsFailures(c: Upload, s: State)
    requires c.Valid() && ShapeInv(c, s) && DataInv(c, s) && FailInv(c, s) && s.reader.Reading?
    ensures FailInv(c, DoRead(c, s))
  {
    if s.failures == [] { LimitMeetsLength(c, s); }
    if |s.sent| + 1 > MAX_PARTS {
      FailKeepsFailures(c, s, TooManyParts);
    } else if s.unread == [] {
      EndKeepsFailures(c, s, EndOutcome(c.end));
    }
  }

  /** The end of a part, for any outcome the source can have. */
  lemma EndKeepsFailures(c: Upload, s: State, outcome: ReadOutcome)
    requires FailInv(c, s) && (outcome.ReadFailure? ==> outcome == EndOutcome(c.end))
    ensures FailInv(c, AfterPart(s, outcome))
  {
    if outcome.ReadFailure? { FailKeepsFailures(c, s, ReadFailed(outcome.cause)); }
  }

  lemma LaunchKeepsFailures(c: Upload, s: State)
    requires FailInv(c, s) && s.reader.Sending?
    ensures FailInv(c, Launched(s))
  {
    if s.failures != [] { assert Explains(c, Launched(s), s.failures[0]); }
  }

  lemma RestKeepsFailures(c: Upload, s: State, a: Action)
    requires c.Valid() && FailInv(c, s) && Enabled(c, s, a)
    requires !IsMove(a) && !a.ReadPart? && !a.AcquireSlot? && !a.GiveUpSending?
    ensures FailInv(c, Apply(c, s, a))
  {
    var t := Apply(c, s, a);
    assert t.workers == s.workers && t.failures == s.failures && t.err == s.err;
    if s.failures != [] { assert Explains(c, t, s.failures[0]); }
  }

  lemma {:induction false} FailKept(c: Upload, s: State, a: Action)
    requires c.Valid() && ShapeInv(c, s) && DataInv(c, s) && PartsInv(s) && FailInv(c, s) && Enabled(c, s, a)
    ensures FailInv(c, Apply(c, s, a))
  {
    if a.ReadPart? {
      ReadKeepsFailures(c, s);
    } else if a.AcquireSlot? {
      LaunchKeepsFailures(c, s);
      EndKeepsFailures(c, Launched(s), s.reader.outcome);
    } else if a.GiveUpSending? {
      FailKeepsFailures(c, s, SendCancelled);
    } else if a.UploadReturns? {
      WorkerMoveKeepsFailures(c, s, a.worker, s.workers[a.worker].(outcome := a.outcome, stage := Returned));
    } else if a.Settle? {
      SettleKeepsFailures(c, s, a.worker);
    } else if a.ReleaseSlot? {
      WorkerMoveKeepsFailures(c, s, a.worker, s.workers[a.worker].(stage := Released));
    } else if a.Exit? {
      WorkerMoveKeepsFailures(c, s, a.worker, s.workers[a.worker].(stage := Gone));
    } else {
      RestKeepsFailures(c, s, a);
    }
  }

  // ------------------------------------------------- the sorted result list

  ghost predicate Mentions(list: seq<CompletedPart>, m: nat) {
    exists j :: 0 <= j < |list| && list[j].number == m
  }

  /** A sorted list of distinct numbers within 1..n that mentions all of them
      counts 1, 2, .., n. */
  lemma {:induction false} SortedNumbersCount(list: seq<CompletedPart>, n: nat)
    requires SortedByNumber(list) && DistinctNumbers(list)
    requires forall j :: 0 <= j < |list| ==> 1 <= list[j].number <= n
    requires forall m :: 1 <= m <= n ==> Mentions(list, m)
    ensures |list| == n
    ensures forall j :: 0 <= j < |list| ==> list[j].number == j + 1
  {
    var lowest := if list == [] then n else list[0].number;
    assert list != [] ==> 1 <= lowest;
    if n > 0 {
      var last := |list| - 1;
      assert Mentions(list, n);
      var j :| 0 <= j < |list| && list[j].number == n;
      assert list[j].number <= list[last].number;
      assert j == last;
      forall m | 1 <= m <= n - 1
        ensures Mentions(list[..last], m)
      {
        assert Mentions(list, m);
        var k :| 0 <= k < |list| && list[k].number == m;
        assert list[..last][k].number == m;
      }
      SortedNumbersCount(list[..last], n - 1);
    }
  }

  lemma OccursTwice(list: seq<CompletedPart>, j: nat, k: nat)
    requires j < k < |list| && list[j] == list[k]
    ensures multiset(list)[list[j]] >= 2
  {
    var front, back := list[..k], list[k..];
    assert list == front + back;
    assert multiset(list) == multiset(front) + multiset(back);
    assert front[j] in multiset(front) && back[0] in multiset(back);
  }

  lemma OccursOnce(parts: seq<CompletedPart>, x: nat)
    requires x < |parts| && DistinctNumbers(parts)
    ensures multiset(parts)[parts[x]] == 1
  {
    var p, front, back := parts[x], parts[..x], parts[x + 1..];
    assert parts == front + [p] + back;
    assert multiset(parts) == multiset(front) + multiset{p} + multiset(back);
    assert p !in front && p !in back;
    assert p !in multiset(front) && p !in multiset(back);
  }

  lemma DistinctSurvivesSort(parts: seq<CompletedPart>, list: seq<CompletedPart>)
    requires multiset(list) == multiset(parts) && DistinctNumbers(parts)
    ensures DistinctNumbers(list)
  {
    forall j, k | 0 <= j < k < |list|
      ensures list[j].number != list[k].number
    {
      if list[j].number == list[k].number {
        assert list[j] in multiset(parts) && list[k] in multiset(parts);
        var x :| 0 <= x < |parts| && parts[x] == list[j];
        var y :| 0 <= y < |parts| && parts[y] == list[k];
        assert x == y;
        OccursTwice(list, j, k);
        OccursOnce(parts, x);
        assert false;
      }
    }
  }

  lemma SameMembers(parts: seq<CompletedPart>, list: seq<CompletedPart>)
    requires multiset(list) == multiset(parts)
    ensures forall p :: p in list <==> p in parts
  {
    assert forall p :: p in list <==> p in multiset(list);
    assert forall p :: p in parts <==> p in multiset(parts);
  }

  lemma {:induction false} JoinIsExact(c: Upload, s: State)
    requires PartsInv(s) && FailInv(c, s) && AllGone(s.workers) && s.err.None?
    ensures Exact(s, SortParts(s.parts))
  {
    forall i | 0 <= i < |s.workers| ensures s.workers[i].Recorded() {
      assert s.workers[i].stage.Gone?;
    }
    SortPartsSorts(s.parts);
    SortedListIsExact(s, SortParts(s.parts));
  }

  lemma {:induction false} SortedListIsExact(s: State, list: seq<CompletedPart>)
    requires PartsInv(s) && SortedByNumber(list) && multiset(list) == multiset(s.parts)
    requires forall i :: 0 <= i < |s.workers| ==> s.workers[i].Recorded()
    ensures |list| == |s.workers|
    ensures forall i :: 0 <= i < |list| ==> list[i] == PartOf(s, i)
  {
    SameMembers(s.parts, list);
    DistinctSurvivesSort(s.parts, list);
    forall j | 0 <= j < |list| ensures Describes(s, list[j]) {
      assert list[j] in s.parts;
    }
    forall m | 1 <= m <= |s.workers| ensures Mentions(list, m) {
      assert PartOf(s, m - 1) in list;
    }
    SortedNumbersCount(list, |s.workers|);
  }

  lemma {:induction false} TotalIsContent(list: seq<CompletedPart>, sent: seq<seq<byte>>)
    requires |list| == |sent| && forall i :: 0 <= i < |list| ==> list[i].size == |sent[i]|
    ensures TotalSize(list) == |Flatten(sent)|
  {
    if list != [] { TotalIsContent(list[..|list| - 1], sent[..|list| - 1]); }
  }

  /** Until the workers are joined nothing decides the upload. */
  lemma EarlyKeepsLog(c: Upload, s: State, a: Action)
    requires c.Valid() && LogInv(s) && Enabled(c, s, a)
    requires IsMove(a) || a.ReadPart? || a.AcquireSlot? || a.GiveUpSending?
    ensures LogInv(Apply(c, s, a))
  {
    assert !AllGone(s.workers) || InLoop(s);
    var t := Apply(c, s, a);
    assert t.log == s.log && (InLoop(t) || t.reader.Joining?);
  }

  lemma JoinKeepsLog(c: Upload, s: State)
    requires c.Valid() && PartsInv(s) && FailInv(c, s) && LogInv(s) && Enabled(c, s, Join)
    ensures LogInv(Apply(c, s, Join))
  {
    if s.err.None? { JoinIsExact(c, s); }
  }

  lemma CancelKeepsLog(c: Upload, s: State)
    requires c.Valid() && LogInv(s) && Enabled(c, s, ParentCancel)
    ensures LogInv(Apply(c, s, ParentCancel))
  {}

  lemma {:induction false} LogKept(c: Upload, s: State, a: Action)
    requires c.Valid() && PartsInv(s) && FailInv(c, s) && LogInv(s) && Enabled(c, s, a)
    ensures LogInv(Apply(c, s, a))
  {
    if a.Join? {
      JoinKeepsLog(c, s);
    } else if a.AbortReturns? || a.CompleteReturns? || a.PutEmptyReturns? {
      EndKeepsLog(c, s, a);
    } else if a.ParentCancel? {
      CancelKeepsLog(c, s);
    } else {
      EarlyKeepsLog(c, s, a);
    }
  }

  lemma {:induction false} EndKeepsLog(c: Upload, s: State, a: Action)
    requires c.Valid() && PartsInv(s) && FailInv(c, s) && LogInv(s) && Enabled(c, s, a)
    requires a.AbortReturns? || a.CompleteReturns? || a.PutEmptyReturns?
    ensures LogInv(Apply(c, s, a))
  {
    if a.CompleteReturns? {
      TotalIsContent(s.reader.sorted, s.sent);
      assert Exact(Apply(c, s, a), s.reader.sorted);
    } else if a.PutEmptyReturns? || s.reader.Completing? {
      assert Exact(Apply(c, s, a), []);
    }
  }

  lemma StepKeepsInv(c: Upload, s: State, a: Action)
    requires c.Valid() && Inv(c, s) && Enabled(c, s, a)
    ensures Inv(c, Apply(c, s, a))
  {
    SourceKept(c, s, a);
    SlotsKept(c, s, a);
    PartsKept(c, s, a);
    FailKept(c, s, a);
    LogKept(c, s, a);
  }
}
