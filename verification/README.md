# koc: verified models of its engines

A Dafny model of the parts of the `koc` command-line client that carry state
machines, incremental parsers, layout arithmetic and encodings. The network, the
terminal, the clock and the server are inputs of the model, so every statement
below holds for all behaviours of them.

`dafny verify dfyconfig.toml` checks the whole project.

| file | models |
|---|---|
| `Multipart.dfy`, `MultipartInvariant.dfy`, `MultipartTheorems.dfy` | the concurrent multipart uploader as a step system over every schedule, its inductive invariant, the theorems, and the mutable uploader that follows a schedule |
| `KeyDecoder.dfy`, `KeyGrammar.dfy` | the streaming key decoder, and the grammar of terminal input it reads |
| `TableDiff.dfy`, `TableFrames.dfy`, `FrameDiffer.dfy` | row identities, the two change detectors, what a highlighted frame shows, and the begin/commit/rollback protocol |
| `WatchErrors.dfy`, `WatchTrace.dfy` | the error classification, and the laws the events of a run keep |
| `WatchMachine.dfy`, `WatchHistory.dfy`, `WatchKeys.dfy`, `WatchLoop.dfy` | what has to come next in a run given its inputs, what every such run looks like, what becomes of its keys, and the loop that produces it |
| `Viewport.dfy` | the scrolling window |
| `Text.dfy`, `WrapText.dfy`, `ShrinkWidths.dfy`, `TableText.dfy`, `TableLayout.dfy`, `Tsv.dfy` | wrapping, width allocation, what printed table lines hold, the table writer, the TSV writer |
| `CommandFlags.dfy`, `CommandPrefix.dfy`, `CommandWalk.dfy`, `FlagPrefix.dfy` | which flag a token means, expansion of abbreviated command names and what it leaves alone, expansion of abbreviated flags |
| `UriEncode.dfy`, `CanonicalQuery.dfy`, `Retry.dfy` | SigV4 canonical encoding, the request retry loop |
| `SecretNames.dfy`, `Redact.dfy` | which names are credentials, and the redaction of a dumped body |
| `PatchRemoval.dfy` | the JSON-patch removals of `inspection rule unset` |

How the pieces are put together:

- The uploader is a set of atomic actions (a read, a slot taken, a network call
  returning, a critical section, a slot released, a worker gone, a cancellation, the
  join, the closing requests). A run is any legal sequence of them; the theorems
  quantify over all runs.
- The watch loop runs on a tape of inputs: clock moves, key presses, resizes, timer
  and cancellation events, tables and outcomes of the render goroutine. Its log
  interleaves the inputs taken with the events that happened. `WatchMachine.TurnOf` says
  after any beginning of a run whether an event, an input or the end comes next, so a
  tape determines its run. `Loop` proves that the nested loops of the code produce that
  run; `WatchHistory` proves that every such run is lawful (`WatchTrace.Lawful`) and that
  inputs and events account for each other; the lemmas of `WatchTrace` are then about
  every lawful history.
- Loops are methods proved against functions or predicates; the laws are lemmas about
  those.

## What the code does that its documentation does not say

- A source of exactly 10000 full parts is refused: the limit is checked before the end
  of the source is seen (`LengthDecides`, `EverySourceHasARun`).
- A completion the service refuses is not followed by an abort, although
  `PutObjectStream` is documented to abort an upload that fails (`ResultExactly`,
  `EverySourceHasARun`).
- One part-sized buffer more than `Concurrency` is live as soon as the source holds a
  part for each worker (`SlotsBound`, `ExtraBufferExactly`).
- A source reader that itself reports an unexpected EOF counts as ended, and the
  truncated object is completed (`LengthDecides`, `EverySourceHasARun`).
- A byte that begins no UTF-8 sequence is held for ever and with it every key typed
  later, quit and interrupt included (`CompletableExactly`, `WedgedForever`,
  `StrayByteWedges`).
- The two change detectors can part: for NUL-free column names exactly when the columns
  go from none to one nameless one or back and nothing new shows
  (`SignaturesClashExactly`, `VerdictsPartExactly`, `ClashingSignatures`).
- A frame that gains or loses tables, or whose tables get other columns, is not a change
  by that alone (`UnreportedExactly`, `GainAndLossUnseen`).
- A row without cells reads back from TSV as a row with one empty cell (`RoundTrip`).
- A command named like a flag would break the fixpoint of the command expansion
  (`StepsSettleExactly`, `DashNameUnsettles`); a flag name with an `=` would break that of the flag expansion
  (`ListSettlesExactly`, `EqualsUnsettles`).

## Model

| member | source | states |
|---|---|---|
| Multipart.WithDefaults | internal/s3/multipart.go:64-83 | options are accepted exactly when the part size is zero or at least 5 MiB and the concurrency zero or positive; zero becomes 16 MiB and 4, everything else is kept |
| Multipart.SortPartsSorts | internal/s3/multipart.go:255-260 | the part list handed on is sorted by number and a permutation of the recorded parts |
| MultipartInvariant.StepKeepsInv | internal/s3/multipart.go:181-261 | every action of reader, workers, context and closing requests keeps the invariant tying source, buffers, slots, parts, errors and requests together |
| MultipartTheorems.ReachableInv | internal/s3/multipart.go:193-261 | the invariant holds after every legal schedule |
| MultipartTheorems.CompletionIsExact | internal/s3/multipart.go:193-261 | whatever the schedule, a list handed to completion is numbered 1..n, each number once with its own ETag and size; the bodies concatenate to the source; all but the last are full; n is at most 10000 |
| MultipartTheorems.CompletionAfterJoin | internal/s3/multipart.go:255-260 | completion is requested only after every worker is gone, at most once, never beside an abort |
| MultipartTheorems.FailureMeansAbort | internal/s3/multipart.go:110-117 | once any error is recorded no completion is ever requested; a finished run sent exactly one abort and returns the first error |
| MultipartTheorems.ResultExactly | internal/s3/multipart.go:92-118 | every way a run can finish, with the size returned and the requests sent: success means the whole source; an empty source becomes abort plus empty PUT; a refused completion is not aborted |
| MultipartTheorems.AnswersDecide | internal/s3/multipart.go:92-118 | whether a finished run reports a failed abort, or a failed replacement by an empty object, is decided by the answers its schedule gives to the closing requests: a failed upload tells of the abort exactly if the schedule holds an abort that was refused |
| MultipartTheorems.FirstErrorWins | internal/s3/multipart.go:181-188 | over every continuation the recorded error never changes and errors are only appended |
| MultipartTheorems.SlotsBound | internal/s3/multipart.go:193-253 | at most `Concurrency` workers hold a slot, and at most one part buffer more is live |
| MultipartTheorems.ExtraBufferExactly | internal/s3/multipart.go:223-253 | some legal schedule has one part buffer more than `Concurrency` live, the reader's, exactly if the concurrency is below the part limit and the source holds a full part for each worker |
| MultipartTheorems.StepDecreases | internal/s3/multipart.go:193-261 | every step decreases a measure of the source left and the work in flight |
| MultipartTheorems.EveryRunEnds | internal/s3/multipart.go:193-261 | every schedule of a finite source is bounded by that measure |
| MultipartTheorems.NoDeadlock | internal/s3/multipart.go:193-216 | until the run has finished, a step other than the caller cancelling is enabled, whatever the service answers |
| MultipartTheorems.LengthDecides | internal/s3/multipart.go:234-253 | when nothing but the source and the closing request can fail, a source shorter than 10000 parts is stored whole or refused at the close, and a longer one fails with TooManyParts and is aborted |
| MultipartTheorems.EverySourceHasARun | internal/s3/multipart.go:92-118 | and such runs exist: for every source without a read error, truncated or not, a legal undisturbed schedule ends in `Uploaded`, in a refused completion or empty PUT as the service chooses, or in TooManyParts from exactly 10000 full parts on |
| MultipartTheorems.PartUploader.Fail | internal/s3/multipart.go:181-188 | the first error is kept and cancels the others |
| MultipartTheorems.PartUploader.ReadPart | internal/s3/multipart.go:234-253 | one turn of the read loop, against the step function |
| MultipartTheorems.PartUploader.Settle | internal/s3/multipart.go:206-213 | a worker's critical section, against the step function |
| MultipartTheorems.PartUploader.Conclude | internal/s3/multipart.go:110-118 | the closing requests, against the step function |
| MultipartTheorems.PartUploader.Step | internal/s3/multipart.go:181-261 | every mutation of the uploader is the action it stands for |
| MultipartTheorems.PartUploader.Follow | internal/s3/multipart.go:223-261 | the object that follows any schedule ends in the state the theorems are about, invariant included |
| KeyDecoder.DecodeCSI | internal/watch/keycode.go:135-168 | the parameter loop computes the key and length of the control sequence, 64-bit wrap-around included, or reports it incomplete |
| KeyDecoder.DecodeEscape | internal/watch/keycode.go:104-132 | the escape branches, against the front of the buffer |
| KeyDecoder.DecodeKeys | internal/watch/keycode.go:72-99 | the index loop yields the keys and the held bytes of the whole buffer |
| KeyDecoder.ReadKeys | internal/watch/keycode.go:184-207 | however the stream is cut into reads, the keys emitted are those of the whole stream, a final lone ESC included |
| KeyDecoder.NextKeyStable | internal/watch/keycode.go:72-168 | a complete key stays what it is when more bytes arrive |
| KeyDecoder.DecodeSplit | internal/watch/keycode.go:72-99 | decoding in two pieces with the held bytes carried over is decoding at once |
| KeyGrammar.RuneIsUtf8 | internal/watch/keycode.go:83-89 | bytes taken as one rune are the UTF-8 encoding (RFC 3629) of a scalar value |
| KeyGrammar.Utf8IsRune | internal/watch/keycode.go:83-89 | and every such encoding is taken as one rune |
| KeyGrammar.ScanReadsFirstParam | internal/watch/keycode.go:135-168 | the running scan reads the first decimal parameter, modulo 64 bits |
| KeyGrammar.DecodeReads | internal/watch/keycode.go:72-99 | the decoder's keys are the meanings of a reading of the buffer in the grammar, and it holds back what no token starts |
| KeyGrammar.ReadingIsUnique | internal/watch/keycode.go:72-99 | there is no other reading |
| KeyGrammar.BytesAccounted | internal/watch/keycode.go:72-99 | every byte is in exactly one token or held |
| KeyGrammar.CompletableExactly | internal/watch/keycode.go:72-132 | held bytes can still become a key exactly when they begin an escape or a UTF-8 sequence |
| KeyGrammar.WedgedForever | internal/watch/keycode.go:83-89 | bytes that cannot complete swallow everything after them |
| KeyGrammar.StrayByteWedges | internal/watch/keycode.go:83-89 | one byte 0xFF silences the keyboard |
| KeyGrammar.NamedKeys | internal/watch/keycode.go:43-63 | the keys that sequences name, letter by letter and number by number |
| KeyGrammar.LettersRead | internal/watch/keycode.go:104-132 | a letter sequence of either kind is its arrow, Home or End key, whatever bytes follow |
| KeyGrammar.NumbersRead | internal/watch/keycode.go:135-168 | so is a numbered one |
| KeyGrammar.ModifiedRead | internal/watch/keycode.go:135-168 | and one with a modifier behind a semicolon |
| TableDiff.TakeSnapshot | internal/watch/diff.go:232-257 | the snapshot loop, against the recursive snapshot |
| TableDiff.SnapshotShaped | internal/watch/diff.go:232-284 | in every snapshot row identities are pairwise distinct, one per row, each with one cell per column |
| TableDiff.SameVerdict | internal/watch/diff.go:134-228 | on tables of one width the highlighting detector and the cheap one agree |
| TableDiff.SignatureInjective | internal/watch/diff.go:232-237 | non-empty NUL-free column lists are recovered from the signature |
| TableDiff.SignaturesClashExactly | internal/watch/diff.go:232-237 | NUL-free column lists share a signature exactly if they are equal, or one is empty and the other one nameless column |
| TableDiff.VerdictIgnoresSwitch | internal/watch/diff.go:97-228 | so for such tables the verdict does not depend on the highlight switch |
| TableDiff.VerdictsPartExactly | internal/watch/diff.go:97-228 | for NUL-free names and equal signatures the verdicts part exactly if the columns went from none to one nameless one or back, the rows are as many and not none, and the first cells of a new nameless column are all empty |
| TableDiff.ClashingSignatures | internal/watch/diff.go:232-237 | a pair of tables on which they do |
| TableDiff.Decorate | internal/watch/diff.go:134-163 | the frame is the rows plus one ghost row per row that left, one style per cell, and the change flag is exact (what the ghost rows and styles are is stated by SnapshotsShow) |
| TableDiff.PermutationIsQuiet | internal/watch/diff.go:134-257 | reordering rows with distinct non-empty keys marks nothing changed, added or removed |
| TableFrames.KeyColumnExactly | internal/watch/diff.go:261-275 | the identifying column is the first named ID in any case, else the first named Name, else the field column of a field/value table, else none |
| TableFrames.FoldsCase | internal/watch/diff.go:261-275 | ID, Name and Field are recognised in another case too; Name and IDs are not taken for ID |
| TableFrames.SnapshotRecords | internal/watch/diff.go:232-284 | a snapshot holds, under each identity, one for every row and in order, the cells of just that row, short rows filled up with empty ones |
| TableFrames.NamesMatch | internal/watch/diff.go:232-284 | a row of one snapshot and one of another share an identity exactly if both are known by the same key, or both by the same position |
| TableFrames.SnapshotsShow | internal/watch/diff.go:134-200 | the highlighted frame is the rows and then, in their old order, exactly the old rows that left, cell for cell; every cell of a new row is marked added, a cell of a row that stayed is marked changed exactly if its text differs, and every cell of the extra rows is marked removed |
| FrameDiffer.FrameChangedIgnoresSwitch | internal/watch/diff.go:97-118 | for whole frames with usable columns the verdict does not depend on the switch |
| FrameDiffer.FrameChangedExactly | internal/watch/diff.go:97-118 | on an unchanged layout a frame is unchanged exactly when every table holds the same rows by identity |
| FrameDiffer.FrameChangedMeans | internal/watch/diff.go:97-128 | for any two frames with usable columns, changed means that some table kept its place and columns and has other rows |
| FrameDiffer.UnreportedExactly | internal/watch/diff.go:97-128 | a difference goes unreported exactly if the layout changed and every table that kept place and columns kept its rows; nothing else is ever reported |
| FrameDiffer.GainAndLossUnseen | internal/watch/diff.go:120-128 | no frame that only gains tables at its end, or loses them there, is reported, whatever the others hold |
| FrameDiffer.DiffersNow | internal/watch/diff.go:205-216 | the cheap comparison, over the map in any order |
| FrameDiffer.Differ.BeginFrame | internal/watch/diff.go:67-71 | opens a frame against the unchanged baseline |
| FrameDiffer.Differ.Highlight | internal/watch/diff.go:97-118 | adds a table to the open frame; what is returned shows the rows, the rows that left and the style of every cell as stated for any table the baseline was taken of |
| FrameDiffer.Differ.Commit | internal/watch/diff.go:74-83 | the baseline becomes the snapshots of the frame, with its table and row counts |
| FrameDiffer.Differ.Rollback | internal/watch/diff.go:88-92 | only the open frame is dropped |
| WatchErrors.AuthExcludesTransient | internal/watch/errors.go:63-120 | no nested error is both a rejected credential and transient; after a failed re-authentication it is exactly one of them |
| WatchErrors.RootCauseDecides | internal/watch/errors.go:63-120 | under any nesting of re-authentications the innermost failure decides |
| WatchErrors.VisitExactly | internal/watch/errors.go:35-60 | the nodes looked at are the error and all that is under its wrappers and joins |
| WatchErrors.VisitInOrder | internal/watch/errors.go:35-60 | they are looked at from the outside in, those of a join from its first error on |
| WatchErrors.JudgedExactly | internal/watch/errors.go:47-120 | outside re-authentications the first status decides: refused for 401 and 403, transient for 408, 429 and from 500 on; without a status an error is transient exactly if its first net error is a timeout or a connection broke |
| WatchErrors.CancelledExactly | internal/watch/watch.go:407-410 | an error counts as cancelled exactly if a context error is at or under it |
| WatchTrace.RendersBounded | internal/watch/watch.go:269-356 | the number of refreshes never exceeds a positive count |
| WatchTrace.NoRenderAfterStopKey | internal/watch/watch.go:269-353 | no refresh starts after a quit or interrupt key was acted on |
| WatchTrace.RejectedCredentialIsLast | internal/watch/watch.go:407-435 | a refresh refused for its credential is the last |
| WatchTrace.ChangeIsLast | internal/watch/watch.go:330-351 | under until-change no refresh starts after a success that differs from the previous one |
| WatchTrace.SwitchHeldDuringRefresh | internal/watch/keys.go:91-104 | the highlight switch never flips while a refresh is in flight |
| WatchTrace.DeferredInOrder | internal/watch/watch.go:372-402 | deferred keys are acted on in arrival order, each at most once |
| WatchTrace.PausedRefreshWasAsked | internal/watch/watch.go:278-279 | a refresh starts while paused only as the first one, or after a refresh, highlight or resume key since the last start |
| WatchHistory.FailureVerdict | internal/watch/watch.go:318-328 | what a failed refresh leads to: a fatal end, the count reached, or rest |
| WatchHistory.SuccessVerdict | internal/watch/watch.go:330-353 | what a successful refresh leads to; frame body and baseline become its own |
| WatchHistory.ChangeTest | internal/watch/watch.go:330-351 | the loop's test for a change is the one the history defines |
| WatchMachine.RunIsDetermined | internal/watch/watch.go:269-565 | the inputs determine the whole run: two runs by the rules on the same inputs agree |
| WatchHistory.RunIsSound | internal/watch/watch.go:269-565 | the events of every run are lawful and determine the loop's fields: attempts, frames, pause, force, queue, held body, baseline |
| WatchHistory.EveryKeyReceived | internal/watch/watch.go:372-402 | every key pressed while the keyboard is open is received, once and in order |
| WatchHistory.EndingsAnswerReports | internal/watch/watch.go:301-353 | every end of a refresh answers the report right before it: its body or error, the tables reported since the start, cut short exactly by the first quit or interrupt key received in flight |
| WatchHistory.ReportsAreAnswered | internal/watch/watch.go:301-353 | every report on a refresh in flight is answered at once |
| WatchHistory.RefreshComesFirst | internal/watch/watch.go:269-287 | every run begins with a refresh |
| WatchHistory.NeverLate | internal/watch/watch.go:496-552 | between refreshes the loop takes another input only while paused or before the last start plus the interval read off the log, with no key left in the queue |
| WatchHistory.IntervalAccounted | internal/watch/keys.go:194-204 | the interval in force is the one read off the log: the base, stepped and clamped by slower and faster keys, stretched by a success to twice its latency up to the cap |
| WatchHistory.NeverEarly | internal/watch/watch.go:496-552 | no refresh but the first starts early: right before it the timer of the wait ran out or a key called for it, or the clock has reached the last start plus the interval |
| WatchHistory.CallsAreAnswered | internal/watch/watch.go:496-539 | a forcing key acted on between refreshes, or the timer of a loop that is not paused, is followed by a refresh at once, unless the run is cancelled |
| WatchHistory.CauseEndsRun | internal/watch/watch.go:301-353 | a quit key acted on, a fatal failure, the last refresh of the count and, under until-change, the first success that differs from the one before it: each is the last entry of the run and ends it for just that reason |
| WatchHistory.EndHasCause | internal/watch/watch.go:269-353 | and there is no other end: a run that is over was cancelled, or its last entry is such an event |
| WatchHistory.CancelAccounted | internal/watch/watch.go:269-277 | the loop counts as cancelled exactly if the caller cancelled it or an interrupt key was acted on |
| WatchHistory.NoRefreshOnceCancelled | internal/watch/watch.go:269-277 | once the run is cancelled no refresh starts |
| WatchHistory.CancellationEndsRun | internal/watch/watch.go:513-515 | a cancellation seen between refreshes is the last entry and ends the run |
| WatchHistory.EndIsJustified | internal/watch/watch.go:269-353 | where a run ends its inputs and events show why, and they are lawful |
| WatchKeys.KeyClasses | internal/watch/keys.go:91-104 | which keys abort a refresh, which are acted on at once and which wait |
| WatchKeys.ReceivedIsAnswered | internal/watch/watch.go:383-400 | a key received between refreshes, or one acted on at once, is acted on next; after any other the refresh goes on |
| WatchKeys.CutShortIsAnswered | internal/watch/watch.go:311-317 | the key that cut a refresh short is acted on next |
| WatchKeys.QueueComesFirst | internal/watch/watch.go:499-512 | a refresh that nothing called for starts only when every key kept for later has been acted on |
| WatchLoop.Runner.SetInterval | internal/watch/keys.go:194-204 | the interval is clamped and the backoff reset |
| WatchLoop.Runner.TogglePause | internal/watch/keys.go:181-189 | resuming asks for a refresh at once |
| WatchLoop.Runner.Perform | internal/watch/keys.go:113-151 | every key's effect on the loop's fields |
| WatchLoop.Runner.Key | internal/watch/keys.go:113-151 | acting on a key keeps fields and history in agreement |
| WatchLoop.Runner.KeyDuringRefresh | internal/watch/watch.go:383-400 | keys during a refresh are acted on, queued or turned into an abort by class; the switch is untouched |
| WatchLoop.Runner.Select | internal/watch/watch.go:381-402 | one input of the tape during a refresh, against the rules |
| WatchLoop.Runner.Refresh | internal/watch/watch.go:372-402 | the refresh runs until the report on the tape, which decides its end together with the tables and keys before it |
| WatchLoop.Runner.RecordError | internal/watch/watch.go:407-435 | a failure is fatal exactly when cancelled, refused, settled before the first frame, or errors end the run |
| WatchLoop.Runner.Backoff | internal/watch/watch.go:442-451 | twice the latency if longer than the interval asked for, never beyond the cap |
| WatchLoop.Runner.EndFailed | internal/watch/watch.go:318-328 | a failed refresh leaves frame and baseline alone and ends the run exactly when fatal or last |
| WatchLoop.Runner.EndCutShort | internal/watch/watch.go:311-317 | a refresh cut short rolls the differ back and acts on the key that did it |
| WatchLoop.Runner.EndSucceeded | internal/watch/watch.go:330-353 | a good refresh replaces frame and baseline and ends the run at the count or at a change |
| WatchLoop.Runner.Tick | internal/watch/watch.go:301-353 | one refresh, its start and its end on record as the rules prescribe, or the end of the tape |
| WatchLoop.Runner.NoteSkips | internal/watch/watch.go:560-565 | missed deadlines are counted |
| WatchLoop.Runner.Drain | internal/watch/watch.go:499-507 | the oldest queued key is acted on first |
| WatchLoop.Runner.Hear | internal/watch/watch.go:513-538 | one input of the tape between refreshes, against the rules |
| WatchLoop.Runner.Wait | internal/watch/watch.go:496-539 | queued keys, a refresh that is due, then inputs, in this order; it goes back to the top only for a key, for the timer, or with the deadline passed |
| WatchLoop.Runner.Loop | internal/watch/watch.go:269-296 | for every tape the log of inputs and events is the run the rules prescribe for it; it ends only where they say it ends, or with the whole tape taken |
| WatchLoop.Runner.Run | internal/watch/watch.go:189-224 | for a fresh loop the events are lawful, account for every key of the tape, and show with the inputs why the run ended |
| Viewport.WindowIsSlice | internal/watch/viewport.go:59-94 | at every offset the window is a contiguous slice, last plus more is the total |
| Viewport.FitsExactly | internal/watch/viewport.go:59-94 | head, body, marker and reserve fit the terminal exactly with two lines of room, with one if the offset reaches the end, and with none if there is no body |
| Viewport.HeadExactly | internal/watch/viewport.go:45-50 | three lines are pinned exactly where a border, a header and a rule begin a longer frame |
| Viewport.HeightExactly | internal/watch/viewport.go:59-77 | the window shows all of a body that has room and else fills the terminal up to the marker, never less than one line |
| Viewport.ShorterRefresh | internal/watch/viewport.go:79-85 | a shorter refresh leaves the window inside the body and no further up than needed |
| Viewport.BottomReached | internal/watch/viewport.go:102-116 | page down reaches the bottom in no more presses than there are lines and stays there |
| Viewport.EveryLineShown | internal/watch/viewport.go:102-116 | every body line is on screen after some number of presses from the top |
| Viewport.Viewport.Apply | internal/watch/viewport.go:59-94 | the new offset, measurements and frame |
| Viewport.Viewport.Scroll | internal/watch/viewport.go:102-107 | the offset moves and never goes above the top |
| Viewport.Viewport.ToBottom | internal/watch/viewport.go:121-122 | the end key and a paint leave nothing below |
| Viewport.Viewport.PageDown | internal/watch/viewport.go:102-116 | a page-down key and a paint are one more press |
| WrapText.WrapLine | internal/output/output.go:1094-1128 | every line fits, no visible rune is lost, repeated or moved, a word that fits the width stands unbroken, and no line leaves room for the first word of the next |
| WrapText.Wrap | internal/output/output.go:1079-1089 | newlines are hard breaks: one group of lines for each segment between them, each wrapped as a line of its own |
| WrapText.Truncate | internal/output/output.go:819-829 | one line no wider than the column, cut with an ellipsis exactly when too long |
| WrapText.JoinFieldsExactly | internal/output/output.go:833-838 | every text is words and the spaces around them, and the words single spaces apart are what is kept of a text with newlines |
| ShrinkWidths.Shrink | internal/output/output.go:1018-1054 | natural widths if they fit, otherwise narrow columns keep theirs and wide ones share the rest |
| ShrinkWidths.ShrunkExactly | internal/output/output.go:1018-1054 | of a table that does not fit, a column no wider than an equal part of the usable width keeps its own, the others get one share each of what those leave, the last one also what the division leaves over, and none of them less than the floor |
| ShrinkWidths.FillsExactly | internal/output/output.go:1018-1054 | the shrunk table is exactly as wide as the terminal if and only if the floor is at most an equal share; every shrunk column has at least the floor, every other its own width |
| ShrinkWidths.RoomMeansExact | internal/output/output.go:1018-1054 | a terminal of 1 + n(min + 3) columns guarantees that |
| TableLayout.TableCells | internal/output/output.go:753-786 | every cell text is that of its row and column, and the natural widths are those of the widest line of each column |
| TableLayout.CellTextExactly | internal/output/output.go:760-776 | a cell text has its tabs made blanks, is replaced if over 1024 characters and elided, is put on one line if compact, and is empty for a cell the row lacks |
| TableLayout.AssignWidths | internal/output/output.go:932-939 | the widths fit the terminal when there is room, exactly so when the natural ones do not |
| TableLayout.WrapTableCells | internal/output/output.go:791-814 | every cell fits its column and shows its own text, wrapped at its newlines or cut to the assigned width; columns are as wide as their widest line and never beyond the assignment |
| TableLayout.Row | internal/output/output.go:879-907 | as many physical lines as the tallest cell has, line li holding between its bars line li of every cell in turn, a blank on either side and blanks up to the width |
| TableText.CellStandsAt | internal/output/output.go:886-904 | in such a line the cell of column c stands at the offset that the widths of the columns before it give |
| TableText.RowStandsAt | internal/output/output.go:945-960 | in the lines of a table, row r stands below border, header and border at the offset that the heights of the rows before it give |
| TableLayout.WriteTable | internal/output/output.go:932-961 | the lines read as border, header, border, the rows in order and border, of a sheet that shows every row's cells at the widths assigned from the measured ones; all are of one width, at most the fitting width when there is room |
| Tsv.WriteTsv | internal/output/output.go:736-747 | the loops write one escaped line a row |
| Tsv.EscapedExactly | internal/output/output.go:724-728 | a cell is written character by character, a backslash, tab or line feed as two characters and any other as itself |
| Tsv.UnescapeEscape | internal/output/output.go:724-728 | undoing the three escapes recovers a cell verbatim |
| Tsv.ReadsBack | internal/output/output.go:736-747 | splitting the output recovers every row as a reader sees it |
| Tsv.RoundTrip | internal/output/output.go:736-747 | the rows come back exactly if and only if none is empty |
| CommandPrefix.FindSoleChild | internal/cli/cmdprefix.go:96-115 | the loop over children and aliases finds the sole child |
| CommandPrefix.SoleChildSpec | internal/cli/cmdprefix.go:96-115 | a sole child is the one child the word abbreviates |
| CommandFlags.SoleFlagWithPrefix | internal/cli/flagprefix.go:93-105 | the only name with the prefix, whatever the map order |
| CommandFlags.FindExactly | internal/cli/cmdprefix.go:146-164 | the flag found is the nearest one picked: of the command reached before its parents, own flags before persistent ones; none is found exactly if none in reach is picked |
| CommandFlags.MeantExactly | internal/cli/cmdprefix.go:158-200 | the flag a long name means is the nearest of that name or, where there is none, of the one name it abbreviates |
| CommandFlags.TakesNextExactly | internal/cli/cmdprefix.go:185-206 | the test of the code decides whether a token takes the next one as the flags of the path say |
| CommandFlags.ConsumesValue | internal/cli/cmdprefix.go:185-206 | a long token takes the next one exactly if it holds no `=` and the flag meant has no default value of its own, a cluster exactly if the nearest flag of its last letter has none |
| CommandPrefix.CommandWordIndex | internal/cli/cmdprefix.go:209-223 | the scan loop, against the recursive scan |
| CommandWalk.WordIsFirst | internal/cli/cmdprefix.go:209-223 | the word found is the one that stepping over flags and the values they take leads to; none is found exactly if that leads to a terminator or the end |
| CommandPrefix.ExpandCommandPrefixes | internal/cli/cmdprefix.go:43-75 | the rewriting loop, against the walk |
| CommandWalk.LeadExactly | internal/cli/cmdprefix.go:58-115 | a word stands for the first child so named or aliased, and any other word for the name of the one child it abbreviates |
| CommandWalk.ExpansionIsWalk | internal/cli/cmdprefix.go:43-75 | the expansion is a walk: from behind the last word, over flags and values, to the child the next word means, eight words at the most and until a word means none; those words are written out where they stood and nothing else is changed |
| CommandWalk.OneWalk | internal/cli/cmdprefix.go:43-75 | there is no other such walk |
| CommandPrefix.ExpansionSettles | internal/cli/cmdprefix.go:43-75 | expanding again changes nothing, and exact names alone lead to the same command, for every tree without dash names |
| CommandWalk.FlagsUntouched | internal/cli/cmdprefix.go:43-75 | only command words are rewritten |
| CommandWalk.ValuesUntouched | internal/cli/cmdprefix.go:185-223 | wherever in the walk a scan has come to, no flag it steps over is rewritten, and no token a flag takes as its value |
| CommandWalk.TerminatorsBefore | internal/cli/cmdprefix.go:209-223 | a command word anywhere along the walk has only terminators before it that flags took as their values |
| CommandWalk.TerminatorEndsWalk | internal/cli/cmdprefix.go:43-75 | nothing from a bare `--` on is rewritten, wherever in the walk it comes, unless a flag took that `--` as its value |
| CommandPrefix.StepsSettleExactly | internal/cli/cmdprefix.go:43-75 | for every tree, expanding again takes the same steps, word by word, if and only if no word written looks like a flag |
| CommandPrefix.DashNameUnsettles | internal/cli/cmdprefix.go:43-75 | a tree with a dash name on which expanding again changes the arguments |
| FlagPrefix.ExpandFlagPrefixes | internal/cli/flagprefix.go:34-74 | every token before the terminator is completed, the rest untouched, the length kept |
| FlagPrefix.CompletedExactly | internal/cli/flagprefix.go:49-73 | a token is completed exactly if it is `--`, a name that is not defined and begins just one defined name, and nothing or an `=` and more; the name alone is replaced |
| FlagPrefix.SettlesExactly | internal/cli/flagprefix.go:49-73 | a second pass over a token changes nothing exactly when the completed name holds no `=` |
| FlagPrefix.ListSettlesExactly | internal/cli/flagprefix.go:34-74 | and over a whole argument list exactly when none before the terminator does |
| FlagPrefix.EqualsUnsettles | internal/cli/flagprefix.go:49-73 | a name with an `=` on which it fails |
| FlagPrefix.CompletionKeepsArity | internal/cli/cmdprefix.go:185-206 | completing a flag does not change whether it takes the next token |
| FlagPrefix.CompletionKeepsScan | internal/cli/cmdprefix.go:209-223 | so the command walk finds the same word before and after flag completion |
| UriEncode.UriEncode | internal/s3/sign.go:170-189 | the byte loop, against the encoding |
| UriEncode.EncodedExactly | internal/s3/sign.go:170-189 | byte by byte: an unreserved character and a kept slash stand for themselves, any other is a percent sign and two upper-case hexadecimal digits of its value |
| UriEncode.DecodeEncode | internal/s3/sign.go:170-189 | percent-decoding (section 2.1 of RFC 3986) undoes it |
| UriEncode.EncodedAlphabet | internal/s3/sign.go:170-189 | only unreserved characters (section 2.3 of RFC 3986), `%` and a kept slash remain |
| UriEncode.CanonicalURIInjective | internal/s3/sign.go:137-142 | two paths sign alike exactly when equal, the empty path being the root |
| CanonicalQuery.CanonicalQuery | internal/s3/sign.go:148-164 | whatever the map order, the string renders the sorted list of all name/value pairs |
| CanonicalQuery.RenderedExactly | internal/s3/sign.go:155-163 | between ampersands stand the pairs in order, name and value spelled out with an equals sign between, slashes included |
| CanonicalQuery.ReadsBack | internal/s3/sign.go:148-164 | parsing the string recovers the list |
| CanonicalQuery.SortedUnique | internal/s3/sign.go:148-164 | a sorted list is determined by its multiset |
| CanonicalQuery.CanonicalMeansEqual | internal/s3/sign.go:148-164 | equal canonical strings mean equal multisets of pairs, and conversely |
| Retry.Delay | internal/s3/retry.go:71-81 | the wait is the nominal delay plus a jitter below a quarter of it |
| Retry.NominalIsCapped | internal/s3/retry.go:71-78 | the nominal delay is min(base·2^(n-1), 10 s) and never shrinks |
| Retry.AcceptedIsFinal | internal/s3/retry.go:33-48 | a response handed to the sink is never asked for again |
| Retry.RetryableExactly | internal/s3/retry.go:43-62 | an error is worth another try exactly if no consumer raised it and the service gave no answer, one of four codes, 408, 429, or a status from 500 on |
| Retry.RetriedExactly | internal/s3/s3.go:701-707 | an attempt is followed by another exactly if one is left, the caller has not given up, and its reply was no answer worth keeping |
| Retry.ToldExactly | internal/s3/s3.go:701-735 | a request succeeds exactly if its last reply was accepted and consumed; the consumer's error and a final refusal reach the caller as they are |
| Retry.Backoff | internal/s3/retry.go:71-91 | the wait before retry n is on record, with its delay |
| Retry.Attempt | internal/s3/s3.go:740-778 | one attempt: the body from where it stands, the sink exactly on an accepted response |
| Retry.Attempts | internal/s3/s3.go:689-711 | the retry loop: every attempt but the last was retryable, each after the first comes right behind the wait for just that retry, and the end is that of the last |
| Retry.Do | internal/s3/s3.go:683-712 | at most max(0, MaxRetries) + 1 attempts, the sink at most once, the same body offset every time, before retry n the wait for it and nothing else, and the error the caller sees |
| SecretNames.IsSecretKey | internal/auth/debug.go:96-108 | the loop finds exactly the keys with a listed tail |
| SecretNames.IsSecretName | internal/auth/debug.go:117-125 | the loop finds exactly the names with a listed tail or segment |
| SecretNames.KeyImpliesName | internal/auth/debug.go:96-125 | every key hidden in a dump is hidden by name |
| Redact.RedactJSON | internal/auth/debug.go:256-282 | the recursion and its loops, fields in any order, compute the redacted tree |
| Redact.RedactPatchValue | internal/auth/debug.go:288-299 | a patch operation's value is hidden exactly when its path names a credential |
| Redact.LastSegmentExactly | internal/auth/debug.go:296 | the segment judged holds no slash, and what is before it in the path is nothing or ends with one |
| Redact.RedactedExactly | internal/auth/debug.go:256-299 | place by place: the same places, keys and lengths; a leaf is the marker if it is a credential there and unchanged if not |
| Redact.NoSecretLeft | internal/auth/debug.go:256-265 | no denylisted key at any depth holds a scalar but the marker |
| Redact.RedactedTwice | internal/auth/debug.go:256-299 | redaction is idempotent |
| PatchRemoval.Removals | internal/cli/baremetal/inspection_rule.go:360-375 | the removals name each index once, highest first; a negative index is refused, the largest one reported |
| PatchRemoval.RemovalsAreSimultaneous | internal/cli/baremetal/inspection_rule.go:360-375 | applied in order (section 4.2 of RFC 6902) they delete exactly the named positions, and succeed exactly when all exist |
| PatchRemoval.OrderIrrelevant | internal/cli/baremetal/inspection_rule.go:360-375 | flags that name the same indices, in whatever order and repetition, give the same removals or the same refusal |
| PatchRemoval.UnsetDeletesNamed | internal/cli/baremetal/inspection_rule.go:360-375 | the unset of any indices succeeds exactly when each is a position of the array, and deletes exactly those |

## Left out

- HTTP transports, TLS, XML, YAML, SHA-256 and HMAC, regular expressions: foreign
  calls; where an engine meets them they are inputs of its model.
- The single-PUT route of `PutObjectStream`, `createMultipartUpload`, and the XML of the
  completion: they would only add easy members. Retries inside one part upload are
  `Retry`'s and appear in the uploader as one returning call.
- The watch loop's painting, status line and scroll offset: `Viewport` models the
  window on its own, and the runner's keys that scroll change nothing else.
- The screen's append mode and its CSV header, `stickyHead`'s caller, raw mode: easy
  members or terminal I/O.
- Styled table cells: the lines stated are the undecorated ones, without the escape
  sequences of the highlight.
- Cell rendering (`cell`, `render`), the placeholder of an elided cell, the terminal
  width lookup: inputs of the table model. Widths count characters, as the code does.
- Row sorting: `compareCells` is not transitive on mixed columns, so no order law holds.
- The commands' own logic, authentication precedence, vault walking, object listing.
- Redact.RedactJSON: works on values; the in-place change of maps and slices, and what
  sharing between them would do, is not captured. Its `shape` argument is a ghost that
  only bounds the recursion.
- Redact and SecretNames treat lower-casing as far as it can produce an ASCII letter;
  other letters cannot occur in a listed key.
- Retry.Delay: a non-positive base delay is not wrapped at 64 bits; the program's base is
  200 ms.
- Viewport.Viewport.Scroll: offsets are unbounded integers.
- FlagPrefix.ExpandFlagPrefixes: the command the arguments resolve to is cobra's lookup;
  the set of names defined on it is an input.
- WatchLoop.Runner.Loop: a tape is finite; a run that goes on for ever is seen through
  all its finite beginnings. The count of skipped deadlines and of consecutive errors is
  stated by the methods that keep it, not by the run.
- TableDiff.VerdictsPartExactly: column names with a NUL character clash in more ways; the
  programs' own columns have none.
