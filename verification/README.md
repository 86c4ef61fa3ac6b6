# Verified model of the report source and the counter translation

BlobFuse's health monitor `bfusemon` writes JSON reports: arrays of objects, in a
directory where the current report and up to nine rotated ones lie under ten names.
The exporter tails these reports while they are written and rotated, and turns the
process-lifetime counters in them into increments. This project models that part of
the exporter in Dafny and proves what it is for: every record of every report is
handled exactly once, in order, whatever the chunks, rotations, failures and
interleavings; nothing is missed when the exporter says it is done; and the totals it
emits for reports that are written one after the other are a function of their bytes
and of the cutover alone, over any number of rotations.

`dafny verify dfyconfig.toml` checks everything.

## How it is built

The layers follow the program. Each one is specified by the one before it.

1. **What a report means.** `JsonGrammar` is RFC 8259 (sections 2 to 7) as a
   recursive-descent grammar. `JsonScanner` is the byte-at-a-time pushdown automaton
   that finds the end of an object, with a stack of containers and with string and
   escape modes; it is proved equal to the grammar on every input, and stable when
   bytes are appended. `Framing` defines the parse of a whole file: its records with
   their offsets, the state of its tail, and the boundary where a reader must stop.
   `JsonPrinter` spells objects out byte by byte, and `JsonSpelling` shows that the
   scanner accepts exactly these, refuses exactly what cannot become one, and at the
   first possible byte. `Reports` prints reports, reads them back, and says the same of
   whole files.
2. **The incremental framer.** `Decoders.Decoder` has the fields of the source's
   decoder. Its invariant says that everything fed to it parses into what was
   delivered and then what the buffer holds, so that `Next` answers exactly what the
   parse of the whole file says. `Chunking` says what a decoder delivers of a file,
   whatever chunks it arrives in.
3. **Readers and registry.** `Readers.GenerationReader.Drain` is the
   read-apply-commit loop over one file; `Registries` scans the directory, takes over
   every descriptor and drains the readers oldest first; `Ordering` and
   `CreationOrder` prove what that order means under rotation.
4. **The handoff.** `Worlds` is what lies outside: a directory that a writer changes
   at any time, and the inotify queue that reports it (`Events` has its wire format).
   The exporter's methods call `Interfere` wherever the writer may get in between,
   and it takes any number of steps there. `Sessions` is initialization, cutover,
   live reconciliation, the final drain and the outer loop. The argument that makes
   it work: a pass over the readers may be out of date as soon as it is finished, but
   each fact is kept in the form "if the queue is empty, then ..."; a drain of the
   queue that finds no event shows that all of them still hold at that moment.
   `Tallies` compares what a session counts with what it did; `Losses` gives an input on
   which counts fall short. What can go wrong outside the exporter is on record
   (`Worlds.Incidents`), and `Readers.Reported` says that every such incident ends what
   is going on with its error, and that no such error comes without one.
5. **Counters.** `Normalizer` accepts exact integers only, `Snapshots` says key by key
   what a record must yield, and `Records` puts a whole record together; `Counters.State` keeps the
   baselines; `Processing` links records to the state and keeps the log of what the
   handler accepted. `Progress` relates that log to what the readers have committed.
6. **End to end.** `EndToEnd` puts the layers together; `Exporter` is the application
   from start to end, with the observer that the metrics are told to; `Runs` are whole
   runs against a writer that appends only to its newest report and rotates.

`Clock` is the arithmetic of the process creation time.

Objects that the source updates in place are classes here, with the same fields;
loops stay loops. A method's contract ties its new state to a function of the old
one, and lemmas prove what that function promises. `hide` statements only make proofs
cheaper.

## Results that need care

- **Chunk independence** holds for every prefix of a well-framed report
  (`Chunking.InterruptedRoundTrip`), whose bytes are never refused either. It fails
  for some malformed files: if something other than whitespace follows the closing
  bracket, the last record is delivered if it is committed before that byte arrives,
  and withheld otherwise (`Chunking.ChunkingMattersBehindTheEnd`). These are exactly
  the files for which chunks matter: `Decoders.Decoder.OfferedIsExact` says what a
  decoder has delivered of a file that it was offered completely, whether all of it
  was accepted or not, and by `Chunking.ChunksAgreeExactly` all ways of cutting a file
  in two deliver the same records if and only if nothing but whitespace follows its
  closing bracket.
- **A malformed byte in the very last position** that has arrived counts as a text
  that stops early, because the error offset of the JSON decoder reaches the number
  of available bytes (`internal/source/decoder.go:227-234`). The model does the same.
- **Oldest first is creation order** only while scans keep up with rotations.
  `Ordering.LateScanKeepsOrder` gives the exact condition.
- **Counts after an error.** A drain that fails after some records leaves those out
  of the counts (`internal/source/live_linux.go:59-66`), although they were handled.
  `Tallies.Tally` says what is left out: with the reader's state before and after the
  drain that failed, exactly the records it committed and the bytes it read in between,
  the last calls of the log. When a report is to blame (malformed, or an object too
  large), `Tallies.CountsAreExact` gives the condition: counts of records are exact if
  and only if the report had nothing left to deliver behind the watermark that the drain
  started with, and counts of bytes if and only if the fault had been read before the
  call. If the report was faulty before the call, its bytes and its watermark from
  before the call decide. After a refusal by the handler or a failed read, what is
  missing is what the failed drain had moved the watermark by. `Losses.LoseOne` is an
  input that loses a record: a report with one object and two commas.
- **Creation order needs a disciplined writer.** `Worlds.Environment` carries what is
  known of the writer as a promise that lasts; the promise that is always true is one,
  so nothing is assumed of the writer unless a member says so. `Runs` uses the promise
  of a writer that appends only to its newest report, each report in its own time, and
  rotates at most once from one scan to the next: while readers are drained, while
  notifications are taken, or after that, step by step. Such a writer's rotations and
  modification times are then derived, not assumed. `Runs.RunFromEmpty` starts in a
  directory without reports.
- **The session's contract does not assume that the handler succeeds.** Handler
  refusals may happen at any record; a refused record stays pending and is the next
  one handed out.
- **Reconciliation ends.** Nothing is promised while the writer goes on, since each of
  its steps may cost two passes; but once it rests, two passes are enough
  (`Sessions.SourceSession.Reconcile`, `Sessions.NeedsLess`). The baseline waits for a
  report besides, for as long as none has a name.

## Model

| member | source | states |
|---|---|---|
| JsonScanner.ScannerMatchesGrammar | internal/source/decoder.go:206-225 | The stack automaton and the RFC 8259 grammar agree on every input: same end, same malformed byte, same demand for more bytes |
| JsonScanner.ScanIsStable | internal/source/decoder.go:206-234 | Appending bytes never moves the end of a complete object, never repairs a malformed one, and decides an incomplete one only beyond the bytes already seen |
| JsonScanner.PrefixIsIncomplete | internal/source/decoder.go:227-234 | No proper prefix of an object text is complete or malformed, whatever braces and quotes its strings hold |
| JsonScanner.CutOutIsObject | internal/source/decoder.go:210-224 | What the scanner delimits is an object text by itself, wherever it stood |
| JsonScanner.IncompleteGoesOn | internal/source/decoder.go:227-234 | Every text that the scanner calls incomplete can be completed to an object |
| JsonPrinter.PrintedObjectIsObject | internal/source/decoder.go:206-225 | Every spelling of an object, byte by byte (whitespace anywhere, raw, short and long escapes, numbers with sign, fraction and exponent), is scanned exactly to its end |
| JsonPrinter.ReadString | internal/source/decoder.go:210-224 | A string in any spelling is read to its closing quote: raw bytes, the eight short escapes, four hexadecimal digits in either case |
| JsonPrinter.ReadNumber | internal/source/decoder.go:210-224 | A number in any spelling (sign, fraction, exponent) is read to its end |
| JsonSpelling.SpellString | internal/source/decoder.go:210-224 | The converse: every accepted string is such a list of characters |
| JsonSpelling.SpellNumber | internal/source/decoder.go:210-224 | Every accepted number is a sign, digits without a leading zero, a fraction and an exponent |
| JsonSpelling.ObjectsAreSpelled | internal/source/decoder.go:206-225 | The texts that the scanner accepts are exactly the spelled objects |
| JsonSpelling.ScannerIsExact | internal/source/decoder.go:206-234 | The scanner answers what can be known of an opening brace: the end of the object spelled there, or the first byte with which none can be spelled any more whatever follows, or that it depends on the bytes to come |
| Framing.FrameIsStable | internal/source/decoder.go:119-165 | A framed record does not depend on anything behind its delimiter |
| Framing.StopIsStable | internal/source/decoder.go:119-152 | A refusal other than "need more" never turns into a record when bytes arrive |
| Framing.AppendNeverRevises | internal/source/decoder.go:70-89 | Appending to a report keeps all records found so far, in order; after a closed, invalid or oversized tail no record is added |
| Framing.RecordsInOrder | internal/source/decoder.go:154-162 | Records quote disjoint object texts of the file at their offsets, in file order, the closing one last |
| Framing.LaterRecordsLieBehind | internal/source/decoder.go:168-185 | Records completed only by later bytes start at or behind the earlier boundary |
| Framing.RecordsEndByBoundary | internal/source/decoder.go:168-185 | Records of a report that is neither invalid nor oversized end at or before the boundary |
| Framing.WaitingIsBounded | internal/source/decoder.go:119-146 | Bytes that wait for more are whitespace apart from one span within the size limit |
| Framing.HeldIsBounded | internal/source/reader_linux.go:94-126 | One such span and one read behind it: the bytes held that are not whitespace are at most the limit plus the read |
| Framing.ClosingEndsReport | internal/source/decoder.go:150-161 | A record closed by a bracket is the last one, and its tail is closed or invalid |
| Reports.SizeLimitIsExact | internal/source/decoder.go:211-222 | However much of an object has arrived, it is refused as too large if and only if more than the limit is there; less than all of it within the limit asks for more |
| Reports.CutReport | internal/source/decoder.go:106-166 | A report cut at any byte parses into exactly the objects whose delimiter has arrived, closed once the bracket is there and asking for more otherwise |
| Reports.PrintThenParse | internal/source/decoder.go:106-166 | Round trip: a printed report parses into the objects it was printed from, with their offsets |
| Reports.ClosedFileIsReport | internal/source/decoder.go:119-152 | The converse: every file that parses as closed is the printing of a valid report |
| Reports.WaitingMayClose | internal/source/decoder.go:119-146 | The bytes of a report that waits for more, but for a malformed last one, are the beginning of a closed report |
| Reports.InvalidNeverCloses | internal/source/decoder.go:119-152 | An invalid file is not the beginning of any report, under any size limit |
| Reports.RefusedNeverCloses | internal/source/decoder.go:119-152 | A file that is invalid or too large is not the beginning of a report within the limit |
| Decoders.Decoder.New | internal/source/decoder.go:62-68 | Creating a decoder fails exactly for limits that are not positive |
| Decoders.Decoder.Append | internal/source/decoder.go:72-89 | Only the next bytes are accepted; behind a closing bracket, committed or pending, only whitespace; a refusal changes nothing |
| Decoders.Decoder.ConsumeOpeningBracket | internal/source/decoder.go:187-199 | Consumes the opening bracket, or refuses with the tail that the whole-file parse has |
| Decoders.Decoder.DecodeObject | internal/source/decoder.go:206-225 | The object at this place, within the limit; or else none can start there whatever follows, or none within the limit can although more than the limit is there, or none is there yet within the limit |
| Decoders.Decoder.FrameRecord | internal/source/decoder.go:119-165 | Hands out exactly the first record of the buffer and makes it pending, or closes an empty report |
| Decoders.Decoder.Next | internal/source/decoder.go:103-166 | The answer is the verdict of the parse of all bytes fed so far after the records committed so far: independent of chunks and of earlier calls; a pending record is handed out again |
| Decoders.Decoder.Commit | internal/source/decoder.go:168-185 | Succeeds exactly for the pending token and end offset; the boundary moves to the record's end, or to the end of the file once closed; otherwise nothing changes |
| Decoders.Decoder.SkipWhitespace | internal/source/decoder.go:236-246 | The loop finds the first byte that is not whitespace |
| Decoders.Decoder.DeliveredIsPrefix | internal/source/decoder.go:168-185 | In every reachable state, for arbitrary bytes, the committed records are the first records of the file, all others lie behind the committed offset, and a pending record is the next one |
| Decoders.Decoder.CommittedIsParsed | internal/source/decoder.go:95-97 | The committed records are exactly those of the parse of the committed bytes |
| Decoders.Decoder.OfferedIsExact | internal/source/decoder.go:72-89 | Of a file offered completely, accepted or refused, a decoder with nothing more to deliver has delivered all records, unless something other than whitespace follows the closing bracket and the last record had not been committed when it arrived; then all but the last |
| Decoders.Decoder.RefusedIsInvalid | internal/source/decoder.go:76-85 | A refused chunk shows that the file is invalid behind its closing bracket, whatever follows, and that its records are those committed and the pending one |
| Chunking.InterruptedRoundTrip | internal/source/decoder.go:72-185 | Whatever chunks of a report have arrived and however Next and Commit were interleaved, the committed records are the first of those whose delimiter has arrived, and Next answers with the following one, then with the right status, never with an error; the next bytes are never refused |
| Chunking.NextBytesAreAccepted | internal/source/decoder.go:72-89 | No chunk of the next bytes of a report is refused, also behind a pending or committed closing bracket |
| Chunking.SameBytesSameRecords | internal/source/decoder.go:72-185 | Two decoders fed the same bytes in different chunks agree on every record and on the next answer |
| Chunking.DeliverAll | internal/source/decoder.go:103-185 | Delivering and committing until nothing is handed out any more terminates, closed exactly if the bytes so far parse as closed |
| Chunking.OfferInTwo | internal/source/decoder.go:72-185 | A file offered in two chunks delivers all records; but all except the last if it is invalid behind its closing bracket and the first chunk was not a closed report |
| Chunking.ChunksAgreeExactly | internal/source/decoder.go:76-85 | All ways of cutting a file in two deliver the same records if and only if nothing but whitespace follows its closing bracket |
| Chunking.ChunkingMattersBehindTheEnd | internal/source/decoder.go:150-152 | A byte behind the closing bracket withholds the last record if it arrives together with the bracket, and not if it arrives later |
| Readers.GenerationReader.ClosedIsFinal | internal/source/reader_linux.go:86-88 | A closed report has no further records, whatever is appended to its file |
| Readers.GenerationReader.ApplyIssued | internal/source/reader_linux.go:74-84 | A record that the handler accepts is committed at once and enters the log once; a refused one stays pending |
| Readers.GenerationReader.ApplyNext | internal/source/reader_linux.go:70-92 | One round of the loop delivers one record or reports the tail of everything read; before more is read, the buffer is whitespace apart from one span within the limit |
| Readers.GenerationReader.ReadMore | internal/source/reader_linux.go:94-126 | Reads on where the decoder stands; at the end of the file nothing is read; what is held then is whitespace apart from one span within the limit, and one read of at most 64 KiB behind it |
| Readers.GenerationReader.Drain | internal/source/reader_linux.go:61-128 | Terminates against a writer that keeps appending; without an error every complete record of the file as it is now has been handled, once and in order; counts are exact; an error is that of the one call that failed, of the record refused, or of the report itself; failures of Commit and Append and truncation cannot occur |
| Ordering.BeforeIsTotal | internal/source/order_linux.go:12-28 | The comparator separates any two entries, one way |
| Ordering.OrderGenerationsOldestFirst | internal/source/order_linux.go:10-30 | The result is a sorted permutation |
| Ordering.SortedIsUnique | internal/source/order_linux.go:12-29 | There is only one such result, whatever the order of the input or the map iteration |
| Ordering.CreationOrderSurvivesEviction | internal/source/registry_linux.go:39-43 | Over any number of rotations, at most one between scans, stored rotations order all generations by creation, evicted ones included |
| Ordering.LateScanKeepsOrder | internal/source/registry_linux.go:39-43 | After missed rotations creation order survives if and only if at most one was missed or no known generation lost its name |
| Ordering.CutScanBreaksOrder | internal/source/scan_linux.go:23-73 | A rotation during a scan may break creation order for good: the generation that is missed and then loses its name keeps too low a position |
| CreationOrder.MergeIsScan | internal/source/registry_linux.go:39-43 | Registering a scan of one moment of the directory takes exactly the step of the numbered rotations |
| CreationOrder.OldestFirstIsCreationOrder | internal/source/registry_linux.go:60-79 | With tracked rotations and rising times, the order in which readers are drained is exactly the known generations, each once, in creation order |
| CreationOrder.RotationKeepsWritten | internal/source/registry_linux.go:39-43 | A rotation, name by name, yields the names of one generation more, ten at most, and changes no file |
| CreationOrder.AppendKeepsWritten | internal/source/registry_linux.go:39-43 | Appending to the newest report keeps the others and the times of all within their spans |
| Registries.MergeIsHighest | internal/source/registry_linux.go:39-43 | After registering, a rotation is the highest ever seen for its generation: never lower than before, and one that was seen |
| Registries.ScanReports | internal/source/scan_linux.go:23-73 | Each generation once, with the time its file had when it was opened, which is after the process was created; if nothing is queued afterwards or no step of the writer changed a name meanwhile, exactly the generations that names lead to, each with its highest name, whatever the enumeration order; every descriptor opened is handed out or closed; it fails only if a call failed or a report is older than the process, and always then |
| Registries.GenerationRegistry.KeepReader | internal/source/registry_linux.go:40-46 | A known generation keeps its reader and decoder state, its rotation does not fall, and the second descriptor is closed |
| Registries.GenerationRegistry.AddReader | internal/source/registry_linux.go:48-55 | A new generation gets a blank reader that owns the descriptor; the others stay as they are |
| Registries.GenerationRegistry.Register | internal/source/registry_linux.go:25-58 | Every descriptor of a scan ends up open exactly if the reader of its generation owns it; known readers are untouched; a closed registry closes everything |
| Ordering.SortedSetIsStrict | internal/source/order_linux.go:12-28 | Sorting different generations leaves no ties |
| Registries.GenerationRegistry.OldestFirst | internal/source/registry_linux.go:60-79 | Every reader once, each strictly before the next by rotation, time, device and inode, whatever the map iteration order |
| Registries.GenerationRegistry.DrainAll | internal/source/live_linux.go:58-67 | Without an error every reader ends at its last complete-record boundary, and if the queue is still empty those that a name leads to have handled everything; the log grew by exactly what was committed, generation after generation, oldest first; counts leave out exactly the records that the drain that failed committed and the bytes that it read |
| Registries.GenerationRegistry.TakeTurn | internal/source/live_linux.go:59-66 | Draining the next reader of the order keeps all of this, also when it fails |
| Losses.StuckHasOne | internal/source/live_linux.go:59-66 | Whoever is stuck in a report of one object and two commas, however long it is and whatever was read, has handled exactly one record |
| Losses.SomethingBehind | internal/source/live_linux.go:59-66 | Such a report is faulty and has a record for a new reader, so the condition for exact counts fails |
| Losses.CountFallsShort | internal/source/live_linux.go:59-66 | A new reader of such a report, stopped by it: a tally of a session whose count falls short by the one record |
| Losses.LoseOne | internal/source/live_linux.go:59-66 | A pass over such a report never succeeds; if it fails because of the report, one record has been handled and none is counted |
| Progress.InTurnOrders | internal/source/live_linux.go:58-67 | Of two calls added in turn, the earlier one belongs to a generation that is not later in the order |
| Registries.GenerationRegistry.Watermarks | internal/source/registry_linux.go:81-88 | One watermark per reader, oldest first: its committed offset, last fingerprint and closed flag |
| Registries.OpenMarksOf | internal/source/drain_linux.go:70-74 | Leaving the closed ones out of the watermarks leaves exactly those of the readers that have not closed, in order |
| Registries.GenerationRegistry.Close | internal/source/registry_linux.go:90-104 | Every owned descriptor is closed and no reader remains |
| Worlds.MutateEvolves | internal/source/watch_linux.go:18-26 | Every step of the writer that changes the directory or a named report leaves an event or an overflow in the queue; files only grow |
| Worlds.Environment.Interfere | internal/source/watch_linux.go:18-26 | The writer has taken the first so many of its steps; if the queue is empty afterwards, names and named contents are as they were |
| Worlds.Environment.OpenReport | internal/source/directory_linux.go:92-142 | Opens what the name leads to now, with the time its file has now, if that is after the process was created; refuses it otherwise, and says what failed |
| Worlds.DirectoryWatcher.Drain | internal/source/watch_linux.go:75-106 | Ends with an empty queue and the union of all flags taken: the events that were queued, and behind them at most one for each step taken meanwhile; without any event, nothing changed since the call; it fails exactly if the watch is closed or reading it fails |
| Events.EventsRoundTrip | internal/source/watch_linux.go:129-147 | Walking an encoded event list yields exactly those events, also across a split at event boundaries |
| Events.CollectDirectoryEvents | internal/source/watch_linux.go:127-150 | The walk stays in bounds, joins the flags of exactly the whole events in front, and fails exactly on a truncated header or name |
| Events.FlagsOf | internal/source/watch_linux.go:140-147 | Changed means any event, overflowed and invalidated the bits of their masks |
| Sessions.SourceSession.Register | internal/source/registry_linux.go:25-58 | No descriptor leaks between scan and registry: afterwards open means owned by the reader of its generation; rotations are merged, known readers stay, new ones own what the scan opened |
| Sessions.SourceSession.Discover | internal/source/live_linux.go:45-53 | Scan and register: if the queue is empty afterwards, every generation that a name leads to has a reader; if the writer rests, exactly those are added; rotations are those merged with what the scan saw; nothing read or logged changes; it fails exactly if the scan does |
| Sessions.SourceSession.DrainReaders | internal/source/live_linux.go:58-67 | Draining keeps what is known of the directory |
| Sessions.SourceSession.TakeEvents | internal/source/live_linux.go:69-75 | The flags are those of the events that were queued and of those that arrive meanwhile; without any, nothing is missed at that moment; it fails exactly if reading fails or an event says that the watch is lost |
| Sessions.SourceSession.Pass | internal/source/live_linux.go:45-84 | One pass with the writer interleaved anywhere: only adds records in its mode, in the order of the readers; without an error all that the files held at its start has been read, and without a notification besides nothing is missed at its end; if the writer rests, everything named is known afterwards, and if it was before, the pass finds nothing new |
| Sessions.SourceSession.PublishCutover | internal/source/initialize_linux.go:128-131 | The cutover is the watermarks of all readers (offset, last fingerprint, closed), each reader once and at its boundary, oldest first; everything before is baseline |
| Sessions.SourceSession.BaselineStep | internal/source/initialize_linux.go:89-139 | One round: it finishes only if it has registered nothing and seen no notification, and a report is there; with nothing new and no report it waits |
| Sessions.SourceSession.ReadBaseline | internal/source/initialize_linux.go:89-140 | The rounds of the baseline end with nothing missed and a report found; against a writer that rests two looks at the context are enough, unless no report has a name |
| Sessions.SourceSession.Establish | internal/source/initialize_linux.go:89-140 | The baseline loop: when the cutover is published, nothing is missed and at least one report exists; an error has its reason: one call that failed, a faulty report, or the end of the context |
| Sessions.SourceSession.InitializeSource | internal/source/initialize_linux.go:46-141 | On success the session is live with nothing missed at the cutover; on any failure, which has its reason, every descriptor is closed |
| Sessions.SourceSession.LivePass | internal/source/live_linux.go:45-75 | One live pass: readers only move forward, only live calls are added, and counts leave out exactly what the drain that failed committed and read; without an error every reader has read all that its file held at the start |
| Sessions.SourceSession.CheckedPass | internal/source/live_linux.go:41-81 | The same under a context, with each queue overflow counted once |
| Sessions.NeedsLess | internal/source/live_linux.go:40-85 | A pass that has to be repeated leaves less to be done: twice the steps that the writer still takes, and whether all is known |
| Tallies.CountsAreExact | internal/source/live_linux.go:59-66 | When a report is to blame: records are counted exactly if and only if nothing was left to deliver behind the watermark that the failed drain started with, bytes if and only if the fault had been read before the call; for a report that was faulty before the call its bytes and its watermark of then decide |
| Tallies.TallyOn | internal/source/live_linux.go:40-85 | Counts add up over passes, and what a later pass loses is lost to the whole call |
| Sessions.SourceSession.Reconcile | internal/source/live_linux.go:20-86 | Whenever it returns without an error, every complete record of every report reachable by name has been handled, every reader stands at its boundary, the counts are exact, and after new generations another pass has been made; with an error the counts leave out exactly what the drain that failed committed and read. It does succeed: with two looks at the context for each step that the writer still takes, and two more, only a call that failed, a refused record, a stale or faulty report or a lost watch can stop it; a closed session refuses |
| Sessions.SourceSession.CurrentWatermarks | internal/source/live_linux.go:88-102 | One watermark per reader with its offset, fingerprint and closed flag, oldest first; none once closed |
| Sessions.SourceSession.DrainSource | internal/source/drain_linux.go:25-83 | Whole drain: without an error exact counts, nothing missed, and at least two reconciliations; unclean are exactly the watermarks of the generations without a committed closing bracket, also when the last reconciliation was canceled |
| Sessions.SourceSession.ListUnclean | internal/source/drain_linux.go:70-74 | Exactly the watermarks that are not closed |
| Sessions.SourceSession.Run | internal/source/run_linux.go:30-76 | Conservation over the run: live plus drain counts and what a failed drain lost equal the live handler calls, the growth of read offsets and of the registry; each wait after which the source still lives is followed by a reconciliation, which is counted; without an error the source has ended, nothing is lost or missed and the unclean set is exact |
| Sessions.SourceSession.Wait | internal/source/wait_linux.go:19-72 | Waiting consumes no event; it fails on a closed watcher, at the end of the context, or if polling fails |
| Sessions.SourceSession.Close | internal/source/initialize_linux.go:170-197 | The watcher and every descriptor that was ever opened are closed; closing again does nothing |
| Sessions.Context.Err | internal/source/live_linux.go:41-43 | A context is done exactly if no checks are left, and then stays done; every check uses one up |
| Counters.State.Apply | internal/metrics/state.go:46-79 | One record applied: increments and resets in order, as observing its values one after the other; each baseline becomes the last value of its series; gauges as their updates say |
| Counters.State.ClearGauges | internal/metrics/state.go:103-114 | Every gauge is removed and listed once; baselines stay |
| Counters.TotalsArePositiveDifferences | internal/metrics/state.go:51-69 | For every run and series: the total is the sum of the positive live differences, the resets account for the negative ones, the baseline is the last value |
| Counters.EmissionsAreNeighbours | internal/metrics/state.go:51-69 | For every run and series: the increments are exactly the live neighbours that rise, the resets exactly those that fall, in order, each with its values; an unchanged value is neither |
| Counters.TotalsAreLowerBounds | internal/metrics/state.go:51-69 | Deleting any set of live observations never increases the total of any series |
| Counters.CutoverSelectsSuffix | internal/metrics/state.go:54-56 | Where baseline mode ends does not change the final baselines and selects exactly a suffix of the emissions |
| Counters.BaselineEmitsNothing | internal/metrics/state.go:54-56 | Baseline mode emits neither increments nor resets |
| Counters.SeriesAreIndependent | internal/metrics/state.go:51-69 | A series emits, and is reset, as it would alone |
| Counters.BaselineTelescopes | internal/metrics/state.go:51-69 | Over any live stretch, baseline before plus increments minus drops is the baseline after |
| Counters.GaugesHoldLast | internal/metrics/state.go:71-76 | A gauge holds the last of its updates |
| Counters.GaugesKeepOthers | internal/metrics/state.go:71-76 | A gauge without an update keeps its value |
| Counters.IncrementsAreExact | internal/metrics/state.go:65-68 | From values of at most 2^53 every delta is positive and at most 2^53 |
| Processing.Processor.Process | internal/metrics/processor.go:52-82 | A record that does not decode changes nothing but the statistics; otherwise counters and gauges are the result of the log; the statistics grow by exactly one outcome, the ignored and invalid values, and the resets |
| Processing.Processor.Accept | internal/metrics/processor.go:64-81 | The observer is told every increment of the record once, if attached |
| Processing.Processor.EndSession | internal/app/run_linux.go:82-84 | All gauges go, each listed once; baselines, emissions and the log stay |
| Processing.GaugesIgnoreModes | internal/metrics/state.go:71-76 | Gauges depend only on the texts of the records, not on where baseline mode ends nor on the reports |
| Records.NormalizeRecord | internal/source/normalizer.go:215-301 | The component snapshots of a decoded record in message order, then its memory usage. Counters and gauges are exactly what the keys say, by a table of series: each counter comes from a key that holds that exact integer, and each such key has one; values of unknown keys are ignored, all others invalid; no record exactly if the text does not decode |
| Records.CountersAreExact | internal/source/normalizer.go:414-429 | Whatever a record is decoded from, its counters are integers of at most 2^53 |
| Processing.Processor.AttachObserver | internal/metrics/processor.go:110-123 | Attached once; nothing emitted before is replayed |
| Processing.Processor.RecordStats | internal/metrics/processor.go:125-139 | One outcome counter and the value counters grow; the others stay |
| Processing.RecordHandler.Handle | internal/metrics/processor.go:93-95 | A record enters the log exactly if it was applied; it is refused only if it does not decode, or for a reason of the handler that is on record |
| Processing.LogStep | internal/metrics/processor.go:64-68 | Accepting one more record emits what it emits from the baselines before it |
| Processing.EmittedIsExact | internal/metrics/otel.go:100-114 | In every reachable state, whatever the records were decoded from, every increment lies in 1 to 2^53, so the int64 conversion is lossless |
| Processing.NothingEmittedBeforeCutover | internal/metrics/processor.go:110-123 | While every record was applied in baseline mode, nothing has been emitted |
| Normalizer.SourceIntegerIsExact | internal/source/normalizer.go:414-429 | An integer is accepted if and only if it is the exact value of the number token and lies in 0 to 2^53, however the number is spelled |
| Normalizer.DecimalIsExact | internal/source/normalizer.go:414-429 | An integer written out in decimal digits denotes itself |
| Normalizer.PointMoves | internal/source/normalizer.go:414-429 | Moving the point by one digit is one in the exponent |
| Normalizer.TrailingZero | internal/source/normalizer.go:414-429 | A zero at the end of a fraction changes nothing |
| Normalizer.Normalized.AddCounter | internal/source/normalizer.go:364-375 | A key that holds an exact integer of at most 2^53 becomes one counter with that value, any other one invalid value; exactness is kept |
| Normalizer.Normalized.AddIntegerGauge | internal/source/normalizer.go:377-388 | The same for integer gauges |
| Normalizer.Normalized.AddFormattedGauge | internal/source/normalizer.go:390-412 | The same for formatted gauges |
| Normalizer.Normalized.IgnoreUnknown | internal/source/normalizer.go:228-232 | Counts exactly the keys outside the known ones |
| Normalizer.Normalized.NormalizeAzStorage | internal/source/normalizer.go:227-246 | Every key is accounted for once; the counters and the gauge of the component, in order |
| Normalizer.Normalized.NormalizeLibfuse | internal/source/normalizer.go:248-265 | Every key is accounted for once; one counter per operation present, in table order, and the open handles |
| Normalizer.Normalized.NormalizeFileCache | internal/source/normalizer.go:267-280 | Every key is accounted for once; two counters and two formatted gauges |
| Clock.CreationTimeIsExact | internal/source/identity_linux.go:242-251 | Boot time plus the floor of the start ticks in nanoseconds, no intermediate value wraps, refused exactly on int64 overflow of the seconds |
| Clock.CreationTimeIncreases | internal/source/identity_linux.go:242-251 | Later start ticks give a strictly later creation time |
| Progress.MovedMore | internal/source/live_linux.go:58-67 | Draining one reader keeps the relation between log, committed records, files and totals |
| Progress.SettledOn | internal/source/live_linux.go:82-84 | What a drained reader has settled stays settled as long as the queue stays empty |
| Progress.AllKnownOn | internal/source/live_linux.go:82-84 | What a scan has found stays complete as long as the queue stays empty |
| EndToEnd.DeliveredFirst | internal/source/reader_linux.go:72-84 | In every reachable state of a session a reader's committed records are the first ones of its file as it is then |
| EndToEnd.MarksAreBoundaries | internal/source/initialize_linux.go:128-131 | At the cutover each watermark says where the last complete record of what was read ends, the digest of its text, and whether the closing bracket has been read |
| EndToEnd.BehindTheBoundary | internal/source/initialize_linux.go:128-131 | Records committed after a reader stood at its boundary start at or behind it |
| EndToEnd.ExactlyOnceByMode | internal/source/live_linux.go:58-67 | For every generation the accepted records are the first of its file as it is now, each once, in order; baseline ones end at or before its cutover offset, live ones start at or after it |
| EndToEnd.CallsOfFile | internal/source/initialize_linux.go:106-131 | The handler calls for one report, with their modes, are determined by its committed records and its cutover offset |
| EndToEnd.GatheredIsLog | internal/source/live_linux.go:58-67 | A log that goes through generations one by one is the calls of each, one generation after the other |
| EndToEnd.LogOfReports | internal/source/initialize_linux.go:106-131 | A log that goes through reports one by one is determined by the committed records of each and the cutover |
| EndToEnd.EmittedTotalIsCommittedTotal | internal/metrics/state.go:51-69 | At any time, for any list of reports handled one by one: the total emitted for a series is the sum of its positive differences over the parses of the committed prefixes that end after the cutover offset of each report |
| EndToEnd.EmittedTotalIsFileTotal | internal/metrics/state.go:51-69 | Once these reports have been handled completely, the same over the whole files: a function of their bytes and the cutover alone |
| Exporter.AttachObserver | internal/metrics/processor.go:110-123 | Attached right after the cutover, when nothing has been emitted |
| Exporter.Start | internal/app/run_linux.go:38-65 | Session and pipeline, with nothing missed at the cutover and the observer attached; if either fails, for a reason, every descriptor is closed |
| Exporter.Run | internal/app/run_linux.go:74-87 | The observer stays attached; gauges go when the source has ended; without a failure nothing is missed or lost and the unclean set is exact; a failure is reported exactly if it is not the end of the context |
| Exporter.ToldTotalIsFileTotal | internal/telemetry/pipeline.go:115-118 | What the observer has been told of a series in the end is its total over the whole files behind the cutover |
| Runs.Rotate | internal/source/registry_linux.go:39-43 | A rotation, done exactly if its time is after all others and its generation a new one, changes no file and leaves the reports of one generation more |
| Runs.TurnFollows | internal/source/live_linux.go:45-84 | What a turn scans and handles keeps every generation tracked, times within their spans, all but the newest generation of the scan finished, and the log in creation order, wherever between two scans a rotation falls |
| Runs.TakeTurn | internal/source/live_linux.go:45-84 | A scan, then drains and notifications with at most one rotation interleaved: if it succeeds, all of this holds again; without a notification nothing is missed; a turn in which the writer rests leaves nothing queued, and after another it ends without a notification |
| Runs.FollowWriter | internal/app/run_linux.go:44-77 | Whole runs over any number of rotations, at most one from one scan to the next: baseline turns, cutover, observer, live turns; if nothing fails, all reports have been handled in creation order, evicted ones included; after two turns in which the writer rests it ends quietly |
| Runs.RunFromEmpty | internal/app/run_linux.go:44-77 | The same from a new session in a directory without reports. Unless a report is faulty or something outside fails, it succeeds; and if it ends quietly, the observer has been told the total of every series over all files since the first one, in creation order, behind the cutover |
| Runs.AllHandled | internal/source/live_linux.go:82-84 | If nothing is missed in the end, every generation since the first scan has been handled completely, those without a name included |
| Runs.TotalInCreationOrder | internal/metrics/state.go:51-69 | What the observer has been told of a series is its total over the committed parts of all reports in creation order |
| Runs.FileTotalInCreationOrder | internal/metrics/state.go:51-69 | If nothing is missed in the end, the same over all whole files |

## Left out

- OpenTelemetry SDK, OTLP exporter, pipeline, resources, self and process metrics: thin wrappers over libraries that are not part of this model. `Processing` keeps one addition per increment.
- System calls, permissions, symbolic links and path names: a directory maps slots to generations, slots 0 to 9 stand for the report names and higher ones for other files; a file is a byte sequence. Each scan opens names one at a time, with writer steps in between.
- Truncation: the writer only appends, so the truncation branch of the drain loop is kept and proved unreachable. A change and its notification are one atomic step, and generation IDs are not reused.
- Mutexes, timers and deadlines: operations are steps with writer steps in between; a context is done after any finite number of checks; deadlines, the identity lookup and failing system calls are nondeterministic choices, and the failures are on record. The writer takes any finite number of steps.
- Nil arguments, missing options and the `Report == nil` branches of the registry: ruled out by types.
- Sessions.SourceSession.InitializeSource: the handler's history is empty when the session starts, as in the program, where the processor is new.
- EndToEnd.EmittedTotalIsFileTotal: for reports that are handled one by one; when two reports alternate in the log their order depends on the schedule, and `EndToEnd.ExactlyOnceByMode` states what holds for each. `Runs` shows that under a writer of one report at a time they never alternate.
- Runs.FollowWriter: a rotation during a scan is not covered, because the scan may then miss a report whose name it has looked at already, and creation order may be lost for good (`Ordering.CutScanBreaksOrder`). Turns are called one after the other, each with the scan and the drains of `Sessions.SourceSession.Pass`, where the source loops until a pass finds nothing new.
- Sessions.Context.Err: every context is done after finitely many checks; one that never ends is not modelled, because the loops that only it would end do not terminate then.
- SHA-256: an ideal digest that determines its text.
- Widths of `nextToken`, offsets and statistics counters: unbounded here.
- Limits inside Go's JSON and rational libraries (nesting depth, exponent size): the grammar is RFC 8259 and rationals are exact.
- Records.NormalizeRecord: decoding a text into snapshots is a parameter, and so are how many other fields and messages count as ignored or invalid; keys are an enumerated type; the formats of gauges are parameters and gauge values are real numbers.
- Exporter.Run: closing the session at the end is `Sessions.SourceSession.Close`, a call of its own here.
- Source events sent to the session observer (rotations, discontinuities): notifications without effect on the state.
- Ordering.OrderGenerationsOldestFirst: inserts one by one where the source calls the library sort; the result is the same because it is unique.
- Baseline and live loops share one body here (`Sessions.SourceSession.Pass`), which both source loops spell out.
- Clock.CreationTimeIsExact: whole seconds beyond the largest int64 are refused even if a negative boot time would bring the sum back into range, as in the code.
- Flag parsing, configuration, endpoint checks, metric descriptor tables, logging: no state or arithmetic worth proving here.
