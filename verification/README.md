# Onda: archives, document synchronisation, batches and host controls

Dafny models of the self-contained pieces of Onda that decide something hard by
themselves, with proofs of what they promise. `dafny verify dfyconfig.toml` checks them all.

- **Project archives** (`Bytes`, `Crc32`, `Text`, `Sorting`, `ArchivePaths`, `PathShape`,
  `ZipFormat`, `ZipWriter`, `ZipReader`, `ZipRoundTrip`, `ZipGuarantees`, `ZipExact`). The
  browser writes a project as a stored ZIP archive and reads ZIP archives back. Main results:
  exactly which bytes are read and as what, by field offsets alone; exactly which inputs are
  archived; the exact condition under which reading returns what was written; and detection
  of every one-byte corruption of file data. Texts are UTF-16 and encoded to UTF-8
  as the browser does it. Unicode normalisation, case folding and collation are arbitrary
  functions, so the results hold for any.
- **Language-server synchronisation** (`LspProtocol`, `LspSync`, `LspSafety`, `LspDrain`,
  `LspClose`, `LspFlush`, `LspAnalysis`, `LspOrder`, `LspClient`). The client's promise queue,
  debounce timers and flushes are a state machine over the stretches between awaits; the server
  is a strict one that applies messages in send order. Main results: legal sessions in every
  interleaving, no lost update except by a close, exactly what a close drops, what a flush waits
  for and brings to the server, and termination in the last requested project. `LspClient` is
  the object itself, its methods proved to take the machine's steps.
- **Occurrence batches** (`OccurrenceBatch`, `BatchCursor`). The C and the Rust parser of the
  packed batches both implement one abstract step; indexed access refines iteration;
  iteration inverts the layout.
- **Project buffer overrides** (`BufferOverrides`, `BufferReading`, `BufferComposition`).
  Content-addressed deduplication, exactly which uploads are read and what an override makes of
  them, the incremental byte budget, and one list of uploads that does the work of two.
- **Parameter domains** (`ParamDomain`, `ParamAcceptance`), in exact real arithmetic, from the
  laws of the exponential and the logarithm: exactly which domains are accepted, constraining,
  and the conversions.
- **Integer drag** (`DragGesture`), **ordered float keys** (`BitOperations`, `OrderedBits`),
  **MIDI inputs** (`MidiNotes`, `MidiLabels`, `MidiInputs`) and **waveform overviews** (`Waveform`).

Code that updates state is modelled by methods and classes with loops and fields as in the
source, each proved against a specification; the lemmas are about the specifications.

Where the code does less than one might expect, the model follows the code and the exact
condition is proved: paths that do not survive UTF-8 (`RoundTripExactly`), documents closed
while their text waits for a timer or in the queue (`NoLostUpdate`, `CloseDropsIff`), overview
buckets without a finite sample (`MinimumExactIff`), notes held when a program stops declaring
`note_off` (`ReleaseKeepsInStepIff`), and labels that change while a MIDI port is closing
(`Select`, with the interleaving of `LosesChosenPort`).

## Model

| member | source | states |
|---|---|---|
| Crc32.Crc32 | ui/playground/project-archive.js:344-353 | The byte and bit loops compute the checksum `Crc32.Checksum`, the register after all bytes, complemented; `CheckValue` and `ChecksumDetects` are about it |
| Crc32.CheckValue | ui/playground/project-archive.js:344-353 | The checksum of the ASCII digits 1 to 9 is 0xCBF43926, the published check value of the CRC of section 4.4.7 of APPNOTE 6.3.10: polynomial, start value and final complement are the right ones |
| Crc32.BitRoundInjective | ui/playground/project-archive.js:349 | One bit round is injective on 32-bit words |
| Crc32.ChecksumDetects | ui/playground/project-archive.js:344-353 | Changing any one byte of any string changes its checksum |
| Bytes.U32RoundTrip | ui/playground/project-archive.js:143-149 | A 32-bit little-endian field gives back the value modulo 2^32, so exactly the values below 2^32 are stored without loss |
| Bytes.Concatenate | ui/playground/project-archive.js:334-342 | The parts land one after another in a buffer of the announced size, zeros behind them; a size below their sum is the caller's error, as it is in the source |
| Text.DecodeEncode | ui/playground/project-archive.js:1-2 | Decoding what was encoded never fails and gives the text with lone surrogates replaced and one leading byte order mark removed |
| Text.CleanIsIdentity | ui/playground/project-archive.js:1-2 | Text survives encoding and decoding if and only if it has no lone surrogate and no leading byte order mark |
| Text.DecodesExactly | ui/playground/project-archive.js:1-2 | Decoding is strict UTF-8: it succeeds exactly on the encodings of scalar values, never on overlong forms or surrogates, and drops one leading byte order mark |
| Text.EncodedExamples | ui/playground/project-archive.js:1-2 | The examples of table 3-4 of the Unicode Standard, one value of each length |
| ArchivePaths.PathRegistry.Register | ui/playground/project-archive.js:312-325 | The ancestor and descendant scans accept a path exactly when its key differs from every registered key and no file lies above or below it; a refused path leaves the map alone |
| ArchivePaths.AcceptedIffCollisionFree | ui/playground/project-archive.js:312-325 | A whole sequence of entries is accepted if and only if keys are pairwise distinct and no file's key is a proper path prefix of another key, for any collision-key function |
| ArchivePaths.AcceptanceIsOrderIndependent | ui/playground/project-archive.js:312-325 | A sequence of entries is accepted if and only if each permutation of it is |
| PathShape.ComponentsJoin | ui/playground/project-archive.js:304 | The parts of a path, joined by slashes, are the path again, and none holds a slash |
| PathShape.ComponentIffStretch | ui/playground/project-archive.js:304 | The parts are exactly the stretches of the path between slashes or its ends |
| PathShape.PortableIffPlain | ui/playground/project-archive.js:296-310 | A path is portable if and only if it neither starts nor ends with a slash and has no two in a row, no stretch between slashes is `.` or `..` or longer than 255 bytes, it holds no backslash and no drive prefix, takes at most 16384 bytes and is in normal form |
| ZipFormat.LocalHeaderFields | ui/playground/project-archive.js:141-151 | Every field of a local header read back at its offset of section 4.3.7, the name behind them |
| ZipFormat.CentralHeaderFields | ui/playground/project-archive.js:154-166 | Every field of a central directory header read back at its offset of section 4.3.12 |
| ZipFormat.EndRecordFields | ui/playground/project-archive.js:173-179 | Every field of the end record read back at its offset of section 4.3.16 |
| ZipWriter.BuildLocalHeader | ui/playground/project-archive.js:141-151 | The writes into the zeroed buffer produce the local header whose fields `LocalHeaderFields` gives |
| ZipWriter.BuildCentralHeader | ui/playground/project-archive.js:154-166 | The writes into the zeroed buffer produce the central header whose fields `CentralHeaderFields` gives |
| ZipWriter.BuildEndRecord | ui/playground/project-archive.js:173-179 | The writes into the zeroed buffer produce the end record whose fields `EndRecordFields` gives |
| ZipWriter.AcceptedFiles | ui/playground/project-archive.js:121-134 | The writer's checks pass, in whatever order, if and only if every path is portable, which `PathShape.PortableIffPlain` spells out, every directory is empty and the paths are collision-free |
| ZipWriter.BuildParts | ui/playground/project-archive.js:137-170 | The layout loop yields local parts, central parts with the offset of each local header, and the size of the local section; it stops only when that section outgrows the limit |
| ZipWriter.CreateZip | ui/playground/project-archive.js:119-183 | The whole writer: the error of the first refused input, the count or size limit, or the archive of the sorted files; `ZipExact` says of which inputs, `ZipRoundTrip` that they are read back |
| ZipReader.FindEndRecord | ui/playground/project-archive.js:288-294 | The backward scan returns the last offset within reach that carries the end signature, and fails exactly when there is none |
| ZipReader.ConsumeConcatenates | ui/playground/project-archive.js:266-285 | Inflation succeeds if and only if all chunks together fit the budget and the declared size, and then returns their concatenation |
| ZipReader.InflateRaw | ui/playground/project-archive.js:259-286 | The chunk loop writes each chunk inside the buffer of the declared size and returns the specified result, for any sequence of chunks a decompressor yields |
| ZipReader.ReadEntry | ui/playground/project-archive.js:205-245 | Local header, truncation, budget, method, size and checksum checks of one entry, every header read in bounds for every input; its result is characterized by `ZipExact.ContentsExactly` |
| ZipReader.ReadNext | ui/playground/project-archive.js:201-254 | One round of the central directory loop, the path map in step with the members taken |
| ZipReader.ReadZip | ui/playground/project-archive.js:185-257 | The whole reader on arbitrary bytes, with the result that `ZipExact.ReadZipExactly` characterizes |
| ZipRoundTrip.ShortName | ui/playground/project-archive.js:296-299 | A portable path, with a directory's slash, always fits the 16-bit name length |
| ZipRoundTrip.AcceptedWithinLimits | ui/playground/project-archive.js:119-183 | Whatever the writer accepts is laid out from a permutation of the inputs, with every count, size, offset and name length within its field |
| ZipRoundTrip.EndOfArchive | ui/playground/project-archive.js:288-294 | The scan finds the end record of a written archive at once, also when contents contain ZIP signatures |
| ZipRoundTrip.RecordReadBack | ui/playground/project-archive.js:201-254 | Reading the k-th record of a written archive gives the k-th file and moves to the next record, or refuses the decoded path |
| ZipRoundTrip.ReadAfterCreate | ui/playground/project-archive.js:119-257 | Reading any created archive gives exactly the decoded non-directory paths with their contents, or refuses if the decoded paths are not portable and collision-free; independent of input order and collation |
| ZipRoundTrip.RoundTripExactly | ui/playground/project-archive.js:119-257 | For every file set the writer accepts: the reader returns exactly what was put in if and only if no file path has a lone surrogate or a leading byte order mark and the decoded paths are portable and collision-free |
| ZipRoundTrip.RoundTrip | ui/playground/project-archive.js:119-257 | With lossless paths, `readZip` after `createZip` returns exactly the non-directory paths with exactly their contents |
| ZipGuarantees.ReadZipSound | ui/playground/project-archive.js:185-257 | For any bytes: if reading succeeds, the archive is within the limit, as many entries were taken as the end record counts, each matching its recorded size and CRC, together within `MAX_ARCHIVE_BYTES`, on a portable collision-free path set, and the result holds exactly the files among them |
| ZipGuarantees.OneByteCorruptionIsRefused | ui/playground/project-archive.js:229-245 | Changing any one data byte of any file of any created archive makes reading fail |
| ZipGuarantees.MarkedPathIsNotReturned | ui/playground/project-archive.js:1-2 | A file whose path starts with a byte order mark is accepted by the writer but not returned under that path |
| ZipExact.ContentsExactly | ui/playground/project-archive.js:205-245 | Reading an entry gives certain contents if and only if its data, at the local header it points to, is stored as them or inflates to them, their size and checksum are the recorded ones, and they fit the budget |
| ZipExact.DeflatedIsRead | ui/playground/project-archive.js:237-245 | A deflated entry in order is read as the concatenation of what the decompressor yields |
| ZipExact.OtherMethodsRefused | ui/playground/project-archive.js:237-242 | An entry with any other compression method than 0 and 8 is refused |
| ZipExact.RecordExactly | ui/playground/project-archive.js:201-254 | One round takes exactly the entry at the cursor and moves on by 46 bytes and the lengths of its name, extra field and comment |
| ZipExact.ReadsExactly | ui/playground/project-archive.js:185-257 | For any bytes: the reader takes certain entries if and only if the bytes lay them out behind the last end record in reach, stored or deflated, with any extra fields and comments, on plain paths that are not in each other's way, and within the limits of count and size |
| ZipExact.ReadZipExactly | ui/playground/project-archive.js:185-257 | The map returned is exactly the files of such a layout, and there is a result exactly if there is such a layout |
| ZipExact.CreatesExactly | ui/playground/project-archive.js:119-183 | The writer archives its inputs if and only if all paths are plain, directories empty, no two paths in each other's way, at most 8193 inputs, and headers, names and contents together at most 256 MiB; the archive is exactly that long |
| ZipExact.FirstRefusalDecides | ui/playground/project-archive.js:121-134 | The first input that is not acceptable decides the error |
| ZipExact.LimitsDecide | ui/playground/project-archive.js:136-182 | Acceptable inputs are refused exactly for their number or the size of the archive |
| ZipExact.ArchiveInOrder | ui/playground/project-archive.js:135 | With a consistent collation the archive lists the files in path order |
| Sorting.SortPermutes | ui/playground/project-archive.js:135 | Sorting with any comparator only rearranges |
| Sorting.SortOrders | ui/playground/project-archive.js:135 | With a consistent comparator the result is in order, and elements that compare as equal keep the order they came in |
| LspProtocol.ServedIffSessions | ui/playground/lsp-client.js:66-68 | A strict server accepts a message log if and only if every path's messages form sessions: an open at version 1, changes with versions 2, 3, ... each with a text differing from the last one, a close; and it then holds what the last messages said |
| LspProtocol.AfterClose | ui/playground/lsp-client.js:66-68 | In legal sessions no change of a document follows its close until it is opened again |
| LspSync.OrderCovers | ui/playground/lsp-client.js:73-77 | The comparator sort visits every source path exactly once |
| LspSync.EntryOpensLast | ui/playground/lsp-client.js:73-77 | The entry document comes after all others, for any collation |
| LspSync.OthersOpenInOrder | ui/playground/lsp-client.js:73-77 | The other documents come in collation order, if the collation is consistent |
| LspOrder.EntryIsOpenedLast | ui/playground/lsp-client.js:73-88 | In every reachable state in which a sync waits for an open, nothing is left to open if that was the entry, and otherwise nothing that collates before it |
| LspOrder.OldestIsClosedFirst | ui/playground/lsp-client.js:58-66 | In every reachable state with a close in flight, that is the oldest open document the project does not have |
| LspOrder.SyncLeavesUnchanged | ui/playground/lsp-client.js:78-95 | A sync, at its start and at every resumption, leaves a document alone whose text the project does not change: no message, no new timer, and a timer already running goes on |
| LspOrder.SameProjectDoesNothing | ui/playground/lsp-client.js:56-97 | Syncing the project that is there already does nothing at all |
| LspSync.OpenFromKeeps | ui/playground/lsp-client.js:78-95 | The opening loop, from any await to the next, keeps documents, timers and server in agreement |
| LspSync.CloseFromKeeps | ui/playground/lsp-client.js:62-71 | So does the closing loop, with the one document whose close is in flight set apart |
| LspSync.BeginChangeKeeps | ui/playground/lsp-client.js:163-175 | Sending a change brings the server's text and version up to the client's record |
| LspSafety.StepKeeps | ui/playground/lsp-client.js:56-175 | Every step of every interleaving of sync calls, configuration, timers, flushes and queued operations keeps the invariant |
| LspSafety.RunKeeps | ui/playground/lsp-client.js:56-175 | Hence every run does |
| LspSafety.ServerHearsSessions | ui/playground/lsp-client.js:62-97 | In every reachable state the messages sent form legal sessions per path, and the server holds every document at the version and text the client recorded as sent, save the one being closed |
| LspSafety.NoLostUpdate | ui/playground/lsp-client.js:56-175 | In every reachable state each document with unsent text has a pending timer or a queued send, and is not being closed, if and only if no document with unsent text has its close in flight |
| LspSafety.FlushFindsNoTimer | ui/playground/lsp-client.js:156-158 | A flush that resumes without a timer returns at once; the server then has the client's text if and only if none is unsent, which is certain unless a send is still queued |
| LspFlush.StartsInOrder | ui/playground/lsp-client.js:212-216 | A step starts the first queued operation, or starts none and at most appends to the queue |
| LspFlush.FlushWaits | ui/playground/lsp-client.js:156-157 | In every run a flush can resume if and only if as many operations have finished as had been queued when it was called |
| LspFlush.FlushTakesTimer | ui/playground/lsp-client.js:158-160 | A flush that finds the document's timer leaves no timer of it in the table or the host, queues its send last, and changes nothing else; the document is then open and not being closed |
| LspFlush.FlushBringsText | ui/playground/lsp-client.js:156-175 | From there on, in every run in which that send has started, the server was told the text the client held at that moment, one of those the document had or was given by syncs queued before, provided none of these closes it |
| LspFlush.FlushBringsThisText | ui/playground/lsp-client.js:156-175 | With nothing else queued or running it is the text the client had when the flush resumed |
| LspAnalysis.EveryCallAnnounced | ui/playground/lsp-client.js:49-54 | In every run, the notifications of changed watched files sent and still to be sent grow by exactly the calls that set the analysis options |
| LspClose.CloseDropsIff | ui/playground/lsp-client.js:62-69 | A close drops the client's text if and only if the document has unsent text when the close starts, waiting for a timer or in the queue: the server closes with the client's text exactly if the document was clean, and in every continuation no change follows until it is opened again |
| LspClose.QueuedSendIsDropped | ui/playground/lsp-client.js:163-165 | A reachable state in which a send is queued behind the sync that closes its document; two steps later the queue is empty, the document gone and nothing was sent |
| LspSafety.CloseWindowIsReachable | ui/playground/lsp-client.js:62-69 | The exception is real: a reachable state in which a changed document is being closed with neither timer nor queued send |
| LspSafety.AtRestServerMatches | ui/playground/lsp-client.js:56-97 | With queue and timers empty, the server's open documents and texts are exactly those of the last project synced |
| LspDrain.StepWeight | ui/playground/lsp-client.js:141-161 | Every step of the client itself decreases a weight over queued operations, the running sync, timers and flushes |
| LspDrain.StuckIffAtRest | ui/playground/lsp-client.js:212-216 | No step is possible exactly when queue, timers and flushes are empty: the queue never blocks before that |
| LspDrain.DrainReachesTheProject | ui/playground/lsp-client.js:56-216 | Without further calls, every run takes at most the weight many steps, and where it cannot go on the server holds exactly the last requested project |
| LspClient.OndaBrowserLsp.SyncProject | ui/playground/lsp-client.js:56-61 | Queues the snapshot, sends nothing |
| LspClient.OndaBrowserLsp.SetAnalysisOptions | ui/playground/lsp-client.js:49-54 | Queues the configuration change |
| LspClient.OndaBrowserLsp.CloseDocuments | ui/playground/lsp-client.js:62-71 | The first loop as written, up to its next await, takes the step of the state machine |
| LspClient.OndaBrowserLsp.OpenOrUpdate | ui/playground/lsp-client.js:78-95 | One round of the second loop: a new document is opened, a changed one gets its text and a timer, an unchanged one is passed over |
| LspClient.OndaBrowserLsp.OpenDocuments | ui/playground/lsp-client.js:78-95 | The second loop as written, up to its next await, takes the step of the state machine |
| LspClient.OndaBrowserLsp.ScheduleChange | ui/playground/lsp-client.js:141-148 | Replaces the path's timer by a new one |
| LspClient.OndaBrowserLsp.CancelPendingChange | ui/playground/lsp-client.js:150-154 | Removes the path's timer from the host and from the table |
| LspClient.OndaBrowserLsp.OnTimer | ui/playground/lsp-client.js:143-146 | A firing timer moves its work to the queue |
| LspClient.OndaBrowserLsp.FlushDocument | ui/playground/lsp-client.js:156-157 | Waits for the operations queued so far |
| LspClient.OndaBrowserLsp.ResumeFlushDocument | ui/playground/lsp-client.js:158-161 | Steals the timer, if there still is one, and queues the send; `LspFlush.FlushTakesTimer` gives the state this leads to |
| LspClient.OndaBrowserLsp.SendDocumentChange | ui/playground/lsp-client.js:163-175 | Skips clean or closed documents; otherwise next version, and the text recorded as sent before the notification |
| LspClient.OndaBrowserLsp.RunQueue | ui/playground/lsp-client.js:212-216 | Resumes the running operation or starts the next, in order; the object invariant is kept |
| OccurrenceBatch.ParseEncode | include/onda_processor_abi.h:240-292 | Parsing inverts the record layout (12-byte header, payload) for every list of records, in either byte order |
| OccurrenceBatch.EncodeParse | include/onda_processor_abi.h:240-292 | And every parsed byte string is exactly the layout of the records found: the slices tile it |
| OccurrenceBatch.LayoutExample | include/onda_processor_abi.h:240-292 | The layout by example in both byte orders: index, payload size, sequence number, payload |
| BatchCursor.WalkSplits | include/onda_processor_abi.h:259-290 | After k steps from the zero cursor the bytes from the cursor on parse as exactly the remaining records, or not at all if the batch is malformed |
| BatchCursor.VisitedBytes | include/onda_processor_abi.h:259-290 | And the bytes before it are exactly the layout of the first k records |
| BatchCursor.StepsTile | include/onda_processor_abi.h:240-292 | The slices the cursor steps over tile the used bytes: the first starts at zero, each is the layout of its record and ends where the next starts, the last ends with the used bytes |
| BatchCursor.IterationYieldsRecords | include/onda_processor_abi.h:240-292 | Iteration yields the batch's records in order and then the end |
| BatchCursor.MalformedIffSomeStepIs | include/onda_processor_abi.h:353-386 | A batch is malformed if and only if some cursor step from zero is |
| BatchCursor.EncodedBatchHoldsRecords | include/onda_processor_abi.h:240-292 | A batch whose used bytes are the layout of a list of records iterates as exactly that list |
| BatchCursor.HoldsExactly | include/onda_processor_abi.h:240-292 | A batch holds certain records if and only if their layout is exactly the used part of its storage, within its capacity, and their number the announced one |
| BatchCursor.StepExactly | include/onda_processor_abi.h:240-292 | A step from any cursor whatever yields a record if and only if the cursor is within the batch and the record's layout stands at its offset within the used bytes, and is the end exactly behind the last record and the last byte |
| BatchCursor.IndexedExactly | include/onda_processor_abi.h:342-387 | Indexed access gives the record of that index in the layout, nothing past the last one, and refuses a batch that is no layout |
| BatchCursor.ProcessorNext | include/onda_processor_abi.h:240-292 | The C step, with 32-bit unsigned arithmetic that never wraps, takes the abstract step; a failed or final step leaves the cursor unchanged |
| BatchCursor.HostNext | crates/onda_api/src/lib.rs:277-320 | The Rust step, with checked addition, takes the same abstract step and likewise leaves the cursor alone on failure |
| BatchCursor.ProcessorRecordAt | include/onda_processor_abi.h:342-387 | C indexed access: malformed for every index if the batch is malformed, else the index-th record or absent |
| BatchCursor.HostRecordAt | crates/onda_api/src/lib.rs:322-359 | Rust indexed access gives the same answer |
| BufferOverrides.ReadProjectBuffers | crates/onda_api/src/lib.rs:3419-3513 | The loop over the uploads computes the bindings, the deduplicated assets and the running total, or the first error in order, as `BufferReading.ReadsUploadsExactly` spells out |
| BufferOverrides.BudgetIsExact | crates/onda_api/src/lib.rs:3478-3509 | For distinct names and usable uploads, the incremental budget check rejects exactly when the sum over distinct assets exceeds the limit |
| BufferOverrides.ReadAllSound | crates/onda_api/src/lib.rs:3439-3512 | The loaded assets are exactly those bound, each under the identifier of its content, and the running total is their sum |
| BufferReading.ReadsUploadsExactly | crates/onda_api/src/lib.rs:3419-3513 | Reading succeeds if and only if there are at most 4096 uploads, their names readable and used once, their bytes valid, every new content decodable within 1 GiB and all distinct contents within 2 GiB; then every name is bound to the content of its own bytes; otherwise the error is that of the first upload not in order |
| BufferReading.OverridesExactly | crates/onda_api/src/lib.rs:3515-3568 | Overriding gives an image if and only if every upload is in order, the image is the one with the uploaded names bound to their contents, the others as before and no other content, these take at most 2 GiB and the image is accepted |
| BufferReading.FirstErrorRefuses | crates/onda_api/src/lib.rs:3470-3475 | The first upload that is not in order refuses the whole override with its error |
| BufferOverrides.MergedSound | crates/onda_api/src/lib.rs:3533-3554 | Merging sound parts gives exactly the assets the merged bindings reference, each under the identifier of its content |
| BufferOverrides.OverrideIsPrecise | crates/onda_api/src/lib.rs:3515-3568 | Overriding keeps sources, constants and unmentioned bindings, replaces or adds the others, and the result holds exactly the assets its bindings reference, whatever image construction accepts |
| BufferOverrides.OverridesCompose | crates/onda_api/src/lib.rs:3515-3568 | Overriding with A and then B equals overriding once with A updated by B, whenever the parts succeed |
| BufferComposition.CombinedBindings | crates/onda_api/src/lib.rs:3439-3512 | The uploads of A that B does not name, followed by B's, bind A updated by B |
| BufferComposition.OneListDoes | crates/onda_api/src/lib.rs:3515-3568 | Overriding once with that list, which stays within the byte budget, equals overriding with A and then B, unless the list has more entries than one call takes and is refused for that |
| BufferOverrides.WithBufferOverrides | crates/onda_api/src/lib.rs:3518-3569 | The merge loop with its incremental budget, in any visiting order of the old bindings, gives the merged image or the budget error exactly when the merged total exceeds the limit |
| ParamDomain.ConstrainMonotone | include/onda_processor_abi.h:659-676 | Constraining is monotone, with NaN treated as below everything |
| ParamDomain.ConstrainLands | include/onda_processor_abi.h:659-676 | Constraining lands within the bounds and within half a step of the clamped input, ties upwards, and on the declared grid if and only if the input does not snap beyond a maximum that is off the grid |
| ParamDomain.ConstrainToDeclaredPoint | include/onda_processor_abi.h:659-676 | Where the grid reaches the maximum, the result is one of the points counted from zero to the step count |
| ParamDomain.ConstrainIdempotent | include/onda_processor_abi.h:659-676 | Constraining twice is constraining once |
| ParamDomain.IntegerDomainsStayIntegral | include/onda_processor_abi.h:592-598 | Integer domains constrain to integers, always one of the declared points |
| ParamDomain.WarpInverts | include/onda_processor_abi.h:603-629 | The exponential warp undoes its inverse, which stays inside (0, 1) |
| ParamDomain.PlainRoundTrip | include/onda_processor_abi.h:678-753 | Plain to normalized to plain equals constraining, for linear, curved and logarithmic domains and every input including NaN and the infinities; which domains these are `ParamAcceptance.ConstrainsExactly` says |
| ParamDomain.NormalizedInUnit | include/onda_processor_abi.h:719-753 | The normalized value lies in [0, 1], at an end exactly when the constrained value is at that bound |
| ParamDomain.NormalizedToPlainMonotone | include/onda_processor_abi.h:678-717 | Turning a control up never turns the parameter down |
| ParamAcceptance.ConstrainsExactly | include/onda_processor_abi.h:477-601 | A value is constrained to a number if and only if the minimum is below the maximum and the domain is linear, with any curve or none, of floats that are continuous or in positive steps or of integers in steps that reach the maximum within the exact range, or it is logarithmic, of positive floats, continuous and without a curve |
| ParamAcceptance.ContinuousConstrains | include/onda_processor_abi.h:659-676 | A continuous domain, linear with any curve or logarithmic, keeps values inside the bounds, moves others to the nearer bound and takes what is not a number to the minimum |
| ParamAcceptance.SteppedKeepsPoints | include/onda_processor_abi.h:659-676 | A stepped domain keeps its points |
| ParamAcceptance.IntegersConstrain | include/onda_processor_abi.h:576-592 | Integers from m in n steps of s constrain to one of m + k * s, and keep each of them |
| ParamAcceptance.LinearConverts | include/onda_processor_abi.h:678-717 | A continuous linear domain without a curve is traversed evenly |
| ParamAcceptance.CurvedConverts | include/onda_processor_abi.h:603-616 | With a curve c the fraction of the width at u is expm1(c * u) / expm1(c), for either sign of c |
| ParamAcceptance.LogarithmicConverts | include/onda_processor_abi.h:703-710 | A logarithmic domain is traversed evenly in the logarithm |
| DragGesture.RoundingStep | ui/number-input.js:127-140 | Value and remainder after a movement add up to the saturated position, and the value is that position rounded half up |
| DragGesture.RoundsToNearest | ui/number-input.js:133 | Rounding gives the one integer at most half a unit away, halves going up |
| DragGesture.DragsFromThreePixels | ui/number-input.js:116-117 | Nothing is dragged if and only if every event stayed within three pixels of where the pointer went down |
| DragGesture.DraggableNumber.PointerDown | ui/number-input.js:170-189 | Starts a gesture at the pointer, only for the main button on an enabled field that is not being edited, and unless one is going on |
| DragGesture.DraggableNumber.Move | ui/number-input.js:114-151 | Each movement takes one step of a saturating real position, with the three-pixel threshold, the shift factor and the value stored when dragging starts; the field is given the rounded position |
| DragGesture.DraggableNumber.Finish | ui/number-input.js:152-169 | Release counts the last movement and commits the rounded position |
| DragGesture.DraggableNumber.MoveThrough | ui/number-input.js:114-151 | Over any sequence of events the gesture follows `FollowAll` of its own pointer's events, reporting the rounded position after each |
| DragGesture.MotionIsConserved | ui/number-input.js:123-140 | Fractional motion is conserved: while the bounds are not left, a drag has moved by exactly the distance its events asked for |
| DragGesture.DragIsPathIndependent | ui/number-input.js:114-140 | A drag within the bounds ends at the stored value plus the pointer's distance from the press point, or a tenth of it with the shift key, however the motion is cut into events |
| DragGesture.DragStaysInBounds | ui/number-input.js:108-113 | Position and value are within the bounds after every movement, whatever was stored |
| DragGesture.BoundsReverseAtOnce | ui/number-input.js:135-140 | After overshooting a bound by any distance the rest of the drag goes on as from the bound itself |
| BitOperations.Bitwise | scripts/generate-vector-math-references.py:27 | The operations `~`, `&`, `|`, `^` on unbounded integers, negative ones included, work bit by bit |
| BitOperations.OneBit | scripts/generate-vector-math-references.py:27 | With a power of two they test, set and flip one bit |
| BitOperations.MaskedNot | scripts/generate-vector-math-references.py:27 | Complementing within a mask subtracts the remainder from the mask |
| OrderedBits.AsArithmetic | scripts/generate-vector-math-references.py:25-34 | `ordered` and its inverse, written with the bit operations, as arithmetic on any integer |
| OrderedBits.OrderedInverts | scripts/generate-vector-math-references.py:25-34 | Key and pattern are in bijection, inverted by the expression in `adjacent` |
| OrderedBits.SizeIncreases | scripts/generate-vector-math-references.py:21-22 | Magnitude bits order floats by size, across binades, subnormals and infinity (section 3.4 of IEEE 754-2019) |
| OrderedBits.SizeOfOne | scripts/generate-vector-math-references.py:21-22 | The scale of the sizes: the least pattern above zero is one unit, one is 2^149 or 2^1074 units, infinity stands for 2^128 or 2^1024 |
| OrderedBits.KeysOrderValues | scripts/generate-vector-math-references.py:25-27 | Keys compare as the numbers do, in both directions, except that negative zero comes before positive zero |
| OrderedBits.ZerosAreAdjacent | scripts/generate-vector-math-references.py:25-27 | Directly before it |
| OrderedBits.NumbersAreContiguous | scripts/generate-vector-math-references.py:25-27 | The patterns that are numbers occupy the keys from negative to positive infinity, without a gap and more than two keys inside the word |
| OrderedBits.OutsideTheWords | scripts/generate-vector-math-references.py:30-34 | A negative key has no pattern to turn back into; keys past the greatest come round to the patterns of the lowest |
| OrderedBits.Adjacent | scripts/generate-vector-math-references.py:30-34 | The loop yields the five patterns with the keys around a float, modulo the word, itself in the middle; it fails exactly for the two lowest keys |
| OrderedBits.NumbersHaveNeighbours | scripts/generate-vector-math-references.py:30-34 | Around a number, infinities included, it neither fails nor comes round |
| OrderedBits.GreatestKeysComeRound | scripts/generate-vector-math-references.py:30-34 | The two greatest keys are not numbers, and past them the loop yields the two greatest words, not numbers either |
| OrderedBits.ConsecutiveKeysAreNeighbours | scripts/generate-vector-math-references.py:30-34 | Between two numbers with consecutive keys there is no number |
| MidiNotes.BendIncreases | ui/playground/midi.js:87-93 | Pitch bend is strictly increasing over its 14 bits, zero to one with one half at the centre |
| MidiNotes.ThreeByteMessages | ui/playground/midi.js:54-98 | The messages of three bytes, byte by byte, on every channel; a note-on with velocity zero is a note-off |
| MidiNotes.TwoByteMessages | ui/playground/midi.js:54-98 | The messages of two bytes |
| MidiNotes.RefusedMessages | ui/playground/midi.js:54-98 | Exactly which byte strings are no channel voice message |
| MidiNotes.KeysAreHeard | ui/playground/midi.js:220-231 | Pressing a key makes it sound, releasing it silences it, if these events are declared; otherwise nothing changes |
| MidiNotes.DispatchedIffDeclared | ui/playground/midi.js:220-231 | Which declared name lets which message through to the host |
| MidiNotes.PressedInOrder | ui/playground/midi.js:220-231 | Notes are remembered in the order they were pressed |
| MidiNotes.ReleasedInOrder | ui/playground/midi.js:197-204 | And let go in that order |
| MidiNotes.MessageKeepsInStep | ui/playground/midi.js:220-231 | A message keeps the notes the host hears equal to the active notes, whatever is declared |
| MidiNotes.ReleaseKeepsInStepIff | ui/playground/midi.js:197-204 | Releasing silences the host if and only if `note_off` is declared or no note is on |
| MidiNotes.NoStuckNotes | ui/playground/midi.js:197-232 | Over any run of messages, declarations and releases in which releases are heard, the notes sounding are exactly the active ones, and none after a release |
| MidiNotes.StuckNote | ui/playground/midi.js:197-204 | A note that sticks, when the program stops declaring `note_off` before the device is left |
| MidiLabels.FreeName | ui/playground/midi.js:249-253 | The suffix search ends within the number of used labels and finds the first free one |
| MidiLabels.BuildTables | ui/playground/midi.js:238-258 | The relabelling loop gives each port its label and indexes ports by label and by id |
| MidiLabels.LabelsDistinct | ui/playground/midi.js:240-258 | All labels differ from each other and from the keyboard's, for every list of port names, and each starts with its port's name |
| MidiLabels.LabelsDetermined | ui/playground/midi.js:240-258 | The labels follow from the ports and their order alone |
| MidiLabels.LabelsFit | ui/playground/midi.js:240-258 | Every list of ports has such labels, computed by `Labels` |
| MidiLabels.LabelsBeginWithNames | ui/playground/midi.js:245 | Every label begins with the port's name, its manufacturer's for a nameless port, or `MIDI Input` |
| MidiLabels.NamesApartAreKept | ui/playground/midi.js:240-258 | Ports named apart, and not like the keyboard, are shown under just their names |
| MidiLabels.PadLabels | ui/playground/midi.js:240-258 | Of three ports of one name the second is numbered 2; once the first is gone that number is the third's |
| MidiLabels.TakenNumber | ui/playground/midi.js:246-253 | A number that is a name already in use gets a bracketed one behind it |
| MidiLabels.KeyboardNamesake | ui/playground/midi.js:240-246 | A port called like the keyboard is numbered as the second of that name |
| MidiInputs.BrowserMidiInputs.SetDeclared | ui/playground/midi.js:122-124 | Replaces the declared events, nothing else; the host stays in step |
| MidiInputs.BrowserMidiInputs.OnMessage | ui/playground/midi.js:220-231 | A message counts only at a port object that has a handler, and keeps the host in step |
| MidiInputs.BrowserMidiInputs.ReleaseActiveNotes | ui/playground/midi.js:197-204 | One note-off per active note in order, if declared, and none left active; nothing sounds if the host was in step and `note_off` is declared |
| MidiInputs.BrowserMidiInputs.Disconnect | ui/playground/midi.js:178-191 | Releases and silences the notes, removes every handler, falls back to the keyboard |
| MidiInputs.BrowserMidiInputs.TakeTables | ui/playground/midi.js:234-258 | Removes every handler, relabels the ports and finds the selected id under its new label, if it still has a port |
| MidiInputs.BrowserMidiInputs.RebuildInputs | ui/playground/midi.js:234-273 | The selected id keeps its port under the new labels or is dropped with it; notes are released, and silenced, exactly when the port is gone or is another object; only the selected port has a handler |
| MidiInputs.BrowserMidiInputs.BeginSelect | ui/playground/midi.js:148-152 | Unless the same port object stays selected, no note and no handler is left before the previous port is closed; there is one to close exactly if another port was selected and is still there |
| MidiInputs.TabulatedLabel | ui/playground/midi.js:238-258 | A label leads to the port with an id if and only if it is the label that port is given |
| MidiInputs.BrowserMidiInputs.FinishSelect | ui/playground/midi.js:153-157 | The selection is on the chosen port if and only if the ports last shown give that port the label it was chosen by; at most the port under that label has a handler |
| MidiInputs.BrowserMidiInputs.Elapse | ui/playground/midi.js:152 | Any port changes, rebuilds, declarations and messages while the previous port is closing |
| MidiInputs.BrowserMidiInputs.Select | ui/playground/midi.js:131-157 | The whole selection, every branch and every interleaving while a previous port closes: the selection ends on the chosen port if and only if the ports shown at the end give it the same label as when it was chosen, always so when there was no port to close; notes are silenced on every switch |
| MidiInputs.LosesChosenPort | ui/playground/midi.js:131-157 | Of three ports of one name the first is selected, then the second; the first is unplugged while closing, and the selection ends with the second port's id and the third port's handler |
| Waveform.ScanBucket | ui/playground/browser-buffers.js:49-58 | The inner loop finds the extremes of the finite samples of a bucket, zeros without any |
| Waveform.BufferWaveform | ui/playground/browser-buffers.js:38-67 | One pair of extremes per bucket, and the least and greatest of those |
| Waveform.BucketsFollow | ui/playground/browser-buffers.js:44-47 | Buckets start at the first frame, are nonempty, follow one another and end at the last frame |
| Waveform.FramesPartitioned | ui/playground/browser-buffers.js:44-47 | Every frame lies in exactly one bucket |
| Waveform.BucketSizes | ui/playground/browser-buffers.js:40-47 | Up to 128 frames have a bucket each; more are dealt out over 128 buckets whose sizes differ by at most one |
| Waveform.BucketsCover | ui/playground/browser-buffers.js:44-50 | A sample is covered by the overview exactly when some bucket holds it |
| Waveform.FiniteSamplesWithin | ui/playground/browser-buffers.js:43-67 | Every covered finite sample lies between the reported extremes |
| Waveform.MinimumExactIff | ui/playground/browser-buffers.js:43-67 | The reported minimum is the least finite sample if and only if every bucket has a finite sample or some sample is not above zero |
| Waveform.MaximumExactIff | ui/playground/browser-buffers.js:43-67 | The reported maximum is the greatest finite sample if and only if every bucket has a finite sample or some sample is not below zero |
| Waveform.WholeBufferExtremes | ui/playground/browser-buffers.js:38-67 | When all samples are finite and all declared frames are present, the reported extremes are those of the whole buffer |
| Waveform.EmptyBucketReportsZero | ui/playground/browser-buffers.js:55-56 | A bucket without a finite sample pulls the reported minimum to zero |

## Left out

- ParamDomain.ConstrainLands: binary floating-point rounding, the representability of bounds in single precision and the tolerance of the floating-point grid test are not modelled; every float domain the code accepts is accepted here, also ones whose grid misses the maximum, which is why the grid clause is an equivalence.
- ParamDomain.PlainRoundTrip: assumes the exact laws of exp, log, expm1 and log1p; a width that overflows a double cannot occur in exact arithmetic, so the two fallbacks for it are not modelled.
- ZipReader.InflateRaw: Deflate itself; a decompressor is an arbitrary sequence of chunks, possibly followed by a failure.
- ZipReader.ReadZip: the returned `Map` is a map without its iteration order.
- BatchCursor.ProcessorRecordAt: what the C out-parameters hold after a malformed result, which may already have been written, and null out-pointers.
- BufferOverrides.OverridesCompose: validation, decoding and image construction are not part of this model; they are arbitrary functions, of which only that decoding yields what validation announced and that no two contents share a digest are assumed; the image overridden is taken to hold exactly the assets it references.
- OrderedBits.Adjacent: packing a number into a word before the loop, which fails for values out of range, is not part of this model; it starts from the word.
- DragGesture.DraggableNumber.Move: the floating-point and range branches of the gesture; bounds with a minimum above the maximum are excluded; a finish without a pointer event.
- MidiInputs.BrowserMidiInputs.Select: selections are serialized, port ids distinct and every port can be closed; without a port to close nothing is taken to come between the halves of a selection; the state published to the page is not modelled.
- LspClient.OndaBrowserLsp.ResumeFlushDocument: does not promise that a request sees the newest text when a timer fires while the flush waits, because its send is then already queued behind the flush; `LspSafety.FlushFindsNoTimer` says when it does. The flush's wait for its own send is the hypothesis of `LspFlush.FlushBringsText` that the send has started; the request after it is not part of this model.
- The language-server client's `dispose` and documents reopened after it, a transport that rejects, request and response routing, diagnostics, completion, hover and definitions.
- The archive's project manifest handling around `createZip` and `readZip`.
- The compiler, the runtime, project images and the audio engine.
- Raw pointers, null checks, ownership and C string caches of the C interface.
- Buffer decoding and validation in the browser, the rest of the user interface, build scripts and benchmarks, which would only add easy members.
