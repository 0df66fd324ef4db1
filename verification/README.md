# Models and proofs for the uWebZockets tooling

The compliance, benchmark and observability tools of uWebZockets decide whether a build is good:
they speak hand-written HTTP/3, judge conformance reports, publish benchmark history and count
packets. This project models five of them in Dafny and proves what they promise, for all inputs,
all event orders and all runs. `dafny verify dfyconfig.toml` checks everything.

- **HTTP/3 probe** (`scripts/http3_compliance/aioquic_probe.py`). `Bits`, `Varint`, `PrefixedInt`,
  `Qpack` and `RequestHeaders` hold the byte encoders and, as their partners, decoders and a
  request validator written from RFC 9000 (section 16), RFC 7541 (section 5.1), RFC 9204 (sections
  4.1.1, 4.5.1 and 4.5.6) and RFC 9114 (sections 4.2, 4.3, 7.1, 7.2.2 and 10.3). `StatusText` is
  Python's `int` on bytes. `Multiplex` is the response machine as a value, with all streams in one
  dictionary, beside the machine of a single stream; `Isolation` says exactly when the two agree;
  `UnguardedFinish` is the machine without the test of `future.done()`; `StreamResponse` says what a
  waiter is finally handed; `ProbeProtocol` is the object itself, whose methods update futures, buffers and
  the dictionary in place and are proved to take steps of `Multiplex`. `ProbeRun` is the acceptance
  logic of `run` and the shell gate behind it.
- **History publisher** (`scripts/publish_benchmark_history.py`). `Records` and `IndexOrder` hold
  paths, identifiers and the index order; `Publisher` is a run as a series of stages that
  ends at the first error; `PublisherStages` proves when a run stops and what it leaves;
  `HistoryTheorems`, `Recovery` and `PublicationOrder` have the results over series of runs;
  `PathText` prints the model's paths;
  `PublisherWrites` is a run as the list of its file writes, and `CrashSafety` is about runs that
  break off between any two of them; `HistoryDirectory` is the directory updated in place.
- **Record creator** (`scripts/create_benchmark_record.py`). `ContractFile`, `Median` and
  `RecordCreator`, the last one up to the publisher's checks.
- **Autobahn gate** (`tests/autobahn/server_test.js`). `Json`, `CasePrefix`, `CaseRanges` and
  `BaselineGate` load a baseline and compare a report with it, and `BaselineDocument` is what a
  baseline document says, however it is read; `SuiteActions` and `SuiteRunner` run
  the batches, with every way a step can throw.
- **Packet histogram** (`src/observability/uwz_latency_bpf.c`). `LatencyHistogram`.

Python exceptions and JavaScript errors are `None`, `Err` or a `Stop`. Loops over JavaScript maps
and Python dictionaries take the elements in an arbitrary order, so the results hold of any order.

## Where the code does less than it may seem to

- `encode_varint` neither refuses nor preserves lengths from 2^62 up: up to 2^64 the tag swallows the
  two top bits and the peer reads the value modulo 2^62 (`Varint.OversizedValue`). Round trips hold
  exactly below 2^62 (`Varint.RoundTripExactly`, `Qpack.FrameRoundTripExactly`).
- An ending stream whose `:status` is not an integer makes `int` raise inside the event loop of
  `quic_event_received`, and the rest of that batch, including events of sibling streams, is lost
  (`Isolation.SiblingLosesResponse`). A batch raises exactly when some open stream's own events end
  with a first `:status` that `int` refuses (`Isolation.RaisesExactly`), and streams are isolated,
  within a batch and over whole runs, exactly as long as that does not happen
  (`Isolation.IsolationExactly`, `Isolation.RunIsolationExactly`).
- `benchmarks/http_throughput_guarantee.md`, lines 39-41, calls publication of identical content
  idempotent. The store is indeed left as it was, but the second run raises when the contract
  parameters file is called `README.md`, because it then meets the generated table
  (`HistoryTheorems.Idempotent`).
- The same lines 39-41 of `benchmarks/http_throughput_guarantee.md` promise that publication fails
  for a published record ID with different content. It does so only within one year: the check looks
  at `records/<year>/`, while the index drops every entry of that ID. A record under a published ID
  that is dated in another year is accepted, and the earlier entry leaves the index, though not its
  files (`HistoryTheorems.OtherYear`). Exactly such runs take an entry away
  (`HistoryTheorems.EntryStaysExactly`).
- A stopped run that is rerun under another schema file name can leave a stray schema file behind
  (`Recovery.StrayFile`); `Recovery.Recovery` says exactly when a rerun repairs the store.
- Whether publications complete can depend on their order: a parameters file named `README.md` stops
  behind any other run, and so can one named `.nojekyll` (`PublicationOrder.EveryOrderExactly`).
- `combined_report[case_id] = result` sets a prototype instead of a property for a case called
  `__proto__`, so that case is dropped and its repetition goes unnoticed
  (`SuiteActions.NothingLostExactly`).

## Model

| member | source | states |
|---|---|---|
| Varint.RoundTrip | scripts/http3_compliance/aioquic_probe.py:30-37 | Below 2^62 the RFC 9000 decoder reads the value back and leaves any following bytes untouched |
| Varint.OversizedValue | scripts/http3_compliance/aioquic_probe.py:37 | From 2^62 to 2^64 eight bytes are written without an error, and they decode to the value modulo 2^62 |
| Varint.RaisesExactly | scripts/http3_compliance/aioquic_probe.py:30-37 | The encoder raises if and only if the value is negative or at least 2^64 |
| Varint.RoundTripExactly | scripts/http3_compliance/aioquic_probe.py:30-37 | The value survives encoding and decoding if and only if it is in [0, 2^62) |
| Varint.Shortest | scripts/http3_compliance/aioquic_probe.py:30-37 | No byte string that decodes to the same value is shorter than the encoder's |
| Varint.OrderPreserved | scripts/http3_compliance/aioquic_probe.py:30-37 | v < w exactly when the encoding of v is lexicographically smaller than that of w |
| Varint.ExamplesOfTheRfc | scripts/http3_compliance/aioquic_probe.py:30-37 | The decoder reads the examples of appendix A.1 of RFC 9000 as that document does |
| PrefixedInt.AppendContinuation | scripts/http3_compliance/aioquic_probe.py:46-49 | The loop with its masks and shifts appends the recursively defined base-128 digits |
| PrefixedInt.EncodePrefixedInt | scripts/http3_compliance/aioquic_probe.py:40-50 | Computes the encoding that the decoder round trip, minimality and prefix freedom are proved of |
| PrefixedInt.RoundTrip | scripts/http3_compliance/aioquic_probe.py:40-50 | For every width 1 to 8 and base with clear prefix bits, decoding gives value, flag bits and the unread rest |
| PrefixedInt.RoundTripExactly | scripts/http3_compliance/aioquic_probe.py:40-50 | All values round-trip under a base if and only if its prefix bits are clear |
| PrefixedInt.PrefixFree | scripts/http3_compliance/aioquic_probe.py:40-50 | Equal byte streams start with the encoding of the same value and continue alike |
| PrefixedInt.Shortest | scripts/http3_compliance/aioquic_probe.py:40-50 | No byte string that decodes to the value is shorter |
| PrefixedInt.Length | scripts/http3_compliance/aioquic_probe.py:42-50 | One byte below the limit, otherwise one more than the base-128 digits of the remainder |
| PrefixedInt.ExamplesOfTheRfc | scripts/http3_compliance/aioquic_probe.py:40-50 | The encodings of 10, 1337 and 42 are the bytes of appendix C.1 of RFC 7541 |
| Qpack.QpackLiteralHeader | scripts/http3_compliance/aioquic_probe.py:53-59 | Writes one literal field line with a literal name |
| Qpack.OversizedHeaderBlock | scripts/http3_compliance/aioquic_probe.py:62-75 | The two loops write the field section of the four pseudo-headers and the generated fields |
| Qpack.LineRoundTrip | scripts/http3_compliance/aioquic_probe.py:53-59 | A decoder for section 4.5.6 of RFC 9204 reads name and value back and stops where the line ends |
| Qpack.SectionRoundTrip | scripts/http3_compliance/aioquic_probe.py:62-75 | A section decodes to exactly the fields it was built from, in order |
| Qpack.SectionInjective | scripts/http3_compliance/aioquic_probe.py:62-75 | Two field lists never share an encoding |
| Qpack.FrameRoundTripExactly | scripts/http3_compliance/aioquic_probe.py:88 | A frame is read as its section with the trailing bytes untouched if and only if the section is shorter than 2^62 |
| Qpack.WholeFrameRoundTrip | scripts/http3_compliance/aioquic_probe.py:62-88 | For every authority, field count, value size and trailing bytes the peer reads the four literal pseudo-headers and then exactly that many fields x0, x1, ... of exactly that many bytes `a`, and nothing of the trailing bytes |
| RequestHeaders.OversizedIsWellFormed | scripts/http3_compliance/aioquic_probe.py:62-75 | The decoded oversized list obeys all ten modelled rules for requests if and only if the authority is not empty and has neither userinfo nor control characters, so only size can justify its rejection |
| RequestHeaders.RequestIsWellFormed | scripts/http3_compliance/aioquic_probe.py:164-171 | The plain request has the five literal fields, and obeys all ten rules under the same condition on the authority |
| RequestHeaders.MalformedBreaksOneRule | scripts/http3_compliance/aioquic_probe.py:174-182 | For every authority each malformed case breaks its own rule of the ten and no other, except those that the authority breaks |
| RequestHeaders.NamedCases | scripts/http3_compliance/aioquic_probe.py:174-182 | By its text in the expectations each malformed case is the plain request with `:method: GET` or `connection: keep-alive` added, or reordered |
| RequestHeaders.GeneratedNamesDistinct | scripts/http3_compliance/aioquic_probe.py:73-74 | Generated field names are pairwise distinct |
| StatusText.ParsePrinted | scripts/http3_compliance/aioquic_probe.py:141-148 | `int` reads every printed integer back |
| StatusText.ParsePadded | scripts/http3_compliance/aioquic_probe.py:143 | ... also with white space around it |
| Multiplex.StepKeepsConsistent | scripts/http3_compliance/aioquic_probe.py:84-161 | Every step keeps it that an open stream has a pending future and a waiter not yet answered, and that every pending future outside the dictionary timed out |
| Multiplex.RunKeepsConsistent | scripts/http3_compliance/aioquic_probe.py:84-161 | The same over every run with fresh stream identifiers |
| UnguardedFinish.GuardNeverDecides | scripts/http3_compliance/aioquic_probe.py:158-161 | A machine whose `_finish` never tests `future.done()`, also inside steps, makes exactly the same runs |
| Multiplex.RefinesIndependentStreams | scripts/http3_compliance/aioquic_probe.py:84-161 | For every interleaving, raising batches included, what one stream's waiter sees is the fold of that stream's own events, up to where batches are cut, and of terminations over a single-stream machine |
| Isolation.CutExactly | scripts/http3_compliance/aioquic_probe.py:132-156 | A batch is cut behind its shortest prefix in which some stream's own events end with a refused status |
| Isolation.RaisesExactly | scripts/http3_compliance/aioquic_probe.py:132-148 | A batch raises if and only if some open stream's own events end with a first `:status` that `int` refuses |
| Isolation.QuietExactly | scripts/http3_compliance/aioquic_probe.py:84-161 | A run raises nowhere if and only if no stream's own events are refused on the single-stream machine |
| Isolation.QuietRunIsLocal | scripts/http3_compliance/aioquic_probe.py:84-161 | In a run in which no stream is refused, every stream's view is the fold of all its own events |
| Isolation.SiblingsDoNotInterfere | scripts/http3_compliance/aioquic_probe.py:84-161 | Two such runs with equal own events of a stream, whatever its siblings do, give it equal headers, body, outcome and delivery |
| Isolation.IsolationExactly | scripts/http3_compliance/aioquic_probe.py:132-156 | Inside one batch a waiting stream gets its next event if and only if no stream's events before it end with a refused status |
| Isolation.RunIsolationExactly | scripts/http3_compliance/aioquic_probe.py:84-161 | In every batch of a run every stream would get its next event, if and only if no stream's own events are refused |
| Isolation.SiblingLosesResponse | scripts/http3_compliance/aioquic_probe.py:140-148 | Concrete batch in which a sibling's status text costs another stream its complete response |
| Multiplex.CompletesOnce | scripts/http3_compliance/aioquic_probe.py:84-161 | Once a stream has left the dictionary, no later event of any run changes its future or replaces what its waiter got |
| Multiplex.TerminationClosesAll | scripts/http3_compliance/aioquic_probe.py:123-130 | A termination empties the dictionary, gives every open waiter that result and touches no other future |
| Multiplex.ResetClosesOne | scripts/http3_compliance/aioquic_probe.py:118-122 | A reset gives the waiter of that stream, if open, exactly its code, removes it, and touches no other |
| StreamResponse.StatusExactly | scripts/http3_compliance/aioquic_probe.py:141-148 | The status is what the value of the first field named `:status` reads as, in whatever spelling and whatever surrounds it, and 0 without such a field |
| StreamResponse.ResponseIsComplete | scripts/http3_compliance/aioquic_probe.py:132-156 | Through any interleaving a waiter gets the status of the first field named `:status` and all data of its stream in order, as a response below 400 and as an error from 400 on |
| StreamResponse.PrintedResponse | scripts/http3_compliance/aioquic_probe.py:132-156 | In particular a first field `:status` with a number printed in decimal gives that number |
| ProbeProtocol.ProbeProtocol.Start | scripts/http3_compliance/aioquic_probe.py:103-105 | A request registers a new pending future under its fresh stream |
| ProbeProtocol.ProbeProtocol.Expire | scripts/http3_compliance/aioquic_probe.py:93-95 | A timeout removes the stream, leaves its future alone and answers the waiter |
| ProbeProtocol.ProbeProtocol.Resume | scripts/http3_compliance/aioquic_probe.py:111-112 | A waiter returns its future's result |
| ProbeProtocol.ProbeProtocol.Finish | scripts/http3_compliance/aioquic_probe.py:158-161 | In place: the stream leaves the dictionary and its own future, no other, is set if pending |
| ProbeProtocol.ProbeProtocol.FinishEach | scripts/http3_compliance/aioquic_probe.py:129-130 | Finishing stream after stream, in any order, is the one simultaneous step of the model |
| ProbeProtocol.ProbeProtocol.HttpEventReceived | scripts/http3_compliance/aioquic_probe.py:133-156 | In place: one HTTP event is one step of the model, and it raises exactly when the model does |
| ProbeProtocol.ProbeProtocol.QuicEventReceived | scripts/http3_compliance/aioquic_probe.py:117-156 | In place: one QUIC event with its batch is one step of the model, so all theorems on runs apply |
| ProbeRun.RejectionIsAttributable | scripts/http3_compliance/aioquic_probe.py:242-249 | Whatever outcomes are accepted, only a reset or termination with exactly the expected code counts as a rejection |
| ProbeRun.ExpectedReply | scripts/http3_compliance/aioquic_probe.py:334-340 | `assert_response` accepts exactly a response of the expected status and body |
| ProbeRun.FilledLast | scripts/http3_compliance/aioquic_probe.py:240-241 | A case listed more than once keeps its last reply |
| ProbeRun.Run | scripts/http3_compliance/aioquic_probe.py:185-340 | Returns if and only if every reply is the one insisted on; then the report holds the replies, the last one for each case |
| ProbeRun.ShellGateExactly | scripts/http3_compliance/run.sh:141-163 | The shell gate adds nothing to a returned report if and only if status 200 is expected, no case is listed twice, and oversized block and soak are present |
| Records.RecordIdPattern | scripts/publish_benchmark_history.py:64 | The identifier check accepts exactly the strings of digits, dash, digits, dash, twelve hexadecimal digits |
| Records.NamedPaths | scripts/publish_benchmark_history.py:71-103 | A record of identifier `id` and time `at` has its file, its raw files and its index entry at the year `at[:4]` and under `id` |
| Records.PathsApart | scripts/publish_benchmark_history.py:71-79 | Records of different identifiers share no file |
| PathText.RecordPathText | scripts/publish_benchmark_history.py:71-103 | As text, the record's path is records/, year, /, identifier, .json |
| PathText.NameRoundTrip | scripts/publish_benchmark_history.py:113 | The model's names of files in the directory itself stand for exactly the texts they came from |
| PathText.TextInjective | scripts/publish_benchmark_history.py:70-113 | Different paths of the model are different texts, if their parts are single names |
| PathText.CheckedPaths | scripts/publish_benchmark_history.py:64-68 | The paths of every record that passes the checks are of that kind |
| IndexOrder.KeyLessIsStrictTotal | scripts/publish_benchmark_history.py:107 | Comparison by time, then identifier is a strict total order on the keys |
| IndexOrder.SortElements | scripts/publish_benchmark_history.py:107 | Sorting neither loses nor adds an entry |
| IndexOrder.MergeIsOrdered | scripts/publish_benchmark_history.py:105-107 | Remove, append and sort leaves an index that is newest first, spelled out on the characters of time and identifier, with unique identifiers: the new entry and all entries of other identifiers |
| IndexOrder.NewerExactly | scripts/publish_benchmark_history.py:107 | The sort key's order is that of the first differing character of the times, then of the identifiers |
| IndexOrder.MergeTwice | scripts/publish_benchmark_history.py:105-107 | Merging an entry again changes nothing, whatever the index held |
| IndexOrder.DeterminedBySet | scripts/publish_benchmark_history.py:107 | A strictly descending index is determined by the set of its entries |
| PublisherStages.StoreEvidenceFiles | scripts/publish_benchmark_history.py:70-88 | When the record and raw-file steps stop, and what they leave on every path, stopped or not |
| PublisherStages.CopyContractsFiles | scripts/publish_benchmark_history.py:111-113 | When the contract copies stop, and what they leave on every path, stopped or not |
| PublisherStages.WhenPublished | scripts/publish_benchmark_history.py:52-134 | A run completes if and only if its inputs pass every check and agree with every lasting file already there |
| PublisherStages.WhatIsLeft | scripts/publish_benchmark_history.py:52-134 | A completed run leaves the described store path by path; a stopped one leaves each path as it was or as the completed run would, and touches the index only with all evidence stored |
| HistoryTheorems.RunKeepsHistory | scripts/publish_benchmark_history.py:52-134 | Every run, stopped ones included, keeps it that the index is ordered, its identifiers are unique and every entry has, under its identifier and year, its record file saying the same and ten raw files; and changes no lasting file |
| HistoryTheorems.PublishedUnderItsName | scripts/publish_benchmark_history.py:55-109 | A completed run leaves the record, the ten raw files, the only index entry of that identifier and latest.json, all by the record's own identifier and time |
| HistoryTheorems.ContractIsPublished | scripts/publish_benchmark_history.py:111-114 | ... and schema, contract and parameters under their own names, the last one unless it is called README.md |
| PublisherStages.NamesExactly | scripts/publish_benchmark_history.py:70-113 | Which texts as the parameters' name stop a run or meet another file of the directory |
| HistoryTheorems.HistoryOverAllRuns | scripts/publish_benchmark_history.py:52-134 | The same over every series of runs from an empty store |
| HistoryTheorems.EntryStaysExactly | scripts/publish_benchmark_history.py:70-107 | Over any run, stopped or not, a published entry stays in the index unless the run gets to the index with the same ID dated in another year; exactly then it vanishes |
| HistoryTheorems.EntryStaysOverRuns | scripts/publish_benchmark_history.py:70-107 | Over every series of runs an entry is in the index throughout if and only if no run pushes it out so |
| HistoryTheorems.PublishedIdExactly | scripts/publish_benchmark_history.py:71-77 | A completed run under a published ID carries the published content if and only if it is dated in the same year |
| HistoryTheorems.OtherYear | scripts/publish_benchmark_history.py:71-105 | For all acceptable inputs: published again dated in another year, they complete and push the first entry out |
| HistoryTheorems.Idempotent | scripts/publish_benchmark_history.py:32-38 | Publishing again leaves the store as it is; the second run succeeds if and only if the parameters file is not called README.md |
| Recovery.Recovery | scripts/publish_benchmark_history.py:52-134 | After a stop and a completed rerun of the same record the direct run completes too; the stores are equal if and only if the schema names are, or the stopped run ended before its index stage, or its schema file was there |
| Recovery.RecoveryUnderSameSchemaName | scripts/publish_benchmark_history.py:52-134 | Under an unchanged schema file name a completed rerun always repairs the store |
| Recovery.StrayFile | scripts/publish_benchmark_history.py:111 | For all acceptable inputs: a misnamed schema in the stopped run leaves a file the direct run lacks |
| PublisherWrites.PublishWritesApply | scripts/publish_benchmark_history.py:52-134 | The writes of a run, one after the other, leave exactly the store of the run |
| CrashSafety.CrashKeepsHistory | scripts/publish_benchmark_history.py:70-134 | A run that breaks off between any two file writes leaves an ordered index with evidence behind every entry, and no lasting file lost or changed |
| CrashSafety.CrashRecovery | scripts/publish_benchmark_history.py:70-134 | After a break anywhere and a completed rerun of the same record, the direct run completes too, and the stores are equal if and only if every write done went to a file that was there or that the rerun writes |
| CrashSafety.CrashRecoveryUnderSameNames | scripts/publish_benchmark_history.py:70-134 | Under unchanged contract file names a completed rerun repairs the store wherever the run broke off |
| PublicationOrder.OrderIndependent | scripts/publish_benchmark_history.py:70-134 | Any two orders of the same publications end with equal records, raw files, index, contract files and README |
| PublicationOrder.EveryOrderExactly | scripts/publish_benchmark_history.py:52-134 | If one order completes, every order and repetition does, if and only if no parameters file is called README.md and each called .nojekyll is empty, or meets one already there, or shares that name with all others |
| HistoryTheorems.ReadmeShowsRecords | scripts/publish_benchmark_history.py:116-134 | The table shows the first hundred entries of an index that is newest first, each with the figures of the record file it links to |
| HistoryDirectory.HistoryDirectory.CopyImmutableFile | scripts/publish_benchmark_history.py:32-38 | In place: copies once, and stops on different content |
| HistoryDirectory.HistoryDirectory.StoreRawFiles | scripts/publish_benchmark_history.py:81-88 | In place: the loop over the ten files is the raw-file step of the model, partial stores and the list of writes included |
| HistoryDirectory.HistoryDirectory.StoreIndexFiles | scripts/publish_benchmark_history.py:90-109 | In place: the index step of the model and its two writes |
| HistoryDirectory.HistoryDirectory.PublishRecord | scripts/publish_benchmark_history.py:52-134 | In place: a run ends with the store, the error and the writes of the model, so all theorems on runs and on broken-off runs apply |
| ContractFile.ReadContract | scripts/create_benchmark_record.py:12-22 | Fails if and only if some line is invalid; otherwise each key has the value of its last assignment |
| ContractFile.LastValueIsLast | scripts/create_benchmark_record.py:21 | A key is present exactly when some line assigns it, and the last such line decides |
| ContractFile.LineRoundTrip | scripts/create_benchmark_record.py:14-21 | A written `KEY=value` line is read back, for any value that stripping leaves alone |
| ContractFile.LineExactly | scripts/create_benchmark_record.py:15-21 | A line with text is skipped exactly for a `#` in front, and assigns a value to a key exactly if its stripped text is that key, `=`, that value |
| ContractFile.SkippedLines | scripts/create_benchmark_record.py:15-17 | Blank lines, and comments behind spaces and tabs, are skipped |
| Median.MedianIsMajority | scripts/create_benchmark_record.py:72-73 | For an odd count the median reaches a threshold if and only if most samples do |
| Median.GateIsMajority | scripts/create_benchmark_record.py:77-90 | The gate passes if and only if at least (n+1)/2 candidate samples reach the threshold |
| Median.GateIgnoresOrder | scripts/create_benchmark_record.py:72-90 | The gate is invariant under permuting either list |
| Median.GateIsMonotone | scripts/create_benchmark_record.py:72-90 | Faster candidate and slower baseline samples never turn a pass into a failure |
| Median.ControlRunPasses | scripts/create_benchmark_record.py:72-90 | A run against itself always passes |
| RecordCreator.PassedIsMajority | scripts/create_benchmark_record.py:64-91 | Every created record says "passed" exactly when most candidate samples reach the threshold |
| RecordCreator.PassedIsRatio | scripts/create_benchmark_record.py:90-134 | The recorded ratio is that of the recorded medians, and it reaches the minimum if and only if the record says "passed" |
| RecordCreator.CreatesExactly | scripts/create_benchmark_record.py:67-76 | A record is created if and only if the sample count is odd and positive, both lists have that length and only positive rates, and the ratio is in (0, 1] |
| RecordCreator.CreatedResults | scripts/create_benchmark_record.py:90-134 | It holds both SHAs, both medians, their ratio and the gate's answer, each where it belongs |
| RecordCreator.RecordIdMatches | scripts/create_benchmark_record.py:78 | The identifier meets the publisher's pattern if and only if both numbers are nonnegative and the SHA starts with twelve hexadecimal digits |
| RecordCreator.RecordIdInjective | scripts/create_benchmark_record.py:78 | Equal identifiers mean equal run, attempt and SHA prefix |
| RecordCreator.RecordIdParts | scripts/create_benchmark_record.py:78 | The identifier is the run number, the attempt and twelve characters of the SHA, in this order |
| RecordCreator.CreatedIsValid | scripts/publish_benchmark_history.py:55-68 | The publisher's checks accept a created record if and only if the contract is the publisher's v1 contract and identifier and timestamp are well formed |
| CasePrefix.PrefixPattern | tests/autobahn/server_test.js:88-94 | The accepted prefixes are exactly the dotted lists of positive numbers |
| CaseRanges.ExpandRanges | tests/autobahn/server_test.js:84-109 | The loop over ranges computes the expansion, or the first error |
| CaseRanges.CaseIdInjective | tests/autobahn/server_test.js:103 | The printed identifier determines prefix and number |
| CaseRanges.SharedCase | tests/autobahn/server_test.js:102-105 | Two ranges share a case if and only if they have one prefix and overlap |
| CaseRanges.ExpansionExact | tests/autobahn/server_test.js:84-109 | Expansion fails exactly when two ranges overlap; otherwise the cases are those of the ranges, as many as the sum of widths |
| BaselineDocument.RangeExactly | tests/autobahn/server_test.js:85-100 | A range is read if and only if it is an object with a dotted prefix and whole numbers 1 <= first <= last, and then as these |
| BaselineDocument.CaseOfExactly | tests/autobahn/server_test.js:102-103 | The cases of a range are exactly its prefix, a dot, and a decimal numeral without leading zero in the range |
| BaselineDocument.LoadExactly | tests/autobahn/server_test.js:57-137 | The loader returns a baseline if and only if it is the one the document describes by its literal properties: cases by prefix and numeral, overrides, defaults, totals and counts |
| BaselineGate.ClassificationCounts | tests/autobahn/server_test.js:139-156 | Counts each classification over outcomes in any order, or fails exactly on a malformed outcome |
| BaselineGate.VerifyClassifications | tests/autobahn/server_test.js:210-226 | Returns if and only if the two counts are the declared ones and nothing else was counted |
| BaselineGate.CheckCounts | tests/autobahn/server_test.js:196-207 | Both together: the outcomes carry the declared totals and no other classification |
| BaselineGate.ApplyOverrides | tests/autobahn/server_test.js:111-116 | Succeeds if and only if every override names a case and is well formed; replaces exactly those |
| BaselineGate.LoadBaseline | tests/autobahn/server_test.js:57-137 | The loops compute the accepted baseline or the error, in the order of the checks |
| BaselineGate.LoadConservesCounts | tests/autobahn/server_test.js:84-134 | An accepted baseline has well-formed, disjoint ranges, exactly their cases, and the sum of widths equals the OK and INFORMATIONAL counts for both fields, overrides included |
| BaselineGate.TotalsAddUp | tests/autobahn/server_test.js:118-136 | Acceptance implies the totals `verify_baseline` relies on |
| BaselineGate.RepeatIsOverlap | tests/autobahn/server_test.js:102-107 | With well-formed ranges a repeat is reported if and only if two ranges with one prefix overlap |
| BaselineGate.VerifyBaseline | tests/autobahn/server_test.js:158-208 | Returns if and only if the report has the baseline's cases and on each of them the same `behavior` and `behaviorClose`; the closing count checks never throw |
| BaselineGate.ExactMatches | tests/autobahn/server_test.js:196-207 | An exact report has the baseline's counts |
| SuiteActions.AttemptIsSafe | tests/autobahn/server_test.js:373-409 | In one attempt, whatever throws and whenever the server exits on its own, never two servers are alive and none is left |
| SuiteActions.AttemptsAreSafe | tests/autobahn/server_test.js:365-427 | The same for a batch with its retry |
| SuiteActions.StoppedGently | tests/autobahn/server_test.js:475-502 | A server that has not exited gets SIGTERM first, SIGKILL only when five seconds did not do, and no signal behind its exit |
| SuiteActions.AttemptInOrder | tests/autobahn/server_test.js:374-409 | An attempt starts its server first, runs the container exactly when the server is ready and docker starts, and stops the server last |
| SuiteActions.RetryOnlyAfterKill | tests/autobahn/server_test.js:371-425 | At most two servers start in a batch, and two if and only if the first container was killed with code 137 and the retry could start |
| SuiteActions.BatchIsDoneExactly | tests/autobahn/server_test.js:411-425 | A batch is done if and only if its first attempt succeeds, or is killed and the second succeeds; otherwise it fails |
| SuiteActions.AgentEntriesExactly | tests/autobahn/server_test.js:340-349 | A report's entries are the properties of what it says under uWebZockets, or the numbered items of an array there |
| SuiteActions.MergeIsDisjointUnion | tests/autobahn/server_test.js:349-354 | The merge succeeds if and only if no two reports share a case, `__proto__` aside, and is then their union |
| SuiteActions.NothingLostExactly | tests/autobahn/server_test.js:353 | The merge holds every case of every report if and only if none is called `__proto__` |
| SuiteRunner.SuiteIsSafe | tests/autobahn/server_test.js:319-427 | Over all batches and every success, failure and exception: at most one server alive at any moment, none at the end |
| SuiteRunner.SuiteReturnsMerge | tests/autobahn/server_test.js:325-355 | The suite returns exactly when every batch is done and the merge succeeds, and returns the merge |
| SuiteRunner.ReportIsDisjointUnion | tests/autobahn/server_test.js:349-362 | A returned report is the disjoint union of the batch reports, `__proto__` aside |
| SuiteRunner.Runner.StartServer | tests/autobahn/server_test.js:429-442 | In place: a new process that has not exited |
| SuiteRunner.Runner.StopServer | tests/autobahn/server_test.js:475-502 | In place: nothing for an exited server, otherwise SIGTERM, SIGKILL only after five seconds, each only if its call does not throw, and return after the exit |
| SuiteRunner.Runner.RunAttempt | tests/autobahn/server_test.js:373-425 | In place: one attempt does what the model's attempt does |
| SuiteRunner.Runner.RunBatch | tests/autobahn/server_test.js:365-427 | In place: the retry loop does what the model's batch does |
| SuiteRunner.Runner.AddEntries | tests/autobahn/server_test.js:349-354 | The loop over entries, in any order, is the merge step |
| SuiteRunner.Runner.RunTestsuite | tests/autobahn/server_test.js:319-363 | In place: from a safe history the suite keeps it that never two servers are alive and none is left, and returns the model's report |
| LatencyHistogram.TopBit | src/observability/uwz_latency_bpf.c:33 | 31 minus the leading zeros is the exponent of the greatest power of two not above the length |
| LatencyHistogram.BucketExact | src/observability/uwz_latency_bpf.c:33-37 | A length is counted in bucket k if and only if it is in [2^k, 2^(k+1)); bucket 0 holds 0 and 1, bucket 15 everything from 2^15 up |
| LatencyHistogram.PacketBucket | src/observability/uwz_latency_bpf.c:32-37 | By a packet's two pointers: bucket k below 16 holds the lengths from 2^k to 2^(k+1), bucket 0 also 0, bucket 15 all above |
| LatencyHistogram.LengthExactly | src/observability/uwz_latency_bpf.c:32 | The length is the distance from data to data_end, plus 2^32 if they come the other way round |
| LatencyHistogram.BucketsConserve | src/observability/uwz_latency_bpf.c:29-44 | Over every packet run the buckets together hold each counted packet once |
| LatencyHistogram.TotalsAreThePackets | src/observability/uwz_latency_bpf.c:39-41 | The wrapped counters add up to the number of counted packets modulo 2^64 |
| LatencyHistogram.EveryPacketCounts | src/observability/uwz_latency_bpf.c:39-41 | With every lookup successful the counters add up to the number of packets modulo 2^64; with none successful to zero |
| LatencyHistogram.Histogram.Observe | src/observability/uwz_latency_bpf.c:29-44 | In place: after every packet each counter is the wrapped number of packets of its bucket |

## Left out

- The server itself (`src/**/*.zig`), the C interface, the build files and the examples.
- The network, aioquic, asyncio scheduling, Docker, Deno, argument parsing and clocks: their answers are events, parameters or fields of the inputs. Stream identifiers are assumed fresh, and a process that was awaited has exited.
- HTTP/3 events without a `stream_ended` field, and `send_headers` raising after a stream was registered.
- Decoding a response body as UTF-8 with replacement characters, and its encoding again for the digest: bodies stay bytes. Python's limit of 4300 digits for `int`.
- Huffman coding and the dynamic table of QPACK: the probe writes neither, and the decoders here refuse them.
- Prefixed integers with a negative value or a width outside 1 to 8: no caller has them.
- JSON text, SHA-256 (a function parameter) and floating-point rounding (real numbers). A parameters file that happens to equal a generated JSON or README file byte for byte counts as different.
- Parsing of numbers in the contract and the rate files: `RecordCreator` starts from the numbers. Keys missing in the contract.
- PublisherStages.WhenPublished: does not model the temporary files of `write_json`: a parameters file called `index.json.tmp` or `latest.json.tmp` is overwritten and renamed away by the next run, and copied again.
- HistoryTheorems.RunKeepsHistory: for the same reason does not say that a parameters file of such a name is lost.
- Records with NaN, which differ from themselves.
- Rules for requests other than the ten of `RequestHeaders.Rule`, such as the token syntax of field names.
- Torn file copies, and directories or links that were in the history before the publisher ran. The remaining header fields of `index.json`.
- Number formatting in the README table, the wording of errors and console output.
- The polling loop of `wait_for_server`: its answer is one boolean of an attempt. A server exits when the runner can notice it: before or after its container, or while it is being stopped.
- The histograms of other CPUs: the model is one CPU's array.
- Varint.EncodeVarint: has no contract of its own; it is the branch structure of the source, and the lemmas of its module say what it does.
