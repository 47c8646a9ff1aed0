# Verified models of stilltent

Dafny models of the parts of this repository that carry real algorithms and protocols, with
proofs of what they promise. `dafny verify dfyconfig.toml` checks everything.

| files | what they model |
|---|---|
| DependencyGraph, DependCommands | the depth-first cycle search behind `tent depend` and the add and remove commands |
| JsonGrammar, JsonScanner, JsonReader, EmbedRequest | the hand-written JSON reader of the embedding service, against a grammar of RFC 8259 |
| FloatText, ResponseWriter | its number printer and reply |
| HttpRequest, HttpReader, HttpMessage, HttpFraming, HttpChunks | its restartable HTTP parser and read loop, against a grammar of requests and the standard's body lengths |
| WorkQueue, WorkerPool | its bounded queue and the protocol of acceptor, workers and shutdown |
| Tokenizer, SubTokenizer, FeatureChannels | its tokenizer and three embedding channels |
| CircuitBreaker, OrchestratorLoop, MetricsWriter, BraceScan | the orchestrator's breaker, main loop, background writer and JSON extractor |
| RestartLimiter, BackupPrune | the daemon's restart bookkeeping and backup retention |
| DeepMerge, FindingsMerge | merging of compose fragments and of search results |
| Ascii, CStrings, Sequences, Wrappers | characters, C strings, sequences, Option |

Each imperative part is a method or a class proved against functions on values; the results
about whole inputs, runs and interleavings are lemmas about those functions. State machines
have one step for each critical section, so their runs are all interleavings.

How the outside world appears: clocks, network arrivals, file-system outcomes, model
replies and `manager.Start` are parameters of the steps, so every property holds for all of
them. C chars are bytes; pointers are indices; `LoadConfig` is a lookup in a map.
Money, hours, scores and embedding sums are real numbers; the number printer's float
operations that round go through a rounding function. `json.loads`, the FNV hash,
logarithm and square root are uninterpreted functions.

Where the code and its own words or intentions part, the model follows the code, and a lemma
shows the difference:

- `detectCycle` says "missing sandbox, skip", but the mark of a missing sandbox stays on the
  path, so a second mention is reported as a circular dependency (`DetectCycle`,
  `DanglingNameReportedAsCycle`).
- The budget guard bounds a call exactly when it was itself read after the first six minutes;
  a call that starts later behind an early guard is not bounded (`CallsBoundedIff`).
- "remove workspace/PAUSE to resume" does not resume after an emergency pause
  (`EmergencyPauseIsFinal`).
- A failed metrics write is never repeated until something is marked dirty again
  (`NoWriteWithoutMark`); `FinalMetricsOnDiskIff` says when the final metrics are on disk.
- `_find_json_objects` promises all valid objects, largest first; it returns the blocks from
  left to right and misses exactly the objects that the braces in their strings keep from
  being blocks (`EveryTextIsCut`, `FoundInProseIff`).
- A blank Content-Length makes the parser read past the header block
  (`BlankLengthReadsStaleByte`); `HeadDecidesFieldsIff` gives the exact condition for one parse,
  `IndependentIff` for the whole read loop.
- An input array that holds an array is left at the first inner bracket that closes: the
  request is refused, or goes on with the members of an inner object (`RequestReadAs`,
  `NestedInputOutcome`, `SkipToCloseExactIff`).
- A request object cut off right behind its last value is accepted, and commas between members
  are not counted (`UnclosedRead`, `CommasIgnored`).
- \u escapes skip four bytes unseen; `ReadersAgreeIff` says when the two string readers agree.
- Transfer-Encoding is ignored and the last of several Content-Length values counts, where
  section 6.3 of RFC 9112 differs (`LengthIsStandardIff`).
- The number printer scales in single precision, so its eight digits are not all significant
  (`RoundedIsNear`, `RoundingCostsDigits`); `UnitPromisedIff` says up to which size the last is
  right to one unit.
- The reply copies the model name without escaping it (`ReplyDenotesModelIff`).
- `tent backup prune --json` reports a deletion and deletes nothing
  (`BackupPrune.Repository.Prune`), and large `--older-than` values wrap around
  (`AgeLimitIff`, `AgeLimitWraps`).
- A restart or reset request that comes in while the monitor is at the same sandbox is lost
  exactly when that visit ends in an attempt (`RequestStandsIff`).
- `deep_merge` documents merging for services, networks and volumes only; it merges dicts
  under every key and at every depth (`DeepMerge.DeepMerge`).
- With more agents than specializations, results of agents that share one overwrite each
  other (`AllFindingsMergedIff`).

## Model

| member | source | states |
|---|---|---|
| `DependencyGraph.DetectCycle` | archive/project-mytool/cmd/tent/depend.go:494-532 | The search reports an error if and only if a cycle is reachable from the start in the overlay graph, or two different list entries reachable from it name the same missing sandbox (whose path mark is never taken back). |
| `DependencyGraph.CycleSearch.Visit` | archive/project-mytool/cmd/tent/depend.go:500-529 | One call of the closure: an error implies a reachable flaw; otherwise the sandbox is finished after all its dependencies, with path and visited marks as the recursion needs them. It terminates because each call that goes on marks a new name. |
| `DependencyGraph.CycleSearch.VisitDeps` | archive/project-mytool/cmd/tent/depend.go:521-525 | The loop over one dependency list keeps the state of the enclosing call and finishes every entry, or reports a real flaw. |
| `DependencyGraph.SettledHasNoFlaw` | archive/project-mytool/cmd/tent/depend.go:494-532 | A finishing order in which every dependency is finished earlier proves that no cycle is reachable (completeness of the search). |
| `DependencyGraph.FoundOnPath` | archive/project-mytool/cmd/tent/depend.go:501-503 | A name met again on the path closes a cycle or is a missing sandbox entered through another entry (soundness of the error). |
| `DependencyGraph.RotateCycle` | archive/project-mytool/cmd/tent/depend.go:501-503 | A cycle can be read from any of its nodes, so a cycle through the edited sandbox starts there. |
| `DependCommands.Manager.DependAdd` | archive/project-mytool/cmd/tent/depend.go:58-123 | Outcome and new configuration of `depend add`: checks in order, search over the undeduplicated list, deduplicated store, nothing changed on any error. |
| `DependCommands.Manager.DependRemove` | archive/project-mytool/cmd/tent/depend.go:147-201 | Outcome and new configuration of `depend remove`, with --all and with names. |
| `DependCommands.AddStores` | archive/project-mytool/cmd/tent/depend.go:99-121 | On success the sandbox keeps its list, with every requested name in it, and no other sandbox changes; on any error nothing changes. |
| `DependCommands.AddOutcomeIs` | archive/project-mytool/cmd/tent/depend.go:58-97 | Each outcome has its cause: an error names the first requested dependency that is not valid, circular means a reachable flaw, and success that there is none. |
| `DependCommands.RemoveStores` | archive/project-mytool/cmd/tent/depend.go:157-199 | With --all the list is emptied; otherwise exactly the names not asked for stay; no other sandbox changes. |
| `DependCommands.RemoveUndoesAdd` | archive/project-mytool/cmd/tent/depend.go:99-121 | Removing names that were just added, and were not there before, gives back the configuration. |
| `DependCommands.AppendNewInOrder` | archive/project-mytool/cmd/tent/depend.go:99-115 | New names come in the order in which they are asked for. |
| `DependCommands.WithoutInOrder` | archive/project-mytool/cmd/tent/depend.go:176-194 | The names that stay keep their order. |
| `DependCommands.AppendNewNames` | archive/project-mytool/cmd/tent/depend.go:99-115 | Deduplication keeps the old list as a prefix, adds exactly the requested names, and introduces no duplicate. |
| `DependCommands.WithoutNames` | archive/project-mytool/cmd/tent/depend.go:176-194 | Removal leaves exactly the names that were not asked for. |
| `DependCommands.AllValid` | archive/project-mytool/cmd/tent/depend.go:82-90 | Validation passes if and only if every requested dependency exists and is not the sandbox itself. |
| `DependCommands.NewCycleIsFound` | archive/project-mytool/cmd/tent/depend.go:92-97 | Any cycle that storing the deduplicated list would create is reachable from the edited sandbox in the graph that was searched. |
| `DependCommands.AddKeepsAcyclic` | archive/project-mytool/cmd/tent/depend.go:92-121 | `depend add` keeps the whole stored graph acyclic although it searches from one sandbox only. |
| `DependCommands.RemoveKeepsAcyclic` | archive/project-mytool/cmd/tent/depend.go:172-199 | `depend remove` keeps the graph acyclic. |
| `DependCommands.RunKeepsAcyclic` | archive/project-mytool/cmd/tent/depend.go:58-201 | From an acyclic graph every sequence of add and remove commands stays acyclic, and keeps lists closed and free of duplicates. |
| `DependCommands.AddRefusedExactlyForCycles` | archive/project-mytool/cmd/tent/depend.go:92-97 | On a closed acyclic graph an addition that passes validation is refused if and only if storing it would close a cycle. |
| `DependCommands.DanglingNameReportedAsCycle` | archive/project-mytool/cmd/tent/depend.go:508-517 | With a dangling name shared by two sandboxes, an addition that closes no cycle is refused as circular. |
| `JsonScanner.SkipsExactly` | memory/mem9/embed-service/json.c:93-180 | The scanner stops exactly at the end of every well-formed JSON value after any white space, whatever follows (for a number: anything that does not extend it). |
| `JsonScanner.ValueTransparent` | memory/mem9/embed-service/json.c:112-149 | Counting one kind of bracket is enough: any well-formed value leaves the depth counter of either kind unchanged. |
| `JsonScanner.StringSkipped` | memory/mem9/embed-service/json.c:99-111 | A string with any escapes is skipped to just behind its closing quote. |
| `JsonScanner.NumberSkipped` | memory/mem9/embed-service/json.c:164-177 | Every JSON number is skipped whole. |
| `JsonScanner.Unescapes` | memory/mem9/embed-service/json.c:32-90 | Reading a well-formed string gives its content, \u escapes as a question mark, and what follows the quote. |
| `JsonScanner.ContentIs` | memory/mem9/embed-service/json.c:40-76 | Each item of a string gives one character: itself, what the escape stands for, or ? for a \u escape. |
| `JsonScanner.EscapeRoundTrip` | memory/mem9/embed-service/json.c:32-90 | For every byte string, parsing its encoding with two-character escapes gives it back. |
| `JsonScanner.ReadersAgreeIff` | memory/mem9/embed-service/json.c:32-111 | parse_string and skip_value come to the same end of a string, or both to none, if and only if the string is level: a scan that follows how far the four skipped bytes put one reader ahead of the other. |
| `JsonScanner.ReadersAgree` | memory/mem9/embed-service/json.c:55-61 | So they agree on every string whose \u escapes carry four characters that are neither quotes nor backslashes. |
| `JsonScanner.UnicodeSwallowsQuote` | memory/mem9/embed-service/json.c:57-61 | One string that is not level: after \u the four skipped bytes hold the closing quote. |
| `JsonReader.SkipValueAt` | memory/mem9/embed-service/json.c:93-180 | The pointer loops of skip_value compute the recursive scan: NULL for the same inputs, the same end pointer otherwise. |
| `JsonReader.SkipNestedAt` | memory/mem9/embed-service/json.c:112-149 | The container loop with its depth counter computes the recursive bracket scan. |
| `JsonReader.SkipNumberAt` | memory/mem9/embed-service/json.c:164-177 | The digit loops compute the recursive number scan. |
| `JsonReader.ReadContentAt` | memory/mem9/embed-service/json.c:38-78 | The character loop counts every character and writes exactly those that fit, whatever the capacity. |
| `JsonReader.ParseStringAt` | memory/mem9/embed-service/json.c:32-90 | Measuring and filling agree: same end, same length; filling writes the content cut to the capacity and a NUL and touches nothing behind it, measuring writes nothing. |
| `JsonReader.ReadInputAt` | memory/mem9/embed-service/json.c:224-238 | A string input is measured, limited to 64 KB and stored in a buffer of exactly its size with a NUL. |
| `JsonReader.SkipToCloseAt` | memory/mem9/embed-service/json.c:260-269 | The loop over the rest of an input array. |
| `JsonReader.ParseEmbedRequest` | memory/mem9/embed-service/json.c:186-288 | The whole parser: -1 exactly when the specification rejects the body, otherwise the struct holds the specified model, input and encoding. |
| `EmbedRequest.RequestReadAs` | memory/mem9/embed-service/json.c:186-288 | For every well-formed request object - unknown fields of any nesting in any order, input arrays of any nesting - exactly what the parser returns: a nested input array sends it on behind the first inner array that closes. |
| `EmbedRequest.RequestRecovered` | memory/mem9/embed-service/json.c:186-288 | When all input arrays are flat, the result is exactly the meaning of the members: model, input, encoding. |
| `EmbedRequest.MeaningIs` | memory/mem9/embed-service/json.c:220-287 | The meaning without an order of reading: refused exactly when a model or format is no string, an input is over 64 KB or missing; else the last input, the first 127 bytes of the last model, and float unless the last format is another one. |
| `EmbedRequest.AcceptedIff` | memory/mem9/embed-service/json.c:186-288 | A request with flat input arrays is accepted if and only if no member is refused and some member gives an input. |
| `EmbedRequest.NonObjectRefused` | memory/mem9/embed-service/json.c:196-198 | A body that is empty or any other value than an object is refused. |
| `EmbedRequest.CommasIgnored` | memory/mem9/embed-service/json.c:206 | Commas between members are not counted. |
| `EmbedRequest.UnclosedRead` | memory/mem9/embed-service/json.c:201-205 | An object cut off right behind its last value is read like a whole one; with white space behind the value it is refused. |
| `EmbedRequest.SkipToCloseExactIff` | memory/mem9/embed-service/json.c:260-269 | The loop over the rest of an input array ends behind that array if and only if no array is nested in it at any depth, within objects included. |
| `EmbedRequest.InputFieldExactIff` | memory/mem9/embed-service/json.c:223-273 | The input field is read as its meaning up to its end if and only if the array is flat. |
| `EmbedRequest.ValueToClose` | memory/mem9/embed-service/json.c:260-269 | For any value, where the loop stops: at the first inner array that closes, in an array or in an object. |
| `EmbedRequest.InArrayRejected` | memory/mem9/embed-service/json.c:202-216 | Behind an array that closed directly inside an array the request is refused. |
| `EmbedRequest.NestedInputOutcome` | memory/mem9/embed-service/json.c:202-288 | Both outcomes for an input array that is not flat: refused when the first array to close sits in an array, otherwise decided by the members behind it in the inner object. |
| `EmbedRequest.InnerModelTakesOver` | memory/mem9/embed-service/json.c:202-288 | In the second case a model in the inner object replaces the model of the request. |
| `FloatText.FastFtoa` | memory/mem9/embed-service/json.c:307-365 | For values in [-1, 1] the text is a JSON number of at most 11 bytes with the right sign and no trailing zero; its error is at most 5.1e-9 + 1.2e-7 times the value, single-precision rounding of the scaled value included; 0, 1 and -1 are exact; nothing in front of the buffer changes. |
| `FloatText.EightDigits` | memory/mem9/embed-service/json.c:348-353 | The eight digits written denote the rounded fraction. |
| `FloatText.SameFraction` | memory/mem9/embed-service/json.c:355-362 | Stripping trailing zeros keeps the value of a decimal fraction. |
| `FloatText.RoundedIsNear` | memory/mem9/embed-service/json.c:341-346 | That error bound for scaling and adding one half, each rounded with relative error 2^-24, and the cap. |
| `FloatText.ExactScalingIsNearer` | memory/mem9/embed-service/json.c:341-346 | Where the two operations are exact, the error is at most 5e-9 (below 1e-8 next to 1). |
| `FloatText.RoundingCostsDigits` | memory/mem9/embed-service/json.c:343 | The float nearest to 0.7 is scaled to 70000000 and printed as 0.7, off by more than 1e-8. |
| `FloatText.UnitPromisedIff` | memory/mem9/embed-service/json.c:341-346 | Under every rounding with the relative error of single precision, every fraction of at most m units of the eighth digit is printed with an error of at most one unit if and only if m < 2^22 (fractions up to about 0.042). |
| `FloatText.HalfUnitPromisedIff` | memory/mem9/embed-service/json.c:341-346 | An error of at most half a unit can be promised for no size of fraction at all. |
| `FloatText.WithoutTrailingZeros` | memory/mem9/embed-service/json.c:355-358 | The digits kept end behind the last one that is not zero. |
| `ResponseWriter.GenerateEmbedResponse` | memory/mem9/embed-service/json.c:371-415 | Bounded writing of the reply: on success the buffer holds head, comma-separated numbers and tail, every number within the printer's error of its value; with enough room it never fails. |
| `ResponseWriter.WriteNumber` | memory/mem9/embed-service/json.c:391-403 | One turn of the loop: comma, room checks, number. |
| `ResponseWriter.ServiceReplyFits` | memory/mem9/embed-service/main.c:260-264 | With 256 numbers, a model name below 128 bytes and the 8 KB buffer there is always enough room. |
| `ResponseWriter.ResponseIsJson` | memory/mem9/embed-service/json.c:371-415 | When the model name needs no escape, the reply is the text of one well-formed JSON object that holds exactly these numbers and this name, and the scanner reads it to its end. |
| `ResponseWriter.ReplyText` | memory/mem9/embed-service/json.c:382-410 | The reply letter by letter: its fixed text, the numbers, the model name. |
| `ResponseWriter.ReplyDenotesModelIff` | memory/mem9/embed-service/json.c:405-412 | The reply denotes the model name if and only if the name needs no escape: it is copied in raw. |
| `WorkQueue.Queue.Init` | memory/mem9/embed-service/main.c:90-98 | An empty queue that is not shut down. |
| `WorkQueue.Queue.Push` | memory/mem9/embed-service/main.c:101-128 | Appends at the tail of the linked list, or refuses and changes nothing when memory is short or 32 items wait. |
| `WorkQueue.Queue.TryPop` | memory/mem9/embed-service/main.c:130-153 | One look under the mutex: wait, exit after shutdown, or take the head; head, tail and depth stay consistent. |
| `WorkQueue.Queue.Shutdown` | memory/mem9/embed-service/main.c:155-161 | Sets the flag and keeps the contents. |
| `WorkQueue.Queue.Destroy` | memory/mem9/embed-service/main.c:163-175 | Walks the list and closes exactly the queued connections in order. |
| `WorkerPool.EveryRunIsSafe` | memory/mem9/embed-service/main.c:101-161 | In every interleaving of acceptor and workers, spurious wake-ups included: a FIFO of at most 32, every accepted connection rejected, queued, held or handled, and a non-empty queue never meets a crew that is all asleep. |
| `WorkerPool.RejectedIff` | memory/mem9/embed-service/main.c:101-128 | In every reachable state a connection is turned away if and only if memory is short or 32 others wait. |
| `WorkerPool.QueueFills` | memory/mem9/embed-service/main.c:112-116 | Some run from start-up has n connections waiting and none turned away, for every n up to 32. |
| `WorkerPool.RunKeepsInv` | memory/mem9/embed-service/main.c:374-385 | The invariant over every run. |
| `WorkerPool.StepKeepsWakeups` | memory/mem9/embed-service/main.c:125-136 | No wake-up is lost: while somebody sleeps, at least as many workers are on their way as connections wait. |
| `WorkerPool.StepKeepsAccount` | memory/mem9/embed-service/main.c:541-576 | Every step keeps the account of each connection. |
| `WorkerPool.JoinedMeansDrained` | memory/mem9/embed-service/main.c:578-588 | Once all workers have exited, the queue is empty and every connection was refused or handled. |
| `WorkerPool.ShutdownTerminates` | memory/mem9/embed-service/main.c:582-586 | After shutdown the number of further steps is bounded, so the joins return. |
| `WorkerPool.ShutdownNeverStuck` | memory/mem9/embed-service/main.c:134-141 | After shutdown some step is possible until all workers have exited. |
| `HttpRequest.HeaderEndIsFirst` | memory/mem9/embed-service/http.c:41-49 | The header block ends at the first empty line. |
| `HttpRequest.WithoutEmptyLine` | memory/mem9/embed-service/http.c:50-54 | Without an empty line more data is needed, and over 8 KB the request is refused. |
| `HttpReader.HttpParseRequest` | memory/mem9/embed-service/http.c:35-139 | The parser loops compute the specified verdict, fill the struct with the specified fields and point at the specified body. |
| `HttpReader.ReadMethod` | memory/mem9/embed-service/http.c:63-78 | Method words and the skip over an unknown one. |
| `HttpReader.HeaderPrefix` | memory/mem9/embed-service/http.c:24-33 | Case-insensitive comparison that cannot run past the newline at the end of the block. |
| `HttpReader.AtolAt` | memory/mem9/embed-service/http.c:113 | atol with white space, sign, digits and saturation. |
| `HttpReader.ReadLineAt` | memory/mem9/embed-service/http.c:100-122 | One header line with its newline, optional carriage return and value. |
| `HttpReader.ReadLinesAt` | memory/mem9/embed-service/http.c:95-123 | The header loop. |
| `HttpReader.JudgeRequest` | memory/mem9/embed-service/http.c:125-138 | Is the body there, and where. |
| `HttpReader.ReadRequest` | memory/mem9/embed-service/main.c:292-320 | The read loop answers what the specified loop over recv calls answers, with the fields of that request. |
| `HttpChunks.HeadDecidesFieldsIff` | memory/mem9/embed-service/http.c:110-113 | The fields depend on the header block alone if and only if no Content-Length value is blank to the end of the block. |
| `HttpChunks.ChunkIndependence` | memory/mem9/embed-service/http.c:35-139 | For a stream within the buffer there is one cutoff: every shorter prefix needs more data, every other prefix gets the same verdict, fields and body, whatever stale bytes follow. |
| `HttpChunks.FirstRequestIndependentOfChunking` | memory/mem9/embed-service/main.c:292-320 | The first request read does not depend on how recv splits the bytes nor on what the buffer held before. |
| `HttpChunks.IndependentIff` | memory/mem9/embed-service/main.c:292-320 | The outcome for the first request is the same for every way of receiving the stream and every old buffer contents if and only if no Content-Length value is blank to the end of the block, or the block fills the buffer or leaves one byte that the stream itself sets to a zero length. |
| `HttpChunks.BlankLengthReadsStaleByte` | memory/mem9/embed-service/http.c:112-113 | With a blank Content-Length the byte behind the header block, not yet received, decides the verdict. |
| `HttpChunks.JudgeLength` | memory/mem9/embed-service/http.c:124-139 | A length over 128 KB or negative is refused; otherwise the body has that length, or more data is needed. |
| `HttpMessage.RequestRecovered` | memory/mem9/embed-service/http.c:35-139 | Every well-formed request - any method word, path, headers in any letter case and order - whose bytes have arrived is recovered exactly: method, path, content type, and a body as long as the last Content-Length says. |
| `HttpMessage.RequestReceived` | memory/mem9/embed-service/main.c:292-320 | Every well-formed request of up to 4096 bytes is recovered by the read loop however its bytes arrive, whatever the buffer held and whatever follows. |
| `HttpMessage.FieldsAre` | memory/mem9/embed-service/http.c:62-123 | Recovered are the method, up to 255 bytes of the path, and up to 127 bytes of the last content type without its leading spaces. |
| `HttpMessage.AtolOfText` | memory/mem9/embed-service/http.c:113 | atol on white space, a sign and digits gives the signed number, saturating in 64 bits. |
| `HttpMessage.LineIs` | memory/mem9/embed-service/http.c:96-123 | A line ends at its newline, less one carriage return; a line that starts with either ends the headers. |
| `HttpMessage.PathIsFirstWord` | memory/mem9/embed-service/http.c:80-92 | The path goes up to the first space or end of line. |
| `HttpMessage.HeadersRead` | memory/mem9/embed-service/http.c:95-123 | Reading the text of any header list gives its meaning; the last Content-Length and Content-Type count. |
| `HttpMessage.AccumulatesValue` | memory/mem9/embed-service/http.c:113 | The digit loop of atol computes the decimal value. |
| `HttpMessage.MessageEnd` | memory/mem9/embed-service/http.c:41-49 | In the text of a well-formed request the first empty line is the one that ends the headers. |
| `HttpFraming.LengthIsStandardIff` | memory/mem9/embed-service/http.c:110-136 | For every well-formed request the parser's body length is that of section 6.3 of RFC 9112 if and only if there is no Transfer-Encoding, all Content-Length values are the same, and they fit a long. |
| `HttpFraming.StandardRequestRecovered` | memory/mem9/embed-service/http.c:35-139 | Every well-formed request to which that section gives a length of at most 128 KB is recovered with exactly that body. |
| `HttpFraming.TransferCodingIgnored` | memory/mem9/embed-service/http.c:110-138 | A request in a transfer coding and without Content-Length is taken for complete with an empty body. |
| `HttpFraming.ConflictingLengthsAccepted` | memory/mem9/embed-service/http.c:110-113 | Contradicting Content-Length values, an unrecoverable error by the standard, are accepted and the last one counts. |
| `HttpFraming.LastLengthCounts` | memory/mem9/embed-service/http.c:110-113 | The last Content-Length line decides. |
| `CircuitBreaker.CircuitBreaker.AllowRequest` | core/orchestrator/loop.py:169-180 | Admits unless open and still cooling down; moves an open breaker to half open. |
| `CircuitBreaker.CircuitBreaker.RecordSuccess` | core/orchestrator/loop.py:182-187 | Closes, clears the count and restores the first cooldown. |
| `CircuitBreaker.CircuitBreaker.RecordFailure` | core/orchestrator/loop.py:189-198 | Counts; doubles the cooldown up to 3600 s after a failed probe; opens at the threshold. |
| `CircuitBreaker.CooldownOverRuns` | core/orchestrator/loop.py:161-204 | Over every run, with k failed probes since the last success, the cooldown is min(initial * 2^k, 3600); the breaker is closed below the threshold of failures and open from it on, since the last of them. |
| `CircuitBreaker.FailuresAreSpaced` | core/orchestrator/loop.py:161-204 | Over every run: the n-th failure since the last success comes at least the sum of the first n - threshold cooldowns after the one that opened the breaker. |
| `CircuitBreaker.OneCallPerOpenPeriod` | core/orchestrator/loop.py:173-178 | Over every run: with the breaker open, the next call is not asked for before the cooldown since the last failure has passed. |
| `CircuitBreaker.CallEndsOpenPeriod` | core/orchestrator/loop.py:182-198 | That call ends the open period: it closes the breaker, or a new period starts when its failure is recorded. |
| `CircuitBreaker.SuccessStartsOver` | core/orchestrator/loop.py:182-187 | The runs that can follow a success are the runs of a new breaker, and they lead to the same states but for an opening time nothing reads. |
| `CircuitBreaker.CooldownDoubles` | core/orchestrator/loop.py:194 | Doubling with the cap steps through the cooldowns. |
| `CircuitBreaker.GatewayCooldowns` | core/orchestrator/loop.py:194-213 | With the gateway breaker the cooldowns are 5, 10, 20, 40 and from then on 60 minutes. |
| `OrchestratorLoop.Orchestrator.RunTurn` | core/orchestrator/loop.py:1141-1339 | One turn of the loop: order of the checks, pauses, backoff, breaker, call and counters. |
| `OrchestratorLoop.Orchestrator.CallGateway` | core/orchestrator/loop.py:1252-1336 | Bookkeeping of tokens, spend, the three classes of reply and the exceptions. |
| `OrchestratorLoop.Orchestrator.CheckBudgetGuard` | core/orchestrator/loop.py:448-485 | The projection guard. |
| `OrchestratorLoop.RunKeepsBooks` | core/orchestrator/loop.py:1204-1339 | Over every run: successful + failed advance with the iterations, skipped stay within successful, the cumulative spend stays the price of all tokens, the breaker counts no more failures than the loop. |
| `OrchestratorLoop.RunTally` | core/orchestrator/loop.py:1228-1336 | Over every run each counter is the tally of its iterations: tokens of every reply that came, successes, skips, and failures in a row - which a success ends and a failure reported by the agent leaves alone. |
| `OrchestratorLoop.Prices` | core/orchestrator/loop.py:425-428 | 12 cents for a million prompt tokens, 75 for a million completion tokens. |
| `OrchestratorLoop.CalledIff` | core/orchestrator/loop.py:1141-1246 | A turn calls the gateway exactly when neither a shutdown, the runtime, the budget guard, the iteration limit, the PAUSE file, the emergency pause, a shutdown during backoff nor the breaker keeps it from doing so. |
| `OrchestratorLoop.PausedRunIsIdle` | core/orchestrator/loop.py:1168-1173 | While the PAUSE file exists no run changes anything. |
| `OrchestratorLoop.IterationsAreLimited` | core/orchestrator/loop.py:1163-1166 | No run goes beyond MAX_ITERATIONS. |
| `OrchestratorLoop.TurnEndsRun` | core/orchestrator/loop.py:1141-1166 | A shutdown request, the end of the runtime or the last iteration end the run. |
| `OrchestratorLoop.EmergencyPauseIsFinal` | core/orchestrator/loop.py:1204-1215 | Once the failure count has reached its maximum no gateway call happens any more, even when the PAUSE file is removed. |
| `OrchestratorLoop.GuardPassesIff` | core/orchestrator/loop.py:448-485 | The guard passes if and only if the run is in its first six minutes or the spend is within the budget times min(1, elapsed share). |
| `OrchestratorLoop.GuardedCallWithinBudget` | core/orchestrator/loop.py:1160-1262 | A call whose guard was read after six minutes starts within the released budget; the spend after it exceeds the budget by at most its cost. |
| `OrchestratorLoop.GuardedRunWithinBudget` | core/orchestrator/loop.py:1141-1339 | The same bound over runs whose guards are all active. |
| `OrchestratorLoop.RunWithinBudget` | core/orchestrator/loop.py:1141-1339 | Over every run: from the first turn with an active guard on, the spend ends at most one call above the budget, or where the early turns have left it. |
| `OrchestratorLoop.CallsBoundedIff` | core/orchestrator/loop.py:448-485 | For given clock readings every call starts within the released share of the budget - released when the guard is read, or up to the call - if and only if the guard was read after six minutes; that the call starts after them is not enough. |
| `OrchestratorLoop.EarlyGuardDoesNotBind` | core/orchestrator/loop.py:457-459 | An unhindered turn makes its call if and only if the guard was read in the first six minutes or passes: an early guard binds no call, whenever it starts and whatever has been spent. |
| `OrchestratorLoop.LoopIsBreakerRun` | core/orchestrator/loop.py:1228-1336 | Every run of the loop is a run of the breaker and leaves the breaker in the state of that run. |
| `OrchestratorLoop.BreakerOfLoop` | core/orchestrator/loop.py:1236-1336 | At every point of every run of the loop, the breaker (state, count, cooldown, start of the open period) is a function of the failed calls since the last one that reached the agent. |
| `OrchestratorLoop.LoopCallsIff` | core/orchestrator/loop.py:1236-1246 | A turn that asks the breaker calls the gateway if and only if fewer than threshold calls have failed since, or the cooldown after the last failure has passed. |
| `OrchestratorLoop.LoopFailuresAreSpaced` | core/orchestrator/loop.py:1236-1336 | Over every run of the loop: the n-th failed call since the last one that reached the agent comes at least the sum of the first n - threshold cooldowns after the one that opened the breaker. |
| `OrchestratorLoop.ProbesAreBounded` | core/orchestrator/loop.py:1204-1242 | Refused turns count as failures, so before the emergency pause at most maxFailures calls, hence maxFailures - threshold probes, fail in a row. |
| `OrchestratorLoop.BreakerTripsIff` | core/orchestrator/loop.py:1204-1246 | Without an iteration limit, some run reaches a refusal by the breaker if and only if its threshold is below the limit of the emergency pause. |
| `MetricsWriter.Writer.TakeSnapshot` | core/orchestrator/loop.py:363-368 | The locked part of a flush carries out exactly the snapshot step of the system, by the thread or in stop(). |
| `MetricsWriter.Writer.FlushToDisk` | core/orchestrator/loop.py:363-380 | An undisturbed flush carries out the snapshot step and, if there is anything to write, the write step. |
| `MetricsWriter.NoMarkedUpdateLost` | core/orchestrator/loop.py:350-386 | In every interleaving, whatever writes fail, the file never goes back; as long as the last write succeeded, each marked update is on disk or newer there, in a pending snapshot, or counted as dirty. |
| `MetricsWriter.StopWritesFinalMetrics` | core/orchestrator/loop.py:342-348 | When stop() returns after the join and the last write succeeded, the file holds the final metrics. |
| `MetricsWriter.FinalMetricsOnDiskIff` | core/orchestrator/loop.py:342-380 | When stop() returns, the file holds the final metrics if and only if there was no update or some write succeeded whose snapshot was taken after the last one. |
| `MetricsWriter.NoWriteWithoutMark` | core/orchestrator/loop.py:363-380 | A failed flush is not repeated: with nothing dirty and no snapshot pending, the file stays as it is until the next mark, whatever else happens. |
| `MetricsWriter.StopCanFinish` | core/orchestrator/loop.py:342-348 | stop() is never stuck on the writer. |
| `MetricsWriter.FailedWriteLosesUpdate` | core/orchestrator/loop.py:367-380 | A run in which one failed write loses the last update: the dirty count is cleared before the write. |
| `BraceScan.FindJsonObjects` | core/orchestrator/loop.py:767-794 | The two nested loops compute the left-to-right brace spans and keep those that parse. |
| `BraceScan.ConsidersExactlyTheBlocks` | core/orchestrator/loop.py:775-793 | However a text is cut into brace-free gaps, minimal balanced blocks and a tail without a complete block, exactly those blocks are considered; nothing after a brace that is never closed. |
| `BraceScan.EveryTextIsCut` | core/orchestrator/loop.py:775-793 | Every text has such a cut, so for every text exactly its blocks are considered. |
| `BraceScan.ResultsAreBlocks` | core/orchestrator/loop.py:775-794 | The results are the blocks of the text from left to right, less those that json.loads refuses. |
| `BraceScan.FoundInProseIff` | core/orchestrator/loop.py:775-793 | In brace-free prose a text that starts with a brace is found, and nothing else is, if and only if it is a block: its depth comes back to zero at its end and not before, braces inside strings counted. |
| `BraceScan.ValueNested` | core/orchestrator/loop.py:777-787 | A well-formed JSON object whose strings hold nested braces is one block. |
| `BraceScan.ObjectFoundInProse` | core/orchestrator/loop.py:767-794 | An object whose strings hold nested braces, inside brace-free prose, is found and parsed, and nothing else is. |
| `BraceScan.LoneBraceInStringHidesObject` | core/orchestrator/loop.py:780-785 | An instance of an object that is no block: one lone brace inside a string hides it. |
| `RestartLimiter.DaemonState.MonitorSandboxes` | archive/project-mytool/cmd/tent/daemon.go:376-436 | One poll over all sandboxes. |
| `RestartLimiter.DaemonState.MonitorOne` | archive/project-mytool/cmd/tent/daemon.go:377-435 | Policy, limit, cooldown, delay and recording for one sandbox. |
| `RestartLimiter.DaemonState.HandleRestart` | archive/project-mytool/cmd/tent/daemon.go:510-536 | The restart request clears the count only. |
| `RestartLimiter.DaemonState.HandleReset` | archive/project-mytool/cmd/tent/daemon.go:556-572 | The reset request forgets one sandbox or all. |
| `RestartLimiter.RunKeepsInv` | archive/project-mytool/cmd/tent/daemon.go:376-436 | The invariant of the bookkeeping over every run, with requests between any two critical sections of the monitor. |
| `RestartLimiter.RestartWindow` | archive/project-mytool/cmd/tent/daemon.go:401-416 | Of any MaxRestarts + 1 consecutive automatic attempts without a request for the sandbox in between, two neighbours are more than ten minutes apart. |
| `RestartLimiter.RestartSpacing` | archive/project-mytool/cmd/tent/daemon.go:418-421 | Neighbouring attempts are at least RestartDelay apart; only reset-restarts shortens the wait, the restart request does not. |
| `RestartLimiter.AttemptsUpToLimit` | archive/project-mytool/cmd/tent/daemon.go:401-435 | The limit is exact: MaxRestarts attempts at exactly the delay are made. |
| `RestartLimiter.VisitAtEnd` | archive/project-mytool/cmd/tent/daemon.go:376-435 | From an idle monitor a visit restarts a sandbox if and only if it has failed under policy always or on-failure or has stopped under policy always, and the limits allow it. |
| `RestartLimiter.FirstRestart` | archive/project-mytool/cmd/tent/daemon.go:376-435 | A sandbox that is down for the first time is restarted and counted once. |
| `RestartLimiter.NeverRestarted` | archive/project-mytool/cmd/tent/daemon.go:380-394 | A sandbox that is never seen down is not restarted in any run. |
| `RestartLimiter.AtLimitReopensIff` | archive/project-mytool/cmd/tent/daemon.go:401-416 | At the limit the next visit restarts if and only if more than ten minutes and the delay have passed; the count starts over. |
| `RestartLimiter.RequestDuringVisitIsLost` | archive/project-mytool/cmd/tent/daemon.go:432-435 | When the visit has got as far as starting the sandbox, a restart request leaves no trace at all. |
| `RestartLimiter.VisitIsRun` | archive/project-mytool/cmd/tent/daemon.go:376-436 | An undisturbed visit is the run of its critical sections. |
| `RestartLimiter.VisitTouchesOne` | archive/project-mytool/cmd/tent/daemon.go:432-435 | A visit leaves all other sandboxes alone. |
| `RestartLimiter.RequestStandsIff` | archive/project-mytool/cmd/tent/daemon.go:396-435 | A restart or reset request while the monitor is at the sandbox, in any phase: after the visit it still stands if and only if the visit has recorded no attempt, which was settled before the request. |
| `RestartLimiter.VisitEnds` | archive/project-mytool/cmd/tent/daemon.go:396-435 | How a visit ends from any phase: with an attempt recorded, or with the counters as they were but for the count after the cooldown. |
| `BackupPrune.GroupBySandbox` | archive/project-mytool/cmd/tent/backup.go:566-570 | The map holds every sandbox's backups in index order. |
| `BackupPrune.SortNewestFirst` | archive/project-mytool/cmd/tent/backup.go:578-581 | A newest-first permutation; the order of equal times is open. |
| `BackupPrune.SplitGroup` | archive/project-mytool/cmd/tent/backup.go:572-599 | One group: left alone, or split along a newest-first order. |
| `BackupPrune.SplitIndex` | archive/project-mytool/cmd/tent/backup.go:562-600 | All groups, in any order of the map. |
| `BackupPrune.SplitConserves` | archive/project-mytool/cmd/tent/backup.go:562-600 | The index is the deleted and the retained backups together, as multisets. |
| `BackupPrune.UntargetedUntouched` | archive/project-mytool/cmd/tent/backup.go:573-576 | With --sandbox the others keep everything in order. |
| `BackupPrune.RetainedIsPrefix` | archive/project-mytool/cmd/tent/backup.go:583-599 | In each pruned sandbox the retained backups and then the deleted ones are a newest-first order; no retained one is too old or older than a deleted one. |
| `BackupPrune.RetainedCount` | archive/project-mytool/cmd/tent/backup.go:586-592 | Exactly min(keep, young ones) are retained. |
| `BackupPrune.PruneExact` | archive/project-mytool/cmd/tent/backup.go:571-600 | Per sandbox: one not asked for keeps everything; else the newest are retained, none over the age and at most keep, and nothing is deleted that is not over the age while fewer than keep are retained. |
| `BackupPrune.OnlyNamedDeleted` | archive/project-mytool/cmd/tent/backup.go:573-576 | With --sandbox only backups of that sandbox are deleted. |
| `BackupPrune.PruneIdempotent` | archive/project-mytool/cmd/tent/backup.go:562-600 | Pruning the result again at the same time deletes nothing, however ties are sorted. |
| `BackupPrune.AgeLimitIff` | archive/project-mytool/cmd/tent/backup.go:728 | The age limit is the days asked for if and only if there are at most 106751 of them. |
| `BackupPrune.AgeLimitWraps` | archive/project-mytool/cmd/tent/backup.go:728 | 213504 days wrap around to less than half an hour. |
| `BackupPrune.Repository.Prune` | archive/project-mytool/cmd/tent/backup.go:543-643 | The command: refusals, --json and --dry-run which delete nothing, removal of archives, saved index. |
| `BackupPrune.Repository.RemoveArchives` | archive/project-mytool/cmd/tent/backup.go:627-634 | Removes the archives of the deleted backups and adds up their sizes, stuck files included. |
| `BackupPrune.RetainedKeepArchives` | archive/project-mytool/cmd/tent/backup.go:628-632 | No archive of a retained backup is removed, given distinct entries with ids of one length. |
| `Tokenizer.Tokenize` | memory/mem9/embed-service/embedder.c:87-134 | The index loops compute the token list. |
| `Tokenizer.FindTokenEnd` | memory/mem9/embed-service/embedder.c:98-125 | Where a token ends. |
| `Tokenizer.TokenIsLongest` | memory/mem9/embed-service/embedder.c:98-125 | Maximal munch: the token is the longest prefix that is a token. |
| `Tokenizer.TokenKinds` | memory/mem9/embed-service/embedder.c:98-125 | What a token can be, written out: words of letters, digits and underscores, eleven operators, any other single byte but white space. |
| `Tokenizer.TokensMunched` | memory/mem9/embed-service/embedder.c:87-134 | The tokens are ordered and disjoint, between 1 and 256 bytes long, and each is the longest token at its place. |
| `Tokenizer.TokensAreLimited` | memory/mem9/embed-service/embedder.c:92-133 | The list holds exactly the first 4096 tokens of at most 256 bytes. |
| `Tokenizer.TokensCoverText` | memory/mem9/embed-service/embedder.c:87-134 | All tokens of a text put together are the text without white space. |
| `Tokenizer.TokensKeepText` | memory/mem9/embed-service/embedder.c:87-134 | So is the list, without a run over 256 bytes and with fewer than 4096 tokens. |
| `Tokenizer.RetokenizeSame` | memory/mem9/embed-service/embedder.c:87-134 | Tokenizing the tokens of any text, joined by spaces, gives the same list. |
| `Tokenizer.FoldKeepsTokens` | memory/mem9/embed-service/embedder.c:61-134 | Folding the case moves no token. |
| `SubTokenizer.SubtokenizeCamelSnake` | memory/mem9/embed-service/embedder.c:144-173 | The loops append the camelCase and snake_case parts. |
| `SubTokenizer.FindPartEnd` | memory/mem9/embed-service/embedder.c:153-163 | Where a part ends. |
| `SubTokenizer.PartIsLongest` | memory/mem9/embed-service/embedder.c:153-163 | No longer prefix is a part. |
| `SubTokenizer.PartsKeepWord` | memory/mem9/embed-service/embedder.c:144-173 | While there is room, the parts are the word without its underscores. |
| `FeatureChannels.ChannelTrigrams` | memory/mem9/embed-service/embedder.c:179-222 | The trigram channel lands in its 64 places and nowhere else. |
| `FeatureChannels.ChannelWords` | memory/mem9/embed-service/embedder.c:228-278 | The word channel. |
| `FeatureChannels.ChannelBigrams` | memory/mem9/embed-service/embedder.c:459-515 | The bigram channel. |
| `FeatureChannels.CaseFoldInvariance` | memory/mem9/embed-service/embedder.c:179-278 | Folding the case of the text changes none of the three channels. |
| `FeatureChannels.CountsAreSums` | memory/mem9/embed-service/embedder.c:269 | Each bucket is the signed weighted sum of the keys that hash to it. |
| `FeatureChannels.BucketIs` | memory/mem9/embed-service/embedder.c:206-275 | A stored bucket is that sum over the root of the number of keys; a text of fewer than three bytes is not divided. |
| `FeatureChannels.OneKey` | memory/mem9/embed-service/embedder.c:179-265 | A key goes, under the seed of its channel, to one of 64, 64 or 32 buckets, with the sign of bit 8 of its hash and weight 1, or 1 + ln(1 + length) for a word. |
| `FeatureChannels.ChannelPlaces` | memory/mem9/embed-service/embedder.c:179-275 | The channels take places 0 to 63, 64 to 127 and 192 to 223 of the vector and leave the others alone. |
| `FeatureChannels.TrigramsAreWindows` | memory/mem9/embed-service/embedder.c:184-203 | The trigram keys are all windows of three bytes, folded; of a shorter text its bytes. |
| `FeatureChannels.KeysOfText` | memory/mem9/embed-service/embedder.c:228-251 | The word keys are the folded words among the first 4096 tokens, the bigram keys their neighbouring pairs. |
| `FeatureChannels.OrderDoesNotMatter` | memory/mem9/embed-service/embedder.c:228-278 | A channel depends only on how often each key occurs: a bag of words. |
| `FeatureChannels.BigramKeyTellsWords` | memory/mem9/embed-service/embedder.c:490-494 | A bigram key determines its two words. |
| `FeatureChannels.WordKeyLosesLastByteIff` | memory/mem9/embed-service/embedder.c:247-250 | The key is the whole folded word if and only if it is shorter than 256 bytes. |
| `DeepMerge.DeepMerge` | core/compose.py:74-89 | The loop over the override with its recursion computes the merge, key by key. |
| `DeepMerge.MergeFragments` | core/compose.py:135-138 | The fold over the fragments. |
| `DeepMerge.EmptyIsIdentity` | core/compose.py:82-89 | The empty dict is an identity on both sides. |
| `DeepMerge.MergeIdempotent` | core/compose.py:82-89 | Merging a value with itself changes nothing. |
| `DeepMerge.SubsumedIff` | core/compose.py:82-89 | A merge gives back the override if and only if it covers every key of the base at every depth. |
| `DeepMerge.AssociativeIff` | core/compose.py:82-89 | Merging three values is associative if and only if no path is dict, non-dict, dict with something in the first dict that the last does not override. |
| `DeepMerge.EmptyDictDoesNotResurrect` | core/compose.py:82-89 | Dict, scalar, dict at one path alone does not break associativity. |
| `DeepMerge.LostDictResurrects` | core/compose.py:82-89 | A key of the first dict that the last lacks does. |
| `DeepMerge.LastWriterWinsIff` | core/compose.py:82-89 | A merge is path-wise last-writer-wins if and only if it puts no leaf over a dict with entries. |
| `DeepMerge.FoldIsLastWriterWins` | core/compose.py:135-138 | So is the fold over fragments that pairwise do not. |
| `DeepMerge.FoldIsLastWriterWinsIff` | core/compose.py:135-138 | For any fragments the fold is path-wise last-writer-wins if and only if whatever a later leaf buries is written again after it. |
| `DeepMerge.MergedView` | core/compose.py:82-89 | What a merge shows at any path: the override's entry, nothing below a leaf of the override, otherwise the base's entry. |
| `FindingsMerge.MergeSources` | memory/asmr/searcher.py:427-446 | The nested merge loops with seen_ids compute the merge of all hits. |
| `FindingsMerge.MergeSource` | memory/asmr/searcher.py:430-446 | The loop over one source. |
| `FindingsMerge.FindExisting` | memory/asmr/searcher.py:438-446 | The search for the finding to boost finds the first with the id. |
| `FindingsMerge.MergedIds` | memory/asmr/searcher.py:427-446 | The merged ids are unique and are the union of the non-empty ids. |
| `FindingsMerge.MergedInOrder` | memory/asmr/searcher.py:427-446 | The findings come in the order in which their ids are first met. |
| `FindingsMerge.MergedFinding` | memory/asmr/searcher.py:436-446 | An id found by m sources keeps its first relevance, ends with confidence c for m = 1 and min(1, c + 0.1 (m - 1)) otherwise, and lists the m sources in found_by. |
| `FindingsMerge.RankedSorts` | memory/asmr/searcher.py:448-452 | Sorting by relevance times confidence is a best-first permutation. |
| `FindingsMerge.RankedIsStable` | memory/asmr/searcher.py:448-452 | Findings with equal scores keep their order. |
| `FindingsMerge.SearchPool` | memory/asmr/searcher.py:427-455 | Merge, sort and trim. |
| `FindingsMerge.BestAreKept` | memory/asmr/searcher.py:448-455 | Every kept score is at least every dropped one, nothing gets lost otherwise, and as many are kept as the limit allows. |
| `FindingsMerge.Dedup` | memory/asmr/searcher.py:255-267 | The per-agent loops keep each id once. |
| `FindingsMerge.DedupedUnique` | memory/asmr/searcher.py:255-267 | They keep exactly the non-empty ids. |
| `FindingsMerge.DedupedInOrder` | memory/asmr/searcher.py:255-267 | They keep the ids in the order in which they are first returned. |
| `FindingsMerge.AgentFindingsOk` | memory/asmr/searcher.py:255-286 | Ranked and trimmed, an agent's findings still have unique ids: what the merge relies on. |
| `FindingsMerge.AgentFindingsRated` | memory/asmr/searcher.py:255-333 | Each is a memory that a sub-query returned, rated as ranked or with one half. |
| `FindingsMerge.LastCompletionWins` | memory/asmr/searcher.py:411-425 | by_source holds, for each specialization, the results of the last agent to finish. |
| `FindingsMerge.PutKeepsPlaces` | memory/asmr/searcher.py:411-425 | A specialization keeps its place in by_source; a new one comes last. |
| `FindingsMerge.AllFindingsMergedIff` | memory/asmr/searcher.py:411-446 | A memory is among the merged findings if and only if an agent found it that no later one of its specialization overtakes. |

## Left out

- FastFtoa: values outside [-1, 1] and NaN go to `snprintf`, which is reported as a fallback and not modelled; of single-precision rounding only the relative error and two fixed points are used.
- GenerateEmbedResponse: requires values in [-1, 1], what the normalized embedding gives; the `snprintf` fallback of the number printer has no model.
- ParseEmbedRequest: a failing `malloc` is not modelled.
- ReadRequest: one request at a time; bytes behind the first request, which the code drops between keep-alive requests, timeouts and EINTR are not modelled.
- StopWritesFinalMetrics: stop() may return from a join that times out while a write is running; the model covers the join that returns because the thread is done. The flush thresholds are left open: the writer may flush at any time.
- LengthIsStandardIff: a Content-Length is one decimal number, as the grammar of a well-formed request says; lists of equal numbers in one line and other malformed values are not part of the grammar.
- RetainedKeepArchives: ids of one length are assumed; generated ids have 12 characters.
- MergedFinding: findings are values; that by_source and the merged list share the same dicts, and fields that no step reads (content, tags), are not modelled.
- MergeSources: negative or missing confidences are covered as any real number; the defaults for absent keys cannot occur because every agent sets them.
- CaseFoldInvariance: the code-specific and global channels and the final normalization are not modelled; they are counts and ratios with no property of this kind.
- RunTurn: idle mode is switched off in the source; learning counters, logging, prompts and the health summary change nothing that is modelled.
- Prune: `time.Time` subtraction saturates in Go after 292 years and is exact here; loading and parsing of the index are parameters.
- MonitorSandboxes: listing errors end a poll early and change nothing; `time.Since` is exact except for the zero time, where it saturates as in Go.
- DeepMerge: the order of dict keys and the copying of shared sub-dicts are not modelled; nor is the rewiring of services after the fold.
- Command line handling, tables and JSON output of the tent commands, and the packages behind them.
- Response classification, nested lookup of keys, prompt building and idle detection in the orchestrator.
- Groups, labels, environments, contexts, ports, configuration validation, ensemble voting, observer deduplication, detach keys and length-prefix framing: only easy properties.
