# API usage analyzer: the report writer and its helpers, in Dafny

The API usage analyzer finds every reference to the public API of an assembly
across many repositories. It writes a live report in the KDL document language.
This project models the deterministic core of that tool and proves what the core
promises.

- **KDL writer** (`KdlWriter`, `KdlStrings`, `KdlEscapeLoop`, `KdlDocument`):
  - deciding whether a string may be written bare as an identifier;
  - the quoted form, with two-character escapes and `\u` hex escapes of variable width;
  - `_`-grouped numbers;
  - the writer's state machine over node depth, line start, "inside node",
    single-line mode and "after property name", with its fail-fast exceptions.

  Strings are sequences of UTF-16 code units (`Utf16.Text`), so lone surrogates, which
  the writer rejects, can be represented. The main theorem,
  `KdlDocument.DocumentWritten`, states the following. Running the writer on the calls
  that emit a well-formed node tree writes exactly a declarative layout of that tree.
- **Report aggregation and rendering** (`Discovered`, `ResultState`, `Report`,
  `ReportProperties`, `Linq`):
  - ingestion is append-only into two dictionaries and a list;
  - at render time, referenced identities are classified as used or removed, and
    declared ones as unused;
  - rendering is the tree of nodes `IngestAndCompile` emits;
  - properties proved about what that tree says: counts, sort order at every
    grouping level, `url=` presence, and when `in-generated-source` appears.

  Rendering is a pure function of the state, so rendering the same state twice gives
  the same text.
- **Concurrency primitives as sequential transition systems**:
  - `AutoResetEvent`;
  - `Debouncer`, driven by the test timer;
  - `DelayedProcessor`, with its loop split into passes.

  Each public call is one atomic step, as it is under the source's lock or atomic
  exchange.
- **Small pure helpers**:
  - `Extensions`: `Partition`, `NotNull`, the char-range enumerator and the VSS error-code prefix;
  - `GitUtils`: the `git status --porcelain=2 --branch` header parser and the path conversion;
  - `ProjectUtils`: the target-framework derivation;
  - `GitHubRepository`: the source-browser URL;
  - `ProcessExecutionResult`: the error predicate and message.

  `StringOps` holds the .NET string operations these helpers share.

Where the code and its design description differ, the model follows the code:

- Disposing a single-line scope sets single-line mode to false. It does not restore
  the earlier value (`KdlWriter.ScopeDoesNotRestore`).
- `\u` is followed by bare lowercase hex digits, with no braces. The KDL standard's
  `\u{...}` form is not what is written.
- The `in-generated-source` node lists the frameworks of all references without a
  URL, not only the frameworks that no URL reference covers. The node appears only
  when at least one such framework is uncovered.

## Model

| member | source | states |
|---|---|---|
| KdlStrings.IdentifierNeedsNoEscaping | src/ApiUsageAnalyzer/KdlWriter.cs:198-217 | A string accepted as a bare identifier holds no character of the escaping set and no surrogate, so writing it bare loses nothing. |
| KdlStrings.ShortEscapeInverse | src/ApiUsageAnalyzer/KdlWriter.cs:145-162 | Each two-character escape (`\"`, `\\`, `\r`, `\n`, `\b`, `\f`) reads back as the character it stands for, and only characters of the escaping set get one. |
| KdlStrings.EscapeChar | src/ApiUsageAnalyzer/KdlWriter.cs:143-172 | Escaping a character of the escaping set fails exactly for a surrogate; otherwise the escape starts with a backslash and is at least two characters long. |
| KdlStrings.EscapeBodyFailsIffSurrogate | src/ApiUsageAnalyzer/KdlWriter.cs:136-174 | Quoting a string's body fails if and only if the string contains a surrogate. |
| KdlStrings.FormatString | src/ApiUsageAnalyzer/KdlWriter.cs:122-178 | A value fails iff it holds a surrogate. Otherwise it is written unchanged iff quotes are not forced and it is a valid identifier; in every other case it is written between double quotes. |
| KdlStrings.UnicodeEscapeRead | src/ApiUsageAnalyzer/KdlWriter.cs:167-171 | A `\u` escape, in minimal width when the next character is not a hex digit or in six digits, reads back as the escaped code unit to a greedy reader that takes up to six hex digits. |
| KdlStrings.EscapeRoundTrip | src/ApiUsageAnalyzer/KdlWriter.cs:134-176 | For every surrogate-free string, the escaped body unescapes to the original string. Characters outside the escaping set are copied verbatim. |
| KdlStrings.FormatStringRoundTrip | src/ApiUsageAnalyzer/KdlWriter.cs:122-178 | For every surrogate-free string and either quoting choice, the written value, bare or quoted, reads back as the original string. |
| KdlEscapeLoop.IndexOfEscaping | src/ApiUsageAnalyzer/KdlWriter.cs:136 | The index of the first character that needs escaping, or -1 when none does; no earlier character needs escaping. |
| KdlEscapeLoop.WriteQuotedBody | src/ApiUsageAnalyzer/KdlWriter.cs:134-176 | The loop that copies runs of plain characters and escapes one character at a time writes exactly the recursively defined escaped body, and fails on a surrogate. |
| Numerals.LowerHexRoundTrip | src/ApiUsageAnalyzer/KdlWriter.cs:171 | The `x`/`x6` lowercase hex rendering of a number reads back as that number. |
| Numerals.LowerHexLength | src/ApiUsageAnalyzer/KdlWriter.cs:170-171 | For a code unit, the `x` format writes at most four digits and the `x6` format exactly six. |
| Numerals.GroupThousandsShape | src/ApiUsageAnalyzer/KdlWriter.cs:8-12 | The `N0` format with separator `_` and group size 3 puts `_` exactly at the positions that start a full group of three digits counted from the right, and nowhere else. |
| Numerals.GroupThousandsStrip | src/ApiUsageAnalyzer/KdlWriter.cs:180-184 | Removing the separators from a grouped number gives back its plain decimal digits. |
| KdlWriter.NewWriter | src/ApiUsageAnalyzer/KdlWriter.cs:14-19 | A new writer has written nothing, is at depth 0 at the start of a line, and is not inside a node, in single-line mode, or after a property name. |
| KdlWriter.StartNode | src/ApiUsageAnalyzer/KdlWriter.cs:32-64 | Fails iff a property value is pending. Otherwise it goes one level deeper and writes the opening before the name: ` {` and a newline to close an open parent, `;` between siblings on one line, then indentation or one space. |
| KdlWriter.EndNode | src/ApiUsageAnalyzer/KdlWriter.cs:66-98 | Fails iff a property value is pending. Otherwise it goes one level shallower, leaves the node, keeps the single-line mode, and ends at a line start unless in single-line mode mid-line. A node without children just ends its line (nothing in single-line mode). After children on the same line it writes ` }`, then a newline unless in single-line mode. After children on their own lines it writes `}` and a newline, indented to the parent's depth. |
| KdlWriter.StartValue | src/ApiUsageAnalyzer/KdlWriter.cs:114-120 | A value right after a property name gets no leading space; any other value gets exactly one. The pending-property flag is cleared and nothing else changes. |
| KdlWriter.WriteStringValue | src/ApiUsageAnalyzer/KdlWriter.cs:122-178 | Fails with the surrogate error iff the value holds a surrogate. Otherwise it writes the separator, then the formatted value. |
| KdlWriter.WritePropertyName | src/ApiUsageAnalyzer/KdlWriter.cs:100-106 | Fails while a value is pending, or for a name with a surrogate. Otherwise it writes a space, the formatted name and `=`, and leaves a value pending. |
| KdlWriter.WriteNumberValue | src/ApiUsageAnalyzer/KdlWriter.cs:180-184 | Writes the value's separator, then the `N0` text of the number. Without its `_` separators that text is the number's decimal digits, after a `-` for a negative number. |
| KdlWriter.EnterSingleLineMode | src/ApiUsageAnalyzer/KdlWriter.cs:21-25 | Writes nothing and changes nothing but the single-line flag, which it sets. |
| KdlWriter.DisposeSingleLineScope | src/ApiUsageAnalyzer/KdlWriter.cs:27-30 | Writes nothing and changes nothing but the single-line flag, which it clears whatever its earlier value. |
| KdlWriter.WriteLine | src/ApiUsageAnalyzer/KdlWriter.cs:219-225 | Fails iff the writer is not at the start of a line; otherwise it writes one newline and changes nothing else. |
| KdlWriter.RunAppend | src/ApiUsageAnalyzer/KdlWriter.cs:32-225 | Two call sequences run one after the other behave as their concatenation, and the first exception ends the run. |
| KdlWriter.RunExtends | src/ApiUsageAnalyzer/KdlWriter.cs:6 | The writer only appends: every successful run extends the text written before and keeps the line terminator. |
| KdlWriter.PropertyMustBeFollowedByValue | src/ApiUsageAnalyzer/KdlWriter.cs:100-120 | After a property name, starting a node, ending a node or writing another property name throws. The next string value is written with no leading space. |
| KdlWriter.ValueAfterValueIsSpaced | src/ApiUsageAnalyzer/KdlWriter.cs:114-120 | Outside a property, every string or number value is preceded by exactly one space. |
| KdlWriter.ScopeDoesNotRestore | src/ApiUsageAnalyzer/KdlWriter.cs:21-30 | Entering a scope while already in single-line mode and then disposing it gives the writer back with single-line mode off and everything else as before, so the earlier state is not restored. |
| KdlWriter.StartEndDepth | src/ApiUsageAnalyzer/KdlWriter.cs:32-98 | Outside a property, `StartNode` then `EndNode` succeed and restore the node depth. |
| KdlDocument.DocumentWritten | src/ApiUsageAnalyzer/KdlWriter.cs:32-98 | For a well-formed node tree, a fresh writer running the tree's calls writes exactly the tree's layout. That layout has two-space indentation, ` {`/`}` blocks, and single-line children as `{ a x; b y }`. |
| ResultState.IngestSources | src/ApiUsageAnalyzer/RealtimeResultFormatter.cs:48-52 | Ingestion appends the batch's declaration sources, in order, to the list; nothing is removed. |
| ResultState.IngestApis | src/ApiUsageAnalyzer/RealtimeResultFormatter.cs:53-62 | For every identity, the stored declarations after a batch are the earlier ones followed by that batch's declarations of the identity, in batch order. |
| ResultState.IngestReferences | src/ApiUsageAnalyzer/RealtimeResultFormatter.cs:63-72 | For every identity, the stored references after a batch are the earlier ones followed by that batch's references to the identity, in batch order. |
| ResultState.IngestValid | src/ApiUsageAnalyzer/RealtimeResultFormatter.cs:44-78 | Ingestion keeps both dictionaries well keyed: unique keys, no empty list, every item stored under its own identity. |
| ResultState.IngestBatches | src/ApiUsageAnalyzer/RealtimeResultFormatter.cs:42-78 | Ingesting two batches one after the other is ingesting their concatenation. |
| ResultState.PartitionByRemoval | src/ApiUsageAnalyzer/RealtimeResultFormatter.cs:80-81 | Partitioning the referenced entries by `Remove` on a copy of the declarations gives the declared entries as matched and the undeclared ones as unmatched, in order. It leaves the copy without the referenced keys. |
| ResultState.ClassifyReferences | src/ApiUsageAnalyzer/RealtimeResultFormatter.cs:80-81 | A referenced identity is current iff it is declared and removed iff it is not. Together they number the distinct referenced identities. |
| ResultState.ClassifyUnused | src/ApiUsageAnalyzer/RealtimeResultFormatter.cs:80-84 | An entry is unused iff it is declared, never referenced, and at least one of its declarations is not excluded from the unused report. |
| ResultState.ReferenceCounts | src/ApiUsageAnalyzer/RealtimeResultFormatter.cs:113-119 | `used-api-count` is the number of referenced and declared identities. `removed-api-count` is the number of referenced, undeclared ones. |
| ResultState.UnusedKey | src/ApiUsageAnalyzer/RealtimeResultFormatter.cs:83-84 | An identity remains in the unused set iff it is declared, never referenced, and not all its declarations are excluded. |
| ResultState.UnusedCount | src/ApiUsageAnalyzer/RealtimeResultFormatter.cs:109-111 | `unused-api-count` is the number of such identities. |
| Linq.SortBy | src/ApiUsageAnalyzer/RealtimeResultFormatter.cs:178 | `OrderBy` returns a permutation of its input. |
| Linq.SortByStable | src/ApiUsageAnalyzer/RealtimeResultFormatter.cs:178 | `OrderBy` is stable under any total preorder. For every key, the elements whose keys the comparer ranks equal to it appear in the result in their source order. |
| Linq.SortBySorted | src/ApiUsageAnalyzer/RealtimeResultFormatter.cs:178 | Under any total preorder the result of `OrderBy` is sorted by key. |
| Linq.DistinctSorted | src/ApiUsageAnalyzer/RealtimeResultFormatter.cs:133 | `Distinct().Order()` holds each input value exactly once, sorted under a total preorder. |
| Linq.SortedGroupBy | src/ApiUsageAnalyzer/RealtimeResultFormatter.cs:121 | `GroupBy(key).OrderBy(g => g.Key)` holds one group per key, and every item is in the group of its key. Under a total preorder the groups are sorted. |
| Report.DocumentWellFormed | src/ApiUsageAnalyzer/RealtimeResultFormatter.cs:86-171 | In a valid state whose strings hold no surrogate, the report's node tree is well formed: single-line scopes hold plain leaves only, and no first child asks for a blank line. These are the trees on which the writer does not throw. |
| Report.Compile | src/ApiUsageAnalyzer/RealtimeResultFormatter.cs:86-173 | A valid state whose strings hold no surrogate gives a well-formed document, and compiles without error to exactly the layout of the report's tree. |
| ReportProperties.DocumentHead | src/ApiUsageAnalyzer/RealtimeResultFormatter.cs:89-147 | The document is `assembly` with the assembly name. It starts with `current-api-source`, then `stats` with the three counts (unused, removed, used identities) and the version breakdown of all references, removed ones included. |
| ReportProperties.DocumentSections | src/ApiUsageAnalyzer/RealtimeResultFormatter.cs:149-171 | The three sections hold exactly as many nodes as there are unused, removed and still-referenced identities. After the statistics come `unused-apis` when some identity is unused, then `removed-apis` when some is removed, each after a blank line. Then comes one `api` node per current identity, with a blank line before the first. |
| ReportProperties.SourcesListed | src/ApiUsageAnalyzer/RealtimeResultFormatter.cs:92-105 | `current-api-source` holds a `repo`, `branch` and `commit` node per recorded source, in recorded order. |
| ReportProperties.StatsListing | src/ApiUsageAnalyzer/RealtimeResultFormatter.cs:121-145 | The statistics hold one `version` node per API version among all references, in order. Each node lists its repositories in order, each with its distinct frameworks in order. |
| ReportProperties.StatsCoverReferences | src/ApiUsageAnalyzer/RealtimeResultFormatter.cs:121-145 | Version `v` lists repository `p` with framework `t` iff some reference has that version, repository and framework. |
| ReportProperties.RepoStatPairs | src/ApiUsageAnalyzer/RealtimeResultFormatter.cs:126-139 | A `repo` node `p` lists framework `t` iff some of the items is in repository `p` with framework `t`. |
| ReportProperties.FrameworksListed | src/ApiUsageAnalyzer/RealtimeResultFormatter.cs:131-139 | A node with single-line `tfm` children lists each of the given frameworks exactly once, in order. |
| ReportProperties.UnusedApiNodeListing | src/ApiUsageAnalyzer/RealtimeResultFormatter.cs:180-196 | An unused entry is `api` with the quoted identity and the `url=` of its first declaration. It lists exactly the frameworks of its declarations, once each, in order. |
| ReportProperties.UnusedListing | src/ApiUsageAnalyzer/RealtimeResultFormatter.cs:176-198 | `unused-apis` holds one node per unused identity, sorted, each built from all of that identity's declarations. |
| ReportProperties.ApiListing | src/ApiUsageAnalyzer/RealtimeResultFormatter.cs:202-205 | There is one `api` node per referenced identity, sorted, each built from all of that identity's references. |
| ReportProperties.ApiUrls | src/ApiUsageAnalyzer/RealtimeResultFormatter.cs:205-211 | Every used API carries the quoted identity and `url=` from its first declaration; no removed API carries `url=`. |
| ReportProperties.VersionListing | src/ApiUsageAnalyzer/RealtimeResultFormatter.cs:213-217 | Under an API, one `version` node per version of its references, sorted, each built from that version's references. |
| ReportProperties.RepoListing | src/ApiUsageAnalyzer/RealtimeResultFormatter.cs:218-222 | Under a version, one `repo` node per repository, sorted, each built from that repository's references. |
| ReportProperties.ReferenceListing | src/ApiUsageAnalyzer/RealtimeResultFormatter.cs:225-244 | Under a repository, one `reference` node per reference URL, sorted. Each lists the distinct frameworks of the references with that URL, in order. |
| ReportProperties.ReferencePairs | src/ApiUsageAnalyzer/RealtimeResultFormatter.cs:225-244 | A `reference` node for URL `u` lists framework `t` iff some reference has URL `u` and framework `t`. |
| ReportProperties.RepresentedMember | src/ApiUsageAnalyzer/RealtimeResultFormatter.cs:223-236 | `representedTfms` holds exactly the frameworks of the references that have a URL. |
| ReportProperties.GeneratedIff | src/ApiUsageAnalyzer/RealtimeResultFormatter.cs:246-247 | The `in-generated-source` node appears iff some reference without a URL has a framework that no reference with a URL has. |
| ReportProperties.GeneratedListing | src/ApiUsageAnalyzer/RealtimeResultFormatter.cs:246-264 | There is at most one such node: `reference "in-generated-source"` listing the frameworks of all references without a URL, once each, in order. |
| Extensions.Partition | src/ApiUsageAnalyzer/Extensions.cs:96-105 | Each source element goes to exactly one output: matched and unmatched together are as long as the source. Which elements go where, and in what order, is stated by `Extensions.PartitionSelects`. |
| Extensions.PartitionSelects | src/ApiUsageAnalyzer/Extensions.cs:96-105 | `Partition` evaluates the predicate once per element, in order, threading the predicate's state. Matched and unmatched are the elements with a true and a false answer, each in source order. |
| Extensions.PartitionPermutes | src/ApiUsageAnalyzer/Extensions.cs:101-102 | Together, matched and unmatched hold every source element exactly once. |
| Extensions.NotNull | src/ApiUsageAnalyzer/Extensions.cs:26-29 | The result is never longer than the source, and a value is in it iff the source holds it as a non-null element. |
| Extensions.NotNullKeeps | src/ApiUsageAnalyzer/Extensions.cs:26-29 | `NotNull` keeps the non-null elements in source order and multiplicity: wrapping the result again gives exactly the `Some` elements of the source, as `Where(item => item is not null)` does. Hence it keeps everything when none is null and nothing when all are. |
| Extensions.NewCharRange | src/ApiUsageAnalyzer/Extensions.cs:49-56 | The enumerator constructor throws iff the end is before the start; otherwise it starts before the first character. |
| Extensions.MoveNext | src/ApiUsageAnalyzer/Extensions.cs:62-75 | `MoveNext` answers true iff the current character is not the end; it then moves to the start, or to the next character. |
| Extensions.Reset | src/ApiUsageAnalyzer/Extensions.cs:77 | `Reset` keeps the range and returns to the state before the first character. |
| Extensions.CharRangeYields | src/ApiUsageAnalyzer/Extensions.cs:62-77 | A new enumerator yields `start..end` inclusive, ascending, each once, and a reset enumerator yields the same again. |
| Extensions.MoveNextAfterEnd | src/ApiUsageAnalyzer/Extensions.cs:70-71 | Once at the end, `MoveNext` keeps answering false and changes nothing. |
| Extensions.VssErrorCode | src/ApiUsageAnalyzer/Extensions.cs:10-19 | An error code, when found, is a non-negative 32-bit integer. |
| Extensions.VssErrorCodeShape | src/ApiUsageAnalyzer/Extensions.cs:10-19 | A message starting with `VS` in any case, decimal digits and `:` gives the digits' value when that fits in an `int`, and nothing otherwise. |
| Extensions.VssErrorCodeSome | src/ApiUsageAnalyzer/Extensions.cs:10-19 | Conversely, a code is found only for a message that starts with `VS` in any case, then digits, then `:`. |
| AutoResetEvent.Set | src/ApiUsageAnalyzer/Utils/AsyncAutoResetEvent.cs:9-23 | `Set` keeps the event's invariant, never un-completes a task and creates no task. Afterwards no wait is pending. |
| AutoResetEvent.WaitAsync | src/ApiUsageAnalyzer/Utils/AsyncAutoResetEvent.cs:25-43 | `WaitAsync` completes no task. The task it returns is complete iff the event was signaled, and afterwards the event is not signaled. |
| AutoResetEvent.InitiallyNotSignaled | src/ApiUsageAnalyzer.Tests/AsyncAutoResetEventTests.cs:8-13 | The first wait on a new event is incomplete. |
| AutoResetEvent.SetBeforeWait | src/ApiUsageAnalyzer.Tests/AsyncAutoResetEventTests.cs:15-21 | A set with nobody waiting makes the next wait complete at once and resets the event. |
| AutoResetEvent.SetAfterWait | src/ApiUsageAnalyzer.Tests/AsyncAutoResetEventTests.cs:23-30 | A set while a wait is pending completes that wait's task and resets the event. |
| AutoResetEvent.AutoReset | src/ApiUsageAnalyzer.Tests/AsyncAutoResetEventTests.cs:32-48 | Once a signal has been consumed, by a pending wait or by the next wait, the following wait is incomplete. |
| AutoResetEvent.SetTwice | src/ApiUsageAnalyzer.Tests/AsyncAutoResetEventTests.cs:50-58 | Setting twice with no wait pending is the same as setting once. |
| AutoResetEvent.SameTaskWhilePending | src/ApiUsageAnalyzer.Tests/AsyncAutoResetEventTests.cs:60-67 | Waits while a wait is pending get the same task. |
| AutoResetEvent.ImmediateWaitsBounded | src/ApiUsageAnalyzer/Utils/AsyncAutoResetEvent.cs:9-43 | Over any sequence of calls, the waits that complete at once never outnumber the `Set` calls, and a pending signal accounts for one more. |
| Debouncer.CreateTimerAsWritten | src/ApiUsageAnalyzer.Tests/TestTimeProvider.cs:20-24 | The test timer's constructor as written: whatever due time is asked for, the timer is not disarmed. |
| Debouncer.CreateTimer | src/ApiUsageAnalyzer.Tests/TestTimeProvider.cs:8-13 | The corrected constructor: the timer starts with the requested due time and period. |
| Debouncer.New | src/ApiUsageAnalyzer/Utils/Debouncer.cs:10-17 | A new debouncer is idle, its action has not run, and its timer is disarmed with infinite due time and infinite period. |
| Debouncer.Signal | src/ApiUsageAnalyzer/Utils/Debouncer.cs:35-39 | After `Signal` the flag is set. If it already was, nothing changes; otherwise the timer is armed once with the delay and an infinite period. |
| Debouncer.Fire | src/ApiUsageAnalyzer.Tests/TestTimeProvider.cs:29-36 | Firing fails iff the timer is not due. Otherwise the action runs once more and the due time becomes the period. The busy flag, the period and the delay are left as they were, so the callback does not set `isWaitingOrActing`. |
| Debouncer.EndAction | src/ApiUsageAnalyzer/Utils/Debouncer.cs:19-29 | After the action, even a throwing one, the flag is cleared and the timer is untouched. |
| Debouncer.FiresOnlyWhenArmed | src/ApiUsageAnalyzer/Utils/Debouncer.cs:35-39 | In every reachable state the timer can fire iff a signal armed it and the action has not started. |
| Debouncer.BurstRunsOnce | src/ApiUsageAnalyzer.Tests/DebouncerTests.cs:26-51 | Any number of signals from idle arm the timer once. Firing runs the action exactly once and leaves the timer disarmed. |
| Debouncer.SignalDuringAction | src/ApiUsageAnalyzer.Tests/DebouncerTests.cs:53-84 | A signal while the action runs is dropped and causes no second run. After the action ends, the next signal re-arms the timer. |
| Debouncer.CallsBounded | src/ApiUsageAnalyzer/Utils/Debouncer.cs:19-39 | Over any sequence of signals, fires and action ends, the invariant holds. The action runs no more often than `Signal` is called, and an armed timer accounts for one more. |
| Debouncer.AsWrittenFiresUnsignalled | src/ApiUsageAnalyzer.Tests/TestTimeProvider.cs:20-27 | With the test timer as written, a new debouncer fires, and fires again, without any signal. |
| Debouncer.NotDueBeforeSignal | src/ApiUsageAnalyzer/Utils/Debouncer.cs:16 | With the corrected timer, a new debouncer cannot fire before a signal. |
| DelayedProcessor.Enqueue | src/ApiUsageAnalyzer/Utils/DelayedProcessor.cs:49-60 | `Enqueue` throws iff completion was requested. Otherwise the items join the end of the queue and nothing else changes. |
| DelayedProcessor.Complete | src/ApiUsageAnalyzer/Utils/DelayedProcessor.cs:62-70 | `CompleteAsync` throws iff completion was already requested. Otherwise it sets the flag and keeps the queue. |
| DelayedProcessor.Pass | src/ApiUsageAnalyzer/Utils/DelayedProcessor.cs:27-47 | One loop pass drains the whole queue together with the completion snapshot and hands it over as one batch, only if it is non-empty. The loop exits iff completion was requested. |
| DelayedProcessor.RunInv | src/ApiUsageAnalyzer/Utils/DelayedProcessor.cs:12-60 | In every history, the delivered batches followed by the queue are exactly the accepted items in order. No delivered batch is empty. |
| DelayedProcessor.AllDelivered | src/ApiUsageAnalyzer/Utils/DelayedProcessor.cs:36-45 | Once the loop has exited, every accepted item was delivered exactly once, in order. |
| DelayedProcessor.CompletionDrains | src/ApiUsageAnalyzer/Utils/DelayedProcessor.cs:62-76 | After completion is requested, the next pass delivers everything accepted and ends the loop. |
| DelayedProcessor.EnqueueAfterCompleteRefused | src/ApiUsageAnalyzer/Utils/DelayedProcessor.cs:49-56 | After completion is requested, an `Enqueue` changes nothing. |
| DelayedProcessor.IngestEachFlatten | src/ApiUsageAnalyzer/RealtimeResultFormatter.cs:42-78 | Running the formatter's callback batch by batch is ingesting the concatenation of the batches. |
| DelayedProcessor.FormatterIngestsAll | src/ApiUsageAnalyzer/RealtimeResultFormatter.cs:15-20 | When the formatter's processor has finished, its state is what ingesting every accepted item in order gives. |
| StringOps.TrimStart | src/ApiUsageAnalyzer/SourceControl/GitUtils.cs:47 | `TrimStart` returns the suffix after the leading white space; what remains does not start with white space. |
| StringOps.IndexOfPair | src/ApiUsageAnalyzer/SourceControl/GitUtils.cs:67 | `IndexOf(" -")` finds the first position where the pair starts, or none iff the pair does not occur. |
| StringOps.LastIndexOfFrom | src/ApiUsageAnalyzer/Utils/ProjectUtils.cs:12 | `LastIndexOf(c, startIndex)` finds the last occurrence at or before the start index, or none iff there is none. |
| GitUtils.TopLevelDirectory | src/ApiUsageAnalyzer/SourceControl/GitUtils.cs:28 | Every `/` of git's output becomes `\` and every other character is kept. |
| GitUtils.SplitAtSpace | src/ApiUsageAnalyzer/SourceControl/GitUtils.cs:49-53 | A header splits iff it contains a space. The key is the text before the first space and the value the text after it. |
| GitUtils.ParseHeader | src/ApiUsageAnalyzer/SourceControl/GitUtils.cs:44-53 | Only lines starting with `#` parse. After the `#` and leading white space, a line with a space always parses into key, space and value. |
| GitUtils.HeaderRoundTrip | src/ApiUsageAnalyzer/SourceControl/GitUtils.cs:44-53 | A `#` line with any white-space padding, a key and a value parses back to that key and value. |
| GitUtils.ParsedOrZero | src/ApiUsageAnalyzer/SourceControl/GitUtils.cs:69-70 | A count that does not parse as plain decimal digits within `int` range is stored as 0. |
| GitUtils.AheadBehind | src/ApiUsageAnalyzer/SourceControl/GitUtils.cs:66-72 | `branch.ab` changes only the counts, and only for a value that starts with `+` and contains ` -`. For such a value, ahead is the parse of the text between the `+` and the first ` -`, and behind the parse of the text after it, each 0 when it is not in-range digits. |
| GitUtils.AheadBehindFallback | src/ApiUsageAnalyzer/SourceControl/GitUtils.cs:69-70 | A count that fails to parse is stored as 0 without affecting the other: `+x -3` gives ahead 0 and behind 3. |
| GitUtils.AheadBehindRoundTrip | src/ApiUsageAnalyzer/SourceControl/GitUtils.cs:66-72 | The `+a -b` value git writes parses back to the two counts. |
| GitUtils.LastOccurrenceWins | src/ApiUsageAnalyzer/SourceControl/GitUtils.cs:36-65 | Oid and head are the values of the last lines with their keys, or empty when there is none. The upstream is the value of the last `branch.upstream` line. |
| GitUtils.BranchStatusOf | src/ApiUsageAnalyzer/SourceControl/GitUtils.cs:30-76 | Oid and head are the values of the last lines naming them, or empty. Tracking information is present iff some line names an upstream, and then it names the last one. Its ahead and behind counts are those of the last `branch.ab` line whose value is read, or 0 and 0 when there is none. |
| GitUtils.LastCountsWin | src/ApiUsageAnalyzer/SourceControl/GitUtils.cs:39-72 | The counts the loop ends with come from the last `branch.ab` line whose value starts with `+` and contains ` -`. Lines with any other value leave the earlier counts in place, and with no such line both stay 0. |
| GitUtils.OtherLinesIgnored | src/ApiUsageAnalyzer/SourceControl/GitUtils.cs:55-73 | A line that is not a header with one of the four keys changes nothing. |
| GitUtils.NoSpaceSkipped | src/ApiUsageAnalyzer/SourceControl/GitUtils.cs:49-51 | A line with no space is skipped. |
| ProjectUtils.TargetFrameworkIfMultitargeting | src/ApiUsageAnalyzer/Utils/ProjectUtils.cs:8-20 | A framework is found iff the name has at least three characters, ends with `)` and has a `(` before the last character. The result contains no `(`, and the name is a prefix, `(`, the result and `)`. |
| ProjectUtils.MultitargetingRoundTrip | src/ApiUsageAnalyzer/Utils/ProjectUtils.cs:10-15 | Conversely, a name ending in a parenthesised text with no `(` gives back that text. |
| ProjectUtils.SingleOrDefault | src/ApiUsageAnalyzer/Utils/ProjectUtils.cs:34 | No element gives nothing and one element gives its value. More than one throws, naming the property. |
| ProjectUtils.VersionMoniker | src/ApiUsageAnalyzer/Utils/ProjectUtils.cs:49-56 | A version becomes a moniker that starts with `net` and has no dot after it. |
| ProjectUtils.VersionMonikerOf | src/ApiUsageAnalyzer/Utils/ProjectUtils.cs:49-56 | `v` or `V` followed by dot-separated parts gives `net` followed by the parts run together. |
| ProjectUtils.VersionMonikerExample | src/ApiUsageAnalyzer/Utils/ProjectUtils.cs:56 | `v4.7.2` gives `net472`. |
| ProjectUtils.TargetFramework | src/ApiUsageAnalyzer/Utils/ProjectUtils.cs:22-29 | The multitargeting name wins over everything; without it, a project with no file path throws. |
| ProjectUtils.Precedence | src/ApiUsageAnalyzer/Utils/ProjectUtils.cs:34-57 | A single `TargetFramework` wins. Without it, a single `TargetFrameworks` is used unless it lists several. Without both, a single `TargetFrameworkVersion` of .NET Framework gives its moniker. |
| ProjectUtils.Failures | src/ApiUsageAnalyzer/Utils/ProjectUtils.cs:52-59 | No framework property throws, two `TargetFramework` elements throw, and a non-.NET Framework identifier beside a version throws. |
| GitHubRepository.FileUrl | src/ApiUsageAnalyzer/SourceControl/GitHubRepository.cs:39 | The file link is the browser URL, `/blob/HEAD/`, then the path with backslashes turned into slashes. No backslash is left after the prefix. |
| GitHubRepository.Anchor | src/ApiUsageAnalyzer/SourceControl/GitHubRepository.cs:43-45 | The line anchor starts with `#L`. |
| GitHubRepository.SourceCodeBrowserUrl | src/ApiUsageAnalyzer/SourceControl/GitHubRepository.cs:36-49 | The link starts with the file link, and nothing follows it iff there is no selection. |
| GitHubRepository.AnchorRoundTrip | src/ApiUsageAnalyzer/SourceControl/GitHubRepository.cs:43-45 | The anchor reads back as the first line, plus the last line exactly when that is after the first. |
| GitHubRepository.ColumnsIgnored | src/ApiUsageAnalyzer/SourceControl/GitHubRepository.cs:41-46 | Columns never change the link. |
| GitHubRepository.SelectionLink | src/ApiUsageAnalyzer/SourceControl/GitHubRepository.cs:41-46 | With a selection, the text after the file link reads back as the selected lines. |
| ProcessExecutionResult.ThrowIfError | src/ApiUsageAnalyzer/Utils/ProcessExecutionResult.cs:15-19 | It throws iff the exit code is non-zero, or error output exists (blank or not) and is checked. The exception carries the message. |
| ProcessExecutionResult.ExitCodeOnly | src/ApiUsageAnalyzer/Utils/ProcessExecutionResult.cs:17 | Without the error-output check only the exit code decides. The strict check fails whenever the lenient one does, and agrees with it when there is no error output. |
| ProcessExecutionResult.Message | src/ApiUsageAnalyzer/Utils/ProcessExecutionResult.cs:21-40 | The message always starts with `<file> ended with exit code <N>.` |
| ProcessExecutionResult.BlankOutputs | src/ApiUsageAnalyzer/Utils/ProcessExecutionResult.cs:23-39 | With both outputs blank, the message is that sentence alone. |
| ProcessExecutionResult.Sections | src/ApiUsageAnalyzer/Utils/ProcessExecutionResult.cs:26-37 | The `Stderr:` section appears iff the error output is not blank, and the `Stdout:` section iff the standard output is not blank. Standard output follows after one space when there is no error section, and after a blank line otherwise. |

## Left out

- Roslyn symbol walking, compilation and syntax helpers (finding references, the public API surface, the analyzer driver, `SyntaxUtils`): they depend on a foreign semantic model.
- Network and hosting: Azure DevOps and the HTTP parts of GitHub, rate limiting, and the Azure DevOps URL builder, which depends on URL encoding. Only `GetSourceCodeBrowserUrl` of `GitHubRepository` is modelled.
- Files, processes and the CLI: running git, reading the project XML, the local workspace, file utilities, console output and repository filters. Git's output lines are an input of `GitUtils`. The project's name, whether it has a file path, and the values of its framework elements are inputs of `ProjectUtils`. `EnumerateLines` is taken as a given sequence of lines.
- `Path.GetFileName` and `Environment.NewLine` are parameters (`fileNameOf`, `newLine`, and the writer's `newLine`).
- Culture-sensitive ordering: `OrderBy` and `Order()` on strings use an abstract comparer `leq`. The sort-order statements hold when it is a total preorder; the permutation and membership statements hold for any comparer.
- Culture-sensitive number formatting: interpolated integers (the exit code in the process error message, the line numbers of a GitHub link) are written with `-` as the negative sign. Under a culture whose `NumberFormatInfo.NegativeSign` is another character, such as U+2212, a negative value would be written differently.
- `HashSet` enumeration order in the `in-generated-source` node: the set is ordered before it is written, so only its contents matter. It is modelled as a duplicate-free sequence.
- `First()` on an empty declaration list is never reached: a dictionary entry always has at least one item (`ResultState.Valid`). The report therefore writes `url=` only for a non-empty list.
- The queued item's `NotImplementedException` for an unknown type cannot happen: the queue holds only the three record types (`Discovered.Item`).
- Real concurrency: locks, `Interlocked`/`Volatile`, task continuations (`Mirror`), real timers, disposal (`DisposeAsync`), and exceptions from the callback travelling through the run task.
- DelayedProcessor.Pass: a pass may run at any time, not only after a wake-up of the auto-reset event. This over-approximates the debouncer-driven wake-ups, so the invariants hold for every schedule the real loop can follow.
- Debouncer.Fire: the timer is the test double's timer, fired by hand as in the tests, and the action's own effect is left out. Only how often it runs is counted.
- KdlWriter.WriteStringValue: when a surrogate makes it throw, the model returns the error and drops the writer. The text already written is lost: the separator (or the cleared pending-property flag), the opening `"` and the escaped prefix. `KdlWriter.WritePropertyName` likewise leaves neither `=` nor a pending property. `KdlWriter.Run` stops at the first error, and the report never catches one, so no later call sees that state.
- KdlWriter.WriteNumberValue: the `int` argument is an unbounded integer, and negative numbers get a leading `-`. The report writes only counts, which are never negative.
- KdlDocument.DocumentWritten: stated for well-formed trees only. These are trees whose single-line scopes hold plain leaves and whose first children ask for no blank line; these are the shapes the report emits (`Report.DocumentWellFormed`). Other call orders are covered only by the step lemmas of `KdlWriter`.
- GitHubRepository.AnchorRoundTrip: stated for non-negative line numbers only, since the reader takes digits without a sign.
- GitUtils.AheadBehindRoundTrip: stated for counts within `int` range, since larger ones are stored as 0 (`GitUtils.ParsedOrZero`).
- ProjectUtils.TargetFramework: its own contract states only the first two steps. The property precedence and the failures are stated in `ProjectUtils.Precedence` and `ProjectUtils.Failures`.
- Debouncer.New: with the test timer as written, a new debouncer's timer is due at once. The model uses the corrected timer; see Findings.

## Findings

| source | as written | input that shows it | evidently intended | confidence | as-written member | corrected member |
|---|---|---|---|---|---|---|
| src/ApiUsageAnalyzer.Tests/TestTimeProvider.cs:20-24 | The test timer's constructor drops its `dueTime` and `period`, so `DueTime` and `Period` start at zero, not at the values the timer was created with. | A debouncer constructed with the test time provider, then `Fire()` with no `Signal()`. The timer counts as due and the action runs. It stays due (period zero) and fires again. | The timer starts with the requested due time and period, so a debouncer's timer is disarmed until `Signal` and `Fire()` before a signal throws "not due". | medium; not executed | Debouncer.AsWrittenFiresUnsignalled | Debouncer.NotDueBeforeSignal |
