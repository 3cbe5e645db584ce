# A verified model of herbarium's core

herbarium indexes a built C project (`collect`) and serves the index to agents over MCP (`serve`). This
project models the seven parts of it whose correctness is not visible from any single function, and proves
what each of them is for. Every module is one `.dfy` file; `dafny verify dfyconfig.toml` checks them all.

- **CallPaths, CallGraph** model `list_call_paths`: the edge rows are loaded into sorted, duplicate-free adjacency
  lists, and a backtracking search that shares one stack, one visited set and one output list between its frames
  enumerates paths under a depth bound and a result cap. The search is proved to append exactly the capped form of a
  reference enumeration, which in turn is exactly the simple paths, in lexicographic order. The tool is then described
  from the rows to its answer.
- **IndexSwap, SwapRuns, ReloadFacts** model the live swap of the served index as a step relation over any number of
  tool calls and reloads, with Go's writer-preferring `RWMutex`, collects that rename over the served path at any
  moment, and handles that are what `*sql.DB` is: a pool that opens connections on the path as queries need them. Lock
  and handle safety hold at every state of every run; when the reads of a call, and the stamp a reload compares with,
  are of one index is an if-and-only-if over runs; absence of deadlock and a decreasing measure give completion under
  every schedule.
- **Publication, CollectFacts** model `collect` building beside its target, closing, sealing and renaming, as a step
  relation over a path-to-inode directory. Any number of collects and readers interleave, every step of a collect, its
  clean-up included, may fail or be the last before a crash, and a reader's handle is again a pool of connections.
- **NinjaDeps** models the `.ninja_deps` reader: round trip with an encoder, tolerance of a cut at any byte, and, for
  every byte string, the records it holds byte by byte, what ends the reading, and the answers of the last records.
- **Cgraph, Usr, Aggregate, SymbolFacts, Prune, RowFacts, Ingest** follow the compiler plane from the `.cgraph` dump
  to the written rows: the block machine and its "richer wins" fold, the USRs that are the index's only join key,
  aggregation over translation units (independent of their order), and a prune that is invisible to the rows written
  afterwards. `SymbolFacts` and `RowFacts` say what the symbols and rows are in terms of the dumps alone.
  `Ingest.Compiler` is the whole run as one method.
- **DieWalk, DieFacts, TypeRender, TypeReader, CallTarget, ArgPassing** model the DWARF plane: the walk over the flat
  entry stream against the forest it serialises and what each entry says among its ancestors, the memoised type
  renderer against the plain recursion and a reader that takes a type apart again, the ULEB128/register-expression
  decoder against an independent grammar, and the replay of argument passing against the full register assignment of
  section 3.2.3 of the System V AMD64 psABI.
- **SourceSearch, SearchFacts, TopCounts** model literal `search_source`: the matches are the leftmost non-overlapping
  occurrences, totals, rows and per-file and per-directory counts balance under two separate caps, and the counts are
  then cut to the highest.

Code that works by updating state is written as classes and methods with loops, each proved against a
specification function; the theorems are about those functions and about runs of the step relations. What the
specification functions themselves compute is then said again without them, in the terms of the input: by relations
between an input and a result whose cases, constants and texts are written out (`Describes`, `IsTextOf`, `ReadsAs`,
`IsPassedAs`, `RecordedAsDumped` and the like), proved of every input and carried into what the main methods promise.

## Where the code and its documentation part

The model follows the code. These promises do not hold of it as written; each has its exact condition proved.

- `pinIndex` and `reload_index` say that a call finishes against the index it started on, and that `changed` is
  false only when the stamp is the one the server already had. A `*sql.DB` is a pool, and every connection it
  opens resolves the path again. When a collect has renamed a new index over the path and the idle connections
  are taken (`search_source` holds its row cursor while it reads a blob), one call reads two indexes
  (`SwapRuns.OneCallReadsTwoIndexes`), and a reload that swaps handles can report that nothing changed
  (`SwapRuns.ChangeGoesUnreported`). `SwapRuns.CallReadsOneIndexExactlyWhen` and
  `SwapRuns.PreviousStampExactlyWhen` say when neither happens: exactly when no connection used was opened
  after a rename since the handle was. What the read lock does guarantee, one open handle for the whole call, is
  proved without condition.
- A collect removes its scratch file and sidecars when it ends, but ignores the errors of doing so; a file that
  cannot be removed stays (`Publication.ScratchLeftBehind`), and `Publication.LeftBehindExactlyWhen` says that
  this is the only way.
- `enumeratePaths` says it "caps at limit paths". The raw list can run past the limit, because a frame that
  meets the end after the cap was reached below it still appends one path (`CallPaths.CapIsOverrun`). It stays
  within the limit exactly under the condition of `CallPaths.CapHoldsExactlyWhen`. The tool asks for one path
  more than it returns and cuts the list itself, so its answer is exact.
- `buildSignature` says a symbol's signature and a function pointer's callee type render identically. On a function
  type without children `renderSubroutineType` reads on into the siblings; `TypeRender.ChildlessDisagrees` is a
  function and a callee type that differ and `TypeRender.ChildlessAgreesExactlyWhen` says when they agree.
- `resolveViaCallTarget` declines what it cannot replay so as never to name a wrong parameter. Two things get past
  it. Every return value of class MEMORY shifts the registers, and `isAggregate` misses those under thirty-two
  qualifiers or more, under `_Atomic`, of a type that is no aggregate such as `_BitInt(256)`, and those a function's
  own entry does not name because it completes a declaration (`ArgPassing.FourThatSlip`). And `isIntegerClass`
  takes every enumeration for one register, whatever its size, while one of sixteen bytes takes a pair
  (`ArgPassing.WideEnumerationMisleads`). `ArgPassing.RouteIsRightExactlyWhen` is the exact condition for the
  registers, `ArgPassing.AnswersAreRightExactlyWhen` for the answers.
- `decodeRegExpr` converts a length to `int`; a length of 2^63 or more becomes negative and the slice that
  follows is out of range (`CallTarget.LengthTooLong`). `CallTarget.InRangeExactlyWhen` says when that cannot
  happen.
- `scan_truncated` is documented to mean that the summary undercounts. It is raised as soon as the ceiling is
  reached, so also when there are exactly 100000 matches and none is missed (`SourceSearch.ScanTruncatedMeans`,
  with an input in `SourceSearch.CeilingReachedExactly`).
- A USR does not always identify its entity. Without an '@' in any part, two entities share one exactly when they
  are the same or differ in nothing but that one's tag is spelled like the other's anonymous one
  (`Usr.UsrsCollideExactlyWhen`); `Usr.CollisionsOutside` has a collision of that kind and one through an '@'.

- Two statics share a USR when their units have no `.ci` dump: without one a unit has no source path, and a static's
  key is then its bare name, that of an external symbol (`SymbolFacts.StaticsOfNoPathMerge`).
  `SymbolFacts.ShareUsrExactlyWhen` says when two symbols of any units share one.

## Model

| member | source | states |
|---|---|---|
| CallPaths.EnumerationIsExact | internal/mcp/callgraph_source_tools.go:394-434 | for every graph, start, end and depth bound, the uncapped enumeration holds exactly the simple start-to-end paths of at most that many edges |
| CallPaths.EnumerationIsOrdered | internal/mcp/callgraph_source_tools.go:411-430 | over duplicate-free adjacency lists the paths come in lexicographic order of adjacency position, each once |
| CallPaths.PathSearch.Dfs | internal/mcp/callgraph_source_tools.go:403-431 | one frame terminates, leaves stack and visited set as it found them, and appends exactly the capped enumeration of the stack's completions |
| CallPaths.PathSearch.Descend | internal/mcp/callgraph_source_tools.go:425-429 | pushing a hop, searching on and popping restores stack and visited set |
| CallPaths.PathSearch.Emit | internal/mcp/callgraph_source_tools.go:415-423 | reaching the end appends a copy of the stack with the end on it and restores the stack |
| CallPaths.EnumeratePaths | internal/mcp/callgraph_source_tools.go:394-434 | the raw list is the enumeration cut at the limit plus what each enclosing frame still appends; trivial when start is end |
| CallPaths.CapKeepsThePrefix | internal/mcp/callgraph_source_tools.go:403-430 | for every limit and depth the results up to the limit are the first of the enumeration, and the raw list overruns it by at most depth - 1 |
| CallPaths.CapHoldsExactlyWhen | internal/mcp/callgraph_source_tools.go:391-423 | the raw list stays within the limit if and only if no enclosing frame has the end later in its list |
| CallPaths.CapIsOverrun | internal/mcp/callgraph_source_tools.go:391-423 | a three-node graph on which a limit of one yields two paths |
| CallPaths.ClampDepth | internal/mcp/callgraph_source_tools.go:269-272 | the depth used is the one asked for when that is within 1 to 16, and 6 otherwise |
| CallPaths.ListCallPaths | internal/mcp/callgraph_source_tools.go:269-293 | the answer is exactly the first fifty paths, truncated if and only if there are more |
| CallGraph.SortByName | internal/mcp/callgraph_source_tools.go:382-387 | a permutation of the list in name order, nothing promised among equal names |
| Wrappers.NameLeqAscends | internal/mcp/callgraph_source_tools.go:382-387 | name order is byte by byte, a prefix before the longer name |
| CallGraph.TakeRow | internal/mcp/callgraph_source_tools.go:359-378 | a row adds one edge unless it is filtered or already seen, and the lists stay duplicate-free |
| CallGraph.LoadCgraphAdjacency | internal/mcp/callgraph_source_tools.go:357-389 | the adjacency lists hold exactly the admitted edges of the rows, without duplicates, each list in name order |
| CallGraph.GraphPathsAreRowPaths | internal/mcp/callgraph_source_tools.go:317-434 | paths of the loaded graph are exactly the chains of admitted rows |
| CallGraph.BeforeIsByName | internal/mcp/callgraph_source_tools.go:382-430 | where two paths part, the earlier one goes on to a symbol whose name does not come after the other's |
| CallGraph.HandleListCallPaths | internal/mcp/callgraph_source_tools.go:269-303 | from rows to answer: the first fifty row paths in the order of the loaded lists, that is by the names of the symbols along them, each once; all of them when not truncated, which happens if and only if there are no more |
| IndexSwap.StepKeepsInv | internal/mcp/reload_tool.go:79-119 | every step of a call or a reload keeps the invariant on locks, pinned reads, handle and connection life cycles, served order and stamps |
| SwapRuns.RunKeepsInv | internal/mcp/mcp.go:62-73 | the invariant holds at every state of every interleaving, renames over the path included |
| SwapRuns.CallsUseOneOpenHandle | internal/mcp/mcp.go:118-132 | no call queries a closed handle, all queries of a call go to one handle on connections of it, and the served handle is always open |
| SwapRuns.AdmittedToTheLatest | internal/mcp/mcp.go:123-132 | a call is admitted to the handle of the last swap before its admission, parked or not |
| SwapRuns.OneHandlePerCall | internal/mcp/mcp.go:62-73 | over a whole run, every query of a call goes, open, to the handle installed by the last swap before the call was admitted |
| SwapRuns.SameFileExactlyWhen | internal/store/store.go:136-149 | two connections of a handle are on one file if and only if no collect renamed over the path between their openings |
| SwapRuns.CallReadsOneIndexExactlyWhen | internal/mcp/mcp.go:118-132 | over runs: all queries of a call read one file if and only if no rename came between the openings of two connections it used, and the file its handle was opened on if and only if none was opened after a rename since |
| SwapRuns.OneCallReadsTwoIndexes | internal/mcp/source_tools.go:693-712 | a run in which a call reads two indexes: its first query holds the connection over a rename, its second opens another |
| SwapRuns.WriterIsNotOvertaken | internal/mcp/reload_tool.go:109-112 | while a writer waits no further reader gets in |
| SwapRuns.ClosedOnceInstalledOrClosed | internal/mcp/reload_tool.go:97-117 | a handle is closed at most once, is open if and only if it is served or still in the charge of the one reload in progress, and closed it keeps no connection |
| SwapRuns.NothingLeaks | internal/mcp/reload_tool.go:97-117 | once all is done every handle any reload opened is closed exactly once and all its connections with it, except the served one, which is open and has none in use |
| SwapRuns.ReportIsExact | internal/mcp/reload_tool.go:101-118 | a successful reload reports the stamp of the file its handle was opened on and that of the file under the connection, of the very handle it replaced, that it read the stamp on; changed says whether they differ |
| SwapRuns.PreviousStampExactlyWhen | internal/mcp/reload_tool.go:106-147 | that file is the one the replaced handle was opened on if and only if the connection was not opened after a rename since |
| SwapRuns.ChangedIsRightExactlyWhen | internal/mcp/reload_tool.go:106-107 | with distinct stamps, changed tells whether the two handles were opened on different files if and only if the connection is on the new file just when the old handle was opened on it; so always without such a rename |
| SwapRuns.ChangeGoesUnreported | internal/mcp/reload_tool.go:106-118 | a run in which a reload replaces a handle opened on one index by one opened on another and reports no change |
| SwapRuns.FailedReloadIsSilent | internal/mcp/reload_tool.go:72-105 | a reload that fails changes the served handle at none of its steps |
| ReloadFacts.ServedIndexesAreSound | internal/mcp/reload_tool.go:89-119 | every handle served after the first was opened on a file that carries the schema version and a stamp and whose tables can be counted |
| ReloadFacts.ReloadFailsExactlyWhen | internal/mcp/reload_tool.go:89-105 | a reload that opened a handle ends in failure if and only if the file it opened lacks the schema version, a stamp or countable tables, and else in a report |
| ReloadFacts.ReportsTheFilesStamps | internal/mcp/reload_tool.go:101-118 | the stamps reported are those in the two files, empty where a file has none |
| ReloadFacts.OpensOnlyWhenNoneIsIdle | internal/store/store.go:136-149 | a query takes an idle connection of the served handle, and opens one on the file the path now names only if none is idle |
| ReloadFacts.GivenBackStaysIdleExactlyWhen | internal/store/store.go:136-149 | a connection given back stays idle if and only if its handle is open and keeps fewer than two others idle, and is closed otherwise |
| ReloadFacts.ClosingDropsTheIdle | internal/mcp/reload_tool.go:97-117 | closing a handle drops its idle connections, leaves those in use to their queries and touches no other handle |
| ReloadFacts.AtMostTwoIdle | internal/store/store.go:136-149 | no handle keeps more than two idle connections at any state of any run |
| SwapRuns.StepDescends | internal/mcp/reload_tool.go:79-119 | every step lowers the total work left |
| SwapRuns.RunsAreBounded | internal/mcp/reload_tool.go:79-119 | no schedule makes calls and reloads take more steps than the initial total, however many renames there are |
| SwapRuns.NoDeadlock | internal/mcp/mcp.go:118-132 | while any call or reload is unfinished some step is enabled |
| SwapRuns.StuckMeansComplete | internal/mcp/reload_tool.go:72-119 | a run in which only renames could still happen has completed every call and every reload |
| Publication.PerformReachesNext | cmd/herbarium/collect.go:109-193 | carrying out a stage turns what the file must hold before it into what it must hold before the next |
| Publication.CollectKeepsInv | cmd/herbarium/collect.go:92-193 | every step of a collect, failed and crashed ones included, whatever they and the deferred close leave of the file and its sidecars, keeps scratch files private, on stage and uniquely named |
| Publication.OutIsNeverIncomplete | cmd/herbarium/collect.go:97-107 | at no state of any run does an --out path name a file that has not been initialised, stamped, taken through all five passes, closed and sealed, other than one found there at the start |
| Publication.CompleteMeans | cmd/herbarium/collect.go:109-193 | complete is: schema and stamp written, five passes done, closed and sealed |
| Publication.ConnectionsAreStable | cmd/herbarium/collect.go:99-101 | the file under an open connection never changes, and was complete or there at the start when the connection was opened |
| Publication.HandleIsOneFileExactlyWhen | internal/store/store.go:136-149 | two connections of a reader's handle are on one inode if and only if no collect renamed over the path between their openings |
| Publication.OutChangesOnlyByRename | cmd/herbarium/collect.go:190-193 | one step leaves the file at an --out path as it was unless it renames a complete index there |
| Publication.FailedCollectTouchesNoOut | cmd/herbarium/collect.go:97-193 | a collect that ends in failure changed no --out path at any of its steps |
| Publication.SuccessMeansPublished | cmd/herbarium/collect.go:177-222 | a collect that reports success put a complete index at its --out path |
| Publication.LeftBehindExactlyWhen | cmd/herbarium/collect.go:258-277 | a scratch file or sidecar the clean-up has come past is still there if and only if its removal failed |
| Publication.ScratchLeftBehind | cmd/herbarium/collect.go:262-264 | a run that ends with the scratch file in place |
| Publication.NoStrayFiles | cmd/herbarium/collect.go:270-277 | whatever lies beside the --out paths belongs to a collect that crashed, has not ended, or could not remove that very file, and no --out path has a sidecar |
| CollectFacts.EventsAre | cmd/herbarium/collect.go:92-277 | which steps may fail, which may be the last, and when a name may be reserved or found taken |
| CollectFacts.LeavesWhatItSays | cmd/herbarium/collect.go:107-114 | a failed step leaves just the sidecars it says and every other name as it was |
| CollectFacts.GivesUpExactlyWhen | cmd/herbarium/collect.go:245-256 | over runs: a collect gives up on reserving a name if and only if it has run into more than ten thousand taken ones |
| CollectFacts.ReservedIsEmpty | cmd/herbarium/collect.go:245-266 | the scratch file reserved is empty, of its own and not open |
| CollectFacts.SidecarsAreRight | cmd/herbarium/collect.go:177-193 | at every state of every run the sidecars lie beside the scratch file if and only if the database is open, and after a successful rename the clean-up finds nothing |
| NinjaDeps.EncodeU32 | internal/ninjadeps/ninjadeps.go:9-14 | four bytes that read back, little-endian, as the number |
| NinjaDeps.TakesWholeRecord | internal/ninjadeps/ninjadeps.go:98-164 | a whole record is taken back as written, whatever follows it |
| NinjaDeps.StopsAtCutRecord | internal/ninjadeps/ninjadeps.go:98-122 | a record cut anywhere, its length word included, is not taken |
| NinjaDeps.TruncationIsTolerated | internal/ninjadeps/ninjadeps.go:65-69 | a valid log cut anywhere from its header on reads without error as the replay of the records wholly before the cut |
| NinjaDeps.CutFallsSomewhere | internal/ninjadeps/ninjadeps.go:98-122 | every cut from the header on is one of those |
| NinjaDeps.ReadInvertsEncode | internal/ninjadeps/ninjadeps.go:7-31 | uncut, the reader inverts the encoder |
| NinjaDeps.LastRecordWins | internal/ninjadeps/ninjadeps.go:29-31 | an output's inputs are those of the last record for it that were registered before that record, in order |
| NinjaDeps.AnswersComeFromRecords | internal/ninjadeps/ninjadeps.go:124-149 | an output has an answer only if some record sets it |
| NinjaDeps.IdsAreRanks | internal/ninjadeps/ninjadeps.go:94-95 | the paths of a replay are those of the path records, in order, so a path's id is its rank among them |
| NinjaDeps.ResolvesTheKnown | internal/ninjadeps/ninjadeps.go:137-144 | ids resolve in order, and one under which there is no path to nothing |
| NinjaDeps.AnswersAreExact | internal/ninjadeps/ninjadeps.go:93-149 | the answers of a log are those of the last record for each output, and there are no others |
| NinjaDeps.WritesRecords | internal/ninjadeps/ninjadeps.go:7-27 | the encoder writes records byte by byte as the format says, padded to four bytes |
| NinjaDeps.OnlyRecordsAreTaken | internal/ninjadeps/ninjadeps.go:98-164 | whatever the reader takes is, byte by byte, a record: length word with bit 31, path, padding and complement of the id, or output, time and inputs |
| NinjaDeps.RecordsAreTaken | internal/ninjadeps/ninjadeps.go:98-164 | and every such record of 4 to 2^24 bytes at the front of any bytes is taken, so bytes hold one sequence of records only |
| NinjaDeps.EndsAre | internal/ninjadeps/ninjadeps.go:100-163 | where none is taken, the record is cut short or of a size out of range, or has a size no dependencies have, or a wrong checksum |
| NinjaDeps.ReadsAsSpelled | internal/ninjadeps/ninjadeps.go:70-167 | every byte string is refused over its header, each way spelled out, or reads as the answers of the records in front of whatever ends the reading |
| NinjaDeps.TrimTrailingZeros | internal/ninjadeps/ninjadeps.go:155-158 | the loop drops exactly the padding |
| NinjaDeps.CollectInputs | internal/ninjadeps/ninjadeps.go:137-144 | the inputs are the registered paths among the ids, in order |
| NinjaDeps.Read | internal/ninjadeps/ninjadeps.go:70-167 | the record loop computes the log reader on every byte string, header errors, bad sizes and bad checksums included; what it returns is said of the bytes alone |
| Cgraph.MachineCutsBlocks | internal/gccdump/cgraph.go:87-196 | the line machine's observations are those of the header-led blocks, one each, in order |
| Cgraph.Parser.MergeSymbol | internal/gccdump/cgraph.go:206-254 | overwriting the stored record field by field is the fold's combination |
| Cgraph.Parser.Flush | internal/gccdump/cgraph.go:79-85 | a symbol in flight is merged once and forgotten |
| Cgraph.Parser.Take | internal/gccdump/cgraph.go:87-195 | a line changes table and symbol in flight so that the meaning of table plus remaining lines is preserved |
| Cgraph.ParseCgraph | internal/gccdump/cgraph.go:71-198 | the table is the merge folded once per block, and there are observations, one for each block and each described by its lines, of which every record is the summary |
| Cgraph.ObservedAsDescribed | internal/gccdump/cgraph.go:110-194 | what is observed of a block, from its header and details: calls, references and indirect sites are those of all its lines, flags the tokens that are no count and no remark, the address is taken if a line or an "addr" referrer says so, the rest is as the last line of its kind says |
| Cgraph.CombineSummarises | internal/gccdump/cgraph.go:206-254 | merging one more observation keeps flags or-ed, lists the last of the longest, names the last given |
| Cgraph.FoldSummarises | internal/gccdump/cgraph.go:200-254 | after any number of tables a symbol is present if and only if observed, and its record summarises all its observations |
| Cgraph.CloneParentIsKept | internal/gccdump/cgraph.go:227-230 | a clone parent, once named, is never lost |
| Usr.ItoaFitsExactly | internal/usr/usr.go:78-98 | a numeral fits the twelve-byte buffer if and only if it lies strictly between -10^11 and 10^12 |
| Usr.FillDigits | internal/usr/usr.go:82-92 | the backward loop leaves exactly the digits at the end of the buffer, and runs out of it if and only if they do not fit |
| Usr.Itoa | internal/usr/usr.go:78-98 | for every 64-bit integer: the decimal numeral with its sign where it fits, a lone "-" for the smallest integer, which negation does not change, and an index before the buffer for all others |
| Usr.ParseIntInverts | internal/usr/usr.go:76-98 | the numeral gives the integer back |
| Usr.ParseInverts | internal/usr/usr.go:19-74 | one parser recovers kind, path, name or line and column, and member or field from the USR of every well-formed entity |
| Usr.ParsedUsr | internal/usr/usr.go:19-74 | whatever parses is the USR of a well-formed entity |
| Usr.ParseInvertsExactlyWhen | internal/usr/usr.go:19-74 | this parser gives an entity back if and only if no path or name holds an '@' and no tag name is empty or starts like an anonymous one |
| Usr.UsrsCollideExactlyWhen | internal/usr/usr.go:19-74 | two entities without an '@' share a USR if and only if they are equal or differ only in that one names its tag with the text of the other's anonymous one |
| Usr.UsrsIdentify | internal/usr/usr.go:19-74 | no two well-formed entities of any kinds share a USR |
| Usr.CollisionsOutside | internal/usr/usr.go:27-74 | two pairs that do share one outside that condition |
| Usr.UsrIsNotEmpty | internal/usr/usr.go:19-32 | no symbol has the empty USR |
| Aggregate.MergeHolds | internal/ingest/ingest.go:545-576 | merging an observation adds exactly its facts: presence, linkage rank, address taken, names, definition keys |
| Aggregate.NoteCloneHolds | internal/ingest/ingest.go:452-465 | a clone adds its non-empty names and its taken address to its parent and nothing else |
| Aggregate.UnitAdds | internal/ingest/ingest.go:399-467 | a unit resolves its ids alike and adds the same facts whatever map it is added to |
| Aggregate.FactsComeFromUnits | internal/ingest/ingest.go:73-81 | a fact holds of the aggregate if and only if some unit alone contributes it |
| SymbolFacts.RecordedAsDumped | internal/ingest/ingest.go:471-543 | the record of a symbol, from the dump's own fields: its name or failing that linkage name, kind, linkage by weak and public or externally visible, a USR under the source path for internal ones and under none for others, and one definition if and only if it is analysed with its body kept, placed where the .ci dump declares it or in the unit's source |
| SymbolFacts.ShareUsrExactlyWhen | internal/ingest/ingest.go:498-511 | without an '@' in names and paths, symbols of any two units share a USR if and only if they have one name, are both variables or both not, and are either both not internal, or internal under one source path, or one of them is internal where there is no source path |
| SymbolFacts.StaticsOfNoPathMerge | internal/ingest/ingest.go:411-503 | two units without .ci dumps whose statics, of one name, share a USR |
| SymbolFacts.ResolvesAsDumped | internal/ingest/ingest.go:416-467 | a symbol that is no clone resolves if and only if it has a name, and to its own USR; a clone of one, if and only if its parent does, and to its parent's |
| SymbolFacts.UnitGives | internal/ingest/ingest.go:399-467 | the facts of a unit are at least those of its originals and their direct clones, and at most those and what chains of clones lead to |
| SymbolFacts.FlatUnitsAreExact | internal/ingest/ingest.go:399-467 | and just the former where no clone has a clone for its parent |
| SymbolFacts.AggregateGives | internal/ingest/ingest.go:73-81 | the same of the aggregate of any units |
| SymbolFacts.AggregateIsSourced | internal/ingest/ingest.go:545-576 | the name, the kind and every definition of a record, its weak mark included, are those some symbol of that USR has |
| SymbolFacts.LinkageIsStrongest | internal/ingest/ingest.go:587-593 | without chains of clones a USR is external if some symbol of it is public or externally visible and not weak, else weak if some symbol is, else internal |
| Aggregate.ResolvedArePresent | internal/ingest/ingest.go:418-467 | every local id resolved in a unit points at a symbol of the aggregate |
| Aggregate.AllProper | internal/ingest/ingest.go:471-543 | no symbol has the empty USR or common linkage |
| Aggregate.OrderDoesNotMatter | internal/ingest/ingest.go:545-593 | in any order of the units each USR has the same linkage, address-taken flag, non-empty names and definition keys |
| Aggregate.Aggregator.Merge | internal/ingest/ingest.go:552-585 | updating the record in the map, with the definition loop, is the merge |
| Aggregate.Aggregator.AggregateSymbols | internal/ingest/ingest.go:399-467 | the two loops, clones after the rest and parents recorded on demand, compute the unit's contribution and resolution |
| Prune.ResolvesWithin | internal/ingest/ingest.go:73-81 | every resolution of every unit stays within the aggregated symbols |
| Prune.SameGroups | internal/ingest/ingest.go:258-275 | dropping names without a row id changes no group whose members all survive |
| Prune.IcfUntouched | internal/ingest/ingest.go:235-294 | then the groups written are those resolved |
| Prune.RowsWithinPruned | internal/ingest/ingest.go:762-829 | every symbol that any resolved call, inline record or group names survives the prune |
| Prune.PruningIsInvisible | internal/ingest/ingest.go:831-864 | the edges, inline records and groups written for the pruned symbols equal, row for row, those written for all of them |
| Prune.PruningIsExact | internal/ingest/ingest.go:846-864 | an internal, undefined symbol whose address is not taken survives if and only if some written row names it |
| RowFacts.CallRowsAre | internal/ingest/ingest.go:696-749 | with distinct object files the call rows are the calls of the units' symbols, both ends resolved, and no others |
| RowFacts.InlineRowsAre | internal/ingest/ingest.go:177-227 | the inline rows are the optimisation records whose names stand for resolved symbols, a name standing for the first local id of that name that resolves |
| RowFacts.IcfRowsAre | internal/ingest/ingest.go:235-294 | the ICF rows are the groups whose winner is known with the other known names in order, if there are any |
| Ingest.EdgesAreDistinct | internal/ingest/ingest.go:688-692 | each caller-callee pair is written once, and exactly the pairs of the rows are |
| Ingest.FlagsAreUnions | internal/ingest/ingest.go:741-745 | a pair has an inline decision if and only if some row has the pair, and it is inlined if and only if some such row was |
| Ingest.MarkCalls | internal/ingest/ingest.go:783-796 | the call loop marks exactly the symbols its rows name |
| Ingest.BuildNameToUsr | internal/ingest/ingest.go:315-338 | the lowest sorted local id of a name that resolves gives the name its USR |
| Ingest.ReferencedUsrs | internal/ingest/ingest.go:769-829 | exactly the symbols named by some row resolved before any row id exists |
| Ingest.PruneUnreferenced | internal/ingest/ingest.go:854-864 | deleting one by one leaves exactly the symbols that are needed or referenced, untouched |
| Ingest.InsertSymbols | internal/ingest/ingest.go:607-673 | every symbol gets a row id and no two share one |
| Ingest.EdgeAccum.InsertEdges | internal/ingest/ingest.go:696-749 | a unit's edges and flags join those accumulated, deduplicated across units |
| Ingest.InsertInlineRecords | internal/ingest/ingest.go:177-227 | one row for every record both ends of which have an id; an end that does not resolve never finds one |
| Ingest.CollectLoserIds | internal/ingest/ingest.go:264-269 | comparing row ids picks the losers that comparing USRs would |
| Ingest.InsertIcfGroups | internal/ingest/ingest.go:235-294 | the groups written are those resolved against the ids |
| Ingest.Compiler | internal/ingest/ingest.go:61-145 | the whole run: the symbols are those needed or named by a row, and edges, inline decisions, inline records and groups are those of all resolved rows, none lost to the prune; and all of them, symbol facts and rows, are what the units' dumps say, without the functions that compute them |
| Ingest.RunOrderDoesNotMatter | internal/ingest/ingest.go:61-145 | two runs over units of distinct object files in any two orders keep the same symbols and write the same call edges, inline decisions, inline records and ICF groups, the last two equally often, once ids are read as USRs |
| DieWalk.SkipPassesForest | internal/dwarfingest/reader.go:365-367 | skipping children ends just past the null that closes their chain, however deep they nest |
| DieWalk.MembersOfForest | internal/dwarfingest/reader.go:349-369 | the child loop of a struct, union or enum reads the roots of its forest and consumes the whole subtree |
| DieWalk.StackIsAncestorChain | internal/dwarfingest/reader.go:39-117 | on a serialised forest the stack at every entry is exactly its ancestor chain and is restored at the end |
| DieWalk.TreeStep | internal/dwarfingest/reader.go:79-116 | the same for one tree, with structs, unions and enums pushing no frame |
| DieWalk.WholeFile | internal/dwarfingest/reader.go:39-117 | for units one after another, with any padding nulls between them |
| DieWalk.ParseInlineInstance | internal/dwarfingest/reader.go:205-245 | depth is one plus the inlined bodies below the nearest subprogram, the caller is that subprogram, the parent the innermost named inlined body; nothing without callee or caller name |
| DieWalk.ParseCallSite | internal/dwarfingest/reader.go:252-308 | enclosing function, offset and source caller come from the same chain, the location from the entry or the line table's answer |
| DieWalk.Reader.SkipChildren | internal/dwarfingest/reader.go:365-367 | the cursor moves exactly past the chain's closing null |
| DieWalk.Reader.ReadMembers | internal/dwarfingest/reader.go:349-369 | the cursor loop yields the direct children and stops past the closing null |
| DieWalk.Read | internal/dwarfingest/reader.go:39-117 | the loop over any stream, well-formed or not, records the fold of its visits |
| DieWalk.RecordEntry | internal/dwarfingest/reader.go:54-112 | the switch records each kind of entry under its own conditions |
| DieWalk.InlinesAreExact | internal/dwarfingest/reader.go:68-71 | an inline instance is recorded if and only if some entry yields it from its own chain under the file table in force |
| DieWalk.SitesAreExact | internal/dwarfingest/reader.go:73-77 | a call site is recorded if and only if some entry yields it and its place is known |
| DieWalk.VariablesAreExact | internal/dwarfingest/reader.go:107-111 | a variable is recorded if and only if some entry declares it in a known file at the level of its unit |
| DieWalk.LastTypeWins | internal/dwarfingest/reader.go:99-106 | the type recorded for a variable name is that of the last typed entry of that name at the level of its unit |
| DieFacts.InlineIs | internal/dwarfingest/reader.go:133-245 | from an entry and its ancestors: the caller is the name, or failing that the origin, of the innermost subprogram; the parent the origin of the innermost inlined body below that has one; the depth one plus the number of those bodies; the place the entry's own; nothing without callee or caller |
| DieFacts.CallIs | internal/dwarfingest/reader.go:252-324 | the same for a call site: enclosing function and its offset, the source caller the innermost named inlined body or else the function, indirect without an origin, its place the entry's own or the line table's |
| DieFacts.ListsAreExact | internal/dwarfingest/reader.go:54-98 | structs, unions, enums, subprograms and typedefs are recorded in document order, each with its direct members or named enumerators |
| DieFacts.ReadObject | internal/dwarfingest/reader.go:13-131 | for every serialised object file the inline instances, call sites and variables recorded are just those some entry yields, said of the entry and its ancestors alone; the type of a variable is that of the last typed entry of its name; structs, unions, enums, subprograms and typedefs are those of the forest in document order |
| TypeRender.PointerToFunction | internal/dwarfingest/signature.go:56-63 | a pointer to "ret (params)" reads "ret (*)(params)" |
| TypeRender.PlainSubroutine | internal/dwarfingest/signature.go:116-129 | the plain recursion renders a function type as return type, space, parameter list |
| TypeRender.TypeCache.Render | internal/dwarfingest/signature.go:22-32 | terminates on every graph, cyclic ones included; on an acyclic one it returns the plain rendering and adds only plain renderings to the cache |
| TypeRender.TypeCache.RenderNoCache | internal/dwarfingest/signature.go:34-110 | the same below the slot reserved, case by case |
| TypeRender.TypeCache.RenderSubroutineType | internal/dwarfingest/signature.go:116-129 | the text of a function type from its return type, parameters and prototyping |
| TypeRender.TypeCache.WalkParams | internal/dwarfingest/signature.go:134-157 | every formal parameter is rendered in order, "?" for an empty one, and unspecified parameters are noted |
| TypeRender.TypeCache.BuildSignature | internal/dwarfingest/signature.go:193-208 | the signature text, through the cache shared with all other renderings |
| TypeRender.OtherChildrenDoNotShow | internal/dwarfingest/signature.go:134-157 | variables, blocks and calls among the children do not show in a parameter list |
| TypeRender.CorrespondingTypesRenderAlike | internal/dwarfingest/signature.go:22-129 | types that correspond entry by entry render alike at different offsets, and in different objects |
| TypeRender.SignaturesJoin | internal/dwarfingest/signature.go:189-208 | signature and callee type, of one object or two, are the same text whenever the subprogram has children and return types, parameters and prototyping correspond, whatever else the subprogram holds |
| TypeRender.BuildBoth | internal/dwarfingest/signature.go:116-208 | the same of the two renderers through one shared cache or two, warm with any earlier renderings |
| TypeRender.EmptyListsDiffer | internal/dwarfingest/signature.go:164-187 | "()", "(void)" and "(...)" are told apart, and only a lone parameter spelled "void" or "..." can look like them |
| TypeRender.ChildlessAgreesExactlyWhen | internal/dwarfingest/signature.go:189-208 | the signature of a subprogram without parameters and the text of a childless function type that corresponds to it are the same if and only if the siblings of the latter add nothing to see |
| TypeRender.ChildlessDisagrees | internal/dwarfingest/signature.go:189-208 | a subprogram and a corresponding childless function type that render differently |
| TypeReader.RendersAsSpelled | internal/dwarfingest/signature.go:34-187 | the text of every kind of type, literally, from that of the type it leads to: qualifiers, stars and the "(*)" of function pointers, brackets, the three keywords with and without a name, function types with their parameter lists |
| TypeReader.SignatureIs | internal/dwarfingest/signature.go:189-208 | the text of a signature, so spelled; one of a subprogram without children shows no parameters |
| TypeReader.RenderAll | internal/dwarfingest/signature.go:22-110 | any sequence of renderings through one cache returns on an acyclic graph what the plain recursion returns for each, which is the text spelled out |
| TypeReader.ReadsBackExactlyWhen | internal/dwarfingest/signature.go:56-102 | qualifiers, what they stand around, stars and brackets are read back from a text if and only if what they stand around neither begins like a qualifier nor ends like a star or brackets |
| TypeReader.RendersItsChain | internal/dwarfingest/signature.go:56-102 | every rendering is the text of the chain of qualifiers, pointers and arrays from its entry down to the first that is none of these |
| TypeReader.ChainReadsBackExactlyWhen | internal/dwarfingest/signature.go:34-110 | that chain is read back from what is rendered if and only if the same holds of its base |
| TypeReader.TaggedReadsBackExactlyWhen | internal/dwarfingest/signature.go:83-97 | keyword and name are read back from the text of a type rendered by name: always of a struct, union or enumeration, and of any other if and only if its name is not spelled like one of these |
| CallTarget.UlebIsExact | internal/dwarfingest/calltarget.go:464-480 | the reader finds the one number at the front of any bytes, or reports none if and only if there is none |
| CallTarget.UlebOfCode | internal/dwarfingest/calltarget.go:466-480 | any encoding, redundant ones included, reads back its value in 64 bits and its exact length, whatever follows |
| CallTarget.UlebRoundTrip | internal/dwarfingest/calltarget.go:466-480 | every number below 2^64 reads back from its shortest encoding with the exact length |
| CallTarget.ReadUleb | internal/dwarfingest/calltarget.go:466-480 | the shift-and-or loop computes that reader |
| CallTarget.DecodesRegExpr | internal/dwarfingest/calltarget.go:436-462 | the register of DW_OP_reg or regx is recovered under any number of entry_value wrappers |
| CallTarget.OnlyRegExprsDecode | internal/dwarfingest/calltarget.go:436-462 | nothing else decodes to a register |
| CallTarget.DecodesExactly | internal/dwarfingest/calltarget.go:436-480 | bytes decode to a register if and only if they are one byte from 0x50 to 0x6f, 0x90 and a number, or 0xa3, a number below 2^63 and so many bytes that name it |
| CallTarget.InRangeExactlyWhen | internal/dwarfingest/calltarget.go:444-450 | decoding never slices out of range if and only if every announced length is below 2^63 |
| CallTarget.LengthTooLong | internal/dwarfingest/calltarget.go:444-450 | a length of 2^63 does |
| ArgPassing.StripQualifiers | internal/dwarfingest/calltarget.go:383-404 | the loop finds the type under fewer than thirty-two qualifiers and gives up on more |
| ArgPassing.ArgIndexForReg | internal/dwarfingest/calltarget.go:207-217 | the scan names the parameter whose rank is the register's, provided all up to it are of the integer class |
| ArgPassing.IntegersGoInOrder | internal/dwarfingest/calltarget.go:36-43 | the full assignment hands parameters of one INTEGER register the six registers in order, and then the stack |
| ArgPassing.ClassIs | internal/dwarfingest/calltarget.go:219-242 | the class the psABI gives each kind of type, by encoding and size |
| ArgPassing.PlacesAreRight | internal/dwarfingest/calltarget.go:36-43 | the full assignment puts every parameter in the next of rdi, rsi, rdx, rcx, r8, r9 and of eight SSE registers, all it needs or none, after those the hidden pointer and the parameters before it have |
| ArgPassing.OneAssignment | internal/dwarfingest/calltarget.go:36-43 | and there is no other such assignment |
| ArgPassing.LooksAre | internal/dwarfingest/calltarget.go:219-257 | what the code takes for an integer or an aggregate, spelled out: the kinds, the six encodings, eight bytes, fewer than thirty-two qualifiers |
| ArgPassing.RouteIs | internal/dwarfingest/calltarget.go:159-217 | the route names a parameter if and only if its rank among the six registers is the register's, all up to it look like integers and the return does not look like an aggregate |
| ArgPassing.IntegerClassIsOneRegister | internal/dwarfingest/calltarget.go:219-242 | what the code takes for one integer register is one if and only if it is no enumeration of more than eight bytes |
| ArgPassing.RouteIsSound | internal/dwarfingest/calltarget.go:159-217 | a parameter the route names is in the register if and only if it is no wide enumeration and the hidden pointer and the parameters before it have taken as many INTEGER registers as there are parameters before it |
| ArgPassing.HiddenPointerIsDeclined | internal/dwarfingest/calltarget.go:167-172 | under a hidden return pointer every register is declined if and only if the guard sees an aggregate or the first parameter is not of the integer class |
| ArgPassing.GuardPasses | internal/dwarfingest/calltarget.go:244-268 | the guard misses a return value of class MEMORY if and only if the function's own entry does not name it, it is under thirty-two qualifiers or more, under _Atomic, or no aggregate |
| ArgPassing.RouteIsRightExactlyWhen | internal/dwarfingest/calltarget.go:159-268 | the route is right for every register if and only if it declines them all, for an aggregate return or a first parameter that is missing or not of the integer class, or there is neither a hidden pointer nor, among the first six parameters and before any that is not of the integer class, an enumeration of more than eight bytes |
| ArgPassing.TakenForTheHiddenPointer | internal/dwarfingest/calltarget.go:162-217 | under a hidden pointer that passes the guard the route takes rdi for the first parameter, which is placed from rsi on |
| ArgPassing.FourThatSlip | internal/dwarfingest/calltarget.go:244-268 | four functions for which that happens |
| ArgPassing.WideEnumerationMisleads | internal/dwarfingest/calltarget.go:225-227 | a function without a hidden pointer in which a call through the second parameter is answered with the type and name of the third |
| ArgPassing.RouteIsComplete | internal/dwarfingest/calltarget.go:196-217 | a parameter of one INTEGER register behind none but such is found from its register unless the guard declines, and is in it if and only if there is no hidden pointer |
| ArgPassing.FnPtrSignature | internal/dwarfingest/calltarget.go:361-379 | answers only for a pointer, under qualifiers on either side, to a function type, and with its text |
| ArgPassing.ResolveViaCallTarget | internal/dwarfingest/calltarget.go:162-186 | answers if and only if expression, enclosing function, route and function-pointer check all succeed, with that parameter's signature and name; which those are is said of the bytes and the types alone |
| ArgPassing.AnswerNamesTheRightParameter | internal/dwarfingest/calltarget.go:159-186 | from the bytes of a register expression: an answer names a pointer to a function of the type answered, and that parameter was in the register if and only if as many INTEGER registers were taken before it as there are parameters before it |
| ArgPassing.AnswersAreRightExactlyWhen | internal/dwarfingest/calltarget.go:159-268 | all answers of a function are right if and only if its return is declined or that holds of each of the first six parameters that is a function pointer behind none but parameters of the integer class |
| SourceSearch.FoundExactly | internal/mcp/source_tools.go:819-830 | the inner loop finds the one sequence of leftmost non-overlapping occurrences on a line |
| SourceSearch.HitsExactly | internal/mcp/source_tools.go:809-830 | a hit of a file is exactly a found position of one of its lines, with line and column from one |
| SourceSearch.HitsAscend | internal/mcp/source_tools.go:809-830 | hits come line by line and left to right, each once |
| SearchFacts.FileHitsAre | internal/mcp/source_tools.go:796-832 | searching line by line finds what searching the whole text would: leftmost non-overlapping occurrences, each at the line after so many newlines and so many columns past the last one, and nothing for a pattern that holds a newline |
| SearchFacts.AllHitsAre | internal/mcp/source_tools.go:684-742 | the matches are those of the texts of the admitted, readable rows, one row after another |
| SearchFacts.CountsAre | internal/mcp/source_tools.go:729-730 | the counts before the cut are the numbers of matches of each file and of each directory |
| SourceSearch.Scan.Record | internal/mcp/source_tools.go:802-808 | a match is counted, kept if it fits, and the ceiling reported |
| SourceSearch.Scan.SearchInBlob | internal/mcp/source_tools.go:791-834 | a file's matches are counted up to the ceiling, those that fit are kept, and full says whether the ceiling was reached |
| SourceSearch.SumAdds | internal/mcp/source_tools.go:730-732 | adding to one key's count adds as much to the sum |
| SourceSearch.DirOfIs | internal/mcp/source_tools.go:730-732 | a path's directory is all before its last slash, or "." if it has none past its start |
| SourceSearch.CountMore | internal/mcp/source_tools.go:719-733 | one file's matches move its count and its directory's and no other |
| SourceSearch.Scan.CountFile | internal/mcp/source_tools.go:718-737 | totals, rows, per-file and per-directory counts and file order stay in balance after each file |
| SourceSearch.Scan.ScanTable | internal/mcp/source_tools.go:697-743 | the same for a table, unreadable and filtered files passed over |
| SourceSearch.Scan.Run | internal/mcp/source_tools.go:684-743 | the matches counted are the first 100000 of all there are |
| SearchFacts.HandleSearchSource | internal/mcp/source_tools.go:633-753 | total is the number of matches up to 100000, the rows are the first of them up to a limit clamped to 1 to 2000, every file with a match is listed once with its count, per-file and per-directory counts each sum to the total and are cut to the 200 highest; the matches are those of the rows' whole texts, the counts those of the matches' paths; an empty pattern is refused |
| TopCounts.TopCounts | internal/mcp/source_tools.go:765-789 | the map is cut to n entries, or left whole if it has no more, every one kept ahead of every one dropped by count, then by key |
| TopCounts.TopIsUnique | internal/mcp/source_tools.go:765-789 | only one map is that, so the order in which keys come out of a map does not show |
| SourceSearch.ScanTruncatedMeans | internal/mcp/source_tools.go:626-628 | the summary undercounts if and only if there are more than 100000 matches, and scan_truncated means that unless there are exactly as many |
| SourceSearch.CeilingReachedExactly | internal/mcp/source_tools.go:807 | an input that sets scan_truncated with nothing left uncounted |

## Left out

- The server object, the mutexes and the file system are state of a step relation, not heap objects: the protocols are about interleavings, which a method cannot express.
- SQLite, FTS and SQL text: tables are sequences, maps and sets, row ids an injective numbering, a transaction takes effect as a whole.
- MCP transport, tool registration, JSON, argument parsing, CLI flags and printed summaries.
- Regular expressions: the cgraph parser is fed classified lines with their tokens, and regex search is not modelled.
- `files_scanned` and the order in which files are listed are not part of the answer's specification.
- Filters of `search_source` (prefix, target, kind) are a flag on each row; snippets and context lines are not modelled.
- The line table, ELF symbols and the relocation route: the line table's answer for a call site is an attribute of the entry, and only the call-target route is modelled.
- nm, objdump, linker-map parsing, the link plane, Meson introspection and the crawl of the build directory.
- Other attributes of DWARF entries (declaration places, sizes, linkage names) and read errors of the DWARF reader.
- The library sort of adjacency lists is any order by name; nothing is claimed about the order of equal names.
- The sorted order of a unit's local ids and the order of object files are given sequences.
- Path resolution: a unit's paths are the project-relative ones.
- Random scratch names are arbitrary names never used before; permission bits are not modelled.
- The window between collect's existence check and its rename when --replace is absent, and the shutdown of serve.
- SwapRuns.FailedReloadIsSilent: all failures before a handle is open (no path, a diagnosis, an open error) are one event.
- Publication.FailedCollectTouchesNoOut: a crash is an event added to the program's own failures, and is not a failure in this sense, because it may come after the rename.
- Aggregate.OrderDoesNotMatter: name, kind and the weak mark of a definition are left out, because the first observation decides them; a clone whose parent is itself a clone is not claimed to end at the root of its chain.
- SymbolFacts.UnitGives: where a clone has a clone for its parent, the order of local ids decides how far its names travel; only the two bounds are stated there.
- A query that cannot get a connection, and connections that time out or break, are not modelled; connections are opened, kept idle up to two, and closed.
- The entries after a type entry, in the renderer, are an attribute of it, not read off the walker's stream; the text of a function type, in the call-target route, is an attribute of it, which TypeRender says how to render.
- The psABI's classification of aggregates and of base types that are no integers is given with the type.
- Functions called otherwise than the psABI says (another convention by attribute, parameters the compiler removed): their registers are not modelled.
- ArgPassing.AnswerNamesTheRightParameter: it speaks of the register on entry, which is what DW_OP_entry_value means; whether a register named without that wrapper still holds its value at the call is not modelled.
- ArgPassing.StripQualifiers: a chain of qualifiers that leads back into itself, which only malformed DWARF has, is not a type of the model.
- ArgPassing.ResolveViaCallTarget: expressions on which the decoder slices out of range are excluded; CallTarget.InRangeExactlyWhen says which they are.
- TypeRender.TypeCache.Render: on a cyclic graph only termination and the growth of the cache are proved, since there is no plain rendering to compare with.
