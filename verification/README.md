# OpsForge: verified models of the diagnostic engines

OpsForge is a set of command-line diagnostic tools. Most of their code talks to the operating system, but several of
them contain small engines whose results have to be right for every input, every schedule and every way the network or
the disk can behave. This project models those engines in Dafny and proves what they promise.

Code that changes variables step by step is modelled as classes and methods with loops over the same variables, each
proved against a specification function or a declarative statement. Threads are modelled as transition systems over
atomic steps, and theorems about them quantify over all runs. A specification function that main results rest on has
laws of its own, which say what it means in terms of its inputs alone. What the operating system decides (which check
finishes next, how many bytes a read returns, whether a `stat` fails, how long a connect takes) is a parameter, so a
theorem holds for every such choice.

| files | what they model |
|---|---|
| `Basics`, `Sorting` | shared vocabulary, what filtering a sequence means, and a stable insertion sort by any comparison |
| `HealthChecks`, `Dependencies` | HealthCtl's checks and the recursive cycle search over their dependencies |
| `SchedulerSpec`, `SchedulerState`, `SchedulerRuns`, `SchedulerResults`, `Scheduler` | HealthCtl's concurrent scheduler: the recursive verdict of a check, the atomic steps and their safety, statements over all runs, what a list of results says in plain terms, and the dispatch loop itself |
| `Selection`, `HealthRun` | the profile and group selection in front of the scheduler, and the whole way from the parsed checks to the results |
| `HttpHead`, `HttpMessage`, `HttpRead`, `HttpStream`, `HttpExample` | the HTTP/1.x head parser, the messages it accepts, the reader under arbitrary `recv` chunking, what it answers to the messages a server sends, and a response whose reading depends on the chunking |
| `TcpConnect` | candidate resolution, `connect_first` and the fair-share deadline over real-valued time |
| `TerminalText` | terminal escaping and its decoder |
| `Ordering`, `CanonicalJson`, `JsonSame`, `JsonSelection` | ConfigDiff's canonical JSON, when two documents are the same, duplicate rejection and key selection |
| `DirectoryTree`, `DirectoryTruth`, `DirectoryCollect`, `DirectoryDrift`, `DirectoryExample` | ConfigDiff's directory traversal, the drift verdict, and a falsely added path |
| `Counting`, `PatternStore`, `Histogram`, `Periods` | LogHound's two capped tables, the counting they refine, and the summary of the histogram |
| `LogLines`, `LineMetrics`, `LineLaws`, `StackTraces`, `LogReader`, `LogSources` | LogHound's line splitter, per-line counters and what they mean in terms of the lines, stack-trace grouping, chunked reader and multi-file analysis |
| `WorkerPool` | CertWatch's worker threads, shared queue, deadline and final snapshot |
| `TopFiles`, `DiskTree`, `DiskPaths`, `DiskVisit`, `DiskScan`, `DiskReport`, `DiskExample` | DiskHound's streaming top list, the plain and the observed recursive walk, the chains of entries that make up the plain walk, the bounded walk with its stack, the report, and a tree in which a complete scan sees less than the plain walk |

`dafny verify dfyconfig.toml` verifies the project.

## Where the code does less than its description

Four statements one would expect are false of the code as it stands. Each is replaced by the exact condition under which
it holds, with a concrete input for which it fails. A fifth point is code that can never act.

* **HTTP head reading depends on chunking near the limit.** The size limit is tested after each `recv`, before the
  bytes are parsed. When a stream longer than 64 KiB answers within its last 4095 bytes before the limit, small reads
  return the answer and large reads report an oversized header. `HttpRead.ChunkIndependence` proves that the result is
  independent of chunking if and only if the stream is not of that kind (`NearLimit`); `HttpExample.NearLimitExample`
  is a response with one long header field that reads as 200 or as oversized.
* **A path behind a mount point can be reported as added.** ConfigDiff lists an unentered mount point as unexamined but
  does not suppress the paths below it. `DirectoryDrift.FalselyAdded` gives the exact condition for a path that exists on
  both sides, and `DirectoryExample.MountPointExample` a two-entry tree where it happens.
* **A Java frame on line 1 counts a header line that does not exist.** LogHound's "no header seen" is line number 0,
  which a frame on line 1 takes for the line before it. `StackTraces.StackLinesAreExact` proves that the reported number
  of stack lines is the number of grouped lines if and only if the log does not start that way;
  `StackTraces.FrameOnLineOne` is the one-line log reported as two stack lines.
* **A complete scan can visit less than the plain walk.** Within a branch DiskHound enters each directory inode once and
  leaves out its second name without recording that. With exclusions by path, a bind-mounted directory can so hide
  files that its second name would show. `DiskReport.CompleteIsHonest` proves that a branch of a complete scan is the
  plain walk with nothing missing if and only if it hides nothing in this way (`Hides`), which holds wherever each
  directory occurs once, and `DiskReport.CompleteTotals` that the totals are those of the plain walk if and only if
  every inode so skipped is observed elsewhere. `DiskExample.ScanExample` is a scan that reports no gap and misses the
  4096 bytes of a file.
* **DiskHound's visit-budget guards never act.** The two tests of `visited_entries` against the budget in
  `_scan_branch` and `scan` cannot succeed, because every visited entry was enumerated within the same budget. In
  `DiskScan.Accumulator.ScanBranch` and `DiskReport.ScanBranches` those branches are proved dead.

## Model

| member | source | states |
|---|---|---|
| `Dependencies.FindInvalidDependency` | opsforge/healthctl/healthctl.py:477-480 | Accepts exactly when every dependency is known and not the check itself; otherwise names the first offender in configuration order |
| `Dependencies.ValidMeans` | opsforge/healthctl/healthctl.py:477-480 | A valid dependency names a check of the configuration other than the one that has it |
| `Dependencies.Search.Visit` | opsforge/healthctl/healthctl.py:485-494 | The recursive visit terminates, reports a cycle only when the graph has one, and otherwise keeps an order in which every visited name follows its dependencies |
| `Dependencies.ClosesCycle` | opsforge/healthctl/healthctl.py:486-487 | Meeting a name that is still being visited exhibits a real cycle of dependency edges |
| `Dependencies.ValidateDependencies` | opsforge/healthctl/healthctl.py:475-497 | Soundness and completeness: accepted if and only if all dependencies are valid and there is no cycle; acceptance yields a dependencies-first order of all checks; a cycle is reported exactly when one exists |
| `Dependencies.RankDecreases` | opsforge/healthctl/healthctl.py:491-494 | In an accepted graph a rank strictly decreases along every dependency edge |
| `Dependencies.WalkDescends` | opsforge/healthctl/healthctl.py:491-494 | The rank strictly decreases along every walk of at least one edge |
| `Dependencies.AcyclicHasNoCycle` | opsforge/healthctl/healthctl.py:485-497 | A dependencies-first order of a graph excludes every cycle in it |
| `SchedulerSpec.UnmetEmpty` | opsforge/healthctl/healthctl.py:1248-1254 | A check runs instead of being skipped exactly when all its dependencies passed |
| `SchedulerSpec.JustifiedGrows` | opsforge/healthctl/healthctl.py:1246-1252 | Recording a result by the local rule (skipped naming the unmet dependencies, or the executor's validated answer) keeps all recorded results locally justified |
| `SchedulerSpec.JustifiedMeansVerdict` | opsforge/healthctl/healthctl.py:1241-1270 | Locally justified results equal the recursive verdict: skipped, naming the non-passing dependencies in order, if any dependency's verdict is not PASS, else the executor's answer |
| `SchedulerSpec.RejectedMeansUnsettled` | opsforge/healthctl/healthctl.py:1265-1269 | An invalid executor result of a startable check means the check has no verdict, so stopping is right |
| `SchedulerSpec.ExpectedIsUnique` | opsforge/healthctl/healthctl.py:1217-1274 | The specification of the whole evaluation admits one outcome only |
| `SchedulerSpec.UnsettledHasCulprit` | opsforge/healthctl/healthctl.py:1245-1269 | A check without a verdict goes back to a check that is started, because all its dependencies passed, and whose answer is refused |
| `SchedulerSpec.ValidAnswersSettle` | opsforge/healthctl/healthctl.py:1217-1274 | When every executor answer is valid, every check of a well-formed plan has a verdict |
| `SchedulerSpec.InvalidMeansCulprit` | opsforge/healthctl/healthctl.py:1265-1269 | The run is stopped for an invalid result exactly when some check that gets started answers so |
| `HealthChecks.JoinConcat` | opsforge/healthctl/healthctl.py:1252 | Joining two non-empty lists puts one separator between what each is joined to |
| `HealthChecks.JoinFew` | opsforge/healthctl/healthctl.py:1252 | Joining no parts gives the empty text, and one part itself |
| `SchedulerResults.ExpectedIsExplained` | opsforge/healthctl/healthctl.py:1245-1270 | The expected results in plain terms: a check whose dependencies all have a PASS result has the executor's own answer, an exception being an ERROR naming the check; any other is SKIPPED with zero attempts, and its evidence lists exactly the dependencies without a PASS, in order. Valid answers always give results |
| `SchedulerResults.RefusedAnswerStops` | opsforge/healthctl/healthctl.py:1265-1269 | A refused answer of a check that was started stops the run, and such an answer is not valid |
| `SchedulerResults.SkipsFollow` | opsforge/healthctl/healthctl.py:1246-1253 | With such results a dependent of a check that did not pass is SKIPPED, and a PASS is the executor's own answer with a PASS for every dependency |
| `SchedulerResults.PassedAlongWalk` | opsforge/healthctl/healthctl.py:1246-1253 | A PASS result has PASS results along every dependency walk from it |
| `SchedulerState.WithoutIsRemoval` | opsforge/healthctl/healthctl.py:1259 | Removing a waiting check removes that check, once, and nothing else |
| `SchedulerState.SkipIsSafe` | opsforge/healthctl/healthctl.py:1246-1253 | Skipping keeps the safety invariant: waiting, in flight and completed partition the checks, at most `max_workers` run, every start followed only passed dependencies, each executor call happens once |
| `SchedulerState.StartIsSafe` | opsforge/healthctl/healthctl.py:1254-1256 | Starting a check under the cap keeps the safety invariant |
| `SchedulerState.FinishIsSafe` | opsforge/healthctl/healthctl.py:1263-1270 | Taking any in-flight result keeps the safety invariant |
| `SchedulerState.StuckMeansNotAcyclic` | opsforge/healthctl/healthctl.py:1261-1272 | Nothing in flight with every waiting check blocked is impossible for acyclic dependencies, so the cycle error is unreachable after validation |
| `SchedulerState.FinishedMeansExpected` | opsforge/healthctl/healthctl.py:1271-1274 | A safe state with nothing left holds exactly the expected results of a well-formed plan |
| `SchedulerRuns.StepIsSafe` | opsforge/healthctl/healthctl.py:1241-1270 | Every step of every interleaving keeps safety and strictly decreases a measure |
| `SchedulerRuns.RunsAreSafe` | opsforge/healthctl/healthctl.py:1227-1270 | Every state of every run is safe, and no run is longer than twice the number of checks plus one |
| `SchedulerRuns.Progress` | opsforge/healthctl/healthctl.py:1241-1264 | No deadlock: an unfinished safe state of an acyclic plan has a step or holds an unusable executor answer |
| `SchedulerRuns.FinishedRun` | opsforge/healthctl/healthctl.py:1217-1274 | Every finished run holds the recursive verdict of every check and made exactly the executor calls the verdicts ask for |
| `SchedulerRuns.Confluence` | opsforge/healthctl/healthctl.py:1217-1274 | Any two finished runs, with any two worker caps and completion orders, hold the same results and made the same executor calls |
| `Scheduler.Run.Consider` | opsforge/healthctl/healthctl.py:1245-1260 | One look at a waiting check skips it, starts it or leaves it, as the specification's step says, and reports whether it moved |
| `Scheduler.Run.Pass` | opsforge/healthctl/healthctl.py:1244-1260 | A pass that moved nothing leaves every waiting check blocked |
| `Scheduler.Run.Dispatch` | opsforge/healthctl/healthctl.py:1242-1260 | When the loop goes on to wait for a result, every waiting check misses a dependency result or the worker cap is reached |
| `Scheduler.Run.TakeFinished` | opsforge/healthctl/healthctl.py:1263-1270 | Whichever in-flight check answers, a valid answer is recorded as the specification's step and an invalid one refused |
| `Scheduler.InConfigurationOrder` | opsforge/healthctl/healthctl.py:1273-1274 | The results come back one per check, in configuration order |
| `Scheduler.Evaluate` | opsforge/healthctl/healthctl.py:1217-1274 | Terminates with the unique expected outcome for every well-formed plan and every choice of which check finishes next; its results are explained by the results of the dependencies and the executor's answers alone, and valid answers always give results; the cycle error occurs only for plans that are not well formed |
| `Selection.Select` | opsforge/healthctl/healthctl.py:1369-1378 | Returns exactly the checks of the profile and group, refuses an empty selection and refuses one that omits a dependency |
| `Selection.KeptIsFilter` | opsforge/healthctl/healthctl.py:1369-1373 | The selection is the configuration without the checks that were not chosen: the others stay, in order and equally often |
| `Selection.SelectionIsAcyclic` | opsforge/healthctl/healthctl.py:1369-1379 | A dependency-closed selection of an acyclic configuration is acyclic, so the scheduler's guarantees apply to it |
| `Selection.SelectionKeepsVerdict` | opsforge/healthctl/healthctl.py:1369-1380 | Selecting does not change the verdict of any selected check |
| `HealthRun.Configure` | opsforge/healthctl/healthctl.py:517-534 | A configuration is usable exactly when its names are distinct, each dependency names another check and the graph is acyclic; a duplicate name is named |
| `HealthRun.RunChecks` | opsforge/healthctl/healthctl.py:1368-1380 | End to end, in terms of the chosen checks, their dependencies and the executor's answers: exactly the chosen checks are run, in order; valid executor answers always end in one result per check; a check with a dependency whose result is not PASS is SKIPPED and names these dependencies, any other has the executor's answer; each result is the verdict of the whole configuration; the cycle error never occurs, and every refusal is characterised |
| `HttpHead.FindEndStable` | opsforge/healthctl/healthctl.py:848-861 | The end of a buffered head does not move when more bytes arrive |
| `HttpHead.DecidedUnlessEnded` | opsforge/healthctl/healthctl.py:847-861 | A deciding byte lies within the stream, and exists exactly when the stream does not end before its first final head |
| `HttpMessage.LinesOfJoined` | opsforge/healthctl/healthctl.py:813-815 | Splitting at CRLF recovers any sequence of lines without newlines |
| `HttpMessage.JoinedLines` | opsforge/healthctl/healthctl.py:815 | Joining the split lines gives back the head |
| `HttpMessage.LinesAreClean` | opsforge/healthctl/healthctl.py:813 | When only paired newlines occur, no split line contains CR or LF |
| `HttpMessage.ParseRendered` | opsforge/healthctl/healthctl.py:811-832 | Parsing a rendered status line and fields yields its status and its only Location value, or the error for several Locations |
| `HttpMessage.AcceptedIsRendered` | opsforge/healthctl/healthctl.py:811-832 | Every head the parser accepts is the rendering of a valid message |
| `HttpRead.ReadHttpHead` | opsforge/healthctl/healthctl.py:844-861 | The two nested loops with the growing and trimmed buffer compute the run specified for the given network, socket errors and the deadline included, and terminate |
| `HttpRead.RunAnswers` | opsforge/healthctl/healthctl.py:847-861 | Every run returns the answer of the first head that is not an interim 1xx (101 counts as final), or the size error beyond 64 KiB, or an error when the network breaks |
| `HttpRead.DecidedRun` | opsforge/healthctl/healthctl.py:848-856 | A run whose deciding byte comes before any `recv` can pass the limit never reports the size error |
| `HttpRead.UndecidedRun` | opsforge/healthctl/healthctl.py:855-856 | A stream beyond the limit that is undecided within it ends in the size error, unless the network breaks first |
| `HttpRead.OverrunGivesUp` | opsforge/healthctl/healthctl.py:850-856 | A chunking exists that passes the limit before the deciding byte of a near-limit stream is parsed |
| `HttpRead.AnswerUnlessNearLimit` | opsforge/healthctl/healthctl.py:844-861 | The one result of all chunkings without network errors of a stream that does not answer near the limit |
| `HttpRead.ChunkIndependence` | opsforge/healthctl/healthctl.py:844-861 | The result is independent of how the network splits the stream if and only if the stream does not answer within the last unsafe bytes before the limit |
| `HttpRead.NearLimitReads` | opsforge/healthctl/healthctl.py:848-861 | Near the limit, byte-wise reads return the answer of the stream and a large last read the size error |
| `HttpStream.TokenBytes` | opsforge/healthctl/healthctl.py:826 | A field name consists of visible ASCII characters other than the delimiters of section 5.6.2 of RFC 9110 |
| `HttpStream.ReasonBytes` | opsforge/healthctl/healthctl.py:816-817 | A reason phrase may hold every byte but control characters other than the tab |
| `HttpStream.StripIs` | opsforge/healthctl/healthctl.py:829 | A field value without the ASCII whitespace around it: what is cut off is whitespace, what remains neither begins nor ends with it |
| `HttpStream.StreamAnswers` | opsforge/healthctl/healthctl.py:847-861 | Whatever valid interim heads a server sends first, the answer has the status of the first other head, and its Location exactly when one field of it is so named, in any letter case, stripped; several are an error |
| `HttpStream.OthersAreRefused` | opsforge/healthctl/healthctl.py:811-828 | A head that is no rendering of a valid message is refused |
| `HttpStream.StreamIsRead` | opsforge/healthctl/healthctl.py:844-861 | However the network cuts such a stream within the limit, that answer is what the reader returns |
| `HttpExample.NearLimitExample` | opsforge/healthctl/healthctl.py:848-861 | A concrete response with one field of 65000 bytes: status 200 for small reads, oversized for large ones |
| `TcpConnect.FirstOccurrencesAreDistinct` | opsforge/common/net.py:218-229 | Deduplication keeps every key once and loses none |
| `TcpConnect.ResolveTcp` | opsforge/common/net.py:218-229 | The record loop returns the first MAX_CANDIDATES distinct candidates, says when there were more, and fails on a malformed record met before that |
| `TcpConnect.FirstIsKept` | opsforge/common/net.py:218-229 | The candidates stay in the order of the records, and of each key the first record is kept |
| `TcpConnect.ConnectFirst` | opsforge/common/net.py:253-307 | Calls the candidates in order, each with the smaller of the timeout and the time left; the k-th attempt carries the candidate, the event and the duration of the k-th call; a socket is returned exactly when some call connects in time after only refusals, and is then that call's socket; it leaves no other socket open; when connects respect their timeouts, no attempt ends after the deadline |
| `TcpConnect.TryEach` | opsforge/common/net.py:271-307 | The loop: after each call the attempts are the events of the calls made, all refusals, and every socket opened in it is closed again |
| `TcpConnect.OneTrail` | opsforge/common/net.py:271-307 | The calls decide the attempts: of any two lists of attempts that report the calls, one continues the other |
| `TcpConnect.OneArrival` | opsforge/common/net.py:271-307 | There is at most one way to a connection |
| `TcpConnect.GivingUpIsRight` | opsforge/common/net.py:273-307 | A loop that ends without a connection was not on the way to one |
| `TcpConnect.PunctualTrail` | opsforge/common/net.py:273-278 | When every call keeps to its limit and no limit reaches beyond the deadline, no attempt ends after the deadline |
| `TcpConnect.ShareKeepsGuarantee` | opsforge/healthctl/healthctl.py:786-790 | Spending one fair share on an attempt does not lower the number of attempts the remaining time guarantees |
| `TcpConnect.ShareIsFair` | opsforge/healthctl/healthctl.py:790 | A share is an equal part of the time left, or the floor where that is more, and never more than is left |
| `TcpConnect.TrailKeepsGuarantee` | opsforge/healthctl/healthctl.py:786-790 | However many shares were spent, the guaranteed number of attempts did not fall |
| `TcpConnect.ConnectOne` | opsforge/healthctl/healthctl.py:792-797 | One candidate within its share: the call it makes is the next one of the candidate loop |
| `TcpConnect.ConnectEach` | opsforge/healthctl/healthctl.py:785-808 | The candidate loop: a candidate is reached exactly when its call, given its fair share of the time left, connects in time after only refusals; one attempt per candidate in order, and the same guarantees counted from its start |
| `TcpConnect.ConnectTarget` | opsforge/healthctl/healthctl.py:779-808 | No time left, no such name and failed lookups are told apart; the target is reached, at its endpoint and with its socket, exactly when some candidate's call, given its share, connects in time after only refusals; no attempt ends after the deadline; without success at least min(n, R / 0.25) of the n candidates are tried, R being the time left after resolution; every failed socket is closed; the unavailable-socket error only when all attempts were of that kind |
| `TerminalText.FastPathAgrees` | opsforge/common/text.py:14-15 | The ASCII shortcut returns what the general loop would |
| `TerminalText.Sanitize` | opsforge/common/text.py:11-32 | The loop over characters, shortcut included, gives text that decodes back, holds no unsafe character and has the width of the escapes; it is the concatenation of the pieces of the specification |
| `TerminalText.PieceShape` | opsforge/common/text.py:17-31 | An escape is the doubled backslash or has 4, 6 or 10 characters by the range of the code point, all but two of them lower-case hexadecimal digits, and decodes to it; any other character stands for itself |
| `TerminalText.HexRoundTrip` | opsforge/common/text.py:22-29 | Fixed-width hexadecimal escapes decode to the escaped value and are printable ASCII |
| `TerminalText.DecodePiece` | opsforge/common/text.py:17-31 | The decoder recovers one code point from the front of any escaped text, whatever follows |
| `TerminalText.RoundTrip` | opsforge/common/text.py:11-32 | Decoding recovers every sequence of code points, lone surrogates included |
| `TerminalText.Injective` | opsforge/common/text.py:11-32 | Different texts never have the same escaped form |
| `TerminalText.OutputIsSafe` | opsforge/common/text.py:11-37 | Escaped text never contains a character that `has_unsafe_characters` looks for |
| `TerminalText.FixedPoints` | opsforge/common/text.py:11-37 | Escaping leaves a text unchanged if and only if it has neither unsafe characters nor a backslash |
| `Ordering.SortedIsUnique` | opsforge/configdiff/configdiff.py:339 | Two key-sorted member lists with the same members are the same list |
| `Ordering.SortDecidesMap` | opsforge/configdiff/configdiff.py:339 | Sorted member lists are equal exactly when the objects are equal as maps |
| `Ordering.LessIs` | opsforge/configdiff/configdiff.py:339 | The order of keys is decided by the first difference, or by the length where one key begins the other |
| `CanonicalJson.ItemsDecide` | opsforge/configdiff/configdiff.py:336-337 | Canonical arrays are equal exactly when the arrays are equal item by item |
| `CanonicalJson.ObjectsDecide` | opsforge/configdiff/configdiff.py:338-339 | Canonical objects are equal exactly when the objects are equal as maps of meanings |
| `CanonicalJson.CanonDecides` | opsforge/configdiff/configdiff.py:322-340 | Canonical forms are equal exactly when the JSON values mean the same, with null, bool, int, float and string kept apart |
| `JsonSame.MeaningIsSame` | opsforge/configdiff/configdiff.py:322-340 | Meanings are equal exactly when the documents are the same: same kind and value, arrays item by item, objects key by key in any order |
| `JsonSelection.StrictJson` | opsforge/configdiff/configdiff.py:295-301 | Accepts an object's pairs exactly when no two of them have the same key, and then keeps them |
| `JsonSelection.ComponentsAreDotted` | opsforge/configdiff/configdiff.py:347 | The components of a dotted key hold no dot and give the key back when joined by dots |
| `JsonSelection.OneWayToDot` | opsforge/configdiff/configdiff.py:347 | No other list of components does |
| `JsonSelection.LookupFinds` | opsforge/configdiff/configdiff.py:345-352 | Looking up finds the value to which the components lead from member to member, or MISSING where they lead to none |
| `JsonSelection.LookupMeans` | opsforge/configdiff/configdiff.py:345-352 | Following a dotted key through the parsed value finds what it denotes in the value's meaning, MISSING included |
| `JsonSelection.SelectedJson` | opsforge/configdiff/configdiff.py:343-353 | The result has one member for each selected key, holding the looked-up value |
| `JsonSelection.SelectionDecides` | opsforge/configdiff/configdiff.py:322-353 | Canonical selections are equal exactly when both documents agree at every selected key, counting MISSING as a value |
| `JsonSelection.ContentDrift` | opsforge/configdiff/configdiff.py:322-353 | Content drift is reported exactly when the documents are not the same, or, with selected keys, when the values at some key's dotted path are not the same, MISSING included; equivalently when their meanings differ |
| `DirectoryTruth.TraversalIsTruthful` | opsforge/configdiff/configdiff.py:516-580 | Everything a traversal lists is in the tree: entries describe their nodes, depth notes and mount notes name directories of that kind |
| `DirectoryTruth.Coverage` | opsforge/configdiff/configdiff.py:555-580 | Below any prefix, a node of the tree is listed or lies at or below a noted gap |
| `DirectoryTruth.TraversalCovers` | opsforge/configdiff/configdiff.py:555-580 | Every node of the tree is listed, or lies at or below an unreadable entry, below a depth-limited directory or below a mount point that is noted |
| `DirectoryCollect.Collector.ListChildren` | opsforge/configdiff/configdiff.py:558-571 | The listing loop fails exactly on a broken `stat` or when the entry limit is passed, and otherwise notes exactly the unreadable entries |
| `DirectoryCollect.Collector.InspectChild` | opsforge/configdiff/configdiff.py:516-553 | Inspecting a child appends exactly what the specification finds there, charges the read budget by the file bytes below it, and is fatal exactly for broken calls or exhausted limits |
| `DirectoryCollect.Collector.InspectChildren` | opsforge/configdiff/configdiff.py:572-580 | The inspection loop does the same for a whole listing, turning unreadable children into notes |
| `DirectoryCollect.CollectDirectory` | opsforge/configdiff/configdiff.py:477-594 | The recursive in-place traversal returns the specification's lists, or fails exactly when the root or a call below it breaks or a limit is passed |
| `DirectoryCollect.ModestRootWorks` | opsforge/configdiff/configdiff.py:477-594 | A readable root with no broken call below it, no more nodes than the entry limit and no more file bytes than the read budget is collected |
| `DirectoryCollect.CollectedWithinLimits` | opsforge/configdiff/configdiff.py:521-571 | What is collected stays within the entry limit, and its files within the read budget |
| `DirectoryDrift.FindChanged` | opsforge/configdiff/configdiff.py:621-627 | The loop collects exactly the common paths whose entries differ in content or in the requested metadata |
| `DirectoryDrift.CompareDirectories` | opsforge/configdiff/configdiff.py:612-637 | The comparison with its path index and loop equals the set-based specification |
| `DirectoryDrift.SideIsTrue` | opsforge/configdiff/configdiff.py:617-618 | What a side's index says about a path is true of the tree |
| `DirectoryDrift.MissingIsExplained` | opsforge/configdiff/configdiff.py:617-620 | A node missing from an index lies below an unreadable entry, beyond the depth limit or behind a mount point |
| `DirectoryDrift.AddedIsReal` | opsforge/configdiff/configdiff.py:619 | A path reported as added exists in the current tree, and exists in the baseline at most behind a mount point |
| `DirectoryDrift.FalselyAdded` | opsforge/configdiff/configdiff.py:614-619 | A path on both sides that was examined and is not hidden is reported as added if and only if the baseline keeps it behind a mount point |
| `DirectoryExample.MountPointExample` | opsforge/configdiff/configdiff.py:526-528 | Two trees with the same file, one behind a mount point: the file is reported as added |
| `DirectoryDrift.ChangedIsReal` | opsforge/configdiff/configdiff.py:621-627 | A path reported as changed exists on both sides and really differs; a difference seen on both sides is reported |
| `DirectoryDrift.EntriesIdentifyNodes` | opsforge/configdiff/configdiff.py:624-626 | With an injective digest, entries compare equal exactly when the nodes agree in kind, content and requested metadata |
| `DirectoryDrift.VerdictIsExact` | opsforge/configdiff/configdiff.py:597-637 | With nothing unexamined, drift is reported if and only if the trees differ at some path, and added, removed and changed are exact |
| `DirectoryDrift.UnreadableIsSilent` | opsforge/configdiff/configdiff.py:612-620 | Nothing at or below an unreadable entry of either side is reported as added or removed |
| `DirectoryDrift.SwapSymmetry` | opsforge/configdiff/configdiff.py:617-637 | Swapping the arguments swaps added and removed and keeps changed, drift and the unexamined paths |
| `DirectoryDrift.ComparedIsFaithful` | opsforge/configdiff/configdiff.py:612-637 | Whatever is unexamined: every report is true, every examined path that differs or is missing on the other side is reported, a difference that is not reported lies at or below a noted path, every note is true, and drift is reported exactly when something is added, removed or changed |
| `DirectoryDrift.CompareTrees` | opsforge/configdiff/configdiff.py:597-637 | Collecting both trees and comparing them fails exactly when one side cannot be collected; with no premise on what is unexamined, drift is reported exactly when something is added, removed or changed, and the report is faithful: nothing reported is untrue, nothing examined is left out, and nothing else is left out without a note; with nothing unexamined the verdict is exact |
| `Counting.TrackedGrows` | opsforge/loghound/loghound.py:225-231 | The first `cap` distinct elements after one more addition |
| `Counting.Conservation` | opsforge/loghound/loghound.py:222-231 | Counts of the tracked elements plus the untracked ones make up all additions |
| `PatternStore.Store.Add` | opsforge/loghound/loghound.py:222-231 | After every addition the tracked digests are the first MAX_PATTERNS distinct ones, each entry's count, first and last line and excerpt are exact over all additions, and the untracked counter is exact |
| `PatternStore.NewIsExact` | opsforge/loghound/loghound.py:228-229 | A new entry is exact |
| `PatternStore.RepeatStaysExact` | opsforge/loghound/loghound.py:225-227 | Counting a repeated pattern keeps its entry exact |
| `PatternStore.OtherStaysExact` | opsforge/loghound/loghound.py:222-231 | Adding one pattern keeps the entries of all others exact |
| `PatternStore.Store.Evidence` | opsforge/loghound/loghound.py:233-237 | The evidence lists each tracked digest once, in first-seen order, with its exact entry |
| `PatternStore.CountsAddUp` | opsforge/loghound/loghound.py:222-237 | The reported counts plus the untracked lines are the lines added |
| `Histogram.Table.Add` | opsforge/loghound/loghound.py:528-532 | The minute table keeps the first MAX_MINUTE_BUCKETS distinct buckets with exact counts while it is complete, and is complete exactly when all buckets fit |
| `Histogram.Table.CompleteIsExact` | opsforge/loghound/loghound.py:528-532 | A complete table holds the exact count of every minute |
| `Histogram.Table.Items` | opsforge/loghound/loghound.py:662-663 | The reported items are in ascending order, one per kept bucket; those of a complete table stand for exactly the counted minutes |
| `Histogram.SortedItems` | opsforge/loghound/loghound.py:662 | Sorting the items of distinct minutes puts them in ascending order and keeps every minute's count |
| `Periods.Summarize` | opsforge/loghound/loghound.py:635-640 | From the items: the counts at or before the midpoint of the first and last minute, the counts after it, and the largest count of a minute |
| `Periods.PeriodsOfItems` | opsforge/loghound/loghound.py:635-640 | The halves and the peak of the items are those of all counted messages |
| `Periods.HalvesAddUp` | opsforge/loghound/loghound.py:639-640 | The two halves of the range are all timestamped messages |
| `Periods.EarlierHalf` | opsforge/loghound/loghound.py:636-640 | The earlier half is the number of messages no further from the first minute than from the last |
| `Periods.WeightCounts` | opsforge/loghound/loghound.py:528-530 | The count of a minute is the number of its messages |
| `LogLines.SplitResumes` | opsforge/loghound/loghound.py:599-600 | Splitting a stream at newlines can be resumed from its unterminated tail |
| `LogLines.SplitWithPrefix` | opsforge/loghound/loghound.py:599 | Bytes without a newline go into the first line of what follows |
| `LogLines.OverlongIsCut` | opsforge/loghound/loghound.py:608-611 | Keeping only a prefix of an overlong line changes neither the recorded line nor its truncation |
| `LogLines.PartsOf` | opsforge/loghound/loghound.py:599-611 | What one chunk records, with the pending bytes and the overlong mode, continues the split of everything seen |
| `LogLines.CleanFilters` | opsforge/loghound/loghound.py:596-598 | Removing NUL bytes keeps every other byte, in order, and the number removed is the number of NUL bytes |
| `LogLines.SplitJoins` | opsforge/loghound/loghound.py:599-600 | Splitting is undone by joining: the lines, an LF after each, and the tail are the text, and no line holds an LF |
| `LogLines.JoinSplits` | opsforge/loghound/loghound.py:599-600 | Lines without LF, joined and split again, are the same lines |
| `LogLines.EndedLinesCount` | opsforge/loghound/loghound.py:599-607 | Every LF ends exactly one line |
| `LogLines.LinesShowText` | opsforge/loghound/loghound.py:596-617 | Each recorded line shows its text between the newlines: all of it but one CR before the LF, or its first MAX_LINE_BYTES bytes with the mark of a cut |
| `LogLines.FileReadsBack` | opsforge/loghound/loghound.py:596-617 | A file whose lines fit and end in LF alone is read back from its lines, without its NUL bytes |
| `LineMetrics.CallsAreAnalyzed` | opsforge/loghound/loghound.py:518 | Each analyzed line is added to the pattern store once |
| `LineMetrics.FatesAddUp` | opsforge/loghound/loghound.py:492-518 | Every physical line is blank, filtered or analyzed |
| `LineMetrics.TimesStep` | opsforge/loghound/loghound.py:521-527 | One more timestamp keeps the counts, the earliest and the latest timestamp exact |
| `LineMetrics.SeveritiesAddUp` | opsforge/loghound/loghound.py:519-520 | The reported severity counts add up to the lines classified |
| `LineMetrics.TimesMerge` | opsforge/loghound/loghound.py:743-744 | Adding counts, taking the earliest first and the latest last timestamp of two sources gives those of all their timestamps |
| `LineLaws.ContainsIs` | opsforge/loghound/loghound.py:513-515 | A filter text is found exactly when it occurs somewhere in the line |
| `LineLaws.LastIsAnalyzed` | opsforge/loghound/loghound.py:498-517 | A line is analyzed exactly when it is not blank, the last timestamp at or before it is not older than the cutoff, it holds an include text if there are any, and no exclude text; it is undated exactly when it is not blank, a cutoff is given and neither it nor a line before it has a timestamp |
| `LineLaws.OutputsOfLines` | opsforge/loghound/loghound.py:518-520 | The store additions and the severities are those of the analyzed lines, in order, each with its own line number |
| `LineLaws.StampsOfLines` | opsforge/loghound/loghound.py:521-532 | The recorded timestamps are those of the analyzed lines that carry one, in order, each counted once in the minute it falls into |
| `LineLaws.DurationIsSpread` | opsforge/loghound/loghound.py:652-653 | The duration is the largest distance of two timestamps, and missing exactly when there is none |
| `LineMetrics.Metrics.Count` | opsforge/loghound/loghound.py:492-517 | The early returns decide the line's fate and update every counter as the specification over all lines says |
| `LineMetrics.Metrics.Record` | opsforge/loghound/loghound.py:481-534 | After every line all counters, severities, store additions, minute buckets, timestamp counts, first and last timestamps and stack counters are what the recorded lines mean |
| `StackTraces.Tracker.TrackStack` | opsforge/loghound/loghound.py:444-478 | The mutable stack counters follow the specified grouping of nonblank lines |
| `StackTraces.Tracker.Record` | opsforge/loghound/loghound.py:504-505 | The same over all nonblank lines, the filtered ones included |
| `StackTraces.TrackIsSound` | opsforge/loghound/loghound.py:444-478 | Groups are disjoint contiguous runs of nonblank lines, in order, none longer than MAX_STACK_LINES_PER_GROUP |
| `StackTraces.TrackIsGrouped` | opsforge/loghound/loghound.py:452-463 | Only analyzed lines are in a group, and every analyzed line that opens a trace is in one |
| `StackTraces.TrackIsTight` | opsforge/loghound/loghound.py:447-465 | Within a group each line joins the one before: nothing lies between them unless it belongs to a Python chain, it carries no timestamp unless it is the frame right below a Java exception line, and a thread header starts a new group |
| `StackTraces.StackLinesAreExact` | opsforge/loghound/loghound.py:462-478 | The reported number of stack lines is the number of grouped lines if and only if the log does not start with an analyzed Java frame on line 1; the groups never hold more than all nonblank lines |
| `StackTraces.FrameOnLineOne` | opsforge/loghound/loghound.py:462 | A log of one Java frame is one grouped line and two reported stack lines |
| `StackTraces.PythonTraceIsOneGroup` | opsforge/loghound/loghound.py:444-478 | A traceback header with its frames and source lines is one group |
| `StackTraces.PythonTraceWithException` | opsforge/loghound/loghound.py:463-470 | So is the same with the exception line below it, after which the trace has ended |
| `StackTraces.ChainedTraces` | opsforge/loghound/loghound.py:449-457 | A traceback that follows an ended one after a chain line joins its group, with blank lines between or not |
| `StackTraces.JavaTraceIsOneGroup` | opsforge/loghound/loghound.py:459-478 | A Java exception line with the frames right below it is one group |
| `LogReader.NothingBeforeSignature` | opsforge/loghound/loghound.py:587-593 | No line was recorded before the read that completes a compressed-format signature, however short the reads |
| `LogReader.Feed` | opsforge/loghound/loghound.py:596-611 | After each chunk the recorded lines are the complete lines of everything read, and the pending buffer holds at most MAX_LINE_BYTES + 1 bytes |
| `LogReader.ReadLoop` | opsforge/loghound/loghound.py:578-611 | The loop records the complete lines of what it read, counts exactly the NUL bytes of it, and stops at a signature before recording anything |
| `LogReader.SteadyReadsReachTheEnd` | opsforge/loghound/loghound.py:578-586 | Reads that neither fail nor end early deliver the whole file, whatever their sizes |
| `LogReader.Observe` | opsforge/loghound/loghound.py:537-669 | Counters, severity counts, timestamps, duration, histogram, halves, peak, stack counts and store additions are those of the lines of what was read, the NUL count is the number of NUL bytes in it; a compressed or wholly unreadable source leaves the shared store unchanged |
| `LogReader.ChunkIndependence` | opsforge/loghound/loghound.py:578-617 | However non-empty reads split the file, the lines are: NULs dropped, split at LF, a non-empty tail kept, one CR before LF stripped, cut to MAX_LINE_BYTES |
| `LogReader.ChunksReadBack` | opsforge/loghound/loghound.py:578-617 | However its reads are cut, an uncompressed file whose lines fit and end in LF alone is read back from the lines recorded, without its NUL bytes, so as it is when it has none |
| `LogReader.EarlyEnd` | opsforge/loghound/loghound.py:578-586 | A loop that ends early ends at a read that delivers nothing, has recorded one line for each LF before, and reports nothing exactly when none of them is analyzed |
| `LogSources.OpenAll` | opsforge/loghound/loghound.py:694-715 | Opens the sources in order, skips rotations that cannot be opened or are the same file, and fails exactly when the first cannot be opened |
| `LogSources.SourcesAt` | opsforge/loghound/loghound.py:694-715 | The sources are the opened candidates whose file was not opened under an earlier name, in order |
| `LogSources.AnalyzeOne` | opsforge/loghound/loghound.py:717-729 | A source adds its own analyzed lines with consecutive numbers, or nothing when it is rejected |
| `LogSources.ReadSources` | opsforge/loghound/loghound.py:676-732 | The shared store receives exactly the analyzed lines of the contributing sources, numbered consecutively; the analysis fails exactly when the first source does |
| `LogSources.ItemsStandForMinutes` | opsforge/loghound/loghound.py:745-752 | Merging per-source items is the same as counting all their lines in one table |
| `LogSources.CompleteTogether` | opsforge/loghound/loghound.py:746-757 | When the minutes of all sources together fit, every source's own histogram is complete |
| `LogSources.MergeMinutes` | opsforge/loghound/loghound.py:745-762 | The merged histogram is complete exactly when the minutes of all sources together fit, and is then exact, and so are the merged halves and peak |
| `LogSources.MergeSeverities` | opsforge/loghound/loghound.py:739-742 | The two loops give the severity counts of the analyzed lines of all sources |
| `LogSources.MergeTimes` | opsforge/loghound/loghound.py:743-744 | The merged counts, first and last timestamps are those of all timestamps of all sources |
| `LogSources.MergeCounters` | opsforge/loghound/loghound.py:763-788 | The summed line counters are those of the lines of all sources; the analyzable lines are the additions to the shared store |
| `LogSources.Merge` | opsforge/loghound/loghound.py:739-791 | The combined report says of the lines of all sources together what a report on one source says of its lines |
| `LogSources.AnalyzeSources` | opsforge/loghound/loghound.py:676-791 | End to end: fails exactly when the first source does; otherwise the store and the combined report are those of the lines of the contributing sources, numbered consecutively |
| `LogSources.MergedSeveritiesAddUp` | opsforge/loghound/loghound.py:739-742 | The merged severity counts add up to the merged number of analyzable lines |
| `WorkerPool.WorkerKeepsInv` | opsforge/certwatch/certwatch.py:809-826 | Every atomic step of a worker keeps the invariant that ties queue, started set, slots and phases together |
| `WorkerPool.MainKeepsInv` | opsforge/certwatch/certwatch.py:832-845 | Joining, the failure test and the unsynchronised copies keep the invariant |
| `WorkerPool.RunsKeepInv` | opsforge/certwatch/certwatch.py:794-845 | Every state of every interleaving satisfies the invariant |
| `WorkerPool.EachTargetOnce` | opsforge/certwatch/certwatch.py:811-824 | Each index leaves the queue once, in input order, and each slot is written at most once, only after its target was dequeued and started |
| `WorkerPool.ResultsAreHonest` | opsforge/certwatch/certwatch.py:836-845 | Results keep input order and length; a "not attempted" result is given only for a target whose inspection had not begun when `started` was copied; the time-limit error exactly for started targets without an outcome |
| `WorkerPool.NoFallbackWithoutTimeout` | opsforge/certwatch/certwatch.py:832-845 | If no join timed out and no worker failed, every result is a worker's own |
| `WorkerPool.StepsUseMeasure` | opsforge/certwatch/certwatch.py:809-845 | Every step but the passing of time strictly decreases a measure, so every run of them ends |
| `WorkerPool.NoLateStart` | opsforge/certwatch/certwatch.py:816-824 | In every run, no inspection begins after the deadline has passed |
| `WorkerPool.FailureStopsWork` | opsforge/certwatch/certwatch.py:811-815 | After a failure no target leaves the queue but those that workers were about to fetch |
| `WorkerPool.ReturnsAreTested` | opsforge/certwatch/certwatch.py:832-836 | Results are returned only when all joins were followed by a test that found no failure |
| `TopFiles.Largest.BisectRight` | opsforge/diskhound/diskhound.py:486 | Finds the position after all keys that are not greater |
| `TopFiles.Largest.Record` | opsforge/diskhound/diskhound.py:481-491 | After every file the two parallel lists hold the first `top` of all recorded files by size and path: in descending order, and no recorded file outside them goes before one in them |
| `TopFiles.RankedSorts` | opsforge/diskhound/diskhound.py:486-488 | The reference ranking is an ordered permutation of the recorded files |
| `TopFiles.TopIsLargest` | opsforge/diskhound/diskhound.py:481-491 | The first of the ranking are as many as there is room for, in descending order of size and then by path, and every other recorded file is no larger than each of them |
| `Sorting.SortSorts` | opsforge/diskhound/diskhound.py:448 | The insertion sort orders by any comparison that is a weak order |
| `TopFiles.TakeInsert` | opsforge/diskhound/diskhound.py:486-491 | Dropping files beyond `top` before an insertion loses nothing of the first `top` afterwards |
| `TopFiles.FilteredIsDiscarded` | opsforge/diskhound/diskhound.py:483-485 | A file that the cheap filter leaves out is not among the first `top` |
| `DiskTree.SumAdds` | opsforge/diskhound/diskhound.py:545-556 | A sum over distinct inodes grows by exactly one summand per new inode, in whatever order |
| `DiskTree.FileCount` | opsforge/diskhound/diskhound.py:558-560 | A file count is the number of distinct regular inodes |
| `DiskTree.AllocationCount` | opsforge/diskhound/diskhound.py:547-556 | An allocation is 512 bytes times the blocks of the distinct inodes |
| `DiskTree.LogicalSize` | opsforge/diskhound/diskhound.py:558-559 | A logical size is the sum of the sizes of the distinct regular inodes |
| `DiskPaths.WalkIs` | opsforge/diskhound/diskhound.py:527-574 | The plain walk: an entry is in it exactly when a chain of slots within the depth limit leads to it, of which every one but the last is a directory and every one is neither excluded, nor an unstatted remote mount, nor on another file system unless the option crosses them |
| `DiskPaths.GapIs` | opsforge/diskhound/diskhound.py:564-574 | Something is missing below a directory exactly when such a chain leads to an entry in trouble: a failed `stat`, an unentered remote mount under the crossing option, unusable blocks, or a directory that cannot be listed or lies too deep to be |
| `DiskPaths.WantedIsWalked` | opsforge/diskhound/diskhound.py:501-512 | Where nothing is missing, the walk goes along every chain of entries the options ask for, however deep |
| `DiskPaths.WholeWalkCounts` | opsforge/diskhound/diskhound.py:527-574 | Then the inodes of the walk are the target and exactly those such a chain leads to |
| `DiskTree.SortWalks` | opsforge/diskhound/diskhound.py:448 | Sorting a listing changes neither what is walked below it, nor what is missing, nor what it costs |
| `DiskTree.SortedByPath` | opsforge/diskhound/diskhound.py:448 | A sorted listing has the same entries, in ascending order of their paths |
| `DiskVisit.ListingWalks` | opsforge/diskhound/diskhound.py:418-451 | A listing shows nothing that is not there and costs no more than its slots; unless a failure is known it shows everything, gaps included |
| `DiskVisit.VisitIsPart` | opsforge/diskhound/diskhound.py:527-574 | The recursive walk that enters each directory inode once stays within the plain walk, and its inodes are those of the entries it visits |
| `DiskVisit.HidingLoses` | opsforge/diskhound/diskhound.py:541-543 | Where a directory with something below is met again, the recursive walk misses part of the plain one or leaves a gap unseen |
| `DiskVisit.SeenIsGap` | opsforge/diskhound/diskhound.py:527-574 | A gap that the recursive walk meets is a gap of the tree |
| `DiskVisit.WholeUnlessHidden` | opsforge/diskhound/diskhound.py:527-574 | A recursive walk that meets no gap and hides nothing is the plain walk, and nothing is missing in the tree |
| `DiskVisit.SkippedAccountsForRest` | opsforge/diskhound/diskhound.py:541-543 | Where no gap is met, the observed inodes and those at and below entries met again are together the inodes of the plain walk |
| `DiskVisit.OnceHidesNothing` | opsforge/diskhound/diskhound.py:541-543 | Where each directory occurs once, nothing is hidden |
| `DiskVisit.PushedVisits` | opsforge/diskhound/diskhound.py:574 | Popping children that were pushed in reverse is the recursive walk over them in listing order, and meets the same gaps |
| `DiskVisit.PopVisits` | opsforge/diskhound/diskhound.py:527-574 | One iteration of the stack loop is one unfolding of the recursive walk and of the gaps it meets |
| `DiskScan.Accumulator.ReadEntries` | opsforge/diskhound/diskhound.py:420-447 | The listing loop stays within the budget; unless the budget stops it, it returns exactly the readable slots up to the per-directory limit, or the error of the stream, and reports a failure exactly when something is left out |
| `DiskScan.Accumulator.ListDirectory` | opsforge/diskhound/diskhound.py:402-451 | Unless the budget stops it, the result is the sorted listing, without failure exactly when the listing leaves nothing out |
| `DiskScan.Accumulator.Account` | opsforge/diskhound/diskhound.py:545-563 | The first observation of an inode in a branch adds its allocation, size and file count once to the branch, and to the unique total only if new in the scan |
| `DiskScan.Accumulator.NoteInode` | opsforge/diskhound/diskhound.py:545-563 | The first name of a regular inode in the scan gets its record, no other observation does: the records stay one per distinct regular inode |
| `DiskScan.Accumulator.Descend` | opsforge/diskhound/diskhound.py:564-574 | Depth limit, unlistable directory or pushed children: unless the budget stops it, something is recorded exactly when the directory cannot be seen as a whole; what the children may cost stays within the directory's own cost |
| `DiskScan.Accumulator.VisitEntry` | opsforge/diskhound/diskhound.py:534-574 | One popped entry: excluded, on another file system, a repeated inode, or visited; its effect on the visited entries and inodes and what it pushes are those of the recursive walk, and it records something exactly when that walk meets a gap there |
| `DiskScan.Accumulator.ScanBranch` | opsforge/diskhound/diskhound.py:515-575 | The explicit-stack walk terminates within the budget and never drops an enumerated entry; totals are sums over the distinct visited inodes; while no budget is hit, gaps or not, it visits exactly what the recursive walk from its root observes, and it records something exactly when that walk meets a gap; with enough budget for everything below its root it reaches no limit |
| `DiskScan.PushWalks` | opsforge/diskhound/diskhound.py:574 | Pushing a listing in reverse adds exactly its walks and its cost to the stack |
| `DiskScan.BalanceStep` | opsforge/diskhound/diskhound.py:527-574 | Visited entries plus what is still stacked stay within the plain walk |
| `DiskScan.CourseStep` | opsforge/diskhound/diskhound.py:527-574 | One iteration keeps the branch on the course of the recursive walk: same entries still to visit, same gaps met or still to be met |
| `DiskScan.PaidStep` | opsforge/diskhound/diskhound.py:527-574 | What the stacked entries may still enumerate never exceeds what the branch was given |
| `DiskScan.PoppedFacts` | opsforge/diskhound/diskhound.py:527-540 | Every popped entry the policy admits is part of the plain walk |
| `DiskReport.Eligible` | opsforge/diskhound/diskhound.py:652-657 | Keeps exactly the admitted immediate entries, and records a mount left out exactly when one is met |
| `DiskReport.AdmittedWalks` | opsforge/diskhound/diskhound.py:652-657 | Dropping the entries that are not admitted changes neither what is walked nor what it costs, and hides no gap |
| `DiskReport.OpenTarget` | opsforge/diskhound/diskhound.py:613-657 | The target that cannot be listed or was replaced is an error; its own allocation starts the unique total; while no budget is hit the branches are the admitted entries of its listing, and something is recorded exactly when the target cannot be seen as a whole |
| `DiskReport.ScanBranches` | opsforge/diskhound/diskhound.py:659-667 | The unique total is the sum over the distinct inodes of target and branches, each once; while no budget is hit, every branch and the unique total are functions of the entries alone, and something is recorded exactly when some branch meets a gap |
| `DiskReport.OrderDoesNotMatter` | opsforge/diskhound/diskhound.py:659-667 | The unique total of any permutation of the branches is the same |
| `DiskReport.Scan` | opsforge/diskhound/diskhound.py:601-703 | Honest completeness both ways: a target whose entries fit the budget reaches no limit, and a target in which nothing is wrong is reported as complete; without a limit, a result is complete exactly when the capacity was measured and the walk meets no gap, a reached limit makes it incomplete, and so does any gap of a tree in which each directory occurs once; a complete result of such a tree counts exactly the inodes that a chain of wanted entries leads to; without a limit the unique total is determined by the tree, failures or not; each distinct regular inode is recorded once |
| `DiskReport.CompleteIsHonest` | opsforge/diskhound/diskhound.py:220-225 | When a result does not call itself incomplete, a branch is the plain recursive walk with nothing missing exactly when it hides nothing; where no branch hides anything, nothing the options ask for is missing: the inodes counted are the target and exactly those that a chain of wanted entries leads to, and all branch totals and the unique total are those of the plain walk |
| `DiskReport.CompleteTotals` | opsforge/diskhound/diskhound.py:541-556 | The totals of a complete scan: a branch sums over the inodes of the plain walk exactly when it observes every inode below a directory met again, and the unique total exactly when the scan observes it anywhere |
| `DiskReport.LargestOfTheWalk` | opsforge/diskhound/diskhound.py:472-491 | The largest files of such a scan are the first by size and path of one record per distinct regular inode of the plain walk, each under a path where the walk finds it |
| `DiskExample.BindMountExample` | opsforge/diskhound/diskhound.py:541-543 | A bind-mounted directory with an exclusion under its first name: no gap, the plain walk finds the file, and the branch observes only the two directories' inodes |
| `DiskExample.ScanExample` | opsforge/diskhound/diskhound.py:601-703 | The scan of a target with that entry calls itself complete with 12288 bytes, where the distinct inodes of the plain walk have 16384 |
| `DiskReport.IdsOfWalks` | opsforge/diskhound/diskhound.py:659-667 | The inodes of all branches together are those of the whole walk |

## Left out

- `DirectoryCollect.CollectDirectory`: does not state the final sort of the entries by path, because the order does not affect the index built from them; paths are sequences of components, and children are inspected in a given order.
- `DirectoryDrift.FindChanged`: gives the changed paths as a set; their sorting for display is left out.
- `DirectoryDrift.CompareDirectories`: gives the added, removed, changed and unexamined paths as sets; their sorting for display is left out.
- `DiskReport.OpenTarget`: starts from a validated target and a mount table already read; capacity is a measurement that succeeds, fails or finds the target replaced.
- `LogReader.Observe`: leaves out the wording of warnings.
- `LogSources.Merge`: leaves out the sums over the sources of bytes, NUL bytes, truncated lines and stack counts, and the wording of warnings.
- `DiskReport.Scan`: leaves out the sorting of the branches for display and the age, sparse and file-type statistics.
- Real threads, sockets, files, clocks and name resolution: their outcomes are parameters or nondeterministic choices; Python's recursion limit is not modelled.
- Concurrency of the scheduler and of CertWatch's pool is modelled on values as atomic steps; data races below the level of one interpreter operation are outside the model.
- `aggregate_status`, retries and the individual check types of HealthCtl: folds and field comparisons over the results proved here.
- A failing `settimeout` in `connect_first` is one of the events a connect can end with; the text of the final error message and of notes is not modelled.
- Unicode categories: an arbitrary predicate that is false on printable ASCII and true on surrogates.
- Parsing of JSON text: the model starts from parsed values whose objects passed the duplicate check at every level; a float is the real number it denotes, so that formatting and rounding of JSON numbers are not modelled.
- Digests: SHA-256 is assumed injective where a statement needs it; pattern counts are exact per BLAKE2 digest.
- Changes of the file system during a traversal or a walk appear only as failing calls.
- LogHound's timestamps, normalization, severities, blankness and trace patterns are arbitrary functions of the line.
- DiskHound's capacity arithmetic and mount-table parsing; exclusion patterns are an arbitrary predicate on paths, and the two cross-device counters are one.
- PortLens, NetDoctor, Incident Snapshot, SvcDoctor, ProcWatch, process control and atomic output: parsing, rendering and operating-system guarantees.
