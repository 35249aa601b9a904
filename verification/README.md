# console-mcp core, modelled in Dafny

This project models two parts of the console MCP server.

The first is the console manager (`src/console-manager.ts`). It keeps a
registry of long-lived shell sessions. Each session is addressable by id
or by an optional name, which is refused while it is in the name index.
It has a rolling buffer of its last 1000 output lines, and owns a table
of asynchronous command executions. It also implements synchronous command execution that settles once, and two
output filters: regex match extraction and line selection.

The second is the curl front end of the tool layer (`src/tools.ts`):
- the quote-aware command-line tokenizer `parseCommandLineArgs`;
- the curl argument scanner `parseCurlCommand`;
- the guard that admits only commands starting with `curl`.

Everything is pure. The registry is an immutable `Manager` of three maps,
and every operation returns a new registry or a typed error in a `Result`.
Process events are inputs: spawn outcome, output chunks, `close`, `error`
and the timer. So are the clock, generated ids, the platform and
environment, and the regular-expression engine.

| file | module | models |
|---|---|---|
| results.dfy | `Results` | `undefined` values (`Option`) and thrown errors (`Result`) |
| strings.dfy | `Strings` | the JavaScript string primitives used: `trim`, `split`, `join`, `startsWith`, `includes`, `indexOf`, case conversion |
| output_filter.dfy | `OutputFilter` | `applyOutputFilter` and the filter step of `getConsoleOutput` |
| output_buffer.dfy | `OutputBuffer` | `addToOutputBuffer` and the buffer read |
| shell.dfy | `Shell` | `getDefaultShell`, `getShellArgs` |
| executions.dfy | `Executions` | asynchronous execution rows and their running count |
| console_manager.dfy | `ConsoleManager` | the registry and its operations |
| sync_execution.dfy | `SyncExecution` | `executeSync` as per-event transitions of its process |
| command_line.dfy | `CommandLine` | `parseCommandLineArgs` |
| curl.dfy | `Curl` | `parseCurlCommand` and the curl tool guard |

Conventions:
- An absent name or filter is the empty string. The code tests these with
  JavaScript truthiness, and `undefined` and `""` behave identically in
  every such test.
- A valid registry (`ConsoleManager.ValidManager`) has:
  - every session stored under its own non-empty id;
  - buffers of at most 1000 lines;
  - the same keys in the session map and the execution-table map;
  - a name index that points only at live, active sessions carrying that
    name.

## Model

| member | source | states |
|---|---|---|
| ConsoleManager.EmptyValid | src/console-manager.ts:72-76 | The empty registry the constructor builds satisfies the registry invariant. |
| ConsoleManager.ResolveConsoleId | src/console-manager.ts:179-192 | A registered id resolves to itself. Otherwise the key resolves through the name index when it maps to a truthy id. Anything else fails with a not-found error naming the key. |
| ConsoleManager.ResolveLandsOnSession | src/console-manager.ts:179-192 | On a valid registry, resolution lands on a registered session that has the key as its id, or as its name while active. It fails exactly when the key is neither an id nor an indexed name. |
| ConsoleManager.IdTakesPriority | src/console-manager.ts:181-183 | A key that is one session's id and another session's name resolves to the id. |
| ConsoleManager.GetSession | src/console-manager.ts:197-204 | The session looked up is the one under the resolved id. On a valid registry it succeeds exactly when resolution does. |
| ConsoleManager.CreateConsole | src/console-manager.ts:85-174 | A truthy name already indexed fails with a name conflict. Otherwise a spawn timeout fails with the reason "Console process failed to start within timeout" and a spawn error with the error's own message. A successful spawn registers a new active session with an empty buffer, the chosen or default shell and directory, the caller's environment map and an empty execution table, indexed by its name if it has one. |
| ConsoleManager.CreatePreservesValid | src/console-manager.ts:133-161 | Creating a session under a fresh non-empty id keeps the registry invariant. |
| ConsoleManager.SecondCreateConflicts | src/console-manager.ts:94-96 | After a named session is created, creating another with the same name is refused. |
| ConsoleManager.OnConsoleExit | src/console-manager.ts:147-153 | A process exit marks its session inactive and deletes the name it was created with from the index, unconditionally. No other session and no execution table changes. |
| ConsoleManager.ExitPreservesValid | src/console-manager.ts:147-153 | The exit handler keeps the registry invariant. An inactive session is never left reachable by name. |
| ConsoleManager.CloseConsole | src/console-manager.ts:443-468 | Close succeeds exactly when the session lookup does. It removes the session, its execution table and (if named) its name-index entry. |
| ConsoleManager.ClosePreservesValid | src/console-manager.ts:443-468 | Close keeps the invariant, removes the resolved id from both maps and leaves every other session untouched. |
| ConsoleManager.CloseThenStatusNotFound | src/console-manager.ts:426-468 | After closing a session by id, its status query fails with not found. |
| ConsoleManager.CloseByNameThenStatusNotFound | src/console-manager.ts:426-468 | After closing a session by its name, the close succeeds and a status query by that name fails with not found. |
| ConsoleManager.CloseReleasesName | src/console-manager.ts:94-96 | After a named session is closed, its name can be used again. |
| ConsoleManager.NameIndexIncomplete | src/console-manager.ts:147-153 | The name index can lose a live session. If session A exits, session B takes the same name, and A is then closed, the close deletes B's index entry: B is active and named but can no longer be found by name. |
| ConsoleManager.TwoActiveSameName | src/console-manager.ts:94-96 | Names are not unique. After the stale-owner close, a third session can be created under the name while the second is still active under it, so two active sessions share one name. |
| ConsoleManager.CloseStaleOwner | src/console-manager.ts:443-468 | Closing an exited session deletes its name from the index even when a newer active session holds that name. The newer session stays registered but no longer resolves by name. |
| ConsoleManager.CloseAll | src/console-manager.ts:473-481 | Closing every registered id empties the session map and the name index. It drops exactly the execution tables of the sessions that were registered, and the invariant holds throughout. |
| ConsoleManager.RecordOutput | src/console-manager.ts:515-528 | Output recorded for a session changes only that session's buffer, to the bounded append of the chunk's non-blank lines. |
| ConsoleManager.RecordOutputPreservesValid | src/console-manager.ts:515-528 | Recording output keeps the invariant, including the 1000-line bound. |
| ConsoleManager.GetConsoleOutput | src/console-manager.ts:533-565 | An unknown key fails with not found and an inactive session fails with an inactive error. Otherwise the answer is the buffer read of the resolved session's buffer (`OutputBuffer.ReadOutput`): the full buffer length, and the last `lines` lines when `lines` is positive and there is no filter. |
| ConsoleManager.ClearConsoleOutput | src/console-manager.ts:570-573 | Clearing succeeds exactly when the lookup does. It empties the resolved session's buffer and nothing else. |
| ConsoleManager.ClearPreservesValid | src/console-manager.ts:570-573 | Clearing keeps the invariant and every other session. |
| ConsoleManager.ExecuteAsync | src/console-manager.ts:283-306 | An unknown or inactive session is refused. On a valid registry an active one always gets a new running row, under the given execution id, in its own table and nowhere else. |
| ConsoleManager.ExecuteAsyncCountsRunning | src/console-manager.ts:283-306 | Starting an asynchronous command with a fresh id raises that console's running count by exactly one and keeps the invariant. |
| ConsoleManager.StoreRow | src/console-manager.ts:316-371 | A handler's row reaches the table only while its table and row are registered. Then it replaces exactly that row; otherwise the registry is unchanged. |
| ConsoleManager.OnAsyncData | src/console-manager.ts:316-326 | A chunk is appended to the stream it came from in the handler's row, which is the stored row while registered. Only that row changes in the tables. The session's buffer gets the chunk and no other session changes. Nothing is sent to the subscriber. |
| ConsoleManager.AsyncDataPreservesValid | src/console-manager.ts:316-326 | A chunk of an asynchronous command keeps the registry invariant. |
| ConsoleManager.OnAsyncClose | src/console-manager.ts:328-354 | `close` marks the handler's row completed with exit code `code ?? 0`, an end time and the filtered streams of the row, keeping its id, command, start time and error. A completed notification carrying the filtered result is sent exactly when a callback is subscribed, whether or not the console is still open. Only that row changes in the registry, and nothing changes once the row is unregistered. |
| ConsoleManager.OnAsyncError | src/console-manager.ts:356-371 | `error` marks the handler's row failed with the message and an end time, and keeps its streams and exit code. A failed notification is sent exactly when subscribed, whether or not the console is still open. Only that row changes in the registry. |
| ConsoleManager.ErrorThenCloseNotifiesTwice | src/console-manager.ts:328-371 | An `error` followed by a `close` sends both notifications, open console or not. The row ends up completed while still holding the error message, and the table shows it while registered. |
| ConsoleManager.StoreRowPreservesValid | src/console-manager.ts:316-371 | Storing a handler's row keeps the registry invariant. |
| ConsoleManager.AsyncSettlePreservesValid | src/console-manager.ts:328-371 | The `close` and `error` handlers keep the registry invariant. |
| ConsoleManager.NotifiesAfterConsoleClosed | src/console-manager.ts:328-354 | After `closeConsole`, a `close` event of a command still running notifies the subscriber with the filtered output of the detached row and `code ?? 0`, and leaves the registry as the close left it. |
| ConsoleManager.GetAsyncResult | src/console-manager.ts:379-406 | An unresolved key, or a resolved one with no execution table, fails with console not found. A missing row fails with execution not found. The read succeeds exactly when the key resolves and the row exists. It returns a copy of the row, and a query filter rewrites only the copy's streams, by match extraction. |
| ConsoleManager.RunningExecutionsCount | src/console-manager.ts:600-607 | An unknown session counts 0. Otherwise the count is the number of rows whose status is running, and it is 0 exactly when no row is running. |
| ConsoleManager.QueryFilterComposes | src/console-manager.ts:338-343 | A row completed under filter P and read under filter Q shows Q applied to P's output. The raw output is gone once the row completes. |
| ConsoleManager.CountRunningExecutions | src/console-manager.ts:600-607 | The count is 0 for a console without a table. Otherwise it is the number of rows whose status is running. |
| ConsoleManager.GetConsoleStatus | src/console-manager.ts:426-438 | The status succeeds exactly when the lookup does, and reports the resolved session's fields with its running count. |
| Executions.NewExecution | src/console-manager.ts:295-302 | A new row is running, with empty streams, no exit code, no error, no end time, and the given start time. |
| Executions.OnExecutionData | src/console-manager.ts:316-326 | A chunk is appended to the stream it came from and nothing else changes. |
| Executions.OnExecutionClose | src/console-manager.ts:328-339 | `close` sets completed, `code ?? 0`, the end time and the filtered streams. It keeps the error field. |
| Executions.OnExecutionError | src/console-manager.ts:356-359 | `error` sets failed, the message and the end time, and keeps the streams and the exit code. |
| Executions.StatusNotMonotonic | src/console-manager.ts:328-359 | Terminal states are not final. `error` after `close` yields failed, and `close` after `error` yields completed. |
| Executions.CountRunning | src/console-manager.ts:600-607 | Visiting the rows one by one counts exactly the running ones. |
| Executions.InsertRunningCounts | src/console-manager.ts:303-304 | Inserting a new row under a fresh id adds exactly that id to the running set. |
| Executions.TerminalEventUncounts | src/console-manager.ts:328-359 | A running row that leaves the running state is removed from the count, and only it. |
| OutputFilter.Select | src/console-manager.ts:555 | The lines kept satisfy the test and come from the input, every line satisfying the test is kept, and there are no more of them than input lines. |
| OutputFilter.SelectAppend | src/console-manager.ts:555 | Selection distributes over concatenation, so relative order is kept. |
| OutputFilter.SelectOne | src/console-manager.ts:555 | One line is kept exactly when it satisfies the test. Together with the distribution over concatenation this fixes the selection of every sequence: the satisfying lines, in order, each once. |
| OutputFilter.SelectAll | src/console-manager.ts:555 | When every line satisfies the test, nothing is dropped. |
| OutputFilter.ApplyOutputFilter | src/console-manager.ts:574-595 | With no filter, both streams are trimmed. An invalid pattern trims both and appends the warning line to stderr. A valid one replaces each stream by all its matches joined with newlines: no match gives "" and one match gives that match. |
| OutputFilter.ExtractedMatchesRecoverable | src/console-manager.ts:580-587 | With at least one match and no match spanning a newline, splitting the filtered stream on newlines returns exactly the list of matches, for stdout and for stderr. |
| OutputFilter.SelectLines | src/console-manager.ts:552-559 | A valid filter gives the selection of the lines it tests true on, so exactly those lines in order. An invalid one keeps every line and appends one warning line. |
| OutputBuffer.Last | src/console-manager.ts:547-549 | `slice(-n)` gives the last min(n, length) elements, as a suffix. |
| OutputBuffer.CapturedLines | src/console-manager.ts:518 | The lines captured from a chunk are non-blank and contain no newline. |
| OutputBuffer.CapturedLinesOfJoin | src/console-manager.ts:518 | A chunk made of newline-free lines is captured as exactly its non-blank lines, in order. |
| OutputBuffer.FormatLines | src/console-manager.ts:520-521 | Each captured line becomes one entry `timestamp [STDOUT|STDERR] line`, in order. |
| OutputBuffer.PushAllKeepsNewest | src/console-manager.ts:520-526 | Pushing with shift-on-overflow, starting within capacity, leaves the newest `capacity` entries of old plus new. |
| OutputBuffer.PushBounded | src/console-manager.ts:521-526 | One push with shift-on-overflow, starting within capacity, leaves the newest `capacity` entries of old plus new. With positive capacity the new entry is last. |
| OutputBuffer.AddToOutputBuffer | src/console-manager.ts:515-528 | Within the 1000-line bound the buffer stays within it. The result is the last 1000 entries of: the old buffer followed by the formatted non-blank lines. |
| OutputBuffer.BlankChunkIgnored | src/console-manager.ts:518 | A chunk of whitespace only leaves the buffer unchanged. |
| OutputBuffer.PiecesOfBlankAreBlank | src/console-manager.ts:518 | Every newline piece of a blank chunk is blank. |
| OutputBuffer.EvictsOldestFirst | src/console-manager.ts:523-526 | When entries are evicted, the ones that go are the oldest. |
| OutputBuffer.ReadOutput | src/console-manager.ts:543-564 | The reported total is the full buffer length. The line limit applies only when positive. A valid filter gives exactly the selection of the limited tail, so at most `lines` lines; an invalid one gives the tail and a warning line; no filter gives the tail. |
| Shell.EnvOr | src/console-manager.ts:489-493 | `env[key] \|\| fallback`: a truthy variable wins, otherwise the fallback. |
| Shell.DefaultShell | src/console-manager.ts:486-494 | On win32 the default shell is COMSPEC or cmd.exe. Elsewhere it is SHELL or /bin/bash. It is never empty. |
| Shell.ShellArgs | src/console-manager.ts:499-510 | Two arguments, with the command last. The flag is `/c` exactly for cmd-like shells, `-Command` exactly for PowerShell-like ones that are not cmd-like, and `-c` otherwise. |
| Shell.CmdFamilyIsSubstringCmd | src/console-manager.ts:502 | The `cmd.exe` test is subsumed: a shell is cmd-like exactly when its lower-cased name contains `cmd`. |
| Shell.DefaultShellArgs | src/console-manager.ts:486-510 | With no COMSPEC or SHELL set, the default shell takes `/c` on win32 and `-c` elsewhere. |
| Shell.NeitherFamily | src/console-manager.ts:486-510 | A shell path whose lower-cased form contains neither `c` nor `p` falls to the POSIX `-c` branch. |
| SyncExecution.Step | src/console-manager.ts:222-274 | A chunk is appended to its stream and never settles the call. A terminal event leaves the streams, settles an unsettled call from the output seen so far, and leaves a settled call as it was. |
| SyncExecution.Settlement | src/console-manager.ts:227-276 | The call succeeds exactly on process close. A timer rejects with the timeout message and a process error with its message. On close, the exit code defaults to 0 and the streams are the filtered output. |
| SyncExecution.FoldAppend | src/console-manager.ts:209-278 | Processing a + b is processing a, then b. |
| SyncExecution.SettledStays | src/console-manager.ts:227-274 | Once settled, a run stays settled with the same outcome. |
| SyncExecution.ChunksDoNotSettle | src/console-manager.ts:243-253 | Output chunks never settle the call. |
| SyncExecution.FirstTerminalDecides | src/console-manager.ts:222-274 | The first terminal event decides the outcome from the output seen before it: timeout, the filtered result with `code ?? 0`, or the failure message. Nothing after it matters. |
| SyncExecution.OutputIgnoresSettlement | src/console-manager.ts:243-253 | The accumulated streams depend only on the output chunks. Chunks arriving after settlement are still accumulated. |
| SyncExecution.OnSyncEvent | src/console-manager.ts:243-274 | A chunk reaches the session's buffer whether or not the call has settled. A terminal event only settles the call and never touches the registry. |
| SyncExecution.RunLiveCall | src/console-manager.ts:209-278 | Run against the registry, the call's own state evolves exactly as it does in isolation. |
| SyncExecution.RunLiveFrame | src/console-manager.ts:243-253 | The events change the registry only in the session's buffer, which receives every chunk in order. The other sessions, the name index and the execution tables stay, and the invariant is kept. |
| SyncExecution.ExecuteSync | src/console-manager.ts:209-278 | An unknown or inactive session is refused up front, and an active one always runs. The settlement is that of the call's own events, present exactly when some event is terminal. The registry changes only in the resolved session's buffer, which receives every chunk in order, and the invariant is kept. |
| SyncExecution.ExecuteSyncFirstTerminal | src/console-manager.ts:222-274 | The answer of `executeSync` is the first terminal event's: the filtered output of the chunks before it with `code ?? 0`, the timeout, or the failure. Later events do not change it. |
| SyncExecution.HasTerminalSnoc | src/console-manager.ts:227-274 | A sequence has a terminal event exactly when its prefix or its last event does. |
| SyncExecution.SettledIffTerminal | src/console-manager.ts:209-278 | From an unsettled state, a run settles exactly when its events include a terminal one. |
| CommandLine.StepInsideQuote | src/tools.ts:170-185 | Inside a quote, a character that is not an unescaped closing quote is appended as is. This includes an escaped closing quote. |
| CommandLine.StepOutsideQuote | src/tools.ts:178-185 | Outside quotes, a space ends the token and any other non-quote character is appended. |
| CommandLine.Step | src/tools.ts:164-188 | Outside quotes, a quote character opens quoting. Inside, only the matching unescaped quote closes it. A character that toggles quoting is dropped. An unquoted space emits the current token. Every other character is appended to the token, and no token is emitted. |
| CommandLine.FlushEmits | src/tools.ts:179-182 | Ending a token emits its trim exactly when it is not blank. |
| CommandLine.ScanEmitsTokens | src/tools.ts:164-188 | Every token emitted while scanning is non-empty and equal to its own trim. |
| CommandLine.ParseCommandLineArgs | src/tools.ts:157-195 | Every token returned is non-empty and trimmed. |
| CommandLine.ParseArgs | src/tools.ts:157-195 | The character loop computes the same tokens as the scan, and all of them are non-empty and trimmed. |
| CommandLine.BlankTrimStart | src/tools.ts:179 | A string is blank exactly when cutting its leading whitespace leaves nothing. |
| CommandLine.SameTrimStartSameTrim | src/tools.ts:179-180 | Strings equal after cutting leading whitespace have the same trim and emit the same token. |
| CommandLine.AgreesAfterSpace | src/tools.ts:178-182 | For quote-free input, an unquoted space ends the current token exactly as `split(' ')` ends a piece. |
| CommandLine.AgreesAfterChar | src/tools.ts:183-185 | For quote-free input, any other character extends the token and the piece alike. |
| CommandLine.AgreesAtEnd | src/tools.ts:190-192 | For quote-free input, the final flush emits the last piece like any other. |
| CommandLine.QuoteFreeScan | src/tools.ts:164-188 | Scanning a quote-free prefix agrees with splitting it on spaces. |
| CommandLine.QuoteFreeTokens | src/tools.ts:157-195 | Without quote characters, the tokens are exactly the trimmed non-blank pieces of `split(' ')`, in order. |
| CommandLine.InsideQuotesKeptLiterally | src/tools.ts:170-185 | While a quote is open, every character up to the unescaped closing quote is kept verbatim and no token is emitted. This covers spaces, the other quote character, backslashes and escaped quotes. |
| CommandLine.QuotedSegment | src/tools.ts:167-177 | A quoted segment drops its two quotes, appends its contents verbatim to the current token and closes quoting. |
| CommandLine.UnterminatedQuote | src/tools.ts:164-192 | A quote left open puts the rest of the input into the last token. |
| Curl.ValueAfter | src/tools.ts:116-128 | `args[++i]` is the next token, or undefined when the flag is last. |
| Curl.MethodValue | src/tools.ts:116 | `-X v` selects the upper case of v, or GET when v is missing or empty. The method is never empty. |
| Curl.ParseHeader | src/tools.ts:119-125 | A header value is accepted exactly when it contains a colon that is not its first character. The key is the trimmed text before the first colon, so it contains no colon, and the value is the trimmed rest. |
| Curl.Next | src/tools.ts:112-133 | The scan advances by two after a flag taking a value and by one otherwise. |
| Curl.StepArg | src/tools.ts:113-132 | The URL is set only from a candidate token while none is held, and always then. The body changes only for a data flag, to the following token. Headers change only for a header flag with a valid value. The method changes only for a method or data flag. |
| Curl.WithDefaults | src/tools.ts:140-151 | User-Agent always ends truthy and a truthy user value is kept. Content-Type is added only for a non-empty body without a truthy Content-Type. It is application/json exactly when the trimmed body starts with `{` or `[`, and form-urlencoded otherwise. All other headers are unchanged. |
| Curl.ParseCurlArgs | src/tools.ts:106-153 | Parsing fails with "No URL found in curl command" exactly when the scan found no URL. Otherwise it returns the URL, the method, the body and the headers with defaults. |
| Curl.ScanArgs | src/tools.ts:107-133 | The loop as written, in which a flag advances the index a second time, computes the same state as the scan. |
| Curl.ScanToken | src/tools.ts:113-132 | One pass of the loop body applies the token's effect and reports the index of the last token consumed. |
| Curl.VisitedAfterPlainToken | src/tools.ts:112-133 | The scan looks at every token right after a token that takes no value. |
| Curl.InterpretThrough | src/tools.ts:112-133 | A scan passing through a token continues from the state it reached there. |
| Curl.Interpret | src/tools.ts:112-133 | A URL already held is kept. A URL found by the scan is a URL candidate taken from a token at or after the scan's start. |
| Curl.UrlSticks | src/tools.ts:130-131 | Once a URL is set, nothing later replaces it. |
| Curl.UrlComesFromVisitedCandidate | src/tools.ts:112-133 | The scan finds no URL exactly when no token it looks at is non-empty and free of a leading `-`. A URL found is such a token. |
| Curl.FirstCandidateIsUrl | src/tools.ts:130-131 | The URL is the first such token the scan looks at. Later ones are ignored. |
| Curl.ParseFailsIffNoCandidate | src/tools.ts:112-137 | Parsing fails exactly when no looked-at token after the program name can be the URL. On success, the URL is one of the tokens. |
| Curl.ParseCurlCommand | src/tools.ts:99-154 | Parsing a command fails, with "No URL found in curl command", exactly when no token the scan looks at can be the URL. On success the URL is a trimmed non-empty token after the program name that does not start with `-`, and a User-Agent header is set. |
| Curl.UrlAfterPlainTokenFound | src/tools.ts:112-137 | A URL-like token right after the program name, or after a token taking no value, guarantees success. |
| Curl.MethodOrigin | src/tools.ts:115-129 | The method is GET, POST, or the upper case of some token. |
| Curl.PlainArgsGet | src/tools.ts:112-133 | Tokens that take no value never change the method, headers or body. |
| Curl.PlainCurlIsGet | src/tools.ts:106-153 | Without any value-taking flag, a successful parse is a GET without body whose only header is the default User-Agent. |
| Curl.HeaderFlagAtEnd | src/tools.ts:117-126 | A header flag looked at last sets its key to its value, whatever came before. |
| Curl.AppendedTokenVisited | src/tools.ts:112-133 | Tokens appended after one that takes no value are looked at. |
| Curl.LaterHeaderWins | src/tools.ts:117-126 | A header appended later overrides an earlier one with the same key. |
| Curl.DataFlagPromotesGet | src/tools.ts:127-129 | A data flag takes the next token as the body, or none when it is last. The method becomes POST exactly when it was GET or POST, and any other method is kept. |
| Curl.DataFlagLast | src/tools.ts:127-129 | A data flag looked at last decides the body, and the method is no longer GET. |
| Curl.LaterDataWins | src/tools.ts:127-129 | A body given later replaces an earlier one, and the request is not a GET. |
| Curl.DataFlagAtEnd | src/tools.ts:127-129 | A data flag at the very end discards any earlier body and still turns GET into POST. |
| Curl.LowerStartsWithCurl | src/tools.ts:589 | The lower-cased string starts with `curl` exactly when its first four characters lower-case to `c`, `u`, `r`, `l`. |
| Curl.TrimEndKeepsUpToNonBlank | src/tools.ts:589 | Trimming the end keeps everything up to a non-whitespace character. |
| Curl.IsCurlCommand | src/tools.ts:589 | The curl guard holds exactly when the command, after its leading whitespace, starts with `curl` in any letter case. Trailing whitespace is irrelevant. |

## Left out

- Process spawning, signals, the 5-second kill timer and the spawn timeout timer are not modelled as I/O. Their outcomes (spawned, timed out, error; exit; close; data) are inputs to the transition functions.
- Ordering and races between callbacks are not modelled. Each event is a separate transition (`OnAsyncData`, `OnAsyncClose`, `OnAsyncError`, `SyncExecution.OnSyncEvent`), and an interleaving is expressed by composing them.
- ConsoleManager.CreateConsole: the name check and the registration are one transition. `createConsole` separates them by awaiting the spawn (src/console-manager.ts:94 and 117-160). So two overlapping creates with the same name can both succeed there, which the model cannot express.
- Environment merging (`{ ...process.env, ...environment }`) is left out. It only feeds the spawned process.
- `listConsoles` is left out. It is `getConsoleStatus` over every session, in the insertion order of a JavaScript `Map`, which a Dafny map does not have.
- Generated ids (`uuidv4`), the clock and ISO timestamps are parameters. Ids are assumed fresh where the code relies on their uniqueness.
- The regular-expression engine is abstract: an invalid pattern, or a matcher giving the match list of a text and a test of one line.
- OutputFilter.SelectLines: tests each line independently. `getConsoleOutput` builds one regular expression with the `g` flag and calls `test` on every line, so `lastIndex` carries over from a successful match. The line after a match is therefore searched from a later offset and can be dropped. The stateful regex is not modelled.
- Character handling differs from JavaScript:
  - Case conversion (`toLowerCase`, `toUpperCase`) covers ASCII letters only.
  - Strings are sequences of Unicode scalar values, not UTF-16 code units.
- ConsoleManager.GetConsoleOutput: `lines` is an integer. `getConsoleOutput` also accepts fractional `lines`, which `slice(-lines)` truncates.
- Keys such as `__proto__`, which behave specially in a JavaScript object used as the header map, are not modelled. Headers are a plain map.
- Notifications are returned as values. Invoking the callback, and its effects, are out of scope.
- Events for an execution whose console has been closed change nothing in the registry, but they still update the handler's detached row, and `close` and `error` still notify the subscriber. The caller threads the detached row from one handler to the next.
- SyncExecution.ExecuteSync: delivers all the call's events with no other transition in between. A `closeConsole` or another command during the run is expressed with `SyncExecution.OnSyncEvent` steps instead, where a chunk for a closed session is a no-op.
- Shell.DefaultShell: reads `COMSPEC` and `SHELL` as exact keys of the environment map. Node's `process.env` is case-insensitive on Windows, where the variable is usually spelled `ComSpec`; the model's `env` stands for that case-normalized view.
- `executeCurl`, the HTTP fallback client, the MCP tool registration and `cli.ts` are not part of this model.
- The status of an asynchronous execution is not monotonic in the code: a `close` after an `error`, or an `error` after a `close`, overwrites the terminal status. The model follows the code (see `Executions.StatusNotMonotonic`).
- The Content-Type default looks only at the exact key `Content-Type`. A user header spelled `content-type` does not suppress it, and both are sent. The model follows the code.
