# A verified model of Jaiph

Jaiph is a small workflow language with a parser, a formatter, a validator, a script emitter and
a workflow server. This project models the parts of it that keep state or transform text under
side conditions, and proves what they are for. `dafny verify dfyconfig.toml` checks everything.

- **The step language** (`StepTree`, `BlockParser`, `StepPrinter`, `StepGrammar`, `StepRoundTrip`,
  `StepTheorems`, `StepNormalForm`): the mutually recursive block parser over lines, a grammar of
  its own that says exactly what it reads, the formatter, the round trip between them with its
  exact condition, and the normal form of everything the parser returns.
- **The text codecs** (`CallRef`, `CallRoundTrip`, `CallGrammar`, `StatementSplit`,
  `SplitTheorems`, `SplitGrammar`, `Dedent`, `Fence`, `TripleQuote`): call arguments, the `;`
  splitter, dedent, fenced and triple-quoted bodies, over all strings; each scanner against a
  statement of what it reads, by tokens or by quantifiers, that does not mention the scanner.
- **The run registry of `jaiph serve`** (`ServeModel`, `ServeSafety`, `ServeTheorems`,
  `ServeOutcomes`, `ServeRetention`, `ServeScenarios`, `ServeHandler`): a state machine whose steps
  are the pieces of the handler between two awaits, theorems over all its runs, and a class whose
  methods are proved to take those steps. `RunStore` adds the disk, crashes and restarts.
- **The journal follower and its event stream** (`Utf8`, `JournalFollower`, `SseStream`): an
  incremental reader against splitting the whole file, for every schedule of polls and of short
  or failing reads. UTF-8 is section 3 of RFC 3629; ill-formed bytes are replaced the way the
  WHATWG Encoding Standard's decoder does. The stream is section 9.2 of the WHATWG HTML Living
  Standard.
- **Algorithms against a simple specification** (`Bindings`, `FlatOrder`, `SandboxClone`,
  `ModuleGraph`, `WorkerPool`): the single-walk binding check against all executions, the
  directory-granular workspace clone against a path-by-path policy, the import loader against
  reachability, and bounded concurrency under every interleaving.

Loops and objects that the program updates in place are methods and classes here, each proved
against a function or a state-machine step; the theorems are about those functions and steps.

## Where the code departs from what is said about it

The model follows the code. Each point is a lemma unless marked otherwise.

- A comment on the block options (`src/parse/workflow-brace.ts:36-41`) says that `} else {`
  outside an `if` body is an error. It is read as a plain statement
  (`StepNormalForm.StrayElseIsAStatement`).
- The formatter is meant to preserve a program. An else body that is a single `if` with an empty
  then-body parses, and its formatted text does not (`StepNormalForm.EmptyElseIfIsLost`); else
  arms inside a catch or recover clause can make the formatted text fail
  (`StepNormalForm.TwoElseArmsInClause`). `StepNormalForm.WorkflowReformat` is the exact condition.
- The event stream is described as replaying every line. An empty line of what was read may be
  dropped, depending on when the file was polled (`JournalFollower.EmptyLinesDependOnPolls`);
  every line of what was read arrives whatever the polls exactly when no line is empty
  (`JournalFollower.AllArriveExactlyWhen`). The stream may end before the journal is read to its
  end, although the run is terminal and no line is empty (`SseStream.LineLeftBehind`);
  `SseStream.StreamRunEvents` says how far it reads, and exactly when no other line is missing.
- The snapshot is described as exactly the files git reports (`src/runtime/docker-sandbox.ts:165-173`).
  An excluded directory inside a listed directory is copied
  (`SandboxClone.SubmoduleBringsItsRuns`), and a nested repository, which git lists with a
  trailing separator, is not (`SandboxClone.NestedRepositoryDropped`).
  `SandboxClone.SnapshotExactlyWhen` is the exact condition. A runs directory that is
  `.git` itself is copied whole (`SandboxClone.RunsInDotGit`); otherwise
  `SandboxClone.RunsLeftBehind` says when runs stay behind.
- The loader's comment (`src/transpile/module-graph.ts:41-42`) says that missing imports are not
  surfaced there. The code throws for them, and the model does as the code.
- The splitter's comment (`src/parse/statement-split.ts:4`) says that brace depth is ignored. A
  semicolon inside braces does not split (`SplitGrammar.CutsExactly`).
- A retried create is meant never to start a second run (`src/cli/serve/handler.ts:419-420`). It
  does so when no resident run answers for the key (`ServeTheorems.StartsExactlyWhen`). That is so
  once the run has been evicted, and even beside a resident run with the key when a newer loaded
  run carried the key, too, and was evicted (`ServeScenarios.OlderTwinIsPassedOver`). Right after a
  restart it is so when no record on disk carries the key (`RunStore.LoadStartsExactlyWhen`), and
  later by `RunStore.RestartStartsExactlyWhen`. A run loses its key at a restart by not having
  settled (`RunStore.CrashRunsTwice`), by settling without a run directory, as every run does whose
  executor threw (`RunStore.ThrowRunsTwice`), or by settling in a directory that is gone or cannot
  be written; `RunStore.KeyForgottenExactlyWhen` is the exact condition over a whole life of the
  server.

## Model

| member | source | states |
|---|---|---|
| BlockParser.ParseBody | src/parse/workflow-brace.ts:45-125 | progress: a body that parses ends after where it started and within the file; it ends at an `else` line only when the caller allows that, and then hands an `else if` line back unread |
| BlockParser.ParseIfArm | src/parse/workflow-brace.ts:287-333 | progress of one arm of an if chain, also when it starts from the `} else if` line its predecessor was closed by |
| BlockParser.ParseBraceBlockBody | src/parse/workflow-brace.ts:45-125 | the loop over the lines of a block refines the recursive reading of a body that the theorems are about |
| BlockParser.ParseBlockStatement | src/parse/workflow-brace.ts:774-814 | statement dispatch refines the same reading: `if`, `for`, a call with an attached clause, anything else one line |
| BlockParser.ParseArm | src/parse/workflow-brace.ts:287-333 | one arm of an if chain as written, against the same reading |
| BlockParser.ParseAttachedBlock | src/parse/workflow-brace.ts:830-913 | the clause of a call as written, with its brace-counting pre-scan before the recursive parse |
| StepGrammar.ReadsWhatIsSpelled | src/parse/workflow-brace.ts:45-125 | for every line array and options: a block is read as these steps, to this line and closed in this way, if and only if the lines spell the steps by a grammar that does not mention the parser and the clauses close where their braces do; an else body of one `if` may be spelled `} else if` or written out |
| StepGrammar.WrittenOutElse | src/parse/workflow-brace.ts:326-331 | an `if` written out after `} else {` is read as the else body |
| StepGrammar.ScanClosesExactly | src/parse/workflow-brace.ts:893-907 | the pre-scan stops at the first line where the openers and closers of the lines since the clause began are level |
| StepPrinter.PrintSteps | src/format/emit-steps.ts:37-43 | printing a list of steps is printing them one after the other |
| StepPrinter.PrintIf | src/format/emit-steps.ts:351-368 | the loop that walks down a chain of lone `if` else bodies prints what the recursive definition of `else if` prints |
| StepPrinter.ChainForm | src/format/emit-steps.ts:351-368 | a lone `if` in an else body is printed as it is alone, with its head line turned into an `} else if` arm |
| StepTheorems.Reparse | src/parse/workflow-brace.ts:45-125 | a printed tree followed by a closing brace is read back as its blank-normalised form, to just past the brace, exactly when the parser accepts its shape and every clause passes the pre-scan; otherwise the parse fails |
| StepTheorems.NormalExactlyWhenSpaced | src/parse/workflow-brace.ts:60-69 | normalisation leaves a tree alone exactly when blanks are kept where they stand, never lead and never double |
| StepTheorems.RoundTrip | src/format/emit-steps.ts:168-377 | print then parse is the identity, with the index just past the brace, if and only if the tree is spaced, accepted and its clauses pass the pre-scan |
| StepTheorems.ClauseScan | src/parse/workflow-brace.ts:891-907 | the pre-scan accepts a clause exactly when no line in it raises the depth without being matched, or later lines of the file happen to close the excess |
| StepTheorems.PlainRoundTrip | src/format/emit-steps.ts:37-43 | trees without such lines inside clauses round-trip wherever they stand in a file |
| StepNormalForm.BodyShaped | src/parse/workflow-brace.ts:45-125 | for every line array, whatever the parser returns is spaced, well placed and has no empty clause |
| StepNormalForm.ParsedBlanks | src/parse/workflow-brace.ts:60-69 | no returned body starts with a blank or holds two adjacent blanks |
| StepNormalForm.ReformatStable | src/format/emit-steps.ts:37-43 | for every block body that parses, printing and parsing again gives the same body if and only if it holds no lone `if` with an empty then-body as else body and the printed clauses pass the pre-scan |
| StepNormalForm.StripTrailingBlanks | src/parse/workflows.ts:82-91 | only blanks are dropped from the end of a workflow body, and all of them |
| StepNormalForm.WorkflowRoundTrip | src/parse/workflows.ts:58-92 | a printed workflow body is read back as itself, through the removal of trailing blanks, if and only if it is spaced, does not end in a blank, is accepted and its clauses pass the pre-scan |
| StepNormalForm.WorkflowReformat | src/parse/workflows.ts:58-92 | for every source that parses, the stripped body the formatter is given is printed to text that is read back as that body, under the same exact condition |
| StepNormalForm.EmptyElseIfIsLost | src/parse/workflow-brace.ts:318-320 | a source that parses and whose formatted text never parses: an else body that is an empty `if` is printed as an empty `else if` |
| StepNormalForm.TwoElseArmsInClause | src/parse/workflow-brace.ts:893-907 | a well-formed tree with two else arms in a clause whose printed text fails, because the pre-scan counts `} else {` as an opener |
| StepNormalForm.StrayElseIsAStatement | src/parse/workflow-brace.ts:36-41 | outside an `if` body `} else {` is read as a plain statement, not reported as an error |
| StepNormalForm.ElseClosesALoop | src/parse/workflow-brace.ts:350-366 | a `for` in a then-body is closed by the `} else {` of the `if` around it, and the arm becomes more of the then-body |
| ServeSafety.StartInv | src/cli/serve/handler.ts:102-107 | the state seeded from terminal records with distinct ids satisfies the registry invariant |
| ServeSafety.NextInv | src/cli/serve/handler.ts:142-213 | every step (create, register, cancel, settle, evict) keeps the invariant: index entries point at resident runs carrying their key, orders are distinct, terminators are called exactly for cancelled runs, the cap holds |
| ServeSafety.RunInv | src/cli/serve/handler.ts:142-213 | the invariant holds in every state of every run |
| ServeTheorems.Lifecycle | src/cli/serve/handler.ts:761-780 | a run keeps its identity, its status changes at most once and only away from `running`, and a run that left the registry never comes back |
| ServeTheorems.NoStaleIndex | src/cli/serve/handler.ts:442-443 | in every reachable state an index entry points at a resident run carrying that key, so the stale-entry branch is unreachable |
| ServeTheorems.KeyStays | src/cli/serve/handler.ts:612-617 | through any events a key stays with its run for as long as the run is resident, whether this process started the run or loaded it |
| ServeTheorems.CreateOnce | src/cli/serve/handler.ts:419-459 | once a key belongs to a run, started or loaded, every later create with the key returns it (same arguments) or conflicts (different arguments) and changes nothing while it is resident |
| ServeTheorems.StartedOnce | src/cli/serve/handler.ts:419-459 | of two creates that start runs under one key the second comes after the first run left the registry |
| ServeTheorems.StartsExactlyWhen | src/cli/serve/handler.ts:419-459 | a keyed create starts a run if and only if the cap leaves room and no resident run answers for the key: none started under it since the start, and not the newest loaded run that carries it |
| ServeScenarios.OlderTwinIsPassedOver | src/cli/serve/handler.ts:102-107 | two loaded runs carry one key, the newer ages out first, and a create with the key starts a run beside the older one |
| ServeTheorems.FlagHistory | src/cli/serve/handler.ts:619-632 | over any stretch of a run, the cancel flag is set exactly when it was set before or some cancel path reached the run |
| ServeTheorems.EndsCancelled | src/cli/serve/handler.ts:761-780 | a settling run ends `cancelled` exactly when some cancel path reached it between its creation and its settlement |
| ServeTheorems.CancelIsDelivered | src/cli/serve/handler.ts:177-190 | a cancel that arrived before the child handle is registered is delivered on registration |
| ServeTheorems.KilledExactlyWhenCancelled | src/cli/serve/handler.ts:177-213 | in every reachable state a registered terminator has been called if and only if the run is marked cancelled |
| ServeTheorems.TerminatorCalled | src/cli/serve/handler.ts:177-213 | over a whole run: the terminator is there exactly when it was registered since the start, and then was called exactly when some cancel reached the run, whichever came first |
| ServeOutcomes.EndsAs | src/cli/serve/handler.ts:761-780 | over a whole run: the record of a run after its settlement, if still resident, is `cancelled` exactly when a cancel reached it, else failed or succeeded by what the executor gave, with the time, text, exit status, signal and directory of that outcome (none of the last three after a throw), and with everything it was created with |
| ServeOutcomes.CancelExactly | src/cli/serve/handler.ts:619-632 | a cancel is refused for an unknown run and for the run of another principal, answered as done for a run that ended, and otherwise sets the flag, calls a registered terminator once and changes nothing else |
| ServeRetention.KeptAtMost | src/cli/serve/handler.ts:598-605 | retention leaves at most `retainRuns` terminal records |
| ServeRetention.DropsOnlyWhenFull | src/cli/serve/handler.ts:598-605 | when retention drops anything it leaves exactly `retainRuns` |
| ServeRetention.SettleRetention | src/cli/serve/handler.ts:589-605 | after a settle: no running record was dropped, none remains that ended more than the retention age ago, at most `retainRuns` terminal records remain, and every dropped one that had not aged out is older than every survivor |
| ServeRetention.NeverAboveCap | src/cli/serve/handler.ts:147-148 | in every reachable state at most `maxConcurrent` runs are running |
| ServeRetention.Bounded | src/cli/serve/handler.ts:589-605 | from the first settle on the registry holds at most `maxConcurrent + retainRuns` records |
| ServeHandler.Handler.constructor | src/cli/serve/handler.ts:102-107 | the loop over the initial records, which writes their `order`, seeds the specified state |
| ServeHandler.Handler.InFlight | src/cli/serve/handler.ts:199-204 | the loop counts the running records |
| ServeHandler.Handler.StartRun | src/cli/serve/handler.ts:142-213 | the cap check and the new record, with the whole new state; no other record is touched |
| ServeHandler.Handler.CreateRun | src/cli/serve/handler.ts:419-459 | lookup, conflict, replay, start and reservation of the key as one step, with the whole new state |
| ServeHandler.Handler.CancelRun | src/cli/serve/handler.ts:619-632 | cancel by id: unknown or foreign, already terminal, or accepted, with the whole new state |
| ServeHandler.Handler.CancelAll | src/cli/serve/handler.ts:206-214 | exactly the running records are marked, and their terminators called |
| ServeHandler.Handler.Finalize | src/cli/serve/handler.ts:761-780 | settling writes the record, hands it to persistence and evicts: the new state, and the record as it is persisted |
| ServeHandler.Handler.EvictCompleted | src/cli/serve/handler.ts:589-605 | age, then surplus: the loops compute the specified state |
| ServeHandler.SurplusIsPrefix | src/cli/serve/handler.ts:600-604 | dropping a prefix of the terminal runs sorted by order is dropping those with `retainRuns` newer terminal runs beside them |
| RunStore.LifeLeavesNoneRunning | src/cli/serve/run-store.ts:107-126 | after any life of the server, from its load to a crash at any point, the next load reports no run as running |
| RunStore.SecondLoadSame | src/cli/serve/run-store.ts:107-126 | loading a directory a second time at a later clock gives the same run if and only if it was not reconciled, or could be written, or the clock stands still |
| RunStore.RestartFixedPoint | src/cli/serve/run-store.ts:107-126 | with successful writes a second restart at any clock returns the same list |
| RunStore.OneListing | src/cli/serve/run-store.ts:121-125 | the returned list is determined by the disk, whatever order directories are read in |
| RunStore.SettledSurvives | src/cli/serve/run-store.ts:66-126 | over any run of the registry and any point after it settled a run in a directory of its own: a load returns that run as it was settled, evicted since or not, save that a tampered journal overrides status and result |
| RunStore.LoadedIsStartable | src/cli/serve/run-store.ts:107-126 | loaded runs with distinct ids meet the premise of every theorem about the registry |
| RunStore.IdempotentAcrossRestart | src/cli/serve/run-store.ts:154-180 | after a restart and any events, a create with the key of a run settled before returns that run or conflicts and changes nothing while the run is resident, even if it had been evicted before the restart |
| RunStore.LoadStartsExactlyWhen | src/cli/serve/run-store.ts:107-126 | right after a load a keyed create starts a run if and only if no record of the current schema version on the disk carries the key |
| RunStore.RestartStartsExactlyWhen | src/cli/serve/run-store.ts:107-126 | at any time after a load a keyed create starts a run if and only if the cap leaves room and no resident run stands for the key: none started under it since, and not the run recorded in the last directory with the key |
| RunStore.KeyForgottenExactlyWhen | src/cli/serve/run-store.ts:66-92 | across a life of the server and a crash at any point, a keyed create starts a run again if and only if no directory kept the key: by the last run settled in it, or, if none did or writes fail, from before |
| RunStore.CrashRunsTwice | src/cli/serve/run-store.ts:188-217 | create, crash before the run settles, load, create again: the workflow runs twice |
| RunStore.ThrowRunsTwice | src/cli/serve/handler.ts:774-780 | the same when the run settled because its executor threw, whose outcome is not persisted |
| RunStore.Store.PersistRunRecord | src/cli/serve/run-store.ts:66-92 | the write that follows each settlement, whole or not at all |
| RunStore.SettlementWrites | src/cli/serve/run-store.ts:66-92 | over a whole run: what the settlement of a run leaves on disk, field by field, in the directory the executor returned, and that nothing else is written |
| RunStore.ListedAs | src/cli/serve/run-store.ts:107-181 | every listing holds exactly the directories with a record of the current version or a journal that begins with a run, reported field by field as recorded or as cut off; a tampered journal makes either failed |
| RunStore.LoadWrites | src/cli/serve/run-store.ts:188-217 | a load writes the interrupted record, whatever the verdict on the journal, where there was none and one can be written, and nothing else |
| RunStore.CutOffByCrash | src/cli/serve/run-store.ts:188-217 | after any life of the server that wrote no record into a directory whose journal begins with a run and that had none, the next load reports that run as interrupted, with the start and workflow of the journal, no key and now as its end, or as failed if the journal does not verify |
| TextOrder.LessExactly | src/cli/serve/run-store.ts:121-125 | the order of directory names: the strings agree up to some position where the first ends or has the smaller character |
| RunStore.Store.LoadPersistedRuns | src/cli/serve/run-store.ts:107-126 | scan, reload or reconcile, tamper override, sort: the new disk and the unique list |
| Utf8.DecodeAtLf | src/cli/serve/runfiles.ts:161-170 | decoding in pieces cut at a line feed gives what decoding the whole gives, for ill-formed input too |
| Utf8.SplitDecoded | src/cli/serve/runfiles.ts:161-170 | splitting decoded text into lines is decoding the lines of the bytes |
| Utf8.DecodeExactly | src/cli/serve/runfiles.ts:161-170 | decoding reads a byte string part by part: each character as section 3 of RFC 3629 encodes it, and U+FFFD for each ill-formed part, which is as long as it can still be continued to a character, or one byte |
| JournalFollower.NewLinesExtend | src/cli/serve/runfiles.ts:129-171 | the lines of a longer prefix are those of the shorter one and then the new ones; the tails compose |
| JournalFollower.ReadAppended | src/cli/serve/runfiles.ts:147-159 | the read loop under short, empty and failing reads |
| JournalFollower.TakenExactly | src/cli/serve/runfiles.ts:147-159 | what a poll takes: everything asked for if the reads before the first empty or failing one bring it, nothing after a failing one, what came before an empty one |
| JournalFollower.PollExactly | src/cli/serve/runfiles.ts:134-159 | how far a poll moves the follower: by that much if the file is open or can be opened, can be sized and has grown, and not at all otherwise |
| JournalFollower.CutLines | src/cli/serve/runfiles.ts:161-170 | cutting a buffer at its last line feed gives its lines and its tail, save that a lone empty line is dropped |
| JournalFollower.Follower.ReadNewLines | src/cli/serve/runfiles.ts:134-171 | for any schedule of polls: what was delivered so far is the deliveries of the offsets reached, non-empty lines are those of the prefix read in order and once each, and the rest is the tail |
| JournalFollower.AllArriveExactlyWhen | src/cli/serve/runfiles.ts:161-170 | every line of what was read is delivered under every schedule of polls if and only if no complete line of the journal is empty |
| JournalFollower.EmptyLinesDependOnPolls | src/cli/serve/runfiles.ts:169-170 | two schedules over one journal, of which one delivers both empty lines and the other none |
| SseStream.FlushNew | src/cli/serve/runfiles.ts:200-204 | one flush sends what the follower delivers and moves it as the poll says; it reaches the end of a journal it sees whole, however short the reads are |
| SseStream.StreamRunEvents | src/cli/serve/runfiles.ts:197-226 | what is read is decided by the polls; the non-empty lines of it are sent in order and once each, one end event last; they are all the journal has if and only if no non-empty line lies after what was read, as when any flush before it ends sees the journal complete; as many keep-alives as turns they were due after |
| SseStream.LineLeftBehind | src/cli/serve/runfiles.ts:208-218 | a stream that ends without the only line of its journal, none of whose lines is empty, because neither of the last two flushes can stat the file |
| CallRef.CommaArgsToArgList | src/parse/core.ts:213-232 | the loop over quotes and commas cuts and classifies as specified |
| CallRef.ScanToClose | src/parse/core.ts:268-283 | the scan for the closing parenthesis as written |
| CallRef.ParseCallRef | src/parse/core.ts:262-292 | the parser as written, against the recursive definition |
| CallGrammar.CallExactly | src/parse/core.ts:262-292 | a string parses as a call if and only if it is white space, a word or two words with a dot, balanced content in parentheses with every quote closed, and the rest; the arguments are, in order, the stretches between the commas outside quotes, stripped and without the blank ones, each a variable exactly when it is a word that is no keyword or two words with a dot |
| CallGrammar.SegmentsAreStretches | src/parse/core.ts:213-232 | cutting any text at its commas cuts it at the commas outside quoted strings, whether or not the last string is closed |
| CallGrammar.ClassifyExactly | src/parse/core.ts:234-242 | an argument is a variable exactly when it is a word that is no keyword or two words with a dot between |
| CallRoundTrip.KeptWalk | src/parse/core.ts:213-242 | dropping commas, empty segments and white space around segments changes neither depth nor quote state of the scan |
| CallRoundTrip.KeptOfJoin | src/format/emit-shared.ts:20-24 | printed arguments are cut where they were joined |
| CallRoundTrip.ReprintStable | src/format/emit-shared.ts:40-42 | for every string that parses as a call, parsing the reprinted call and the rest gives the same reference, arguments and rest |
| StatementSplit.SplitStatementsOnSemicolons | src/parse/statement-split.ts:47-174 | the character loop, in both regex modes, against the recursive definition |
| SplitTheorems.CutExactly | src/parse/statement-split.ts:37-174 | a line is cut exactly at the semicolons the scan reaches at zero depth outside strings and regexes |
| SplitGrammar.CutsExactly | src/parse/statement-split.ts:37-174 | for every line spelled by characters, strings, triple-quoted strings and regexes, in both modes: the cuts are exactly the semicolons among the characters before which the characters hold as many opening as closing braces, parentheses and brackets |
| SplitGrammar.SplitExactly | src/parse/statement-split.ts:37-174 | for every line: the statements are its stretches between those semicolons, stripped and without the blank ones; every line is spelled that way, its last string or regex possibly left open |
| SplitTheorems.RawIsBetween | src/parse/statement-split.ts:47-174 | the untrimmed pieces are what lies between the cuts |
| SplitTheorems.RawJoin | src/parse/statement-split.ts:47-174 | the untrimmed pieces joined by `;` are the line |
| SplitTheorems.SplitCanonical | src/parse/statement-split.ts:47-174 | for every line and both modes, splitting the statements joined by `;` gives the same statements |
| Dedent.MarginIsLongest | src/parse/dedent.ts:6-26 | comparing only the least and the greatest non-blank line finds the longest space and tab prefix of all of them |
| Dedent.DedentTwice | src/parse/dedent.ts:6-26 | dedent is idempotent |
| Dedent.WhenDedented | src/parse/dedent.ts:6-26 | a dedented text has margin zero and its blank lines are empty |
| Dedent.DedentCommonLeadingWhitespace | src/parse/dedent.ts:6-26 | the function as written, with the loop that advances the margin |
| Dedent.DedentExactly | src/parse/dedent.ts:6-26 | a text is the dedented one if and only if its blank lines are empty, its other lines lack one and the same run of spaces and tabs, and what is left of them has no first space or tab in common |
| Fence.ParseFencedBlock | src/parse/fence.ts:10-45 | the loop that collects the body lines, and its errors |
| Fence.FencedExactly | src/parse/fence.ts:10-45 | a block is read as this body, tag and trailing text, to this line, if and only if the line is a fence with that tag and no white space in it, and the first fence after it ends the body |
| Fence.NotFenced | src/parse/fence.ts:10-45 | each of the three failures exactly when its cause is there: no fence, white space in the tag, no closing fence |
| Fence.FenceRoundTrip | src/format/emit.ts:302-306 | printing a canonical body at any indent and parsing the block returns the body, tag, trailing text and next index |
| Fence.ParsedIsCanonical | src/parse/fence.ts:51-66 | every body the parser returns satisfies the premise of the round trip |
| TripleQuote.UnquotePass | src/format/emit-shared.ts:36-38 | the first replacement removes exactly the escapes put before quotes, through any run of backslashes |
| TripleQuote.EncodeCons | src/parse/triple-quote.ts:58-60 | encoding works character by character: a backslash before each backslash and each quote |
| TripleQuote.DecodeEncode | src/parse/triple-quote.ts:58-60 | decoding inverts encoding on every string |
| TripleQuote.CanonicalizeEncoded | src/parse/triple-quote.ts:82-86 | canonicalizing an encoded body is encoding the dedented body |
| TripleQuote.CanonicalizeTwice | src/parse/triple-quote.ts:82-86 | canonicalizing is idempotent |
| TripleQuote.TrimAdjacentBlankLines | src/parse/triple-quote.ts:5-14 | the two loops that drop blank ends |
| TripleQuote.KernelExactly | src/parse/triple-quote.ts:5-14 | dropping blank ends leaves the lines from the first to the last that is not blank, and nothing if there is none |
| TripleQuote.ParseTripleQuoteBlock | src/parse/triple-quote.ts:20-48 | the loop that collects a block, and its errors |
| TripleQuote.QuotedExactly | src/parse/triple-quote.ts:20-52 | a block is read as this body and trailing text, to this line, if and only if the quotes stand alone on their line, the first line after them that quotes open ends the body, and the body is what is left of the lines between without their blank ends |
| TripleQuote.NotQuoted | src/parse/triple-quote.ts:20-48 | each of the three failures exactly when its cause is there: no quotes, text after them, no closing quotes |
| TripleQuote.BlockRoundTrip | src/parse/triple-quote.ts:20-48 | printing a body between its quotes and parsing the block gives it back |
| TripleQuote.ParsedIsCanonical | src/parse/triple-quote.ts:20-52 | every body the parser returns satisfies the premise of the round trip |
| Bindings.BindingSoundness | src/transpile/validate.ts:67-172 | if the walk succeeds, no execution binds a name that is bound in its scope or takes a script name: either arm of each `if`, clauses run at most once in their scope or any number of times in their own, any number of loop iterations |
| Bindings.WalkIsEverything | src/transpile/validate.ts:100-169 | the walk succeeds exactly when the one trace that takes every branch keeps the discipline, and then records exactly the names it binds |
| Bindings.BothArmsRefused | src/transpile/validate.ts:144-150 | soundness has no converse: a name bound in both arms is refused although no execution binds it twice |
| Bindings.FlattenListsAll | src/transpile/validate.ts:100-169 | the flat list holds every step of the tree as often as it occurs, else arms and clauses included |
| FlatOrder.FlattenInOrder | src/transpile/validate.ts:100-169 | the flat list holds what stands at the addresses of the tree, in the order of writing, nothing left out, each step with the failure binding of the innermost clause around it |
| Bindings.Walker.Descend | src/transpile/validate.ts:100-169 | the descent over the shared bindings map computes the recursive walk and appends the preorder of the tree |
| Bindings.WalkStepTree | src/transpile/validate.ts:47-172 | a declaration: success exactly when the walk succeeds, and then both properties |
| SandboxClone.LooksDetermine | src/runtime/docker-sandbox.ts:203-214 | what is found at each path determines a tree, so the theorems below determine the copies |
| SandboxClone.ExcludingExact | src/runtime/docker-sandbox.ts:203-214 | copying whole directories where possible leaves exactly the source tree with the excluded subtrees removed |
| SandboxClone.GitExact | src/runtime/docker-sandbox.ts:236-254 | for every path and all allowed sets closed upwards: what the git copy holds |
| SandboxClone.SnapshotExactlyWhen | src/runtime/docker-sandbox.ts:220-255 | the git copy agrees with the path-by-path policy (what is listed and everything inside it, and the directories on the way, save at or below an excluded path) if and only if no exclude on disk lies inside a listed directory and nothing on disk is listed only with a trailing separator |
| SandboxClone.SubmoduleBringsItsRuns | src/runtime/docker-sandbox.ts:243-247 | the runs directory is copied when `.jaiph` itself is a listed directory |
| SandboxClone.NestedRepositoryDropped | src/runtime/docker-sandbox.ts:227-234 | what git lists with a trailing separator is dropped if and only if it is not listed without one and nothing below it is |
| SandboxClone.CloneExact | src/runtime/docker-sandbox.ts:189-268 | path by path what the whole clone holds, in all three cases, and exactly when it fails |
| SandboxClone.OnlyRunsLeftBehind | src/runtime/docker-sandbox.ts:195-217 | without git the clone is, path by path, the workspace but for what lies at or below `.jaiph/runs` and the configured runs directory |
| SandboxClone.RunsLeftBehind | src/runtime/docker-sandbox.ts:189-268 | with git nothing at or below either of them comes along, unless git lists a directory that holds it or it is `.git` itself |
| SandboxClone.RunsInDotGit | src/runtime/docker-sandbox.ts:257-266 | a configured runs directory that is `.git` itself is copied with everything in it |
| SandboxClone.AddAncestors | src/runtime/docker-sandbox.ts:231-233 | the walk up from a listed path adds exactly the directories strictly between it and the workspace |
| SandboxClone.AllowedSets | src/runtime/docker-sandbox.ts:225-234 | the loops over the listing compute the allowed files and directories |
| SandboxClone.CopyExcludingInto | src/runtime/docker-sandbox.ts:203-214 | the entry-by-entry copy, in any order of the entries |
| SandboxClone.CopyGitInto | src/runtime/docker-sandbox.ts:236-254 | the entry-by-entry copy of the git case, in any order of the entries |
| SandboxClone.CloneWorkspaceForSandbox | src/runtime/docker-sandbox.ts:189-268 | the clone as written |
| ModuleGraph.LastImportWins | src/transpile/module-graph.ts:29-35 | an alias stands for the last import that names it |
| ModuleGraph.ClosureIsLeast | src/transpile/module-graph.ts:44-75 | the keys are the least set that holds the entry and is closed under resolved imports |
| ModuleGraph.LoadModuleGraph | src/transpile/module-graph.ts:44-75 | terminates; succeeds exactly when every reachable file exists and parses, and then returns the closure; otherwise names a reachable missing or unparsable file, a reachable importer of it, and one than which every nearer file is good; parses nearer files first and no file twice |
| ModuleGraph.Enqueue | src/transpile/module-graph.ts:67-72 | after a module is loaded every import target is loaded or waits in the queue |
| ModuleGraph.ShadowedImportIsNotLoaded | src/transpile/module-graph.ts:29-35 | an import shadowed by a later one of the same alias is not followed, so its missing target goes unnoticed |
| WorkerPool.ClaimedOnce | src/cli/commands/install.ts:249-255 | under every interleaving each index below the counter is claimed by exactly one action |
| WorkerPool.InFlightBounded | src/cli/commands/install.ts:256-257 | at most `max(1, min(limit, n))` calls are in flight, none twice and none for an item already done |
| WorkerPool.FullWidth | src/cli/commands/install.ts:249-257 | the bound is reached: some schedule has `min(limit, n)` calls in flight |
| WorkerPool.ResultsInPlace | src/cli/commands/install.ts:253-259 | when all workers have returned, exactly the items have results, and a value is the result of an item if and only if the call on it delivered that value |
| WorkerPool.ScheduleLength | src/cli/commands/install.ts:249-255 | every schedule is finite, exactly two steps an item and one a worker if no call fails, and it can go on until all workers have stopped |
| WorkerPool.Pool.Claim | src/cli/commands/install.ts:251-252 | `next++` and the test, with the whole new state |
| WorkerPool.Pool.Resolve | src/cli/commands/install.ts:253 | the write to `results`, with the whole new state |
| WorkerPool.Pool.Reject | src/cli/commands/install.ts:253 | a failed call ends its worker and changes nothing else |
| WorkerPool.RunWithConcurrency | src/cli/commands/install.ts:246-259 | under a demonic scheduler: item by item what the calls gave if none fails, a failure if and only if one does |

## Left out

- Error messages, source locations and columns, and the texts of diagnostics: a parse error is one value.
- Statements that span several lines (prompts, matches, fenced and triple-quoted values), inline clause bodies on one line and single-statement clauses: each is one opaque line of the step tree.
- A call that carries both a catch and a recover clause: the parser never builds one, and the formatter would print the recover clause only.
- Configuration blocks, channel route lines, assignment guards and conditions of an `if`: opaque, or rejected before the modelled code is reached.
- Rule bodies, which collect shell lines in a loop of their own, and the test-file parser.
- `unwrapOuterBraceBlocks` and `findClosingBraceIndex`: no command reaches them.
- Multi-line call arguments, `parseParenArgs` and the unescaping of plain double-quoted strings.
- Strings are sequences of Dafny characters rather than UTF-16 code units; white space is the set that `String.prototype.trim` removes.
- Indentation in the step language: the parser trims every line, so it is not part of a line token.
- Prompt schemas, known variables and capture kinds collected by `walkStepTree`, and rebinding among the parameters themselves, which the walk does not check.
- HTTP, authentication, capabilities, MCP, logging, JSON and hashing: a create request arrives with its key scoped and its arguments hashed.
- Run ids are fresh and not empty, and the executor of a run settles once; both come from outside the handler. A terminator may be registered, and called, at any time.
- ServeHandler.RunRecord: the fields of a record are gathered in one value with the terminator as two counters, so assigning a field replaces the value.
- ServeHandler.Handler.TerminalByOrder: sorts by insertion in place of the library's sort.
- RunStore.Store.LoadPersistedRuns: inserts each record at its place in the directory order in place of the library's sort; a `run.json` holding the JSON value `null`, for which the load throws, is not modelled, nor is a status that is no status.
- RunStore.SettledSurvives: the directories of a run are on the disk from the start of the modelled run, and their journals do not change during it; only the record files are written.
- RunStore.KeyForgottenExactlyWhen: as `RunStore.SettledSurvives`, and whether a directory can be written does not change during a life of the server.
- SseStream.StreamRunEvents: the text of keep-alive comments, the framing of a line that contains a carriage return, and the time between polls.
- JournalFollower.Follower.ReadNewLines: the file is only appended to; opening and sizing it may fail, and reads may be short, empty or failing.
- Bindings.BindingSoundness: an execution may stop anywhere; which arm runs, how often loops run and whether a clause runs are free choices.
- SandboxClone.CloneExact: `cp` is assumed to succeed and to copy a subtree as it is, links are not followed, git never lists its own directory, and the workspace is not the root of the file system.
- SandboxClone.SnapshotExactlyWhen: stated for listings in which no path lies inside another; `SandboxClone.GitExact` covers every listing.
- The choice of `cp` flags, the clone fallback on macOS and its warning.
- TripleQuote.QuotedExactly: the lines of a file hold no line feed.
- ModuleGraph.LoadModuleGraph: the disk does not change during a load, and resolving an import path is a function of the importer and the path.
- The serialized form of a module graph: JSON encoding is opaque.
- WorkerPool.ResultsInPlace: speaks of schedules in which every worker returned; after a failed call the caller gets the failure, and the calls that go on are covered by the other theorems.
- WorkerPool.RunWithConcurrency: a call gives one outcome, which may depend on the item and its index but not on the order of the calls; `WorkerPool.ResultsInPlace` has no such limit.
- The kernel runtime, the script emitter, telemetry, terminal output, the documentation site and editor support.
