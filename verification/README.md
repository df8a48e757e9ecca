# What Data Intelligence promises, verified

Dafny models of the parts of the Data Intelligence platform whose behaviour is decided by code rather than by a
database: the registry that says which definition of the numbers is in force, the reports that are compared with it
later, the workflows that change data and take it back, the graph that explains a metric, the printers and scanners
at its edges, the plans people sign before their database is read, and two small protocols with exact bounds.

State that the program updates in place is a class here (`RegistryStore`, `Engine`, `RunContext`, `Builder`,
`IntakeStore`, `Limiter`, `Feed`), loops are loops with invariants, and every method is proved against functions or
predicates on values, about which the main results are then proved.

| files | subject |
|---|---|
| `Registry`, `Operations`, `History`, `Rollbacks`, `Mirror`, `RegistryStore`, `Attest` | model versions, signatures, the ledger, its mirror, approval accounting |
| `Diff`, `RowKeys`, `DiffLines`, `Compare`, `Attribution` | comparing a frozen report with today and naming the causes |
| `Saga`, `FlowRun`, `FlowAnswers`, `FlowEngine`, `Mutate` | workflow runs, compensation, snapshot and restore |
| `Graph`, `GraphBuild`, `Identifiers`, `ModelAnswers` | the derivation graph, its two walks, and what they say of the model |
| `Matching`, `Shell`, `ShellDirs`, `ShellScript`, `JsonScan`, `Phrases` | matchers, printers and scanners |
| `IntakePlan`, `IntakeStore`, `IntakeActs` | signed intake plans |
| `RateLimiter`, `ChangeFeed` | the token bucket and the change poller |
| `Basics` | options, minima, whole numbers as text, two facts about products |

`dafny verify dfyconfig.toml` verifies the whole project with Dafny's default settings.

## What turned out not to hold as promised

Each is proved, and the condition that decides whether the code meets its promise is given both ways, for all inputs.

- *One active version* (`rollout/rollout.go:160`, `:207`). Promote and Rollback take a failed read of the active
  version for "there is none" and leave two active. `SafeAtEveryWrite` says when.
- *Rollback restores the most recently retired version* (`rollout/rollout.go:189-191`). The code restores the retired
  version saved last, and signing a retired version saves it. The promise holds if and only if no other retired
  version was signed after the retirement, or after a later signature of the retired version itself.
  `RestoresRetiredLastExactly`.
- *Rows are matched by their dimensions* (`reported/compare.go:384-390`): exactly as long as no dimension's text holds
  the separator that the key joins them with. Rows of different dimensions have one key if and only if their texts,
  cut at the separators, are the same pieces. `KeysTellRowsApart`, `KeysMeetExactly`, `SeparatorMovesOver`.
- *Every movement has a cause* (`reported/compare.go:133-184`). Half a change can hide in the data and half in the
  definition. Whatever the tolerance and the cells that come up, every moved report gets a cause if and only if the
  numbers among them do not add up small steps, and a number spelled like a cell that is no number agrees with exactly
  the numbers spelled like it (`ExplainedExactly`). Where numbers are read off texts that spell the whole numbers and
  densely many others, as decimals do, the first comes to a tolerance of zero or an all-embracing one
  (`AttributionIsComplete`); then the spellings alone decide (`ExplainedWhenExact`). What can move without a cause is
  never a row, and no number by more than two tolerance bounds: `UnexplainedDriftIsBounded`.
- *Sorted matching finds every pairing* (`nleval/eval.go:200-223`), except for tolerances strictly between one and
  two. `SortedMatchingIsExact`.
- *Impact is Explain read backwards* (`modelgraph/explain.go:106-154`): sure, over the graphs of models, exactly up to
  500 entries in the lists the walks ask for, and up to 5000 metrics and columns in the lists that say whether a name
  exists. `ModelsAreDualExactly`.
- *Arguments survive the shell* (`aicli/ssh.go:119-124`), if and only if the local directory has no quote in it and is
  not a lone backslash; for others, and for every absolute path that $D may be, some argument does not.
  `ShellDirs.RoundTripExactly`.
- *Rollback takes a run back to its start* (`flow/engine.go:153-163`): it has no guard on the status, so a run that
  failed, was rejected or rolled back is undone again; a step done whose save was lost is not undone; and a
  compensation that the death of the process cuts short is begun anew. It is sure to restore if and only if the run is
  still in the forward phase, every save of it has landed and no compensation of it was cut short, as long as each
  step can be taken back where the run meets it. `RollbackRestoresExactly`; for the steps of a manifest,
  `FlowIsRestored`.
- *A mutation is restored from its snapshot* (`flow/manifest.go:151-184`), exactly when its change stays within the
  snapshot and every restored cell reads back from the text it was saved as: `RestoresExactly`, `TakenBackExactly`.
  Text and whole numbers do; a NULL, saved as `<nil>`, bytes, saved as a list of numbers, and times, saved in a form
  that is refused, do not: `RestoresByKind`.
- *A failed step has no effect* (`flow/manifest.go:205-215`): a step of several statements that fails part-way keeps
  what the earlier ones did, and is not undone. It fails without effect exactly when the statements before the first
  refusal take the database back to itself, which is sure for at most one statement only. `LeavesWhatWasDone`,
  `OneStatementIsSafeExactly`.
- *Gone columns are reported* (`intake/plan.go:122-144`), and no others, for every plan and catalogue over given
  tables, if and only if no table's name begins with another's and a dot. `GoneIsRightExactly`.
- *The attestation covers every answer* (`rollout/attest.go:77-95`): of the trail and of the ledger only as many rows
  are read as the warehouse's cap lets through, and nothing says so. `WholeExactly`.
- *The change feed loses nothing* (`connectors/postgres_cdc.go:58-78`), over any run, if and only if no row is added
  with a cursor between the starting one and the watermark, and no poll's limit of 1000 falls between rows with one
  cursor; and a feed started on an empty table never delivers rows whose cursor is not positive. `RunLosesExactly`,
  `TailsExactly`.

## Model

| member | source | states |
|---|---|---|
| Registry.SafeAtEveryWrite | rollout/rollout.go:102-232 | from a safe store, the store after every single write of any operation (crashes in between included) has at most one active and one canary version, signatures that match the registered hash and no unsigned active or retired version, if and only if no lost read hides an active rival |
| Registry.LostReadActivatesTwo | rollout/rollout.go:149-232 | otherwise the completed promotion or rollback leaves two active versions |
| Registry.HarmlessRunIsSafe | rollout/rollout.go:102-232 | every run of operations without such a lost read, with crashes, unreadable files and refusals, reaches only safe stores |
| Registry.EveryRunIsSafe | rollout/rollout.go:102-232 | in particular every run in which the active version can be read |
| Registry.PromotedAsSigned | rollout/sign.go:83-99 | at a promotion the bytes on disk, the signature, the registered hash and the ledger line are one hash |
| Registry.RunStaysSound | rollout/sign.go:48-99 | in every run, lost reads included, every version is signed for the bytes it was registered with, and no unsigned version becomes active or retired |
| Operations.RegisterDoes | rollout/rollout.go:102-116 | the version stored is an unsigned candidate with the hash of the file on disk, in place of any of that name; refusals write nothing |
| Operations.SignDoes | rollout/sign.go:48-80 | the signature and its line bear the hash the file has, which is the registered one and the one named; refused in order otherwise |
| Operations.CanaryDoes | rollout/rollout.go:120-144 | the version serves the percentage asked for and every other canary becomes a candidate, also for an unknown name |
| Operations.PromoteDoes | rollout/rollout.go:149-187 | exactly that version is active after it and the one before is retired; the line bears the signer, the signed hash and the hash of the model replaced, empty if and only if there was none; refused in order otherwise |
| Operations.RollbackDoes | rollout/rollout.go:192-232 | every canary becomes a candidate; if none is active and some are retired, the one saved last is active again, with its line |
| History.Latest | rollout/mirror.go:380-394 | the newest matching line at or before a line, other than itself, or none exactly when there is none |
| History.HistoryIsFaithful | rollout/mirror.go:298-372 | in every undisturbed run each activation rests on an earlier signature of the same name and bytes; it supersedes nothing if and only if it is a promotion made while nothing was active, and otherwise exactly the activation before it, whose bytes are those of the version active at the time if there was one |
| History.PromotionNamesActive | rollout/rollout.go:156-187 | in every undisturbed run the line of a promotion bears the hash of the version active before it, and none if and only if none was |
| History.WalkReplaysHistory | rollout/mirror.go:306-318 | walking supersedes back replays the activations newest first, none skipped, and stops early only at the line of a promotion before which no version was active |
| History.LedgerStaysInOrder | rollout/sign.go:134-151 | in every run, crashes and lost reads included, the ledger is in strict time order and every line is well formed |
| History.RunIsRecorded | rollout/sign.go:48-80 | in every undisturbed run the ledger accounts for every activation and the store for the ledger |
| Rollbacks.RestoresRetiredLastExactly | rollout/rollout.go:189-232 | after every run, crashes and lost reads included, a rollback that restores a version restores the one retired last if and only if no other version still retired was signed after that one's retirement and its own last signature |
| Mirror.DecisionsAreStable | rollout/mirror.go:298-372 | a later line changes no earlier decision |
| Mirror.FullCopyIsFaithful | rollout/mirror.go:298-372 | the brain that holds exactly a ledger's decisions has every line, and no edge of it dangles |
| Mirror.CompleteIsFullCopy | rollout/mirror.go:243-263 | a faithful brain that lacks no line is exactly that full copy, whatever was lost or repeated on the way |
| Mirror.RegistryLedgerIsMirrorable | rollout/sign.go:134-151 | the ledger of every registry run, lost reads included, is one the mirror can copy |
| Mirror.CopyTellsHistory | rollout/mirror.go:298-372 | after every undisturbed run the copy has, for each line, a decision by its author about its bytes; an activation rests on the last signature over its bytes under its name and supersedes the last activation before it, that of the version then active, or nothing exactly when it was promoted while nothing was active |
| RegistryStore.RegistryStore.Register | rollout/rollout.go:102-116 | the new store and the error are those of the operation's writes, as many as land |
| RegistryStore.RegistryStore.Canary | rollout/rollout.go:120-144 | the same for a canary |
| RegistryStore.RegistryStore.Sign | rollout/sign.go:48-80 | the same for a signature; the line is mirrored unless the brain fails |
| RegistryStore.RegistryStore.Promote | rollout/rollout.go:149-187 | the same for a promotion |
| RegistryStore.RegistryStore.Rollback | rollout/rollout.go:192-232 | the same for a rollback |
| RegistryStore.RegistryStore.MirrorEntry | rollout/mirror.go:298-372 | ends on every ledger, ties included; keeps the copy faithful; without failures writes the line and counts exactly the decisions added |
| RegistryStore.RegistryStore.Resync | rollout/mirror.go:243-263 | at every write the copy stays faithful; a replay without an error leaves exactly the ledger's full copy; n is the number of decisions added, none the second time |
| RegistryStore.RegistryStore.Relive | rollout/mirror.go:243-292 | a whole run from empty stores, with a brain that fails and is replayed at any point: the store is the run's, the copy was faithful after every write, and a last replay without an error makes it the ledger's full copy |
| Attest.AccountIsFirstActivation | rollout/attest.go:96-121 | a model counts as approved since the first activation that names its bytes |
| Attest.AccountBearsSignature | rollout/attest.go:96-121 | a model is signed by whoever signed it last, and where that names nobody by the first activation since that does |
| Attest.AttestAll | rollout/attest.go:77-138 | one attestation for each hash in the trail and no other, each with its exact counts |
| Attest.Provenances | handover/provenance.go:46-72 | every answer that the capped query returns is accounted for; exactly those with a readable time whose own bytes were activated by then, by the ledger lines returned, count as approved, and exactly the others whose bytes were ever activated as approved too late; the registry is in use exactly when bytes that answered were ever activated |
| Attest.WholeExactly | warehouse/warehouse.go:277-312 | for every trail of at most n answers and every ledger of at most k lines, the report is that of the tables if and only if the cap on rows cuts neither |
| Attest.LaterActivationsDoNotApprove | rollout/attest.go:195-207 | activations dated after the answers never make them approved |
| Diff.PartnerExactly | reported/compare.go:264-342 | a now-row is paired with a then-row exactly when their keys and their order of appearance under the key are the same |
| Diff.JoinIsLossless | reported/compare.go:264-342 | the leftover rows are exactly those no row is paired with, each once, and none is paired twice |
| Diff.Diff | reported/compare.go:264-342 | matching by marking slots gives exactly that outer join, cell by cell |
| RowKeys.KeysMeetExactly | reported/compare.go:384-390 | two rows have one key exactly when their dimension texts, cut at the separators, are the same pieces |
| RowKeys.KeysTellRowsApart | reported/compare.go:384-390 | where no text holds the separator, two rows have one key exactly when all their dimensions are spelled alike |
| RowKeys.SeparatorMovesOver | reported/compare.go:384-390 | where one does, rows of different dimensions have one key |
| RowKeys.MatchedByDimensions | reported/compare.go:264-342 | a row is matched exactly with the row whose dimensions are all spelled alike and which comes as late among those |
| DiffLines.LinesSay | reported/compare.go:264-372 | a line for every row of then in order and one for every row of now without a partner, each with the values of both sides, the difference now minus then, and its status |
| DiffLines.MetricsByAppearance | reported/compare.go:344-359 | the columns compared are those of either side past the keys, each once, by first appearance |
| DiffLines.NowOnlyInOrder | reported/compare.go:278-341 | the rows only there now come by the first appearance of their key, those of one key in their order |
| Compare.UnmovedExactly | reported/compare.go:264-342 | nothing moved exactly when every row has its partner, every cell agrees and nothing is left over |
| Compare.SwapKeepsPairs | reported/compare.go:264-342 | swapping the sides keeps the pairs and their status and exchanges only-then and only-now |
| Compare.SelfComparison | reported/number.go:90-101 | every result agrees with itself exactly when one of the tolerances is not negative |
| Attribution.TransitiveOnExactly | reported/number.go:44-101 | over any set of cells, agreement is transitive if and only if its numbers chain and a number spelled like a cell that is no number agrees with exactly the numbers spelled like it |
| Attribution.UnmovedComposes | reported/compare.go:198-228 | two comparisons without movement compose whenever agreement is transitive on their measure cells |
| Attribution.CompareReport | reported/compare.go:133-195 | definition is named exactly when the model has changed and the runs show it to move the figure, access exactly when the policy has, data exactly when the same frame reads other data; the rows shown as moved are those that moved, in order |
| Attribution.ChangeGoesUnexplained | reported/compare.go:133-228 | for any three cells of which the middle one agrees with the outer two and those do not agree, a moved report without a cause |
| Attribution.ExplainedExactly | reported/compare.go:133-228 | for every tolerance and every set of cells, every moved report over such cells gets a cause if and only if the numbers chain and the spellings tell |
| Attribution.ExplainedWhenExact | reported/number.go:44-101 | with a tolerance of zero, or one under which all numbers agree, exactly when the spellings tell |
| Attribution.AttributionIsComplete | reported/compare.go:133-228 | over the cells of a warehouse that reads its numbers off their texts, in which every whole number has a spelling and between any two numbers there is one that has, every movement gets a cause if and only if the tolerance is zero or all-embracing and the spellings tell, as they do when no label spells a number |
| Attribution.DecimalsSpellEnough | reported/number.go:76-86 | a reading that knows the scientific notation for decimals spells enough numbers for that |
| Attribution.UnexplainedDriftIsBounded | reported/compare.go:133-228 | when a moved report gets no cause and the spellings tell, no row came or went and every cell that moved is a number at all three stops, drifting by no more than the two tolerance bounds together |
| Saga.UndoRestores | flow/engine.go:193-208 | undoing the first n steps, each reversible where the run met it, last first and with their memory intact, succeeds and gives back the database at the start |
| Saga.FailedStepRestores | flow/engine.go:166-190 | undoing the steps before one that failed gives back the database at the start |
| FlowRun.ActKeeps | flow/engine.go:117-163 | whatever is lost or cut short, an approval, a rejection or a rollback keeps the stored journal equal to the steps before the cursor, sets no run back and returns none to the forward phase |
| FlowRun.IntactIsRestored | flow/engine.go:153-163 | on any database, a run whose steps can each be taken back where the run meets them, going forward with no save lost and no compensation cut short, is taken back to its start by a rollback |
| FlowRun.EndingRestores | flow/engine.go:136-190 | however such a run first leaves the forward phase, by a step that fails, a rejection or a rollback, the database is back where the run began |
| FlowRun.NotRestored | flow/engine.go:153-163 | for every other status, and for every status with a save lost or a compensation cut short, a history of a reversible flow that comes to it and that a rollback does not take back |
| FlowRun.RollbackRestoresExactly | flow/engine.go:153-163 | over all flows whose steps can be taken back where the run meets them, and all histories with any saves lost and any compensation cut short, a run's fate makes sure that a rollback gives back the starting database if and only if its status is of the forward phase, every save landed and no compensation was cut short |
| FlowAnswers.StartEndsExactly | flow/engine.go:98-114 | a start answers without an error if and only if no step up to the next human step or the end fails and every save lands; it then waits there or is completed, with the database and the memory that the steps make, one entry each |
| FlowAnswers.ApprovalEndsExactly | flow/engine.go:117-133 | an approval goes on from the step behind the question and ends in the same way; a step that fails leaves a failed run in front of it; refused for an unknown run and for one that does not wait |
| FlowAnswers.RejectionEndsExactly | flow/engine.go:136-150 | a rejection undoes what was done and stores the run as rejected where it stood, or refuses |
| FlowAnswers.RollbackEndsExactly | flow/engine.go:153-163 | the same for a rollback, for every status |
| FlowAnswers.UndoWrites | flow/engine.go:193-208 | a compensation writes one entry for each undo that ran, last step first: all compensated if it succeeds, and if not the last one failed |
| FlowEngine.Engine.Compensate | flow/engine.go:193-208 | undoes the steps before the cursor, last first, up to the first that fails or to the death of the process; the journal gains one entry per undo run, compensated or failed; the cursor stays |
| FlowEngine.Engine.Perform | flow/engine.go:171-186 | one step of the advance: done and saved, or failed, compensated for and saved as failed |
| FlowEngine.Engine.Advance | flow/engine.go:166-190 | runs to the next human step, the end, a failure or a lost save, exactly as the advance on values does; other runs stay untouched |
| FlowEngine.Engine.Start | flow/engine.go:98-114 | the new run, its error, the database and the store are those of a start; other runs stay untouched and every stored run well formed |
| FlowEngine.Engine.Approve | flow/engine.go:117-133 | the same for an approval; refuses a run that is not waiting |
| FlowEngine.Engine.Reject | flow/engine.go:136-150 | the same for a rejection; refuses a run that is not waiting |
| FlowEngine.Engine.Rollback | flow/engine.go:153-163 | the same for a rollback, whatever the status |
| FlowEngine.Engine.Relive | flow/engine.go:98-163 | any history of a run, performed by the engine call by call, with any saves lost and any compensation cut short, is the history the results are about |
| Mutate.RunContext.Do | flow/manifest.go:155-173 | snapshot first, then apply; the run's memory holds the snapshot even when apply fails |
| Mutate.RunContext.Undo | flow/manifest.go:174-183 | writes every saved row back in order |
| Mutate.RestoreWrites | flow/manifest.go:174-203 | writing a saved row back is refused exactly when a column does not take its text; otherwise each restored cell becomes what is made of that text, or NULL if none was saved, and nothing else changes |
| Mutate.RestoresExactly | flow/manifest.go:151-184 | with the key among its columns, writing the snapshot back succeeds and gives back the table as it was if and only if the change stayed within what the snapshot saved and every saved cell that is restored reads back from its text |
| Mutate.TakenBackExactly | flow/manifest.go:151-184 | a mutation can be taken back on a table if and only if its change stays within the snapshot there and what the snapshot saves reads back |
| Mutate.ReadsBackByKind | flow/manifest.go:160-167 | text and whole numbers come back from a column of their kind; NULL, bytes and times never do |
| Mutate.RestoresByKind | flow/manifest.go:151-184 | on a table with columns of known kinds, a change within the snapshot is taken back if and only if no saved cell that is restored was NULL, bytes or a time |
| Mutate.LeavesWhatWasDone | flow/manifest.go:205-215 | what a step of statements leaves is what those before the first refusal have done: it fails without effect if and only if these take the database back to itself |
| Mutate.HalfDoneStaysDone | flow/manifest.go:205-215 | for every n of two or more, a step of n statements that fails half done and is not reversible, whatever its undo |
| Mutate.OneStatementIsSafeExactly | flow/manifest.go:138-149 | every step of n statements whose undo takes it back is reversible if and only if n is at most one |
| Mutate.UndoableExactly | flow/manifest.go:97-186 | a human, statement or mutation step can be taken back on a table if and only if its statements are undone there or fail with no effect, or its change comes back |
| Mutate.FlowIsUndone | flow/engine.go:193-208 | undoing the first n of differently named human, statement and mutation steps, each undoable on the table it meets, last first, succeeds and gives back the table the flow began with |
| Mutate.FlowIsRestored | flow/manifest.go:86-186 | a run of such steps that goes forward with no save lost and no compensation cut short, is taken back by a rollback |
| Mutate.FlowEndsRestored | flow/manifest.go:86-186 | however such a run first leaves the forward phase, the table is back as it was |
| Matching.FloatsEq | nleval/eval.go:200-223 | compares the sorted lists position by position |
| Matching.SortedMatchingIsExact | nleval/eval.go:200-223 | sorting decides whether a one-to-one pairing within tolerance exists, for all lists, if and only if the tolerance is not strictly between one and two |
| Matching.LooseToleranceLosesAMatch | nleval/eval.go:200-223 | for every tolerance in between, two lists that can be paired and are refused |
| Matching.SetEq | nleval/eval.go:248-265 | names match exactly when each occurs equally often |
| Graph.Search | modelgraph/explain.go:43-92 | breadth-first search finds every node within the bound, once, at its shortest distance, and nothing else |
| Graph.Explain | modelgraph/explain.go:43-92 | exactly what a metric rests on, at its shortest depth; nothing for an unknown metric |
| Graph.Impact | modelgraph/explain.go:106-154 | exactly the metrics a column moves, each once, at its fewest hops; nothing for an unknown column |
| Graph.ImpactIsExplainReversed | modelgraph/explain.go:43-154 | in every typed graph whose walked lists are not cut, cycles included, and for every bound, a metric is moved at h hops exactly when the column explains it at depth h |
| Graph.StarIsNotDual | modelgraph/explain.go:106-154 | with one reader of a column more than the neighbour limit, Explain reports what Impact does not |
| Graph.CrowdIsNotDual | modelgraph/explain.go:43-154 | with one metric more than the listing limit, Impact reports what Explain does not |
| Graph.DualExactly | modelgraph/explain.go:43-154 | the answers of Explain and Impact are each other's reverse on all typed graphs whose walked lists have at most n entries if and only if n is within the neighbour limit of 500, and on all of at most k metrics and k columns if and only if k is within the listing limit of 5000 |
| GraphBuild.Build | modelgraph/modelgraph.go:161-225 | the graph holds exactly the nodes and edges the model declares, no node twice, every edge typed |
| Identifiers.WordsExactly | modelgraph/modelgraph.go:265-276 | an expression is split into exactly the slices of identifier characters with none directly before or after them |
| Identifiers.WordsInOrder | modelgraph/modelgraph.go:265-276 | in their order |
| Identifiers.TrimExactly | modelgraph/modelgraph.go:233-238 | trimming drops all white space at both ends and nothing else |
| Identifiers.KeywordInAnyCase | modelgraph/modelgraph.go:404-411 | a keyword is one in capitals too |
| Identifiers.KeywordOnlySo | modelgraph/modelgraph.go:404-411 | and a word of ASCII is one only if it is spelled like one |
| ModelAnswers.AnswersAreTheModels | modelgraph/explain.go:43-154 | in the graph of a model whose walked lists are not cut, Explain reports a node at a depth exactly when so many definitions of the model and no fewer lead to it from the metric, through entities measured on, columns read and metrics derived from; and Impact the metrics from which so many lead to the column |
| GraphBuild.ShopIsOfModel | modelgraph/modelgraph.go:161-225 | the graphs that exceed the limits are those of models: metrics on one entity, of which some read its one column |
| GraphBuild.ModelsAreDualExactly | modelgraph/explain.go:43-154 | over the graphs of all models, the answers of Explain and Impact are each other's reverse if and only if the walked lists are within the neighbour limit of 500, all nodes being listed, and the metrics and columns within the listing limit of 5000, the lists being short |
| Shell.ArgumentRoundTrip | aicli/ssh.go:110-124 | a quoted and rewritten argument reads back, under sections 2.2.1 to 2.2.3 of the Shell Command Language in IEEE Std 1003.1-2017, as the argument with every occurrence of the directory replaced by the value of $D |
| ShellDirs.Breaks | aicli/ssh.go:119-124 | for every directory with a quote and for the lone backslash, and for every $D that is an absolute path without a quote, an argument that does not read back |
| ShellDirs.RoundTripExactly | aicli/ssh.go:119-124 | for every directory, every argument survives whatever the value of $D if and only if the directory has no quote and is not a lone backslash; and so for each single $D that is an absolute path without a quote |
| ShellScript.HereReadsBackExactly | aicli/ssh.go:38-58 | a here-document reads back, under section 2.7.4, exactly when no line is the delimiter |
| ShellScript.HereEndsEarly | aicli/ssh.go:46-57 | with such a line it ends early |
| ShellScript.CarryFiles | aicli/ssh.go:38-58 | refuses exactly when some file has such a line |
| ShellScript.RemoteScript | aicli/ssh.go:30-74 | the whole script, or a refusal |
| ShellScript.ScriptRoundTrip | aicli/ssh.go:30-74 | the script reads back as its files, trailing newlines made one, and its words, the directory replaced throughout |
| JsonScan.ExtractJSON | grounding/grounding.go:669-695 | the loop computes the extraction |
| JsonScan.ExtractIsShortestBalanced | grounding/grounding.go:669-695 | extracted is the shortest prefix from the first brace that balances outside strings; a failure means there is none |
| JsonScan.ExtractFindsTheObject | grounding/grounding.go:669-695 | around any object of sections 4 and 7 of RFC 8259, after a prefix without a brace and before anything, exactly the object is extracted |
| Phrases.WholeWordsAreNotCut | grounding/grounding.go:533-545 | a phrase stands as a whole word exactly where no run of word bytes leads into it or out of it |
| Phrases.FindSpan | grounding/grounding.go:504-541 | the leftmost whole-word occurrence that touches no claim, -1 exactly when there is none |
| Phrases.Keyword | grounding/grounding.go:441-457 | marking spans as it goes, the loop chooses the metrics of the greedy claims, in their order |
| Phrases.ClaimsAreRight | grounding/grounding.go:425-457 | the greedy claims: one whole-word span per chosen metric, none overlapping; every place of a metric not chosen is touched by a phrase no shorter |
| Phrases.NothingChosenMeansNothingStands | grounding/grounding.go:441-457 | nothing is chosen exactly when no phrase stands in the question |
| IntakePlan.CanonicalPlan | intake/plan.go:63-79 | the decisions, sorted, none lost |
| IntakePlan.SameFormSameDecisions | intake/plan.go:33-85 | two plans have one canonical form if and only if they are about one database and decide the same about every column, whatever the order, the reasons and the authors |
| IntakePlan.Amend | intake/plan.go:91-119 | changes applied in place, or the refusal of the first that is no treatment or covers nothing |
| IntakePlan.AmendedDecides | intake/plan.go:91-119 | each column gets the action of the last change that reaches it; nothing else that is decided changes |
| IntakeActs.AmendedExactly | intake/plan.go:91-119 | a column keeps its treatment if no change says anything new about it; otherwise it has the action and the reason of the last change that does, and the author of the amendment |
| IntakeActs.RefusedExactly | intake/plan.go:91-119 | refused exactly when some change is no treatment or covers nothing, and by the first such |
| IntakePlan.FindDrift | intake/plan.go:122-144 | the three lists, computed over the catalogue |
| IntakePlan.AllClassifiedExactly | intake/plan.go:122-134 | nothing is unclassified if and only if every live column has a treatment |
| IntakeActs.UnclassifiedExactly | intake/plan.go:122-134 | the unclassified columns are exactly the live ones without a treatment |
| IntakeActs.RetypedExactly | intake/plan.go:122-137 | the retyped ones are exactly the live ones the plan treats as of another type |
| IntakePlan.GoneIsRightExactly | intake/plan.go:122-144 | over tables with given names, for every plan and every catalogue, the columns reported gone are those that are gone if and only if no table's name begins with another's and a dot |
| IntakePlan.DotHidesADroppedColumn | intake/plan.go:126-139 | a dropped column hides behind one of a table whose name is the front of its own up to a dot: it is not reported gone, and its name is reported unclassified |
| IntakeStore.LedgerKeepsOneInForce | intake/store.go:67-68 | a ledger that reads leaves at most one plan in force per source |
| IntakeStore.HashesJoinUp | intake/store.go:453-467 | between consecutive lines about a plan the hashes join up and the acts come in order |
| IntakeStore.EveryRunIsAccounted | intake/store.go:111-255 | so after every run, edits behind the store's back included, with at most one plan in force per source |
| IntakeStore.StepKeepsSigned | intake/store.go:111-255 | a signed or superseded plan keeps its hash and never becomes a draft, its treatments change only by an edit from outside, and the ledger only grows |
| IntakeStore.SignedOnce | intake/store.go:200-255 | behind every signed plan is an act by the one it names as its signer, who named at least twelve digits of its hash, over treatments that had that hash; it supersedes the plan then in force |
| IntakeActs.ProposeDoes | intake/store.go:111-140 | a draft over exactly the proposed treatments, signed by nobody, and one line |
| IntakeActs.AmendDoes | intake/store.go:146-181 | an accepted amendment writes exactly when it decides something else about some column: the amended treatments under their own hash, and one line from the old hash to the new |
| IntakeActs.SignDoes | intake/store.go:200-255 | the plan in force afterwards is the signed one, the one before is superseded by it, each with its line, and nothing else changes |
| IntakeActs.EditIsNoticedExactly | intake/store.go:383-393 | after an edit from outside a plan verifies exactly when every decision is as it was |
| IntakeActs.RefusesInOrder | intake/store.go:146-223 | who, which plan, its state and its hash are asked in this order, then the act itself |
| IntakeStore.VerifiedIsWhatWasSigned | intake/store.go:200-255 | a signed plan that still verifies decides about every column what it decided when it was signed, whatever was edited in between |
| IntakeStore.ProposeThenSignOpens | intake/store.go:111-255 | proposing from a catalogue and signing the printed hash opens the gate for that catalogue, the columns whose names read as personal masked and the others kept |
| IntakeStore.IntakeStore.Propose | intake/store.go:111-140 | a draft and its line, or nothing |
| IntakeStore.IntakeStore.Amend | intake/store.go:146-181 | the refusals in order; otherwise plan and line together, and nothing when the hash stays |
| IntakeStore.IntakeStore.Sign | intake/store.go:200-255 | the refusals in order; otherwise the old plan superseded and the new one signed in one transaction |
| IntakeStore.IntakeStore.Find | intake/store.go:433-451 | the plan in force, of which there is at most one |
| IntakeStore.IntakeStore.Require | intake/store.go:326-366 | passes if and only if a plan is in force, verifies, and has a treatment for every live column |
| RateLimiter.LimitsFor | mcp/security.go:90-98 | no limiter for a rate of zero or less; a burst of at least one |
| RateLimiter.Limiter.Allow | mcp/security.go:100-122 | the answer and the new bucket |
| RateLimiter.AllowedExactly | mcp/security.go:100-122 | a call is let through if and only if no window ending with it would exceed the burst plus the rate over the window |
| RateLimiter.WindowBound | mcp/security.go:100-122 | over any window at most burst + rps times elapsed calls |
| RateLimiter.IdleIsAllowed | mcp/security.go:100-122 | a caller idle for as long as one token takes is let through |
| RateLimiter.CallersAreApart | mcp/security.go:100-122 | a caller's bucket depends on its own calls alone |
| ChangeFeed.Feed.StartCursor | connectors/postgres_cdc.go:48-55 | the largest cursor, 0 in an empty table |
| ChangeFeed.Feed.Poll | connectors/postgres_cdc.go:58-78 | the first thousand rows above the cursor, and the cursor moved to the last of them |
| ChangeFeed.PollLosesExactly | connectors/postgres_cdc.go:58-78 | on any table one poll loses rows if and only if the limit falls between rows with one cursor |
| ChangeFeed.RunLosesExactly | connectors/postgres_cdc.go:58-78 | on any table and however appends and polls interleave, the delivered and the pending rows are together those above the starting cursor if and only if no row above it was appended at or below the watermark and no poll's limit fell between rows with one cursor |
| ChangeFeed.ExactlyOnce | connectors/postgres_cdc.go:58-78 | with growing cursors, however appends and polls interleave, the deliveries are the rows above the starting cursor up to the watermark, once each and in order |
| ChangeFeed.TailsExactly | connectors/postgres_cdc.go:48-78 | started at the end of a table with growing cursors, what a feed delivers and what is still pending are exactly the rows appended since, if and only if the table was not empty or their cursors are positive |
| ChangeFeed.DrainsInThousands | connectors/postgres_cdc.go:58-78 | after k polls exactly the first 1000 k pending rows have been delivered |

## Left out

- Hashes of files and plans: an abstract value of the bytes or of the canonical form, injective only where a result
  says so; the 12-digit and 64-digit spellings are not modelled.
- Storage: every single write lands or not; SQL, JSON columns and CortexDB's own transactions are not modelled. Intake
  transactions commit both tables or neither.
- Registry timestamps are integers, and the list of versions is kept newest save first instead of being sorted by
  `updated_at`; the ledger's order is its order in time, except in the mirror, which is proved for ties as well (it
  ends).
- Registry: `Route` and its bucket, `ChangedMetrics`, the texts of notes and decisions, reading the history back, and
  concurrent callers; the effect of the metric comparison on Promote is one flag, whether both files load.
- RegistryStore.RegistryStore.Resync: the count is exact for a brain that does not fail during the replay.
- Mirror.CompleteIsFullCopy: asks for distinct timestamps and known acts, which every registry run has.
- Attest: the order of the report's lines, and the parsing of times (a row has a readable time or none). Elsewhere in
  the registry the tables are taken to have no more rows than the cap on a query.
- Reports: storage, `Headline` and `Text`; floats are reals, so there is no rounding and no NaN.
- Attribution.ExplainedExactly: for results in which no dimension of one has the name of a measure of another, as
  `KeysApart` says.
- Workflow: registering a flow again while runs of it are stored, and decoding stored runs; run identifiers are new.
- FlowRun.RollbackRestoresExactly: about a run alone on its database; what other runs did to the database in between
  is not told apart from what this run did. A process may die between two undo actions, or before a save, which is
  then lost, but not inside an action.
- Mutate: what columns of other kinds than `ReadAs` knows make of a text is a parameter, `takes`; rows are found again
  by the text of their keys. A snapshot holds the rows its query returns, under the cap on rows. `bindTokens` is the
  binding of columns to saved text, without the statement's text; ingest steps, whose undo drops the table whether or
  not it was there before, are left out.
- Graph: the order of the lists that `Explain` and `Impact` return, node contents and properties, vectors.
- Matching: `stringsEq`, `split` and the query that produces the rows.
- Shell: `sshArgv`, and the first line of the script, which is not interpreted.
- JsonScan: decoding the extracted object.
- Phrases: how candidates are built and normalised, and the choice of dimensions.
- IntakePlan: `SourceOf`, the PII rule (a parameter), the order in which drift lists are printed, the old and new type
  in a retyped entry.
- IntakeActs.AmendDoes: for plans with one treatment for each column, which is what a catalogue gives.
- IntakeStore: identifiers are new; signer names and hashes come trimmed and in lower case; reading plans and the
  ledger back as lists.
- RateLimiter: floats are reals; callers come one at a time, as under the lock; the clock does not go back.
- ChangeFeed: reading cursor values out of other column types, rendering records, the ticker of `Subscribe`.
