# Nodemon: a model and its proofs

Nodemon polls blockchain nodes, stores one statement per node and time, looks for forks and outages,
and decides which alerts to send, to repeat and to declare fixed. This project models that logic in
Dafny 4.11 and proves what its parts promise. `dafny verify dfyconfig.toml` checks it.

## Map

- `Prelude`, `Strings`: Go's uint64, the byte order of strings, sorting, decimal numbers, splitting.
- `Entities`, `Statements`: statements, events, alerts and their IDs; splits by a key.
- `AlertsStorage`, `StorageTrace`: the alert state machine as a class that keeps a ghost record of its
  calls, and what its map and answers mean over whole runs: presence, confirmation, backoff, fixes.
- `AnalyzerRound`: one round of analysis as a transition system of routines, proxy and coordinator,
  proved for every interleaving. `Analyzer`, `AlertStream`: many rounds and the stream they give.
- `StuckIDs`: when two stuck alerts have one ID. `L2Analyzer`, `L2State`, `L2Sends`, `L2Timing`: the loop
  that watches one L2 node, its variables, what it sends on, and the arithmetic behind its quota.
- `Messaging`, `Bots`: the binary message and the bots' map of message IDs. `BotPairing`, `SharedIDs`: any
  number of analyzers, one queue and one bot, end to end.
- `FanIn`: merging channels, as a transition system.
- `Keys`, `Events`, `CommonHeight`, `CommonHeightMeaning`: keys of the event storage, its early-exit scans,
  the bounded search for a height common to many nodes, and its answer in terms of the histories.
- `HeightSearch`, `ForkFinder`, `CommonChain`, `HighHeights`: linear and binary search for the last height
  at which two nodes agree, turn by turn in 64-bit arithmetic, and its result in terms of the histories.
- `StreakCriteria`, `HeightCriterion`: which alerts these criteria emit. `StateHashCriterion`,
  `StateHashPairs`, `StateHashMeaning`, `StateHashAnalysis`: the state hash criterion, from one pair of
  groups to the whole analysis.

Objects that the source updates in place are classes here (`AlertsStorage`, `Analyzer`, `Storage`,
`ForkFinder`, `UnhandledAlertMessages`); loops are loops, tied by their contracts to functions whose
meaning the lemmas state. Goroutines are steps of a state machine. A map is visited in arbitrary order.
Alert IDs are the texts that the source hashes, so equal IDs are equal texts.

## Findings

- A failed height request restarts the timer of the L2 loop but the turns around it still age the stuck
  alert, so the alert of a node that never moved can be reported fixed (`L2Timing.FailureHidesStuckNode`).
  Without failures and height changes that cannot happen (`L2Timing.FixMeansChangeOrFailure`), and the
  quota of 8 is the smallest for which it cannot (`L2Timing.QuotaIsExact`).
- Every fix finds its chat message if and only if no two of the merged alerts storages share an alert ID
  (`SharedIDs.PairingExactlyIfDisjoint`). Stuck alerts of two L2 nodes share one if and only if one node's
  name is the other's followed by a number (`StuckIDs.NamesCollideExactly`,
  `SharedIDs.L2PairingExactly`), as with the names "l2" and "l21" (`SharedIDs.NamesThatBreakPairing`).
- The binary search is right, whatever the histories, if and only if the overlap ends below 2^63
  (`HeightSearch.ReliableExactlyBelow63`, `HighHeights.RightExactlyBelow63`); from there on its midpoint can
  wrap, and there are histories on which it never returns (`HighHeights.EndlessSearch`).
- After a rollback the early exit of the scan misses a stored statement (`Events.RollbackHidesStatement`);
  `Events.ScanMeaning` says exactly when.
- Keys come in the order of time among timestamps of one width; across widths exactly when the shorter,
  filled up with zeros, is not greater (`Keys.KeyOrderAcrossWidths`).
- Comments that differ from the code, which is followed: the quota of the L2 loop is written as
  `+ 1 + 4` in the comment of `pkg/analysis/l2/l2analyzer.go:205` and is `+ 1 + 2`, that is 8; the text of
  `ErrBigHeightDifference` says 10 and the limit is 50 (`pkg/storing/events/events.go:23`).

## Model

| member | source | states |
|---|---|---|
| `AlertsStorage.AlertsStorage.PutAlert` | pkg/analysis/storage/alerts_storage.go:96-144 | one put appends one recorded call whose answer and new entry are the storage's; `Valid` keeps the map equal to the fold over all recorded calls |
| `AlertsStorage.AlertsStorage.Vacuum` | pkg/analysis/storage/alerts_storage.go:146-161 | one vacuum reports each expiring confirmed entry once, in any order, drops expiring entries silently or not, and ages the rest by one |
| `AlertsStorage.NewAlertConfirmations` | pkg/analysis/storage/alerts_storage.go:52-58 | the map has exactly the types given, each with the number given last |
| `AlertsStorage.StoredUnderOwnID` | pkg/analysis/storage/alerts_storage.go:96-144 | after any calls, an entry's key is the ID of the alert it holds |
| `StorageTrace.EntryMeaning` | pkg/analysis/storage/alerts_storage.go:96-161 | for every run and quota of two or more: an ID is present exactly if it was put and fewer than quota vacuums followed its last put; its remaining quota, its alert and whether it is confirmed are counted off the run |
| `StorageTrace.CountersMeaning` | pkg/analysis/storage/alerts_storage.go:100-143 | after n puts beyond the confirming one the threshold is b^(k+1) and the counter is n minus the first k powers, for the largest k with b + ... + b^k <= n |
| `StorageTrace.SendsMeaning` | pkg/analysis/storage/alerts_storage.go:100-143 | the sends of a living entry are 0 before confirmation and 1 + k after it, with the same largest k |
| `StorageTrace.SentMeaning` | pkg/analysis/storage/alerts_storage.go:96-144 | the answer to each single put: silent before the required confirmations, sent at exactly that put, later sent exactly when the further puts sum to b + ... + b^k |
| `StorageTrace.ConfirmationsCount` | pkg/analysis/storage/alerts_storage.go:100-134 | with the configured numbers themselves: a type with a configured number of confirmations is silent until that many puts of a lifetime, at least one, and sent at that put; a type without one is sent at the first |
| `StorageTrace.FixedMeaning` | pkg/analysis/storage/alerts_storage.go:146-161 | a vacuum reports an ID exactly if it is the quota-th since the last put and the lifetime saw the required puts; unconfirmed entries leave silently |
| `StorageTrace.FixedIffExpired` | pkg/analysis/storage/alerts_storage.go:146-161 | a report in whatever map order contains exactly the expiring confirmed IDs |
| `StorageTrace.ConfirmedIffOutstanding` | pkg/analysis/storage/alerts_storage.go:96-161 | in every run an ID is stored and confirmed exactly if a send of it was not yet followed by a fix |
| `StorageTrace.FixFollowsSend` | pkg/analysis/storage/alerts_storage.go:96-161 | before each fix of an ID, and since the fix before that, there is a send of it |
| `StorageTrace.NothingStored` | pkg/analysis/storage/alerts_storage.go:96-161 | the remaining case: with a quota of one or less the storage stays empty |
| `AnalyzerRound.NextInv` | pkg/analysis/analyzer.go:69-131 | every step of routines, proxy and coordinator keeps: emitted plus still to emit is the routine's list, the phases fit together, what was delivered plus what the proxy holds is what the storage's answers call for |
| `AnalyzerRound.RunInv` | pkg/analysis/analyzer.go:69-131 | hence at every point of every interleaving |
| `AnalyzerRound.ReturnedMeansOutcome` | pkg/analysis/analyzer.go:79-130 | when `analyze` has returned, each emitted alert was put exactly once and in its routine's order, exactly one vacuum came, after the last put, and the consumer has all alerts followed by all fixes |
| `AnalyzerRound.FixesComeLast` | pkg/analysis/analyzer.go:104-129 | at every moment only fixes follow a fix, and a delivered fix means that every routine has finished |
| `AnalyzerRound.NextDecreases` | pkg/analysis/analyzer.go:79-130 | every step lowers a lexicographic measure |
| `AnalyzerRound.NeverStuck` | pkg/analysis/analyzer.go:79-130 | with a receiving consumer some step is possible until the return |
| `AnalyzerRound.EveryRoundEnds` | pkg/analysis/analyzer.go:79-130 | so every execution that goes on while it can reaches the return with that outcome |
| `Analyzer.Analyzer.Proxy` | pkg/analysis/analyzer.go:104-129 | the proxy's stream for arrivals in any order is that of its puts and then one vacuum |
| `Analyzer.Analyzer.ProcessNotification` | pkg/analysis/analyzer.go:213-231 | the notification's own error first, then nothing for no nodes, an internal error, or a whole round |
| `Analyzer.Analyzer.SendError` | pkg/analysis/analyzer.go:196-216 | an internal error goes out as one alert with its text, the given time and its own type |
| `Analyzer.VacuumsInRounds` | pkg/analysis/analyzer.go:106-123 | in terms of rounds: vacuums since the last put are rounds since the ID was last raised |
| `Analyzer.FixedAfterQuotaRounds` | pkg/analysis/analyzer.go:106-123 | an alert last raised in round r is reported fixed at the end of round r + quota - 1 and of no other, if and only if it was confirmed |
| `Analyzer.OutcomeIsRound` | pkg/analysis/analyzer.go:104-129 | whatever the interleaving, the log of a finished round is such a round: puts and then one vacuum |
| `Analyzer.FixDeliveredAfterQuotaRounds` | pkg/analysis/analyzer.go:79-130 | the same for the messages delivered by any interleavings of the rounds |
| `L2Analyzer.PutAndSendAlert` | pkg/analysis/l2/l2analyzer.go:212-226 | one put; the alert goes out exactly if the storage says so |
| `L2Analyzer.VacuumAlerts` | pkg/analysis/l2/l2analyzer.go:184-201 | one vacuum; a fix goes out for each alert reported |
| `L2Analyzer.HandleEvent` | pkg/analysis/l2/l2analyzer.go:248-277 | one turn of the loop: which calls of the storage it makes, what goes out, the new height and when the timer is due |
| `L2Analyzer.AnalyzerLoop` | pkg/analysis/l2/l2analyzer.go:230-278 | for any sequence of events: the calls of each turn, the whole stream, the last height and the timer |
| `L2Analyzer.VacuumsAreTurns` | pkg/analysis/l2/l2analyzer.go:230-278 | vacuums since the last stuck alert at a height are the turns since that firing without the failed ones |
| `L2Analyzer.StuckFixedExactly` | pkg/analysis/l2/l2analyzer.go:203-278 | in every run and for every quota of two or more, the stuck alert of a height is reported fixed exactly in the turn that makes the quota-th vacuum since its last firing |
| `L2Analyzer.SeventhResponseFixes` | pkg/analysis/l2/l2analyzer.go:203-210 | with responses only after a firing, the seventh one, and none before or after it, reports the alert fixed |
| `L2Sends.ThirdFailureGoesOut` | pkg/analysis/l2/l2analyzer.go:248-256 | in every run the first two failures with one text within a lifetime say nothing, the third sends a simple alert with the quoted node name and the text, and later ones follow the backoff of two |
| `L2Sends.FirstFiringGoesOut` | pkg/analysis/l2/l2analyzer.go:263-269 | a firing of the timer sends the stuck alert if none fired at this height before, or eight vacuums have passed since |
| `L2Sends.StuckAlertFields` | pkg/entities/alerts.go:651-696 | the stuck alert's time in seconds, type, height, node and ID |
| `L2State.LastHeightMeaning` | pkg/analysis/l2/l2analyzer.go:246-262 | the last height is that of the newest response, and zero before the first |
| `L2State.DueAfterRestart` | pkg/analysis/l2/l2analyzer.go:248-269 | the timer is due five minutes after the last failure, firing, or response with a height other than the one before |
| `L2State.DueAfterStart` | pkg/analysis/l2/l2analyzer.go:240-248 | or five minutes after the start if there was none |
| `L2Timing.AtMostSixResponses` | pkg/analysis/l2/l2analyzer.go:24-28 | a one-minute ticker with answers within five seconds fits at most six responses between firings at one height |
| `L2Timing.FixMeansChangeOrFailure` | pkg/analysis/l2/l2analyzer.go:203-277 | hence with these intervals a stuck alert is reported fixed only if the height changed or a request failed since it fired |
| `L2Timing.SmallQuotaFails` | pkg/analysis/l2/l2analyzer.go:203-210 | for every quota from two to seven a run in which a node stays at its height, answers every request, and is reported fixed |
| `L2Timing.QuotaIsExact` | pkg/analysis/l2/l2analyzer.go:203-210 | a quota of two or more survives the firings of a stuck node in every timed run if and only if it is at least 8, the constant of the source |
| `L2Timing.FailureHidesStuckNode` | pkg/analysis/l2/l2analyzer.go:248-262 | the second exception is real: a timed run in which the node never leaves its height and the alert is still reported fixed |
| `Bots.BotEnvironment.SendAlertMessage` | cmd/bots/internal/bots/environment.go:147-205 | case by case what one message does to the map of message IDs and to the chat, on both platforms, failed sends and muting included |
| `Bots.MapMeaning` | cmd/bots/internal/bots/environment.go:325-387 | after any messages, with failed sends: an ID is in the map exactly if it was posted and not fixed since, with the newest message ID |
| `BotPairing.NextInv` | cmd/bots/internal/bots/environment.go:171-204 | every step of any number of analyzers with a storage each, the queue and the bot keeps: every queued fix will find its ID, and all confirmed IDs of all storages are known after the queue |
| `BotPairing.RunInv` | cmd/bots/internal/bots/environment.go:171-204 | hence in every run, for storages whose alert IDs are disjoint |
| `BotPairing.EveryFixFindsItsMessage` | cmd/bots/internal/bots/environment.go:171-204 | with disjoint IDs, FIFO delivery, successful sends and no muting, each fix is a reply to the chat message that carries the newest alert with its ID |
| `SharedIDs.SharedIDBreaksPairing` | cmd/bots/internal/bots/environment.go:171-187 | for any two storages and any alerts of theirs with one ID there is a run in which a fix finds no message |
| `SharedIDs.PairingExactlyIfDisjoint` | cmd/nodemon/nodemon.go:310-316 | for storages with quotas of two or more: every fix finds its message in every run if and only if no two storages share an ID |
| `SharedIDs.L2PairingExactly` | pkg/analysis/l2/l2analyzer.go:230-305 | for the stuck alerts of L2 nodes, with the analyzers' own configuration: if and only if no node name occurs twice or is another one followed by a number |
| `SharedIDs.NamesThatBreakPairing` | pkg/entities/alerts.go:683-690 | nodes "l2" and "l21" are such names, by their heights 12 and 2 |
| `Messaging.ReadsBackMarshalled` | pkg/messaging/alert.go:37-71 | reading what was written gives the message back |
| `Messaging.MarshalBinary` | pkg/messaging/alert.go:65-71 | the first byte is the type, the next 32 are the reference ID, the rest is the data |
| `Messaging.AcceptsExactlyMarshalled` | pkg/messaging/alert.go:37-51 | the accepted byte strings are exactly the written forms |
| `Entities.Event.Statement` | pkg/entities/events.go:44-268 | status, height and state hash for each kind of event: OK exactly for a state hash event, which keeps its height and hash, Unreachable and InvalidHeight for theirs, Incomplete for the rest, height 0 without one |
| `Entities.IDDeterminesType` | pkg/entities/alerts.go:86-97 | alerts with one ID have one type, because no alert name starts like another |
| `Entities.IDTexts` | pkg/entities/alerts.go:173-694 | for each alert the text that is hashed into its ID, and its type |
| `Entities.NodeAlertIDs` | pkg/entities/alerts.go:207-252 | unreachable and incomplete alerts have one ID exactly if they are about one node |
| `StuckIDs.StuckIDsCollide` | pkg/entities/alerts.go:683-690 | two stuck alerts have one ID if and only if one name continues the other and the digits of the heights make up for it |
| `StuckIDs.StuckIDDeterminesHeight` | pkg/entities/alerts.go:683-690 | for one node the ID tells the height |
| `StuckIDs.NamesCollideExactly` | pkg/entities/alerts.go:683-690 | two different names have a common ID if and only if one is the other followed by digits without a leading zero that leave room for a 64-bit height |
| `StuckIDs.UnambiguousExactly` | pkg/entities/alerts.go:683-690 | so the IDs of a set of nodes are unambiguous if and only if it has no such pair |
| `HeightSearch.MidpointInRange` | pkg/analysis/finders/fork_finder.go:144-147 | the midpoint stays in the range exactly if the sum of its ends fits 64 bits |
| `HeightSearch.BinarySearchMeaning` | pkg/analysis/finders/fork_finder.go:144-163 | whatever the chains: below 2^63 every search ends, with agreement at its result and disagreement right above it as far as these lie in the range, or with a height at which a full statement is missing |
| `HeightSearch.ReliableExactlyBelow63` | pkg/analysis/finders/fork_finder.go:144-163 | for 1 <= first <= last: every search over first..last ends with the right result, however the nodes compare, if and only if last < 2^63 |
| `HeightSearch.NoOverflowExactlyBelow63` | pkg/analysis/finders/fork_finder.go:144-163 | and no turn of any such search has ends whose sum exceeds 64 bits if and only if last < 2^63 |
| `HeightSearch.NeverPasses` | pkg/analysis/finders/fork_finder.go:144-163 | from 2^63 on, a search that meets no disagreement never finds anything: it gives up or goes on |
| `HeightSearch.LinearSearchMeaning` | pkg/analysis/finders/fork_finder.go:92-111 | modulo 2^64: the linear search gives the first agreement from the top among the heights it visits |
| `HeightSearch.LinearSearchOnRange` | pkg/analysis/finders/fork_finder.go:92-111 | on a proper range it gives the highest agreement above the lowest height and within the depth, or there is none |
| `ForkFinder.ForkFinder.CompareAt` | pkg/analysis/finders/fork_finder.go:176-198 | the comparison of two nodes at one height |
| `ForkFinder.ForkFinder.TryLinearSearch` | pkg/analysis/finders/fork_finder.go:86-112 | the loop computes `LinearSearch` |
| `ForkFinder.ForkFinder.BinarySearchLoop` | pkg/analysis/finders/fork_finder.go:143-163 | the loop computes the result of the search; it is called only where that ends |
| `ForkFinder.ForkFinder.FindLastCommon` | pkg/analysis/finders/fork_finder.go:114-174 | the whole finder computes `LastCommon` wherever it returns at all |
| `ForkFinder.BelowSearchEnds` | pkg/analysis/finders/fork_finder.go:114-174 | the finder returns whenever the overlap is empty or ends below 2^63 |
| `ForkFinder.OutcomeMeaning` | pkg/analysis/finders/fork_finder.go:36-174 | every outcome on overlapping ranges below 2^63: where nodes agree and disagree when a height is found, when there is nothing common, when a statement is missing |
| `ForkFinder.FindsGreatestCommon` | pkg/analysis/finders/fork_finder.go:86-174 | for chains that agree on a prefix below 2^63 it returns the greatest common height, for every depth, and nothing is found exactly if nothing is common |
| `CommonChain.ComparisonMeaning` | pkg/analysis/finders/fork_finder.go:176-198 | agreement means that the newest full statements of both nodes at the height have equal block IDs or sum hashes, as asked; a comparison is missing exactly if one of them is |
| `CommonChain.OverlapMeaning` | pkg/analysis/finders/fork_finder.go:36-54 | the overlap is what is no lower than either oldest and no higher than either newest full statement |
| `CommonChain.FindsGreatestOfAll` | pkg/analysis/finders/fork_finder.go:114-174 | in terms of the histories alone: the greatest height of all at which the nodes have a common state hash, for every depth, and nothing exactly if there is none |
| `HighHeights.RightExactlyBelow63` | pkg/analysis/finders/fork_finder.go:114-174 | for histories without rollbacks that agree on a prefix of the overlap first..last: the finder returns with the greatest common height, for every depth, if and only if last < 2^63 |
| `HighHeights.EndlessSearch` | pkg/analysis/finders/fork_finder.go:144-163 | two histories of three statements each, without rollbacks, on which the search never returns, with or without a linear search |
| `ForkFinder.LinearRefinesBinary` | pkg/analysis/finders/fork_finder.go:135-173 | so the linear search changes no outcome |
| `ForkFinder.CompleteHistoriesCompare` | pkg/analysis/finders/fork_finder.go:176-198 | without rollbacks two nodes are comparable at a height exactly if both have a full statement there |
| `ForkFinder.DisjointRangesHaveNothingCommon` | pkg/analysis/finders/fork_finder.go:92-168 | ranges that do not overlap end in "no common blocks" for every depth, in spite of the wrapping differences |
| `Events.Storage.PutEvent` | pkg/storing/events/events.go:83-100 | the statement with these fields joins its node's history, replacing one with the same time; histories stay in time order, and after a state hash event with a hash there is a full statement at its height |
| `Events.Storage.EarliestHeight` | pkg/storing/events/events.go:115-132 | the early-exit scan computes the height of the oldest full statement |
| `Events.Storage.LatestHeight` | pkg/storing/events/events.go:134-151 | the early-exit scan computes the height of the newest full statement |
| `Events.LatestMeaning` | pkg/storing/events/events.go:134-151 | that is the height of the newest full statement, whatever statements follow it; there is none exactly if no statement is full or the newest full one has height zero |
| `Events.EarliestMeaning` | pkg/storing/events/events.go:115-132 | the same for the oldest full statement |
| `Events.Storage.GetFullStatementAtHeight` | pkg/storing/events/events.go:153-182 | the early-exit scan computes `FullStatementAt` |
| `Events.Storage.StateHashAtHeight` | pkg/storing/events/events.go:340-347 | the state hash of that statement |
| `Events.ScanMeaning` | pkg/storing/events/events.go:153-182 | it succeeds exactly if the newest full statement at the height has no lower known height after it, and then gives that one |
| `Events.StateHashMeaning` | pkg/storing/events/events.go:340-347 | the state hash is that of the newest full statement at the height, if nothing lower follows it |
| `Events.ScanIsComplete` | pkg/storing/events/events.go:153-182 | without rollbacks it fails only where there is no full statement |
| `Events.RollbackHidesStatement` | pkg/storing/events/events.go:160-164 | with a rollback it can miss one |
| `Events.LatestIsFound` | pkg/storing/events/events.go:134-182 | without rollbacks the newest full statement is found at its own height |
| `CommonHeight.FindMinCommonLatestHeight` | pkg/storing/events/events.go:200-228 | one entry for each node, unreachable ones marked, and the least and greatest latest height |
| `CommonHeight.FindMinCommonSpecificHeight` | pkg/storing/events/events.go:230-257 | one entry for each node, telling whether it has a full statement at the height |
| `CommonHeight.FindStatementsOnHeight` | pkg/storing/events/events.go:298-338 | one entry for each node: the full statement there, or "unreachable" |
| `CommonHeight.SettleHeight` | pkg/storing/events/events.go:276-294 | the loop settles at the highest height it may visit at which the entries agree, and never decrements below zero |
| `CommonHeight.SpreadMeaning` | pkg/storing/events/events.go:267-274 | the wrapping difference exceeds fifty exactly if two latest heights are more than fifty apart, also when no node is reachable |
| `CommonHeight.FindAllStatementsOnCommonHeight` | pkg/storing/events/events.go:259-296 | either the spread is too big and the heights are listed, or one entry per distinct node at the settled height |
| `CommonHeight.SettledIsGreatestCommon` | pkg/storing/events/events.go:259-296 | without rollbacks that is the greatest of the fifty heights up to the least latest one at which every reachable node has a full statement, or the lowest of them |
| `CommonHeight.AnswerMeaning` | pkg/storing/events/events.go:298-338 | entries that are not "unreachable" are stored full statements at the one height, and at a common height every reachable node has one |
| `CommonHeight.AnswerIsGreatestCommon` | pkg/storing/events/events.go:200-338 | the whole answer without rollbacks: one entry per node, all others than "unreachable" full and at one height, which is the greatest common one of the fifty if there is one |
| `CommonHeightMeaning.BigDifferenceMeaning` | pkg/storing/events/events.go:200-274 | in terms of the histories: the answer "too far apart" is given exactly if two newest full statements are more than fifty apart, and lists each node once, "OK" with that height or unreachable without one |
| `CommonHeightMeaning.AnswerInFull` | pkg/storing/events/events.go:259-338 | in terms of the histories, without rollbacks: which fifty heights, which of them, and for each node whether its entry is a full statement there |
| `Keys.ParsesBackPrinted` | pkg/storing/events/keys.go:21-58 | parsing a printed key returns it exactly if the node name has no separator and the timestamp fits 64 bits |
| `Keys.KeyText` | pkg/storing/events/keys.go:10-23 | the printed text letter by letter |
| `Keys.ParseAccepts` | pkg/storing/events/keys.go:25-58 | a text parses to a key if and only if it is the printed form of the node name with the timestamp in some spelling that fits 64 bits |
| `Strings.ParseIntAccepts` | pkg/storing/events/keys.go:49-52 | the spellings are those with a fitting sign and any leading zeros |
| `Strings.PrintedIsPlain` | pkg/storing/events/keys.go:21-23 | of these exactly the one without plus sign, leading zeros and "-0" is the printed form |
| `Strings.QuotePlain` | pkg/analysis/l2/l2analyzer.go:253 | the %q of a text without special characters puts it between quotes |
| `Strings.QuoteSpecial` | pkg/analysis/l2/l2analyzer.go:253 | quotes, backslashes and control characters are escaped |
| `Keys.KeyOrderIsTimeOrder` | pkg/storing/events/events.go:67-73 | for one node and timestamps of one width the order of keys is the order of times |
| `Keys.KeyOrderAcrossWidths` | pkg/storing/events/keys.go:21-23 | for timestamps of different widths the shorter one, which is the earlier, comes first if and only if, filled up with zeros, it is not greater |
| `Keys.UnixTimesHaveTenDigits` | pkg/storing/events/keys.go:21-23 | Unix times from 2001 to 2286 have one width |
| `FanIn.NextInv` | pkg/tools/processing.go:10-44 | every step conserves each input: delivered, in hand and still to come make up its values in order |
| `FanIn.RunInv` | pkg/tools/processing.go:10-44 | hence at every point of every interleaving |
| `FanIn.PerInputOrder` | pkg/tools/processing.go:16-36 | what came from an input is a prefix of it, and at most one value is in between |
| `FanIn.OutputClosesLast` | pkg/tools/processing.go:37-43 | uncancelled, the output is closed only after every input is closed and wholly delivered |
| `FanIn.NothingAfterClose` | pkg/tools/processing.go:37-43 | no value is sent on the closed output, cancelled or not |
| `FanIn.NextDecreases` | pkg/tools/processing.go:10-44 | every step lowers a measure |
| `FanIn.NeverStuck` | pkg/tools/processing.go:10-44 | as long as the owners close and the consumer receives, some step is possible |
| `FanIn.EveryFanInEnds` | pkg/tools/processing.go:10-44 | every uncancelled execution that goes on while it can delivers everything and closes |
| `Statements.SplitBy` | pkg/entities/statements.go:122-148 | the split has exactly the keys that occur, each with its non-empty group |
| `Statements.GroupCounts` | pkg/entities/statements.go:131-138 | a statement is in the group of its key as often as in the input and in no other |
| `Statements.GroupKeepsOrder` | pkg/entities/statements.go:131-138 | a group is a subsequence of the input |
| `Statements.MinMaxHeight` | pkg/entities/statements.go:159-176 | both results occur and bound all heights; zeros for an empty split |
| `Statements.SortByNodeAsc` | pkg/entities/statements.go:91-93 | a permutation whose nodes are the sorted nodes |
| `StreakCriteria.Scan` | pkg/analysis/criteria/unreachable.go:55-86 | the scan reaches the streak exactly if that many consecutive statements match among the newest `depth` |
| `StreakCriteria.StreakMeaning` | pkg/analysis/criteria/incomplete.go:59-72 | in terms of the statuses: so many consecutive Unreachable statements among the newest, or Incomplete ones, where Unreachable counts if the option says so |
| `StreakCriteria.AnalyzeUnreachable` | pkg/analysis/criteria/unreachable.go:42-86 | for streaks and depths of at least one: a node is named exactly if it is listed and has that many consecutive Unreachable statements among its newest; the alerts' time and type |
| `StreakCriteria.AnalyzeIncomplete` | pkg/analysis/criteria/incomplete.go:45-83 | the same for statements that are Incomplete, or Unreachable where the option counts these |
| `StreakCriteria.NamesExactlyNodesWithStreak` | pkg/analysis/criteria/unreachable.go:42-86 | an alert is among them exactly if it is that of a listed statement whose node has the streak |
| `StreakCriteria.StreakIsMonotone` | pkg/analysis/criteria/incomplete.go:54-83 | a larger depth or a shorter streak loses no alert |
| `StreakCriteria.StreakBeyondDepthNeverAlerts` | pkg/analysis/criteria/incomplete.go:54-83 | a streak longer than the depth is never reached |
| `HeightCriterion.Analyze` | pkg/analysis/criteria/height.go:32-63 | exactly one alert for each height more than `MaxHeightDiff` below the greatest, in any order |
| `HeightCriterion.ReportFields` | pkg/analysis/criteria/height.go:38-62 | the fields of each alert: the highest height with all its nodes, the lagging one with all its nodes, both sorted, the time and type |
| `HeightCriterion.LaggingNodesAreNamedOnce` | pkg/analysis/criteria/height.go:32-63 | a node is in the other group of exactly one alert if it lags by more than `MaxHeightDiff`, and of none otherwise |
| `HeightCriterion.SameLaggardsSameID` | pkg/entities/alerts.go:324-334 | the alert's ID depends on the lagging nodes alone, so the repeated lag of a group counts as one alert |
| `HeightCriterion.IDsIgnoreStatementOrder` | pkg/analysis/criteria/height.go:32-63 | the alert does not depend on the order of the statements |
| `StateHashCriterion.GetAllStatementsAtBucketHeight` | pkg/analysis/criteria/state_hash.go:67-96 | the loop computes `AllAtHeight` |
| `StateHashCriterion.SplitBySumStateHash` | pkg/entities/statements.go:106-120 | the OK statements split by hash, and the others in order |
| `StateHashCriterion.TakeSamples` | pkg/analysis/criteria/state_hash.go:113-118 | the first statement of each group and nothing else, in the order of node names |
| `StateHashCriterion.HandleSamplesPair` | pkg/analysis/criteria/state_hash.go:133-202 | the alert of one pair, or none |
| `StateHashCriterion.HandleSamples` | pkg/analysis/criteria/state_hash.go:122-129 | the alerts of all pairs i < j |
| `StateHashCriterion.AnalyzeNodesOnSameHeight` | pkg/analysis/criteria/state_hash.go:98-131 | it fails exactly if some statement's status is not OK, and otherwise reports all pairs of samples |
| `StateHashCriterion.ComparedMeaning` | pkg/analysis/criteria/state_hash.go:47-59 | what a bucket compares is at one height and as OK as the input |
| `StateHashCriterion.Analyze` | pkg/analysis/criteria/state_hash.go:45-65 | each bucket that occurs is reported once, in any order, up to the first that fails; a failure names a bucket with a statement that is not OK |
| `StateHashMeaning.OKStatementsNeverFail` | pkg/analysis/criteria/state_hash.go:104-109 | for OK statements, which are what the analyzer passes, no bucket fails |
| `StateHashMeaning.ComparedAtOneHeight` | pkg/analysis/criteria/state_hash.go:47-96 | all compared statements are at the bucket's height, carry a state hash and are of different nodes |
| `StateHashMeaning.ComparedExactly` | pkg/analysis/criteria/state_hash.go:45-96 | a bucket compares at the common height of its statements if there is one and at its lower end otherwise, and exactly these statements: each node's own if it is there, else its newest full statement there unless something newer reports a lower height |
| `StateHashMeaning.ComparedComplete` | pkg/analysis/criteria/state_hash.go:67-96 | so without rollbacks every node of the bucket with a full statement at that height is compared |
| `StateHashMeaning.OneSamplePerHash` | pkg/analysis/criteria/state_hash.go:113-118 | each hash that occurs has exactly one sample |
| `StateHashMeaning.ReportIsDetermined` | pkg/analysis/criteria/state_hash.go:113-130 | sorting makes the alerts of a bucket independent of the order of the map |
| `StateHashMeaning.ReportedIffForked` | pkg/analysis/criteria/state_hash.go:133-202 | at all heights: a pair is reported exactly if the finder did not miss a statement and the fork is deeper than min(MaxForkDepth, HeightBucketSize - 1), with its groups and the last common height |
| `StateHashMeaning.ForkAlertFields` | pkg/analysis/criteria/state_hash.go:184-199 | the fields of a fork alert: time, height, last common state hash, both state hashes, and for each all nodes that carry it, sorted |
| `StateHashMeaning.FinderOf` | pkg/analysis/criteria/state_hash.go:120-144 | the finder compares sum hashes after a linear search one deeper than the tolerated fork, modulo 2^32 |
| `StateHashMeaning.DepthIsDifference` | pkg/analysis/criteria/state_hash.go:162 | the depth is the difference of the heights modulo 2^64, in the range of an int64; it is the difference itself if and only if that fits, as it does below 2^63 |
| `StateHashMeaning.ForkedMeansDeepFork` | pkg/analysis/criteria/state_hash.go:162-184 | for chains that agree on a prefix the depth is counted from their greatest common height |
| `StateHashMeaning.OneAlertPerForkedPair` | pkg/analysis/criteria/state_hash.go:122-129 | the alerts are one for each forked pair of samples and no other |
| `StateHashPairs.OneAlertPerPair` | pkg/analysis/criteria/state_hash.go:122-129 | the alerts stand for distinct pairs i < j of samples, and every pair with an alert is among them |
| `StateHashMeaning.ReportNamesForkedPairs` | pkg/analysis/criteria/state_hash.go:45-131 | the same for every bucket report of the whole analysis |
| `StateHashMeaning.GroupsAreWholeAndDisjoint` | pkg/analysis/criteria/state_hash.go:185-199 | the groups named hold exactly the nodes with their hash, and share none |
| `StateHashAnalysis.AnalysisMeaning` | pkg/analysis/criteria/state_hash.go:45-202 | the whole analysis of OK statements of different nodes below 2^63: it may be called, does not fail, each bucket compares exactly the statements its nodes are compared by, and an alert is in it if and only if it is that of a forked pair of state hashes of a bucket |
| `StateHashAnalysis.DividedNodesAreReported` | pkg/analysis/criteria/state_hash.go:45-202 | for any two nodes of a bucket with different hashes: some alert puts one in each group if and only if the samples of their hashes are forked deeper than the limits allow |

## Left out

- ForkFinder.ForkFinder.FindLastCommon: requires that the search ends, because a method of the model must return; where it does not end the source does not return either. With block IDs and no linear search it also stands for `FindLastCommonBlock`, which has the same loop.
- ForkFinder.FindsGreatestCommon: requires an overlap that is not empty and ends below 2^63. Without one see `ForkFinder.DisjointRangesHaveNothingCommon`; that the bound is exact is `HighHeights.RightExactlyBelow63`.
- StateHashCriterion.Analyze: requires that the searches for its nodes end, a bucket size above zero, because the source divides by it, and a state hash in every OK statement, because the source reads it through the pointer. Errors of the database other than a missing statement are not modelled.
- StorageTrace.CountersMeaning: does not model 64-bit overflow of the backoff threshold and the counters. Confirmations, quota and backoff are otherwise any integers.
- StorageTrace.EntryMeaning: assumes that alerts with one ID have one type, which `Entities.IDDeterminesType` proves for the alerts of the repository.
- L2Analyzer.PutAndSendAlert: does not model cancellation of the context, which drops the message being sent.
- L2Analyzer.VacuumAlerts: does not model cancellation of the context, which drops the fixes still to be sent.
- L2Analyzer.AnalyzerLoop: does not model cancellation of the context or the closed response channel, which end the loop; up to that point it speaks of any finite sequence of events.
- HeightSearch.BinarySearchMeaning: requires a range that ends below 2^63; that this bound is exact is `HeightSearch.ReliableExactlyBelow63`.
- ForkFinder.OutcomeMeaning: requires an overlap that is not empty and ends below 2^63, for the same reason.
- L2Timing.FixMeansChangeOrFailure: assumes that the ticker and the timer are served when they are due and that the consumer of the stream does not block.
- BotPairing.EveryFixFindsItsMessage: assumes one FIFO from the analyzers to the bot; NATS keeps the order per connection and subject only. Failed sends and muting are covered by `Bots.BotEnvironment.SendAlertMessage` and `Bots.MapMeaning`.
- Bots.BotEnvironment.SendAlertMessage: the construction of the text, its errors and messages of unknown type are left out.
- SharedIDs.L2PairingExactly: speaks of stuck alerts; the error alerts of the L2 loop are covered by `SharedIDs.PairingExactlyIfDisjoint` only.
- L2Analyzer.HandleEvent: in the quoted node name of an error alert every character beyond ASCII is taken to be printable.
- Messaging: the data of a message is any bytes; its JSON form is left out.
- Statements.SortByNodeAsc: the order of statements of one node is not part of the contract in the source either; the model fixes one.
- Hashing: alert IDs are the hashed texts, taken to have no collisions.
- The event database: statements are kept per node in time order, which `Keys.KeyOrderIsTimeOrder` justifies for keys of one width; expiry, glob characters in node names, JSON and writes during a query are left out.
- The default options of the criteria and storages: constants that only configure what is proved for all options.
- The clock: times of notifications, events of the L2 loop and alerts are parameters.
- The criteria for base targets and challenged blocks, invalid heights, `joinSlicesSeq2`, the tables of alert names and types other than what IDs need, the node and statement stores beside the events: counting loops and finite tables that add only easy members.
- HTTP, NATS, Vault, Telegram and Discord calls, templates, commands, scraping, configuration and logging: input and output.
