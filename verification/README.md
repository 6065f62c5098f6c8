# Verification model of the voting system

Dafny 4.11 model of the voting ledger and of the pieces around it, with proofs. `dafny verify dfyconfig.toml` checks
all of it.

The system keeps each poll in several structures that must agree: metadata, options, a tally per option, a set of
voters, a history of choices per user, idempotency keys with a lifetime, two index sets and a sorted set per creator.
One store keeps them in Redis through two Lua scripts and a handful of multi-command methods; another keeps three maps
in memory.

| files | what they model |
|---|---|
| `Common` | instants in nanoseconds, result codes, the poll record |
| `Ledger`, `Protocol`, `Invariants`, `Safety` | the Redis data as typed relations; any number of clients, one command, script or transaction a step; what holds in every reachable state and over every run |
| `KeyLife`, `History` | keys in use, polls, ballots and every script answer, told from the log of events alone |
| `Stub`, `Calls`, `Deadline`, `Answers`, `Acknowledged`, `CallAnswers`, `Delivery`, `UndoRetries` | deleted metadata coming back; uninterrupted calls; the three expiry rules; what an answer of success is worth, uninterrupted and not; who is refused; at-least-once delivery of votes and undos |
| `Keys`, `Decimal`, `Encoding`, `RedisServer`, `RedisLists`, `Frames` | the flat text keyspace, the scripts and Go methods command by command on it, refining the typed ledger |
| `ServerRuns`, `RequestIds` | whole interleavings on the text keyspace; the poll ids in requests that are outside them |
| `MemoryStore`, `MemoryHistory`, `Ballot`, `Equivalence`, `Linear` | the in-memory store, what became of its polls, one abstract ballot machine, both stores refining it and each other, and every interleaving on Redis being some sequential run |
| `Paging`, `PagingRuns`, `MemoryPaging`, `ListingOrder`, `Score`, `DoublePaging` | cursor paging with filters before or after the cut, paging while either store changes, what a page shows of the polls as created, the floating-point score behind the cursor, and paging on such scores with cursors as text |
| `SseHub`, `Refresh`, `Queues`, `Streams` | the lossy sixteen-slot queue, the stream and the page's single-flight loader |
| `RateLimit`, `RateBounds` | token buckets with idle eviction against a limiter that never evicts; whom they admit and whom they keep |
| `Service` | trimming, option cleaning and request checks |

Inputs and assumptions: ids of created polls are never reused and hold no colon (they are UUIDs); poll ids in requests
are any text that does not extend a colon-free id by `:options`, `:votes` or `:voters`; the clock, in nanoseconds,
never goes back; Redis runs one command at a time and forgets a string key once the clock is past its expiry; the
CRC-32 remainder in a score is an arbitrary number below one million (`salt`); for scores as doubles, polls are created
between 2^30 and 2^31 seconds after the epoch; token buckets start full and refill exactly.

## Where the code does not do what one would expect

The model keeps the code as it is. These properties are false of it; an input is given, and the exact condition under
which they hold is proved:

- A deleted poll does not stay not-found. A close that read the poll before the DEL writes its flag afterwards and
  re-creates part of the metadata: `Stub.ComesBackIff` says exactly when, `Stub.StubArises` gives the run, and
  `Stub.OnlyAStub` and `Safety.DeletedRefusesForever` say what harm it cannot do.
- A close answered with success does not always close. If nobody interrupts it, it fails inside the second after the
  truncated deadline, where nothing is written while the scripts still accept votes, and under an idempotency key its
  creator has used within 300 s, for whatever request: `Deadline.CloseHoldsIff`, with the inputs
  `Deadline.VoteAfterClose` and `Deadline.VoteAfterCloseUnderUsedKey`. In any interleaving, an acknowledged close or
  delete has done its work for good exactly when it took its write, or the work was done already at its last step;
  the key can come into use after the call began: `Acknowledged.AcknowledgedIff`, `Acknowledged.KeyTakenMeanwhile`.
- The same goes for votes, undos and deletes, because a key's name holds neither the poll nor the operation:
  `Answers.VoteRecordedIff`, `Answers.UndoneIff` and, for a delete nobody interrupts, `Answers.DeletedIff`, with the
  input `Answers.KeyUsedTwice`.
- Idempotency names of different users can coincide: exactly when one id extends the other past a colon
  (`Keys.IdemNamesSeparate`).
- A requested poll id can lead to another poll's keys: exactly when it extends a colon-free id by the suffix of one of
  its keys (`Keys.RequestIdsSeparate`). Module `RequestIds` gives an input for which a delete removes another poll's
  counts while its voters stay.
- Polls with tied scores can be missing from a walk (`Paging.TiedPollMissed`): exactly when some page ends inside a
  tie (`Paging.WalkIsCompleteIff` for one order of the rows, `Paging.ServesAllIff` when each call orders ties anew). A
  lasting poll is missed only if a page ended at its score, whatever else changes (`Paging.MissedOnlyAtPageEnd`).
- Interleaved calls are explained by an order of their effects as far as scripts and stored data go
  (`Linear.InterleavingsAreSequential`), but not the answers of deletes: two clients can both be told that they deleted
  one poll (`Linear.BothDeletesSucceed`).
- An idempotency key does not make a delete repeatable: repeated under its own key it is answered with not found
  (`CallAnswers.RepeatedDeleteFindsNothing`), while a repeated close is answered with success
  (`CallAnswers.RepeatedCloseIsAnswered`), as are votes and undos (`UndoRetries.RetryIsAnswered`).
- Evicting idle limiters is invisible only if a burst refills within the idle time (`RateLimit.EvictionIsInvisibleIff`,
  with the run in `RateLimit.EarlyEviction`); the configured numbers satisfy this (`RateLimit.ConfiguredWindow`). The
  bound counts the nanosecond by which an evicted user's idleness exceeds the limit.

The design document (section 5.6) names idempotency keys `idem:{idempotency_key}`; the code puts the user id in front
of the key, and the model follows the code.

## Model

| member | source | states |
|---|---|---|
| `Ledger.ScriptsKeepLedger` | internal/store/redis/scripts.go:45-155 | either script, whatever it returns, keeps options, tallies, voters and histories in agreement |
| `Ledger.VoteKeepsLedger` | internal/store/redis/scripts.go:77-79 | the three writes of a vote keep every count equal to the number of supporters |
| `Ledger.UndoKeepsLedger` | internal/store/redis/scripts.go:144-149 | so do the writes of an undo, clamp included |
| `Ledger.CreateKeepsLedger` | internal/store/redis/store.go:32-56 | the create transaction keeps the agreement, for a fresh id |
| `Ledger.CloseKeepsLedger` | internal/store/redis/store.go:91 | the closing HSET keeps it, also where it leaves only a stub |
| `Ledger.DropKeepsLedger` | internal/store/redis/store.go:119-127 | the DEL of the four poll keys keeps it although histories stay behind |
| `Ledger.UndoNeverClamps` | internal/store/redis/scripts.go:139-148 | a voter always has a recorded choice whose count is at least one |
| `Ledger.TallyCountsSupporters` | internal/store/redis/scripts.go:69-79 | each count, a missing one being zero, is the number of voters whose history records the option |
| `Ledger.TallySumsToVoters` | internal/store/redis/scripts.go:77-79 | the counts over all options add up to the number of voters |
| `Ledger.RetractInvertsCast` | internal/store/redis/scripts.go:144-149 | undoing the writes of a vote restores the whole data exactly |
| `Ledger.UndoInvertsVote` | internal/store/redis/scripts.go:111-155 | after a successful vote the same user's undo succeeds exactly while its key is unused and the poll open, and then only idempotency keys differ from before |
| `Ledger.VoteOutcome` | internal/store/redis/scripts.go:45-85 | a vote is counted exactly when its key is unused, the poll is live and open, the user has no recorded choice and the option exists |
| `Keys.SplitAtColon` | internal/store/redis/store.go:505-510 | a colon-free id can be told from what follows it |
| `Keys.NamesDistinct` | internal/store/redis/store.go:503-517 | all key builders together are injective: what may be stored under one key is never found under the name of another |
| `Keys.RequestIdsSeparate` | internal/store/redis/store.go:505-510 | a requested poll id leads only to its own four keys if and only if it does not extend a colon-free id by one of the suffixes |
| `Keys.DisabledNameUnused` | internal/store/redis/store.go:523-528 | a request without a key never shares a name with one that has a key |
| `Keys.IdemNamesSeparate` | internal/store/redis/store.go:523-528 | two users' idempotency names are disjoint if and only if neither id extends the other past a colon |
| `Keys.ColonFreeUsersSeparate` | internal/store/redis/store.go:523-528 | for colon-free users, equal idempotency names mean equal user and equal key |
| `Protocol.RunConcat` | internal/store/redis/store.go:24-141 | runs of interleaved commands compose |
| `Protocol.BeforeLater` | internal/store/redis/store.go:24-141 | the stretch between two positions of a run is itself a run |
| `Invariants.InitInv` | internal/store/redis/store.go:20-22 | the empty server satisfies the invariant |
| `Invariants.VoteTouches` | internal/store/redis/scripts.go:45-85 | a vote changes only ballots of its own poll and user, and its key |
| `Invariants.UndoTouches` | internal/store/redis/scripts.go:111-155 | so does an undo |
| `Invariants.CreateKeepsRecords` | internal/store/redis/store.go:32-56 | creating a poll keeps what metadata, indexes and program counters promise |
| `Invariants.CloseKeepsRecords` | internal/store/redis/store.go:91 | so does a close's write, even one that lands after a delete |
| `Invariants.DropKeepsRecords` | internal/store/redis/store.go:119-127 | so does a delete's DEL, which leaves index entries only with their remover on its way |
| `Invariants.RemoveKeepsRecords` | internal/store/redis/store.go:128-136 | so does each of the three index removals |
| `Invariants.StepKeepsInv` | internal/store/redis/store.go:24-141 | every command of every client keeps the whole invariant |
| `Invariants.RunKeepsInv` | internal/store/redis/store.go:24-141 | hence every interleaving of any number of clients does |
| `Calls.CallsEnd` | internal/store/redis/store.go:68-141 | each command brings its client nearer the end of its call: none takes more than eight |
| `Calls.FinishIsRun` | internal/store/redis/store.go:68-141 | a client running alone makes a run of its own commands |
| `Calls.CallAlone` | internal/store/redis/store.go:68-141 | a close or delete nobody interrupts returns and leaves what the one-step `Call` says, in every branch |
| `Safety.TalliesExact` | internal/store/redis/scripts.go:69-79 | in every reachable state every count is exact and not negative, and polls that are gone, stubs included, have neither counts nor voters |
| `Safety.TalliesSum` | internal/store/redis/scripts.go:77-79 | in every reachable state a live poll's counts add up to its voters |
| `Safety.UndoBranchesUnreachable` | internal/store/redis/scripts.go:139-148 | in every reachable state the clamp and the missing-choice return are dead code |
| `Safety.IndexesAgree` | internal/store/redis/store.go:48-55 | in every reachable state a live poll is in the right indexes, under its creator only, with its creation score; any other entry has a delete on its way |
| `Safety.IndexesExactAtRest` | internal/store/redis/store.go:119-136 | with no delete under way the indexes list exactly the live polls |
| `Safety.Finality` | internal/store/redis/scripts.go:51-67 | from a closed, expired or deleted poll no run changes voters, counts or histories, except that a delete may empty the first two; and it stays so |
| `Safety.FrozenRefuses` | internal/store/redis/scripts.go:117-133 | no script on such a poll succeeds |
| `Safety.DeletedRefusesForever` | internal/store/redis/store.go:100-141 | a deleted poll never takes a vote or undo again, even with stray closes in flight |
| `Safety.KeyOutlives` | internal/store/redis/store.go:489-494 | a key lives at least to its first expiry, whoever writes it meanwhile |
| `Safety.SuccessesFarApart` | internal/store/redis/scripts.go:81-83 | over any run two successes of one user under one key are more than 300 s apart |
| `KeyLife.LiveIff` | internal/store/redis/scripts.go:81-83 | in every reachable state a key is live if and only if a script or call wrote it within the last 300 s |
| `KeyLife.NoopIff` | internal/store/redis/scripts.go:45-49 | so a script is a no-op if and only if it carries a key that was written within the last 300 s |
| `KeyLife.RetryIsNoop` | internal/store/redis/scripts.go:111-115 | after a script under a key has succeeded, every script of that user under that key within 300 s is a no-op that changes nothing, whatever ran in between |
| `UndoRetries.RetryIsAnswered` | internal/store/redis/store.go:159-197 | and the store answers such a retried vote or undo with success and the poll as it reads, or not found if it was deleted meanwhile |
| `UndoRetries.RefusedChangesNothing` | internal/store/redis/store.go:159-197 | a script that is refused changes nothing and is answered with its own code and no poll; any other answer brings the poll, or says that it is gone |
| `UndoRetries.UndoDeliveredOnce` | internal/store/redis/scripts.go:111-155 | an undo delivered any number of times within 300 s takes back exactly one ballot: one success, otherwise no-ops, every answer a success with the poll while it exists, and no voter at the end unless he votes again |
| `History.StandsThroughout` | internal/store/redis/store.go:24-141 | after any events a poll is live if and only if it was made and no delete dropped it, has other metadata exactly if a close came after a delete, is flagged exactly if made so or closed, and its last editor is its creator if closed, else whoever it was made with |
| `History.HoldsIffChose` | internal/store/redis/scripts.go:77-79 | after any events the voters of a live poll and their choices are those whose last successful vote was for the option and not undone since |
| `History.VoteAnswered` | internal/store/redis/scripts.go:45-85 | every answer of a vote, told from the log alone: no-op, not found, forbidden, conflict, invalid, success, in this order |
| `History.UndoAnswered` | internal/store/redis/scripts.go:111-155 | and every answer of an undo |
| `History.ReadsAsMade` | internal/store/redis/store.go:423-473 | getPoll returns a live poll, after any run, as it was made, times cut to seconds, closed status and last editor by the log, and for each option the number of users whose standing vote is for it |
| `History.StubReadsEmpty` | internal/store/redis/store.go:423-473 | and of a poll that a late close left metadata of, a closed poll without id, creator, options or counts |
| `Stub.ComesBackIff` | internal/store/redis/store.go:68-98 | a deleted poll's metadata can come back if and only if a close that read it open is in flight |
| `Stub.StubArises` | internal/store/redis/store.go:68-98 | a concrete run that brings it back, for any open poll and two clients |
| `Stub.OnlyAStub` | internal/store/redis/store.go:91 | what comes back is only the flag and the closer, reads as closed and has no creator |
| `Answers.VoteRecordedIff` | internal/store/redis/scripts.go:45-85 | a vote answered with success is on record if and only if its key was unused or it was on record before |
| `Answers.UndoneIff` | internal/store/redis/scripts.go:111-155 | an undo answered with success leaves no ballot if and only if its key was unused or there was none |
| `Answers.DeletedIff` | internal/store/redis/store.go:100-141 | a delete that nobody interrupts, answered with success, has deleted if and only if its key was unused |
| `Answers.KeyUsedTwice` | internal/store/redis/store.go:523-528 | one key used for a vote answers a delete and a vote elsewhere with success, and neither is done |
| `Delivery.FirstDelivery` | internal/store/redis/scripts.go:45-85 | the first delivery of a scheduled request succeeds |
| `Delivery.Redelivery` | internal/store/redis/scripts.go:45-49 | every delivery within the key's life is a no-op |
| `Delivery.DeliveredOnce` | internal/store/redis/scripts.go:45-85 | in any schedule one request succeeds once and is otherwise a no-op; the user is a voter for the option exactly if it was delivered |
| `Delivery.VotersVoted` | internal/store/redis/scripts.go:77 | whoever ends up a voter was one before or voted during the run |
| `Delivery.TallyCountsRequests` | internal/store/redis/scripts.go:45-85 | the final count of an option is the number of distinct requests delivered for it, whatever the order and repetition |
| `Delivery.ColonFreeUsersApart` | internal/store/redis/store.go:523-528 | requests of different colon-free users meet the schedule's independence condition |
| `Deadline.Sandwich` | internal/store/redis/scripts.go:60-67 | script expiry implies memory expiry implies read expiry, and a second after the read verdict the script agrees |
| `Deadline.AgreeIff` | internal/store/redis/store.go:469-471 | the verdicts agree if and only if the clock is not inside the second after the truncated deadline |
| `Deadline.WholeSecondsAgree` | internal/store/redis/store.go:38 | whole-second clocks are never inside it |
| `Deadline.CloseHoldsIff` | internal/store/redis/store.go:76-91 | an acknowledged close that nobody interrupts bars votes if and only if the poll was flagged, or expired for the scripts, or not yet expired for getPoll under an unused key |
| `Deadline.CloseFailsIff` | internal/store/redis/store.go:76-91 | the same as the two ways to fail: the last second, and a key in use |
| `Acknowledged.AcknowledgedIff` | internal/store/redis/store.go:68-141 | a close or delete acknowledged in any interleaving has its purpose achieved then and after every later run if and only if it took its write, or the purpose was achieved at its last step already; and it skipped the write exactly where it read the poll as closed or the key as used |
| `Acknowledged.AchievedForGood` | internal/store/redis/store.go:68-141 | a poll closed for the scripts, or gone, stays so over every run |
| `Acknowledged.KeyTakenMeanwhile` | internal/store/redis/store.go:80-88 | a run in which the key is free when the call begins, taken by the same user's vote before it is checked, and the call is acknowledged without effect |
| `CallAnswers.AnsweredAsHeard` | internal/store/redis/store.go:68-107 | in any interleaving a close or delete answers not found exactly if it read no metadata, forbidden exactly if it read somebody else as creator, and success otherwise |
| `CallAnswers.StrangersAreRefused` | internal/store/redis/store.go:72-74 | so whoever is not the creator is refused, in any interleaving, and his call writes nothing |
| `CallAnswers.WriterLeavesKey` | internal/store/redis/store.go:94-96 | a call that has written and carries a key ends by writing the key |
| `CallAnswers.ThenScriptsAreNoops` | internal/store/redis/store.go:137-139 | so within 300 s of it every script of that user under that key is a no-op |
| `CallAnswers.RepeatedCloseIsAnswered` | internal/store/redis/store.go:76-78 | a close repeated, under whatever key, is answered with success and changes nothing |
| `CallAnswers.RepeatedDeleteFindsNothing` | internal/store/redis/store.go:100-104 | a delete repeated under its own key is answered with not found |
| `Deadline.VoteAfterClose` | internal/store/redis/store.go:76-78 | in that second a vote does succeed after an acknowledged close |
| `Deadline.VoteAfterCloseUnderUsedKey` | internal/store/redis/store.go:80-88 | and at any earlier time after a close acknowledged under a used key |
| `Decimal.ParsePrint` | internal/store/redis/store.go:37-38 | printing an integer and parsing it back gives it again |
| `Decimal.PrintDistinct` | internal/store/redis/store.go:44 | different positions have different field names |
| `Encoding.PlaceHolds` | internal/store/redis/store.go:503-517 | writing under one name leaves what lies under every other poll's or user's key as it was |
| `Encoding.OptionAt` | internal/store/redis/store.go:43-46 | the field named by a position holds that option |
| `Encoding.OptionFields` | internal/store/redis/store.go:43-46 | the options hash has exactly one field per position |
| `RedisServer.BuildsReadPoll` | internal/store/redis/store.go:423-473 | assembling the three hashes as getPoll does gives the typed poll, for a full poll and for a stub |
| `RedisServer.ParsedCounts` | internal/store/redis/store.go:449-452 | the counts parsed from text are the counts |
| `RedisServer.CreateThenRead` | internal/store/redis/store.go:24-66 | a poll just created reads back with its options in order, each at zero, its times truncated to seconds |
| `RedisServer.ReadReportsCounts` | internal/store/redis/store.go:445-453 | after anything at all, a read reports for each option the number of its supporters |
| `RedisServer.Redis.ScriptGate` | internal/store/redis/scripts.go:45-67 | the checks common to both scripts, run on the text keyspace, decide as on typed data |
| `RedisServer.Redis.RunVoteScript` | internal/store/redis/scripts.go:34-85 | the vote script on the text keyspace returns and leaves exactly what the typed transition says |
| `RedisServer.Redis.RunUndoScript` | internal/store/redis/scripts.go:101-155 | so does the undo script |
| `RedisServer.Redis.CastOnServer` | internal/store/redis/scripts.go:77-79 | SADD, HINCRBY and HSET make the typed vote |
| `RedisServer.Redis.RetractOnServer` | internal/store/redis/scripts.go:144-149 | SREM, HINCRBY, the clamp and HDEL make the typed undo |
| `RedisServer.Redis.IdemOK` | internal/store/redis/store.go:475-487 | true exactly when the key is empty, missing or expired |
| `RedisServer.Redis.SetIdemKey` | internal/store/redis/store.go:489-494 | a non-empty key is there for 300 s more |
| `RedisServer.Redis.GetPoll` | internal/store/redis/store.go:423-473 | reads the typed poll, or nothing where there is no metadata |
| `RedisServer.Redis.ReadOptions` | internal/store/redis/store.go:434-443 | the loop over position fields gives the options in order |
| `RedisServer.Redis.ReadCounts` | internal/store/redis/store.go:445-453 | the parsing loop gives every count |
| `RedisServer.Redis.Vote` | internal/store/redis/store.go:147-172 | runs the script and answers as `Reply` says, whose meaning is `UndoRetries.RefusedChangesNothing` and `RetryIsAnswered` |
| `RedisServer.Redis.UndoVote` | internal/store/redis/store.go:174-197 | the same for undo |
| `RedisServer.Redis.CreatePoll` | internal/store/redis/store.go:24-66 | the pipeline command by command makes the typed creation and returns zero counts |
| `RedisServer.Redis.ClosePoll` | internal/store/redis/store.go:68-98 | uninterrupted, it returns and leaves what `Call` says |
| `RedisServer.Redis.DeletePoll` | internal/store/redis/store.go:100-141 | uninterrupted, it returns and leaves what `Call` says |
| `RequestIds.CountReadsAsCreator` | internal/store/redis/store.go:100-107 | an id that extends a poll's id to its count hash reads as a poll created by user "0" if an option is named created_by and has no vote |
| `RequestIds.DeleteWipesCounts` | internal/store/redis/store.go:119-127 | its delete removes the other poll's counts and keeps voters and metadata |
| `RequestIds.CountsDisagreeAfterwards` | internal/store/redis/store.go:119-127 | after which counts and voters do not agree, if there was a voter |
| `RequestIds.LeavesWithoutCounts` | internal/store/redis/store.go:119-127 | what is left is exactly the ledger without that poll's counts |
| `RequestIds.DeleteRequestDamages` | internal/store/redis/store.go:100-127 | from the request to the damage: the ownership check passes and what the DEL leaves is a ledger with the poll, its options and voters and no counts |
| `ServerRuns.AdvanceClient` | internal/store/redis/store.go:68-141 | one command of a close or delete on the text keyspace does the protocol's step |
| `ServerRuns.Perform` | internal/store/redis/store.go:24-197 | so does every event, with the scripts' result codes |
| `ServerRuns.PerformAll` | internal/store/redis/store.go:24-197 | any interleaving on the text keyspace ends in the text form of the protocol's end state |
| `ServerRuns.RunFromEmpty` | internal/store/redis/store.go:20-22 | from an empty server on |
| `ServerRuns.StoredCountsAreExact` | internal/store/redis/scripts.go:69-79 | the text of each count field that lies in Redis is the number of supporters |
| `RedisLists.RangeBelow` | internal/store/redis/store.go:385-390 | the range command returns the first rows, in descending score, strictly below the cursor |
| `RedisLists.CreatedPage` | internal/store/redis/store.go:384-420 | a page is cut first and filtered afterwards; next cursor and items are those of the paging function |
| `RedisLists.ListMyCreatedPollStats` | internal/store/redis/store.go:371-421 | the same with cursors as text: none or unreadable text means the first page, and six decimals are handed out |
| `RedisLists.GetMyVotes` | internal/store/redis/store.go:341-369 | exactly the user's recorded choices on polls that can be read, each once, cut to the limit |
| `RedisLists.ReadShown` | internal/store/redis/store.go:399-420 | the loop reads the page's polls in order and leaves out closed, foreign and missing ones |
| `Frames.ScriptsLeaveOthers` | internal/store/redis/store.go:147-197 | a vote or undo leaves what lies under every name but its poll's counts and voters, its user's votes and its key |
| `Frames.CallsLeaveOthers` | internal/store/redis/store.go:68-141 | a close leaves all but its poll's metadata and its key, a delete all but the keys it names |
| `Frames.CreateLeavesOthers` | internal/store/redis/store.go:24-58 | creating a poll leaves other polls, all users' votes, other users' lists and all idempotency keys |
| `MemoryStore.Store.CreatePoll` | internal/store/memory/memory.go:32-41 | stores the poll and lists it under its creator |
| `MemoryStore.Store.ClosePoll` | internal/store/memory/memory.go:53-69 | result, poll and new state of a close, expired polls keeping their last editor |
| `MemoryStore.Store.DeletePoll` | internal/store/memory/memory.go:71-84 | removes poll, votes and listing |
| `MemoryStore.Store.VoteFor` | internal/store/memory/memory.go:86-123 | result, poll and new state of a vote in every branch |
| `MemoryStore.Store.UndoVote` | internal/store/memory/memory.go:125-149 | result, poll and new state of an undo, an entry at zero being removed |
| `MemoryStore.Store.GetMyVotes` | internal/store/memory/memory.go:280-305 | exactly the user's votes on existing polls, each once, newest poll first, cut to the limit |
| `MemoryStore.Store.CreatedPage` | internal/store/memory/memory.go:311-360 | the filtered list is sorted before the page is cut; items and next cursor are those of the paging function |
| `MemoryStore.Store.ListMyCreatedPollStats` | internal/store/memory/memory.go:307-361 | the same with cursors as text: none or unreadable text means the first page, and six decimals are handed out |
| `MemoryStore.Store.FilterCreated` | internal/store/memory/memory.go:315-325 | exactly the creator's existing polls, closed ones only on request, each once |
| `MemoryStore.DropAbove` | internal/store/memory/memory.go:345-352 | the loop keeps exactly the rows strictly below the cursor, in order |
| `MemoryStore.PageServes` | internal/store/memory/memory.go:307-361 | a page is, of the listable polls created before its cursor, the most recent ones, fifty unless one to a hundred were asked for, by second of creation and then by remainder, latest first; a cursor comes exactly if some are left over and is the moment of the last |
| `MemoryStore.MyVotesAre` | internal/store/memory/memory.go:285-295 | a reported vote is the user's stored choice together with the poll stored under that id |
| `MemoryHistory.UpdatedByLastEditor` | internal/store/memory/memory.go:53-147 | after any operations, a poll's last editor is the user of its last counted vote, undo or effective close, or whoever it was created with |
| `MemoryHistory.CloseEdits` | internal/store/memory/memory.go:65-68 | a close of an open poll before its deadline closes it and is its last edit |
| `MemoryHistory.LateCloseEditsNothing` | internal/store/memory/memory.go:60-64 | a close of a closed or expired poll closes it and leaves the last editor |
| `MemoryHistory.StaysAsMade` | internal/store/memory/memory.go:32-41 | after any operations a stored poll is the one last created under its id but for counts, last editor and flag, and the flag is as made or set by a close since |
| `Ballot.SameVerdict` | internal/store/memory/memory.go:93 | outside the last second all three closed verdicts coincide |
| `Ballot.RedisRefines` | internal/store/redis/store.go:24-197 | every operation on Redis returns the abstract ballot machine's code and keeps representing it |
| `Ballot.MemoryRefines` | internal/store/memory/memory.go:32-149 | so does every operation on the memory store, whatever the clock and whoever closes or deletes |
| `Equivalence.StayInStep` | internal/store/memory/memory.go:32-149 | over any admissible run from matching states both stores return the same codes and still match |
| `Equivalence.StoresAgree` | internal/store/redis/store.go:24-197 | from empty stores: same codes, same live polls, same tallies, same my-votes pairs, and the same closed status at any later time outside the last second |
| `Equivalence.SameTallies` | internal/store/memory/memory.go:119 | matching stores have the same count for every option, missing being zero |
| `Equivalence.SameStatus` | internal/store/redis/store.go:469-471 | and the same effective closed status |
| `Equivalence.SameMyVotes` | internal/store/memory/memory.go:280-295 | and the same set of my-votes pairs before truncation |
| `Equivalence.ListingsAgree` | internal/store/memory/memory.go:307-361 | full walks through a creator's polls give the same list from either store, whichever side filters first |
| `Linear.StepSims` | internal/store/redis/store.go:24-197 | every step of every interleaving, keys in use or not, is its effect on the ballot machine, with the same script answer |
| `Linear.RunSims` | internal/store/redis/store.go:24-197 | so is every run, and the memory store fed with the effects follows |
| `Linear.InterleavingsAreSequential` | internal/store/redis/store.go:24-197 | any interleaving on Redis and the memory store called with its effects one by one: same script answers, same polls, counts, choices and closed status |
| `Linear.BothDeletesSucceed` | internal/store/redis/store.go:100-141 | answers of deletes are not explained so: two clients can both be told they deleted one poll |
| `Equivalence.SparseKept` | internal/store/memory/memory.go:140-145 | a count entry exists only while its count is positive, for polls created without entries |
| `Equivalence.MemoryUndoInvertsVote` | internal/store/memory/memory.go:125-149 | in memory an undo restores counts and votes exactly |
| `Paging.NextIsLower` | internal/store/redis/store.go:392-397 | every further cursor leaves strictly fewer rows, so walks end |
| `Paging.WalkIsCompleteIff` | internal/store/redis/store.go:371-421 | the pages concatenate to all rows below the cursor, in order, if and only if no page splits a tie |
| `Paging.WalkIsComplete` | internal/store/redis/store.go:371-421 | with distinct scores they do |
| `Paging.TiedPollMissed` | internal/store/redis/store.go:392-397 | two polls with one score and pages of one: the second is never served |
| `Paging.WalksAgree` | internal/store/memory/memory.go:315-360 | filtering before or after cutting gives the same full walk |
| `Paging.MissedIff` | internal/store/redis/store.go:392-397 | with one order of the rows a row is missed if and only if some page ends at its score without it |
| `Paging.MissedOnlyAtPageEnd` | internal/store/memory/memory.go:326-359 | with rows changing and ties ordered anew at each call, a lasting row is served unless a page ended at its score |
| `Paging.SplitLosesARow` | internal/store/memory/memory.go:354-359 | where a page splits a tie, the first row it leaves out is served by no page |
| `Paging.ServesAllIff` | internal/store/memory/memory.go:326-359 | a list that stands still but is sorted anew at each call is served whole if and only if no page splits a tie |
| `MemoryPaging.MemoryMissesOnlyTies` | internal/store/memory/memory.go:307-361 | a full walk over a memory store that stands still, sorted anew at every call, serves listable polls only, all of them if and only if no page splits a tie, and misses none but at a page's end |
| `Paging.NoPollTwice` | internal/store/redis/store.go:371-421 | however rows change between pages, no poll is served by two pages |
| `Paging.NoPollTwiceOnAPage` | internal/store/redis/store.go:392-420 | nor twice by one |
| `Paging.LastingPollIsServed` | internal/store/redis/store.go:371-421 | a poll listed and shown throughout a finished walk, tied with none, is served |
| `PagingRuns.NoPollTwiceInRun` | internal/store/redis/store.go:371-421 | the same during any run of the ledger, with closed polls or without: no poll is ever served twice |
| `PagingRuns.LastingPollServedInRun` | internal/store/redis/store.go:371-421 | and, each poll being read at its own moment, every poll alive (and, without closed polls, open) from before the first page to the end is served unless a page ended at its score, and always if untied |
| `PagingRuns.RunsAreWellListed` | internal/store/redis/store.go:52-55 | a poll has one score for good |
| `Common.ScoreOrders` | internal/store/memory/score.go:8-11 | a score is at least another exactly if its poll was created in a later second, or in the same with a remainder no smaller; scores tie only where both agree |
| `ListingOrder.ScoreIsComputed` | internal/store/redis/store.go:518-522 | the double a creation computes is the nearest to its score, and its six decimals are second and remainder |
| `ListingOrder.PageLooksAt` | internal/store/redis/store.go:371-399 | a Redis page looks at the latest entries before its cursor, fifty unless one to a hundred were asked for, and hands out the moment of the last exactly if some are left over |
| `ListingOrder.PageShows` | internal/store/redis/store.go:401-420 | in any reachable state its items are the user's polls with the times they were created at, latest second first and then by remainder, and every shown entry between the two cursors is among them |
| `MemoryPaging.RunsAreWellListed` | internal/store/memory/memory.go:307-330 | on the memory store too, over any operations between the pages |
| `MemoryPaging.NoPollTwiceInMemoryRun` | internal/store/memory/memory.go:307-361 | during any run of the memory store no poll is served twice |
| `MemoryPaging.LastingPollServedInMemoryRun` | internal/store/memory/memory.go:307-361 | and a poll listable from the first page to the last is served unless a page ended at its score, and always if untied |
| `Score.ScoreIsNear` | internal/store/memory/score.go:8-11 | the double computed in two roundings is strictly within half a unit of the exact sum |
| `Score.NeverHalfway` | internal/store/redis/store.go:518-522 | no multiple of a millionth is halfway between two doubles of that range |
| `Score.ScoreIsDouble` | internal/store/redis/store.go:518-522 | the result has exactly a 53-bit significand, so it is the double in that range |
| `Score.ScoreExists` | internal/store/memory/score.go:8-11 | the rounding relation is met by some double for every second and remainder in range |
| `Score.CursorIsExact` | internal/store/redis/store.go:379-397 | printed with six decimals it shows exactly seconds and remainder; parsed back it is the same double |
| `Score.ScoresOrder` | internal/store/memory/score.go:8-11 | doubles compare exactly as the exact scores, equality included |
| `Score.FixedRoundTrip` | internal/store/memory/memory.go:357 | the text with six decimals denotes the number it was laid out from |
| `Score.FixedShape` | internal/store/memory/memory.go:357 | and is digits, a point and six digits |
| `Score.CursorRoundTrip` | internal/store/memory/memory.go:338-357 | a cursor sent back as text is the score it was printed from |
| `DoublePaging.ComputedIsNearest` | internal/store/memory/score.go:8-11 | the two roundings together give the double nearest to the exact score |
| `DoublePaging.UnitsOrder` | internal/store/memory/score.go:8-11 | these doubles order and tie as the millionths do |
| `DoublePaging.DecimalsCanBeRead` | internal/store/memory/memory.go:338-343 | what is assumed of parsing, that it reads printed decimals as the nearest double, can be met |
| `DoublePaging.UnreadableIsFirst` | internal/store/memory/memory.go:338-343 | a cursor that is no text or cannot be read starts at the first page |
| `DoublePaging.PageOnDoubles` | internal/store/memory/memory.go:326-359 | a page cut by doubles is the page cut by millionths |
| `DoublePaging.TextPageIsPage` | internal/store/redis/store.go:377-397 | a call with a cursor text, printed and parsed, is the call on millionths, the next text included |
| `DoublePaging.TextWalkIsWalk` | internal/store/redis/store.go:371-421 | a client handing back the texts until none comes is served the walk on millionths |
| `DoublePaging.TextWalkEnds` | internal/store/redis/store.go:371-421 | and there is such a walk from every cursor |
| `SseHub.Hub.AddPoll` | internal/http/handler/sse_hub.go:98-110 | registers one new open empty connection under the poll and nothing else |
| `SseHub.Hub.RemovePoll` | internal/http/handler/sse_hub.go:112-124 | unregisters and closes that connection and no other |
| `SseHub.Hub.NotifyPoll` | internal/http/handler/sse_hub.go:126-136 | offers the message once to each connection of the poll, dropping it where sixteen wait, and to nobody else |
| `Refresh.Loader.LoadPage` | web/static/app.js:443-449 | joins a load in flight or begins one |
| `Refresh.Loader.FetchSettled` | web/static/app.js:507-518 | ends the flight and begins exactly one more load if one was asked for |
| `Streams.Subscribe` | internal/http/handler/sse.go:81-88 | a connecting viewer gets one connection of the hub with an empty queue |
| `Streams.Publish` | internal/http/handler/sse_hub.go:126-136 | a notification on the hub is the delivery machine's step for all viewers |
| `Streams.Drain` | internal/http/handler/sse.go:93-99 | the stream's loop writes the oldest message of its channel |
| `Streams.Unsubscribe` | internal/http/handler/sse_hub.go:112-124 | a leaving viewer's connection goes and all others stay |
| `Streams.RestLeavesHub` | internal/http/handler/sse.go:85-88 | all other steps leave the hub's channels as the machine has them |
| `Refresh.StepKeepsCovered` | internal/http/handler/sse.go:81-104 | every step of hub, stream and page keeps each viewer up to date or about to load |
| `Refresh.NoLostRefresh` | web/static/app.js:531-537 | in every reachable state a connected viewer has begun a fetch after the latest notification, if any, or has something on its way that starts one |
| `Refresh.OwnEventsEnd` | web/static/app.js:440-520 | each step of a viewer's own stream and page leaves less to do |
| `Refresh.OwnRunIsShort` | web/static/app.js:440-520 | so between notifications and clicks they come to rest within a computed number of steps |
| `Refresh.AtRestIsFresh` | web/static/app.js:531-537 | and a connected viewer at rest has fetched, and after the latest notification |
| `Refresh.SingleFlight` | web/static/app.js:443-449 | in every reachable state a page has begun as many fetches as have settled, plus one while one is in flight, and never more than messages and clicks asked for |
| `Queues.ChannelIsFifo` | internal/http/handler/sse_hub.go:126-136 | over any run, what a viewer's stream has drained followed by its channel is what was there followed by the messages notified since with fewer than sixteen waiting, in order |
| `Queues.SinceConnected` | internal/http/handler/sse_hub.go:98-110 | so from a new connection on it is exactly those, and at most sixteen wait |
| `Queues.FirstOnesWait` | internal/http/handler/sse_hub.go:101 | with nothing drained, a channel keeps the first messages, up to sixteen in all, in order |
| `Queues.WireIsFifo` | internal/http/handler/sse.go:85-104 | what the page has received followed by what is on the wire is what was written, in order |
| `Queues.GreetedFirst` | internal/http/handler/sse.go:85-92 | and that is the initial event, once and first, and then the drained messages |
| `RateLimit.AgreesNext` | internal/http/middleware/ratelimit.go:28-64 | one request is decided alike with and without eviction, and the maps still agree |
| `RateLimit.EvictionIsInvisible` | internal/http/middleware/ratelimit.go:34-62 | over any run no decision differs from a limiter that never evicts, if a burst refills within the idle time |
| `RateLimit.EarlyEviction` | internal/http/middleware/ratelimit.go:44-53 | otherwise a concrete run is decided differently |
| `RateLimit.EvictionIsInvisibleIff` | internal/http/middleware/ratelimit.go:34-62 | so eviction goes unnoticed for all global limits and runs if and only if a burst refills within the idle time |
| `RateLimit.AdmissionsAreBounded` | internal/http/middleware/ratelimit.go:54-60 | tokens spent by a user's admissions never exceed the level plus the refill |
| `RateLimit.WindowBound` | internal/http/middleware/ratelimit.go:34-62 | in any window of a run a user has at most burst plus rate times length admissions, across evictions |
| `RateLimit.ConfiguredWindow` | internal/http/router/router.go:20 | with the configured 20 a second, bursts of 40 and ten minutes both hold outright |
| `RateBounds.GlobalWindow` | internal/http/middleware/ratelimit.go:29-32 | in any window of a run all users together are admitted at most the global burst plus the refill, evictions or not |
| `RateBounds.ConfiguredGlobalWindow` | internal/http/router/router.go:20 | as configured, 400 plus 200 a second |
| `RateBounds.SteadyIsNotRefused` | internal/http/middleware/ratelimit.go:54-60 | a user whose requests keep the rate is never refused by his own limiter, whoever is evicted |
| `RateBounds.SteadyIsAdmitted` | internal/http/middleware/ratelimit.go:28-64 | requests that keep both rates are all admitted, anonymous ones too |
| `RateBounds.NobodyStaysIdle` | internal/http/middleware/ratelimit.go:44-53 | once a named request has come through, nobody left in the map has been idle for more than twice the idle time |
| `RateBounds.SweepsAreRare` | internal/http/middleware/ratelimit.go:45 | two sweeps are further apart than the idle time |
| `RateBounds.LatelySeenAreKept` | internal/http/middleware/ratelimit.go:47-51 | whoever was seen within the idle time is still in the map |
| `RateBounds.ConfiguredMap` | internal/http/middleware/ratelimit.go:24 | as configured, nobody stays for more than twenty minutes idle, and nobody goes before ten |
| `RateLimit.TokenBucket.Evict` | internal/http/middleware/ratelimit.go:47-51 | the deleting loop removes exactly the users idle for longer than the limit |
| `RateLimit.TokenBucket.AllowUser` | internal/http/middleware/ratelimit.go:36-55 | the locked part decides and changes the user map as the state function says |
| `RateLimit.TokenBucket.Handle` | internal/http/middleware/ratelimit.go:28-64 | verdict and whole new state of one request, global limit first |
| `Service.TrimOf` | internal/service/service.go:55 | trimming takes away exactly the white space around a text |
| `Service.TrimParts` | internal/service/service.go:55 | every text is its trimmed form between white space |
| `Service.StoredInOrder` | internal/service/service.go:54-65 | each non-blank entry is stored trimmed, after the options of the entries before it |
| `Service.Origin` | internal/service/service.go:54-65 | and every stored option comes from an entry |
| `Service.DistinctIff` | internal/service/service.go:59-63 | cleaned options are distinct if and only if no two non-blank entries trim alike |
| `Service.CleanOptions` | internal/service/service.go:51-65 | the loop gives the cleaned options, or nothing as soon as an entry repeats |
| `Service.CreatePoll` | internal/service/service.go:37-81 | accepts exactly requests with user, question, a deadline 30 s away and at least three distinct options, and builds the poll from them |
| `Service.AcceptableIff` | internal/service/service.go:37-68 | acceptable are exactly the requests with a user and a question that are not blank, a deadline at least thirty seconds ahead, at least three entries that are not blank, and no two of those alike once trimmed |
| `Service.SpacesAre` | internal/service/service.go:55 | white space is the 25 characters of the Unicode property |
| `Service.VoteReplies` | internal/service/service.go:131-143 | a vote is unauthenticated exactly if the user is blank, and else refused exactly if the poll id or the option is |
| `Service.VotePasses` | internal/service/service.go:131-145 | otherwise the store is asked with the very user, poll, option and key that the request holds between white space |
| `Service.BallotOnRedis` | internal/service/service.go:145 | end to end on Redis: the ballot counted is that user's, on that poll, for that option, and that user's key is written for 300 s |
| `Service.BallotInMemory` | internal/service/service.go:145 | and in memory |
| `Service.VotableOnRedis` | internal/service/service.go:140-145 | at any point of any interleaving a vote by an option's original text is never refused for its option, and succeeds exactly when poll, user and key allow |
| `Service.VotableInMemory` | internal/store/memory/memory.go:104-113 | the same on the memory store after any operations |

## Left out

- RedisServer.Redis.ClosePoll: proved for a call nobody interrupts; interleavings on the text keyspace are the subject of `ServerRuns`, where the reads of options and counts and the final getPoll, which decide nothing, are not steps of their own. As everywhere on the text keyspace, poll ids that extend another's are left to `RequestIds`.
- RedisServer.Redis.DeletePoll: likewise.
- RedisServer.Redis.Vote: not for requested poll ids that extend another's by a key suffix; `Keys.RequestIdsSeparate` shows that these are exactly the ids whose names are not their own.
- RedisServer.Redis.UndoVote: likewise.
- RedisServer.Redis.GetPoll: likewise.
- RedisServer.Redis.ScriptGate: likewise.
- RedisServer.Redis.RunVoteScript: likewise.
- RedisServer.Redis.RunUndoScript: likewise.
- Safety.TalliesExact: likewise; `RequestIds.CountsDisagreeAfterwards` shows it false of runs with such a request.
- ServerRuns.AdvanceClient: getPoll's three reads are one step, at its first, and the read after a close is none; a code in `Done` is the end of a call's own commands, and where that read finds the poll deleted the source answers not-found instead.
- Acknowledged.AcknowledgedIff: likewise speaks of `Done`.
- Linear.InterleavingsAreSequential: for scripts off their poll's last second before the truncated deadline runs out, and polls created without counts; a stub, which scripts refuse as closed, counts as no poll.
- DoublePaging.PageOnDoubles: for scores of polls created in [2^30, 2^31) seconds.
- Ballot.RedisRefines: compares the stores without idempotency keys, with close and delete issued by the creator and outside the last second before a deadline, because the memory store has neither keys nor ownership checks and keeps sub-second deadlines; who last updated a poll is not compared, the scripts do not record it.
- RedisLists.GetMyVotes: the order before truncation is that of a Go map and left open.
- RedisLists.ListMyCreatedPollStats: which number a foreign cursor text denotes is a parameter (`parse`), given in millionths; for the texts the stores hand out it is determined in `DoublePaging`.
- RedisLists.RangeBelow: the order of equal scores, reverse lexicographic in Redis, is left open.
- MemoryStore.Store.ListMyCreatedPollStats: likewise, and `sort.Slice` is an insertion sort whose order among ties callers may not rely on.
- MemoryStore.Store.VoteFor: the lock makes it one step; clones handed to callers and the count map shared with the caller of CreatePoll are values here, so aliasing is not modelled.
- RateLimit.TokenBucket.Handle: a request sees one instant, not a clock reading per use, rates are whole requests a second, and the mutex is taken for granted; the helper methods `See`, `Tidy`, `Draw` and `AllowUser` are parts of one handler in the source.
- ListingOrder.PageShows: for a user id that is not empty, which the service refuses; metadata left by a late close reads as a poll without creator.
- CallAnswers.StrangersAreRefused: likewise.
- Service.CreatePoll: stops before the store call; strings are sequences of characters, without UTF-8 decoding. The other calls of the service trim their user and poll id in the same way and pass them on.
- Counts and timestamps are unbounded integers, not 64-bit ones.
- Redis failures, lost connections and partial pipelines; a client that crashes is one that never steps again.
- SearchPolls, GetPollStats, ListPublicPolls and ListPublicPollStats: filters and truncation that would add only easy members.
- Notifications to all of a user's connections, whose messages carry different flags, and delivery between server processes.
- The keep-alive ticks of the stream, and everything else in the page: rendering and routing.
- gRPC and HTTP handlers, authentication, metrics, configuration and deployment.
