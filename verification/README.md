# Verified model of pgoutbox

`pgoutbox` lets Go instances that share a Postgres schema stage messages in a table, flush
them in batches, elect an exclusive consumer per topic, wake sleeping subscribers, and divide
the deletion of expired messages among themselves. This project models those protocols in
Dafny and proves what they promise. `dafny verify dfyconfig.toml` checks everything.

## How the model is built

- **Protocols that live in the database** (exclusive leases, messages, maintenance leases,
  activity stamps) are state machines. A `Step` is one statement, commit or rollback of one
  transaction, or a whole producer transaction in `Dormancy` and `SubscribeLoop`. `Enabled` says
  when it can happen (a statement that must wait for a row lock is not enabled) and `Apply` what
  it does. A run is a sequence of states joined by steps, so a theorem over runs covers every
  interleaving of any number of instances. Rows written by an open transaction become visible
  at its commit; locks are explicit.
- **In-process objects** are classes whose methods change their fields: the watcher registry,
  the subscriber registry, the maintenance scanner, the claim code, the drain loop. Each method
  is proved to do to the fields exactly what a specification function says, and the lemmas are
  about those functions.
- **Transactions as code** are methods too where one caller runs them from start to end:
  AcquireTopic, ReleaseTopic, ProcessMessages and its drain loop, runMaintenance and
  finishDormantTopic. The place where an error strikes and what other instances committed
  between two statements are parameters. `Outbox.AttemptIsTwoSteps` and
  `Cleanup.PassIsThreeSteps` tie the lease transactions back to the steps of the protocols.
- `LeaseHold` composes three things for one instance and one topic: the exclusive-lease tables
  with everything every other instance and topic does to them, the watcher goroutines, and the
  instance's AcquireTopic/ReleaseTopic calls with all their error exits. The instance and topic
  are parameters, so the theorems hold for each pair.

| file | content |
|---|---|
| Tables.dfy | shared rows, the expiry rules of the queries, session garbage collection, ceiling division |
| ExclusiveLease.dfy | topic rows, sessions, row locks and transactions of all instances |
| LeaseWatcher.dfy | watcher goroutines and the registry's Start and Stop |
| LeaseHold.dfy | AcquireTopic, ReleaseTopic and the watcher against the database |
| Outbox.dfy | AcquireTopic and ReleaseTopic as methods with every error return |
| Messages.dfy | the messages table under inserts, flushes and expiry |
| Drain.dfy | ProcessMessages and the drain loop on a quiet topic, with every error return |
| PubSub.dfy | subscriber registry and bounded channels |
| SubscribeLoop.dfy | the Subscribe loop's sleeping and waking |
| LooseScan.dfy | the recursive "topics with messages" query |
| TopicScan.dfy | one scanner tick's candidate classes |
| FairShare.dfy, ShareRounds.dfy | claiming a fair share; rounds and convergence of scans |
| ScanTick.dfy | a whole scanner tick: classify, claim, reconcile |
| MaintenanceLease.dfy | maintenance leases and the cleaning transaction |
| Cleanup.dfy | runMaintenance and finishDormantTopic as methods with every error return |
| Loops.dfy | starting, cancelling and reaping maintenance goroutines |
| Dormancy.dfy | activity stamps, the activity window and the final pass |

## Assumptions

- A statement or commit that reports an error did not happen.
- AcquireTopic and ReleaseTopic calls of one instance for one topic do not overlap.
  `LeaseWatcher.OverlappingStopsDoNotBothWait` shows why.
- Each SQL statement is atomic on the rows it locks.
- Producers' insert transactions are atomic: messages, stamps and registrations appear together
  at the commit, with the time the transaction began. A topic whose registration a trigger loses
  to another transaction (sqlc/schema.sql:87-93) is neither bumped nor registered by it, so it
  counts among the topics that `Dormancy.Insert` skips.
- `ExclusiveLease.LeaseContinuity` assumes one shared clock. Nothing else about exclusive
  leases does: each clock reading is an arbitrary parameter of its step.

## Findings

- **A check that finds no topics row locks nothing** (outbox.go:765). A ProcessMessages past
  such a check can deliver while another instance holds the lease. `NoZombieIffTheRowExists` is
  the exact condition: from given tables no run has a zombie flush if and only if the topic
  already has its row. Its halves are `NoZombieFlush` and `UnseenRowLetsAZombieThrough`.
- **Deleting a session is not the same as its expiry** for maintenance leases, although
  outbox.go:248 and sqlc/queries.sql:188 say so. A lease whose holder was swept is judged by
  its own age from then on and can come back to life. `SweepKeepsMaintenanceVerdicts` gives the
  exact condition and `SweepCanReviveALease` an instance of its failing. The model follows the
  code.
- **A skipped activity bump can hide a live message** (sqlc/schema.sql:61).
  `CoveredIffSkipsCouldWait` says over whole runs how long a skipped bump may be overdue,
  and `EveryMessageIsCovered` says it for one topic at one state, where a flush or another
  producer may have made up for the skip, as at an ordinary rollover (`RolloverIsHarmless`).
  `SafeIffSkipsHarmless` is the exact condition for dropping the topic.
  `SkippedBumpStrandsAMessage` shows the harm for every TTL and every sufficient slack, and
  `CatchUpFindsEveryMessage` that the catch-up sweep finds the message all the same.
- **The slack must exceed the 30-second gate plus the longest lag of a skipped bump plus the time
  an instance's clock may be behind the database's, and that is enough**
  (`SlackMustExceedTheGate`, `SlackThresholdIsReached`).
- **A row locked during an empty read waits for the poll** if the lock is then rolled back
  (`RolledBackLockNeedsThePoll`). `OversleepsIffARowWasSkipped` is the exact condition, at the
  empty read.
- **An instance with an expired session claims in vain**: what it wins is at once claimable
  again, and `ScanReducesClaimable` holds exactly for the others.

## Model

| member | source | states |
|---|---|---|
| `Tables.AccessRule` | outbox.go:762-788 | the access rule on the columns: a hold is live by its override or, without one, by its session; unheld topics are open, a live hold admits only its holder, and after it everybody has to acquire |
| `Tables.AccessAgreesWithAcquire` | outbox.go:762-788 | ProcessMessages reports a held lease exactly when AcquireTopic would wait, and a required lease exactly when acquiring would succeed at once but was not done |
| `Tables.OverrideDecides` | sqlc/queries.sql:194-206 | a non-NULL override alone decides access, for holder and others, whatever the sessions say |
| `Tables.ExpiryQueriesAgree` | sqlc/queries.sql:40-146 | the three queries that judge a maintenance lease apply one rule: the session decides, age only without a session row |
| `Tables.SweepTakesExpiredSessions` | sqlc/queries.sql:184-192 | the sweep removes exactly the sessions that read expired at its cutoff and touches no other |
| `Tables.SweepKeepsAccessVerdicts` | sqlc/queries.sql:184-206 | the sweep changes no exclusive-lease verdict iff no swept session is live; a past cutoff suffices |
| `Tables.SweepKeepsMaintenanceVerdicts` | outbox.go:939-946 | with a past cutoff, a lease table's verdicts survive the sweep iff every lease of a swept holder is older than the staleness cutoff |
| `Tables.SweepCanReviveALease` | outbox.go:244-250 | a concrete sweep that turns an expired maintenance lease into a live one |
| `ExclusiveLease.StepKeepsInv` | outbox.go:751-788 | every statement of every transaction keeps locks matched to transactions and each transaction's check true |
| `ExclusiveLease.ProcessingHoldsTheRow` | outbox.go:790-876 | from its check to its end, a ProcessMessages that saw a topics row owns the row lock and nobody else is recorded holder, for arbitrary clocks |
| `ExclusiveLease.LeaseFrozenWhileOpen` | outbox.go:751-761 | the lease columns a transaction locked do not change while it is open |
| `ExclusiveLease.NoZombieFlush` | outbox.go:751-788 | after another instance's acquisition commits, an instance delivers nothing unless it acquires again in between |
| `ExclusiveLease.UnseenRowLetsAZombieThrough` | outbox.go:762-769 | from any tables without the topics row and for any two instances, a run in which a check that saw no row delivers under the other's lease |
| `ExclusiveLease.ChecksSeeTheRow` | sqlc/queries.sql:184-206 | a topics row never vanishes, and where there is one every access check sees it |
| `ExclusiveLease.HowARowAppears` | outbox.go:640-656 | a topic gets its row only by the commit of an acquisition or of a transaction that registers it, then unheld |
| `ExclusiveLease.NoZombieIffTheRowExists` | outbox.go:751-788 | from given tables no run lets an instance deliver after another took over, without acquiring again, if and only if the topics row exists |
| `ExclusiveLease.CheckOrigin` | outbox.go:762-788 | an open ProcessMessages goes back to its check, which found no row, an unheld topic, or its own hold with time left; a row it saw is unchanged since |
| `ExclusiveLease.CheckPassesIff` | outbox.go:762-788 | a check passes iff there is no row, or the row lock is free and the topic is unheld or its own hold live on the columns |
| `ExclusiveLease.DeliveriesWereGranted` | outbox.go:762-876 | every delivery that saw the row goes back to an own check granted on that very row |
| `ExclusiveLease.NoCheckAfterRelease` | outbox.go:613-635 | once an expiry write has landed, no check of that instance past the expiry succeeds until it acquires again or writes a later one |
| `ExclusiveLease.AcquireOrigin` | outbox.go:637-668 | an acquisition about to commit took the lock at an earlier step, judged the row it read there, and the row is still the same |
| `ExclusiveLease.OnlyExpiredLeasesAreDisplaced` | outbox.go:640-695 | whoever is displaced had a lease that read expired when the acquirer locked the row |
| `ExclusiveLease.ExpiryWriteContract` | sqlc/queries.sql:214-217 | a release or grace write touches only the writer's own row and ends its access, and everyone else's exclusion, at the written time |
| `ExclusiveLease.WhatHappensToASession` | outbox.go:726-749 | a session is set by its own upserts, removed exactly by sweeps that read it expired, and touched by nothing else |
| `ExclusiveLease.SessionStaysLive` | outbox.go:735-749 | with the last committed upsert always under one lease duration old, the session is live at every instant |
| `ExclusiveLease.LeaseContinuity` | outbox.go:670-689 | from one heartbeat, every deferred lease stays with its holder and reads valid at every instant with no further topic-row write |
| `LeaseWatcher.WatcherContract` | exclusive_lease_watcher.go:51-81 | under any callers, each Start fires at most once, exactly once if its context ended first, and a closed `done` implies the handle left the map |
| `LeaseWatcher.CleanupSparesOthers` | exclusive_lease_watcher.go:64-70 | a goroutine's cleanup removes only its own entry |
| `LeaseWatcher.FinishSettles` | exclusive_lease_watcher.go:59-80 | a cancelled goroutine runs to its end, and its first cause alone decides whether it fired |
| `LeaseWatcher.StopContract` | exclusive_lease_watcher.go:83-101 | Stop leaves no entry, the handle is done, onCancel ran once iff the context ended first |
| `LeaseWatcher.OverlappingStopsDoNotBothWait` | exclusive_lease_watcher.go:92-101 | of two overlapping Stops the second returns while onCancel is running |
| `LeaseWatcher.Registry.LoadAndDelete` | exclusive_lease_watcher.go:93-96 | returns and removes the topic's entry, other topics untouched |
| `LeaseWatcher.Registry.RunGoroutine` | exclusive_lease_watcher.go:59-80 | one step of the goroutine, defers in order, compare-and-delete by identity |
| `LeaseWatcher.Registry.Stop` | exclusive_lease_watcher.go:92-101 | ends in the state StopContract describes and reports whether a watcher was registered |
| `LeaseWatcher.Registry.Start` | exclusive_lease_watcher.go:51-81 | stops the old watcher first, then installs a fresh handle |
| `LeaseHold.StepKeepsNotStranded` | outbox.go:556-635 | every step, including all error and cancel exits, leaves an open-ended hold with somebody who owes its end |
| `LeaseHold.FailuresAreReal` | outbox.go:593-606 | the record of a failed expiry write is made only by one that failed, and ends with the next acquisition |
| `LeaseHold.NoStrandedLease` | outbox.go:561-606 | in every reachable state an open-ended row has a waiting or firing watcher, or a call that owes an expiry or a Start, or a failed expiry write |
| `LeaseHold.OthersAndTheRow` | sqlc/queries.sql:208-217 | nobody else makes the row open-ended for this instance, and only an acquirer stops it from being so |
| `LeaseHold.StandingStep` | outbox.go:561-591 | no single step disturbs a standing hold except its context's end, another call, or a takeover |
| `LeaseHold.AcquireHasTheLastWord` | outbox.go:561-591 | after an acquisition commits no earlier watcher's write lands; the override stays NULL until the hold is ended or taken over |
| `LeaseHold.OneWatcherAtATime` | exclusive_lease_watcher.go:48-57 | at most one goroutine per topic is waiting, firing or cleaning up |
| `LeaseHold.NoneRunsAfterStop` | exclusive_lease_watcher.go:23-29 | once Stop has returned none is waiting or running onCancel until the next Start |
| `LeaseHold.CallsGetThrough` | outbox.go:556-635 | in every reachable state the call has a next step: an error return, or a write that waits for the row lock at most, or a goroutine it waits for that can run |
| `LeaseHold.OwesOnlyWhatItStopped` | outbox.go:561-606 | a call writes an expiry in a watcher's place only if it found one registered when it began |
| `LeaseHold.CtxEndExpiresTheHold` | outbox.go:697-721 | ending the AcquireTopic ctx wakes the watcher, which fires once and leaves the grace-period expiry on a row still held |
| `Outbox.AttemptIsTwoSteps` | outbox.go:637-695 | a granted attempt leaves exactly what the protocol's locking and commit steps leave, and a refused one could not take the locking step |
| `Outbox.OutcomeContract` | outbox.go:640-695 | any fault loses the attempt, and without one only a live hold of someone else does |
| `Outbox.Consumer.TryAcquireTopicLease` | outbox.go:640-695 | errors before the check fail, a live foreign lease refuses, later errors fail; only a grant changes the tables, and it changes row and session together |
| `Outbox.Consumer.WriteExpiry` | sqlc/queries.sql:214-217 | a landed expiry write is the protocol's guarded step; a failed one changes nothing |
| `Outbox.WrittenContract` | sqlc/queries.sql:214-217 | a failed write changes nothing, a landed one only the expiry of the writer's own row |
| `Outbox.Consumer.AcquireTopic` | outbox.go:556-591 | succeeds iff an attempt is granted before one fails; then a fresh watcher waits over the granted row; otherwise the stopped watcher's expiry is written and the row is not left open-ended |
| `Outbox.Consumer.ReleaseTopic` | outbox.go:613-635 | ends with no watcher and the immediate expiry, or the grace one if that failed and a watcher was stopped; open-ended afterwards only if every write it owed failed |
| `Messages.BatchIsUnique` | sqlc/queries.sql:7-17 | the read of unlocked rows by ascending id up to the limit has one answer |
| `Messages.PassPicksTheExpired` | sqlc/queries.sql:31-33 | a pass picks a message iff it is of its topic and older than its cutoff, and locks exactly those |
| `Messages.StepKeepsInv` | outbox.go:816-875 | every statement keeps batches and victims stored and locked, and the partition below |
| `Messages.StepFate` | outbox.go:859-875 | a message leaves the table in a step iff that step commits a flush or an expiry pass of its own topic, and never returns |
| `Messages.Conservation` | sqlc/queries.sql:7-33 | every committed message is in exactly one state: stored, delivered, expired |
| `Messages.RemovedOnce` | outbox.go:1273-1284 | a removed message was removed by exactly one step, a committed successful flush or a pass whose cutoff it had passed |
| `Messages.RelayedExactlyOnce` | outbox.go:22-30 | a flusher writing only through Tx() commits exactly one write per delivered message and none for others |
| `Drain.OrderedIsTheTable` | sqlc/queries.sql:7-17 | the read order lists exactly the topic's rows by ascending id |
| `Drain.DeleteFirst` | sqlc/queries.sql:19-23 | deleting a batch leaves the rest of the order |
| `Drain.BatchesConcat` | subscribe.go:162-176 | the flushed batches concatenated are the whole topic in order |
| `Drain.BatchesCount` | subscribe.go:162-176 | there are ceil(n/b) batches |
| `Drain.BatchesFull` | subscribe.go:162-176 | no batch is empty or over the limit, and all but the last are full |
| `Drain.FaultsUndoTheCall` | outbox.go:816-875 | with messages at hand a call fails iff it meets a fault, a failed call takes back everything it did to the table, and the flusher keeps the batch only for faults after its nil return |
| `Drain.Store.ProcessMessages` | outbox.go:790-876 | a call that meets no fault flushes, deletes and commits exactly the next batch; every error return leaves the table alone, and the flusher has the batch only if the error came after it; an empty read changes nothing |
| `Drain.PassStep` | subscribe.go:162-176 | each successful call of a pass commits the next batch in order and leaves fewer messages |
| `Drain.Store.ProcessTopicUntilEmpty` | subscribe.go:157-176 | fails iff a fault or the end of ctx strikes one of its calls, with exactly the batches before it committed; otherwise it ends with the topic empty after ceil(n/b) ordered flushes and one empty read; other topics untouched |
| `Drain.PassFailsAtAFault` | subscribe.go:157-176 | a pass fails only at a fault of the call after its last committed batch, and succeeds when none is in store |
| `Drain.PassConserves` | outbox.go:816-875 | however a pass ends, what it committed followed by what it left is the topic as it was |
| `Drain.RetryFinishesTheJob` | subscribe.go:157-176 | a failed pass and a later complete one together commit every message once, in ascending id order |
| `PubSub.OfferContract` | pgpubsub.go:213-227 | a dispatch keeps the buffer bounded, ordered and non-empty, and drops iff the buffer was full |
| `PubSub.DeliveryInOrder` | pgpubsub.go:162-227 | over a whole subscription, received plus buffered is an in-order subsequence of what was dispatched, at most 16 buffered, nothing lost within 16 |
| `PubSub.TakingEmptiesTheBuffer` | pgpubsub.go:162-194 | receives take the oldest message first and bring the whole buffer over in order |
| `PubSub.PgPubSub.Sub` | pgpubsub.go:162-194 | the three refusals leave everything alone; success registers one fresh open channel |
| `PubSub.PgPubSub.Unsubscribe` | pgpubsub.go:196-211 | removes and closes exactly one registered channel, once, and nothing otherwise |
| `PubSub.PgPubSub.Dispatch` | pgpubsub.go:213-227 | offers to exactly the topic's subscribers and never to a closed channel |
| `SubscribeLoop.StepKeepsInv` | subscribe.go:106-148 | producers, listener, other lockers and the loop keep sleeping covered and the timer armed |
| `SubscribeLoop.NoLostWakeUp` | subscribe.go:94-148 | parked after a drained pass as sole consumer, every stored message has a notification in flight or buffered |
| `SubscribeLoop.OnlySkippedRowsWaitForThePoll` | subscribe.go:132-147 | with other lockers, only rows the last empty read skipped can wait, and the poll timer is armed in every wait |
| `SubscribeLoop.PendingWakeUpArrives` | pgpubsub.go:213-227 | a pending wake-up can be taken now or after the next dispatch |
| `SubscribeLoop.WakeUpFlushes` | subscribe.go:94-148 | after the timer, a notification, a closed channel or a regained lease the loop by itself drains, passes and can flush every message nobody else has locked |
| `SubscribeLoop.ClosedChannelMeansPolling` | subscribe.go:139-147 | a closed channel is seen once, and from then on only the timer ends a wait |
| `SubscribeLoop.ReturnedIsFinal` | subscribe.go:134-137 | once its ctx has ended the loop takes no further step |
| `SubscribeLoop.RolledBackLockNeedsThePoll` | sqlc/queries.sql:7-17 | a run in which a skipped row waits with no wake-up |
| `SubscribeLoop.OversleepsIffARowWasSkipped` | subscribe.go:106-148 | after an empty read some continuation of the wait sleeps on a takeable message with no wake-up coming iff the read skipped a locked row and no wake-up was pending |
| `SubscribeLoop.Subscriber.DrainNotifications` | subscribe.go:178-191 | empties the buffer into the consumer, in order; nil is a no-op |
| `LooseScan.LessIsLexicographic` | sqlc/queries.sql:158-168 | the order of the scan is the lexicographic one |
| `LooseScan.TopicsWithMessages` | sqlc/queries.sql:154-170 | the recursive query terminates with the strictly ascending list of distinct topics, for the empty table too |
| `LooseScan.DistinctTopicsUnique` | sqlc/queries.sql:154-170 | that list is unique, so it equals the plain DISTINCT query |
| `LooseScan.HopUpTo` | sqlc/queries.sql:161-168 | one round moves from having everything up to a topic to everything up to the next, and shrinks what is ahead |
| `TopicScan.Classify` | outbox.go:968-992 | the loop fills both classes, the TTL table and the held list as specified |
| `TopicScan.TtlsOfContract` | outbox.go:971-981 | a topic has a TTL entry iff some row gives it a positive one, and that value |
| `TopicScan.OwnTtlWins` | outbox.go:971-981 | a row with its own expiration runs on that one whatever the default, a row without one on the default, and without a positive one there is no entry |
| `TopicScan.ClassOfIsTrue` | sqlc/queries.sql:138-146 | on rows the query returned, a class's counts and lists are exactly the held, unleased and expired topics |
| `TopicScan.WhereARowFalls` | outbox.go:984-991 | a row counts as held, else unleased, else stale, else not at all |
| `TopicScan.InClassContract` | outbox.go:968-992 | the explicit class holds the rows with a positive expiration of their own, the other those without one under a positive default, each topic once |
| `FairShare.ScanFeedsTheClaim` | outbox.go:968-995 | the classes the scan computes from the query's rows are well-formed true accounts of the tables, as the claim requires |
| `FairShare.WhoShares` | sqlc/queries.sql:172-182 | live instances share the explicit class, and of them exactly the flagged default maintainers the other |
| `FairShare.BudgetIsLeast` | outbox.go:1051-1055 | the budget is the least number, at least one, with which all instances at this level could take the whole class |
| `FairShare.TakeOverIsOneStep` | sqlc/queries.sql:68-92 | the takeover statement is the lease protocol's takeover step |
| `FairShare.BulkInsertIsOneStep` | sqlc/queries.sql:59-66 | the bulk insert is the lease protocol's insert step |
| `FairShare.WinsContract` | outbox.go:1035-1086 | under contention and errors, wins are distinct, within budget, and each unleased or expired |
| `FairShare.TroubleCostsItsHalf` | outbox.go:1059-1084 | a failed insert wins no unleased topic, a failed takeover no stale one, and locked rows are never taken |
| `FairShare.FairShareBound` | outbox.go:1051-1071 | a claim leaves held at most max(ceil(C/N), held+1) |
| `FairShare.LeaseTable.InsertMaintenanceLeases` | sqlc/queries.sql:59-66 | inserts and returns exactly the topics without a row |
| `FairShare.LeaseTable.ClaimMaintenanceLeases` | sqlc/queries.sql:68-92 | takes over and returns exactly the expired, unlocked rows |
| `FairShare.LeaseTable.ClaimClassShare` | outbox.go:1043-1086 | wins unleased topics first, then stale ones with the budget left, and writes exactly those rows |
| `FairShare.LeaseTable.ClaimTopics` | outbox.go:1018-1033 | claims the explicit class by all live sessions and the default class by default maintainers, nothing if the count fails |
| `ScanTick.QueryAndLoopAgree` | sqlc/queries.sql:147-152 | the candidate query and the classification loop apply the same TTL to a topic |
| `ScanTick.EveryTickTopicHasATtl` | outbox.go:968-998 | every topic a tick holds or wins, in whatever order the shuffle put the classes, has a positive entry in the TTL table |
| `ScanTick.TickTopicsAreDistinct` | outbox.go:968-1033 | the wins of both classes and the held topics are all distinct |
| `ScanTick.ClaimCandidates` | outbox.go:968-996 | classifies and claims: distinct topics, each with a positive TTL, and exactly the wins written to the lease table |
| `ScanTick.ScanTopics` | outbox.go:916-998 | a whole tick: every topic held or won ends with a running loop, and each loop it starts runs on the topic's own expiration, else the default, always positive |
| `ShareRounds.WinsUncontended` | outbox.go:1051-1084 | an uncontended claim wins its whole budget or all there is |
| `ShareRounds.ScanReducesClaimable` | outbox.go:1039-1042 | a scan that sees a claimable topic reduces their number iff the claimant's session has not expired |
| `ShareRounds.ScansConverge` | outbox.go:1035-1042 | n scans by live instances leave at least n fewer claimable topics, down to none |
| `ShareRounds.RoundCoversFairly` | outbox.go:968-998 | N live instances scanning in turn from empty lease all C topics, none more than ceil(C/N) |
| `MaintenanceLease.StepKeepsInv` | outbox.go:1238-1285 | every statement keeps row locks matched and locked rows as judged |
| `MaintenanceLease.WhatHappensToASession` | sqlc/queries.sql:184-192 | a session is set by its own heartbeat and removed exactly by sweeps that read it expired |
| `MaintenanceLease.OneCleanerPerTopic` | outbox.go:1247-1284 | at most one transaction per topic has deletes pending, and its commit leaves the lease its own |
| `MaintenanceLease.CleanerWasEntitled` | outbox.go:1254-1264 | a cleaner's row was absent, its own or expired when locked, and is still in place |
| `MaintenanceLease.DeletesComeFirst` | outbox.go:1266-1284 | no cleaner commits, and so takes or renews the lease, without having run its deletes |
| `MaintenanceLease.OnlyExpiredLeasesMove` | sqlc/queries.sql:68-98 | a lease leaves its holder only by the holder's release or at a step chain that read it expired |
| `MaintenanceLease.SecureLeaseStays` | sqlc/queries.sql:40-98 | a lease held while nobody else has locked it stays for as long as no step reads it expired and the holder does not release it |
| `MaintenanceLease.LiveSessionKeepsTheLease` | sqlc/queries.sql:40-98 | in particular while the holder's session outlives the reading of every step that judges this topic, with no write of its own |
| `MaintenanceLease.LiveLeaseStays` | sqlc/queries.sql:40-98 | the same from the step that gains the lease |
| `Cleanup.OutcomeContract` | outbox.go:1238-1285 | any fault undoes the pass, and without one only another holder's unexpired row refuses it |
| `Cleanup.WhatAPassDeletes` | sqlc/queries.sql:31-33 | a message goes iff it is of the topic and older than the cutoff; all others stay as they were |
| `Cleanup.PassDeletesTheVictims` | sqlc/queries.sql:31-33 | the code's delete removes the rows the messages protocol locks for it |
| `Cleanup.Maintainer.RunMaintenance` | outbox.go:1238-1285 | all or nothing: exactly the passes that end holding the lease delete, and what stays is every message of another topic and every one within the TTL on the instance's clock; the lease is judged and stamped on the database's |
| `Cleanup.Maintainer.FinishDormantTopic` | outbox.go:1210-1234 | gives the lease up iff the final pass succeeded, nothing of the topic was left at the check, no later statement failed and nobody took the lease by the release; messages that come after the check stay |
| `Cleanup.LateMessageIsFoundAgain` | outbox.go:1203-1209 | a message a release missed makes the topic an unleased candidate of later scans, by its own bump or by the catch-up sweep |
| `Cleanup.PassIsThreeSteps` | outbox.go:1247-1284 | a clean pass leaves what the protocol's lock, delete and commit steps leave, and is refused exactly when the locking step is not enabled |
| `Cleanup.DormantTopicEndsEmpty` | outbox.go:1203-1216 | after the pass for a topic a scan dropped, none of its messages is left, if the slack exceeds the gate plus the lag of the topic's own stamp plus the skew of the pass's clock |
| `Loops.ReconcileContract` | outbox.go:1088-1121 | which loops a reconcile cancels, marks dormant, leaves and starts, and with exactly which TTL |
| `Loops.WhichLoopsStop` | outbox.go:1103-1110 | a managed loop ends as dormant iff its topic is no candidate, ends without that mark if it is one but not held, and is left alone otherwise |
| `Loops.EveryLoopHasATtl` | outbox.go:1112-1120 | in a run whose reconciles name a positive TTL for every topic they hold, every loop ever started has a positive TTL |
| `Loops.OneLoopPerTopic` | outbox.go:1088-1134 | two loops of a topic never both run, and the running one is recorded |
| `Loops.NewLoopWaitsForTheOld` | outbox.go:1112-1120 | a new loop starts only after every earlier one has closed `done`, release included |
| `Loops.MarkedBy` | outbox.go:1103-1106 | a loop is dormant only by an earlier reconcile that found its topic managed and no candidate |
| `Loops.OnlyDormantLoopsRelease` | outbox.go:1198-1234 | only loops a scan found dormant clean up and release, and one about to release has earlier in the run committed its final pass and after that found the topic empty |
| `Loops.HowALoopCloses` | outbox.go:1198-1234 | a loop not marked dormant closes straight from its cycle, a dormant one only by its release or by a final pass or check that went wrong |
| `Loops.CancelledLoopsClose` | outbox.go:1136-1201 | a cancelled loop can always take a step and each one brings it nearer to closing |
| `Loops.HeldTopicsHaveRunningLoops` | outbox.go:1088-1134 | reaping drops exactly the closed loops, and after reap and reconcile every held topic has a running one |
| `Loops.LoopKeepsItsTtl` | outbox.go:1119 | a loop keeps its TTL, and a cancelled or closed loop stays so |
| `Loops.Scanner.ReapExitedLoops` | outbox.go:1123-1134 | drops exactly the entries whose loop has closed |
| `Loops.Scanner.ReconcileLoops` | outbox.go:1094-1121 | the two loops compute the specified reconcile |
| `Dormancy.WhatAnInsertDoes` | sqlc/schema.sql:43-95 | an insert adds exactly its messages, registers new topics without a TTL at its time, and leaves skipped and other topics alone |
| `Dormancy.PassIsARemoval` | sqlc/queries.sql:31-33 | a cleanup pass removes the expired messages of its topic and leaves the stamps alone |
| `Dormancy.InsertCoversItself` | sqlc/schema.sql:53-64 | an insert's messages are within 30 s plus a lag of the stamp iff no bump it skipped was overdue by more than the lag |
| `Dormancy.AlwaysStamped` | sqlc/schema.sql:43-95 | every topics row of every run carries a stamp |
| `Dormancy.StampsOnlyGrow` | sqlc/schema.sql:53-64 | a stamp never moves back and moves only once it is over 30 s old |
| `Dormancy.CoveredIffSkipsCouldWait` | sqlc/schema.sql:43-64 | in a run every message is always within 30 s plus a lag of its topic's stamp iff no insert skips a bump overdue by more than the lag, whatever the order of times |
| `Dormancy.EveryMessageIsCovered` | sqlc/schema.sql:43-64 | at a state all of a topic's messages are within 30 s plus a lag of its stamp iff every bump skipped by an insert of one of them was overdue by at most the lag or has been made up for, by a flush or another producer |
| `Dormancy.RaisedBetween` | sqlc/schema.sql:53-64 | a stamp gets past a mark only by a due bump of that topic begun at or after the mark |
| `Dormancy.RolloverIsHarmless` | sqlc/schema.sql:45-50 | of two producers inserting at once on an idle topic, the one that skips is made up for by the one that bumps |
| `Dormancy.EnsureSetsTheTtl` | sqlc/queries.sql:112-116 | ensuring a topic gives it a TTL if it has none |
| `Dormancy.TtlIsWrittenOnce` | sqlc/queries.sql:112-116 | a TTL once in the table never changes |
| `Dormancy.CandidateRule` | sqlc/queries.sql:147-152 | the query on the columns: a topic's own TTL decides, the default only without one, and only a positive one keeps it |
| `Dormancy.DroppedMeansExpired` | sqlc/queries.sql:147-152 | a covered message of a topic the scan drops is past its TTL, also on a clock behind the scan's by the skew |
| `Dormancy.SafeIffCovered` | outbox.go:1203-1216 | whenever a scan drops the topic the final pass empties it iff the stamp covers the messages with less lag than the slack has to spare |
| `Dormancy.SafeIffSkipsHarmless` | outbox.go:1203-1216 | at every state of every run dropping the topic is safe iff no insert of a message still stored skipped a bump overdue by the spare slack that nobody made up for |
| `Dormancy.DormancyIsSound` | outbox.go:1203-1216 | with a slack over 30 s plus the lag of the topic's own skipped bumps plus the clock skew, the final pass deletes every message present at the scan that dropped the topic |
| `Dormancy.InsertReactivates` | outbox.go:1206-1209 | an insert whose bump is not skipped makes the topic a candidate of every scan up to TTL + slack - 30 s after it, whatever was skipped before |
| `Dormancy.CatchUpFindsEveryMessage` | sqlc/queries.sql:147-170 | a scan that includes the listed topics keeps a topic that held a message at the listing iff it has a TTL, whatever bumps were skipped |
| `Dormancy.SlackMustExceedTheGate` | outbox.go:231-235 | dropping inactive topics is sound for all tables covered with a lag iff the slack exceeds 30 s plus the lag plus the clock skew |
| `Dormancy.SlackThresholdIsReached` | outbox.go:231-235 | the same threshold holds over the states that runs with so much lag reach |
| `Dormancy.SkippedBumpStrandsAMessage` | sqlc/schema.sql:45-52 | a skipped due bump makes the scan drop a topic at the time of a fresh insert |
| `Dormancy.FlushBumpCompensates` | sqlc/queries.sql:100-110 | once a flush's own bump is in, every message of the topic inserted up to a lag after the flush began is covered with that lag, for the rest of the run |

## Left out

- Connections, pools, LISTEN dialing and reconnects: a notification is in flight, dispatched or lost.
- Migrations, schema names, the SQL template rewrite, JSON envelopes, logging and uuid generation.
- ProcessMessages under contention, the heartbeat and the bulk claims across instances are steps on values, because what is proved about them is their interleaving; an interleaving inside one statement is not modelled.
- In `Outbox`, an AcquireTopic that is never granted, refused for ever and never cancelled is not a call: attempts are a finite sequence.
- `Subscribe` itself has no method: its endless loop is the state machine of `SubscribeLoop`, and only its two inner loops are methods.
- The sleeping times of the maintenance loop and of AcquireTopic's retry: waiting is an arbitrary number of other steps.
- Rows of `topics` with a NULL activity stamp, which only predate the column, in `Dormancy`; such rows are always candidates.
- The hourly cadence of the catch-up sweep.
- Collations: `LooseScan` orders TEXT character by character.
- Rounding of timestamps and of the float comparison in the candidate query: times are integers.
- Integer width: counts and ids are unbounded.
- Propagating a changed TTL to a running loop: the code does not, and `Loops.LoopKeepsItsTtl` says so.
- Ambiguous commits and overlapping Acquire/Release calls of one instance for one topic: the code promises nothing there.
- `AddMessages` validation, option setters, `NopFlusher`, the Notifier hooks: easy members only.
