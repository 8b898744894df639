# Offline point-of-sale reconciliation, modelled in Dafny

This project models the reconciliation layer of a point-of-sale terminal that works while disconnected from its backend. It has three parts:

- **ConflictResolver** (`conflict_resolver.dfy`): chooses between two copies of a transaction by last-write-wins on `timestamp`. A tie goes to the local copy. It also merges a remote and a local list by id (`resolveBatch`), and applies a manual override (`manualOverride`). `resolve` and `manualOverride` are pure functions. `resolveBatch` is a method that keeps the source's loop, which overwrites a slot in place or pushes onto the copied remote list. It is proved equal to the reference function `Batch`.
- **OfflineQueue** (`offline_manager.dfy`): the class `OfflineManager`. Its `queue` field is a FIFO list of transactions. After every mutation the list is mirrored into a key-value store under the key `tx_queue`; the store is the field `storage`. `Valid()` is the object invariant: either the store holds exactly the queue, or nothing was ever stored and the queue is empty. `sync` always fails, because the placeholder server call throws before anything else happens.
- **FailureLedger** (`sync_recovery.dfy`): the class `SyncRecovery`. Its `failed_syncs` table is a `map<string, FailedRecord>` keyed by transaction id. It supports:
  - upsert (`logFailedSync`);
  - read-all in an order the storage chooses;
  - retry: delete the row on success, bump its counter and overwrite its error on failure;
  - retry-all, with the results split into `successful` and `failed`;
  - age-based cleanup.

  The clock (`now`) and the outcome of the server lookup are parameters. The placeholder lookup as written always returns `null`; it is `FetchServerTransaction`.

Shared modules:

- `types.dfy` holds the `Transaction` record. `conflictResolved` is an `Option<bool>`, because the field is absent until a resolution step sets it.
- `wrappers.dfy` holds `Option`, `Result` and `Outcome`. They model absent fields, thrown errors and operations that return nothing but may throw.

The code and the repository's own tests do not always agree. The model follows the code:

- `resolveBatch` does not set `conflictResolved` on a remote entry that has no local counterpart. The tests at src/__tests__/sync.test.ts:118 and src/__tests__/conflict.test.ts:84-86 expect every output entry to be flagged. `BatchMayLeaveEntryUnflagged` shows an input where an entry is not. This is recorded as a non-theorem; the function is not corrected.
- The suite titled "OfflineManager with Retry Logic" constructs `new OfflineManager(3)`, a retry budget (src/__tests__/data-sync.test.ts:8), and expects a `retryCount` on queued entries (src/__tests__/data-sync.test.ts:27-31). The constructor takes no argument and the queue stores the transactions as given. `sync` (src/lib/offline-manager.ts:42-46) has no retry loop; it awaits the placeholder server call, which throws, so it always fails (`OfflineQueue.OfflineManager.Sync`).
- The test at src/__tests__/conflict.test.ts:52-57 expects `manualOverride` to return `{...originalTx, ...override, conflictResolved: true}`, which replaces `data` wholesale and so drops `items`. The deep merge keeps the untouched `data` fields, `items` included, and so does `ConflictResolver.ManualOverride`.

## Model

| member | source | states |
|---|---|---|
| `ConflictResolver.Resolve` | src/lib/data-sync-conflict-resolver.ts:8-16 | The result is flagged resolved and carries the larger of the two timestamps. It equals the server copy in every other field exactly when the server timestamp is strictly greater; otherwise, ties included, it equals the local copy. |
| `ConflictResolver.ResolveConsultsOnlyTimestamps` | src/lib/data-sync-conflict-resolver.ts:9-15 | Pairs with the same timestamps pick the same side whatever their other fields: only `timestamp` is consulted. |
| `ConflictResolver.ResolveSymmetricUnlessTie` | src/lib/data-sync-conflict-resolver.ts:9 | When the timestamps differ, swapping the server and local roles gives the same winner; only a tie depends on the roles. |
| `ConflictResolver.ResolveIdempotent` | src/lib/data-sync-conflict-resolver.ts:8-16 | Resolving the winner again against either original copy returns the winner unchanged. |
| `ConflictResolver.ResolveAssociative` | src/lib/data-sync-conflict-resolver.ts:8-16 | Three copies resolve to the same transaction however the pairwise steps are grouped. |
| `ConflictResolver.MergeCustomer` | src/lib/data-sync-conflict-resolver.ts:44 | The nested `customerInfo` record is merged key by key: a key the override gives wins, an omitted key keeps its old value, and an override onto an absent record creates one. |
| `ConflictResolver.ManualOverride` | src/lib/data-sync-conflict-resolver.ts:42-45 | The result is always flagged resolved. Every field the override gives, nested `data` fields included, takes the override's value. Every omitted field keeps `finalTx`'s value, and `items` and `discounts` always do. Inputs are values, so neither is changed. |
| `ConflictResolver.ManualOverrideNoChange` | src/lib/data-sync-conflict-resolver.ts:44 | An empty override, or one with an empty `data` part, returns `finalTx` with only the flag set. |
| `ConflictResolver.ManualOverrideIgnoresFlag` | src/lib/data-sync-conflict-resolver.ts:44 | The override's own `conflictResolved` never affects the result, because the flag is merged in last. |
| `ConflictResolver.MergeCustomerAssociative` | src/lib/data-sync-conflict-resolver.ts:44 | Merging customer records twice in a row equals merging once with the combined record. |
| `ConflictResolver.ManualOverrideCompose` | src/lib/data-sync-conflict-resolver.ts:42-45 | Two successive overrides equal one override with the combined patch, where the later patch wins where both give a value. |
| `ConflictResolver.ManualOverrideIdempotent` | src/lib/data-sync-conflict-resolver.ts:42-45 | Applying the same override twice equals applying it once. |
| `ConflictResolver.FirstIndexOf` | src/lib/data-sync-conflict-resolver.ts:27-29 | `find` and `findIndex` use the first entry with the id: the entry at the result has the id and no earlier entry has it. |
| `ConflictResolver.LastWithId` | src/lib/data-sync-conflict-resolver.ts:25-30 | Absent exactly when no entry has the id; otherwise it is an entry with the id after which no entry has it, so with duplicate local ids the last one decides a slot. |
| `ConflictResolver.LocalOnly` | src/lib/data-sync-conflict-resolver.ts:25-33 | Every entry it returns is a local entry whose id is not a remote id, and it is no longer than `local`; its body is the in-order filter `local` goes through at :32. |
| `ConflictResolver.LocalOnlyComplete` | src/lib/data-sync-conflict-resolver.ts:31-33 | No local entry whose id is not a remote id is dropped from `LocalOnly`. |
| `ConflictResolver.ResolveBatch` | src/lib/data-sync-conflict-resolver.ts:21-37 | The copy-then-loop method returns exactly `Batch(local, remote)`: the remote list slot by slot, then the flagged local-only entries. |
| `ConflictResolver.BatchStep` | src/lib/data-sync-conflict-resolver.ts:25-34 | One more local entry either overwrites the first remote slot with its id with `resolve(thatRemote, entry)`, or appends the entry flagged. |
| `ConflictResolver.BatchShape` | src/lib/data-sync-conflict-resolver.ts:22-33 | The output length is the remote length plus the number of local entries whose id no remote entry has. The first positions keep the remote ids in remote order. Every later entry is flagged and has an id no remote entry has. |
| `ConflictResolver.BatchRemotePassThrough` | src/lib/data-sync-conflict-resolver.ts:22 | A remote entry whose id no local entry has is output unchanged at its position, flag included. |
| `ConflictResolver.BatchResolvesFirstRemote` | src/lib/data-sync-conflict-resolver.ts:26-30 | The first remote entry with an id that some local entry shares becomes `resolve(remoteEntry, lastLocalEntryWithThatId)`. |
| `ConflictResolver.BatchLaterRemoteDuplicateUntouched` | src/lib/data-sync-conflict-resolver.ts:27-30 | A later remote entry repeating an earlier remote id is never replaced. |
| `ConflictResolver.BatchLocalOnlyTail` | src/lib/data-sync-conflict-resolver.ts:31-33 | After the remote positions come exactly the local-only entries, in local order, each flagged. |
| `ConflictResolver.BatchIds` | src/lib/data-sync-conflict-resolver.ts:21-37 | The ids in the output are exactly the union of the local and remote ids. |
| `ConflictResolver.BatchCoversUnion` | src/lib/data-sync-conflict-resolver.ts:21-37 | The output is at least as long as the union of the input ids. |
| `ConflictResolver.BatchMayLeaveEntryUnflagged` | src/lib/data-sync-conflict-resolver.ts:22 | Non-theorem witness: with no local entries, an unflagged remote entry comes out unflagged, so "every output entry is flagged" does not hold. |
| `ConflictResolver.BatchDuplicateLocalLastWins` | src/lib/data-sync-conflict-resolver.ts:25-30 | With two local copies of a remote id, the slot is resolved against the later local copy. |
| `ConflictResolver.BatchKeepsLocalOnlyDuplicates` | src/lib/data-sync-conflict-resolver.ts:23-33 | `processedIds` is never updated, so two local-only entries sharing an id are both appended. |
| `ConflictResolver.BatchThreeIds` | src/__tests__/conflict.test.ts:60-72 | The test's lists, with ids 1 and 2 locally and 1 and 3 remotely, give three entries. Id 1 is resolved to the newer local copy, id 3 passes through, and id 2 is appended flagged. |
| `OfflineQueue.OfflineManager.constructor` | src/lib/offline-manager.ts:5-17 | The queue is the stored `tx_queue` list when one is present, and empty otherwise. The store is unchanged and the invariant holds. |
| `OfflineQueue.OfflineManager.LoadQueue` | src/lib/offline-manager.ts:12-17 | It replaces the queue with the stored list when the key is present, and leaves the queue alone otherwise. |
| `OfflineQueue.OfflineManager.SaveQueue` | src/lib/offline-manager.ts:19-21 | It overwrites only `tx_queue` with the queue; every other key is left alone. |
| `OfflineQueue.OfflineManager.AddToQueue` | src/lib/offline-manager.ts:23-26 | The new queue is the old queue followed by the transaction, so it is one longer. The store holds the new queue before the call returns. |
| `OfflineQueue.OfflineManager.GetQueue` | src/lib/offline-manager.ts:28-30 | It returns a freshly allocated array equal to the queue; under the object invariant, when `tx_queue` is stored it holds that same list. |
| `OfflineQueue.OfflineManager.ClearQueue` | src/lib/offline-manager.ts:32-35 | The queue is empty and the store holds an empty list under `tx_queue`. |
| `OfflineQueue.OfflineManager.FetchServerData` | src/lib/offline-manager.ts:37-40 | The placeholder server call always fails with its fixed message. |
| `OfflineQueue.OfflineManager.Sync` | src/lib/offline-manager.ts:42-46 | It always fails with the server call's error. It changes neither the queue nor the store, and the method has no modifies clause. |
| `OfflineQueue.FifoOrder` | src/__tests__/data-sync.test.ts:58-68 | Enqueuing T1 then T2 on an empty store yields [T1, T2], both in the queue and in the store. |
| `OfflineQueue.SnapshotIsolation` | src/lib/offline-manager.ts:28-30 | A snapshot taken before an enqueue still shows the old queue afterwards, and a new snapshot shows the extended queue. |
| `FailureLedger.Logged` | src/lib/sync-recovery.ts:27-39 | The table gains the key `tx.id` if it was missing, and has no other new key. That key's record has the transaction's timestamp and data, the error message and a zero counter. Every other record is unchanged. |
| `FailureLedger.Bumped` | src/lib/sync-recovery.ts:67-72 | The keys are unchanged. A present record has its counter raised by exactly one and its error overwritten, and nothing else changes. An absent id changes nothing. |
| `FailureLedger.Retried` | src/lib/sync-recovery.ts:54-75 | If the lookup does not throw, exactly the row for the id is deleted and all others are unchanged. If it throws, the row is bumped with the thrown message. |
| `FailureLedger.RetriedAll` | src/lib/sync-recovery.ts:77-97 | After retrying every row once, a row remains exactly when its lookup threw, and then it is bumped with that error. |
| `FailureLedger.FetchServerTransaction` | src/lib/sync-recovery.ts:99-103 | The placeholder lookup always succeeds and finds nothing. |
| `FailureLedger.Expired` | src/lib/sync-recovery.ts:109-112 | The ids removed are exactly those whose record timestamp lies before the cutoff. |
| `FailureLedger.Cleaned` | src/lib/sync-recovery.ts:109-112 | The kept records are exactly those at or after the cutoff, unchanged. |
| `FailureLedger.SyncRecovery.constructor` | src/lib/sync-recovery.ts:9-25 | The ledger starts with the rows already stored at the database path (none for the default in-memory database), since the table is created only if it does not exist. |
| `FailureLedger.SyncRecovery.LogFailedSync` | src/lib/sync-recovery.ts:27-39 | The new table is the old table with `tx.id` upserted, as `Logged` describes. |
| `FailureLedger.SyncRecovery.GetFailedSyncs` | src/lib/sync-recovery.ts:41-52 | It returns one row per record, with as many rows as records. Each row equals its record, with the data as logged. No id appears twice, and the order is unspecified. |
| `FailureLedger.SyncRecovery.RetryFailedSync` | src/lib/sync-recovery.ts:54-75 | The table becomes `Retried(old, tx.id, lookup)`. It passes when the lookup does not throw, and fails again with the lookup's error when it does. |
| `FailureLedger.SyncRecovery.RetryAllFailedSyncs` | src/lib/sync-recovery.ts:77-97 | `successful` holds exactly the ids read whose lookup did not throw. `failed` holds exactly the ids read whose lookup threw, each paired with that error. Neither list repeats an id, together they account for every record read exactly once, and the table becomes `RetriedAll`. |
| `FailureLedger.SyncRecovery.Cleanup` | src/lib/sync-recovery.ts:105-115 | The table keeps exactly the records no older than `now - days * 86400000`, and the method returns the number of records deleted. |
| `FailureLedger.SyncRecovery.CleanupDefault` | src/lib/sync-recovery.ts:105-107 | Called without an age, cleanup uses 30 days, with the same table and count as `Cleanup(30, now)`. |
| `FailureLedger.SyncRecovery.CleanupAsWritten` | src/lib/sync-recovery.ts:109-114 | The rows older than the cutoff are deleted, and then the call fails, because the count is read from the undefined value the promisified `run` resolves to. |
| `FailureLedger.LoggedSize` | src/lib/sync-recovery.ts:29-38 | Logging adds a row only for a new id. |
| `FailureLedger.LoggedTwiceReplaces` | src/lib/sync-recovery.ts:29-38 | A second failure for the same id replaces the first. The row count is unchanged, the error is the new one, and the counter is back at 0. |
| `FailureLedger.LoggedReadsBack` | src/lib/sync-recovery.ts:41-52 | After logging, any listing has exactly one row for the id, carrying the logged timestamp, data and error and a zero counter. |
| `FailureLedger.RetriedAbsentUnchanged` | src/lib/sync-recovery.ts:69-72 | A failed retry of an id with no row leaves the table unchanged. |
| `FailureLedger.StubRetryDeletes` | src/lib/sync-recovery.ts:58-66 | With the placeholder lookup, a retry always deletes exactly that id's row, so the table shrinks by one when the row existed. |
| `FailureLedger.StubRetryAllDrains` | src/lib/sync-recovery.ts:87-97 | With the placeholder lookup, retry-all leaves the ledger empty. |
| `FailureLedger.CleanupPartition` | src/lib/sync-recovery.ts:105-115 | Every record is either deleted or kept, never both. The deleted count plus the remaining rows equals the old row count. |
| `FailureLedger.CleanupIdempotent` | src/lib/sync-recovery.ts:107-114 | For a fixed clock and age, a second cleanup deletes nothing and counts 0. |
| `FailureLedger.CleanupThirtyDays` | src/__tests__/sync-recovery.test.ts:50-66 | With one record 31 days old and one current, `cleanup(30)` deletes exactly the old one, counts 1 and keeps the current one. |
| `FailureLedger.RelogScenario` | src/lib/sync-recovery.ts:29-38 | Logging "timeout" then "refused" for one transaction leaves one row, with error "refused" and counter 0. |

## Left out

- src/lib/encryption.ts: AES-256-GCM (NIST SP 800-38D) with random keys and nonces. These are calls into Node's crypto library and randomness.
- src/config.ts and src/index.ts: environment loading and an example script with console output.
- src/lib/transaction.ts: a narrower duplicate of the transaction type; the modelled code does not import it.
- Storage plumbing. The SQLite calls and `localStorage` are in-memory map fields. JSON serialization is taken as an exact round trip. For the ledger, the `data` column reads back as the payload written. For the queue store, each value is a list of transactions. A stored value that fails to parse is not modelled.
- The un-awaited `initializeDatabase` call in the `SyncRecovery` constructor is a startup race. `close()` is not modelled.
- Storage errors during `DELETE` or `UPDATE` are not modelled. In `RetryFailedSync`, a failure can only come from the lookup.
- The success path of `OfflineManager.sync`: it passes two arrays to `resolve`, which does not type-check. Its server call always throws before that path is reached.
- A retry budget for the queue (the argument the test at src/__tests__/data-sync.test.ts:8 passes to the constructor) and per-entry retry counts: the code has neither.
- `console.warn` and `console.log` diagnostics: they are informational only.
- Floating-point numbers: money fields, timestamps and `olderThanDays` are integers. No arithmetic is done on money fields.
- Asynchrony and interleaving of concurrent calls: every operation is modelled as one atomic step.
- ConflictResolver.ManualOverride: an override cannot carry `items` or `discounts`. The source's generic deep merge combines arrays element by element. That behaviour is left out, as are prototype handling and the rest of the generic merge. Omitted fields (`None`) are skipped, as `undefined` ones are.
- FailureLedger.SyncRecovery.Cleanup: as written, `cleanup` rejects after the DELETE has committed (see "## Findings"; `CleanupAsWritten` models that). `Cleanup` is the corrected version: it returns the number of deleted rows, as the callers and src/__tests__/sync-recovery.test.ts:60-61 expect.
- Aliasing of transaction objects: `addToQueue` stores the caller's object and `getQueue` makes a shallow copy (src/lib/offline-manager.ts:24,29). So a transaction mutated through one reference changes in the queue, in earlier snapshots and in the caller alike. Transactions are values here, so the model does not capture that sharing; `GetQueue` and `SnapshotIsolation` say only that the list itself is copied.
- FailureLedger.SyncRecovery.RetryFailedSync: the copy resolved from a found server transaction is computed and then discarded, as in the source. Nothing is sent back to the server.

## Findings

| source | as written | input that shows it | evidently intended | confidence | as-written member | corrected member |
|---|---|---|---|---|---|---|
| src/lib/sync-recovery.ts:109-114 | `cleanup` reads `result.changes` from the value of `promisify(db.run)`. The sqlite3 driver imported at :3 calls back with the error alone and puts `changes` on the callback's `this`, so `result` is `undefined` and the read throws after the DELETE has committed. | any call, e.g. `cleanup(30)` with one record 31 days old, as in src/__tests__/sync-recovery.test.ts:50-66 | delete the expired rows and return how many were deleted | medium, not executed; the driver's callback convention is not part of this model | `FailureLedger.SyncRecovery.CleanupAsWritten` | `FailureLedger.SyncRecovery.Cleanup` |
