# Unresolvable-transaction retry store

A Dafny model of the MongoDB-backed store that a Sidetree node uses to remember
ledger transactions whose anchored content could not yet be fetched. It
schedules them for retry with exponential backoff and prunes them when the
ledger rolls back. The collection is a sequence of records in the order the
collection holds its documents. Every operation is a pure function of that
sequence, the wall clock `now` and the delay factor. The unique index on
`(transactionTime, transactionNumber)` becomes an invariant that every
operation is proved to keep.

Modules, leaves first:

- `Options`: optional values, for TypeScript parameters that may be `undefined`.
- `Records`: the transaction, its key, the stored record, and key uniqueness.
- `Backoff`: the schedule. The default factor is 60000 ms. The exponent is the
  counter before the increment, so a record whose counter is k is due
  `Gap(k) = 2^(k-1) * factor` after its first failure. A fresh record (k = 0)
  is due at once.
- `Sequences`: order-preserving selection, the shape of every `deleteMany`
  and `find` filter.
- `Sorting`: the two sort orders the store uses. One is ascending
  `nextRetryTime`; the other is ascending `(transactionTime, transactionNumber)`.
- `UnresolvableStore`: the store's operations.
- `StoreProperties`: lemmas relating the operations to each other and to the
  two invariants. One invariant is unique keys. The other is the schedule:
  `nextRetryTime == firstFetchTime + Gap(retryAttempts)`.
- `StoreObject`: the store object as a state machine, with its constructor,
  one `Apply` step over all six operations, invariant preservation, and the
  behaviour of n repeated failures.

Points of the code that shape the model:

- The exponent is the counter before the increment (line 114), and a new
  record gets `nextRetryTime == firstFetchTime` (lines 100-102). So the gaps
  at counters 0, 1, 2 and 3 are 0, 60000, 120000 and 240000 ms
  (`Backoff.DefaultGaps`).
- The due query is declared to return `TransactionModel[]` (line 148) but
  returns the stored documents unchanged (line 163), and so does the model.
- Removal uses `deleteOne` (line 140), which deletes only the first document
  with the key. The model deletes the first matching record. Under the unique
  index this is the same as deleting every record with the key
  (`UnresolvableStore.RemoveTransactionUnderIndex`).

## Model

| member | source | states |
|---|---|---|
| Backoff.GapMonotone | packages/db/src/MongoDbUnresolvableTransactionStore.ts:113-123 | with a non-negative factor, the gap between first failure and next retry never shrinks as the counter grows |
| Backoff.GapDoubles | packages/db/src/MongoDbUnresolvableTransactionStore.ts:113-115 | each repeat failure after the first doubles the gap |
| Backoff.DefaultGaps | packages/db/src/MongoDbUnresolvableTransactionStore.ts:20 | with the default factor the gaps at counters 0, 1, 2, 3 are 0, 60000, 120000, 240000 ms |
| Sorting.Sort | packages/db/src/MongoDbUnresolvableTransactionStore.ts:159 | the result is a permutation of the input, sorted by the chosen order |
| UnresolvableStore.FindKey | packages/db/src/MongoDbUnresolvableTransactionStore.ts:77-87 | finds the first record with the key, or reports that no record has it |
| UnresolvableStore.FindKeyUnique | packages/db/src/MongoDbUnresolvableTransactionStore.ts:223-226 | under the unique index the record found is the only one with that key |
| UnresolvableStore.RecordFetchAttempt | packages/db/src/MongoDbUnresolvableTransactionStore.ts:71-133 | without a record for the key, appends one copying the transaction, with counter 0 and first-fetch and next-retry times both now; with one, only that record changes: counter +1 and next retry at first fetch + 2^(old counter) * factor; stored transaction fields and first fetch time stay |
| UnresolvableStore.RemoveTransaction | packages/db/src/MongoDbUnresolvableTransactionStore.ts:135-144 | deletes the first record with the key: a present key loses exactly that one record, every record with another key stays with its multiplicity, an absent key leaves the collection unchanged, and under the unique index no record with the key remains |
| UnresolvableStore.RemoveTransactionUnderIndex | packages/db/src/MongoDbUnresolvableTransactionStore.ts:140-143 | under the unique index, deleting the first record with the key equals keeping exactly the records of other keys, in their original order |
| UnresolvableStore.Clear | packages/db/src/MongoDbUnresolvableTransactionStore.ts:64-69 | the collection is left empty |
| UnresolvableStore.RemoveLaterThan | packages/db/src/MongoDbUnresolvableTransactionStore.ts:166-178 | with a bound, keeps exactly the records whose transaction number is at most the bound, each with its multiplicity; without one, leaves the collection empty |
| UnresolvableStore.Due | packages/db/src/MongoDbUnresolvableTransactionStore.ts:156-158 | selects exactly the records whose next retry time is at most now |
| UnresolvableStore.EarliestDueIsSortedPrefix | packages/db/src/MongoDbUnresolvableTransactionStore.ts:155-161 | the first limit due records in next-retry order are bounded, drawn from the collection, due, sorted, no later than any due record left out, and all due records when fewer than limit are returned |
| UnresolvableStore.DueForRetry | packages/db/src/MongoDbUnresolvableTransactionStore.ts:146-164 | returns at most the given count (default 100) of due records, sorted by next retry time, no later than any due record it omits, and every due record when it returns fewer than the count |
| UnresolvableStore.ListAll | packages/db/src/MongoDbUnresolvableTransactionStore.ts:184-191 | every record exactly once, ascending by (transactionTime, transactionNumber) |
| StoreProperties.SubCollectionUniqueKeys | packages/db/src/MongoDbUnresolvableTransactionStore.ts:223-226 | any sub-multiset of a collection with unique keys has unique keys, so deletions and query results keep the index |
| StoreProperties.RecordPreservesUniqueKeys | packages/db/src/MongoDbUnresolvableTransactionStore.ts:77-107 | recording a failure never creates a second record for a key |
| StoreProperties.RecordPreservesSchedule | packages/db/src/MongoDbUnresolvableTransactionStore.ts:99-123 | recording a failure keeps every record due Gap(counter) after its first failure, whatever its previous next retry time was |
| StoreProperties.ScheduleIgnoresPreviousRetryTime | packages/db/src/MongoDbUnresolvableTransactionStore.ts:113-123 | the next retry time a repeat failure sets is the same whatever the record's previous next retry time was |
| StoreProperties.RemoveAfterRecord | packages/db/src/MongoDbUnresolvableTransactionStore.ts:135-144 | deleting a key after recording a failure for it gives the same collection as deleting it before |
| StoreProperties.RecordThenRemoveIsIdentity | packages/db/src/MongoDbUnresolvableTransactionStore.ts:90-107 | a first failure followed by its resolution restores the collection |
| StoreProperties.PruneTwice | packages/db/src/MongoDbUnresolvableTransactionStore.ts:175-177 | pruning at n then at m equals pruning once at min(n, m) |
| StoreProperties.KeySortedPermutationsEqual | packages/db/src/MongoDbUnresolvableTransactionStore.ts:187-189 | two key-sorted arrangements of the same records with unique keys are identical |
| StoreProperties.ListingIsCanonical | packages/db/src/MongoDbUnresolvableTransactionStore.ts:184-191 | the listing depends only on which records are stored, not on their storage order |
| StoreProperties.ListingStrictlyAscending | packages/db/src/MongoDbUnresolvableTransactionStore.ts:187-189 | under the unique index the listing is strictly ascending by key |
| StoreObject.New | packages/db/src/MongoDbUnresolvableTransactionStore.ts:32-40 | a new store has the given delay factor, or 60000 ms when none is given, and satisfies both invariants |
| StoreObject.Apply | packages/db/src/MongoDbUnresolvableTransactionStore.ts:64-191 | queries leave the store unchanged; mutating operations return nothing; deleting a present key removes one record, and under the unique index leaves the key absent; after a failure it is present; clearing and unbounded pruning empty the store; bounded pruning leaves no later transaction number |
| StoreObject.ApplyPreservesValid | packages/db/src/MongoDbUnresolvableTransactionStore.ts:223-226 | every operation keeps unique keys and the backoff schedule, and query results have unique keys |
| StoreProperties.FirstFailureFound | packages/db/src/MongoDbUnresolvableTransactionStore.ts:90-107 | a first failure's record is the one later lookups of its key find |
| StoreProperties.RepeatFailureAdvances | packages/db/src/MongoDbUnresolvableTransactionStore.ts:108-131 | a repeat failure keeps the record in place and advances its counter and schedule by one step |
| StoreObject.RepeatedFailures | packages/db/src/MongoDbUnresolvableTransactionStore.ts:75-131 | after n failures of a transaction with no record, one record holds its key, with the transaction, the first failure time, counter n - 1 and next retry at first failure + Gap(n - 1); all other records are untouched |

## Left out

- MongoDB plumbing is not modelled: `initialize`, `stop`, the connection and
  `createUnresolvableTransactionCollectionIfNotExist`. Only its unique index
  is kept, as the `UniqueKeys` invariant. The secondary index on
  `nextRetryTime` only affects speed.
- Logging and `Long.fromNumber` are left out. They do not change which
  records match a filter.
- The clock: `Date.now()` is the parameter `now`. The two readings at
  lines 100 and 102 are one value.
- Concurrency is left out. The operations run one at a time, so the race
  between `find` and `insertOne` and the duplicate-key error the index would
  raise do not arise.
- Floating point is left out. `Math.pow` and JavaScript numbers become
  unbounded integers. The counter is a natural number and the factor an integer.
- `limit(0)` and negative counts in the due query are left out. The driver
  reads them as "no limit" or "single batch", so the model requires a
  positive count.
- Tie order in the due query is left out. The driver may return records with
  equal `nextRetryTime` in any order. The model sorts stably, but the
  contract does not promise any tie order.
- Pre-existing collections are not modelled. A store object connecting to a
  collection written earlier, perhaps with another delay factor, is out of
  scope: `StoreObject.New` starts from an empty collection, and the schedule
  invariant assumes one factor.
- The ledger adapter (`packages/ledger-ms-sqldb/src/AzureSqlDbLedger.ts`) is
  not part of this model. It is a stub: `read` returns nothing,
  `getLatestTime` returns time 0, and `getFirstValidTransaction` returns
  undefined.
- The blob-storage CAS wrapper, the DID-method provider, the dashboard routing
  and the test helpers are not part of this model. They are wiring over
  foreign libraries.
