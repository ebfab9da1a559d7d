/**
 The data model of the retry store: the ledger transaction it is handed, the
 identity under which a transaction is stored, and the stored record itself,
 which is the transaction plus the three retry-bookkeeping fields.
 */
module Records {

  /** A ledger transaction as the retry store receives it. All fields are copied
      into a new record on the first failure and never changed afterwards. */
  datatype Transaction = Transaction(
    transactionNumber: int,
    transactionTime: int,
    transactionTimeHash: string,
    anchorString: string,
    transactionFeePaid: int,
    normalizedTransactionFee: int,
    writer: string)

  /** The identity of a stored record: the unique index of the collection is on
      `(transactionTime, transactionNumber)`. */
  datatype Key = Key(transactionTime: int, transactionNumber: int)

  function KeyOf(t: Transaction): Key {
    Key(t.transactionTime, t.transactionNumber)
  }

  /** Lexicographic order on keys: time first, then number. */
  predicate KeyLe(a: Key, b: Key) {
    a.transactionTime < b.transactionTime
    || (a.transactionTime == b.transactionTime && a.transactionNumber <= b.transactionNumber)
  }

  /** A transaction whose content could not be fetched yet. Times are
      milliseconds of the wall clock; `retryAttempts` counts repeat failures. */
  datatype Unresolvable = Unresolvable(
    tx: Transaction,
    firstFetchTime: int,
    retryAttempts: nat,
    nextRetryTime: int)
  {
    function Key(): Key {
      KeyOf(tx)
    }
  }

  /** The collection, in the order the store happens to hold its documents. */
  type Store = seq<Unresolvable>

  /** The unique index: no two records share a key. */
  ghost predicate UniqueKeys(s: Store) {
    forall i, j :: 0 <= i < |s| && 0 <= j < |s| && s[i].Key() == s[j].Key() ==> i == j
  }

  predicate HasKey(s: Store, k: Key) {
    exists i :: 0 <= i < |s| && s[i].Key() == k
  }
}
