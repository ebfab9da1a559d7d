/**
 The store object as a state machine: its delay factor, fixed at construction,
 and the contents of its collection. Every public operation is one step that
 takes the clock reading `now` and yields the next state and its result.
 */
module StoreObject {
  import opened Options
  import opened Records
  import opened Backoff
  import opened StoreProperties
  import Ops = UnresolvableStore

  datatype State = State(delayFactor: int, records: Store)

  /** A new store over an empty collection; the delay factor is 60000
      milliseconds unless the constructor is given one. */
  function New(retryExponentialDelayFactor: Option<int>): (st: State)
    ensures st.records == []
    ensures retryExponentialDelayFactor.None? ==> st.delayFactor == 60000
    ensures retryExponentialDelayFactor.Some? ==> st.delayFactor == retryExponentialDelayFactor.value
    ensures Valid(st)
  {
    State(retryExponentialDelayFactor.GetOr(DefaultDelayFactor), [])
  }

  /** The invariants of a collection written by one store object. */
  ghost predicate Valid(st: State) {
    UniqueKeys(st.records) && Scheduled(st.records, st.delayFactor)
  }

  datatype Op =
    | RecordFetchAttempt(tx: Transaction)
    | RemoveTransaction(tx: Transaction)
    | DueForRetry(maximumReturnCount: Option<int>)
    | RemoveLaterThan(bound: Option<int>)
    | ClearCollection
    | ListAll

  datatype Output = Done | Records(records: Store)

  /** The due query needs a positive count when it is given one. */
  predicate Allowed(op: Op) {
    op.DueForRetry? && op.maximumReturnCount.Some? ==> op.maximumReturnCount.value > 0
  }

  predicate IsQuery(op: Op) {
    op.DueForRetry? || op.ListAll?
  }

  /** One operation on the store at wall-clock time `now`. */
  function Apply(st: State, op: Op, now: int): (r: (State, Output))
    requires Allowed(op)
    ensures r.0.delayFactor == st.delayFactor
    ensures IsQuery(op) ==> r.0 == st && r.1.Records?
    ensures !IsQuery(op) ==> r.1 == Done
    ensures op.RemoveTransaction? && HasKey(st.records, KeyOf(op.tx)) ==>
      |r.0.records| == |st.records| - 1
    ensures op.RemoveTransaction? && UniqueKeys(st.records) ==> !HasKey(r.0.records, KeyOf(op.tx))
    ensures op.RecordFetchAttempt? ==> HasKey(r.0.records, KeyOf(op.tx))
    ensures op.ClearCollection? || op == RemoveLaterThan(None) ==> r.0.records == []
    ensures op.RemoveLaterThan? && op.bound.Some? ==>
      forall x :: x in r.0.records ==> x.tx.transactionNumber <= op.bound.value
  {
    match op
    case RecordFetchAttempt(tx) =>
      (st.(records := Ops.RecordFetchAttempt(st.records, tx, now, st.delayFactor)), Done)
    case RemoveTransaction(tx) =>
      (st.(records := Ops.RemoveTransaction(st.records, tx)), Done)
    case DueForRetry(count) =>
      (st, Records(Ops.DueForRetry(st.records, now, count)))
    case RemoveLaterThan(bound) =>
      (st.(records := Ops.RemoveLaterThan(st.records, bound)), Done)
    case ClearCollection =>
      (st.(records := Ops.Clear(st.records)), Done)
    case ListAll =>
      (st, Records(Ops.ListAll(st.records)))
  }

  /** Deleting records keeps both invariants. */
  lemma SubCollectionValid(st: State, r: Store)
    requires Valid(st) && multiset(r) <= multiset(st.records)
    ensures Valid(st.(records := r))
  {
    SubCollectionUniqueKeys(st.records, r);
    forall x | x in r ensures x in st.records {
      assert x in multiset(r);
    }
  }

  /** Every operation keeps the unique index and the backoff schedule, and
      every record a query returns has a key of its own. */
  lemma ApplyPreservesValid(st: State, op: Op, now: int)
    requires Valid(st) && Allowed(op)
    ensures Valid(Apply(st, op, now).0)
    ensures Apply(st, op, now).1.Records? ==> UniqueKeys(Apply(st, op, now).1.records)
  {
    var r := Apply(st, op, now);
    match op
    case RecordFetchAttempt(tx) =>
      RecordPreservesUniqueKeys(st.records, tx, now, st.delayFactor);
      RecordPreservesSchedule(st.records, tx, now, st.delayFactor);
    case RemoveTransaction(tx) =>
      SubCollectionValid(st, r.0.records);
    case DueForRetry(count) =>
      SubCollectionUniqueKeys(st.records, r.1.records);
    case RemoveLaterThan(bound) =>
      SubCollectionValid(st, r.0.records);
    case ClearCollection =>
    case ListAll =>
      SubCollectionUniqueKeys(st.records, r.1.records);
  }

  /** The collection after recording one failure of `tx` at each time in `nows`. */
  function RecordRepeatedly(s: Store, tx: Transaction, nows: seq<int>, factor: int): Store
    decreases |nows|
  {
    if nows == [] then s
    else Ops.RecordFetchAttempt(RecordRepeatedly(s, tx, nows[..|nows| - 1], factor), tx, nows[|nows| - 1], factor)
  }

  /** After n failures of a transaction that had no record, exactly one record
      holds its key: it carries the transaction, the time of the first failure,
      the counter n - 1, and the retry time the schedule gives that counter;
      every other record is as it was. */
  lemma {:induction false} RepeatedFailures(s: Store, tx: Transaction, nows: seq<int>, factor: int)
    requires !HasKey(s, KeyOf(tx)) && |nows| >= 1
    ensures var r := RecordRepeatedly(s, tx, nows, factor);
      && Ops.FindKey(r, KeyOf(tx)).Some?
      && var rec := r[Ops.FindKey(r, KeyOf(tx)).value];
      && rec.tx == tx
      && rec.firstFetchTime == nows[0]
      && rec.retryAttempts == |nows| - 1
      && rec.nextRetryTime == nows[0] + Gap(|nows| - 1, factor)
      && Ops.RemoveTransaction(r, tx) == s
      && (UniqueKeys(s) ==> UniqueKeys(r))
  {
    var n := |nows|;
    var prev := RecordRepeatedly(s, tx, nows[..n - 1], factor);
    assert RecordRepeatedly(s, tx, nows, factor) == Ops.RecordFetchAttempt(prev, tx, nows[n - 1], factor);
    if n == 1 {
      assert prev == s;
      FirstFailureFound(s, tx, nows[0], factor);
      RecordThenRemoveIsIdentity(s, tx, nows[0], factor);
      if UniqueKeys(s) {
        RecordPreservesUniqueKeys(s, tx, nows[0], factor);
      }
    } else {
      RepeatedFailures(s, tx, nows[..n - 1], factor);
      assert nows[..n - 1][0] == nows[0];
      RepeatFailureAdvances(prev, tx, nows[n - 1], factor);
      RemoveAfterRecord(prev, tx, nows[n - 1], factor);
      if UniqueKeys(s) {
        RecordPreservesUniqueKeys(prev, tx, nows[n - 1], factor);
      }
    }
  }
}
