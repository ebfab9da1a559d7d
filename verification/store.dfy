/**
 The operations of the unresolvable-transaction store, each a pure function of
 the collection's contents. The wall clock is the parameter `now`; the delay
 factor is the parameter `factor`.
 */
module UnresolvableStore {
  import opened Options
  import opened Records
  import opened Backoff
  import opened Sequences
  import opened Sorting

  /** Number of records the due query returns when the caller gives no count. */
  const DefaultMaximumReturnCount: int := 100

  /** The position of the first record with key `k`: the document `find` hands
      back first, and the one `updateOne` changes. */
  function FindKey(s: Store, k: Key): (r: Option<nat>)
    ensures r.Some? ==> r.value < |s| && s[r.value].Key() == k
    ensures r.Some? ==> forall j :: 0 <= j < r.value ==> s[j].Key() != k
    ensures r.None? <==> !HasKey(s, k)
  {
    if s == [] then None
    else if s[0].Key() == k then Some(0)
    else
      match FindKey(s[1..], k)
      case None =>
        assert forall j :: 0 < j < |s| ==> s[j] == s[1..][j - 1];
        None
      case Some(i) => Some(i + 1)
  }

  /** Under the unique index, the record found is the only one with its key. */
  lemma FindKeyUnique(s: Store, k: Key, j: int)
    requires UniqueKeys(s)
    requires 0 <= j < |s| && s[j].Key() == k
    ensures FindKey(s, k) == Some(j)
  {
  }

  /** Replacing the found record by one with the same key leaves it found. */
  lemma FindKeyAfterUpdate(s: Store, k: Key, i: nat, y: Unresolvable)
    requires FindKey(s, k) == Some(i) && y.Key() == k
    ensures FindKey(s[i := y], k) == Some(i)
  {
    var t := s[i := y];
    assert t[i].Key() == k;
    assert HasKey(t, k);
    var i' := FindKey(t, k).value;
    assert forall j :: 0 <= j < i ==> t[j] == s[j];
    assert !(i' < i) && !(i < i');
  }

  /** A record appended for an absent key is found at the end. */
  lemma FindKeyAfterAppend(s: Store, k: Key, y: Unresolvable)
    requires !HasKey(s, k) && y.Key() == k
    ensures FindKey(s + [y], k) == Some(|s|)
  {
    var t := s + [y];
    assert t[|s|].Key() == k;
    assert HasKey(t, k);
    var i' := FindKey(t, k).value;
    assert forall j :: 0 <= j < |s| ==> t[j] == s[j];
    assert !(i' < |s|);
  }

  /** The record inserted on the first failed fetch of `tx`. */
  function Fresh(tx: Transaction, now: int): Unresolvable {
    Unresolvable(tx, now, 0, now)
  }

  /** The stored record after one more failure: only the counter and the next
      retry time are set; the stored transaction fields and `firstFetchTime`
      stay as they were, even when the caller's transaction differs. */
  function Retried(rec: Unresolvable, factor: int): Unresolvable {
    rec.(retryAttempts := rec.retryAttempts + 1,
         nextRetryTime := rec.firstFetchTime + Delay(rec.retryAttempts, factor))
  }

  /** Records a failed fetch of `tx`: inserts a fresh record when none has its
      key, otherwise advances the schedule of the record that has it. */
  function RecordFetchAttempt(s: Store, tx: Transaction, now: int, factor: int): (r: Store)
    ensures !HasKey(s, KeyOf(tx)) ==>
      && |r| == |s| + 1
      && r[..|s|] == s
      && r[|s|].tx == tx
      && r[|s|].retryAttempts == 0
      && r[|s|].firstFetchTime == now
      && r[|s|].nextRetryTime == now
    ensures HasKey(s, KeyOf(tx)) ==>
      var i := FindKey(s, KeyOf(tx)).value;
      && |r| == |s|
      && r[i].tx == s[i].tx
      && r[i].firstFetchTime == s[i].firstFetchTime
      && r[i].retryAttempts == s[i].retryAttempts + 1
      && r[i].nextRetryTime == s[i].firstFetchTime + Pow2(s[i].retryAttempts) * factor
      && (forall j :: 0 <= j < |s| && j != i ==> r[j] == s[j])
    ensures HasKey(r, KeyOf(tx))
  {
    match FindKey(s, KeyOf(tx))
    case None =>
      var r := s + [Fresh(tx, now)];
      assert r[|s|].Key() == KeyOf(tx);
      r
    case Some(i) =>
      var r := s[i := Retried(s[i], factor)];
      assert r[i].Key() == KeyOf(tx);
      r
  }

  /** Deletes the first record with the key of `tx`, if there is one: the
      document `deleteOne` removes. */
  function RemoveTransaction(s: Store, tx: Transaction): (r: Store)
    ensures multiset(r) <= multiset(s)
    ensures forall x: Unresolvable :: x.Key() != KeyOf(tx) ==> multiset(r)[x] == multiset(s)[x]
    ensures !HasKey(s, KeyOf(tx)) ==> r == s
    ensures HasKey(s, KeyOf(tx)) ==>
      && |r| == |s| - 1
      && multiset(s) == multiset(r) + multiset{s[FindKey(s, KeyOf(tx)).value]}
    ensures UniqueKeys(s) ==> !HasKey(r, KeyOf(tx))
  {
    match FindKey(s, KeyOf(tx))
    case None => s
    case Some(i) =>
      DeleteAtFacts(s, i);
      s[..i] + s[i + 1..]
  }

  /** Deleting position `i` takes exactly that record out; under the unique
      index no other record shares its key. */
  lemma DeleteAtFacts(s: Store, i: nat)
    requires i < |s|
    ensures |s[..i] + s[i + 1..]| == |s| - 1
    ensures multiset(s) == multiset(s[..i] + s[i + 1..]) + multiset{s[i]}
    ensures UniqueKeys(s) ==> !HasKey(s[..i] + s[i + 1..], s[i].Key())
  {
    var r := s[..i] + s[i + 1..];
    assert s == s[..i] + [s[i]] + s[i + 1..];
    if UniqueKeys(s) {
      forall j | 0 <= j < |r| ensures r[j].Key() != s[i].Key() {
        if j < i {
          assert r[j] == s[j];
        } else {
          assert r[j] == s[j + 1];
        }
      }
    }
  }

  /** Under the unique index, deleting the first record with the key deletes
      every record with it: exactly the records of other keys remain, in their
      original order. */
  lemma {:induction false} RemoveTransactionUnderIndex(s: Store, tx: Transaction)
    requires UniqueKeys(s)
    ensures RemoveTransaction(s, tx) == Filter((x: Unresolvable) => x.Key() != KeyOf(tx), s)
    ensures forall x :: x in RemoveTransaction(s, tx) <==> x in s && x.Key() != KeyOf(tx)
  {
    var k := KeyOf(tx);
    var p := (x: Unresolvable) => x.Key() != k;
    match FindKey(s, k)
    case None =>
    case Some(i) =>
      assert Filter(p, s) == s[..i] + s[i + 1..] by {
        assert forall j :: 0 <= j < |s| && j != i ==> s[j].Key() != k;
        FilterDropsOne(p, s, i);
      }
      assert RemoveTransaction(s, tx) == s[..i] + s[i + 1..];
  }

  /** Deletes every record: the collection is emptied, not dropped. */
  function Clear(s: Store): (r: Store)
    ensures |r| == 0
  {
    []
  }

  /** Deletes every record whose transaction number exceeds `bound`; with no
      bound, deletes every record. */
  function RemoveLaterThan(s: Store, bound: Option<int>): (r: Store)
    ensures bound.None? ==> r == []
    ensures bound.Some? ==> forall x :: x in r <==> x in s && x.tx.transactionNumber <= bound.value
    ensures bound.Some? ==> forall x: Unresolvable :: x.tx.transactionNumber <= bound.value ==> multiset(r)[x] == multiset(s)[x]
  {
    match bound
    case None => Clear(s)
    case Some(n) => Filter((x: Unresolvable) => x.tx.transactionNumber <= n, s)
  }

  /** The records due at `now`, in the order the collection holds them. */
  function Due(s: Store, now: int): (r: Store)
    ensures forall x :: x in r <==> x in s && x.nextRetryTime <= now
    ensures forall x :: multiset(r)[x] == if x.nextRetryTime <= now then multiset(s)[x] else 0
  {
    Filter((x: Unresolvable) => x.nextRetryTime <= now, s)
  }

  /** In a sorted sequence every element of a prefix is no greater than any
      element left out of it. */
  lemma SortedPrefixIsEarliest(o: Order, t: seq<Unresolvable>, k: nat)
    requires Sorted(o, t) && k <= |t|
    ensures forall x, y :: x in t[..k] && y in t && y !in t[..k] ==> Le(o, x, y)
  {
  }

  /** The first `limit` due records, once the due records are sorted by
      `nextRetryTime`. */
  function EarliestDue(s: Store, now: int, limit: nat): Store {
    var sorted := Sort(ByNextRetryTime, Due(s, now));
    sorted[..if limit < |sorted| then limit else |sorted|]
  }

  /** A prefix of a sorted permutation of `d`: sorted, drawn from `d`, and
      never later than what it leaves out. */
  lemma SortedPermutationPrefix(d: seq<Unresolvable>, t: seq<Unresolvable>, k: nat)
    requires Sorted(ByNextRetryTime, t) && multiset(t) == multiset(d) && k <= |t|
    ensures multiset(t[..k]) <= multiset(d)
    ensures forall x :: x in t[..k] ==> x in d
    ensures forall x, y :: x in t[..k] && y in d && y !in t[..k] ==> x.nextRetryTime <= y.nextRetryTime
    ensures k == |t| ==> forall y :: y in d ==> y in t[..k]
  {
    SortedPrefixIsEarliest(ByNextRetryTime, t, k);
    forall x | x in t ensures x in d {
      assert x in multiset(t);
    }
    forall y | y in d ensures y in t {
      assert y in multiset(d);
    }
    assert t == t[..k] + t[k..];
    assert multiset(t[..k]) <= multiset(t);
  }

  lemma EarliestDueIsSortedPrefix(s: Store, now: int, limit: nat)
    ensures var r := EarliestDue(s, now, limit);
      && |r| <= limit
      && multiset(r) <= multiset(s)
      && (forall x :: x in r ==> x in s && x.nextRetryTime <= now)
      && (forall i, j :: 0 <= i < j < |r| ==> r[i].nextRetryTime <= r[j].nextRetryTime)
      && (forall x, y :: x in r && y in s && y.nextRetryTime <= now && y !in r ==>
            x.nextRetryTime <= y.nextRetryTime)
      && (|r| < limit ==> forall y :: y in s && y.nextRetryTime <= now ==> y in r)
  {
    var due := Due(s, now);
    var sorted := Sort(ByNextRetryTime, due);
    var k := if limit < |sorted| then limit else |sorted|;
    var r := sorted[..k];
    assert r == EarliestDue(s, now, limit);
    SortedPermutationPrefix(due, sorted, k);
    assert multiset(due) <= multiset(s);
    assert Sorted(ByNextRetryTime, r);
  }

  /** The due query: at most `maximumReturnCount` (default 100) of the records
      whose `nextRetryTime` has passed, earliest first. */
  function DueForRetry(s: Store, now: int, maximumReturnCount: Option<int>): (r: Store)
    requires maximumReturnCount.Some? ==> maximumReturnCount.value > 0
    ensures |r| <= maximumReturnCount.GetOr(DefaultMaximumReturnCount)
    ensures multiset(r) <= multiset(s)
    ensures forall x :: x in r ==> x in s && x.nextRetryTime <= now
    ensures forall i, j :: 0 <= i < j < |r| ==> r[i].nextRetryTime <= r[j].nextRetryTime
    ensures forall x, y :: x in r && y in s && y.nextRetryTime <= now && y !in r ==>
              x.nextRetryTime <= y.nextRetryTime
    ensures |r| < maximumReturnCount.GetOr(DefaultMaximumReturnCount) ==>
              forall y :: y in s && y.nextRetryTime <= now ==> y in r
  {
    var limit := maximumReturnCount.GetOr(DefaultMaximumReturnCount);
    EarliestDueIsSortedPrefix(s, now, limit);
    EarliestDue(s, now, limit)
  }

  /** Every record exactly once, ascending by `(transactionTime, transactionNumber)`. */
  function ListAll(s: Store): (r: Store)
    ensures multiset(r) == multiset(s)
    ensures forall i, j :: 0 <= i < j < |r| ==> KeyLe(r[i].Key(), r[j].Key())
  {
    Sort(ByKey, s)
  }
}
