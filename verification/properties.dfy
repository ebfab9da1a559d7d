/**
 Properties that relate the store's operations to one another and to the two
 invariants every collection the store writes keeps: the unique index on
 `(transactionTime, transactionNumber)`, and the backoff schedule.
 */
module StoreProperties {
  import opened Options
  import opened Records
  import opened Backoff
  import opened Sequences
  import opened Sorting
  import opened UnresolvableStore

  /** Every record's next retry time is its first fetch time plus the gap its
      counter calls for: the schedule depends on nothing else. */
  ghost predicate Scheduled(s: Store, factor: int) {
    forall x :: x in s ==> x.nextRetryTime == x.firstFetchTime + Gap(x.retryAttempts, factor)
  }

  lemma {:induction false} UniqueKeysAtMostOnce(s: Store, x: Unresolvable)
    requires UniqueKeys(s)
    ensures multiset(s)[x] <= 1
  {
    if s != [] {
      assert s == [s[0]] + s[1..];
      assert UniqueKeys(s[1..]) by {
        forall i, j | 0 <= i < |s[1..]| && 0 <= j < |s[1..]| && s[1..][i].Key() == s[1..][j].Key()
          ensures i == j
        {
          assert s[1..][i] == s[i + 1] && s[1..][j] == s[j + 1];
        }
      }
      UniqueKeysAtMostOnce(s[1..], x);
    }
  }

  /** Any sub-multiset of a collection with unique keys has unique keys: the
      result of every deletion, sort or query. */
  lemma SubCollectionUniqueKeys(s: Store, r: Store)
    requires UniqueKeys(s) && multiset(r) <= multiset(s)
    ensures UniqueKeys(r)
  {
    forall i, j | 0 <= i < |r| && 0 <= j < |r| && r[i].Key() == r[j].Key() ensures i == j {
      assert r[i] in multiset(r) && r[j] in multiset(r);
      var p :| 0 <= p < |s| && s[p] == r[i];
      var q :| 0 <= q < |s| && s[q] == r[j];
      if i != j {
        UniqueKeysAtMostOnce(s, r[i]);
        if i < j { TwoPositions(r, i, j); } else { TwoPositions(r, j, i); }
      }
    }
  }

  /** Recording a failure never creates a second record with the same key. */
  lemma RecordPreservesUniqueKeys(s: Store, tx: Transaction, now: int, factor: int)
    requires UniqueKeys(s)
    ensures UniqueKeys(RecordFetchAttempt(s, tx, now, factor))
  {
  }

  /** Recording a failure keeps the schedule: a new record is due at once, and
      an advanced one is due `Gap(counter)` after its first failure. */
  lemma RecordPreservesSchedule(s: Store, tx: Transaction, now: int, factor: int)
    requires Scheduled(s, factor)
    ensures Scheduled(RecordFetchAttempt(s, tx, now, factor), factor)
  {
  }

  /** The next retry time a repeat failure sets does not depend on the
      record's previous next retry time. */
  lemma ScheduleIgnoresPreviousRetryTime(s: Store, tx: Transaction, now: int, factor: int, t: int)
    requires HasKey(s, KeyOf(tx))
    ensures var i := FindKey(s, KeyOf(tx)).value;
      RecordFetchAttempt(s[i := s[i].(nextRetryTime := t)], tx, now, factor)
        == RecordFetchAttempt(s, tx, now, factor)
  {
    var k := KeyOf(tx);
    var i := FindKey(s, k).value;
    var s' := s[i := s[i].(nextRetryTime := t)];
    assert s'[i].Key() == k;
    assert forall j :: 0 <= j < i ==> s'[j] == s[j];
    assert FindKey(s', k) == Some(i);
    assert Retried(s'[i], factor) == Retried(s[i], factor);
    assert s'[i := Retried(s[i], factor)] == s[i := Retried(s[i], factor)];
  }

  /** A first failure puts the new record at the end of the collection. */
  lemma FirstFailureFound(s: Store, tx: Transaction, now: int, factor: int)
    requires !HasKey(s, KeyOf(tx))
    ensures FindKey(RecordFetchAttempt(s, tx, now, factor), KeyOf(tx)) == Some(|s|)
  {
    FindKeyAfterAppend(s, KeyOf(tx), Fresh(tx, now));
  }

  /** A repeat failure leaves the record where it was and advances its counter
      and its schedule by one step. */
  lemma RepeatFailureAdvances(s: Store, tx: Transaction, now: int, factor: int)
    requires HasKey(s, KeyOf(tx))
    ensures var i := FindKey(s, KeyOf(tx)).value;
      var r := RecordFetchAttempt(s, tx, now, factor);
      && FindKey(r, KeyOf(tx)) == Some(i)
      && r[i].tx == s[i].tx
      && r[i].firstFetchTime == s[i].firstFetchTime
      && r[i].retryAttempts == s[i].retryAttempts + 1
      && r[i].nextRetryTime == s[i].firstFetchTime + Gap(r[i].retryAttempts, factor)
  {
    var i := FindKey(s, KeyOf(tx)).value;
    var rec := Retried(s[i], factor);
    assert RecordFetchAttempt(s, tx, now, factor) == s[i := rec];
    FindKeyAfterUpdate(s, KeyOf(tx), i, rec);
  }

  /** Deleting the position just updated gives what deleting it before gave. */
  lemma DeleteUpdated(s: Store, i: nat, y: Unresolvable)
    requires i < |s|
    ensures s[i := y][..i] + s[i := y][i + 1..] == s[..i] + s[i + 1..]
  {
    assert s[i := y][..i] == s[..i];
    assert s[i := y][i + 1..] == s[i + 1..];
  }

  /** Resolving a transaction erases every trace of its failures: deleting its
      key after recording a failure is the same as deleting it before. */
  lemma RemoveAfterRecord(s: Store, tx: Transaction, now: int, factor: int)
    ensures RemoveTransaction(RecordFetchAttempt(s, tx, now, factor), tx) == RemoveTransaction(s, tx)
  {
    var k := KeyOf(tx);
    match FindKey(s, k)
    case Some(i) =>
      var y := Retried(s[i], factor);
      assert RecordFetchAttempt(s, tx, now, factor) == s[i := y];
      FindKeyAfterUpdate(s, k, i, y);
      DeleteUpdated(s, i, y);
    case None =>
      var y := Fresh(tx, now);
      assert RecordFetchAttempt(s, tx, now, factor) == s + [y];
      FindKeyAfterAppend(s, k, y);
      assert (s + [y])[..|s|] + (s + [y])[|s| + 1..] == s;
  }

  /** A first failure followed by its resolution leaves the collection as it
      was before the failure. */
  lemma RecordThenRemoveIsIdentity(s: Store, tx: Transaction, now: int, factor: int)
    requires !HasKey(s, KeyOf(tx))
    ensures RemoveTransaction(RecordFetchAttempt(s, tx, now, factor), tx) == s
  {
    RemoveAfterRecord(s, tx, now, factor);
  }

  /** Pruning at `n` and then at `m` is pruning once at the smaller bound; in
      particular pruning twice at the same bound changes nothing more. */
  lemma {:induction false} PruneTwice(s: Store, n: int, m: int)
    ensures RemoveLaterThan(RemoveLaterThan(s, Some(n)), Some(m))
         == RemoveLaterThan(s, Some(if n < m then n else m))
  {
    if s != [] {
      PruneTwice(s[1..], n, m);
      var once := RemoveLaterThan(s[1..], Some(n));
      if s[0].tx.transactionNumber <= n {
        assert RemoveLaterThan(s, Some(n)) == [s[0]] + once;
        assert ([s[0]] + once)[1..] == once;
      }
    }
  }

  /** Two key-sorted collections holding the same non-empty set of records
      with unique keys start with the same record. */
  lemma KeySortedHeadsEqual(a: Store, b: Store)
    requires Sorted(ByKey, a) && Sorted(ByKey, b)
    requires multiset(a) == multiset(b) && UniqueKeys(a) && a != []
    ensures b != [] && a[0] == b[0]
  {
    assert |b| == |multiset(b)| == |multiset(a)| > 0;
    assert a[0] in multiset(b) && b[0] in multiset(a);
    var j :| 0 <= j < |b| && b[j] == a[0];
    var p :| 0 <= p < |a| && a[p] == b[0];
    assert KeyLe(b[0].Key(), a[0].Key()) by {
      if j > 0 { assert Le(ByKey, b[0], b[j]); }
    }
    assert p == 0;
  }

  /** Two key-sorted collections holding the same records with unique keys are
      the same sequence. */
  lemma {:induction false} KeySortedPermutationsEqual(a: Store, b: Store)
    requires Sorted(ByKey, a) && Sorted(ByKey, b)
    requires multiset(a) == multiset(b) && UniqueKeys(a)
    ensures a == b
  {
    if a == [] {
      assert |b| == |multiset(b)| == 0;
    } else {
      KeySortedHeadsEqual(a, b);
      SameHeadTails(a, b);
      SortedTail(ByKey, a);
      SortedTail(ByKey, b);
      SubCollectionUniqueKeys(a, a[1..]);
      KeySortedPermutationsEqual(a[1..], b[1..]);
      assert a == [a[0]] + a[1..] && b == [b[0]] + b[1..];
    }
  }

  lemma SameHeadTails(a: Store, b: Store)
    requires a != [] && b != [] && a[0] == b[0] && multiset(a) == multiset(b)
    ensures multiset(a[1..]) == multiset(b[1..])
  {
    assert a == [a[0]] + a[1..] && b == [b[0]] + b[1..];
    assert multiset(a[1..]) == multiset(a) - multiset{a[0]};
    assert multiset(b[1..]) == multiset(b) - multiset{b[0]};
  }

  lemma SortedTail(o: Order, a: Store)
    requires a != [] && Sorted(o, a)
    ensures Sorted(o, a[1..]) && multiset(a[1..]) <= multiset(a)
  {
    assert a == [a[0]] + a[1..];
  }

  /** The listing depends only on which records are stored, not on the order
      in which the collection happens to hold them. */
  lemma ListingIsCanonical(s: Store, t: Store)
    requires UniqueKeys(s) && multiset(s) == multiset(t)
    ensures ListAll(s) == ListAll(t)
  {
    SubCollectionUniqueKeys(s, ListAll(s));
    KeySortedPermutationsEqual(ListAll(s), ListAll(t));
  }

  /** Under the unique index the listing is strictly ascending by key. */
  lemma ListingStrictlyAscending(s: Store)
    requires UniqueKeys(s)
    ensures forall i, j :: 0 <= i < j < |ListAll(s)| ==>
      KeyLe(ListAll(s)[i].Key(), ListAll(s)[j].Key()) && ListAll(s)[i].Key() != ListAll(s)[j].Key()
  {
    SubCollectionUniqueKeys(s, ListAll(s));
  }
}
