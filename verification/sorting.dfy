/**
 The two orders in which the store hands records back: ascending
 `nextRetryTime` for the due query, and ascending `(transactionTime,
 transactionNumber)` for the listing. Both sorts are the same insertion sort.
 */
module Sorting {
  import opened Records

  datatype Order = ByNextRetryTime | ByKey

  predicate Le(o: Order, a: Unresolvable, b: Unresolvable) {
    match o
    case ByNextRetryTime => a.nextRetryTime <= b.nextRetryTime
    case ByKey => KeyLe(a.Key(), b.Key())
  }

  ghost predicate Sorted(o: Order, s: seq<Unresolvable>) {
    forall i, j :: 0 <= i < j < |s| ==> Le(o, s[i], s[j])
  }

  /** Both orders are total and transitive. */
  lemma LeTotalPreorder(o: Order, a: Unresolvable, b: Unresolvable, c: Unresolvable)
    ensures Le(o, a, b) || Le(o, b, a)
    ensures Le(o, a, b) && Le(o, b, c) ==> Le(o, a, c)
  {
  }

  /** Inserts `x` into the sorted `s` before the first element that `x` is
      not greater than. */
  function Insert(o: Order, x: Unresolvable, s: seq<Unresolvable>): (r: seq<Unresolvable>)
    requires Sorted(o, s)
    ensures Sorted(o, r)
    ensures multiset(r) == multiset(s) + multiset{x}
  {
    if s == [] then [x]
    else if Le(o, x, s[0]) then
      assert forall j :: 0 < j < |s| ==> Le(o, s[0], s[j]);
      forall j | 0 < j < |s| ensures Le(o, x, s[j]) {
        LeTotalPreorder(o, x, s[0], s[j]);
      }
      [x] + s
    else
      var rest := Insert(o, x, s[1..]);
      assert s == [s[0]] + s[1..];
      forall y | y in rest ensures Le(o, s[0], y) {
        assert y in multiset(rest);
        LeTotalPreorder(o, x, s[0], y);
      }
      [s[0]] + rest
  }

  /** A permutation of `s` that is sorted by `o`. */
  function Sort(o: Order, s: seq<Unresolvable>): (r: seq<Unresolvable>)
    ensures Sorted(o, r)
    ensures multiset(r) == multiset(s)
  {
    if s == [] then []
    else
      assert s == [s[0]] + s[1..];
      Insert(o, s[0], Sort(o, s[1..]))
  }
}
