/** Rating events and the group-by aggregation over them (groupby().count() and the mean of pivot_table). */
module Ratings {
  import opened Seqs

  /** One row of the ratings table: User-ID, ISBN, Book-Rating. */
  datatype Event = Event(user: int, isbn: string, rating: int)

  /** The grouping keys the pipeline uses. */
  function UserOf(e: Event): int { e.user }
  function IsbnOf(e: Event): string { e.isbn }
  /** The pivot key: ISBN is the row index, User-ID the column. */
  function PairOf(e: Event): (string, int) { (e.isbn, e.user) }

  /** Reference definition: the events whose key is `k`, in their original order. */
  function Matching<K(==)>(events: seq<Event>, key: Event -> K, k: K): seq<Event>
  {
    Filter(events, e => key(e) == k)
  }

  /** An event is among those with key `k` exactly when it is one of `events` and carries `k`. */
  lemma MatchingMembership<K>(events: seq<Event>, key: Event -> K, k: K, e: Event)
    ensures e in Matching(events, key, k) <==> e in events && key(e) == k
  {
    FilterMembership(events, e => key(e) == k, e);
  }

  /** The distinct ISBNs and the distinct users occurring in `events`. */
  function Isbns(events: seq<Event>): set<string> { set e | e in events :: e.isbn }
  function Users(events: seq<Event>): set<int> { set e | e in events :: e.user }

  /** The sum of the ratings carried by `events`. */
  function RatingSum(events: seq<Event>): int
  {
    if events == [] then 0 else events[0].rating + RatingSum(events[1..])
  }

  /** The arithmetic mean of the ratings carried by a non-empty `events`. */
  function MeanRating(events: seq<Event>): real
    requires events != []
  {
    RatingSum(events) as real / |events| as real
  }

  /** What a group-by keeps per group: the sum and the number of its ratings. */
  datatype Acc = Acc(total: int, count: nat)

  /** One pass over the events, accumulating the sum and the count of the ratings under each key. */
  function Aggregate<K(==)>(events: seq<Event>, key: Event -> K): (m: map<K, Acc>)
    ensures forall k :: k in m ==> m[k].count > 0
  {
    if events == [] then map[]
    else
      var rest := Aggregate(events[1..], key);
      var k := key(events[0]);
      var a := if k in rest then rest[k] else Acc(0, 0);
      rest[k := Acc(a.total + events[0].rating, a.count + 1)]
  }

  /** A key is a group exactly when some event carries it, and its group holds the sum and
      the number of exactly those events. */
  lemma {:induction false} AggregateAt<K>(events: seq<Event>, key: Event -> K, k: K)
    ensures k in Aggregate(events, key) <==> Matching(events, key, k) != []
    ensures k in Aggregate(events, key) ==>
      Aggregate(events, key)[k] == Acc(RatingSum(Matching(events, key, k)), |Matching(events, key, k)|)
  {
    if events != [] {
      AggregateAt(events[1..], key, k);
      var m := Matching(events, key, k);
      if key(events[0]) == k {
        assert m == [events[0]] + Matching(events[1..], key, k);
        assert m[1..] == Matching(events[1..], key, k);
      } else {
        assert m == Matching(events[1..], key, k);
      }
    }
  }

  /** The per-key event count, `groupby(key)['Book-Rating'].count()`. */
  function Counts<K(==)>(events: seq<Event>, key: Event -> K): map<K, nat>
  {
    var agg := Aggregate(events, key);
    map k | k in agg :: agg[k].count
  }

  /** A key is counted exactly when some event carries it, and its count is the number of those events. */
  lemma CountsAt<K>(events: seq<Event>, key: Event -> K, k: K)
    ensures k in Counts(events, key) <==> Matching(events, key, k) != []
    ensures k in Counts(events, key) ==> Counts(events, key)[k] == |Matching(events, key, k)|
  {
    AggregateAt(events, key, k);
  }

  /** The keys whose count reaches `min`: `counts[counts >= min].index`. */
  function Retained<K>(counts: map<K, nat>, min: nat): set<K>
  {
    set k | k in counts && counts[k] >= min
  }
}
