/** The pivoted tables: the interaction matrix Y (pivot_table) and the observed mask R (notna). */
module Frames {
  import opened Wrappers
  import opened Ratings

  /** A table with ISBN row keys and User-ID column keys. A cell absent from `cells` is missing.
      Row and column order (pandas sorts both) is not part of the model. */
  datatype Frame<V> = Frame(rows: set<string>, cols: set<int>, cells: map<(string, int), V>)
  {
    /** The cell in row `i`, column `j`, or None when it is missing. */
    function At(i: string, j: int): Option<V>
    {
      if (i, j) in cells then Some(cells[(i, j)]) else None
    }

    /** The number of rows and columns: `shape`. */
    function Shape(): (nat, nat)
    {
      (|rows|, |cols|)
    }
  }

  /** Every (row, column) position of a table with these keys. */
  function Grid(rows: set<string>, cols: set<int>): set<(string, int)>
  {
    set i, j | i in rows && j in cols :: (i, j)
  }

  /** A position is on the grid exactly when its row and its column are keys. */
  lemma GridAt(rows: set<string>, cols: set<int>, i: string, j: int)
    ensures (i, j) in Grid(rows, cols) <==> i in rows && j in cols
  {
  }

  /** Every present cell lies on a row and a column of the table. */
  ghost predicate WellFormed<V>(f: Frame<V>)
  {
    f.cells.Keys <= Grid(f.rows, f.cols)
  }

  /** `pivot_table(index='ISBN', columns='User-ID', values='Book-Rating')` with its default
      aggregation, the mean: group the events by (ISBN, User-ID) and divide each group's sum by
      its size. The row and column keys are those of the groups. */
  function Pivot(events: seq<Event>): Frame<real>
  {
    var agg := Aggregate(events, PairOf);
    Frame(set k | k in agg :: k.0,
          set k | k in agg :: k.1,
          map k | k in agg :: agg[k].total as real / agg[k].count as real)
  }

  /** The groups of the pivot are exactly the (ISBN, user) pairs of the events. */
  lemma {:induction false} PivotGroup(events: seq<Event>, k: (string, int))
    ensures k in Aggregate(events, PairOf) <==> exists e :: e in events && PairOf(e) == k
  {
    AggregateAt(events, PairOf, k);
    if k in Aggregate(events, PairOf) {
      MatchingMembership(events, PairOf, k, Matching(events, PairOf, k)[0]);
    }
    forall e | e in events && PairOf(e) == k ensures k in Aggregate(events, PairOf) {
      MatchingMembership(events, PairOf, k, e);
    }
  }

  /** The rows of the pivot are the distinct ISBNs of the events. */
  lemma PivotRows(events: seq<Event>)
    ensures Pivot(events).rows == Isbns(events)
  {
    var agg := Aggregate(events, PairOf);
    forall i | i in Isbns(events) ensures i in Pivot(events).rows {
      var e :| e in events && e.isbn == i;
      PivotGroup(events, PairOf(e));
    }
    forall k | k in agg ensures k.0 in Isbns(events) {
      PivotGroup(events, k);
    }
  }

  /** The columns of the pivot are the distinct users of the events. */
  lemma PivotCols(events: seq<Event>)
    ensures Pivot(events).cols == Users(events)
  {
    var agg := Aggregate(events, PairOf);
    forall j | j in Users(events) ensures j in Pivot(events).cols {
      var e :| e in events && e.user == j;
      PivotGroup(events, PairOf(e));
    }
    forall k | k in agg ensures k.1 in Users(events) {
      PivotGroup(events, k);
    }
  }

  /** Every present cell of the pivot is on one of its rows and one of its columns. */
  lemma PivotWellFormed(events: seq<Event>)
    ensures WellFormed(Pivot(events))
  {
    var y := Pivot(events);
    forall k | k in y.cells ensures k in Grid(y.rows, y.cols) {
      assert k.0 in y.rows && k.1 in y.cols;
      GridAt(y.rows, y.cols, k.0, k.1);
    }
  }

  /** A cell of the pivot is missing exactly when no event has that (ISBN, user) pair; otherwise
      it is the mean of the ratings of all events with that pair, duplicates included. */
  lemma PivotAt(events: seq<Event>, i: string, j: int)
    ensures Pivot(events).At(i, j) ==
      if Matching(events, PairOf, (i, j)) == [] then None
      else Some(MeanRating(Matching(events, PairOf, (i, j))))
  {
    AggregateAt(events, PairOf, (i, j));
  }

  /** `Y.notna().astype(int)`: the same keys as `y`, and at every position 1 where `y` has a
      value and 0 where it is missing. */
  function Mask(y: Frame<real>): Frame<int>
  {
    Frame(y.rows, y.cols, map k | k in Grid(y.rows, y.cols) :: if k in y.cells then 1 else 0)
  }

  /** The mask has the shape of `y` and a cell at every position; it is 1 exactly where `y` is
      present and 0 exactly where `y` is missing. Outside the keys both are missing. */
  lemma MaskAt(y: Frame<real>, i: string, j: int)
    requires WellFormed(y)
    ensures Mask(y).rows == y.rows && Mask(y).cols == y.cols && Mask(y).Shape() == y.Shape()
    ensures i in y.rows && j in y.cols ==> (Mask(y).At(i, j) == Some(1) <==> y.At(i, j).Some?)
    ensures i in y.rows && j in y.cols ==> (Mask(y).At(i, j) == Some(0) <==> y.At(i, j) == None)
    ensures !(i in y.rows && j in y.cols) ==> Mask(y).At(i, j) == None && y.At(i, j) == None
  {
  }
}
