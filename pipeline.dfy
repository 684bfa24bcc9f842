/** The filter-and-pivot pipeline shared by both versions of `prepared_data`: count the events per
    user and per ISBN, keep the active ones, keep the events of active users on active books,
    pivot them into Y and derive the mask R. */
module Pipeline {
  import opened Wrappers
  import opened Seqs
  import opened Ratings
  import opened Frames

  /** A user is kept with at least this many rating events. */
  const MinUserRatings: nat := 100
  /** A book is kept with at least this many rating events. */
  const MinBookRatings: nat := 20

  /** `ratings.groupby('User-ID')['Book-Rating'].count()` */
  function UserCounts(ratings: seq<Event>): map<int, nat> { Counts(ratings, UserOf) }
  /** `ratings.groupby('ISBN')['Book-Rating'].count()` */
  function BookCounts(ratings: seq<Event>): map<string, nat> { Counts(ratings, IsbnOf) }

  /** `filtered_users`: the users with at least MinUserRatings events. */
  function ActiveUsers(ratings: seq<Event>): set<int> { Retained(UserCounts(ratings), MinUserRatings) }
  /** `filtered_books`: the ISBNs with at least MinBookRatings events. */
  function ActiveBooks(ratings: seq<Event>): set<string> { Retained(BookCounts(ratings), MinBookRatings) }

  /** The row mask `isin(users) & isin(books)`. */
  function Keeps(users: set<int>, books: set<string>): Event -> bool
  {
    (e: Event) => e.user in users && e.isbn in books
  }

  /** `filtered_ratings`: the events of active users on active books, in their original order. */
  function FilteredRatings(ratings: seq<Event>): seq<Event>
  {
    Filter(ratings, Keeps(ActiveUsers(ratings), ActiveBooks(ratings)))
  }

  /** Y, the mean-pivot of the filtered events, and R, its observed mask. */
  function Interactions(ratings: seq<Event>): (Frame<real>, Frame<int>)
  {
    var y := Pivot(FilteredRatings(ratings));
    (y, Mask(y))
  }

  /** The per-user count is the number of events of that user, the per-ISBN count the number of
      events of that ISBN; a key that no event carries has no count at all. */
  lemma CountsAreEventCounts(ratings: seq<Event>, u: int, i: string)
    ensures u in UserCounts(ratings) <==> Matching(ratings, UserOf, u) != []
    ensures u in UserCounts(ratings) ==> UserCounts(ratings)[u] == |Matching(ratings, UserOf, u)|
    ensures i in BookCounts(ratings) <==> Matching(ratings, IsbnOf, i) != []
    ensures i in BookCounts(ratings) ==> BookCounts(ratings)[i] == |Matching(ratings, IsbnOf, i)|
  {
    CountsAt(ratings, UserOf, u);
    CountsAt(ratings, IsbnOf, i);
  }

  /** The retained users are exactly those with at least 100 events, the retained ISBNs exactly
      those with at least 20. */
  lemma ActiveExactly(ratings: seq<Event>, u: int, i: string)
    ensures u in ActiveUsers(ratings) <==> |Matching(ratings, UserOf, u)| >= MinUserRatings
    ensures i in ActiveBooks(ratings) <==> |Matching(ratings, IsbnOf, i)| >= MinBookRatings
  {
    CountsAreEventCounts(ratings, u, i);
  }

  /** An event survives exactly when its user and its ISBN are both retained; the survivors are an
      order-preserving subsequence of the ratings that keeps every occurrence of a surviving event. */
  lemma FilteredExactly(ratings: seq<Event>)
    ensures IsSubsequence(FilteredRatings(ratings), ratings)
    ensures forall e :: e in FilteredRatings(ratings) <==>
      e in ratings && e.user in ActiveUsers(ratings) && e.isbn in ActiveBooks(ratings)
    ensures forall e ::
      multiset(FilteredRatings(ratings))[e] ==
      (if e.user in ActiveUsers(ratings) && e.isbn in ActiveBooks(ratings) then multiset(ratings)[e] else 0)
  {
    FilterSpec(ratings, Keeps(ActiveUsers(ratings), ActiveBooks(ratings)));
  }

  /** Y's rows are exactly the distinct ISBNs among the surviving events and its columns exactly
      the distinct users among them, so every row has at least 20 events and every column at
      least 100 in the unfiltered ratings. R has Y's rows and columns. */
  lemma InteractionKeys(ratings: seq<Event>)
    ensures Interactions(ratings).0.rows == Isbns(FilteredRatings(ratings))
    ensures Interactions(ratings).0.cols == Users(FilteredRatings(ratings))
    ensures forall i :: i in Interactions(ratings).0.rows ==> |Matching(ratings, IsbnOf, i)| >= MinBookRatings
    ensures forall j :: j in Interactions(ratings).0.cols ==> |Matching(ratings, UserOf, j)| >= MinUserRatings
    ensures Interactions(ratings).1.rows == Interactions(ratings).0.rows
    ensures Interactions(ratings).1.cols == Interactions(ratings).0.cols
  {
    var f := FilteredRatings(ratings);
    PivotRows(f);
    PivotCols(f);
    FilteredExactly(ratings);
    forall i | i in Isbns(f) ensures |Matching(ratings, IsbnOf, i)| >= MinBookRatings {
      var e :| e in f && e.isbn == i;
      ActiveExactly(ratings, e.user, i);
    }
    forall j | j in Users(f) ensures |Matching(ratings, UserOf, j)| >= MinUserRatings {
      var e :| e in f && e.user == j;
      ActiveExactly(ratings, j, e.isbn);
    }
  }

  /** All events with one (ISBN, user) pair share its user and its ISBN, so the filter keeps all
      of them or none. */
  lemma {:induction false} PairSurvivesWhole(ratings: seq<Event>, users: set<int>, books: set<string>, k: (string, int))
    ensures Matching(Filter(ratings, Keeps(users, books)), PairOf, k) ==
      if k.1 in users && k.0 in books then Matching(ratings, PairOf, k) else []
  {
    if ratings != [] {
      var p := Keeps(users, books);
      var e, rest := ratings[0], ratings[1..];
      assert ratings == [e] + rest;
      PairSurvivesWhole(rest, users, books, k);
      FilterCons(e, rest, p);
      FilterCons(e, rest, x => PairOf(x) == k);
      if p(e) {
        FilterCons(e, Filter(rest, p), x => PairOf(x) == k);
      }
    }
  }

  /** A cell of Y is present exactly when its user and its ISBN are both retained and the user
      rated the book; it is then the mean of ALL that user's ratings of that book (duplicate
      events are averaged). R is 1 exactly where Y is present and 0 elsewhere on Y's keys. */
  lemma InteractionCell(ratings: seq<Event>, i: string, j: int)
    ensures Interactions(ratings).0.At(i, j) ==
      if j in ActiveUsers(ratings) && i in ActiveBooks(ratings) && Matching(ratings, PairOf, (i, j)) != []
      then Some(MeanRating(Matching(ratings, PairOf, (i, j))))
      else None
    ensures Interactions(ratings).1.Shape() == Interactions(ratings).0.Shape()
    ensures i in Interactions(ratings).0.rows && j in Interactions(ratings).0.cols ==>
      (Interactions(ratings).1.At(i, j) == Some(1) <==> Interactions(ratings).0.At(i, j).Some?)
    ensures i in Interactions(ratings).0.rows && j in Interactions(ratings).0.cols ==>
      (Interactions(ratings).1.At(i, j) == Some(0) <==> Interactions(ratings).0.At(i, j) == None)
  {
    var f := FilteredRatings(ratings);
    PivotAt(f, i, j);
    PairSurvivesWhole(ratings, ActiveUsers(ratings), ActiveBooks(ratings), (i, j));
    PivotWellFormed(f);
    MaskAt(Pivot(f), i, j);
  }

  /** No error when nothing survives: Y and R are then the empty table, and only then. */
  lemma EmptyExactlyWhenNothingSurvives(ratings: seq<Event>)
    ensures FilteredRatings(ratings) == [] <==> Interactions(ratings).0 == Frame({}, {}, map[])
    ensures FilteredRatings(ratings) == [] ==> Interactions(ratings).1 == Frame({}, {}, map[])
  {
    var f := FilteredRatings(ratings);
    PivotRows(f);
    PivotCols(f);
    PivotWellFormed(f);
    if f != [] {
      assert f[0] in f;
      assert f[0].isbn in Isbns(f);
    } else {
      assert Isbns(f) == {};
      assert Users(f) == {};
      var y := Pivot(f);
      forall k | k in y.cells ensures false {
        GridAt(y.rows, y.cols, k.0, k.1);
      }
      assert Grid(y.rows, y.cols) == {};
    }
  }

  /** A user with fewer than 100 events contributes no column, no Y value and no R entry,
      whatever the books they rated. */
  lemma InactiveUserAbsent(ratings: seq<Event>, u: int, i: string)
    requires |Matching(ratings, UserOf, u)| < MinUserRatings
    ensures u !in Interactions(ratings).0.cols
    ensures Interactions(ratings).0.At(i, u) == None && Interactions(ratings).1.At(i, u) == None
  {
    InteractionKeys(ratings);
    InteractionCell(ratings, i, u);
    ActiveExactly(ratings, u, i);
    PivotWellFormed(FilteredRatings(ratings));
    MaskAt(Interactions(ratings).0, i, u);
  }

  /** A book with fewer than 20 events contributes no row, no Y value and no R entry. */
  lemma InactiveBookAbsent(ratings: seq<Event>, i: string, u: int)
    requires |Matching(ratings, IsbnOf, i)| < MinBookRatings
    ensures i !in Interactions(ratings).0.rows
    ensures Interactions(ratings).0.At(i, u) == None && Interactions(ratings).1.At(i, u) == None
  {
    InteractionKeys(ratings);
    InteractionCell(ratings, i, u);
    ActiveExactly(ratings, u, i);
    PivotWellFormed(FilteredRatings(ratings));
    MaskAt(Interactions(ratings).0, i, u);
  }

  /** Two events of user 7 on ISBN "0001" rated 5 and 3 pivot into the single value 4. */
  lemma DuplicatePairAveraged()
    ensures Pivot([Event(7, "0001", 5), Event(7, "0001", 3)]).At("0001", 7) == Some(4.0)
  {
    var events := [Event(7, "0001", 5), Event(7, "0001", 3)];
    PivotAt(events, "0001", 7);
    assert Matching(events, PairOf, ("0001", 7)) == events;
  }
}
