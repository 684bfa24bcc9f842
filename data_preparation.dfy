/** `prepared_data()` of data_preparation.py: the trimmed books columns, the unfiltered ratings and
    users, and the matrices Y and R. The three tables are parameters instead of module-level CSV
    loads; the users table is passed through untouched, so its type is left open. */
module DataPreparation {
  import opened Wrappers
  import opened Seqs
  import opened Ratings
  import opened Frames
  import opened Columns
  import opened Pipeline

  /** The returned tuple `(prep_books, ratings, users, Y, R)`. */
  datatype Prepared<U> = Prepared(books: seq<string>, ratings: seq<Event>, users: U,
                                  y: Frame<real>, r: Frame<int>)

  /** Fails exactly when the books table lacks one of the four dropped columns; otherwise returns
      the books columns without them, the ratings and users as given, and the pipeline's Y and R. */
  function PreparedData<U>(books: seq<string>, ratings: seq<Event>, users: U): (res: Result<Prepared<U>, DropError>)
    ensures res.Failure? <==> exists l :: l in BookColumnsDropped && l !in books
    ensures res.Success? ==> IsSubsequence(res.value.books, books)
    ensures res.Success? ==> forall c :: c in res.value.books <==> c in books && c !in BookColumnsDropped
    ensures res.Success? ==> forall c ::
      multiset(res.value.books)[c] == (if c in BookColumnsDropped then 0 else multiset(books)[c])
    ensures res.Success? ==> res.value.ratings == ratings && res.value.users == users
    ensures res.Success? ==> (res.value.y, res.value.r) == Interactions(ratings)
  {
    match DropColumns(books, BookColumnsDropped)
    case Failure(err) => Failure(err)
    case Success(prepBooks) =>
      var (y, r) := Interactions(ratings);
      Success(Prepared(prepBooks, ratings, users, y, r))
  }

  /** With the four columns present the call succeeds, every row of Y is an ISBN with at least 20 events and every column a user with
      at least 100; each Y cell is the mean of that pair's ratings or missing when the pair was not
      kept; R has Y's shape and is 1 exactly where Y is present. */
  lemma PreparedMatrices<U>(books: seq<string>, ratings: seq<Event>, users: U, i: string, j: int)
    requires forall l :: l in BookColumnsDropped ==> l in books
    ensures PreparedData(books, ratings, users).Success?
    ensures var p := PreparedData(books, ratings, users).value;
      && (i in p.y.rows ==> |Matching(ratings, IsbnOf, i)| >= MinBookRatings)
      && (j in p.y.cols ==> |Matching(ratings, UserOf, j)| >= MinUserRatings)
      && p.y.At(i, j) == (if j in ActiveUsers(ratings) && i in ActiveBooks(ratings) && Matching(ratings, PairOf, (i, j)) != []
                          then Some(MeanRating(Matching(ratings, PairOf, (i, j)))) else None)
      && p.r.Shape() == p.y.Shape()
      && (i in p.y.rows && j in p.y.cols ==> (p.r.At(i, j) == Some(1) <==> p.y.At(i, j).Some?))
      && (i in p.y.rows && j in p.y.cols ==> (p.r.At(i, j) == Some(0) <==> p.y.At(i, j) == None))
  {
    InteractionKeys(ratings);
    InteractionCell(ratings, i, j);
  }
}
